/** Concatenation of equally long byte strings, and the slice that gives one back. */
module Chunks {
  import opened Words

  predicate Sized(chunks: seq<seq<byte>>, size: nat) {
    forall i :: 0 <= i < |chunks| ==> |chunks[i]| == size
  }

  lemma Stride(size: nat, n: nat)
    ensures size * (n + 1) == size * n + size
  {
  }

  function Flatten(chunks: seq<seq<byte>>, size: nat): (r: seq<byte>)
    requires Sized(chunks, size)
    ensures |r| == size * |chunks|
  {
    if |chunks| == 0 then []
    else
      var m := |chunks| - 1;
      Stride(size, m);
      Flatten(chunks[..m], size) + chunks[m]
  }

  lemma SliceOfPrefix(a: seq<byte>, b: seq<byte>, from: nat, to: nat)
    requires from <= to <= |a|
    ensures (a + b)[from..to] == a[from..to]
  {
  }

  lemma SliceOfSuffix(a: seq<byte>, b: seq<byte>, from: nat, to: nat)
    requires from <= to <= |b|
    ensures (a + b)[|a| + from..|a| + to] == b[from..to]
  {
  }

  lemma {:induction false} FlattenSlice(chunks: seq<seq<byte>>, size: nat, i: nat)
    requires Sized(chunks, size) && i < |chunks|
    ensures size * i + size <= |Flatten(chunks, size)|
    ensures Flatten(chunks, size)[size * i..size * i + size] == chunks[i]
  {
    var m := |chunks| - 1;
    var init := Flatten(chunks[..m], size);
    if i < m {
      FlattenSlice(chunks[..m], size, i);
      SliceOfPrefix(init, chunks[m], size * i, size * i + size);
    } else {
      SliceOfSuffix(init, chunks[m], 0, size);
      assert chunks[m][0..size] == chunks[m];
    }
  }

  /** The first n chunks are a prefix of the whole. */
  lemma FlattenNext(chunks: seq<seq<byte>>, size: nat, n: nat)
    requires Sized(chunks, size) && n < |chunks|
    ensures Flatten(chunks[..n + 1], size) == Flatten(chunks[..n], size) + chunks[n]
  {
    assert chunks[..n + 1][..n] == chunks[..n];
  }

  /** Overwrites out from a position on; what is before it stays. */
  method CopyAt(out: array<byte>, at: nat, bytes: seq<byte>)
    requires at + |bytes| <= out.Length
    modifies out
    ensures out[..at + |bytes|] == old(out[..at]) + bytes
  {
    forall k | 0 <= k < |bytes| {
      out[at + k] := bytes[k];
    }
    assert out[..at] == old(out[..at]) && out[at..at + |bytes|] == bytes;
    assert out[..at + |bytes|] == out[..at] + out[at..at + |bytes|];
  }
}
