/** The point-query client: padding, XOR secret sharing, reconstruction and proof checking. */
module PointClient {
  import opened Words
  import opened ModArith
  import opened MerkleSpec
  import opened Merkle
  import opened XorAlgebra
  import opened PointServer

  // ---------- padding ----------

  const SIGNAL: byte := 0x80

  function PadWithSignalByte(block: seq<byte>): seq<byte> {
    block + [SIGNAL]
  }

  /** Pads to a multiple of the block length. */
  function PadBlock(block: seq<byte>, blockLen: nat): seq<byte>
    requires blockLen >= 1
  {
    PadWithSignalByte(block) + Zeros(blockLen - (|block| + 1) % blockLen)
  }

  function TrimZeros(block: seq<byte>): (r: seq<byte>)
    ensures r <= block
  {
    if |block| > 0 && block[|block| - 1] == 0 then TrimZeros(block[..|block| - 1]) else block
  }

  /** Drops trailing zeros and the byte before them; None stands for the source's stop when only
      zeros are there. */
  function UnPadBlock(block: seq<byte>): (r: Option<seq<byte>>)
    ensures r.Some? ==> r.value < block
  {
    var trimmed := TrimZeros(block);
    if |trimmed| == 0 then None else Some(trimmed[..|trimmed| - 1])
  }

  lemma {:induction false} TrimAppendedZeros(block: seq<byte>, n: nat)
    ensures TrimZeros(block + Zeros(n)) == TrimZeros(block)
  {
    if n == 0 {
      assert block + Zeros(0) == block;
    } else {
      assert (block + Zeros(n))[..|block| + n - 1] == block + Zeros(n - 1);
      TrimAppendedZeros(block, n - 1);
    }
  }

  /** Unpadding drops the zeros and whatever byte stands before them. */
  lemma UnpadDropped(block: seq<byte>, last: byte, n: nat)
    requires last != 0
    ensures UnPadBlock(block + [last] + Zeros(n)) == Some(block)
  {
    TrimAppendedZeros(block + [last], n);
    assert (block + [last])[..|block|] == block;
  }

  /** Unpadding recovers any block, also one that itself ends in zeros, from signal byte and zeros. */
  lemma UnpadExtended(block: seq<byte>, n: nat)
    ensures UnPadBlock(PadWithSignalByte(block) + Zeros(n)) == Some(block)
  {
    hide UnPadBlock;
    UnpadDropped(block, SIGNAL, n);
  }

  /** Padding appends 0x80 and as few zeros as align the block, but at least one: when the signal byte
      aligns it already, a whole block of zeros. */
  lemma PadBlockShape(block: seq<byte>, blockLen: nat)
    requires blockLen >= 1
    ensures var n := |PadBlock(block, blockLen)| - |block| - 1;
            1 <= n <= blockLen && PadBlock(block, blockLen) == block + [0x80] + seq(n, _ => 0)
  {
  }

  lemma PadBlockRoundTrip(block: seq<byte>, blockLen: nat)
    requires blockLen >= 1
    ensures UnPadBlock(PadBlock(block, blockLen)) == Some(block)
    ensures |PadBlock(block, blockLen)| % blockLen == 0
  {
    UnpadExtended(block, blockLen - (|block| + 1) % blockLen);
    var n := |block| + 1;
    ModUnique(n + (blockLen - n % blockLen), n / blockLen + 1, 0, blockLen);
  }

  // ---------- opening a block ----------

  /** Stopped stands for the source's panics on malformed blocks and on unknown types. */
  datatype Outcome = Accepted(data: seq<byte>) | Rejected | Stopped

  /** Splits an unpadded record, with the dropped bytes behind it, into data and proof and checks the
      proof. */
  function OpenRecord(h: Hash256, root: seq<byte>, proofLen: nat, record: seq<byte>, spare: seq<byte>): Outcome {
    if |record| < proofLen then Stopped
    else
      match Decoded(record[|record| - proofLen..], spare)
      case None => Stopped
      case Some(proof) =>
        var data := record[..|record| - proofLen];
        if ProofRoot(h, data, proof) == root then Accepted(data) else Rejected
  }

  function Opened(h: Hash256, info: Info, block: seq<byte>): Outcome {
    if info.pirType == "classical" || info.pirType == "" then Accepted(block)
    else if info.pirType == "merkle" then
      match UnPadBlock(block)
      case None => Stopped
      case Some(record) => OpenRecord(h, info.root, info.proofLen, record, block[|record|..])
    else Stopped
  }

  /** The classical types return any block as it is; of the others only "merkle" accepts. */
  lemma OtherTypes(h: Hash256, info: Info, block: seq<byte>)
    ensures info.pirType in {"classical", ""} ==> Opened(h, info, block) == Accepted(block)
    ensures info.pirType !in {"classical", "", "merkle"} ==> Opened(h, info, block) == Stopped
  {
    hide UnPadBlock, OpenRecord;
  }

  /** The block is data, an encoded proof of the announced length, one non-zero byte and n zeros. */
  predicate Splits(info: Info, block: seq<byte>, data: seq<byte>, p: seq<byte>, last: byte, n: nat) {
    block == data + p + [last] + Zeros(n) && |p| == info.proofLen && last != 0
  }

  /** A block of this form is accepted exactly with a proof that decodes and recomputes the root, rejected
      with another proof, and stops the client when the proof does not decode. */
  lemma SplitOpens(h: Hash256, info: Info, block: seq<byte>, data: seq<byte>, p: seq<byte>, last: byte, n: nat)
    requires info.pirType == "merkle" && Splits(info, block, data, p, last, n)
    ensures Opened(h, info, block)
         == match Decoded(p, [last] + Zeros(n))
            case None => Stopped
            case Some(proof) => if ProofRoot(h, data, proof) == info.root then Accepted(data) else Rejected
  {
    hide UnPadBlock, Decoded, ProofRoot;
    UnpadDropped(data + p, last, n);
    assert data + p + [last] + Zeros(n) == (data + p) + ([last] + Zeros(n));
    assert block[|data + p|..] == [last] + Zeros(n);
    assert (data + p)[|data|..] == p && (data + p)[..|data|] == data;
  }

  /** Every other block stops the client. */
  lemma OnlySplitsOpen(h: Hash256, info: Info, block: seq<byte>)
    requires info.pirType == "merkle" && Opened(h, info, block) != Stopped
    ensures exists data, p, last, n :: Splits(info, block, data, p, last, n)
  {
    hide Decoded, ProofRoot;
    TrimmedEnds(block);
    var record := UnPadBlock(block).value;
    var data, p := record[..|record| - info.proofLen], record[|record| - info.proofLen..];
    assert record == data + p;
    assert Splits(info, block, data, p, TrimZeros(block)[|record|], |block| - |record| - 1);
  }

  /** Trimming leaves no zero at the end and drops nothing but zeros. */
  lemma {:induction false} TrimmedEnds(block: seq<byte>)
    ensures var t := TrimZeros(block);
            (|t| > 0 ==> t[|t| - 1] != 0) && block == t + Zeros(|block| - |t|)
  {
    if |block| > 0 && block[|block| - 1] == 0 {
      TrimmedEnds(block[..|block| - 1]);
    }
  }

  // ---------- the client ----------

  datatype State = State(ix: nat, iy: nat)

  /** Query vectors have one bit per column, rounded up to bytes with a spare. */
  function VectorLen(info: Info): (n: nat)
    ensures 8 * (n - 1) <= info.numColumns < 8 * n
  {
    info.numColumns / 8 + 1
  }

  /** The random bytes cut into vectors. */
  function Parts(random: seq<byte>, n: nat, count: nat): (r: seq<seq<byte>>)
    requires |random| == n * count
    ensures |r| == count && AllSized(r, n)
  {
    seq(count, k requires 0 <= k < count => PartAt(random, n, count, k))
  }

  function PartAt(random: seq<byte>, n: nat, count: nat, k: nat): (r: seq<byte>)
    requires |random| == n * count && k < count
    ensures |r| == n
  {
    RowBounds(n, count, k);
    random[n * k..n * (k + 1)]
  }

  /** Every share but the last is its own stretch of the random bytes, taken in order; the shares have
      numColumns / 8 + 1 bytes. */
  lemma SharesAreRandom(info: Info, iy: nat, random: seq<byte>, count: nat, k: nat, i: nat)
    requires iy < info.numColumns && |random| == (info.numColumns / 8 + 1) * count && k < count
    requires i < info.numColumns / 8 + 1
    ensures var n := info.numColumns / 8 + 1;
            var shares := Shares(iy, VectorLen(info), Parts(random, VectorLen(info), count));
            && |shares| == count + 1 && |shares[k]| == n && n * k + i < |random| && shares[k][i] == random[n * k + i]
  {
    hide XorAll;
    RowBounds(VectorLen(info), count, k);
  }

  /** Every answer reaches past row ix. */
  predicate Cover(answers: seq<seq<byte>>, ix: nat, size: nat) {
    forall k :: 0 <= k < |answers| ==> size * (ix + 1) <= |answers[k]|
  }

  /** The stretches of all answers that hold row ix. */
  function RowsAt(answers: seq<seq<byte>>, ix: nat, size: nat): (r: seq<seq<byte>>)
    requires Cover(answers, ix, size)
    ensures |r| == |answers| && AllSized(r, size)
  {
    seq(|answers|, k requires 0 <= k < |answers| => RowSlice(answers[k], ix, size))
  }

  function RowSlice(answer: seq<byte>, ix: nat, size: nat): (r: seq<byte>)
    requires size * (ix + 1) <= |answer|
    ensures |r| == size
  {
    RowBounds(size, ix + 1, ix);
    answer[size * ix..size * (ix + 1)]
  }

  lemma XorPrefixWhole(a: seq<byte>, v: seq<byte>)
    requires |a| == |v|
    ensures XorPrefix(a, v) == Xor(a, v)
  {
  }

  /** The arrays hold these vectors. */
  ghost predicate Hold(arrays: seq<array<byte>>, vectors: seq<seq<byte>>)
    reads arrays
  {
    |arrays| == |vectors| && forall k :: 0 <= k < |arrays| ==> arrays[k][..] == vectors[k]
  }

  /** The query vectors of all servers: two keys for two servers, XOR shares otherwise. */
  function Queries(info: Info, dpf: Dpf, iy: nat, numServers: nat, random: seq<byte>): (r: seq<seq<byte>>)
    requires iy < info.numColumns && numServers >= 1
    requires numServers != 2 ==> |random| == VectorLen(info) * (numServers - 1)
    ensures |r| == numServers
  {
    if numServers == 2 then
      var (k0, k1) := dpf.gen(iy, BitLen(info.numColumns), random);
      [k0, k1]
    else
      Shares(iy, VectorLen(info), Parts(random, VectorLen(info), numServers - 1))
  }

  class Client {
    const info: Info
    const hash: Hash256
    const dpf: Dpf
    var state: Option<State>

    constructor (info: Info, hash: Hash256, dpf: Dpf)
      ensures this.info == info && this.hash == hash && this.dpf == dpf && state == None
    {
      this.info, this.hash, this.dpf, state := info, hash, dpf, None;
    }

    /** Remembers row and column of the index; two servers get the keys of the library, any other
        number gets XOR shares. */
    method Query(index: nat, numServers: nat, random: seq<byte>) returns (vectors: seq<array<byte>>)
      requires info.numColumns >= 1 && numServers >= 1
      requires numServers != 2 ==> |random| == VectorLen(info) * (numServers - 1)
      modifies this
      ensures state == Some(State(index / info.numColumns, index % info.numColumns))
      ensures Hold(vectors, Queries(info, dpf, index % info.numColumns, numServers, random))
      ensures numServers == 2 ==>
                forall bits | Domain(bits, info.numColumns) ::
                  var keys := dpf.gen(index % info.numColumns, bits, random);
                  |vectors| == 2 && vectors[0][..] == keys.0 && vectors[1][..] == keys.1
      ensures forall v :: v in vectors ==> fresh(v)
    {
      hide Shares, Parts, VectorLen, Domain, BitLen;
      forall bits ensures Domain(bits, info.numColumns) <==> bits == BitLen(info.numColumns) {
        DomainExact(bits, info.numColumns);
      }
      state := Some(State(index / info.numColumns, index % info.numColumns));
      if numServers == 2 {
        var (k0, k1) := dpf.gen(index % info.numColumns, BitLen(info.numColumns), random);
        var v0 := ArrayOf(k0);
        var v1 := ArrayOf(k1);
        return [v0, v1];
      }
      vectors := SecretShare(index % info.numColumns, numServers, random);
    }

    method SecretShare(iy: nat, numServers: nat, random: seq<byte>) returns (vectors: seq<array<byte>>)
      requires iy < info.numColumns && numServers >= 1
      requires |random| == VectorLen(info) * (numServers - 1)
      ensures Hold(vectors, Shares(iy, VectorLen(info), Parts(random, VectorLen(info), numServers - 1)))
      ensures forall v :: v in vectors ==> fresh(v)
    {
      hide Mask, XorAll, PartAt;
      var n := VectorLen(info);
      ghost var parts := Parts(random, n, numServers - 1);
      var last := new byte[n](_ => 0);
      MaskIsShift(iy % 8);
      last[iy / 8] := 1 << (iy % 8);
      assert last[..] == Unit(iy, n);
      vectors := [];
      var k := 0;
      assert XorAll(Unit(iy, n), parts[..0]) == Unit(iy, n) by { XorAllNone(Unit(iy, n)); }
      hide Unit;
      while k < numServers - 1
        invariant 0 <= k <= numServers - 1 && |vectors| == k
        invariant forall i :: 0 <= i < k ==> fresh(vectors[i]) && vectors[i] != last && vectors[i][..] == parts[i]
        invariant last[..] == XorAll(Unit(iy, n), parts[..k])
      {
        var v := AddShare(last, Unit(iy, n), random, n, numServers - 1, k);
        vectors := vectors + [v];
        k := k + 1;
      }
      assert parts[..k] == parts;
      vectors := vectors + [last];
    }

    /** XORs the row of every answer; None stands for a slice past the end of one, on which the source
        stops. */
    method ReconstructValue(answers: seq<seq<byte>>) returns (r: Option<array<byte>>)
      requires state.Some?
      ensures r.Some? <==> Cover(answers, state.value.ix, info.blockSize)
      ensures r.Some? ==>
                && fresh(r.value)
                && r.value[..] == XorAll(Zeros(info.blockSize), RowsAt(answers, state.value.ix, info.blockSize))
    {
      hide XorAll;
      var bs, ix := info.blockSize, state.value.ix;
      var sum := new byte[bs](_ => 0);
      var k := 0;
      assert sum[..] == Zeros(bs) && RowsAt([], ix, bs) == [];
      XorAllNone(Zeros(bs));
      while k < |answers|
        invariant 0 <= k <= |answers| && Cover(answers[..k], ix, bs)
        invariant sum[..] == XorAll(Zeros(bs), RowsAt(answers[..k], ix, bs))
      {
        if bs * (ix + 1) > |answers[k]| {
          return None;
        }
        ghost var rows := RowsAt(answers[..k + 1], ix, bs);
        assert RowsAt(answers[..k], ix, bs) == rows[..k];
        RowBounds(bs, ix + 1, ix);
        assert sum[0..bs] == sum[..];
        XorInto(sum, 0, bs, answers[k][bs * ix..bs * (ix + 1)]);
        assert sum[0..bs] == sum[..];
        XorPrefixWhole(XorAll(Zeros(bs), rows[..k]), rows[k]);
        XorAllNext(Zeros(bs), rows, k);
        assert rows[..k + 1] == rows;
        k := k + 1;
      }
      assert answers[..k] == answers;
      r := Some(sum);
    }

    /** Reconstructs the block and, for "merkle", accepts the data only with a valid proof. */
    method Reconstruct(answers: seq<seq<byte>>) returns (r: Outcome)
      requires state.Some?
      ensures var ix, size := state.value.ix, info.blockSize;
              && (!Cover(answers, ix, size) ==> r == Stopped)
              && (Cover(answers, ix, size) ==>
                    var block := XorAll(Zeros(size), RowsAt(answers, ix, size));
                    && r == Opened(hash, info, block)
                    && (info.pirType in {"classical", ""} ==> r == Accepted(block))
                    && (info.pirType !in {"classical", "", "merkle"} ==> r == Stopped))
    {
      hide XorAll, Decoded, ProofRoot;
      if info.pirType != "classical" && info.pirType != "" && info.pirType != "merkle" {
        return Stopped;
      }
      var value := ReconstructValue(answers);
      if value.None? {
        return Stopped;
      }
      var sum := value.value;
      if info.pirType == "classical" || info.pirType == "" {
        return Accepted(sum[..]);
      }
      var unpadded := UnPadBlock(sum[..]);
      if unpadded.None? || |unpadded.value| < info.proofLen {
        return Stopped;
      }
      var record := unpadded.value;
      var data := record[..|record| - info.proofLen];
      var proof := DecodeProof(record[|record| - info.proofLen..], sum[|record|..]);
      if proof.None? {
        return Stopped;
      }
      var verified := VerifyProofUsing(data, proof.value, info.root, hash);
      r := if verified then Accepted(data) else Rejected;
    }
  }

  /** Copies random vector k and XORs it into the last share. */
  method AddShare(last: array<byte>, ghost unit: seq<byte>, random: seq<byte>, n: nat, count: nat, k: nat)
    returns (v: array<byte>)
    requires last.Length == n == |unit| && |random| == n * count && k < count
    requires last[..] == XorAll(unit, Parts(random, n, count)[..k])
    modifies last
    ensures fresh(v) && v[..] == Parts(random, n, count)[k]
    ensures last[..] == XorAll(unit, Parts(random, n, count)[..k + 1])
  {
    hide XorAll, PartAt, Xor, XorPrefix;
    ghost var parts := Parts(random, n, count);
    v := CopyPart(random, n, count, k);
    assert last[0..n] == last[..];
    XorInto(last, 0, n, v[..]);
    assert last[0..n] == last[..];
    XorPrefixWhole(XorAll(unit, parts[..k]), parts[k]);
    XorAllNext(unit, parts, k);
  }

  method ArrayOf(s: seq<byte>) returns (a: array<byte>)
    ensures fresh(a) && a[..] == s
  {
    a := new byte[|s|](i requires 0 <= i < |s| => s[i]);
  }

  method CopyPart(random: seq<byte>, n: nat, count: nat, k: nat) returns (v: array<byte>)
    requires |random| == n * count && k < count
    ensures fresh(v) && v[..] == PartAt(random, n, count, k)
  {
    RowBounds(n, count, k);
    v := new byte[n](i requires 0 <= i < n => random[n * k + i]);
  }

  lemma XorAllNone(acc: seq<byte>)
    ensures XorAll(acc, []) == acc
  {
  }

  lemma XorAllNext(acc: seq<byte>, vectors: seq<seq<byte>>, k: nat)
    requires AllSized(vectors, |acc|) && k < |vectors|
    ensures XorAll(acc, vectors[..k + 1]) == Xor(XorAll(acc, vectors[..k]), vectors[k])
  {
    hide Xor;
    assert vectors[..k + 1][..k] == vectors[..k];
  }
}
