/** The repetition code: 2t + 1 copies, decoded by a majority test on the first word. */
module Ecc {
  import opened Words

  function Count(words: seq<u32>, w: u32): nat {
    if |words| == 0 then 0
    else Count(words[..|words| - 1], w) + if words[|words| - 1] == w then 1 else 0
  }

  predicate Majority(words: seq<u32>, w: u32) {
    2 * Count(words, w) > |words|
  }

  /** Positions at which a word of 2t + 1 differs from the repetition of w. */
  function Errors(words: seq<u32>, w: u32): nat
    ensures Errors(words, w) + Count(words, w) == |words|
  {
    if |words| == 0 then 0
    else Errors(words[..|words| - 1], w) + if words[|words| - 1] == w then 0 else 1
  }

  /** The decoder's result as a function of the received word. */
  function Decoded(words: seq<u32>): Result<u32>
    requires |words| >= 1
  {
    if Majority(words, words[0]) then Ok(words[0]) else Reject
  }

  class RepetitionCode {
    const t: nat

    constructor (t: nat)
      ensures this.t == t
    {
      this.t := t;
    }

    method Encode(w: u32) returns (out: array<u32>)
      ensures fresh(out) && out.Length == 2 * t + 1 && forall i :: 0 <= i < out.Length ==> out[i] == w
    {
      out := new u32[2 * t + 1];
      var i := 0;
      while i < out.Length
        invariant 0 <= i <= out.Length
        invariant forall k :: 0 <= k < i ==> out[k] == w
      {
        out[i] := w;
        i := i + 1;
      }
    }

    /** The first word, when more than half of all words equal it. The vote counter never
        replaces the candidate and does not enter the result. */
    method Decode(words: seq<u32>) returns (r: Result<u32>)
      requires |words| >= 1
      ensures r == Decoded(words)
    {
      var decoded, votes := words[0], 1;
      var i := 1;
      while i < |words|
        invariant 1 <= i <= |words|
      {
        votes := if words[i] == decoded then votes + 1 else votes - 1;
        i := i + 1;
      }
      var count: nat := 0;
      i := 0;
      while i < |words|
        invariant 0 <= i <= |words|
        invariant count == Count(words[..i], decoded)
      {
        assert words[..i + 1][..i] == words[..i];
        if words[i] == decoded {
          count := count + 1;
        }
        i := i + 1;
      }
      assert words[..i] == words;
      r := if count > |words| / 2 then Ok(decoded) else Reject;
    }
  }

  lemma {:induction false} CountIsCardinality(words: seq<u32>, w: u32)
    ensures Count(words, w) == |set i | 0 <= i < |words| && words[i] == w|
  {
    var s := set i | 0 <= i < |words| && words[i] == w;
    if |words| == 0 {
      assert s == {};
    } else {
      var m := |words| - 1;
      var t := set i | 0 <= i < |words[..m]| && words[..m][i] == w;
      CountIsCardinality(words[..m], w);
      if words[m] == w {
        assert s == t + {m};
      } else {
        assert s == t;
      }
    }
  }

  /** A word is decoded if and only if it stands first and at more than half of all positions. */
  lemma DecodedExact(words: seq<u32>, w: u32)
    requires |words| >= 1
    ensures Decoded(words) == Ok(w)
       <==> words[0] == w && 2 * |set i | 0 <= i < |words| && words[i] == w| > |words|
  {
    CountIsCardinality(words, w);
  }

  lemma {:induction false} CountsDisjoint(words: seq<u32>, v: u32, w: u32)
    requires v != w
    ensures Count(words, v) + Count(words, w) <= |words|
  {
    if |words| > 0 {
      CountsDisjoint(words[..|words| - 1], v, w);
    }
  }

  /** If the received word has a majority at all, decoding gives it exactly when it stands first. */
  lemma MajorityDecoded(words: seq<u32>, w: u32)
    requires |words| >= 1 && Majority(words, w)
    ensures Decoded(words) == if words[0] == w then Ok(w) else Reject
  {
    if words[0] != w {
      CountsDisjoint(words, words[0], w);
    }
  }

  /** With at most t errors in 2t + 1 words no wrong word is ever decoded; the right one is
      decoded exactly when the first position is intact. */
  lemma ErrorsCorrected(words: seq<u32>, w: u32, t: nat)
    requires |words| == 2 * t + 1 && Errors(words, w) <= t
    ensures Decoded(words) == if words[0] == w then Ok(w) else Reject
  {
    MajorityDecoded(words, w);
  }

  /** Two words, the first one different: [1, 0, 0] has majority 0 and is rejected. */
  lemma FirstWordMatters()
    ensures Majority([1, 0, 0], 0) && Decoded([1, 0, 0]) == Reject
  {
    var words: seq<u32> := [1, 0, 0];
    assert words[..2] == [1, 0] && words[..2][..1] == [1] && words[..2][..1][..0] == [];
    assert Count(words, 0) == Count(words[..2], 0) + 1;
    assert Count(words[..2], 0) == Count(words[..2][..1], 0) + 1;
    MajorityDecoded(words, 0);
  }

  function Repeated(w: u32, n: nat): (r: seq<u32>)
    ensures |r| == n
  {
    seq(n, _ => w)
  }

  lemma {:induction false} RepeatedErrors(w: u32, n: nat)
    ensures Errors(Repeated(w, n), w) == 0
  {
    if n > 0 {
      assert Repeated(w, n)[..n - 1] == Repeated(w, n - 1);
      RepeatedErrors(w, n - 1);
    }
  }

  lemma {:induction false} OneError(words: seq<u32>, w: u32, v: u32)
    requires |words| >= 1 && Errors(words, w) == 0
    ensures Errors(words[0 := v], w) <= 1
  {
    var m := |words| - 1;
    if m > 0 {
      assert words[0 := v][..m] == words[..m][0 := v];
      OneError(words[..m], w, v);
    }
  }

  /** Correction of every pattern of at most t errors holds if and only if t is zero. */
  lemma CorrectionExact(t: nat, w: u32)
    ensures (forall words: seq<u32> | |words| == 2 * t + 1 && Errors(words, w) <= t :: Decoded(words) == Ok(w))
       <==> t == 0
  {
    if t == 0 {
      forall words: seq<u32> | |words| == 1 && Errors(words, w) <= 0 ensures Decoded(words) == Ok(w) {
        assert words[..0] == [];
        assert Errors(words, w) == Errors(words[..0], w) + if words[0] == w then 0 else 1;
        ErrorsCorrected(words, w, 0);
      }
    } else {
      var clean, v := Repeated(w, 2 * t + 1), if w == 0 then 1 else 0;
      RepeatedErrors(w, 2 * t + 1);
      OneError(clean, w, v);
      ErrorsCorrected(clean[0 := v], w, t);
      assert Decoded(clean[0 := v]) == Reject;
    }
  }
}
