/** Decoding of one LWE word: which noise it tolerates, for which scalars, and how often a
    fixed offset can flip a bit. */
module LweDecode {
  import opened Words
  import opened ModArith
  import opened Counting
  import opened MatrixAlgebra

  /** val < B or val > -B in unsigned 32-bit arithmetic. */
  predicate InRange(val: u32, bound: u32) {
    val < bound || val > Sub(0, bound)
  }

  /** A number of magnitude below the bound. */
  predicate Below(x: int, bound: u32) {
    var b: int := bound;
    -b < x < b
  }

  function DecodeWord(v: u32, t: u32, bound: u32): Result<u32> {
    if InRange(v, bound) then Ok(0)
    else if InRange(Sub(v, t), bound) then Ok(1)
    else Reject
  }

  lemma InRangeWords(val: u32, bound: u32)
    requires bound >= 1
    ensures InRange(val, bound) <==> val < bound || TWO32 - bound < val
  {
  }

  /** The range test accepts exactly the words of numbers of magnitude below B; a bound of zero
      lets every word but zero through instead. */
  lemma InRangeExact(val: u32, bound: u32)
    ensures bound >= 1 ==> (InRange(val, bound) <==> exists x :: Below(x, bound) && Wrap(x) == val)
    ensures bound == 0 ==> (InRange(val, bound) <==> val != 0)
  {
    if bound >= 1 {
      hide Wrap, InRange;
      if InRange(val, bound) {
        var d := Centred(val, bound);
      }
      forall x | Below(x, bound) && Wrap(x) == val ensures InRange(val, bound) {
        NoiseInRange(x, bound);
      }
    } else {
      WrapSmall(0);
    }
  }

  lemma WrapShift(y: int)
    ensures Wrap(y + TWO32) == Wrap(y)
  {
    ModShift(y, 1, 0x1_0000_0000);
  }

  lemma NoiseInRange(x: int, bound: u32)
    requires Below(x, bound)
    ensures InRange(Wrap(x), bound)
  {
    hide Wrap, InRange;
    InRangeWords(Wrap(x), bound);
    if x >= 0 {
      WrapSmall(x);
    } else {
      WrapShift(x);
      WrapSmall(x + TWO32);
    }
  }

  /** An honest word: noise, plus the scalar when the bit is set. */
  function Honest(x: int, bit: u32, t: u32): u32 {
    Wrap(x + bit * t)
  }

  /** The scalar keeps the two intervals apart. */
  predicate Separates(t: u32, bound: u32) {
    var b: int := bound;
    2 * b - 1 <= t <= TWO32 - 2 * b + 1
  }

  lemma HonestDecodes(x: int, bit: u32, t: u32, bound: u32)
    requires Below(x, bound) && bit <= 1 && Separates(t, bound)
    ensures DecodeWord(Honest(x, bit, t), t, bound) == Ok(bit)
  {
    NoiseInRange(x, bound);
    if bit == 1 {
      WrapSmall(x + t);
      InRangeWords(x + t, bound);
    }
  }

  /** The word of some noise below the bound, plus the scalar when the bit is set. */
  ghost predicate Explained(v: u32, t: u32, bound: u32, bit: u32) {
    exists x :: Below(x, bound) && v == Wrap(x + bit * t)
  }

  /** The word of a number plus the scalar, less the scalar. */
  lemma LessScalar(v: u32, t: u32, x: int)
    ensures v == Wrap(x + t) <==> Sub(v, t) == Wrap(x)
  {
    hide Wrap;
    WrapSmall(v);
    WrapSmall(t);
    WrapSub(x + t, t);
    WrapAdd(v - t, t);
    WrapAdd(x, t);
  }

  /** A word is read as zero exactly when noise alone explains it, as one exactly when only noise and the
      scalar do, and rejected exactly when nothing does. */
  lemma DecodeWordExact(v: u32, t: u32, bound: u32)
    requires bound >= 1
    ensures DecodeWord(v, t, bound) == Ok(0) <==> Explained(v, t, bound, 0)
    ensures DecodeWord(v, t, bound) == Ok(1) <==> Explained(v, t, bound, 1) && !Explained(v, t, bound, 0)
    ensures DecodeWord(v, t, bound) == Reject <==> !Explained(v, t, bound, 0) && !Explained(v, t, bound, 1)
  {
    ExplainedInRange(v, t, bound, 0);
    ExplainedInRange(v, t, bound, 1);
    WrapSmall(v);
    assert Sub(v, 0) == v;
  }

  lemma ExplainedInRange(v: u32, t: u32, bound: u32, bit: u32)
    requires bound >= 1 && bit <= 1
    ensures Explained(v, t, bound, bit) <==> InRange(if bit == 1 then Sub(v, t) else v, bound)
  {
    hide Wrap, InRange, Sub;
    var u := if bit == 1 then Sub(v, t) else v;
    InRangeExact(u, bound);
    forall x ensures v == Wrap(x + bit * t) <==> u == Wrap(x) {
      if bit == 1 {
        LessScalar(v, t, x);
        assert x + bit * t == x + t;
      } else {
        assert bit * t == 0;
      }
    }
  }

  /** Noise for which a set bit is read as zero, when the scalar is too close to zero. */
  lemma Confused(t: u32, bound: u32) returns (x: int)
    requires 1 <= bound && !Separates(t, bound)
    ensures Below(x, bound) && DecodeWord(Honest(x, 1, t), t, bound) == Ok(0)
  {
    hide InRange;
    var b: int := bound;
    var low := t < 2 * b - 1;
    x := if low then 1 - b else b - 1;
    var y := x + t;
    WrapShift(y - TWO32);
    assert Below(if low then y else y - TWO32, bound);
    NoiseInRange(if low then y else y - TWO32, bound);
    assert x + 1 * t == y;
  }

  /** Decoding is right for all noise below the bound and both bits if and only if the scalar,
      which the client draws without looking, lies between 2B - 1 and 2^32 - 2B + 1. */
  lemma DecodingExact(t: u32, bound: u32)
    requires 1 <= bound
    ensures (forall x, bit: u32 | Below(x, bound) && bit <= 1 :: DecodeWord(Honest(x, bit, t), t, bound) == Ok(bit))
       <==> Separates(t, bound)
  {
    if Separates(t, bound) {
      forall x, bit: u32 | Below(x, bound) && bit <= 1
        ensures DecodeWord(Honest(x, bit, t), t, bound) == Ok(bit)
      {
        HonestDecodes(x, bit, t, bound);
      }
    } else {
      var x := Confused(t, bound);
      assert DecodeWord(Honest(x, 1, t), t, bound) != Ok(1);
    }
  }

  /** A distance takes every noise below the bound out of range if and only if it separates. */
  lemma AlwaysOut(d: u32, bound: u32)
    requires bound >= 1
    ensures (forall x | Below(x, bound) :: !InRange(Wrap(x + d), bound)) <==> Separates(d, bound)
  {
    hide InRange, Wrap;
    if Separates(d, bound) {
      forall x | Below(x, bound) ensures !InRange(Wrap(x + d), bound) {
        HonestDecodes(x, 1, d, bound);
        assert x + 1 * d == x + d;
      }
    } else {
      var x := Confused(d, bound);
      assert x + 1 * d == x + d;
    }
  }

  /** An offset on an honest word leaves nothing to explain it, for all noise below the bound, if and only if
      the offset, and the offset moved by the scalar towards the other bit, separate. */
  lemma StrayExact(bit: u32, t: u32, offset: int, bound: u32)
    requires bound >= 1 && bit <= 1
    ensures (forall x | Below(x, bound) :: DecodeWord(Wrap(x + bit * t + offset), t, bound) == Reject)
       <==> Separates(Wrap(offset), bound) && Separates(Wrap(if bit == 1 then offset + t else offset - t), bound)
  {
    hide InRange, Wrap, DecodeWord, Separates;
    var moved := if bit == 1 then offset + t else offset - t;
    AlwaysOut(Wrap(offset), bound);
    AlwaysOut(Wrap(moved), bound);
    forall x | Below(x, bound)
      ensures DecodeWord(Wrap(x + bit * t + offset), t, bound) == Reject
         <==> !InRange(Wrap(x + Wrap(offset)), bound) && !InRange(Wrap(x + Wrap(moved)), bound)
    {
      StrayWord(x, bit, t, offset, bound);
    }
  }

  lemma StrayWord(x: int, bit: u32, t: u32, offset: int, bound: u32)
    requires bit <= 1
    ensures DecodeWord(Wrap(x + bit * t + offset), t, bound) == Reject
       <==> !InRange(Wrap(x + Wrap(offset)), bound)
            && !InRange(Wrap(x + Wrap(if bit == 1 then offset + t else offset - t)), bound)
  {
    hide InRange, Wrap;
    var moved := if bit == 1 then offset + t else offset - t;
    WrapAdd(offset, x);
    WrapAdd(moved, x);
    WrapSmall(t);
    WrapSub(x + bit * t + offset, t);
    if bit == 1 {
      assert x + bit * t + offset == x + moved;
    } else {
      assert x + bit * t + offset == x + offset;
    }
  }

  // ---------- how many scalars let a fixed offset flip a bit ----------

  /** A fixed offset on an honest word makes the client accept the opposite bit. */
  predicate Flips(t: u32, x: int, bit: u32, offset: int, bound: u32) {
    bit <= 1 && DecodeWord(Wrap(x + bit * t + offset), t, bound) == Ok(1 - bit)
  }

  function Offset(c: int, up: bool, d: int): u32 {
    Wrap(if up then c + d else c - d)
  }

  /** The words at the distances lo to hi - 1 from c, going up or going down. */
  function Around(c: int, up: bool, lo: int, hi: int): (s: set<u32>)
    requires lo <= hi
    ensures |s| <= hi - lo
    ensures forall d :: lo <= d < hi ==> Offset(c, up, d) in s
    decreases hi - lo
  {
    if lo == hi then {} else Around(c, up, lo, hi - 1) + {Offset(c, up, hi - 1)}
  }

  /** A word in range is the word of a number of magnitude below the bound. */
  lemma Centred(val: u32, bound: u32) returns (d: int)
    requires InRange(val, bound) && bound >= 1
    ensures Below(d, bound) && Wrap(d) == val
  {
    InRangeWords(val, bound);
    if val < bound {
      d := val;
      WrapSmall(val);
    } else {
      var v: int := val;
      d := v - TWO32;
      WrapShift(d);
      WrapSmall(val);
    }
  }

  /** The scalars that can flip the bit: one for every distance below the bound. */
  function Suspects(x: int, bit: u32, offset: int, bound: u32): (s: set<u32>)
    requires bound >= 1
    ensures |s| <= 2 * bound - 1
  {
    var b: int := bound;
    if bit == 0 then Around(x + offset, false, 1 - b, b) else Around(-(x + offset), true, 1 - b, b)
  }

  lemma DownFrom(c: int, d: int, t: u32)
    requires Wrap(d) == Sub(Wrap(c), t)
    ensures Offset(c, false, d) == t
  {
    WrapSmall(t);
    WrapSub(c, t);
    WrapSub(c, d);
    WrapSub(c, c - t);
  }

  lemma UpFrom(c: int, d: int, t: u32)
    requires Wrap(d) == Wrap(c + t)
    ensures Offset(-c, true, d) == t
  {
    WrapSmall(t);
    WrapSub(d, c);
    WrapSub(c + t, c);
  }

  lemma FlipLocated(t: u32, x: int, bit: u32, offset: int, bound: u32)
    requires bound >= 1 && Flips(t, x, bit, offset, bound)
    ensures t in Suspects(x, bit, offset, bound)
  {
    hide Wrap, Offset;
    var c := x + offset;
    if bit == 0 {
      var d := Centred(Sub(Wrap(c), t), bound);
      DownFrom(c, d, t);
    } else {
      assert x + bit * t + offset == c + t;
      var d := Centred(Wrap(c + t), bound);
      UpFrom(c, d, t);
    }
  }

  /** At most 2B - 1 of the 2^32 scalars let a fixed offset on a fixed honest word flip its bit. */
  lemma FlipBound(ts: set<u32>, x: int, bit: u32, offset: int, bound: u32)
    requires bound >= 1 && forall t :: t in ts ==> Flips(t, x, bit, offset, bound)
    ensures |ts| <= 2 * bound - 1
  {
    var s := Suspects(x, bit, offset, bound);
    forall t | t in ts ensures t in s {
      FlipLocated(t, x, bit, offset, bound);
    }
    SubsetSize(ts, s);
  }
}
