/** Key generation and evaluation of the function secret sharing scheme as they run: loops over
    buffers that are allocated once and overwritten at every call. */
module FssScheme {
  import opened Words
  import opened Field
  import opened FssTree
  import opened FssPoint

  const MAX_BLOCKS: nat := 4

  /** The root nodes: each party its own random seed, the control bits opposite. */
  function Root(rand0: seq<byte>, rand1: Block): (p: Pair)
    requires |rand0| == 17
    ensures Opposed(p)
  {
    Pair(Node(rand0[..16], Low(rand0[16])), Node(rand1, Low(rand0[16]) ^ 1))
  }

  /** Each party's seed is its own random bytes, and the control bits are the parity of one more byte and its
      opposite. */
  lemma RootExact(rand0: seq<byte>, rand1: Block)
    requires |rand0| == 17
    ensures Root(rand0, rand1).n0 == Node(rand0[..16], rand0[16] % 2)
    ensures Root(rand0, rand1).n1 == Node(rand1, 1 - rand0[16] % 2)
  {
    LowIsRemainder(rand0[16]);
  }

  /** The 18-byte correction word of one level. */
  method MakeCorrectionWord(e0: seq<byte>, e1: seq<byte>, a: bool) returns (word: seq<byte>)
    requires |e0| == |e1| == 48
    ensures word == CorrectionWord(e0, e1, a)
  {
    var cw := new byte[18];
    var aBit: Bit := if a then 1 else 0;
    var lose := if a then 0 else 17;
    var j := 0;
    while j < 16
      invariant 0 <= j <= 16
      invariant forall m :: 0 <= m < j ==> cw[m] == e0[lose + m] ^ e1[lose + m]
    {
      cw[j] := e0[lose + j] ^ e1[lose + j];
      j := j + 1;
    }
    LowIsRemainder(e0[16]);
    LowIsRemainder(e1[16]);
    LowIsRemainder(e0[33]);
    LowIsRemainder(e1[33]);
    var t0Left, t0Right := e0[16] % 2, e0[33] % 2;
    var t1Left, t1Right := e1[16] % 2, e1[33] % 2;
    cw[16] := t0Left ^ t1Left ^ aBit ^ 1;
    cw[17] := t0Right ^ t1Right ^ aBit;
    assert cw[..16] == Xor(e0[lose..lose + 16], e1[lose..lose + 16]);
    assert cw[..] == cw[..16] + [cw[16], cw[17]];
    word := cw[..];
  }

  /** A byte corrected by the product of a control bit and a correction byte. */
  method Fix(x: byte, t: Bit, v: byte) returns (y: byte)
    ensures y == Fixed(x, t, v)
  {
    FixedIsProduct(x, t, v);
    y := x ^ (t * v);
  }

  /** Moves a running seed to the kept child, correcting it when the control bit is set. */
  method KeepSeed(s: array<byte>, e: seq<byte>, keep: nat, t: Bit, cw: seq<byte>)
    requires s.Length == 16 && |e| == 48 && keep <= 32 && |cw| == 18
    modifies s
    ensures s[..] == KeptSeed(e, keep, t, cw)
  {
    hide Fixed;
    ghost var kept := KeptSeed(e, keep, t, cw);
    var j := 0;
    while j < 16
      invariant 0 <= j <= 16
      invariant forall m :: 0 <= m < j ==> s[m] == kept[m]
    {
      var fixed := Fix(e[keep + j], t, cw[j]);
      s[j] := fixed;
      j := j + 1;
    }
    assert s[..] == kept;
  }

  /** The kept child's control bit. */
  method NextBit(v: byte, t: Bit, kept: Bit) returns (u: Bit)
    ensures u == Fixed(Low(v), t, kept)
  {
    LowIsRemainder(v);
    assert v % 2 == Low(v);
    u := Fix(v % 2, t, kept);
  }

  method MakeFinalWords(b: seq<u32>, tmp0: array<u32>, tmp1: array<u32>, t1: Bit) returns (finals: seq<u32>)
    requires tmp0.Length == tmp1.Length == |b|
    ensures finals == FinalWords(b, tmp0[..], tmp1[..], t1)
  {
    var cw := new u32[|b|];
    var i := 0;
    while i < |b|
      invariant 0 <= i <= |b|
      invariant forall m :: 0 <= m < i ==> cw[m] == FinalWord(b[m], tmp0[m], tmp1[m], t1)
    {
      var val := Norm(Add(b[i], Sub(MOD_P, tmp0[i])));
      val := Norm(Add(val, tmp1[i]));
      cw[i] := val;
      if t1 == 1 {
        cw[i] := Sub(MOD_P, cw[i]);
      }
      i := i + 1;
    }
    finals := cw[..];
  }

  /** The loop that turns converted words into this server's shares. */
  method WriteShares(serverNum: byte, tmp: array<u32>, t: Bit, finalCW: seq<u32>, result: array<u32>)
    requires tmp.Length == result.Length <= |finalCW| && tmp != result
    modifies result
    ensures result[..] == Shares(serverNum, tmp[..], t, finalCW)
  {
    ghost var goal := Shares(serverNum, tmp[..], t, finalCW);
    var i := 0;
    while i < result.Length
      invariant 0 <= i <= result.Length
      invariant forall m :: 0 <= m < i ==> result[m] == goal[m]
    {
      GatedIsProduct(t, finalCW[i]);
      if serverNum == 0 {
        result[i] := Norm(Add(tmp[i], Mul(t as int, finalCW[i])));
      } else {
        result[i] := Sub(MOD_P, Norm(Add(tmp[i], Mul(t as int, finalCW[i]))));
      }
      i := i + 1;
    }
    assert result[..] == goal;
  }

  class Fss {
    const cipher: Cipher
    const temp: array<byte>
    const out: array<byte>
    const outConvertBlock: array<byte>

    function BlockLength(): nat {
      outConvertBlock.Length / 4
    }

    ghost function Repr(): set<object> {
      {temp, out, outConvertBlock}
    }

    /** The conversion buffer past the last whole PRF block stays as allocated. */
    ghost predicate Valid()
      reads outConvertBlock
    {
      && temp.Length == 16 && out.Length == 64 && outConvertBlock.Length == 4 * BlockLength()
      && temp != out && temp != outConvertBlock && out != outConvertBlock
      && forall m :: 16 * (BlockLength() / 4) <= m < outConvertBlock.Length ==> outConvertBlock[m] == 0
    }

    constructor (c: Cipher, blockLength: nat)
      ensures Valid() && fresh(Repr())
      ensures cipher == c && BlockLength() == blockLength
    {
      cipher := c;
      temp := new byte[16];
      out := new byte[64];
      outConvertBlock := new byte[4 * blockLength](_ => 0);
    }

    method Encrypt(i: nat, x: array<byte>)
      requires x.Length == 16 && temp.Length == 16 && x != temp
      modifies temp
      ensures temp[..] == cipher(i, x[..])
    {
      var block := cipher(i, x[..]);
      forall k | 0 <= k < 16 {
        temp[k] := block[k];
      }
      assert temp[..] == block && x[..] == old(x[..]);
    }

    /** Block i of the PRF of x, written into its place. */
    method PrfBlock(i: nat, x: array<byte>, buffer: array<byte>)
      requires x.Length == 16 && temp.Length == 16 && 16 * i + 16 <= buffer.Length
      requires x != temp && x != buffer && temp != buffer
      modifies temp, buffer
      ensures buffer[..16 * i + 16] == old(buffer[..16 * i]) + Xor(cipher(i, x[..]), x[..])
      ensures forall m :: 16 * i + 16 <= m < buffer.Length ==> buffer[m] == old(buffer[m])
    {
      Encrypt(i, x);
      ghost var block := temp[..];
      assert x[..] == old(x[..]);
      XorBytes(buffer, 16 * i, temp, x);
      assert buffer[..16 * i] == old(buffer[..16 * i]);
      assert buffer[16 * i..16 * i + 16] == Xor(block, x[..]);
      assert buffer[..16 * i + 16] == buffer[..16 * i] + buffer[16 * i..16 * i + 16];
    }

    /** Writes numBlocks PRF blocks of x to the front of a buffer. */
    method Prf(x: array<byte>, numBlocks: nat, buffer: array<byte>)
      requires x.Length == 16 && temp.Length == 16 && 16 * numBlocks <= buffer.Length
      requires numBlocks <= MAX_BLOCKS
      requires x != temp && x != buffer && temp != buffer
      modifies temp, buffer
      ensures buffer[..16 * numBlocks] == Stream(cipher, x[..], numBlocks)
      ensures forall m :: 16 * numBlocks <= m < buffer.Length ==> buffer[m] == old(buffer[m])
    {
      var i := 0;
      while i < numBlocks
        invariant 0 <= i <= numBlocks
        invariant buffer[..16 * i] == Stream(cipher, x[..], i)
        invariant forall m :: 16 * i <= m < buffer.Length ==> buffer[m] == old(buffer[m])
      {
        PrfBlock(i, x, buffer);
        i := i + 1;
      }
    }

    /** Converts a seed into field words, four to a PRF block. */
    method ConvertBlock(x: array<byte>, result: array<u32>, draws: Draws)
      requires Valid() && x.Length == 16 && x != temp && x != out && x != outConvertBlock
      requires x as object != result as object
      requires result.Length == BlockLength() && result.Length / 4 <= MAX_BLOCKS
      modifies temp, outConvertBlock, result
      ensures x[..] == old(x[..])
      ensures Valid()
      ensures result[..] == Convert(cipher, x[..], result.Length, draws)
    {
      var n := result.Length;
      Prf(x, n / 4, outConvertBlock);
      assert outConvertBlock[..] == ConvertBytes(cipher, x[..], n);
      assert forall m :: 16 * (n / 4) <= m < outConvertBlock.Length ==> outConvertBlock[m] == 0;
      BytesToElements(result, outConvertBlock, draws);
      assert x[..] == old(x[..]);
    }

    /** One level of key generation: emits the correction word, moves both running states. */
    method Level(s0: array<byte>, t0: Bit, s1: array<byte>, t1: Bit, a: bool)
      returns (word: seq<byte>, u0: Bit, u1: Bit)
      requires Valid()
      requires s0.Length == s1.Length == 16 && s0 != s1 && {s0, s1} !! Repr()
      modifies temp, out, s0, s1
      ensures var p := Pair(Node(old(s0[..]), t0), Node(old(s1[..]), t1));
              && word == LevelWord(cipher, p, a)
              && Pair(Node(s0[..], u0), Node(s1[..], u1)) == Advance(cipher, p, a)
    {
      hide Stream, CorrectionWord, KeptSeed, Low, Fixed;
      ghost var p := Pair(Node(s0[..], t0), Node(s1[..], t1));
      Prf(s0, 3, out);
      var e0 := out[..48];
      Prf(s1, 3, out);
      var e1 := out[..48];
      assert e0 == Expand(cipher, p.n0.seed) && e1 == Expand(cipher, p.n1.seed);
      word := MakeCorrectionWord(e0, e1, a);
      var keep := if a then 17 else 0;
      KeepSeed(s0, e0, keep, t0, word);
      KeepSeed(s1, e1, keep, t1, word);
      var kept := if keep == 17 then word[17] else word[16];
      u0 := NextBit(e0[keep + 16], t0, kept);
      u1 := NextBit(e1[keep + 16], t1, kept);
    }

    /** The level loop: both running states move down the bits of a. */
    method WalkTree(s0: array<byte>, tInit0: Bit, s1: array<byte>, tInit1: Bit, a: seq<bool>)
      returns (cws: seq<seq<byte>>, t0: Bit, t1: Bit)
      requires Valid()
      requires s0.Length == s1.Length == 16 && s0 != s1 && {s0, s1} !! Repr()
      modifies temp, out, s0, s1
      ensures var p := Pair(Node(old(s0[..]), tInit0), Node(old(s1[..]), tInit1));
              && cws == CorrectionWords(cipher, p, a)
              && Pair(Node(s0[..], t0), Node(s1[..], t1)) == Walk(cipher, p, a)
    {
      hide Advance, LevelWord;
      ghost var p := Pair(Node(s0[..], tInit0), Node(s1[..], tInit1));
      ghost var q := p;
      cws, t0, t1 := [], tInit0, tInit1;
      var i := 0;
      while i < |a|
        invariant 0 <= i <= |a|
        invariant q == Walk(cipher, p, a[..i])
        invariant Pair(Node(s0[..], t0), Node(s1[..], t1)) == q
        invariant cws == CorrectionWords(cipher, p, a[..i])
      {
        var word, u0, u1 := Level(s0, t0, s1, t1, a[i]);
        WalkStep(cipher, p, a, i);
        q := Advance(cipher, q, a[i]);
        cws := cws + [word];
        t0, t1 := u0, u1;
        i := i + 1;
      }
      assert a[..i] == a;
    }

    /** Converts both final seeds and combines them with b. */
    method MakeFinalCorrection(s0: array<byte>, s1: array<byte>, t1: Bit, b: seq<u32>, g0: Draws, g1: Draws)
      returns (finals: seq<u32>)
      requires Valid() && s0.Length == s1.Length == 16 && {s0, s1} !! Repr()
      requires |b| == BlockLength() && |b| / 4 <= MAX_BLOCKS
      modifies temp, outConvertBlock
      ensures Valid()
      ensures finals == FinalWords(b, Convert(cipher, s0[..], |b|, g0), Convert(cipher, s1[..], |b|, g1), t1)
    {
      var tmp0, tmp1 := new u32[|b|], new u32[|b|];
      ghost var seed1 := s1[..];
      ConvertBlock(s0, tmp0, g0);
      assert s1[..] == seed1;
      ConvertBlock(s1, tmp1, g1);
      finals := MakeFinalWords(b, tmp0, tmp1, t1);
    }

    /** The two parties' keys for the function that is b at a and zero elsewhere. The random
        bytes and the words redrawn by the two conversions are inputs. */
    method GenerateTreePF(a: seq<bool>, b: seq<u32>, rand0: seq<byte>, rand1: Block, g0: Draws, g1: Draws)
      returns (k0: Key, k1: Key)
      requires Valid() && |rand0| == 17
      requires |b| == BlockLength() && |b| / 4 <= MAX_BLOCKS
      modifies Repr()
      ensures Valid()
      ensures var p := Root(rand0, rand1);
              k0 == KeyOf(cipher, p, p.n0, a, b, g0, g1) && k1 == KeyOf(cipher, p, p.n1, a, b, g0, g1)
    {
      hide Low, Walk, CorrectionWords, Convert, FinalWords;
      LowIsRemainder(rand0[16]);
      var sInit0: Block, tInit0: Bit := rand0[..16], rand0[16] % 2;
      var sInit1: Block, tInit1: Bit := rand1, tInit0 ^ 1;
      ghost var p := Root(rand0, rand1);
      var s0 := new byte[16](k requires 0 <= k < 16 => sInit0[k]);
      var s1 := new byte[16](k requires 0 <= k < 16 => sInit1[k]);
      var t0, t1 := tInit0, tInit1;
      assert s0[..] == sInit0 && s1[..] == sInit1;
      var cws, u0, u1 := WalkTree(s0, t0, s1, t1, a);
      var finals := MakeFinalCorrection(s0, s1, u1, b, g0, g1);
      k0 := Key(sInit0, tInit0, cws, finals);
      k1 := Key(sInit1, tInit1, cws, finals);
    }

    /** The correction applied to the expansion in place; count walks the correction word twice. */
    method Correct(t: Bit, cw: seq<byte>)
      requires out.Length == 64 && |cw| == 18
      modifies out
      ensures out[..34] == Corrected(old(out[..48]), t, cw)
    {
      hide Fixed;
      ghost var was := out[..48];
      var count, j := 0, 0;
      while j < 34
        invariant 0 <= j <= 34
        invariant count == if j <= 17 then j else if j <= 33 then j - 17 else 18
        invariant forall m :: 0 <= m < j ==> out[m] == Fixed(was[m], t, cw[CorrectionIndex(m)])
        invariant forall m :: j <= m < 48 ==> out[m] == was[m]
      {
        if j == 17 {
          count := 0;
        } else if j == 33 {
          count := 17;
        }
        var fixed := Fix(out[j], t, cw[count]);
        out[j] := fixed;
        count := count + 1;
        j := j + 1;
      }
    }

    /** One level of an evaluation: expand, correct in place, move to the child. */
    method StepDown(s: array<byte>, t: Bit, cw: seq<byte>, xBit: bool) returns (u: Bit)
      requires Valid() && |cw| == 18
      requires s.Length == 16 && s !in Repr()
      modifies temp, out, s
      ensures Node(s[..], u) == Descend(cipher, Node(old(s[..]), t), cw, xBit)
    {
      hide Fixed, Stream, CorrectionIndex;
      Prf(s, 3, out);
      assert s[..] == old(s[..]);
      Correct(t, cw);
      ghost var e := out[..34];
      var from := if xBit then 17 else 0;
      forall m | 0 <= m < 16 {
        s[m] := out[from + m];
      }
      LowIsRemainder(out[from + 16]);
      u := out[from + 16] % 2;
      assert s[..] == e[from..from + 16];
    }

    /** The level loop of an evaluation. */
    method FollowPath(s: array<byte>, tInit: Bit, cw: seq<seq<byte>>, x: seq<bool>) returns (t: Bit)
      requires Valid() && |x| <= |cw| && WordsOk(cw)
      requires s.Length == 16 && s !in Repr()
      modifies temp, out, s
      ensures Node(s[..], t) == Path(cipher, Node(old(s[..]), tInit), cw[..|x|], Seen(x))
    {
      hide Descend;
      ghost var start, seen := Node(s[..], tInit), Seen(x);
      t := tInit;
      var i := 0;
      while i < |x|
        invariant 0 <= i <= |x|
        invariant Node(s[..], t) == Path(cipher, start, cw[..i], seen[..i])
      {
        var xBit := false;
        if i != MAX_BITS {
          xBit := x[i];
        }
        t := StepDown(s, t, cw[i], xBit);
        assert cw[..i + 1][..i] == cw[..i] && seen[..i + 1][..i] == seen[..i];
        i := i + 1;
      }
      assert seen[..i] == seen;
    }

    /** Server serverNum's share of the function at x, written into result. */
    method EvaluatePF(serverNum: byte, k: Key, x: seq<bool>, result: array<u32>, draws: Draws)
      requires Valid() && Fits(k, |x|, result.Length)
      requires result.Length == BlockLength() && result.Length / 4 <= MAX_BLOCKS
      modifies Repr(), result
      ensures Valid()
      ensures result[..] == Eval(cipher, serverNum, k, x, result.Length, draws)
    {
      hide Path, Convert, Shares;
      var s := new byte[16](m requires 0 <= m < 16 => k.sInit[m]);
      assert s[..] == k.sInit;
      var t := FollowPath(s, k.tInit, k.cw, x);
      assert Node(s[..], t) == Leaf(cipher, k, x);
      var tmp := new u32[result.Length];
      ConvertBlock(s, tmp, draws);
      WriteShares(serverNum, tmp, t, k.finalCW, result);
    }
  }
}
