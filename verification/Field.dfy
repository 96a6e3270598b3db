/** The prime field of 2^31 - 1 elements, held in uint32 words as the source holds it. */
module Field {
  import opened Words
  import opened Endian
  import opened ModArith

  const MOD_P: u32 := 2147483647
  const MASK: byte := 127

  /** Reduction into the field. */
  function Norm(x: int): (r: u32)
    ensures r < MOD_P
  {
    x % MOD_P
  }

  lemma NormSmall(x: int)
    requires 0 <= x < MOD_P
    ensures Norm(x) == x
  {
  }

  lemma NormShift(x: int)
    ensures Norm(x + MOD_P) == Norm(x)
  {
    ModShift(x, 1, MOD_P);
  }

  lemma NormAdd(x: int, y: int)
    ensures Norm(Norm(x) + y) == Norm(x + y)
  {
    ModAdd(x, y, MOD_P);
  }

  lemma NormSub(x: int, y: int)
    ensures Norm(y - Norm(x)) == Norm(y - x)
  {
    ModSub(y, x, MOD_P);
  }

  lemma NormSum(x: int, y: int)
    ensures Norm(Norm(x) + Norm(y)) == Norm(x + y)
  {
    ModSum(x, y, MOD_P);
  }

  lemma NormMul(x: int, y: int)
    ensures Norm(Norm(x) * y) == Norm(x * y)
  {
    ModMul(x, y, MOD_P);
  }

  /** A word that survived resampling: any 32-bit value except the modulus. */
  type Draw = d: u32 | d != MOD_P

  /** The four bytes with the top bit cleared, as a big-endian word. */
  function MaskedWord(s: seq<byte>): (r: u32)
    requires |s| == 4
    ensures r <= MOD_P
  {
    BigEndian(s[0 := s[0] & MASK])
  }

  /** The masked word, or the redrawn word when the masked word is the modulus itself. */
  function Element(s: seq<byte>, draw: Draw): (r: u32)
    requires |s| == 4
    ensures r != MOD_P
    ensures MaskedWord(s) != MOD_P ==> r < MOD_P
  {
    if MaskedWord(s) != MOD_P then MaskedWord(s) else draw
  }

  /** In numbers: the four bytes as a big-endian number of 31 bits, or the redrawn word when that is the
      modulus. */
  lemma ElementValue(s: seq<byte>, draw: Draw)
    requires |s| == 4
    ensures var v := s[0] as int % 128 * 0x100_0000 + s[1] as int * 0x1_0000 + s[2] as int * 0x100 + s[3] as int;
            Element(s, draw) == if v != 0x7FFF_FFFF then v else draw
  {
    hide MaskedWord;
    MaskedValue(s);
  }

  lemma MaskedValue(s: seq<byte>)
    requires |s| == 4
    ensures MaskedWord(s)
         == s[0] as int % 128 * 0x100_0000 + s[1] as int * 0x1_0000 + s[2] as int * 0x100 + s[3] as int
  {
    hide BigEndian;
    TopCleared(s, s[0 := s[0] & MASK]);
    NumberOf(s[0 := s[0] & MASK]);
  }

  lemma TopCleared(s: seq<byte>, t: seq<byte>)
    requires |s| == 4 && t == s[0 := s[0] & MASK]
    ensures t[0] as int == s[0] as int % 128 && t[1] == s[1] && t[2] == s[2] && t[3] == s[3]
  {
    LowBits(s[0]);
  }

  lemma NumberOf(s: seq<byte>)
    requires |s| == 4
    ensures BigEndian(s) == s[0] as int * 0x100_0000 + s[1] as int * 0x1_0000 + s[2] as int * 0x100 + s[3] as int
  {
  }

  function WordAt(s: seq<byte>, off: nat): (r: seq<byte>)
    requires off + 4 <= |s|
    ensures |r| == 4
  {
    s[off..off + 4]
  }

  /** The first n elements of a byte string, four bytes each. */
  function Elements(s: seq<byte>, n: nat, draws: nat -> Draw): (r: seq<u32>)
    requires 4 * n <= |s|
    ensures |r| == n
  {
    seq<u32>(n, i requires 0 <= i < n => Element(WordAt(s, 4 * i), draws(i)))
  }

  /** Clears the top bit of the slice in place, then reads it as a big-endian word. */
  method ToElement(input: array<byte>, off: nat, draw: Draw) returns (element: u32)
    requires off + 4 <= input.Length
    modifies input
    ensures input[off] == old(input[off]) & MASK
    ensures forall m :: 0 <= m < input.Length && m != off ==> input[m] == old(input[m])
    ensures element == Element(WordAt(old(input[..]), off), draw)
  {
    hide BigEndian;
    ghost var word := WordAt(input[..], off);
    input[off] := input[off] & MASK;
    var masked := input[off..off + 4];
    assert masked == word[0 := word[0] & MASK];
    element := BigEndian(masked);
    if element == MOD_P {
      element := draw;
    }
  }

  method BytesToElements(out: array<u32>, input: array<byte>, draws: nat -> Draw)
    requires input.Length >= 4 * out.Length
    modifies out, input
    ensures out[..] == Elements(old(input[..]), out.Length, draws)
    ensures forall m :: 0 <= m < input.Length && old(input[m]) == 0 ==> input[m] == 0
  {
    hide Element;
    ghost var was := input[..];
    ghost var goal := Elements(was, out.Length, draws);
    var i := 0;
    while i < out.Length
      invariant 0 <= i <= out.Length
      invariant forall k :: 0 <= k < i ==> out[k] == goal[k]
      invariant forall m :: 4 * i <= m < input.Length ==> input[m] == was[m]
      invariant forall m :: 0 <= m < input.Length && was[m] == 0 ==> input[m] == 0
    {
      assert WordAt(input[..], 4 * i) == WordAt(was, 4 * i);
      var element := ToElement(input, 4 * i, draws(i));
      out[i] := element;
      i := i + 1;
    }
    assert out[..] == goal;
  }
}
