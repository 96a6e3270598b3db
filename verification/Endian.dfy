/** Four-byte encodings of 32-bit words, and slices of words as byte strings. */
module Endian {
  import opened Words
  import opened ModArith

  /** The byte with a given value, built from its two hexadecimal digits. */
  function Nibble(n: nat): byte
    requires n < 16
  {
    if n < 8 then
      if n < 4 then if n < 2 then if n == 0 then 0 else 1 else if n == 2 then 2 else 3
      else if n < 6 then if n == 4 then 4 else 5 else if n == 6 then 6 else 7
    else
      if n < 12 then if n < 10 then if n == 8 then 8 else 9 else if n == 10 then 10 else 11
      else if n < 14 then if n == 12 then 12 else 13 else if n == 14 then 14 else 15
  }

  function ByteOf(n: nat): byte
    requires n < 256
  {
    (Nibble(n / 16) << 4) | Nibble(n % 16)
  }

  lemma NibbleValue(n: nat)
    requires n < 16
    ensures Nibble(n) as int == n && Nibble(n) < 16
  {
  }

  lemma JoinNibbles(h: byte, l: byte)
    requires h < 16 && l < 16
    ensures ((h << 4) | l) as int == 16 * (h as int) + l as int
  {
  }

  lemma ByteValue(n: nat)
    requires n < 256
    ensures ByteOf(n) as int == n
  {
    NibbleValue(n / 16);
    NibbleValue(n % 16);
    JoinNibbles(Nibble(n / 16), Nibble(n % 16));
  }

  function BigEndian(s: seq<byte>): u32
    requires |s| == 4
  {
    s[0] as int * 0x100_0000 + s[1] as int * 0x1_0000 + s[2] as int * 0x100 + s[3] as int
  }

  function PutBigEndian(v: u32): (r: seq<byte>)
    ensures |r| == 4
  {
    [ByteOf(v / 0x100_0000), ByteOf(v / 0x1_0000 % 0x100), ByteOf(v / 0x100 % 0x100), ByteOf(v % 0x100)]
  }

  function LittleEndian(s: seq<byte>): u32
    requires |s| == 4
  {
    s[3] as int * 0x100_0000 + s[2] as int * 0x1_0000 + s[1] as int * 0x100 + s[0] as int
  }

  function PutLittleEndian(v: u32): (r: seq<byte>)
    ensures |r| == 4
  {
    [ByteOf(v % 0x100), ByteOf(v / 0x100 % 0x100), ByteOf(v / 0x1_0000 % 0x100), ByteOf(v / 0x100_0000)]
  }

  lemma Digits(v: u32)
    ensures v / 0x100_0000 < 256
    ensures v == v / 0x100_0000 * 0x100_0000 + v / 0x1_0000 % 0x100 * 0x1_0000 + v / 0x100 % 0x100 * 0x100 + v % 0x100
  {
    var a := v / 0x100;
    var b := a / 0x100;
    var c := b / 0x100;
    assert v == a * 0x100 + v % 0x100;
    assert a == b * 0x100 + a % 0x100;
    assert b == c * 0x100 + b % 0x100;
    assert b == v / 0x1_0000 && c == v / 0x100_0000;
  }

  /** Reading back what was written, in either byte order. */
  lemma RoundTrip(v: u32)
    ensures BigEndian(PutBigEndian(v)) == v
    ensures LittleEndian(PutLittleEndian(v)) == v
  {
    Digits(v);
    ReadDigits(v / 0x100_0000, v / 0x1_0000 % 0x100, v / 0x100 % 0x100, v % 0x100);
    hide BigEndian, LittleEndian, ByteOf;
  }

  lemma ReadDigits(d3: nat, d2: nat, d1: nat, d0: nat)
    requires d3 < 256 && d2 < 256 && d1 < 256 && d0 < 256
    ensures var n := d3 * 0x100_0000 + d2 * 0x1_0000 + d1 * 0x100 + d0;
            && BigEndian([ByteOf(d3), ByteOf(d2), ByteOf(d1), ByteOf(d0)]) == n
            && LittleEndian([ByteOf(d0), ByteOf(d1), ByteOf(d2), ByteOf(d3)]) == n
  {
    hide ByteOf;
    ByteValue(d3);
    ByteValue(d2);
    ByteValue(d1);
    ByteValue(d0);
    var s, r := [ByteOf(d3), ByteOf(d2), ByteOf(d1), ByteOf(d0)], [ByteOf(d0), ByteOf(d1), ByteOf(d2), ByteOf(d3)];
    assert BigEndian(s) == s[0] as int * 0x100_0000 + s[1] as int * 0x1_0000 + s[2] as int * 0x100 + s[3] as int;
    assert LittleEndian(r) == r[3] as int * 0x100_0000 + r[2] as int * 0x1_0000 + r[1] as int * 0x100 + r[0] as int;
    hide BigEndian, LittleEndian;
  }

  lemma ByteOfValue(b: byte)
    ensures ByteOf(b as int) == b
  {
    hide ByteOf;
    ByteValue(b as int);
    SameValue(ByteOf(b as int), b);
  }

  lemma SameValue(a: byte, b: byte)
    requires a as int == b as int
    ensures a == b
  {
  }

  /** Clearing the top bit is the remainder modulo 128. */
  lemma LowBits(b: byte)
    ensures (b & 127) as int == b as int % 128
  {
    hide Nibble, ByteOf;
    var n := b as int;
    ByteOfValue(b);
    ByteValue(n % 128);
    ClearedByte(n);
  }

  lemma ClearedByte(n: nat)
    requires n < 256
    ensures ByteOf(n) & 127 == ByteOf(n % 128)
  {
    hide Nibble;
    ClearedDigits(n);
    NibbleValue(n / 16);
    NibbleValue(n % 16);
    ClearedNibble(n / 16);
    LowNibbles(Nibble(n / 16), Nibble(n % 16), Nibble(n / 16 % 8), ByteOf(n), ByteOf(n % 128));
  }

  lemma ClearedDigits(n: nat)
    requires n < 256
    ensures n % 128 / 16 == n / 16 % 8 && n % 128 % 16 == n % 16
  {
    var m := if n < 128 then n else n - 128;
    ModUnique(n, if n < 128 then 0 else 1, m, 128);
    var h, l := n / 16, n % 16;
    assert n == 16 * h + l && m == 16 * (if n < 128 then h else h - 8) + l;
  }

  lemma ClearedNibble(n: nat)
    requires n < 16
    ensures Nibble(n) & 7 == Nibble(n % 8)
  {
  }

  lemma LowNibbles(h: byte, l: byte, low: byte, x: byte, y: byte)
    requires h < 16 && l < 16 && low == h & 7 && x == (h << 4) | l && y == (low << 4) | l
    ensures x & 127 == y
  {
  }

  /** Writing back what was read. */
  lemma WriteRead(s: seq<byte>)
    requires |s| == 4
    ensures PutLittleEndian(LittleEndian(s)) == s
  {
    var d3, d2, d1, d0 := s[3] as int, s[2] as int, s[1] as int, s[0] as int;
    var v: int := LittleEndian(s);
    DigitsOf(v, d3, d2, d1, d0);
    ByteOfValue(s[0]);
    ByteOfValue(s[1]);
    ByteOfValue(s[2]);
    ByteOfValue(s[3]);
    hide ByteOf, LittleEndian;
  }

  lemma DigitsOf(v: int, d3: nat, d2: nat, d1: nat, d0: nat)
    requires d3 < 256 && d2 < 256 && d1 < 256 && d0 < 256
    requires v == d3 * 0x100_0000 + d2 * 0x1_0000 + d1 * 0x100 + d0
    ensures v / 0x100_0000 == d3 && v / 0x1_0000 % 0x100 == d2 && v / 0x100 % 0x100 == d1 && v % 0x100 == d0
  {
    assert v / 0x100 == d3 * 0x1_0000 + d2 * 0x100 + d1;
    assert v / 0x1_0000 == d3 * 0x100 + d2;
  }
}
