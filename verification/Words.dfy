/** Machine words: bytes, wrapping 32-bit arithmetic, byte-wise XOR and the result types
    shared by the protocol modules. */
module Words {

  type byte = bv8

  const TWO32 := 0x1_0000_0000
  type u8 = x: int | 0 <= x < 256

  type u32 = x: int | 0 <= x < TWO32

  /** The output of a 256-bit hash function. */
  type Digest = s: seq<byte> | |s| == 32
    witness [0, 0, 0, 0, 0, 0, 0, 0, 0, 0, 0, 0, 0, 0, 0, 0, 0, 0, 0, 0, 0, 0, 0, 0, 0, 0, 0, 0, 0, 0, 0, 0]

  /** A hash function on byte strings; nothing is assumed about it. */
  type Hash256 = seq<byte> -> Digest

  datatype Option<+T> = None | Some(value: T)

  /** The Go pair (value, error); the error text is not modelled. */
  datatype Result<+T> = Ok(value: T) | Reject

  /** A call that returns, fails with an error, or stops the program. */
  datatype Attempt<+T> = Done(value: T) | Failed | Halted

  /** The 32-bit word an integer wraps to. */
  function Wrap(x: int): u32 {
    x % 0x1_0000_0000
  }

  lemma WrapSmall(x: int)
    requires 0 <= x < TWO32
    ensures Wrap(x) == x
  {
  }

  function Add(x: u32, y: u32): u32 {
    Wrap(x + y)
  }

  function Sub(x: u32, y: u32): u32 {
    Wrap(x - y)
  }

  function Mul(x: u32, y: u32): u32 {
    Wrap(x * y)
  }

  function Min(x: nat, y: nat): nat {
    if x < y then x else y
  }

  function Zeros(n: nat): seq<byte> {
    seq(n, _ => 0)
  }

  function ByteXor(x: byte, y: byte): byte {
    x ^ y
  }

  /** Equal-length byte-wise XOR. */
  function Xor(a: seq<byte>, b: seq<byte>): (r: seq<byte>)
    requires |a| == |b|
    ensures |r| == |a|
    ensures forall k :: 0 <= k < |r| ==> r[k] == a[k] ^ b[k]
  {
    seq(|a|, k requires 0 <= k < |a| => a[k] ^ b[k])
  }

  /** XOR of v into the front of a buffer; the library call stops at the shortest operand. */
  function XorPrefix(a: seq<byte>, v: seq<byte>): (r: seq<byte>)
    ensures |r| == |a|
    ensures forall k :: 0 <= k < |r| ==> r[k] == if k < |v| then a[k] ^ v[k] else a[k]
  {
    seq(|a|, k requires 0 <= k < |a| => if k < |v| then a[k] ^ v[k] else a[k])
  }

  /** dst[off..] := a ^ b over the shortest of the three operands. */
  method XorBytes(dst: array<byte>, off: nat, a: array<byte>, b: array<byte>)
    requires off <= dst.Length
    requires dst != a && dst != b
    modifies dst
    ensures var n := Min(dst.Length - off, Min(a.Length, b.Length));
            forall m :: 0 <= m < dst.Length ==>
              dst[m] == if off <= m < off + n then ByteXor(a[m - off], b[m - off]) else old(dst[m])
  {
    hide ByteXor;
    var n := Min(dst.Length - off, Min(a.Length, b.Length));
    var k := 0;
    while k < n
      invariant 0 <= k <= n
      invariant forall m :: 0 <= m < dst.Length ==>
                  dst[m] == if off <= m < off + k then ByteXor(a[m - off], b[m - off]) else old(dst[m])
    {
      dst[off + k] := ByteXor(a[k], b[k]);
      k := k + 1;
    }
  }
}
