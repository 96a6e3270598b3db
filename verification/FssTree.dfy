/** The key tree of the two-party point function: what one level of the client's walk and one
    level of a server's walk compute, and how the two relate. */
module FssTree {
  import opened Words

  const MAX_BITS: nat := 256

  type Block = s: seq<byte> | |s| == 16 witness [0, 0, 0, 0, 0, 0, 0, 0, 0, 0, 0, 0, 0, 0, 0, 0]

  /** The fixed-key block ciphers, by key number; nothing is assumed about them. */
  type Cipher = (nat, Block) -> Block

  /** A control bit, held in a byte as the keys hold it. */
  type Bit = t: byte | t == 0 || t == 1

  predicate IsBit(b: byte) {
    b == 0 || b == 1
  }

  /** The low bit of a byte. */
  function Low(v: byte): Bit {
    v & 1
  }

  lemma LowIsRemainder(v: byte)
    ensures Low(v) == v % 2
  {
  }

  /** A byte with a correction byte applied when the control bit is set. */
  function Fixed(x: byte, t: Bit, v: byte): byte {
    if t == 1 then x ^ v else x
  }

  /** The correction as it is computed, with a byte product. */
  lemma FixedIsProduct(x: byte, t: Bit, v: byte)
    ensures Fixed(x, t, v) == x ^ (t * v) == x ^ (v * t)
  {
  }

  /** A party's position in the tree: its seed and its control bit. */
  datatype Node = Node(seed: Block, bit: Bit)

  datatype Pair = Pair(n0: Node, n1: Node)

  datatype Key = Key(sInit: Block, tInit: Bit, cw: seq<seq<byte>>, finalCW: seq<u32>)

  /** Matyas-Meyer-Oseas output blocks 0..n. */
  function Stream(c: Cipher, x: Block, n: nat): (r: seq<byte>)
    ensures |r| == 16 * n
  {
    if n == 0 then [] else Stream(c, x, n - 1) + Xor(c(n - 1, x), x)
  }

  /** Byte j of block i is the cipher's byte XORed with the input's: every block has its own cipher. */
  lemma {:induction false} StreamAt(c: Cipher, x: Block, n: nat, i: nat, j: nat)
    requires i < n && j < 16
    ensures Stream(c, x, n)[16 * i + j] == c(i, x)[j] ^ x[j]
  {
    if i < n - 1 {
      StreamAt(c, x, n - 1, i, j);
    }
  }

  function Expand(c: Cipher, x: Block): (r: seq<byte>)
    ensures |r| == 48
  {
    Stream(c, x, 3)
  }

  // ---------- one level, client side ----------

  function BitOf(b: bool): Bit {
    if b then 1 else 0
  }

  /** Where a child's seed starts in the expansion; its control bit follows the seed. */
  function Start(right: bool): nat {
    if right then 17 else 0
  }

  /** Seed correction from the losing side, then the two control-bit corrections. */
  function CorrectionWord(e0: seq<byte>, e1: seq<byte>, a: bool): (r: seq<byte>)
    requires |e0| == |e1| == 48
    ensures |r| == 18 && IsBit(r[16]) && IsBit(r[17])
  {
    var lose := Start(!a);
    Xor(e0[lose..lose + 16], e1[lose..lose + 16])
    + [Low(e0[16]) ^ Low(e1[16]) ^ BitOf(a) ^ 1, Low(e0[33]) ^ Low(e1[33]) ^ BitOf(a)]
  }

  /** The kept child's seed, corrected when the control bit is set. */
  function KeptSeed(e: seq<byte>, keep: nat, bit: Bit, cw: seq<byte>): (r: Block)
    requires |e| == 48 && keep <= 32 && |cw| == 18
  {
    seq(16, j requires 0 <= j < 16 => Fixed(e[keep + j], bit, cw[j]))
  }

  function KeptBit(e: seq<byte>, keep: nat, bit: Bit, c: Bit): Bit
    requires |e| == 48 && keep < 32
  {
    Fixed(Low(e[keep + 16]), bit, c)
  }

  function Keep(e: seq<byte>, bit: Bit, cw: seq<byte>, a: bool): Node
    requires |e| == 48 && |cw| == 18 && IsBit(cw[16]) && IsBit(cw[17])
  {
    Node(KeptSeed(e, Start(a), bit, cw), KeptBit(e, Start(a), bit, cw[if a then 17 else 16]))
  }

  function LevelWord(c: Cipher, p: Pair, a: bool): (r: seq<byte>)
    ensures |r| == 18 && IsBit(r[16]) && IsBit(r[17])
  {
    CorrectionWord(Expand(c, p.n0.seed), Expand(c, p.n1.seed), a)
  }

  function Advance(c: Cipher, p: Pair, a: bool): Pair {
    var cw := LevelWord(c, p, a);
    Pair(Keep(Expand(c, p.n0.seed), p.n0.bit, cw, a), Keep(Expand(c, p.n1.seed), p.n1.bit, cw, a))
  }

  /** The client's two running states after walking the bits a. */
  function Walk(c: Cipher, p: Pair, a: seq<bool>): Pair {
    if |a| == 0 then p
    else Advance(c, Walk(c, p, a[..|a| - 1]), a[|a| - 1])
  }

  /** The correction words the walk emits, one a level. */
  function CorrectionWords(c: Cipher, p: Pair, a: seq<bool>): (r: seq<seq<byte>>)
    ensures |r| == |a|
    ensures forall i :: 0 <= i < |r| ==> |r[i]| == 18
  {
    if |a| == 0 then []
    else CorrectionWords(c, p, a[..|a| - 1]) + [LevelWord(c, Walk(c, p, a[..|a| - 1]), a[|a| - 1])]
  }

  lemma WalkStep(c: Cipher, p: Pair, a: seq<bool>, i: nat)
    requires i < |a|
    ensures Walk(c, p, a[..i + 1]) == Advance(c, Walk(c, p, a[..i]), a[i])
    ensures CorrectionWords(c, p, a[..i + 1])
         == CorrectionWords(c, p, a[..i]) + [LevelWord(c, Walk(c, p, a[..i]), a[i])]
  {
    assert a[..i + 1][..i] == a[..i];
  }

  // ---------- one level, server side ----------

  /** Position in the 18-byte correction word applied to byte j of the expansion. */
  function CorrectionIndex(j: nat): nat {
    if j < 17 then j else if j < 33 then j - 17 else 17
  }

  function Corrected(e: seq<byte>, bit: Bit, cw: seq<byte>): (r: seq<byte>)
    requires |e| >= 34 && |cw| == 18
    ensures |r| == 34
  {
    seq(34, j requires 0 <= j < 34 => Fixed(e[j], bit, cw[CorrectionIndex(j)]))
  }

  function Descend(c: Cipher, n: Node, cw: seq<byte>, x: bool): Node
    requires |cw| == 18
  {
    var e := Corrected(Expand(c, n.seed), n.bit, cw);
    if x then Node(e[17..33], Low(e[33])) else Node(e[..16], Low(e[16]))
  }

  predicate WordsOk(cws: seq<seq<byte>>) {
    forall i :: 0 <= i < |cws| ==> |cws[i]| == 18
  }

  /** A server's state after following the bits x, one correction word a level. */
  function Path(c: Cipher, n: Node, cws: seq<seq<byte>>, x: seq<bool>): Node
    requires |x| == |cws| && WordsOk(cws)
  {
    if |x| == 0 then n
    else
      var k := |x| - 1;
      Descend(c, Path(c, n, cws[..k], x[..k]), cws[k], x[k])
  }

  /** The server reads bit 256 as zero whatever the input says. */
  function Seen(x: seq<bool>): (r: seq<bool>)
    ensures |r| == |x|
  {
    seq(|x|, i requires 0 <= i < |x| => i != MAX_BITS && x[i])
  }

  // ---------- the level invariant ----------

  predicate Opposed(p: Pair) {
    p.n0.bit != p.n1.bit
  }

  /** What the server's 34-byte correction does to the child on one side. */
  lemma CorrectedSide(e: seq<byte>, t: Bit, cw: seq<byte>, right: bool)
    requires |e| == 48 && |cw| == 18
    ensures var f, start := Corrected(e, t, cw), Start(right);
            && f[start..start + 16] == KeptSeed(e, start, t, cw)
            && f[start + 16] == Fixed(e[start + 16], t, cw[if right then 17 else 16])
  {
    var f, start := Corrected(e, t, cw), Start(right);
    var side, kept := f[start..start + 16], KeptSeed(e, start, t, cw);
    forall j | 0 <= j < 16 ensures side[j] == kept[j] {
      assert CorrectionIndex(start + j) == j;
      assert side[j] == f[start + j];
    }
    assert side == kept;
  }

  /** On the keeping side a server computes what the client computes for it. */
  lemma KeepSide(e: seq<byte>, t: Bit, cw: seq<byte>, a: bool)
    requires |e| == 48 && |cw| == 18 && IsBit(cw[16]) && IsBit(cw[17])
    ensures var f, keep := Corrected(e, t, cw), Start(a);
            Node(f[keep..keep + 16], Low(f[keep + 16])) == Keep(e, t, cw, a)
  {
    hide Fixed, Low, KeptSeed, Corrected;
    CorrectedSide(e, t, cw, a);
    LowFixed(e[Start(a) + 16], t, cw[if a then 17 else 16]);
  }

  lemma LowFixed(x: byte, t: Bit, v: Bit)
    ensures Low(Fixed(x, t, v)) == Fixed(Low(x), t, v)
  {
  }

  /** The corrected control bits of the two parties differ on the keeping side. */
  lemma KeptBitsDiffer(e0: seq<byte>, e1: seq<byte>, t0: Bit, t1: Bit, a: bool)
    requires |e0| == |e1| == 48 && t0 != t1
    ensures var c := CorrectionWord(e0, e1, a)[if a then 17 else 16];
            KeptBit(e0, Start(a), t0, c) != KeptBit(e1, Start(a), t1, c)
  {
  }

  lemma StepOnPath(c: Cipher, p: Pair, a: bool)
    requires Opposed(p)
    ensures Opposed(Advance(c, p, a))
    ensures Descend(c, p.n0, LevelWord(c, p, a), a) == Advance(c, p, a).n0
    ensures Descend(c, p.n1, LevelWord(c, p, a), a) == Advance(c, p, a).n1
  {
    var cw, e0, e1 := LevelWord(c, p, a), Expand(c, p.n0.seed), Expand(c, p.n1.seed);
    KeepSide(e0, p.n0.bit, cw, a);
    KeepSide(e1, p.n1.bit, cw, a);
    KeptBitsDiffer(e0, e1, p.n0.bit, p.n1.bit, a);
  }

  /** Exactly one party applies the correction, so a corrected byte is the same for both. */
  lemma OneCorrects(x: byte, y: byte, v: byte, t0: Bit, t1: Bit)
    requires t0 != t1 && v == x ^ y
    ensures Fixed(x, t0, v) == Fixed(y, t1, v)
  {
  }

  lemma StepOffPath(c: Cipher, p: Pair, a: bool)
    requires Opposed(p)
    ensures Descend(c, p.n0, LevelWord(c, p, a), !a) == Descend(c, p.n1, LevelWord(c, p, a), !a)
  {
    LoseSide(Expand(c, p.n0.seed), Expand(c, p.n1.seed), p.n0.bit, p.n1.bit, a);
  }

  /** On the losing side the corrected seeds and control bits coincide. */
  lemma LoseSide(e0: seq<byte>, e1: seq<byte>, t0: Bit, t1: Bit, a: bool)
    requires |e0| == |e1| == 48
    requires t0 != t1
    ensures var cw, lose := CorrectionWord(e0, e1, a), Start(!a);
            && Corrected(e0, t0, cw)[lose..lose + 16] == Corrected(e1, t1, cw)[lose..lose + 16]
            && Low(Corrected(e0, t0, cw)[lose + 16]) == Low(Corrected(e1, t1, cw)[lose + 16])
  {
    var cw, lose := CorrectionWord(e0, e1, a), Start(!a);
    CorrectedSide(e0, t0, cw, !a);
    CorrectedSide(e1, t1, cw, !a);
    LoseSeed(e0, e1, t0, t1, a);
    LowFixed(e0[lose + 16], t0, cw[if a then 16 else 17]);
    LowFixed(e1[lose + 16], t1, cw[if a then 16 else 17]);
  }

  lemma CorrectionByte(e0: seq<byte>, e1: seq<byte>, a: bool, j: nat)
    requires |e0| == |e1| == 48 && j < 16
    ensures CorrectionWord(e0, e1, a)[j] == e0[Start(!a) + j] ^ e1[Start(!a) + j]
  {
    var lose := Start(!a);
    var x := Xor(e0[lose..lose + 16], e1[lose..lose + 16]);
    assert CorrectionWord(e0, e1, a)[j] == x[j];
  }

  lemma LoseByte(e0: seq<byte>, e1: seq<byte>, t0: Bit, t1: Bit, a: bool, j: nat)
    requires |e0| == |e1| == 48 && t0 != t1 && j < 16
    ensures var cw, lose := CorrectionWord(e0, e1, a), Start(!a);
            Fixed(e0[lose + j], t0, cw[j]) == Fixed(e1[lose + j], t1, cw[j])
  {
    hide CorrectionWord, Fixed;
    var lose := Start(!a);
    CorrectionByte(e0, e1, a, j);
    OneCorrects(e0[lose + j], e1[lose + j], CorrectionWord(e0, e1, a)[j], t0, t1);
  }

  lemma LoseSeed(e0: seq<byte>, e1: seq<byte>, t0: Bit, t1: Bit, a: bool)
    requires |e0| == |e1| == 48 && t0 != t1
    ensures var cw, lose := CorrectionWord(e0, e1, a), Start(!a);
            KeptSeed(e0, lose, t0, cw) == KeptSeed(e1, lose, t1, cw)
  {
    var cw, lose := CorrectionWord(e0, e1, a), Start(!a);
    forall j | 0 <= j < 16 ensures KeptSeed(e0, lose, t0, cw)[j] == KeptSeed(e1, lose, t1, cw)[j] {
      LoseByte(e0, e1, t0, t1, a, j);
    }
  }

  lemma SplitLast<T>(s: seq<T>)
    requires |s| > 0
    ensures s == s[..|s| - 1] + [s[|s| - 1]]
  {
  }

  /** One level of the invariant: s0 and s1 are the servers' states before the level. */
  lemma Step(c: Cipher, q: Pair, s0: Node, s1: Node, a: bool, x: bool, agree: bool)
    requires Opposed(q)
    requires if agree then s0 == q.n0 && s1 == q.n1 else s0 == s1
    ensures Opposed(Advance(c, q, a))
    ensures var cw := LevelWord(c, q, a);
            if agree && x == a
            then Descend(c, s0, cw, x) == Advance(c, q, a).n0 && Descend(c, s1, cw, x) == Advance(c, q, a).n1
            else Descend(c, s0, cw, x) == Descend(c, s1, cw, x)
  {
    StepOnPath(c, q, a);
    StepOffPath(c, q, a);
  }

  /** Server n's state at the end of x under the correction words of target a. */
  function Follow(c: Cipher, p: Pair, n: Node, a: seq<bool>, x: seq<bool>): Node
    requires |x| == |a|
  {
    Path(c, n, CorrectionWords(c, p, a), x)
  }

  lemma FollowStep(c: Cipher, p: Pair, n: Node, a: seq<bool>, x: seq<bool>)
    requires |x| == |a| > 0
    ensures var k := |a| - 1;
            Follow(c, p, n, a, x)
            == Descend(c, Follow(c, p, n, a[..k], x[..k]), LevelWord(c, Walk(c, p, a[..k]), a[k]), x[k])
  {
    var k := |a| - 1;
    assert CorrectionWords(c, p, a)[..k] == CorrectionWords(c, p, a[..k]);
  }

  /** The two-party simulation invariant. While x agrees with the target, each server stands
      where the client's walk stands and the control bits differ; once x has left the target
      path, the servers stand at one common node. */
  lemma {:induction false} LevelInvariant(c: Cipher, p: Pair, a: seq<bool>, x: seq<bool>)
    requires Opposed(p) && |x| == |a|
    ensures Opposed(Walk(c, p, a))
    ensures x == a ==> Follow(c, p, p.n0, a, x) == Walk(c, p, a).n0
    ensures x == a ==> Follow(c, p, p.n1, a, x) == Walk(c, p, a).n1
    ensures x != a ==> Follow(c, p, p.n0, a, x) == Follow(c, p, p.n1, a, x)
  {
    hide Advance, Descend, LevelWord;
    if |a| > 0 {
      var k := |a| - 1;
      LevelInvariant(c, p, a[..k], x[..k]);
      FollowStep(c, p, p.n0, a, x);
      FollowStep(c, p, p.n1, a, x);
      SplitLast(a);
      SplitLast(x);
      Step(c, Walk(c, p, a[..k]), Follow(c, p, p.n0, a[..k], x[..k]), Follow(c, p, p.n1, a[..k], x[..k]),
           a[k], x[k], x[..k] == a[..k]);
    }
  }

  /** The invariant at an inner level: the first k correction words are those of the prefix. */
  lemma {:induction false} CorrectionWordsPrefix(c: Cipher, p: Pair, a: seq<bool>, k: nat)
    requires k <= |a|
    ensures CorrectionWords(c, p, a)[..k] == CorrectionWords(c, p, a[..k])
  {
    hide LevelWord, Walk;
    if k < |a| {
      CorrectionWordsPrefix(c, p, a[..|a| - 1], k);
      assert a[..|a| - 1][..k] == a[..k];
    } else {
      assert a[..k] == a;
    }
  }
}
