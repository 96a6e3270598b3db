/** XOR sharing: selection by bit vectors is linear, so shares of a unit vector select one block. */
module XorAlgebra {
  import opened Words

  // ---------- bits ----------

  /** The byte with only bit k set. */
  function Mask(k: nat): (m: byte)
    requires k < 8
    ensures m != 0 && m & (m - 1) == 0
  {
    if k < 4 then if k < 2 then if k == 0 then 1 else 2 else if k == 2 then 4 else 8
    else if k < 6 then if k == 4 then 16 else 32 else if k == 6 then 64 else 128
  }

  predicate ByteBit(b: byte, k: nat)
    requires k < 8
  {
    b & Mask(k) != 0
  }

  /** Bit j of a query vector, least significant bit of each byte first. */
  predicate Bit(q: seq<byte>, j: nat)
    requires j < 8 * |q|
  {
    ByteBit(q[j / 8], j % 8)
  }

  lemma MaskIsShift(k: nat)
    requires k < 8
    ensures Mask(k) == 1 << k
  {
  }

  /** The test as the servers compute it. */
  lemma ByteBitIsShift(b: byte, k: nat)
    requires k < 8
    ensures ByteBit(b, k) <==> (b >> k) & 1 == 1
  {
  }

  lemma BitIsShift(q: seq<byte>, j: nat)
    requires j < 8 * |q|
    ensures Bit(q, j) <==> (q[j / 8] >> (j % 8)) & 1 == 1
  {
    hide ByteBit;
    ByteBitIsShift(q[j / 8], j % 8);
  }

  method TestBit(q: seq<byte>, j: nat) returns (b: bool)
    requires j < 8 * |q|
    ensures b == Bit(q, j)
  {
    BitIsShift(q, j);
    b := (q[j / 8] >> (j % 8)) & 1 == 1;
  }

  lemma SingleBitXor(a: byte, b: byte, m: byte)
    requires m & (m - 1) == 0
    ensures (a ^ b) & m != 0 <==> (a & m != 0) != (b & m != 0)
  {
  }

  lemma ByteBitXor(a: byte, b: byte, k: nat)
    requires k < 8
    ensures ByteBit(a ^ b, k) == (ByteBit(a, k) != ByteBit(b, k))
  {
    hide Mask;
    SingleBitXor(a, b, Mask(k));
  }

  lemma ByteBitOne(k: nat, m: nat)
    requires k < 8 && m < 8
    ensures ByteBit(Mask(k), m) <==> k == m
    ensures !ByteBit(0, m)
  {
  }

  lemma BitXor(p: seq<byte>, q: seq<byte>, j: nat)
    requires |p| == |q| && j < 8 * |p|
    ensures Bit(Xor(p, q), j) == (Bit(p, j) != Bit(q, j))
  {
    hide ByteBit;
    ByteBitXor(p[j / 8], q[j / 8], j % 8);
  }

  /** The query vector of length n with only bit j set. */
  function Unit(j: nat, n: nat): (r: seq<byte>)
    requires j < 8 * n
    ensures |r| == n
  {
    Zeros(n)[j / 8 := Mask(j % 8)]
  }

  lemma BitUnit(j: nat, n: nat, m: nat)
    requires j < 8 * n && m < 8 * n
    ensures Bit(Unit(j, n), m) <==> j == m
    ensures !Bit(Zeros(n), m)
  {
    hide ByteBit, Mask;
    ByteBitOne(j % 8, m % 8);
  }

  // ---------- selection ----------

  /** XORs into acc the blocks whose bit is set in q. */
  function RowXor(acc: seq<byte>, blocks: seq<seq<byte>>, q: seq<byte>): (r: seq<byte>)
    requires |blocks| <= 8 * |q|
    ensures |r| == |acc|
  {
    if |blocks| == 0 then acc
    else
      var m := |blocks| - 1;
      var before := RowXor(acc, blocks[..m], q);
      if Bit(q, m) then XorPrefix(before, blocks[m]) else before
  }

  /** Four ways to distribute one selected block over two accumulators. */
  lemma XorPrefixSplit(a: seq<byte>, b: seq<byte>, v: seq<byte>)
    requires |a| == |b|
    ensures XorPrefix(Xor(a, b), v) == Xor(XorPrefix(a, v), b) == Xor(a, XorPrefix(b, v))
    ensures Xor(XorPrefix(a, v), XorPrefix(b, v)) == Xor(a, b)
  {
  }

  /** Selection is linear in accumulator and query together. */
  lemma {:induction false} RowXorLinear(a: seq<byte>, b: seq<byte>, blocks: seq<seq<byte>>, p: seq<byte>, q: seq<byte>)
    requires |a| == |b| && |p| == |q| && |blocks| <= 8 * |p|
    ensures RowXor(Xor(a, b), blocks, Xor(p, q)) == Xor(RowXor(a, blocks, p), RowXor(b, blocks, q))
  {
    if |blocks| > 0 {
      var m := |blocks| - 1;
      RowXorLinear(a, b, blocks[..m], p, q);
      BitXor(p, q, m);
      XorPrefixSplit(RowXor(a, blocks[..m], p), RowXor(b, blocks[..m], q), blocks[m]);
      hide Bit, Xor, XorPrefix;
    }
  }

  /** Among the first count bits of q exactly bit j is set. */
  predicate Picks(q: seq<byte>, j: nat, count: nat) {
    count <= 8 * |q| && forall m :: 0 <= m < count ==> (Bit(q, m) <==> m == j)
  }

  /** A query that picks one block selects it alone. */
  lemma {:induction false} RowXorPicks(acc: seq<byte>, blocks: seq<seq<byte>>, q: seq<byte>, j: nat)
    requires Picks(q, j, |blocks|)
    ensures RowXor(acc, blocks, q) == if j < |blocks| then XorPrefix(acc, blocks[j]) else acc
  {
    hide Bit, XorPrefix;
    if |blocks| > 0 {
      RowXorPicks(acc, blocks[..|blocks| - 1], q, j);
    }
  }

  lemma {:induction false} RowXorNothing(acc: seq<byte>, blocks: seq<seq<byte>>, q: seq<byte>)
    requires |blocks| <= 8 * |q| && forall m :: 0 <= m < |blocks| ==> !Bit(q, m)
    ensures RowXor(acc, blocks, q) == acc
  {
    hide Bit, XorPrefix;
    if |blocks| > 0 {
      RowXorNothing(acc, blocks[..|blocks| - 1], q);
    }
  }

  /** A unit query selects its block; the zero query selects nothing. */
  lemma RowXorUnit(acc: seq<byte>, blocks: seq<seq<byte>>, j: nat, n: nat)
    requires |blocks| <= 8 * n && j < 8 * n
    ensures RowXor(acc, blocks, Unit(j, n)) == if j < |blocks| then XorPrefix(acc, blocks[j]) else acc
    ensures RowXor(acc, blocks, Zeros(n)) == acc
  {
    hide RowXor, Bit, Unit, XorPrefix;
    forall m | 0 <= m < |blocks| ensures (Bit(Unit(j, n), m) <==> m == j) && !Bit(Zeros(n), m) {
      BitUnit(j, n, m);
    }
    RowXorPicks(acc, blocks, Unit(j, n), j);
    RowXorNothing(acc, blocks, Zeros(n));
  }

  // ---------- sharing ----------

  predicate AllSized(vectors: seq<seq<byte>>, n: nat) {
    forall k :: 0 <= k < |vectors| ==> |vectors[k]| == n
  }

  function XorAll(acc: seq<byte>, vectors: seq<seq<byte>>): (r: seq<byte>)
    requires AllSized(vectors, |acc|)
    ensures |r| == |acc|
  {
    if |vectors| == 0 then acc
    else Xor(XorAll(acc, vectors[..|vectors| - 1]), vectors[|vectors| - 1])
  }

  lemma {:induction false} XorAllShift(acc: seq<byte>, vectors: seq<seq<byte>>)
    requires AllSized(vectors, |acc|)
    ensures XorAll(acc, vectors) == Xor(acc, XorAll(Zeros(|acc|), vectors))
  {
    if |vectors| > 0 {
      XorAllShift(acc, vectors[..|vectors| - 1]);
    }
  }

  /** All shares but the last are random; the last makes the XOR of all equal the unit vector. */
  function Shares(j: nat, n: nat, random: seq<seq<byte>>): (r: seq<seq<byte>>)
    requires j < 8 * n && AllSized(random, n)
    ensures |r| == |random| + 1 && AllSized(r, n)
  {
    random + [XorAll(Unit(j, n), random)]
  }

  lemma SharesSum(j: nat, n: nat, random: seq<seq<byte>>)
    requires j < 8 * n && AllSized(random, n)
    ensures XorAll(Zeros(n), Shares(j, n, random)) == Unit(j, n)
  {
    hide Unit;
    XorAllShift(Unit(j, n), random);
    var sum := XorAll(Zeros(n), random);
    assert Shares(j, n, random)[..|random|] == random;
    assert Xor(sum, Xor(Unit(j, n), sum)) == Unit(j, n);
  }

  /** The answers of all servers to their query vectors. */
  function Selections(size: nat, blocks: seq<seq<byte>>, queries: seq<seq<byte>>, n: nat): (r: seq<seq<byte>>)
    requires AllSized(queries, n) && |blocks| <= 8 * n
    ensures |r| == |queries| && AllSized(r, size)
  {
    seq(|queries|, k requires 0 <= k < |queries| => RowXor(Zeros(size), blocks, queries[k]))
  }

  /** XORing the answers is answering the XOR of the queries, for any number of servers. */
  lemma {:induction false} SelectionsSum(size: nat, blocks: seq<seq<byte>>, queries: seq<seq<byte>>, n: nat)
    requires AllSized(queries, n) && |blocks| <= 8 * n
    ensures XorAll(Zeros(size), Selections(size, blocks, queries, n))
         == RowXor(Zeros(size), blocks, XorAll(Zeros(n), queries))
  {
    hide RowXor;
    if |queries| == 0 {
      NothingSelected(size, blocks, n);
    } else {
      var m := |queries| - 1;
      SelectionsSum(size, blocks, queries[..m], n);
      assert Selections(size, blocks, queries, n)[..m] == Selections(size, blocks, queries[..m], n);
      RowXorLinear(Zeros(size), Zeros(size), blocks, XorAll(Zeros(n), queries[..m]), queries[m]);
      assert Xor(Zeros(size), Zeros(size)) == Zeros(size);
    }
  }

  lemma NothingSelected(size: nat, blocks: seq<seq<byte>>, n: nat)
    requires |blocks| <= 8 * n
    ensures RowXor(Zeros(size), blocks, Zeros(n)) == Zeros(size)
  {
    if |blocks| > 0 {
      RowXorUnit(Zeros(size), blocks, 0, n);
    }
  }

  /** A block cut or zero-extended to a length. */
  function Resized(block: seq<byte>, size: nat): (r: seq<byte>)
    ensures |r| == size
    ensures |block| <= size ==> r == block + Zeros(size - |block|)
  {
    seq(size, k requires 0 <= k < size => if k < |block| then block[k] else 0)
  }

  lemma ResizedCut(block: seq<byte>, size: nat)
    requires size < |block|
    ensures Resized(block, size) == block[..size]
  {
  }

  /** Whatever the queries are, if together they pick block j the answers XOR to it,
      zero-extended. */
  lemma QueriesRetrieve(size: nat, blocks: seq<seq<byte>>, j: nat, n: nat, queries: seq<seq<byte>>)
    requires j < |blocks| <= 8 * n && AllSized(queries, n)
    requires Picks(XorAll(Zeros(n), queries), j, |blocks|)
    ensures XorAll(Zeros(size), Selections(size, blocks, queries, n)) == Resized(blocks[j], size)
  {
    hide RowXor, XorAll, Picks;
    SelectionsSum(size, blocks, queries, n);
    RowXorPicks(Zeros(size), blocks, XorAll(Zeros(n), queries), j);
    assert XorPrefix(Zeros(size), blocks[j]) == Resized(blocks[j], size);
  }

  /** The shares of position j together pick it, for any randomness. */
  lemma SharesPick(j: nat, n: nat, random: seq<seq<byte>>)
    requires j < 8 * n && AllSized(random, n)
    ensures Picks(XorAll(Zeros(n), Shares(j, n, random)), j, 8 * n)
  {
    hide XorAll, Shares, Unit, Bit;
    SharesSum(j, n, random);
    forall m | 0 <= m < 8 * n ensures Bit(Unit(j, n), m) <==> m == j {
      BitUnit(j, n, m);
    }
  }

  /** Changing one answer changes the sum of all by the same bytes. */
  lemma {:induction false} XorAllPatched(acc: seq<byte>, vectors: seq<seq<byte>>, k: nat, delta: seq<byte>)
    requires AllSized(vectors, |acc|) && k < |vectors| && |delta| == |acc|
    ensures XorAll(acc, vectors[k := Xor(vectors[k], delta)]) == Xor(XorAll(acc, vectors), delta)
  {
    var m := |vectors| - 1;
    var patched := vectors[k := Xor(vectors[k], delta)];
    if k < m {
      assert patched[..m] == vectors[..m][k := Xor(vectors[k], delta)];
      XorAllPatched(acc, vectors[..m], k, delta);
      hide XorAll;
      XorSwap(XorAll(acc, vectors[..m]), delta, vectors[m]);
    } else {
      assert patched[..m] == vectors[..m];
      hide XorAll;
      XorSwap(XorAll(acc, vectors[..m]), vectors[m], delta);
    }
  }

  lemma XorSwap(a: seq<byte>, b: seq<byte>, c: seq<byte>)
    requires |a| == |b| == |c|
    ensures Xor(Xor(a, b), c) == Xor(Xor(a, c), b) == Xor(a, Xor(b, c))
  {
  }

  lemma XorCancels(a: seq<byte>, b: seq<byte>)
    requires |a| == |b|
    ensures Xor(a, Xor(a, b)) == b
  {
  }
}
