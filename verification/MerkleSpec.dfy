/** The hash tree in heap layout: node values, authentication paths, and what a path proves. */
module MerkleSpec {
  import opened Words
  import opened ModArith
  import opened Endian

  // ---------- powers of two ----------

  /** The ceiling of the binary logarithm. */
  function CeilLog2(n: nat): nat
    requires n >= 1
  {
    if n == 1 then 0 else 1 + CeilLog2((n + 1) / 2)
  }

  /** CeilLog2(n) is the least exponent whose power of two reaches n. */
  lemma {:induction false} CeilLog2Exact(n: nat, d: nat)
    requires n >= 1
    ensures n <= Pow(2, d) <==> CeilLog2(n) <= d
    decreases n
  {
    if n > 1 && d > 0 {
      CeilLog2Exact((n + 1) / 2, d - 1);
    }
  }

  lemma PowWord()
    ensures Pow(2, 32) == TWO32
  {
    assert Pow(2, 8) == 256;
    PowAdd(2, 8, 8);
    PowAdd(2, 16, 16);
  }

  lemma {:induction false} PowMonotone(d: nat, e: nat)
    requires d <= e
    ensures Pow(2, d) <= Pow(2, e)
  {
    if d < e {
      PowMonotone(d, e - 1);
    }
  }

  lemma PowLarge(d: nat)
    requires d >= 32
    ensures Pow(2, d) >= TWO32
  {
    PowWord();
    PowAdd(2, d - 32, 32);
    ProductMonotone(1, Pow(2, d - 32), TWO32);
  }

  // ---------- the tree ----------

  const ZERO_NODE: Digest := Zeros(32)

  /** Levels below the root, and leaf positions: n rounded up to a power of two. */
  function Depth(n: nat): nat
    requires n >= 1
  {
    CeilLog2(n)
  }

  function Width(n: nat): (w: nat)
    requires n >= 1
    ensures w >= n
  {
    CeilLog2Exact(n, CeilLog2(n));
    Pow(2, Depth(n))
  }

  /** A tree whose leaf positions can be counted in 32 bits has at most 31 levels, so every
      32-bit node index is exact. */
  lemma IndicesFit(n: nat)
    requires n >= 1 && Width(n) < TWO32
    ensures Depth(n) <= 31 && 2 * Width(n) <= TWO32
  {
    hide CeilLog2;
    if Depth(n) >= 32 {
      PowLarge(Depth(n));
    }
    PowWord();
    PowMonotone(Depth(n) + 1, 32);
  }

  function LeafInput(data: seq<byte>, index: u32): (r: seq<byte>)
    ensures |r| == |data| + 4
  {
    data + PutLittleEndian(index)
  }

  /** Node k of the tree over the blocks: leaves from the width on, padded with zero nodes. */
  function Node(h: Hash256, blocks: seq<seq<byte>>, width: nat, k: nat): Digest
    requires |blocks| <= width < TWO32
    requires 1 <= k < 2 * width
    decreases 2 * width - k
  {
    if k >= width then
      if k - width < |blocks| then h(LeafInput(blocks[k - width], k - width)) else ZERO_NODE
    else
      h(Node(h, blocks, width, 2 * k) + Node(h, blocks, width, 2 * k + 1))
  }

  /** What an inner node hashes. */
  function Children(h: Hash256, blocks: seq<seq<byte>>, width: nat, k: nat): (r: seq<byte>)
    requires |blocks| <= width < TWO32
    requires 1 <= k < width
    ensures |r| == 64
  {
    Node(h, blocks, width, 2 * k) + Node(h, blocks, width, 2 * k + 1)
  }

  predicate Hashable(blocks: seq<seq<byte>>) {
    |blocks| >= 1 && Width(|blocks|) < TWO32
  }

  function Root(h: Hash256, blocks: seq<seq<byte>>): Digest
    requires Hashable(blocks)
  {
    Node(h, blocks, Width(|blocks|), 1)
  }

  // ---------- authentication paths ----------

  datatype Proof = Proof(hashes: seq<Digest>, index: u32)

  /** The other child of the same parent: k with its lowest bit flipped. */
  function Sibling(k: nat): nat
    requires k >= 2
  {
    if k % 2 == 0 then k + 1 else k - 1
  }

  /** The siblings met on the way from node k to the root. */
  function Siblings(h: Hash256, blocks: seq<seq<byte>>, width: nat, k: nat): seq<Digest>
    requires |blocks| <= width < TWO32
    requires 1 <= k < 2 * width
    decreases k
  {
    if k == 1 then []
    else [Node(h, blocks, width, Sibling(k))] + Siblings(h, blocks, width, k / 2)
  }

  /** The proof for the block at an index. */
  function ProofAt(h: Hash256, blocks: seq<seq<byte>>, index: u32): Proof
    requires Hashable(blocks) && index < |blocks|
  {
    Proof(Siblings(h, blocks, Width(|blocks|), Width(|blocks|) + index), index)
  }

  /** What the parent of a node hashes, given the node's side and its sibling. */
  function Pair(left: bool, x: Digest, sibling: Digest): (r: seq<byte>)
    ensures |r| == 64
  {
    if left then x + sibling else sibling + x
  }

  /** The hash recomputed from a node's hash, its index and the siblings. */
  function Fold(h: Hash256, x: Digest, index: nat, hashes: seq<Digest>): Digest
    decreases |hashes|
  {
    if |hashes| == 0 then x
    else Fold(h, h(Pair(index % 2 == 0, x, hashes[0])), index / 2, hashes[1..])
  }

  /** The 32-bit index a verification starts from. */
  function StartIndex(proof: Proof): u32 {
    Wrap(proof.index + Pow(2, |proof.hashes|))
  }

  /** The root a proof recomputes for some data. */
  function ProofRoot(h: Hash256, data: seq<byte>, proof: Proof): Digest {
    Fold(h, h(LeafInput(data, proof.index)), StartIndex(proof), proof.hashes)
  }

  // ---------- completeness ----------

  lemma {:induction false} SiblingCount(h: Hash256, blocks: seq<seq<byte>>, width: nat, k: nat, d: nat)
    requires |blocks| <= width < TWO32
    requires 1 <= k < 2 * width && Pow(2, d) <= k < 2 * Pow(2, d)
    ensures |Siblings(h, blocks, width, k)| == d
    decreases d
  {
    hide Node;
    if d > 0 {
      SiblingCount(h, blocks, width, k / 2, d - 1);
    }
  }

  /** A node and its siblings recompute the root. */
  lemma {:induction false} SiblingsReachRoot(h: Hash256, blocks: seq<seq<byte>>, width: nat, k: nat)
    requires |blocks| <= width < TWO32
    requires 1 <= k < 2 * width
    ensures Fold(h, Node(h, blocks, width, k), k, Siblings(h, blocks, width, k)) == Node(h, blocks, width, 1)
    decreases k
  {
    if k > 1 {
      SiblingsReachRoot(h, blocks, width, k / 2);
      ParentOf(h, blocks, width, k);
      hide Node, Children;
      var s := Siblings(h, blocks, width, k);
      assert s[1..] == Siblings(h, blocks, width, k / 2);
    }
  }

  lemma ParentOf(h: Hash256, blocks: seq<seq<byte>>, width: nat, k: nat)
    requires |blocks| <= width < TWO32
    requires 2 <= k < 2 * width
    ensures k / 2 < width
    ensures Node(h, blocks, width, k / 2) == h(Children(h, blocks, width, k / 2))
    ensures Children(h, blocks, width, k / 2)
         == Pair(k % 2 == 0, Node(h, blocks, width, k), Node(h, blocks, width, Sibling(k)))
  {
    hide Node, Children, Pair, Sibling;
    Halve(k, width);
    InnerNode(h, blocks, width, k / 2);
    ChildrenPair(h, blocks, width, k / 2);
  }

  lemma ChildrenPair(h: Hash256, blocks: seq<seq<byte>>, width: nat, m: nat)
    requires |blocks| <= width < TWO32
    requires 1 <= m < width
    ensures Children(h, blocks, width, m)
         == Pair(true, Node(h, blocks, width, 2 * m), Node(h, blocks, width, 2 * m + 1))
         == Pair(false, Node(h, blocks, width, 2 * m + 1), Node(h, blocks, width, 2 * m))
  {
    hide Node;
  }

  lemma Halve(k: nat, width: nat)
    requires 2 <= k < 2 * width
    ensures 1 <= k / 2 < width
    ensures if k % 2 == 0 then k == 2 * (k / 2) && Sibling(k) == k + 1 else k == 2 * (k / 2) + 1 && Sibling(k) == k - 1
  {
  }

  lemma InnerNode(h: Hash256, blocks: seq<seq<byte>>, width: nat, k: nat)
    requires |blocks| <= width < TWO32
    requires 1 <= k < width
    ensures Node(h, blocks, width, k) == h(Children(h, blocks, width, k))
  {
    hide LeafInput;
  }

  /** The tree, node by node: a leaf hashes its block and index, a padding leaf is 32 zero bytes, an inner node
      hashes its left and its right child. */
  lemma NodeShape(h: Hash256, blocks: seq<seq<byte>>, width: nat, k: nat)
    requires |blocks| <= width < TWO32 && 1 <= k < 2 * width
    ensures Node(h, blocks, width, k)
         == if k < width then h(Node(h, blocks, width, 2 * k) + Node(h, blocks, width, 2 * k + 1))
            else if k - width < |blocks| then h(blocks[k - width] + PutLittleEndian(k - width))
            else seq(32, _ => 0)
  {
    hide PutLittleEndian;
    if k >= width {
      LeafNode(h, blocks, width, k - width);
    }
  }

  lemma LeafNode(h: Hash256, blocks: seq<seq<byte>>, width: nat, j: nat)
    requires |blocks| <= width < TWO32 && j < width
    ensures Node(h, blocks, width, width + j)
         == if j < |blocks| then h(LeafInput(blocks[j], j)) else ZERO_NODE
  {
    hide LeafInput;
  }

  /** Every block's proof has exactly ceil(log2 n) siblings and recomputes the root, for any
      number of blocks. */
  lemma ProofsVerify(h: Hash256, blocks: seq<seq<byte>>, index: u32)
    requires Hashable(blocks) && index < |blocks|
    ensures |ProofAt(h, blocks, index).hashes| == Depth(|blocks|)
    ensures ProofRoot(h, blocks[index], ProofAt(h, blocks, index)) == Root(h, blocks)
  {
    hide Pow, Node, Siblings, Fold, CeilLog2, LeafInput;
    var width := Width(|blocks|);
    IndicesFit(|blocks|);
    LeafNode(h, blocks, width, index);
    SiblingCount(h, blocks, width, width + index, Depth(|blocks|));
    WrapSmall(index + width);
    SiblingsReachRoot(h, blocks, width, width + index);
  }

  // ---------- binding ----------

  /** Evidence against the hash function: two inputs with one output, or a preimage of the
      padding node. */
  datatype Breach = NoBreach | Collision(a: seq<byte>, b: seq<byte>) | ZeroPreimage(a: seq<byte>)

  predicate Breaks(h: Hash256, e: Breach) {
    match e
    case NoBreach => false
    case Collision(a, b) => a != b && h(a) == h(b)
    case ZeroPreimage(a) => h(a) == ZERO_NODE
  }

  /** Evidence that breaks the hash is a real collision, or a real preimage of 32 zero bytes. */
  lemma BreachIsReal(h: Hash256, e: Breach)
    requires Breaks(h, e)
    ensures (exists a, b :: a != b && h(a) == h(b)) || exists a :: h(a) == seq<byte>(32, _ => 0)
  {
    match e
    case Collision(a, b) => assert a != b && h(a) == h(b);
    case ZeroPreimage(a) => assert h(a) == seq<byte>(32, _ => 0);
  }

  /** Walks a claimed path beside the tree's own and returns the first pair of different parent
      inputs with the same hash. */
  function PathBreach(h: Hash256, blocks: seq<seq<byte>>, width: nat, k: nat, x: Digest, hashes: seq<Digest>): Breach
    requires |blocks| <= width < TWO32
    requires 1 <= k < 2 * width && Pow(2, |hashes|) <= k
    decreases |hashes|
  {
    if |hashes| == 0 then NoBreach
    else
      var claimed := Pair(k % 2 == 0, x, hashes[0]);
      var stored := Children(h, blocks, width, k / 2);
      if claimed != stored && h(claimed) == h(stored) then Collision(claimed, stored)
      else PathBreach(h, blocks, width, k / 2, h(claimed), hashes[1..])
  }

  /** A path that reaches the root from node k is the tree's own path, or it carries a collision. */
  lemma {:induction false} PathBinds(h: Hash256, blocks: seq<seq<byte>>, width: nat, k: nat, x: Digest,
                                   hashes: seq<Digest>)
    requires |blocks| <= width < TWO32
    requires 1 <= k < 2 * width && Pow(2, |hashes|) <= k < 2 * Pow(2, |hashes|)
    requires Fold(h, x, k, hashes) == Node(h, blocks, width, 1)
    ensures var e := PathBreach(h, blocks, width, k, x, hashes);
            Breaks(h, e) || (e == NoBreach && x == Node(h, blocks, width, k) && hashes == Siblings(h, blocks, width, k))
    decreases |hashes|
  {
    hide Node, Children, Siblings, Pair;
    if |hashes| > 0 {
      ParentOf(h, blocks, width, k);
      SiblingsStep(h, blocks, width, k);
      var claimed := Pair(k % 2 == 0, x, hashes[0]);
      var stored := Children(h, blocks, width, k / 2);
      if claimed != stored && h(claimed) == h(stored) {
        assert PathBreach(h, blocks, width, k, x, hashes) == Collision(claimed, stored);
      } else {
        PathBinds(h, blocks, width, k / 2, h(claimed), hashes[1..]);
        if claimed == stored {
          PairInjective(k % 2 == 0, x, hashes[0], Node(h, blocks, width, k), Node(h, blocks, width, Sibling(k)));
          assert hashes == [hashes[0]] + hashes[1..];
        }
      }
    } else {
      SiblingsTop(h, blocks, width);
    }
  }

  lemma SiblingsTop(h: Hash256, blocks: seq<seq<byte>>, width: nat)
    requires 1 <= width && |blocks| <= width < TWO32
    ensures Siblings(h, blocks, width, 1) == []
  {
  }

  lemma SiblingsStep(h: Hash256, blocks: seq<seq<byte>>, width: nat, k: nat)
    requires |blocks| <= width < TWO32
    requires 2 <= k < 2 * width
    ensures Siblings(h, blocks, width, k) == [Node(h, blocks, width, Sibling(k))] + Siblings(h, blocks, width, k / 2)
  {
    hide Node;
  }

  lemma PairInjective(left: bool, x: Digest, s: Digest, y: Digest, t: Digest)
    requires Pair(left, x, s) == Pair(left, y, t)
    ensures x == y && s == t
  {
    var p := Pair(left, x, s);
    if left {
      assert x == p[..32] == y && s == p[32..] == t;
    } else {
      assert s == p[..32] == t && x == p[32..] == y;
    }
  }

  lemma LeafInputInjective(data: seq<byte>, i: u32, block: seq<byte>, j: u32)
    requires LeafInput(data, i) == LeafInput(block, j)
    ensures data == block && i == j
  {
    hide PutLittleEndian;
    var p := LeafInput(data, i);
    assert |data| == |block|;
    assert data == p[..|data|] == block;
    assert PutLittleEndian(i) == p[|data|..] == PutLittleEndian(j);
    RoundTrip(i);
    RoundTrip(j);
  }

  /** The fold reads only the low |hashes| bits of the index. */
  lemma {:induction false} FoldPeriod(h: Hash256, x: Digest, i: nat, j: nat, c: int, hashes: seq<Digest>)
    requires i == j + c * Pow(2, |hashes|)
    ensures Fold(h, x, i, hashes) == Fold(h, x, j, hashes)
    decreases |hashes|
  {
    if |hashes| > 0 {
      var p := Pow(2, |hashes| - 1);
      assert c * Pow(2, |hashes|) == 2 * (c * p) by {
        MulAssoc(2, p, c);
      }
      assert i % 2 == j % 2 && i / 2 == j / 2 + c * p;
      FoldPeriod(h, h(Pair(i % 2 == 0, x, hashes[0])), i / 2, j / 2, c, hashes[1..]);
    }
  }

  /** The node at depth |hashes| that the low bits of a start index name. */
  function StartNode(s: nat, d: nat): (k: nat)
    ensures Pow(2, d) <= k < 2 * Pow(2, d)
  {
    Pow(2, d) + s % Pow(2, d)
  }

  lemma FoldStart(h: Hash256, x: Digest, s: nat, hashes: seq<Digest>)
    ensures Fold(h, x, s, hashes) == Fold(h, x, StartNode(s, |hashes|), hashes)
  {
    hide Fold, Pow;
    var p := Pow(2, |hashes|);
    var c: int := s / p - 1;
    assert s == s / p * p + s % p;
    assert c * p == s / p * p - p;
    FoldPeriod(h, x, s, StartNode(s, |hashes|), c, hashes);
  }

  /** What the tree hashes for node k; padding nodes have no input. */
  function StoredInput(h: Hash256, blocks: seq<seq<byte>>, width: nat, k: nat): Option<seq<byte>>
    requires |blocks| <= width < TWO32
    requires 1 <= k < 2 * width
  {
    if k < width then Some(Children(h, blocks, width, k))
    else if k - width < |blocks| then Some(LeafInput(blocks[k - width], k - width))
    else None
  }

  lemma NodeOfInput(h: Hash256, blocks: seq<seq<byte>>, width: nat, k: nat)
    requires |blocks| <= width < TWO32
    requires 1 <= k < 2 * width
    ensures var input := StoredInput(h, blocks, width, k);
            Node(h, blocks, width, k) == if input.Some? then h(input.value) else ZERO_NODE
  {
    if k < width {
      InnerNode(h, blocks, width, k);
    } else {
      LeafNode(h, blocks, width, k - width);
    }
    hide Node, Children, LeafInput;
  }

  /** Compares a hash input at node k and its path with the tree's own. */
  function NodeBreach(h: Hash256, blocks: seq<seq<byte>>, width: nat, k: nat, input: seq<byte>,
                      hashes: seq<Digest>): Breach
    requires |blocks| <= width < TWO32
    requires 1 <= k < 2 * width && Pow(2, |hashes|) <= k
  {
    var path := PathBreach(h, blocks, width, k, h(input), hashes);
    if path != NoBreach then path
    else
      match StoredInput(h, blocks, width, k)
      case None => ZeroPreimage(input)
      case Some(stored) => if input != stored then Collision(input, stored) else NoBreach
  }

  lemma NodeBinds(h: Hash256, blocks: seq<seq<byte>>, width: nat, s: nat, input: seq<byte>, hashes: seq<Digest>)
    requires |blocks| <= width < TWO32 && Pow(2, |hashes|) <= width
    requires Fold(h, h(input), s, hashes) == Node(h, blocks, width, 1)
    ensures var k := StartNode(s, |hashes|);
            Breaks(h, NodeBreach(h, blocks, width, k, input, hashes))
            || (StoredInput(h, blocks, width, k) == Some(input) && hashes == Siblings(h, blocks, width, k))
  {
    hide Fold, Pow, PathBreach, Siblings, Node, StoredInput;
    FoldStart(h, h(input), s, hashes);
    PathBinds(h, blocks, width, StartNode(s, |hashes|), h(input), hashes);
    NodeOfInput(h, blocks, width, StartNode(s, |hashes|));
  }

  /** Evidence extracted from a hash input and a path of any length: surplus hashes are folded
      first, the rest is compared with the tree. */
  function PathEvidence(h: Hash256, blocks: seq<seq<byte>>, input: seq<byte>, s: nat, hashes: seq<Digest>): Breach
    requires Hashable(blocks)
    decreases |hashes|
  {
    if |hashes| > Depth(|blocks|) then
      PathEvidence(h, blocks, Pair(s % 2 == 0, h(input), hashes[0]), s / 2, hashes[1..])
    else
      PowMonotone(|hashes|, Depth(|blocks|));
      NodeBreach(h, blocks, Width(|blocks|), StartNode(s, |hashes|), input, hashes)
  }

  function Extract(h: Hash256, blocks: seq<seq<byte>>, data: seq<byte>, proof: Proof): Breach
    requires Hashable(blocks)
  {
    PathEvidence(h, blocks, LeafInput(data, proof.index), StartIndex(proof), proof.hashes)
  }

  /** A hash input on the way up, the index bits and the hashes still to be folded. */
  datatype Path = Path(input: seq<byte>, start: nat, hashes: seq<Digest>)

  /** The path when at most d hashes are left. */
  function Tail(h: Hash256, p: Path, d: nat): (r: Path)
    ensures |r.hashes| == if |p.hashes| < d then |p.hashes| else d
    decreases |p.hashes|
  {
    if |p.hashes| <= d then p
    else Tail(h, Path(Pair(p.start % 2 == 0, h(p.input), p.hashes[0]), p.start / 2, p.hashes[1..]), d)
  }

  /** The path stands at a stored block's own leaf input, with that leaf's siblings. */
  predicate AtLeaf(h: Hash256, blocks: seq<seq<byte>>, p: Path)
    requires Hashable(blocks) && |p.hashes| == Depth(|blocks|)
  {
    var w, k := Width(|blocks|), StartNode(p.start, |p.hashes|);
    StoredInput(h, blocks, w, k) == Some(p.input) && p.hashes == Siblings(h, blocks, w, k)
  }

  /** A path of at least depth-many hashes reaches the root exactly when its tail stands at a leaf, unless
      the hash breaks. */
  lemma {:induction false} LongPathExact(h: Hash256, blocks: seq<seq<byte>>, p: Path)
    requires Hashable(blocks) && |p.hashes| >= Depth(|blocks|)
    ensures AtLeaf(h, blocks, Tail(h, p, Depth(|blocks|))) ==> Fold(h, h(p.input), p.start, p.hashes) == Root(h, blocks)
    ensures Fold(h, h(p.input), p.start, p.hashes) == Root(h, blocks) && !AtLeaf(h, blocks, Tail(h, p, Depth(|blocks|)))
        ==> Breaks(h, PathEvidence(h, blocks, p.input, p.start, p.hashes))
    decreases |p.hashes|
  {
    hide Node, Breaks, NodeBreach, Siblings, Pair, StoredInput, StartNode, Pow, CeilLog2;
    if |p.hashes| > Depth(|blocks|) {
      hide AtLeaf;
      LongPathExact(h, blocks, Path(Pair(p.start % 2 == 0, h(p.input), p.hashes[0]), p.start / 2, p.hashes[1..]));
    } else {
      hide Fold;
      var w, k := Width(|blocks|), StartNode(p.start, |p.hashes|);
      if Fold(h, h(p.input), p.start, p.hashes) == Root(h, blocks) {
        NodeBinds(h, blocks, w, p.start, p.input, p.hashes);
      }
      if AtLeaf(h, blocks, p) {
        NodeOfInput(h, blocks, w, k);
        SiblingsReachRoot(h, blocks, w, k);
        FoldStart(h, h(p.input), p.start, p.hashes);
      }
    }
  }

  /** Behind a surplus hash the input is a pair. */
  lemma {:induction false} TailIsPair(h: Hash256, p: Path, d: nat)
    requires |p.hashes| > d
    ensures |Tail(h, p, d).input| == 64
    decreases |p.hashes|
  {
    if |p.hashes| > d + 1 {
      hide Pair;
      TailIsPair(h, Path(Pair(p.start % 2 == 0, h(p.input), p.hashes[0]), p.start / 2, p.hashes[1..]), d);
    }
  }

  lemma LeafInputLength(h: Hash256, blocks: seq<seq<byte>>, k: nat)
    requires Hashable(blocks) && Width(|blocks|) <= k < 2 * Width(|blocks|)
    ensures var input := StoredInput(h, blocks, Width(|blocks|), k);
            input.Some? && |input.value| == 64 ==> exists i :: 0 <= i < |blocks| && |blocks[i]| == 60
  {
    if k - Width(|blocks|) < |blocks| && |blocks[k - Width(|blocks|)]| != 60 {
      assert |LeafInput(blocks[k - Width(|blocks|)], k - Width(|blocks|))| != 64;
    }
  }

  /** The data is a stored block, the proof its own. */
  predicate Stored(h: Hash256, blocks: seq<seq<byte>>, data: seq<byte>, proof: Proof)
    requires Hashable(blocks)
  {
    proof.index < |blocks| && data == blocks[proof.index] && proof == ProofAt(h, blocks, proof.index)
  }

  /** Binding, exactly: unless the hash breaks, what verifies against the root is a stored block
      with its own index and its own proof if and only if the proof has depth-many hashes. */
  lemma Binding(h: Hash256, blocks: seq<seq<byte>>, data: seq<byte>, proof: Proof)
    requires Hashable(blocks) && ProofRoot(h, data, proof) == Root(h, blocks)
    ensures Breaks(h, Extract(h, blocks, data, proof))
         || (Stored(h, blocks, data, proof) <==> |proof.hashes| == Depth(|blocks|))
  {
    hide Siblings, Node, CeilLog2, Breaks, Extract, ProofRoot, Root, LeafInput, StartNode, StoredInput;
    if |proof.hashes| == Depth(|blocks|) {
      PathReachesNode(h, blocks, data, proof);
      if !Breaks(h, Extract(h, blocks, data, proof)) {
        LeafReached(h, blocks, data, proof, StartNode(StartIndex(proof), |proof.hashes|));
      }
    } else if proof.index < |blocks| {
      ProofsVerify(h, blocks, proof.index);
    }
  }

  /** A proof with at most depth-many hashes leads to a node whose own input is the claimed one. */
  lemma PathReachesNode(h: Hash256, blocks: seq<seq<byte>>, data: seq<byte>, proof: Proof)
    requires Hashable(blocks) && ProofRoot(h, data, proof) == Root(h, blocks)
    requires |proof.hashes| <= Depth(|blocks|)
    ensures var k := StartNode(StartIndex(proof), |proof.hashes|);
            && k < 2 * Pow(2, |proof.hashes|) <= 2 * Width(|blocks|)
            && (Breaks(h, Extract(h, blocks, data, proof))
                || (StoredInput(h, blocks, Width(|blocks|), k) == Some(LeafInput(data, proof.index))
                    && proof.hashes == Siblings(h, blocks, Width(|blocks|), k)))
  {
    hide Siblings, Node, CeilLog2, Breaks, NodeBreach, LeafInput, StartNode, StoredInput, Fold, Pow;
    PowMonotone(|proof.hashes|, Depth(|blocks|));
    NodeBinds(h, blocks, Width(|blocks|), StartIndex(proof), LeafInput(data, proof.index), proof.hashes);
  }

  // ---------- proofs of other lengths ----------

  /** The data and index are the input of an inner node, the hashes its siblings. */
  predicate InnerNodeAsLeaf(h: Hash256, blocks: seq<seq<byte>>, data: seq<byte>, proof: Proof)
    requires Hashable(blocks) && |proof.hashes| < Depth(|blocks|)
  {
    var k := StartNode(StartIndex(proof), |proof.hashes|);
    InnerStart(|blocks|, StartIndex(proof), |proof.hashes|);
    LeafInput(data, proof.index) == Children(h, blocks, Width(|blocks|), k)
    && proof.hashes == Siblings(h, blocks, Width(|blocks|), k)
  }

  lemma InnerStart(n: nat, s: nat, d: nat)
    requires n >= 1 && d < Depth(n)
    ensures 1 <= StartNode(s, d) < Width(n)
  {
    PowMonotone(d + 1, Depth(n));
    hide StartNode;
  }

  /** A shorter proof verifies exactly when an inner node is passed off as a leaf, unless the hash
      breaks: leaves and inner nodes are hashed alike. Such data is 60 bytes long. */
  lemma ShortProofExact(h: Hash256, blocks: seq<seq<byte>>, data: seq<byte>, proof: Proof)
    requires Hashable(blocks) && |proof.hashes| < Depth(|blocks|)
    ensures InnerNodeAsLeaf(h, blocks, data, proof) ==> ProofRoot(h, data, proof) == Root(h, blocks) && |data| == 60
    ensures ProofRoot(h, data, proof) == Root(h, blocks) && !InnerNodeAsLeaf(h, blocks, data, proof)
        ==> Breaks(h, Extract(h, blocks, data, proof))
  {
    hide Siblings, Node, Children, CeilLog2, Breaks, PathEvidence, LeafInput, StartNode, Fold;
    var k, w := StartNode(StartIndex(proof), |proof.hashes|), Width(|blocks|);
    InnerStart(|blocks|, StartIndex(proof), |proof.hashes|);
    if InnerNodeAsLeaf(h, blocks, data, proof) {
      InnerNode(h, blocks, w, k);
      SiblingsReachRoot(h, blocks, w, k);
      FoldStart(h, h(LeafInput(data, proof.index)), StartIndex(proof), proof.hashes);
    }
    if ProofRoot(h, data, proof) == Root(h, blocks) {
      PathReachesNode(h, blocks, data, proof);
    }
  }

  /** The children of the root read as a leaf: data and an empty proof. */
  function RootData(h: Hash256, blocks: seq<seq<byte>>): (data: seq<byte>)
    requires Hashable(blocks) && |blocks| >= 2
    ensures |data| == 60
  {
    Children(h, blocks, Width(|blocks|), 1)[..60]
  }

  function RootProof(h: Hash256, blocks: seq<seq<byte>>): Proof
    requires Hashable(blocks) && |blocks| >= 2
  {
    Proof([], LittleEndian(Children(h, blocks, Width(|blocks|), 1)[60..]))
  }

  /** In every tree of at least two blocks this data verifies with an empty proof, although the
      proof is no block's own. */
  lemma RootAsLeaf(h: Hash256, blocks: seq<seq<byte>>)
    requires Hashable(blocks) && |blocks| >= 2
    ensures ProofRoot(h, RootData(h, blocks), RootProof(h, blocks)) == Root(h, blocks)
    ensures !Stored(h, blocks, RootData(h, blocks), RootProof(h, blocks))
  {
    hide Node, Children, Siblings, LittleEndian, PutLittleEndian;
    var data, proof := RootData(h, blocks), RootProof(h, blocks);
    var input := Children(h, blocks, Width(|blocks|), 1);
    WriteRead(input[60..]);
    assert LeafInput(data, proof.index) == input[..60] + input[60..] == input;
    InnerNode(h, blocks, Width(|blocks|), 1);
    assert Depth(|blocks|) >= 1;
    if Stored(h, blocks, data, proof) {
      ProofsVerify(h, blocks, proof.index);
    }
  }

  /** What is left of a verification after the surplus hashes. */
  function Remainder(h: Hash256, blocks: seq<seq<byte>>, data: seq<byte>, proof: Proof): (r: Path)
    requires Hashable(blocks) && |proof.hashes| > Depth(|blocks|)
    ensures |r.hashes| == Depth(|blocks|)
  {
    Tail(h, Path(LeafInput(data, proof.index), StartIndex(proof), proof.hashes), Depth(|blocks|))
  }

  /** A longer proof verifies exactly when its surplus hashes end in the pair that a stored block is hashed
      as and the rest are that leaf's siblings, unless the hash breaks. That block is 60 bytes long. */
  lemma LongProofExact(h: Hash256, blocks: seq<seq<byte>>, data: seq<byte>, proof: Proof)
    requires Hashable(blocks) && |proof.hashes| > Depth(|blocks|)
    ensures AtLeaf(h, blocks, Remainder(h, blocks, data, proof))
        ==> ProofRoot(h, data, proof) == Root(h, blocks) && exists i :: 0 <= i < |blocks| && |blocks[i]| == 60
    ensures ProofRoot(h, data, proof) == Root(h, blocks) && !AtLeaf(h, blocks, Remainder(h, blocks, data, proof))
        ==> Breaks(h, Extract(h, blocks, data, proof))
  {
    hide Node, Breaks, PathEvidence, LeafInput, Tail, StoredInput, Siblings, CeilLog2, StartNode, Root,
         Pow, Fold;
    var p := Path(LeafInput(data, proof.index), StartIndex(proof), proof.hashes);
    LongPathExact(h, blocks, p);
    if AtLeaf(h, blocks, Remainder(h, blocks, data, proof)) {
      TailIsPair(h, p, Depth(|blocks|));
      LeafInputLength(h, blocks, StartNode(Remainder(h, blocks, data, proof).start, Depth(|blocks|)));
    }
  }

  /** A longer proof verifies only by breaking the hash, if no stored block is 60 bytes long. */
  lemma LongProofBreaks(h: Hash256, blocks: seq<seq<byte>>, data: seq<byte>, proof: Proof)
    requires Hashable(blocks) && |proof.hashes| > Depth(|blocks|)
    requires forall i :: 0 <= i < |blocks| ==> |blocks[i]| != 60
    requires ProofRoot(h, data, proof) == Root(h, blocks)
    ensures Breaks(h, Extract(h, blocks, data, proof))
  {
    hide Breaks, Extract, AtLeaf, Remainder, ProofRoot, Root;
    LongProofExact(h, blocks, data, proof);
  }

  /** A block of 60 bytes that is hashed like an inner node over the leaf of other data and a hash. */
  function PairBlock(h: Hash256, data: seq<byte>, front: seq<byte>): (r: seq<byte>)
    requires |front| == 28
    ensures |r| == 60
  {
    h(LeafInput(data, 0)) + front
  }

  /** Where such a block is the only one, the other data verifies with the hash as a surplus one, without
      breaking the hash. */
  lemma SurplusHash(h: Hash256, data: seq<byte>, front: seq<byte>)
    requires |front| == 28
    ensures var blocks, proof := [PairBlock(h, data, front)], Proof([front + PutLittleEndian(0)], 0);
            && Hashable(blocks) && Depth(|blocks|) == 0
            && ProofRoot(h, data, proof) == Root(h, blocks)
            && !Stored(h, blocks, data, proof) && Extract(h, blocks, data, proof) == NoBreach
  {
    hide PutLittleEndian, Node, LeafInput, PathEvidence, Fold, Pair;
    var blocks, hash := [PairBlock(h, data, front)], front + PutLittleEndian(0);
    var proof, x := Proof([hash], 0), h(LeafInput(data, 0));
    assert Pow(2, 0) == 1 && Pow(2, 1) == 2 && Width(1) == 1;
    assert LeafInput(blocks[0], 0) == Pair(true, x, hash) by {
      PairIsLeaf(h, data, front);
    }
    LeafNode(h, blocks, 1, 0);
    assert StartIndex(proof) == 2;
    OneFolded(h, blocks, LeafInput(data, 0), hash);
  }

  lemma PairIsLeaf(h: Hash256, data: seq<byte>, front: seq<byte>)
    requires |front| == 28
    ensures LeafInput(PairBlock(h, data, front), 0) == Pair(true, h(LeafInput(data, 0)), front + PutLittleEndian(0))
  {
    hide PutLittleEndian;
  }

  /** In a tree of one leaf a single hash is folded into a pair, which is compared with the leaf. */
  lemma OneFolded(h: Hash256, blocks: seq<seq<byte>>, input: seq<byte>, hash: Digest)
    requires |blocks| == 1 && Hashable(blocks) && Width(1) == 1 && Depth(1) == 0
    ensures var pair := Pair(true, h(input), hash);
            && Fold(h, h(input), 2, [hash]) == h(pair)
            && (pair == LeafInput(blocks[0], 0) ==> PathEvidence(h, blocks, input, 2, [hash]) == NoBreach)
  {
    hide Node, LeafInput, Pair;
    var pair := Pair(true, h(input), hash);
    assert [hash][1..] == [];
    assert Fold(h, h(pair), 1, []) == h(pair);
    assert PathEvidence(h, blocks, input, 2, [hash]) == PathEvidence(h, blocks, pair, 1, []);
  }

  /** A leaf input met on the tree's own path is a stored block's. */
  lemma LeafReached(h: Hash256, blocks: seq<seq<byte>>, data: seq<byte>, proof: Proof, k: nat)
    requires Hashable(blocks) && Pow(2, |proof.hashes|) <= k < 2 * Pow(2, |proof.hashes|) <= 2 * Width(|blocks|)
    requires StoredInput(h, blocks, Width(|blocks|), k) == Some(LeafInput(data, proof.index))
    requires |proof.hashes| == Depth(|blocks|) || |data| != 60
    ensures k >= Width(|blocks|) && proof.index == k - Width(|blocks|) < |blocks| && data == blocks[proof.index]
  {
    hide CeilLog2, Node, Pow, Children, LeafInput;
    if k >= Width(|blocks|) {
      LeafInputInjective(data, proof.index, blocks[k - Width(|blocks|)], k - Width(|blocks|));
    }
  }

  /** The proof stored for the block at j verifies for some data exactly when the data is that
      block, unless the hash breaks. */
  lemma ProofSpeaksForItsBlock(h: Hash256, blocks: seq<seq<byte>>, data: seq<byte>, j: u32)
    requires Hashable(blocks) && j < |blocks|
    ensures |ProofAt(h, blocks, j).hashes| == Depth(|blocks|)
    ensures data == blocks[j] ==> ProofRoot(h, data, ProofAt(h, blocks, j)) == Root(h, blocks)
    ensures data != blocks[j] && ProofRoot(h, data, ProofAt(h, blocks, j)) == Root(h, blocks)
        ==> Breaks(h, Extract(h, blocks, data, ProofAt(h, blocks, j)))
  {
    hide ProofRoot, Extract, Siblings;
    ProofsVerify(h, blocks, j);
    if ProofRoot(h, data, ProofAt(h, blocks, j)) == Root(h, blocks) {
      Binding(h, blocks, data, ProofAt(h, blocks, j));
    }
  }
}
