/** The Merkle tree object, proof generation and verification, and the proof encoding. */
module Merkle {
  import opened Words
  import opened ModArith
  import opened Endian
  import opened Chunks
  import opened MerkleSpec

  // ---------- lookup keys ----------

  /** The lookup hash of the tree's index map; nothing is assumed about it. */
  type LookupKey = seq<byte> -> nat

  /** The index map: later blocks overwrite earlier ones with the same key. */
  function IndexMap(key: LookupKey, blocks: seq<seq<byte>>): map<nat, u32>
    requires |blocks| < TWO32
  {
    if |blocks| == 0 then map[]
    else var m := |blocks| - 1; IndexMap(key, blocks[..m])[key(blocks[m]) := m]
  }

  /** The map sends every block's key to the last block that has it, and nothing else. */
  ghost predicate Indexes(index: map<nat, u32>, key: LookupKey, blocks: seq<seq<byte>>) {
    && (forall i :: 0 <= i < |blocks| ==> key(blocks[i]) in index && i <= index[key(blocks[i])])
    && (forall k :: k in index ==> index[k] < |blocks| && key(blocks[index[k]]) == k)
  }

  lemma IndexesNext(index: map<nat, u32>, key: LookupKey, blocks: seq<seq<byte>>)
    requires 0 < |blocks| < TWO32 && Indexes(index, key, blocks[..|blocks| - 1])
    ensures Indexes(index[key(blocks[|blocks| - 1]) := |blocks| - 1], key, blocks)
  {
    var m := |blocks| - 1;
    var next := index[key(blocks[m]) := m];
    forall i | 0 <= i < |blocks| ensures key(blocks[i]) in next && i <= next[key(blocks[i])] {
      if i < m {
        assert blocks[..m][i] == blocks[i];
      }
    }
    forall k | k in next ensures next[k] < |blocks| && key(blocks[next[k]]) == k {
      if k != key(blocks[m]) {
        assert blocks[..m][index[k]] == blocks[index[k]];
      }
    }
  }

  /** A key maps to the last block that has it, and every block's key is present. */
  lemma {:induction false} IndexMapLast(key: LookupKey, blocks: seq<seq<byte>>)
    requires |blocks| < TWO32
    ensures |IndexMap(key, blocks)| <= |blocks| && Indexes(IndexMap(key, blocks), key, blocks)
  {
    hide Indexes;
    if |blocks| > 0 {
      IndexMapLast(key, blocks[..|blocks| - 1]);
      IndexesNext(IndexMap(key, blocks[..|blocks| - 1]), key, blocks);
    } else {
      NothingIndexed(key, blocks);
    }
  }

  lemma NothingIndexed(key: LookupKey, blocks: seq<seq<byte>>)
    requires |blocks| == 0
    ensures Indexes(map[], key, blocks)
  {
  }

  /** What proof generation needs: the number of keys has the tree's depth as its logarithm, and
      blocks that share a key are equal. */
  predicate Provable(key: LookupKey, blocks: seq<seq<byte>>) {
    Hashable(blocks) && KeysSpan(key, blocks) &&
    forall i, j :: 0 <= i < j < |blocks| && key(blocks[i]) == key(blocks[j]) ==> blocks[i] == blocks[j]
  }

  predicate KeysSpan(key: LookupKey, blocks: seq<seq<byte>>)
    requires 1 <= |blocks| < TWO32
  {
    |IndexMap(key, blocks)| >= 1 && CeilLog2(|IndexMap(key, blocks)|) == Depth(|blocks|)
  }

  lemma {:induction false} DistinctKeysCount(key: LookupKey, blocks: seq<seq<byte>>)
    requires |blocks| < TWO32 && forall i, j :: 0 <= i < j < |blocks| ==> key(blocks[i]) != key(blocks[j])
    ensures |IndexMap(key, blocks)| == |blocks|
  {
    if |blocks| > 0 {
      var init := blocks[..|blocks| - 1];
      DistinctKeysCount(key, init);
      IndexMapLast(key, init);
      assert key(blocks[|blocks| - 1]) !in IndexMap(key, init);
    }
  }

  /** Distinct keys are enough. */
  lemma DistinctKeysProvable(key: LookupKey, blocks: seq<seq<byte>>)
    requires Hashable(blocks) && forall i, j :: 0 <= i < j < |blocks| ==> key(blocks[i]) != key(blocks[j])
    ensures Provable(key, blocks)
  {
    DistinctKeysCount(key, blocks);
  }

  /** The proof the tree returns for some data. */
  function Generated(h: Hash256, key: LookupKey, blocks: seq<seq<byte>>, data: seq<byte>): Result<Proof>
    requires Hashable(blocks)
  {
    var index := IndexMap(key, blocks);
    IndexMapLast(key, blocks);
    if key(data) in index then Ok(ProofAt(h, blocks, index[key(data)])) else Reject
  }

  /** For any data, stored or not: no proof exactly when no block has its key; otherwise the proof of the last
      block that has it. */
  lemma GeneratedExact(h: Hash256, key: LookupKey, blocks: seq<seq<byte>>, data: seq<byte>)
    requires Hashable(blocks)
    ensures var r := Generated(h, key, blocks, data);
            && (r == Reject <==> forall i :: 0 <= i < |blocks| ==> key(blocks[i]) != key(data))
            && (r.Ok? ==>
                  && r.value.index < |blocks| && key(blocks[r.value.index]) == key(data)
                  && (forall i :: r.value.index < i < |blocks| ==> key(blocks[i]) != key(data))
                  && r.value == ProofAt(h, blocks, r.value.index))
  {
    hide Siblings, Node;
    IndexMapLast(key, blocks);
  }

  /** A proof request as the source runs it: the array for the siblings is sized by the number of
      keys, and the climb stops the program when it is too short. */
  function Generation(h: Hash256, key: LookupKey, blocks: seq<seq<byte>>, data: seq<byte>): Attempt<Proof>
    requires Hashable(blocks)
  {
    match Generated(h, key, blocks, data)
    case Reject => Failed
    case Ok(proof) => if KeysSpan(key, blocks) then Done(proof) else Halted
  }

  /** A request for a stored block never fails; it stops exactly when the keys do not span the
      tree, and otherwise returns the block's proof. */
  lemma GenerationExact(h: Hash256, key: LookupKey, blocks: seq<seq<byte>>, i: nat)
    requires Hashable(blocks) && i < |blocks|
    ensures Generated(h, key, blocks, blocks[i]).Ok?
    ensures Generation(h, key, blocks, blocks[i])
         == if KeysSpan(key, blocks) then Done(Generated(h, key, blocks, blocks[i]).value) else Halted
  {
    hide KeysSpan, Siblings;
    IndexMapLast(key, blocks);
  }

  /** The keys span the tree exactly when there are more of them than half its leaf positions. */
  lemma KeysSpanExact(key: LookupKey, blocks: seq<seq<byte>>)
    requires Hashable(blocks) && |blocks| >= 2
    ensures KeysSpan(key, blocks) <==> 2 * |IndexMap(key, blocks)| > Width(|blocks|)
  {
    KeysCount(key, blocks);
    var d := Depth(|blocks|);
    CeilLog2Exact(|IndexMap(key, blocks)|, d - 1);
    assert Pow(2, d) == 2 * Pow(2, d - 1);
    hide CeilLog2, Pow, IndexMap;
  }

  lemma KeysCount(key: LookupKey, blocks: seq<seq<byte>>)
    requires Hashable(blocks)
    ensures 1 <= |IndexMap(key, blocks)| <= |blocks|
    ensures CeilLog2(|IndexMap(key, blocks)|) <= Depth(|blocks|)
  {
    IndexMapLast(key, blocks);
    hide IndexMap;
    assert key(blocks[0]) in IndexMap(key, blocks);
    CeilLog2Exact(|blocks|, Depth(|blocks|));
    CeilLog2Exact(|IndexMap(key, blocks)|, Depth(|blocks|));
    hide CeilLog2, Pow;
  }

  /** Three equal blocks have one key in a tree of depth two, and generation stops. */
  lemma EqualBlocksHalt(h: Hash256, key: LookupKey, x: seq<byte>)
    ensures Hashable([x, x, x]) && !KeysSpan(key, [x, x, x])
    ensures Generation(h, key, [x, x, x], x) == Halted
  {
    hide Siblings, Node;
    var blocks := [x, x, x];
    assert Width(3) == 4;
    IndexMapLast(key, blocks);
    var keys := IndexMap(key, blocks).Keys;
    forall k | k in keys ensures k == key(x) {
      assert blocks[IndexMap(key, blocks)[k]] == x;
    }
    assert keys == {key(x)};
    assert |IndexMap(key, blocks)| == |keys| == 1;
    KeysSpanExact(key, blocks);
    GenerationExact(h, key, blocks, 0);
  }

  /** Generation for a stored block, whatever its position: the proof has depth-many siblings and
      verifies that block. It fails for an equal-keyed but different block only by breaking the hash. */
  lemma GeneratedVerifies(h: Hash256, key: LookupKey, blocks: seq<seq<byte>>, i: nat)
    requires Hashable(blocks) && i < |blocks|
    ensures var r := Generated(h, key, blocks, blocks[i]);
            r.Ok? && |r.value.hashes| == Depth(|blocks|) && r.value.index < |blocks| &&
            r.value == ProofAt(h, blocks, r.value.index) && key(blocks[r.value.index]) == key(blocks[i]) &&
            (blocks[r.value.index] == blocks[i] ==> ProofRoot(h, blocks[i], r.value) == Root(h, blocks)) &&
            (blocks[r.value.index] == blocks[i] || ProofRoot(h, blocks[i], r.value) != Root(h, blocks)
              || Breaks(h, Extract(h, blocks, blocks[i], r.value)))
    ensures (forall j :: i < j < |blocks| ==> key(blocks[j]) != key(blocks[i]))
        ==> Generated(h, key, blocks, blocks[i]).value.index == i
  {
    hide Breaks, Extract, Siblings, ProofRoot;
    IndexMapLast(key, blocks);
    ProofSpeaksForItsBlock(h, blocks, blocks[i], IndexMap(key, blocks)[key(blocks[i])]);
  }

  /** Without different blocks under one key, every stored block's proof verifies. */
  lemma ProvableVerifies(h: Hash256, key: LookupKey, blocks: seq<seq<byte>>, i: nat)
    requires Provable(key, blocks) && i < |blocks|
    ensures var r := Generated(h, key, blocks, blocks[i]);
            r.Ok? && |r.value.hashes| == Depth(|blocks|) && ProofRoot(h, blocks[i], r.value) == Root(h, blocks)
  {
    hide Breaks, Extract, Siblings, ProofRoot, KeysSpan;
    GeneratedVerifies(h, key, blocks, i);
  }

  class MerkleTree {
    const hash: Hash256
    const key: LookupKey
    var data: map<nat, u32>
    var nodes: array<seq<byte>>

    constructor (hash: Hash256, key: LookupKey, data: map<nat, u32>, nodes: array<seq<byte>>)
      ensures this.hash == hash && this.key == key && this.data == data && this.nodes == nodes
    {
      this.hash, this.key, this.data, this.nodes := hash, key, data, nodes;
    }

    /** The object is the tree over the blocks. */
    ghost predicate Built(blocks: seq<seq<byte>>)
      reads this, nodes
    {
      Hashable(blocks) && data == IndexMap(key, blocks) && Filled(hash, blocks, nodes, 1)
    }

    static method NewUsing(blocks: seq<seq<byte>>, hash: Hash256, key: LookupKey) returns (r: Result<MerkleTree>)
      requires |blocks| == 0 || Hashable(blocks)
      ensures r.Reject? <==> |blocks| == 0
      ensures r.Ok? ==> fresh(r.value) && fresh(r.value.nodes) && r.value.hash == hash && r.value.key == key
      ensures r.Ok? ==> r.value.Built(blocks)
    {
      if |blocks| == 0 {
        return Reject;
      }
      var width := Width(|blocks|);
      var nodes := new seq<byte>[2 * width];
      var index := Leaves(blocks, hash, key, width, nodes);
      Branches(blocks, hash, width, nodes);
      var tree := new MerkleTree(hash, key, index, nodes);
      r := Ok(tree);
    }

    method Root() returns (root: seq<byte>)
      requires nodes.Length >= 2
      ensures root == nodes[1]
    {
      root := nodes[1];
    }

    /** Fails when the data is not in the tree and stops when the keys do not span it. */
    method GenerateProof(data: seq<byte>, ghost blocks: seq<seq<byte>>) returns (r: Attempt<Proof>)
      requires Built(blocks)
      ensures r == Generation(hash, key, blocks, data)
      ensures r == Failed <==> forall i :: 0 <= i < |blocks| ==> key(blocks[i]) != key(data)
    {
      hide Node, Siblings, CeilLog2;
      GeneratedExact(hash, key, blocks, data);
      if key(data) !in this.data {
        return Failed;
      }
      var index := this.data[key(data)];
      IndexMapLast(key, blocks);
      KeysCount(key, blocks);
      var hashes := Climb(index, CeilLog2(|this.data|), blocks);
      r := if hashes.Some? then Done(Proof(hashes.value, index)) else Halted;
    }

    /** The siblings from a leaf upwards; None stands for an index past the array. */
    method Climb(index: u32, proofLen: nat, ghost blocks: seq<seq<byte>>) returns (r: Option<seq<Digest>>)
      requires Built(blocks) && index < |blocks| && proofLen <= Depth(|blocks|)
      ensures r == if proofLen == Depth(|blocks|) then Some(ProofAt(hash, blocks, index).hashes) else None
    {
      hide Node, Siblings, CeilLog2, Pow;
      ghost var width := Width(|blocks|);
      IndicesFit(|blocks|);
      SiblingCount(hash, blocks, width, width + index, Depth(|blocks|));
      var hashes := new Digest[proofLen];
      var i: u32 := index + nodes.Length / 2;
      ghost var path := Siblings(hash, blocks, width, i);
      var cur := 0;
      while i > 1
        invariant 1 <= i < 2 * width && cur <= proofLen
        invariant hashes[..cur] + Siblings(hash, blocks, width, i) == path
      {
        SiblingsStep(hash, blocks, width, i);
        if cur == hashes.Length {
          assert cur < |path|;
          return None;
        }
        hashes[cur] := nodes[Sibling(i)];
        cur := cur + 1;
        i := i / 2;
      }
      assert Siblings(hash, blocks, width, 1) == [] by { SiblingsTop(hash, blocks, width); }
      assert cur == |path| && hashes[..] == path;
      r := Some(hashes[..]);
    }

    /** The length of every stored block's encoded proof, if and only if the keys span the tree. */
    method EncodedProofLength(ghost blocks: seq<seq<byte>>) returns (n: nat)
      requires Built(blocks)
      ensures KeysSpan(key, blocks) <==> n == 32 * Depth(|blocks|) + 8
      ensures forall i :: 0 <= i < |blocks| ==> Generated(hash, key, blocks, blocks[i]).Ok?
      ensures forall i :: 0 <= i < |blocks| ==>
                (KeysSpan(key, blocks) <==> n == |Encoded(Generated(hash, key, blocks, blocks[i]).value)|)
    {
      hide CeilLog2, Generated, Encoded;
      KeysCount(key, blocks);
      n := CeilLog2(|data|) * 32 + 4 + 4;
      forall i | 0 <= i < |blocks|
        ensures Generated(hash, key, blocks, blocks[i]).Ok?
        ensures |Encoded(Generated(hash, key, blocks, blocks[i]).value)| == 32 * Depth(|blocks|) + 8
      {
        GeneratedVerifies(hash, key, blocks, i);
      }
    }
  }

  /** All node values from an index on are in place. */
  ghost predicate Filled(h: Hash256, blocks: seq<seq<byte>>, nodes: array<seq<byte>>, from: nat)
    requires Hashable(blocks) && from >= 1
    reads nodes
  {
    nodes.Length == 2 * Width(|blocks|) &&
    forall k :: from <= k < nodes.Length ==> nodes[k] == Node(h, blocks, Width(|blocks|), k)
  }

  /** Leaf hashes, zero padding and the index map. */
  method Leaves(blocks: seq<seq<byte>>, hash: Hash256, key: LookupKey, width: nat, nodes: array<seq<byte>>)
    returns (index: map<nat, u32>)
    requires Hashable(blocks) && width == Width(|blocks|) && nodes.Length == 2 * width
    modifies nodes
    ensures index == IndexMap(key, blocks) && Filled(hash, blocks, nodes, width)
  {
    hide LeafInput, Node;
    index := map[];
    var i := 0;
    while i < |blocks|
      invariant 0 <= i <= |blocks|
      invariant index == IndexMap(key, blocks[..i])
      invariant forall k :: width <= k < width + i ==> nodes[k] == Node(hash, blocks, width, k)
    {
      LeafNode(hash, blocks, width, i);
      nodes[i + width] := hash(LeafInput(blocks[i], i));
      assert blocks[..i + 1][..i] == blocks[..i];
      index := index[key(blocks[i]) := i];
      i := i + 1;
    }
    assert blocks[..i] == blocks;
    i := |blocks| + width;
    while i < nodes.Length
      invariant |blocks| + width <= i <= nodes.Length
      invariant forall k :: width <= k < i ==> nodes[k] == Node(hash, blocks, width, k)
    {
      LeafNode(hash, blocks, width, i - width);
      nodes[i] := Zeros(32);
      i := i + 1;
    }
  }

  /** Inner nodes, from the last to the root. */
  method Branches(blocks: seq<seq<byte>>, hash: Hash256, width: nat, nodes: array<seq<byte>>)
    requires Hashable(blocks) && width == Width(|blocks|)
    requires Filled(hash, blocks, nodes, width)
    modifies nodes
    ensures Filled(hash, blocks, nodes, 1)
  {
    hide Node;
    var i := width - 1;
    while i > 0
      invariant 0 <= i < width
      invariant Filled(hash, blocks, nodes, i + 1)
    {
      InnerNode(hash, blocks, width, i);
      nodes[i] := hash(nodes[2 * i] + nodes[2 * i + 1]);
      i := i - 1;
    }
  }

  // ---------- verification ----------

  method GenerateProofHash(data: seq<byte>, proof: Proof, h: Hash256) returns (proofHash: Digest)
    ensures proofHash == ProofRoot(h, data, proof)
  {
    proofHash := h(LeafInput(data, proof.index));
    var index := StartIndex(proof);
    var i := 0;
    while i < |proof.hashes|
      invariant 0 <= i <= |proof.hashes|
      invariant Fold(h, proofHash, index, proof.hashes[i..]) == ProofRoot(h, data, proof)
    {
      assert proof.hashes[i..][0] == proof.hashes[i] && proof.hashes[i..][1..] == proof.hashes[i + 1..];
      if index % 2 == 0 {
        proofHash := h(proofHash + proof.hashes[i]);
      } else {
        proofHash := h(proof.hashes[i] + proofHash);
      }
      index := index / 2;
      i := i + 1;
    }
  }

  method VerifyProofUsing(data: seq<byte>, proof: Proof, root: seq<byte>, h: Hash256) returns (ok: bool)
    ensures ok <==> root == ProofRoot(h, data, proof)
  {
    var proofHash := GenerateProofHash(data, proof, h);
    ok := root == proofHash;
  }

  // ---------- encoding ----------

  function Encoded(p: Proof): (r: seq<byte>)
    ensures |r| == 4 + 32 * |p.hashes| + 4
  {
    PutLittleEndian(Wrap(|p.hashes|)) + Flatten(p.hashes, 32) + PutLittleEndian(p.index)
  }

  /** Reads a proof from bytes with spare capacity behind them: hashes may run into the spare bytes, the
      index stands at the end of the bytes proper. None stands for a slice out of range, on which the
      source stops; an offset past 32 bits wraps to one. */
  function Decoded(p: seq<byte>, spare: seq<byte>): Option<Proof> {
    if |p| < 4 || 4 + 32 * LittleEndian(p[..4]) > |p| + |spare| || 4 + 32 * LittleEndian(p[..4]) >= TWO32 then None
    else Some(Proof(HashesAt(p + spare, LittleEndian(p[..4])), LittleEndian(p[|p| - 4..])))
  }

  function HashesAt(p: seq<byte>, n: nat): (r: seq<Digest>)
    requires 4 + 32 * n <= |p|
    ensures |r| == n
  {
    seq<Digest>(n, i requires 0 <= i < n => p[4 + 32 * i..4 + 32 * i + 32])
  }

  lemma HashesIn(head: seq<byte>, hashes: seq<Digest>, rest: seq<byte>)
    requires |head| == 4
    ensures HashesAt(head + Flatten(hashes, 32) + rest, |hashes|) == hashes
  {
    hide Flatten;
    var body, bytes := Flatten(hashes, 32), head + Flatten(hashes, 32) + rest;
    forall i | 0 <= i < |hashes| ensures bytes[4 + 32 * i..4 + 32 * i + 32] == hashes[i] {
      FlattenSlice(hashes, 32, i);
      SliceOfSuffix(head, body, 32 * i, 32 * i + 32);
      SliceOfPrefix(head + body, rest, 4 + 32 * i, 4 + 32 * i + 32);
    }
  }

  lemma HashesRoundTrip(p: Proof, spare: seq<byte>)
    ensures HashesAt(Encoded(p) + spare, |p.hashes|) == p.hashes
  {
    hide PutLittleEndian, Flatten, Wrap, HashesAt;
    var head, body, tail := PutLittleEndian(Wrap(|p.hashes|)), Flatten(p.hashes, 32), PutLittleEndian(p.index);
    assert Encoded(p) + spare == head + body + (tail + spare);
    HashesIn(head, p.hashes, tail + spare);
  }

  /** The hash count, the hashes in order, the index at the end. */
  lemma EncodedLayout(p: Proof, i: nat)
    requires i < |p.hashes|
    ensures LittleEndian(Encoded(p)[..4]) == |p.hashes| % TWO32
    ensures Encoded(p)[4 + 32 * i..4 + 32 * i + 32] == p.hashes[i]
    ensures |Encoded(p)| == 4 + 32 * |p.hashes| + 4 && LittleEndian(Encoded(p)[4 + 32 * |p.hashes|..]) == p.index
  {
    var bytes, n := Encoded(p), Wrap(|p.hashes|);
    hide PutLittleEndian, LittleEndian, Flatten;
    RoundTrip(n);
    RoundTrip(p.index);
    assert bytes[..4] == PutLittleEndian(n) && bytes[4 + 32 * |p.hashes|..] == PutLittleEndian(p.index);
    HashesRoundTrip(p, []);
    assert bytes + [] == bytes;
    assert HashesAt(bytes, |p.hashes|)[i] == p.hashes[i];
  }

  /** Decoding undoes encoding, whatever stands behind it, exactly on proofs whose hashes end at an offset
      of 32 bits. */
  lemma EncodingExact(p: Proof, spare: seq<byte>)
    ensures Decoded(Encoded(p), spare) == Some(p) <==> 4 + 32 * |p.hashes| < TWO32
  {
    hide PutLittleEndian, LittleEndian, Flatten, Wrap, HashesAt;
    var bytes, n := Encoded(p), Wrap(|p.hashes|);
    RoundTrip(n);
    RoundTrip(p.index);
    assert bytes[..4] == PutLittleEndian(n);
    assert bytes[|bytes| - 4..] == PutLittleEndian(p.index);
    if |p.hashes| < TWO32 {
      WrapSmall(|p.hashes|);
      HashesRoundTrip(p, spare);
    }
  }

  /** Any bytes, well formed or not: count, hashes and whatever follows, of which the first part is the slice
      proper and the rest spare. At least four bytes of slice decode to those hashes and the slice's last four
      bytes as the index, wherever the slice ends; fewer do not decode. */
  lemma AnyBytesDecode(p: seq<byte>, spare: seq<byte>, hashes: seq<Digest>, rest: seq<byte>)
    requires 4 + 32 * |hashes| < TWO32 && p + spare == PutLittleEndian(|hashes|) + Flatten(hashes, 32) + rest
    ensures Decoded(p, spare)
         == if |p| < 4 then None else Some(Proof(hashes, LittleEndian(p[|p| - 4..])))
  {
    hide PutLittleEndian, LittleEndian, Flatten, HashesAt;
    if |p| >= 4 {
      var head := PutLittleEndian(|hashes|);
      RoundTrip(|hashes|);
      assert p + spare == head + (Flatten(hashes, 32) + rest);
      FirstFour(p, spare, head, Flatten(hashes, 32) + rest);
      HashesIn(head, hashes, rest);
    }
  }

  lemma FirstFour(p: seq<byte>, spare: seq<byte>, head: seq<byte>, rest: seq<byte>)
    requires |p| >= 4 == |head| && p + spare == head + rest
    ensures p[..4] == head
  {
    assert p[..4] == (p + spare)[..4] && head == (head + rest)[..4];
  }

  /** A count that runs past all bytes, or past the 32-bit offsets, does not decode. */
  lemma LargeCountStops(p: seq<byte>, spare: seq<byte>)
    requires |p| >= 4 && (4 + 32 * LittleEndian(p[..4]) > |p + spare| || 32 * LittleEndian(p[..4]) >= TWO32 - 4)
    ensures Decoded(p, spare) == None
  {
    hide LittleEndian;
  }

  method EncodeProof(p: Proof) returns (out: array<byte>)
    ensures fresh(out) && out[..] == Encoded(p)
  {
    hide PutLittleEndian, Flatten;
    out := new byte[4 + |p.hashes| * 32 + 4];
    hide Wrap;
    CopyAt(out, 0, PutLittleEndian(Wrap(|p.hashes|)));
    EncodeHashes(out, p.hashes);
    CopyAt(out, out.Length - 4, PutLittleEndian(p.index));
    assert out[..out.Length] == out[..];
  }

  /** The loop over the hashes. */
  method EncodeHashes(out: array<byte>, hashes: seq<Digest>)
    requires out.Length >= 4 + 32 * |hashes|
    modifies out
    ensures out[..4 + 32 * |hashes|] == old(out[..4]) + Flatten(hashes, 32)
  {
    hide Flatten;
    ghost var head := out[..4];
    assert Flatten(hashes[..0], 32) == [] by { FlattenNone(hashes); }
    var i := 0;
    while i < |hashes|
      invariant 0 <= i <= |hashes|
      invariant out[..4 + 32 * i] == head + Flatten(hashes[..i], 32)
    {
      CopyAt(out, 4 + i * 32, hashes[i]);
      FlattenNext(hashes, 32, i);
      assert head + Flatten(hashes[..i], 32) + hashes[i] == head + (Flatten(hashes[..i], 32) + hashes[i]);
      i := i + 1;
    }
    assert hashes[..i] == hashes;
  }

  lemma FlattenNone(chunks: seq<seq<byte>>)
    requires Sized(chunks, 32)
    ensures Flatten(chunks[..0], 32) == []
  {
  }

  /** The 32-bit offset of hash i. */
  function HashOffset(i: u32): u32 {
    Add(4, Mul(32, i))
  }

  lemma Offsets(i: u32)
    requires 4 + 32 * i < TWO32
    ensures HashOffset(i) == 4 + 32 * i
  {
    WrapSmall(32 * i);
    WrapSmall(4 + 32 * i);
  }

  /** The offset behind the last hash that fits 32 bits wraps. */
  lemma OffsetWraps(i: u32)
    requires 4 + 32 * i < TWO32 <= 4 + 32 * (i + 1)
    ensures i + 1 < TWO32 && HashOffset(i + 1) == 4
  {
    assert i + 1 == 0x800_0000;
  }

  /** The loop over the hashes, with its 32-bit offsets. */
  method DecodeProof(p: seq<byte>, spare: seq<byte>) returns (r: Option<Proof>)
    ensures r == Decoded(p, spare)
  {
    hide LittleEndian, HashOffset;
    if |p| < 4 {
      return None;
    }
    ghost var whole := p + spare;
    var numHashes := LittleEndian(p[..4]);
    var hashes := new Digest[numHashes];
    var i: u32 := 0;
    while i < numHashes
      invariant 0 <= i <= numHashes && 4 + 32 * i <= |whole| && 4 + 32 * i < TWO32
      invariant forall k :: 0 <= k < i ==> hashes[k] == whole[4 + 32 * k..4 + 32 * k + 32]
    {
      Offsets(i);
      if 4 + 32 * (i + 1) < TWO32 {
        Offsets(i + 1);
      } else {
        OffsetWraps(i);
      }
      var from, to := HashOffset(i), HashOffset(i + 1);
      if from > to || to > |p| + |spare| {
        return None;
      }
      hashes[i] := (p + spare)[from..to];
      i := i + 1;
    }
    assert hashes[..] == HashesAt(whole, numHashes);
    r := Some(Proof(hashes[..], LittleEndian(p[|p| - 4..])));
  }
}
