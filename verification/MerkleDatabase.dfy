/** The authenticated point database: every block is stored with its own proof and a signal byte. */
module MerkleDatabase {
  import opened Words
  import opened Endian
  import opened MerkleSpec
  import opened Merkle
  import opened XorAlgebra
  import opened PointServer
  import opened PointClient

  // ---------- records ----------

  /** Block, encoded proof, signal byte. */
  function Record(h: Hash256, key: LookupKey, blocks: seq<seq<byte>>, b: nat): (r: seq<byte>)
    requires Hashable(blocks) && b < |blocks|
    ensures |r| == |blocks[b]| + 32 * Depth(|blocks|) + 8 + 1
  {
    GeneratedVerifies(h, key, blocks, b);
    PadWithSignalByte(blocks[b] + Encoded(Generated(h, key, blocks, blocks[b]).value))
  }

  function Records(h: Hash256, key: LookupKey, blocks: seq<seq<byte>>, count: nat): (r: seq<seq<byte>>)
    requires Hashable(blocks) && count <= |blocks|
    ensures |r| == count
  {
    seq(count, b requires 0 <= b < count => Record(h, key, blocks, b))
  }

  function Joined(records: seq<seq<byte>>): seq<byte> {
    if |records| == 0 then [] else Joined(records[..|records| - 1]) + records[|records| - 1]
  }

  function Lengths(records: seq<seq<byte>>): (r: seq<nat>)
    ensures |r| == |records|
  {
    seq(|records|, b requires 0 <= b < |records| => |records[b]|)
  }

  lemma JoinedNext(records: seq<seq<byte>>, n: nat)
    requires n < |records|
    ensures Joined(records[..n + 1]) == Joined(records[..n]) + records[n]
  {
    assert records[..n + 1][..n] == records[..n];
  }

  lemma {:induction false} JoinedOffset(records: seq<seq<byte>>, n: nat)
    requires n <= |records|
    ensures Offset(Lengths(records), n) == |Joined(records[..n])|
  {
    if n > 0 {
      JoinedOffset(records, n - 1);
      JoinedNext(records, n - 1);
    }
  }

  lemma {:induction false} JoinedSlice(records: seq<seq<byte>>, b: nat, n: nat)
    requires b < n <= |records|
    ensures |Joined(records[..b])| + |records[b]| <= |Joined(records[..n])|
    ensures Joined(records[..n])[|Joined(records[..b])|..|Joined(records[..b])| + |records[b]|] == records[b]
  {
    JoinedNext(records, n - 1);
    hide Joined;
    var start := |Joined(records[..b])|;
    if b < n - 1 {
      JoinedSlice(records, b, n - 1);
      assert Joined(records[..n])[start..start + |records[b]|] == Joined(records[..n - 1])[start..start + |records[b]|];
    }
  }

  /** Cutting the joined records at their lengths gives the records back. */
  lemma BlocksOfJoined(records: seq<seq<byte>>)
    ensures Offset(Lengths(records), |records|) == |Joined(records)|
    ensures Blocks(Joined(records), Lengths(records)) == records
  {
    assert records[..|records|] == records;
    JoinedOffset(records, |records|);
    forall b | 0 <= b < |records| ensures BlockAt(Joined(records), Lengths(records), b) == records[b] {
      JoinedOffset(records, b);
      JoinedSlice(records, b, |records|);
      hide Joined, Offset;
    }
  }

  /** The database of these blocks: records joined, lengths and the largest length, root and
      proof length. */
  ghost predicate Authenticates(db: Database, h: Hash256, key: LookupKey, blocks: seq<seq<byte>>)
  {
    var info := db.info;
    Hashable(blocks) && info.numColumns * info.numRows <= |blocks| &&
    db.entries == Joined(Records(h, key, blocks, info.numColumns * info.numRows)) &&
    info.blockLengths == Lengths(Records(h, key, blocks, info.numColumns * info.numRows)) &&
    (forall b :: 0 <= b < |info.blockLengths| ==> info.blockLengths[b] <= info.blockSize) &&
    Announces(info, h, blocks)
  }

  /** What the client knows about the database's contents. */
  ghost predicate Announces(info: Info, h: Hash256, blocks: seq<seq<byte>>)
    requires Hashable(blocks)
  {
    info.pirType == "merkle" && info.root == Root(h, blocks) && info.proofLen == 32 * Depth(|blocks|) + 8
  }

  // ---------- construction ----------

  /** Builds tree, records and description. Fails on no blocks; stops when a proof is needed and
      the keys do not span the tree. */
  method GenerateMerkle(blocks: seq<seq<byte>>, numRows: nat, numColumns: nat, hash: Hash256, key: LookupKey)
    returns (r: Attempt<Database>)
    requires |blocks| == 0 || Hashable(blocks)
    requires numColumns * numRows <= |blocks|
    ensures r.Failed? <==> |blocks| == 0
    ensures r.Halted? <==> |blocks| > 0 && numColumns * numRows > 0 && !KeysSpan(key, blocks)
    ensures r.Done? ==> r.value.info.numRows == numRows && r.value.info.numColumns == numColumns
    ensures r.Done? && KeysSpan(key, blocks) ==> Authenticates(r.value, hash, key, blocks)
    ensures r.Done? && numColumns * numRows > 0 ==> r.value.info.blockSize in r.value.info.blockLengths
  {
    hide Node, Record, Records, Lengths, Joined, CeilLog2, IndexMap, KeysSpan, Generated, Encoded;
    var made := MerkleTree.NewUsing(blocks, hash, key);
    if made.Reject? {
      return Failed;
    }
    var tree := made.value;
    var proofLen := tree.EncodedProofLength(blocks);
    var root := tree.Root();
    var count: nat := numColumns * numRows;
    var lens, maxLen := RecordLengths(blocks, proofLen, count);
    if proofLen == 32 * Depth(|blocks|) + 8 {
      LengthsOfRecords(hash, key, blocks, count, lens);
    }
    var entries := GenerateMerkleProofs(blocks[..count], tree, blocks);
    if entries.None? {
      return Halted;
    }
    r := Done(Database(entries.value, Info(numRows, numColumns, maxLen, lens, "merkle", root, proofLen)));
  }

  lemma LengthsOfRecords(h: Hash256, key: LookupKey, blocks: seq<seq<byte>>, count: nat, lens: seq<nat>)
    requires Hashable(blocks) && count <= |blocks| && |lens| == count
    requires forall b :: 0 <= b < count ==> lens[b] == |blocks[b]| + (32 * Depth(|blocks|) + 8) + 1
    ensures lens == Lengths(Records(h, key, blocks, count))
  {
    hide Record, Depth;
  }

  method RecordLengths(blocks: seq<seq<byte>>, proofLen: nat, count: nat) returns (lens: seq<nat>, maxLen: nat)
    requires count <= |blocks|
    ensures |lens| == count && forall b :: 0 <= b < count ==> lens[b] == |blocks[b]| + proofLen + 1 <= maxLen
    ensures count > 0 ==> maxLen in lens
  {
    lens, maxLen := [], 0;
    var b := 0;
    while b < count
      invariant 0 <= b <= count && |lens| == b
      invariant forall i :: 0 <= i < b ==> lens[i] == |blocks[i]| + proofLen + 1 <= maxLen
      invariant if b > 0 then maxLen in lens else maxLen == 0
    {
      var n := |blocks[b]| + proofLen + 1;
      lens := lens + [n];
      assert lens[b] == n;
      if n > maxLen {
        maxLen := n;
      }
      b := b + 1;
    }
  }

  /** Appends block, proof and signal byte for each block of the front part. */
  method GenerateMerkleProofs(data: seq<seq<byte>>, tree: MerkleTree, ghost blocks: seq<seq<byte>>)
    returns (result: Option<seq<byte>>)
    requires tree.Built(blocks) && |data| <= |blocks| && data == blocks[..|data|]
    ensures result == if |data| > 0 && !KeysSpan(tree.key, blocks) then None
                      else Some(Joined(Records(tree.hash, tree.key, blocks, |data|)))
  {
    hide Node, Joined, CeilLog2, Generated, Generation, KeysSpan, Encoded;
    ghost var records := Records(tree.hash, tree.key, blocks, |data|);
    var joined: seq<byte> := [];
    var b := 0;
    assert Joined(records[..0]) == [] by { JoinedNone(records); }
    while b < |data|
      invariant 0 <= b <= |data| && (b > 0 ==> KeysSpan(tree.key, blocks))
      invariant joined == Joined(records[..b])
    {
      GenerationExact(tree.hash, tree.key, blocks, b);
      var p := tree.GenerateProof(data[b], blocks);
      if p.Halted? {
        return None;
      }
      var encodedProof := EncodeProof(p.value);
      JoinedNext(records, b);
      AppendedRecord(tree.hash, tree.key, blocks, b, encodedProof[..]);
      joined := joined + (data[b] + PadWithSignalByte(encodedProof[..]));
      b := b + 1;
    }
    assert records[..b] == records;
    result := Some(joined);
  }

  lemma AppendedRecord(h: Hash256, key: LookupKey, blocks: seq<seq<byte>>, b: nat, encodedProof: seq<byte>)
    requires Hashable(blocks) && b < |blocks| && Generated(h, key, blocks, blocks[b]).Ok?
    requires encodedProof == Encoded(Generated(h, key, blocks, blocks[b]).value)
    ensures blocks[b] + PadWithSignalByte(encodedProof) == Record(h, key, blocks, b)
  {
    hide Generated, Encoded;
  }

  lemma JoinedNone(records: seq<seq<byte>>)
    ensures Joined(records[..0]) == []
  {
  }

  // ---------- opening a record ----------

  /** The proof inside a reconstructed block, when the block has the form of a record. */
  function ClaimedProof(info: Info, block: seq<byte>): Option<Proof> {
    match UnPadBlock(block)
    case None => None
    case Some(record) =>
      if |record| < info.proofLen then None
      else Decoded(record[|record| - info.proofLen..], block[|record|..])
  }

  lemma SplitClaims(info: Info, block: seq<byte>, data: seq<byte>, p: seq<byte>, last: byte, n: nat)
    requires Splits(info, block, data, p, last, n)
    ensures ClaimedProof(info, block) == Decoded(p, [last] + Zeros(n))
  {
    hide UnPadBlock, Decoded;
    UnpadDropped(data + p, last, n);
    assert data + p + [last] + Zeros(n) == (data + p) + ([last] + Zeros(n));
    assert block[|data + p|..] == [last] + Zeros(n);
    assert (data + p)[|data|..] == p;
  }

  /** A stored record unpads and splits into its block and its generated proof; it opens to the
      block if that proof verifies and is rejected if not. */
  lemma RecordOpens(h: Hash256, key: LookupKey, blocks: seq<seq<byte>>, info: Info, b: nat)
    requires Hashable(blocks) && b < |blocks| && Announces(info, h, blocks)
    requires |Record(h, key, blocks, b)| <= info.blockSize
    ensures var block := Resized(Record(h, key, blocks, b), info.blockSize);
            var g := Generated(h, key, blocks, blocks[b]);
            g.Ok? && ClaimedProof(info, block) == Some(g.value) &&
            Opened(h, info, block)
              == (if ProofRoot(h, blocks[b], g.value) == Root(h, blocks) then Accepted(blocks[b]) else Rejected)
  {
    hide ProofRoot, Encoded, Decoded, Depth, MerkleSpec.Root, Generated, Opened, ClaimedProof, Zeros;
    GeneratedVerifies(h, key, blocks, b);
    IndicesFit(|blocks|);
    var proof := Generated(h, key, blocks, blocks[b]).value;
    var n := info.blockSize - |Record(h, key, blocks, b)|;
    var block := Resized(Record(h, key, blocks, b), info.blockSize);
    assert block == blocks[b] + Encoded(proof) + [SIGNAL] + Zeros(n);
    SplitOpens(h, info, block, blocks[b], Encoded(proof), SIGNAL, n);
    SplitClaims(info, block, blocks[b], Encoded(proof), SIGNAL, n);
    EncodingExact(proof, [SIGNAL] + Zeros(n));
  }

  /** A stored record opens to its block exactly when the block found under its key is equal to it;
      otherwise it is rejected, unless the hash breaks. */
  lemma RecordOpensExactly(h: Hash256, key: LookupKey, blocks: seq<seq<byte>>, info: Info, b: nat)
    requires Hashable(blocks) && b < |blocks| && Announces(info, h, blocks)
    requires |Record(h, key, blocks, b)| <= info.blockSize
    ensures var r := Opened(h, info, Resized(Record(h, key, blocks, b), info.blockSize));
            var g := Generated(h, key, blocks, blocks[b]);
            g.Ok? && g.value.index < |blocks| && |g.value.hashes| == Depth(|blocks|) &&
            (r == Accepted(blocks[b]) || r == Rejected) &&
            (blocks[g.value.index] == blocks[b] ==> r == Accepted(blocks[b])) &&
            (r == Accepted(blocks[b]) ==>
               blocks[g.value.index] == blocks[b] || Breaks(h, Extract(h, blocks, blocks[b], g.value)))
  {
    hide ProofRoot, Opened, ClaimedProof, Resized, Record, Breaks, Extract, Generated, Siblings, Depth;
    RecordOpens(h, key, blocks, info, b);
    GeneratedVerifies(h, key, blocks, b);
  }

  /** Integrity, exactly: whatever block is reconstructed, if it opens then, unless the hash breaks,
      the data is the stored block at the proof's index and the proof that block's own if and only
      if the proof has depth-many hashes. It has fewer only on 60 bytes of data, and more only when a
      stored block is 60 bytes long. */
  lemma AcceptedIsStored(h: Hash256, blocks: seq<seq<byte>>, info: Info, block: seq<byte>)
    requires Hashable(blocks) && Announces(info, h, blocks)
    requires Opened(h, info, block).Accepted?
    ensures ClaimedProof(info, block).Some?
    ensures var data, proof := Opened(h, info, block).data, ClaimedProof(info, block).value;
            || Breaks(h, Extract(h, blocks, data, proof))
            || (&& (Stored(h, blocks, data, proof) <==> |proof.hashes| == Depth(|blocks|))
                && (|proof.hashes| < Depth(|blocks|) ==> |data| == 60)
                && (|proof.hashes| > Depth(|blocks|) ==> exists i :: 0 <= i < |blocks| && |blocks[i]| == 60))
  {
    hide ProofRoot, Decoded, Depth, UnPadBlock, Breaks, Extract, MerkleSpec.Root, Siblings, Stored, InnerNodeAsLeaf;
    var data, proof := Opened(h, info, block).data, ClaimedProof(info, block).value;
    Binding(h, blocks, data, proof);
    if |proof.hashes| < Depth(|blocks|) {
      ShortProofExact(h, blocks, data, proof);
    } else if |proof.hashes| > Depth(|blocks|) && forall i :: 0 <= i < |blocks| ==> |blocks[i]| != 60 {
      LongProofBreaks(h, blocks, data, proof);
    }
  }

  /** A surplus hash read out of the dropped byte and the zeros behind it: the index, that byte, zeros. */
  function SpareHash(dropped: byte): (r: Digest) {
    PutLittleEndian(0) + ([dropped] + Zeros(27))
  }

  lemma SpareHashFront(dropped: byte)
    ensures SpareHash(dropped)[..28] + PutLittleEndian(0) == SpareHash(dropped)
  {
    assert PutLittleEndian(0) == Zeros(4);
  }

  lemma SpareSlice(x: seq<byte>, y: seq<byte>, dropped: byte, n: nat)
    requires |x| == |y| == 4
    ensures (x + y + ([dropped] + Zeros(27 + n)))[4..36] == y + ([dropped] + Zeros(27))
  {
  }

  lemma SpareHashDecodes(dropped: byte, n: nat)
    ensures Decoded(PutLittleEndian(1) + PutLittleEndian(0), [dropped] + Zeros(27 + n))
         == Some(Proof([SpareHash(dropped)], 0))
  {
    hide PutLittleEndian, LittleEndian;
    var p, spare := PutLittleEndian(1) + PutLittleEndian(0), [dropped] + Zeros(27 + n);
    RoundTrip(1);
    RoundTrip(0);
    assert p[..4] == PutLittleEndian(1) && p[|p| - 4..] == PutLittleEndian(0);
    SpareSlice(PutLittleEndian(1), PutLittleEndian(0), dropped, n);
    assert HashesAt(p + spare, 1) == [SpareHash(dropped)];
  }

  /** Where the only block is the pair of any data's leaf and such a hash, that data is accepted although
      it is not stored, whenever it leaves 36 bytes of the block size: with a claimed hash count of one the
      client reads the hash past the end of the record. */
  lemma SpareHashOpens(h: Hash256, data: seq<byte>, dropped: byte, info: Info)
    requires dropped != 0 && |data| + 36 <= info.blockSize
    requires Announces(info, h, [PairBlock(h, data, SpareHash(dropped)[..28])])
    ensures var blocks := [PairBlock(h, data, SpareHash(dropped)[..28])];
            var block := Resized(data + PutLittleEndian(1) + PutLittleEndian(0) + [dropped], info.blockSize);
            var proof := Proof([SpareHash(dropped)], 0);
            && Opened(h, info, block) == Accepted(data) && ClaimedProof(info, block) == Some(proof)
            && !Stored(h, blocks, data, proof) && !Breaks(h, Extract(h, blocks, data, proof))
  {
    hide ProofRoot, MerkleSpec.Root, Stored, Extract, UnPadBlock, PutLittleEndian, LittleEndian, PairBlock;
    var hash, front := SpareHash(dropped), SpareHash(dropped)[..28];
    SpareHashFront(dropped);
    SurplusHash(h, data, front);
    var record := data + PutLittleEndian(1) + PutLittleEndian(0);
    var padded := Resized(record + [dropped], info.blockSize);
    UnpadDropped(record, dropped, info.blockSize - |record| - 1);
    SpareHashDecodes(dropped, info.blockSize - |record| - 28);
    assert record[|data|..] == PutLittleEndian(1) + PutLittleEndian(0);
    assert padded[|record|..] == [dropped] + Zeros(info.blockSize - |record| - 1);
    assert record[..|data|] == data;
  }

  /** The root's children in the form of a record: 60 bytes, a hash count of zero, bytes that are
      never read, the index. */
  function RootRecord(h: Hash256, blocks: seq<seq<byte>>, unread: seq<byte>): (r: seq<byte>)
    requires Hashable(blocks) && |blocks| >= 2
    ensures |r| == 60 + 4 + |unread| + 4
  {
    RootData(h, blocks) + (PutLittleEndian(0) + unread + PutLittleEndian(RootProof(h, blocks).index))
  }

  /** Such a record is accepted whenever it fits the block size, for every database of at least two
      blocks, although its proof is no block's own. */
  lemma RootRecordOpens(h: Hash256, blocks: seq<seq<byte>>, info: Info, unread: seq<byte>)
    requires Hashable(blocks) && |blocks| >= 2 && Announces(info, h, blocks)
    requires |unread| == 32 * Depth(|blocks|) && |RootRecord(h, blocks, unread)| + 1 <= info.blockSize
    ensures var block := Resized(PadWithSignalByte(RootRecord(h, blocks, unread)), info.blockSize);
            && Opened(h, info, block) == Accepted(RootData(h, blocks))
            && ClaimedProof(info, block) == Some(RootProof(h, blocks))
    ensures !Stored(h, blocks, RootData(h, blocks), RootProof(h, blocks))
  {
    hide ProofRoot, RootData, Depth, UnPadBlock, MerkleSpec.Root, Stored, Decoded;
    var record := RootRecord(h, blocks, unread);
    RootAsLeaf(h, blocks);
    UnpadExtended(record, info.blockSize - |record| - 1);
    var block := Resized(PadWithSignalByte(record), info.blockSize);
    EmptyProofDecodes(unread, RootProof(h, blocks).index, block[|record|..]);
    assert record[..60] == RootData(h, blocks);
    assert record[60..] == PutLittleEndian(0) + unread + PutLittleEndian(RootProof(h, blocks).index);
  }

  lemma EmptyProofDecodes(unread: seq<byte>, index: u32, spare: seq<byte>)
    ensures Decoded(PutLittleEndian(0) + unread + PutLittleEndian(index), spare) == Some(Proof([], index))
  {
    hide LittleEndian, PutLittleEndian;
    var bytes := PutLittleEndian(0) + unread + PutLittleEndian(index);
    RoundTrip(0);
    RoundTrip(index);
    assert bytes[..4] == PutLittleEndian(0);
    assert bytes[|bytes| - 4..] == PutLittleEndian(index);
  }

  // ---------- the block asked for ----------

  /** Accepted data with a proof of full length is the block at a given index exactly when the block
      at the proof's index is equal to it, unless the hash breaks. With distinct blocks that is
      exactly when the proof's index is the given one, which the client does not compare. */
  lemma AskedBlockExact(h: Hash256, blocks: seq<seq<byte>>, info: Info, block: seq<byte>, index: nat)
    requires Hashable(blocks) && Announces(info, h, blocks) && index < |blocks|
    requires Opened(h, info, block).Accepted?
    ensures ClaimedProof(info, block).Some?
    ensures var data, proof := Opened(h, info, block).data, ClaimedProof(info, block).value;
            |proof.hashes| == Depth(|blocks|) ==>
              || Breaks(h, Extract(h, blocks, data, proof))
              || (&& proof.index < |blocks|
                  && (data == blocks[index] <==> blocks[proof.index] == blocks[index])
                  && ((forall i, j :: 0 <= i < j < |blocks| ==> blocks[i] != blocks[j]) ==>
                        (data == blocks[index] <==> proof.index == index)))
  {
    hide Opened, ClaimedProof, Breaks, Extract, MerkleSpec.Root, Siblings, Depth;
    AcceptedIsStored(h, blocks, info, block);
  }
}
