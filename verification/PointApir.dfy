/** Point retrieval end to end: query, every server's answer, reconstruction and verification. */
module PointApir {
  import opened Words
  import opened ModArith
  import opened Chunks
  import opened MerkleSpec
  import opened Merkle
  import opened XorAlgebra
  import opened PointServer
  import opened PointClient
  import opened MerkleDatabase

  function HonestAnswer(db: Database, q: seq<byte>): (r: seq<byte>)
    requires WellFormed(db) && db.info.numColumns <= 8 * |q|
    ensures |r| == db.info.blockSize * db.info.numRows
  {
    Flatten(RowAnswers(db, q), db.info.blockSize)
  }

  function HonestAnswers(db: Database, queries: seq<seq<byte>>, n: nat): (r: seq<seq<byte>>)
    requires WellFormed(db) && db.info.numColumns <= 8 * n && AllSized(queries, n)
    ensures |r| == |queries|
    ensures forall k :: 0 <= k < |r| ==> |r[k]| == db.info.blockSize * db.info.numRows
  {
    seq(|queries|, k requires 0 <= k < |queries| => HonestAnswer(db, queries[k]))
  }

  /** Row and column of a flat index lie inside the table and lead back to it. */
  lemma IndexInTable(cols: nat, rows: nat, index: nat)
    requires index < cols * rows
    ensures cols >= 1 && 0 <= index / cols < rows && 0 <= index % cols < cols
    ensures cols * (index / cols) + index % cols == index
  {
    if index / cols >= rows {
      ProductMonotone(rows, index / cols, cols);
    }
  }

  lemma AnswersFit(size: nat, rows: nat, ix: nat)
    requires ix < rows
    ensures size * (ix + 1) <= size * rows
  {
    ProductMonotone(ix + 1, rows, size);
  }

  /** Row ix of the honest answers is the list of selections from row ix. */
  lemma RowsOfAnswers(db: Database, queries: seq<seq<byte>>, n: nat, ix: nat)
    requires WellFormed(db) && db.info.numColumns <= 8 * n && AllSized(queries, n) && ix < db.info.numRows
    requires db.info.blockSize * (ix + 1) <= db.info.blockSize * db.info.numRows
    ensures RowsAt(HonestAnswers(db, queries, n), ix, db.info.blockSize)
         == Selections(db.info.blockSize, Row(db, ix), queries, n)
  {
    hide Flatten, RowXor, Row;
    var size := db.info.blockSize;
    forall k | 0 <= k < |queries|
      ensures RowSlice(HonestAnswer(db, queries[k]), ix, size) == RowXor(Zeros(size), Row(db, ix), queries[k])
    {
      FlattenSlice(RowAnswers(db, queries[k]), size, ix);
      RowBounds(size, ix + 1, ix);
    }
  }

  /** Blocks of any lengths, any position: if the queries together pick column iy, the honest
      answers at row ix XOR to block (ix, iy), cut or zero-extended to the block size. */
  lemma AnswersXorToBlock(db: Database, ix: nat, iy: nat, queries: seq<seq<byte>>, n: nat)
    requires WellFormed(db) && ix < db.info.numRows && iy < db.info.numColumns
    requires db.info.numColumns <= 8 * n && AllSized(queries, n)
    requires Picks(XorAll(Zeros(n), queries), iy, db.info.numColumns)
    ensures db.info.blockSize * (ix + 1) <= db.info.blockSize * db.info.numRows
    ensures XorAll(Zeros(db.info.blockSize), RowsAt(HonestAnswers(db, queries, n), ix, db.info.blockSize))
         == Resized(Row(db, ix)[iy], db.info.blockSize)
  {
    hide XorAll, HonestAnswers, Selections, RowsAt, Row, Picks;
    var size := db.info.blockSize;
    AnswersFit(size, db.info.numRows, ix);
    RowsOfAnswers(db, queries, n, ix);
    QueriesRetrieve(size, Row(db, ix), iy, n, queries);
  }

  // ---------- the queries ----------

  /** What the protocol needs of the two-server library: the two expanded keys have one length,
      cover all columns, and differ in exactly the bit of the position. */
  ghost predicate SharesPoint(dpf: Dpf, cols: nat) {
    forall j: nat, bits: nat, coin: seq<byte> | j < cols && Domain(bits, cols) ::
      var keys := dpf.gen(j, bits, coin);
      var e0, e1 := dpf.evalFull(keys.0, bits), dpf.evalFull(keys.1, bits);
      |e0| == |e1| && Picks(Xor(e0, e1), j, cols)
  }

  /** The assumption can be met, for any number of columns: by keys that are a zero vector and the vector of the
      position itself. */
  lemma SharesPointPossible(cols: nat)
    ensures exists dpf :: SharesPoint(dpf, cols)
  {
    hide Bit, Unit, Domain;
    var n := cols / 8 + 1;
    var dpf := Dpf((j: nat, bits: nat, coin: seq<byte>) => (Zeros(n), if j < 8 * n then Unit(j, n) else Zeros(n)),
                   (q: seq<byte>, bits: nat) => q);
    forall j: nat, bits: nat, coin: seq<byte> | j < cols && Domain(bits, cols)
      ensures var keys := dpf.gen(j, bits, coin); keys == (Zeros(n), Unit(j, n)) && Picks(Xor(keys.0, keys.1), j, cols)
    {
      assert Xor(Zeros(n), Unit(j, n)) == Unit(j, n);
      forall m | 0 <= m < cols ensures Bit(Unit(j, n), m) <==> m == j {
        BitUnit(j, n, m);
      }
    }
    assert SharesPoint(dpf, cols);
  }

  /** The bit vectors the servers work with. */
  function BitVectors(info: Info, dpf: Dpf, iy: nat, numServers: nat, random: seq<byte>): (r: seq<seq<byte>>)
    requires iy < info.numColumns && numServers >= 1
    requires numServers != 2 ==> |random| == VectorLen(info) * (numServers - 1)
    ensures |r| == numServers
  {
    var queries := Queries(info, dpf, iy, numServers, random);
    seq(numServers, k requires 0 <= k < numServers => Expanded(info, numServers, dpf, queries[k]))
  }

  /** For any number of servers the bit vectors have one length and together pick the column. */
  lemma BitVectorsPick(info: Info, dpf: Dpf, iy: nat, numServers: nat, random: seq<byte>) returns (n: nat)
    requires iy < info.numColumns && numServers >= 1
    requires if numServers == 2 then SharesPoint(dpf, info.numColumns)
             else |random| == VectorLen(info) * (numServers - 1)
    ensures info.numColumns <= 8 * n
    ensures var q := BitVectors(info, dpf, iy, numServers, random);
            AllSized(q, n) && Picks(XorAll(Zeros(n), q), iy, info.numColumns)
  {
    hide Bit, Shares, Parts, Domain, BitLen;
    var q := BitVectors(info, dpf, iy, numServers, random);
    if numServers == 2 {
      n := |q[0]|;
      DomainExact(BitLen(info.numColumns), info.numColumns);
      assert |q[0]| == |q[1]| && Picks(Xor(q[0], q[1]), iy, info.numColumns);
      XorAllPair(q[0], q[1]);
      assert q == [q[0], q[1]];
    } else {
      n := VectorLen(info);
      var parts := Parts(random, n, numServers - 1);
      SharesPick(iy, n, parts);
      assert q == Shares(iy, n, parts);
    }
  }

  lemma XorAllPair(a: seq<byte>, b: seq<byte>)
    requires |a| == |b|
    ensures XorAll(Zeros(|a|), [a, b]) == Xor(a, b)
  {
    assert [a, b][..1] == [a] && [a][..0] == [];
    assert XorAll(Zeros(|a|), [a]) == Xor(Zeros(|a|), a);
    assert Xor(Zeros(|a|), a) == a;
  }

  lemma RowElement(db: Database, index: nat)
    requires WellFormed(db) && index < db.info.numColumns * db.info.numRows
    ensures db.info.numColumns >= 1
    ensures 0 <= index / db.info.numColumns < db.info.numRows && 0 <= index % db.info.numColumns < db.info.numColumns
    ensures Row(db, index / db.info.numColumns)[index % db.info.numColumns]
         == BlockAt(db.entries, db.info.blockLengths, index)
  {
    hide BlockAt;
    IndexInTable(db.info.numColumns, db.info.numRows, index);
    RowBounds(db.info.numColumns, db.info.numRows, index / db.info.numColumns);
  }

  /** The whole protocol with honest servers that hold the same database. */
  method Retrieve(db: Database, hash: Hash256, dpf: Dpf, index: nat, numServers: nat, random: seq<byte>)
    returns (r: Outcome)
    requires WellFormed(db) && index < db.info.numColumns * db.info.numRows && numServers >= 1
    requires if numServers == 2 then SharesPoint(dpf, db.info.numColumns)
             else |random| == VectorLen(db.info) * (numServers - 1)
    ensures r == Opened(hash, db.info, Resized(BlockAt(db.entries, db.info.blockLengths, index), db.info.blockSize))
    ensures db.info.pirType in {"classical", ""} ==>
              r == Accepted(Resized(BlockAt(db.entries, db.info.blockLengths, index), db.info.blockSize))
    ensures db.info.pirType !in {"classical", "", "merkle"} ==> r == Stopped
  {
    hide Opened, BlockAt, Flatten, RowAnswers, XorAll, Resized, RowsAt, Row, Queries, Expanded, Picks, VectorLen,
         SharesPoint, Hold;
    RowElement(db, index);
    ghost var ix, iy := index / db.info.numColumns, index % db.info.numColumns;
    ghost var vectors := BitVectors(db.info, dpf, iy, numServers, random);
    ghost var n := BitVectorsPick(db.info, dpf, iy, numServers, random);
    AnswersXorToBlock(db, ix, iy, vectors, n);
    var client := new Client(db.info, hash, dpf);
    var queries := client.Query(index, numServers, random);
    var answers := Ask(db, dpf, numServers, queries, Queries(db.info, dpf, iy, numServers, random), vectors, n);
    r := client.Reconstruct(answers);
    OtherTypes(hash, db.info, Resized(BlockAt(db.entries, db.info.blockLengths, index), db.info.blockSize));
  }

  /** Every server answers its own query. */
  method Ask(db: Database, dpf: Dpf, numServers: nat, queries: seq<array<byte>>, ghost sent: seq<seq<byte>>,
             ghost vectors: seq<seq<byte>>, ghost n: nat) returns (answers: seq<seq<byte>>)
    requires WellFormed(db) && db.info.numColumns <= 8 * n && AllSized(vectors, n)
    requires Hold(queries, sent) && |vectors| == |sent|
    requires forall k :: 0 <= k < |sent| ==> vectors[k] == Expanded(db.info, numServers, dpf, sent[k])
    ensures answers == HonestAnswers(db, vectors, n)
  {
    hide Flatten, RowAnswers;
    answers := [];
    var k := 0;
    while k < |queries|
      invariant 0 <= k <= |queries| && |answers| == k && Hold(queries, sent)
      invariant forall i :: 0 <= i < k ==> answers[i] == HonestAnswer(db, vectors[i])
    {
      var server := NewServer(db, dpf, numServers);
      var a := server.Answer(queries[k][..]);
      answers := answers + [a[..]];
      k := k + 1;
    }
  }

  method NewServer(db: Database, dpf: Dpf, numServers: nat) returns (server: Server)
    ensures fresh(server) && server.db == db && server.dpf == dpf
    ensures forall q :: Expanded(db.info, server.numServers, dpf, q) == Expanded(db.info, numServers, dpf, q)
  {
    if numServers == 2 {
      server := new Server.Two(db, dpf);
    } else {
      server := new Server(db, dpf);
    }
  }

  /** The blocks of an authenticated database are its records. */
  lemma RecordAt(db: Database, h: Hash256, key: LookupKey, blocks: seq<seq<byte>>, b: nat)
    requires Authenticates(db, h, key, blocks) && b < db.info.numColumns * db.info.numRows
    ensures WellFormed(db)
    ensures BlockAt(db.entries, db.info.blockLengths, b) == Record(h, key, blocks, b)
    ensures |Record(h, key, blocks, b)| <= db.info.blockSize
  {
    hide Record, Joined, Offset, BlockAt;
    var records := Records(h, key, blocks, db.info.numColumns * db.info.numRows);
    BlocksOfJoined(records);
    assert Blocks(db.entries, db.info.blockLengths)[b] == records[b];
    assert db.info.blockLengths[b] == |records[b]|;
  }

  /** Authenticated retrieval: with honest servers the client accepts and returns exactly the
      original block, for every index of every database without different blocks under one key. */
  method RetrieveAuthenticated(db: Database, hash: Hash256, dpf: Dpf, ghost key: LookupKey,
                               ghost blocks: seq<seq<byte>>, index: nat, numServers: nat, random: seq<byte>)
    returns (r: Outcome)
    requires Authenticates(db, hash, key, blocks) && Provable(key, blocks)
    requires index < db.info.numColumns * db.info.numRows && numServers >= 1
    requires if numServers == 2 then SharesPoint(dpf, db.info.numColumns)
             else |random| == VectorLen(db.info) * (numServers - 1)
    ensures r == Accepted(blocks[index])
  {
    hide Opened, BlockAt, Record, Resized, Joined, Records, ProofRoot, KeysSpan, Generated, Encoded, Root, SharesPoint;
    RecordAt(db, hash, key, blocks, index);
    IndicesFit(|blocks|);
    r := Retrieve(db, hash, dpf, index, numServers, random);
    RecordOpens(hash, key, blocks, db.info, index);
    ProvableVerifies(hash, key, blocks, index);
  }

  /** From a list of blocks, without different ones under one key, to a retrieved block: construction of
      the database, one retrieval. */
  method BuildAndRetrieve(blocks: seq<seq<byte>>, numRows: nat, numColumns: nat, hash: Hash256, key: LookupKey,
                          dpf: Dpf, index: nat, numServers: nat, random: seq<byte>) returns (r: Outcome)
    requires Provable(key, blocks)
    requires index < numColumns * numRows <= |blocks| && numServers >= 1
    requires if numServers == 2 then SharesPoint(dpf, numColumns)
             else |random| == (numColumns / 8 + 1) * (numServers - 1)
    ensures r == Accepted(blocks[index])
  {
    hide Authenticates, SharesPoint, KeysSpan, Hashable;
    var made := GenerateMerkle(blocks, numRows, numColumns, hash, key);
    r := RetrieveAuthenticated(made.value, hash, dpf, key, blocks, index, numServers, random);
  }

  // ---------- answers of a server that does not follow the protocol ----------

  /** An answer with some bytes XORed into one row. */
  function Patched(answer: seq<byte>, ix: nat, delta: seq<byte>): (r: seq<byte>)
    requires |delta| * (ix + 1) <= |answer|
    ensures |r| == |answer|
  {
    RowBounds(|delta|, ix + 1, ix);
    answer[..|delta| * ix] + Xor(RowSlice(answer, ix, |delta|), delta) + answer[|delta| * (ix + 1)..]
  }

  lemma PatchedRow(answer: seq<byte>, ix: nat, delta: seq<byte>)
    requires |delta| * (ix + 1) <= |answer|
    ensures RowSlice(Patched(answer, ix, delta), ix, |delta|) == Xor(RowSlice(answer, ix, |delta|), delta)
  {
    hide Xor;
    RowBounds(|delta|, ix + 1, ix);
    var x := Xor(RowSlice(answer, ix, |delta|), delta);
    assert Patched(answer, ix, delta) == answer[..|delta| * ix] + x + answer[|delta| * (ix + 1)..];
  }

  /** Bytes XORed into one server's answer end up XORed into the reconstructed block. */
  lemma PatchedAnswers(answers: seq<seq<byte>>, s: nat, ix: nat, delta: seq<byte>)
    requires s < |answers| && Cover(answers, ix, |delta|)
    ensures var patched := answers[s := Patched(answers[s], ix, delta)];
            XorAll(Zeros(|delta|), RowsAt(patched, ix, |delta|))
              == Xor(XorAll(Zeros(|delta|), RowsAt(answers, ix, |delta|)), delta)
  {
    hide XorAll, Xor, RowSlice, Patched;
    var rows, patched := RowsAt(answers, ix, |delta|), answers[s := Patched(answers[s], ix, delta)];
    PatchedRow(answers[s], ix, delta);
    assert RowsAt(patched, ix, |delta|) == rows[s := Xor(rows[s], delta)];
    XorAllPatched(Zeros(|delta|), rows, s, delta);
  }

  /** The difference of two records, XORed into one server's answer to a query for the first, makes
      the client accept the second block: the proof's index is not compared with the query. */
  lemma OtherBlockAccepted(db: Database, h: Hash256, key: LookupKey, blocks: seq<seq<byte>>,
                           i: nat, j: nat, answers: seq<seq<byte>>, s: nat, ix: nat)
    requires Authenticates(db, h, key, blocks) && Provable(key, blocks)
    requires i < db.info.numColumns * db.info.numRows && j < db.info.numColumns * db.info.numRows && s < |answers|
    requires Cover(answers, ix, db.info.blockSize)
    requires XorAll(Zeros(db.info.blockSize), RowsAt(answers, ix, db.info.blockSize))
          == Resized(Record(h, key, blocks, i), db.info.blockSize)
    ensures var delta := Xor(Resized(Record(h, key, blocks, i), db.info.blockSize),
                             Resized(Record(h, key, blocks, j), db.info.blockSize));
            var patched := answers[s := Patched(answers[s], ix, delta)];
            Opened(h, db.info, XorAll(Zeros(db.info.blockSize), RowsAt(patched, ix, db.info.blockSize)))
              == Accepted(blocks[j])
  {
    hide XorAll, Record, Resized, Opened, Patched, RowsAt, Xor, ProofRoot, Generated, KeysSpan, Records, Joined, Root;
    var ri := Resized(Record(h, key, blocks, i), db.info.blockSize);
    var rj := Resized(Record(h, key, blocks, j), db.info.blockSize);
    PatchedAnswers(answers, s, ix, Xor(ri, rj));
    XorCancels(ri, rj);
    RecordAt(db, h, key, blocks, j);
    RecordOpens(h, key, blocks, db.info, j);
    ProvableVerifies(h, key, blocks, j);
  }
}
