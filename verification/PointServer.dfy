/** The byte database with blocks of varying length, and the server that answers a point query. */
module PointServer {
  import opened Words
  import opened ModArith
  import opened Chunks
  import opened XorAlgebra

  /** The public description of a database; root and proof length matter to "merkle" only. */
  datatype Info = Info(numRows: nat, numColumns: nat, blockSize: nat, blockLengths: seq<nat>,
                       pirType: string, root: seq<byte>, proofLen: nat)

  datatype Database = Database(entries: seq<byte>, info: Info)

  /** Where block n starts: the sum of the lengths before it. */
  function Offset(lens: seq<nat>, n: nat): nat
    requires n <= |lens|
  {
    if n == 0 then 0 else Offset(lens, n - 1) + lens[n - 1]
  }

  lemma {:induction false} OffsetMonotone(lens: seq<nat>, m: nat, n: nat)
    requires m <= n <= |lens|
    ensures Offset(lens, m) <= Offset(lens, n)
  {
    if m < n {
      OffsetMonotone(lens, m, n - 1);
    }
  }

  lemma {:induction false} OffsetOfSlice(lens: seq<nat>, from: nat, to: nat, n: nat)
    requires from <= to <= |lens| && n <= to - from
    ensures Offset(lens[from..to], n) == Offset(lens, from + n) - Offset(lens, from)
  {
    if n > 0 {
      OffsetOfSlice(lens, from, to, n - 1);
    }
  }

  /** The blocks packed one after the other into entries. */
  function Blocks(entries: seq<byte>, lens: seq<nat>): (r: seq<seq<byte>>)
    requires Offset(lens, |lens|) <= |entries|
    ensures |r| == |lens|
  {
    seq(|lens|, j requires 0 <= j < |lens| => BlockAt(entries, lens, j))
  }

  function BlockAt(entries: seq<byte>, lens: seq<nat>, j: nat): (r: seq<byte>)
    requires Offset(lens, |lens|) <= |entries| && j < |lens|
    ensures |r| == lens[j]
  {
    OffsetMonotone(lens, j + 1, |lens|);
    entries[Offset(lens, j)..Offset(lens, j) + lens[j]]
  }

  lemma BlockHere(entries: seq<byte>, lens: seq<nat>, j: nat)
    requires Offset(lens, |lens|) <= |entries| && j < |lens|
    ensures Offset(lens, j) + lens[j] <= |entries|
    ensures BlockAt(entries, lens, j) == entries[Offset(lens, j)..Offset(lens, j) + lens[j]]
  {
    hide Offset;
    OffsetNext(lens, j);
    OffsetMonotone(lens, j + 1, |lens|);
  }

  lemma SliceOfSlice(s: seq<byte>, a: nat, b: nat, i: nat, j: nat)
    requires a <= b <= |s| && i <= j <= b - a
    ensures s[a..b][i..j] == s[a + i..a + j]
  {
    forall k | 0 <= k < j - i ensures s[a..b][i..j][k] == s[a + i..a + j][k] {
      assert s[a..b][i..j][k] == s[a..b][i + k];
    }
    assert |s[a..b][i..j]| == j - i && |s[a + i..a + j]| == j - i;
  }

  /** Cutting entries and lengths at block boundaries cuts the list of blocks. */
  lemma BlocksOfSlice(entries: seq<byte>, lens: seq<nat>, from: nat, to: nat)
    requires Offset(lens, |lens|) <= |entries| && from <= to <= |lens|
    ensures Offset(lens, from) <= Offset(lens, to) <= |entries|
    ensures Offset(lens[from..to], to - from) == Offset(lens, to) - Offset(lens, from)
    ensures Blocks(entries[Offset(lens, from)..Offset(lens, to)], lens[from..to]) == Blocks(entries, lens)[from..to]
  {
    hide Offset, BlockAt;
    OffsetMonotone(lens, from, to);
    OffsetMonotone(lens, to, |lens|);
    OffsetOfSlice(lens, from, to, to - from);
    var row := entries[Offset(lens, from)..Offset(lens, to)];
    forall j | 0 <= j < to - from
      ensures Blocks(row, lens[from..to])[j] == Blocks(entries, lens)[from..to][j]
    {
      BlockOfSlice(entries, lens, from, to, j);
    }
  }

  lemma BlockOfSlice(entries: seq<byte>, lens: seq<nat>, from: nat, to: nat, j: nat)
    requires Offset(lens, |lens|) <= |entries| && from <= to <= |lens| && j < to - from
    requires Offset(lens, from) <= Offset(lens, to) <= |entries|
    requires Offset(lens[from..to], to - from) == Offset(lens, to) - Offset(lens, from)
    ensures BlockAt(entries[Offset(lens, from)..Offset(lens, to)], lens[from..to], j)
         == BlockAt(entries, lens, from + j)
  {
    hide Offset;
    OffsetOfSlice(lens, from, to, j);
    OffsetNext(lens, from + j);
    OffsetMonotone(lens, from, from + j);
    OffsetMonotone(lens, from + j + 1, to);
    var i := Offset(lens, from + j) - Offset(lens, from);
    SliceOfSlice(entries, Offset(lens, from), Offset(lens, to), i, i + lens[from + j]);
  }

  lemma OffsetNext(lens: seq<nat>, n: nat)
    requires n < |lens|
    ensures Offset(lens, n + 1) == Offset(lens, n) + lens[n]
  {
  }

  predicate WellFormed(db: Database) {
    var info := db.info;
    |info.blockLengths| == info.numColumns * info.numRows &&
    Offset(info.blockLengths, |info.blockLengths|) <= |db.entries|
  }

  lemma RowBounds(cols: nat, rows: nat, i: nat)
    requires i < rows
    ensures cols * i <= cols * (i + 1) <= cols * rows && cols * (i + 1) == cols * i + cols
  {
    ProductMonotone(i + 1, rows, cols);
  }

  /** The blocks of one row. */
  function Row(db: Database, i: nat): (r: seq<seq<byte>>)
    requires WellFormed(db) && i < db.info.numRows
    ensures |r| == db.info.numColumns
  {
    RowBounds(db.info.numColumns, db.info.numRows, i);
    Blocks(db.entries, db.info.blockLengths)[db.info.numColumns * i..db.info.numColumns * (i + 1)]
  }

  /** One selection per row. */
  function RowAnswers(db: Database, q: seq<byte>): (r: seq<seq<byte>>)
    requires WellFormed(db) && db.info.numColumns <= 8 * |q|
    ensures |r| == db.info.numRows && Sized(r, db.info.blockSize)
  {
    seq(db.info.numRows, i requires 0 <= i < db.info.numRows =>
      RowXor(Zeros(db.info.blockSize), Row(db, i), q))
  }

  // ---------- in-place XOR ----------

  /** XORs v into n bytes of a buffer, stopping at the shorter of the two. */
  method XorInto(dst: array<byte>, at: nat, n: nat, v: seq<byte>)
    requires at + n <= dst.Length
    modifies dst
    ensures dst[..at] == old(dst[..at]) && dst[at + n..] == old(dst[at + n..])
    ensures dst[at..at + n] == XorPrefix(old(dst[at..at + n]), v)
  {
    var k := 0;
    var m := Min(n, |v|);
    while k < m
      invariant 0 <= k <= m
      invariant forall i :: 0 <= i < dst.Length ==>
                  dst[i] == if at <= i < at + k then ByteXor(old(dst[i]), v[i - at]) else old(dst[i])
    {
      dst[at + k] := ByteXor(dst[at + k], v[k]);
      k := k + 1;
    }
  }

  /** XORs the selected blocks into one stretch of the answer. */
  method XorValues(entries: seq<byte>, lens: seq<nat>, q: seq<byte>, out: array<byte>, at: nat, n: nat)
    requires Offset(lens, |lens|) <= |entries| && |lens| <= 8 * |q| && at + n <= out.Length
    modifies out
    ensures out[..at] == old(out[..at]) && out[at + n..] == old(out[at + n..])
    ensures out[at..at + n] == RowXor(old(out[at..at + n]), Blocks(entries, lens), q)
  {
    hide Bit, XorPrefix, BlockAt;
    ghost var blocks := Blocks(entries, lens);
    var pos, j := 0, 0;
    while j < |lens|
      invariant 0 <= j <= |lens| && pos == Offset(lens, j)
      invariant out[..at] == old(out[..at]) && out[at + n..] == old(out[at + n..])
      invariant out[at..at + n] == RowXor(old(out[at..at + n]), blocks[..j], q)
    {
      OffsetMonotone(lens, j + 1, |lens|);
      assert blocks[j] == entries[pos..pos + lens[j]] by { BlockHere(entries, lens, j); }
      assert blocks[..j + 1][..j] == blocks[..j];
      var selected := TestBit(q, j);
      if selected {
        XorInto(out, at, n, entries[pos..pos + lens[j]]);
      }
      pos := pos + lens[j];
      j := j + 1;
    }
    assert blocks[..j] == blocks;
  }

  /** The two-server point-function library: key generation for a position, a domain size in bits
      and random bytes, and expansion of a key to its bit vector. Nothing is assumed about it. */
  datatype Dpf = Dpf(gen: (nat, nat, seq<byte>) -> (seq<byte>, seq<byte>), evalFull: (seq<byte>, nat) -> seq<byte>)

  /** The number of binary digits. */
  function BitLen(n: nat): nat {
    if n == 0 then 0 else 1 + BitLen(n / 2)
  }

  /** The least exponent whose power of two exceeds n. */
  lemma {:induction false} BitLenExact(n: nat, d: nat)
    ensures n < Pow(2, d) <==> BitLen(n) <= d
    decreases n
  {
    if n > 0 && d > 0 {
      BitLenExact(n / 2, d - 1);
    }
  }

  /** The size in bits of the domain of the two-server library: the least that has a position for every
      column, and for the position behind the last. */
  predicate Domain(bits: nat, cols: nat) {
    cols < Pow(2, bits) && (bits > 0 ==> Pow(2, bits - 1) <= cols)
  }

  lemma DomainExact(bits: nat, cols: nat)
    ensures Domain(bits, cols) <==> bits == BitLen(cols)
  {
    hide Pow, BitLen;
    BitLenExact(cols, bits);
    if bits > 0 {
      BitLenExact(cols, bits - 1);
    }
  }

  /** The bit vector a server works with: with two servers the query is a key. */
  function Expanded(info: Info, numServers: nat, dpf: Dpf, q: seq<byte>): seq<byte> {
    if numServers == 2 then dpf.evalFull(q, BitLen(info.numColumns)) else q
  }

  class Server {
    const db: Database
    const numServers: nat
    const dpf: Dpf

    constructor (db: Database, dpf: Dpf)
      ensures this.db == db && this.dpf == dpf && numServers == 0
    {
      this.db, this.dpf, numServers := db, dpf, 0;
    }

    constructor Two(db: Database, dpf: Dpf)
      ensures this.db == db && this.dpf == dpf && numServers == 2
    {
      this.db, this.dpf, numServers := db, dpf, 2;
    }

    /** One selection per row, concatenated; the bit vector must have a bit for every column. */
    method Answer(query: seq<byte>) returns (out: array<byte>)
      requires WellFormed(db) && db.info.numColumns <= 8 * |Expanded(db.info, numServers, dpf, query)|
      ensures fresh(out)
      ensures out[..] == Flatten(RowAnswers(db, Expanded(db.info, numServers, dpf, query)), db.info.blockSize)
      ensures numServers == 2 ==>
                forall bits | Domain(bits, db.info.numColumns) ::
                  db.info.numColumns <= 8 * |dpf.evalFull(query, bits)|
                  && out[..] == Flatten(RowAnswers(db, dpf.evalFull(query, bits)), db.info.blockSize)
    {
      hide RowAnswers, Flatten, Domain, BitLen;
      forall bits ensures Domain(bits, db.info.numColumns) <==> bits == BitLen(db.info.numColumns) {
        DomainExact(bits, db.info.numColumns);
      }
      var q := query;
      if numServers == 2 {
        q := dpf.evalFull(q, BitLen(db.info.numColumns));
      }
      out := AnswerRows(q);
    }

    /** The loop over the rows. */
    method AnswerRows(q: seq<byte>) returns (out: array<byte>)
      requires WellFormed(db) && db.info.numColumns <= 8 * |q|
      ensures fresh(out) && out[..] == Flatten(RowAnswers(db, q), db.info.blockSize)
    {
      hide Server.RowsDone, Offset, RowAnswers, Flatten;
      var nRows, nCols, size := db.info.numRows, db.info.numColumns, db.info.blockSize;
      out := new byte[size * nRows](_ => 0);
      var i, prevPos, nextPos := 0, 0, 0;
      NoRows(q, out);
      while i < nRows
        invariant 0 <= i <= nRows && nCols * i <= |db.info.blockLengths|
        invariant prevPos == nextPos == Offset(db.info.blockLengths, nCols * i)
        invariant RowsDone(i, q, out)
      {
        RowBounds(nCols, nRows, i);
        nextPos := AdvanceRow(nextPos, nCols * i, nCols);
        AnswerRow(i, prevPos, nextPos, q, out);
        prevPos := nextPos;
        i := i + 1;
      }
      AllRows(q, out);
    }

    /** The first i rows are answered, the rest is still zero. */
    ghost predicate RowsDone(i: nat, q: seq<byte>, out: array<byte>)
      requires WellFormed(db) && db.info.numColumns <= 8 * |q|
      reads out
    {
      var size := db.info.blockSize;
      && out.Length == size * db.info.numRows && i <= db.info.numRows && size * i <= out.Length
      && out[..size * i] == Flatten(RowAnswers(db, q)[..i], size)
      && forall k :: size * i <= k < out.Length ==> out[k] == 0
    }

    lemma NoRows(q: seq<byte>, out: array<byte>)
      requires WellFormed(db) && db.info.numColumns <= 8 * |q|
      requires out.Length == db.info.blockSize * db.info.numRows && forall k :: 0 <= k < out.Length ==> out[k] == 0
      ensures RowsDone(0, q, out) && Offset(db.info.blockLengths, db.info.numColumns * 0) == 0
    {
      hide RowXor, Row;
      assert RowAnswers(db, q)[..0] == [];
      assert db.info.blockSize * 0 == 0 && db.info.numColumns * 0 == 0;
    }

    lemma AllRows(q: seq<byte>, out: array<byte>)
      requires WellFormed(db) && db.info.numColumns <= 8 * |q| && RowsDone(db.info.numRows, q, out)
      ensures out[..] == Flatten(RowAnswers(db, q), db.info.blockSize)
    {
      hide RowXor, Row, Flatten;
      assert RowAnswers(db, q)[..db.info.numRows] == RowAnswers(db, q);
      assert out[..out.Length] == out[..];
    }

    /** One iteration: the selection of row i goes to the i-th stretch of the answer. */
    method AnswerRow(i: nat, prevPos: nat, nextPos: nat, q: seq<byte>, out: array<byte>)
      requires WellFormed(db) && db.info.numColumns <= 8 * |q| && i < db.info.numRows
      requires db.info.numColumns * (i + 1) <= |db.info.blockLengths|
      requires prevPos == Offset(db.info.blockLengths, db.info.numColumns * i)
      requires nextPos == Offset(db.info.blockLengths, db.info.numColumns * (i + 1))
      requires RowsDone(i, q, out)
      modifies out
      ensures RowsDone(i + 1, q, out)
    {
      hide RowXor, Flatten, Blocks, Offset;
      var nCols, size := db.info.numColumns, db.info.blockSize;
      RowBounds(nCols, db.info.numRows, i);
      RowBounds(size, db.info.numRows, i);
      BlocksOfSlice(db.entries, db.info.blockLengths, nCols * i, nCols * (i + 1));
      assert out[size * i..size * i + size] == Zeros(size);
      ghost var rest := out[size * i + size..];
      XorValues(db.entries[prevPos..nextPos], db.info.blockLengths[nCols * i..nCols * (i + 1)], q, out, size * i, size);
      assert out[size * i..size * i + size] == RowAnswers(db, q)[i];
      FlattenNext(RowAnswers(db, q), size, i);
      assert out[..size * (i + 1)] == out[..size * i] + out[size * i..size * i + size];
      forall k | size * (i + 1) <= k < out.Length ensures out[k] == 0 {
        assert out[k] == rest[k - (size * i + size)];
      }
    }

    /** The running end offset after one more row. */
    method AdvanceRow(start: nat, from: nat, nCols: nat) returns (nextPos: nat)
      requires from + nCols <= |db.info.blockLengths| && start == Offset(db.info.blockLengths, from)
      ensures nextPos == Offset(db.info.blockLengths, from + nCols)
    {
      nextPos := start;
      var j := 0;
      while j < nCols
        invariant 0 <= j <= nCols && nextPos == Offset(db.info.blockLengths, from + j)
      {
        nextPos := nextPos + db.info.blockLengths[from + j];
        j := j + 1;
      }
    }
  }
}
