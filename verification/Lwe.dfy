/** Single-server retrieval from a bit matrix under LWE: digest, query, answer, reconstruction. */
module Lwe {
  import opened Words
  import opened MatrixAlgebra
  import opened Matrices
  import opened LweDecode
  import opened XorAlgebra

  // ---------- the words a client sees ----------

  /** The noise in column j: the error vector against that column of the database. */
  function Noise(e: seq<int>, d: Mat, j: nat, n: nat): int
    requires n <= |e|
  {
    if n == 0 then 0 else Noise(e, d, j, n - 1) + e[n - 1] * d.At(n - 1, j)
  }

  /** The noise is the inner product of the error row and the column. */
  lemma {:induction false} NoiseIsDot(e: seq<int>, d: Mat, j: nat, n: nat)
    requires n <= |e|
    ensures Noise(e, d, j, n) == Dot(Mat(1, |e|, e), d, 0, j, n)
  {
    if n > 0 {
      NoiseIsDot(e, d, j, n - 1);
      assert Mat(1, |e|, e).At(0, n - 1) == e[n - 1];
    }
  }

  /** Every word of the query, modulo 2^32: product, error, and the scalar at position i alone. */
  lemma QueryWords(p: Mat, e: seq<int>, i: nat, t: u32, l: nat)
    requires l < |e|
    ensures QueryMat(p, e, i, t).At(0, l) == (p.At(0, l) + e[l] + if l == i then t else 0) % TWO32
  {
    hide Wrap;
    WrapAdd(e[l], p.At(0, l));
    WrapAdd(p.At(0, l) + e[l], if l == i then t else 0);
    WordOf(p.At(0, l) + e[l] + if l == i then t else 0);
  }

  lemma WordOf(x: int)
    ensures Wrap(x) == x % TWO32
  {
  }

  /** Word l of the query: secret times A, plus error, plus the scalar at position i. */
  function QueryWord(p: Mat, e: seq<int>, i: nat, t: u32, l: nat): u32
    requires l < |e|
  {
    Wrap(Wrap(p.At(0, l) + Wrap(e[l])) + if l == i then t else 0)
  }

  function QueryMat(p: Mat, e: seq<int>, i: nat, t: u32): (q: Mat)
    ensures q.Ok() && q.rows == 1 && q.cols == |e|
  {
    Mat(1, |e|, seq(|e|, l requires 0 <= l < |e| => QueryWord(p, e, i, t, l)))
  }

  function Hot(d: Mat, i: nat, j: nat, t: u32, n: nat): int {
    if i < n then t * d.At(i, j) else 0
  }

  lemma QueryTerm(p: Mat, e: seq<int>, i: nat, t: u32, l: nat, x: int)
    requires l < |e|
    ensures Wrap(QueryWord(p, e, i, t, l) * x)
         == Wrap(p.At(0, l) * x + e[l] * x + (if l == i then t else 0) * x)
  {
    hide Wrap;
    var hot := if l == i then t else 0;
    WrapAdd(p.At(0, l) + Wrap(e[l]), hot);
    WrapAdd(e[l], p.At(0, l) + hot);
    assert p.At(0, l) + Wrap(e[l]) + hot == p.At(0, l) + hot + Wrap(e[l]);
    WrapMul(p.At(0, l) + hot + e[l], x);
    assert (p.At(0, l) + hot + e[l]) * x == p.At(0, l) * x + e[l] * x + hot * x;
  }

  /** The answer's column j: the query's own product, the noise and the wanted row. */
  lemma {:induction false} AnswerSum(p: Mat, e: seq<int>, i: nat, t: u32, d: Mat, j: nat, n: nat)
    requires n <= |e|
    ensures Wrap(Dot(QueryMat(p, e, i, t), d, 0, j, n))
         == Wrap(Dot(p, d, 0, j, n) + Noise(e, d, j, n) + Hot(d, i, j, t, n))
  {
    hide Wrap, QueryWord;
    if n > 0 {
      var l, x, q := n - 1, d.At(n - 1, j), QueryMat(p, e, i, t);
      AnswerSum(p, e, i, t, d, j, l);
      QueryTerm(p, e, i, t, l, x);
      assert q.At(0, l) == QueryWord(p, e, i, t, l);
      assert Hot(d, i, j, t, n) == Hot(d, i, j, t, l) + (if l == i then t else 0) * x;
      WrapSum(Dot(q, d, 0, j, l), Dot(p, d, 0, j, l) + Noise(e, d, j, l) + Hot(d, i, j, t, l),
              q.At(0, l) * x, p.At(0, l) * x + e[l] * x + (if l == i then t else 0) * x);
    }
  }

  /** What subtracting secret times digest leaves of an honest answer: noise plus t times the
      wanted entry, in every column. */
  lemma HonestWord(s: Mat, a: Mat, d: Mat, e: seq<int>, i: nat, t: u32, j: nat)
    requires s.rows == 1 && s.cols == a.rows && a.cols == d.rows == |e| && i < d.rows && j < d.cols
    requires d.At(i, j) in {0, 1}
    ensures Wrap(Product(QueryMat(Product(s, a), e, i, t), d).At(0, j) - Product(s, Product(a, d)).At(0, j))
         == Honest(Noise(e, d, j, |e|), d.At(i, j), t)
  {
    hide Wrap, Dot, QueryMat, Noise, Product;
    var p := Product(s, a);
    var q := QueryMat(p, e, i, t);
    var n := |e|;
    ProductAssociative(s, a, d);
    ProductAt(q, d, 0, j);
    ProductAt(p, d, 0, j);
    AnswerSum(p, e, i, t, d, j, n);
    Remainder(Dot(q, d, 0, j, n), Dot(p, d, 0, j, n), Noise(e, d, j, n) + Hot(d, i, j, t, n));
    assert Hot(d, i, j, t, n) == d.At(i, j) * t;
  }

  lemma Remainder(x: int, y: int, rest: int)
    requires Wrap(x) == Wrap(y + rest)
    ensures Wrap(Wrap(x) - Wrap(y)) == Wrap(rest)
  {
    hide Wrap;
    WrapSub(y + rest, y);
  }

  // ---------- decoding a row ----------

  /** The loop's verdict: rejection if any column is out of range, else column j's bit. */
  function DecodeRow(vs: seq<u32>, t: u32, bound: u32, j: nat): Result<u32>
    requires j < |vs|
  {
    if forall c :: 0 <= c < |vs| ==> DecodeWord(vs[c], t, bound).Ok? then DecodeWord(vs[j], t, bound) else Reject
  }

  /** A row gives a bit exactly when every word of it is noise below the bound with or without the scalar,
      and the bit is column j's: zero when noise alone explains the word. One column that nothing explains
      rejects the row. */
  lemma DecodeRowExact(vs: seq<u32>, t: u32, bound: u32, j: nat)
    requires j < |vs| && bound >= 1
    ensures DecodeRow(vs, t, bound, j).Ok?
       <==> forall c :: 0 <= c < |vs| ==> Explained(vs[c], t, bound, 0) || Explained(vs[c], t, bound, 1)
    ensures DecodeRow(vs, t, bound, j).Ok? ==>
              DecodeRow(vs, t, bound, j) == Ok(if Explained(vs[j], t, bound, 0) then 0 else 1)
  {
    hide DecodeWord, Explained;
    forall c | 0 <= c < |vs|
      ensures DecodeWord(vs[c], t, bound).Ok? <==> Explained(vs[c], t, bound, 0) || Explained(vs[c], t, bound, 1)
    {
      DecodeWordExact(vs[c], t, bound);
    }
    DecodeWordExact(vs[j], t, bound);
  }

  /** Bits only. */
  predicate BitMatrix(d: Mat) {
    d.Ok() && forall p :: 0 <= p < |d.data| ==> d.data[p] in {0, 1}
  }

  /** The noise of every column stays below the bound. */
  predicate QuietColumns(e: seq<int>, d: Mat, bound: u32) {
    forall c :: 0 <= c < d.cols ==> Below(Noise(e, d, c, |e|), bound)
  }

  /** The magnitudes of the first n errors, added up. */
  function Magnitude(e: seq<int>, n: nat): nat
    requires n <= |e|
  {
    if n == 0 then 0 else Magnitude(e, n - 1) + if e[n - 1] < 0 then -e[n - 1] else e[n - 1]
  }

  lemma {:induction false} NoiseBound(e: seq<int>, d: Mat, j: nat, n: nat)
    requires BitMatrix(d) && n <= |e| == d.rows && j < d.cols
    ensures 0 <= Magnitude(e, n) + Noise(e, d, j, n) && Noise(e, d, j, n) <= Magnitude(e, n)
  {
    if n > 0 {
      NoiseBound(e, d, j, n - 1);
      BitAtEntry(d, n - 1, j);
      hide BitMatrix;
    }
  }

  /** Errors whose magnitudes add up to less than the bound keep every column quiet. */
  lemma SmallErrorsQuiet(e: seq<int>, d: Mat, bound: u32)
    requires BitMatrix(d) && |e| == d.rows && Magnitude(e, |e|) < bound
    ensures QuietColumns(e, d, bound)
  {
    hide BitMatrix, Noise, Magnitude;
    forall c | 0 <= c < d.cols ensures Below(Noise(e, d, c, |e|), bound) {
      NoiseBound(e, d, c, |e|);
    }
  }

  lemma BitAtEntry(d: Mat, i: nat, j: nat)
    requires BitMatrix(d) && i < d.rows && j < d.cols
    ensures d.At(i, j) in {0, 1}
  {
    IndexBound(d.rows, d.cols, i, j);
  }

  /** Retrieval is exact: on the honest answer every column decodes and column j gives the
      entry (i, j). */
  lemma HonestRow(s: Mat, a: Mat, d: Mat, e: seq<int>, i: nat, j: nat, t: u32, bound: u32, vs: seq<u32>)
    requires s.rows == 1 && s.cols == a.rows && a.cols == d.rows == |e| && i < d.rows && j < d.cols
    requires BitMatrix(d) && QuietColumns(e, d, bound) && Separates(t, bound)
    requires |vs| == d.cols
    requires forall c :: 0 <= c < d.cols ==>
               vs[c] == Wrap(Product(QueryMat(Product(s, a), e, i, t), d).At(0, c) - Product(s, Product(a, d)).At(0, c))
    ensures DecodeRow(vs, t, bound, j) == Ok(d.At(i, j))
  {
    hide Product, QueryMat, Noise, DecodeWord, Wrap;
    forall c | 0 <= c < d.cols ensures DecodeWord(vs[c], t, bound) == Ok(d.At(i, c)) {
      BitAtEntry(d, i, c);
      HonestWord(s, a, d, e, i, t, c);
      HonestDecodes(Noise(e, d, c, |e|), d.At(i, c), t, bound);
    }
  }

  // ---------- the database, the server and the client ----------

  /** The database of the given random bytes, one entry a bit, least significant bit first. */
  method CreateRandomBinary(rows: nat, cols: nat, random: seq<byte>) returns (db: MatrixBytes)
    requires |random| == rows * cols / 8 + 1
    ensures db.Valid() && fresh(db) && fresh(db.data) && db.rows == rows && db.cols == cols
    ensures BitMatrix(db.Value())
    ensures forall p :: 0 <= p < rows * cols ==> db.data[p] == if Bit(random, p) then 1 else 0
  {
    hide Bit;
    var bits := new u8[rows * cols](_ => 0);
    var p := 0;
    while p < bits.Length
      invariant 0 <= p <= bits.Length
      invariant forall m :: 0 <= m < p ==> bits[m] == if Bit(random, m) then 1 else 0
    {
      var bit := TestBit(random, p);
      bits[p] := if bit then 1 else 0;
      p := p + 1;
    }
    db := new MatrixBytes(rows, cols, bits[..]);
    assert db.data[..] == bits[..];
  }

  /** The digest of a database: A times the bits. */
  method Digest(a: Matrix, db: MatrixBytes) returns (digest: Matrix)
    requires a.Valid() && db.Valid() && a.cols == db.rows
    ensures digest.Valid() && fresh(digest) && fresh(digest.data)
    ensures digest.Value() == Product(a.Value(), db.Value())
  {
    digest := BinaryMul(a, db);
  }

  class Server {
    const db: MatrixBytes

    constructor (db: MatrixBytes)
      ensures this.db == db
    {
      this.db := db;
    }

    method Answer(q: Matrix) returns (answer: Matrix)
      requires q.Valid() && db.Valid() && q.cols == db.rows
      ensures answer.Valid() && fresh(answer) && fresh(answer.data)
      ensures answer.Value() == Product(q.Value(), db.Value())
    {
      answer := BinaryMul(q, db);
    }
  }

  /** What the client keeps between query and reconstruction. */
  datatype State = NoQuery | State(a: Matrix, digest: Matrix, secret: Matrix, i: nat, j: nat, t: u32)

  class Client {
    const digest: Matrix
    const bound: u32
    const n: nat
    const l: nat
    const m: nat
    var state: State

    constructor (digest: Matrix, bound: u32, n: nat, l: nat, m: nat)
      ensures this.digest == digest && this.bound == bound && this.n == n && this.l == l && this.m == m
      ensures state == NoQuery
    {
      this.digest, this.bound, this.n, this.l, this.m := digest, bound, n, l, m;
      state := NoQuery;
    }

    /** Ready to reconstruct: the state's matrices have the parameters' shape. */
    ghost predicate Ready()
      reads this
    {
      && state.State? && state.digest.Valid() && state.secret.Valid()
      && state.secret.rows == 1 && state.secret.cols == n && state.digest.rows == n && state.digest.cols == m
      && state.j < m
    }

    /** The words the reconstruction decodes. */
    ghost function Differences(answers: Mat): (vs: seq<u32>)
      requires Ready()
      reads this, state.digest.data, state.secret.data
      ensures |vs| == m
    {
      var sd := Product(state.secret.Value(), state.digest.Value());
      seq(m, c requires 0 <= c < m => Wrap(answers.At(0, c) - sd.At(0, c)))
    }

    /** The query for entry (i, j). The matrix A, the secret, the error and the scalar are the
        random inputs; the state keeps what reconstruction needs. */
    method Query(i: nat, j: nat, aWords: seq<u32>, secretWords: seq<u32>, e: seq<int>, t: u32)
      returns (query: Matrix)
      requires i < l && j < m && |aWords| == n * l && |secretWords| == 1 * n && |e| == l
      requires digest.Valid() && digest.rows == n && digest.cols == m
      modifies this
      ensures Ready() && state.digest == digest && state.i == i && state.j == j && state.t == t
      ensures fresh(state.secret) && fresh(state.secret.data)
      ensures state.secret.Value() == Mat(1, n, secretWords)
      ensures query.Valid() && fresh(query) && fresh(query.data) && query.data != state.secret.data
      ensures query.Value() == QueryMat(Product(Mat(1, n, secretWords), Mat(n, l, aWords)), e, i, t)
    {
      hide Product, QueryMat;
      var a := new Matrix.WithData(n, l, aWords);
      var secret := new Matrix.WithData(1, n, secretWords);
      state := State(a, digest, secret, i, j, t);
      query := Matrices.Mul(secret, a);
      AddNoiseAndScalar(query, e, i, t);
    }

    /** The verdict on an answer; the answer is overwritten by the differences. */
    method Reconstruct(answers: Matrix) returns (r: Result<u32>)
      requires Ready() && answers.Valid() && answers.rows == 1 && answers.cols == m
      requires answers.data != state.secret.data && answers.data != state.digest.data
      modifies answers.data
      ensures r == DecodeRow(old(Differences(answers.Value())), state.t, bound, state.j)
      ensures var vs := old(Differences(answers.Value()));
              bound >= 1 ==>
                && (r.Ok? <==> forall c :: 0 <= c < m ==>
                      Explained(vs[c], state.t, bound, 0) || Explained(vs[c], state.t, bound, 1))
                && (r.Ok? ==> r == Ok(if Explained(vs[state.j], state.t, bound, 0) then 0 else 1))
    {
      hide Product, Wrap, DecodeRow, Explained;
      ghost var vs := Differences(answers.Value());
      ghost var was := answers.Value();
      var sd := Matrices.Mul(state.secret, state.digest);
      answers.Sub(sd);
      forall c | 0 <= c < m ensures answers.data[c] == vs[c] {
        assert was.At(0, c) == was.data[c] && sd.Value().At(0, c) == sd.data[c];
      }
      assert answers.data[..] == vs;
      if bound >= 1 {
        DecodeRowExact(vs, state.t, bound, state.j);
      }
      r := DecodeColumns(answers, state.t, bound, state.j);
    }
  }

  /** The loop over the columns of a one-row matrix; it stops at the first word out of range. */
  method DecodeColumns(words: Matrix, t: u32, bound: u32, j: nat) returns (r: Result<u32>)
    requires words.Valid() && words.rows == 1 && j < words.cols
    ensures r == DecodeRow(words.data[..], t, bound, j)
  {
    hide DecodeWord;
    ghost var vs := words.data[..];
    var outs := new u32[words.cols];
    var i := 0;
    while i < words.cols
      invariant 0 <= i <= words.cols
      invariant words.data[..] == vs
      invariant forall c :: 0 <= c < i ==> DecodeWord(vs[c], t, bound) == Ok(outs[c])
    {
      var v := words.Get(0, i);
      var bit := Classify(v, t, bound);
      if bit.Reject? {
        assert DecodeWord(vs[i], t, bound) == Reject;
        return Reject;
      }
      outs[i] := bit.value;
      i := i + 1;
    }
    return Ok(outs[j]);
  }

  /** Turns secret times A into the query, in place. */
  method AddNoiseAndScalar(query: Matrix, e: seq<int>, i: nat, t: u32)
    requires query.Valid() && query.rows == 1 && query.cols == |e| && i < |e|
    modifies query.data
    ensures query.Value() == QueryMat(old(query.Value()), e, i, t)
  {
    hide Wrap;
    ghost var p := query.Value();
    var noise := NewNoise(e);
    var msg := new Matrix(1, |e|);
    msg.Set(0, i, t);
    query.Add(noise);
    query.Add(msg);
    forall c | 0 <= c < |e| ensures query.data[c] == QueryWord(p, e, i, t, c) {
      assert p.At(0, c) == p.data[c];
    }
    assert query.Value() == QueryMat(p, e, i, t);
  }

  method Classify(v: u32, t: u32, bound: u32) returns (bit: Result<u32>)
    ensures bit == DecodeWord(v, t, bound)
  {
    if InRange(v, bound) {
      bit := Ok(0);
    } else if InRange(Words.Sub(v, t), bound) {
      bit := Ok(1);
    } else {
      bit := Reject;
    }
  }

  /** The error row as unsigned words. */
  method NewNoise(e: seq<int>) returns (m: Matrix)
    ensures m.Valid() && fresh(m) && fresh(m.data) && m.rows == 1 && m.cols == |e|
    ensures forall c :: 0 <= c < |e| ==> m.data[c] == Wrap(e[c])
  {
    m := new Matrix(1, |e|);
    var i := 0;
    while i < |e|
      invariant 0 <= i <= |e|
      invariant forall c :: 0 <= c < i ==> m.data[c] == Wrap(e[c])
    {
      m.data[i] := Wrap(e[i]);
      i := i + 1;
    }
  }

  /** One retrieval as a caller runs it: query, answer, reconstruction. */
  method RetrieveBit(client: Client, server: Server, i: nat, j: nat, aWords: seq<u32>, secretWords: seq<u32>,
                     e: seq<int>, t: u32) returns (r: Result<u32>)
    requires server.db.Valid() && server.db.rows == client.l && server.db.cols == client.m
    requires i < client.l && j < client.m && |aWords| == client.n * client.l && |secretWords| == 1 * client.n
    requires |e| == client.l
    requires client.digest.Valid() && client.digest.rows == client.n && client.digest.cols == client.m
    requires client.digest.Value() == Product(Mat(client.n, client.l, aWords), server.db.Value())
    requires QuietColumns(e, server.db.Value(), client.bound) && Separates(t, client.bound)
    modifies client
    ensures r == Ok(server.db.Value().At(i, j))
  {
    hide Product, QueryMat, DecodeRow, Wrap, QuietColumns;
    ghost var d := server.db.Value();
    var q := client.Query(i, j, aWords, secretWords, e, t);
    var answer := server.Answer(q);
    ghost var vs := client.Differences(answer.Value());
    r := client.Reconstruct(answer);
    HonestRow(Mat(1, client.n, secretWords), Mat(client.n, client.l, aWords), d, e, i, j, t, client.bound, vs);
  }
}
