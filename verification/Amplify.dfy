/** Integrity amplification: the same retrieval run 2t + 1 times, combined by the repetition code. */
module Amplify {
  import opened Words
  import opened MatrixAlgebra
  import opened Matrices
  import opened LweDecode
  import opened Ecc
  import opened XorAlgebra
  import Lwe

  /** One rejected run rejects all; otherwise the code decides on the bits. */
  function Combine(outcomes: seq<Result<u32>>): Result<u32>
    requires |outcomes| >= 1
  {
    if forall k :: 0 <= k < |outcomes| ==> outcomes[k].Ok? then Decoded(Values(outcomes)) else Reject
  }

  function Values(outcomes: seq<Result<u32>>): (r: seq<u32>)
    requires forall k :: 0 <= k < |outcomes| ==> outcomes[k].Ok?
    ensures |r| == |outcomes|
  {
    seq(|outcomes|, k requires 0 <= k < |outcomes| => outcomes[k].value)
  }

  /** Runs that do not yield the bit. */
  function Wrong(outcomes: seq<Result<u32>>, bit: u32): nat {
    if |outcomes| == 0 then 0
    else
      var m := |outcomes| - 1;
      Wrong(outcomes[..m], bit) + if outcomes[m] == Ok(bit) then 0 else 1
  }

  lemma {:induction false} WrongAreErrors(outcomes: seq<Result<u32>>, bit: u32)
    requires forall k :: 0 <= k < |outcomes| ==> outcomes[k].Ok?
    ensures Errors(Values(outcomes), bit) == Wrong(outcomes, bit)
  {
    if |outcomes| > 0 {
      var m := |outcomes| - 1;
      assert Values(outcomes)[..m] == Values(outcomes[..m]);
      WrongAreErrors(outcomes[..m], bit);
    }
  }

  /** With at most t wrong runs out of 2t + 1 the other bit is never returned; the right one is
      returned exactly when no run rejects and the first run is right. */
  lemma CombineSound(outcomes: seq<Result<u32>>, bit: u32, t: nat)
    requires |outcomes| == 2 * t + 1 && Wrong(outcomes, bit) <= t
    ensures Combine(outcomes)
         == if (forall k :: 0 <= k < |outcomes| ==> outcomes[k].Ok?) && outcomes[0] == Ok(bit) then Ok(bit) else Reject
  {
    if forall k :: 0 <= k < |outcomes| ==> outcomes[k].Ok? {
      WrongAreErrors(outcomes, bit);
      ErrorsCorrected(Values(outcomes), bit, t);
    }
  }

  /** A value is returned exactly when no run rejects, the first run gives it, and fewer than half of all runs
      do not. */
  lemma CombineExact(outcomes: seq<Result<u32>>, bit: u32)
    requires |outcomes| >= 1
    ensures Combine(outcomes) == Ok(bit)
       <==> && (forall k :: 0 <= k < |outcomes| ==> outcomes[k].Ok?)
            && outcomes[0] == Ok(bit) && 2 * Wrong(outcomes, bit) < |outcomes|
  {
    if forall k :: 0 <= k < |outcomes| ==> outcomes[k].Ok? {
      WrongAreErrors(outcomes, bit);
    }
  }

  lemma {:induction false} AllRight(outcomes: seq<Result<u32>>, bit: u32)
    requires forall k :: 0 <= k < |outcomes| ==> outcomes[k] == Ok(bit)
    ensures Wrong(outcomes, bit) == 0
  {
    if |outcomes| > 0 {
      AllRight(outcomes[..|outcomes| - 1], bit);
    }
  }

  lemma CombineHonest(outcomes: seq<Result<u32>>, bit: u32)
    requires |outcomes| % 2 == 1 && forall k :: 0 <= k < |outcomes| ==> outcomes[k] == Ok(bit)
    ensures Combine(outcomes) == Ok(bit)
  {
    AllRight(outcomes, bit);
    CombineSound(outcomes, bit, (|outcomes| - 1) / 2);
  }

  /** One repetition's random inputs: secret, error row and scalar. */
  datatype Coin = Coin(secret: seq<u32>, e: seq<int>, t: u32)

  class Client {
    const lwes: seq<Lwe.Client>

    /** One base client a repetition, all different, all for the same database. */
    ghost predicate Valid() {
      && |lwes| >= 1 && |lwes| % 2 == 1
      && (forall k, k' :: 0 <= k < k' < |lwes| ==> lwes[k] != lwes[k'])
      && forall k :: 0 <= k < |lwes| ==>
           && lwes[k].n == lwes[0].n && lwes[k].l == lwes[0].l && lwes[k].m == lwes[0].m
           && lwes[k].digest == lwes[0].digest && lwes[k].bound == lwes[0].bound
    }

    constructor (digest: Matrix, bound: u32, n: nat, l: nat, m: nat, tEcc: nat)
      ensures Valid() && |lwes| == 2 * tEcc + 1
      ensures forall k :: 0 <= k < |lwes| ==> fresh(lwes[k])
      ensures var c := lwes[0]; c.digest == digest && c.bound == bound && c.n == n && c.l == l && c.m == m
    {
      var cs: seq<Lwe.Client> := [];
      var k := 0;
      while k < 2 * tEcc + 1
        invariant 0 <= k <= 2 * tEcc + 1 && |cs| == k
        invariant forall i :: 0 <= i < k ==> fresh(cs[i])
        invariant forall i, i' :: 0 <= i < i' < k ==> cs[i] != cs[i']
        invariant forall i :: 0 <= i < k ==>
                    cs[i].digest == digest && cs[i].bound == bound && cs[i].n == n && cs[i].l == l && cs[i].m == m
      {
        var c := new Lwe.Client(digest, bound, n, l, m);
        cs := cs + [c];
        k := k + 1;
      }
      lwes := cs;
    }

    /** What base client k keeps after a query for column j. */
    ghost predicate Kept(k: nat, j: nat, coin: Coin)
      requires k < |lwes|
      reads lwes[k]
      reads if lwes[k].state.State? then {lwes[k].state.secret.data} else {}
    {
      var c := lwes[k];
      && c.Ready() && c.state.digest == c.digest && c.state.j == j && c.state.t == coin.t
      && |coin.secret| == 1 * c.n && c.state.secret.Value() == Mat(1, c.n, coin.secret)
    }

    /** What base client k keeps and sends after its query for entry (i, j). */
    ghost predicate Asked(k: nat, q: Matrix, i: nat, j: nat, aWords: seq<u32>, coin: Coin)
      requires k < |lwes|
      reads lwes[k], q.data
      reads if lwes[k].state.State? then {lwes[k].state.secret.data} else {}
    {
      var c := lwes[k];
      && Kept(k, j, coin) && |aWords| == c.n * c.l
      && q.Valid() && q.rows == 1 && q.cols == c.l
      && q.Value() == QueryFor(c, i, aWords, coin)
    }

    ghost function QueryFor(c: Lwe.Client, i: nat, aWords: seq<u32>, coin: Coin): Mat {
      Lwe.QueryMat(Product(Mat(1, c.n, coin.secret), Mat(c.n, c.l, aWords)), coin.e, i, coin.t)
    }

    lemma AskedBy(k: nat, q: Matrix, i: nat, j: nat, aWords: seq<u32>, coin: Coin)
      requires k < |lwes| && |aWords| == lwes[k].n * lwes[k].l && |coin.secret| == 1 * lwes[k].n
      requires lwes[k].Ready() && lwes[k].state.digest == lwes[k].digest
      requires lwes[k].state.j == j && lwes[k].state.t == coin.t
      requires lwes[k].state.secret.Value() == Mat(1, lwes[k].n, coin.secret) && |coin.e| == lwes[k].l
      requires q.Valid() && q.Value() == QueryFor(lwes[k], i, aWords, coin)
      ensures Asked(k, q, i, j, aWords, coin)
    {
      hide Product;
    }

    /** Every base client asks for the same entry, each with its own randomness. */
    method Query(i: nat, j: nat, aWords: seq<u32>, coins: seq<Coin>) returns (queries: seq<Matrix>)
      requires Valid() && |coins| == |lwes|
      requires i < lwes[0].l && j < lwes[0].m && |aWords| == lwes[0].n * lwes[0].l
      requires forall k :: 0 <= k < |coins| ==> |coins[k].secret| == 1 * lwes[0].n && |coins[k].e| == lwes[0].l
      requires lwes[0].digest.Valid() && lwes[0].digest.rows == lwes[0].n && lwes[0].digest.cols == lwes[0].m
      modifies lwes
      ensures |queries| == |lwes|
      ensures forall k :: 0 <= k < |lwes| ==> Asked(k, queries[k], i, j, aWords, coins[k])
      ensures forall k :: 0 <= k < |lwes| ==>
                fresh(queries[k].data) && lwes[k].state.State? && fresh(lwes[k].state.secret.data)
    {
      hide Product, Client.Asked, Lwe.QueryMat;
      queries := [];
      var k := 0;
      while k < |lwes|
        invariant 0 <= k <= |lwes| && |queries| == k
        invariant forall m :: 0 <= m < k ==> Asked(m, queries[m], i, j, aWords, coins[m])
        invariant forall m :: 0 <= m < k ==>
                    fresh(queries[m].data) && lwes[m].state.State? && fresh(lwes[m].state.secret.data)
      {
        var q := lwes[k].Query(i, j, aWords, coins[k].secret, coins[k].e, coins[k].t);
        AskedBy(k, q, i, j, aWords, coins[k]);
        queries := queries + [q];
        k := k + 1;
      }
    }

    /** The base clients wait for these answers, held apart from what the clients keep. */
    ghost predicate Awaits(answers: seq<Matrix>)
      reads lwes
    {
      && |answers| == |lwes|
      && (forall k, k' :: 0 <= k < k' < |answers| ==> answers[k].data != answers[k'].data)
      && (forall k :: 0 <= k < |lwes| ==>
            lwes[k].Ready() && answers[k].Valid() && answers[k].rows == 1 && answers[k].cols == lwes[k].m)
      && forall k, k' :: 0 <= k < |answers| && 0 <= k' < |lwes| ==>
           lwes[k'].state.State? && answers[k].data != lwes[k'].state.secret.data
           && answers[k].data != lwes[k'].state.digest.data
    }

    /** The verdict of base client k on an answer. */
    ghost function Verdict(k: nat, answer: Matrix): Result<u32>
      requires k < |lwes| && lwes[k].Ready()
      reads lwes[k], lwes[k].state.digest.data, lwes[k].state.secret.data, answer.data
    {
      Lwe.DecodeRow(lwes[k].Differences(answer.Value()), lwes[k].state.t, lwes[k].bound, lwes[k].state.j)
    }

    /** Collects the base clients' verdicts in order, stopping at the first rejection. */
    method Reconstruct(answers: seq<Matrix>, ghost outcomes: seq<Result<u32>>) returns (r: Result<u32>)
      requires Valid() && Awaits(answers) && |outcomes| == |lwes|
      requires forall k :: 0 <= k < |lwes| ==> outcomes[k] == Verdict(k, answers[k])
      modifies set k | 0 <= k < |answers| :: answers[k].data
      ensures r == Combine(outcomes)
    {
      hide Lwe.DecodeRow, Product, Decoded, Explained;
      var outputs: seq<u32> := [];
      var i := 0;
      while i < |lwes|
        invariant 0 <= i <= |lwes| == |outcomes| && |outputs| == i
        invariant forall k :: 0 <= k < i ==> outcomes[k] == Ok(outputs[k])
        invariant forall k :: i <= k < |answers| ==> unchanged(answers[k].data)
      {
        assert Verdict(i, answers[i]) == old(Verdict(i, answers[i]));
        var out := lwes[i].Reconstruct(answers[i]);
        if out.Reject? {
          return Reject;
        }
        outputs := outputs + [out.value];
        i := i + 1;
      }
      assert outputs == Values(outcomes);
      var code := new RepetitionCode((|lwes| - 1) / 2);
      r := code.Decode(outputs);
    }
  }

  /** The server's side: one product a query. */
  method Answer(db: MatrixBytes, queries: seq<Matrix>) returns (answers: seq<Matrix>)
    requires db.Valid()
    requires forall k :: 0 <= k < |queries| ==> queries[k].Valid() && queries[k].cols == db.rows
    ensures |answers| == |queries|
    ensures forall k :: 0 <= k < |answers| ==>
              && answers[k].Valid() && fresh(answers[k].data)
              && answers[k].Value() == Product(queries[k].Value(), db.Value())
    ensures forall k, k' :: 0 <= k < k' < |answers| ==> answers[k].data != answers[k'].data
  {
    hide Product;
    answers := [];
    var i := 0;
    while i < |queries|
      invariant 0 <= i <= |queries| && |answers| == i
      invariant forall k :: 0 <= k < i ==>
                  && answers[k].Valid() && fresh(answers[k].data)
                  && answers[k].Value() == Product(queries[k].Value(), db.Value())
      invariant forall k, k' :: 0 <= k < k' < i ==> answers[k].data != answers[k'].data
    {
      var a := BinaryMul(queries[i], db);
      answers := answers + [a];
      i := i + 1;
    }
  }

  /** The shapes and the digest fit the database. */
  ghost predicate Suits(c: Lwe.Client, db: MatrixBytes, i: nat, j: nat, aWords: seq<u32>, coins: seq<Coin>)
    reads db.data, c.digest.data
  {
    && db.Valid() && db.rows == c.l && db.cols == c.m && i < c.l && j < c.m
    && |aWords| == c.n * c.l && c.digest.Valid() && c.digest.rows == c.n && c.digest.cols == c.m
    && c.digest.Value() == Product(Mat(c.n, c.l, aWords), db.Value())
    && forall k :: 0 <= k < |coins| ==> |coins[k].secret| == 1 * c.n && |coins[k].e| == c.l
  }

  /** Noise below the bound in every column, scalars apart. */
  ghost predicate Quiet(c: Lwe.Client, db: MatrixBytes, coins: seq<Coin>)
    requires db.Valid()
    reads db.data
  {
    forall k :: 0 <= k < |coins| ==>
      Lwe.QuietColumns(coins[k].e, db.Value(), c.bound) && Separates(coins[k].t, c.bound)
  }

  /** Queries and honest answers: every base client waits for its own product. */
  method Ask(client: Client, db: MatrixBytes, i: nat, j: nat, aWords: seq<u32>, coins: seq<Coin>)
    returns (answers: seq<Matrix>)
    requires client.Valid() && |coins| == |client.lwes| && Suits(client.lwes[0], db, i, j, aWords, coins)
    modifies client.lwes
    ensures client.Awaits(answers)
    ensures forall k :: 0 <= k < |answers| ==> fresh(answers[k].data)
    ensures forall k :: 0 <= k < |answers| ==>
              && client.Kept(k, j, coins[k])
              && answers[k].Value() == Product(client.QueryFor(client.lwes[k], i, aWords, coins[k]), db.Value())
  {
    hide Product, Client.Asked, Client.QueryFor, Client.Kept;
    var queries := client.Query(i, j, aWords, coins);
    forall k | 0 <= k < |queries|
      ensures client.lwes[k].Ready() && queries[k].Valid() && queries[k].rows == 1 && queries[k].cols == db.rows
      ensures client.lwes[k].state.digest == client.lwes[k].digest && client.Kept(k, j, coins[k])
      ensures queries[k].Value() == client.QueryFor(client.lwes[k], i, aWords, coins[k])
    {
      AskedShape(client, k, queries[k], i, j, aWords, coins[k]);
    }
    label asked:
    answers := Answer(db, queries);
    forall k, k' | 0 <= k < |answers| && 0 <= k' < |client.lwes|
      ensures answers[k].data != client.lwes[k'].state.secret.data
      ensures answers[k].data != client.lwes[k'].state.digest.data
    {
      assert client.lwes[k'].Ready();
      assert fresh@asked(answers[k].data);
    }
  }

  /** An amplified retrieval as a caller runs it returns the database bit. */
  method RetrieveAmplified(client: Client, db: MatrixBytes, i: nat, j: nat, aWords: seq<u32>, coins: seq<Coin>)
    returns (r: Result<u32>)
    requires client.Valid() && |coins| == |client.lwes| && Suits(client.lwes[0], db, i, j, aWords, coins)
    requires Quiet(client.lwes[0], db, coins)
    modifies client.lwes
    ensures r == Ok(db.Value().At(i, j))
  {
    hide Product, Lwe.QuietColumns, Combine, Client.Verdict, Client.Awaits, Client.Kept, Client.QueryFor;
    Lwe.BitAtEntry(db.Value(), i, j);
    ghost var bit: u32 := db.Value().At(i, j);
    var answers := Ask(client, db, i, j, aWords, coins);
    ghost var outcomes := seq<Result<u32>>(|client.lwes|, _ => Ok(bit));
    assert |answers| == |client.lwes| by { AwaitsLength(client, answers); }
    forall k | 0 <= k < |coins| ensures client.lwes[k].Ready() && client.Verdict(k, answers[k]) == Ok(bit) {
      AwaitsShape(client, answers, k);
      HonestVerdict(client, k, answers[k], db, i, j, aWords, coins[k]);
    }
    r := client.Reconstruct(answers, outcomes);
    CombineHonest(outcomes, bit);
  }

  /** The whole scheme from its random bytes on: database, digest, clients, and one amplified retrieval. The
      errors of each repetition add up to less than the bound, the scalars lie between 2B - 1 and
      2^32 - 2B + 1. */
  method BuildAndRetrieve(n: nat, l: nat, m: nat, dbBytes: seq<byte>, aWords: seq<u32>, bound: u32, tEcc: nat,
                          i: nat, j: nat, coins: seq<Coin>) returns (r: Result<u32>)
    requires |dbBytes| == l * m / 8 + 1 && |aWords| == n * l && i < l && j < m && |coins| == 2 * tEcc + 1
    requires forall k :: 0 <= k < |coins| ==>
               && |coins[k].secret| == n && |coins[k].e| == l && Lwe.Magnitude(coins[k].e, l) < bound
               && 2 * (bound as int) - 1 <= coins[k].t <= TWO32 - 2 * (bound as int) + 1
    ensures 0 <= m * i + j < 8 * |dbBytes| && r == Ok(if Bit(dbBytes, m * i + j) then 1 else 0)
  {
    hide Product, Lwe.QuietColumns, Lwe.BitMatrix, Bit, Lwe.Magnitude;
    IndexBound(l, m, i, j);
    var db := Lwe.CreateRandomBinary(l, m, dbBytes);
    var a := new Matrix.WithData(n, l, aWords);
    var digest := Lwe.Digest(a, db);
    var client := new Client(digest, bound, n, l, m, tEcc);
    forall k | 0 <= k < |coins|
      ensures Lwe.QuietColumns(coins[k].e, db.Value(), bound) && Separates(coins[k].t, bound)
    {
      Lwe.SmallErrorsQuiet(coins[k].e, db.Value(), bound);
    }
    r := RetrieveAmplified(client, db, i, j, aWords, coins);
  }

  lemma AwaitsLength(client: Client, answers: seq<Matrix>)
    requires client.Awaits(answers)
    ensures |answers| == |client.lwes|
  {
  }

  lemma AwaitsShape(client: Client, answers: seq<Matrix>, k: nat)
    requires client.Awaits(answers) && k < |answers|
    ensures |answers| == |client.lwes| && client.lwes[k].Ready()
    ensures answers[k].Valid() && answers[k].rows == 1 && answers[k].cols == client.lwes[k].m
  {
  }

  lemma AskedShape(client: Client, k: nat, q: Matrix, i: nat, j: nat, aWords: seq<u32>, coin: Coin)
    requires k < |client.lwes| && client.Asked(k, q, i, j, aWords, coin)
    ensures client.lwes[k].Ready() && q.Valid() && q.rows == 1 && q.cols == client.lwes[k].l
    ensures client.lwes[k].state.digest == client.lwes[k].digest && client.Kept(k, j, coin)
    ensures q.Value() == client.QueryFor(client.lwes[k], i, aWords, coin)
  {
    hide Client.QueryFor;
  }

  lemma HonestVerdict(client: Client, k: nat, answer: Matrix, db: MatrixBytes, i: nat, j: nat, aWords: seq<u32>,
                      coin: Coin)
    requires k < |client.lwes| && client.Kept(k, j, coin) && answer.Valid()
    requires var c := client.lwes[k];
             && db.Valid() && db.rows == c.l && db.cols == c.m && i < c.l && |coin.e| == c.l && |aWords| == c.n * c.l
             && c.digest.Value() == Product(Mat(c.n, c.l, aWords), db.Value())
             && answer.Value() == Product(client.QueryFor(c, i, aWords, coin), db.Value())
             && Lwe.QuietColumns(coin.e, db.Value(), c.bound) && Separates(coin.t, c.bound)
    ensures client.Verdict(k, answer) == Ok(db.Value().At(i, j))
  {
    hide Product, Lwe.QueryMat, Lwe.DecodeRow, Lwe.QuietColumns, Wrap;
    var c := client.lwes[k];
    Lwe.HonestRow(Mat(1, c.n, coin.secret), Mat(c.n, c.l, aWords), db.Value(), coin.e, i, j, coin.t, c.bound,
                  c.Differences(answer.Value()));
  }
}
