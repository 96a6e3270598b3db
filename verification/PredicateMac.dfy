/** Integrity of the predicate scheme: a fixed additive error on the client's sums is accepted with a
    wrong result for at most one choice of MAC keys, and a server that replaces its answer fixes the
    error up to the sums that overflow 32 bits. */
module PredicateMac {
  import opened Words
  import opened Field
  import opened ModArith
  import opened Counting
  import opened Mersenne
  import opened FssTree
  import opened FssPoint
  import opened Query
  import opened PredicateServer
  import opened PredicateTally
  import opened PredicateClient
  import opened PredicateApir

  /** Answers whose words stand for v times the target values, plus an error a word. */
  predicate Shifted(y0: seq<u32>, y1: seq<u32>, from: nat, b: seq<u32>, v: int, err: seq<int>) {
    && |err| == |b| && from + |b| <= |y0| && from + |b| <= |y1|
    && forall j :: 0 <= j < |b| ==> Sum(y0, y1, from + j) == Norm(v * b[j] + err[j])
  }

  /** A tag that agrees ties its key to the two errors. */
  lemma TagEquation(v: int, e0: int, e1: int, alpha: u32)
    requires alpha < MOD_P && Tag(Norm(v + e0), alpha) == Norm(v * alpha + e1)
    ensures Norm(e0 * alpha - e1) == 0
  {
    TagExact(Norm(v + e0), alpha);
    NormMul(v + e0, alpha);
    ModDifference((v + e0) * alpha, v * alpha + e1, MOD_P);
    assert (v + e0) * alpha - (v * alpha + e1) == e0 * alpha - e1;
  }

  /** With a non-zero data error two keys cannot both satisfy the equation: the field has no
      zero divisors. */
  lemma KeyPinned(e0: int, e1: int, alpha: u32, beta: u32)
    requires alpha < MOD_P && beta < MOD_P && Norm(e0) != 0
    requires Norm(e0 * alpha - e1) == 0 && Norm(e0 * beta - e1) == 0
    ensures alpha == beta
  {
    hide Norm;
    if beta < alpha {
      KeysEqual(e0, e1, alpha, beta);
    } else if alpha < beta {
      KeysEqual(e0, e1, beta, alpha);
    }
  }

  lemma KeysEqual(e0: int, e1: int, alpha: u32, beta: u32)
    requires beta <= alpha < MOD_P && Norm(e0) != 0
    requires Norm(e0 * alpha - e1) == 0 && Norm(e0 * beta - e1) == 0
    ensures alpha == beta
  {
    var d := alpha - beta;
    assert Norm(e0 * d) == 0 by {
      ModDifference(e0 * alpha - e1, e0 * beta - e1, MOD_P);
      assert e0 * d == (e0 * alpha - e1) - (e0 * beta - e1);
    }
    NormMul(e0, d);
    if d > 0 {
      MersennePrime();
      NoZeroDivisors(MOD_P, Norm(e0), d);
    }
  }

  /** The keys a client draws. */
  function Drawn(alphas: seq<u32>): (r: seq<u32>)
    requires |alphas| >= 1
    ensures |r| == |alphas| - 1
  {
    alphas[..|alphas| - 1]
  }

  lemma TagsPinKeys(y0: seq<u32>, y1: seq<u32>, z0: seq<u32>, z1: seq<u32>, from: nat,
                    alphas: seq<u32>, betas: seq<u32>, v: int, err: seq<int>)
    requires |alphas| == |betas| >= 1 && Canonical(alphas) && Canonical(betas)
    requires Shifted(y0, y1, from, TargetValues(alphas), v, err)
    requires Shifted(z0, z1, from, TargetValues(betas), v, err)
    requires TagsAgree(y0, y1, alphas, from, |alphas|) && TagsAgree(z0, z1, betas, from, |betas|)
    requires Norm(err[0]) != 0
    ensures Drawn(alphas) == Drawn(betas)
  {
    hide Norm, Tag, Sum;
    forall i | 0 <= i < |alphas| - 1 ensures alphas[i] == betas[i] {
      KeyAt(y0, y1, from, alphas, v, err, i);
      KeyAt(z0, z1, from, betas, v, err, i);
      KeyPinned(err[0], err[i + 1], alphas[i], betas[i]);
    }
  }

  lemma KeyAt(y0: seq<u32>, y1: seq<u32>, from: nat, alphas: seq<u32>, v: int, err: seq<int>, i: nat)
    requires i < |alphas| - 1 && Canonical(alphas)
    requires Shifted(y0, y1, from, TargetValues(alphas), v, err)
    requires TagsAgree(y0, y1, alphas, from, |alphas|)
    ensures Norm(err[0] * alphas[i] - err[i + 1]) == 0
  {
    hide Norm, Tag, Sum;
    var b := TargetValues(alphas);
    assert Sum(y0, y1, from + 0) == Norm(v * b[0] + err[0]);
    assert Sum(y0, y1, from + (i + 1)) == Norm(v * b[i + 1] + err[i + 1]);
    assert v * b[0] == v;
    assert TagAgrees(y0, y1, alphas, from, i);
    TagEquation(v, err[0], err[i + 1], alphas[i]);
  }

  /** The client decides by the count branch and accepts a count that is not v. */
  predicate FooledCount(y0: seq<u32>, y1: seq<u32>, alphas: seq<u32>, v: int, err: seq<int>) {
    && |alphas| >= 1 && Canonical(alphas) && |y0| != 2 * |alphas|
    && Shifted(y0, y1, 0, TargetValues(alphas), v, err)
    && Decide(y0, y1, alphas, |alphas|).Value? && Decide(y0, y1, alphas, |alphas|).v != Norm(v)
  }

  /** A fixed error fools the client under at most one vector of MAC keys. */
  lemma CountIntegrity(y0: seq<u32>, y1: seq<u32>, z0: seq<u32>, z1: seq<u32>,
                       alphas: seq<u32>, betas: seq<u32>, v: int, err: seq<int>)
    requires |alphas| == |betas|
    requires FooledCount(y0, y1, alphas, v, err) && FooledCount(z0, z1, betas, v, err)
    ensures Drawn(alphas) == Drawn(betas)
  {
    hide Norm, Sum, Shifted, TagsAgree, Decide;
    DecideExact(y0, y1, alphas, |alphas|);
    DecideExact(z0, z1, betas, |betas|);
    ShiftedData(y0, y1, 0, alphas, v, err);
    TagsPinKeys(y0, y1, z0, z1, 0, alphas, betas, v, err);
  }

  /** Out of all key vectors at most one lets a fixed error through. */
  lemma CountForgeries(keys: set<seq<u32>>, n: nat, v: int, err: seq<int>)
    requires n >= 1
    requires forall k :: k in keys ==> |k| == n - 1
    requires forall k :: k in keys ==> exists y0, y1 :: FooledCount(y0, y1, k + [0], v, err)
    ensures |keys| <= 1
  {
    if k :| k in keys {
      forall l | l in keys ensures l == k {
        var y0, y1 :| FooledCount(y0, y1, k + [0], v, err);
        var z0, z1 :| FooledCount(z0, z1, l + [0], v, err);
        CountIntegrity(y0, y1, z0, z1, k + [0], l + [0], v, err);
        assert Drawn(k + [0]) == k && Drawn(l + [0]) == l;
      }
      assert keys == {k};
    }
  }

  /** The client decides by the average branch and accepts what is not the average of the true sums. */
  predicate FooledAverage(y0: seq<u32>, y1: seq<u32>, alphas: seq<u32>, hits: int, years: int,
                          errCount: seq<int>, errSum: seq<int>) {
    && |alphas| >= 1 && Canonical(alphas) && |y0| == 2 * |alphas|
    && Shifted(y0, y1, 0, TargetValues(alphas), hits, errCount)
    && Shifted(y0, y1, |alphas|, TargetValues(alphas), years, errSum)
    && Decide(y0, y1, alphas, |alphas|).Value?
    && Decide(y0, y1, alphas, |alphas|) != Quotient(Norm(years), Norm(hits))
  }

  lemma ShiftedData(y0: seq<u32>, y1: seq<u32>, from: nat, alphas: seq<u32>, v: int, err: seq<int>)
    requires |alphas| >= 1 && Shifted(y0, y1, from, TargetValues(alphas), v, err)
    ensures |err| == |alphas|
    ensures Norm(err[0]) == 0 ==> Sum(y0, y1, from) == Norm(v)
  {
    var b := TargetValues(alphas);
    assert Sum(y0, y1, from + 0) == Norm(v * b[0] + err[0]);
    assert v * b[0] == v;
    NormAdd(err[0], v);
  }

  lemma AverageIntegrity(y0: seq<u32>, y1: seq<u32>, z0: seq<u32>, z1: seq<u32>, alphas: seq<u32>, betas: seq<u32>,
                         hits: int, years: int, errCount: seq<int>, errSum: seq<int>)
    requires |alphas| == |betas|
    requires FooledAverage(y0, y1, alphas, hits, years, errCount, errSum)
    requires FooledAverage(z0, z1, betas, hits, years, errCount, errSum)
    ensures Drawn(alphas) == Drawn(betas)
  {
    hide Norm, Sum, Shifted, TagsAgree, Quotient, Decide;
    var n := |alphas|;
    DecideExact(y0, y1, alphas, n);
    DecideExact(z0, z1, betas, n);
    ShiftedData(y0, y1, 0, alphas, hits, errCount);
    ShiftedData(y0, y1, n, alphas, years, errSum);
    if Norm(errCount[0]) != 0 {
      TagsPinKeys(y0, y1, z0, z1, 0, alphas, betas, hits, errCount);
    } else {
      TagsPinKeys(y0, y1, z0, z1, n, alphas, betas, years, errSum);
    }
  }

  /** Out of all key vectors at most one lets a fixed error on an average through. */
  lemma AverageForgeries(keys: set<seq<u32>>, n: nat, hits: int, years: int, errCount: seq<int>, errSum: seq<int>)
    requires n >= 1
    requires forall k :: k in keys ==> |k| == n - 1
    requires forall k :: k in keys ==> exists y0, y1 :: FooledAverage(y0, y1, k + [0], hits, years, errCount, errSum)
    ensures |keys| <= 1
  {
    if k :| k in keys {
      forall l | l in keys ensures l == k {
        var y0, y1 :| FooledAverage(y0, y1, k + [0], hits, years, errCount, errSum);
        var z0, z1 :| FooledAverage(z0, z1, l + [0], hits, years, errCount, errSum);
        AverageIntegrity(y0, y1, z0, z1, k + [0], l + [0], hits, years, errCount, errSum);
        assert Drawn(k + [0]) == k && Drawn(l + [0]) == l;
      }
      assert keys == {k};
    }
  }

  // ---------- replaced answers ----------

  /** Honest answers that carry v behind a position: canonical accumulators. */
  predicate Honest(y0: seq<u32>, y1: seq<u32>, from: nat, alphas: seq<u32>, v: nat) {
    && |alphas| >= 1 && Canonical(alphas) && Carries(y0, y1, from, TargetValues(alphas), v)
    && forall j :: from <= j < from + |alphas| ==> y0[j] < MOD_P && y1[j] < MOD_P
  }

  /** Honest answers are the same from either side. */
  lemma HonestSwap(y0: seq<u32>, y1: seq<u32>, from: nat, alphas: seq<u32>, v: nat)
    ensures Honest(y0, y1, from, alphas, v) <==> Honest(y1, y0, from, alphas, v)
  {
    hide Norm, TargetValues;
  }

  /** The honest answers of a run are of this kind, from either side. */
  lemma HonestRun(s: Session, alphas: seq<u32>, items: seq<Item>, d0: nat -> Draws, d1: nat -> Draws)
    requires Authenticated(s, alphas) && s.Admits(items)
    ensures Honest(s.Count0(items, d0), s.Count1(items, d1), 0, alphas, Hits(items, s.a))
    ensures Honest(s.Average0(items, d0), s.Average1(items, d1), 0, alphas, Hits(items, s.a))
    ensures Honest(s.Average0(items, d0), s.Average1(items, d1), |alphas|, alphas, Years(items, s.a))
    ensures Honest(s.Count1(items, d1), s.Count0(items, d0), 0, alphas, Hits(items, s.a))
    ensures Honest(s.Average1(items, d1), s.Average0(items, d0), 0, alphas, Hits(items, s.a))
    ensures Honest(s.Average1(items, d1), s.Average0(items, d0), |alphas|, alphas, Years(items, s.a))
  {
    hide Norm, Session.Totals0, Session.Totals1, Session.Admits, Carries, TargetValues;
    assert |TargetValues(alphas)| == |alphas|;
    HonestCounts(s, alphas, items, d0, d1);
    HonestAverages(s, alphas, items, d0, d1);
    AuthenticatedValid(s, alphas);
    forall j | 0 <= j < |alphas|
      ensures s.Totals0(items, d0).count[j] < MOD_P && s.Totals1(items, d1).count[j] < MOD_P
      ensures s.Totals0(items, d0).sum[j] < MOD_P && s.Totals1(items, d1).sum[j] < MOD_P
    {
      TallySums(s, items, d0, d1, j);
    }
    HonestSwap(s.Count0(items, d0), s.Count1(items, d1), 0, alphas, Hits(items, s.a));
    HonestSwap(s.Average0(items, d0), s.Average1(items, d1), 0, alphas, Hits(items, s.a));
    HonestSwap(s.Average0(items, d0), s.Average1(items, d1), |alphas|, alphas, Years(items, s.a));
  }

  lemma ShiftedSwap(y0: seq<u32>, y1: seq<u32>, from: nat, b: seq<u32>, v: int, err: seq<int>)
    ensures Shifted(y0, y1, from, b, v, err) <==> Shifted(y1, y0, from, b, v, err)
  {
    hide Norm;
  }

  lemma {:induction false} CountFromSwap(y0: seq<u32>, y1: seq<u32>, alphas: seq<u32>, n: nat, i: nat)
    requires 1 <= n == |alphas| && |y0| >= 1 && |y1| >= 1
    ensures CountFrom(y0, y1, alphas, n, i) == CountFrom(y1, y0, alphas, n, i)
    decreases n - i
  {
    hide Norm, Tag;
    if i < n - 1 {
      CountFromSwap(y0, y1, alphas, n, i + 1);
    }
  }

  /** Exchanging the two answers changes nothing as long as both or neither have 2n words. */
  lemma SidesSwap(y0: seq<u32>, y1: seq<u32>, alphas: seq<u32>, n: nat)
    requires 1 <= n == |alphas| && (|y0| == 2 * n <==> |y1| == 2 * n)
    ensures Decide(y0, y1, alphas, n) == Decide(y1, y0, alphas, n)
  {
    hide Norm, Tag, CountFrom, AverageFrom, AgreeFrom, Quotient, Sum;
    if |y0| == 2 * n {
      DecideExact(y0, y1, alphas, n);
      DecideExact(y1, y0, alphas, n);
      TagsSwap(y0, y1, alphas, 0, n);
      TagsSwap(y0, y1, alphas, n, n);
    } else if |y0| > 0 && |y1| > 0 {
      CountFromSwap(y0, y1, alphas, n, 0);
    }
  }

  lemma TagsSwap(y0: seq<u32>, y1: seq<u32>, alphas: seq<u32>, from: nat, n: nat)
    requires 1 <= n == |alphas| && from + n <= |y0| && from + n <= |y1|
    ensures TagsAgree(y0, y1, alphas, from, n) <==> TagsAgree(y1, y0, alphas, from, n)
    ensures Sum(y0, y1, from) == Sum(y1, y0, from)
  {
    hide Norm, Tag;
    forall i | 0 <= i < n - 1 ensures TagAgrees(y0, y1, alphas, from, i) <==> TagAgrees(y1, y0, alphas, from, i) {
      assert Sum(y0, y1, from) == Sum(y1, y0, from) && Sum(y0, y1, from + i + 1) == Sum(y1, y0, from + i + 1);
    }
  }

  function ZeroWords(m: nat): (z: seq<u32>)
    ensures |z| == m && forall j :: 0 <= j < m ==> z[j] == 0
  {
    seq(m, _ => 0)
  }

  lemma ZeroTags(p: nat, q: nat, alphas: seq<u32>, from: nat, n: nat)
    requires 1 <= n == |alphas| && from + n <= p && from + n <= q
    ensures TagsAgree(ZeroWords(p), ZeroWords(q), alphas, from, n)
    ensures Sum(ZeroWords(p), ZeroWords(q), from) == 0
  {
    WrapSmall(0);
    hide Wrap;
    forall i | 0 <= i < n - 1 ensures TagAgrees(ZeroWords(p), ZeroWords(q), alphas, from, i) {
      var alpha: int := alphas[i];
      assert 0 * alpha == 0;
    }
  }

  /** On all answers of two lengths from n on the decision is symmetric if and only if both or neither
      have 2n words: only the first answer's length chooses the branch. */
  lemma SidesSwapExact(p: nat, q: nat, n: nat)
    requires 1 <= n <= p && n <= q
    ensures (forall y0: seq<u32>, y1: seq<u32>, alphas: seq<u32> | |y0| == p && |y1| == q && |alphas| == n ::
               Decide(y0, y1, alphas, n) == Decide(y1, y0, alphas, n))
       <==> (p == 2 * n <==> q == 2 * n)
  {
    hide Decide, Sum, TagsAgree;
    if p == 2 * n <==> q == 2 * n {
      forall y0: seq<u32>, y1: seq<u32>, alphas: seq<u32> | |y0| == p && |y1| == q && |alphas| == n
        ensures Decide(y0, y1, alphas, n) == Decide(y1, y0, alphas, n)
      {
        SidesSwap(y0, y1, alphas, n);
      }
    } else {
      var long, other := 2 * n, if p == 2 * n then q else p;
      BranchesDiffer(other, n);
      assert Decide(ZeroWords(p), ZeroWords(q), ZeroWords(n), n) != Decide(ZeroWords(q), ZeroWords(p), ZeroWords(n), n);
    }
  }

  lemma BranchesDiffer(q: nat, n: nat)
    requires 1 <= n <= q && q != 2 * n
    ensures Decide(ZeroWords(2 * n), ZeroWords(q), ZeroWords(n), n)
         != Decide(ZeroWords(q), ZeroWords(2 * n), ZeroWords(n), n)
  {
    hide Decide, Sum, TagsAgree;
    var long, other, alphas := ZeroWords(2 * n), ZeroWords(q), ZeroWords(n);
    DecideExact(other, long, alphas, n);
    ZeroTags(q, 2 * n, alphas, 0, n);
    assert Decide(other, long, alphas, n) == Value(0);
    DecideExact(long, other, alphas, n);
    if q >= 2 * n {
      ZeroTags(2 * n, q, alphas, 0, n);
      ZeroTags(2 * n, q, alphas, n, n);
    }
  }

  /** The client's 32-bit sum of an honest word and a replaced one overflows. */
  predicate Overflows(y: u32, z: u32) {
    var sum: int := y;
    sum + z >= TWO32
  }

  lemma OverflowShifts(y: u32, z: u32)
    ensures Norm(Add(y, z)) == Norm(y + z - if Overflows(y, z) then 2 else 0)
    ensures Norm(Add(y, z)) == Norm(y + z) <==> !Overflows(y, z)
  {
    var sum: int := y;
    sum := sum + z;
    if sum >= TWO32 {
      ModShift(sum - TWO32, 1, 0x1_0000_0000);
      WrapSmall(sum - TWO32);
      NormShift(sum - TWO32);
      NormShift(sum - TWO32 + MOD_P);
      ModDifference(sum - 2, sum, MOD_P);
    } else {
      WrapSmall(sum);
    }
  }

  /** No honest share makes a replaced word overflow if and only if the word is below 2^31 + 2. */
  lemma OverflowExact(z: u32)
    ensures (forall y: u32 | y < MOD_P :: !Overflows(y, z)) <==> z < 0x8000_0002
  {
    if z >= 0x8000_0002 {
      assert Overflows(MOD_P - 1, z);
    }
  }

  /** The error of a replaced word: its distance from the honest one, less 2 on overflow. */
  function ErrorOf(y: u32, z: u32, overflow: bool): int {
    var e: int := z;
    e - y - if overflow then 2 else 0
  }

  function Errors(y1: seq<u32>, z1: seq<u32>, from: nat, w: seq<bool>): (r: seq<int>)
    requires from + |w| <= |y1| && from + |w| <= |z1|
    ensures |r| == |w|
  {
    seq(|w|, j requires 0 <= j < |w| => ErrorOf(y1[from + j], z1[from + j], w[j]))
  }

  /** Which of the first n sums overflow. */
  function Overflowing(y0: seq<u32>, z1: seq<u32>, n: nat): (w: seq<bool>)
    requires n <= |y0| && n <= |z1|
    ensures |w| == n
  {
    seq(n, j requires 0 <= j < n => Overflows(y0[j], z1[j]))
  }

  lemma WordReplaced(y0: u32, y1: u32, z: u32, v: int)
    requires y0 < MOD_P && y1 < MOD_P && Norm(Add(y0, y1)) == Norm(v)
    ensures Norm(Add(y0, z)) == Norm(v + ErrorOf(y1, z, Overflows(y0, z)))
  {
    hide Norm, Overflows;
    OverflowShifts(y0, z);
    var e := ErrorOf(y1, z, Overflows(y0, z));
    var sum: int := y0;
    sum := sum + y1;
    WrapSmall(sum);
    NormAdd(sum, e);
    NormAdd(v, e);
    assert sum + e == y0 + z - if Overflows(y0, z) then 2 else 0;
  }

  /** Honest answers with one side's words replaced are shifted by the errors of the replaced words. */
  lemma ReplacedShifted(other: seq<u32>, own: seq<u32>, z: seq<u32>, from: nat, alphas: seq<u32>, v: nat, w: seq<bool>)
    requires Honest(other, own, from, alphas, v) && |w| == |alphas| && from + |w| <= |z|
    requires from + |w| <= |other| && from + |w| <= |own|
    requires forall j :: 0 <= j < |w| ==> w[j] == Overflows(other[from + j], z[from + j])
    ensures Shifted(other, z, from, TargetValues(alphas), v, Errors(own, z, from, w))
  {
    hide Norm, Overflows, ErrorOf, TargetValues, Honest, Sum;
    HonestCanonical(other, own, from, alphas, v);
    var b := TargetValues(alphas);
    forall j | 0 <= j < |b| ensures Sum(other, z, from + j) == Norm(v * b[j] + Errors(own, z, from, w)[j]) {
      SumReplaced(other, own, z, from, alphas, v, j);
    }
  }

  lemma SumReplaced(other: seq<u32>, own: seq<u32>, z: seq<u32>, from: nat, alphas: seq<u32>, v: nat, j: nat)
    requires Honest(other, own, from, alphas, v) && j < |alphas| && from + |alphas| <= |z|
    ensures from + j < |other| && from + j < |own|
    ensures Sum(other, z, from + j)
         == Norm(v * TargetValues(alphas)[j]
                 + ErrorOf(own[from + j], z[from + j], Overflows(other[from + j], z[from + j])))
  {
    hide Norm, Overflows, ErrorOf, TargetValues;
    assert Sum(other, own, from + j) == Norm(v * TargetValues(alphas)[j]);
    WordReplaced(other[from + j], own[from + j], z[from + j], v * TargetValues(alphas)[j]);
  }

  /** The decision when server 0, or else server 1, sent z and the other server the other answer. */
  function Decided(first: bool, z: seq<u32>, other: seq<u32>, alphas: seq<u32>): Outcome
    requires |alphas| >= 1
  {
    if first then Decide(z, other, alphas, |alphas|) else Decide(other, z, alphas, |alphas|)
  }

  /** One server replaces its own honest answer to a count of v by z, of any length, and the client
      accepts another count. */
  predicate CountReplaced(first: bool, own: seq<u32>, z: seq<u32>, other: seq<u32>, alphas: seq<u32>, v: nat) {
    && |own| == |other| == |alphas| && Honest(other, own, 0, alphas, v)
    && Decided(first, z, other, alphas).Value? && Decided(first, z, other, alphas).v != Norm(v)
  }

  /** The replaced answer was read as a count, by its first words. */
  lemma CountReplacedParts(first: bool, own: seq<u32>, z: seq<u32>, other: seq<u32>, alphas: seq<u32>, v: nat)
    requires CountReplaced(first, own, z, other, alphas, v)
    ensures 1 <= |alphas| == |other| <= |z| && Canonical(alphas) && (first ==> |z| != 2 * |alphas|)
    ensures forall j :: 0 <= j < |other| ==> other[j] < MOD_P
  {
    hide Decide, Carries;
    if first {
      DecideExact(z, other, alphas, |alphas|);
    } else {
      DecideExact(other, z, alphas, |alphas|);
    }
  }

  ghost predicate CountFooled(first: bool, own: seq<u32>, z: seq<u32>, v: nat, k: seq<u32>, w: seq<bool>) {
    exists other: seq<u32> :: CountReplaced(first, own, z, other, k + [0], v) && |k| + 1 == |own| == |other| <= |z|
      && Overflowing(other, z, |own|) == w
  }

  lemma OneCountKey(keys: set<seq<u32>>, first: bool, own: seq<u32>, z: seq<u32>, v: nat, w: seq<bool>)
    requires |w| == |own| >= 1 && forall k :: k in keys ==> CountFooled(first, own, z, v, k, w)
    ensures |keys| <= 1
  {
    hide CountReplaced, Honest, TargetValues, Overflows, Shifted, FooledCount;
    if |z| < |own| {
      assert keys == {};
    } else {
      var err := Errors(own, z, 0, w);
      forall k | k in keys ensures |k| == |w| - 1 && exists a, b :: FooledCount(a, b, k + [0], v, err) {
        var other: seq<u32> :| CountReplaced(first, own, z, other, k + [0], v) && |k| + 1 == |own| == |other| <= |z|
          && Overflowing(other, z, |own|) == w;
        CountErrors(first, own, z, other, k + [0], v, w);
      }
      CountForgeries(keys, |w|, v, err);
    }
  }

  lemma CountErrors(first: bool, own: seq<u32>, z: seq<u32>, other: seq<u32>, alphas: seq<u32>, v: nat, w: seq<bool>)
    requires CountReplaced(first, own, z, other, alphas, v)
    requires |w| == |own| == |other| <= |z| && Overflowing(other, z, |own|) == w
    ensures if first then FooledCount(z, other, alphas, v, Errors(own, z, 0, w))
            else FooledCount(other, z, alphas, v, Errors(own, z, 0, w))
  {
    hide Decide, Honest, TargetValues, Overflows, Shifted;
    CountReplacedParts(first, own, z, other, alphas, v);
    assert forall j :: 0 <= j < |w| ==> Overflowing(other, z, |own|)[j] == Overflows(other[j], z[j]);
    ReplacedShifted(other, own, z, 0, alphas, v, w);
    ShiftedSwap(other, z, 0, TargetValues(alphas), v, Errors(own, z, 0, w));
  }

  lemma HonestCanonical(y0: seq<u32>, y1: seq<u32>, from: nat, alphas: seq<u32>, v: nat)
    requires Honest(y0, y1, from, alphas, v)
    ensures |alphas| >= 1 && Canonical(alphas) && from + |alphas| <= |y0| && from + |alphas| <= |y1|
    ensures forall j :: from <= j < from + |alphas| ==> y0[j] < MOD_P && y1[j] < MOD_P
  {
  }

  /** The key vectors under which a replaced answer to a count of v is accepted as another count. */
  ghost predicate CountForgery(keys: set<seq<u32>>, first: bool, own: seq<u32>, z: seq<u32>, v: nat) {
    forall k :: k in keys ==> |k| + 1 == |own| && exists other :: CountReplaced(first, own, z, other, k + [0], v)
  }

  /** Either server may replace its n words of a count by any answer of any length: the client accepts
      a wrong count under at most 2^n vectors of MAC keys, and under at most one if the replaced words
      are below 2^31 + 2. */
  lemma ReplacedCountForgeries(keys: set<seq<u32>>, first: bool, own: seq<u32>, z: seq<u32>, v: nat)
    requires |own| >= 1 && CountForgery(keys, first, own, z, v)
    ensures |keys| <= Pow(2, |own|)
    ensures (forall j :: 0 <= j < |own| && j < |z| ==> z[j] < 0x8000_0002) ==> |keys| <= 1
  {
    hide CountReplaced, Overflows;
    var n := |own|;
    var inClass := (k: seq<u32>, w: seq<bool>) => CountFooled(first, own, z, v, k, w);
    forall k | k in keys ensures exists w :: |w| == n && inClass(k, w) {
      var other :| CountReplaced(first, own, z, other, k + [0], v);
      CountReplacedParts(first, own, z, other, k + [0], v);
      assert inClass(k, Overflowing(other, z, n));
    }
    forall w | |w| == n ensures |Class(keys, inClass, w)| <= 1 {
      OneCountKey(Class(keys, inClass, w), first, own, z, v, w);
    }
    PatternBound(keys, n, inClass, 1);
    if forall j :: 0 <= j < n && j < |z| ==> z[j] < 0x8000_0002 {
      var none := seq(n, _ => false);
      forall k | k in keys ensures CountFooled(first, own, z, v, k, none) {
        var other :| CountReplaced(first, own, z, other, k + [0], v);
        CountReplacedParts(first, own, z, other, k + [0], v);
        NoOverflow(other, z, n);
      }
      OneCountKey(keys, first, own, z, v, none);
    }
  }

  lemma NoOverflow(other: seq<u32>, z: seq<u32>, n: nat)
    requires n <= |other| && n <= |z|
    requires forall j :: 0 <= j < n ==> other[j] < MOD_P && z[j] < 0x8000_0002
    ensures Overflowing(other, z, n) == seq(n, _ => false)
  {
    hide Overflows;
    forall j | 0 <= j < n ensures !Overflows(other[j], z[j]) {
      OverflowExact(z[j]);
    }
  }

  // ---------- replaced averages ----------

  /** One server replaces its own honest answer to an average by z, of any length, and the client
      accepts what is not the average. */
  predicate AverageReplaced(first: bool, own: seq<u32>, z: seq<u32>, other: seq<u32>, alphas: seq<u32>,
                            hits: nat, years: nat) {
    && |own| == |other| == 2 * |alphas|
    && Honest(other, own, 0, alphas, hits) && Honest(other, own, |alphas|, alphas, years)
    && Decided(first, z, other, alphas).Value?
    && Decided(first, z, other, alphas) != Quotient(Norm(years), Norm(hits))
  }

  lemma AverageReplacedParts(first: bool, own: seq<u32>, z: seq<u32>, other: seq<u32>, alphas: seq<u32>,
                             hits: nat, years: nat)
    requires AverageReplaced(first, own, z, other, alphas, hits, years)
    ensures 1 <= |alphas| && |other| == 2 * |alphas| && Canonical(alphas)
    ensures |alphas| <= |z| && (!first ==> 2 * |alphas| <= |z|)
    ensures forall j :: 0 <= j < |other| ==> other[j] < MOD_P
  {
    hide Decide, Carries, Quotient;
    if first {
      DecideExact(z, other, alphas, |alphas|);
    } else {
      DecideExact(other, z, alphas, |alphas|);
    }
  }

  ghost predicate AverageFooled(first: bool, own: seq<u32>, z: seq<u32>, hits: nat, years: nat, k: seq<u32>,
                                w: seq<bool>) {
    exists other: seq<u32> ::
      AverageReplaced(first, own, z, other, k + [0], hits, years) && 2 * (|k| + 1) == |own| == |other| <= |z|
      && Overflowing(other, z, |own|) == w
  }

  lemma OneAverageKey(keys: set<seq<u32>>, n: nat, first: bool, own: seq<u32>, z: seq<u32>, hits: nat, years: nat,
                      w: seq<bool>)
    requires n >= 1 && |w| == |own| == 2 * n && (first ==> |z| == 2 * n)
    requires forall k :: k in keys ==> AverageFooled(first, own, z, hits, years, k, w)
    ensures |keys| <= 1
  {
    hide AverageReplaced, Honest, TargetValues, Overflows, Shifted, FooledAverage, Quotient;
    if |z| < 2 * n {
      assert keys == {};
    } else {
      var errCount, errSum := Errors(own, z, 0, w[..n]), Errors(own, z, n, w[n..]);
      forall k | k in keys
        ensures |k| == n - 1 && exists a, b :: FooledAverage(a, b, k + [0], hits, years, errCount, errSum)
      {
        var other: seq<u32> :|
          AverageReplaced(first, own, z, other, k + [0], hits, years) && 2 * (|k| + 1) == |own| == |other| <= |z|
          && Overflowing(other, z, |own|) == w;
        AverageErrors(first, own, z, other, k + [0], hits, years, w);
      }
      AverageForgeries(keys, n, hits, years, errCount, errSum);
    }
  }

  lemma AverageErrors(first: bool, own: seq<u32>, z: seq<u32>, other: seq<u32>, alphas: seq<u32>,
                      hits: nat, years: nat, w: seq<bool>)
    requires AverageReplaced(first, own, z, other, alphas, hits, years)
    requires |w| == |own| == |other| <= |z| && (first ==> |z| == |w|) && Overflowing(other, z, |own|) == w
    ensures |w| == 2 * |alphas|
    ensures var n := |alphas|;
            var errCount, errSum := Errors(own, z, 0, w[..n]), Errors(own, z, n, w[n..]);
            if first then FooledAverage(z, other, alphas, hits, years, errCount, errSum)
            else FooledAverage(other, z, alphas, hits, years, errCount, errSum)
  {
    hide Decide, Honest, TargetValues, Overflows, Quotient, Shifted;
    AverageReplacedParts(first, own, z, other, alphas, hits, years);
    assert forall j :: 0 <= j < |w| ==> Overflowing(other, z, |own|)[j] == Overflows(other[j], z[j]);
    BothShifted(other, own, z, alphas, hits, years, w);
  }

  lemma BothShifted(other: seq<u32>, own: seq<u32>, z: seq<u32>, alphas: seq<u32>, hits: nat, years: nat, w: seq<bool>)
    requires |w| == 2 * |alphas| && |w| <= |z| && |w| <= |other| && |w| <= |own|
    requires Honest(other, own, 0, alphas, hits) && Honest(other, own, |alphas|, alphas, years)
    requires forall j :: 0 <= j < |w| ==> w[j] == Overflows(other[j], z[j])
    ensures |alphas| >= 1
    ensures var n, b := |alphas|, TargetValues(alphas);
            && Shifted(other, z, 0, b, hits, Errors(own, z, 0, w[..n]))
            && Shifted(z, other, 0, b, hits, Errors(own, z, 0, w[..n]))
            && Shifted(other, z, n, b, years, Errors(own, z, n, w[n..]))
            && Shifted(z, other, n, b, years, Errors(own, z, n, w[n..]))
  {
    hide Overflows, Shifted, TargetValues, Honest;
    HonestCanonical(other, own, 0, alphas, hits);
    var n, b := |alphas|, TargetValues(alphas);
    ReplacedShifted(other, own, z, 0, alphas, hits, w[..n]);
    ReplacedShifted(other, own, z, n, alphas, years, w[n..]);
    ShiftedSwap(other, z, 0, b, hits, Errors(own, z, 0, w[..n]));
    ShiftedSwap(other, z, n, b, years, Errors(own, z, n, w[n..]));
  }

  ghost predicate AverageForgery(keys: set<seq<u32>>, first: bool, own: seq<u32>, z: seq<u32>, hits: nat, years: nat) {
    forall k :: k in keys ==>
      2 * (|k| + 1) == |own| && exists other :: AverageReplaced(first, own, z, other, k + [0], hits, years)
  }

  /** The same for an average: at most 2^(2n) key vectors for answers of 2n words, at most one if the
      replaced words are below 2^31 + 2. Server 1's answer may have any length, server 0's 2n words or
      fewer than n. */
  lemma ReplacedAverageForgeries(keys: set<seq<u32>>, n: nat, first: bool, own: seq<u32>, z: seq<u32>,
                                 hits: nat, years: nat)
    requires n >= 1 && |own| == 2 * n && AverageForgery(keys, first, own, z, hits, years)
    requires first ==> |z| == 2 * n || |z| < n
    ensures |keys| <= Pow(2, 2 * n)
    ensures (forall j :: 0 <= j < 2 * n && j < |z| ==> z[j] < 0x8000_0002) ==> |keys| <= 1
  {
    hide AverageReplaced, Overflows;
    forall k | k in keys ensures 2 * n <= |z| {
      var other :| AverageReplaced(first, own, z, other, k + [0], hits, years);
      AverageReplacedParts(first, own, z, other, k + [0], hits, years);
    }
    if keys != {} {
      var k :| k in keys;
      assert 2 * n <= |z|;
      LongAverageForgeries(keys, n, first, own, z, hits, years);
    }
  }

  lemma LongAverageForgeries(keys: set<seq<u32>>, n: nat, first: bool, own: seq<u32>, z: seq<u32>,
                             hits: nat, years: nat)
    requires n >= 1 && |own| == 2 * n <= |z| && AverageForgery(keys, first, own, z, hits, years)
    requires first ==> |z| == 2 * n
    ensures |keys| <= Pow(2, 2 * n)
    ensures (forall j :: 0 <= j < 2 * n ==> z[j] < 0x8000_0002) ==> |keys| <= 1
  {
    hide AverageReplaced, Overflows;
    var inClass := (k: seq<u32>, w: seq<bool>) => AverageFooled(first, own, z, hits, years, k, w);
    forall k | k in keys ensures exists w :: |w| == 2 * n && inClass(k, w) {
      var other :| AverageReplaced(first, own, z, other, k + [0], hits, years);
      AverageReplacedParts(first, own, z, other, k + [0], hits, years);
      assert inClass(k, Overflowing(other, z, 2 * n));
    }
    forall w | |w| == 2 * n ensures |Class(keys, inClass, w)| <= 1 {
      OneAverageKey(Class(keys, inClass, w), n, first, own, z, hits, years, w);
    }
    PatternBound(keys, 2 * n, inClass, 1);
    if forall j :: 0 <= j < 2 * n ==> z[j] < 0x8000_0002 {
      var none := seq(2 * n, _ => false);
      forall k | k in keys ensures AverageFooled(first, own, z, hits, years, k, none) {
        var other :| AverageReplaced(first, own, z, other, k + [0], hits, years);
        AverageReplacedParts(first, own, z, other, k + [0], hits, years);
        NoOverflow(other, z, 2 * n);
      }
      OneAverageKey(keys, n, first, own, z, hits, years, none);
    }
  }

  // ---------- an average answered like a count ----------

  /** If server 0 cuts its honest answer to an average query after the count half, the client takes the
      count branch and returns the count, under every vector of MAC keys. */
  lemma TruncatedAverage(s: Session, alphas: seq<u32>, items: seq<Item>, d0: nat -> Draws, d1: nat -> Draws)
    requires Authenticated(s, alphas) && s.Admits(items)
    ensures Decide(s.Average0(items, d0)[..|alphas|], s.Average1(items, d1), alphas, |alphas|)
         == Value(Norm(Hits(items, s.a)))
  {
    hide Norm, Session.Average0, Session.Average1, Session.Admits, TagsAgree, Decide, Sum, TargetValues;
    HonestAverages(s, alphas, items, d0, d1);
    var y0, y1, n := s.Average0(items, d0), s.Average1(items, d1), |alphas|;
    CarriesPrefix(y0, y1, n, s.b, Hits(items, s.a));
    CarriedTags(y0[..n], y1, 0, alphas, Hits(items, s.a));
    DecideExact(y0[..n], y1, alphas, n);
  }

  lemma CarriesPrefix(y0: seq<u32>, y1: seq<u32>, n: nat, b: seq<u32>, v: nat)
    requires |b| == n <= |y0| && Carries(y0, y1, 0, b, v)
    ensures Carries(y0[..n], y1, 0, b, v)
  {
    hide Norm;
    forall j | 0 <= j < n ensures Sum(y0[..n], y1, 0 + j) == Norm(v * b[j]) {
      assert Sum(y0, y1, 0 + j) == Norm(v * b[j]);
    }
  }

  /** The words that carry v alone: their sums with zeros. */
  function Carrying(b: seq<u32>, v: nat): (y: seq<u32>)
    ensures |y| == |b| && forall j :: 0 <= j < |y| ==> y[j] < MOD_P
  {
    seq<u32>(|b|, j requires 0 <= j < |b| => Norm(v * b[j]))
  }

  lemma ZeroCarried(z: seq<u32>, y: seq<u32>, from: nat, b: seq<u32>, v: nat)
    requires from + |b| <= |z| && from + |b| <= |y|
    requires forall j :: 0 <= j < |b| ==> z[from + j] == 0 && y[from + j] == Norm(v * b[j])
    ensures Carries(y, z, from, b, v) && Carries(z, y, from, b, v)
  {
    hide Norm;
    forall j | 0 <= j < |b|
      ensures Sum(y, z, from + j) == Norm(v * b[j]) && Sum(z, y, from + j) == Norm(v * b[j])
    {
      WrapSmall(Norm(v * b[j]));
      NormSmall(Norm(v * b[j]));
    }
  }

  /** With an answer of another length from n words on, the zero answer is a forgery under any key
      vector: the client returns the count where the average differs from it. */
  lemma EveryKeyFooled(n: nat, m: nat, hits: nat, years: nat, k: seq<u32>)
    requires 1 <= n <= m && m != 2 * n && |k| + 1 == n && Canonical(k)
    requires Quotient(Norm(years), Norm(hits)) != Value(Norm(hits))
    ensures exists other :: AverageReplaced(true, ZeroWords(2 * n), ZeroWords(m), other, k + [0], hits, years)
  {
    hide Norm, Quotient, Decide, TargetValues, Sum, TagsAgree;
    var alphas := k + [0];
    var b := TargetValues(alphas);
    var c, y := Carrying(b, hits), Carrying(b, years);
    var other, own, z := c + y, ZeroWords(2 * n), ZeroWords(m);
    ZeroCarried(own, other, 0, b, hits);
    ZeroCarried(own, other, n, b, years);
    ZeroCarried(z, other, 0, b, hits);
    CarriedTags(z, other, 0, alphas, hits);
    DecideExact(z, other, alphas, n);
    assert AverageReplaced(true, own, z, other, alphas, hits, years);
  }

  /** Exactly when average integrity holds against server 0: with count and quotient apart, the bound
      holds for all forgeries with answers of m words if and only if m is 2n or below n. */
  lemma AverageGuardExact(n: nat, m: nat, hits: nat, years: nat)
    requires n >= 2 && Quotient(Norm(years), Norm(hits)) != Value(Norm(hits))
    ensures (forall keys, own, z | |own| == 2 * n && |z| == m && AverageForgery(keys, true, own, z, hits, years) ::
               |keys| <= Pow(2, 2 * n))
       <==> m == 2 * n || m < n
  {
    hide Norm, Quotient, AverageForgery, Pow, WordsFrom, Vectors;
    if m == 2 * n || m < n {
      forall keys, own, z | |own| == 2 * n && |z| == m && AverageForgery(keys, true, own, z, hits, years)
        ensures |keys| <= Pow(2, 2 * n)
      {
        ReplacedAverageForgeries(keys, n, true, own, z, hits, years);
      }
    } else {
      var small := WordsFrom(0, 32);
      var keys := Vectors(small, n - 1);
      VectorsSize(small, n - 1);
      ManyKeys(n);
      SmallKeysFooled(keys, small, n, m, hits, years);
      assert AverageForgery(keys, true, ZeroWords(2 * n), ZeroWords(m), hits, years);
    }
  }

  lemma SmallKeysFooled(keys: set<seq<u32>>, alphabet: set<u32>, n: nat, m: nat, hits: nat, years: nat)
    requires 2 <= n <= m && m != 2 * n && Quotient(Norm(years), Norm(hits)) != Value(Norm(hits))
    requires keys == Vectors(alphabet, n - 1) && forall x :: x in alphabet ==> x < MOD_P
    ensures AverageForgery(keys, true, ZeroWords(2 * n), ZeroWords(m), hits, years)
  {
    hide AverageReplaced, Vectors, Norm, Quotient;
    var own, z := ZeroWords(2 * n), ZeroWords(m);
    forall k | k in keys
      ensures |k| + 1 == n && exists other :: AverageReplaced(true, own, z, other, k + [0], hits, years)
    {
      VectorsAll(alphabet, n - 1, k);
      EveryKeyFooled(n, m, hits, years, k);
    }
  }

  lemma {:induction false} ManyKeys(n: nat)
    requires n >= 2
    ensures Pow(32, n - 1) > Pow(2, 2 * n)
  {
    if n == 2 {
      assert Pow(32, 1) == 32 && Pow(2, 2) == 4 && Pow(2, 4) == 4 * Pow(2, 2);
    } else {
      ManyKeys(n - 1);
      assert Pow(2, 2 * n) == 2 * Pow(2, 2 * n - 1) && Pow(2, 2 * n - 1) == 2 * Pow(2, 2 * n - 2);
    }
  }

  // ---------- answers that depend on the key ----------

  /** What both keys show of a client's MAC keys. */
  function ShownKeys(k: seq<u32>, negated: bool): seq<u32>
    requires Canonical(k)
  {
    CanonicalTargets(k);
    Shown(TargetValues(k + [0]), negated)
  }

  lemma CanonicalTargets(k: seq<u32>)
    requires Canonical(k)
    ensures Canonical(k + [0]) && Canonical(TargetValues(k + [0]))
  {
    var b := TargetValues(k + [0]);
    forall j | 0 <= j < |b| ensures b[j] < MOD_P {
      if j > 0 {
        assert b[(j - 1) + 1] == (k + [0])[j - 1];
      }
    }
  }

  /** The keys that show the same words. */
  ghost function Showing(keys: set<seq<u32>>, negated: bool, f: seq<u32>): set<seq<u32>> {
    set k | k in keys && Canonical(k) && ShownKeys(k, negated) == f
  }

  lemma ShownBound(keys: set<seq<u32>>, n: nat, negated: bool, m: nat)
    requires n >= 1 && forall k :: k in keys ==> |k| + 1 == n && Canonical(k)
    requires forall f :: |Showing(keys, negated, f)| <= m
    ensures |keys| <= Pow(MOD_P, n - Unmasked(n)) * m
  {
    hide ShownKeys, Vectors, Pow, Unmasked, Covered, Small, WordsFrom, Canonical;
    var inClass := (k: seq<u32>, f: seq<u32>) => Canonical(k) && ShownKeys(k, negated) == f;
    var p := Vectors(ShownWords(negated), n - Unmasked(n));
    assert Covered(keys, p, inClass) by {
      ShownCovered(keys, n, negated, inClass);
    }
    assert Small(keys, p, inClass, m) by {
      ShownSmall(keys, p, negated, m, inClass);
    }
    ClassesBound(keys, p, inClass, m);
    VectorsSize(ShownWords(negated), n - Unmasked(n));
  }

  lemma ShownCovered(keys: set<seq<u32>>, n: nat, negated: bool, inClass: (seq<u32>, seq<u32>) -> bool)
    requires n >= 1 && forall k :: k in keys ==> |k| + 1 == n && Canonical(k)
    requires forall k: seq<u32> | Canonical(k) :: inClass(k, ShownKeys(k, negated))
    ensures Covered(keys, Vectors(ShownWords(negated), n - Unmasked(n)), inClass)
  {
    hide ShownKeys, Vectors, Unmasked, ShownWords, WordsFrom, Canonical;
    var p := Vectors(ShownWords(negated), n - Unmasked(n));
    forall k | k in keys ensures exists f :: f in p && inClass(k, f) {
      ShownInside(k, negated);
      VectorsAll(ShownWords(negated), n - Unmasked(n), ShownKeys(k, negated));
    }
  }

  lemma ShownSmall(keys: set<seq<u32>>, p: set<seq<u32>>, negated: bool, m: nat,
                   inClass: (seq<u32>, seq<u32>) -> bool)
    requires forall f :: |Showing(keys, negated, f)| <= m
    requires forall k: seq<u32>, f :: inClass(k, f) <==> Canonical(k) && ShownKeys(k, negated) == f
    ensures Small(keys, p, inClass, m)
  {
    hide ShownKeys, Canonical;
    forall f | f in p ensures |Class(keys, inClass, f)| <= m {
      assert Class(keys, inClass, f) == Showing(keys, negated, f);
    }
  }

  /** The words a key can show: the field, or 1 to the modulus when negated. */
  function ShownWords(negated: bool): (s: set<u32>) {
    WordsFrom(if negated then 1 else 0, MOD_P)
  }

  lemma ShownInside(k: seq<u32>, negated: bool)
    requires Canonical(k)
    ensures |ShownKeys(k, negated)| == |k| + 1 - Unmasked(|k| + 1)
    ensures forall i :: 0 <= i < |ShownKeys(k, negated)| ==> ShownKeys(k, negated)[i] in ShownWords(negated)
  {
    hide Unmasked, TargetValues, WordsFrom;
    CanonicalTargets(k);
  }

  /** Even when a server's answers are any functions of the words its key shows, at most 2^n key vectors
      let a wrong count through for each value shown, so at most MOD_P^e 2^n of the MOD_P^(n - 1), where e is
      the number of words shown. */
  lemma AdaptiveCountForgeries(keys: set<seq<u32>>, n: nat, first: bool, negated: bool,
                               own: seq<u32> -> seq<u32>, z: seq<u32> -> seq<u32>, v: nat)
    requires n >= 1 && forall k :: k in keys ==>
               |k| + 1 == n && Canonical(k) && exists other ::
                 CountReplaced(first, own(ShownKeys(k, negated)), z(ShownKeys(k, negated)), other, k + [0], v)
    ensures forall f :: |Showing(keys, negated, f)| <= Pow(2, n)
    ensures |keys| <= Pow(MOD_P, n - Unmasked(n)) * Pow(2, n)
  {
    hide CountReplaced, ShownKeys, Pow;
    forall f ensures |Showing(keys, negated, f)| <= Pow(2, n) {
      var same := Showing(keys, negated, f);
      if same != {} {
        forall k | k in same
          ensures |k| + 1 == |own(f)| && exists other :: CountReplaced(first, own(f), z(f), other, k + [0], v)
        {
          var other :| CountReplaced(first, own(f), z(f), other, k + [0], v);
          CountReplacedLength(first, own(f), z(f), other, k + [0], v);
        }
        var k :| k in same;
        ReplacedCountForgeries(same, first, own(f), z(f), v);
      }
    }
    ShownBound(keys, n, negated, Pow(2, n));
  }

  lemma CountReplacedLength(first: bool, own: seq<u32>, z: seq<u32>, other: seq<u32>, alphas: seq<u32>, v: nat)
    requires CountReplaced(first, own, z, other, alphas, v)
    ensures |own| == |alphas|
  {
    hide Decided, Honest;
  }

  lemma AverageReplacedLength(first: bool, own: seq<u32>, z: seq<u32>, other: seq<u32>, alphas: seq<u32>,
                              hits: nat, years: nat)
    requires AverageReplaced(first, own, z, other, alphas, hits, years)
    ensures |own| == 2 * |alphas|
  {
    hide Decided, Honest, Quotient;
  }

  /** The same for averages, when server 0's answer has 2n words or fewer than n. */
  lemma AdaptiveAverageForgeries(keys: set<seq<u32>>, n: nat, first: bool, negated: bool,
                                 own: seq<u32> -> seq<u32>, z: seq<u32> -> seq<u32>, hits: nat, years: nat)
    requires n >= 1 && forall k :: k in keys ==>
               |k| + 1 == n && Canonical(k) &&
               (first ==> |z(ShownKeys(k, negated))| == 2 * n || |z(ShownKeys(k, negated))| < n) && exists other ::
                 AverageReplaced(first, own(ShownKeys(k, negated)), z(ShownKeys(k, negated)), other, k + [0],
                                 hits, years)
    ensures forall f :: |Showing(keys, negated, f)| <= Pow(2, 2 * n)
    ensures |keys| <= Pow(MOD_P, n - Unmasked(n)) * Pow(2, 2 * n)
  {
    hide AverageReplaced, ShownKeys, Pow;
    forall f ensures |Showing(keys, negated, f)| <= Pow(2, 2 * n) {
      var same := Showing(keys, negated, f);
      if same != {} {
        forall k | k in same
          ensures 2 * (|k| + 1) == |own(f)|
          ensures exists other :: AverageReplaced(first, own(f), z(f), other, k + [0], hits, years)
        {
          var other :| AverageReplaced(first, own(f), z(f), other, k + [0], hits, years);
          AverageReplacedLength(first, own(f), z(f), other, k + [0], hits, years);
        }
        var k :| k in same;
        ReplacedAverageForgeries(same, n, first, own(f), z(f), hits, years);
      }
    }
    ShownBound(keys, n, negated, Pow(2, 2 * n));
  }

  // ---------- runs ----------

  /** The random source draws these keys. */
  ghost predicate DrawnBy(rnd: nat -> Element, k: seq<u32>) {
    forall i :: 0 <= i < |k| ==> rnd(i) == k[i]
  }

  lemma DrawnKeys(rnd: nat -> Element, k: seq<u32>)
    requires DrawnBy(rnd, k)
    ensures MacKeys(rnd, |k| + 1) == k + [0]
  {
  }

  /** There are MOD_P^(n - 1) vectors a client of n words can draw, each by some source. */
  lemma DrawsCount(n: nat) returns (all: set<seq<u32>>)
    requires n >= 1
    ensures |all| == Pow(MOD_P, n - 1)
    ensures forall k :: k in all <==> |k| == n - 1 && Canonical(k)
    ensures forall k :: k in all ==> exists rnd :: DrawnBy(rnd, k)
  {
    hide WordsFrom, Vectors, Pow;
    var field := WordsFrom(0, MOD_P);
    all := Vectors(field, n - 1);
    VectorsSize(field, n - 1);
    forall k: seq<u32> ensures k in all <==> |k| == n - 1 && Canonical(k) {
      VectorsAll(field, n - 1, k);
    }
    forall k | k in all ensures exists rnd :: DrawnBy(rnd, k) {
      assert DrawnBy(Listing(k), k);
    }
  }

  /** A whole run in which one server sends z instead of its own answer: the client decides on z and the
      other server's answer with the keys it drew. It accepts a wrong result exactly when the replacement
      is a forgery under those keys. */
  method RetrieveReplaced(client: Client, s0: Server, s1: Server, info: Info, a: seq<bool>, now: int,
                          rnd: nat -> Element, rand0: seq<byte>, rand1: Block, g0: Draws,
                          g1: Draws, d0: nat -> Draws, d1: nat -> Draws,
                          ghost s: Session, ghost items: seq<Item>, first: bool, z: seq<u32>) returns (r: Outcome)
    requires |rand0| == 17 && client.executions >= 1
    requires s == SessionOf(client.fss.cipher, a, rnd, client.executions, rand0, rand1, g0, g1)
    requires Together(client, s0, s1, info, s, items, now)
    modifies client, client.fss.Repr(), s0.fss.Repr(), s1.fss.Repr()
    ensures s.Admits(items)
    ensures var y0, y1 := Answer0(s, info.avg, items, d0), Answer1(s, info.avg, items, d1);
            var own, other := if first then y0 else y1, if first then y1 else y0;
            var alphas, hits, years := MacKeys(rnd, client.executions), Hits(items, a), Years(items, a);
            && r == Decided(first, z, other, alphas)
            && (!info.avg ==> (CountReplaced(first, own, z, other, alphas, hits) <==> r.Value? && r.v != Norm(hits)))
            && (info.avg ==> (AverageReplaced(first, own, z, other, alphas, hits, years)
                              <==> (r.Value? && r != Quotient(Norm(years), Norm(hits)))))
  {
    hide Decide, MacKeys, Norm, Quotient, Session.Admits, Honest, Together, Session.Count0, Session.Count1,
         Session.Average0, Session.Average1;
    var y0, y1 := Exchange(client, s0, s1, info, a, now, rnd, rand0, rand1, g0, g1, d0, d1, s, items);
    HonestRun(s, client.alphas, items, d0, d1);
    if first {
      r := client.Reconstruct(z, y1);
    } else {
      r := client.Reconstruct(y0, z);
    }
  }

  /** Over the keys a client draws: whichever server replaces its own n words of a count, there are at most
      2^n vectors of draws for which some run ends in a wrong count, and at most one if the replaced words
      are below 2^31 + 2. */
  lemma DrawnCountForgeries(keys: set<seq<u32>>, first: bool, own: seq<u32>, z: seq<u32>, v: nat)
    requires |own| >= 1
    requires forall k :: k in keys ==>
               |k| + 1 == |own| && exists rnd, other ::
                 DrawnBy(rnd, k) && CountReplaced(first, own, z, other, MacKeys(rnd, |own|), v)
    ensures |keys| <= Pow(2, |own|)
    ensures (forall j :: 0 <= j < |own| && j < |z| ==> z[j] < 0x8000_0002) ==> |keys| <= 1
  {
    hide CountReplaced, MacKeys, Pow;
    forall k | k in keys ensures exists other :: CountReplaced(first, own, z, other, k + [0], v) {
      var rnd, other :| DrawnBy(rnd, k) && CountReplaced(first, own, z, other, MacKeys(rnd, |own|), v);
      DrawnKeys(rnd, k);
    }
    ReplacedCountForgeries(keys, first, own, z, v);
  }

  /** The same for averages of 2n words, under the guard of the average branch. */
  lemma DrawnAverageForgeries(keys: set<seq<u32>>, n: nat, first: bool, own: seq<u32>, z: seq<u32>,
                              hits: nat, years: nat)
    requires n >= 1 && |own| == 2 * n && (first ==> |z| == 2 * n || |z| < n)
    requires forall k :: k in keys ==>
               |k| + 1 == n && exists rnd, other ::
                 DrawnBy(rnd, k) && AverageReplaced(first, own, z, other, MacKeys(rnd, n), hits, years)
    ensures |keys| <= Pow(2, 2 * n)
    ensures (forall j :: 0 <= j < 2 * n && j < |z| ==> z[j] < 0x8000_0002) ==> |keys| <= 1
  {
    hide AverageReplaced, MacKeys, Pow;
    forall k | k in keys ensures exists other :: AverageReplaced(first, own, z, other, k + [0], hits, years) {
      var rnd, other :| DrawnBy(rnd, k) && AverageReplaced(first, own, z, other, MacKeys(rnd, n), hits, years);
      DrawnKeys(rnd, k);
    }
    ReplacedAverageForgeries(keys, n, first, own, z, hits, years);
  }
}
