/** Integrity of the amplified scheme: how many vectors of scalars let fixed offsets on the answers of
    all repetitions turn the result into the other bit. */
module AmplifyIntegrity {
  import opened Words
  import opened ModArith
  import opened Counting
  import opened MatrixAlgebra
  import opened Matrices
  import opened LweDecode
  import opened Ecc
  import opened Amplify
  import Lwe

  /** One repetition without its scalar: noise, wanted row and the offset on each column. */
  datatype Run = Run(noise: seq<int>, bits: seq<u32>, offsets: seq<int>) {
    predicate Has(j: nat, bit: u32) {
      |noise| == |bits| == |offsets| && j < |bits| && bits[j] == bit && bit <= 1
    }

    /** The words the client decodes: the honest ones with the offsets added. */
    function Received(t: u32): (vs: seq<u32>)
      requires |noise| == |bits| == |offsets|
      ensures |vs| == |bits|
    {
      seq<u32>(|bits|, c requires 0 <= c < |bits| => Wrap(Honest(noise[c], bits[c], t) + offsets[c]))
    }

    /** The word of column c is rejected. */
    predicate Stray(t: u32, bound: u32, c: nat)
      requires c < |noise| && c < |bits| && c < |offsets|
    {
      DecodeWord(Wrap(noise[c] + bits[c] * t + offsets[c]), t, bound) == Reject
    }

    /** Noise and offset together leave the range, so the entry cannot decode to its own bit. */
    predicate Disturbed(j: nat, bound: u32)
      requires j < |noise| && j < |offsets|
    {
      !InRange(Wrap(noise[j] + offsets[j]), bound)
    }
  }

  /** The repetition of a query for row i of a bit matrix with an error row. */
  function RunOf(d: Mat, e: seq<int>, i: nat, offsets: seq<int>): (run: Run)
    requires Lwe.BitMatrix(d) && i < d.rows && |e| == d.rows && |offsets| == d.cols
    ensures |run.noise| == |run.bits| == |run.offsets| == d.cols
  {
    Run(seq(d.cols, c requires 0 <= c < d.cols => Lwe.Noise(e, d, c, |e|)),
        seq<u32>(d.cols, c requires 0 <= c < d.cols => EntryBit(d, i, c)), offsets)
  }

  function EntryBit(d: Mat, i: nat, c: nat): u32 {
    if d.At(i, c) == 1 then 1 else 0
  }

  /** What a client decodes when offsets are added to the honest answer: the words of that run. */
  lemma OffsetAnswer(s: Mat, a: Mat, d: Mat, e: seq<int>, i: nat, t: u32, offsets: seq<int>, c: nat)
    requires s.rows == 1 && s.cols == a.rows && a.cols == d.rows == |e| && i < d.rows
    requires Lwe.BitMatrix(d) && |offsets| == d.cols && c < d.cols
    ensures var answer := Product(Lwe.QueryMat(Product(s, a), e, i, t), d).At(0, c);
            Wrap(Wrap(answer + offsets[c]) - Product(s, Product(a, d)).At(0, c))
              == RunOf(d, e, i, offsets).Received(t)[c]
  {
    hide Wrap, Product, Lwe.QueryMat, Lwe.Noise, Mat.At;
    Lwe.BitAtEntry(d, i, c);
    Lwe.HonestWord(s, a, d, e, i, t, c);
    var answer, sd := Product(Lwe.QueryMat(Product(s, a), e, i, t), d).At(0, c), Product(s, Product(a, d)).At(0, c);
    WrapAdd(answer + offsets[c], -sd);
    WrapAdd(answer - sd, offsets[c]);
    assert answer + offsets[c] + -sd == answer - sd + offsets[c];
  }

  /** A run rejects exactly when some column's word, asked for or not, is explained by no noise below the
      bound, with or without the scalar. */
  lemma VerdictRejects(run: Run, t: u32, bound: u32, j: nat)
    requires |run.noise| == |run.bits| == |run.offsets| && j < |run.bits|
    ensures Verdict(run, t, bound, j) == Reject
       <==> exists c :: 0 <= c < |run.bits| && run.Stray(t, bound, c)
  {
    hide Wrap, DecodeWord;
    forall c | 0 <= c < |run.bits|
      ensures run.Stray(t, bound, c) <==> DecodeWord(run.Received(t)[c], t, bound) == Reject
    {
      WrapAdd(run.noise[c] + run.bits[c] * t, run.offsets[c]);
    }
  }

  /** For quiet noise: one column whose offset, and whose offset moved by the scalar towards the other bit,
      separate makes the run reject. */
  lemma OffsetRejects(run: Run, t: u32, bound: u32, j: nat, c: nat)
    requires |run.noise| == |run.bits| == |run.offsets| && j < |run.bits| && c < |run.bits| && run.bits[c] <= 1
    requires bound >= 1 && Below(run.noise[c], bound) && Separates(Wrap(run.offsets[c]), bound)
    requires Separates(Wrap(if run.bits[c] == 1 then run.offsets[c] + t else run.offsets[c] - t), bound)
    ensures Verdict(run, t, bound, j) == Reject
  {
    hide Wrap, DecodeWord, Separates, Verdict;
    StrayExact(run.bits[c], t, run.offsets[c], bound);
    assert run.Stray(t, bound, c);
    VerdictRejects(run, t, bound, j);
  }

  function Verdict(run: Run, t: u32, bound: u32, j: nat): Result<u32>
    requires |run.noise| == |run.bits| == |run.offsets| && j < |run.bits|
  {
    Lwe.DecodeRow(run.Received(t), t, bound, j)
  }

  predicate AllHave(runs: seq<Run>, j: nat, bit: u32) {
    forall k :: 0 <= k < |runs| ==> runs[k].Has(j, bit)
  }

  function Verdicts(runs: seq<Run>, ts: seq<u32>, bound: u32, j: nat, bit: u32): (r: seq<Result<u32>>)
    requires |ts| == |runs| && AllHave(runs, j, bit)
    ensures |r| == |runs|
  {
    seq<Result<u32>>(|runs|, k requires 0 <= k < |runs| => Verdict(runs[k], ts[k], bound, j))
  }

  // ---------- one repetition ----------

  lemma VerdictAt(run: Run, t: u32, bound: u32, j: nat, bit: u32)
    requires run.Has(j, bit) && Verdict(run, t, bound, j).Ok?
    ensures var v := Wrap(run.noise[j] + bit * t + run.offsets[j]);
            DecodeWord(v, t, bound) == Verdict(run, t, bound, j) && Verdict(run, t, bound, j).value <= 1
  {
    hide Wrap, InRange;
    WrapAdd(run.noise[j] + bit * t, run.offsets[j]);
    assert run.Received(t)[j] == Wrap(Honest(run.noise[j], bit, t) + run.offsets[j]);
  }

  /** Only the suspect scalars of a repetition give the other bit. */
  lemma FlippedIsSuspect(run: Run, t: u32, bound: u32, j: nat, bit: u32)
    requires run.Has(j, bit) && bound >= 1 && Verdict(run, t, bound, j) == Ok(1 - bit)
    ensures t in Suspects(run.noise[j], bit, run.offsets[j], bound)
  {
    hide Wrap, DecodeWord, Verdict, Suspects;
    VerdictAt(run, t, bound, j, bit);
    FlipLocated(t, run.noise[j], bit, run.offsets[j], bound);
  }

  /** A disturbed repetition never gives its own bit, whatever the scalar. */
  lemma DisturbedNeverRight(run: Run, t: u32, bound: u32, j: nat, bit: u32)
    requires run.Has(j, bit) && run.Disturbed(j, bound)
    ensures Verdict(run, t, bound, j) != Ok(bit)
  {
    hide Wrap, InRange, Verdict;
    if Verdict(run, t, bound, j) == Ok(bit) {
      VerdictAt(run, t, bound, j, bit);
      var y := run.noise[j] + run.offsets[j];
      if bit == 1 {
        WrapSub(y + t, t);
        WrapSmall(t);
      }
    }
  }

  /** An undisturbed repetition never gives the other bit when its scalar separates. */
  lemma UndisturbedNeverWrong(run: Run, t: u32, bound: u32, j: nat, bit: u32)
    requires run.Has(j, bit) && !run.Disturbed(j, bound) && bound >= 1 && Separates(t, bound)
    ensures Verdict(run, t, bound, j) != Ok(1 - bit)
  {
    hide Wrap, InRange, DecodeWord, Verdict;
    if Verdict(run, t, bound, j).Ok? {
      VerdictAt(run, t, bound, j, bit);
      var y := run.noise[j] + run.offsets[j];
      var d := Centred(Wrap(y), bound);
      WrapSum(d, y, bit * t, bit * t);
      HonestDecodes(d, bit, t, bound);
    }
  }

  // ---------- majority ----------

  function Trues(w: seq<bool>): nat {
    if |w| == 0 then 0 else Trues(w[..|w| - 1]) + if w[|w| - 1] then 1 else 0
  }

  lemma {:induction false} CountIsTrues(values: seq<u32>, v: u32, w: seq<bool>)
    requires |values| == |w| && forall k :: 0 <= k < |w| ==> (values[k] == v ==> w[k])
    ensures Count(values, v) <= Trues(w) <= |w|
  {
    if |w| > 0 {
      CountIsTrues(values[..|w| - 1], v, w[..|w| - 1]);
    }
  }

  /** A combined result is the verdict of more than half the repetitions, none of which rejects. */
  lemma CombinedMajority(outcomes: seq<Result<u32>>, v: u32, w: seq<bool>)
    requires |outcomes| >= 1 && Combine(outcomes) == Ok(v) && |w| == |outcomes|
    requires forall k :: 0 <= k < |w| ==> (outcomes[k] == Ok(v) ==> w[k])
    ensures forall k :: 0 <= k < |outcomes| ==> outcomes[k].Ok?
    ensures 2 * Trues(w) > |w| && Trues(w) <= |w|
  {
    CountIsTrues(Values(outcomes), v, w);
  }

  // ---------- counting scalar vectors ----------

  /** The scalars that keep the intervals apart. */
  function Separating(bound: u32): (s: set<u32>)
    requires bound >= 1
    ensures |s| == SeparatingCount(bound) && forall t: u32 :: t in s <==> Separates(t, bound)
  {
    var b: int := bound;
    if SeparatingCount(bound) == 0 then {} else WordsFrom(2 * b - 1, SeparatingCount(bound))
  }

  function SeparatingCount(bound: u32): nat {
    var b: int := bound;
    if TWO32 - 4 * b + 3 >= 0 then TWO32 - 4 * b + 3 else 0
  }

  function AllScalars(): (s: set<u32>)
    ensures |s| == TWO32 && forall t: u32 :: t in s
  {
    hide WordsFrom;
    WordsFrom(0, TWO32)
  }

  /** For every repetition its suspects if the pattern says flipped, else the given scalars. */
  function Choices(runs: seq<Run>, w: seq<bool>, rest: set<u32>, bound: u32, j: nat, bit: u32): (r: seq<set<u32>>)
    requires |w| == |runs| && AllHave(runs, j, bit) && bound >= 1
    ensures |r| == |runs|
  {
    seq(|runs|, k requires 0 <= k < |runs| =>
      if w[k] then Suspects(runs[k].noise[j], bit, runs[k].offsets[j], bound) else rest)
  }

  lemma {:induction false} ChoicesCount(runs: seq<Run>, w: seq<bool>, rest: set<u32>, m: nat, bound: u32,
                                      j: nat, bit: u32)
    requires |w| == |runs| && AllHave(runs, j, bit) && bound >= 1 && |rest| <= m
    ensures Trues(w) <= |w|
    ensures Combinations(Choices(runs, w, rest, bound, j, bit))
         <= Pow(2 * bound - 1, Trues(w)) * Pow(m, |w| - Trues(w))
  {
    hide Suspects, Pow;
    if |w| == 0 {
      NoPowers(2 * bound - 1, m);
    } else {
      var l := |w| - 1;
      var all, init := Choices(runs, w, rest, bound, j, bit), Choices(runs[..l], w[..l], rest, bound, j, bit);
      ChoicesCount(runs[..l], w[..l], rest, m, bound, j, bit);
      assert all[..l] == init;
      var a, b := Trues(w[..l]), l - Trues(w[..l]);
      if w[l] {
        OneFactor(Combinations(init), |all[l]|, 2 * bound - 1, m, a, b);
      } else {
        OtherFactor(Combinations(init), |all[l]|, 2 * bound - 1, m, a, b);
      }
    }
  }

  lemma NoPowers(c: nat, m: nat)
    ensures Pow(c, 0) * Pow(m, 0) == 1
  {
  }

  lemma OneFactor(x: nat, y: nat, c: nat, m: nat, a: nat, b: nat)
    requires x <= Pow(c, a) * Pow(m, b) && y <= c
    ensures x * y <= Pow(c, a + 1) * Pow(m, b)
  {
    assert Pow(c, a + 1) == c * Pow(c, a);
    hide Pow;
    ProductMonotone(y, c, x);
    ProductMonotone(x, Pow(c, a) * Pow(m, b), c);
    MulAssoc(c, Pow(c, a), Pow(m, b));
  }

  lemma OtherFactor(x: nat, y: nat, c: nat, m: nat, a: nat, b: nat)
    requires x <= Pow(c, a) * Pow(m, b) && y <= m
    ensures x * y <= Pow(c, a) * Pow(m, b + 1)
  {
    assert Pow(m, b + 1) == m * Pow(m, b);
    hide Pow;
    ProductMonotone(y, m, x);
    ProductMonotone(x, Pow(c, a) * Pow(m, b), m);
    MulAssoc(Pow(c, a), Pow(m, b), m);
  }

  /** Trading a factor m for a smaller factor c does not increase the product. */
  lemma {:induction false} FewerChoices(c: nat, m: nat, a: nat, d: nat, n: nat)
    requires a <= d <= n && c <= m
    ensures Pow(c, d) * Pow(m, n - d) <= Pow(c, a) * Pow(m, n - a)
    decreases d
  {
    if a < d {
      FewerChoices(c, m, a, d - 1, n);
      assert Pow(c, d) == c * Pow(c, d - 1) && Pow(m, n - (d - 1)) == m * Pow(m, n - d);
      hide Pow;
      MulAssoc(c, Pow(c, d - 1), Pow(m, n - d));
      MulAssoc(m, Pow(c, d - 1), Pow(m, n - d));
      MulAssoc(Pow(c, d - 1), m, Pow(m, n - d));
      ProductMonotone(c, m, Pow(c, d - 1) * Pow(m, n - d));
    }
  }

  /** The repetitions' answers with these offsets make the client return the other bit. */
  predicate Forged(ts: seq<u32>, runs: seq<Run>, bound: u32, j: nat, bit: u32) {
    |ts| == |runs| && |runs| >= 1 && AllHave(runs, j, bit) &&
    Combine(Verdicts(runs, ts, bound, j, bit)) == Ok(1 - bit)
  }

  function DisturbedRuns(runs: seq<Run>, bound: u32, j: nat, bit: u32): (w: seq<bool>)
    requires AllHave(runs, j, bit)
    ensures |w| == |runs|
  {
    seq(|runs|, k requires 0 <= k < |runs| => runs[k].Disturbed(j, bound))
  }

  /** With separating scalars exactly the disturbed repetitions are flipped, more than half of all,
      each by a suspect scalar. */
  lemma ForgedChoices(ts: seq<u32>, runs: seq<Run>, bound: u32, j: nat, bit: u32)
    requires Forged(ts, runs, bound, j, bit) && bound >= 1
    requires forall k :: 0 <= k < |ts| ==> Separates(ts[k], bound)
    ensures var w := DisturbedRuns(runs, bound, j, bit);
            2 * Trues(w) > |w| && Trues(w) <= |w| && Chosen(ts, Choices(runs, w, Separating(bound), bound, j, bit))
  {
    hide Combine, Verdict, Suspects, Run.Disturbed, Separating, Separates, Trues;
    var w, outcomes := DisturbedRuns(runs, bound, j, bit), Verdicts(runs, ts, bound, j, bit);
    forall k | 0 <= k < |w| ensures outcomes[k] == Ok(1 - bit) ==> w[k] {
      if !w[k] {
        UndisturbedNeverWrong(runs[k], ts[k], bound, j, bit);
      }
    }
    CombinedMajority(outcomes, 1 - bit, w);
    forall k | 0 <= k < |ts| ensures ts[k] in Choices(runs, w, Separating(bound), bound, j, bit)[k] {
      if w[k] {
        DisturbedNeverRight(runs[k], ts[k], bound, j, bit);
        BitVerdict(runs[k], ts[k], bound, j, bit);
        FlippedIsSuspect(runs[k], ts[k], bound, j, bit);
      }
    }
  }

  lemma BitVerdict(run: Run, t: u32, bound: u32, j: nat, bit: u32)
    requires run.Has(j, bit) && Verdict(run, t, bound, j).Ok?
    ensures Verdict(run, t, bound, j) in {Ok(bit), Ok(1 - bit)}
  {
    hide Verdict, DecodeWord;
    VerdictAt(run, t, bound, j, bit);
  }

  /** The amplified bound: of the vectors of 2t + 1 separating scalars at most (2B - 1)^(t + 1) S^t,
      where S = 2^32 - 4B + 3 scalars separate, let fixed offsets turn the result into the other bit. */
  lemma AmplifiedForgeries(vectors: set<seq<u32>>, runs: seq<Run>, bound: u32, j: nat, bit: u32, t: nat)
    requires bound >= 1 && |runs| == 2 * t + 1 && 2 * bound - 1 <= SeparatingCount(bound)
    requires forall ts :: ts in vectors ==>
               Forged(ts, runs, bound, j, bit) && forall k :: 0 <= k < |ts| ==> Separates(ts[k], bound)
    ensures |vectors| <= Pow(2 * bound - 1, t + 1) * Pow(SeparatingCount(bound), t)
  {
    hide Forged, Separating, SeparatingCount, Choices, Pow, DisturbedRuns, Combinations, Trues;
    if vectors != {} {
      var some :| some in vectors;
      ForgedShape(some, runs, bound, j, bit);
      var w, c, m := DisturbedRuns(runs, bound, j, bit), 2 * bound - 1, SeparatingCount(bound);
      var choices := Choices(runs, w, Separating(bound), bound, j, bit);
      forall ts | ts in vectors ensures Chosen(ts, choices) {
        ForgedChoices(ts, runs, bound, j, bit);
      }
      ForgedChoices(some, runs, bound, j, bit);
      VectorsBound(vectors, choices);
      ChoicesCount(runs, w, Separating(bound), m, bound, j, bit);
      FewerChoices(c, m, t + 1, Trues(w), 2 * t + 1);
    }
  }

  lemma ForgedShape(ts: seq<u32>, runs: seq<Run>, bound: u32, j: nat, bit: u32)
    requires Forged(ts, runs, bound, j, bit)
    ensures |ts| == |runs| && AllHave(runs, j, bit)
  {
    hide Combine;
  }

  // ---------- scalars drawn without looking ----------

  function FlippedRuns(ts: seq<u32>, runs: seq<Run>, bound: u32, j: nat, bit: u32): (w: seq<bool>)
    requires |ts| == |runs| && AllHave(runs, j, bit)
    ensures |w| == |runs|
  {
    seq(|runs|, k requires 0 <= k < |runs| => Verdict(runs[k], ts[k], bound, j) == Ok(1 - bit))
  }

  predicate ForgedBy(ts: seq<u32>, w: seq<bool>, runs: seq<Run>, bound: u32, j: nat, bit: u32) {
    Forged(ts, runs, bound, j, bit) && w == FlippedRuns(ts, runs, bound, j, bit)
  }

  lemma FlippedChoices(ts: seq<u32>, w: seq<bool>, runs: seq<Run>, bound: u32, j: nat, bit: u32)
    requires ForgedBy(ts, w, runs, bound, j, bit) && bound >= 1
    ensures |w| == |runs| && AllHave(runs, j, bit)
    ensures 2 * Trues(w) > |w| && Trues(w) <= |w| && Chosen(ts, Choices(runs, w, AllScalars(), bound, j, bit))
  {
    hide Combine, Verdict, Suspects, Trues, AllScalars;
    CombinedMajority(Verdicts(runs, ts, bound, j, bit), 1 - bit, w);
    forall k | 0 <= k < |ts| ensures ts[k] in Choices(runs, w, AllScalars(), bound, j, bit)[k] {
      if w[k] {
        FlippedIsSuspect(runs[k], ts[k], bound, j, bit);
      }
    }
  }

  lemma FlippedClass(vectors: set<seq<u32>>, w: seq<bool>, runs: seq<Run>, bound: u32, j: nat, bit: u32, t: nat)
    requires bound >= 1 && |runs| == 2 * t + 1 && 2 * bound - 1 <= TWO32
    requires forall ts :: ts in vectors ==> ForgedBy(ts, w, runs, bound, j, bit)
    ensures |vectors| <= Pow(2 * bound - 1, t + 1) * Pow(TWO32, t)
  {
    hide ForgedBy, AllScalars, Choices, Pow, Combinations, Trues;
    if vectors != {} {
      var some :| some in vectors;
      FlippedChoices(some, w, runs, bound, j, bit);
      forall ts | ts in vectors ensures Chosen(ts, Choices(runs, w, AllScalars(), bound, j, bit)) {
        FlippedChoices(ts, w, runs, bound, j, bit);
      }
      VectorsBound(vectors, Choices(runs, w, AllScalars(), bound, j, bit));
      ChoicesCount(runs, w, AllScalars(), TWO32, bound, j, bit);
      FewerChoices(2 * bound - 1, TWO32, t + 1, Trues(w), 2 * t + 1);
    }
  }

  /** For scalars drawn without looking, as the client draws them, the bound is larger by the number
      of ways to choose the flipped repetitions: separating fails for few, but possibly any, of them. */
  lemma AnyScalarForgeries(vectors: set<seq<u32>>, runs: seq<Run>, bound: u32, j: nat, bit: u32, t: nat)
    requires bound >= 1 && |runs| == 2 * t + 1 && 2 * bound - 1 <= TWO32
    requires forall ts :: ts in vectors ==> Forged(ts, runs, bound, j, bit)
    ensures |vectors| <= Pow(2, 2 * t + 1) * (Pow(2 * bound - 1, t + 1) * Pow(TWO32, t))
  {
    hide Pow, Verdict, Combine, AllHave;
    var inClass := (ts: seq<u32>, w: seq<bool>) => ForgedBy(ts, w, runs, bound, j, bit);
    forall ts | ts in vectors ensures exists w :: |w| == 2 * t + 1 && inClass(ts, w) {
      assert inClass(ts, FlippedRuns(ts, runs, bound, j, bit));
    }
    forall w | |w| == 2 * t + 1
      ensures |Class(vectors, inClass, w)| <= Pow(2 * bound - 1, t + 1) * Pow(TWO32, t)
    {
      FlippedClass(Class(vectors, inClass, w), w, runs, bound, j, bit, t);
    }
    PatternBound(vectors, 2 * t + 1, inClass, Pow(2 * bound - 1, t + 1) * Pow(TWO32, t));
  }

  // ---------- a run with offsets ----------

  /** The repetitions of one amplified query. */
  function RunsOf(d: Mat, coins: seq<Coin>, i: nat, offsets: seq<seq<int>>): (runs: seq<Run>)
    requires Lwe.BitMatrix(d) && i < d.rows && |offsets| == |coins|
    requires forall k :: 0 <= k < |coins| ==> |coins[k].e| == d.rows && |offsets[k]| == d.cols
    ensures |runs| == |coins| && forall j :: 0 <= j < d.cols ==> AllHave(runs, j, EntryBit(d, i, j))
  {
    seq<Run>(|coins|, k requires 0 <= k < |coins| => RunOf(d, coins[k].e, i, offsets[k]))
  }

  function Scalars(coins: seq<Coin>): (ts: seq<u32>)
    ensures |ts| == |coins|
  {
    seq<u32>(|coins|, k requires 0 <= k < |coins| => coins[k].t)
  }

  /** The row holds the words of m with offsets added. */
  ghost predicate Displaced(row: Matrix, m: Mat, offsets: seq<int>)
    reads row.data
  {
    && row.Valid() && row.rows == 1 && row.cols == |offsets|
    && forall c :: 0 <= c < row.data.Length ==> row.data[c] == Wrap(m.At(0, c) + offsets[c])
  }

  /** One answer with its offsets added in place, column by column. */
  method AddOffsets(answer: Matrix, offsets: seq<int>)
    requires answer.Valid() && answer.rows == 1 && answer.cols == |offsets|
    modifies answer.data
    ensures Displaced(answer, old(answer.Value()), offsets)
  {
    hide Wrap;
    var c := 0;
    while c < answer.data.Length
      invariant 0 <= c <= answer.data.Length
      invariant forall p :: 0 <= p < answer.data.Length ==>
                  answer.data[p] == if p < c then Wrap(old(answer.data[p]) + offsets[p]) else old(answer.data[p])
    {
      answer.data[c] := Wrap(answer.data[c] + offsets[c]);
      c := c + 1;
    }
    forall p | 0 <= p < answer.data.Length ensures old(answer.Value()).At(0, p) == old(answer.data[p]) {
      assert answer.rows == 1;
    }
  }

  /** Every answer with its offsets added. */
  method AddAllOffsets(answers: seq<Matrix>, offsets: seq<seq<int>>, ghost honest: seq<Mat>)
    requires |offsets| == |answers| == |honest|
    requires forall k :: 0 <= k < |answers| ==>
               && answers[k].Valid() && answers[k].rows == 1 && answers[k].cols == |offsets[k]|
               && answers[k].Value() == honest[k]
    requires forall k, k' :: 0 <= k < k' < |answers| ==> answers[k].data != answers[k'].data
    modifies set k | 0 <= k < |answers| :: answers[k].data
    ensures forall k :: 0 <= k < |answers| ==> Displaced(answers[k], honest[k], offsets[k])
  {
    hide Displaced;
    var i := 0;
    while i < |answers|
      invariant 0 <= i <= |answers|
      invariant forall k :: 0 <= k < i ==> Displaced(answers[k], honest[k], offsets[k])
      invariant forall k :: i <= k < |answers| ==> unchanged(answers[k].data)
    {
      assert answers[i].Value() == old(answers[i].Value());
      AddOffsets(answers[i], offsets[i]);
      i := i + 1;
    }
  }

  /** The honest answers to the queries of these coins. */
  ghost function HonestAnswers(client: Client, d: Mat, i: nat, aWords: seq<u32>, coins: seq<Coin>): (r: seq<Mat>)
    requires |coins| == |client.lwes|
    ensures |r| == |coins|
  {
    seq<Mat>(|coins|, k requires 0 <= k < |coins| => Product(client.QueryFor(client.lwes[k], i, aWords, coins[k]), d))
  }

  /** Base client k's verdict on an answer whose words are the honest ones with offsets added. */
  lemma OffsetVerdict(client: Client, k: nat, answer: Matrix, d: Mat, i: nat, j: nat, aWords: seq<u32>,
                      coin: Coin, offsets: seq<int>)
    requires k < |client.lwes| && client.Kept(k, j, coin) && |offsets| == d.cols
    requires var c := client.lwes[k];
             && Lwe.BitMatrix(d) && d.rows == c.l && d.cols == c.m && i < c.l && |coin.e| == c.l
             && |aWords| == c.n * c.l && c.digest.Value() == Product(Mat(c.n, c.l, aWords), d)
             && Displaced(answer, Product(client.QueryFor(c, i, aWords, coin), d), offsets)
    ensures client.Verdict(k, answer) == Verdict(RunOf(d, coin.e, i, offsets), coin.t, client.lwes[k].bound, j)
  {
    hide Product, Lwe.QueryMat, Lwe.DecodeRow, Wrap, RunOf, Run.Received;
    var c, run := client.lwes[k], RunOf(d, coin.e, i, offsets);
    forall p | 0 <= p < d.cols ensures c.Differences(answer.Value())[p] == run.Received(coin.t)[p] {
      OffsetAnswer(Mat(1, c.n, coin.secret), Mat(c.n, c.l, aWords), d, coin.e, i, coin.t, offsets, p);
      assert answer.Value().At(0, p) == answer.data[p];
    }
    assert c.Differences(answer.Value()) == run.Received(coin.t);
  }

  lemma AwaitsApart(client: Client, answers: seq<Matrix>)
    requires client.Awaits(answers)
    ensures forall k, k' :: 0 <= k < k' < |answers| ==> answers[k].data != answers[k'].data
    ensures forall k, k' :: 0 <= k < |answers| && 0 <= k' < |client.lwes| ==>
              client.lwes[k'].state.State? && answers[k].data != client.lwes[k'].state.secret.data
              && answers[k].data != client.lwes[k'].state.digest.data
  {
  }

  /** Queries and honest answers with offsets added. */
  method AskWithOffsets(client: Client, db: MatrixBytes, i: nat, j: nat, aWords: seq<u32>, coins: seq<Coin>,
                        offsets: seq<seq<int>>) returns (answers: seq<Matrix>)
    requires client.Valid() && |coins| == |client.lwes| && Suits(client.lwes[0], db, i, j, aWords, coins)
    requires |offsets| == |coins| && forall k :: 0 <= k < |offsets| ==> |offsets[k]| == db.cols
    modifies client.lwes
    ensures |answers| == |client.lwes| && client.Awaits(answers)
    ensures forall k :: 0 <= k < |answers| ==> fresh(answers[k].data)
    ensures forall k :: 0 <= k < |answers| ==>
              && client.Kept(k, j, coins[k]) && client.lwes[k].Ready()
              && Displaced(answers[k], HonestAnswers(client, db.Value(), i, aWords, coins)[k], offsets[k])
  {
    hide Product, Client.Awaits, Client.Kept, Client.QueryFor, Displaced;
    answers := Ask(client, db, i, j, aWords, coins);
    assert |answers| == |client.lwes| by { AwaitsLength(client, answers); }
    forall k | 0 <= k < |answers|
      ensures client.lwes[k].Ready() && answers[k].Valid() && answers[k].rows == 1
      ensures answers[k].cols == client.lwes[k].m
    {
      AwaitsShape(client, answers, k);
    }
    AwaitsApart(client, answers);
    AddAllOffsets(answers, offsets, HonestAnswers(client, db.Value(), i, aWords, coins));
  }

  /** An amplified retrieval with fixed offsets added to every answer: the result combines the verdicts of
      the runs, for any noise and any scalars, and is the other bit exactly when the scalars are forged. */
  method RetrieveWithOffsets(client: Client, db: MatrixBytes, i: nat, j: nat, aWords: seq<u32>, coins: seq<Coin>,
                             offsets: seq<seq<int>>) returns (r: Result<u32>)
    requires client.Valid() && |coins| == |client.lwes| && Suits(client.lwes[0], db, i, j, aWords, coins)
    requires |offsets| == |coins| && forall k :: 0 <= k < |offsets| ==> |offsets[k]| == db.cols
    modifies client.lwes
    ensures var runs, bit := RunsOf(db.Value(), coins, i, offsets), EntryBit(db.Value(), i, j);
            && r == Combine(Verdicts(runs, Scalars(coins), client.lwes[0].bound, j, bit))
            && (r == Ok(1 - bit) <==> Forged(Scalars(coins), runs, client.lwes[0].bound, j, bit))
    ensures forall k, c :: 0 <= k < |coins| && 0 <= c < db.cols ==>
              RunOf(db.Value(), coins[k].e, i, offsets[k]).Stray(coins[k].t, client.lwes[0].bound, c) ==> r == Reject
  {
    hide Run.Stray, Forged, Product, Combine, Client.Verdict, Client.Awaits, Client.Kept, Client.QueryFor, Verdict,
         RunOf, Displaced;
    ghost var d, bound := db.Value(), client.lwes[0].bound;
    ghost var runs, bit := RunsOf(d, coins, i, offsets), EntryBit(d, i, j);
    var answers := AskWithOffsets(client, db, i, j, aWords, coins, offsets);
    ghost var outcomes := Verdicts(runs, Scalars(coins), bound, j, bit);
    forall k | 0 <= k < |coins| ensures outcomes[k] == client.Verdict(k, answers[k]) {
      OffsetVerdict(client, k, answers[k], d, i, j, aWords, coins[k], offsets[k]);
    }
    r := client.Reconstruct(answers, outcomes);
    forall k, c | 0 <= k < |coins| && 0 <= c < db.cols
                  && RunOf(d, coins[k].e, i, offsets[k]).Stray(coins[k].t, bound, c)
      ensures r == Reject
    {
      StrayRejects(runs, Scalars(coins), bound, j, bit, k, c);
    }
    ForgedIff(runs, Scalars(coins), bound, j, bit);
  }

  lemma ForgedIff(runs: seq<Run>, ts: seq<u32>, bound: u32, j: nat, bit: u32)
    requires |runs| == |ts| >= 1 && AllHave(runs, j, bit)
    ensures Combine(Verdicts(runs, ts, bound, j, bit)) == Ok(1 - bit) <==> Forged(ts, runs, bound, j, bit)
  {
  }

  /** One stray column in one repetition, asked for or not, rejects the whole retrieval. */
  lemma StrayRejects(runs: seq<Run>, ts: seq<u32>, bound: u32, j: nat, bit: u32, k: nat, c: nat)
    requires |runs| == |ts| && AllHave(runs, j, bit) && k < |runs| && c < |runs[k].bits|
    requires |runs[k].noise| == |runs[k].bits| == |runs[k].offsets| && runs[k].Stray(ts[k], bound, c)
    ensures Combine(Verdicts(runs, ts, bound, j, bit)) == Reject
  {
    hide Verdict, Run.Stray;
    VerdictRejects(runs[k], ts[k], bound, j);
    assert Verdicts(runs, ts, bound, j, bit)[k] == Reject;
  }
}
