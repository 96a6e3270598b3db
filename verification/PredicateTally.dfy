/** What the two honest servers' totals add up to, over any database. */
module PredicateTally {
  import opened Words
  import opened ModArith
  import opened Field
  import opened FssTree
  import opened FssPoint
  import opened Query
  import opened PredicateServer

  const MAX_YEARS := 0x2_0000_0000

  /** One generated pair of keys: root nodes, target bits, target values, redrawn words. */
  datatype Session = Session(c: Cipher, p: Pair, a: seq<bool>, b: seq<u32>, g0: Draws, g1: Draws) {
    function Key0(): Key {
      KeyOf(c, p, p.n0, a, b, g0, g1)
    }

    function Key1(): Key {
      KeyOf(c, p, p.n1, a, b, g0, g1)
    }

    predicate Valid() {
      Opposed(p) && Canonical(b)
    }

    /** The input has the target's length, nothing is redrawn, the years fit 33 bits. */
    predicate AdmitsItem(item: Item) {
      item.Use? ==> |item.x| == |a| && CleanAt(c, p, a, item.x, |b|) && item.years < MAX_YEARS
    }

    predicate Admits(items: seq<Item>) {
      forall i :: 0 <= i < |items| ==> AdmitsItem(items[i])
    }

    function Part0(item: Item, e: Draws): (part: Part)
      requires AdmitsItem(item)
      ensures PartOk(part, |b|)
    {
      PartOf(c, 0, Key0(), |b|, item, e)
    }

    function Part1(item: Item, e: Draws): (part: Part)
      requires AdmitsItem(item)
      ensures PartOk(part, |b|)
    {
      PartOf(c, 1, Key1(), |b|, item, e)
    }

    function Totals0(items: seq<Item>, draws: nat -> Draws): (t: Totals)
      requires Admits(items)
      ensures |t.count| == |t.sum| == |b|
    {
      Tally(c, 0, Key0(), |b|, items, draws)
    }

    /** Server 0's answers, and server 1's, to a count and to an average query. */
    function Count0(items: seq<Item>, draws: nat -> Draws): (y: seq<u32>)
      requires Admits(items)
      ensures |y| == |b|
    {
      Totals0(items, draws).count
    }

    function Count1(items: seq<Item>, draws: nat -> Draws): (y: seq<u32>)
      requires Admits(items)
      ensures |y| == |b|
    {
      Totals1(items, draws).count
    }

    function Average0(items: seq<Item>, draws: nat -> Draws): (y: seq<u32>)
      requires Admits(items)
      ensures |y| == 2 * |b|
    {
      Totals0(items, draws).count + Totals0(items, draws).sum
    }

    function Average1(items: seq<Item>, draws: nat -> Draws): (y: seq<u32>)
      requires Admits(items)
      ensures |y| == 2 * |b|
    {
      Totals1(items, draws).count + Totals1(items, draws).sum
    }

    function Totals1(items: seq<Item>, draws: nat -> Draws): (t: Totals)
      requires Admits(items)
      ensures |t.count| == |t.sum| == |b|
    {
      Tally(c, 1, Key1(), |b|, items, draws)
    }
  }

  predicate Hit(item: Item, a: seq<bool>) {
    item.Use? && Seen(item.x) == a
  }

  /** How many records hit the target. */
  function Hits(items: seq<Item>, a: seq<bool>): nat {
    if |items| == 0 then 0
    else
      var m := |items| - 1;
      Hits(items[..m], a) + if Hit(items[m], a) then 1 else 0
  }

  /** The years of the records that hit the target. */
  function Years(items: seq<Item>, a: seq<bool>): nat {
    if |items| == 0 then 0
    else
      var m := |items| - 1;
      Years(items[..m], a) + if Hit(items[m], a) then items[m].years else 0
  }

  /** A pair of canonical words that stands for v in the field. */
  predicate Represents(x0: u32, x1: u32, v: int) {
    x0 < MOD_P && x1 < MOD_P && Norm(x0 + x1) == Norm(v)
  }

  lemma RepresentsZero()
    ensures Represents(0, 0, 0)
  {
  }

  /** Adding one share on each side adds what the shares stand for; nothing wraps. */
  lemma AddBoth(x0: u32, x1: u32, y0: u32, y1: u32, v: int, w: int)
    requires Represents(x0, x1, v) && y0 <= MOD_P && y1 <= MOD_P && Norm(y0 + y1) == Norm(w)
    ensures Represents(Norm(Add(x0, y0)), Norm(Add(x1, y1)), v + w)
  {
    hide Norm;
    WrapSmall(x0 + y0);
    WrapSmall(x1 + y1);
    NormSum(x0 + y0, x1 + y1);
    NormSum(x0 + x1, y0 + y1);
    NormSum(v, w);
    assert (x0 + y0) + (x1 + y1) == (x0 + x1) + (y0 + y1);
  }

  /** Scaling both shares scales what they stand for; the 64-bit products do not wrap. */
  lemma ScaleBoth(y0: u32, y1: u32, w: int, years: nat)
    requires y0 <= MOD_P && y1 <= MOD_P && Norm(y0 + y1) == Norm(w) && years < MAX_YEARS
    ensures Scaled(y0, years) < MOD_P && Scaled(y1, years) < MOD_P
    ensures Norm(Scaled(y0, years) + Scaled(y1, years)) == Norm(w * years)
  {
    hide Norm, Scaled;
    ScaledExact(y0, years);
    ScaledExact(y1, years);
    NormSum(y0 * years, y1 * years);
    assert y0 * years + y1 * years == (y0 + y1) * years;
    NormMul(y0 + y1, years);
    NormMul(w, years);
  }

  lemma ScaledExact(y: u32, years: nat)
    requires y <= MOD_P && years < MAX_YEARS
    ensures Scaled(y, years) == Norm(y * years)
  {
    ProductBound(y, years, 0x8000_0000, 0x2_0000_0000);
    ModSmall(y * years, 0x1_0000_0000_0000_0000);
  }

  /** Word j of two parts that came from the same record stands for add. */
  predicate Paired(part0: Part, part1: Part, j: nat, add: u32) {
    if part0.Nothing? then part1.Nothing? && add == 0
    else
      && part1.Part? && j < |part0.y| == |part1.y| && part0.years == part1.years < MAX_YEARS
      && part0.y[j] <= MOD_P && part1.y[j] <= MOD_P && add < MOD_P
      && Norm(part0.y[j] + part1.y[j]) == add
  }

  function Weight(part: Part): nat {
    if part.Nothing? then 0 else part.years
  }

  /** One record's effect on word j of both servers' totals. */
  lemma AddPaired(t0: Totals, t1: Totals, part0: Part, part1: Part, j: nat, add: u32, v: int, w: int)
    requires |t0.count| == |t0.sum| == |t1.count| == |t1.sum| > j
    requires PartOk(part0, |t0.count|) && PartOk(part1, |t0.count|) && Paired(part0, part1, j, add)
    requires Represents(t0.count[j], t1.count[j], v) && Represents(t0.sum[j], t1.sum[j], w)
    ensures var u0, u1 := AddPart(t0, part0), AddPart(t1, part1);
            && Represents(u0.count[j], u1.count[j], v + add)
            && Represents(u0.sum[j], u1.sum[j], w + add * Weight(part0))
  {
    if part0.Part? {
      var y0, y1, years := part0.y[j], part1.y[j], part0.years;
      NormSmall(add);
      AddBoth(t0.count[j], t1.count[j], y0, y1, v, add);
      ScaleBoth(y0, y1, add, years);
      AddBoth(t0.sum[j], t1.sum[j], Scaled(y0, years), Scaled(y1, years), w, add * years);
    }
  }

  /** The shares of one evaluated record stand for the target value or for zero. */
  lemma RecordPaired(s: Session, item: Item, e0: Draws, e1: Draws, j: nat)
    requires s.Valid() && s.AdmitsItem(item) && j < |s.b|
    ensures Paired(s.Part0(item, e0), s.Part1(item, e1), j, if Hit(item, s.a) then s.b[j] else 0)
  {
    hide Eval, KeyOf, Norm, CleanAt, Opposed, Seen;
    if item.Use? {
      PointShares(s.c, s.p, s.a, s.b, item.x, Coins(s.g0, s.g1, e0, e1), j);
      var part0, part1 := s.Part0(item, e0), s.Part1(item, e1);
      assert Norm(part0.y[j] + part1.y[j]) == if Hit(item, s.a) then s.b[j] else 0;
    }
  }

  /** Over all records, word j of the two totals stands for the number of hits times b, and
      word j of the weighted totals for the years of the hits times b. */
  lemma {:induction false} PairedSums(items: seq<Item>, a: seq<bool>, parts0: seq<Part>, parts1: seq<Part>,
                                      n: nat, j: nat, b: u32)
    requires |parts0| == |parts1| == |items| && j < n
    requires forall i :: 0 <= i < |items| ==> PartOk(parts0[i], n) && PartOk(parts1[i], n)
    requires forall i :: 0 <= i < |items| ==> Paired(parts0[i], parts1[i], j, if Hit(items[i], a) then b else 0)
    requires forall i :: 0 <= i < |items| ==> (items[i].Use? ==> parts0[i].Part? && parts0[i].years == items[i].years)
    ensures var t0, t1 := SumParts(parts0, n), SumParts(parts1, n);
            && Represents(t0.count[j], t1.count[j], Hits(items, a) * b)
            && Represents(t0.sum[j], t1.sum[j], Years(items, a) * b)
  {
    hide Represents, Paired, AddPart;
    RepresentsZero();
    if |items| > 0 {
      var m := |items| - 1;
      PairedSums(items[..m], a, parts0[..m], parts1[..m], n, j, b);
      var hits, years, hit := Hits(items[..m], a), Years(items[..m], a), Hit(items[m], a);
      AddPaired(SumParts(parts0[..m], n), SumParts(parts1[..m], n), parts0[m], parts1[m], j,
                if hit then b else 0, hits * b, years * b);
      Distribute(hits, years, b, hit, Weight(parts0[m]));
    }
  }

  lemma Distribute(hits: nat, years: nat, b: u32, hit: bool, y: nat)
    ensures (hits + if hit then 1 else 0) * b == hits * b + if hit then b else 0
    ensures (years + if hit then y else 0) * b == years * b + (if hit then b else 0) * y
  {
  }

  /** The same for the two honest servers' totals over any database. */
  lemma TallySums(s: Session, items: seq<Item>, d0: nat -> Draws, d1: nat -> Draws, j: nat)
    requires s.Valid() && s.Admits(items) && j < |s.b|
    ensures var t0, t1 := s.Totals0(items, d0), s.Totals1(items, d1);
            && Represents(t0.count[j], t1.count[j], Hits(items, s.a) * s.b[j])
            && Represents(t0.sum[j], t1.sum[j], Years(items, s.a) * s.b[j])
  {
    hide Represents, Paired, SumParts;
    var n := |s.b|;
    var parts0, parts1 := Parts(s.c, 0, s.Key0(), n, items, d0), Parts(s.c, 1, s.Key1(), n, items, d1);
    forall i | 0 <= i < |items|
      ensures Paired(parts0[i], parts1[i], j, if Hit(items[i], s.a) then s.b[j] else 0)
    {
      RecordPaired(s, items[i], d0(i), d1(i), j);
      assert parts0[i] == s.Part0(items[i], d0(i)) && parts1[i] == s.Part1(items[i], d1(i));
    }
    PairedSums(items, s.a, parts0, parts1, n, j, s.b[j]);
  }
}
