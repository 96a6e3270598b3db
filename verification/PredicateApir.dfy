/** The predicate scheme end to end: what the client accepts from honest servers. */
module PredicateApir {
  import opened Words
  import opened ModArith
  import opened Field
  import opened FssTree
  import opened FssPoint
  import opened FssScheme
  import opened Query
  import opened PredicateServer
  import opened PredicateTally
  import opened PredicateClient

  /** Answers whose words stand for v times the target values. */
  predicate Carries(y0: seq<u32>, y1: seq<u32>, from: nat, b: seq<u32>, v: nat) {
    && from + |b| <= |y0| && from + |b| <= |y1|
    && forall j :: 0 <= j < |b| ==> Sum(y0, y1, from + j) == Norm(v * b[j])
  }

  lemma TagExact(data: u32, alpha: u32)
    requires data < MOD_P && alpha < MOD_P
    ensures Tag(data, alpha) == Norm(data * alpha)
  {
    ProductBound(data, alpha, 0x8000_0000, 0x8000_0000);
    ModSmall(data * alpha, 0x1_0000_0000_0000_0000);
  }

  lemma CarriedTags(y0: seq<u32>, y1: seq<u32>, from: nat, alphas: seq<u32>, v: nat)
    requires |alphas| >= 1 && Canonical(alphas) && Carries(y0, y1, from, TargetValues(alphas), v)
    ensures TagsAgree(y0, y1, alphas, from, |alphas|)
    ensures Sum(y0, y1, from) == Norm(v)
  {
    hide Norm, Sum, Tag;
    var b := TargetValues(alphas);
    assert v * b[0] == v;
    assert Sum(y0, y1, from + 0) == Norm(v);
    forall i | 0 <= i < |alphas| - 1 ensures TagAgrees(y0, y1, alphas, from, i) {
      TagExact(Norm(v), alphas[i]);
      NormMul(v, alphas[i]);
      assert Sum(y0, y1, from + (i + 1)) == Norm(v * b[i + 1]);
    }
  }

  lemma RepresentedSum(x0: u32, x1: u32, v: int)
    requires Represents(x0, x1, v)
    ensures Norm(Add(x0, x1)) == Norm(v)
  {
    WrapSmall(x0 + x1);
  }

  /** A session whose values are those of a client with the given MAC keys. */
  predicate Authenticated(s: Session, alphas: seq<u32>) {
    |alphas| >= 1 && Canonical(alphas) && s.b == TargetValues(alphas) && Opposed(s.p)
  }

  lemma AuthenticatedValid(s: Session, alphas: seq<u32>)
    requires Authenticated(s, alphas)
    ensures s.Valid()
  {
    forall j | 0 <= j < |s.b| ensures s.b[j] < MOD_P {
      if j > 0 {
        assert s.b[(j - 1) + 1] == alphas[j - 1];
      }
    }
  }

  lemma HonestCounts(s: Session, alphas: seq<u32>, items: seq<Item>, d0: nat -> Draws, d1: nat -> Draws)
    requires Authenticated(s, alphas) && s.Admits(items)
    ensures Carries(s.Count0(items, d0), s.Count1(items, d1), 0, s.b, Hits(items, s.a))
  {
    hide Norm, Represents, Session.Totals0, Session.Totals1, Session.Admits;
    AuthenticatedValid(s, alphas);
    var t0, t1 := s.Totals0(items, d0), s.Totals1(items, d1);
    forall j | 0 <= j < |s.b| ensures Sum(t0.count, t1.count, 0 + j) == Norm(Hits(items, s.a) * s.b[j]) {
      TallySums(s, items, d0, d1, j);
      RepresentedSum(t0.count[j], t1.count[j], Hits(items, s.a) * s.b[j]);
    }
  }

  lemma HonestAverages(s: Session, alphas: seq<u32>, items: seq<Item>, d0: nat -> Draws, d1: nat -> Draws)
    requires Authenticated(s, alphas) && s.Admits(items)
    ensures Carries(s.Average0(items, d0), s.Average1(items, d1), 0, s.b, Hits(items, s.a))
    ensures Carries(s.Average0(items, d0), s.Average1(items, d1), |s.b|, s.b, Years(items, s.a))
  {
    hide Norm, Represents, Session.Totals0, Session.Totals1, Session.Admits;
    AuthenticatedValid(s, alphas);
    var t0, t1, n := s.Totals0(items, d0), s.Totals1(items, d1), |s.b|;
    var y0, y1 := s.Average0(items, d0), s.Average1(items, d1);
    forall j | 0 <= j < n
      ensures Sum(y0, y1, 0 + j) == Norm(Hits(items, s.a) * s.b[j])
      ensures Sum(y0, y1, n + j) == Norm(Years(items, s.a) * s.b[j])
    {
      TallySums(s, items, d0, d1, j);
      RepresentedSum(t0.count[j], t1.count[j], Hits(items, s.a) * s.b[j]);
      RepresentedSum(t0.sum[j], t1.sum[j], Years(items, s.a) * s.b[j]);
    }
  }

  /** Honest count answers are accepted and give the number of hits in the field. */
  lemma CountAccepted(s: Session, alphas: seq<u32>, items: seq<Item>, d0: nat -> Draws, d1: nat -> Draws)
    requires Authenticated(s, alphas) && s.Admits(items)
    ensures Decide(s.Count0(items, d0), s.Count1(items, d1), alphas, |alphas|) == Value(Norm(Hits(items, s.a)))
  {
    hide Norm, Session.Count0, Session.Count1, Session.Admits, TagsAgree, Carries, Decide, Sum;
    HonestCounts(s, alphas, items, d0, d1);
    CarriedTags(s.Count0(items, d0), s.Count1(items, d1), 0, alphas, Hits(items, s.a));
    DecideExact(s.Count0(items, d0), s.Count1(items, d1), alphas, |alphas|);
  }

  /** Honest average answers pass every tag check; the result is the quotient of the two
      reconstructed words, and only a count of zero in the field makes it fail. */
  lemma AverageAccepted(s: Session, alphas: seq<u32>, items: seq<Item>, d0: nat -> Draws, d1: nat -> Draws)
    requires Authenticated(s, alphas) && s.Admits(items)
    ensures Decide(s.Average0(items, d0), s.Average1(items, d1), alphas, |alphas|)
         == Quotient(Norm(Years(items, s.a)), Norm(Hits(items, s.a)))
  {
    hide Norm, Quotient, Session.Average0, Session.Average1, Session.Admits, TagsAgree, Carries, Decide, Sum;
    HonestAverages(s, alphas, items, d0, d1);
    var y0, y1 := s.Average0(items, d0), s.Average1(items, d1);
    CarriedTags(y0, y1, 0, alphas, Hits(items, s.a));
    CarriedTags(y0, y1, |alphas|, alphas, Years(items, s.a));
    DecideExact(y0, y1, alphas, |alphas|);
  }

  // ---------- what the query asks for ----------

  function MatchCount(info: Info, h: Hash256, now: int, want: KeyInfo, db: seq<KeyInfo>): nat {
    if |db| == 0 then 0
    else
      var m := |db| - 1;
      MatchCount(info, h, now, want, db[..m]) + if Matches(info, h, now, want, db[m]) then 1 else 0
  }

  /** The ages in years of the matching records. */
  function MatchYears(info: Info, h: Hash256, now: int, want: KeyInfo, db: seq<KeyInfo>): int {
    if |db| == 0 then 0
    else
      var m := |db| - 1;
      MatchYears(info, h, now, want, db[..m]) + if Matches(info, h, now, want, db[m]) then now - db[m].year else 0
  }

  /** The count is the number of positions in the database at which a matching record stands. */
  lemma {:induction false} CountIsCardinality(info: Info, h: Hash256, now: int, want: KeyInfo, db: seq<KeyInfo>)
    ensures MatchCount(info, h, now, want, db) == |set i | 0 <= i < |db| && Matches(info, h, now, want, db[i])|
  {
    hide Matches;
    var s := set i | 0 <= i < |db| && Matches(info, h, now, want, db[i]);
    if |db| == 0 {
      assert s == {};
    } else {
      var m := |db| - 1;
      var t := set i | 0 <= i < |db[..m]| && Matches(info, h, now, want, db[..m][i]);
      CountIsCardinality(info, h, now, want, db[..m]);
      if Matches(info, h, now, want, db[m]) {
        assert s == t + {m};
      } else {
        assert s == t;
      }
    }
  }

  /** The records' marshalled times have one length, as the encoding gives them. */
  predicate SameShape(want: KeyInfo, db: seq<KeyInfo>) {
    forall i :: 0 <= i < |db| ==> |db[i].creationTime| == |want.creationTime|
  }

  /** For inputs of at most 256 bits the hits are exactly the records the query asks for. */
  lemma {:induction false} HitsAreMatches(info: Info, h: Hash256, now: int, want: KeyInfo, db: seq<KeyInfo>)
    requires Recognised(info) && InputOf(info, h, want).Some? && SameShape(want, db)
    requires |InputOf(info, h, want).value| <= MAX_BITS
    ensures var a, items := InputOf(info, h, want).value, Items(info, h, now, db);
            && Hits(items, a) == MatchCount(info, h, now, want, db)
            && (info.avg ==> Years(items, a) == MatchYears(info, h, now, want, db))
  {
    if |db| > 0 {
      var m := |db| - 1;
      var a, items := InputOf(info, h, want).value, Items(info, h, now, db);
      HitsAreMatches(info, h, now, want, db[..m]);
      assert items[..m] == Items(info, h, now, db[..m]);
      HitIsMatch(info, h, now, want, db[m]);
    }
  }

  lemma HitIsMatch(info: Info, h: Hash256, now: int, want: KeyInfo, k: KeyInfo)
    requires Recognised(info) && InputOf(info, h, want).Some?
    requires |k.creationTime| == |want.creationTime| && |InputOf(info, h, want).value| <= MAX_BITS
    ensures var a, item := InputOf(info, h, want).value, ItemOf(info, h, now, k);
            && (Hit(item, a) <==> Matches(info, h, now, want, k))
            && (info.avg && item.Use? ==> item.years == now - k.year)
  {
    hide Matches, InputOf, Seen;
    var a, item := InputOf(info, h, want).value, ItemOf(info, h, now, k);
    InputExact(info, h, now, want, k);
    if item.Use? {
      SeenShort(item.x);
    }
  }

  // ---------- long identifiers ----------

  lemma RaiseTopBit(b: byte, j: nat)
    requires j < 8
    ensures BitAt(b | 128, j) == (j == 0 || BitAt(b, j))
  {
  }

  /** Setting the top bit of byte b sets bit 8 b of the string. */
  lemma RaisedByte(s: seq<byte>, b: nat)
    requires |s| > b
    ensures Bits(s[b := s[b] | 128]) == Bits(s)[8 * b := true]
  {
    hide BitAt;
    var t := s[b := s[b] | 128];
    forall p | 0 <= p < 8 * |s| ensures Bits(t)[p] == (p == 8 * b || Bits(s)[p]) {
      if p / 8 == b {
        RaiseTopBit(s[b], p % 8);
      }
    }
  }

  lemma SeenRaised(a: seq<bool>)
    requires |a| > MAX_BITS
    ensures a[MAX_BITS := true] == a <==> a[MAX_BITS]
    ensures Seen(a[MAX_BITS := true]) == a <==> !a[MAX_BITS]
  {
    var x := Seen(a[MAX_BITS := true]);
    assert !x[MAX_BITS] && a[MAX_BITS := true][MAX_BITS];
    if !a[MAX_BITS] {
      assert x == a;
    }
  }

  /** The selected bytes of an identifier are selected from themselves, when they are not a hash. */
  lemma SelectedAgain(info: Info, h: Hash256, email: seq<byte>, t: seq<byte>)
    requires Selected(info, h, email).Some? && |Selected(info, h, email).value| == |t| > 16
    ensures Selected(info, h, t) == Some(t)
  {
    assert t[..|t|] == t && t[|t| - |t|..] == t;
  }

  /** The year bits take the first four bytes, so bit 256 of a conjunction lies in byte 28. */
  lemma RaisedAfterYear(year: seq<bool>, s: seq<byte>)
    requires |year| == 32 && |s| > 28
    ensures year + Bits(s[28 := s[28] | 128]) == (year + Bits(s))[MAX_BITS := true]
  {
    RaisedByte(s, 28);
  }

  /** A record that contributes the query's input with bit 256 set, for every kind of query. */
  lemma RaisedRecord(info: Info, h: Hash256, now: int, want: KeyInfo) returns (k: KeyInfo)
    requires Recognised(info) && InputOf(info, h, want).Some? && |InputOf(info, h, want).value| > MAX_BITS
    ensures |k.creationTime| == |want.creationTime|
    ensures ItemOf(info, h, now, k).Use? && ItemOf(info, h, now, k).x == InputOf(info, h, want).value[MAX_BITS := true]
  {
    hide Bits, Selected, IdForYearCreationTime;
    if info.conj || info.target == UserId {
      var s := Selected(info, h, want.email).value;
      var b := if info.conj && !info.avg then 28 else 32;
      var t := s[b := s[b] | 128];
      k := want.(email := t, year := if info.avg then now else want.year);
      SelectedAgain(info, h, want.email, t);
      if b == 28 {
        RaisedAfterYear(IdForYearCreationTime(want.year), s);
      } else {
        RaisedByte(s, 32);
      }
    } else {
      var s := want.creationTime;
      k := want.(creationTime := s[32 := s[32] | 128]);
      RaisedByte(s, 32);
    }
  }

  /** A record the servers and the query disagree on, when the input is too long: whatever its bit
      256 is, setting it changes the record's match but not what the servers see. */
  lemma Miscounted(info: Info, h: Hash256, now: int, want: KeyInfo) returns (k: KeyInfo)
    requires Recognised(info) && InputOf(info, h, want).Some? && |InputOf(info, h, want).value| > MAX_BITS
    ensures |k.creationTime| == |want.creationTime|
    ensures Hit(ItemOf(info, h, now, k), InputOf(info, h, want).value) != Matches(info, h, now, want, k)
  {
    hide Matches, InputOf, ItemOf, Seen;
    k := RaisedRecord(info, h, now, want);
    InputExact(info, h, now, want, k);
    SeenRaised(InputOf(info, h, want).value);
  }

  /** For every kind of query the hits are the matching records of every database if and only if
      the input has at most 256 bits: longer inputs miscount some database. */
  lemma CountExact(info: Info, h: Hash256, now: int, want: KeyInfo)
    requires Recognised(info) && InputOf(info, h, want).Some?
    ensures (forall db | SameShape(want, db) ::
               Hits(Items(info, h, now, db), InputOf(info, h, want).value) == MatchCount(info, h, now, want, db))
       <==> |InputOf(info, h, want).value| <= MAX_BITS
  {
    hide Matches, Seen, InputOf, ItemOf, Hit;
    var a := InputOf(info, h, want).value;
    if |a| <= MAX_BITS {
      forall db | SameShape(want, db)
        ensures Hits(Items(info, h, now, db), a) == MatchCount(info, h, now, want, db)
      {
        HitsAreMatches(info, h, now, want, db);
      }
    } else {
      var k := Miscounted(info, h, now, want);
      SingleRecord(info, h, now, want, k);
      assert SameShape(want, [k]);
    }
  }

  /** The same for the result of the run: it is the count or the average over the records for every
      database if and only if the input has at most 256 bits. */
  lemma AnswerExact(info: Info, h: Hash256, now: int, want: KeyInfo)
    requires Recognised(info) && InputOf(info, h, want).Some?
    ensures (forall db | SameShape(want, db) ::
               Answered(info, Items(info, h, now, db), InputOf(info, h, want).value) == Wanted(info, h, now, want, db))
       <==> |InputOf(info, h, want).value| <= MAX_BITS
  {
    hide Matches, Seen, InputOf, ItemOf, Hit, Answered, Wanted;
    var a := InputOf(info, h, want).value;
    if |a| <= MAX_BITS {
      forall db | SameShape(want, db)
        ensures Answered(info, Items(info, h, now, db), a) == Wanted(info, h, now, want, db)
      {
        AnsweredIsWanted(info, h, now, want, db);
      }
    } else {
      var k := Miscounted(info, h, now, want);
      SingleRecord(info, h, now, want, k);
      UnlikeCounts(info, h, now, want, [k]);
      assert SameShape(want, [k]);
    }
  }

  /** One hit against no match, or none against one, gives different results. */
  lemma UnlikeCounts(info: Info, h: Hash256, now: int, want: KeyInfo, db: seq<KeyInfo>)
    requires Recognised(info) && InputOf(info, h, want).Some?
    requires var hits := Hits(Items(info, h, now, db), InputOf(info, h, want).value);
             hits <= 1 && MatchCount(info, h, now, want, db) == 1 - hits
    ensures Answered(info, Items(info, h, now, db), InputOf(info, h, want).value) != Wanted(info, h, now, want, db)
  {
    hide Items, InputOf, Hits, MatchCount, Years, MatchYears;
  }

  lemma SingleRecord(info: Info, h: Hash256, now: int, want: KeyInfo, k: KeyInfo)
    requires Recognised(info) && InputOf(info, h, want).Some?
    ensures var a := InputOf(info, h, want).value;
            && Hits(Items(info, h, now, [k]), a) == (if Hit(ItemOf(info, h, now, k), a) then 1 else 0)
            && MatchCount(info, h, now, want, [k]) == if Matches(info, h, now, want, k) then 1 else 0
  {
    hide Hit, Matches, ItemOf;
    var a, items := InputOf(info, h, want).value, Items(info, h, now, [k]);
    assert items[0] == ItemOf(info, h, now, k) && items[..0] == [];
    assert [k][..0] == [];
    assert Hits(items, a) == Hits(items[..0], a) + if Hit(items[0], a) then 1 else 0;
    assert MatchCount(info, h, now, want, [k])
        == MatchCount(info, h, now, want, [k][..0]) + if Matches(info, h, now, want, k) then 1 else 0;
  }

  // ---------- a whole run ----------

  /** The session a client's query opens. */
  function SessionOf(c: Cipher, a: seq<bool>, rnd: nat -> Element, n: nat, rand0: seq<byte>, rand1: Block,
                     g0: Draws, g1: Draws): (s: Session)
    requires |rand0| == 17 && n >= 1
    ensures Authenticated(s, MacKeys(rnd, n)) && |s.b| == n
  {
    Session(c, Root(rand0, rand1), a, TargetValues(MacKeys(rnd, n)), g0, g1)
  }

  /** The result of the run: the hit count, or the quotient of the hits' years by their count. */
  function Answered(info: Info, items: seq<Item>, a: seq<bool>): Outcome {
    if info.avg then Quotient(Norm(Years(items, a)), Norm(Hits(items, a))) else Value(Norm(Hits(items, a)))
  }

  /** What the caller asked for, in terms of the records alone. */
  function Wanted(info: Info, h: Hash256, now: int, want: KeyInfo, db: seq<KeyInfo>): Outcome {
    var count := Norm(MatchCount(info, h, now, want, db));
    if info.avg then Quotient(Norm(MatchYears(info, h, now, want, db)), count) else Value(count)
  }

  lemma AnsweredIsWanted(info: Info, h: Hash256, now: int, want: KeyInfo, db: seq<KeyInfo>)
    requires Recognised(info) && InputOf(info, h, want).Some? && SameShape(want, db)
    requires |InputOf(info, h, want).value| <= MAX_BITS
    ensures Answered(info, Items(info, h, now, db), InputOf(info, h, want).value) == Wanted(info, h, now, want, db)
  {
    HitsAreMatches(info, h, now, want, db);
  }

  /** A count query returns the plain number of matching records if and only if that number is
      below the modulus. */
  lemma CountIsPlain(info: Info, h: Hash256, now: int, want: KeyInfo, db: seq<KeyInfo>)
    requires Recognised(info) && !info.avg && InputOf(info, h, want).Some? && SameShape(want, db)
    requires |InputOf(info, h, want).value| <= MAX_BITS
    ensures var r := Answered(info, Items(info, h, now, db), InputOf(info, h, want).value);
            r.Value? && (r.v == MatchCount(info, h, now, want, db) <==> MatchCount(info, h, now, want, db) < MOD_P)
  {
    hide Items, InputOf, Matches;
    AnsweredIsWanted(info, h, now, want, db);
    var count := MatchCount(info, h, now, want, db);
    if count < MOD_P {
      NormSmall(count);
    }
  }

  /** With at least one match and sums below the modulus, an average query returns the floor of
      the matching records' years divided by their number. */
  lemma AverageIsFloor(info: Info, h: Hash256, now: int, want: KeyInfo, db: seq<KeyInfo>)
    requires Recognised(info) && info.avg && InputOf(info, h, want).Some? && SameShape(want, db)
    requires |InputOf(info, h, want).value| <= MAX_BITS
    requires 1 <= MatchCount(info, h, now, want, db) < MOD_P && MatchYears(info, h, now, want, db) < MOD_P
    ensures var count, years := MatchCount(info, h, now, want, db), MatchYears(info, h, now, want, db);
            var r := Answered(info, Items(info, h, now, db), InputOf(info, h, want).value);
            r.Value? && r.v == years / count && r.v * count <= years < (r.v + 1) * count
  {
    hide Items, InputOf, Matches, MatchCount, MatchYears, Hits, Years, Norm, Recognised, SameShape;
    HitsAreMatches(info, h, now, want, db);
    var count, years := MatchCount(info, h, now, want, db), MatchYears(info, h, now, want, db);
    NormSmall(count);
    NormSmall(years);
    FloorBounds(years, count);
  }

  /** Below the modulus the result is the plain count, or the quotient of the plain sums; the average of no
      record divides by zero. */
  lemma WantedPlain(info: Info, h: Hash256, now: int, want: KeyInfo, db: seq<KeyInfo>)
    requires Recognised(info) && InputOf(info, h, want).Some? && SameShape(want, db)
    requires |InputOf(info, h, want).value| <= MAX_BITS
    requires MatchCount(info, h, now, want, db) < MOD_P && (info.avg ==> MatchYears(info, h, now, want, db) < MOD_P)
    ensures var count, years := MatchCount(info, h, now, want, db), MatchYears(info, h, now, want, db);
            && (!info.avg ==> Wanted(info, h, now, want, db) == Value(count))
            && (info.avg ==> years >= 0)
            && (info.avg && count == 0 ==> Wanted(info, h, now, want, db) == DivideByZero)
            && (info.avg && count > 0 ==>
                  Wanted(info, h, now, want, db).Value? && Wanted(info, h, now, want, db).v == years / count)
  {
    hide Items, InputOf, Matches, MatchCount, MatchYears, Hits, Years, Norm, Recognised, SameShape;
    HitsAreMatches(info, h, now, want, db);
    var count, years := MatchCount(info, h, now, want, db), MatchYears(info, h, now, want, db);
    NormSmall(count);
    if info.avg {
      NormSmall(years);
    }
  }

  lemma FloorBounds(years: nat, count: nat)
    requires count >= 1
    ensures years / count * count <= years < (years / count + 1) * count
  {
    assert years == years / count * count + years % count;
  }

  lemma SessionFits(s: Session, items: seq<Item>)
    requires s.Admits(items)
    ensures AllFit(s.Key0(), items, |s.b|) && AllFit(s.Key1(), items, |s.b|)
  {
  }

  /** Each server's honest answer in a session. */
  function Answer0(s: Session, avg: bool, items: seq<Item>, draws: nat -> Draws): (y: seq<u32>)
    requires s.Admits(items)
    ensures |y| == if avg then 2 * |s.b| else |s.b|
  {
    if avg then s.Average0(items, draws) else s.Count0(items, draws)
  }

  function Answer1(s: Session, avg: bool, items: seq<Item>, draws: nat -> Draws): (y: seq<u32>)
    requires s.Admits(items)
    ensures |y| == if avg then 2 * |s.b| else |s.b|
  {
    if avg then s.Average1(items, draws) else s.Count1(items, draws)
  }

  /** The objects of one run fit together: honest servers with the same records, buffers apart, nothing
      redrawn. */
  ghost predicate Together(client: Client, s0: Server, s1: Server, info: Info, s: Session, items: seq<Item>, now: int)
    reads client.fss.outConvertBlock, s0.fss.outConvertBlock, s1.fss.outConvertBlock
  {
    && client.Valid() && s0.Valid() && s1.Valid() && Recognised(info)
    && s0.db == s1.db && s0.hash == s1.hash && s0.serverNum == 0 && s1.serverNum == 1
    && client.fss.cipher == s0.fss.cipher == s1.fss.cipher
    && client.executions == s0.fss.BlockLength() == s1.fss.BlockLength()
    && client.fss.Repr() !! s0.fss.Repr() !! s1.fss.Repr()
    && items == Items(info, s0.hash, now, s0.db) && s.Admits(items)
  }

  /** Query and both answers. */
  method Exchange(client: Client, s0: Server, s1: Server, info: Info, a: seq<bool>, now: int,
                  rnd: nat -> Element, rand0: seq<byte>, rand1: Block, g0: Draws, g1: Draws,
                  d0: nat -> Draws, d1: nat -> Draws, ghost s: Session, ghost items: seq<Item>)
    returns (y0: seq<u32>, y1: seq<u32>)
    requires |rand0| == 17 && client.executions >= 1
    requires s == SessionOf(client.fss.cipher, a, rnd, client.executions, rand0, rand1, g0, g1)
    requires Together(client, s0, s1, info, s, items, now)
    modifies client, client.fss.Repr(), s0.fss.Repr(), s1.fss.Repr()
    ensures client.Valid() && client.alphas == MacKeys(rnd, client.executions)
    ensures s.Admits(items) && y0 == Answer0(s, info.avg, items, d0) && y1 == Answer1(s, info.avg, items, d1)
  {
    hide KeyOf, Tally, Items, Root, TargetValues, MacKeys, Session.Admits, AllFit;
    var k0, k1 := client.Query(a, rnd, rand0, rand1, g0, g1);
    assert k0 == s.Key0() && k1 == s.Key1();
    SessionFits(s, items);
    y0 := s0.Answer(info, k0, now, d0);
    y1 := s1.Answer(info, k1, now, d1);
  }

  /** Query, both answers and reconstruction, as a caller runs them. On inputs of at most 256 bits the
      result is the count or the average over the records the query asks for. */
  method Retrieve(client: Client, s0: Server, s1: Server, info: Info, a: seq<bool>, ghost want: KeyInfo, now: int,
                  rnd: nat -> Element, rand0: seq<byte>, rand1: Block, g0: Draws, g1: Draws,
                  d0: nat -> Draws, d1: nat -> Draws, ghost s: Session) returns (r: Outcome)
    requires |rand0| == 17 && client.executions >= 1 && Recognised(info)
    requires s == SessionOf(client.fss.cipher, a, rnd, client.executions, rand0, rand1, g0, g1)
    requires Together(client, s0, s1, info, s, Items(info, s0.hash, now, s0.db), now)
    requires InputOf(info, s0.hash, want) == Some(a) && SameShape(want, s0.db)
    modifies client, client.fss.Repr(), s0.fss.Repr(), s1.fss.Repr()
    ensures r == Answered(info, Items(info, s0.hash, now, s0.db), a)
    ensures |a| <= MAX_BITS ==> r == Wanted(info, s0.hash, now, want, s0.db)
    ensures var count := MatchCount(info, s0.hash, now, want, s0.db);
            var years := MatchYears(info, s0.hash, now, want, s0.db);
            |a| <= MAX_BITS && count < MOD_P && (info.avg ==> years < MOD_P) ==>
              && (!info.avg ==> r == Value(count))
              && (info.avg && count == 0 ==> r == DivideByZero)
              && (info.avg && count > 0 ==> r.Value? && r.v == years / count)
  {
    hide Decide, Items, MacKeys, Norm, Quotient, Session.Admits, Session.Count0, Session.Count1, Session.Average0,
         Session.Average1, Wanted, InputOf, SameShape, MatchCount, MatchYears, Together;
    ghost var items := Items(info, s0.hash, now, s0.db);
    var y0, y1 := Exchange(client, s0, s1, info, a, now, rnd, rand0, rand1, g0, g1, d0, d1, s, items);
    ghost var alphas := client.alphas;
    if info.avg {
      AverageAccepted(s, alphas, items, d0, d1);
    } else {
      CountAccepted(s, alphas, items, d0, d1);
    }
    r := client.Reconstruct(y0, y1);
    hide Answered;
    if |a| <= MAX_BITS {
      AnsweredIsWanted(info, s0.hash, now, want, s0.db);
      if MatchCount(info, s0.hash, now, want, s0.db) < MOD_P &&
         (info.avg ==> MatchYears(info, s0.hash, now, want, s0.db) < MOD_P) {
        WantedPlain(info, s0.hash, now, want, s0.db);
      }
    }
  }

  /** The same from scratch: a client and two servers are set up over the records and run once. For every record
      that contributes, nothing is redrawn and the years are below 2^33. */
  method SetUpAndRetrieve(c: Cipher, h: Hash256, db: seq<KeyInfo>, n: nat, info: Info, want: KeyInfo, now: int,
                          rnd: nat -> Element, rand0: seq<byte>, rand1: Block, g0: Draws, g1: Draws,
                          d0: nat -> Draws, d1: nat -> Draws) returns (r: Outcome)
    requires 1 <= n <= 19 && |rand0| == 17 && !info.sum && (info.avg ==> info.conj)
    requires InputOf(info, h, want).Some? && forall i :: 0 <= i < |db| ==> |db[i].creationTime| == |want.creationTime|
    requires forall i :: 0 <= i < |db| && ItemOf(info, h, now, db[i]).Use? ==>
               && |ItemOf(info, h, now, db[i]).x| == |InputOf(info, h, want).value|
               && CleanAt(c, Root(rand0, rand1), InputOf(info, h, want).value, ItemOf(info, h, now, db[i]).x, n)
               && now - db[i].year < 0x2_0000_0000
    ensures |InputOf(info, h, want).value| <= MAX_BITS ==> r == Wanted(info, h, now, want, db)
    ensures var count, years := MatchCount(info, h, now, want, db), MatchYears(info, h, now, want, db);
            |InputOf(info, h, want).value| <= MAX_BITS && count < MOD_P && (info.avg ==> years < MOD_P) ==>
              && (!info.avg ==> r == Value(count))
              && (info.avg && count == 0 ==> r == DivideByZero)
              && (info.avg && count > 0 ==> r.Value? && r.v == years / count)
  {
    hide Root, CleanAt, MatchCount, MatchYears, Wanted, Answered, InputOf, ItemOf;
    var a := InputOf(info, h, want).value;
    var client := new Client(c, n);
    var s0 := new Server(c, h, db, 0, n);
    var s1 := new Server(c, h, db, 1, n);
    ghost var s := SessionOf(c, a, rnd, n, rand0, rand1, g0, g1);
    ghost var items := Items(info, h, now, db);
    forall i | 0 <= i < |items| ensures s.AdmitsItem(items[i]) {
      assert items[i] == ItemOf(info, h, now, db[i]);
      ItemDefined(info, h, now, db[i]);
    }
    r := Retrieve(client, s0, s1, info, a, want, now, rnd, rand0, rand1, g0, g1, d0, d1, s);
  }
}
