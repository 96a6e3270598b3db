/** Predicate queries: the bit string a record contributes, and when it equals the client's. */
module Query {
  import opened Words
  import opened Endian
  import opened ModArith

  datatype Target = UserId | CreationTime | PubKeyAlgo

  /** fromStart and fromEnd select a prefix or a suffix of the identifier; both zero: its hash. */
  datatype Info = Info(target: Target, fromStart: nat, fromEnd: nat, conj: bool, avg: bool, sum: bool)

  /** What a record offers to queries; creationTime is the marshalled form, year its year. */
  datatype KeyInfo = KeyInfo(email: seq<byte>, creationTime: seq<byte>, year: int, pubKeyAlgo: byte)

  // ---------- bits of bytes ----------

  predicate TopBit(b: byte) {
    b >= 128
  }

  /** Bit j of a byte, the most significant one first: the top bit after j left shifts. */
  predicate BitAt(d: byte, j: nat)
    requires j < 8
  {
    TopBit(d << j)
  }

  function Bits(data: seq<byte>): (r: seq<bool>)
    ensures |r| == 8 * |data|
  {
    seq(8 * |data|, p requires 0 <= p < 8 * |data| => BitAt(data[p / 8], p % 8))
  }

  method ByteToBits(data: seq<byte>) returns (out: array<bool>)
    ensures fresh(out) && out[..] == Bits(data)
  {
    out := new bool[8 * |data|];
    var i := 0;
    while i < |data|
      invariant 0 <= i <= |data|
      invariant forall p :: 0 <= p < 8 * i ==> out[p] == Bits(data)[p]
    {
      var d, j := data[i], 0;
      while j < 8
        invariant 0 <= j <= 8
        invariant d == data[i] << j
        invariant forall p :: 0 <= p < 8 * i + j ==> out[p] == Bits(data)[p]
      {
        out[8 * i + j] := TopBit(d);
        assert (8 * i + j) / 8 == i && (8 * i + j) % 8 == j;
        ShiftOnce(data[i], j);
        d := d << 1;
        j := j + 1;
      }
      i := i + 1;
    }
    assert out[..] == Bits(data);
  }

  /** Bit p of a byte string is bit 7 - p mod 8 of byte p / 8, counted from the least significant one. */
  lemma BitsAreDigits(data: seq<byte>, p: nat)
    requires p < 8 * |data|
    ensures Bits(data)[p] <==> (data[p / 8] >> (7 - p % 8)) & 1 == 1
  {
    hide BitAt;
    BitIsDigit(data[p / 8], p % 8);
  }

  lemma BitIsDigit(d: byte, j: nat)
    requires j < 8
    ensures BitAt(d, j) <==> (d >> (7 - j)) & 1 == 1
  {
  }

  lemma ShiftOnce(d: byte, j: nat)
    requires j < 8
    ensures (d << j) << 1 == d << (j + 1)
  {
  }

  lemma EightBits(d: byte, e: byte)
    requires forall j :: 0 <= j < 8 ==> BitAt(d, j) == BitAt(e, j)
    ensures d == e
  {
    assert BitAt(d, 0) == BitAt(e, 0) && BitAt(d, 1) == BitAt(e, 1);
    assert BitAt(d, 2) == BitAt(e, 2) && BitAt(d, 3) == BitAt(e, 3);
    assert BitAt(d, 4) == BitAt(e, 4) && BitAt(d, 5) == BitAt(e, 5);
    assert BitAt(d, 6) == BitAt(e, 6) && BitAt(d, 7) == BitAt(e, 7);
  }

  lemma BitsInjective(d: seq<byte>, e: seq<byte>)
    ensures Bits(d) == Bits(e) <==> d == e
  {
    if Bits(d) == Bits(e) {
      assert |d| == |e|;
      forall i | 0 <= i < |d| ensures d[i] == e[i] {
        forall j | 0 <= j < 8 ensures BitAt(d[i], j) == BitAt(e[i], j) {
          assert (8 * i + j) / 8 == i && (8 * i + j) % 8 == j;
          assert Bits(d)[8 * i + j] == Bits(e)[8 * i + j];
        }
        EightBits(d[i], e[i]);
      }
    }
  }

  // ---------- identifiers ----------

  /** The bytes of an identifier a query compares; none when the identifier is too short. */
  function Selected(info: Info, h: Hash256, email: seq<byte>): Option<seq<byte>> {
    if info.fromStart != 0 then
      if info.fromStart > |email| then None else Some(email[..info.fromStart])
    else if info.fromEnd != 0 then
      if info.fromEnd > |email| then None else Some(email[|email| - info.fromEnd..])
    else
      Some(h(email)[..16])
  }

  function IdForEmail(info: Info, h: Hash256, email: seq<byte>): Option<seq<bool>> {
    match Selected(info, h, email)
    case None => None
    case Some(s) => Some(Bits(s))
  }

  function IdForPubKeyAlgo(pka: byte): seq<bool> {
    Bits([pka])
  }

  function IdForCreationTime(marshalled: seq<byte>): seq<bool> {
    Bits(marshalled)
  }

  function IdForYearCreationTime(year: int): (r: seq<bool>)
    ensures |r| == 32
  {
    Bits(PutBigEndian(Wrap(year)))
  }

  /** What one record makes a server do: nothing, or evaluate an input, weighted by years. */
  datatype Item = Skip | Use(x: seq<bool>, years: nat)

  /** The query kinds the servers implement; on the others they panic. */
  predicate Recognised(info: Info) {
    !info.sum && (info.avg ==> info.conj)
  }

  function ItemOf(info: Info, h: Hash256, now: int, k: KeyInfo): Item
    requires Recognised(info)
  {
    if !info.conj then
      match info.target
      case UserId => (match IdForEmail(info, h, k.email) case None => Skip case Some(id) => Use(id, 0))
      case PubKeyAlgo => Use(IdForPubKeyAlgo(k.pubKeyAlgo), 0)
      case CreationTime => Use(IdForCreationTime(k.creationTime), 0)
    else if !info.avg then
      match IdForEmail(info, h, k.email)
      case None => Skip
      case Some(id) => Use(IdForYearCreationTime(k.year) + id, 0)
    else
      match IdForEmail(info, h, k.email)
      case None => Skip
      case Some(id) => if now - k.year < 0 then Skip else Use(id, now - k.year)
  }

  function Items(info: Info, h: Hash256, now: int, db: seq<KeyInfo>): (r: seq<Item>)
    requires Recognised(info)
    ensures |r| == |db|
  {
    seq(|db|, i requires 0 <= i < |db| => ItemOf(info, h, now, db[i]))
  }

  /** The client's input for a record it is looking for: email, algorithm, time and year given. */
  function InputOf(info: Info, h: Hash256, want: KeyInfo): Option<seq<bool>>
    requires Recognised(info)
  {
    if info.conj && !info.avg then
      (match IdForEmail(info, h, want.email)
       case None => None
       case Some(id) => Some(IdForYearCreationTime(want.year) + id))
    else if info.conj || info.target == UserId then IdForEmail(info, h, want.email)
    else if info.target == PubKeyAlgo then Some(IdForPubKeyAlgo(want.pubKeyAlgo))
    else Some(IdForCreationTime(want.creationTime))
  }

  /** The query cannot tell two identifiers apart: their first bytes agree, or their last ones, or the
      first 16 bytes of their hashes. */
  predicate Alike(info: Info, h: Hash256, e: seq<byte>, f: seq<byte>) {
    if info.fromStart > 0 then
      info.fromStart <= |e| && info.fromStart <= |f| && forall i :: 0 <= i < info.fromStart ==> e[i] == f[i]
    else if info.fromEnd > 0 then
      info.fromEnd <= |e| && info.fromEnd <= |f|
      && forall i :: |e| - info.fromEnd <= i < |e| ==> e[i] == f[i - |e| + |f|]
    else
      forall i :: 0 <= i < 16 ==> h(e)[i] == h(f)[i]
  }

  /** What the query asks of a record, said byte by byte. */
  predicate Matches(info: Info, h: Hash256, now: int, want: KeyInfo, k: KeyInfo) {
    if info.conj then
      Alike(info, h, want.email, k.email) && if info.avg then now >= k.year else (k.year - want.year) % TWO32 == 0
    else match info.target
      case UserId => Alike(info, h, want.email, k.email)
      case PubKeyAlgo => k.pubKeyAlgo == want.pubKeyAlgo
      case CreationTime => k.creationTime == want.creationTime
  }

  /** Identifiers long enough to be selected from are alike exactly when the selected bytes are equal. */
  lemma SelectedAlike(info: Info, h: Hash256, e: seq<byte>, f: seq<byte>)
    ensures Alike(info, h, e, f) <==> Selected(info, h, e).Some? && Selected(info, h, e) == Selected(info, h, f)
  {
    var n := info.fromEnd;
    if info.fromStart > 0 {
      if info.fromStart <= |e| && info.fromStart <= |f| {
        PrefixesEqual(e, f, info.fromStart);
      }
    } else if n > 0 {
      if n <= |e| && n <= |f| {
        SuffixesEqual(e, f, n);
      }
    } else {
      PrefixesEqual(h(e), h(f), 16);
    }
  }

  lemma SuffixesEqual<T>(s: seq<T>, t: seq<T>, n: nat)
    requires n <= |s| && n <= |t|
    ensures s[|s| - n..] == t[|t| - n..] <==> forall i :: |s| - n <= i < |s| ==> s[i] == t[i - |s| + |t|]
  {
    var u, v := s[|s| - n..], t[|t| - n..];
    if u == v {
      forall i | |s| - n <= i < |s| ensures s[i] == t[i - |s| + |t|] {
        assert u[i - |s| + n] == v[i - |s| + n];
      }
    }
    if forall i :: |s| - n <= i < |s| ==> s[i] == t[i - |s| + |t|] {
      forall k | 0 <= k < n ensures u[k] == v[k] {
        assert s[|s| - n + k] == t[|t| - n + k];
      }
    }
  }

  lemma PrefixesEqual<T>(s: seq<T>, t: seq<T>, n: nat)
    requires n <= |s| && n <= |t|
    ensures s[..n] == t[..n] <==> forall i :: 0 <= i < n ==> s[i] == t[i]
  {
    if s[..n] == t[..n] {
      forall i | 0 <= i < n ensures s[i] == t[i] {
        assert s[..n][i] == t[..n][i];
      }
    }
  }

  /** The client has an input exactly when its identifier, if the query compares one, is long enough. */
  lemma InputDefined(info: Info, h: Hash256, want: KeyInfo)
    requires Recognised(info)
    ensures InputOf(info, h, want).Some? <==> (info.conj || info.target == UserId ==> Selectable(info, want.email))
  {
    hide Bits, IdForYearCreationTime;
  }

  /** The identifier has the bytes a query selects. */
  predicate Selectable(info: Info, email: seq<byte>) {
    if info.fromStart > 0 then |email| >= info.fromStart else |email| >= info.fromEnd
  }

  /** A server skips exactly the records whose compared identifier is too short and, for an average, those with
      a year to come; the others are weighted by the years since, for an average. */
  lemma ItemDefined(info: Info, h: Hash256, now: int, k: KeyInfo)
    requires Recognised(info)
    ensures ItemOf(info, h, now, k) == Skip
       <==> || ((info.conj || info.target == UserId) && !Selectable(info, k.email))
            || (info.avg && k.year > now)
    ensures ItemOf(info, h, now, k).Use? ==> ItemOf(info, h, now, k).years == if info.avg then now - k.year else 0
  {
    hide Bits, IdForYearCreationTime;
  }

  lemma YearIdInjective(y: int, z: int)
    ensures IdForYearCreationTime(y) == IdForYearCreationTime(z) <==> (y - z) % TWO32 == 0
  {
    ModDifference(y, z, TWO32);
    BitsInjective(PutBigEndian(Wrap(y)), PutBigEndian(Wrap(z)));
    RoundTrip(Wrap(y));
    RoundTrip(Wrap(z));
  }

  lemma EmailIdInjective(info: Info, h: Hash256, e: seq<byte>, f: seq<byte>)
    requires IdForEmail(info, h, e).Some? && IdForEmail(info, h, f).Some?
    ensures IdForEmail(info, h, e) == IdForEmail(info, h, f) <==> Selected(info, h, e) == Selected(info, h, f)
    ensures |IdForEmail(info, h, e).value| == |IdForEmail(info, h, f).value|
  {
    BitsInjective(Selected(info, h, e).value, Selected(info, h, f).value);
  }

  /** A server's input equals the client's exactly when the record is one the query asks for. */
  lemma InputExact(info: Info, h: Hash256, now: int, want: KeyInfo, k: KeyInfo)
    requires Recognised(info) && InputOf(info, h, want).Some?
    requires |k.creationTime| == |want.creationTime|
    ensures var a, item := InputOf(info, h, want).value, ItemOf(info, h, now, k);
            && (item.Use? ==> |item.x| == |a|)
            && (item.Use? && item.x == a <==> Matches(info, h, now, want, k))
  {
    hide Bits, Selected, IdForYearCreationTime, Alike;
    if info.conj || info.target == UserId {
      EmailInputExact(info, h, now, want, k);
    } else if info.target == PubKeyAlgo {
      BitsInjective([k.pubKeyAlgo], [want.pubKeyAlgo]);
    } else {
      BitsInjective(k.creationTime, want.creationTime);
    }
  }

  lemma EmailInputExact(info: Info, h: Hash256, now: int, want: KeyInfo, k: KeyInfo)
    requires Recognised(info) && InputOf(info, h, want).Some? && (info.conj || info.target == UserId)
    ensures var a, item := InputOf(info, h, want).value, ItemOf(info, h, now, k);
            && (item.Use? ==> |item.x| == |a|)
            && (item.Use? && item.x == a <==> Matches(info, h, now, want, k))
  {
    hide Bits, Selected, IdForYearCreationTime, Alike;
    SelectedAlike(info, h, want.email, k.email);
    IdsExact(info, h, want, k);
  }

  /** Year and email identifiers alone and appended, against the fields they come from. */
  lemma IdsExact(info: Info, h: Hash256, want: KeyInfo, k: KeyInfo)
    requires IdForEmail(info, h, want.email).Some?
    ensures IdForEmail(info, h, k.email).Some? <==> Selected(info, h, k.email).Some?
    ensures IdForEmail(info, h, k.email).Some? ==>
              var e, f := IdForEmail(info, h, k.email).value, IdForEmail(info, h, want.email).value;
              var y, z := IdForYearCreationTime(k.year), IdForYearCreationTime(want.year);
              && |e| == |f| && (e == f <==> Selected(info, h, k.email) == Selected(info, h, want.email))
              && (y + e == z + f <==> y == z && e == f) && (y == z <==> (k.year - want.year) % TWO32 == 0)
  {
    hide Bits, Selected, IdForYearCreationTime;
    YearIdInjective(k.year, want.year);
    if IdForEmail(info, h, k.email).Some? {
      EmailIdInjective(info, h, k.email, want.email);
      AppendInjective(IdForYearCreationTime(k.year), IdForEmail(info, h, k.email).value,
                      IdForYearCreationTime(want.year), IdForEmail(info, h, want.email).value);
    }
  }

  lemma AppendInjective<T>(y: seq<T>, e: seq<T>, z: seq<T>, f: seq<T>)
    requires |y| == |z|
    ensures y + e == z + f <==> y == z && e == f
  {
    if y + e == z + f {
      assert y == (y + e)[..|y|] && z == (z + f)[..|z|];
      assert e == (y + e)[|y|..] && f == (z + f)[|z|..];
    }
  }
}
