/** The servers of the predicate scheme: shares summed over all records of the database. */
module PredicateServer {
  import opened Words
  import opened Field
  import opened FssTree
  import opened FssPoint
  import opened FssScheme
  import opened Query

  /** Running sums of the shares: their plain sum, and the sum weighted by years. */
  datatype Totals = Totals(count: seq<u32>, sum: seq<u32>)

  /** A share times a year difference: a 64-bit product reduced into the field. */
  function Scaled(y: u32, years: nat): u32 {
    Norm(y * years % 0x1_0000_0000_0000_0000)
  }

  function AddShares(count: seq<u32>, y: seq<u32>): (r: seq<u32>)
    requires |count| == |y|
    ensures |r| == |y|
  {
    seq(|y|, j requires 0 <= j < |y| => Norm(Add(count[j], y[j])))
  }

  function AddScaled(sum: seq<u32>, y: seq<u32>, years: nat): (r: seq<u32>)
    requires |sum| == |y|
    ensures |r| == |y|
  {
    seq(|y|, j requires 0 <= j < |y| => Norm(Add(sum[j], Scaled(y[j], years))))
  }

  /** Every record's input can be evaluated under the key. */
  predicate AllFit(k: Key, items: seq<Item>, n: nat) {
    forall i :: 0 <= i < |items| ==> items[i].Use? ==> Fits(k, |items[i].x|, n)
  }

  /** What one record adds to the totals: nothing, or a share vector and its weight. */
  datatype Part = Nothing | Part(y: seq<u32>, years: nat)

  predicate PartOk(part: Part, n: nat) {
    part.Part? ==> |part.y| == n
  }

  function PartOf(c: Cipher, server: byte, k: Key, n: nat, item: Item, draw: Draws): (part: Part)
    requires item.Use? ==> Fits(k, |item.x|, n)
    ensures PartOk(part, n)
  {
    match item
    case Skip => Nothing
    case Use(x, years) => Part(Eval(c, server, k, x, n, draw), years)
  }

  function AddPart(t: Totals, part: Part): (u: Totals)
    requires |t.count| == |t.sum| && PartOk(part, |t.count|)
    ensures |u.count| == |u.sum| == |t.count|
  {
    match part
    case Nothing => t
    case Part(y, years) => Totals(AddShares(t.count, y), AddScaled(t.sum, y, years))
  }

  function SumParts(parts: seq<Part>, n: nat): (t: Totals)
    requires forall i :: 0 <= i < |parts| ==> PartOk(parts[i], n)
    ensures |t.count| == |t.sum| == n
  {
    if |parts| == 0 then Totals(seq(n, _ => 0), seq(n, _ => 0))
    else AddPart(SumParts(parts[..|parts| - 1], n), parts[|parts| - 1])
  }

  /** The parts of all records; record i redraws from draws(i). */
  function Parts(c: Cipher, server: byte, k: Key, n: nat, items: seq<Item>, draws: nat -> Draws): (r: seq<Part>)
    requires AllFit(k, items, n)
    ensures |r| == |items|
    ensures forall i :: 0 <= i < |r| ==> r[i] == PartOf(c, server, k, n, items[i], draws(i))
    ensures forall i :: 0 <= i < |r| ==> PartOk(r[i], n)
  {
    seq(|items|, i requires 0 <= i < |items| => PartOf(c, server, k, n, items[i], draws(i)))
  }

  /** The totals over all records. */
  function Tally(c: Cipher, server: byte, k: Key, n: nat, items: seq<Item>, draws: nat -> Draws): (t: Totals)
    requires AllFit(k, items, n)
    ensures |t.count| == |t.sum| == n
  {
    SumParts(Parts(c, server, k, n, items, draws), n)
  }

  lemma NoParts(parts: seq<Part>, n: nat)
    requires forall i :: 0 <= i < |parts| ==> PartOk(parts[i], n)
    ensures SumParts(parts[..0], n) == Totals(seq(n, _ => 0), seq(n, _ => 0))
  {
  }

  lemma NextPart(parts: seq<Part>, n: nat, i: nat)
    requires i < |parts| && forall i :: 0 <= i < |parts| ==> PartOk(parts[i], n)
    ensures SumParts(parts[..i + 1], n) == AddPart(SumParts(parts[..i], n), parts[i])
  {
    hide AddPart;
    assert parts[..i + 1][..i] == parts[..i];
  }

  method AddInto(out: array<u32>, tmp: array<u32>)
    requires out.Length == tmp.Length && out != tmp
    modifies out
    ensures out[..] == AddShares(old(out[..]), tmp[..])
  {
    ghost var goal := AddShares(out[..], tmp[..]);
    var j := 0;
    while j < out.Length
      invariant 0 <= j <= out.Length
      invariant forall m :: 0 <= m < j ==> out[m] == goal[m]
      invariant forall m :: j <= m < out.Length ==> out[m] == old(out[m])
    {
      out[j] := Norm(Add(out[j], tmp[j]));
      j := j + 1;
    }
    assert out[..] == goal;
  }

  method AddScaledInto(sum: array<u32>, tmp: array<u32>, years: nat)
    requires sum.Length == tmp.Length && sum != tmp
    modifies sum
    ensures sum[..] == AddScaled(old(sum[..]), tmp[..], years)
  {
    ghost var goal := AddScaled(sum[..], tmp[..], years);
    var j := 0;
    while j < sum.Length
      invariant 0 <= j <= sum.Length
      invariant forall m :: 0 <= m < j ==> sum[m] == goal[m]
      invariant forall m :: j <= m < sum.Length ==> sum[m] == old(sum[m])
    {
      sum[j] := Norm(Add(sum[j], Scaled(tmp[j], years)));
      j := j + 1;
    }
    assert sum[..] == goal;
  }

  class Server {
    const db: seq<KeyInfo>
    const serverNum: byte
    const hash: Hash256
    const fss: Fss

    ghost predicate Valid()
      reads fss.outConvertBlock
    {
      fss.Valid()
    }

    constructor (c: Cipher, h: Hash256, db: seq<KeyInfo>, serverNum: byte, blockLength: nat)
      ensures Valid() && fresh(fss.Repr())
      ensures this.db == db && this.serverNum == serverNum && hash == h
      ensures fss.cipher == c && fss.BlockLength() == blockLength
    {
      this.db, this.serverNum, hash := db, serverNum, h;
      fss := new Fss(c, blockLength);
    }

    /** Evaluates one record's input and adds the share to the running sums. */
    method Record(item: Item, k: Key, avg: bool, out: array<u32>, tmp: array<u32>, sum: array<u32>, draw: Draws,
                  ghost t: Totals)
      requires Valid() && fss.BlockLength() / 4 <= MAX_BLOCKS
      requires out.Length == tmp.Length == sum.Length == fss.BlockLength()
      requires out != tmp && out != sum && tmp != sum && {out, tmp, sum} !! fss.Repr()
      requires item.Use? ==> Fits(k, |item.x|, out.Length)
      requires |t.count| == |t.sum| == out.Length
      requires out[..] == t.count && (avg ==> sum[..] == t.sum)
      modifies fss.Repr(), out, tmp, sum
      ensures Valid()
      ensures var u := AddPart(t, PartOf(fss.cipher, serverNum, k, out.Length, item, draw));
              out[..] == u.count && (avg ==> sum[..] == u.sum)
    {
      if item.Use? {
        fss.EvaluatePF(serverNum, k, item.x, tmp, draw);
        assert out[..] == old(out[..]) && sum[..] == old(sum[..]);
        AddInto(out, tmp);
        if avg {
          assert sum[..] == old(sum[..]);
          AddScaledInto(sum, tmp, item.years);
        }
      }
    }

    /** The answer to a query: the totals over the whole database, count first, and the weighted
        sum behind it for an average. now is the current year; record i redraws from draws(i). */
    method Answer(info: Info, k: Key, now: int, draws: nat -> Draws) returns (answer: seq<u32>)
      requires Valid() && Recognised(info) && fss.BlockLength() / 4 <= MAX_BLOCKS
      requires AllFit(k, Items(info, hash, now, db), fss.BlockLength())
      modifies fss.Repr()
      ensures Valid()
      ensures var t := Tally(fss.cipher, serverNum, k, fss.BlockLength(), Items(info, hash, now, db), draws);
              answer == if info.avg then t.count + t.sum else t.count
    {
      hide PartOf, AddPart, ItemOf, SumParts;
      var n := fss.BlockLength();
      ghost var items := Items(info, hash, now, db);
      ghost var parts := Parts(fss.cipher, serverNum, k, n, items, draws);
      ghost var t := SumParts(parts[..0], n);
      var out, tmp, sum := new u32[n](_ => 0), new u32[n], new u32[n](_ => 0);
      assert out[..] == t.count && sum[..] == t.sum by { NoParts(parts, n); }
      var i := 0;
      while i < |db|
        invariant 0 <= i <= |db|
        invariant Valid()
        invariant t == SumParts(parts[..i], n)
        invariant out[..] == t.count && (info.avg ==> sum[..] == t.sum)
      {
        var item := ItemOf(info, hash, now, db[i]);
        assert items[i] == item;
        Record(item, k, info.avg, out, tmp, sum, draws(i), t);
        NextPart(parts, n, i);
        t := AddPart(t, parts[i]);
        i := i + 1;
      }
      assert parts[..i] == parts;
      answer := if info.avg then out[..] + sum[..] else out[..];
    }
  }
}
