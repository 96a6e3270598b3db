/** The client of the predicate scheme: MAC keys, key generation, and reconstruction with tag
    checks for a count and for an average. */
module PredicateClient {
  import opened Words
  import opened Field
  import opened FssTree
  import opened FssPoint
  import opened FssScheme

  type Element = e: u32 | e < MOD_P

  /** What reconstruction does; the average of no records divides by zero, and an answer that is too
      short stops the client on an index past its end. */
  datatype Outcome = Value(v: u32) | Rejected | DivideByZero | Stopped

  /** A word added up from both answers, as the client adds it. */
  function Sum(y0: seq<u32>, y1: seq<u32>, j: nat): u32
    requires j < |y0| && j < |y1|
  {
    Norm(Add(y0[j], y1[j]))
  }

  /** The 64-bit tag product reduced into the field. */
  function Tag(data: u32, alpha: u32): u32 {
    Norm(data * alpha % 0x1_0000_0000_0000_0000)
  }

  /** Tag i behind a data word agrees with it. */
  predicate TagAgrees(y0: seq<u32>, y1: seq<u32>, alphas: seq<u32>, from: nat, i: nat)
    requires i < |alphas| && from + i + 1 < |y0| && from + i + 1 < |y1|
  {
    Tag(Sum(y0, y1, from), alphas[i]) == Sum(y0, y1, from + i + 1)
  }

  /** The tags from i on behind a data word agree with it. */
  predicate AgreeFrom(y0: seq<u32>, y1: seq<u32>, alphas: seq<u32>, from: nat, n: nat, i: nat)
    requires |alphas| == n && from + n <= |y0| && from + n <= |y1|
  {
    forall m :: i <= m < n - 1 ==> TagAgrees(y0, y1, alphas, from, m)
  }

  predicate TagsAgree(y0: seq<u32>, y1: seq<u32>, alphas: seq<u32>, from: nat, n: nat)
    requires |alphas| == n && from + n <= |y0| && from + n <= |y1|
  {
    AgreeFrom(y0, y1, alphas, from, n, 0)
  }

  /** What the average branch returns for the two reconstructed words. */
  function Quotient(years: u32, hits: u32): Outcome {
    if hits == 0 then DivideByZero else Value(years / hits)
  }

  /** The count branch from tag i on. */
  function CountFrom(y0: seq<u32>, y1: seq<u32>, alphas: seq<u32>, n: nat, i: nat): Outcome
    requires 1 <= n == |alphas| && |y0| >= 1 && |y1| >= 1
    decreases n - i
  {
    if i >= n - 1 then Value(Sum(y0, y1, 0))
    else if i + 1 >= |y0| || i + 1 >= |y1| then Stopped
    else if !TagAgrees(y0, y1, alphas, 0, i) then Rejected
    else CountFrom(y0, y1, alphas, n, i + 1)
  }

  /** The average branch from tag i on; count and sum tags alternate. */
  function AverageFrom(y0: seq<u32>, y1: seq<u32>, alphas: seq<u32>, n: nat, i: nat): Outcome
    requires 1 <= n == |alphas| && |y0| == 2 * n && |y1| > n
    decreases n - i
  {
    if i >= n - 1 then Quotient(Sum(y0, y1, n), Sum(y0, y1, 0))
    else if !TagAgrees(y0, y1, alphas, 0, i) then Rejected
    else if n + i + 1 >= |y1| then Stopped
    else if !TagAgrees(y0, y1, alphas, n, i) then Rejected
    else AverageFrom(y0, y1, alphas, n, i + 1)
  }

  /** The decision of reconstruct on answers of any lengths: the branch is chosen by the length of
      the first one alone, whatever was asked. */
  function Decide(y0: seq<u32>, y1: seq<u32>, alphas: seq<u32>, n: nat): Outcome
    requires 1 <= n == |alphas|
  {
    if |y0| == 2 * n then
      if |y1| <= n then Stopped else AverageFrom(y0, y1, alphas, n, 0)
    else if |y0| == 0 || |y1| == 0 then Stopped
    else CountFrom(y0, y1, alphas, n, 0)
  }

  /** Both answers have the words the chosen branch reads. */
  predicate LongEnough(y0: seq<u32>, y1: seq<u32>, n: nat) {
    n <= |y0| && n <= |y1| && (|y0| == 2 * n ==> 2 * n <= |y1|)
  }

  lemma {:induction false} CountFromExact(y0: seq<u32>, y1: seq<u32>, alphas: seq<u32>, n: nat, i: nat)
    requires 1 <= n == |alphas| && |y0| >= 1 && |y1| >= 1 && i < n && i < |y0| && i < |y1|
    ensures CountFrom(y0, y1, alphas, n, i).Value? ==> n <= |y0| && n <= |y1|
    ensures n <= |y0| && n <= |y1| ==>
              CountFrom(y0, y1, alphas, n, i)
                == if AgreeFrom(y0, y1, alphas, 0, n, i) then Value(Sum(y0, y1, 0)) else Rejected
    decreases n - i
  {
    hide TagAgrees, Sum;
    if i < n - 1 && i + 1 < |y0| && i + 1 < |y1| {
      CountFromExact(y0, y1, alphas, n, i + 1);
    }
  }

  lemma {:induction false} AverageFromExact(y0: seq<u32>, y1: seq<u32>, alphas: seq<u32>, n: nat, i: nat)
    requires 1 <= n == |alphas| && |y0| == 2 * n && i < n && n + i < |y1|
    ensures AverageFrom(y0, y1, alphas, n, i).Value? ==> 2 * n <= |y1|
    ensures 2 * n <= |y1| ==>
              AverageFrom(y0, y1, alphas, n, i)
                == if AgreeFrom(y0, y1, alphas, 0, n, i) && AgreeFrom(y0, y1, alphas, n, n, i)
                   then Quotient(Sum(y0, y1, n), Sum(y0, y1, 0)) else Rejected
    decreases n - i
  {
    hide TagAgrees, Sum, Quotient;
    if i < n - 1 && n + i + 1 < |y1| {
      AverageFromExact(y0, y1, alphas, n, i + 1);
    }
  }

  /** A value needs answers that are long enough; on those the decision is rejection on any
      disagreeing tag, and otherwise the count or the quotient. */
  lemma DecideExact(y0: seq<u32>, y1: seq<u32>, alphas: seq<u32>, n: nat)
    requires 1 <= n == |alphas|
    ensures Decide(y0, y1, alphas, n).Value? ==> LongEnough(y0, y1, n)
    ensures LongEnough(y0, y1, n) ==>
              Decide(y0, y1, alphas, n)
                == if !TagsAgree(y0, y1, alphas, 0, n) then Rejected
                   else if |y0| != 2 * n then Value(Sum(y0, y1, 0))
                   else if !TagsAgree(y0, y1, alphas, n, n) then Rejected
                   else Quotient(Sum(y0, y1, n), Sum(y0, y1, 0))
  {
    hide AgreeFrom, CountFrom, AverageFrom, Sum, Quotient;
    if |y0| == 2 * n {
      if |y1| > n {
        AverageFromExact(y0, y1, alphas, n, 0);
      }
    } else if |y0| > 0 && |y1| > 0 {
      CountFromExact(y0, y1, alphas, n, 0);
    }
  }

  /** The tags from i up to j agree. */
  predicate AgreeBetween(y0: seq<u32>, y1: seq<u32>, alphas: seq<u32>, from: nat, i: nat, j: nat)
    requires j <= |alphas| && from + j < |y0| && from + j < |y1|
  {
    forall m :: i <= m < j ==> TagAgrees(y0, y1, alphas, from, m)
  }

  lemma {:induction false} CountFromShort(y0: seq<u32>, y1: seq<u32>, alphas: seq<u32>, n: nat, i: nat, m: nat)
    requires 1 <= n == |alphas| && m == Min(|y0|, |y1|) && i < m < n
    ensures CountFrom(y0, y1, alphas, n, i)
         == if AgreeBetween(y0, y1, alphas, 0, i, m - 1) then Stopped else Rejected
    decreases n - i
  {
    hide TagAgrees, Sum;
    if i + 1 < m {
      CountFromShort(y0, y1, alphas, n, i + 1, m);
    }
  }

  lemma {:induction false} AverageFromShort(y0: seq<u32>, y1: seq<u32>, alphas: seq<u32>, n: nat, i: nat, m: nat)
    requires 1 <= n == |alphas| && |y0| == 2 * n && |y1| == n + m && i < m < n
    ensures AverageFrom(y0, y1, alphas, n, i)
         == if AgreeBetween(y0, y1, alphas, 0, i, m) && AgreeBetween(y0, y1, alphas, n, i, m - 1) then Stopped
            else Rejected
    decreases n - i
  {
    hide TagAgrees, Sum, Quotient;
    if i + 1 < m {
      AverageFromShort(y0, y1, alphas, n, i + 1, m);
    }
  }

  /** On shorter answers no value is returned: the client rejects on a disagreeing tag among those it reaches
      before the first missing word, and stops on that word otherwise. */
  lemma DecideShort(y0: seq<u32>, y1: seq<u32>, alphas: seq<u32>, n: nat)
    requires 1 <= n == |alphas| && !LongEnough(y0, y1, n)
    ensures Decide(y0, y1, alphas, n)
         == if |y0| == 2 * n then
              if |y1| > n && !(AgreeBetween(y0, y1, alphas, 0, 0, |y1| - n)
                               && AgreeBetween(y0, y1, alphas, n, 0, |y1| - n - 1)) then Rejected
              else Stopped
            else
              if |y0| > 0 && |y1| > 0 && !AgreeBetween(y0, y1, alphas, 0, 0, Min(|y0|, |y1|) - 1) then Rejected
              else Stopped
  {
    hide AgreeBetween, CountFrom, AverageFrom, Sum, Quotient;
    if |y0| == 2 * n {
      if |y1| > n {
        AverageFromShort(y0, y1, alphas, n, 0, |y1| - n);
      }
    } else if |y0| > 0 && |y1| > 0 {
      CountFromShort(y0, y1, alphas, n, 0, Min(|y0|, |y1|));
    }
  }

  /** The drawn MAC keys; the last slot of the slice is never filled. */
  function MacKeys(rnd: nat -> Element, n: nat): (r: seq<u32>)
    ensures |r| == n && Canonical(r)
    ensures forall i :: 0 <= i < n - 1 ==> r[i] == rnd(i)
  {
    seq<u32>(n, i requires 0 <= i < n => if i < n - 1 then rnd(i) else 0)
  }

  /** A random source that lists these keys first. */
  function Listing(k: seq<u32>): (rnd: nat -> Element)
    requires Canonical(k)
    ensures forall i :: 0 <= i < |k| ==> rnd(i) == k[i]
  {
    (i: nat) => if i < |k| then k[i] else 0
  }

  /** The target values of a query: 1 for the data, then the MAC keys. */
  function TargetValues(alphas: seq<u32>): (b: seq<u32>)
    requires |alphas| >= 1
    ensures |b| == |alphas|
    ensures b[0] == 1 && forall i :: 0 <= i < |b| - 1 ==> b[i + 1] == alphas[i]
  {
    [1] + alphas[..|alphas| - 1]
  }

  class Client {
    const executions: nat
    const fss: Fss
    var alphas: seq<u32>
    var a: seq<u32>

    ghost predicate Valid()
      reads fss.outConvertBlock
    {
      fss.Valid() && fss.BlockLength() == executions && 1 <= executions && executions / 4 <= MAX_BLOCKS
    }

    constructor (c: Cipher, executions: nat)
      requires 1 <= executions && executions / 4 <= MAX_BLOCKS
      ensures Valid() && fresh(fss.Repr())
      ensures this.executions == executions && fss.cipher == c
    {
      this.executions := executions;
      fss := new Fss(c, executions);
      alphas, a := [], [];
    }

    /** Draws the MAC keys into the state and generates the two servers' keys. */
    method Query(input: seq<bool>, rnd: nat -> Element, rand0: seq<byte>, rand1: Block, g0: Draws, g1: Draws)
      returns (k0: Key, k1: Key)
      requires Valid() && |rand0| == 17
      modifies this, fss.Repr()
      ensures Valid() && alphas == MacKeys(rnd, executions) && a == TargetValues(alphas)
      ensures a[0] == 1 && forall i :: 0 <= i < executions - 1 ==> alphas[i] == rnd(i) && a[i + 1] == rnd(i)
      ensures var p := Root(rand0, rand1);
              k0 == KeyOf(fss.cipher, p, p.n0, input, a, g0, g1)
              && k1 == KeyOf(fss.cipher, p, p.n1, input, a, g0, g1)
    {
      hide KeyOf, Root;
      alphas := seq(executions, _ => 0);
      a := seq(executions, _ => 0);
      a := a[0 := 1];
      var i := 0;
      while i < executions - 1
        invariant 0 <= i <= executions - 1
        invariant |alphas| == |a| == executions && a[0] == 1 && Valid()
        invariant forall m :: 0 <= m < executions ==> alphas[m] == if m < i then rnd(m) else 0
        invariant forall m :: 0 <= m < i ==> a[m + 1] == alphas[m]
      {
        alphas := alphas[i := rnd(i)];
        a := a[i + 1 := alphas[i]];
        i := i + 1;
      }
      assert a == TargetValues(alphas) && alphas == MacKeys(rnd, executions);
      k0, k1 := fss.GenerateTreePF(input, a, rand0, rand1, g0, g1);
    }

    method CheckTag(y0: seq<u32>, y1: seq<u32>, from: nat, i: nat) returns (ok: bool)
      requires i < |alphas| && from + i + 1 < |y0| && from + i + 1 < |y1|
      ensures ok == TagAgrees(y0, y1, alphas, from, i)
    {
      hide Sum, Tag;
      var data := Sum(y0, y1, from);
      var tag := Tag(data, alphas[i]);
      ok := tag == Sum(y0, y1, from + i + 1);
    }

    /** Answers of any lengths; every access past the end of one stops the client. */
    method Reconstruct(y0: seq<u32>, y1: seq<u32>) returns (r: Outcome)
      requires Valid() && |alphas| == executions
      ensures r == Decide(y0, y1, alphas, executions)
    {
      hide Sum, TagAgrees;
      var n := executions;
      var i := 0;
      if |y0| == 2 * n {
        if |y1| <= n {
          return Stopped;
        }
        while i < n - 1
          invariant 0 <= i <= n - 1
          invariant Decide(y0, y1, alphas, n) == AverageFrom(y0, y1, alphas, n, i)
        {
          var count := CheckTag(y0, y1, 0, i);
          if !count {
            return Rejected;
          }
          if n + i + 1 >= |y1| {
            return Stopped;
          }
          var sum := CheckTag(y0, y1, n, i);
          if !sum {
            return Rejected;
          }
          i := i + 1;
        }
        var dataCount, sumCount := Sum(y0, y1, 0), Sum(y0, y1, n);
        return if dataCount == 0 then DivideByZero else Value(sumCount / dataCount);
      } else {
        if |y0| == 0 || |y1| == 0 {
          return Stopped;
        }
        while i < n - 1
          invariant 0 <= i <= n - 1
          invariant Decide(y0, y1, alphas, n) == CountFrom(y0, y1, alphas, n, i)
        {
          if i + 1 >= |y0| || i + 1 >= |y1| {
            return Stopped;
          }
          var data := CheckTag(y0, y1, 0, i);
          if !data {
            return Rejected;
          }
          i := i + 1;
        }
        return Value(Sum(y0, y1, 0));
      }
    }
  }
}
