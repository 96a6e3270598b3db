/** 2^31 - 1 is prime. Multiplication by an element of prime order p splits the non-zero
    residues of every divisor r into orbits of p elements, so p divides r - 1; three such orders
    leave nine candidates up to the square root, none of which divides. */
module Mersenne {
  import opened ModArith
  import opened Field

  /** g^n is z modulo MOD_P. */
  predicate Power(g: nat, n: nat, z: nat) {
    Pow(g, n) % MOD_P == z
  }

  /** The two steps of square-and-multiply modulo MOD_P. */
  lemma Square(g: nat, k: nat, y: nat, n: nat, z: nat, q: nat)
    requires Power(g, k, y) && n == 2 * k && y * y == q * MOD_P + z && z < MOD_P
    ensures Power(g, n, z)
  {
    ModUnique(y * y, q, z, MOD_P);
    PowAdd(g, k, k);
    ModProduct(Pow(g, k), Pow(g, k), MOD_P);
  }

  lemma Multiply(g: nat, k: nat, y: nat, n: nat, z: nat, q: nat)
    requires Power(g, k, y) && n == k + 1 && y * g == q * MOD_P + z && z < MOD_P
    ensures Power(g, n, z)
  {
    ModUnique(y * g, q, z, MOD_P);
    assert Pow(g, n) == Pow(g, k) * g;
    ModMul(Pow(g, k), g, MOD_P);
  }

  // ---------- orbits ----------

  /** g^i times x modulo r, one multiplication at a time. */
  function Turn(g: nat, r: nat, x: nat, i: nat): nat
    requires r > 0
  {
    if i == 0 then x else (g * Turn(g, r, x, i - 1)) % r
  }

  /** g has order dividing p modulo MOD_P, and u inverts g - 1 modulo MOD_P. */
  predicate Certificate(p: nat, g: nat, u: nat) {
    p > 1 && g > 1 && Power(g, p, 1) && (u * (g - 1)) % MOD_P == 1
  }

  predicate Prime(p: nat) {
    p > 1 && forall d :: 1 < d < p ==> p % d != 0
  }

  lemma {:induction false} TurnAdd(g: nat, r: nat, x: nat, i: nat, j: nat)
    requires r > 0
    ensures Turn(g, r, x, i + j) == Turn(g, r, Turn(g, r, x, i), j)
  {
    if j > 0 {
      TurnAdd(g, r, x, i, j - 1);
    }
  }

  lemma ScaledRemainder(g: nat, n: nat, r: nat)
    requires r > 0
    ensures (g * (n % r)) % r == (g * n) % r
  {
    ModMul(n, g, r);
  }

  lemma NextRemainder(g: nat, y: nat, x: nat, r: nat)
    requires r > 0
    ensures (g * ((y * x) % r)) % r == ((g * y) * x) % r
  {
    ScaledRemainder(g, y * x, r);
    MulAssoc(g, y, x);
  }

  lemma {:induction false} TurnPow(g: nat, r: nat, x: nat, i: nat)
    requires x < r
    ensures Turn(g, r, x, i) == (Pow(g, i) * x) % r
  {
    if i == 0 {
      ModSmall(x, r);
    } else {
      TurnPow(g, r, x, i - 1);
      assert Turn(g, r, x, i) == (g * Turn(g, r, x, i - 1)) % r && Pow(g, i) == g * Pow(g, i - 1);
      hide Turn, Pow;
      NextRemainder(g, Pow(g, i - 1), x, r);
    }
  }

  /** A remainder modulo MOD_P fixes the remainder modulo every divisor of MOD_P. */
  lemma DivisorRemainder(n: nat, y: nat, r: nat)
    requires Divisor(r) && n % MOD_P == 1
    ensures (n * y) % r == y % r
  {
    DivExact(MOD_P, r);
    MulAssoc(n / MOD_P, MOD_P / r, r);
    MultipleRemainder(n, n / MOD_P * (MOD_P / r), y, r);
  }

  lemma MultipleRemainder(n: nat, w: nat, y: nat, r: nat)
    requires r > 0 && n == w * r + 1
    ensures (n * y) % r == y % r
  {
    assert (w * r + 1) * y == y + (w * y) * r;
    ModShift(y, w * y, r);
  }

  /** The divisors above 1 of the modulus. */
  predicate Divisor(r: nat) {
    r > 1 && MOD_P % r == 0
  }

  /** p steps lead back. */
  lemma FullTurn(p: nat, g: nat, u: nat, r: nat, x: nat)
    requires Certificate(p, g, u) && Divisor(r) && x < r
    ensures Turn(g, r, x, p) == x
  {
    TurnPow(g, r, x, p);
    DivisorRemainder(Pow(g, p), x, r);
    ModSmall(x, r);
  }

  /** A number with an inverse modulo MOD_P can be cancelled modulo every divisor of MOD_P. */
  lemma Cancel(u: nat, v: nat, r: nat, x: nat)
    requires Divisor(r) && (u * v) % MOD_P == 1
    requires (v * x) % r == 0
    ensures x % r == 0
  {
    DivisorRemainder(u * v, x, r);
    ScaledRemainder(u, v * x, r);
    MulAssoc(u, v, x);
  }

  /** One step moves every non-zero residue. */
  lemma NoFixedPoint(p: nat, g: nat, u: nat, r: nat, x: nat)
    requires Certificate(p, g, u) && Divisor(r) && 0 < x < r
    ensures Turn(g, r, x, 1) != x
  {
    hide Pow;
    ModSmall(x, r);
    assert Turn(g, r, x, 1) == (g * Turn(g, r, x, 0)) % r;
    if Turn(g, r, x, 1) == x {
      ModDifference(g * x, x, r);
      MulSub(g, 1, x);
      Cancel(u, g - 1, r, x);
    }
  }

  lemma {:induction false} TurnMultiple(g: nat, r: nat, x: nat, d: nat, k: nat)
    requires r > 0 && Turn(g, r, x, d) == x
    ensures Turn(g, r, x, k * d) == x
  {
    if k > 0 {
      TurnMultiple(g, r, x, d, k - 1);
      MulSub(k, 1, d);
      TurnAdd(g, r, x, (k - 1) * d, d);
    }
  }

  /** For a prime p no shorter number of steps leads back. */
  lemma {:induction false} NoShorterPeriod(p: nat, g: nat, u: nat, r: nat, x: nat, d: nat)
    requires Certificate(p, g, u) && Prime(p) && Divisor(r) && 0 < x < r
    requires 0 < d < p
    ensures Turn(g, r, x, d) != x
    decreases d
  {
    hide Certificate, Divisor, Turn;
    if Turn(g, r, x, d) == x {
      var e := Remainder(p, g, u, r, x, d);
      if d == 1 {
        NoFixedPoint(p, g, u, r, x);
      } else {
        NoShorterPeriod(p, g, u, r, x, e);
      }
    }
  }

  /** The remainder of p by a period is a period; it is positive unless the period is 1. */
  lemma Remainder(p: nat, g: nat, u: nat, r: nat, x: nat, d: nat) returns (e: nat)
    requires Certificate(p, g, u) && Prime(p) && Divisor(r) && 0 < x < r
    requires 0 < d < p && Turn(g, r, x, d) == x
    ensures e < d && Turn(g, r, x, e) == x && (d > 1 ==> e > 0)
  {
    var q := p / d;
    e := p % d;
    assert p == q * d + e;
    FullTurn(p, g, u, r, x);
    hide Certificate, Divisor, Turn;
    TurnMultiple(g, r, x, d, q);
    TurnAdd(g, r, x, q * d, e);
  }

  /** The orbit of x stays among the non-zero residues. */
  lemma OrbitRange(p: nat, g: nat, u: nat, r: nat, x: nat, i: nat)
    requires Certificate(p, g, u) && Divisor(r) && 0 < x < r && i <= p
    ensures 0 < Turn(g, r, x, i) < r
  {
    if Turn(g, r, x, i) == 0 {
      FullTurn(p, g, u, r, x);
      TurnAdd(g, r, x, i, p - i);
      TurnPow(g, r, 0, p - i);
      ModSmall(0, r);
      assert false;
    }
  }

  function Orbit(g: nat, r: nat, x: nat, n: nat): set<nat>
    requires r > 0
  {
    set i | 0 <= i < n :: Turn(g, r, x, i)
  }

  lemma {:induction false} OrbitSize(p: nat, g: nat, u: nat, r: nat, x: nat, n: nat)
    requires Certificate(p, g, u) && Prime(p) && Divisor(r) && 0 < x < r && n <= p
    ensures |Orbit(g, r, x, n)| == n
  {
    hide Certificate, Prime, Turn;
    if n > 0 {
      OrbitSize(p, g, u, r, x, n - 1);
      var last := Turn(g, r, x, n - 1);
      assert Orbit(g, r, x, n) == Orbit(g, r, x, n - 1) + {last};
      forall i | 0 <= i < n - 1 ensures Turn(g, r, x, i) != last {
        var y := Turn(g, r, x, i);
        OrbitRange(p, g, u, r, x, i);
        TurnAdd(g, r, x, i, n - 1 - i);
        NoShorterPeriod(p, g, u, r, y, n - 1 - i);
      }
    }
  }

  predicate Closed(s: set<nat>, g: nat, r: nat)
    requires r > 0
  {
    forall x :: x in s ==> 0 < x < r && Turn(g, r, x, 1) in s
  }

  lemma {:induction false} OrbitInside(s: set<nat>, g: nat, r: nat, x: nat, i: nat)
    requires r > 0 && Closed(s, g, r) && x in s
    ensures Turn(g, r, x, i) in s
  {
    if i > 0 {
      OrbitInside(s, g, r, x, i - 1);
      TurnAdd(g, r, x, i - 1, 1);
    }
  }

  /** A step from outside an orbit never enters it. */
  lemma OutsideStays(p: nat, g: nat, u: nat, r: nat, x: nat, y: nat)
    requires Certificate(p, g, u) && Divisor(r) && 0 < x < r && 0 < y < r
    requires Turn(g, r, y, 1) in Orbit(g, r, x, p)
    ensures y in Orbit(g, r, x, p)
  {
    var i :| 0 <= i < p && Turn(g, r, x, i) == Turn(g, r, y, 1);
    FullTurn(p, g, u, r, x);
    FullTurn(p, g, u, r, y);
    TurnAdd(g, r, y, 1, p - 1);
    TurnAdd(g, r, x, i, p - 1);
    assert y == Turn(g, r, x, i + (p - 1));
    if i == 0 {
      assert y == Turn(g, r, x, p - 1);
    } else {
      TurnAdd(g, r, x, p, i - 1);
      assert y == Turn(g, r, x, i - 1);
    }
  }

  lemma {:induction false} ClosedSize(p: nat, g: nat, u: nat, r: nat, s: set<nat>)
    requires Certificate(p, g, u) && Prime(p) && Divisor(r)
    requires Closed(s, g, r)
    ensures |s| % p == 0
    decreases |s|
  {
    assert p > 1;
    hide Turn, Certificate, Prime, Divisor, Closed, Orbit;
    if s != {} {
      var x :| x in s;
      var orbit := Orbit(g, r, x, p);
      OrbitSplits(p, g, u, r, s, x);
      OrbitSize(p, g, u, r, x, p);
      ClosedSize(p, g, u, r, s - orbit);
      ModShift(|s - orbit|, 1, p);
    }
  }

  /** The orbit of a member lies inside a closed set, and what is left is closed. */
  lemma OrbitSplits(p: nat, g: nat, u: nat, r: nat, s: set<nat>, x: nat)
    requires Certificate(p, g, u) && Divisor(r) && Closed(s, g, r) && x in s
    ensures var orbit := Orbit(g, r, x, p); Closed(s - orbit, g, r) && |s| == |s - orbit| + |orbit|
    ensures 0 < x < r
  {
    hide Turn, Certificate;
    var orbit := Orbit(g, r, x, p);
    forall y | y in orbit ensures y in s {
      var i :| 0 <= i < p && y == Turn(g, r, x, i);
      OrbitInside(s, g, r, x, i);
    }
    forall y | y in s - orbit ensures Turn(g, r, y, 1) in s - orbit {
      if Turn(g, r, y, 1) in orbit {
        OutsideStays(p, g, u, r, x, y);
      }
    }
    assert s == orbit + (s - orbit) && orbit !! s - orbit;
  }

  /** The numbers 1 to n. */
  function Below(n: nat): (s: set<nat>)
    ensures forall x: nat :: x in s <==> 0 < x <= n
    ensures |s| == n
  {
    if n == 0 then {} else Below(n - 1) + {n}
  }

  lemma OrderDivides(p: nat, g: nat, u: nat, r: nat)
    requires Certificate(p, g, u) && Prime(p) && Divisor(r)
    ensures (r - 1) % p == 0
  {
    var s := Below(r - 1);
    forall x: nat | x in s ensures Turn(g, r, x, 1) in s {
      OrbitRange(p, g, u, r, x, 1);
    }
    ClosedSize(p, g, u, r, s);
  }

  // ---------- the two certificates ----------

  lemma SmallPrime(n: nat, root: nat)
    requires 1 < n < (root + 1) * (root + 1)
    requires forall e :: 1 < e <= root ==> n % e != 0
    ensures Prime(n)
  {
    forall d | 1 < d < n ensures n % d != 0 {
      if n % d == 0 {
        SmallFactor(n, d, root);
      }
    }
  }

  lemma SmallPrimes()
    ensures Prime(31) && Prime(7) && Prime(11)
  {
    forall e | 1 < e <= 5 ensures 31 % e != 0 {
      assert e in {2, 3, 4, 5};
    }
    SmallPrime(31, 5);
    SmallPrime(7, 2);
    SmallPrime(11, 3);
  }

  /** A proper divisor or its cofactor is at most the root bound. */
  lemma SmallFactor(n: nat, d: nat, root: nat)
    requires 1 < d < n && n % d == 0 && n < (root + 1) * (root + 1)
    ensures exists e :: 1 < e <= root && n % e == 0
  {
    Cofactor(n, d);
    if d > root {
      var k := n / d;
      if k > root {
        ProductMonotone(root + 1, d, root + 1);
        ProductMonotone(root + 1, k, d);
      }
    }
  }

  lemma PowerOne(g: nat)
    requires g < MOD_P
    ensures Power(g, 1, g)
  {
    assert Pow(g, 1) == g * Pow(g, 0);
  }

  lemma Order31()
    ensures Power(2, 31, 1)
  {
    hide Power;
    PowerOne(2);
    Square(2, 1, 2, 2, 4, 0);
    Multiply(2, 2, 4, 3, 8, 0);
    Square(2, 3, 8, 6, 64, 0);
    Multiply(2, 6, 64, 7, 128, 0);
    Square(2, 7, 128, 14, 16384, 0);
    Multiply(2, 14, 16384, 15, 32768, 0);
    Square(2, 15, 32768, 30, 1073741824, 0);
    Multiply(2, 30, 1073741824, 31, 1, 1);
  }

  lemma Order7()
    ensures Power(1752599774, 7, 1)
  {
    hide Power;
    PowerOne(1752599774);
    Square(1752599774, 1, 1752599774, 2, 1600955193, 1430327989);
    Multiply(1752599774, 2, 1600955193, 3, 1537170743, 1306568137);
    Square(1752599774, 3, 1537170743, 6, 1205362885, 1100308212);
    Multiply(1752599774, 6, 1205362885, 7, 1, 983718187);
  }

  lemma Order11()
    ensures Power(298192073, 11, 1)
  {
    hide Power;
    PowerOne(298192073);
    Square(298192073, 1, 298192073, 2, 2080850853, 41405908);
    Square(298192073, 2, 2080850853, 4, 353622995, 2016285562);
    Multiply(298192073, 4, 353622995, 5, 100973744, 49102853);
    Square(298192073, 5, 100973744, 10, 819686109, 4747741);
    Multiply(298192073, 10, 819686109, 11, 1, 113818748);
  }

  lemma Certificates()
    ensures Certificate(31, 2, 1)
    ensures Certificate(7, 1752599774, 678693448)
    ensures Certificate(11, 298192073, 1763801231)
  {
    hide Power;
    Order31();
    Order7();
    Order11();
  }

  /** Every divisor above 1 is 1 modulo 2 * 7 * 11 * 31, and the few such numbers up to the
      square root do not divide. */
  lemma LargeDivisor(r: nat)
    requires Divisor(r)
    ensures r > 46340
  {
    hide Certificate, Prime;
    Certificates();
    SmallPrimes();
    OrderDivides(31, 2, 1, r);
    OrderDivides(7, 1752599774, 678693448, r);
    OrderDivides(11, 298192073, 1763801231, r);
    OddDivisor(r);
    var k := CommonMultiple(r - 1);
    if k <= 9 {
      SmallCandidate(k);
    }
  }

  lemma OddDivisor(r: nat)
    requires Divisor(r)
    ensures (r - 1) % 2 == 0
  {
    DivExact(MOD_P, r);
    if r % 2 == 0 {
      EvenFactor(MOD_P / r, r);
    }
  }

  lemma EvenFactor(k: nat, r: nat)
    requires r % 2 == 0
    ensures (k * r) % 2 == 0
  {
    ScaledRemainder(k, r, 2);
  }

  lemma CoprimeMultiple(n: nat, a: nat, b: nat, s: nat, t: nat)
    requires a > 0 && b > 0 && n % a == 0 && n % b == 0 && s * a == t * b + 1
    ensures n % (a * b) == 0
  {
    DivExact(n, a);
    DivExact(n, b);
    var j, k := n / a, n / b;
    ProductBound(0, 0, a, b);
    Bezout(n, a, b, s, t, j, k);
    ModUnique(n, k * s - j * t, 0, a * b);
  }

  lemma Bezout(n: int, a: int, b: int, s: int, t: int, j: int, k: int)
    requires n == j * a && n == k * b && s * a == t * b + 1
    ensures n == (k * s - j * t) * (a * b)
  {
    assert (k * s) * (a * b) == (k * b) * (s * a);
    assert (j * t) * (a * b) == (j * a) * (t * b);
    MulSub(k * s, j * t, a * b);
    MulSub(s * a, t * b, n);
  }

  lemma CommonMultiple(n: nat) returns (k: nat)
    requires n > 0 && n % 2 == 0 && n % 7 == 0 && n % 11 == 0 && n % 31 == 0
    ensures n == 4774 * k && k >= 1
  {
    CoprimeMultiple(n, 2, 7, 4, 1);
    CoprimeMultiple(n, 14, 11, 4, 5);
    CoprimeMultiple(n, 154, 31, 30, 149);
    k := n / 4774;
  }

  lemma SmallCandidate(k: nat)
    requires 1 <= k <= 9
    ensures MOD_P % (4774 * k + 1) != 0
  {
    assert k in {1, 2, 3, 4, 5, 6, 7, 8, 9};
  }

  lemma MersennePrime()
    ensures Prime(MOD_P)
  {
    forall d | 1 < d < MOD_P ensures MOD_P % d != 0 {
      if MOD_P % d == 0 {
        var k := MOD_P / d;
        Cofactor(MOD_P, d);
        LargeDivisor(d);
        LargeDivisor(k);
        ProductMonotone(46341, d, 46341);
        ProductMonotone(46341, k, d);
      }
    }
  }

  /** Euclid's lemma below a prime: a product of two smaller positive numbers is no multiple. */
  lemma {:induction false} NoZeroDivisors(p: nat, a: nat, b: nat)
    requires Prime(p) && 0 < a < p && 0 < b < p
    ensures (a * b) % p != 0
    decreases a
  {
    if (a * b) % p == 0 {
      if a == 1 {
        ModSmall(b, p);
      } else {
        var q, r := p / a, p % a;
        assert p == q * a + r;
        NoZeroDivisors(p, r, b);
        DivExact(a * b, p);
        SmallerMultiple(p, a, b, q, r, a * b / p);
      }
    }
  }

  /** If p divides a b it divides (p mod a) b. */
  lemma SmallerMultiple(p: nat, a: nat, b: nat, q: nat, r: nat, k: nat)
    requires p > 0 && a * b == k * p && p == q * a + r
    ensures (r * b) % p == 0
  {
    assert r * b == p * b - q * (a * b);
    assert q * (k * p) == (q * k) * p;
    MulSub(b, q * k, p);
    ModUnique(r * b, b - q * k, 0, p);
  }
}
