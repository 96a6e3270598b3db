/** Remainders of sums, differences and products, for any positive modulus. */
module ModArith {

  lemma MulAssoc(x: int, y: int, z: int)
    ensures (x * y) * z == x * (y * z)
  {
  }

  lemma MulSub(x: int, y: int, z: int)
    ensures (x - y) * z == x * z - y * z
    ensures z * (x - y) == z * x - z * y
  {
  }

  lemma DivExact(n: int, d: int)
    requires d > 0 && n % d == 0
    ensures n == (n / d) * d
  {
  }

  lemma MultipleBound(d: int, m: int)
    requires m > 0
    ensures d >= 1 ==> d * m >= m
    ensures d <= -1 ==> d * m <= -m
  {
  }

  lemma ModUnique(x: int, q: int, r: int, m: int)
    requires 0 <= r < m && x == q * m + r
    ensures x % m == r
  {
    var d := x / m - q;
    assert x == (x / m) * m + x % m;
    assert d * m == r - x % m by {
      assert d * m == (x / m) * m - q * m;
    }
    MultipleBound(d, m);
  }

  lemma ModShift(x: int, k: int, m: int)
    requires m > 0
    ensures (x + k * m) % m == x % m
  {
    assert x + k * m == (x / m + k) * m + x % m by {
      assert (x / m + k) * m == (x / m) * m + k * m;
    }
    ModUnique(x + k * m, x / m + k, x % m, m);
  }

  lemma ModAdd(x: int, y: int, m: int)
    requires m > 0
    ensures (x % m + y) % m == (x + y) % m
  {
    assert x + y == (x % m + y) + (x / m) * m;
    ModShift(x % m + y, x / m, m);
  }

  lemma ModSub(x: int, y: int, m: int)
    requires m > 0
    ensures (x - y % m) % m == (x - y) % m
  {
    assert x - y == (x - y % m) + (-(y / m)) * m by {
      assert (-(y / m)) * m == -((y / m) * m);
    }
    ModShift(x - y % m, -(y / m), m);
  }

  lemma ModMul(x: int, y: int, m: int)
    requires m > 0
    ensures ((x % m) * y) % m == (x * y) % m
  {
    assert x * y == (x % m) * y + ((x / m) * y) * m by {
      assert x == (x / m) * m + x % m;
      assert ((x / m) * y) * m == ((x / m) * m) * y;
      assert x * y == ((x / m) * m + x % m) * y;
    }
    ModShift((x % m) * y, (x / m) * y, m);
  }

  /** A remainder already in range stands for itself. */
  lemma ModSmall(x: int, m: int)
    requires 0 <= x < m
    ensures x % m == x
  {
    ModUnique(x, 0, x, m);
  }

  lemma ModSum(x: int, y: int, m: int)
    requires m > 0
    ensures (x % m + y % m) % m == (x + y) % m
  {
    ModAdd(x, y % m, m);
    ModAdd(y, x, m);
  }

  lemma ModProduct(x: int, y: int, m: int)
    requires m > 0
    ensures ((x % m) * (y % m)) % m == (x * y) % m
  {
    ModMul(x, y % m, m);
    ModMul(y, x, m);
    assert x * (y % m) == (y % m) * x && x * y == y * x;
  }

  /** Congruent numbers differ by a multiple of the modulus. */
  lemma ModDifference(x: int, y: int, m: int)
    requires m > 0
    ensures x % m == y % m <==> (x - y) % m == 0
  {
    var d := x % m - y % m;
    MulSub(x / m, y / m, m);
    assert x - y == d + (x / m - y / m) * m;
    ModShift(d, x / m - y / m, m);
    if d >= 0 {
      ModSmall(d, m);
    } else {
      ModShift(d, 1, m);
      ModSmall(d + m, m);
    }
  }

  lemma ProductBound(x: nat, y: nat, m: nat, n: nat)
    requires x < m && y < n
    ensures 0 <= x * y < m * n
  {
    assert x * y <= x * n;
    assert x * n < m * n;
  }

  lemma ProductMonotone(x: nat, y: nat, z: nat)
    requires x <= y
    ensures x * z <= y * z && z * x <= z * y
  {
  }

  /** A proper divisor has a proper cofactor. */
  lemma Cofactor(n: nat, d: nat)
    requires 1 < d < n && n % d == 0
    ensures 1 < n / d < n && n == d * (n / d) && n % (n / d) == 0
  {
    var k := n / d;
    assert n == d * k;
    if k <= 1 {
      ProductMonotone(k, 1, d);
    } else {
      ProductMonotone(2, d, k);
      ModUnique(n, d, 0, k);
    }
  }

  function Pow(g: nat, n: nat): (r: nat)
    ensures g >= 1 ==> r >= 1
  {
    if n == 0 then 1 else g * Pow(g, n - 1)
  }

  lemma {:induction false} PowAdd(g: nat, a: nat, b: nat)
    ensures Pow(g, a + b) == Pow(g, a) * Pow(g, b)
  {
    if a > 0 {
      PowAdd(g, a - 1, b);
      assert Pow(g, a) == g * Pow(g, a - 1) && Pow(g, a + b) == g * Pow(g, a - 1 + b);
      hide Pow;
      MulAssoc(g, Pow(g, a - 1), Pow(g, b));
    }
  }
}
