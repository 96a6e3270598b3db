/** Matrices over 32-bit words as values: row-major data, wrapped products, associativity. */
module MatrixAlgebra {
  import opened Words
  import opened ModArith

  /** A matrix of integers in row-major order; products reduce entries modulo 2^32. */
  datatype Mat = Mat(rows: nat, cols: nat, data: seq<int>) {
    predicate Ok() {
      |data| == rows * cols
    }

    /** Entry (r, c), zero outside the matrix. */
    function At(r: nat, c: nat): int {
      if Ok() && r < rows && c < cols then (IndexBound(rows, cols, r, c); data[cols * r + c]) else 0
    }
  }

  lemma IndexBound(rows: nat, cols: nat, r: nat, c: nat)
    requires r < rows && c < cols
    ensures 0 <= cols * r + c < rows * cols
  {
    ProductMonotone(r + 1, rows, cols);
    assert (r + 1) * cols == cols * r + cols;
  }

  lemma NonEmpty(rows: nat, cols: nat, p: nat)
    requires p < rows * cols
    ensures rows > 0 && cols > 0
  {
  }

  /** The flat index determines row and column. */
  lemma IndexSplit(cols: nat, r: nat, c: nat)
    requires c < cols
    ensures (cols * r + c) / cols == r && (cols * r + c) % cols == c
  {
    ModUnique(cols * r + c, r, c, cols);
    var d := (cols * r + c) / cols - r;
    assert cols * r + c == ((cols * r + c) / cols) * cols + c;
    assert d * cols == 0 by {
      assert d * cols == ((cols * r + c) / cols) * cols - r * cols;
    }
    MultipleBound(d, cols);
  }

  /** The first n terms of the inner product of row i of a and column j of b, not reduced. */
  function Dot(a: Mat, b: Mat, i: nat, j: nat, n: nat): int {
    if n == 0 then 0 else Dot(a, b, i, j, n - 1) + a.At(i, n - 1) * b.At(n - 1, j)
  }

  function Product(a: Mat, b: Mat): (p: Mat)
    ensures p.Ok() && p.rows == a.rows && p.cols == b.cols
  {
    Mat(a.rows, b.cols,
        seq(a.rows * b.cols,
            p requires 0 <= p < a.rows * b.cols => ProductEntry(a, b, p)))
  }

  /** The product's entry at a flat position. */
  function ProductEntry(a: Mat, b: Mat, p: nat): u32
    requires p < a.rows * b.cols
  {
    NonEmpty(a.rows, b.cols, p);
    Wrap(Dot(a, b, p / b.cols, p % b.cols, a.cols))
  }

  lemma ProductAt(a: Mat, b: Mat, i: nat, j: nat)
    requires i < a.rows && j < b.cols
    ensures Product(a, b).At(i, j) == Wrap(Dot(a, b, i, j, a.cols))
  {
    IndexBound(a.rows, b.cols, i, j);
    IndexSplit(b.cols, i, j);
  }

  // ---------- wrapped arithmetic ----------

  lemma WrapAdd(x: int, y: int)
    ensures Wrap(Wrap(x) + y) == Wrap(x + y)
    ensures Wrap(y + Wrap(x)) == Wrap(x + y)
  {
    ModAdd(x, y, 0x1_0000_0000);
  }

  lemma WrapSub(x: int, y: int)
    ensures Wrap(Wrap(x) - Wrap(y)) == Wrap(x - y)
  {
    ModSub(Wrap(x), y, 0x1_0000_0000);
    ModAdd(x, -y, 0x1_0000_0000);
  }

  lemma WrapMul(x: int, y: int)
    ensures Wrap(Wrap(x) * y) == Wrap(x * y)
    ensures Wrap(y * Wrap(x)) == Wrap(x * y)
  {
    ModMul(x, y, 0x1_0000_0000);
    assert y * Wrap(x) == Wrap(x) * y;
  }

  /** Congruence of sums and of products with a common factor. */
  lemma WrapSum(x: int, x': int, y: int, y': int)
    requires Wrap(x) == Wrap(x') && Wrap(y) == Wrap(y')
    ensures Wrap(x + y) == Wrap(x' + y')
  {
    hide Wrap;
    WrapAdd(x, y);
    WrapAdd(x', y);
    WrapAdd(y, x');
    WrapAdd(y', x');
  }

  // ---------- associativity ----------

  /** Row i of s against the columns (A D), unreduced. */
  function LeftSum(s: Mat, a: Mat, d: Mat, i: nat, j: nat, n: nat, m: nat): int {
    if n == 0 then 0 else LeftSum(s, a, d, i, j, n - 1, m) + s.At(i, n - 1) * Dot(a, d, n - 1, j, m)
  }

  /** Row i of (s A) against column j of D, unreduced. */
  function RightSum(s: Mat, a: Mat, d: Mat, i: nat, j: nat, n: nat, m: nat): int {
    if m == 0 then 0 else RightSum(s, a, d, i, j, n, m - 1) + Dot(s, a, i, m - 1, n) * d.At(m - 1, j)
  }

  lemma {:induction false} RightSumStep(s: Mat, a: Mat, d: Mat, i: nat, j: nat, n: nat, m: nat)
    requires n > 0
    ensures RightSum(s, a, d, i, j, n, m)
         == RightSum(s, a, d, i, j, n - 1, m) + s.At(i, n - 1) * Dot(a, d, n - 1, j, m)
  {
    if m > 0 {
      RightSumStep(s, a, d, i, j, n, m - 1);
      Expand(Dot(s, a, i, m - 1, n - 1), s.At(i, n - 1), a.At(n - 1, m - 1), d.At(m - 1, j),
             Dot(a, d, n - 1, j, m - 1));
    }
  }

  lemma Expand(x: int, s: int, a: int, d: int, y: int)
    ensures (x + s * a) * d == x * d + s * (a * d)
    ensures s * (y + a * d) == s * y + s * (a * d)
  {
  }

  lemma {:induction false} RightSumZero(s: Mat, a: Mat, d: Mat, i: nat, j: nat, m: nat)
    ensures RightSum(s, a, d, i, j, 0, m) == 0
  {
    if m > 0 {
      RightSumZero(s, a, d, i, j, m - 1);
    }
  }

  /** Exchange of the two summations. */
  lemma {:induction false} SumsExchange(s: Mat, a: Mat, d: Mat, i: nat, j: nat, n: nat, m: nat)
    ensures LeftSum(s, a, d, i, j, n, m) == RightSum(s, a, d, i, j, n, m)
  {
    if n == 0 {
      RightSumZero(s, a, d, i, j, m);
    } else {
      SumsExchange(s, a, d, i, j, n - 1, m);
      RightSumStep(s, a, d, i, j, n, m);
    }
  }

  /** Reducing the entries of A D does not change a sum over them. */
  lemma {:induction false} LeftReduced(s: Mat, a: Mat, d: Mat, i: nat, j: nat, n: nat)
    requires n <= a.rows && j < d.cols
    ensures Wrap(Dot(s, Product(a, d), i, j, n)) == Wrap(LeftSum(s, a, d, i, j, n, a.cols))
  {
    hide Wrap, Product;
    if n > 0 {
      LeftReduced(s, a, d, i, j, n - 1);
      ProductAt(a, d, n - 1, j);
      WrapMul(Dot(a, d, n - 1, j, a.cols), s.At(i, n - 1));
      assert s.At(i, n - 1) * Dot(a, d, n - 1, j, a.cols) == Dot(a, d, n - 1, j, a.cols) * s.At(i, n - 1);
      WrapSum(Dot(s, Product(a, d), i, j, n - 1), LeftSum(s, a, d, i, j, n - 1, a.cols),
              s.At(i, n - 1) * Product(a, d).At(n - 1, j), s.At(i, n - 1) * Dot(a, d, n - 1, j, a.cols));
    }
  }

  /** Nor does reducing the entries of s A. */
  lemma {:induction false} RightReduced(s: Mat, a: Mat, d: Mat, i: nat, j: nat, m: nat)
    requires i < s.rows && m <= a.cols
    ensures Wrap(Dot(Product(s, a), d, i, j, m)) == Wrap(RightSum(s, a, d, i, j, s.cols, m))
  {
    hide Wrap, Product;
    if m > 0 {
      RightReduced(s, a, d, i, j, m - 1);
      ProductAt(s, a, i, m - 1);
      WrapMul(Dot(s, a, i, m - 1, s.cols), d.At(m - 1, j));
      WrapSum(Dot(Product(s, a), d, i, j, m - 1), RightSum(s, a, d, i, j, s.cols, m - 1),
              Product(s, a).At(i, m - 1) * d.At(m - 1, j), Dot(s, a, i, m - 1, s.cols) * d.At(m - 1, j));
    }
  }

  /** The digest algebra: s (A D) and (s A) D are the same matrix of words, at all dimensions. */
  lemma ProductAssociative(s: Mat, a: Mat, d: Mat)
    requires s.cols == a.rows && a.cols == d.rows
    ensures Product(s, Product(a, d)) == Product(Product(s, a), d)
  {
    var l, r := Product(s, Product(a, d)), Product(Product(s, a), d);
    forall p | 0 <= p < s.rows * d.cols ensures l.data[p] == r.data[p] {
      EntryAssociative(s, a, d, p);
    }
  }

  lemma EntryAssociative(s: Mat, a: Mat, d: Mat, p: nat)
    requires s.cols == a.rows && a.cols == d.rows && p < s.rows * d.cols
    ensures ProductEntry(s, Product(a, d), p) == ProductEntry(Product(s, a), d, p)
  {
    hide Wrap, Dot, Product;
    var cols := d.cols;
    NonEmpty(s.rows, cols, p);
    FlatPosition(s.rows, cols, p);
    var i, j := p / cols, p % cols;
    LeftReduced(s, a, d, i, j, s.cols);
    SumsExchange(s, a, d, i, j, s.cols, a.cols);
    RightReduced(s, a, d, i, j, a.cols);
  }

  lemma FlatPosition(rows: nat, cols: nat, p: nat)
    requires cols > 0 && p < rows * cols
    ensures p / cols < rows && p % cols < cols && p == cols * (p / cols) + p % cols
  {
    var q := p / cols;
    assert p == q * cols + p % cols;
    if q >= rows {
      ProductMonotone(rows, q, cols);
    }
  }
}
