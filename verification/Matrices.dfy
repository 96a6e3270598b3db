/** Matrix objects over flat arrays and the loops that multiply them in place. */
module Matrices {
  import opened Words
  import opened ModArith
  import opened MatrixAlgebra

  // ---------- the mask form of a product with a bit ----------

  /** Bitwise AND of the n low bits. */
  function And(x: nat, y: nat, n: nat): nat {
    if n == 0 then 0 else (x % 2) * (y % 2) + 2 * And(x / 2, y / 2, n - 1)
  }

  /** x & -b on 32-bit words, b an unsigned byte. */
  function Masked(x: u32, b: u8): nat {
    var v: int := b;
    And(x, Wrap(-v), 32)
  }

  function Ones(n: nat): nat {
    if n == 0 then 0 else 1 + 2 * Ones(n - 1)
  }

  lemma {:induction false} AndZero(x: nat, n: nat)
    ensures And(x, 0, n) == 0
  {
    if n > 0 {
      AndZero(x / 2, n - 1);
    }
  }

  lemma {:induction false} AndOnes(x: nat, n: nat)
    requires x <= Ones(n)
    ensures And(x, Ones(n), n) == x
  {
    if n > 0 {
      AndOnes(x / 2, n - 1);
      assert Ones(n) / 2 == Ones(n - 1) && Ones(n) % 2 == 1;
    }
  }

  lemma OnesShift(n: nat)
    ensures Ones(n + 8) == 256 * Ones(n) + 255
  {
    assert Ones(n + 8) == 1 + 2 * Ones(n + 7) && Ones(n + 7) == 1 + 2 * Ones(n + 6);
    assert Ones(n + 6) == 1 + 2 * Ones(n + 5) && Ones(n + 5) == 1 + 2 * Ones(n + 4);
    assert Ones(n + 4) == 1 + 2 * Ones(n + 3) && Ones(n + 3) == 1 + 2 * Ones(n + 2);
    assert Ones(n + 2) == 1 + 2 * Ones(n + 1) && Ones(n + 1) == 1 + 2 * Ones(n);
  }

  lemma OnesValue()
    ensures Ones(32) == 0xFFFF_FFFF
  {
    OnesShift(0);
    OnesShift(8);
    OnesShift(16);
    OnesShift(24);
  }

  /** On a 0/1 byte the mask form is the product. */
  lemma MaskedIsProduct(x: u32, b: u8)
    requires b <= 1
    ensures Masked(x, b) == x * b
  {
    hide And, Ones;
    if b == 0 {
      AndZero(x, 32);
    } else {
      OnesValue();
      AndOnes(x, 32);
    }
  }

  predicate Binary(b: seq<u8>) {
    forall p :: 0 <= p < |b| ==> b[p] <= 1
  }

  // ---------- the triple loops ----------

  /** The innermost loop: one row of b, scaled, added into one row of out. */
  method AddRow(out: array<u32>, off: nat, n: nat, x: u32, b: array<u32>, from: nat)
    requires off + n <= out.Length && from + n <= b.Length && out != b
    modifies out
    ensures forall p :: 0 <= p < out.Length ==>
              out[p] == if off <= p < off + n then Wrap(old(out[p]) + x * b[from + (p - off)]) else old(out[p])
  {
    hide Wrap;
    var j := 0;
    while j < n
      invariant 0 <= j <= n
      invariant forall p :: 0 <= p < out.Length ==>
                  out[p] == if off <= p < off + j then Wrap(old(out[p]) + x * b[from + (p - off)]) else old(out[p])
    {
      WrapAdd(x * b[from + j], out[off + j]);
      out[off + j] := Words.Add(out[off + j], Words.Mul(x, b[from + j]));
      j := j + 1;
    }
  }

  method AddMaskedRow(out: array<u32>, off: nat, n: nat, x: u32, b: array<u8>, from: nat)
    requires off + n <= out.Length && from + n <= b.Length && Binary(b[..]) && out as object != b as object
    modifies out
    ensures forall p :: 0 <= p < out.Length ==>
              out[p] == if off <= p < off + n then Wrap(old(out[p]) + x * b[from + (p - off)]) else old(out[p])
  {
    hide Wrap, Masked;
    var j := 0;
    while j < n
      invariant 0 <= j <= n
      invariant forall p :: 0 <= p < out.Length ==>
                  out[p] == if off <= p < off + j then Wrap(old(out[p]) + x * b[from + (p - off)]) else old(out[p])
    {
      assert b[..][from + j] == b[from + j];
      MaskedIsProduct(x, b[from + j]);
      out[off + j] := Wrap(out[off + j] + Masked(x, b[from + j]));
      j := j + 1;
    }
  }

  /** Row r starts at cols * r and fits. */
  lemma RowFits(rows: nat, cols: nat, r: nat)
    requires r < rows
    ensures cols * r + cols <= rows * cols
  {
    ProductMonotone(r + 1, rows, cols);
    assert (r + 1) * cols == cols * r + cols;
  }

  /** Row i of the output after the first k rows of b: the inner products so far are added. */
  ghost predicate RowAdded(now: seq<u32>, was: seq<u32>, a: Mat, b: Mat, i: nat, k: nat) {
    |now| == |was| &&
    forall p :: 0 <= p < |now| ==>
      now[p] == if b.cols * i <= p < b.cols * i + b.cols
                then Wrap(was[p] + Dot(a, b, i, p - b.cols * i, k)) else was[p]
  }

  lemma NoTerms(was: seq<u32>, a: Mat, b: Mat, i: nat)
    ensures RowAdded(was, was, a, b, i, 0)
  {
    forall p | 0 <= p < |was| ensures Wrap(was[p] + 0) == was[p] {
      WrapSmall(was[p]);
    }
  }

  /** One more term in every inner product. */
  lemma NextTerm(now: seq<u32>, then': seq<u32>, was: seq<u32>, a: Mat, b: Mat, i: nat, k: nat)
    requires RowAdded(then', was, a, b, i, k) && |now| == |then'|
    requires forall p :: 0 <= p < |now| ==>
               now[p] == if b.cols * i <= p < b.cols * i + b.cols
                         then Wrap(then'[p] + a.At(i, k) * b.At(k, p - b.cols * i)) else then'[p]
    ensures RowAdded(now, was, a, b, i, k + 1)
  {
    hide Wrap;
    forall p | b.cols * i <= p < b.cols * i + b.cols && p < |now|
      ensures now[p] == Wrap(was[p] + Dot(a, b, i, p - b.cols * i, k + 1))
    {
      var j := p - b.cols * i;
      WrapAdd(was[p] + Dot(a, b, i, j, k), a.At(i, k) * b.At(k, j));
    }
  }

  /** Row k of b, scaled, read through its entries. */
  lemma EntryAt(m: Mat, r: nat, c: nat)
    requires m.Ok() && r < m.rows && c < m.cols
    ensures 0 <= m.cols * r + c < |m.data| && m.At(r, c) == m.data[m.cols * r + c]
  {
    IndexBound(m.rows, m.cols, r, c);
  }

  /** One step of the middle loop: row k of b against entry (i, k) of a. */
  method MultiplyStep(i: nat, k: nat, aRows: nat, aCols: nat, bCols: nat, a: array<u32>, b: array<u32>,
                      out: array<u32>, ghost was: seq<u32>)
    requires i < aRows && k < aCols && a.Length == aRows * aCols && b.Length == aCols * bCols
    requires out.Length == aRows * bCols && out != a && out != b
    requires RowAdded(out[..], was, Mat(aRows, aCols, a[..]), Mat(aCols, bCols, b[..]), i, k)
    modifies out
    ensures RowAdded(out[..], was, Mat(aRows, aCols, a[..]), Mat(aCols, bCols, b[..]), i, k + 1)
  {
    hide Wrap, RowAdded, Mat.At;
    ghost var ma, mb, then' := Mat(aRows, aCols, a[..]), Mat(aCols, bCols, b[..]), out[..];
    RowFits(aRows, bCols, i);
    RowFits(aCols, bCols, k);
    EntryAt(ma, i, k);
    AddRow(out, bCols * i, bCols, a[aCols * i + k], b, bCols * k);
    forall p | bCols * i <= p < bCols * i + bCols
      ensures out[p] == Wrap(then'[p] + ma.At(i, k) * mb.At(k, p - bCols * i))
    {
      EntryAt(mb, k, p - bCols * i);
    }
    NextTerm(out[..], then', was, ma, mb, i, k);
  }

  /** The two inner loops: row i of a against all rows of b, into row i of out. */
  method MultiplyRow(i: nat, aRows: nat, aCols: nat, bCols: nat, a: array<u32>, b: array<u32>, out: array<u32>)
    requires i < aRows && a.Length == aRows * aCols && b.Length == aCols * bCols && out.Length == aRows * bCols
    requires out != a && out != b
    modifies out
    ensures RowAdded(out[..], old(out[..]), Mat(aRows, aCols, a[..]), Mat(aCols, bCols, b[..]), i, aCols)
  {
    hide RowAdded;
    ghost var was := out[..];
    NoTerms(was, Mat(aRows, aCols, a[..]), Mat(aCols, bCols, b[..]), i);
    var k := 0;
    while k < aCols
      invariant 0 <= k <= aCols
      invariant RowAdded(out[..], was, Mat(aRows, aCols, a[..]), Mat(aCols, bCols, b[..]), i, k)
    {
      MultiplyStep(i, k, aRows, aCols, bCols, a, b, out, was);
      k := k + 1;
    }
  }

  /** Rows before i are complete, the others untouched. */
  ghost predicate RowsAdded(now: seq<u32>, was: seq<u32>, a: Mat, b: Mat, i: nat) {
    |now| == |was| == a.rows * b.cols &&
    forall p :: 0 <= p < |now| ==>
      now[p] == if p < b.cols * i then Wrap(was[p] + ProductEntry(a, b, p)) else was[p]
  }

  lemma NoRows(was: seq<u32>, a: Mat, b: Mat)
    requires |was| == a.rows * b.cols
    ensures RowsAdded(was, was, a, b, 0)
  {
    hide Wrap, ProductEntry;
    assert b.cols * 0 == 0;
  }

  lemma NextRow(now: seq<u32>, then': seq<u32>, was: seq<u32>, a: Mat, b: Mat, i: nat)
    requires RowsAdded(then', was, a, b, i) && RowAdded(now, then', a, b, i, a.cols)
    ensures RowsAdded(now, was, a, b, i + 1)
  {
    hide Wrap, Dot;
    forall p | 0 <= p < |now|
      ensures now[p] == if p < b.cols * (i + 1) then Wrap(was[p] + ProductEntry(a, b, p)) else was[p]
    {
      assert b.cols * (i + 1) == b.cols * i + b.cols;
      if b.cols * i <= p < b.cols * i + b.cols {
        IndexSplit(b.cols, i, p - b.cols * i);
        WrapAdd(Dot(a, b, i, p - b.cols * i, a.cols), was[p]);
      }
    }
  }

  lemma AllRows(now: seq<u32>, was: seq<u32>, a: Mat, b: Mat)
    requires RowsAdded(now, was, a, b, a.rows)
    ensures |now| == |was| == a.rows * b.cols
    ensures forall p :: 0 <= p < |now| ==> now[p] == Wrap(was[p] + ProductEntry(a, b, p))
  {
    hide Wrap, ProductEntry;
    assert b.cols * a.rows == a.rows * b.cols;
  }

  /** out += a * b modulo 2^32, all three row-major. */
  method Multiply(aRows: nat, aCols: nat, bCols: nat, a: array<u32>, b: array<u32>, out: array<u32>)
    requires a.Length == aRows * aCols && b.Length == aCols * bCols && out.Length == aRows * bCols
    requires out != a && out != b
    modifies out
    ensures var ma, mb := Mat(aRows, aCols, a[..]), Mat(aCols, bCols, b[..]);
            forall p :: 0 <= p < out.Length ==> out[p] == Wrap(old(out[p]) + ProductEntry(ma, mb, p))
  {
    hide RowAdded, RowsAdded, Wrap, ProductEntry;
    ghost var ma, mb, was := Mat(aRows, aCols, a[..]), Mat(aCols, bCols, b[..]), out[..];
    NoRows(was, ma, mb);
    var i := 0;
    while i < aRows
      invariant 0 <= i <= aRows && RowsAdded(out[..], was, ma, mb, i)
    {
      ghost var then' := out[..];
      MultiplyRow(i, aRows, aCols, bCols, a, b, out);
      NextRow(out[..], then', was, ma, mb, i);
      i := i + 1;
    }
    AllRows(out[..], was, ma, mb);
    assert forall p :: 0 <= p < out.Length ==> out[p] == out[..][p];
  }

  /** The same step with the mask form. */
  method BinaryMultiplyStep(i: nat, k: nat, aRows: nat, aCols: nat, bCols: nat, a: array<u32>, b: array<u8>,
                            out: array<u32>, ghost was: seq<u32>)
    requires i < aRows && k < aCols && a.Length == aRows * aCols && b.Length == aCols * bCols
    requires out.Length == aRows * bCols && out != a && Binary(b[..]) && out as object != b as object
    requires RowAdded(out[..], was, Mat(aRows, aCols, a[..]), Mat(aCols, bCols, b[..]), i, k)
    modifies out
    ensures RowAdded(out[..], was, Mat(aRows, aCols, a[..]), Mat(aCols, bCols, b[..]), i, k + 1)
  {
    hide Wrap, RowAdded, Mat.At, Binary;
    ghost var ma, mb, then' := Mat(aRows, aCols, a[..]), Mat(aCols, bCols, b[..]), out[..];
    RowFits(aRows, bCols, i);
    RowFits(aCols, bCols, k);
    EntryAt(ma, i, k);
    AddMaskedRow(out, bCols * i, bCols, a[aCols * i + k], b, bCols * k);
    forall p | bCols * i <= p < bCols * i + bCols
      ensures out[p] == Wrap(then'[p] + ma.At(i, k) * mb.At(k, p - bCols * i))
    {
      EntryAt(mb, k, p - bCols * i);
    }
    NextTerm(out[..], then', was, ma, mb, i, k);
  }

  method BinaryMultiplyRow(i: nat, aRows: nat, aCols: nat, bCols: nat, a: array<u32>, b: array<u8>, out: array<u32>)
    requires i < aRows && a.Length == aRows * aCols && b.Length == aCols * bCols && out.Length == aRows * bCols
    requires out != a && Binary(b[..]) && out as object != b as object
    modifies out
    ensures RowAdded(out[..], old(out[..]), Mat(aRows, aCols, a[..]), Mat(aCols, bCols, b[..]), i, aCols)
  {
    hide RowAdded, Binary;
    ghost var was := out[..];
    NoTerms(was, Mat(aRows, aCols, a[..]), Mat(aCols, bCols, b[..]), i);
    var k := 0;
    while k < aCols
      invariant 0 <= k <= aCols && Binary(b[..])
      invariant RowAdded(out[..], was, Mat(aRows, aCols, a[..]), Mat(aCols, bCols, b[..]), i, k)
    {
      BinaryMultiplyStep(i, k, aRows, aCols, bCols, a, b, out, was);
      assert b[..] == old(b[..]);
      k := k + 1;
    }
  }

  /** out += a * b modulo 2^32 for a 0/1 operand b. */
  method BinaryMultiply(aRows: nat, aCols: nat, bCols: nat, a: array<u32>, b: array<u8>, out: array<u32>)
    requires a.Length == aRows * aCols && b.Length == aCols * bCols && out.Length == aRows * bCols
    requires out != a && Binary(b[..]) && out as object != b as object
    modifies out
    ensures var ma, mb := Mat(aRows, aCols, a[..]), Mat(aCols, bCols, b[..]);
            forall p :: 0 <= p < out.Length ==> out[p] == Wrap(old(out[p]) + ProductEntry(ma, mb, p))
  {
    hide RowAdded, RowsAdded, Wrap, ProductEntry, Binary;
    ghost var ma, mb, was := Mat(aRows, aCols, a[..]), Mat(aCols, bCols, b[..]), out[..];
    NoRows(was, ma, mb);
    var i := 0;
    while i < aRows
      invariant 0 <= i <= aRows && Binary(b[..]) && RowsAdded(out[..], was, ma, mb, i)
    {
      ghost var then' := out[..];
      BinaryMultiplyRow(i, aRows, aCols, bCols, a, b, out);
      assert b[..] == old(b[..]);
      NextRow(out[..], then', was, ma, mb, i);
      i := i + 1;
    }
    AllRows(out[..], was, ma, mb);
    assert forall p :: 0 <= p < out.Length ==> out[p] == out[..][p];
  }

  // ---------- matrix objects ----------

  class Matrix {
    const rows: nat
    const cols: nat
    const data: array<u32>

    ghost predicate Valid() {
      data.Length == rows * cols
    }

    ghost function Value(): (m: Mat)
      reads data
    {
      Mat(rows, cols, data[..])
    }

    /** The all-zero matrix. */
    constructor (r: nat, c: nat)
      ensures Valid() && fresh(data) && rows == r && cols == c
      ensures forall p :: 0 <= p < data.Length ==> data[p] == 0
    {
      rows, cols := r, c;
      data := new u32[r * c](_ => 0);
    }

    /** A matrix around given words, whose number is not checked against the dimensions. */
    constructor WithData(r: nat, c: nat, words: seq<u32>)
      ensures fresh(data) && Value() == Mat(r, c, words) && data.Length == |words|
    {
      rows, cols := r, c;
      data := new u32[|words|](p requires 0 <= p < |words| => words[p]);
      new;
      assert data[..] == words;
    }

    method Set(r: nat, c: nat, v: u32)
      requires Valid() && r < rows && c < cols
      modifies data
      ensures cols * r + c < data.Length && data[..] == old(data[..])[cols * r + c := v]
    {
      IndexBound(rows, cols, r, c);
      data[cols * r + c] := v;
    }

    method Get(r: nat, c: nat) returns (v: u32)
      requires Valid() && r < rows && c < cols
      ensures v == Value().At(r, c)
    {
      IndexBound(rows, cols, r, c);
      v := data[cols * r + c];
    }

    /** Word by word in place; the operand may be the matrix itself. */
    method Add(b: Matrix)
      requires Valid() && b.Valid() && rows == b.rows && cols == b.cols
      modifies data
      ensures forall p :: 0 <= p < data.Length ==> data[p] == Words.Add(old(data[p]), old(b.data[p]))
    {
      var i := 0;
      while i < data.Length
        invariant 0 <= i <= data.Length
        invariant forall p :: 0 <= p < data.Length ==>
                    data[p] == if p < i then Words.Add(old(data[p]), old(b.data[p])) else old(data[p])
        invariant forall p :: i <= p < data.Length ==> b.data[p] == old(b.data[p])
      {
        data[i] := Words.Add(data[i], b.data[i]);
        i := i + 1;
      }
    }

    /** Word by word in place; the operand may be the matrix itself. */
    method Sub(b: Matrix)
      requires Valid() && b.Valid() && rows == b.rows && cols == b.cols
      modifies data
      ensures forall p :: 0 <= p < data.Length ==> data[p] == Words.Sub(old(data[p]), old(b.data[p]))
    {
      var i := 0;
      while i < data.Length
        invariant 0 <= i <= data.Length
        invariant forall p :: 0 <= p < data.Length ==>
                    data[p] == if p < i then Words.Sub(old(data[p]), old(b.data[p])) else old(data[p])
        invariant forall p :: i <= p < data.Length ==> b.data[p] == old(b.data[p])
      {
        data[i] := Words.Sub(data[i], b.data[i]);
        i := i + 1;
      }
    }
  }

  /** A matrix of bits, one to a byte. */
  class MatrixBytes {
    const rows: nat
    const cols: nat
    const data: array<u8>

    ghost predicate Valid()
      reads data
    {
      data.Length == rows * cols && Binary(data[..])
    }

    ghost function Value(): (m: Mat)
      reads data
    {
      Mat(rows, cols, data[..])
    }

    constructor (r: nat, c: nat, bits: seq<u8>)
      requires |bits| == r * c && Binary(bits)
      ensures Valid() && fresh(data) && Value() == Mat(r, c, bits)
    {
      rows, cols := r, c;
      data := new u8[r * c](p requires 0 <= p < r * c => bits[p]);
      new;
      assert data[..] == bits;
    }
  }

  lemma ProductData(a: Mat, b: Mat, data: seq<u32>)
    requires |data| == a.rows * b.cols
    requires forall p :: 0 <= p < |data| ==> data[p] == Wrap(0 + ProductEntry(a, b, p))
    ensures Mat(a.rows, b.cols, data) == Product(a, b)
  {
    forall p | 0 <= p < |data| ensures data[p] == Product(a, b).data[p] {
      WrapSmall(ProductEntry(a, b, p));
    }
  }

  method Mul(a: Matrix, b: Matrix) returns (m: Matrix)
    requires a.Valid() && b.Valid() && a.cols == b.rows
    ensures m.Valid() && fresh(m) && fresh(m.data) && m.Value() == Product(a.Value(), b.Value())
  {
    m := new Matrix(a.rows, b.cols);
    Multiply(a.rows, a.cols, b.cols, a.data, b.data, m.data);
    ProductData(a.Value(), b.Value(), m.data[..]);
  }

  method BinaryMul(a: Matrix, b: MatrixBytes) returns (m: Matrix)
    requires a.Valid() && b.Valid() && a.cols == b.rows
    ensures m.Valid() && fresh(m) && fresh(m.data) && m.Value() == Product(a.Value(), b.Value())
  {
    m := new Matrix(a.rows, b.cols);
    BinaryMultiply(a.rows, a.cols, b.cols, a.data, b.data, m.data);
    ProductData(a.Value(), b.Value(), m.data[..]);
  }
}
