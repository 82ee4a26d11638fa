/**
 * Value-level view of the two-dimensional matrices of include/mat.h: a
 * shape and a row-major buffer of exact reals, the MAT2D_GET index map,
 * and the arithmetic that src/mat.c performs in place. The class in
 * mat.dfy is specified against these functions.
 */
module MatrixSpec {

  /** The three fields of a Mat2D, with the buffer read as a sequence. */
  datatype MatrixData = MatrixData(rows: nat, cols: nat, elems: seq<real>)

  /** A matrix whose buffer holds exactly rows·cols cells. */
  type Matrix = m: MatrixData | |m.elems| == m.rows * m.cols witness MatrixData(0, 0, [])

  // ---------------------------------------------------------------------
  // MAT2D_GET: row-major indexing
  // ---------------------------------------------------------------------

  /** MAT2D_GET(m, i, j) reads buffer position i·cols + j. */
  function Index(cols: nat, i: nat, j: nat): nat
  {
    i * cols + j
  }

  lemma MulMonotone(a: nat, b: nat, c: nat)
    requires a <= b
    ensures a * c <= b * c
  {
    assert b * c == a * c + (b - a) * c;
  }

  /** Every in-range cell lies inside the buffer. */
  lemma IndexInBounds(rows: nat, cols: nat, i: nat, j: nat)
    requires i < rows && j < cols
    ensures Index(cols, i, j) < rows * cols
  {
    MulMonotone(i + 1, rows, cols);
  }

  /** Row i occupies the buffer positions i·cols up to i·cols + cols, all in range. */
  lemma RowInBounds(rows: nat, cols: nat, i: nat)
    requires i < rows
    ensures i * cols + cols <= rows * cols
  {
    MulMonotone(i + 1, rows, cols);
    assert (i + 1) * cols == i * cols + cols;
  }

  /** The row and column of a cell are recovered from its buffer position. */
  lemma IndexDivMod(cols: nat, i: nat, j: nat)
    requires j < cols
    ensures Index(cols, i, j) / cols == i && Index(cols, i, j) % cols == j
  {
    var k := Index(cols, i, j);
    var q, r := k / cols, k % cols;
    assert q * cols + r == i * cols + j;
    if q < i {
      MulMonotone(q + 1, i, cols);
      assert false;
    } else if i < q {
      MulMonotone(i + 1, q, cols);
      assert false;
    }
  }

  /** Distinct in-range cells occupy distinct buffer positions. */
  lemma IndexInjective(cols: nat, i1: nat, j1: nat, i2: nat, j2: nat)
    requires j1 < cols && j2 < cols
    requires Index(cols, i1, j1) == Index(cols, i2, j2)
    ensures i1 == i2 && j1 == j2
  {
    IndexDivMod(cols, i1, j1);
    IndexDivMod(cols, i2, j2);
  }

  /** Every buffer position is the cell (k / cols, k % cols), which is in range. */
  lemma IndexSurjective(rows: nat, cols: nat, k: nat)
    requires k < rows * cols
    ensures cols > 0 && k / cols < rows && k % cols < cols
    ensures Index(cols, k / cols, k % cols) == k
  {
    if cols == 0 {
      assert false;
    }
    if rows <= k / cols {
      MulMonotone(rows, k / cols, cols);
      assert false;
    }
  }

  // ---------------------------------------------------------------------
  // Cells and whole-matrix values
  // ---------------------------------------------------------------------

  /** The cell at row i, column j. */
  function Get(m: Matrix, i: nat, j: nat): real
    requires i < m.rows && j < m.cols
  {
    IndexInBounds(m.rows, m.cols, i, j);
    m.elems[Index(m.cols, i, j)]
  }

  /** Two matrices of one shape that agree on every cell are equal. */
  lemma CellwiseEqual(a: Matrix, b: Matrix)
    requires a.rows == b.rows && a.cols == b.cols
    requires forall i: nat, j: nat :: i < a.rows && j < a.cols ==> Get(a, i, j) == Get(b, i, j)
    ensures a == b
  {
    forall k | 0 <= k < |a.elems|
      ensures a.elems[k] == b.elems[k]
    {
      IndexSurjective(a.rows, a.cols, k);
      assert Get(a, k / a.cols, k % a.cols) == Get(b, k / a.cols, k % a.cols);
    }
  }

  /** A rows × cols matrix with every cell equal to v. */
  function Filled(rows: nat, cols: nat, v: real): (m: Matrix)
    ensures m.rows == rows && m.cols == cols
  {
    MatrixData(rows, cols, seq(rows * cols, _ => v))
  }

  lemma FilledGet(rows: nat, cols: nat, v: real, i: nat, j: nat)
    requires i < rows && j < cols
    ensures Get(Filled(rows, cols, v), i, j) == v
  {
    IndexInBounds(rows, cols, i, j);
  }

  /** Σ_{k < n} a[i][k] · b[k][j], accumulated from k = 0 upwards. */
  function Dot(a: Matrix, b: Matrix, i: nat, j: nat, n: nat): real
    requires i < a.rows && j < b.cols && n <= a.cols && n <= b.rows
  {
    if n == 0 then 0.0 else Dot(a, b, i, j, n - 1) + Get(a, i, n - 1) * Get(b, n - 1, j)
  }

  /** The matrix product a · b. */
  function Product(a: Matrix, b: Matrix): (c: Matrix)
    requires a.cols == b.rows
    ensures c.rows == a.rows && c.cols == b.cols
  {
    MatrixData(a.rows, b.cols, seq(a.rows * b.cols, k requires 0 <= k < a.rows * b.cols =>
      IndexSurjective(a.rows, b.cols, k);
      Dot(a, b, k / b.cols, k % b.cols, a.cols)))
  }

  /** Each cell of a · b is the dot product of a row of a with a column of b. */
  lemma ProductGet(a: Matrix, b: Matrix, i: nat, j: nat)
    requires a.cols == b.rows && i < a.rows && j < b.cols
    ensures Get(Product(a, b), i, j) == Dot(a, b, i, j, a.cols)
  {
    IndexInBounds(a.rows, b.cols, i, j);
    IndexDivMod(b.cols, i, j);
  }

  /** m with s added to every cell (the value add_scalar_Mat2D computes). */
  function PlusScalar(m: Matrix, s: real): (r: Matrix)
    ensures r.rows == m.rows && r.cols == m.cols
  {
    MatrixData(m.rows, m.cols, seq(|m.elems|, k requires 0 <= k < |m.elems| => m.elems[k] + s))
  }

  lemma PlusScalarGet(m: Matrix, s: real, i: nat, j: nat)
    requires i < m.rows && j < m.cols
    ensures Get(PlusScalar(m, s), i, j) == Get(m, i, j) + s
  {
    IndexInBounds(m.rows, m.cols, i, j);
  }

  /** Adding s and then t is adding s + t; adding 0 changes nothing. */
  lemma PlusScalarTwice(m: Matrix, s: real, t: real)
    ensures PlusScalar(PlusScalar(m, s), t) == PlusScalar(m, s + t)
    ensures PlusScalar(m, 0.0) == m
  {
    assert PlusScalar(PlusScalar(m, s), t).elems == PlusScalar(m, s + t).elems;
    assert PlusScalar(m, 0.0).elems == m.elems;
  }

  /** The cellwise sum a + b of two matrices of one shape (what sum_Mat2D computes). */
  function Plus(a: Matrix, b: Matrix): (r: Matrix)
    requires a.rows == b.rows && a.cols == b.cols
    ensures r.rows == a.rows && r.cols == a.cols
  {
    MatrixData(a.rows, a.cols, seq(|a.elems|, k requires 0 <= k < |a.elems| => a.elems[k] + b.elems[k]))
  }

  lemma PlusGet(a: Matrix, b: Matrix, i: nat, j: nat)
    requires a.rows == b.rows && a.cols == b.cols && i < a.rows && j < a.cols
    ensures Get(Plus(a, b), i, j) == Get(a, i, j) + Get(b, i, j)
  {
    IndexInBounds(a.rows, a.cols, i, j);
  }

  /** The zero matrix is the identity of Plus. */
  lemma PlusZero(a: Matrix)
    ensures Plus(a, Filled(a.rows, a.cols, 0.0)) == a
  {
    assert Plus(a, Filled(a.rows, a.cols, 0.0)).elems == a.elems;
  }

  /** Product is the only matrix of its shape whose cells are those dot products. */
  lemma ProductUnique(a: Matrix, b: Matrix, c: Matrix)
    requires a.cols == b.rows && c.rows == a.rows && c.cols == b.cols
    requires forall i: nat, j: nat :: i < c.rows && j < c.cols ==> Get(c, i, j) == Dot(a, b, i, j, a.cols)
    ensures Product(a, b) == c
  {
    forall i: nat, j: nat | i < c.rows && j < c.cols
      ensures Get(Product(a, b), i, j) == Get(c, i, j)
    {
      ProductGet(a, b, i, j);
    }
    CellwiseEqual(Product(a, b), c);
  }

  /** One step of the sum over k: if p = q + r and w = y + z, then p + x·w = (q + x·y) + (r + x·z). */
  lemma AddProducts(p: real, q: real, r: real, x: real, y: real, z: real, w: real)
    requires p == q + r && w == y + z
    ensures p + x * w == (q + x * y) + (r + x * z)
  {
  }

  /** Extending the three dot products by the term for k = n - 1 keeps the sum relation. */
  lemma DotOverSumStep(a: Matrix, b: Matrix, c: Matrix, d: Matrix, i: nat, j: nat, n: nat)
    requires a.cols == b.rows == c.rows == d.rows && i < a.rows
    requires j < b.cols && j < c.cols && j < d.cols && 0 < n <= a.cols
    requires Dot(a, d, i, j, n - 1) == Dot(a, b, i, j, n - 1) + Dot(a, c, i, j, n - 1)
    requires Get(d, n - 1, j) == Get(b, n - 1, j) + Get(c, n - 1, j)
    ensures Dot(a, d, i, j, n) == Dot(a, b, i, j, n) + Dot(a, c, i, j, n)
  {
    var x, y, z, w := Get(a, i, n - 1), Get(b, n - 1, j), Get(c, n - 1, j), Get(d, n - 1, j);
    var p, q, r := Dot(a, d, i, j, n - 1), Dot(a, b, i, j, n - 1), Dot(a, c, i, j, n - 1);
    DotNext(a, d, i, j, n, p, x, w);
    DotNext(a, b, i, j, n, q, x, y);
    DotNext(a, c, i, j, n, r, x, z);
    AddProducts(p, q, r, x, y, z, w);
  }

  /** Dot(n) adds the term for k = n - 1 to Dot(n - 1), with the cells passed by name. */
  lemma DotNext(a: Matrix, b: Matrix, i: nat, j: nat, n: nat, p: real, x: real, y: real)
    requires i < a.rows && j < b.cols && 0 < n <= a.cols && n <= b.rows
    requires p == Dot(a, b, i, j, n - 1) && x == Get(a, i, n - 1) && y == Get(b, n - 1, j)
    ensures Dot(a, b, i, j, n) == p + x * y
  {
  }

  /**
   * A dot product with a column that is the sum of two columns is the sum
   * of the two dot products.
   */
  lemma {:induction false} DotOverSum(a: Matrix, b: Matrix, c: Matrix, d: Matrix, i: nat, j: nat, n: nat)
    requires a.cols == b.rows == c.rows == d.rows && i < a.rows
    requires j < b.cols && j < c.cols && j < d.cols && n <= a.cols
    requires forall k: nat :: k < n ==> Get(d, k, j) == Get(b, k, j) + Get(c, k, j)
    ensures Dot(a, d, i, j, n) == Dot(a, b, i, j, n) + Dot(a, c, i, j, n)
  {
    if n > 0 {
      DotOverSum(a, b, c, d, i, j, n - 1);
      DotOverSumStep(a, b, c, d, i, j, n);
    }
  }

  /** Multiplication distributes over the cellwise sum: a · (b + c) = a · b + a · c. */
  lemma ProductDistributes(a: Matrix, b: Matrix, c: Matrix)
    requires a.cols == b.rows && b.rows == c.rows && b.cols == c.cols
    ensures Product(a, Plus(b, c)) == Plus(Product(a, b), Product(a, c))
  {
    var sum := Plus(Product(a, b), Product(a, c));
    forall i: nat, j: nat | i < sum.rows && j < sum.cols
      ensures Get(sum, i, j) == Dot(a, Plus(b, c), i, j, a.cols)
    {
      PlusGet(Product(a, b), Product(a, c), i, j);
      ProductGet(a, b, i, j);
      ProductGet(a, c, i, j);
      forall k: nat | k < a.cols
        ensures Get(Plus(b, c), k, j) == Get(b, k, j) + Get(c, k, j)
      {
        PlusGet(b, c, k, j);
      }
      DotOverSum(a, b, c, Plus(b, c), i, j, a.cols);
    }
    ProductUnique(a, Plus(b, c), sum);
  }

  /** A dot product of length two, from the four cells it reads. */
  lemma DotTwo(a: Matrix, b: Matrix, i: nat, j: nat, x0: real, x1: real, y0: real, y1: real)
    requires a.cols == 2 == b.rows && i < a.rows && j < b.cols
    requires Get(a, i, 0) == x0 && Get(a, i, 1) == x1 && Get(b, 0, j) == y0 && Get(b, 1, j) == y1
    ensures Dot(a, b, i, j, 2) == x0 * y0 + x1 * y1
  {
    assert Dot(a, b, i, j, 1) == x0 * y0;
  }

  /** The product of two 2 × 2 matrices, written out cell by cell. */
  lemma ProductTwoByTwo(a: Matrix, b: Matrix)
    requires a.rows == a.cols == b.rows == b.cols == 2
    ensures Product(a, b).elems ==
      [a.elems[0] * b.elems[0] + a.elems[1] * b.elems[2], a.elems[0] * b.elems[1] + a.elems[1] * b.elems[3],
       a.elems[2] * b.elems[0] + a.elems[3] * b.elems[2], a.elems[2] * b.elems[1] + a.elems[3] * b.elems[3]]
  {
    var c: Matrix := MatrixData(2, 2,
      [a.elems[0] * b.elems[0] + a.elems[1] * b.elems[2], a.elems[0] * b.elems[1] + a.elems[1] * b.elems[3],
       a.elems[2] * b.elems[0] + a.elems[3] * b.elems[2], a.elems[2] * b.elems[1] + a.elems[3] * b.elems[3]]);
    DotTwo(a, b, 0, 0, a.elems[0], a.elems[1], b.elems[0], b.elems[2]);
    DotTwo(a, b, 0, 1, a.elems[0], a.elems[1], b.elems[1], b.elems[3]);
    DotTwo(a, b, 1, 0, a.elems[2], a.elems[3], b.elems[0], b.elems[2]);
    DotTwo(a, b, 1, 1, a.elems[2], a.elems[3], b.elems[1], b.elems[3]);
    ProductUnique(a, b, c);
  }

  /** The product checked by src/tests/mat_tests.c: [[3,2],[1,4]] · [[5,0],[6,7]] = [[27,14],[29,28]]. */
  lemma ProductExample(a: Matrix, b: Matrix)
    requires a.rows == a.cols == b.rows == b.cols == 2
    requires a.elems == [3.0, 2.0, 1.0, 4.0] && b.elems == [5.0, 0.0, 6.0, 7.0]
    ensures Product(a, b).elems == [27.0, 14.0, 29.0, 28.0]
  {
    ProductTwoByTwo(a, b);
  }
}
