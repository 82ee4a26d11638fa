/**
 * The Mat2D struct of include/mat.h and the operations of src/mat.c.
 * A Mat2D is a shape and a heap buffer; the operations overwrite the
 * buffer in place, so the struct is a class whose buffer is an array.
 * Each method is specified against the value functions of MatrixSpec.
 */
module Mat {
  import opened MatrixSpec
  import opened Faults

  class Mat2D {
    var rows: nat
    var cols: nat
    /** The heap buffer; null once the matrix has been destroyed. */
    var elems: array?<real>

    /** The buffer exists and holds exactly rows·cols cells. */
    ghost predicate Valid()
      reads this
    {
      elems != null && elems.Length == rows * cols
    }

    /** The matrix as a value: its shape and the current buffer contents. */
    ghost function Value(): (m: Matrix)
      reads this, elems
      requires Valid()
      ensures m.rows == rows && m.cols == cols && m.elems == elems[..]
    {
      MatrixData(rows, cols, elems[..])
    }

    /**
     * new_Mat2D: a rows × cols matrix over a freshly allocated buffer of
     * rows·cols cells, whose contents are unspecified (malloc).
     */
    constructor (rows: nat, cols: nat)
      ensures Valid() && this.rows == rows && this.cols == cols
      ensures fresh(elems)
    {
      this.rows := rows;
      this.cols := cols;
      elems := new real[rows * cols];
    }

    /** destroy_Mat2D: frees the buffer and zeroes the shape. */
    method Destroy()
      modifies this
      ensures elems == null && rows == 0 && cols == 0
    {
      elems := null;
      cols := 0;
      rows := 0;
    }

    /** zero_init_Mat2D: every cell becomes 0; the shape is kept. */
    method ZeroInit()
      requires Valid()
      modifies elems
      ensures Valid() && Value() == Filled(rows, cols, 0.0)
    {
      forall k | 0 <= k < elems.Length {
        elems[k] := 0.0;
      }
    }

    /** add_scalar_Mat2D: every cell grows by exactly s; the shape is kept. */
    method AddScalar(s: real)
      requires Valid()
      modifies elems
      ensures Valid() && Value() == PlusScalar(old(Value()), s)
    {
      ghost var want := PlusScalar(Value(), s);
      ghost var done := 0;  // cells finished so far, in buffer order
      for i := 0 to rows
        invariant done == i * cols && done <= elems.Length == |want.elems|
        invariant forall p :: 0 <= p < done ==> elems[p] == want.elems[p]
        invariant forall p :: done <= p < elems.Length ==> elems[p] == old(elems[p])
      {
        RowInBounds(rows, cols, i);
        var lo := Index(cols, i, 0);  // MAT2D_GET(m, i, j) is buffer position lo + j
        for j := 0 to cols
          invariant forall p :: 0 <= p < lo + j ==> elems[p] == want.elems[p]
          invariant forall p :: lo + j <= p < elems.Length ==> elems[p] == old(elems[p])
        {
          elems[lo + j] := elems[lo + j] + s;
        }
        done := done + cols;
      }
      assert elems[..] == want.elems;
    }

    /**
     * sum_Mat2D: this += m2, cell by cell; aborts unless the shapes are
     * equal. m2 may be this matrix itself.
     */
    method Sum(m2: Mat2D) returns (r: Outcome)
      requires Valid() && m2.Valid()
      modifies elems
      ensures Valid()
      ensures r == Pass <==> rows == m2.rows && cols == m2.cols
      ensures r == Pass ==> Value() == Plus(old(Value()), old(m2.Value()))
      ensures r != Pass ==> r == Fail(DimensionMismatch) && Value() == old(Value())
    {
      if !(cols == m2.cols && rows == m2.rows) {
        return Fail(DimensionMismatch);
      }
      ghost var want := Plus(Value(), m2.Value());
      ghost var other := m2.Value();
      ghost var done := 0;  // cells finished so far, in buffer order
      for i := 0 to rows
        invariant done == i * cols && done <= elems.Length == |want.elems|
        invariant forall p :: 0 <= p < done ==> elems[p] == want.elems[p]
        invariant forall p :: done <= p < elems.Length ==> elems[p] == old(elems[p])
        invariant forall p :: done <= p < elems.Length ==> m2.elems[p] == other.elems[p]
      {
        for j := 0 to cols
          invariant done == i * cols + j && done <= elems.Length
          invariant forall p :: 0 <= p < done ==> elems[p] == want.elems[p]
          invariant forall p :: done <= p < elems.Length ==> elems[p] == old(elems[p])
          invariant forall p :: done <= p < elems.Length ==> m2.elems[p] == other.elems[p]
        {
          IndexInBounds(rows, cols, i, j);
          elems[Index(cols, i, j)] := elems[Index(cols, i, j)] + m2.elems[Index(cols, i, j)];
          done := done + 1;
        }
        assert done == (i + 1) * cols;
      }
      assert elems[..] == want.elems;
      return Pass;
    }
  }

  /**
   * mul_Mat2D: out := m1 · m2, cell by cell; aborts unless
   * m1.cols == m2.rows and out is m1.rows × m2.cols. The inputs are only
   * read; out's buffer must be neither input's.
   */
  method Mul(m1: Mat2D, m2: Mat2D, out: Mat2D) returns (r: Outcome)
    requires m1.Valid() && m2.Valid() && out.Valid()
    requires out.elems != m1.elems && out.elems != m2.elems
    modifies out.elems
    ensures out.Valid()
    ensures r == Pass <==> m1.cols == m2.rows && out.rows == m1.rows && out.cols == m2.cols
    ensures r == Pass ==> out.Value() == Product(m1.Value(), m2.Value())
    ensures r != Pass ==> r == Fail(DimensionMismatch) && out.Value() == old(out.Value())
  {
    if m1.cols != m2.rows || !(out.rows == m1.rows && out.cols == m2.cols) {
      return Fail(DimensionMismatch);
    }
    ghost var want := Product(m1.Value(), m2.Value());
    ghost var done := 0;  // cells finished so far, in buffer order
    for i := 0 to m1.rows
      invariant done == i * out.cols && done <= out.elems.Length == |want.elems|
      invariant forall p :: 0 <= p < done ==> out.elems[p] == want.elems[p]
    {
      MulRow(m1, m2, out, i);
      done := done + out.cols;
    }
    assert out.elems[..] == want.elems;
    return Pass;
  }

  /**
   * One pass of the middle loop of mul_Mat2D (src/mat.c:34-40), the unit
   * that the OpenMP outer loop hands to a thread: row i of out becomes
   * row i of m1 · m2; no other cell of out changes.
   */
  method MulRow(m1: Mat2D, m2: Mat2D, out: Mat2D, i: nat)
    requires m1.Valid() && m2.Valid() && out.Valid()
    requires out.elems != m1.elems && out.elems != m2.elems
    requires m1.cols == m2.rows && out.rows == m1.rows && out.cols == m2.cols && i < m1.rows
    modifies out.elems
    ensures i * out.cols + out.cols <= out.elems.Length
    ensures forall p :: 0 <= p < out.elems.Length && !(i * out.cols <= p < i * out.cols + out.cols) ==>
      out.elems[p] == old(out.elems[p])
    ensures forall p :: i * out.cols <= p < i * out.cols + out.cols ==>
      out.elems[p] == Product(m1.Value(), m2.Value()).elems[p]
  {
    RowInBounds(out.rows, out.cols, i);
    ghost var want := Product(m1.Value(), m2.Value());
    var lo := Index(out.cols, i, 0);  // MAT2D_GET(out, i, j) is buffer position lo + j
    for j := 0 to m2.cols
      invariant forall p :: 0 <= p < lo ==> out.elems[p] == old(out.elems[p])
      invariant forall p :: lo + j <= p < out.elems.Length ==> out.elems[p] == old(out.elems[p])
      invariant forall p :: lo <= p < lo + j ==> out.elems[p] == want.elems[p]
    {
      var sum := RowTimesColumn(m1, m2, i, j);
      ProductGet(m1.Value(), m2.Value(), i, j);
      assert want.elems[lo + j] == sum;
      out.elems[lo + j] := sum;
    }
  }

  /**
   * The innermost loop of mul_Mat2D: the sum over k of m1[i][k] · m2[k][j],
   * accumulated from k = 0 upwards.
   */
  method RowTimesColumn(m1: Mat2D, m2: Mat2D, i: nat, j: nat) returns (sum: real)
    requires m1.Valid() && m2.Valid() && m1.cols == m2.rows
    requires i < m1.rows && j < m2.cols
    ensures sum == Dot(m1.Value(), m2.Value(), i, j, m1.cols)
  {
    sum := 0.0;
    for k := 0 to m1.cols
      invariant sum == Dot(m1.Value(), m2.Value(), i, j, k)
    {
      IndexInBounds(m1.rows, m1.cols, i, k);
      IndexInBounds(m2.rows, m2.cols, k, j);
      sum := sum + m1.elems[Index(m1.cols, i, k)] * m2.elems[Index(m2.cols, k, j)];
    }
  }

  /**
   * The two-argument mul_Mat2D that src/cnn.c:95 and
   * src/tests/mat_tests.c:18 call: allocates a m1.rows × m2.cols result
   * and fills it with the three-argument Mul.
   */
  method MulNew(m1: Mat2D, m2: Mat2D) returns (r: Result<Mat2D, Fault>)
    requires m1.Valid() && m2.Valid()
    ensures r.Success? <==> m1.cols == m2.rows
    ensures r.Success? ==> fresh(r.value) && fresh(r.value.elems) && r.value.Valid()
    ensures r.Success? ==> r.value.Value() == Product(m1.Value(), m2.Value())
    ensures r.Failure? ==> r.error == DimensionMismatch
  {
    var out := new Mat2D(m1.rows, m2.cols);
    var o := Mul(m1, m2, out);
    if o.Fail? {
      return Failure(o.fault);
    }
    return Success(out);
  }
}
