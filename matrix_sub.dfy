/** The eager engine of matrix_sub.hpp: every `+`, `-` and `*` allocates and
    fills a fresh result matrix, and `+=` / `-=` update the buffer in place. */
module MatrixSub {
  import opened Layout
  import opened MatrixErrors

  /** The buffer `s op t`, taken position by position. */
  function Pointwise(op: Op, s: seq<int>, t: seq<int>): (r: seq<int>)
    requires |s| == |t|
    ensures |r| == |s|
    ensures forall k :: 0 <= k < |s| ==> r[k] == Apply(op, s[k], t[k])
  {
    seq(|s|, k requires 0 <= k < |s| => Apply(op, s[k], t[k]))
  }

  /** The product cell `sum over k < n of a(i, k) * b(k, j)`, accumulated from
      zero in increasing k, for row-major buffers a (ac columns) and b (bc columns). */
  function DotSum(a: seq<int>, ac: nat, b: seq<int>, bc: nat, i: nat, j: nat, n: nat): int
    requires forall k: nat :: k < n ==> Index(i, k, ac) < |a| && Index(k, j, bc) < |b|
  {
    if n == 0 then 0 else DotSum(a, ac, b, bc, i, j, n - 1) + a[Index(i, n - 1, ac)] * b[Index(n - 1, j, bc)]
  }

  /** Cell t of the product buffer of an r x ac matrix `a` and an ac x c matrix `b`. */
  ghost function ProductAt(a: seq<int>, ac: nat, b: seq<int>, t: nat, r: nat, c: nat): int
    requires t < r * c && |a| == r * ac && |b| == ac * c
  {
    CellOfIndex(t, r, c);
    GridFits(r, ac);
    GridFits(ac, c);
    DotSum(a, ac, b, c, t / c, t % c, ac)
  }

  lemma ProductAtCell(a: seq<int>, ac: nat, b: seq<int>, i: nat, j: nat, r: nat, c: nat)
    requires i < r && j < c && |a| == r * ac && |b| == ac * c
    requires forall k: nat :: k < ac ==> Index(i, k, ac) < |a| && Index(k, j, c) < |b|
    ensures Index(i, j, c) < r * c
    ensures ProductAt(a, ac, b, Index(i, j, c), r, c) == DotSum(a, ac, b, c, i, j, ac)
  {
    IndexBelow(i, j, r, c);
    IndexInverse(i, j, c);
  }

  /** The positions the eager `+` / `-` loop touches for cell (i, j) of an
      r x c left operand and an rr x rc right operand: it writes the result, an
      r x rc matrix, at Index(i, j, rc) and reads `rhs(i, j)` at the same
      position of the right operand's buffer. */
  ghost predicate CombineInBounds(r: nat, c: nat, rr: nat, rc: nat)
  {
    forall i: nat, j: nat :: i < r && j < c ==> Index(i, j, rc) < r * rc && Index(i, j, rc) < rr * rc
  }

  /** Once the sizes agree, the eager `+` / `-` loop stays inside both
      buffers exactly when the operands have the same shape, or the left one
      has no cells to visit: the size check alone does not make it safe. */
  lemma CombineSafeIff(r: nat, c: nat, rr: nat, rc: nat)
    requires r * c == rr * rc
    ensures CombineInBounds(r, c, rr, rc) <==> r == 0 || c == 0 || (r == rr && c == rc)
  {
    if r == rr && c == rc {
      GridFits(r, c);
    } else if 0 < r && 0 < c && CombineInBounds(r, c, rr, rc) {
      var i, j := r - 1, c - 1;
      assert Index(i, j, rc) < r * rc && Index(i, j, rc) < rr * rc;
      assert r * rc == i * rc + rc;
      assert c <= rc;
      MulMono(c + 1, rc, r);
      MulMono(r, rr, rc);
      MulMono(rr, i, rc);
      MulMono(r + 1, rr, c);
      MulMono(rr + 1, r, c);
      assert false;
    }
  }

  /** The guard of the eager `+` / `-` compares sizes only: a 1 x 4 and a
      2 x 2 matrix pass it, and the loop then writes outside the 1 x 2 result. */
  lemma CombineGuardAdmitsUnsafe()
    ensures 1 * 4 == 2 * 2 && !CombineInBounds(1, 4, 2, 2)
  {
    assert Index(0, 3, 2) == 3;
  }

  /** The guard the eager `+` / `-` evidently intend: operands of one shape.
      It admits only pairs whose sizes agree, and for every pair it admits
      the loop stays inside the result and the right operand. */
  function ShapeCheck(r: nat, c: nat, rr: nat, rc: nat): (res: Outcome)
    ensures res.Pass? <==> r == rr && c == rc
    ensures res.Fail? ==> res.error == SizeMismatch
    ensures res.Pass? ==> r * c == rr * rc && CombineInBounds(r, c, rr, rc)
  {
    if r == rr && c == rc then
      CombineSafeIff(r, c, rr, rc);
      Pass
    else
      Fail(SizeMismatch)
  }

  /** The positions `+=` / `-=` read for cell (i, j) of an r x c matrix from a
      right operand with rc columns and n cells. */
  ghost predicate ReadsInBounds(r: nat, c: nat, rc: nat, n: nat)
  {
    forall i: nat, j: nat :: i < r && j < c ==> Index(i, j, rc) < n
  }

  /** With equal sizes, the in-place loop of `+=` / `-=` reads inside the
      right operand exactly when the left one has at most one row, no columns,
      or at least as many columns as the right one. */
  lemma CompoundSafeIff(r: nat, c: nat, rc: nat)
    ensures ReadsInBounds(r, c, rc, r * c) <==> r <= 1 || c == 0 || rc <= c
  {
    if r <= 1 || c == 0 {
      if r == 1 {
        assert forall i: nat, j: nat :: i < r && j < c ==> Index(i, j, rc) == j;
      }
    } else if rc <= c {
      forall i: nat, j: nat | i < r && j < c
        ensures Index(i, j, rc) < r * c
      {
        MulMono(rc, c, i);
        IndexBelow(i, j, r, c);
      }
    } else {
      var i, j := r - 1, c - 1;
      MulMono(c + 1, rc, i);
      MulMono(1, i, c);
      assert r * c == i * c + c;
      assert !(Index(i, j, rc) < r * c);
    }
  }

  /** `Matrix<T>` of matrix_sub.hpp: a row-major buffer `data` of
      rows * columns cells. The shape and the buffer are never reassigned. */
  class Matrix {
    const rows: nat
    const columns: nat
    const data: array<int>

    /** The buffer invariant `_data.size() == _rows * _columns`. */
    ghost predicate Valid()
      ensures Valid() ==> forall i: nat, j: nat :: i < rows && j < columns ==> Index(i, j, columns) < data.Length
    {
      GridFits(rows, columns);
      data.Length == rows * columns
    }

    /** `Matrix(rows, columns, value = T())`. */
    constructor (rows: nat, columns: nat, value: int := 0)
      ensures Valid() && this.rows == rows && this.columns == columns && fresh(data)
      ensures forall t :: 0 <= t < data.Length ==> data[t] == value
    {
      this.rows := rows;
      this.columns := columns;
      data := new int[rows * columns](_ => value);
    }

    /** `Matrix()`, which delegates to `Matrix(0, 0)`. */
    constructor Empty()
      ensures Valid() && rows == 0 && columns == 0 && data.Length == 0 && fresh(data)
    {
      rows := 0;
      columns := 0;
      data := new int[0];
    }

    /** `Matrix(other, value)`: the shape of `other`, every cell set to
        `value` by a row-major loop; `other` is only asked for its shape. */
    constructor ShapeOf(other: Matrix, value: int)
      requires other.Valid()
      ensures Valid() && rows == other.rows && columns == other.columns && fresh(data)
      ensures forall t :: 0 <= t < data.Length ==> data[t] == value
    {
      var r, c := other.rows, other.columns;
      var d := new int[other.data.Length](_ => 0);
      var i := 0;
      ghost var done := 0;
      while i < r
        invariant i <= r && done == i * c && done <= r * c
        invariant forall t :: 0 <= t < done ==> d[t] == value
      {
        var j := 0;
        while j < c
          invariant j <= c && done == Index(i, j, c) && done <= r * c
          invariant forall t :: 0 <= t < done ==> d[t] == value
        {
          IndexBelow(i, j, r, c);
          d[Index(i, j, c)] := value;
          done := done + 1;
          j := j + 1;
        }
        assert done == (i + 1) * c;
        i := i + 1;
      }
      rows := r;
      columns := c;
      data := d;
    }

    /** `operator()(row, column) const`: an unchecked buffer read. */
    function Get(row: nat, column: nat): int
      reads data
      requires Index(row, column, columns) < data.Length
    {
      data[Index(row, column, columns)]
    }

    /** Assignment through `operator()(row, column)`: an unchecked buffer write. */
    method Set(row: nat, column: nat, value: int)
      requires Index(row, column, columns) < data.Length
      modifies data
      ensures data[..] == old(data[..])[Index(row, column, columns) := value]
    {
      data[Index(row, column, columns)] := value;
    }

    /** The checked accessor `at(row, column)`. The reference it returns is
        given as the buffer position it designates. */
    function At(row: nat, column: nat): (r: Result<nat>)
      ensures r.Err? <==> row >= rows || column >= columns
      ensures r.Err? ==> r.error == OutOfRange
      ensures r.Ok? ==> r.value == Index(row, column, columns)
      ensures r.Ok? && Valid() ==> r.value < data.Length
    {
      if row >= rows || column >= columns then Err(OutOfRange) else Ok(Index(row, column, columns))
    }

    /** `operator*(rhs)`: throws unless `columns == rhs.rows()`; otherwise a
        fresh `rows x rhs.columns()` matrix whose cell (i, j) accumulates
        `this(i, k) * rhs(k, j)` over k < columns from zero. */
    method Mul(rhs: Matrix) returns (res: Result<Matrix>)
      requires Valid() && rhs.Valid()
      ensures res.Err? <==> columns != rhs.rows
      ensures res.Err? ==> res.error == MulShapeMismatch
      ensures res.Ok? ==> fresh(res.value) && fresh(res.value.data) && res.value.Valid()
      ensures res.Ok? ==> res.value.rows == rows && res.value.columns == rhs.columns
      ensures res.Ok? ==> forall i: nat, j: nat :: i < rows && j < rhs.columns ==>
                            res.value.Get(i, j) == DotSum(data[..], columns, rhs.data[..], rhs.columns, i, j, columns)
    {
      if columns != rhs.rows {
        return Err(MulShapeMismatch);
      }
      var rc := rhs.columns;
      var result := new Matrix(rows, rc);
      ghost var a, b := data[..], rhs.data[..];
      ghost var n := rows * rc;
      var i := 0;
      ghost var done := 0;
      while i < rows
        invariant i <= rows && done == i * rc && done <= n
        invariant forall t :: 0 <= t < done ==> result.data[t] == ProductAt(a, columns, b, t, rows, rc)
        invariant forall t :: done <= t < result.data.Length ==> result.data[t] == 0
      {
        var j := 0;
        while j < rc
          invariant j <= rc && done == Index(i, j, rc) && done <= n
          invariant forall t :: 0 <= t < done ==> result.data[t] == ProductAt(a, columns, b, t, rows, rc)
          invariant forall t :: done <= t < result.data.Length ==> result.data[t] == 0
        {
          ProductAtCell(a, columns, b, i, j, rows, rc);
          var k := 0;
          while k < columns
            invariant k <= columns
            invariant result.data[done] == DotSum(a, columns, b, rc, i, j, k)
            invariant forall t :: 0 <= t < done ==> result.data[t] == ProductAt(a, columns, b, t, rows, rc)
            invariant forall t :: done < t < result.data.Length ==> result.data[t] == 0
          {
            result.data[Index(i, j, rc)] := result.data[Index(i, j, rc)] + data[Index(i, k, columns)] * rhs.Get(k, j);
            k := k + 1;
          }
          done := done + 1;
          j := j + 1;
        }
        assert done == (i + 1) * rc;
        MulMono(i + 1, rows, rc);
        i := i + 1;
      }
      assert done == n;
      forall i: nat, j: nat | i < rows && j < rc
        ensures result.Get(i, j) == DotSum(data[..], columns, rhs.data[..], rc, i, j, columns)
      {
        ProductAtCell(a, columns, b, i, j, rows, rc);
      }
      return Ok(result);
    }

    /** The eager `operator+(rhs)` (op = Plus) and `operator-(rhs)` (op = Minus):
        throw when the sizes differ; otherwise a fresh `rows x rhs.columns()`
        matrix in which the loop over `i < rows, j < columns` writes
        `this(i, j) op rhs(i, j)`. The loop stays inside both buffers only for
        operands of one shape or a left operand without cells (CombineSafeIff);
        a 0-column left operand leaves the result zero-filled. */
    method Combine(op: Op, rhs: Matrix) returns (res: Result<Matrix>)
      requires Valid() && rhs.Valid()
      requires data.Length == rhs.data.Length ==> rows == 0 || columns == 0 || (rows == rhs.rows && columns == rhs.columns)
      ensures res.Err? <==> data.Length != rhs.data.Length
      ensures res.Err? ==> res.error == SizeMismatch
      ensures res.Ok? ==> fresh(res.value) && fresh(res.value.data) && res.value.Valid()
      ensures res.Ok? ==> res.value.rows == rows && res.value.columns == rhs.columns
      ensures res.Ok? ==> forall i: nat, j: nat :: i < rows && j < columns ==>
                            res.value.Get(i, j) == Apply(op, Get(i, j), rhs.Get(i, j))
      ensures res.Ok? ==> forall t :: 0 <= t < res.value.data.Length ==>
                            res.value.data[t] == if columns == rhs.columns then Apply(op, data[t], rhs.data[t]) else 0
    {
      if data.Length != rhs.data.Length {
        return Err(SizeMismatch);
      }
      var result := new Matrix(rows, rhs.columns);
      var i := 0;
      ghost var done := 0;
      while i < rows
        invariant i <= rows && done == i * columns && done <= rows * columns
        invariant forall t :: 0 <= t < done ==> result.data[t] == Apply(op, data[t], rhs.data[t])
        invariant forall t :: done <= t < result.data.Length ==> result.data[t] == 0
      {
        var j := 0;
        while j < columns
          invariant j <= columns && done == Index(i, j, columns) && done <= rows * columns
          invariant forall t :: 0 <= t < done ==> result.data[t] == Apply(op, data[t], rhs.data[t])
          invariant forall t :: done <= t < result.data.Length ==> result.data[t] == 0
        {
          IndexBelow(i, j, rows, columns);
          result.data[Index(i, j, rhs.columns)] := Apply(op, data[Index(i, j, columns)], rhs.Get(i, j));
          done := done + 1;
          j := j + 1;
        }
        assert done == (i + 1) * columns;
        i := i + 1;
      }
      return Ok(result);
    }

    /** `operator+=(rhs)` (op = Plus) and `operator-=(rhs)` (op = Minus):
        throw before writing when the sizes differ; otherwise every cell
        (i, j) becomes `old(i, j) op rhs(i, j)` in place, where `rhs(i, j)` is
        read at `i * rhs.columns() + j` (CompoundSafeIff says when that stays
        inside rhs). `a += a` reads each cell before it is written. */
    method CompoundAssign(op: Op, rhs: Matrix) returns (res: Outcome)
      requires Valid() && rhs.Valid()
      requires rhs == this || rhs.data != data
      requires data.Length == rhs.data.Length ==> ReadsInBounds(rows, columns, rhs.columns, rhs.data.Length)
      modifies data
      ensures res.Fail? <==> data.Length != rhs.data.Length
      ensures res.Fail? ==> res.error == SizeMismatch && data[..] == old(data[..])
      ensures res.Pass? ==> forall i: nat, j: nat :: i < rows && j < columns ==>
                              Get(i, j) == Apply(op, old(Get(i, j)), old(rhs.Get(i, j)))
    {
      if data.Length != rhs.data.Length {
        return Fail(SizeMismatch);
      }
      ghost var src := rhs.data[..];
      ghost var before := data[..];
      ghost var n := rows * columns;
      var i := 0;
      ghost var done := 0;
      while i < rows
        invariant i <= rows && done == i * columns && done <= n
        invariant forall t :: 0 <= t < done ==> data[t] == Apply(op, before[t], ReadAt(src, rhs.columns, t, rows, columns))
        invariant forall t :: done <= t < data.Length ==> data[t] == before[t]
        invariant rhs != this ==> rhs.data[..] == src
      {
        var j := 0;
        while j < columns
          invariant j <= columns && done == Index(i, j, columns) && done <= n
          invariant forall t :: 0 <= t < done ==> data[t] == Apply(op, before[t], ReadAt(src, rhs.columns, t, rows, columns))
          invariant forall t :: done <= t < data.Length ==> data[t] == before[t]
          invariant rhs != this ==> rhs.data[..] == src
        {
          ReadAtCell(src, rhs.columns, i, j, rows, columns);
          data[Index(i, j, columns)] := Apply(op, data[Index(i, j, columns)], rhs.Get(i, j));
          done := done + 1;
          j := j + 1;
        }
        assert done == (i + 1) * columns;
        MulMono(i + 1, rows, columns);
        i := i + 1;
      }
      assert done == n;
      forall i: nat, j: nat | i < rows && j < columns
        ensures Get(i, j) == Apply(op, old(Get(i, j)), old(rhs.Get(i, j)))
      {
        ReadAtCell(src, rhs.columns, i, j, rows, columns);
      }
      return Pass;
    }
  }

  /** What `rhs(i, j)` reads for buffer position t of an r x c left operand. */
  ghost function ReadAt(s: seq<int>, rc: nat, t: nat, r: nat, c: nat): int
    requires t < r * c && ReadsInBounds(r, c, rc, |s|)
  {
    CellOfIndex(t, r, c);
    s[Index(t / c, t % c, rc)]
  }

  lemma ReadAtCell(s: seq<int>, rc: nat, i: nat, j: nat, r: nat, c: nat)
    requires i < r && j < c && ReadsInBounds(r, c, rc, |s|)
    ensures Index(i, j, c) < r * c && ReadAt(s, rc, Index(i, j, c), r, c) == s[Index(i, j, rc)]
  {
    IndexBelow(i, j, r, c);
    IndexInverse(i, j, c);
  }
}
