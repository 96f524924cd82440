/** The expression-template engine of matrix_exp.hpp: `+` and `-` build
    deferred Sum and Diff nodes, and a matrix is produced from an expression
    only by the converting constructor, by `*` and by `+=` / `-=`. */
module MatrixExp {
  import opened Layout
  import opened MatrixErrors

  /** A term of the expression contract. A Leaf is a concrete matrix as its
      operands see it through their `const&` references: its buffer, its row
      count and its column count. Diff and Sum are `_MatrixDiff` and `_MatrixSum`. */
  datatype Expr =
    | Leaf(cells: seq<int>, rows: nat, columns: nat)
    | Diff(first: Expr, second: Expr)
    | Sum(first: Expr, second: Expr)

  /** `size()`: a matrix reports its buffer length, a node its first operand's size. */
  function Size(e: Expr): nat
  {
    match e
    case Leaf(cells, _, _) => |cells|
    case Diff(a, _) => Size(a)
    case Sum(a, _) => Size(a)
  }

  /** `rows()`: forwarded from the first operand. */
  function Rows(e: Expr): nat
  {
    match e
    case Leaf(_, r, _) => r
    case Diff(a, _) => Rows(a)
    case Sum(a, _) => Rows(a)
  }

  /** `columns()` as the header writes it: a node answers with its first
      operand's ROW count. */
  function Cols(e: Expr): nat
  {
    match e
    case Leaf(_, _, c) => c
    case Diff(a, _) => Rows(a)
    case Sum(a, _) => Rows(a)
  }

  /** `columns()` as a node evidently means it: the first operand's column count. */
  function IntendedCols(e: Expr): nat
  {
    match e
    case Leaf(_, _, c) => c
    case Diff(a, _) => IntendedCols(a)
    case Sum(a, _) => IntendedCols(a)
  }

  /** Cell (i, j) can be read without leaving any leaf's buffer: a leaf reads
      position `i * columns + j`, and a node reads (i, j) of both operands. */
  predicate Defined(e: Expr, i: nat, j: nat)
  {
    match e
    case Leaf(cells, _, c) => Index(i, j, c) < |cells|
    case Diff(a, b) => Defined(a, i, j) && Defined(b, i, j)
    case Sum(a, b) => Defined(a, i, j) && Defined(b, i, j)
  }

  /** `operator()(i, j) const`, computed on demand and never memoised. */
  function Value(e: Expr, i: nat, j: nat): int
    requires Defined(e, i, j)
  {
    match e
    case Leaf(cells, _, c) => cells[Index(i, j, c)]
    case Diff(a, b) => Value(a, i, j) - Value(b, i, j)
    case Sum(a, b) => Value(a, i, j) + Value(b, i, j)
  }

  /** Every cell of the r x c grid can be read. */
  ghost predicate DefinedOn(e: Expr, r: nat, c: nat)
  {
    forall i: nat, j: nat :: i < r && j < c ==> Defined(e, i, j)
  }

  /** Every cell inside the extent the expression reports can be read. */
  ghost predicate Evaluable(e: Expr)
  {
    DefinedOn(e, Rows(e), Cols(e))
  }

  /** What the checked constructors guarantee: each leaf holds rows * columns
      cells and the operands of every node have equal sizes. */
  predicate WellFormed(e: Expr)
  {
    match e
    case Leaf(cells, r, c) => |cells| == r * c
    case Diff(a, b) => WellFormed(a) && WellFormed(b) && Size(a) == Size(b)
    case Sum(a, b) => WellFormed(a) && WellFormed(b) && Size(a) == Size(b)
  }

  /** Every leaf is an r x c matrix whose buffer holds r * c cells. */
  predicate Uniform(e: Expr, r: nat, c: nat)
  {
    match e
    case Leaf(cells, lr, lc) => lr == r && lc == c && |cells| == r * c
    case Diff(a, b) => Uniform(a, r, c) && Uniform(b, r, c)
    case Sum(a, b) => Uniform(a, r, c) && Uniform(b, r, c)
  }

  /** `lhs - rhs`: the `_MatrixDiff` constructor, which throws when the sizes differ. */
  function MakeDiff(lhs: Expr, rhs: Expr): (r: Result<Expr>)
    ensures r.Err? <==> Size(lhs) != Size(rhs)
    ensures r.Err? ==> r.error == SizeMismatch
    ensures r.Ok? ==> Size(r.value) == Size(lhs) && Rows(r.value) == Rows(lhs) && Cols(r.value) == Rows(lhs)
    ensures r.Ok? ==> forall i: nat, j: nat :: Defined(r.value, i, j) <==> Defined(lhs, i, j) && Defined(rhs, i, j)
    ensures r.Ok? ==> forall i: nat, j: nat :: Defined(lhs, i, j) && Defined(rhs, i, j) ==>
                        Value(r.value, i, j) == Value(lhs, i, j) - Value(rhs, i, j)
    ensures r.Ok? && WellFormed(lhs) && WellFormed(rhs) ==> WellFormed(r.value)
  {
    if Size(lhs) != Size(rhs) then Err(SizeMismatch) else Ok(Diff(lhs, rhs))
  }

  /** `lhs + rhs`: the `_MatrixSum` constructor, which throws when the sizes differ. */
  function MakeSum(lhs: Expr, rhs: Expr): (r: Result<Expr>)
    ensures r.Err? <==> Size(lhs) != Size(rhs)
    ensures r.Err? ==> r.error == SizeMismatch
    ensures r.Ok? ==> Size(r.value) == Size(lhs) && Rows(r.value) == Rows(lhs) && Cols(r.value) == Rows(lhs)
    ensures r.Ok? ==> forall i: nat, j: nat :: Defined(r.value, i, j) <==> Defined(lhs, i, j) && Defined(rhs, i, j)
    ensures r.Ok? ==> forall i: nat, j: nat :: Defined(lhs, i, j) && Defined(rhs, i, j) ==>
                        Value(r.value, i, j) == Value(lhs, i, j) + Value(rhs, i, j)
    ensures r.Ok? && WellFormed(lhs) && WellFormed(rhs) ==> WellFormed(r.value)
  {
    if Size(lhs) != Size(rhs) then Err(SizeMismatch) else Ok(Sum(lhs, rhs))
  }

  /** Uniform trees are well formed, report the first leaf's rows and size,
      and every cell of their true r x c grid can be read; only the column
      count a node reports is wrong, unless r == c. */
  lemma {:induction false} UniformShape(e: Expr, r: nat, c: nat)
    requires Uniform(e, r, c)
    ensures WellFormed(e) && Size(e) == r * c && Rows(e) == r && IntendedCols(e) == c
    ensures Cols(e) == if e.Leaf? then c else r
    ensures DefinedOn(e, r, c)
  {
    match e
    case Leaf(_, _, _) =>
      GridFits(r, c);
    case Diff(a, b) =>
      UniformShape(a, r, c);
      UniformShape(b, r, c);
    case Sum(a, b) =>
      UniformShape(a, r, c);
      UniformShape(b, r, c);
  }

  /** When every operand is n x n the reported shape is honest, so the
      converting constructor sizes and fills a valid matrix. */
  lemma SquareMaterialises(e: Expr, n: nat)
    requires Uniform(e, n, n)
    ensures WellFormed(e) && Rows(e) == n && Cols(e) == n && Size(e) == n * n
    ensures Rows(e) * Cols(e) == Size(e) && Evaluable(e)
  {
    UniformShape(e, n, n);
  }

  /** For a node whose operands are r x c matrices, the shape it reports
      covers its buffer exactly when r is 0 or the operands are square. */
  lemma NodeShapeHonestIff(e: Expr, r: nat, c: nat)
    requires Uniform(e, r, c) && !e.Leaf?
    ensures Rows(e) * Cols(e) == Size(e) <==> r == 0 || r == c
  {
    UniformShape(e, r, c);
    assert Rows(e) * Cols(e) == r * r;
    MulMono(c + 1, r, r);
    MulMono(r + 1, c, r);
    assert 0 < r && c < r ==> (c + 1) * r <= r * r;
    assert 0 < r && r < c ==> (r + 1) * r <= c * r;
  }

  /** In a uniform tree over r x c operands, cell (i, j) can be read exactly
      when its row-major position lies inside the r * c buffer. */
  lemma {:induction false} UniformDefinedIff(e: Expr, r: nat, c: nat, i: nat, j: nat)
    requires Uniform(e, r, c)
    ensures Defined(e, i, j) <==> Index(i, j, c) < r * c
  {
    match e
    case Leaf(_, _, _) =>
    case Diff(a, b) =>
      UniformDefinedIff(a, r, c, i, j);
      UniformDefinedIff(b, r, c, i, j);
    case Sum(a, b) =>
      UniformDefinedIff(a, r, c, i, j);
      UniformDefinedIff(b, r, c, i, j);
  }

  /** For a node whose operands are r x c matrices, each half of what the
      converting constructor needs (the reported shape fits the buffer, and
      every reported cell can be read) holds exactly when r is 0 or r <= c. */
  lemma NodeMaterialisableIff(e: Expr, r: nat, c: nat)
    requires Uniform(e, r, c) && !e.Leaf?
    ensures Rows(e) * Cols(e) <= Size(e) <==> r == 0 || r <= c
    ensures Evaluable(e) <==> r == 0 || r <= c
  {
    UniformShape(e, r, c);
    SquareFitsIff(r, c);
    if 0 < r && c < r {
      LastCellUnreadable(e, r, c);
    }
  }

  /** An r x r extent fits in r * c cells exactly when r is 0 or r <= c. */
  lemma SquareFitsIff(r: nat, c: nat)
    ensures r * r <= r * c <==> r == 0 || r <= c
  {
    MulMono(r, c, r);
    MulMono(c + 1, r, r);
    assert 0 < r && c < r ==> (c + 1) * r <= r * r;
  }

  /** Over r x c operands with c < r, cell (r - 1, r - 1) lies past the buffer. */
  lemma LastCellUnreadable(e: Expr, r: nat, c: nat)
    requires Uniform(e, r, c) && 0 < r && c < r
    ensures !Defined(e, r - 1, r - 1)
  {
    UniformDefinedIff(e, r, c, r - 1, r - 1);
    assert r * c == (r - 1) * c + c;
  }

  /** The header's node `columns()` on 2 x 3 operands: the sum of two 2 x 3
      matrices reports 2 x 2 for its 6 cells, and that of two 3 x 2 matrices
      reports 3 x 3, more cells than it has. */
  lemma NodeColumnsMismatch()
    ensures var a := Leaf([1, 2, 3, 4, 5, 6], 2, 3);
            MakeSum(a, a).Ok? && Cols(MakeSum(a, a).value) == 2 && IntendedCols(MakeSum(a, a).value) == 3
            && Rows(MakeSum(a, a).value) * Cols(MakeSum(a, a).value) < Size(MakeSum(a, a).value)
    ensures var b := Leaf([1, 2, 3, 4, 5, 6], 3, 2);
            MakeSum(b, b).Ok? && Rows(MakeSum(b, b).value) * Cols(MakeSum(b, b).value) > Size(MakeSum(b, b).value)
  {
  }

  /** With the intended forwarding, the shape of every well-formed expression
      covers its buffer exactly. */
  lemma {:induction false} IntendedShapeMatchesSize(e: Expr)
    requires WellFormed(e)
    ensures Rows(e) * IntendedCols(e) == Size(e)
  {
    match e
    case Leaf(_, _, _) =>
    case Diff(a, _) =>
      IntendedShapeMatchesSize(a);
    case Sum(a, _) =>
      IntendedShapeMatchesSize(a);
  }

  /** Cell t of the row-major buffer of the r x c grid of `e`. */
  ghost function ExprAt(e: Expr, t: nat, r: nat, c: nat): int
    requires DefinedOn(e, r, c) && t < r * c
  {
    CellOfIndex(t, r, c);
    Value(e, t / c, t % c)
  }

  /** Cell (i, j) of the grid sits at buffer position Index(i, j, c). */
  lemma ExprAtCell(e: Expr, i: nat, j: nat, r: nat, c: nat)
    requires DefinedOn(e, r, c) && i < r && j < c
    ensures Index(i, j, c) < r * c && ExprAt(e, Index(i, j, c), r, c) == Value(e, i, j)
  {
    IndexBelow(i, j, r, c);
    IndexInverse(i, j, c);
  }

  /** The product cell `sum over k < n of a(i, k) * e(k, j)`, accumulated
      from zero in increasing k, where a is a row-major buffer with ac columns. */
  function DotSum(a: seq<int>, ac: nat, e: Expr, i: nat, j: nat, n: nat): int
    requires forall k: nat :: k < n ==> Index(i, k, ac) < |a| && Defined(e, k, j)
  {
    if n == 0 then 0 else DotSum(a, ac, e, i, j, n - 1) + a[Index(i, n - 1, ac)] * Value(e, n - 1, j)
  }

  /** Cell t of the product buffer of an r-row matrix `a` with ac columns,
      whose r * ac cells fit in its buffer, and `e`, laid out with c columns. */
  ghost function ProductAt(a: seq<int>, ac: nat, e: Expr, t: nat, r: nat, c: nat): int
    requires t < r * c && r * ac <= |a| && DefinedOn(e, ac, c)
  {
    CellOfIndex(t, r, c);
    GridFits(r, ac);
    DotSum(a, ac, e, t / c, t % c, ac)
  }

  /** Multiplying by an expression reads the same cells as multiplying by the
      matrix built from it: deferring a sum or difference under `*` changes
      no product cell. */
  lemma {:induction false} DotSumOfMaterialised(a: seq<int>, ac: nat, e: Expr, m: seq<int>, i: nat, j: nat, n: nat)
    requires n <= Rows(e) && j < Cols(e) && Evaluable(e)
    requires forall k: nat :: k < n ==> Index(i, k, ac) < |a|
    requires forall p: nat, q: nat :: p < Rows(e) && q < Cols(e) ==>
               Index(p, q, Cols(e)) < |m| && m[Index(p, q, Cols(e))] == Value(e, p, q)
    ensures DotSum(a, ac, e, i, j, n) == DotSum(a, ac, Leaf(m, Rows(e), Cols(e)), i, j, n)
  {
    if n > 0 {
      DotSumOfMaterialised(a, ac, e, m, i, j, n - 1);
    }
  }

  /** `Matrix<T>`: a row-major buffer `data` of rows * columns cells. The
      header never reassigns the shape or the buffer, so they are constants
      here; only the buffer's cells change. */
  class Matrix {
    const rows: nat
    const columns: nat
    const data: array<int>

    /** The buffer invariant `_data.size() == _rows * _columns`. */
    ghost predicate Valid()
      ensures Valid() ==> Fits()
    {
      data.Length == rows * columns
    }

    /** Every cell inside the declared extent lies inside the buffer. */
    ghost predicate Fits()
      ensures Fits() ==> forall i: nat, j: nat :: i < rows && j < columns ==> Index(i, j, columns) < data.Length
    {
      GridFits(rows, columns);
      rows * columns <= data.Length
    }

    /** `Matrix(rows, columns, value = T())`. */
    constructor (rows: nat, columns: nat, value: int := 0)
      ensures Valid() && this.rows == rows && this.columns == columns && fresh(data)
      ensures forall t :: 0 <= t < data.Length ==> data[t] == value
    {
      this.rows := rows;
      this.columns := columns;
      data := new int[rows * columns](_ => value);
    }

    /** `Matrix()`, which delegates to `Matrix(0, 0)`. */
    constructor Empty()
      ensures Valid() && rows == 0 && columns == 0 && data.Length == 0 && fresh(data)
    {
      rows := 0;
      columns := 0;
      data := new int[0];
    }

    /** The converting constructor `Matrix(expr)`: the buffer gets `expr.size()`
        value-initialised cells, and cell (i, j) of the reported extent is
        written with `expr(i, j)`. The writes stay inside the buffer exactly
        when rows * columns <= size, and the buffer invariant holds exactly
        when they are equal. */
    constructor FromExpr(e: Expr)
      requires Rows(e) * Cols(e) <= Size(e)
      requires Evaluable(e)
      ensures rows == Rows(e) && columns == Cols(e) && data.Length == Size(e) && fresh(data)
      ensures Fits() && (Valid() <==> Rows(e) * Cols(e) == Size(e))
      ensures forall i: nat, j: nat :: i < rows && j < columns ==> Get(i, j) == Value(e, i, j)
      ensures forall t :: rows * columns <= t < data.Length ==> data[t] == 0
    {
      var r, c := Rows(e), Cols(e);
      var d := new int[Size(e)](_ => 0);
      var i := 0;
      ghost var done := 0;
      while i < r
        invariant i <= r && done == i * c && done <= r * c
        invariant forall t :: 0 <= t < done ==> d[t] == ExprAt(e, t, r, c)
        invariant forall t :: done <= t < d.Length ==> d[t] == 0
      {
        var j := 0;
        while j < c
          invariant j <= c && done == Index(i, j, c) && done <= r * c
          invariant forall t :: 0 <= t < done ==> d[t] == ExprAt(e, t, r, c)
          invariant forall t :: done <= t < d.Length ==> d[t] == 0
        {
          ExprAtCell(e, i, j, r, c);
          d[Index(i, j, c)] := Value(e, i, j);
          done := done + 1;
          j := j + 1;
        }
        assert done == (i + 1) * c;
        MulMono(i + 1, r, c);
        i := i + 1;
      }
      forall i: nat, j: nat | i < r && j < c
        ensures Index(i, j, c) < d.Length && d[Index(i, j, c)] == Value(e, i, j)
      {
        ExprAtCell(e, i, j, r, c);
      }
      rows := r;
      columns := c;
      data := d;
    }

    /** The shape-copy constructor `Matrix(expr, value)`: the buffer gets
        `expr.size()` value-initialised cells and every cell of the reported
        extent is set to `value`; no cell of `expr` is read. */
    constructor ShapeOf(e: Expr, value: int)
      requires Rows(e) * Cols(e) <= Size(e)
      ensures rows == Rows(e) && columns == Cols(e) && data.Length == Size(e) && fresh(data)
      ensures Fits() && (Valid() <==> Rows(e) * Cols(e) == Size(e))
      ensures forall t :: 0 <= t < rows * columns ==> data[t] == value
      ensures forall t :: rows * columns <= t < data.Length ==> data[t] == 0
    {
      var r, c := Rows(e), Cols(e);
      var d := new int[Size(e)](_ => 0);
      var i := 0;
      ghost var done := 0;
      while i < r
        invariant i <= r && done == i * c && done <= r * c
        invariant forall t :: 0 <= t < done ==> d[t] == value
        invariant forall t :: done <= t < d.Length ==> d[t] == 0
      {
        var j := 0;
        while j < c
          invariant j <= c && done == Index(i, j, c) && done <= r * c
          invariant forall t :: 0 <= t < done ==> d[t] == value
          invariant forall t :: done <= t < d.Length ==> d[t] == 0
        {
          IndexBelow(i, j, r, c);
          d[Index(i, j, c)] := value;
          done := done + 1;
          j := j + 1;
        }
        assert done == (i + 1) * c;
        MulMono(i + 1, r, c);
        i := i + 1;
      }
      rows := r;
      columns := c;
      data := d;
    }

    /** `operator()(row, column) const`: an unchecked buffer read. */
    function Get(row: nat, column: nat): int
      reads data
      requires Index(row, column, columns) < data.Length
    {
      data[Index(row, column, columns)]
    }

    /** Assignment through `operator()(row, column)`: an unchecked buffer write. */
    method Set(row: nat, column: nat, value: int)
      requires Index(row, column, columns) < data.Length
      modifies data
      ensures data[..] == old(data[..])[Index(row, column, columns) := value]
    {
      data[Index(row, column, columns)] := value;
    }

    /** The checked accessor `at(row, column)`. The reference it returns is
        given as the buffer position it designates. */
    function At(row: nat, column: nat): (r: Result<nat>)
      ensures r.Err? <==> row >= rows || column >= columns
      ensures r.Err? ==> r.error == OutOfRange
      ensures r.Ok? ==> r.value == Index(row, column, columns)
      ensures r.Ok? && Fits() ==> r.value < data.Length
    {
      if row >= rows || column >= columns then Err(OutOfRange) else Ok(Index(row, column, columns))
    }

    /** This matrix as a term of the expression contract. */
    function AsExpr(): (e: Expr)
      reads data
      ensures Size(e) == data.Length && Rows(e) == rows && Cols(e) == columns
      ensures forall i: nat, j: nat :: Defined(e, i, j) <==> Index(i, j, columns) < data.Length
      ensures forall i: nat, j: nat :: Index(i, j, columns) < data.Length ==> Value(e, i, j) == Get(i, j)
      ensures Valid() ==> WellFormed(e) && Uniform(e, rows, columns) && Evaluable(e)
    {
      Leaf(data[..], rows, columns)
    }

    /** `operator*(expr)`: throws unless `columns == expr.rows()`; otherwise a
        fresh `rows x expr.columns()` matrix whose cell (i, j) accumulates
        `this(i, k) * expr(k, j)` over k < columns from zero. */
    method Mul(e: Expr) returns (res: Result<Matrix>)
      requires Fits()
      requires columns == Rows(e) && 0 < rows ==> Evaluable(e)
      ensures res.Err? <==> columns != Rows(e)
      ensures res.Err? ==> res.error == MulShapeMismatch
      ensures res.Ok? ==> fresh(res.value) && fresh(res.value.data) && res.value.Valid()
      ensures res.Ok? ==> res.value.rows == rows && res.value.columns == Cols(e)
      ensures res.Ok? ==> forall i: nat, j: nat :: i < rows && j < Cols(e) ==>
                            res.value.Get(i, j) == DotSum(data[..], columns, e, i, j, columns)
    {
      if columns != Rows(e) {
        return Err(MulShapeMismatch);
      }
      var rc := Cols(e);
      var result := new Matrix(rows, rc);
      ghost var a := data[..];
      ghost var n := rows * rc;
      var i := 0;
      ghost var done := 0;
      while i < rows
        invariant i <= rows && done == i * rc && done <= n
        invariant forall t :: 0 <= t < done ==> result.data[t] == ProductAt(a, columns, e, t, rows, rc)
        invariant forall t :: done <= t < result.data.Length ==> result.data[t] == 0
      {
        var j := 0;
        while j < rc
          invariant j <= rc && done == Index(i, j, rc) && done <= n
          invariant forall t :: 0 <= t < done ==> result.data[t] == ProductAt(a, columns, e, t, rows, rc)
          invariant forall t :: done <= t < result.data.Length ==> result.data[t] == 0
        {
          IndexBelow(i, j, rows, rc);
          IndexInverse(i, j, rc);
          var k := 0;
          while k < columns
            invariant k <= columns
            invariant result.data[done] == DotSum(a, columns, e, i, j, k)
            invariant forall t :: 0 <= t < done ==> result.data[t] == ProductAt(a, columns, e, t, rows, rc)
            invariant forall t :: done < t < result.data.Length ==> result.data[t] == 0
          {
            IndexBelow(i, k, rows, columns);
            result.data[Index(i, j, rc)] := result.data[Index(i, j, rc)] + data[Index(i, k, columns)] * Value(e, k, j);
            k := k + 1;
          }
          done := done + 1;
          j := j + 1;
        }
        assert done == (i + 1) * rc;
        MulMono(i + 1, rows, rc);
        i := i + 1;
      }
      assert done == n;
      forall i: nat, j: nat | i < rows && j < rc
        ensures result.Get(i, j) == DotSum(data[..], columns, e, i, j, columns)
      {
        IndexBelow(i, j, rows, rc);
        IndexInverse(i, j, rc);
      }
      return Ok(result);
    }

    /** `operator+=(expr)` (op = Plus) and `operator-=(expr)` (op = Minus):
        throw before writing when the sizes differ; otherwise every cell
        (i, j) becomes `old(i, j) op expr(i, j)` in place. */
    method CompoundAssign(op: Op, e: Expr) returns (res: Outcome)
      requires Fits()
      requires data.Length == Size(e) ==> DefinedOn(e, rows, columns)
      modifies data
      ensures res.Fail? <==> data.Length != Size(e)
      ensures res.Fail? ==> res.error == SizeMismatch && data[..] == old(data[..])
      ensures res.Pass? ==> forall i: nat, j: nat :: i < rows && j < columns ==>
                              Get(i, j) == Apply(op, old(Get(i, j)), Value(e, i, j))
      ensures res.Pass? ==> forall t :: rows * columns <= t < data.Length ==> data[t] == old(data[t])
    {
      if data.Length != Size(e) {
        return Fail(SizeMismatch);
      }
      ghost var before := data[..];
      ghost var n := rows * columns;
      var i := 0;
      ghost var done := 0;
      while i < rows
        invariant i <= rows && done == i * columns && done <= n
        invariant forall t :: 0 <= t < done ==> data[t] == Apply(op, before[t], ExprAt(e, t, rows, columns))
        invariant forall t :: done <= t < data.Length ==> data[t] == before[t]
      {
        var j := 0;
        while j < columns
          invariant j <= columns && done == Index(i, j, columns) && done <= n
          invariant forall t :: 0 <= t < done ==> data[t] == Apply(op, before[t], ExprAt(e, t, rows, columns))
          invariant forall t :: done <= t < data.Length ==> data[t] == before[t]
        {
          ExprAtCell(e, i, j, rows, columns);
          data[Index(i, j, columns)] := Apply(op, data[Index(i, j, columns)], Value(e, i, j));
          done := done + 1;
          j := j + 1;
        }
        assert done == (i + 1) * columns;
        MulMono(i + 1, rows, columns);
        i := i + 1;
      }
      assert done == n;
      forall i: nat, j: nat | i < rows && j < columns
        ensures Get(i, j) == Apply(op, old(Get(i, j)), Value(e, i, j))
      {
        ExprAtCell(e, i, j, rows, columns);
      }
      return Pass;
    }
  }
}
