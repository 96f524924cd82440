/** How the two engines relate: the lazy tree of `+` / `-` nodes and the
    eager chain of freshly allocated results compute the same cells, and
    the demonstration program of main.cpp gives the same matrices in both. */
module Engines {
  import opened Layout
  import opened MatrixErrors
  import MatrixExp
  import MatrixSub

  /** The buffer the eager engine produces for an expression tree: leaves
      are their buffers, and every `+` / `-` is taken position by position,
      as the eager operators do for operands of one shape. */
  function EagerEval(e: MatrixExp.Expr): (s: seq<int>)
    requires MatrixExp.WellFormed(e)
    ensures |s| == MatrixExp.Size(e)
  {
    match e
    case Leaf(cells, _, _) => cells
    case Diff(a, b) => MatrixSub.Pointwise(Minus, EagerEval(a), EagerEval(b))
    case Sum(a, b) => MatrixSub.Pointwise(Plus, EagerEval(a), EagerEval(b))
  }

  /** When every operand is r x c, the cell a lazy tree computes on demand
      is the cell at the same position of the eagerly evaluated buffer. */
  lemma {:induction false} LazyMatchesEager(e: MatrixExp.Expr, r: nat, c: nat, i: nat, j: nat)
    requires MatrixExp.Uniform(e, r, c) && i < r && j < c
    ensures MatrixExp.WellFormed(e) && MatrixExp.Defined(e, i, j)
    ensures Index(i, j, c) < r * c && |EagerEval(e)| == r * c
    ensures MatrixExp.Value(e, i, j) == EagerEval(e)[Index(i, j, c)]
  {
    MatrixExp.UniformShape(e, r, c);
    IndexBelow(i, j, r, c);
    match e
    case Leaf(_, _, _) =>
    case Diff(a, b) =>
      LazyMatchesEager(a, r, c, i, j);
      LazyMatchesEager(b, r, c, i, j);
    case Sum(a, b) =>
      LazyMatchesEager(a, r, c, i, j);
      LazyMatchesEager(b, r, c, i, j);
  }

  /** Both `operator*` loops accumulate the same sum when the right operand
      of the lazy one is a plain matrix. */
  lemma {:induction false} MulEnginesAgree(a: seq<int>, ac: nat, b: seq<int>, br: nat, bc: nat, i: nat, j: nat, n: nat)
    requires forall k: nat :: k < n ==> Index(i, k, ac) < |a| && Index(k, j, bc) < |b|
    ensures MatrixSub.DotSum(a, ac, b, bc, i, j, n) == MatrixExp.DotSum(a, ac, MatrixExp.Leaf(b, br, bc), i, j, n)
  {
    if n > 0 {
      MulEnginesAgree(a, ac, b, br, bc, i, j, n - 1);
    }
  }

  /** Cell t of the lazy tree for `x - y + z` over n x n buffers is
      `x[t] - y[t] + z[t]`. */
  lemma DiffSumCell(x: seq<int>, y: seq<int>, z: seq<int>, n: nat, t: nat)
    requires |x| == n * n && |y| == n * n && |z| == n * n && t < n * n
    ensures var e := MatrixExp.Sum(MatrixExp.Diff(MatrixExp.Leaf(x, n, n), MatrixExp.Leaf(y, n, n)), MatrixExp.Leaf(z, n, n));
            t / n < n && t % n < n && MatrixExp.Defined(e, t / n, t % n) &&
            MatrixExp.Value(e, t / n, t % n) == x[t] - y[t] + z[t]
  {
    CellOfIndex(t, n, n);
    var i, j := t / n, t % n;
    assert Index(i, j, n) == t;
    var d := MatrixExp.Diff(MatrixExp.Leaf(x, n, n), MatrixExp.Leaf(y, n, n));
    assert MatrixExp.Defined(d, i, j) && MatrixExp.Value(d, i, j) == x[t] - y[t];
  }

  /** `a - b + c` on the eager engine: `a - b` is allocated and filled, and
      then the sum of it and `c`. */
  method EagerDiffSum(n: nat, a: MatrixSub.Matrix, b: MatrixSub.Matrix, c: MatrixSub.Matrix) returns (m: MatrixSub.Matrix)
    requires a.Valid() && b.Valid() && c.Valid()
    requires a.rows == n && a.columns == n && b.rows == n && b.columns == n && c.rows == n && c.columns == n
    ensures fresh(m) && fresh(m.data) && m.Valid() && m.rows == n && m.columns == n
    ensures forall t :: 0 <= t < n * n ==> m.data[t] == a.data[t] - b.data[t] + c.data[t]
  {
    var diff := a.Combine(Minus, b);
    var sum := diff.value.Combine(Plus, c);
    m := sum.value;
  }

  /** `a - b + c` on the lazy engine: a Diff node under a Sum node,
      materialised once by the converting constructor. */
  method LazyDiffSum(n: nat, a: MatrixExp.Matrix, b: MatrixExp.Matrix, c: MatrixExp.Matrix) returns (m: MatrixExp.Matrix)
    requires a.Valid() && b.Valid() && c.Valid()
    requires a.rows == n && a.columns == n && b.rows == n && b.columns == n && c.rows == n && c.columns == n
    ensures fresh(m) && fresh(m.data) && m.Valid() && m.rows == n && m.columns == n
    ensures forall t :: 0 <= t < n * n ==> m.data[t] == a.data[t] - b.data[t] + c.data[t]
  {
    var diff := MatrixExp.MakeDiff(a.AsExpr(), b.AsExpr());
    var sum := MatrixExp.MakeSum(diff.value, c.AsExpr());
    assert sum.value == MatrixExp.Sum(MatrixExp.Diff(MatrixExp.Leaf(a.data[..], n, n), MatrixExp.Leaf(b.data[..], n, n)),
                                      MatrixExp.Leaf(c.data[..], n, n));
    MatrixExp.SquareMaterialises(sum.value, n);
    m := new MatrixExp.Matrix.FromExpr(sum.value);
    assert m.rows == n && m.columns == n && m.data.Length == n * n;

    forall t | 0 <= t < n * n
      ensures m.data[t] == a.data[t] - b.data[t] + c.data[t]
    {
      DiffSumCell(a.data[..], b.data[..], c.data[..], n, t);
      var i, j := t / n, t % n;
      assert Index(i, j, n) == t;
      assert m.data[t] == m.Get(i, j);
    }
  }

  /** For n x n operands holding the same cells, the eager and the lazy
      engine give the same buffer for `a - b + c`. */
  method CompareEngines(n: nat, a: MatrixSub.Matrix, b: MatrixSub.Matrix, c: MatrixSub.Matrix,
                        la: MatrixExp.Matrix, lb: MatrixExp.Matrix, lc: MatrixExp.Matrix)
    returns (eager: seq<int>, lazy: seq<int>)
    requires a.Valid() && b.Valid() && c.Valid()
    requires a.rows == n && a.columns == n && b.rows == n && b.columns == n && c.rows == n && c.columns == n
    requires la.Valid() && lb.Valid() && lc.Valid()
    requires la.rows == n && la.columns == n && lb.rows == n && lb.columns == n && lc.rows == n && lc.columns == n
    requires la.data[..] == a.data[..] && lb.data[..] == b.data[..] && lc.data[..] == c.data[..]
    ensures |eager| == n * n && eager == lazy
    ensures forall t :: 0 <= t < n * n ==> eager[t] == a.data[t] - b.data[t] + c.data[t]
  {
    var em := EagerDiffSum(n, a, b, c);
    var lm := LazyDiffSum(n, la, lb, lc);
    eager, lazy := em.data[..], lm.data[..];
    forall t | 0 <= t < n * n
      ensures lazy[t] == eager[t]
    {
      assert la.data[t] == la.data[..][t] == a.data[t];
      assert lb.data[t] == lb.data[..][t] == b.data[t];
      assert lc.data[t] == lc.data[..][t] == c.data[t];
    }
  }

  /** A product cell of two 2 x 2 buffers, written out. */
  lemma DotSumTwo(a: seq<int>, b: seq<int>, i: nat, j: nat)
    requires |a| == 4 && |b| == 4 && i < 2 && j < 2
    ensures MatrixExp.DotSum(a, 2, MatrixExp.Leaf(b, 2, 2), i, j, 2) == a[2 * i] * b[j] + a[2 * i + 1] * b[2 + j]
  {
    var e := MatrixExp.Leaf(b, 2, 2);
    assert Index(i, 0, 2) == 2 * i && Index(i, 1, 2) == 2 * i + 1;
    assert Index(0, j, 2) == j && Index(1, j, 2) == 2 + j;
    assert MatrixExp.DotSum(a, 2, e, i, j, 1) == a[2 * i] * b[j];
  }

  /** The inputs of main.cpp on the lazy engine: `a`, `b` and `d` are 2 x 2
      zero matrices whose cells are then set through `operator()`. */
  method LazyInputs() returns (a: MatrixExp.Matrix, b: MatrixExp.Matrix, d: MatrixExp.Matrix)
    ensures fresh(a) && fresh(a.data) && fresh(b) && fresh(b.data) && fresh(d) && fresh(d.data)
    ensures a.Valid() && b.Valid() && d.Valid()
    ensures a.rows == 2 && a.columns == 2 && b.rows == 2 && b.columns == 2 && d.rows == 2 && d.columns == 2
    ensures a.data[..] == [2, 0, 0, 3] && b.data[..] == [2, 5, 4, 0] && d.data[..] == [2, 5, 4, 0]
  {
    a := new MatrixExp.Matrix(2, 2);
    b := new MatrixExp.Matrix(2, 2);
    d := new MatrixExp.Matrix(2, 2);
    a.Set(0, 0, 2);
    a.Set(1, 1, 3);
    b.Set(0, 0, 2);
    b.Set(1, 0, 4);
    b.Set(0, 1, 5);
    d.Set(0, 0, 2);
    d.Set(1, 0, 4);
    d.Set(0, 1, 5);
  }

  /** `c = a + b` and `w = c * d` of main.cpp on the lazy engine. */
  method LazySumProduct(ma: MatrixExp.Matrix, mb: MatrixExp.Matrix, md: MatrixExp.Matrix)
    returns (mc: MatrixExp.Matrix, mw: MatrixExp.Matrix)
    requires ma.Valid() && mb.Valid() && md.Valid()
    requires ma.rows == 2 && ma.columns == 2 && mb.rows == 2 && mb.columns == 2 && md.rows == 2 && md.columns == 2
    requires ma.data[..] == [2, 0, 0, 3] && mb.data[..] == [2, 5, 4, 0] && md.data[..] == [2, 5, 4, 0]
    ensures fresh(mc) && fresh(mc.data) && mc.Valid() && mc.rows == 2 && mc.columns == 2
    ensures mw.Valid() && mw.rows == 2 && mw.columns == 2
    ensures mc.data[..] == [4, 5, 4, 3] && mw.data[..] == [28, 20, 20, 20]
  {
    var sum := MatrixExp.MakeSum(ma.AsExpr(), mb.AsExpr());
    MatrixExp.SquareMaterialises(sum.value, 2);
    mc := new MatrixExp.Matrix.FromExpr(sum.value);
    assert mc.rows == 2 && mc.columns == 2 && mc.data.Length == 4;
    assert mc.Get(0, 0) == MatrixExp.Value(sum.value, 0, 0) == 4;
    assert mc.Get(0, 1) == MatrixExp.Value(sum.value, 0, 1) == 5;
    assert mc.Get(1, 0) == MatrixExp.Value(sum.value, 1, 0) == 4;
    assert mc.Get(1, 1) == MatrixExp.Value(sum.value, 1, 1) == 3;
    var c := LazyCells(mc);

    var prod := mc.Mul(md.AsExpr());
    mw := prod.value;
    var w := LazyCells(mw);
    DotSumTwo(c, md.data[..], 0, 0);
    DotSumTwo(c, md.data[..], 0, 1);
    DotSumTwo(c, md.data[..], 1, 0);
    DotSumTwo(c, md.data[..], 1, 1);
  }

  /** `e = a - b + c` and `x = a - b + c * e` of main.cpp on the lazy engine. */
  method LazyMixed(ma: MatrixExp.Matrix, mb: MatrixExp.Matrix, mc: MatrixExp.Matrix)
    returns (me: MatrixExp.Matrix, mx: MatrixExp.Matrix)
    requires ma.Valid() && mb.Valid() && mc.Valid()
    requires ma.rows == 2 && ma.columns == 2 && mb.rows == 2 && mb.columns == 2 && mc.rows == 2 && mc.columns == 2
    requires ma.data[..] == [2, 0, 0, 3] && mb.data[..] == [2, 5, 4, 0] && mc.data[..] == [4, 5, 4, 3]
    ensures me.Valid() && me.rows == 2 && me.columns == 2 && mx.Valid() && mx.rows == 2 && mx.columns == 2
    ensures me.data[..] == [4, 0, 0, 6] && mx.data[..] == [16, 25, 12, 21]
  {
    me := LazyDiffSum(2, ma, mb, mc);
    var e := LazyCells(me);
    assert e[0] == me.data[0] && e[1] == me.data[1] && e[2] == me.data[2] && e[3] == me.data[3];

    var ce := mc.Mul(me.AsExpr());
    var c := LazyCells(mc);
    var mce := LazyCells(ce.value);
    DotSumTwo(c, e, 0, 0);
    DotSumTwo(c, e, 0, 1);
    DotSumTwo(c, e, 1, 0);
    DotSumTwo(c, e, 1, 1);
    mx := LazyDiffSum(2, ma, mb, ce.value);
    var x := LazyCells(mx);
    assert x[0] == mx.data[0] && x[1] == mx.data[1] && x[2] == mx.data[2] && x[3] == mx.data[3];
  }

  /** `y(a, 0); y += a;` and `z(a, 0); z -= a;` of main.cpp on the lazy engine. */
  method LazyShapeCopies(ma: MatrixExp.Matrix) returns (my: MatrixExp.Matrix, mz: MatrixExp.Matrix)
    requires ma.Valid() && ma.rows == 2 && ma.columns == 2 && ma.data[..] == [2, 0, 0, 3]
    ensures my.Valid() && my.rows == 2 && my.columns == 2 && mz.Valid() && mz.rows == 2 && mz.columns == 2
    ensures my.data[..] == [2, 0, 0, 3] && mz.data[..] == [-2, 0, 0, -3]
  {
    my := new MatrixExp.Matrix.ShapeOf(ma.AsExpr(), 0);
    var _ := my.CompoundAssign(Plus, ma.AsExpr());
    var y := LazyCells(my);
    mz := new MatrixExp.Matrix.ShapeOf(ma.AsExpr(), 0);
    var _ := mz.CompoundAssign(Minus, ma.AsExpr());
    var z := LazyCells(mz);
  }

  /** The computations of the first block of main.cpp, on the lazy engine:
      the six matrices it computes from the inputs a, b and d, row by row. */
  method DemoLazy() returns (c: seq<int>, w: seq<int>, e: seq<int>, x: seq<int>, y: seq<int>, z: seq<int>)
    ensures c == [4, 5, 4, 3] && w == [28, 20, 20, 20] && e == [4, 0, 0, 6]
    ensures x == [16, 25, 12, 21] && y == [2, 0, 0, 3] && z == [-2, 0, 0, -3]
  {
    var ma, mb, md := LazyInputs();
    var mc, mw := LazySumProduct(ma, mb, md);
    var me, mx := LazyMixed(ma, mb, mc);
    var my, mz := LazyShapeCopies(ma);
    c, w, e, x, y, z := mc.data[..], mw.data[..], me.data[..], mx.data[..], my.data[..], mz.data[..];
  }

  /** The four cells of a 2 x 2 matrix of the lazy engine, row by row. The
      two engines declare distinct `Matrix` classes, so the eager engine has
      its own reader, `EagerCells`. */
  method LazyCells(m: MatrixExp.Matrix) returns (s: seq<int>)
    requires m.Valid() && m.rows == 2 && m.columns == 2
    ensures s == m.data[..]
    ensures s == [m.Get(0, 0), m.Get(0, 1), m.Get(1, 0), m.Get(1, 1)]
  {
    s := m.data[..];
  }

  /** The four cells of a 2 x 2 matrix of the eager engine, row by row. */
  method EagerCells(m: MatrixSub.Matrix) returns (s: seq<int>)
    requires m.Valid() && m.rows == 2 && m.columns == 2
    ensures s == m.data[..]
    ensures s == [m.Get(0, 0), m.Get(0, 1), m.Get(1, 0), m.Get(1, 1)]
  {
    s := m.data[..];
  }

  /** The inputs of main.cpp on the eager engine. */
  method EagerInputs() returns (a: MatrixSub.Matrix, b: MatrixSub.Matrix, d: MatrixSub.Matrix)
    ensures fresh(a) && fresh(a.data) && fresh(b) && fresh(b.data) && fresh(d) && fresh(d.data)
    ensures a.Valid() && b.Valid() && d.Valid()
    ensures a.rows == 2 && a.columns == 2 && b.rows == 2 && b.columns == 2 && d.rows == 2 && d.columns == 2
    ensures a.data[..] == [2, 0, 0, 3] && b.data[..] == [2, 5, 4, 0] && d.data[..] == [2, 5, 4, 0]
  {
    a := new MatrixSub.Matrix(2, 2);
    b := new MatrixSub.Matrix(2, 2);
    d := new MatrixSub.Matrix(2, 2);
    a.Set(0, 0, 2);
    a.Set(1, 1, 3);
    b.Set(0, 0, 2);
    b.Set(1, 0, 4);
    b.Set(0, 1, 5);
    d.Set(0, 0, 2);
    d.Set(1, 0, 4);
    d.Set(0, 1, 5);
  }

  /** `c = a + b` and `w = c * d` of main.cpp on the eager engine. */
  method EagerSumProduct(ma: MatrixSub.Matrix, mb: MatrixSub.Matrix, md: MatrixSub.Matrix)
    returns (mc: MatrixSub.Matrix, mw: MatrixSub.Matrix)
    requires ma.Valid() && mb.Valid() && md.Valid()
    requires ma.rows == 2 && ma.columns == 2 && mb.rows == 2 && mb.columns == 2 && md.rows == 2 && md.columns == 2
    requires ma.data[..] == [2, 0, 0, 3] && mb.data[..] == [2, 5, 4, 0] && md.data[..] == [2, 5, 4, 0]
    ensures fresh(mc) && fresh(mc.data) && mc.Valid() && mc.rows == 2 && mc.columns == 2
    ensures mw.Valid() && mw.rows == 2 && mw.columns == 2
    ensures mc.data[..] == [4, 5, 4, 3] && mw.data[..] == [28, 20, 20, 20]
  {
    var sum := ma.Combine(Plus, mb);
    mc := sum.value;
    var c := EagerCells(mc);
    assert c[0] == mc.data[0] && c[1] == mc.data[1] && c[2] == mc.data[2] && c[3] == mc.data[3];

    var prod := mc.Mul(md);
    mw := prod.value;
    var w := EagerCells(mw);
    var d := md.data[..];
    forall i: nat, j: nat | i < 2 && j < 2
      ensures MatrixSub.DotSum(c, 2, d, 2, i, j, 2) == c[2 * i] * d[j] + c[2 * i + 1] * d[2 + j]
    {
      MulEnginesAgree(c, 2, d, 2, 2, i, j, 2);
      DotSumTwo(c, d, i, j);
    }
  }

  /** `e = a - b + c` and `x = a - b + c * e` of main.cpp on the eager engine. */
  method EagerMixed(ma: MatrixSub.Matrix, mb: MatrixSub.Matrix, mc: MatrixSub.Matrix)
    returns (me: MatrixSub.Matrix, mx: MatrixSub.Matrix)
    requires ma.Valid() && mb.Valid() && mc.Valid()
    requires ma.rows == 2 && ma.columns == 2 && mb.rows == 2 && mb.columns == 2 && mc.rows == 2 && mc.columns == 2
    requires ma.data[..] == [2, 0, 0, 3] && mb.data[..] == [2, 5, 4, 0] && mc.data[..] == [4, 5, 4, 3]
    ensures me.Valid() && me.rows == 2 && me.columns == 2 && mx.Valid() && mx.rows == 2 && mx.columns == 2
    ensures me.data[..] == [4, 0, 0, 6] && mx.data[..] == [16, 25, 12, 21]
  {
    me := EagerDiffSum(2, ma, mb, mc);
    var e := EagerCells(me);
    assert e[0] == me.data[0] && e[1] == me.data[1] && e[2] == me.data[2] && e[3] == me.data[3];

    var ce := mc.Mul(me);
    var c := EagerCells(mc);
    var mce := EagerCells(ce.value);
    forall i: nat, j: nat | i < 2 && j < 2
      ensures MatrixSub.DotSum(c, 2, e, 2, i, j, 2) == c[2 * i] * e[j] + c[2 * i + 1] * e[2 + j]
    {
      MulEnginesAgree(c, 2, e, 2, 2, i, j, 2);
      DotSumTwo(c, e, i, j);
    }
    mx := EagerDiffSum(2, ma, mb, ce.value);
    var x := EagerCells(mx);
    assert x[0] == mx.data[0] && x[1] == mx.data[1] && x[2] == mx.data[2] && x[3] == mx.data[3];
  }

  /** `y(a, 0); y += a;` and `z(a, 0); z -= a;` of main.cpp on the eager engine. */
  method EagerShapeCopies(ma: MatrixSub.Matrix) returns (my: MatrixSub.Matrix, mz: MatrixSub.Matrix)
    requires ma.Valid() && ma.rows == 2 && ma.columns == 2 && ma.data[..] == [2, 0, 0, 3]
    ensures my.Valid() && my.rows == 2 && my.columns == 2 && mz.Valid() && mz.rows == 2 && mz.columns == 2
    ensures my.data[..] == [2, 0, 0, 3] && mz.data[..] == [-2, 0, 0, -3]
  {
    my := new MatrixSub.Matrix.ShapeOf(ma, 0);
    var _ := my.CompoundAssign(Plus, ma);
    var y := EagerCells(my);
    mz := new MatrixSub.Matrix.ShapeOf(ma, 0);
    var _ := mz.CompoundAssign(Minus, ma);
    var z := EagerCells(mz);
  }

  /** The computations of the second block of main.cpp: the same six
      matrices, computed by the eager engine. */
  method DemoEager() returns (c: seq<int>, w: seq<int>, e: seq<int>, x: seq<int>, y: seq<int>, z: seq<int>)
    ensures c == [4, 5, 4, 3] && w == [28, 20, 20, 20] && e == [4, 0, 0, 6]
    ensures x == [16, 25, 12, 21] && y == [2, 0, 0, 3] && z == [-2, 0, 0, -3]
  {
    var ma, mb, md := EagerInputs();
    var mc, mw := EagerSumProduct(ma, mb, md);
    var me, mx := EagerMixed(ma, mb, mc);
    var my, mz := EagerShapeCopies(ma);
    c, w, e, x, y, z := mc.data[..], mw.data[..], me.data[..], mx.data[..], my.data[..], mz.data[..];
  }
}
