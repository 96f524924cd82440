# Dense matrices, lazy and eager, in Dafny

This project models the two dense-matrix libraries of the repository and
proves properties of the model. Both store an integer matrix as a row-major
buffer: cell `(i, j)` of a matrix with `columns` columns is at position
`i * columns + j`.

- `matrix_exp.hpp` is the lazy engine. `+` and `-` build `_MatrixSum` and
  `_MatrixDiff` nodes that check the operand sizes and compute cells on
  demand. The converting constructor `Matrix(expr)` materialises an
  expression. `*`, `+=` and `-=` are evaluated at once, cell by cell.
- `matrix_sub.hpp` is the eager engine. Every `+`, `-` and `*` allocates
  and fills a fresh result. `+=` and `-=` update the buffer in place.

Files:

- `layout.dfy` (module `Layout`): the position function `Index(i, j, c) = i * c + j`
  and the non-linear facts about it. These are: every cell of an `r x c`
  grid lies below `r * c`, and division and remainder recover the cell from
  its position.
- `errors.dfy` (module `MatrixErrors`): the three exceptions the headers
  throw, as values. It also has `Result` and `Outcome`, and `Op` for `+` / `-`.
- `matrix_exp.dfy` (module `MatrixExp`):
  - the `Expr` datatype, one leaf and two node kinds, with the forwarding
    functions `Size`, `Rows`, `Cols` and the cell function `Value`;
  - the node builders `MakeDiff` and `MakeSum`;
  - the class `Matrix`, whose loops are methods proved against `Value` and
    against the product sum `DotSum`.
- `matrix_sub.dfy` (module `MatrixSub`): the eager class `Matrix`, with its
  loops proved against `Pointwise` and `DotSum`. It also has lemmas that
  characterise exactly when the eager loops stay inside their buffers.
- `engines.dfy` (module `Engines`):
  - the lazy and the eager engine agree cell by cell, for expressions over
    operands of one shape and for products;
  - both blocks of `main.cpp`, with the matrices the program prints.

Modelling choices:

- Elements are unbounded `int`s, as in the demonstration's `Matrix<int>`.
- A thrown exception is an `Err` result or a `Fail` outcome. The operation
  then changes nothing and allocates nothing that the caller sees.
- An unchecked `std::vector` access out of range is undefined behaviour. Each
  loop of the lazy engine therefore has a precondition saying that its reads
  and writes stay in bounds, and no more: `Fits()` (the `rows * columns`
  cells lie in the buffer) rather than the stronger `Valid()`, and reads of
  the right operand only when the loop runs. A lazy matrix built from a node
  can fit without being valid. The eager loops require `Valid()` of their
  operands, which every eager constructor establishes. Lemmas state the
  in-bounds conditions over shapes in closed form (`NodeMaterialisableIff`
  for the converting constructor, `CombineSafeIff`, `CompoundSafeIff`).
- Operands that nodes hold by `const&` are leaves holding value snapshots.
  The nodes only read their operands, and `+=` / `-=` read cell `(i, j)` of
  the right operand before writing cell `(i, j)`. So a snapshot gives the
  same cells as the reference.
- `+` and `-` are one method with an `Op` parameter, and so are `+=` and `-=`.
- The model follows the headers as written, also where they are inconsistent:
  - Nodes report `columns()` as the first operand's `rows()`, although a
    leaf reports its own column count.
  - `Matrix(expr)` sizes its buffer by `expr.size()` and its shape by
    `expr.rows()` and `expr.columns()`, which a node need not make agree.
  - The eager `+` / `-` check only `size()`, and then loop over the left
    operand's shape.
  - The corrected versions are proved alongside, under "Findings".

## Model

| member | source | states |
|---|---|---|
| MatrixExp.MakeDiff | matrix_exp.hpp:188-230 | fails with SizeMismatch exactly when the operand sizes differ; a node reports the first operand's size and rows, and the first operand's rows as its columns; a cell is defined exactly when both operand cells are, and is their difference; well-formedness is kept |
| MatrixExp.MakeSum | matrix_exp.hpp:232-274 | the same for `_MatrixSum`, with the cell the sum of the operand cells |
| MatrixExp.UniformShape | matrix_exp.hpp:204-217 | in a tree whose every operand is `r x c`: the tree is well formed, its size is `r * c`, its rows are `r`, and its intended columns are `c`; a node's reported columns are `r`; every cell of the `r x c` grid can be evaluated |
| MatrixExp.SquareMaterialises | matrix_exp.hpp:78-89 | over `n x n` operands the reported shape covers the buffer exactly, and every reported cell can be evaluated |
| MatrixExp.NodeShapeHonestIff | matrix_exp.hpp:214-217 | for a node over `r x c` operands, reported rows times reported columns equals the size if and only if `r == 0` or `r == c` |
| MatrixExp.UniformDefinedIff | matrix_exp.hpp:124-127 | in a tree over `r x c` operands, cell `(i, j)` can be read if and only if `i * c + j < r * c` |
| MatrixExp.NodeMaterialisableIff | matrix_exp.hpp:78-89 | for a node over `r x c` operands, the reported extent fits the `size()` buffer if and only if `r == 0` or `r <= c`, and every reported cell can be read under the same condition |
| MatrixExp.NodeColumnsMismatch | matrix_exp.hpp:258-261 | the sum of two `2 x 3` matrices reports 2 columns (intended 3) and fewer cells than it has; that of two `3 x 2` matrices reports more cells than it has |
| MatrixExp.IntendedShapeMatchesSize | matrix_exp.hpp:248-261 | with columns forwarded from the first operand, rows times columns equals the size for every well-formed expression |
| MatrixExp.DotSumOfMaterialised | matrix_exp.hpp:149-155 | a product with an expression accumulates the same sum as a product with the matrix materialised from it |
| MatrixExp.Matrix.constructor | matrix_exp.hpp:66-71 | the buffer invariant holds, the shape is as given, and every cell holds the fill value |
| MatrixExp.Matrix.Empty | matrix_exp.hpp:73-76 | a `0 x 0` matrix with an empty buffer |
| MatrixExp.Matrix.FromExpr | matrix_exp.hpp:78-89 | shape from `rows()` and `columns()`; buffer length `size()`; cell `(i, j)` of the extent equals the expression's cell and the rest of the buffer is zero; the buffer invariant holds exactly when the reported extent equals the size |
| MatrixExp.Matrix.ShapeOf | matrix_exp.hpp:91-102 | the same shape and buffer; every cell of the extent holds the fill value and the rest is zero; no cell of the expression needs to be defined |
| MatrixExp.Matrix.Set | matrix_exp.hpp:119-122 | writes exactly position `row * columns + column` and nothing else |
| MatrixExp.Matrix.At | matrix_exp.hpp:129-135 | fails with OutOfRange exactly when `row >= rows` or `column >= columns`; otherwise designates position `row * columns + column`, inside the buffer |
| MatrixExp.Matrix.AsExpr | matrix_exp.hpp:104-127 | a matrix as an expression reports its shape and size, a cell is defined exactly when its position is in the buffer, and it evaluates to the stored cell |
| MatrixExp.Matrix.Mul | matrix_exp.hpp:142-157 | fails with MulShapeMismatch exactly when `columns != expr.rows()`; otherwise a fresh valid `rows x expr.columns()` matrix whose cell `(i, j)` is the sum over `k < columns` of `this(i, k) * expr(k, j)`, accumulated from zero; the left matrix need only fit its buffer |
| MatrixExp.Matrix.CompoundAssign | matrix_exp.hpp:159-185 | fails with SizeMismatch exactly when the sizes differ, leaving the buffer unchanged; otherwise every cell of the extent becomes the old cell plus or minus the expression's cell, and buffer positions past the extent are unchanged; the matrix need only fit its buffer |
| MatrixSub.CombineSafeIff | matrix_sub.hpp:102-113 | for operands of equal size, the loop of `+` / `-` stays inside the result and the right operand if and only if the left operand has no cells or both have the same shape |
| MatrixSub.CombineGuardAdmitsUnsafe | matrix_sub.hpp:104-110 | a `1 x 4` and a `2 x 2` matrix pass the size check, and the loop then leaves the buffers |
| MatrixSub.ShapeCheck | matrix_sub.hpp:104-106 | the shape guard passes exactly for operands of one shape; every pair it passes has equal sizes and keeps the loop in bounds |
| MatrixSub.CompoundSafeIff | matrix_sub.hpp:130-139 | for operands of equal size, `+=` / `-=` read inside the right operand if and only if the left operand has at most one row, no columns, or at least as many columns as the right one |
| MatrixSub.Matrix.constructor | matrix_sub.hpp:24-29 | the buffer invariant holds, the shape is as given, and every cell holds the fill value |
| MatrixSub.Matrix.Empty | matrix_sub.hpp:31-34 | a `0 x 0` matrix with an empty buffer |
| MatrixSub.Matrix.ShapeOf | matrix_sub.hpp:36-46 | the shape of the other matrix, the buffer invariant, and every cell equal to the fill value |
| MatrixSub.Matrix.Set | matrix_sub.hpp:63-66 | writes exactly position `row * columns + column` and nothing else |
| MatrixSub.Matrix.At | matrix_sub.hpp:73-79 | fails with OutOfRange exactly when `row >= rows` or `column >= columns`; otherwise designates position `row * columns + column`, inside the buffer |
| MatrixSub.Matrix.Mul | matrix_sub.hpp:86-100 | fails with MulShapeMismatch exactly when `columns != rhs.rows()`; otherwise a fresh valid `rows x rhs.columns()` matrix whose cell `(i, j)` is the sum over `k` of `this(i, k) * rhs(k, j)` |
| MatrixSub.Matrix.Combine | matrix_sub.hpp:102-128 | fails with SizeMismatch exactly when the sizes differ; otherwise a fresh valid `rows x rhs.columns()` matrix whose cell `(i, j)` is `this(i, j)` plus or minus `rhs(i, j)`; with equal column counts the result buffer is the operand buffers taken position by position, and otherwise it is left zero |
| MatrixSub.Matrix.CompoundAssign | matrix_sub.hpp:130-154 | fails with SizeMismatch exactly when the sizes differ, leaving the buffer unchanged; otherwise every cell becomes the old cell plus or minus the old `rhs(i, j)`, also when `rhs` is the matrix itself |
| Engines.LazyMatchesEager | matrix_exp.hpp:263-266 | over operands of one shape, every cell a lazy tree computes equals the cell at the same position of the buffer the eager operators produce |
| Engines.MulEnginesAgree | matrix_sub.hpp:92-98 | the eager and the lazy product loops accumulate the same sum |
| Engines.EagerDiffSum | main.cpp:88 | eager `a - b + c` on `n x n` matrices is a fresh valid `n x n` matrix holding `a[t] - b[t] + c[t]` at every position |
| Engines.LazyDiffSum | main.cpp:44 | lazy `a - b + c` on `n x n` matrices is a fresh valid `n x n` matrix holding `a[t] - b[t] + c[t]` at every position |
| Engines.CompareEngines | matrix_exp.hpp:78-89 | for operands with the same cells, both engines give the same buffer for `a - b + c` |
| Engines.LazyInputs | main.cpp:31-41 | the inputs `a`, `b`, `d` of the demonstration on the lazy engine |
| Engines.LazySumProduct | main.cpp:42-43 | lazy `c = a + b` is `[[4, 5], [4, 3]]` and `w = c * d` is `[[28, 20], [20, 20]]` |
| Engines.LazyMixed | main.cpp:44-45 | lazy `e = a - b + c` is `[[4, 0], [0, 6]]` and `x = a - b + c * e` is `[[16, 25], [12, 21]]` |
| Engines.LazyShapeCopies | main.cpp:46-49 | lazy `y(a, 0); y += a` gives `a`, and `z(a, 0); z -= a` gives `-a` |
| Engines.DemoLazy | main.cpp:31-49 | the lazy block computes `c`, `w`, `e`, `x`, `y`, `z` as these six matrices, from the inputs `a`, `b`, `d` |
| Engines.EagerInputs | main.cpp:75-85 | the inputs of the demonstration on the eager engine |
| Engines.EagerSumProduct | main.cpp:86-87 | eager `c` and `w` are the same matrices as on the lazy engine |
| Engines.EagerMixed | main.cpp:88-89 | eager `e` and `x` are the same matrices as on the lazy engine |
| Engines.EagerShapeCopies | main.cpp:90-93 | eager `y` is `a`, and `z` is `-a` |
| Engines.DemoEager | main.cpp:75-93 | the eager block computes the same six matrices as the lazy block |

## Left out

- `operator<<` in both headers (matrix_exp.hpp:39-53, matrix_sub.hpp:156-170) is stream formatting and is not modelled.
- The `const` overloads of `at` (matrix_exp.hpp:137-140, matrix_sub.hpp:81-84) call themselves forever on a `const` object. Only the non-const checked accessor is modelled.
- main.cpp's timing with `std::chrono`, its `double` time spans and its printing are not modelled. Its values are used only as the inputs and expected outputs of the demonstration methods.
- The template machinery is not modelled: `enable_if` / `is_arithmetic`, the CRTP dispatch of `_MatrixExpr`, and the unconstrained free `operator+` / `operator-`. The closed `Expr` datatype stands in for it.
- Element types other than `int`, and C++ integer overflow (including `std::size_t` wrap-around of `row * _columns + column`), are not modelled.
- Reference lifetimes and dangling `const&` operands are not modelled, because leaves are snapshots.
- MatrixExp.Matrix.CompoundAssign: a leaf that aliases the destination (`m += m`) is read from its snapshot. This matches the source, because each cell is read before it is written.
- Allocation counting, that is, one buffer for lazy `a - b + c` against two for eager, is a cost property and is not stated.
- Methods whose loops could leave a buffer have preconditions that exclude that undefined behaviour. What the C++ program does in those cases is not modelled. One line per method follows.
- MatrixExp.Matrix.FromExpr: requires the reported extent to fit `size()` and every reported cell to be readable; over `r x c` operands of a node this is `r == 0 || r <= c` (`NodeMaterialisableIff`).
- MatrixExp.Matrix.ShapeOf: requires the reported extent to fit `size()`, the first half of the same condition.
- MatrixExp.Matrix.Mul: requires the left matrix to fit its buffer, and the expression's reported cells to be readable when the shapes match and the left matrix has rows.
- MatrixExp.Matrix.CompoundAssign: requires the matrix to fit its buffer, and the expression's cells of the matrix's extent to be readable when the sizes match.
- MatrixSub.Matrix.Combine: requires the loop to stay inside both buffers when the sizes match (`CombineSafeIff`).
- MatrixSub.Matrix.CompoundAssign: requires the reads of the right operand to stay inside its buffer when the sizes match (`CompoundSafeIff`).
- MatrixSub.Matrix.CompoundAssign: a right operand that shares the buffer of the destination without being the same object cannot arise in C++, so it is excluded.

## Findings

| source | as written | input that shows it | evidently intended | confidence | as-written member | corrected member |
|---|---|---|---|---|---|---|
| matrix_exp.hpp:214-217 | `_MatrixDiff::columns()` and `_MatrixSum::columns()` (matrix_exp.hpp:258-261) return `_first.rows()` | `Matrix(a + a)` for a `2 x 3` matrix `a` is `2 x 2` over 6 cells; for a `3 x 2` matrix it is `3 x 3` and writes past its 6-cell buffer | return `_first.columns()` | not executed | MatrixExp.NodeColumnsMismatch | MatrixExp.IntendedShapeMatchesSize |
| matrix_sub.hpp:104-110 | eager `+` / `-` compare `size()` only, then write `result(i, j)` into a `rows x rhs.columns()` result for `j < _columns` | a `1 x 4` plus a `2 x 2` matrix: both have size 4, and the loop writes positions up to 3 of a 2-cell result | reject operands of different shape | not executed | MatrixSub.CombineGuardAdmitsUnsafe | MatrixSub.ShapeCheck |

The operations themselves keep the behaviour as written. The corrected
definitions are proved next to them: `IntendedCols` with
`IntendedShapeMatchesSize`, and `ShapeCheck` with `CombineSafeIff`.
