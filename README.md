# Dense matrices and vectors of r-concurrency, in Dafny

This project models the sequential linear-algebra core of the `r-concurrency`
crate: `src/matrix.rs` and `src/vector.rs`.

- **Matrix.** A matrix is a flat row-major sequence of elements plus a row
  count and a column count. Element (i, j) sits at index `i * col + j`.
- **multiply.** It checks that the inner dimensions agree. It then fills a
  zero-initialised buffer of `row_a * col_b` cells with a triple loop, and
  wraps the buffer as a new matrix.
- **Display.** It writes the rows inside braces, with `", "` between rows and
  `" "` between elements, for example `{1 2 3, 4 5 6}`.
- **Debug.** It prefixes the shape: `Matrix(row=2, col=3, {1 2 3, 4 5 6})`.
- **Vector.** A vector wraps a sequence and dereferences to it.
- **dot_product.** It accumulates `a[i] * b[i]` from the default value 0,
  over the indices of `a`.

The generic element type is modelled as `int`, and its default value as `0`.

The files are:

- `results.dfy` (module `Results`): the `Result` and `Option` wrappers, the
  one failure the core reports (`InvalidMatrixSize`), and `MapAll`, which
  applies a parser to every piece.
- `vector.dfy` (module `Vectors`): the `Vector` value and `DotProduct`, a
  `while` loop proved equal to the specification `Dot`.
- `matrix.dfy` (module `Matrices`): the `Matrix` value, rows and columns,
  and the specification `Product`.
  - `Multiply` keeps the source's array buffer and triple loop.
  - Its innermost loop is the method `AccumulateCell`.
  - `Multiply` is proved equal to `Product`.
- `text.dfy` (module `Text`):
  - decimal rendering of integers and its parser;
  - `Join` with a separator and its inverse `Split`;
  - `WrittenSoFar`, which says what a "write each part, then a separator
    unless it was the last" loop has emitted.
- `matrix_format.dfy` (module `MatrixFormat`):
  - `Display` and `WriteRow` are the formatter's two loops, proved to write
    `Render(m)`;
  - `DebugText` is the debug form;
  - parsers for both forms show that each form can be read back.

A matrix is `WellFormed` when its data holds at least `row * col` elements.
The source indexes the data without checking, and panics when the data is
shorter. So the operations that read elements require `WellFormed`:
`Display` and `DebugText` always, and `Multiply` only when the operands'
shapes fit together. On a shape mismatch `multiply` returns its error before
it reads any element, so that error is modelled for every pair of matrices.
Elements past `row * col` are never read.

## Model

| member | source | states |
|---|---|---|
| Vectors.New | src/vector.rs:16-20 | The new vector wraps exactly the given elements: dereferencing it gives them back, same length, nothing copied or checked |
| Vectors.NewDeref | src/vector.rs:8-14 | Every vector is the wrapping of what it dereferences to, so wrapping and dereferencing are inverse |
| Vectors.Dot | src/vector.rs:26 | The dot product of an empty `a` is the default value 0 the accumulator starts from |
| Vectors.DotProduct | src/vector.rs:22-31 | The loop's result is always `Ok`, and its value is `Dot(a, b)`: the products `a[i] * b[i]` for i in 0..len(a) added to 0 in index order |
| Vectors.DotIsSumOfProducts | src/vector.rs:26-29 | The left-to-right accumulation equals the textbook sum of `a[i] * b[i]` over the indices of `a` |
| Vectors.DotIgnoresTail | src/vector.rs:27-28 | Elements of `b` past the length of `a` never affect the result |
| Matrices.New | src/matrix.rs:13-20 | Construction stores data, row and col exactly as given, with no validation |
| Matrices.CellInBounds | src/matrix.rs:67 | Every cell (i, j) of a `rows × cols` grid has its row-major index `i * cols + j` below `rows * cols`, so a well-formed matrix can be indexed there |
| Matrices.Row | src/matrix.rs:67 | Row i has `col` elements, and its element k is `data[i * col + k]`, which is in range |
| Matrices.Column | src/matrix.rs:67 | Column j has `row` elements, and its element k is `data[k * col + j]`, which is in range |
| Matrices.Product | src/matrix.rs:55-73 | For every pair of matrices, the product fails exactly when `a.col != b.row`, with `InvalidMatrixSize`; otherwise it is an `a.row × b.col` matrix with exactly that many cells |
| Matrices.CellSumIsDot | src/matrix.rs:66-67 | After k steps, the innermost loop's sum for cell (i, j) equals the dot product of the first k entries of row i of `a` and column j of `b` |
| Matrices.ProductCell | src/matrix.rs:63-70 | Cell (i, j) of the product sits at `i * b.col + j` and is the dot product of row i of `a` and column j of `b` |
| Matrices.AccumulateCell | src/matrix.rs:66-68 | The k loop turns the zero cell (i, j) of the buffer into that cell of the product, and leaves every other cell unchanged |
| Matrices.Multiply | src/matrix.rs:55-73 | The triple loop over the zero-initialised buffer returns exactly `Product(a, b)`: the error on a shape mismatch, and otherwise every cell as its dot product |
| Matrices.ProductExample | src/matrix.rs:79-87 | `[1..6]` as 2×3 times `[1..6]` as 3×2 is the 2×2 matrix `[22, 28, 49, 64]` |
| Matrices.ProductMismatchExample | src/matrix.rs:59-61 | Multiplying two 2×3 matrices fails with `InvalidMatrixSize`, also when their data is empty |
| Text.IntToStringRoundTrip | src/matrix.rs:32 | The decimal rendering of any element, with a minus sign when negative, parses back to that element |
| Text.NatToStringRoundTrip | src/matrix.rs:51 | The rendering of a row or column count is a numeral whose value is that count |
| Text.WrittenSoFarIsJoin | src/matrix.rs:31-39 | After n parts, writing each part followed by a separator (except the last part) has emitted the first n parts joined, plus a trailing separator while parts remain |
| Text.WrittenAllIsJoin | src/matrix.rs:31-39 | Once every part is written, that loop has emitted exactly the parts joined by the separator |
| MatrixFormat.WriteRow | src/matrix.rs:31-36 | The inner loop appends exactly row i's elements separated by single spaces, with no space after the last one |
| MatrixFormat.Display | src/matrix.rs:28-43 | The formatter writes exactly `Render(m)`: "{", the rows separated by ", ", then "}" |
| MatrixFormat.RowTextRoundTrip | src/matrix.rs:31-36 | A row's text parses back to the row: split at spaces into the texts of its elements, or empty for a row without columns |
| MatrixFormat.RowTextHasNoComma | src/matrix.rs:31-36 | A row's text never contains the comma that separates rows |
| MatrixFormat.ParseDisplayOfRows | src/matrix.rs:30-42 | Row texts free of commas, joined by ", " inside braces, split back into those rows, each parsed as it parses alone, unless they are one empty text |
| MatrixFormat.DisplayRoundTrip | src/matrix.rs:28-43 | For every matrix except a single row without columns, the display form parses back to its rows |
| MatrixFormat.DisplayNoRows | src/matrix.rs:29-42 | A matrix without rows displays as `{}` |
| MatrixFormat.DisplayEmptyRowIsAmbiguous | src/matrix.rs:29-42 | A 1×0 matrix also displays as `{}`, the same as a 0×3 matrix, so the display form alone cannot tell them apart |
| MatrixFormat.DisplayEmptyRows | src/matrix.rs:29-42 | A 2×0 matrix displays as `{, }`, because the empty rows are still separated by ", ", and that text parses back to two empty rows |
| MatrixFormat.DisplayTwoByThree | src/matrix.rs:92-93 | `[1..6]` as 2×3 displays as `{1 2 3, 4 5 6}` |
| MatrixFormat.DisplayThreeByTwo | src/matrix.rs:94-95 | `[1..6]` as 3×2 displays as `{1 2, 3 4, 5 6}` |
| MatrixFormat.DebugText | src/matrix.rs:50-52 | The debug form is "Matrix(row=", the row count, ", col=", the column count, ", ", the display form `Render(m)` and ")": its length, its leading tag, the column tag after the row count and its trailing display form |
| MatrixFormat.ParseShapeOf | src/matrix.rs:51 | The debug layout, with two numerals and any display text, reads back as the two counts and that text |
| MatrixFormat.DebugRoundTrip | src/matrix.rs:50-52 | The debug form reads back as the row count, the column count and the display form |
| MatrixFormat.DisplayOfExampleProduct | examples/matrix.rs:5-8 | The product of the two example matrices succeeds, and its display form is `{22 28, 49 64}` |
| MatrixFormat.DebugOfExampleProduct | examples/matrix.rs:5-8 | The product of the two example matrices succeeds, and its debug form is `Matrix(row=2, col=2, {22 28, 49 64})` |

## Left out

- The rest of the repository is not part of this model: the metrics
  modules (`src/metrics.rs`, `src/metrics2.rs`, `src/metrics/rwmap.rs`) and
  the examples for metrics, threads and the Redis-like server. They do not
  touch the matrix or vector code.
- There is no concurrent multiply in the source. The only multiply in
  `src/matrix.rs` is sequential, so no worker pool, channels or
  message-passing engine are modelled.
- `examples/matrix.rs` writes `a * b`, but `src/matrix.rs` defines no `Mul`
  implementation for `Matrix`. The example lemmas take the product to be
  `multiply(&a, &b)` and state what `{:?}` prints for the matrix it returns.
- Vectors.DotProduct: requires `b` to be at least as long as `a`.
  - The source takes the loop bound from `a` alone and panics indexing `b`
    otherwise; the model does not represent that panic.
  - The source never returns an error, so no length-mismatch error is
    modelled; the model follows the code.
- Matrices.Multiply: requires `WellFormed` operands when their shapes fit
  together. MatrixFormat.Display and MatrixFormat.DebugText always require it.
  The source panics with an out-of-range index when the data is shorter than
  `row * col`, and the model does not represent that panic. (Loops that run
  zero times read nothing, so for example a 0-row operand would not panic;
  the model still asks for well-formed operands there.)
- Matrices.Multiply: does not model fixed-width overflow. Elements are
  unbounded integers, while the generic `T` of the source may wrap or
  panic on overflow. Floating-point element types, and their
  order-sensitive rounding, are not modelled either.
- MatrixFormat.Display: does not model a failing `Formatter`. The source
  propagates a write error with `?`; here writing into a string always
  succeeds. Element formatting is the decimal form of integers only; other
  `Display` types and format flags (width, precision) are not modelled.
- MatrixFormat.DisplayRoundTrip: excludes the 1×0 matrix. Its one empty row
  renders as `{}`, like a matrix without rows, and `{}` parses as no rows
  (see `DisplayEmptyRowIsAmbiguous`). With two or more empty rows the
  ", " separators remain, for example `{, }`, and the round trip holds. A
  0×c matrix displays as `{}` for every c, so the display form does not
  carry the column count of a matrix without rows; the debug form does.
- The `anyhow` error text "invalid matrix size" is modelled as the single
  failure value `InvalidMatrixSize`.
- `Vector` and `Matrix` are never changed after construction in the source,
  so they are values (datatypes). The output buffer of `multiply` is the
  one thing updated in place, and it is an `array`.
