/**
 * A dense matrix stored row-major in one flat sequence, and its sequential
 * product: a shape check, then a triple loop that accumulates every output
 * cell into a zero-initialised buffer.
 * The generic element type is modelled as `int`, its default value as 0.
 */
module Matrices {
  import opened Results
  import Vectors

  /** Element (i, j) lives at index i * col + j of `data`. */
  datatype Matrix = Matrix(data: seq<int>, row: nat, col: nat)

  /** Construction keeps the three arguments exactly as given; nothing is checked. */
  function New(data: seq<int>, row: nat, col: nat): (m: Matrix)
    ensures m.data == data && m.row == row && m.col == col
  {
    Matrix(data, row, col)
  }

  /**
   * The flat sequence holds an element for every cell, so that every index
   * i * col + j the operations read is in range. Elements past row * col
   * are never read.
   */
  predicate WellFormed(m: Matrix)
  {
    |m.data| >= m.row * m.col
  }

  /** Row-major positions of the cells in rows 0..i stay below the end of row i. */
  lemma RowEnd(i: nat, rows: nat, cols: nat)
    requires i < rows
    ensures i * cols + cols <= rows * cols
  {
    assert i * cols + cols == (i + 1) * cols;
    MulMonotone(i + 1, rows, cols);
  }

  lemma MulMonotone(x: nat, y: nat, z: nat)
    requires x <= y
    ensures x * z <= y * z
  {
  }

  /** The row-major position of cell (i, j) in a grid with `cols` columns. */
  function Pos(i: nat, j: nat, cols: nat): nat
  {
    i * cols + j
  }

  /** Every cell of a rows × cols grid has a row-major position inside the grid. */
  lemma CellInBounds(i: nat, j: nat, rows: nat, cols: nat)
    requires i < rows && j < cols
    ensures Pos(i, j, cols) < rows * cols
  {
    RowEnd(i, rows, cols);
  }

  /** A row-major position determines its row and column. */
  lemma CellPosition(i: nat, j: nat, cols: nat)
    requires j < cols
    ensures (i * cols + j) / cols == i && (i * cols + j) % cols == j
  {
    var p := i * cols + j;
    var q, r := p / cols, p % cols;
    assert p == q * cols + r;
    if q < i {
      assert (q + 1) * cols <= i * cols by { MulMonotone(q + 1, i, cols); }
      assert false;
    }
    if q > i {
      assert (i + 1) * cols <= q * cols by { MulMonotone(i + 1, q, cols); }
      assert false;
    }
  }

  /** The row and column of a position inside the grid lie inside the grid. */
  lemma PositionInGrid(p: nat, rows: nat, cols: nat)
    requires p < rows * cols
    ensures cols > 0 && p / cols < rows && p % cols < cols
    ensures p == (p / cols) * cols + p % cols
  {
    if p / cols >= rows {
      MulMonotone(rows, p / cols, cols);
      assert false;
    }
  }

  /** Row i: the contiguous elements i * col .. i * col + col. */
  function Row(m: Matrix, i: nat): (r: seq<int>)
    requires WellFormed(m) && i < m.row
    ensures |r| == m.col && i * m.col + m.col <= |m.data|
    ensures forall k :: 0 <= k < m.col ==> r[k] == m.data[i * m.col + k]
  {
    RowEnd(i, m.row, m.col);
    m.data[i * m.col .. i * m.col + m.col]
  }

  /** Every cell of column j has its position inside the grid. */
  lemma ColumnInBounds(j: nat, rows: nat, cols: nat)
    requires j < cols
    ensures forall k :: 0 <= k < rows ==> Pos(k, j, cols) < rows * cols
  {
    forall k | 0 <= k < rows
      ensures Pos(k, j, cols) < rows * cols
    {
      CellInBounds(k, j, rows, cols);
    }
  }

  /** Column j: the elements at stride col, starting at j. */
  function Column(m: Matrix, j: nat): (c: seq<int>)
    requires WellFormed(m) && j < m.col
    ensures |c| == m.row
    ensures forall k :: 0 <= k < m.row ==> Pos(k, j, m.col) < |m.data| && c[k] == m.data[Pos(k, j, m.col)]
  {
    ColumnInBounds(j, m.row, m.col);
    seq(m.row, k requires 0 <= k < m.row => m.data[Pos(k, j, m.col)])
  }

  /**
   * The sum that the innermost loop accumulates for output cell (i, j) after
   * its first `n` steps, written over the flat storage of the operands.
   */
  function CellSum(a: Matrix, b: Matrix, i: nat, j: nat, n: nat): int
    requires WellFormed(a) && WellFormed(b) && a.col == b.row
    requires i < a.row && j < b.col && n <= a.col
  {
    if n == 0 then 0
    else
      CellInBounds(i, n - 1, a.row, a.col);
      CellInBounds(n - 1, j, b.row, b.col);
      CellSum(a, b, i, j, n - 1) + a.data[i * a.col + n - 1] * b.data[(n - 1) * b.col + j]
  }

  /** The accumulated sum is the dot product of row i of `a` with column j of `b`. */
  lemma {:induction false} CellSumIsDot(a: Matrix, b: Matrix, i: nat, j: nat, n: nat)
    requires WellFormed(a) && WellFormed(b) && a.col == b.row
    requires i < a.row && j < b.col && n <= a.col
    ensures CellSum(a, b, i, j, n) == Vectors.DotPrefix(Row(a, i), Column(b, j), n)
  {
    if n > 0 {
      CellSumIsDot(a, b, i, j, n - 1);
    }
  }

  /** Output cell at row-major position p of the product. */
  function CellValue(a: Matrix, b: Matrix, p: nat): int
    requires WellFormed(a) && WellFormed(b) && a.col == b.row
    requires p < a.row * b.col
  {
    PositionInGrid(p, a.row, b.col);
    CellSum(a, b, p / b.col, p % b.col, a.col)
  }

  /**
   * The product as a value: an error when the inner dimensions differ,
   * otherwise the a.row × b.col matrix of row-by-column dot products.
   * The shape check reads no element, so only operands that fit together
   * need to be well-formed.
   */
  function Product(a: Matrix, b: Matrix): (r: Result<Matrix>)
    requires a.col == b.row ==> WellFormed(a) && WellFormed(b)
    ensures r.Err? <==> a.col != b.row
    ensures r.Err? ==> r.error == InvalidMatrixSize
    ensures r.Ok? ==> |r.value.data| == a.row * b.col && r.value.row == a.row && r.value.col == b.col
  {
    if a.col != b.row then Err(InvalidMatrixSize)
    else Ok(Matrix(seq(a.row * b.col, p requires 0 <= p < a.row * b.col => CellValue(a, b, p)), a.row, b.col))
  }

  /**
   * Cell (i, j) of a successful product is the dot product of row i of `a`
   * and column j of `b`, which is the sum over k of
   * a.data[i * a.col + k] * b.data[k * b.col + j], accumulated from 0.
   */
  lemma ProductCell(a: Matrix, b: Matrix, i: nat, j: nat)
    requires WellFormed(a) && WellFormed(b) && a.col == b.row
    requires i < a.row && j < b.col
    ensures Product(a, b).Ok?
    ensures i * b.col + j < |Product(a, b).value.data|
    ensures Product(a, b).value.data[i * b.col + j] == Vectors.Dot(Row(a, i), Column(b, j))
    ensures Product(a, b).value.data[i * b.col + j] == CellSum(a, b, i, j, a.col)
  {
    CellInBounds(i, j, a.row, b.col);
    CellPosition(i, j, b.col);
    CellSumIsDot(a, b, i, j, a.col);
  }

  /**
   * The innermost loop of the multiply: adds the products of row i of `a`
   * and column j of `b` into the zero cell (i, j) of the output buffer,
   * one k at a time, and touches no other cell.
   */
  method AccumulateCell(a: Matrix, b: Matrix, data: array<int>, i: nat, j: nat)
    requires WellFormed(a) && WellFormed(b) && a.col == b.row
    requires i < a.row && j < b.col && data.Length == a.row * b.col
    requires Pos(i, j, b.col) < data.Length && data[Pos(i, j, b.col)] == 0
    modifies data
    ensures data[Pos(i, j, b.col)] == CellValue(a, b, Pos(i, j, b.col))
    ensures forall p :: 0 <= p < data.Length && p != Pos(i, j, b.col) ==> data[p] == old(data[p])
  {
    var cell := Pos(i, j, b.col);
    var k := 0;
    while k < a.col
      invariant 0 <= k <= a.col
      invariant data[cell] == CellSum(a, b, i, j, k)
      invariant forall p :: 0 <= p < data.Length && p != cell ==> data[p] == old(data[p])
    {
      CellInBounds(i, k, a.row, a.col);
      CellInBounds(k, j, b.row, b.col);
      data[cell] := data[cell] + a.data[Pos(i, k, a.col)] * b.data[Pos(k, j, b.col)];
      k := k + 1;
    }
    CellPosition(i, j, b.col);
  }

  /**
   * The sequential multiply: fails on a shape mismatch before allocating
   * anything, otherwise fills a zero-initialised buffer with the triple loop
   * and wraps it as an a.row × b.col matrix. The operands are values and are
   * left as they were.
   */
  method Multiply(a: Matrix, b: Matrix) returns (r: Result<Matrix>)
    requires a.col == b.row ==> WellFormed(a) && WellFormed(b)
    ensures r == Product(a, b)
  {
    if a.col != b.row {
      return Err(InvalidMatrixSize);
    }
    assert WellFormed(a) && WellFormed(b);
    var data := new int[a.row * b.col](_ => 0);
    var i := 0;
    while i < a.row
      invariant 0 <= i <= a.row && i * b.col <= data.Length
      invariant forall p :: 0 <= p < i * b.col ==> data[p] == CellValue(a, b, p)
      invariant forall p :: i * b.col <= p < data.Length ==> data[p] == 0
    {
      RowEnd(i, a.row, b.col);
      var j := 0;
      while j < b.col
        invariant 0 <= j <= b.col && i * b.col + j <= data.Length
        invariant forall p :: 0 <= p < i * b.col + j ==> data[p] == CellValue(a, b, p)
        invariant forall p :: i * b.col + j <= p < data.Length ==> data[p] == 0
      {
        CellInBounds(i, j, a.row, b.col);
        AccumulateCell(a, b, data, i, j);
        j := j + 1;
      }
      assert i * b.col + b.col == (i + 1) * b.col;
      i := i + 1;
    }
    assert data[..] == Product(a, b).value.data by {
      assert forall p :: 0 <= p < data.Length ==> data[..][p] == Product(a, b).value.data[p];
    }
    r := Ok(Matrix(data[..], a.row, b.col));
  }

  /** The concrete case: a 2 × 3 matrix times a 3 × 2 matrix over the same six values. */
  lemma ProductExample()
    ensures Product(New([1, 2, 3, 4, 5, 6], 2, 3), New([1, 2, 3, 4, 5, 6], 3, 2))
         == Ok(New([22, 28, 49, 64], 2, 2))
  {
    var a := New([1, 2, 3, 4, 5, 6], 2, 3);
    var b := New([1, 2, 3, 4, 5, 6], 3, 2);
    var d := Product(a, b).value.data;
    ProductCell(a, b, 0, 0);
    ProductCell(a, b, 0, 1);
    ProductCell(a, b, 1, 0);
    ProductCell(a, b, 1, 1);
    assert d == [22, 28, 49, 64];
  }

  /**
   * Two 2 × 3 matrices do not fit together; the product is an error, also
   * when their data is too short, since the shape check reads no element.
   */
  lemma ProductMismatchExample()
    ensures Product(New([1, 2, 3, 4, 5, 6], 2, 3), New([1, 2, 3, 4, 5, 6], 2, 3)) == Err(InvalidMatrixSize)
    ensures Product(New([], 2, 3), New([], 2, 3)) == Err(InvalidMatrixSize)
  {
  }
}
