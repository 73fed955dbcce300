module MatrixCells {
  datatype Cell = Cell(row: nat, col: nat)
}

/** Views with a stride for rows and one for columns. */
module StridedMatrixView {
  import opened Arithmetic
  import opened MatrixCells
  import opened Wrappers

  datatype View = View(base: nat, rows: nat, cols: nat, rowStride: nat, colStride: nat) {
    predicate Contains(cell: Cell) {
      cell.row < rows && cell.col < cols
    }

    function Index(cell: Cell): nat {
      cell.row * rowStride + cell.col * colStride
    }

    function Address(cell: Cell): nat {
      base + Index(cell)
    }

    function Subview(startRow: nat, startCol: nat, numRows: nat, numCols: nat): Result<View> {
      if startRow + numRows > rows || startCol + numCols > cols then Throw(OutOfRange)
      else Ok(View(base + Index(Cell(startRow, startCol)), numRows, numCols, rowStride, colStride))
    }

    function Transpose(): View {
      View(base, cols, rows, colStride, rowStride)
    }

    function Stride(rowStep: nat, colStep: nat): Result<View> {
      if rowStep == 0 || colStep == 0 then Throw(InvalidArgument)
      else Ok(View(base, CeilDiv(rows, rowStep), CeilDiv(cols, colStep),
                   rowStride * rowStep, colStride * colStep))
    }
  }

  /** The view of a whole matrix stored row by row from address 0. */
  function Whole(rows: nat, cols: nat): View {
    View(0, rows, cols, cols, 1)
  }

  datatype Op = Sub(startRow: nat, startCol: nat, numRows: nat, numCols: nat)
              | Transposed
              | Strided(rowStep: nat, colStep: nat)

  function ApplyOp(v: View, op: Op): Result<View> {
    match op
    case Sub(r, c, nr, nc) => v.Subview(r, c, nr, nc)
    case Transposed => Ok(v.Transpose())
    case Strided(a, b) => v.Stride(a, b)
  }

  function Chain(v: View, ops: seq<Op>): Result<View>
    decreases |ops|
  {
    if ops == [] then Ok(v)
    else match ApplyOp(v, ops[0])
      case Throw(e) => Throw(e)
      case Ok(w) => Chain(w, ops[1..])
  }

  /** The cell of the view before the operation that a cell of the view after it stands for. */
  function Back(op: Op, cell: Cell): Cell {
    match op
    case Sub(r, c, _, _) => Cell(r + cell.row, c + cell.col)
    case Transposed => Cell(cell.col, cell.row)
    case Strided(a, b) => Cell(cell.row * a, cell.col * b)
  }

  function BackAll(ops: seq<Op>, cell: Cell): Cell {
    if ops == [] then cell else Back(ops[0], BackAll(ops[1..], cell))
  }

  /** subview succeeds exactly when the block fits; its cell (i, j) is the cell (r + i, c + j). */
  lemma SubviewDenotes(v: View, r: nat, c: nat, nr: nat, nc: nat, i: nat, j: nat)
    ensures if r + nr <= v.rows && c + nc <= v.cols then v.Subview(r, c, nr, nc).Ok?
            else v.Subview(r, c, nr, nc) == Throw(OutOfRange)
    ensures v.Subview(r, c, nr, nc).Ok? ==>
              var w := v.Subview(r, c, nr, nc).value;
              && w.rows == nr && w.cols == nc
              && (i < nr && j < nc ==> v.Contains(Cell(r + i, c + j)))
              && w.Address(Cell(i, j)) == v.Address(Cell(r + i, c + j))
  {
    MulDistributes(r, i, v.rowStride);
    MulDistributes(c, j, v.colStride);
  }

  /** stride succeeds exactly for positive steps; its rows and columns are those whose multiple
      exists in the view, and its cell (i, j) is the cell (i * a, j * b). */
  lemma StrideDenotes(v: View, a: nat, b: nat, i: nat, j: nat)
    ensures if a > 0 && b > 0 then v.Stride(a, b).Ok? else v.Stride(a, b) == Throw(InvalidArgument)
    ensures v.Stride(a, b).Ok? ==>
              var w := v.Stride(a, b).value;
              && (i < w.rows <==> i * a < v.rows) && (j < w.cols <==> j * b < v.cols)
              && w.Address(Cell(i, j)) == v.Address(Cell(i * a, j * b))
  {
    if a > 0 && b > 0 {
      CeilDivIsExact(v.rows, a, i);
      CeilDivIsExact(v.cols, b, j);
      MulRegroups(i, a, v.rowStride);
      MulRegroups(j, b, v.colStride);
    }
  }

  lemma TransposeDenotes(v: View, i: nat, j: nat)
    ensures v.Transpose().rows == v.cols && v.Transpose().cols == v.rows
    ensures v.Transpose().Address(Cell(i, j)) == v.Address(Cell(j, i))
  {
  }

  lemma OpDenotes(v: View, op: Op, w: View, cell: Cell)
    requires ApplyOp(v, op) == Ok(w)
    ensures w.Contains(cell) ==> v.Contains(Back(op, cell))
    ensures !op.Sub? && v.Contains(Back(op, cell)) ==> w.Contains(cell)
    ensures w.Address(cell) == v.Address(Back(op, cell))
  {
    match op
    case Sub(r, c, nr, nc) => SubviewDenotes(v, r, c, nr, nc, cell.row, cell.col);
    case Transposed =>
    case Strided(a, b) => StrideDenotes(v, a, b, cell.row, cell.col);
  }

  lemma {:induction false} ChainDenotesFrom(v: View, ops: seq<Op>, w: View, cell: Cell)
    requires Chain(v, ops) == Ok(w) && w.Contains(cell)
    ensures v.Contains(BackAll(ops, cell))
    ensures w.Address(cell) == v.Address(BackAll(ops, cell))
    decreases |ops|
  {
    if ops != [] {
      var next := ApplyOp(v, ops[0]).value;
      ChainDenotesFrom(next, ops[1..], w, cell);
      OpDenotes(v, ops[0], next, BackAll(ops[1..], cell));
    }
  }

  /** After any chain of operations, an in-range cell is the matrix cell that the composed
      coordinate maps give, and it lies inside the matrix's buffer. */
  lemma ChainDenotes(rows: nat, cols: nat, ops: seq<Op>, w: View, cell: Cell)
    requires Chain(Whole(rows, cols), ops) == Ok(w) && w.Contains(cell)
    ensures var at := BackAll(ops, cell);
            && at.row < rows && at.col < cols
            && w.Address(cell) == at.row * cols + at.col < rows * cols
  {
    ChainDenotesFrom(Whole(rows, cols), ops, w, cell);
    var at := BackAll(ops, cell);
    InsideBuffer(at.row, at.col, rows, cols);
  }

  lemma {:induction false} BackAllInjective(v: View, ops: seq<Op>, w: View, x: Cell, y: Cell)
    requires Chain(v, ops) == Ok(w) && BackAll(ops, x) == BackAll(ops, y)
    ensures x == y
    decreases |ops|
  {
    if ops != [] {
      var a, b := BackAll(ops[1..], x), BackAll(ops[1..], y);
      if ops[0].Strided? {
        DivModUnique(a.row * ops[0].rowStep, ops[0].rowStep, a.row, 0);
        DivModUnique(b.row * ops[0].rowStep, ops[0].rowStep, b.row, 0);
        DivModUnique(a.col * ops[0].colStep, ops[0].colStep, a.col, 0);
        DivModUnique(b.col * ops[0].colStep, ops[0].colStep, b.col, 0);
      }
      BackAllInjective(ApplyOp(v, ops[0]).value, ops[1..], w, x, y);
    }
  }

  /** Distinct cells of a view never alias. */
  lemma CellsDoNotAlias(rows: nat, cols: nat, ops: seq<Op>, w: View, x: Cell, y: Cell)
    requires Chain(Whole(rows, cols), ops) == Ok(w) && w.Contains(x) && w.Contains(y)
    ensures w.Address(x) == w.Address(y) <==> x == y
  {
    if w.Address(x) == w.Address(y) {
      ChainDenotes(rows, cols, ops, w, x);
      ChainDenotes(rows, cols, ops, w, y);
      var a, b := BackAll(ops, x), BackAll(ops, y);
      RowMajorInjective(a.row, a.col, b.row, b.col, cols, cols);
      BackAllInjective(Whole(rows, cols), ops, w, x, y);
    }
  }

  // ----- view algebra -----

  /** Striding twice is striding once by the products, and throws in the same cases. */
  lemma StrideOfStride(v: View, a: nat, b: nat, c: nat, d: nat)
    ensures Chain(v, [Strided(a, b), Strided(c, d)]) == Chain(v, [Strided(a * c, b * d)])
  {
    assert [Strided(a, b), Strided(c, d)][1..] == [Strided(c, d)] && [Strided(c, d)][1..] == [];
    assert [Strided(a * c, b * d)][1..] == [];
    assert a * c == 0 <==> a == 0 || c == 0;
    assert b * d == 0 <==> b == 0 || d == 0;
    if a != 0 && b != 0 && c != 0 && d != 0 {
      CeilDivOfCeilDiv(v.rows, a, c);
      CeilDivOfCeilDiv(v.cols, b, d);
      MulRegroups(v.rowStride, a, c);
      MulRegroups(v.colStride, b, d);
    }
  }

  lemma StrideThenTranspose(v: View, a: nat, b: nat)
    ensures Chain(v, [Strided(a, b), Transposed]) == Chain(v, [Transposed, Strided(b, a)])
    ensures Chain(v, [Transposed, Transposed]) == Ok(v)
  {
    assert [Strided(a, b), Transposed][1..] == [Transposed] && [Transposed][1..] == [];
    assert [Transposed, Strided(b, a)][1..] == [Strided(b, a)] && [Strided(b, a)][1..] == [];
    assert [Transposed, Transposed][1..] == [Transposed];
  }

  /** A subview of a subview that exists is one subview with summed starts. */
  lemma SubviewOfSubview(v: View, r: nat, c: nat, nr: nat, nc: nat, r': nat, c': nat, nr': nat, nc': nat)
    ensures Chain(v, [Sub(r, c, nr, nc), Sub(r', c', nr', nc')]).Ok? ==>
              Chain(v, [Sub(r, c, nr, nc), Sub(r', c', nr', nc')]) == Chain(v, [Sub(r + r', c + c', nr', nc')])
  {
    var first, second, both := Sub(r, c, nr, nc), Sub(r', c', nr', nc'), Sub(r + r', c + c', nr', nc');
    assert [first, second][1..] == [second] && [second][1..] == [] && [both][1..] == [];
    assert (r + r') * v.rowStride == r * v.rowStride + r' * v.rowStride;
    assert (c + c') * v.colStride == c * v.colStride + c' * v.colStride;
  }
}

/** Views with one stride, which can also be cropped and reshaped in place. */
module MatrixViewSpec {
  import opened Arithmetic
  import opened MatrixCells
  import opened Wrappers

  datatype View = View(base: nat, rows: nat, cols: nat, stride: nat) {
    predicate Contains(row: nat, col: nat) {
      row < rows && col < cols
    }

    function Address(row: nat, col: nat): nat {
      base + row * stride + col
    }

    predicate IsContiguous() {
      stride == cols
    }

    function Subview(startRow: nat, startCol: nat, numRows: nat, numCols: nat): Result<View> {
      if startRow + numRows > rows || startCol + numCols > cols then Throw(OutOfRange)
      else Ok(View(Address(startRow, startCol), numRows, numCols, stride))
    }

    function Crop(numRows: nat, numCols: nat): Result<View> {
      if numRows > rows || numCols > cols then Throw(LengthError)
      else Ok(this.(rows := numRows, cols := numCols))
    }

    function Reshape(numRows: nat, numCols: nat): Result<View> {
      if !IsContiguous() then Throw(LogicError)
      else if numRows * numCols != rows * cols then Throw(LengthError)
      else Ok(this.(rows := numRows, cols := numCols, stride := numCols))
    }
  }

  function Whole(rows: nat, cols: nat): View {
    View(0, rows, cols, cols)
  }

  datatype Op = Sub(startRow: nat, startCol: nat, numRows: nat, numCols: nat)
              | Cropped(numRows: nat, numCols: nat)
              | Reshaped(numRows: nat, numCols: nat)

  function ApplyOp(v: View, op: Op): Result<View> {
    match op
    case Sub(r, c, nr, nc) => v.Subview(r, c, nr, nc)
    case Cropped(nr, nc) => v.Crop(nr, nc)
    case Reshaped(nr, nc) => v.Reshape(nr, nc)
  }

  function Chain(v: View, ops: seq<Op>): Result<View>
    decreases |ops|
  {
    if ops == [] then Ok(v)
    else match ApplyOp(v, ops[0])
      case Throw(e) => Throw(e)
      case Ok(w) => Chain(w, ops[1..])
  }

  /** The rows do not overlap, and a view that has cells has them inside a buffer of `size`. */
  predicate Fits(v: View, size: nat) {
    && v.stride >= v.cols
    && (v.rows > 0 && v.cols > 0 ==> v.base + (v.rows - 1) * v.stride + v.cols <= size)
  }

  lemma OpKeepsFits(v: View, op: Op, size: nat)
    requires Fits(v, size) && ApplyOp(v, op).Ok?
    ensures Fits(ApplyOp(v, op).value, size)
  {
    var w := ApplyOp(v, op).value;
    if w.rows > 0 && w.cols > 0 {
      match op
      case Sub(r, c, nr, nc) =>
        MulMonotone(r + (nr - 1), v.rows - 1, v.stride);
        MulDistributes(r, nr - 1, v.stride);
      case Cropped(nr, _) =>
        MulMonotone(nr - 1, v.rows - 1, v.stride);
      case Reshaped(nr, nc) => ReshapeKeepsFits(v, nr, nc, size);
    }
  }

  lemma ReshapeKeepsFits(v: View, nr: nat, nc: nat, size: nat)
    requires Fits(v, size) && v.Reshape(nr, nc).Ok? && nr > 0 && nc > 0
    ensures Fits(v.Reshape(nr, nc).value, size)
  {
    MulDistributes(nr - 1, 1, nc);
    assert nr * nc > 0;
    assert v.rows > 0 && v.cols > 0;
    MulDistributes(v.rows - 1, 1, v.cols);
  }

  /** Every sequence of subview, crop and reshape keeps the view inside the matrix. */
  lemma {:induction false} ChainFits(v: View, ops: seq<Op>, size: nat)
    requires Fits(v, size) && Chain(v, ops).Ok?
    ensures Fits(Chain(v, ops).value, size)
    decreases |ops|
  {
    if ops != [] {
      OpKeepsFits(v, ops[0], size);
      ChainFits(ApplyOp(v, ops[0]).value, ops[1..], size);
    }
  }

  /** The cells of any view derived from a whole matrix are distinct places of its buffer. */
  lemma CellsOfChain(rows: nat, cols: nat, ops: seq<Op>, r: nat, c: nat, r': nat, c': nat)
    requires Chain(Whole(rows, cols), ops).Ok?
    ensures var w := Chain(Whole(rows, cols), ops).value;
            && w.stride >= w.cols
            && (w.Contains(r, c) ==> w.Address(r, c) < rows * cols)
            && (w.Contains(r, c) && w.Contains(r', c') && w.Address(r, c) == w.Address(r', c') ==> r == r' && c == c')
  {
    var w := Chain(Whole(rows, cols), ops).value;
    assert rows > 0 ==> rows * cols == (rows - 1) * cols + cols;
    ChainFits(Whole(rows, cols), ops, rows * cols);
    if w.Contains(r, c) {
      MulMonotone(r, w.rows - 1, w.stride);
      if w.Contains(r', c') && w.Address(r, c) == w.Address(r', c') {
        RowMajorInjective(r, c, r', c', w.cols, w.stride);
      }
    }
  }

  // ----- which cells a view shows -----

  /** subview succeeds exactly when the block fits; its cell (i, j) is the cell (r + i, c + j). */
  lemma SubviewDenotes(v: View, r: nat, c: nat, nr: nat, nc: nat, i: nat, j: nat)
    ensures if r + nr <= v.rows && c + nc <= v.cols then v.Subview(r, c, nr, nc).Ok?
            else v.Subview(r, c, nr, nc) == Throw(OutOfRange)
    ensures v.Subview(r, c, nr, nc).Ok? ==>
              var w := v.Subview(r, c, nr, nc).value;
              && w.rows == nr && w.cols == nc && w.stride == v.stride
              && (w.Contains(i, j) ==> v.Contains(r + i, c + j))
              && w.Address(i, j) == v.Address(r + i, c + j)
  {
    MulDistributes(r, i, v.stride);
  }

  /** crop succeeds exactly when it does not grow the view; the cells that remain keep their
      places. */
  lemma CropDenotes(v: View, nr: nat, nc: nat, i: nat, j: nat)
    ensures if nr <= v.rows && nc <= v.cols then v.Crop(nr, nc).Ok? else v.Crop(nr, nc) == Throw(LengthError)
    ensures v.Crop(nr, nc).Ok? ==>
              var w := v.Crop(nr, nc).value;
              && w.rows == nr && w.cols == nc && w.stride == v.stride
              && (w.Contains(i, j) ==> v.Contains(i, j))
              && w.Address(i, j) == v.Address(i, j)
  {
  }

  /** reshape succeeds exactly on a contiguous view with as many cells; its cell (i, j) is the
      cell with the same number when cells are counted row by row. */
  lemma ReshapeDenotes(v: View, nr: nat, nc: nat, i: nat, j: nat)
    ensures if v.stride != v.cols then v.Reshape(nr, nc) == Throw(LogicError)
            else if nr * nc != v.rows * v.cols then v.Reshape(nr, nc) == Throw(LengthError)
            else v.Reshape(nr, nc).Ok?
    ensures v.Reshape(nr, nc).Ok? ==>
              var w, k := v.Reshape(nr, nc).value, i * nc + j;
              && w.rows == nr && w.cols == nc && w.stride == nc
              && (w.Contains(i, j) ==>
                    && v.cols > 0 && v.Contains(k / v.cols, k % v.cols)
                    && w.Address(i, j) == v.Address(k / v.cols, k % v.cols))
  {
    if v.Reshape(nr, nc).Ok? && i < nr && j < nc {
      InsideBuffer(i, j, nr, nc);
      RowOf(i * nc + j, v.rows, v.cols);
    }
  }

  /** The cell of the view before the operation that a cell of the view after it stands for. */
  function Back(v: View, op: Op, cell: Cell): Cell {
    match op
    case Sub(r, c, _, _) => Cell(r + cell.row, c + cell.col)
    case Cropped(_, _) => cell
    case Reshaped(_, nc) =>
      var k := cell.row * nc + cell.col;
      if v.cols == 0 then cell else Cell(k / v.cols, k % v.cols)
  }

  function BackAll(v: View, ops: seq<Op>, cell: Cell): Cell
    requires Chain(v, ops).Ok?
    decreases |ops|
  {
    if ops == [] then cell else Back(v, ops[0], BackAll(ApplyOp(v, ops[0]).value, ops[1..], cell))
  }

  lemma OpDenotes(v: View, op: Op, w: View, cell: Cell)
    requires ApplyOp(v, op) == Ok(w) && w.Contains(cell.row, cell.col)
    ensures var at := Back(v, op, cell);
            v.Contains(at.row, at.col) && w.Address(cell.row, cell.col) == v.Address(at.row, at.col)
  {
    match op
    case Sub(r, c, nr, nc) => SubviewDenotes(v, r, c, nr, nc, cell.row, cell.col);
    case Cropped(nr, nc) => CropDenotes(v, nr, nc, cell.row, cell.col);
    case Reshaped(nr, nc) => ReshapeDenotes(v, nr, nc, cell.row, cell.col);
  }

  lemma {:induction false} ChainDenotesFrom(v: View, ops: seq<Op>, w: View, cell: Cell)
    requires Chain(v, ops) == Ok(w) && w.Contains(cell.row, cell.col)
    ensures var at := BackAll(v, ops, cell);
            v.Contains(at.row, at.col) && w.Address(cell.row, cell.col) == v.Address(at.row, at.col)
    decreases |ops|
  {
    if ops != [] {
      var next := ApplyOp(v, ops[0]).value;
      ChainDenotesFrom(next, ops[1..], w, cell);
      OpDenotes(v, ops[0], next, BackAll(next, ops[1..], cell));
    }
  }

  /** After any chain of subviews, crops and reshapes, an in-range cell is the matrix cell that
      the composed coordinate maps give, inside the matrix's buffer. */
  lemma ChainDenotes(rows: nat, cols: nat, ops: seq<Op>, w: View, cell: Cell)
    requires Chain(Whole(rows, cols), ops) == Ok(w) && w.Contains(cell.row, cell.col)
    ensures var at := BackAll(Whole(rows, cols), ops, cell);
            && at.row < rows && at.col < cols
            && w.Address(cell.row, cell.col) == at.row * cols + at.col < rows * cols
  {
    ChainDenotesFrom(Whole(rows, cols), ops, w, cell);
    var at := BackAll(Whole(rows, cols), ops, cell);
    InsideBuffer(at.row, at.col, rows, cols);
  }

  /** Reshaping keeps every cell, counted row by row, at its address; and it can be undone. */
  lemma ReshapeKeepsCells(v: View, numRows: nat, numCols: nat, k: nat)
    requires v.Reshape(numRows, numCols).Ok?
    ensures var w := v.Reshape(numRows, numCols).value;
            && w.Reshape(v.rows, v.cols) == Ok(v)
            && (k < v.rows * v.cols ==>
                  && v.cols > 0 && numCols > 0
                  && v.Contains(k / v.cols, k % v.cols) && w.Contains(k / numCols, k % numCols)
                  && v.Address(k / v.cols, k % v.cols) == w.Address(k / numCols, k % numCols) == v.base + k)
  {
    if k < v.rows * v.cols {
      RowOf(k, v.rows, v.cols);
      RowOf(k, numRows, numCols);
    }
  }

  lemma RowOf(k: nat, rows: nat, cols: nat)
    requires k < rows * cols
    ensures cols > 0 && k / cols < rows && k == (k / cols) * cols + k % cols
  {
    assert cols > 0;
    if k / cols >= rows {
      MulMonotone(rows, k / cols, cols);
    }
  }

  lemma SubviewOfSubview(v: View, r: nat, c: nat, nr: nat, nc: nat, r': nat, c': nat, nr': nat, nc': nat)
    requires v.Subview(r, c, nr, nc).Ok? && v.Subview(r, c, nr, nc).value.Subview(r', c', nr', nc').Ok?
    ensures v.Subview(r, c, nr, nc).value.Subview(r', c', nr', nc') == v.Subview(r + r', c + c', nr', nc')
  {
    assert (r + r') * v.stride == r * v.stride + r' * v.stride;
  }
}

/** The view object, whose crop and reshape change it in place. */
module MatrixView {
  import opened Wrappers
  import Spec = MatrixViewSpec

  class MatrixView {
    const data: nat
    var rows: nat
    var cols: nat
    var stride: nat

    ghost function View(): Spec.View
      reads this
    {
      Spec.View(data, rows, cols, stride)
    }

    constructor (data: nat, rows: nat, cols: nat, stride: nat)
      requires stride >= cols
      ensures View() == Spec.View(data, rows, cols, stride)
    {
      this.data, this.rows, this.cols, this.stride := data, rows, cols, stride;
    }

    /** A refused crop throws and changes nothing. */
    method Crop(numRows: nat, numCols: nat) returns (thrown: Option<Exception>)
      modifies this
      ensures thrown.None? ==> old(View()).Crop(numRows, numCols) == Ok(View())
      ensures thrown.Some? ==> old(View()).Crop(numRows, numCols) == Throw(thrown.value) && View() == old(View())
      ensures thrown == if numRows <= old(rows) && numCols <= old(cols) then None else Some(LengthError)
      ensures thrown == None ==> rows == numRows && cols == numCols && stride == old(stride)
    {
      if numRows > rows || numCols > cols {
        return Some(LengthError);
      }
      rows := numRows;
      cols := numCols;
      thrown := None;
    }

    method Reshape(numRows: nat, numCols: nat) returns (thrown: Option<Exception>)
      modifies this
      ensures thrown.None? ==> old(View()).Reshape(numRows, numCols) == Ok(View())
      ensures thrown.Some? ==> old(View()).Reshape(numRows, numCols) == Throw(thrown.value) && View() == old(View())
      ensures thrown == if old(stride != cols) then Some(LogicError)
                        else if numRows * numCols != old(rows * cols) then Some(LengthError) else None
      ensures thrown == None ==> rows == numRows && cols == numCols && stride == numCols
    {
      if stride != cols {
        return Some(LogicError);
      }
      if numRows * numCols != rows * cols {
        return Some(LengthError);
      }
      rows := numRows;
      cols := numCols;
      stride := numCols;
      thrown := None;
    }
  }
}
