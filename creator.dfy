/** `Creator` (src/generator/creator.ts): builds a puzzle from a grid of
    numbers, from clue lists or from random draws, and hands back only
    puzzles the solver finishes. */
module Creators {
  import opened Wrappers
  import opened PuzzleCells
  import opened Puzzles
  import opened Runs
  import Utility
  import Solving

  /** A value the source tests with `instanceof Array`. */
  datatype JsArray<T> = Array(items: seq<T>) | NotAnArray

  /** The errors the creator throws. */
  datatype CreateError =
    | GridNotArray                                           // the grid is not an array
    | GridNotMultiDimensional                                // one of its rows is not an array
    | InvalidRowLength(row: nat, length: nat, expected: nat)
    | HintsMissing                                           // no object, or no `row` / `column`
    | HintsNotArrays
    | BadDimensions(error: PuzzleError)                      // thrown by `new Puzzle`
    | CellsMissing                                           // see `CreateFromGrid`

  // ---- the shape check of createFromGrid ----

  datatype Shape = Shape(width: nat, height: nat)

  /** The length of a row; 0 for a value that is not an array. */
  function Width(row: JsArray<int>): nat
  {
    if row.Array? then |row.items| else 0
  }

  /** The width and height the row-by-row check computes, or the error it
      throws: the width is the first non-zero row length, and every row after
      that must have exactly that length. */
  function ShapeOf(rows: seq<JsArray<int>>): Result<Shape, CreateError>
  {
    if rows == [] then Success(Shape(0, 0))
    else
      match ShapeOf(rows[..|rows| - 1])
      case Failure(e) => Failure(e)
      case Success(shape) =>
        var row := rows[|rows| - 1];
        if row.NotAnArray? then Failure(GridNotMultiDimensional)
        else if shape.width == 0 then Success(Shape(|row.items|, shape.height + 1))
        else if |row.items| != shape.width then Failure(InvalidRowLength(|rows| - 1, |row.items|, shape.width))
        else Success(Shape(shape.width, shape.height + 1))
  }

  /** A failure in a prefix is the failure of the whole grid. */
  lemma {:induction false} ShapeFailureSticks(rows: seq<JsArray<int>>, n: nat)
    requires n <= |rows| && ShapeOf(rows[..n]).Failure?
    ensures ShapeOf(rows) == ShapeOf(rows[..n])
    decreases |rows| - n
  {
    if n < |rows| {
      assert rows[..n + 1][..n] == rows[..n];
      ShapeFailureSticks(rows, n + 1);
    } else {
      assert rows[..n] == rows;
    }
  }

  /** What an accepted shape means: the height counts every row, every row is
      an array, and each row has the width as its length, except for empty
      rows that come before any non-empty one. */
  lemma {:induction false} ShapeOfSuccess(rows: seq<JsArray<int>>)
    requires ShapeOf(rows).Success?
    ensures ShapeOf(rows).value.height == |rows|
    ensures forall i :: 0 <= i < |rows| ==> rows[i].Array?
    ensures forall i :: 0 <= i < |rows| ==>
              Width(rows[i]) == ShapeOf(rows).value.width ||
              forall j :: 0 <= j <= i ==> Width(rows[j]) == 0
  {
    if rows != [] {
      var p := rows[..|rows| - 1];
      ShapeOfSuccess(p);
      var w := ShapeOf(p).value.width;
      var shape := ShapeOf(rows).value;
      assert forall i :: 0 <= i < |p| ==> rows[i] == p[i];
      if w == 0 {
        assert forall i :: 0 <= i < |p| ==> Width(p[i]) == 0;
      } else {
        assert shape.width == w;
      }
    }
  }

  /** The converse: rows that are arrays of one non-zero length pass the
      check, with that width and one unit of height per row. */
  lemma {:induction false} RectangularShape(rows: seq<JsArray<int>>, w: nat)
    requires rows != [] && w >= 1
    requires forall i :: 0 <= i < |rows| ==> rows[i].Array? && |rows[i].items| == w
    ensures ShapeOf(rows) == Success(Shape(w, |rows|))
  {
    var p := rows[..|rows| - 1];
    if p != [] {
      RectangularShape(p, w);
    }
  }

  /** The forEach over the rows that computes `width` and `height`. */
  method MeasureGrid(rows: seq<JsArray<int>>) returns (r: Result<Shape, CreateError>)
    ensures r == ShapeOf(rows)
  {
    var width: nat := 0;
    var height: nat := 0;
    var rowKey := 0;
    while rowKey < |rows|
      invariant rowKey <= |rows|
      invariant ShapeOf(rows[..rowKey]) == Success(Shape(width, height))
    {
      assert rows[..rowKey + 1][..rowKey] == rows[..rowKey];
      var row := rows[rowKey];
      if row.NotAnArray? {
        ShapeFailureSticks(rows, rowKey + 1);
        return Failure(GridNotMultiDimensional);
      }
      if width == 0 {
        width := |row.items|;
      } else if |row.items| != width {
        ShapeFailureSticks(rows, rowKey + 1);
        return Failure(InvalidRowLength(rowKey, |row.items|, width));
      }
      height := height + 1;
      rowKey := rowKey + 1;
    }
    assert rows[..rowKey] == rows;
    return Success(Shape(width, height));
  }

  /** The grid as rows of numbers. */
  function RowsOf(rows: seq<JsArray<int>>): (g: seq<seq<int>>)
    ensures |g| == |rows|
  {
    seq(|rows|, i requires 0 <= i < |rows| => if rows[i].Array? then rows[i].items else [])
  }

  predicate Rectangular(grid: seq<seq<int>>, width: nat)
  {
    forall r :: 0 <= r < |grid| ==> |grid[r]| == width
  }

  // ---- the cells and clues _populatePuzzleFromGrid produces ----

  /** The cell made for entry (r, c) of a `width`-wide grid, with `solution`
      when one is given. */
  function GridCell(r: nat, c: nat, width: nat, solution: Option<int>): Cell
  {
    NewCell(Some(CellParams(Some(r * width + c), Some(c), Some(r),
                            if solution.Some? then Some(solution) else None, None, None)))
  }

  /** The cells of row `r`, carrying the row's values as solutions when
      `withSolution` holds. */
  function RowCells(row: seq<int>, r: nat, width: nat, withSolution: bool): (cells: seq<Cell>)
    ensures |cells| == |row|
  {
    seq(|row|, c requires 0 <= c < |row| => GridCell(r, c, width, if withSolution then Some(row[c]) else None))
  }

  /** The cells of the first `n` rows, row after row. */
  function GridCells(grid: seq<seq<int>>, width: nat, n: nat, withSolution: bool): seq<Cell>
    requires n <= |grid|
  {
    if n == 0 then []
    else GridCells(grid, width, n - 1, withSolution) + RowCells(grid[n - 1], n - 1, width, withSolution)
  }

  /** On a rectangular grid the cells are laid out row-major: cell `i` knows
      its own position, row and column, holds the entry at that row and column
      as its solution (or none), and starts undecided. */
  lemma {:induction false} GridCellsLaid(grid: seq<seq<int>>, width: nat, n: nat, withSolution: bool)
    requires n <= |grid| && Rectangular(grid, width)
    ensures |GridCells(grid, width, n, withSolution)| == n * width
    ensures forall i :: 0 <= i < n * width ==>
              var c := GridCells(grid, width, n, withSolution)[i];
              CellAt(c, i, width, n) &&
              c.solution == (if withSolution then Some(grid[c.row][c.column]) else None) &&
              c.userSolution.None? && c.aiSolution == Unknown
  {
    if n > 0 {
      GridCellsLaid(grid, width, n - 1, withSolution);
      var prev := GridCells(grid, width, n - 1, withSolution);
      var cells := GridCells(grid, width, n, withSolution);
      var row := RowCells(grid[n - 1], n - 1, width, withSolution);
      assert cells == prev + row;
      forall i | 0 <= i < n * width
        ensures CellAt(cells[i], i, width, n)
        ensures cells[i].solution == (if withSolution then Some(grid[cells[i].row][cells[i].column]) else None)
        ensures cells[i].userSolution.None? && cells[i].aiSolution == Unknown
      {
        if i < (n - 1) * width {
          assert cells[i] == prev[i];
        } else {
          var c := i - (n - 1) * width;
          assert n * width == (n - 1) * width + width;
          assert cells[i] == row[c];
          var sol := if withSolution then Some(grid[n - 1][c]) else None;
          assert row[c] == GridCell(n - 1, c, width, sol);
          assert row[c].index == (n - 1) * width + c;
        }
      }
    }
  }

  /** The numbers a column scan reads at each row; an entry past the end of
      a short row is `undefined`, which equals neither 0 nor 1, like -1. */
  function ColumnOf(grid: seq<seq<int>>, c: nat): (col: seq<int>)
    ensures |col| == |grid|
  {
    seq(|grid|, r requires 0 <= r < |grid| => if c < |grid[r]| then grid[r][c] else -1)
  }

  function RowHintsOf(grid: seq<seq<int>>): (h: seq<seq<nat>>)
    ensures |h| == |grid|
  {
    seq(|grid|, r requires 0 <= r < |grid| => CleanHints(grid[r]))
  }

  function ColumnHintsOf(grid: seq<seq<int>>, width: nat): (h: seq<seq<nat>>)
    ensures |h| == width
  {
    seq(width, c requires 0 <= c < width => CleanHints(ColumnOf(grid, c)))
  }

  predicate IsBitGrid(grid: seq<seq<int>>)
  {
    forall r :: 0 <= r < |grid| ==> IsBitLine(grid[r])
  }

  /** On a rectangular 0/1 grid the clues are the run lengths of the filled
      cells of each row and of each column: positive, and summing to the
      number of filled cells of the line. */
  lemma GridHints(grid: seq<seq<int>>, width: nat)
    requires Rectangular(grid, width) && IsBitGrid(grid)
    ensures forall r :: 0 <= r < |grid| ==>
              RowHintsOf(grid)[r] == RunLengths(Bits(grid[r])) &&
              Sum(RowHintsOf(grid)[r]) == CountTrue(Bits(grid[r]))
    ensures forall c :: 0 <= c < width ==>
              (forall r :: 0 <= r < |grid| ==> ColumnOf(grid, c)[r] == grid[r][c]) &&
              ColumnHintsOf(grid, width)[c] == RunLengths(Bits(ColumnOf(grid, c))) &&
              Sum(ColumnHintsOf(grid, width)[c]) == CountTrue(Bits(ColumnOf(grid, c)))
  {
    forall r | 0 <= r < |grid|
      ensures RowHintsOf(grid)[r] == RunLengths(Bits(grid[r]))
      ensures Sum(RowHintsOf(grid)[r]) == CountTrue(Bits(grid[r]))
    {
      CleanHintsSpec(grid[r]);
    }
    forall c | 0 <= c < width
      ensures ColumnHintsOf(grid, width)[c] == RunLengths(Bits(ColumnOf(grid, c)))
      ensures Sum(ColumnHintsOf(grid, width)[c]) == CountTrue(Bits(ColumnOf(grid, c)))
    {
      var col := ColumnOf(grid, c);
      assert IsBitLine(col) by {
        forall r | 0 <= r < |col| ensures col[r] == 0 || col[r] == 1 {
          assert col[r] == grid[r][c];
        }
      }
      CleanHintsSpec(col);
    }
  }

  /** Row `k`, column `c` of a `width`-wide grid sits at `k * width + c`. */
  lemma RowOfPosition(k: nat, c: nat, width: nat)
    requires c < width
    ensures (k * width + c) / width == k && (k * width + c) % width == c
  {
    var a := k * width + c;
    PositionUnique(a / width, a % width, k, c, width);
  }

  /** A column scan stops after the last row. */
  lemma ScanEnds(k: nat, c: nat, width: nat, height: nat)
    requires c < width && k <= height && k * width + c >= width * height
    ensures k == height
  {
    MulMonotone(k + 1, height, width);
  }

  // ---- _populatePuzzleFromGrid ----

  /** `_populatePuzzleFromGrid`: resets the puzzle, stores the grid, then
      creates one cell per entry (row by row, the entry as its solution) and
      the clue lists of every row and every column. */
  method PopulatePuzzleFromGrid(puzzle: Puzzle, grid: seq<seq<int>>) returns (r: Puzzle)
    requires puzzle.totalCells == puzzle.width * puzzle.height && |grid| == puzzle.height
    modifies puzzle
    ensures r == puzzle
    ensures puzzle.width == old(puzzle.width) && puzzle.height == old(puzzle.height)
    ensures puzzle.totalCells == old(puzzle.totalCells)
    ensures puzzle.creator == null && puzzle.grid == grid
    ensures puzzle.cells == GridCells(grid, puzzle.width, |grid|, true)
    ensures puzzle.rowHints == RowHintsOf(grid)
    ensures puzzle.columnHints == ColumnHintsOf(grid, puzzle.width)
  {
    puzzle.Reset();
    puzzle.grid := grid;
    PopulateRows(puzzle);
    PopulateColumns(puzzle);
    r := puzzle;
  }

  /** The row pass: the cells, row by row, and each row's clues. */
  method PopulateRows(puzzle: Puzzle)
    requires puzzle.cells == [] && puzzle.rowHints == []
    modifies puzzle`cells, puzzle`rowHints
    ensures puzzle.cells == GridCells(puzzle.grid, puzzle.width, |puzzle.grid|, true)
    ensures puzzle.rowHints == RowHintsOf(puzzle.grid)
  {
    var rowKey := 0;
    while rowKey < |puzzle.grid|
      invariant rowKey <= |puzzle.grid|
      invariant puzzle.cells == GridCells(puzzle.grid, puzzle.width, rowKey, true)
      invariant puzzle.rowHints == RowHintsOf(puzzle.grid)[..rowKey]
    {
      var rowHints := ScanRow(puzzle, rowKey);
      var hints := CleanUpHints(rowHints);
      puzzle.rowHints := puzzle.rowHints + [hints];
      rowKey := rowKey + 1;
    }
  }

  /** One row of the row pass: pushes the row's cells and returns its raw
      clue list. */
  method ScanRow(puzzle: Puzzle, rowKey: nat) returns (rowHints: seq<int>)
    requires rowKey < |puzzle.grid|
    modifies puzzle`cells
    ensures puzzle.cells == old(puzzle.cells) + RowCells(puzzle.grid[rowKey], rowKey, puzzle.width, true)
    ensures rowHints == RawHints(puzzle.grid[rowKey])
  {
    var currentRow := puzzle.grid[rowKey];
    ghost var cells0 := puzzle.cells;
    ghost var expected := RowCells(currentRow, rowKey, puzzle.width, true);
    rowHints := [];
    var columnKey := 0;
    while columnKey < |currentRow|
      invariant columnKey <= |currentRow|
      invariant puzzle.cells == cells0 + expected[..columnKey]
      invariant rowHints == RawHints(currentRow[..columnKey])
    {
      var column := currentRow[columnKey];
      var currentVal := column;
      var lastVal := if columnKey > 0 then puzzle.grid[rowKey][columnKey - 1] else 0;
      puzzle.cells := puzzle.cells + [NewCell(Some(CellParams(Some(rowKey * puzzle.width + columnKey),
                                                              Some(columnKey), Some(rowKey),
                                                              Some(Some(column)), None, None)))];
      assert expected[..columnKey + 1] == expected[..columnKey] + [expected[columnKey]];
      RawHintsStep(currentRow, columnKey);
      if currentVal == 1 && lastVal == 0 {
        rowHints := rowHints + [1];
      } else if currentVal == 0 && lastVal == 1 {
        rowHints := rowHints + [0];
      } else if currentVal == 1 && lastVal == 1 && rowHints != [] {
        rowHints := rowHints[..|rowHints| - 1] + [rowHints[|rowHints| - 1] + 1];
      }
      columnKey := columnKey + 1;
    }
    assert expected[..columnKey] == expected;
    assert currentRow[..columnKey] == currentRow;
  }

  /** The clean-up loop: the raw clue list without its zero entries (the
      source pushes them one by one onto the puzzle's fresh clue list). */
  method CleanUpHints(raw: seq<int>) returns (hints: seq<nat>)
    ensures hints == Positives(raw)
  {
    hints := [];
    var hintKey := 0;
    while hintKey < |raw|
      invariant hintKey <= |raw|
      invariant hints == Positives(raw[..hintKey])
    {
      var hint := raw[hintKey];
      assert raw[..hintKey + 1] == raw[..hintKey] + [hint];
      PositivesAppend(raw[..hintKey], hint);
      if hint > 0 {
        hints := hints + [hint];
      }
      hintKey := hintKey + 1;
    }
    assert raw[..hintKey] == raw;
  }

  /** The column pass: each column's clues. */
  method PopulateColumns(puzzle: Puzzle)
    requires puzzle.totalCells == puzzle.width * puzzle.height && |puzzle.grid| == puzzle.height
    requires puzzle.columnHints == []
    modifies puzzle`columnHints
    ensures puzzle.columnHints == ColumnHintsOf(puzzle.grid, puzzle.width)
  {
    var columnKey := 0;
    while columnKey < puzzle.width
      invariant columnKey <= puzzle.width
      invariant puzzle.columnHints == ColumnHintsOf(puzzle.grid, puzzle.width)[..columnKey]
    {
      var columnHints := ScanColumn(puzzle, columnKey);
      var hints := CleanUpHints(columnHints);
      puzzle.columnHints := puzzle.columnHints + [hints];
      columnKey := columnKey + 1;
    }
  }

  /** One column of the column pass: walks the cell positions of the column
      (`cell += width`), reading the grid at row `cell / width`, and returns
      the raw clue list. */
  method ScanColumn(puzzle: Puzzle, columnKey: nat) returns (columnHints: seq<int>)
    requires puzzle.totalCells == puzzle.width * puzzle.height && |puzzle.grid| == puzzle.height
    requires columnKey < puzzle.width
    ensures columnHints == RawHints(ColumnOf(puzzle.grid, columnKey))
  {
    var width := puzzle.width;
    ghost var column := ColumnOf(puzzle.grid, columnKey);
    columnHints := [];
    var cell := columnKey;
    ghost var k: nat := 0;
    while cell < puzzle.totalCells
      invariant k <= puzzle.height && cell == k * width + columnKey
      invariant columnHints == RawHints(column[..k])
      decreases puzzle.totalCells - cell
    {
      RowBelowHeight(k, columnKey, width, puzzle.height);
      RowOfPosition(k, columnKey, width);
      var rowIndex := cell / width;
      var row := puzzle.grid[rowIndex];
      var currentVal := if columnKey < |row| then row[columnKey] else -1;
      var lastVal := 0;
      if rowIndex > 0 {
        var above := puzzle.grid[rowIndex - 1];
        lastVal := if columnKey < |above| then above[columnKey] else -1;
      }
      RawHintsStep(column, k);
      if currentVal == 1 && lastVal == 0 {
        columnHints := columnHints + [1];
      } else if currentVal == 0 && lastVal == 1 {
        columnHints := columnHints + [0];
      } else if currentVal == 1 && lastVal == 1 && columnHints != [] {
        columnHints := columnHints[..|columnHints| - 1] + [columnHints[|columnHints| - 1] + 1];
      }
      cell := cell + width;
      k := k + 1;
    }
    ScanEnds(k, columnKey, width, puzzle.height);
    assert column[..k] == column;
  }


  // ---- the random grid of createRandom ----

  /** The rows of a grid, end to end. */
  function Flatten(grid: seq<seq<int>>): seq<int>
  {
    if grid == [] then [] else Flatten(grid[..|grid| - 1]) + grid[|grid| - 1]
  }

  lemma {:induction false} FlattenLength(grid: seq<seq<int>>, width: nat)
    requires Rectangular(grid, width)
    ensures |Flatten(grid)| == |grid| * width
  {
    if grid != [] {
      var n := |grid| - 1;
      assert Rectangular(grid[..n], width);
      FlattenLength(grid[..n], width);
      assert |grid| * width == n * width + width;
    }
  }

  /** Entry (r, c) of a rectangular grid lands at `r * width + c` of its
      flattening. */
  lemma {:induction false} FlattenAt(grid: seq<seq<int>>, width: nat, r: nat, c: nat)
    requires Rectangular(grid, width) && r < |grid| && c < width
    ensures r * width + c < |Flatten(grid)| && Flatten(grid)[r * width + c] == grid[r][c]
  {
    var n := |grid| - 1;
    var p := grid[..n];
    assert Rectangular(p, width);
    FlattenLength(p, width);
    FlattenLength(grid, width);
    var m := r * width + c;
    if r < n {
      FlattenAt(p, width, r, c);
      assert p[r] == grid[r];
    } else {
      assert m == n * width + c;
    }
  }

  /** The value a cell gets from its `Math.random()` draw: 1 below the chance
      of filling, 0 otherwise. */
  function Drawn(draws: seq<real>, chance: real): (values: seq<int>)
    ensures |values| == |draws|
  {
    seq(|draws|, i requires 0 <= i < |draws| => if draws[i] < chance then 1 else 0)
  }

  /** The number of filled cells counts the draws below the chance: none
      exactly when no draw is below it, all exactly when every draw is. */
  lemma {:induction false} DrawnSum(draws: seq<real>, chance: real)
    ensures 0 <= Sum(Drawn(draws, chance)) <= |draws|
    ensures Sum(Drawn(draws, chance)) == 0 <==> forall i :: 0 <= i < |draws| ==> draws[i] >= chance
    ensures Sum(Drawn(draws, chance)) == |draws| <==> forall i :: 0 <= i < |draws| ==> draws[i] < chance
  {
    if draws != [] {
      var n := |draws| - 1;
      DrawnSum(draws[..n], chance);
      assert Drawn(draws, chance)[..n] == Drawn(draws[..n], chance);
      if draws[n] < chance {
        assert Sum(Drawn(draws[..n], chance)) == 0 ==> forall i :: 0 <= i < |draws| ==> draws[i] >= chance ==> i < n;
      }
    }
  }

  /** `densityValid`: a number between 0 and 1. */
  predicate DensityValid(density: Option<real>)
  {
    density.Some? && 0.0 <= density.value <= 1.0
  }

  /** The chance of filling a cell: the caller's density when it is valid,
      otherwise a random whole number of thousandths from 200 to 800. */
  function ChanceOfFill(density: Option<real>, fallbackDraw: real): (chance: real)
    requires 0.0 <= fallbackDraw < 1.0
    ensures 0.0 <= chance <= 1.0
    ensures DensityValid(density) ==> chance == density.value
    ensures !DensityValid(density) ==> 0.2 <= chance <= 0.8
  {
    if DensityValid(density) then density.value
    else Utility.RandomIntBetween(200, 800, fallbackDraw) as real / 1000.0
  }

  datatype Rows = Rows(done: seq<seq<int>>, row: seq<int>)

  /** The rows the for loop of an attempt has built after `i` turns: the
      completed rows and the row in progress. A row is pushed when the next
      one starts (`i % width == 0 && i > 0`), so the last row stays in
      progress. */
  function RowsAfter(values: seq<int>, width: nat, i: nat): Rows
    requires width >= 1 && i <= |values|
  {
    if i == 0 then Rows([], [])
    else
      var r := RowsAfter(values, width, i - 1);
      if (i - 1) % width == 0 && i - 1 > 0 then Rows(r.done + [r.row], [values[i - 1]])
      else Rows(r.done, r.row + [values[i - 1]])
  }

  /** The completed rows are full and, followed by the row in progress, hold
      the first `i` values in order. */
  lemma {:induction false} RowsAfterShape(values: seq<int>, width: nat, i: nat)
    requires width >= 1 && i <= |values|
    ensures var r := RowsAfter(values, width, i);
            Flatten(r.done) + r.row == values[..i] && Rectangular(r.done, width) &&
            i == |r.done| * width + |r.row| &&
            (i == 0 ==> r.done == [] && r.row == []) &&
            (i > 0 ==> 1 <= |r.row| <= width)
  {
    if i > 0 {
      var n := i - 1;
      RowsAfterShape(values, width, n);
      DrawStep(values, width, n);
      RowsStepShape(RowsAfter(values, width, n), RowsAfter(values, width, i), values[..n], values[n], width, n);
    }
  }

  /** One more value keeps the shape of the rows: the rows before hold the
      first `n` values, and the rows after hold them followed by `v`. */
  lemma {:induction false} RowsStepShape(prev: Rows, next: Rows, prefix: seq<int>, v: int, width: nat, n: nat)
    requires width >= 1
    requires Flatten(prev.done) + prev.row == prefix && Rectangular(prev.done, width)
    requires n == |prev.done| * width + |prev.row|
    requires n == 0 ==> prev.done == [] && prev.row == []
    requires n > 0 ==> 1 <= |prev.row| <= width
    requires next == if n % width == 0 && n > 0 then Rows(prev.done + [prev.row], [v])
                     else Rows(prev.done, prev.row + [v])
    ensures Flatten(next.done) + next.row == prefix + [v] && Rectangular(next.done, width) &&
            n + 1 == |next.done| * width + |next.row| &&
            1 <= |next.row| <= width
  {
    if n > 0 {
      var k := |prev.done|;
      var len := |prev.row|;
      RowBreak(k, len, width);
      if n % width == 0 {
        FlattenPush(prev.done, prev.row);
        assert n + 1 == (k + 1) * width + 1;
      }
    }
  }

  /** One turn of the draw loop: the running sum takes in value `i`, and the
      value joins the row in progress, or starts a new row once `i` is a
      non-zero multiple of the width. */
  lemma {:induction false} DrawStep(values: seq<int>, width: nat, i: nat)
    requires width >= 1 && i < |values|
    ensures values[..i + 1] == values[..i] + [values[i]]
    ensures Sum(values[..i + 1]) == Sum(values[..i]) + values[i]
    ensures var r := RowsAfter(values, width, i);
            RowsAfter(values, width, i + 1) ==
              if i % width == 0 && i > 0 then Rows(r.done + [r.row], [values[i]])
              else Rows(r.done, r.row + [values[i]])
  {
    assert values[..i + 1] == values[..i] + [values[i]];
    SumAppend(values[..i], values[i]);
  }

  /** The for loop of one attempt: one value per draw, cut into rows of
      `width` (the last row is left in `rowArray`), and `cellsFilled` adding
      up the values. */
  method DrawCells(draws: seq<real>, chance: real, width: nat) returns (solutionGrid: seq<seq<int>>, rowArray: seq<int>, cellsFilled: int)
    requires width >= 1
    ensures Flatten(solutionGrid) + rowArray == Drawn(draws, chance)
    ensures Rectangular(solutionGrid, width)
    ensures draws != [] ==> 1 <= |rowArray| <= width
    ensures cellsFilled == Sum(Drawn(draws, chance))
  {
    ghost var values := Drawn(draws, chance);
    solutionGrid := [];
    rowArray := [];
    cellsFilled := 0;
    var i := 0;
    while i < |draws|
      invariant i <= |draws|
      invariant Rows(solutionGrid, rowArray) == RowsAfter(values, width, i)
      invariant cellsFilled == Sum(values[..i])
    {
      var cellValue := if draws[i] < chance then 1 else 0;
      assert values[i] == cellValue;
      DrawStep(values, width, i);
      cellsFilled := cellsFilled + cellValue;
      if i % width == 0 && i > 0 {
        solutionGrid := solutionGrid + [rowArray];
        rowArray := [];
      }
      rowArray := rowArray + [cellValue];
      i := i + 1;
    }
    RowsAfterShape(values, width, i);
    assert values[..i] == values;
  }

  lemma FlattenPush(grid: seq<seq<int>>, row: seq<int>)
    ensures Flatten(grid + [row]) == Flatten(grid) + row
  {
    assert (grid + [row])[..|grid|] == grid;
  }

  /** Position `rows * width + len` of a row-major grid, `len` counting the
      entries of the current row, starts a new row exactly when the current
      row is full. */
  lemma RowBreak(rows: nat, len: nat, width: nat)
    requires 1 <= len <= width
    ensures (rows * width + len) % width == 0 <==> len == width
    ensures rows * width + width == (rows + 1) * width
  {
    if len == width {
      RowOfPosition(rows + 1, 0, width);
    } else {
      RowOfPosition(rows, len, width);
    }
  }

  /** Rows of `width` that hold `width * height` values in all, the last one
      partly filled, are `height - 1` full rows and a full last row. */
  lemma LastRowFull(rows: nat, last: nat, width: nat, height: nat)
    requires width >= 1 && height >= 1 && 1 <= last <= width
    requires rows * width + last == width * height
    ensures rows == height - 1 && last == width
  {
    assert (height - 1) * width + (width - 1) == width * height - 1;
    PositionUnique(rows, last - 1, height - 1, width - 1, width);
  }

  /** The grid an attempt completes holds the drawn values row-major, and
      the cells made from it carry the values in order. */
  lemma AttemptGrid(solutionGrid: seq<seq<int>>, rowArray: seq<int>, values: seq<int>, width: nat, height: nat)
    requires width >= 1 && height >= 1 && |values| == width * height
    requires Flatten(solutionGrid) + rowArray == values
    requires Rectangular(solutionGrid, width) && 1 <= |rowArray| <= width
    ensures var grid := solutionGrid + [rowArray];
            |grid| == height && Rectangular(grid, width) && Flatten(grid) == values &&
            |GridCells(grid, width, height, true)| == |values| &&
            forall i :: 0 <= i < |values| ==>
              CellAt(GridCells(grid, width, height, true)[i], i, width, height) &&
              GridCells(grid, width, height, true)[i].solution == Some(values[i])
  {
    var grid := solutionGrid + [rowArray];
    FlattenLength(solutionGrid, width);
    LastRowFull(|solutionGrid|, |rowArray|, width, height);
    FlattenPush(solutionGrid, rowArray);
    assert Rectangular(grid, width);
    GridCellsLaid(grid, width, height, true);
    var cells := GridCells(grid, width, height, true);
    forall i | 0 <= i < |values|
      ensures cells[i].solution == Some(values[i])
    {
      var c := cells[i];
      FlattenAt(grid, width, c.row, c.column);
    }
  }

  // ---- the creator ----

  /** A grid `createFromGrid` builds a puzzle from: an array that passes the
      shape check, with dimensions `new Puzzle` accepts and a non-empty first
      row. */
  predicate GridAccepted(grid: JsArray<JsArray<int>>)
  {
    grid.Array? && ShapeOf(grid.items).Success? &&
    ValidDimensions(ShapeOf(grid.items).value.width, ShapeOf(grid.items).value.height) &&
    grid.items != [] && Width(grid.items[0]) > 0
  }

  /** The grids accepted are exactly the non-empty arrays of arrays that all
      have one non-zero length, other than a single cell. */
  lemma GridAcceptedIff(grid: JsArray<JsArray<int>>)
    ensures GridAccepted(grid) <==>
              grid.Array? && grid.items != [] && ValidDimensions(Width(grid.items[0]), |grid.items|) &&
              forall i :: 0 <= i < |grid.items| ==> grid.items[i].Array? && Width(grid.items[i]) == Width(grid.items[0])
  {
    if grid.Array? && grid.items != [] {
      var rows := grid.items;
      var w := Width(rows[0]);
      if GridAccepted(grid) {
        ShapeOfSuccess(rows);
      }
      if w >= 1 && forall i :: 0 <= i < |rows| ==> rows[i].Array? && Width(rows[i]) == w {
        RectangularShape(rows, w);
      }
    }
  }

  /** The grid of an accepted argument is rectangular, as wide as its first row. */
  lemma AcceptedGridRectangular(grid: JsArray<JsArray<int>>)
    requires GridAccepted(grid)
    ensures var shape := ShapeOf(grid.items).value;
            shape.height == |grid.items| && shape.width == |RowsOf(grid.items)[0]| &&
            Rectangular(RowsOf(grid.items), shape.width)
  {
    ShapeOfSuccess(grid.items);
  }

  /** The argument of `createFromHints`: not an object, or an object whose
      `row` and `column` properties are each missing (falsy), something other
      than an array, or an array of clue lists. */
  datatype HintList = Missing | NotAList | Lists(lists: seq<seq<nat>>)
  datatype HintsArg = NotAnObject | HintsObject(row: HintList, column: HintList)

  predicate HintsGiven(hints: HintsArg)
  {
    hints.HintsObject? && hints.row.Lists? && hints.column.Lists?
  }

  /** Each cell with its deduced value copied into `solution`. */
  function WithSolutions(cells: seq<Cell>): (r: seq<Cell>)
    ensures |r| == |cells|
  {
    seq(|cells|, i requires 0 <= i < |cells| => cells[i].(solution := AsNumber(cells[i].aiSolution)))
  }

  /** The nested forEach of `createFromHints` that creates one cell per entry
      of the puzzle's zero grid, without a solution. */
  method PushGridCells(puzzle: Puzzle)
    requires puzzle.cells == []
    modifies puzzle`cells
    ensures puzzle.cells == GridCells(puzzle.grid, puzzle.width, |puzzle.grid|, false)
  {
    var rowKey := 0;
    while rowKey < |puzzle.grid|
      invariant rowKey <= |puzzle.grid|
      invariant puzzle.cells == GridCells(puzzle.grid, puzzle.width, rowKey, false)
    {
      var row := puzzle.grid[rowKey];
      ghost var expected := RowCells(row, rowKey, puzzle.width, false);
      ghost var before := puzzle.cells;
      var columnKey := 0;
      while columnKey < |row|
        invariant columnKey <= |row|
        invariant puzzle.cells == before + expected[..columnKey]
      {
        puzzle.cells := puzzle.cells + [NewCell(Some(CellParams(Some(rowKey * puzzle.width + columnKey),
                                                                Some(columnKey), Some(rowKey), None, None, None)))];
        assert expected[columnKey] == GridCell(rowKey, columnKey, puzzle.width, None);
        assert expected[..columnKey + 1] == expected[..columnKey] + [expected[columnKey]];
        columnKey := columnKey + 1;
      }
      assert expected[..columnKey] == expected;
      rowKey := rowKey + 1;
    }
  }

  /** The forEach of `createFromHints` that copies every deduced value into
      the cell's `solution`. */
  method CopySolutions(puzzle: Puzzle)
    modifies puzzle`cells
    ensures puzzle.cells == WithSolutions(old(puzzle.cells))
  {
    ghost var cells0 := puzzle.cells;
    var cellIndex := 0;
    while cellIndex < |puzzle.cells|
      invariant |puzzle.cells| == |cells0| && cellIndex <= |cells0|
      invariant forall j :: 0 <= j < |cells0| ==>
                  puzzle.cells[j] == if j < cellIndex then WithSolutions(cells0)[j] else cells0[j]
    {
      var solvedCell := puzzle.cells[cellIndex];
      var puzzleCell := puzzle.GetCellByIndex(cellIndex);
      if puzzleCell.Some? {
        puzzle.cells := puzzle.cells[cellIndex := puzzleCell.value.(aiSolution := solvedCell.aiSolution,
                                                                   solution := AsNumber(solvedCell.aiSolution))];
      }
      cellIndex := cellIndex + 1;
    }
  }

  /** Deductions added to cells that were all undecided. */
  lemma GrowsFromUndecided(a: seq<Cell>, b: seq<Cell>)
    requires forall i :: 0 <= i < |a| ==> a[i].aiSolution == Unknown
    requires Solving.Grows(Solving.Cleared(a), b)
    ensures Solving.Grows(a, b)
  {
  }

  /** The cells of a completed attempt, once the solver has added its
      deductions, still carry the drawn values in order. */
  lemma AttemptCells(grid: seq<seq<int>>, values: seq<int>, width: nat, height: nat, cells: seq<Cell>)
    requires height == |grid|
    requires |GridCells(grid, width, height, true)| == |values|
    requires forall i :: 0 <= i < |values| ==>
               CellAt(GridCells(grid, width, height, true)[i], i, width, height) &&
               GridCells(grid, width, height, true)[i].solution == Some(values[i])
    requires Solving.Grows(GridCells(grid, width, |grid|, true), cells)
    ensures |cells| == |values|
    ensures forall i :: 0 <= i < |values| ==> CellAt(cells[i], i, width, height) && cells[i].solution == Some(values[i])
  {
  }

  /** `_populatePuzzleFromGrid` on a full grid followed by `new Solver` and
      `solve`: the populated puzzle, with the solver's deductions added to
      its cells. */
  method PopulateAndSolve(puzzle: Puzzle, grid: seq<seq<int>>) returns (solved: bool)
    requires ValidDimensions(puzzle.width, puzzle.height) && puzzle.totalCells == puzzle.width * puzzle.height
    requires |grid| == puzzle.height && Rectangular(grid, puzzle.width)
    modifies puzzle
    ensures puzzle.width == old(puzzle.width) && puzzle.height == old(puzzle.height)
    ensures puzzle.totalCells == old(puzzle.totalCells)
    ensures puzzle.creator == null && puzzle.grid == grid
    ensures puzzle.rowHints == RowHintsOf(grid) && puzzle.columnHints == ColumnHintsOf(grid, puzzle.width)
    ensures Solving.Grows(GridCells(grid, puzzle.width, |grid|, true), puzzle.cells)
    ensures solved <==> forall i :: 0 <= i < |puzzle.cells| ==> puzzle.cells[i].aiSolution != Unknown
  {
    var populated := PopulatePuzzleFromGrid(puzzle, grid);
    GridCellsLaid(grid, populated.width, populated.height, true);
    var solver := new Solving.Solver(populated);
    solved := solver.Solve();
    GrowsFromUndecided(GridCells(grid, puzzle.width, |grid|, true), puzzle.cells);
  }

  /** Every cell of the puzzle is decided. */
  ghost predicate AllDecided(p: Puzzle)
    reads p
  {
    forall i :: 0 <= i < |p.cells| ==> p.cells[i].aiSolution != Unknown
  }

  /** The puzzle has been populated from a grid holding `values` row-major:
      the grid and its clues are stored, and cell `i` sits at position `i`
      with `values[i]` as its solution. */
  ghost predicate PopulatedFrom(p: Puzzle, values: seq<int>)
    reads p
  {
    p.creator == null && FilledFrom(p, values)
  }

  /** The grid, clues and cells of a puzzle populated from `values`, whatever
      its creator. */
  ghost predicate FilledFrom(p: Puzzle, values: seq<int>)
    reads p
  {
    |p.grid| == p.height && Rectangular(p.grid, p.width) && Flatten(p.grid) == values &&
    p.rowHints == RowHintsOf(p.grid) && p.columnHints == ColumnHintsOf(p.grid, p.width) &&
    |p.cells| == |values| &&
    forall i :: 0 <= i < |values| ==> CellAt(p.cells[i], i, p.width, p.height) && p.cells[i].solution == Some(values[i])
  }

  /** The rest of an attempt that was not rejected: the last row joins the
      grid, the puzzle is populated from it and the solver runs. */
  method SolveDrawn(p: Puzzle, solutionGrid: seq<seq<int>>, rowArray: seq<int>, ghost values: seq<int>)
    returns (solved: bool)
    requires ValidDimensions(p.width, p.height) && p.totalCells == p.width * p.height
    requires |values| == p.totalCells
    requires Flatten(solutionGrid) + rowArray == values
    requires Rectangular(solutionGrid, p.width) && 1 <= |rowArray| <= p.width
    modifies p
    ensures p.width == old(p.width) && p.height == old(p.height) && p.totalCells == old(p.totalCells)
    ensures PopulatedFrom(p, values)
    ensures solved <==> AllDecided(p)
  {
    AttemptGrid(solutionGrid, rowArray, values, p.width, p.height);
    var grid := solutionGrid + [rowArray];
    solved := PopulateAndSolve(p, grid);
    AttemptCells(grid, values, p.width, p.height, p.cells);
  }

  /** The cells `createFromHints` makes: laid out row-major, without
      solutions, undecided. */
  lemma BlankCellsLaid(cells: seq<Cell>, width: nat, height: nat)
    requires cells == GridCells(ZeroGrid(height, width), width, height, false)
    ensures |cells| == width * height
    ensures forall i :: 0 <= i < |cells| ==>
              CellAt(cells[i], i, width, height) && cells[i].solution.None? &&
              cells[i].userSolution.None? && cells[i].aiSolution == Unknown
  {
    GridCellsLaid(ZeroGrid(height, width), width, height, false);
  }

  /** The rest of `createFromHints` once the clues are in place: one cell
      per grid entry, the solver, and the deduced values copied into the
      cells' solutions when it succeeds. */
  method SolveFromHints(p: Puzzle) returns (solved: bool)
    requires ValidDimensions(p.width, p.height) && p.totalCells == p.width * p.height
    requires p.grid == ZeroGrid(p.height, p.width) && p.cells == []
    requires |p.rowHints| == p.height && |p.columnHints| == p.width
    modifies p`cells
    ensures |p.cells| == p.width * p.height
    ensures forall i :: 0 <= i < |p.cells| ==>
              CellAt(p.cells[i], i, p.width, p.height) && p.cells[i].userSolution.None? &&
              p.cells[i].solution == (if solved then AsNumber(p.cells[i].aiSolution) else None)
    ensures solved <==> AllDecided(p)
  {
    PushGridCells(p);
    BlankCellsLaid(p.cells, p.width, p.height);
    var solver := new Solving.Solver(p);
    solved := solver.Solve();
    if solved {
      CopySolutions(p);
    }
  }

  /** The result of `createFromGrid` and `createFromHints`: the puzzle, the
      solver giving up (`false`), or the error thrown. */
  datatype Created = Built(puzzle: Puzzle) | Unsolvable | Thrown(error: CreateError)

  /** The result of one pass of the `createRandom` loop. */
  datatype Attempt = NoCellsFilled | AllCellsFilled | NotSolvable | Accepted

  class Creator {
    /** The puzzle of the last create call (unset before the first). */
    var puzzle: Puzzle?

    constructor()
      ensures puzzle == null
    {
      puzzle := null;
    }

    /** `createFromGrid`: checks the grid, builds a puzzle of its size,
        populates it from the grid, and returns it when the solver decides
        every cell.  A grid whose leading rows are empty passes the checks
        but leaves the puzzle short of cells; the solver then reads a cell
        that was never created and throws, which is `CellsMissing` here. */
    method CreateFromGrid(grid: JsArray<JsArray<int>>) returns (r: Created)
      modifies this
      ensures grid.NotAnArray? ==> r == Thrown(GridNotArray)
      ensures grid.Array? && ShapeOf(grid.items).Failure? ==> r == Thrown(ShapeOf(grid.items).error)
      ensures grid.Array? && ShapeOf(grid.items).Success? &&
              !ValidDimensions(ShapeOf(grid.items).value.width, ShapeOf(grid.items).value.height) ==>
                r == Thrown(BadDimensions(InvalidDimensions))
      ensures grid.Array? && ShapeOf(grid.items).Success? &&
              ValidDimensions(ShapeOf(grid.items).value.width, ShapeOf(grid.items).value.height) &&
              !GridAccepted(grid) ==>
                r == Thrown(CellsMissing)
      ensures GridAccepted(grid) ==> !r.Thrown?
      ensures GridAccepted(grid) ==>
                var rows := RowsOf(grid.items);
                var width := |rows[0]|;
                puzzle != null && fresh(puzzle) && puzzle.creator == this && puzzle.grid == rows &&
                puzzle.width == width && puzzle.height == |rows| &&
                puzzle.rowHints == RowHintsOf(rows) && puzzle.columnHints == ColumnHintsOf(rows, width) &&
                Solving.Grows(GridCells(rows, width, |rows|, true), puzzle.cells)
      ensures r.Built? <==>
                GridAccepted(grid) && puzzle != null &&
                forall i :: 0 <= i < |puzzle.cells| ==> puzzle.cells[i].aiSolution != Unknown
      ensures r.Built? ==> r.puzzle == puzzle
    {
      if grid.NotAnArray? {
        return Thrown(GridNotArray);
      }
      var shape := MeasureGrid(grid.items);
      if shape.Failure? {
        return Thrown(shape.error);
      }
      var made := Puzzle.New(Some(shape.value.width), Some(shape.value.height));
      if made.Failure? {
        return Thrown(BadDimensions(made.error));
      }
      ShapeOfSuccess(grid.items);
      var rows := RowsOf(grid.items);
      var p := made.value;
      if |rows[0]| == 0 {
        p := PopulatePuzzleFromGrid(p, rows);
        puzzle := p;
        p.creator := this;
        return Thrown(CellsMissing);
      }
      AcceptedGridRectangular(grid);
      var solved := PopulateAndSolve(p, rows);
      puzzle := p;
      p.creator := this;
      if !solved {
        return Unsolvable;
      }
      return Built(p);
    }

    /** `createFromHints`: checks the argument, builds a puzzle as wide as
        the column clues and as high as the row clues, takes the clues as
        given, creates the cells without solutions, and returns the puzzle,
        with every deduced value copied into the cells' solutions, when the
        solver decides every cell. */
    method CreateFromHints(hints: HintsArg) returns (r: Created)
      modifies this
      ensures hints.NotAnObject? || hints.row.Missing? || hints.column.Missing? ==> r == Thrown(HintsMissing)
      ensures hints.HintsObject? && !hints.row.Missing? && !hints.column.Missing? && !HintsGiven(hints) ==>
                r == Thrown(HintsNotArrays)
      ensures HintsGiven(hints) && !ValidDimensions(|hints.column.lists|, |hints.row.lists|) ==>
                r == Thrown(BadDimensions(InvalidDimensions))
      ensures r.Thrown? <==> !(HintsGiven(hints) && ValidDimensions(|hints.column.lists|, |hints.row.lists|))
      ensures !r.Thrown? ==>
                var width := |hints.column.lists|;
                var height := |hints.row.lists|;
                puzzle != null && fresh(puzzle) && puzzle.creator == this &&
                puzzle.width == width && puzzle.height == height && puzzle.grid == ZeroGrid(height, width) &&
                puzzle.rowHints == hints.row.lists && puzzle.columnHints == hints.column.lists &&
                |puzzle.cells| == width * height &&
                forall i :: 0 <= i < |puzzle.cells| ==>
                  CellAt(puzzle.cells[i], i, width, height) && puzzle.cells[i].userSolution.None? &&
                  puzzle.cells[i].solution == (if r.Built? then AsNumber(puzzle.cells[i].aiSolution) else None)
      ensures r.Built? <==>
                !r.Thrown? && puzzle != null &&
                forall i :: 0 <= i < |puzzle.cells| ==> puzzle.cells[i].aiSolution != Unknown
      ensures r.Built? ==> r.puzzle == puzzle
    {
      if hints.NotAnObject? || hints.row.Missing? || hints.column.Missing? {
        return Thrown(HintsMissing);
      } else if hints.row.NotAList? || hints.column.NotAList? {
        return Thrown(HintsNotArrays);
      }
      var width := |hints.column.lists|;
      var height := |hints.row.lists|;
      var made := Puzzle.New(Some(width), Some(height));
      if made.Failure? {
        return Thrown(BadDimensions(made.error));
      }
      var p := made.value;
      p.rowHints := hints.row.lists;
      p.columnHints := hints.column.lists;
      p.creator := this;
      puzzle := p;
      var solved := SolveFromHints(p);
      if !solved {
        return Unsolvable;
      }
      return Built(p);
    }

    /** One pass of the `createRandom` loop on the current puzzle: draws a
        value per cell (one `Math.random()` value per cell in `draws`), rejects
        a grid with no cell or every cell filled, otherwise populates the
        puzzle from it and accepts it when the solver decides every cell. */
    method RandomAttempt(density: Option<real>, fallbackDraw: real, draws: seq<real>) returns (outcome: Attempt)
      requires puzzle != null && ValidDimensions(puzzle.width, puzzle.height)
      requires puzzle.totalCells == puzzle.width * puzzle.height && |draws| == puzzle.totalCells
      requires 0.0 <= fallbackDraw < 1.0
      modifies puzzle
      ensures puzzle.width == old(puzzle.width) && puzzle.height == old(puzzle.height)
      ensures puzzle.totalCells == old(puzzle.totalCells)
      ensures outcome == NoCellsFilled || outcome == AllCellsFilled ==> puzzle.creator == old(puzzle.creator)
      ensures var values := Drawn(draws, ChanceOfFill(density, fallbackDraw));
              (outcome == NoCellsFilled <==> Sum(values) == 0) &&
              (outcome == AllCellsFilled <==> Sum(values) == |values|) &&
              (outcome == Accepted <==> 0 < Sum(values) < |values| && AllDecided(puzzle)) &&
              (outcome == NotSolvable || outcome == Accepted ==> PopulatedFrom(puzzle, values))
    {
      var p := puzzle;
      var chanceOfCellFill := ChanceOfFill(density, fallbackDraw);
      var solutionGrid, rowArray, cellsFilled := DrawCells(draws, chanceOfCellFill, p.width);
      DrawnSum(draws, chanceOfCellFill);
      if cellsFilled == 0 {
        return NoCellsFilled;
      } else if cellsFilled == p.totalCells {
        return AllCellsFilled;
      }
      var solved := SolveDrawn(p, solutionGrid, rowArray, Drawn(draws, chanceOfCellFill));
      if solved {
        return Accepted;
      }
      return NotSolvable;
    }

    /** `createRandom` with a single pass of its loop: builds a puzzle of the
        given size (or throws) and makes one attempt; an accepted puzzle
        gets this creator as its `creator`. */
    method CreateRandom(width: int, height: int, density: Option<real>, fallbackDraw: real, draws: seq<real>)
      returns (r: Result<Attempt, PuzzleError>)
      requires 0.0 <= fallbackDraw < 1.0
      requires ValidDimensions(width, height) ==> |draws| == width * height
      modifies this
      ensures r.Failure? <==> !ValidDimensions(width, height)
      ensures r.Failure? ==> r.error == InvalidDimensions
      ensures r.Success? ==>
                var values := Drawn(draws, ChanceOfFill(density, fallbackDraw));
                puzzle != null && fresh(puzzle) && puzzle.width == width && puzzle.height == height &&
                (r.value == NoCellsFilled <==> Sum(values) == 0) &&
                (r.value == AllCellsFilled <==> Sum(values) == |values|) &&
                (r.value == Accepted <==>
                   0 < Sum(values) < |values| &&
                   (forall i :: 0 <= i < |puzzle.cells| ==> puzzle.cells[i].aiSolution != Unknown)) &&
                (r.value == NotSolvable || r.value == Accepted ==> FilledFrom(puzzle, values)) &&
                puzzle.creator == (if r.value == Accepted then this else null)
    {
      var made := Puzzle.New(Some(width), Some(height));
      if made.Failure? {
        return Failure(made.error);
      }
      puzzle := made.value;
      var outcome := RandomAttempt(density, fallbackDraw, draws);
      if outcome == Accepted {
        puzzle.creator := this;
      }
      return Success(outcome);
    }
  }
}
