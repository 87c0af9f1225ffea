/** `Puzzle` (src/generator/puzzle.ts): dimensions, the cell list, the clue
    lists and row/column slicing. */
module Puzzles {
  import opened Wrappers
  import opened PuzzleCells
  import Utility

  /** The errors the constructor throws. */
  datatype PuzzleError =
    | MissingDimensions   // width or height undefined
    | InvalidDimensions   // width <= 0, height <= 0, or 1 x 1

  /** Dimensions the constructor accepts. */
  predicate ValidDimensions(width: int, height: int)
  {
    width > 0 && height > 0 && !(width == 1 && height == 1)
  }

  /** The constructor's checks (`undefined` is `None`): `None` when it goes on,
      otherwise the error it throws. */
  function CheckDimensions(width: Option<int>, height: Option<int>): (r: Option<PuzzleError>)
    ensures r.None? <==> width.Some? && height.Some? && ValidDimensions(width.value, height.value)
    ensures width.None? || height.None? ==> r == Some(MissingDimensions)
    ensures width.Some? && height.Some? && (width.value <= 0 || height.value <= 0) ==>
              r == Some(InvalidDimensions)
    ensures width == Some(1) && height == Some(1) ==> r == Some(InvalidDimensions)
  {
    if width.None? || height.None? then Some(MissingDimensions)
    else if width.value <= 0 || height.value <= 0 || (width.value == 1 && height.value == 1) then
      Some(InvalidDimensions)
    else None
  }

  /** `height` rows of `width` zeros. */
  function ZeroGrid(height: nat, width: nat): (g: seq<seq<int>>)
    ensures |g| == height
    ensures forall r :: 0 <= r < height ==> |g[r]| == width
    ensures forall r, c :: 0 <= r < height && 0 <= c < width ==> g[r][c] == 0
  {
    seq(height, _ => Utility.ZeroFilled(width))
  }

  /** The value a player's mark counts as: 1 for a 1, 0 for anything else. */
  function UserValue(c: Cell): int
  {
    if c.userSolution == Some(1) then 1 else 0
  }

  /** `Array.prototype.every` over the cells, checking `solution === userValue`. */
  function EveryCellMatches(cells: seq<Cell>): (r: bool)
    ensures r <==> forall i :: 0 <= i < |cells| ==> cells[i].solution == Some(UserValue(cells[i]))
  {
    if cells == [] then true
    else cells[0].solution == Some(UserValue(cells[0])) && EveryCellMatches(cells[1..])
  }

  /** Positions (in the cell list) of the cells of row `row`. */
  function RowIndices(row: nat, width: nat): (r: seq<nat>)
    ensures |r| == width
  {
    seq(width, j => row * width + j)
  }

  /** Positions of the cells of column `column` in a `height`-row grid. */
  function ColumnIndices(column: nat, width: nat, height: nat): (r: seq<nat>)
    ensures |r| == height
  {
    seq(height, k => k * width + column)
  }

  /** Cell `c` sits at position `i` of a row-major `width` x `height` grid. */
  predicate CellAt(c: Cell, i: int, width: int, height: int)
  {
    c.index == i && 0 <= c.row < height && 0 <= c.column < width && i == c.row * width + c.column
  }

  class Puzzle {
    var width: nat
    var height: nat
    var totalCells: nat
    var cells: seq<Cell>
    var rowHints: seq<seq<nat>>
    var columnHints: seq<seq<nat>>
    /** The Creator that built this puzzle (a diagnostic back-reference). */
    var creator: object?
    var grid: seq<seq<int>>

    /** The state `reset` leaves. */
    ghost predicate IsReset()
      reads this
    {
      creator == null && cells == [] && rowHints == [] && columnHints == [] &&
      grid == ZeroGrid(height, width)
    }

    /** Every cell present, row-major, with matching position fields, and one
        clue list per row and per column: what the solver works on. */
    ghost predicate Populated()
      reads this
    {
      Shaped() && forall i :: 0 <= i < |cells| ==> CellAt(cells[i], i, width, height)
    }

    /** The cells are laid out row by row over at least one row and one
        column (what the solver relies on). */
    ghost predicate Laid()
      reads this
    {
      width >= 1 && height >= 1 && |cells| == width * height &&
      forall i :: 0 <= i < |cells| ==> CellAt(cells[i], i, width, height)
    }

    /** The sizes of a populated puzzle. */
    ghost predicate Shaped()
      reads this
    {
      width >= 1 && height >= 1 && totalCells == width * height &&
      |cells| == width * height && |rowHints| == height && |columnHints| == width
    }

    /** `new Puzzle(width, height)` once its checks have passed. */
    constructor(width: int, height: int)
      requires ValidDimensions(width, height)
      ensures this.width == width && this.height == height
      ensures totalCells == width * height
      ensures IsReset()
    {
      this.width := width;
      this.height := height;
      totalCells := width * height;
      new;
      Reset();
    }

    /** The constructor with its checks: the error it throws, or a fresh puzzle. */
    static method New(width: Option<int>, height: Option<int>) returns (r: Result<Puzzle, PuzzleError>)
      ensures r.Failure? <==> CheckDimensions(width, height).Some?
      ensures r.Failure? ==> r.error == CheckDimensions(width, height).value
      ensures r.Success? ==>
                fresh(r.value) && r.value.width == width.value && r.value.height == height.value &&
                r.value.totalCells == width.value * height.value && r.value.IsReset()
    {
      var err := CheckDimensions(width, height);
      if err.Some? {
        return Failure(err.value);
      }
      var p := new Puzzle(width.value, height.value);
      return Success(p);
    }

    /** `reset`: clears the creator, cells and clues, and rebuilds the zero grid. */
    method Reset()
      modifies this
      ensures width == old(width) && height == old(height) && totalCells == old(totalCells)
      ensures IsReset()
    {
      creator := null;
      cells := [];
      rowHints := [];
      columnHints := [];
      grid := ZeroGrid(height, width);
    }

    /** `checkUserSolution`: every cell's solution equals the player's mark
        read as 1 or 0; vacuously true without cells, false for any cell whose
        solution is `null`. */
    function CheckUserSolution(): (r: bool)
      reads this
      ensures r <==> forall i :: 0 <= i < |cells| ==> cells[i].solution == Some(UserValue(cells[i]))
      ensures cells == [] ==> r
      ensures (exists i :: 0 <= i < |cells| && cells[i].solution.None?) ==> !r
    {
      EveryCellMatches(cells)
    }

    /** `getRowCells`: the `width` positions `row*width .. row*width+width-1`
        in order; `false` (`None`) only when that range is empty. */
    method GetRowCells(row: nat) returns (r: Option<seq<nat>>)
      ensures width >= 1 ==> r == Some(RowIndices(row, width))
      ensures width == 0 ==> r == None
    {
      var result: seq<nat> := [];
      var start := row * width;
      var end := start + width;
      var i := start;
      while i < end
        invariant start <= i <= end
        invariant result == RowIndices(row, width)[..i - start]
      {
        result := result + [i];
        i := i + 1;
      }
      assert result == RowIndices(row, width);
      r := if |result| > 0 then Some(result) else None;
    }

    /** `getColumnCells`: positions `column, column+width, ...` below the
        number of cells, in order; `false` (`None`) when `column` is not below it. */
    method GetColumnCells(column: nat) returns (r: Option<seq<nat>>)
      requires width >= 1
      ensures r.None? <==> column >= |cells|
      ensures r.Some? ==>
                (forall k :: 0 <= k < |r.value| ==> r.value[k] == k * width + column < |cells|) &&
                |r.value| * width + column >= |cells|
    {
      var result: seq<nat> := [];
      var i := column;
      while i < |cells|
        invariant i == |result| * width + column
        invariant forall k :: 0 <= k < |result| ==> result[k] == k * width + column < |cells|
        decreases |cells| - i
      {
        result := result + [i];
        i := i + width;
      }
      r := if |result| > 0 then Some(result) else None;
    }

    /** `getCellByIndex`: the cell at `index`, or `false` (`None`) outside the list. */
    function GetCellByIndex(index: int): (r: Option<Cell>)
      reads this
      ensures r.Some? <==> 0 <= index < |cells|
      ensures r.Some? ==> r.value == cells[index]
    {
      if 0 <= index < |cells| then Some(cells[index]) else None
    }
  }

  // ---- geometry of a row-major grid ----

  lemma MulMonotone(a: int, b: int, w: int)
    requires w >= 0
    ensures a <= b ==> a * w <= b * w
  {
    assert b * w - a * w == (b - a) * w;
  }

  lemma RowPositionsInRange(row: nat, j: nat, width: nat, height: nat)
    requires row < height && j < width
    ensures row * width + j < width * height
  {
    MulMonotone(row, height - 1, width);
  }

  /** Two grid coordinates with the same row-major position are the same. */
  lemma PositionUnique(r1: int, c1: int, r2: int, c2: int, width: int)
    requires 0 <= c1 < width && 0 <= c2 < width && 0 <= r1 && 0 <= r2
    requires r1 * width + c1 == r2 * width + c2
    ensures r1 == r2 && c1 == c2
  {
    MulMonotone(r1 + 1, r2, width);
    MulMonotone(r2 + 1, r1, width);
  }

  /** A position `k*width + column` below `width*height` lies in a row below `height`. */
  lemma RowBelowHeight(k: int, column: nat, width: nat, height: nat)
    requires width >= 1 && k * width + column < width * height
    ensures k < height
  {
    MulMonotone(height, k, width);
  }

  /** On a full `width` x `height` list, `getColumnCells` of an existing
      column returns exactly that column's `height` positions. */
  lemma ColumnCellsOfFullGrid(column: nat, width: nat, height: nat, r: seq<nat>)
    requires column < width && height >= 1
    requires forall k :: 0 <= k < |r| ==> r[k] == k * width + column < width * height
    requires |r| * width + column >= width * height
    ensures r == ColumnIndices(column, width, height)
  {
    MulMonotone(|r|, height - 1, width);
    assert |r| >= height;
    if |r| > 0 {
      RowBelowHeight(|r| - 1, column, width, height);
    }
    assert |r| == height;
  }
}
