/** The pattern generator of dist/nonogramGenerator.js: a square grid of
    booleans that shape painters switch on cell by cell, and the clue lists
    read back from it; together with `validateSolvability` of
    dist/advancedNonogramGenerator.js, whose class extends this one and only
    reads `size`. */
module NonogramGenerators {
  import opened Runs

  function Abs(x: int): nat
  {
    if x < 0 then -x else x
  }

  /** `Math.floor(size * 0.3)`, in exact arithmetic. */
  function DiamondRadius(size: nat): nat
  {
    3 * size / 10
  }

  /** `Math.floor(size * 0.15)`, in exact arithmetic. */
  function BorderWidth(size: nat): nat
  {
    15 * size / 100
  }

  /** The cells `drawDiamond` switches on: Manhattan distance from the
      centre cell `(size / 2, size / 2)` at most the radius. */
  predicate InDiamond(size: nat, row: int, col: int)
  {
    Abs(row - size / 2) + Abs(col - size / 2) <= DiamondRadius(size)
  }

  /** The cells `drawFrame` switches on: within the border width of one of
      the four edges. */
  predicate InFrame(size: nat, row: int, col: int)
  {
    var b := BorderWidth(size);
    row < b || row >= size - b || col < b || col >= size - b
  }

  /** The diamond never reaches past the grid, so the scan over the grid
      paints all of it. */
  lemma DiamondWithinGrid(size: nat, row: int, col: int)
    requires size > 0 && InDiamond(size, row, col)
    ensures 0 <= row < size && 0 <= col < size
  {
    var h, q := size / 2, DiamondRadius(size);
    assert 2 * h <= size <= 2 * h + 1;
    assert 10 * q <= 3 * size;
  }

  /** The frame is symmetric: mirroring a cell top to bottom, left to right,
      or across the diagonal keeps it in or out of the frame. */
  lemma FrameSymmetric(size: nat, row: int, col: int)
    requires 0 <= row < size && 0 <= col < size
    ensures InFrame(size, row, col) == InFrame(size, size - 1 - row, col)
    ensures InFrame(size, row, col) == InFrame(size, row, size - 1 - col)
    ensures InFrame(size, row, col) == InFrame(size, col, row)
  {
  }

  /** Below size 7 the border width rounds down to 0 and `drawFrame` paints
      nothing; from size 7 on every edge cell is painted. */
  lemma {:induction false} FrameWidth(size: nat, row: int, col: int)
    requires 0 <= row < size && 0 <= col < size
    ensures size < 7 ==> !InFrame(size, row, col)
    ensures size >= 7 && (row == 0 || col == 0 || row == size - 1 || col == size - 1) ==>
              InFrame(size, row, col)
  {
    if size < 7 {
      assert 15 * size < 100;
    } else {
      assert 15 * size >= 100;
    }
  }

  /** The clue list of one line as `generateClues` writes it: the lengths of
      the runs of filled cells in order, or the single clue `0` for a line
      with no filled cell. */
  function Clues(line: seq<bool>): seq<nat>
  {
    if RunLengths(line) == [] then [0] else RunLengths(line)
  }

  /** A clue list a line can have: the single `0`, or a non-empty list of
      positive run lengths. */
  predicate WellFormed(clues: seq<nat>)
  {
    clues == [0] || (clues != [] && forall i :: 0 <= i < |clues| ==> clues[i] > 0)
  }

  /** What a clue list says about its line: it is never empty; it is `[0]`
      exactly when no cell is filled; otherwise every clue is positive; the
      clues add up to the number of filled cells. */
  lemma {:induction false} CluesSpec(line: seq<bool>)
    ensures WellFormed(Clues(line))
    ensures Clues(line) == [0] <==> CountTrue(line) == 0
    ensures Sum(Clues(line)) == CountTrue(line)
  {
    RunsPositive(line);
    RunsSum(line);
    NoRunsIffBlank(line);
    var r := RunLengths(line);
    if r != [] {
      assert r[0] > 0;
    }
  }

  /** `Math.max(0, clues.length - 1)`: the empty cells that must separate
      consecutive runs. */
  function Separators(clues: seq<nat>): nat
  {
    if |clues| == 0 then 0 else |clues| - 1
  }

  /** The `minSpaceNeeded` of `validateSolvability`: the clues' sum plus one
      separator between neighbours. */
  function SpaceNeeded(clues: seq<nat>): int
  {
    Sum(clues) + Separators(clues)
  }

  /** Every clue list of a list of lists needs at most `size` cells. */
  predicate AllFit(sets: seq<seq<nat>>, size: nat)
  {
    forall i :: 0 <= i < |sets| ==> SpaceNeeded(sets[i]) <= size
  }

  /** The clues read from a line always fit that line. */
  lemma {:induction false} CluesFit(line: seq<bool>)
    ensures SpaceNeeded(Clues(line)) <= |line|
  {
    RunsFit(line);
    if RunLengths(line) == [] {
      assert Sum([0]) == 0;
    }
  }

  function MinGaps(n: nat): (gaps: seq<nat>)
    ensures |gaps| == n
  {
    if n == 0 then [] else if n == 1 then [0] else MinGaps(n - 1) + [1]
  }

  lemma {:induction false} MinGapsSeparate(lens: seq<nat>)
    requires forall i :: 0 <= i < |lens| ==> lens[i] > 0
    ensures Separated(lens, MinGaps(|lens|))
    ensures Sum(MinGaps(|lens|)) == Separators(lens)
  {
    var n := |lens|;
    if n > 1 {
      MinGapsSeparate(lens[..n - 1]);
      SumAppend(MinGaps(n - 1), 1);
      var g := MinGaps(n);
      forall j | 0 <= j < n
        ensures lens[j] >= 1 && (j > 0 ==> g[j] >= 1)
      {
        if j < n - 1 {
          assert lens[..n - 1][j] == lens[j];
        }
      }
    } else if n == 1 {
      assert Sum([0]) == 0;
    }
  }

  lemma {:induction false} PaintLength(lens: seq<nat>, gaps: seq<nat>)
    requires |gaps| == |lens|
    ensures |Paint(lens, gaps)| == Sum(lens) + Sum(gaps)
  {
    if lens != [] {
      PaintLength(lens[..|lens| - 1], gaps[..|gaps| - 1]);
    }
  }

  /** The check `validateSolvability` applies to one clue list is exact for
      a single line: a well-formed clue list needs at most `size` cells if
      and only if some line of `size` cells has exactly those clues. */
  lemma {:induction false} FitsIffRealisable(clues: seq<nat>, size: nat)
    requires WellFormed(clues)
    ensures SpaceNeeded(clues) <= size <==>
              exists line: seq<bool> :: |line| == size && Clues(line) == clues
  {
    if SpaceNeeded(clues) <= size {
      if clues == [0] {
        var line := Blank(size);
        BlankTailKeepsRuns([], size);
        assert [] + Blank(size) == line;
        assert Clues(line) == clues;
      } else {
        var gaps := MinGaps(|clues|);
        MinGapsSeparate(clues);
        PaintLength(clues, gaps);
        var tail := size - SpaceNeeded(clues);
        var line := Paint(clues, gaps) + Blank(tail);
        PaintRoundTrip(clues, gaps, tail);
        assert Clues(line) == clues;
      }
    } else {
      forall line: seq<bool> | |line| == size
        ensures Clues(line) != clues
      {
        CluesFit(line);
      }
    }
  }

  /** The clue lists handed to `validateSolvability`. */
  datatype CluePuzzle = CluePuzzle(colText: seq<seq<nat>>, rowText: seq<seq<nat>>)

  /** The state of the run counter of `generateClues` partway along a line:
      the clues pushed so far and the length of the run being counted. */
  datatype Scan = Scan(pushed: seq<nat>, currentRun: nat)

  /** One cell of the scan: a filled cell lengthens the current run; an
      empty cell pushes the current run, if any, and restarts the count. */
  function ScanStep(s: Scan, filled: bool): Scan
  {
    if filled then Scan(s.pushed, s.currentRun + 1)
    else if s.currentRun > 0 then Scan(s.pushed + [s.currentRun], 0)
    else s
  }

  /** The scan after reading the whole of `line`. */
  function ScanLine(line: seq<bool>): Scan
  {
    if line == [] then Scan([], 0) else ScanStep(ScanLine(line[..|line| - 1]), line[|line| - 1])
  }

  /** The pushes after the line ends: the last run, if any, then `0` if
      nothing was pushed. */
  function Finish(s: Scan): seq<nat>
  {
    var p := if s.currentRun > 0 then s.pushed + [s.currentRun] else s.pushed;
    if p == [] then [0] else p
  }

  lemma {:induction false} ScanLineAppend(line: seq<bool>, filled: bool)
    ensures ScanLine(line + [filled]) == ScanStep(ScanLine(line), filled)
  {
    PrefixOfAppend(line, filled);
  }

  /** The scan is a run-length encoder: the pushed clues followed by the run
      being counted are the run lengths read so far, and a run is being
      counted exactly when the last cell read is filled. */
  lemma {:induction false} ScanLineRuns(line: seq<bool>)
    ensures var s := ScanLine(line);
            (if s.currentRun > 0 then s.pushed + [s.currentRun] else s.pushed) == RunLengths(line) &&
            (s.currentRun > 0 <==> line != [] && line[|line| - 1])
  {
    if line != [] {
      var t := line[..|line| - 1];
      ScanLineRuns(t);
      assert line == t + [line[|line| - 1]];
      if line[|line| - 1] {
        RunsAppendTrue(t);
        var s := ScanLine(t);
        if s.currentRun > 0 {
          assert (s.pushed + [s.currentRun])[..|s.pushed|] == s.pushed;
        }
      } else {
        RunsAppendFalse(t);
      }
    }
  }

  /** Finishing the scan of a line gives that line's clue list. */
  lemma {:induction false} ScanLineClues(line: seq<bool>)
    ensures Finish(ScanLine(line)) == Clues(line)
  {
    ScanLineRuns(line);
  }

  class NonogramGenerator {
    const size: nat
    var grid: array2<bool>

    /** The grid is `size` rows of `size` cells. */
    predicate Valid()
      reads this
    {
      grid.Length0 == size && grid.Length1 == size
    }

    /** No cell of the grid is switched on. */
    predicate Cleared()
      reads this, grid
    {
      forall r, c :: 0 <= r < grid.Length0 && 0 <= c < grid.Length1 ==> !grid[r, c]
    }

    /** A `size` by `size` grid with every cell off. */
    constructor (size: nat)
      ensures this.size == size
      ensures Valid() && fresh(grid) && Cleared()
    {
      this.size := size;
      grid := new bool[size, size]((_, _) => false);
    }

    /** `clearGrid`: replaces the grid by a new one with every cell off. */
    method ClearGrid()
      modifies this
      ensures Valid() && fresh(grid) && Cleared()
    {
      grid := new bool[size, size]((_, _) => false);
    }

    /** `isValidPosition`: the position names a cell of the grid. */
    function IsValidPosition(row: int, col: int): (b: bool)
      reads this
      ensures Valid() ==> (b <==> 0 <= row < grid.Length0 && 0 <= col < grid.Length1)
    {
      row >= 0 && row < size && col >= 0 && col < size
    }

    /** `drawDiamond`: switches on every cell of the diamond and leaves every
        other cell as it was; no cell is switched off. */
    method DrawDiamond()
      requires Valid()
      modifies grid
      ensures forall r, c :: 0 <= r < size && 0 <= c < size ==>
                grid[r, c] == (old(grid[r, c]) || InDiamond(size, r, c))
    {
      var center := size / 2;
      var radius := DiamondRadius(size);
      for row := 0 to size
        invariant forall r, c :: 0 <= r < size && 0 <= c < size ==>
                    grid[r, c] == (old(grid[r, c]) || (r < row && InDiamond(size, r, c)))
      {
        for col := 0 to size
          invariant forall r, c :: 0 <= r < size && 0 <= c < size ==>
                      grid[r, c] == (old(grid[r, c]) ||
                                     ((r < row || (r == row && c < col)) && InDiamond(size, r, c)))
        {
          var distance := Abs(row - center) + Abs(col - center);
          if distance <= radius {
            grid[row, col] := true;
          }
        }
      }
    }

    /** `drawFrame`: switches on every cell within the border width of an
        edge and leaves every other cell as it was; no cell is switched off. */
    method DrawFrame()
      requires Valid()
      modifies grid
      ensures forall r, c :: 0 <= r < size && 0 <= c < size ==>
                grid[r, c] == (old(grid[r, c]) || InFrame(size, r, c))
    {
      var borderWidth := BorderWidth(size);
      for row := 0 to size
        invariant forall r, c :: 0 <= r < size && 0 <= c < size ==>
                    grid[r, c] == (old(grid[r, c]) || (r < row && InFrame(size, r, c)))
      {
        for col := 0 to size
          invariant forall r, c :: 0 <= r < size && 0 <= c < size ==>
                      grid[r, c] == (old(grid[r, c]) ||
                                     ((r < row || (r == row && c < col)) && InFrame(size, r, c)))
        {
          if row < borderWidth || row >= size - borderWidth ||
             col < borderWidth || col >= size - borderWidth {
            grid[row, col] := true;
          }
        }
      }
    }

    /** The first `n` cells of row `row`, left to right. */
    function RowPrefix(row: nat, n: nat): (s: seq<bool>)
      reads this, grid
      requires Valid() && row < size && n <= size
      ensures |s| == n
      ensures forall c :: 0 <= c < n ==> s[c] == grid[row, c]
    {
      if n == 0 then [] else RowPrefix(row, n - 1) + [grid[row, n - 1]]
    }

    /** The first `n` cells of column `col`, top to bottom. */
    function ColumnPrefix(col: nat, n: nat): (s: seq<bool>)
      reads this, grid
      requires Valid() && col < size && n <= size
      ensures |s| == n
      ensures forall r :: 0 <= r < n ==> s[r] == grid[r, col]
    {
      if n == 0 then [] else ColumnPrefix(col, n - 1) + [grid[n - 1, col]]
    }

    /** One pass of the row loop of `generateClues`: counts the current run
        along the row, pushes it when an empty cell or the end closes it, and
        pushes `0` when the row had none. */
    method RowClues(row: nat) returns (clues: seq<nat>)
      requires Valid() && row < size
      ensures clues == Clues(RowPrefix(row, size))
    {
      clues := [];
      var currentRun: nat := 0;
      for col := 0 to size
        invariant Scan(clues, currentRun) == ScanLine(RowPrefix(row, col))
      {
        ScanLineAppend(RowPrefix(row, col), grid[row, col]);
        if grid[row, col] {
          currentRun := currentRun + 1;
        } else {
          if currentRun > 0 {
            clues := clues + [currentRun];
            currentRun := 0;
          }
        }
      }
      ScanLineClues(RowPrefix(row, size));
      if currentRun > 0 {
        clues := clues + [currentRun];
      }
      if |clues| == 0 {
        clues := [0];
      }
    }

    /** One pass of the column loop of `generateClues`, top to bottom. */
    method ColumnClues(col: nat) returns (clues: seq<nat>)
      requires Valid() && col < size
      ensures clues == Clues(ColumnPrefix(col, size))
    {
      clues := [];
      var currentRun: nat := 0;
      for row := 0 to size
        invariant Scan(clues, currentRun) == ScanLine(ColumnPrefix(col, row))
      {
        ScanLineAppend(ColumnPrefix(col, row), grid[row, col]);
        if grid[row, col] {
          currentRun := currentRun + 1;
        } else {
          if currentRun > 0 {
            clues := clues + [currentRun];
            currentRun := 0;
          }
        }
      }
      ScanLineClues(ColumnPrefix(col, size));
      if currentRun > 0 {
        clues := clues + [currentRun];
      }
      if |clues| == 0 {
        clues := [0];
      }
    }

    /** `generateClues`: one clue list per row, left to right, and one per
        column, top to bottom; each is the run lengths of its line, or `[0]`
        for a line with no filled cell. */
    method GenerateClues() returns (colText: seq<seq<nat>>, rowText: seq<seq<nat>>)
      requires Valid()
      ensures |rowText| == size && |colText| == size
      ensures forall r :: 0 <= r < size ==> rowText[r] == Clues(RowPrefix(r, size))
      ensures forall c :: 0 <= c < size ==> colText[c] == Clues(ColumnPrefix(c, size))
    {
      rowText := [];
      for row := 0 to size
        invariant |rowText| == row
        invariant forall r :: 0 <= r < row ==> rowText[r] == Clues(RowPrefix(r, size))
      {
        var clues := RowClues(row);
        rowText := rowText + [clues];
      }
      colText := [];
      for col := 0 to size
        invariant |colText| == col
        invariant forall c :: 0 <= c < col ==> colText[c] == Clues(ColumnPrefix(c, size))
      {
        var clues := ColumnClues(col);
        colText := colText + [clues];
      }
    }

    /** `validateSolvability` of the subclass `AdvancedNonogramGenerator`:
        scans the column clue lists, then the row clue lists, and answers
        `false` at the first list that needs more than `size` cells. */
    method ValidateSolvability(puzzle: CluePuzzle) returns (ok: bool)
      ensures ok <==> AllFit(puzzle.colText, size) && AllFit(puzzle.rowText, size)
    {
      for i := 0 to |puzzle.colText|
        invariant forall j :: 0 <= j < i ==> SpaceNeeded(puzzle.colText[j]) <= size
      {
        var colClues := puzzle.colText[i];
        var minSpaceNeeded := Sum(colClues) + Separators(colClues);
        if minSpaceNeeded > size {
          return false;
        }
      }
      for i := 0 to |puzzle.rowText|
        invariant forall j :: 0 <= j < i ==> SpaceNeeded(puzzle.rowText[j]) <= size
      {
        var rowClues := puzzle.rowText[i];
        var minSpaceNeeded := Sum(rowClues) + Separators(rowClues);
        if minSpaceNeeded > size {
          return false;
        }
      }
      return true;
    }

    /** The clues `generateClues` reads from any grid are well formed and
        always pass `validateSolvability`. */
    lemma GeneratedCluesFit(colText: seq<seq<nat>>, rowText: seq<seq<nat>>)
      requires Valid()
      requires |rowText| == size && |colText| == size
      requires forall r :: 0 <= r < size ==> rowText[r] == Clues(RowPrefix(r, size))
      requires forall c :: 0 <= c < size ==> colText[c] == Clues(ColumnPrefix(c, size))
      ensures AllFit(colText, size) && AllFit(rowText, size)
      ensures forall r :: 0 <= r < size ==> WellFormed(rowText[r])
      ensures forall c :: 0 <= c < size ==> WellFormed(colText[c])
    {
      forall r | 0 <= r < size
        ensures SpaceNeeded(rowText[r]) <= size && WellFormed(rowText[r])
      {
        CluesFit(RowPrefix(r, size));
        CluesSpec(RowPrefix(r, size));
      }
      forall c | 0 <= c < size
        ensures SpaceNeeded(colText[c]) <= size && WellFormed(colText[c])
      {
        CluesFit(ColumnPrefix(c, size));
        CluesSpec(ColumnPrefix(c, size));
      }
    }
  }
}
