/** `Solver` (src/generator/solver.ts): line-by-line deduction over a puzzle's
    cells.  The deduced value of a cell is its `aiSolution`; the solver's lines
    hold positions in the puzzle's cell list, so the row and the column through
    a cell see every write to it. */
module Solving {
  import opened Wrappers
  import opened PuzzleCells
  import opened PuzzleLines
  import opened Puzzles
  import opened LineLogic
  import Utility

  // ---- the lines `_reset` builds ----

  /** Start offsets without repeats, each inside a line of length `n`. */
  predicate StartsWellFormed(ps: seq<nat>, n: int)
  {
    NoDuplicates(ps) && forall i :: 0 <= i < |ps| ==> ps[i] < n
  }

  /** A row line covers the cells of its row, a column line those of its
      column; `minimumSectionLength` is as accumulated from the clues. */
  predicate LineShape(l: Line, width: nat, height: nat)
  {
    (if l.lineType == Row then
       0 <= l.index < height && l.length == width && l.cells == RowIndices(l.index, width)
     else
       l.lineType == Column && 0 <= l.index < width && l.length == height &&
       l.cells == ColumnIndices(l.index, width, height)) &&
    l.minimumSectionLength == MinimumLength(l.sections) &&
    forall j :: 0 <= j < |l.sections| ==> StartsWellFormed(l.sections[j].possibleStartIndexes, l.length)
  }

  /** Line `k` is row `k` for the first `height` lines and column
      `k - height` after them, with the shape of that row or column. */
  predicate LineAt(l: Line, k: nat, width: nat, height: nat)
  {
    (if k < height then l.lineType == Row && l.index == k
     else l.lineType == Column && l.index == k - height) &&
    LineShape(l, width, height)
  }

  /** The rows in order, then the columns in order. */
  predicate LinesLayout(lines: seq<Line>, width: nat, height: nat)
  {
    |lines| == height + width && forall k :: 0 <= k < |lines| ==> LineAt(lines[k], k, width, height)
  }

  /** The layout, and a line is marked solved exactly when all its cells are decided. */
  predicate LinesValid(lines: seq<Line>, cells: seq<Cell>, width: nat, height: nat)
  {
    LinesLayout(lines, width, height) &&
    forall k :: 0 <= k < |lines| ==> (lines[k].solved <==> AllDecided(View(cells, lines[k].cells)))
  }

  /** The test `_setCellSolution` uses to find the lines through a cell. */
  predicate Matches(l: Line, cell: Cell)
  {
    (l.lineType == Row && l.index == cell.row) || (l.lineType == Column && l.index == cell.column)
  }

  lemma LineCellsInRange(l: Line, width: nat, height: nat)
    requires LineShape(l, width, height) && width >= 1 && height >= 1
    ensures |l.cells| == l.length
    ensures forall p :: 0 <= p < |l.cells| ==> l.cells[p] < width * height
    ensures NoDuplicates(l.cells)
  {
    if l.lineType == Row {
      forall p | 0 <= p < |l.cells| ensures l.cells[p] < width * height {
        RowPositionsInRange(l.index, p, width, height);
      }
    } else {
      forall p | 0 <= p < |l.cells| ensures l.cells[p] < width * height {
        RowPositionsInRange(p, l.index, width, height);
      }
      forall p, q | 0 <= p < q < |l.cells| ensures l.cells[p] != l.cells[q] {
        if l.cells[p] == l.cells[q] {
          PositionUnique(p, l.index, q, l.index, width);
        }
      }
    }
  }

  /** A cell lies on a line exactly when the line's row or column is the cell's. */
  lemma MatchesIffOnLine(l: Line, width: nat, height: nat, cell: Cell, i: nat)
    requires LineShape(l, width, height) && CellAt(cell, i, width, height)
    ensures Matches(l, cell) <==> i in l.cells
  {
    if l.lineType == Row {
      if i in l.cells {
        var p :| 0 <= p < |l.cells| && l.cells[p] == i;
        PositionUnique(cell.row, cell.column, l.index, p, width);
      }
      if cell.row == l.index {
        assert l.cells[cell.column] == i;
      }
    } else {
      if i in l.cells {
        var p :| 0 <= p < |l.cells| && l.cells[p] == i;
        PositionUnique(cell.row, cell.column, p, l.index, width);
      }
      if cell.column == l.index {
        assert l.cells[cell.row] == i;
      }
    }
  }

  /** What `_setCellSolution` needs of the lines of a well-laid list: their
      positions are in range, and a line passes through cell `i` exactly when
      it matches that cell's row or column. */
  lemma LinesThroughCell(lines: seq<Line>, width: nat, height: nat, cell: Cell, i: nat)
    requires LinesLayout(lines, width, height) && width >= 1 && height >= 1
    requires CellAt(cell, i, width, height)
    ensures forall k :: 0 <= k < |lines| ==>
              |lines[k].cells| == lines[k].length &&
              (forall p :: 0 <= p < |lines[k].cells| ==> lines[k].cells[p] < width * height) &&
              (Matches(lines[k], cell) <==> i in lines[k].cells)
  {
    forall k | 0 <= k < |lines|
      ensures |lines[k].cells| == lines[k].length
      ensures forall p :: 0 <= p < |lines[k].cells| ==> lines[k].cells[p] < width * height
      ensures Matches(lines[k], cell) <==> i in lines[k].cells
    {
      LineCellsInRange(lines[k], width, height);
      MatchesIffOnLine(lines[k], width, height, cell, i);
    }
  }

  // ---- writing one cell ----

  /** The cell list after deciding cell `c` as `value`: a cell already
      decided keeps its value. */
  function Written(cells: seq<Cell>, c: nat, value: Tri): (r: seq<Cell>)
    requires c < |cells|
    ensures |r| == |cells|
    ensures forall i :: 0 <= i < |cells| && i != c ==> r[i] == cells[i]
    ensures r[c].aiSolution == (if cells[c].aiSolution == Unknown then value else cells[c].aiSolution)
  {
    if cells[c].aiSolution == Unknown then cells[c := cells[c].(aiSolution := value)] else cells
  }

  /** `b` is `a` with some undecided cells decided: no other field and no
      decided value changes. */
  predicate Grows(a: seq<Cell>, b: seq<Cell>)
  {
    |a| == |b| &&
    forall i :: 0 <= i < |a| ==>
      b[i] == a[i].(aiSolution := b[i].aiSolution) &&
      (a[i].aiSolution != Unknown ==> b[i].aiSolution == a[i].aiSolution)
  }

  lemma GrowsTransitive(a: seq<Cell>, b: seq<Cell>, c: seq<Cell>)
    requires Grows(a, b) && Grows(b, c)
    ensures Grows(a, c)
  {
  }

  /** `b` only differs from `a` in the solved flags of its lines. */
  predicate FlagsOnly(a: seq<Line>, b: seq<Line>)
  {
    |a| == |b| && forall k :: 0 <= k < |a| ==> b[k] == a[k].(solved := b[k].solved)
  }

  /** Number of decided cells among positions `idx`. */
  function CountDecided(cells: seq<Cell>, idx: seq<nat>): nat
  {
    if idx == [] then 0
    else
      var i := idx[|idx| - 1];
      CountDecided(cells, idx[..|idx| - 1]) + (if i < |cells| && cells[i].aiSolution != Unknown then 1 else 0)
  }

  /** The count reaches the number of positions exactly when every one of them is decided. */
  lemma {:induction false} CountDecidedAll(cells: seq<Cell>, idx: seq<nat>)
    requires forall p :: 0 <= p < |idx| ==> idx[p] < |cells|
    ensures CountDecided(cells, idx) <= |idx|
    ensures CountDecided(cells, idx) == |idx| <==> AllDecided(View(cells, idx))
  {
    if idx != [] {
      var q := idx[..|idx| - 1];
      CountDecidedAll(cells, q);
      assert forall p :: 0 <= p < |q| ==> View(cells, q)[p] == View(cells, idx)[p];
    }
  }

  /** Writing one cell only changes the views of the lines through it. */
  lemma ViewAfterWrite(cells: seq<Cell>, c: nat, value: Tri, idx: seq<nat>)
    requires c < |cells| && c !in idx
    ensures View(Written(cells, c, value), idx) == View(cells, idx)
  {
  }

  /** Line flags after a write of an undecided cell, as `_setCellSolution`
      leaves them, satisfy the invariant again. */
  lemma WriteKeepsValid(lines0: seq<Line>, lines: seq<Line>, cells: seq<Cell>, c: nat, value: Tri,
                        width: nat, height: nat)
    requires LinesValid(lines0, cells, width, height) && width >= 1 && height >= 1
    requires c < |cells| && cells[c].aiSolution == Unknown && value != Unknown
    requires FlagsOnly(lines0, lines)
    requires forall k :: 0 <= k < |lines| ==>
               lines[k].solved == (lines0[k].solved ||
                                   (c in lines0[k].cells && AllDecided(View(Written(cells, c, value), lines0[k].cells))))
    ensures LinesValid(lines, Written(cells, c, value), width, height)
  {
    var w := Written(cells, c, value);
    forall k | 0 <= k < |lines|
      ensures lines[k].solved <==> AllDecided(View(w, lines[k].cells))
    {
      if c in lines0[k].cells {
        var p :| 0 <= p < |lines0[k].cells| && lines0[k].cells[p] == c;
        LineCellsInRange(lines0[k], width, height);
        assert View(cells, lines0[k].cells)[p] == Unknown;
      } else {
        ViewAfterWrite(cells, c, value, lines0[k].cells);
      }
    }
  }

  // ---- the state `_reset` builds ----

  /** Every offset of a line of length `n`, in order. */
  function Offsets(n: nat): (r: seq<nat>)
    ensures |r| == n && forall i :: 0 <= i < n ==> r[i] == i
  {
    seq(n, i requires 0 <= i < n => i)
  }

  /** One section per clue, each still free to start anywhere on the line. */
  function InitialSections(hints: seq<nat>, n: nat): (r: seq<Section>)
    ensures |r| == |hints|
  {
    seq(|hints|, i requires 0 <= i < |hints| => Section(i, hints[i], Offsets(n), [], false))
  }

  /** The unsolved line `_reset` builds from a clue list. */
  function InitialLine(lineType: LineType, index: nat, n: nat, cells: seq<nat>, hints: seq<nat>): Line
  {
    Line(lineType, index, n, MinimumLength(InitialSections(hints, n)), InitialSections(hints, n), cells, false)
  }

  /** The lines `_reset` builds: one per row, then one per column. */
  function InitialLines(rowHints: seq<seq<nat>>, columnHints: seq<seq<nat>>, width: nat, height: nat): (r: seq<Line>)
    requires |rowHints| == height && |columnHints| == width
    ensures |r| == height + width
  {
    seq(height, k requires 0 <= k < height => InitialLine(Row, k, width, RowIndices(k, width), rowHints[k])) +
    seq(width, k requires 0 <= k < width => InitialLine(Column, k, height, ColumnIndices(k, width, height), columnHints[k]))
  }

  /** Every cell undecided, nothing else changed. */
  function Cleared(cells: seq<Cell>): (r: seq<Cell>)
    ensures |r| == |cells|
  {
    seq(|cells|, i requires 0 <= i < |cells| => cells[i].(aiSolution := Unknown))
  }

  /** After a reset the layout invariant holds and no line is solved. */
  lemma InitialLinesValid(rowHints: seq<seq<nat>>, columnHints: seq<seq<nat>>, cells: seq<Cell>,
                          width: nat, height: nat)
    requires |rowHints| == height && |columnHints| == width && width >= 1 && height >= 1
    requires |cells| == width * height
    ensures LinesValid(InitialLines(rowHints, columnHints, width, height), Cleared(cells), width, height)
  {
    var lines := InitialLines(rowHints, columnHints, width, height);
    forall k | 0 <= k < |lines|
      ensures LineShape(lines[k], width, height) && !AllDecided(View(Cleared(cells), lines[k].cells))
    {
      var l := lines[k];
      InitialLinesAt(rowHints, columnHints, width, height, k);
      assert l.length >= 1;
      forall j | 0 <= j < |l.sections| ensures StartsWellFormed(l.sections[j].possibleStartIndexes, l.length) {
        assert l.sections[j].possibleStartIndexes == Offsets(l.length);
      }
      assert LineShape(l, width, height);
      LineCellsInRange(l, width, height);
      assert View(Cleared(cells), l.cells)[0] == Unknown;
    }
  }

  /** Pushing the next element of `all` onto a prefix of it. */
  lemma PushPrefix<T>(prefix: seq<T>, all: seq<T>, k: nat)
    requires k < |all| && prefix == all[..k]
    ensures prefix + [all[k]] == all[..k + 1]
  {
  }

  lemma InitialLinesAt(rowHints: seq<seq<nat>>, columnHints: seq<seq<nat>>, width: nat, height: nat, k: nat)
    requires |rowHints| == height && |columnHints| == width && k < height + width
    ensures k < height ==>
              InitialLines(rowHints, columnHints, width, height)[k] ==
              InitialLine(Row, k, width, RowIndices(k, width), rowHints[k])
    ensures height <= k ==>
              InitialLines(rowHints, columnHints, width, height)[k] ==
              InitialLine(Column, k - height, height, ColumnIndices(k - height, width, height), columnHints[k - height])
  {
  }

  /** The inner loops of `_reset`: a new line of the given type and cells
      receives one section per clue and accumulates `minimumSectionLength`
      as the clue lengths plus one gap after each, less one. */
  method LineFromClues(lineType: LineType, index: nat, n: nat, cells: seq<nat>, hints: seq<nat>,
                       possibleIndexes: seq<nat>) returns (line: Line)
    requires possibleIndexes == Offsets(n)
    ensures line == InitialLine(lineType, index, n, cells, hints)
  {
    line := NewLine(Some(LineParams(Some(lineType), Some(index), Some(n), None, None, Some(cells), None)));
    var k := 0;
    while k < |hints|
      invariant 0 <= k <= |hints|
      invariant line == InitialLine(lineType, index, n, cells, hints[..k]).(minimumSectionLength := Span(InitialSections(hints[..k], n)))
    {
      var len := hints[k];
      ghost var before := line.sections;
      line := line.(sections := line.sections + [Section(k, len, possibleIndexes, [], false)]);
      line := line.(minimumSectionLength := line.minimumSectionLength + len + 1);
      assert line.sections[..|line.sections| - 1] == before;
      assert hints[..k + 1][..k] == hints[..k];
      assert line.sections == InitialSections(hints[..k + 1], n);
      k := k + 1;
    }
    assert hints[..k] == hints;
    line := line.(minimumSectionLength := line.minimumSectionLength - 1);
  }

  /** The view of a line after deciding the cell at its position `p`. */
  lemma WriteOnView(cells: seq<Cell>, idx: seq<nat>, p: nat, value: Tri)
    requires p < |idx| && NoDuplicates(idx) && forall q :: 0 <= q < |idx| ==> idx[q] < |cells|
    ensures View(Written(cells, idx[p], value), idx) == Decide(View(cells, idx), p, value)
  {
  }

  /** Deciding a cell only decides it. */
  lemma WriteGrows(cells: seq<Cell>, c: nat, value: Tri)
    requires c < |cells| && value != Unknown
    ensures Grows(cells, Written(cells, c, value))
  {
  }

  /** Cells off positions `idx` are as in `a`. */
  predicate SameOutside(a: seq<Cell>, b: seq<Cell>, idx: seq<nat>)
  {
    |a| == |b| && forall i :: 0 <= i < |a| && i !in idx ==> b[i] == a[i]
  }

  lemma SameOutsideTransitive(a: seq<Cell>, b: seq<Cell>, c: seq<Cell>, idx: seq<nat>)
    requires SameOutside(a, b, idx) && SameOutside(b, c, idx)
    ensures SameOutside(a, c, idx)
  {
  }

  // ---- narrowing the starts of a section ----

  /** Removing a start from the list being kept: the start goes if it is
      still there, and nothing else changes. */
  lemma RemoveStartSpec(kept: seq<nat>, s: nat, rest: seq<nat>, gone: bool)
    requires s !in kept && s !in rest
    ensures Utility.RemoveFirst(kept + (if gone then [] else [s]) + rest, s) == kept + rest
  {
    if gone {
      Utility.RemoveFirstSpec(kept + rest, s);
    } else {
      Utility.RemoveFirstAt(kept, s, rest);
    }
  }

  /** The start at `t` is neither among the survivors of the starts before it
      nor among the starts after it. */
  lemma StartApart(ps: seq<nat>, t: nat, a: seq<Tri>, len: nat, lo: int, hi: int)
    requires NoDuplicates(ps) && t < |ps|
    ensures ps[t] !in Survivors(ps[..t], a, len, lo, hi) && ps[t] !in ps[t + 1..]
    ensures ps[t..] == [ps[t]] + ps[t + 1..]
  {
  }

  /** Elimination keeps the shape of a line: the clue lengths stay, and each
      section's starts shrink to a sub-list. */
  lemma EliminatedShape(l: Line, width: nat, height: nat, a: seq<Tri>)
    requires LineShape(l, width, height)
    ensures LineShape(l.(sections := Eliminated(a, l.minimumSectionLength, l.sections)), width, height)
  {
    var l' := l.(sections := Eliminated(a, l.minimumSectionLength, l.sections));
    SpanOfLengths(l.sections, l'.sections);
    EliminatedStarts(l, a);
  }

  /** Elimination keeps every section's starts free of repeats and on the line. */
  lemma EliminatedStarts(l: Line, a: seq<Tri>)
    requires forall j :: 0 <= j < |l.sections| ==> StartsWellFormed(l.sections[j].possibleStartIndexes, l.length)
    ensures var r := Eliminated(a, l.minimumSectionLength, l.sections);
            forall j :: 0 <= j < |r| ==> StartsWellFormed(r[j].possibleStartIndexes, l.length)
  {
    var r := Eliminated(a, l.minimumSectionLength, l.sections);
    forall j | 0 <= j < |r|
      ensures StartsWellFormed(r[j].possibleStartIndexes, l.length)
    {
      var sec := l.sections[j];
      assert StartsWellFormed(sec.possibleStartIndexes, l.length);
      SurvivorsSubList(sec.possibleStartIndexes, a, sec.length,
                       WindowLow(a, l.sections, j), WindowHigh(a, l.minimumSectionLength, l.sections, j));
    }
  }

  /** Replacing a line by one of the same shape, type, index and cells, and
      the same solved flag, keeps the lines valid. */
  lemma ReplaceKeepsValid(lines: seq<Line>, cells: seq<Cell>, width: nat, height: nat, k: nat, l: Line)
    requires LinesValid(lines, cells, width, height) && k < |lines|
    requires LineShape(l, width, height) && l.lineType == lines[k].lineType && l.index == lines[k].index
    requires l.cells == lines[k].cells && l.solved == lines[k].solved
    ensures LinesValid(lines[k := l], cells, width, height)
  {
  }

  /** One turn of the section loop of `eliminateImpossibleFits`: narrowing
      section `j` to its survivors moves the eliminated prefix on by one. */
  lemma NarrowStep(lines1: seq<Line>, k: nat, line: Line, a: seq<Tri>, j: nat, r: seq<nat>)
    requires k < |lines1| && j < |line.sections|
    requires r == Survivors(line.sections[j].possibleStartIndexes, a, line.sections[j].length,
                            WindowLow(a, line.sections, j), WindowHigh(a, line.minimumSectionLength, line.sections, j))
    ensures Narrowed(lines1[k := line.(sections := EliminatedBefore(a, line.minimumSectionLength, line.sections, j))], k, j, r) ==
            lines1[k := line.(sections := EliminatedBefore(a, line.minimumSectionLength, line.sections, j + 1))]
  {
    EliminatedNext(a, line.minimumSectionLength, line.sections, j);
  }

  // ---- counting covers ----

  /** `totals` holds, for each of the `n` cells, the number of covers by the
      starts of the first `j` sections. */
  predicate CoversUpTo(totals: seq<nat>, sections: seq<Section>, j: nat, n: nat)
    requires j <= |sections|
  {
    |totals| == n && forall p :: 0 <= p < n ==> totals[p] == TotalCover(sections[..j], p)
  }

  lemma CoversDone(totals: seq<nat>, sections: seq<Section>, j: nat, n: nat)
    requires j == |sections| && CoversUpTo(totals, sections, j, n)
    ensures CoversUpTo(totals, sections, |sections|, n)
  {
  }

  /** The counting loops of `findKnownPositivesAndNegatives` for one section
      (starts `ps`, clue `len`) over a line of `n` cells: every cell of every
      placement adds one to the section's count and to the running total.
      Cells past the end of the line are not counted (the source's arrays
      grow there, and those entries are never read as cells). */
  method CountCovers(ps: seq<nat>, len: nat, n: nat, totalCellCounts: seq<nat>)
    returns (cellCounts: seq<nat>, totals: seq<nat>)
    requires |totalCellCounts| == n
    ensures |cellCounts| == n && |totals| == n
    ensures forall p :: 0 <= p < n ==> cellCounts[p] == CoverCount(ps, len, p)
    ensures forall p :: 0 <= p < n ==> totals[p] == totalCellCounts[p] + CoverCount(ps, len, p)
  {
    cellCounts := Utility.ZeroFilled(n);
    totals := totalCellCounts;
    var startIndexKey := 0;
    while startIndexKey < |ps|
      invariant 0 <= startIndexKey <= |ps|
      invariant |cellCounts| == n && |totals| == n
      invariant forall p :: 0 <= p < n ==> cellCounts[p] == CoverCount(ps[..startIndexKey], len, p)
      invariant forall p :: 0 <= p < n ==> totals[p] == totalCellCounts[p] + CoverCount(ps[..startIndexKey], len, p)
    {
      var start := ps[startIndexKey];
      var end := start + len - 1;
      var i := start;
      while i <= end
        invariant start <= i <= end + 1 || (i == start && end < start)
        invariant |cellCounts| == n && |totals| == n
        invariant forall p :: 0 <= p < n ==>
                    cellCounts[p] == CoverCount(ps[..startIndexKey], len, p) + (if start <= p < i then 1 else 0)
        invariant forall p :: 0 <= p < n ==>
                    totals[p] == totalCellCounts[p] + CoverCount(ps[..startIndexKey], len, p) + (if start <= p < i then 1 else 0)
      {
        if i < n {
          cellCounts := cellCounts[i := cellCounts[i] + 1];
          totals := totals[i := totals[i] + 1];
        }
        i := i + 1;
      }
      assert ps[..startIndexKey + 1][..startIndexKey] == ps[..startIndexKey];
      startIndexKey := startIndexKey + 1;
    }
    assert ps[..startIndexKey] == ps;
  }

  /** `lines` with the starts of section `j` of line `k` replaced by `r`. */
  function Narrowed(lines: seq<Line>, k: nat, j: nat, r: seq<nat>): (n: seq<Line>)
    requires k < |lines| && j < |lines[k].sections|
    ensures |n| == |lines|
  {
    lines[k := lines[k].(sections := lines[k].sections[j := lines[k].sections[j].(possibleStartIndexes := r)])]
  }

  /** Deciding a cell moves no cell. */
  lemma WriteKeepsPositions(cells: seq<Cell>, c: nat, value: Tri, width: nat, height: nat)
    requires c < |cells| && forall i :: 0 <= i < |cells| ==> CellAt(cells[i], i, width, height)
    ensures forall i :: 0 <= i < |cells| ==> CellAt(Written(cells, c, value)[i], i, width, height)
  {
  }

  /** `i` moved into `0..n`. */
  function Clamp(i: int, n: nat): (r: nat)
    ensures r <= n && (0 <= i <= n ==> r == i)
  {
    if i < 0 then 0 else if i > n then n else i
  }

  /** Marking a section solved keeps the shape of its line. */
  lemma SolvedFlagKeepsShape(l: Line, j: nat, width: nat, height: nat)
    requires LineShape(l, width, height) && j < |l.sections|
    ensures LineShape(l.(sections := l.sections[j := l.sections[j].(solved := true)]), width, height)
  {
    SpanOfLengths(l.sections, l.sections[j := l.sections[j].(solved := true)]);
  }

  /** The first loop of `findCompletedLines`: the sum of the clue lengths. */
  method SumSectionLengths(sections: seq<Section>) returns (totalSectionLength: nat)
    ensures totalSectionLength == SumLengths(sections)
  {
    totalSectionLength := 0;
    var sectionKey := 0;
    while sectionKey < |sections|
      invariant 0 <= sectionKey <= |sections|
      invariant totalSectionLength == SumLengths(sections[..sectionKey])
    {
      assert sections[..sectionKey + 1][..sectionKey] == sections[..sectionKey];
      totalSectionLength := totalSectionLength + sections[sectionKey].length;
      sectionKey := sectionKey + 1;
    }
    assert sections[..sectionKey] == sections;
  }

  /** The bookkeeping of one closed chain in `findSectionDefiningChains`:
      closing chain `j` of the view `v0` of line `k`, as long as the first
      longest section, and marking that section extends the turn-by-turn
      state by one turn. */
  lemma ChainClosed(lines0: seq<Line>, lines1: seq<Line>, lines2: seq<Line>,
                    cells0: seq<Cell>, cells1: seq<Cell>, cells2: seq<Cell>,
                    k: nat, chains: seq<Chain>, j: nat, v0: seq<Tri>)
    requires k < |lines0| && |lines0[k].sections| > 0 && j < |chains|
    requires chains[j].length == lines0[k].sections[LongestSection(lines0[k].sections)].length
    requires FlagsOnly(lines0[k := lines0[k].(sections := MarkLongestIf(lines0[k].sections, FoundUpTo(chains, LongestLength(lines0[k].sections), j)))], lines1)
    requires Grows(cells0, cells1) && SameOutside(cells0, cells1, lines0[k].cells)
    requires View(cells1, lines0[k].cells) == CappedChainsUpTo(v0, chains, LongestLength(lines0[k].sections), j)
    requires var l := LongestSection(lines0[k].sections);
             FlagsOnly(lines1[k := lines1[k].(sections := lines1[k].sections[l := lines1[k].sections[l].(solved := true)])], lines2)
    requires Grows(cells1, cells2) && SameOutside(cells1, cells2, lines2[k].cells)
    requires View(cells2, lines2[k].cells) ==
             DecideIfOn(DecideIfOn(View(cells1, lines1[k].cells), chains[j].start - 1, Empty), chains[j].start + chains[j].length, Empty)
    ensures FlagsOnly(lines0[k := lines0[k].(sections := MarkLongestIf(lines0[k].sections, FoundUpTo(chains, LongestLength(lines0[k].sections), j + 1)))], lines2)
    ensures Grows(cells0, cells2) && SameOutside(cells0, cells2, lines0[k].cells)
    ensures View(cells2, lines0[k].cells) == CappedChainsUpTo(v0, chains, LongestLength(lines0[k].sections), j + 1)
  {
    var sections := lines0[k].sections;
    MarkLongestAgain(sections, FoundUpTo(chains, LongestLength(sections), j));
    CappedChainsNext(v0, chains, LongestLength(sections), j);
    SameOutsideTransitive(cells0, cells1, cells2, lines0[k].cells);
  }

  // ---- progress of a solve ----

  /** Section `t` is section `s` after deductions: only its start offsets and
      its solved mark may change, the offsets can only go, and a solved mark stays. */
  predicate SectionNarrower(s: Section, t: Section)
  {
    t == s.(possibleStartIndexes := t.possibleStartIndexes, solved := t.solved) &&
    |t.possibleStartIndexes| <= |s.possibleStartIndexes| &&
    (s.solved ==> t.solved)
  }

  /** `b` is `a` after deductions: the same lines over the same cells with the
      same clues, each section narrowed as `SectionNarrower` says. */
  predicate Narrower(a: seq<Line>, b: seq<Line>)
  {
    |a| == |b| &&
    forall k :: 0 <= k < |a| ==>
      b[k] == a[k].(solved := b[k].solved, sections := b[k].sections) &&
      |b[k].sections| == |a[k].sections| &&
      forall j :: 0 <= j < |a[k].sections| ==> SectionNarrower(a[k].sections[j], b[k].sections[j])
  }

  lemma NarrowerTransitive(a: seq<Line>, b: seq<Line>, c: seq<Line>)
    requires Narrower(a, b) && Narrower(b, c)
    ensures Narrower(a, c)
  {
  }

  /** Changing only solved flags narrows nothing. */
  lemma FlagsOnlyNarrower(a: seq<Line>, b: seq<Line>)
    requires FlagsOnly(a, b)
    ensures Narrower(a, b)
  {
  }

  /** Replacing the sections of line `k` by narrower ones, and then changing
      solved flags, narrows the lines. */
  lemma SectionsNarrower(a: seq<Line>, k: nat, sections: seq<Section>, b: seq<Line>)
    requires k < |a| && |sections| == |a[k].sections|
    requires forall j :: 0 <= j < |sections| ==> SectionNarrower(a[k].sections[j], sections[j])
    requires FlagsOnly(a[k := a[k].(sections := sections)], b)
    ensures Narrower(a, b)
  {
  }

  /** Elimination keeps each section and only drops start offsets. */
  lemma EliminatedNarrower(a: seq<Tri>, minimumSectionLength: int, sections: seq<Section>)
    ensures forall j :: 0 <= j < |sections| ==>
              SectionNarrower(sections[j], Eliminated(a, minimumSectionLength, sections)[j])
  {
  }

  /** Marking the longest section only sets a solved mark. */
  lemma MarkLongestNarrower(sections: seq<Section>, found: bool)
    ensures forall j :: 0 <= j < |sections| ==> SectionNarrower(sections[j], MarkLongestIf(sections, found)[j])
  {
  }

  /** Marking the pinned sections only sets solved marks. */
  lemma MarkPinnedNarrower(sections: seq<Section>)
    ensures forall j :: 0 <= j < |sections| ==> SectionNarrower(sections[j], MarkPinned(sections)[j])
  {
  }

  /** The first part of `_getProgress`: each section of a row could start at
      any of `width` offsets, each section of any other line at any of `height`. */
  function MaxPlacements(lines: seq<Line>, width: nat, height: nat): nat
  {
    if lines == [] then 0
    else
      var l := lines[|lines| - 1];
      MaxPlacements(lines[..|lines| - 1], width, height) + |l.sections| * (if l.lineType == Row then width else height)
  }

  /** The start offsets the sections still allow, counted. */
  function StartsLeft(sections: seq<Section>): nat
  {
    if sections == [] then 0
    else StartsLeft(sections[..|sections| - 1]) + |sections[|sections| - 1].possibleStartIndexes|
  }

  /** `StartsLeft` summed over the lines. */
  function StartsLeftAll(lines: seq<Line>): nat
  {
    if lines == [] then 0
    else StartsLeftAll(lines[..|lines| - 1]) + StartsLeft(lines[|lines| - 1].sections)
  }

  /** `_getProgress`: how many start offsets the deductions have ruled out. */
  function Progress(lines: seq<Line>, width: nat, height: nat): int
  {
    MaxPlacements(lines, width, height) - StartsLeftAll(lines)
  }

  lemma {:induction false} SectionsNarrowerStarts(s: seq<Section>, t: seq<Section>)
    requires |s| == |t| && forall j :: 0 <= j < |s| ==> SectionNarrower(s[j], t[j])
    ensures StartsLeft(t) <= StartsLeft(s)
  {
    if s != [] {
      SectionsNarrowerStarts(s[..|s| - 1], t[..|t| - 1]);
    }
  }

  /** Deductions never lower the progress and never change its ceiling, so
      the progress stays at most `MaxPlacements` of the lines one began with. */
  lemma {:induction false} NarrowerProgress(a: seq<Line>, b: seq<Line>, width: nat, height: nat)
    requires Narrower(a, b)
    ensures MaxPlacements(b, width, height) == MaxPlacements(a, width, height)
    ensures StartsLeftAll(b) <= StartsLeftAll(a)
    ensures Progress(a, width, height) <= Progress(b, width, height) <= MaxPlacements(a, width, height)
  {
    if a != [] {
      var n := |a| - 1;
      assert Narrower(a[..n], b[..n]);
      NarrowerProgress(a[..n], b[..n], width, height);
      SectionsNarrowerStarts(a[n].sections, b[n].sections);
    }
  }

  /** A line marked solved stays marked: its cells only get decided. */
  lemma SolvedStays(a: seq<Line>, cells0: seq<Cell>, b: seq<Line>, cells: seq<Cell>, width: nat, height: nat)
    requires LinesValid(a, cells0, width, height) && LinesValid(b, cells, width, height)
    requires Narrower(a, b) && Grows(cells0, cells)
    ensures forall k :: 0 <= k < |a| && a[k].solved ==> b[k].solved
  {
    forall k | 0 <= k < |a| && a[k].solved
      ensures b[k].solved
    {
      var idx := a[k].cells;
      forall p | 0 <= p < |idx|
        ensures View(cells, idx)[p] != Unknown
      {
        assert View(cells0, idx)[p] != Unknown;
      }
    }
  }

  /** Once every cell is decided, every line is solved. */
  lemma DecidedLinesSolved(lines: seq<Line>, cells: seq<Cell>, width: nat, height: nat)
    requires LinesValid(lines, cells, width, height) && width >= 1 && height >= 1 && |cells| == width * height
    requires forall i :: 0 <= i < |cells| ==> cells[i].aiSolution != Unknown
    ensures forall k :: 0 <= k < |lines| ==> lines[k].solved
  {
    forall k | 0 <= k < |lines|
      ensures lines[k].solved
    {
      LineCellsInRange(lines[k], width, height);
    }
  }

  /** All cells are decided exactly when the decided count reaches the number of cells. */
  lemma AllCellsDecided(cells: seq<Cell>)
    ensures CountDecided(cells, Offsets(|cells|)) <= |cells|
    ensures CountDecided(cells, Offsets(|cells|)) == |cells| <==>
              forall i :: 0 <= i < |cells| ==> cells[i].aiSolution != Unknown
  {
    var idx := Offsets(|cells|);
    CountDecidedAll(cells, idx);
    assert forall i :: 0 <= i < |cells| ==> View(cells, idx)[i] == cells[i].aiSolution;
  }

  class Solver {
    const puzzle: Puzzle
    var lines: seq<Line>
    var isReset: bool

    /** The puzzle's cells are laid out row by row and the lines are as
        `_reset` lays them out, each marked solved exactly when all its cells
        are decided. */
    ghost predicate Valid()
      reads this, puzzle
    {
      puzzle.Laid() && LinesValid(lines, puzzle.cells, puzzle.width, puzzle.height)
    }

    /** `new Solver(puzzle)`: resets the puzzle's deductions and builds the lines. */
    constructor(puzzle: Puzzle)
      requires puzzle.Populated()
      modifies puzzle`cells
      ensures this.puzzle == puzzle && isReset && Valid()
      ensures puzzle.cells == Cleared(old(puzzle.cells))
      ensures lines == InitialLines(puzzle.rowHints, puzzle.columnHints, puzzle.width, puzzle.height)
    {
      this.puzzle := puzzle;
      lines := [];
      isReset := true;
      new;
      Reset();
    }

    /** `_reset`: every cell undecided; one unsolved line per row and per
        column, each section free to start at any offset. */
    method Reset()
      requires puzzle.Populated()
      modifies this`lines, this`isReset, puzzle`cells
      ensures isReset && Valid()
      ensures puzzle.cells == Cleared(old(puzzle.cells))
      ensures lines == InitialLines(puzzle.rowHints, puzzle.columnHints, puzzle.width, puzzle.height)
    {
      isReset := true;
      lines := [];
      ghost var cells0 := puzzle.cells;
      var cellKey := 0;
      while cellKey < |puzzle.cells|
        invariant 0 <= cellKey <= |puzzle.cells| == |cells0|
        invariant forall i :: 0 <= i < cellKey ==> puzzle.cells[i] == cells0[i].(aiSolution := Unknown)
        invariant forall i :: cellKey <= i < |cells0| ==> puzzle.cells[i] == cells0[i]
        modifies puzzle`cells
      {
        puzzle.cells := puzzle.cells[cellKey := puzzle.cells[cellKey].(aiSolution := Unknown)];
        cellKey := cellKey + 1;
      }
      assert puzzle.cells == Cleared(cells0);
      assert puzzle.Populated();
      lines := BuildLines();
      InitialLinesValid(puzzle.rowHints, puzzle.columnHints, cells0, puzzle.width, puzzle.height);
    }

    /** The line-building part of `_reset`: the offset lists, then one line
        per row clue list and one per column clue list, pushed in order. */
    method BuildLines() returns (lines: seq<Line>)
      requires puzzle.Shaped()
      ensures lines == InitialLines(puzzle.rowHints, puzzle.columnHints, puzzle.width, puzzle.height)
    {
      lines := [];
      var width, height := puzzle.width, puzzle.height;
      var possibleRowIndexes: seq<nat> := [];
      var i := 0;
      while i < width
        invariant 0 <= i <= width && possibleRowIndexes == Offsets(i)
      {
        possibleRowIndexes := possibleRowIndexes + [i];
        i := i + 1;
      }
      var possibleColumnIndexes: seq<nat> := [];
      i := 0;
      while i < height
        invariant 0 <= i <= height && possibleColumnIndexes == Offsets(i)
      {
        possibleColumnIndexes := possibleColumnIndexes + [i];
        i := i + 1;
      }
      ghost var all := InitialLines(puzzle.rowHints, puzzle.columnHints, width, height);
      var rowNumber := 0;
      while rowNumber < |puzzle.rowHints|
        invariant 0 <= rowNumber <= height
        invariant lines == all[..rowNumber]
      {
        var rowCells := puzzle.GetRowCells(rowNumber);
        if rowCells.Some? {
          var line := LineFromClues(Row, rowNumber, width, rowCells.value, puzzle.rowHints[rowNumber],
                                    possibleRowIndexes);
          InitialLinesAt(puzzle.rowHints, puzzle.columnHints, width, height, rowNumber);
          PushPrefix(lines, all, rowNumber);
          lines := lines + [line];
        }
        rowNumber := rowNumber + 1;
      }
      var columnKey := 0;
      while columnKey < |puzzle.columnHints|
        invariant 0 <= columnKey <= width
        invariant lines == all[..height + columnKey]
      {
        var columnCells := puzzle.GetColumnCells(columnKey);
        if columnCells.Some? {
          ColumnCellsOfFullGrid(columnKey, width, height, columnCells.value);
          var line := LineFromClues(Column, columnKey, height, columnCells.value, puzzle.columnHints[columnKey],
                                    possibleColumnIndexes);
          InitialLinesAt(puzzle.rowHints, puzzle.columnHints, width, height, height + columnKey);
          PushPrefix(lines, all, height + columnKey);
          lines := lines + [line];
        }
        columnKey := columnKey + 1;
      }
      assert lines == all;
    }

    /** The inner loop of `_setCellSolution` over one line through the cell:
        writes the cell where the line holds it and counts the line's decided
        cells as they are after the write. */
    method WriteOnLine(idx: seq<nat>, c: nat, value: Tri, ghost cells0: seq<Cell>) returns (cellsSolved: nat)
      requires c < |cells0| && cells0[c].aiSolution == Unknown && value != Unknown
      requires forall i :: 0 <= i < |cells0| ==> cells0[i].index == i
      requires forall p :: 0 <= p < |idx| ==> idx[p] < |cells0|
      requires puzzle.cells == cells0 || puzzle.cells == Written(cells0, c, value)
      modifies puzzle`cells
      ensures puzzle.cells == (if c in idx then Written(cells0, c, value) else old(puzzle.cells))
      ensures cellsSolved == CountDecided(Written(cells0, c, value), idx)
    {
      ghost var w := Written(cells0, c, value);
      cellsSolved := 0;
      var cellKey := 0;
      while cellKey < |idx|
        invariant 0 <= cellKey <= |idx|
        invariant puzzle.cells == (if c in idx[..cellKey] then w else old(puzzle.cells))
        invariant cellsSolved == CountDecided(w, idx[..cellKey])
      {
        var i := idx[cellKey];
        var cell := puzzle.cells[i];
        assert idx[..cellKey + 1] == idx[..cellKey] + [i];
        if cell.index == c {
          puzzle.cells := puzzle.cells[i := cell.(aiSolution := value)];
          assert puzzle.cells == w;
          cellsSolved := cellsSolved + 1;
        } else if cell.aiSolution != Unknown {
          cellsSolved := cellsSolved + 1;
        }
        cellKey := cellKey + 1;
      }
      assert idx[..cellKey] == idx;
    }

    /** The deduced values of line `k`, in line order. */
    ghost function LineView(k: nat): (v: seq<Tri>)
      reads this, puzzle
      requires k < |lines|
      ensures |v| == |lines[k].cells|
    {
      View(puzzle.cells, lines[k].cells)
    }

    /** The positions of line `k` lie in the cell list, without repeats. */
    lemma LineInRange(k: nat)
      requires Valid() && k < |lines|
      ensures |lines[k].cells| == lines[k].length && NoDuplicates(lines[k].cells)
      ensures forall p :: 0 <= p < |lines[k].cells| ==> lines[k].cells[p] < |puzzle.cells|
    {
      LineCellsInRange(lines[k], puzzle.width, puzzle.height);
    }

    /** `_setCellSolution(line.cells[p], value)` for line `k`, seen from the line. */
    method SetLineCell(k: nat, p: nat, value: Tri)
      requires Valid() && k < |lines| && p < |lines[k].cells| && value != Unknown
      modifies this`lines, puzzle`cells
      ensures Valid() && FlagsOnly(old(lines), lines)
      ensures Grows(old(puzzle.cells), puzzle.cells) && SameOutside(old(puzzle.cells), puzzle.cells, lines[k].cells)
      ensures LineView(k) == Decide(old(LineView(k)), p, value)
    {
      LineInRange(k);
      WriteOnView(puzzle.cells, lines[k].cells, p, value);
      WriteGrows(puzzle.cells, lines[k].cells[p], value);
      SetCellSolution(lines[k].cells[p], value);
    }

    /** `if (line.cells[p]) this._setCellSolution(line.cells[p], value)`:
        the write happens only when `p` is a position of line `k`. */
    method SetLineCellIfPresent(k: nat, p: int, value: Tri)
      requires Valid() && k < |lines| && value != Unknown
      modifies this`lines, puzzle`cells
      ensures Valid() && FlagsOnly(old(lines), lines)
      ensures Grows(old(puzzle.cells), puzzle.cells) && SameOutside(old(puzzle.cells), puzzle.cells, lines[k].cells)
      ensures LineView(k) == DecideIfOn(old(LineView(k)), p, value)
    {
      if 0 <= p < |lines[k].cells| {
        SetLineCell(k, p, value);
      }
    }

    /** `findCompletedLines`: when the line's filled cells add up to the sum
        of its clues, every undecided cell of it becomes empty. */
    method FindCompletedLines(k: nat)
      requires Valid() && k < |lines|
      modifies this`lines, puzzle`cells
      ensures Valid() && FlagsOnly(old(lines), lines)
      ensures Grows(old(puzzle.cells), puzzle.cells) && SameOutside(old(puzzle.cells), puzzle.cells, lines[k].cells)
      ensures LineView(k) == CompleteLine(old(LineView(k)), lines[k].sections)
    {
      var line := lines[k];
      ghost var cells0, lines0, v0 := puzzle.cells, lines, LineView(k);
      var totalSectionLength := SumSectionLengths(line.sections);
      LineInRange(k);
      var totalPositiveSolved := CountLineFilled(line.cells);
      if totalSectionLength == totalPositiveSolved {
        MaskedEverywhere(v0);
        DecideWhere(k, Everywhere(|line.cells|), Empty);
      }
    }

    /** The second loop of `findCompletedLines`: how many cells of the
        line at positions `idx` are filled. */
    method CountLineFilled(idx: seq<nat>) returns (totalPositiveSolved: nat)
      requires forall p :: 0 <= p < |idx| ==> idx[p] < |puzzle.cells|
      ensures totalPositiveSolved == CountFilled(View(puzzle.cells, idx))
    {
      ghost var v := View(puzzle.cells, idx);
      totalPositiveSolved := 0;
      var cellKey := 0;
      while cellKey < |idx|
        invariant 0 <= cellKey <= |idx|
        invariant totalPositiveSolved == CountFilled(v[..cellKey])
      {
        assert v[..cellKey + 1][..cellKey] == v[..cellKey];
        totalPositiveSolved := totalPositiveSolved + if puzzle.cells[idx[cellKey]].aiSolution == Filled then 1 else 0;
        cellKey := cellKey + 1;
      }
      assert v[..cellKey] == v;
    }

    /** `findAnchoredSections`: a first (last) section whose run is already
        begun by the first (last) cell that is not known empty is filled out
        to its clue length and closed by an empty cell. */
    method FindAnchoredSections(k: nat)
      requires Valid() && k < |lines|
      modifies this`lines, puzzle`cells
      ensures Valid() && FlagsOnly(old(lines), lines)
      ensures Grows(old(puzzle.cells), puzzle.cells) && SameOutside(old(puzzle.cells), puzzle.cells, lines[k].cells)
      ensures LineView(k) == Anchored(old(LineView(k)), lines[k].sections)
    {
      if |lines[k].sections| > 0 {
        ghost var cells0, lines0 := puzzle.cells, lines;
        AnchorFromStart(k);
        ghost var cells1 := puzzle.cells;
        AnchorFromEnd(k);
        GrowsTransitive(cells0, cells1, puzzle.cells);
        SameOutsideTransitive(cells0, cells1, puzzle.cells, lines[k].cells);
      }
    }

    /** The first half of `findAnchoredSections`: the scan from the start of
        the line and the fill of the first section. */
    method AnchorFromStart(k: nat)
      requires Valid() && k < |lines| && |lines[k].sections| > 0
      modifies this`lines, puzzle`cells
      ensures Valid() && FlagsOnly(old(lines), lines)
      ensures Grows(old(puzzle.cells), puzzle.cells) && SameOutside(old(puzzle.cells), puzzle.cells, lines[k].cells)
      ensures LineView(k) == AnchorStart(old(LineView(k)), lines[k].sections[0].length)
    {
      var line := lines[k];
      var firstSection := line.sections[0];
      LineInRange(k);
      var fillRange := ScanFromStart(line.cells, firstSection.length);
      ghost var v := LineView(k);
      assert AnchorStart(v, firstSection.length) ==
             if fillRange.Some? then FillAnchor(v, fillRange.value.0, fillRange.value.1, fillRange.value.1 + 1) else v;
      if fillRange.Some? {
        FillAndCap(k, fillRange.value.0, fillRange.value.1, true);
        assert lines[k].sections == line.sections;
      }
    }

    /** The scan of the first half of `findAnchoredSections` over the cells at
        positions `idx`: past known-empty cells, stopping at the first
        undecided cell (no range) or the first filled one (the range of a run
        of `len` from there). */
    method ScanFromStart(idx: seq<nat>, len: nat) returns (fillRange: Option<(int, int)>)
      requires forall p :: 0 <= p < |idx| ==> idx[p] < |puzzle.cells|
      ensures fillRange == StartAnchorRange(View(puzzle.cells, idx), len)
    {
      ghost var v := View(puzzle.cells, idx);
      fillRange := None;
      var i := 0;
      while i < |idx|
        invariant 0 <= i <= |idx|
        invariant forall q :: 0 <= q < i ==> v[q] == Empty
      {
        var aiSolution := puzzle.cells[idx[i]].aiSolution;
        if aiSolution == Unknown {
          break;
        } else if aiSolution == Filled {
          fillRange := Some((i, i + len - 1));
          break;
        }
        i := i + 1;
      }
      assert i == LeadingEmpty(v);
    }

    /** The second half of `findAnchoredSections`: the scan from the end of
        the line and the fill of the last section. */
    method AnchorFromEnd(k: nat)
      requires Valid() && k < |lines| && |lines[k].sections| > 0
      modifies this`lines, puzzle`cells
      ensures Valid() && FlagsOnly(old(lines), lines)
      ensures Grows(old(puzzle.cells), puzzle.cells) && SameOutside(old(puzzle.cells), puzzle.cells, lines[k].cells)
      ensures LineView(k) == AnchorEnd(old(LineView(k)), lines[k].sections[|lines[k].sections| - 1].length)
    {
      var line := lines[k];
      var lastSection := line.sections[|line.sections| - 1];
      LineInRange(k);
      var fillRange := ScanFromEnd(line.cells, lastSection.length);
      ghost var v := LineView(k);
      assert AnchorEnd(v, lastSection.length) ==
             if fillRange.Some? then FillAnchor(v, fillRange.value.0, fillRange.value.1, fillRange.value.0 - 1) else v;
      if fillRange.Some? {
        FillAndCap(k, fillRange.value.0, fillRange.value.1, false);
        assert lines[k].sections == line.sections;
      }
    }

    /** The scan of the second half of `findAnchoredSections`, from the last
        cell backwards. */
    method ScanFromEnd(idx: seq<nat>, len: nat) returns (fillRange: Option<(int, int)>)
      requires forall p :: 0 <= p < |idx| ==> idx[p] < |puzzle.cells|
      ensures fillRange == EndAnchorRange(View(puzzle.cells, idx), len)
    {
      ghost var v := View(puzzle.cells, idx);
      fillRange := None;
      var i := |idx| - 1;
      while i >= 0
        invariant -1 <= i < |idx|
        invariant forall q :: i < q < |idx| ==> v[q] == Empty
      {
        var aiSolution := puzzle.cells[idx[i]].aiSolution;
        if aiSolution == Unknown {
          break;
        } else if aiSolution == Filled {
          fillRange := Some((i - len + 1, i));
          break;
        }
        i := i - 1;
      }
      assert i == |v| - 1 - TrailingEmpty(v);
    }

    /** The fill and the closing write of one half of `findAnchoredSections`:
        the cells `lo..hi` become filled, then the cell the loop counter
        reaches after the fill (`capAfter`) or the cell before `lo` becomes
        empty, when it lies on the line. */
    method FillAndCap(k: nat, lo: int, hi: int, capAfter: bool)
      requires Valid() && k < |lines| && lo <= hi + 1
      modifies this`lines, puzzle`cells
      ensures Valid() && FlagsOnly(old(lines), lines)
      ensures Grows(old(puzzle.cells), puzzle.cells) && SameOutside(old(puzzle.cells), puzzle.cells, lines[k].cells)
      ensures LineView(k) == FillAnchor(old(LineView(k)), lo, hi, if capAfter then hi + 1 else lo - 1)
    {
      ghost var cells0, lines0 := puzzle.cells, lines;
      FillAnchorSteps(LineView(k), lo, hi, if capAfter then hi + 1 else lo - 1);
      var next := FillRange(k, lo, hi, Filled);
      ghost var cells1 := puzzle.cells;
      assert lines[k].cells == lines0[k].cells;
      SetLineCellIfPresent(k, if capAfter then next else lo - 1, Empty);
      assert lines[k].cells == lines0[k].cells;
      GrowsTransitive(cells0, cells1, puzzle.cells);
      SameOutsideTransitive(cells0, cells1, puzzle.cells, lines[k].cells);
    }

    /** The fill loops of `findAnchoredSections`: every undecided cell of
        line `k` at a position in `lo..hi` that lies on the line is decided
        as `value`; `next` is the loop counter after the loop. */
    method FillRange(k: nat, lo: int, hi: int, value: Tri) returns (next: int)
      requires Valid() && k < |lines| && value != Unknown
      modifies this`lines, puzzle`cells
      ensures Valid() && FlagsOnly(old(lines), lines)
      ensures Grows(old(puzzle.cells), puzzle.cells) && SameOutside(old(puzzle.cells), puzzle.cells, lines[k].cells)
      ensures LineView(k) == Masked(old(LineView(k)), RangeMask(|lines[k].cells|, lo, hi), value)
      ensures next == if hi < lo then lo else hi + 1
    {
      var line := lines[k];
      ghost var cells0, lines0, v0 := puzzle.cells, lines, LineView(k);
      var mask := RangeMask(|line.cells|, lo, hi);
      MaskedUpToLow(v0, mask, value, Clamp(lo, |line.cells|));
      var i := lo;
      while i <= hi
        invariant lo <= i && (i <= hi + 1 || i == lo)
        invariant Valid() && FlagsOnly(lines0, lines)
        invariant Grows(cells0, puzzle.cells) && SameOutside(cells0, puzzle.cells, line.cells)
        invariant View(puzzle.cells, line.cells) == MaskedUpTo(v0, mask, value, Clamp(i, |line.cells|))
        decreases hi + 1 - i
      {
        if 0 <= i < |line.cells| {
          DecideAt(k, mask, value, i, v0, cells0, lines0);
        }
        i := i + 1;
      }
      MaskedUpToHigh(v0, mask, value, Clamp(i, |line.cells|));
      next := i;
    }

    /** `findSectionDefiningChains`: the filled runs of the line are
        collected; every run as long as the first longest clue is closed by
        empty cells on both sides, and that clue is marked solved.  Without
        clues the source reads a field of `undefined` as soon as there is a
        run, so such a call must find no run. */
    method FindSectionDefiningChains(k: nat)
      requires Valid() && k < |lines|
      requires |lines[k].sections| > 0 || ChainsOf(LineView(k)) == []
      modifies this`lines, puzzle`cells
      ensures Valid()
      ensures FlagsOnly(old(lines[k := lines[k].(sections := ChainSections(LineView(k), lines[k].sections))]), lines)
      ensures Grows(old(puzzle.cells), puzzle.cells) && SameOutside(old(puzzle.cells), puzzle.cells, lines[k].cells)
      ensures LineView(k) == DefiningChains(old(LineView(k)), old(lines[k].sections))
    {
      var line := lines[k];
      ghost var cells0, lines0, v0, sections := puzzle.cells, lines, LineView(k), line.sections;
      ghost var m := LongestLength(sections);
      var firstSortedSection := if |line.sections| > 0 then LongestSection(line.sections) else 0;
      LineInRange(k);
      var chains := CollectChains(line.cells);
      ChainLoopDone(v0, m);
      if |chains| > 0 {
        CapChains(k, chains, firstSortedSection, sections, v0);
      }
    }

    /** The chain loop of `findSectionDefiningChains` over the chains of the
        line's view `v0`. */
    method CapChains(k: nat, chains: seq<Chain>, longest: nat, ghost sections: seq<Section>, ghost v0: seq<Tri>)
      requires Valid() && k < |lines| && sections == lines[k].sections && v0 == LineView(k)
      requires |chains| > 0 && |sections| > 0 && longest == LongestSection(sections)
      modifies this`lines, puzzle`cells
      ensures Valid()
      ensures FlagsOnly(old(lines[k := lines[k].(sections := MarkLongestIf(sections, FoundUpTo(chains, LongestLength(sections), |chains|)))]), lines)
      ensures Grows(old(puzzle.cells), puzzle.cells) && SameOutside(old(puzzle.cells), puzzle.cells, lines[k].cells)
      ensures LineView(k) == CappedChainsUpTo(v0, chains, LongestLength(sections), |chains|)
    {
      ghost var cells0, lines0, m := puzzle.cells, lines, LongestLength(sections);
      ghost var idx := lines[k].cells;
      assert lines0 == lines0[k := lines0[k].(sections := MarkLongestIf(sections, false))];
      var chainKey := 0;
      while chainKey < |chains|
        invariant 0 <= chainKey <= |chains|
        invariant Valid()
        invariant FlagsOnly(lines0[k := lines0[k].(sections := MarkLongestIf(sections, FoundUpTo(chains, m, chainKey)))], lines)
        invariant Grows(cells0, puzzle.cells) && SameOutside(cells0, puzzle.cells, idx)
        invariant View(puzzle.cells, idx) == CappedChainsUpTo(v0, chains, m, chainKey)
      {
        CapChain(k, chains[chainKey], longest, chains, chainKey, sections, v0, cells0, lines0);
        chainKey := chainKey + 1;
      }
    }

    /** One turn of the chain loop of `findSectionDefiningChains`: chain
        `chains[j]` is closed, and the longest section (at `longest`) marked,
        when the chain is as long as that section. */
    method CapChain(k: nat, chain: Chain, longest: nat, ghost chains: seq<Chain>, ghost j: nat,
                    ghost sections: seq<Section>, ghost v0: seq<Tri>, ghost cells0: seq<Cell>, ghost lines0: seq<Line>)
      requires Valid() && k < |lines0| && sections == lines0[k].sections && |v0| == |lines0[k].cells|
      requires j < |chains| && chain == chains[j] && |sections| > 0 && longest == LongestSection(sections)
      requires FlagsOnly(lines0[k := lines0[k].(sections := MarkLongestIf(sections, FoundUpTo(chains, LongestLength(sections), j)))], lines)
      requires Grows(cells0, puzzle.cells) && SameOutside(cells0, puzzle.cells, lines0[k].cells)
      requires View(puzzle.cells, lines0[k].cells) == CappedChainsUpTo(v0, chains, LongestLength(sections), j)
      modifies this`lines, puzzle`cells
      ensures Valid()
      ensures FlagsOnly(lines0[k := lines0[k].(sections := MarkLongestIf(sections, FoundUpTo(chains, LongestLength(sections), j + 1)))], lines)
      ensures Grows(cells0, puzzle.cells) && SameOutside(cells0, puzzle.cells, lines0[k].cells)
      ensures View(puzzle.cells, lines0[k].cells) == CappedChainsUpTo(v0, chains, LongestLength(sections), j + 1)
    {
      ghost var m := LongestLength(sections);
      assert lines[k].cells == lines0[k].cells;
      var firstSortedSection := lines[k].sections[longest];
      CappedChainsNext(v0, chains, m, j);
      if chain.length == firstSortedSection.length {
        ghost var cells1, lines1 := puzzle.cells, lines;
        CloseRun(k, chain.start, firstSortedSection.length, longest);
        ChainClosed(lines0, lines1, lines, cells0, cells1, puzzle.cells, k, chains, j, v0);
      }
    }

    /** The cell loop of `findSectionDefiningChains` over the cells at
        positions `idx`: a filled cell after a filled cell lengthens the last
        chain, any other filled cell starts a chain of length 1. */
    method CollectChains(idx: seq<nat>) returns (chains: seq<Chain>)
      requires forall p :: 0 <= p < |idx| ==> idx[p] < |puzzle.cells|
      ensures chains == ChainsOf(View(puzzle.cells, idx))
    {
      ghost var v := View(puzzle.cells, idx);
      chains := [];
      var lastValue := 0;
      var cellKey := 0;
      while cellKey < |idx|
        invariant 0 <= cellKey <= |idx|
        invariant chains == ChainsOf(v[..cellKey])
        invariant lastValue == 1 <==> cellKey > 0 && v[cellKey - 1] == Filled
      {
        var aiSolution := puzzle.cells[idx[cellKey]].aiSolution;
        assert v[..cellKey + 1][..cellKey] == v[..cellKey];
        if aiSolution == Filled {
          if lastValue != 1 {
            chains := chains + [Chain(cellKey, 1)];
          } else if |chains| > 0 {
            var chain := chains[|chains| - 1];
            chains := chains[..|chains| - 1] + [chain.(length := chain.length + 1)];
          }
        }
        lastValue := if aiSolution == Filled then 1 else 0;
        cellKey := cellKey + 1;
      }
      assert v[..cellKey] == v;
    }

    /** `findCompletedSections`: every section not yet solved with a single
        start left is closed by empty cells on both sides and marked solved. */
    method FindCompletedSections(k: nat)
      requires Valid() && k < |lines|
      modifies this`lines, puzzle`cells
      ensures Valid()
      ensures FlagsOnly(old(lines[k := lines[k].(sections := MarkPinned(lines[k].sections))]), lines)
      ensures Grows(old(puzzle.cells), puzzle.cells) && SameOutside(old(puzzle.cells), puzzle.cells, lines[k].cells)
      ensures LineView(k) == CapPinned(old(LineView(k)), old(lines[k].sections))
    {
      ghost var cells0, lines0, v0, sections := puzzle.cells, lines, LineView(k), lines[k].sections;
      ghost var idx := lines[k].cells;
      PinnedAll(v0, sections);
      assert lines0 == lines0[k := lines0[k].(sections := MarkPinnedBefore(sections, 0))];
      var count := |lines[k].sections|;
      var sectionKey := 0;
      while sectionKey < count
        invariant 0 <= sectionKey <= |sections| == count
        invariant Valid()
        invariant FlagsOnly(lines0[k := lines0[k].(sections := MarkPinnedBefore(sections, sectionKey))], lines)
        invariant Grows(cells0, puzzle.cells) && SameOutside(cells0, puzzle.cells, idx)
        invariant View(puzzle.cells, idx) == Masked(v0, PinnedCapMask(sections, sectionKey, |v0|), Empty)
      {
        CompleteSection(k, sectionKey, sections, v0, cells0, lines0);
        sectionKey := sectionKey + 1;
      }
    }

    /** One turn of the loop of `findCompletedSections`, for section `j`. */
    method CompleteSection(k: nat, j: nat, ghost sections: seq<Section>, ghost v0: seq<Tri>,
                           ghost cells0: seq<Cell>, ghost lines0: seq<Line>)
      requires Valid() && k < |lines0| && j < |sections| && sections == lines0[k].sections && |v0| == |lines0[k].cells|
      requires FlagsOnly(lines0[k := lines0[k].(sections := MarkPinnedBefore(sections, j))], lines)
      requires Grows(cells0, puzzle.cells) && SameOutside(cells0, puzzle.cells, lines0[k].cells)
      requires View(puzzle.cells, lines0[k].cells) == Masked(v0, PinnedCapMask(sections, j, |v0|), Empty)
      modifies this`lines, puzzle`cells
      ensures Valid()
      ensures FlagsOnly(lines0[k := lines0[k].(sections := MarkPinnedBefore(sections, j + 1))], lines)
      ensures Grows(cells0, puzzle.cells) && SameOutside(cells0, puzzle.cells, lines0[k].cells)
      ensures View(puzzle.cells, lines0[k].cells) == Masked(v0, PinnedCapMask(sections, j + 1, |v0|), Empty)
    {
      PinnedMarkStep(sections, j);
      PinnedViewStep(v0, sections, j);
      assert lines[k].cells == lines0[k].cells;
      var section := lines[k].sections[j];
      if !section.solved && |section.possibleStartIndexes| == 1 {
        ghost var before := puzzle.cells;
        CloseRun(k, section.possibleStartIndexes[0], section.length, j);
        assert lines[k].cells == lines0[k].cells;
        GrowsTransitive(cells0, before, puzzle.cells);
        SameOutsideTransitive(cells0, before, puzzle.cells, lines0[k].cells);
      }
    }

    /** The writes of `findSectionDefiningChains` and `findCompletedSections`
        for one run of `len` cells from `start`: the cell before the run and
        the cell after it become empty when they lie on the line, then
        section `j` is marked solved. */
    method CloseRun(k: nat, start: int, len: nat, j: nat)
      requires Valid() && k < |lines| && j < |lines[k].sections|
      modifies this`lines, puzzle`cells
      ensures Valid()
      ensures FlagsOnly(old(lines[k := lines[k].(sections := lines[k].sections[j := lines[k].sections[j].(solved := true)])]), lines)
      ensures Grows(old(puzzle.cells), puzzle.cells) && SameOutside(old(puzzle.cells), puzzle.cells, lines[k].cells)
      ensures LineView(k) == DecideIfOn(DecideIfOn(old(LineView(k)), start - 1, Empty), start + len, Empty)
    {
      ghost var cells0, lines0 := puzzle.cells, lines;
      SetLineCellIfPresent(k, start - 1, Empty);
      ghost var cells1 := puzzle.cells;
      assert lines[k].cells == lines0[k].cells;
      SetLineCellIfPresent(k, start + len, Empty);
      assert lines[k].cells == lines0[k].cells && lines[k].sections == lines0[k].sections;
      GrowsTransitive(cells0, cells1, puzzle.cells);
      SameOutsideTransitive(cells0, cells1, puzzle.cells, lines[k].cells);
      MarkSectionSolved(k, j);
    }

    /** `section.solved = true` for section `j` of line `k`. */
    method MarkSectionSolved(k: nat, j: nat)
      requires Valid() && k < |lines| && j < |lines[k].sections|
      modifies this`lines
      ensures Valid()
      ensures lines == old(lines[k := lines[k].(sections := lines[k].sections[j := lines[k].sections[j].(solved := true)])])
    {
      var line := lines[k];
      var marked := line.(sections := line.sections[j := line.sections[j].(solved := true)]);
      SolvedFlagKeepsShape(line, j, puzzle.width, puzzle.height);
      ReplaceKeepsValid(lines, puzzle.cells, puzzle.width, puzzle.height, k, marked);
      lines := lines[k := marked];
    }

    /** The loop shared by the rules that scan a whole line: every cell of
        line `k`, in order, whose mask bit is set and which is still undecided
        is decided as `value`. */
    method DecideWhere(k: nat, mask: seq<bool>, value: Tri)
      requires Valid() && k < |lines| && |mask| == |lines[k].cells| && value != Unknown
      modifies this`lines, puzzle`cells
      ensures Valid() && FlagsOnly(old(lines), lines)
      ensures Grows(old(puzzle.cells), puzzle.cells) && SameOutside(old(puzzle.cells), puzzle.cells, lines[k].cells)
      ensures LineView(k) == Masked(old(LineView(k)), mask, value)
    {
      var line := lines[k];
      ghost var cells0, lines0, v0 := puzzle.cells, lines, LineView(k);
      MaskedAll(v0, mask, value);
      var cellKey := 0;
      while cellKey < |line.cells|
        invariant 0 <= cellKey <= |line.cells|
        invariant Valid() && FlagsOnly(lines0, lines)
        invariant Grows(cells0, puzzle.cells) && SameOutside(cells0, puzzle.cells, line.cells)
        invariant View(puzzle.cells, line.cells) == MaskedUpTo(v0, mask, value, cellKey)
      {
        DecideAt(k, mask, value, cellKey, v0, cells0, lines0);
        cellKey := cellKey + 1;
      }
    }

    /** One turn of the loop of `DecideWhere`, at position `p`. */
    method DecideAt(k: nat, mask: seq<bool>, value: Tri, p: nat, ghost v0: seq<Tri>, ghost cells0: seq<Cell>, ghost lines0: seq<Line>)
      requires Valid() && k < |lines0| && |mask| == |v0| == |lines0[k].cells| && p < |mask| && value != Unknown
      requires FlagsOnly(lines0, lines) && Grows(cells0, puzzle.cells) && SameOutside(cells0, puzzle.cells, lines0[k].cells)
      requires View(puzzle.cells, lines0[k].cells) == MaskedUpTo(v0, mask, value, p)
      modifies this`lines, puzzle`cells
      ensures Valid() && FlagsOnly(lines0, lines)
      ensures Grows(cells0, puzzle.cells) && SameOutside(cells0, puzzle.cells, lines0[k].cells)
      ensures View(puzzle.cells, lines0[k].cells) == MaskedUpTo(v0, mask, value, p + 1)
    {
      assert lines[k].cells == lines0[k].cells;
      ghost var before, vb := puzzle.cells, LineView(k);
      LineInRange(k);
      if mask[p] && puzzle.cells[lines[k].cells[p]].aiSolution == Unknown {
        SetLineCell(k, p, value);
        assert lines[k].cells == lines0[k].cells;
        GrowsTransitive(cells0, before, puzzle.cells);
        SameOutsideTransitive(cells0, before, puzzle.cells, lines0[k].cells);
      }
      MaskedStep(v0, mask, value, p, vb, LineView(k));
    }

    /** `findKnownPositivesAndNegatives`: for each section in turn, an
        undecided cell that every remaining start of it covers becomes
        filled; then an undecided cell that no start of any section covers
        becomes empty. */
    method FindKnownPositivesAndNegatives(k: nat)
      requires Valid() && k < |lines|
      modifies this`lines, puzzle`cells
      ensures Valid() && FlagsOnly(old(lines), lines)
      ensures Grows(old(puzzle.cells), puzzle.cells) && SameOutside(old(puzzle.cells), puzzle.cells, lines[k].cells)
      ensures LineView(k) == KnownCells(old(LineView(k)), lines[k].sections)
    {
      ghost var line, cells0, lines0, v0 := lines[k], puzzle.cells, lines, LineView(k);
      var n := lines[k].length;
      var totalCellCounts := FillSections(k, line, v0);
      var none := NoCoverCells(totalCellCounts, line.sections, n);
      assert lines[k].sections == line.sections && lines[k].cells == line.cells && |line.cells| == line.length;
      ghost var before := puzzle.cells;
      DecideWhere(k, none, Empty);
      assert lines[k].sections == line.sections && lines[k].cells == line.cells;
      GrowsTransitive(cells0, before, puzzle.cells);
      SameOutsideTransitive(cells0, before, puzzle.cells, line.cells);
      KnownByPhases(v0, line.sections);
    }

    /** The cells of a line of `n` cells that no start of any section covers,
        read off the total cover counts. */
    method NoCoverCells(totalCellCounts: seq<nat>, ghost sections: seq<Section>, n: nat) returns (none: seq<bool>)
      requires CoversUpTo(totalCellCounts, sections, |sections|, n)
      ensures none == ZeroMask(sections, n)
    {
      assert sections[..|sections|] == sections;
      none := seq(|totalCellCounts|, p requires 0 <= p < |totalCellCounts| => totalCellCounts[p] == 0);
    }

    /** The section loop of `findKnownPositivesAndNegatives` on line `k`
        (`line` on entry, showing `v0`): each section's filling phase in
        turn, returning the total cover counts. */
    method FillSections(k: nat, ghost line: Line, ghost v0: seq<Tri>) returns (totalCellCounts: seq<nat>)
      requires Valid() && k < |lines| && lines[k] == line && v0 == LineView(k)
      modifies this`lines, puzzle`cells
      ensures Valid() && FlagsOnly(old(lines), lines)
      ensures Grows(old(puzzle.cells), puzzle.cells) && SameOutside(old(puzzle.cells), puzzle.cells, line.cells)
      ensures CoversUpTo(totalCellCounts, line.sections, |line.sections|, line.length)
      ensures View(puzzle.cells, line.cells) == FillPhases(v0, line.sections, |line.sections|)
    {
      ghost var cells0, lines0 := puzzle.cells, lines;
      totalCellCounts := Utility.ZeroFilled(lines[k].length);
      var count := |lines[k].sections|;
      var sectionKey := 0;
      while sectionKey < count
        invariant 0 <= sectionKey <= |line.sections| == count
        invariant Valid() && FlagsOnly(lines0, lines)
        invariant Grows(cells0, puzzle.cells) && SameOutside(cells0, puzzle.cells, line.cells)
        invariant CoversUpTo(totalCellCounts, line.sections, sectionKey, line.length)
        invariant View(puzzle.cells, line.cells) == FillPhases(v0, line.sections, sectionKey)
      {
        totalCellCounts := FillPhase(k, sectionKey, totalCellCounts, line, v0, cells0, lines0);
        sectionKey := sectionKey + 1;
      }
      CoversDone(totalCellCounts, line.sections, sectionKey, line.length);
    }

    /** One turn of the section loop of `findKnownPositivesAndNegatives`:
        count the covers of section `j`, add them to the totals, and fill the
        undecided cells every start of the section covers. */
    method FillPhase(k: nat, j: nat, totalCellCounts: seq<nat>, ghost line: Line, ghost v0: seq<Tri>,
                     ghost cells0: seq<Cell>, ghost lines0: seq<Line>) returns (totals: seq<nat>)
      requires Valid() && k < |lines| && j < |line.sections| && k < |lines0| && lines0[k] == line
      requires FlagsOnly(lines0, lines) && Grows(cells0, puzzle.cells) && SameOutside(cells0, puzzle.cells, line.cells)
      requires CoversUpTo(totalCellCounts, line.sections, j, line.length)
      requires View(puzzle.cells, line.cells) == FillPhases(v0, line.sections, j)
      modifies this`lines, puzzle`cells
      ensures Valid() && FlagsOnly(lines0, lines)
      ensures Grows(cells0, puzzle.cells) && SameOutside(cells0, puzzle.cells, line.cells)
      ensures CoversUpTo(totals, line.sections, j + 1, line.length)
      ensures View(puzzle.cells, line.cells) == FillPhases(v0, line.sections, j + 1)
    {
      assert lines[k].sections == line.sections && lines[k].cells == line.cells && lines[k].length == line.length;
      var full;
      full, totals := CountPhase(lines[k].sections[j], lines[k].length, totalCellCounts, line.sections, j);
      ghost var before := puzzle.cells;
      DecideWhere(k, full, Filled);
      assert lines[k].sections == line.sections && lines[k].cells == line.cells && lines[k].length == line.length;
      GrowsTransitive(cells0, before, puzzle.cells);
      SameOutsideTransitive(cells0, before, puzzle.cells, line.cells);
    }

    /** The counting half of one turn of the section loop of
        `findKnownPositivesAndNegatives`: the covers of `section`, section `j`
        of `sections`, over a line of `n` cells, added to the totals so far;
        `full` marks the cells every start of the section covers. */
    method CountPhase(section: Section, n: nat, totalCellCounts: seq<nat>, ghost sections: seq<Section>, ghost j: nat)
      returns (full: seq<bool>, totals: seq<nat>)
      requires j < |sections| && sections[j] == section && CoversUpTo(totalCellCounts, sections, j, n)
      ensures full == FullMask(section, n)
      ensures CoversUpTo(totals, sections, j + 1, n)
    {
      var cellCounts;
      cellCounts, totals := CountCovers(section.possibleStartIndexes, section.length, n, totalCellCounts);
      assert sections[..j + 1][..j] == sections[..j];
      full := seq(n, p requires 0 <= p < n => cellCounts[p] == |section.possibleStartIndexes|);
    }

    /** `eliminateImpossibleFits`: a line without clues becomes all empty;
        otherwise each section keeps only the starts that fit its window,
        which is narrowed by the known-empty cells at both ends of the line
        and shifted by the sections before it. */
    method EliminateImpossibleFits(k: nat)
      requires Valid() && k < |lines|
      modifies this`lines, puzzle`cells
      ensures Valid() && Grows(old(puzzle.cells), puzzle.cells) && SameOutside(old(puzzle.cells), puzzle.cells, lines[k].cells)
      ensures LineView(k) == if old(lines[k].sections) == [] then AllUnknownEmpty(old(LineView(k))) else old(LineView(k))
      ensures |lines| == |old(lines)|
      ensures forall i :: 0 <= i < |lines| && i != k ==> lines[i] == old(lines[i]).(solved := lines[i].solved)
      ensures lines[k] == old(lines[k]).(solved := lines[k].solved,
                                         sections := Eliminated(LineView(k), old(lines[k].minimumSectionLength), old(lines[k].sections)))
    {
      if |lines[k].sections| == 0 {
        MaskedEverywhere(LineView(k));
        DecideWhere(k, Everywhere(|lines[k].cells|), Empty);
      }
      var minimumStartIndex, maximumStartIndex := StartWindow(k);
      NarrowSections(k, minimumStartIndex, maximumStartIndex);
    }

    /** The first two loops of `eliminateImpossibleFits`: the window of
        starts of the first section, `[0, length - minimumSectionLength]`,
        tightened by the known-empty cells that begin and end the line. */
    method StartWindow(k: nat) returns (minimumStartIndex: int, maximumStartIndex: int)
      requires Valid() && k < |lines|
      ensures minimumStartIndex == LeadingEmpty(LineView(k))
      ensures maximumStartIndex == lines[k].length - lines[k].minimumSectionLength - TrailingEmpty(LineView(k))
    {
      var line := lines[k];
      ghost var v := LineView(k);
      LineInRange(k);
      minimumStartIndex := 0;
      maximumStartIndex := line.length - line.minimumSectionLength;
      var lineKey: int := 0;
      while lineKey < line.length
        invariant 0 <= lineKey <= line.length && minimumStartIndex == lineKey
        invariant forall q :: 0 <= q < lineKey ==> v[q] == Empty
      {
        if puzzle.cells[line.cells[lineKey]].aiSolution == Empty {
          minimumStartIndex := minimumStartIndex + 1;
        } else {
          break;
        }
        lineKey := lineKey + 1;
      }
      lineKey := line.length - 1;
      while lineKey >= 0
        invariant -1 <= lineKey <= line.length - 1
        invariant maximumStartIndex == line.length - line.minimumSectionLength - (line.length - 1 - lineKey)
        invariant forall q :: lineKey < q < line.length ==> v[q] == Empty
      {
        if puzzle.cells[line.cells[lineKey]].aiSolution == Empty {
          maximumStartIndex := maximumStartIndex - 1;
        } else {
          break;
        }
        lineKey := lineKey - 1;
      }
    }

    /** The section loop of `eliminateImpossibleFits`, given the window of
        the first section. */
    method NarrowSections(k: nat, minimumStartIndex: int, maximumStartIndex: int)
      requires Valid() && k < |lines|
      requires minimumStartIndex == LeadingEmpty(LineView(k))
      requires maximumStartIndex == lines[k].length - lines[k].minimumSectionLength - TrailingEmpty(LineView(k))
      modifies this`lines
      ensures Valid()
      ensures lines == old(lines[k := lines[k].(sections := Eliminated(LineView(k), lines[k].minimumSectionLength, lines[k].sections))])
    {
      var line := lines[k];
      ghost var v, lines1, sections := LineView(k), lines, line.sections;
      ghost var lead, top := minimumStartIndex, maximumStartIndex;
      var minimumStartIndex, maximumStartIndex := minimumStartIndex, maximumStartIndex;
      var lineSectionKey := 0;
      assert line.(sections := EliminatedBefore(v, line.minimumSectionLength, sections, 0)) == line;
      LineInRange(k);
      assert forall j :: 0 <= j < |sections| ==> StartsWellFormed(sections[j].possibleStartIndexes, |line.cells|);
      assert v == View(puzzle.cells, line.cells);
      assert lead == LeadingEmpty(v) && top == |v| - line.minimumSectionLength - TrailingEmpty(v);
      while lineSectionKey < |line.sections|
        invariant 0 <= lineSectionKey <= |sections|
        invariant v == View(puzzle.cells, line.cells)
        invariant minimumStartIndex == lead + Offset(sections, lineSectionKey)
        invariant maximumStartIndex == top + Offset(sections, lineSectionKey)
        invariant lines == lines1[k := line.(sections := EliminatedBefore(v, line.minimumSectionLength, sections, lineSectionKey))]
        modifies this`lines
      {
        var section := line.sections[lineSectionKey];
        var newPossibleStartIndexes := SurvivingStarts(line.cells, section.possibleStartIndexes, section.length,
                                                       minimumStartIndex, maximumStartIndex);
        assert minimumStartIndex == WindowLow(v, sections, lineSectionKey);
        assert maximumStartIndex == WindowHigh(v, line.minimumSectionLength, sections, lineSectionKey);
        OffsetNext(sections, lineSectionKey);
        NarrowStep(lines1, k, line, v, lineSectionKey, newPossibleStartIndexes);
        minimumStartIndex := minimumStartIndex + section.length + 1;
        maximumStartIndex := maximumStartIndex + section.length + 1;
        lines := Narrowed(lines, k, lineSectionKey, newPossibleStartIndexes);
        lineSectionKey := lineSectionKey + 1;
      }
      EliminatedShape(line, puzzle.width, puzzle.height, v);
      ReplaceKeepsValid(lines1, puzzle.cells, puzzle.width, puzzle.height, k,
                        line.(sections := Eliminated(v, line.minimumSectionLength, sections)));
    }

    /** The inner loops of `eliminateImpossibleFits` for one section (starts
        `ps`, clue `len`) of the line with cell positions `idx`: a copy of the
        starts from which each start that does not fit the window
        [minimumStartIndex, maximumStartIndex] or the line's cells is removed. */
    method SurvivingStarts(idx: seq<nat>, ps: seq<nat>, len: nat, minimumStartIndex: int, maximumStartIndex: int)
      returns (r: seq<nat>)
      requires forall p :: 0 <= p < |idx| ==> idx[p] < |puzzle.cells|
      requires StartsWellFormed(ps, |idx|)
      ensures r == Survivors(ps, View(puzzle.cells, idx), len, minimumStartIndex, maximumStartIndex)
    {
      ghost var v := View(puzzle.cells, idx);
      ghost var lo, hi := minimumStartIndex, maximumStartIndex;
      var newPossibleStartIndexes := new Utility.MutableList.Of(ps);
      ghost var list := newPossibleStartIndexes;
      var startIndexKey := 0;
      while startIndexKey < |ps|
        invariant 0 <= startIndexKey <= |ps|
        invariant newPossibleStartIndexes == list
        invariant list.elements == Survivors(ps[..startIndexKey], v, len, lo, hi) + ps[startIndexKey..]
        modifies list
      {
        ghost var kept, rest := Survivors(ps[..startIndexKey], v, len, lo, hi), ps[startIndexKey + 1..];
        StartApart(ps, startIndexKey, v, len, lo, hi);
        newPossibleStartIndexes := DropIfMisfit(newPossibleStartIndexes, idx, ps[startIndexKey], len,
                                                minimumStartIndex, maximumStartIndex, kept, rest);
        SurvivorsNext(ps, startIndexKey, v, len, lo, hi);
        startIndexKey := startIndexKey + 1;
      }
      assert ps[..startIndexKey] == ps;
      r := newPossibleStartIndexes.elements;
    }

    /** One turn of the start loop of `SurvivingStarts` over the line with
        cell positions `idx`: `possibleStartIndex`, held in `list` between
        `kept` and `rest`, is removed (once for each test it fails) unless it
        fits. */
    method DropIfMisfit(list: Utility.MutableList<nat>, idx: seq<nat>, possibleStartIndex: nat, len: nat,
                        minimumStartIndex: int, maximumStartIndex: int, ghost kept: seq<nat>, ghost rest: seq<nat>)
      returns (r: Utility.MutableList<nat>)
      requires forall p :: 0 <= p < |idx| ==> idx[p] < |puzzle.cells|
      requires possibleStartIndex < |idx|
      requires possibleStartIndex !in kept && possibleStartIndex !in rest
      requires list.elements == kept + [possibleStartIndex] + rest
      modifies list
      ensures r == list
      ensures list.elements == kept + (if Fits(View(puzzle.cells, idx), possibleStartIndex, len, minimumStartIndex, maximumStartIndex)
                                       then [possibleStartIndex] else []) + rest
    {
      ghost var v := View(puzzle.cells, idx);
      ghost var lo, hi := minimumStartIndex, maximumStartIndex;
      r := list;
      ghost var gone := false;
      if possibleStartIndex < minimumStartIndex || possibleStartIndex > maximumStartIndex {
        RemoveStartSpec(kept, possibleStartIndex, rest, gone);
        r := Utility.RemoveFromArray(r, possibleStartIndex);
        gone := true;
      }
      var testKey := possibleStartIndex + len;
      if testKey < |idx| && puzzle.cells[idx[testKey]].aiSolution == Filled {
        RemoveStartSpec(kept, possibleStartIndex, rest, gone);
        r := Utility.RemoveFromArray(r, possibleStartIndex);
        gone := true;
      }
      ghost var misfit := !(lo <= possibleStartIndex <= hi) || (testKey < |v| && v[testKey] == Filled);
      assert gone == misfit;
      var end := possibleStartIndex + len - 1;
      end := if end > |idx| - 1 then |idx| - 1 else end;
      var i := possibleStartIndex;
      while i <= end
        invariant possibleStartIndex <= i <= end + 1
        invariant r == list
        invariant list.elements == kept + (if gone then [] else [possibleStartIndex]) + rest
        invariant gone <==> misfit || exists q :: possibleStartIndex <= q < i && v[q] == Empty
        modifies list
      {
        if i > |idx| - 1 || puzzle.cells[idx[i]].aiSolution == Empty {
          RemoveStartSpec(kept, possibleStartIndex, rest, gone);
          r := Utility.RemoveFromArray(r, possibleStartIndex);
          gone := true;
        }
        i := i + 1;
      }
      assert !gone <==> Fits(v, possibleStartIndex, len, lo, hi);
    }

    /** `_setCellSolution`: decides cell `c` unless it is already decided,
        and marks every line through it whose cells are now all decided. */
    method SetCellSolution(c: nat, value: Tri)
      requires Valid() && c < |puzzle.cells| && value != Unknown
      modifies this`lines, puzzle`cells
      ensures Valid()
      ensures puzzle.cells == Written(old(puzzle.cells), c, value)
      ensures FlagsOnly(old(lines), lines)
    {
      if puzzle.cells[c].aiSolution != Unknown {
        return;
      }
      ghost var cells0 := puzzle.cells;
      ghost var lines0 := lines;
      MarkLines(c, value, cells0, puzzle.width, puzzle.height);
      WriteKeepsValid(lines0, lines, cells0, c, value, puzzle.width, puzzle.height);
      WriteKeepsPositions(cells0, c, value, puzzle.width, puzzle.height);
    }

    /** The loop of `_setCellSolution` over the lines, for an undecided cell:
        the first line through the cell writes it, and every line through it
        counts its decided cells and is marked solved when all are. */
    method MarkLines(c: nat, value: Tri, ghost cells0: seq<Cell>, width: nat, height: nat)
      requires puzzle.cells == cells0 && c < |cells0| && cells0[c].aiSolution == Unknown && value != Unknown
      requires width >= 1 && height >= 1 && |cells0| == width * height
      requires LinesLayout(lines, width, height) && CellAt(cells0[c], c, width, height)
      requires forall i :: 0 <= i < |cells0| ==> cells0[i].index == i
      modifies this`lines, puzzle`cells
      ensures puzzle.cells == Written(cells0, c, value)
      ensures FlagsOnly(old(lines), lines)
      ensures forall k :: 0 <= k < |lines| ==>
                lines[k].solved == (old(lines[k].solved) ||
                                    (c in lines[k].cells && AllDecided(View(puzzle.cells, lines[k].cells))))
    {
      var target := puzzle.cells[c];
      ghost var lines0 := lines;
      ghost var w := Written(cells0, c, value);
      LinesThroughCell(lines0, width, height, target, c);
      var lineKey := 0;
      while lineKey < |lines|
        invariant 0 <= lineKey <= |lines|
        invariant puzzle.cells == cells0 || puzzle.cells == w
        invariant lineKey > target.row ==> puzzle.cells == w
        invariant FlagsOnly(lines0, lines)
        invariant forall k :: 0 <= k < lineKey ==>
                    lines[k].solved == (lines0[k].solved ||
                                        (c in lines0[k].cells && AllDecided(View(w, lines0[k].cells))))
        invariant forall k :: lineKey <= k < |lines| ==> lines[k] == lines0[k]
        decreases |lines0| - lineKey
      {
        MarkLine(lineKey, c, value, target, cells0, w, lines0[lineKey]);
        lineKey := lineKey + 1;
      }
    }

    /** One turn of the line loop of `_setCellSolution`, for line `lineKey`
        (`line` when the call began): a line through the target cell
        writes the value into it and is marked solved when its count of
        decided cells reaches its length. */
    method MarkLine(lineKey: nat, c: nat, value: Tri, target: Cell, ghost cells0: seq<Cell>, ghost w: seq<Cell>, ghost line: Line)
      requires lineKey < |lines| && lines[lineKey] == line
      requires c < |cells0| && cells0[c].aiSolution == Unknown && value != Unknown && w == Written(cells0, c, value)
      requires forall i :: 0 <= i < |cells0| ==> cells0[i].index == i
      requires |line.cells| == line.length && forall p :: 0 <= p < |line.cells| ==> line.cells[p] < |cells0|
      requires Matches(line, target) <==> c in line.cells
      requires puzzle.cells == cells0 || puzzle.cells == w
      modifies this`lines, puzzle`cells
      ensures puzzle.cells == if c in line.cells then w else old(puzzle.cells)
      ensures lines == old(lines)[lineKey := line.(solved := line.solved || (c in line.cells && AllDecided(View(w, line.cells))))]
    {
      var isRow := lines[lineKey].lineType == Row && lines[lineKey].index == target.row;
      var isCol := lines[lineKey].lineType == Column && lines[lineKey].index == target.column;
      var cellsSolved := 0;
      if isRow || isCol {
        cellsSolved := WriteOnLine(lines[lineKey].cells, c, value, cells0);
        CountDecidedAll(w, line.cells);
        if cellsSolved == lines[lineKey].length {
          lines := lines[lineKey := lines[lineKey].(solved := true)];
        }
      }
    }

    /** `_getTotalSolved`: the number of decided cells. */
    method GetTotalSolved() returns (total: nat)
      ensures total == CountDecided(puzzle.cells, Offsets(|puzzle.cells|))
    {
      ghost var all := Offsets(|puzzle.cells|);
      total := 0;
      var cellKey := 0;
      while cellKey < |puzzle.cells|
        invariant 0 <= cellKey <= |puzzle.cells|
        invariant total == CountDecided(puzzle.cells, all[..cellKey])
      {
        assert all[..cellKey + 1][..cellKey] == all[..cellKey];
        total := total + if puzzle.cells[cellKey].aiSolution != Unknown then 1 else 0;
        cellKey := cellKey + 1;
      }
      assert all[..cellKey] == all;
    }

    /** `_getProgress`: the ceiling of start offsets over all lines less the
        offsets the sections still allow. */
    method GetProgress() returns (progress: int)
      ensures progress == Progress(lines, puzzle.width, puzzle.height)
    {
      var maxPossibilities := 0;
      var totalPossibilities := 0;
      var lineKey := 0;
      while lineKey < |lines|
        invariant 0 <= lineKey <= |lines|
        invariant maxPossibilities == MaxPlacements(lines[..lineKey], puzzle.width, puzzle.height)
        invariant totalPossibilities == StartsLeftAll(lines[..lineKey])
      {
        var line := lines[lineKey];
        assert lines[..lineKey + 1][..lineKey] == lines[..lineKey];
        maxPossibilities := maxPossibilities + |line.sections| * (if line.lineType == Row then puzzle.width else puzzle.height);
        var sectionKey := 0;
        while sectionKey < |line.sections|
          invariant 0 <= sectionKey <= |line.sections|
          invariant totalPossibilities == StartsLeftAll(lines[..lineKey]) + StartsLeft(line.sections[..sectionKey])
        {
          assert line.sections[..sectionKey + 1][..sectionKey] == line.sections[..sectionKey];
          totalPossibilities := totalPossibilities + |line.sections[sectionKey].possibleStartIndexes|;
          sectionKey := sectionKey + 1;
        }
        assert line.sections[..sectionKey] == line.sections;
        lineKey := lineKey + 1;
      }
      assert lines[..lineKey] == lines;
      progress := maxPossibilities - totalPossibilities;
    }

    /** `solve`: after a reset when needed, passes over all lines run the six
        rules on every unsolved line, for as long as a pass raises the
        progress and some cell is undecided.  The result says whether every
        cell got decided.  The loop ends because the progress never exceeds
        the ceiling of the lines one began with. */
    method Solve() returns (solved: bool)
      requires Valid() && puzzle.Populated()
      modifies this`lines, this`isReset, puzzle`cells
      ensures Valid() && !isReset
      ensures Grows(if old(isReset) then old(puzzle.cells) else Cleared(old(puzzle.cells)), puzzle.cells)
      ensures Narrower(if old(isReset) then old(lines)
                       else InitialLines(puzzle.rowHints, puzzle.columnHints, puzzle.width, puzzle.height), lines)
      ensures solved <==> forall i :: 0 <= i < |puzzle.cells| ==> puzzle.cells[i].aiSolution != Unknown
      ensures solved ==> forall k :: 0 <= k < |lines| ==> lines[k].solved
    {
      if !isReset {
        Reset();
      }
      isReset := false;
      var totalSolved := Passes();
      solved := totalSolved == |puzzle.cells|;
      AllCellsDecided(puzzle.cells);
      if solved {
        DecidedLinesSolved(lines, puzzle.cells, puzzle.width, puzzle.height);
      }
    }

    /** The pass loop of `solve`, which also returns the last count of
        decided cells. */
    method Passes() returns (totalSolved: nat)
      requires Valid()
      modifies this`lines, puzzle`cells
      ensures Valid() && Grows(old(puzzle.cells), puzzle.cells) && Narrower(old(lines), lines)
      ensures totalSolved == CountDecided(puzzle.cells, Offsets(|puzzle.cells|))
    {
      ghost var cells0, lines0 := puzzle.cells, lines;
      ghost var ceiling := MaxPlacements(lines0, puzzle.width, puzzle.height);
      var lastProgress := -1;
      var progress := GetProgress();
      totalSolved := GetTotalSolved();
      NarrowerProgress(lines0, lines, puzzle.width, puzzle.height);
      while progress > lastProgress && totalSolved < |puzzle.cells|
        invariant Valid() && Grows(cells0, puzzle.cells) && Narrower(lines0, lines)
        invariant progress == Progress(lines, puzzle.width, puzzle.height) <= ceiling
        invariant lastProgress <= ceiling && (lastProgress == -1 || lastProgress <= progress)
        invariant totalSolved == CountDecided(puzzle.cells, Offsets(|puzzle.cells|))
        decreases ceiling - lastProgress
      {
        lastProgress := progress;
        ghost var cells1, lines1 := puzzle.cells, lines;
        SolvePass();
        GrowsTransitive(cells0, cells1, puzzle.cells);
        NarrowerTransitive(lines0, lines1, lines);
        NarrowerProgress(lines1, lines, puzzle.width, puzzle.height);
        NarrowerProgress(lines0, lines, puzzle.width, puzzle.height);
        progress := GetProgress();
        totalSolved := GetTotalSolved();
      }
    }

    /** One pass of `solve`: the rules on every line in order. */
    method SolvePass()
      requires Valid()
      modifies this`lines, puzzle`cells
      ensures Valid() && Grows(old(puzzle.cells), puzzle.cells) && Narrower(old(lines), lines)
    {
      ghost var cells0, lines0 := puzzle.cells, lines;
      var lineKey := 0;
      while lineKey < |lines|
        invariant 0 <= lineKey <= |lines|
        invariant Valid() && Grows(cells0, puzzle.cells) && Narrower(lines0, lines)
      {
        ghost var cells1, lines1 := puzzle.cells, lines;
        SolveLine(lineKey);
        GrowsTransitive(cells0, cells1, puzzle.cells);
        NarrowerTransitive(lines0, lines1, lines);
        lineKey := lineKey + 1;
      }
    }

    /** The body of a pass for line `k`: each rule runs while the line is
        not yet solved. */
    method SolveLine(k: nat)
      requires Valid() && k < |lines|
      modifies this`lines, puzzle`cells
      ensures Valid() && Grows(old(puzzle.cells), puzzle.cells) && Narrower(old(lines), lines)
    {
      ghost var cells0, lines0 := puzzle.cells, lines;
      EliminateStep(k, cells0, lines0);
      KnownStep(k, cells0, lines0);
      ChainsStep(k, cells0, lines0);
      AnchoredStep(k, cells0, lines0);
      CompletedSectionsStep(k, cells0, lines0);
      CompletedLinesStep(k, cells0, lines0);
    }

    /** `eliminateImpossibleFits` when line `k` is unsolved.  Afterwards a
        line without clues is solved, since elimination decides all its
        cells empty. */
    method EliminateStep(k: nat, ghost cells0: seq<Cell>, ghost lines0: seq<Line>)
      requires Valid() && k < |lines| && Grows(cells0, puzzle.cells) && Narrower(lines0, lines)
      modifies this`lines, puzzle`cells
      ensures Valid() && Grows(cells0, puzzle.cells) && Narrower(lines0, lines)
      ensures lines[k].sections == [] ==> lines[k].solved
    {
      ghost var cells1, lines1 := puzzle.cells, lines;
      if !lines[k].solved {
        EliminateImpossibleFits(k);
        EliminatedNarrower(LineView(k), lines1[k].minimumSectionLength, lines1[k].sections);
        assert Narrower(lines1, lines);
        NarrowerTransitive(lines0, lines1, lines);
        GrowsTransitive(cells0, cells1, puzzle.cells);
      }
    }

    /** `findKnownPositivesAndNegatives` when line `k` is unsolved. */
    method KnownStep(k: nat, ghost cells0: seq<Cell>, ghost lines0: seq<Line>)
      requires Valid() && k < |lines| && Grows(cells0, puzzle.cells) && Narrower(lines0, lines)
      requires lines[k].sections == [] ==> lines[k].solved
      modifies this`lines, puzzle`cells
      ensures Valid() && Grows(cells0, puzzle.cells) && Narrower(lines0, lines)
      ensures lines[k].sections == [] ==> lines[k].solved
    {
      ghost var cells1, lines1 := puzzle.cells, lines;
      if !lines[k].solved {
        FindKnownPositivesAndNegatives(k);
        FlagsOnlyNarrower(lines1, lines);
        NarrowerTransitive(lines0, lines1, lines);
        GrowsTransitive(cells0, cells1, puzzle.cells);
      }
    }

    /** `findSectionDefiningChains` when line `k` is unsolved; such a line
        has clues, as that rule needs. */
    method ChainsStep(k: nat, ghost cells0: seq<Cell>, ghost lines0: seq<Line>)
      requires Valid() && k < |lines| && Grows(cells0, puzzle.cells) && Narrower(lines0, lines)
      requires lines[k].sections == [] ==> lines[k].solved
      modifies this`lines, puzzle`cells
      ensures Valid() && Grows(cells0, puzzle.cells) && Narrower(lines0, lines)
    {
      ghost var cells1, lines1 := puzzle.cells, lines;
      if !lines[k].solved {
        ghost var v, sections := LineView(k), lines[k].sections;
        FindSectionDefiningChains(k);
        MarkLongestNarrower(sections, HasChainOfLength(ChainsOf(v), LongestLength(sections)));
        SectionsNarrower(lines1, k, ChainSections(v, sections), lines);
        NarrowerTransitive(lines0, lines1, lines);
        GrowsTransitive(cells0, cells1, puzzle.cells);
      }
    }

    /** `findAnchoredSections` when line `k` is unsolved. */
    method AnchoredStep(k: nat, ghost cells0: seq<Cell>, ghost lines0: seq<Line>)
      requires Valid() && k < |lines| && Grows(cells0, puzzle.cells) && Narrower(lines0, lines)
      modifies this`lines, puzzle`cells
      ensures Valid() && Grows(cells0, puzzle.cells) && Narrower(lines0, lines)
    {
      ghost var cells1, lines1 := puzzle.cells, lines;
      if !lines[k].solved {
        FindAnchoredSections(k);
        FlagsOnlyNarrower(lines1, lines);
        NarrowerTransitive(lines0, lines1, lines);
        GrowsTransitive(cells0, cells1, puzzle.cells);
      }
    }

    /** `findCompletedSections` when line `k` is unsolved. */
    method CompletedSectionsStep(k: nat, ghost cells0: seq<Cell>, ghost lines0: seq<Line>)
      requires Valid() && k < |lines| && Grows(cells0, puzzle.cells) && Narrower(lines0, lines)
      modifies this`lines, puzzle`cells
      ensures Valid() && Grows(cells0, puzzle.cells) && Narrower(lines0, lines)
    {
      ghost var cells1, lines1 := puzzle.cells, lines;
      if !lines[k].solved {
        ghost var sections := lines[k].sections;
        FindCompletedSections(k);
        MarkPinnedNarrower(sections);
        SectionsNarrower(lines1, k, MarkPinned(sections), lines);
        NarrowerTransitive(lines0, lines1, lines);
        GrowsTransitive(cells0, cells1, puzzle.cells);
      }
    }

    /** `findCompletedLines` when line `k` is unsolved. */
    method CompletedLinesStep(k: nat, ghost cells0: seq<Cell>, ghost lines0: seq<Line>)
      requires Valid() && k < |lines| && Grows(cells0, puzzle.cells) && Narrower(lines0, lines)
      modifies this`lines, puzzle`cells
      ensures Valid() && Grows(cells0, puzzle.cells) && Narrower(lines0, lines)
    {
      ghost var cells1, lines1 := puzzle.cells, lines;
      if !lines[k].solved {
        FindCompletedLines(k);
        FlagsOnlyNarrower(lines1, lines);
        NarrowerTransitive(lines0, lines1, lines);
        GrowsTransitive(cells0, cells1, puzzle.cells);
      }
    }
  }
}
