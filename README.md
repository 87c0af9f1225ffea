# Nonogram generator and solver, modelled in Dafny

This project models the puzzle core of the Etsi0/nonogram game.

- **Puzzle.** A `Puzzle` is a `width` x `height` grid of `PuzzleCell`s, laid out row-major. Each row and each column has a clue list (`rowHints`, `columnHints`).
- **Solver.** The `Solver` deduces cells one line at a time. It applies six rules in passes (`eliminateImpossibleFits`, `findKnownPositivesAndNegatives`, `findSectionDefiningChains`, `findAnchoredSections`, `findCompletedSections`, `findCompletedLines`). It stops when a pass rules out no further start offset or every cell is decided.
- **Creator.** The `Creator` builds a puzzle in one of three ways: from a grid of numbers, from clue lists, or from random draws. It keeps only puzzles the solver finishes.
- **NonogramGenerator.** It paints shapes (a diamond, a frame) on a square boolean grid and reads clue lists back from it. Its subclass `AdvancedNonogramGenerator` checks that every clue list fits in the grid.

## How the model works

**State.** Classes keep the source's mutable state:
- `Puzzle`: cells, clues, grid and creator;
- `Solver`: lines and the `isReset` flag;
- `Creator`: the last puzzle;
- `NonogramGenerator`: an `array2<bool>` grid.

**The cell list.** The cell list is one sequence of `Cell` values. A line holds the positions of its cells in that list. Row lines and column lines therefore see the same cell, as the shared `PuzzleCell` objects do in the source. A cell's `aiSolution` (`null`, `0`, `1`) is `Tri` (`Unknown`, `Empty`, `Filled`).

**The solver's rules.** Each rule is specified twice:
- in module `LineLogic`, as a function from a line's current view (its cells' deduced values, in line order) to the view after the rule;
- in module `Solving`, as a method of `Solver`, proved to have exactly that effect on the line. The method writes only that line's cells and only changes the `solved` flags of the lines (or the start offsets the rule narrows).

Lemmas then state what each rule means. For example:
- a cell every start of a section covers becomes filled;
- chains are exactly the maximal filled runs;
- deductions never lower `_getProgress`.

**Clue encodings.** All three clue encodings are proved against one run-length function, `Runs.RunLengths`:
- the raw push/increment/clean-up loop of `_populatePuzzleFromGrid`;
- the `currentRun` counter of `generateClues`;
- the painting of a line from its clues.

## Model

| member | source | states |
|---|---|---|
| Utility.IndexOf | src/generator/utility.ts:5 | `indexOf`: -1 exactly when the value is absent; otherwise the index of its first occurrence |
| Utility.RemoveFirstSpec | src/generator/utility.ts:4-12 | removing a value changes nothing when it is absent; otherwise exactly its first occurrence goes and the rest keep their order |
| Utility.RemoveFirstAt | src/generator/utility.ts:4-12 | removing `v` from `a + [v] + b` with no `v` in `a` leaves `a + b` |
| Utility.RemoveFromArray | src/generator/utility.ts:4-12 | `removeFromArray` mutates the given list in place to that removal and returns the same list object |
| Utility.ZeroFilled | src/generator/utility.ts:14-16 | `getZeroFilledArray(n)` is `n` zeros |
| Utility.CloneArray | src/generator/utility.ts:18-20 | `cloneArray` is a fresh list object with the same elements |
| Utility.RemoveFromClone | src/generator/solver.ts:149-158 | removing from a clone leaves the original list untouched |
| Utility.RandomIntBetween | src/generator/utility.ts:22-27 | for integer bounds and a draw in [0,1), the result lies between the bounds |
| PuzzleCells.NewCell | src/generator/puzzle-cell.ts:14-27 | a cell without parameters has index/column/row -1 and no values; given keys override exactly those fields |
| PuzzleCells.NewCellKeepsDefaults | src/generator/puzzle-cell.ts:22-27 | every key missing from the parameter object keeps the parameterless default |
| PuzzleCells.AsNumber | src/generator/creator.ts:219-220 | the number a deduced value stands for: `null` for undecided, 0 for empty, 1 for filled, and each only so |
| PuzzleLines.NewLine | src/generator/puzzle-line.ts:26-39 | a line without parameters is `''`, index -1, length 0, no sections or cells, unsolved; given keys override exactly those fields |
| PuzzleLines.NewLineKeepsDefaults | src/generator/puzzle-line.ts:35-39 | every key missing from the parameter object keeps its default |
| Puzzles.CheckDimensions | src/generator/puzzle.ts:24-29 | a missing dimension throws the "required" error; a non-positive one or 1 x 1 throws "invalid dimensions"; exactly the valid pairs pass |
| Puzzles.Puzzle.constructor | src/generator/puzzle.ts:24-36 | a puzzle of the given size has `totalCells = width * height` and is in the reset state |
| Puzzles.Puzzle.New | src/generator/puzzle.ts:24-36 | the constructor with its checks: fails with the check's error exactly when the check fails, otherwise a fresh reset puzzle of that size |
| Puzzles.ZeroGrid | src/generator/puzzle.ts:48-50 | `height` rows of `width` zeros |
| Puzzles.Puzzle.Reset | src/generator/puzzle.ts:41-51 | `reset` clears the creator, cells and clues, rebuilds the zero grid and keeps the dimensions |
| Puzzles.EveryCellMatches | src/generator/puzzle.ts:54-58 | true exactly when every cell's solution equals the player's mark counted as 1 or 0 |
| Puzzles.Puzzle.CheckUserSolution | src/generator/puzzle.ts:53-59 | the same for the puzzle's cells: true on no cells, false when some cell has no solution |
| Puzzles.RowIndices | src/generator/puzzle.ts:61-71 | the `width` positions of a row |
| Puzzles.Puzzle.GetRowCells | src/generator/puzzle.ts:61-71 | `getRowCells` is the row's `width` positions, or `false` for width 0 |
| Puzzles.ColumnIndices | src/generator/puzzle.ts:73-81 | the `height` positions of a column |
| Puzzles.Puzzle.GetColumnCells | src/generator/puzzle.ts:73-81 | `false` exactly when the column start lies past the cell list; otherwise every position `column + k*width` below the list's end, in order |
| Puzzles.ColumnCellsOfFullGrid | src/generator/puzzle.ts:73-81 | on a full `width * height` list, `getColumnCells` of an existing column is that column's `height` positions |
| Puzzles.PositionUnique | src/generator/puzzle.ts:61-81 | two grid coordinates with the same row-major position are equal, so rows and columns never share a position twice |
| Puzzles.Puzzle.GetCellByIndex | src/generator/puzzle.ts:83-86 | the cell at the index when it is in the list, `false` otherwise |
| Runs.RunsPositive | dist/nonogramGenerator.js:213-225 | every run length is positive |
| Runs.RunsSum | dist/nonogramGenerator.js:213-225 | the run lengths add up to the number of filled cells |
| Runs.NoRunsIffBlank | dist/nonogramGenerator.js:226-228 | a line has no runs exactly when it has no filled cell |
| Runs.RunsFit | dist/advancedNonogramGenerator.js:59 | runs plus one gap between neighbours fit the line they were read from |
| Runs.PaintRoundTrip | dist/nonogramGenerator.js:210-228 | the inverse of the run-length encoding `generateClues` and `_populatePuzzleFromGrid` compute: painting runs of the clue lengths separated by gaps and encoding the line gives the clues back |
| Runs.RawHintsStep | src/generator/creator.ts:253-274 | one turn of the row scan applies the push/increment step to the entry after the previous one |
| Runs.RawHintsAreRuns | src/generator/creator.ts:266-282 | on a 0/1 line the raw list, without its zeros, is the run lengths of the line |
| Runs.CleanHintsSpec | src/generator/creator.ts:248-282 | on 0/1 lines the creator's clues are the run lengths: positive, summing to the filled count, empty exactly for a blank line |
| Creators.ShapeFailureSticks | src/generator/creator.ts:118-130 | the first row that fails the check decides the error thrown |
| Creators.ShapeOfSuccess | src/generator/creator.ts:118-130 | an accepted grid has one row per entry, all arrays, each as long as the width or preceded only by empty rows |
| Creators.RectangularShape | src/generator/creator.ts:118-130 | arrays of one non-zero length pass with that width and their count as height |
| Creators.MeasureGrid | src/generator/creator.ts:118-130 | the forEach computes the same shape or error as the row-by-row definition |
| Creators.GridAcceptedIff | src/generator/creator.ts:114-135 | a grid gets a puzzle exactly when it is a non-empty array of arrays of one non-zero length with valid dimensions |
| Creators.GridCellsLaid | src/generator/creator.ts:259-264 | the pushed cells are laid out row-major: cell `i` is at row `i / width`, column `i % width`, with the grid value as solution |
| Creators.GridHints | src/generator/creator.ts:248-311 | on a rectangular 0/1 grid, row and column clues are the run lengths of the rows and columns and add up to their filled counts |
| Creators.PopulatePuzzleFromGrid | src/generator/creator.ts:231-314 | resets the puzzle, stores the grid, pushes one cell per entry and sets the row and column clues, keeping the dimensions and returning the same puzzle |
| Creators.ScanRow | src/generator/creator.ts:249-274 | one row pushes that row's cells and returns its raw clue list |
| Creators.CleanUpHints | src/generator/creator.ts:277-282 | the clean-up loop keeps the positive entries in order |
| Creators.ScanColumn | src/generator/creator.ts:286-302 | walking `cell += width` reads the column top to bottom and returns its raw clue list |
| Creators.DrawnSum | src/generator/creator.ts:48-50 | the filled count is between 0 and the cell count; 0 exactly when no draw is below the chance, full exactly when every one is |
| Creators.ChanceOfFill | src/generator/creator.ts:23-37 | the caller's density when it is a number in [0,1], otherwise a value in [0.2, 0.8] |
| Creators.RowsAfterShape | src/generator/creator.ts:48-58 | after `i` turns the finished rows are `width` long and, followed by the row in progress, hold the first `i` values |
| Creators.DrawCells | src/generator/creator.ts:48-58 | the loop yields the drawn values row-major, a last row of 1 to `width` values, and the filled count |
| Creators.AttemptGrid | src/generator/creator.ts:70 | pushing the last row completes a `height` x `width` grid holding the drawn values row-major |
| Creators.PushGridCells | src/generator/creator.ts:191-199 | `createFromHints` pushes one cell per grid entry, row-major, without solutions |
| Creators.BlankCellsLaid | src/generator/creator.ts:191-199 | those cells are laid out row-major with no solution and no marks |
| Creators.CopySolutions | src/generator/creator.ts:216-222 | every cell gets its deduced value copied into `solution` |
| Creators.PopulateAndSolve | src/generator/creator.ts:136-142 | populating and solving keeps the clues and grid and only adds deductions; it answers solved exactly when every cell is decided |
| Creators.SolveDrawn | src/generator/creator.ts:70-78 | an attempt that was not rejected populates the puzzle from the drawn values and answers solved exactly when every cell is decided |
| Creators.SolveFromHints | src/generator/creator.ts:190-222 | the cells are laid out row-major and get solutions only when the solver decided every cell |
| Creators.Creator.CreateFromGrid | src/generator/creator.ts:102-156 | throws each of the source's errors for its inputs and never throws for an accepted grid; otherwise a fresh puzzle of the grid's size with its clues, returned exactly when the solver decides every cell and `false` otherwise |
| Creators.Creator.CreateFromHints | src/generator/creator.ts:161-229 | throws when the clue object or its arrays are missing or the size is invalid; otherwise a puzzle with the given clues, returned with solutions exactly when solved |
| Creators.Creator.RandomAttempt | src/generator/creator.ts:36-93 | an attempt is rejected exactly when no cell or every cell is filled; it is accepted exactly when the solver decides the populated puzzle |
| Creators.Creator.CreateRandom | src/generator/creator.ts:20-97 | throws exactly on invalid dimensions; the attempt is rejected for no filled cell or for every cell filled exactly in those cases, and accepted exactly when the solver decides the rest; a populated puzzle holds the drawn grid, its row and column clues and the drawn values as solutions; only an accepted puzzle has this creator |
| LineLogic.View | src/generator/solver.ts:508-544 | a line's view is its cells' deduced values in line order |
| LineLogic.Decide | src/generator/solver.ts:517-532 | writing one cell keeps every decided value |
| LineLogic.LeadingEmpty | src/generator/solver.ts:130-136 | the count of known-empty cells starting the line, stopping at the first other cell |
| LineLogic.TrailingEmpty | src/generator/solver.ts:139-145 | the count of known-empty cells ending the line |
| LineLogic.Survivors | src/generator/solver.ts:152-175 | the starts that remain are drawn from the old ones and fit the window and the known cells |
| LineLogic.SurvivorsSubList | src/generator/solver.ts:152-175 | no remaining start repeats, and every old start that fits remains |
| LineLogic.Eliminated | src/generator/solver.ts:147-180 | each section is narrowed within its window, shifted by the sections before it |
| LineLogic.SurvivorFitsInLine | src/generator/solver.ts:157-178 | every remaining start leaves room for its run inside the line |
| LineLogic.CoverCountMeaning | src/generator/solver.ts:202-211 | a cell's count reaches the number of starts exactly when every start covers it, and is 0 exactly when none does |
| LineLogic.TotalCoverZero | src/generator/solver.ts:225-231 | the total count is 0 exactly when no start of any section covers the cell |
| LineLogic.KnownCellsMeaning | src/generator/solver.ts:183-233 | an undecided cell every start of some section covers becomes filled; it becomes empty exactly when no start covers it |
| LineLogic.KnownByPhases | src/generator/solver.ts:197-232 | the per-section filling phases, then the emptying phase, give the rule's result |
| LineLogic.ChainsAreRuns | src/generator/solver.ts:315-331 | the chains the scan collects are maximal filled runs, in increasing order |
| LineLogic.RunsAreChains | src/generator/solver.ts:315-331 | every maximal filled run is one of the chains |
| LineLogic.LongestSection | src/generator/solver.ts:309-312 | the first section of greatest length |
| LineLogic.CapChainsMeaning | src/generator/solver.ts:334-348 | the chain rule only writes "empty", and only on an undecided cell next to a run as long as the longest section |
| LineLogic.ChainLoopDone | src/generator/solver.ts:334-348 | the loop over all chains gives the chain rule and finds whether a chain has that length |
| LineLogic.StartAnchorRange | src/generator/solver.ts:246-255 | a range exists exactly when the first cell not known empty is filled; it starts there and spans the first section |
| LineLogic.EndAnchorRange | src/generator/solver.ts:269-278 | the mirror range at the end of the line |
| LineLogic.AnchorStartMeaning | src/generator/solver.ts:257-266 | the first section's cells from the first filled one become filled, and the next undecided cell empty |
| LineLogic.AnchorStartBlocked | src/generator/solver.ts:248-250 | an undecided cell before any filled one leaves the line unchanged |
| LineLogic.FillAnchorSteps | src/generator/solver.ts:257-266 | the anchor fills the range, then decides the cap when it lies on the line |
| LineLogic.CapPinned | src/generator/solver.ts:351-377 | the only change is "empty" on an undecided cell next to a section with one start left |
| LineLogic.MarkPinned | src/generator/solver.ts:362-374 | a section with one start left is marked solved, and no other changes |
| LineLogic.PinnedAll | src/generator/solver.ts:358-376 | the loop over the sections yields exactly the rule's view and marks |
| LineLogic.CompleteLine | src/generator/solver.ts:379-407 | once the filled cells add up to the clue total the line is fully decided; otherwise nothing changes |
| LineLogic.AllUnknownEmpty | src/generator/solver.ts:123-127 | a line without clues has every undecided cell set empty |
| Solving.MatchesIffOnLine | src/generator/solver.ts:523-527 | the row/column test of `_setCellSolution` holds exactly when the cell lies on the line |
| Solving.Written | src/generator/solver.ts:517-532 | writing cell `c` changes only `c`, and only when it was undecided |
| Solving.CountDecidedAll | src/generator/solver.ts:528-541 | the solved count of a line reaches its length exactly when all its cells are decided |
| Solving.WriteKeepsValid | src/generator/solver.ts:521-543 | after a write, a line is marked solved exactly when all its cells are decided |
| Solving.InitialLinesValid | src/generator/solver.ts:409-506 | after a reset there is one unsolved line per row, then per column, over the right cells |
| Solving.LineFromClues | src/generator/solver.ts:451-472 | one section per clue, each free to start anywhere, and `minimumSectionLength` is the clue total plus gaps |
| Solving.CountCovers | src/generator/solver.ts:199-211 | the counting loops give, per cell, the number of starts covering it |
| Solving.SumSectionLengths | src/generator/solver.ts:388-391 | the sum of the clue lengths |
| Solving.EliminatedNarrower | src/generator/solver.ts:147-180 | elimination only drops start offsets |
| Solving.NarrowerProgress | src/generator/solver.ts:566-583 | deductions never lower the progress and never raise it past its ceiling |
| Solving.SolvedStays | src/generator/solver.ts:539-541 | a line marked solved stays marked |
| Solving.DecidedLinesSolved | src/generator/solver.ts:92 | once every cell is decided every line is solved |
| Solving.AllCellsDecided | src/generator/solver.ts:553-561 | the decided count reaches the cell count exactly when every cell is decided |
| Solving.Solver.constructor | src/generator/solver.ts:31-34 | clears every deduction and builds the initial lines |
| Solving.Solver.Reset | src/generator/solver.ts:409-506 | every cell undecided and the initial lines, with the layout invariant |
| Solving.Solver.SetCellSolution | src/generator/solver.ts:508-544 | decides an undecided cell and marks solved every line through it that became fully decided |
| Solving.Solver.EliminateImpossibleFits | src/generator/solver.ts:108-181 | a line without clues becomes all empty; every section's starts are narrowed to those that fit |
| Solving.Solver.StartWindow | src/generator/solver.ts:109-145 | the window is bounded by the leading and trailing known-empty cells |
| Solving.Solver.SurvivingStarts | src/generator/solver.ts:149-175 | the clone ends up holding exactly the starts that fit |
| Solving.Solver.FindKnownPositivesAndNegatives | src/generator/solver.ts:183-233 | the line's view becomes `KnownCells` of its sections |
| Solving.Solver.FindSectionDefiningChains | src/generator/solver.ts:293-349 | the view becomes `DefiningChains`; the longest section is marked solved when a chain has its length |
| Solving.Solver.CollectChains | src/generator/solver.ts:315-331 | the scan collects `ChainsOf` the view |
| Solving.Solver.FindAnchoredSections | src/generator/solver.ts:235-291 | the view becomes `Anchored` |
| Solving.Solver.ScanFromStart | src/generator/solver.ts:246-255 | the range found is `StartAnchorRange` |
| Solving.Solver.ScanFromEnd | src/generator/solver.ts:269-278 | the range found is `EndAnchorRange` |
| Solving.Solver.FindCompletedSections | src/generator/solver.ts:351-377 | the view becomes `CapPinned` and pinned sections are marked solved |
| Solving.Solver.FindCompletedLines | src/generator/solver.ts:379-407 | the view becomes `CompleteLine` |
| Solving.Solver.CountLineFilled | src/generator/solver.ts:393-396 | counts the filled cells of the line |
| Solving.Solver.GetTotalSolved | src/generator/solver.ts:553-561 | the number of decided cells |
| Solving.Solver.GetProgress | src/generator/solver.ts:566-583 | the start offsets ruled out so far |
| Solving.Solver.Solve | src/generator/solver.ts:36-106 | resets when needed and only adds deductions; true exactly when every cell is decided, and then every line is solved |
| NonogramGenerators.NonogramGenerator.constructor | dist/nonogramGenerator.js:5-8 | a fresh `size` x `size` grid with every cell off |
| NonogramGenerators.NonogramGenerator.ClearGrid | dist/nonogramGenerator.js:279-281 | replaces the grid by a fresh one with every cell off |
| NonogramGenerators.NonogramGenerator.IsValidPosition | dist/nonogramGenerator.js:276-278 | true exactly when the position indexes the grid |
| NonogramGenerators.NonogramGenerator.DrawDiamond | dist/nonogramGenerator.js:121-132 | turns on exactly the cells within Manhattan distance `floor(0.3 size)` of the centre; no cell is turned off |
| NonogramGenerators.DiamondWithinGrid | dist/nonogramGenerator.js:121-132 | the diamond lies inside the grid |
| NonogramGenerators.NonogramGenerator.DrawFrame | dist/nonogramGenerator.js:153-163 | turns on exactly the cells within `floor(0.15 size)` of an edge; no cell is turned off |
| NonogramGenerators.FrameSymmetric | dist/nonogramGenerator.js:157-158 | the frame is symmetric top to bottom, left to right and across the diagonal |
| NonogramGenerators.FrameWidth | dist/nonogramGenerator.js:154 | below size 7 the frame is empty; from size 7 every edge cell is in it |
| NonogramGenerators.NonogramGenerator.RowPrefix | dist/nonogramGenerator.js:212-213 | the first `n` cells of a row, left to right |
| NonogramGenerators.NonogramGenerator.ColumnPrefix | dist/nonogramGenerator.js:233-234 | the first `n` cells of a column, top to bottom |
| NonogramGenerators.ScanLineRuns | dist/nonogramGenerator.js:211-225 | the `currentRun` counter is a run-length encoder: pushed clues plus the open run are the runs read so far |
| NonogramGenerators.ScanLineClues | dist/nonogramGenerator.js:211-228 | finishing the scan gives the line's run lengths, or `[0]` for a line with no filled cell |
| NonogramGenerators.NonogramGenerator.RowClues | dist/nonogramGenerator.js:210-229 | one row's clue list |
| NonogramGenerators.NonogramGenerator.ColumnClues | dist/nonogramGenerator.js:231-250 | one column's clue list, read top to bottom |
| NonogramGenerators.NonogramGenerator.GenerateClues | dist/nonogramGenerator.js:206-252 | `size` clue lists per axis, each that line's runs, or `[0]` for a line with no filled cell |
| NonogramGenerators.CluesSpec | dist/nonogramGenerator.js:206-252 | a clue list is `[0]` exactly when the line has no filled cell; otherwise its clues are positive, and its sum is the filled count |
| NonogramGenerators.CluesFit | dist/nonogramGenerator.js:206-252 | the clues read from a line need no more cells than the line has |
| NonogramGenerators.NonogramGenerator.ValidateSolvability | dist/advancedNonogramGenerator.js:54-72 | true exactly when every column and every row clue list needs at most `size` cells (sum plus one gap between neighbours) |
| NonogramGenerators.FitsIffRealisable | dist/advancedNonogramGenerator.js:59-62 | a well-formed clue list passes that test exactly when some line of `size` cells has those clues |
| NonogramGenerators.NonogramGenerator.GeneratedCluesFit | dist/advancedNonogramGenerator.js:54-72 | the clues `generateClues` reads from any grid are well formed and pass `validateSolvability` |

## Left out

**Outside the model**
- Timing, elapsed-time fields and the solver's and creator's logs (`_log`, `_logLine`, `solutionLog`) are not modelled. They have no effect on any result.
- Randomness is an input. Each `Math.random()` value is a parameter: one draw per cell and the fallback density draw. `generateLogicalNonogram` and its four random strategies are not part of this model, and neither are `drawCircle`, `drawCross`, `growFromSeed`, `isValidPattern`, `convertToGameObjects`, `generateWithDifficulty`, `matchesDifficulty` or `calculateComplexity`. They are random or floating-point scoring, or they write game objects and global settings.

**Floating point**
- The shape painters compute `Math.floor(size * 0.3)` and `Math.floor(size * 0.15)` as the exact `3 * size / 10` and `15 * size / 100`. Double-precision rounding is not modelled.
- Densities and draws are exact reals.

**Modelled differently from the source**
- Creators.Creator.CreateRandom: models one pass of the `while (puzzleValid === false)` loop. It returns whether that pass was rejected or accepted, instead of looping until a pass is accepted. The source loop need not terminate.
- Creators.Creator.CreateFromGrid: a grid with empty leading rows, such as `[[], [1, 0]]`, passes the source's checks. The source then builds a puzzle that is missing cells, and its solver throws a `TypeError` on the first missing cell. The model returns the error `CellsMissing` instead of simulating that failure.
- Creators.PopulatePuzzleFromGrid: requires the grid to have `puzzle.height` rows. Every caller in the source passes such a grid. For other grids the source reads past the end of the grid.
- Creators.Creator.CreateFromHints: clue entries are natural numbers. A `null` hints argument, which the source's `typeof` test lets through before failing, is folded into "not an object".
- NonogramGenerators.NonogramGenerator.ValidateSolvability: a method of the generator class. Dafny classes do not inherit, and the subclass's method only reads `size`.

**Solver**
- LineLogic.LongestSection: `findSectionDefiningChains` sorts the sections with a comparator that never returns 0. The model takes the first longest section. Among sections of equal length, the engine's sort may pick a different one; the chosen section's length is the same either way.
- Solving.Solver.FindSectionDefiningChains: requires the line to have a section whenever it has a chain. On a line without clues and with a filled cell, the source reads `firstSortedSection.length` of `undefined` and throws. `solve` only calls the rule on lines that `eliminateImpossibleFits` has not already emptied.
- The soundness of the deduction rules is not proved. The model proves what each rule writes; it does not prove that every puzzle `solve` finishes has a unique solution.
- In `eliminateImpossibleFits`, the test `i > line.length - 1` inside the range loop can never hold, because `end` is clamped to the line first. The model drops it.
