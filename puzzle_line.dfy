/** `PuzzleLine` and `PuzzleLineSection` (src/generator/puzzle-line.ts): a row
    or column of the grid with its clue sections. */
module PuzzleLines {
  import opened Wrappers

  /** The `type` string of a line: `''`, `'row'` or `'column'`. */
  datatype LineType = Untyped | Row | Column

  /** One clue number of a line and the offsets where its run may still start. */
  datatype Section = Section(
    index: nat,
    length: nat,
    possibleStartIndexes: seq<nat>,
    knownIndexes: seq<nat>,
    solved: bool)

  /** A line record.  `cells` holds the positions of the line's cells in the
      puzzle's cell list, so a row and a column that cross share a cell. */
  datatype Line = Line(
    lineType: LineType,
    index: int,
    length: int,
    minimumSectionLength: int,
    sections: seq<Section>,
    cells: seq<nat>,
    solved: bool)

  /** The constructor's optional parameter object: `None` for an absent key. */
  datatype LineParams = LineParams(
    lineType: Option<LineType>,
    index: Option<int>,
    length: Option<int>,
    minimumSectionLength: Option<int>,
    sections: Option<seq<Section>>,
    cells: Option<seq<nat>>,
    solved: Option<bool>)

  const NoLineParams := LineParams(None, None, None, None, None, None, None)

  function Pick<T>(given: Option<T>, default: T): T
  {
    if given.Some? then given.value else default
  }

  /** `new PuzzleLine(params)`: defaults `''`, -1, 0, 0, no sections, no
      cells, not solved; `Object.assign` overwrites exactly the fields present. */
  function NewLine(params: Option<LineParams>): (l: Line)
    ensures params.None? ==>
              l.lineType == Untyped && l.index == -1 && l.length == 0 &&
              l.minimumSectionLength == 0 && l.sections == [] && l.cells == [] && !l.solved
    ensures params.Some? ==>
              (params.value.lineType.Some? ==> l.lineType == params.value.lineType.value) &&
              (params.value.index.Some? ==> l.index == params.value.index.value) &&
              (params.value.length.Some? ==> l.length == params.value.length.value) &&
              (params.value.minimumSectionLength.Some? ==>
                 l.minimumSectionLength == params.value.minimumSectionLength.value) &&
              (params.value.sections.Some? ==> l.sections == params.value.sections.value) &&
              (params.value.cells.Some? ==> l.cells == params.value.cells.value) &&
              (params.value.solved.Some? ==> l.solved == params.value.solved.value)
  {
    var p := if params.Some? then params.value else NoLineParams;
    Line(Pick(p.lineType, Untyped), Pick(p.index, -1), Pick(p.length, 0),
         Pick(p.minimumSectionLength, 0), Pick(p.sections, []), Pick(p.cells, []),
         Pick(p.solved, false))
  }

  /** A field missing from `params` keeps its default. */
  lemma NewLineKeepsDefaults(p: LineParams)
    ensures p.lineType.None? ==> NewLine(Some(p)).lineType == Untyped
    ensures p.index.None? ==> NewLine(Some(p)).index == -1
    ensures p.length.None? ==> NewLine(Some(p)).length == 0
    ensures p.minimumSectionLength.None? ==> NewLine(Some(p)).minimumSectionLength == 0
    ensures p.sections.None? ==> NewLine(Some(p)).sections == []
    ensures p.cells.None? ==> NewLine(Some(p)).cells == []
    ensures p.solved.None? ==> !NewLine(Some(p)).solved
  {
  }
}
