/** `PuzzleCell` (src/generator/puzzle-cell.ts): one grid cell's identity and
    its three solution states. */
module PuzzleCells {
  import opened Wrappers

  /** The deduced value of a cell: `null`, `0` or `1` in the source. */
  datatype Tri = Unknown | Empty | Filled

  /** A cell record.  `solution` and `userSolution` hold any number or `null`
      (`None`); `aiSolution` is only ever `null`, `0` or `1`. */
  datatype Cell = Cell(
    index: int,
    column: int,
    row: int,
    solution: Option<int>,
    userSolution: Option<int>,
    aiSolution: Tri)

  /** The constructor's optional parameter object: `None` for a key that is
      not present. */
  datatype CellParams = CellParams(
    index: Option<int>,
    column: Option<int>,
    row: Option<int>,
    solution: Option<Option<int>>,
    userSolution: Option<Option<int>>,
    aiSolution: Option<Tri>)

  /** A parameter object that sets nothing. */
  const NoCellParams := CellParams(None, None, None, None, None, None)

  function Pick<T>(given: Option<T>, default: T): T
  {
    if given.Some? then given.value else default
  }

  /** `new PuzzleCell(params)`: every field starts at its default (-1 for the
      position fields, `null` for the three solutions) and `Object.assign`
      overwrites exactly the fields present in `params`. */
  function NewCell(params: Option<CellParams>): (c: Cell)
    ensures params.None? ==>
              c.index == -1 && c.column == -1 && c.row == -1 &&
              c.solution.None? && c.userSolution.None? && c.aiSolution == Unknown
    ensures params.Some? ==>
              (params.value.index.Some? ==> c.index == params.value.index.value) &&
              (params.value.column.Some? ==> c.column == params.value.column.value) &&
              (params.value.row.Some? ==> c.row == params.value.row.value) &&
              (params.value.solution.Some? ==> c.solution == params.value.solution.value) &&
              (params.value.userSolution.Some? ==> c.userSolution == params.value.userSolution.value) &&
              (params.value.aiSolution.Some? ==> c.aiSolution == params.value.aiSolution.value)
  {
    var p := if params.Some? then params.value else NoCellParams;
    Cell(Pick(p.index, -1), Pick(p.column, -1), Pick(p.row, -1),
         Pick(p.solution, None), Pick(p.userSolution, None), Pick(p.aiSolution, Unknown))
  }

  /** A field missing from `params` keeps the value a parameterless cell has;
      in particular a cell created without `aiSolution` starts undecided. */
  lemma NewCellKeepsDefaults(p: CellParams)
    ensures p.index.None? ==> NewCell(Some(p)).index == NewCell(None).index
    ensures p.column.None? ==> NewCell(Some(p)).column == NewCell(None).column
    ensures p.row.None? ==> NewCell(Some(p)).row == NewCell(None).row
    ensures p.solution.None? ==> NewCell(Some(p)).solution == NewCell(None).solution
    ensures p.userSolution.None? ==> NewCell(Some(p)).userSolution == NewCell(None).userSolution
    ensures p.aiSolution.None? ==> NewCell(Some(p)).aiSolution == Unknown
  {
  }

  /** The value a deduced cell contributes to `solution` (`aiSolution` copied
      into a number field). */
  function AsNumber(t: Tri): (n: Option<int>)
    ensures t == Unknown <==> n.None?
    ensures t == Empty <==> n == Some(0)
    ensures t == Filled <==> n == Some(1)
  {
    match t
    case Unknown => None
    case Empty => Some(0)
    case Filled => Some(1)
  }
}
