/** A single cell of a sub-board (src/cell.ts): its coordinates inside the
    sub-board and its value. */
module Cells {
  import opened Common
  import opened Grids

  datatype Cell = Cell(pos: Coord, value: Mark)

  /** The constructor: a cell at `pos` starts empty. */
  function NewCell(pos: Coord): (c: Cell)
    ensures c.pos == pos && c.value == None
  {
    Cell(pos, None)
  }

  /** `reset`: the value goes back to `null`; the coordinates stay, so the
      cell is again as freshly constructed. */
  function Reset(c: Cell): (r: Cell)
    ensures r == NewCell(c.pos)
  {
    c.(value := None)
  }

  /** Resetting twice is resetting once. */
  lemma ResetIdempotent(c: Cell)
    ensures Reset(Reset(c)) == Reset(c)
    ensures Reset(NewCell(c.pos)) == NewCell(c.pos)
  {
  }
}
