/** A sub-board (src/masterCell.ts): nine cells, the sub-board's own value
    and the abstract "enabled" flag that stands for the DOM pointer-events
    setting and the cover overlay. */
module SubBoards {
  import opened Common
  import opened Grids
  import opened Lines
  import opened Cells

  /** The nine cells of a sub-board. */
  type CellGrid = g: seq<seq<Cell>> | IsGrid(g) witness Fill(NewCell)

  datatype SubBoard = SubBoard(pos: Coord, cells: CellGrid, value: Mark, enabled: bool)

  /** The constructor: value `null`, nine empty cells, each constructed with
      its own coordinates, and no cover shown (enabled). */
  function NewSubBoard(pos: Coord): (b: SubBoard)
    ensures b.pos == pos && b.value == None && b.enabled
    ensures forall c :: At(b.cells, c) == NewCell(c)
  {
    SubBoard(pos, Fill(NewCell), None, true)
  }

  /** The values of nine cells, the grid a sub-board check reads. */
  function Values(cells: CellGrid): (m: Marks)
    ensures forall c :: At(m, c) == At(cells, c).value
  {
    Map(cells, (c: Cell) => c.value)
  }

  /** A click can reach a cell of `b` only when `b` is enabled (no cover, no
      `pointer-events: none`) and undecided (no big-value overlay). */
  predicate Open(b: SubBoard) {
    b.enabled && b.value.None?
  }

  /** All nine cells hold a mark. */
  ghost predicate Full(b: SubBoard) {
    forall c :: At(b.cells, c).value.Some?
  }

  /** Every cell's recorded coordinates are its position, and the sub-board's
      coordinates are `pos`. */
  ghost predicate WellPlaced(b: SubBoard, pos: Coord) {
    b.pos == pos && forall c :: At(b.cells, c).pos == c
  }

  /** `a` and `b` differ at most in the enabled flag. */
  predicate SameExceptEnabled(a: SubBoard, b: SubBoard) {
    a.pos == b.pos && a.cells == b.cells && a.value == b.value
  }

  /** `enable`: the flag becomes true and nothing else changes. */
  function Enable(b: SubBoard): (r: SubBoard)
    ensures r.enabled && SameExceptEnabled(r, b)
  {
    b.(enabled := true)
  }

  /** `disable`: the flag becomes false and nothing else changes. */
  function Disable(b: SubBoard): (r: SubBoard)
    ensures !r.enabled && SameExceptEnabled(r, b)
  {
    b.(enabled := false)
  }

  /** The private `checkHorizontal` copy, loop for loop: it reports exactly
      what the shared detector reports for the cell values. */
  method ScanHorizontal(b: SubBoard) returns (r: Line)
    ensures r == CheckHorizontal(Values(b.cells))
  {
    var i := 0;
    while i < 3
      invariant 0 <= i <= 3
      invariant forall k: Idx :: k < i ==> !RowLine(Values(b.cells), k)
    {
      var first := At(b.cells, Coord(i, 0)).value;
      if first.Some? {
        var j := 0;
        while j < 3
          invariant 0 <= j <= 3
          invariant forall k: Idx :: k < j ==> At(b.cells, Coord(i, k)).value == first
        {
          if At(b.cells, Coord(i, j)).value != first {
            break;
          }
          if j == 2 {
            assert FirstRow(Values(b.cells), i);
            return Line(first, Some(Coord(i, 0)), Some(Coord(i, 2)));
          }
          j := j + 1;
        }
      }
      i := i + 1;
    }
    return NoLine;
  }

  /** The private `checkVertical` copy: the same loops over columns. */
  method ScanVertical(b: SubBoard) returns (r: Line)
    ensures r == CheckVertical(Values(b.cells))
  {
    var i := 0;
    while i < 3
      invariant 0 <= i <= 3
      invariant forall k: Idx :: k < i ==> !ColLine(Values(b.cells), k)
    {
      var first := At(b.cells, Coord(0, i)).value;
      if first.Some? {
        var j := 0;
        while j < 3
          invariant 0 <= j <= 3
          invariant forall k: Idx :: k < j ==> At(b.cells, Coord(k, i)).value == first
        {
          if At(b.cells, Coord(j, i)).value != first {
            break;
          }
          if j == 2 {
            assert FirstCol(Values(b.cells), i);
            return Line(first, Some(Coord(0, i)), Some(Coord(2, i)));
          }
          j := j + 1;
        }
      }
      i := i + 1;
    }
    return NoLine;
  }

  /** The private `checkDiagonal` copy. */
  method ScanDiagonal(b: SubBoard) returns (r: Line)
    ensures r == CheckDiagonal(Values(b.cells))
  {
    var first := At(b.cells, Coord(0, 0)).value;
    if first.Some? {
      if At(b.cells, Coord(1, 1)).value == first && At(b.cells, Coord(2, 2)).value == first {
        return Line(first, Some(Coord(0, 0)), Some(Coord(2, 2)));
      }
    }
    var second := At(b.cells, Coord(0, 2)).value;
    if second.Some? {
      if At(b.cells, Coord(1, 1)).value == second && At(b.cells, Coord(2, 0)).value == second {
        return Line(second, Some(Coord(0, 2)), Some(Coord(2, 0)));
      }
    }
    return NoLine;
  }
}
