/** The master board of src/board.ts together with the two operations that
    drive it from below: the sub-board win check of src/masterCell.ts (which
    calls up into the master check) and the cell click of src/cell.ts. */
module MasterBoard {
  import opened Common
  import opened Grids
  import opened Lines
  import opened Cells
  import opened SubBoards

  /** The nine sub-boards. */
  type SubGrid = g: seq<seq<SubBoard>> | IsGrid(g) witness Fill(NewSubBoard)

  /** A click on cell `cell` of sub-board `sub`. */
  datatype Move = Move(sub: Coord, cell: Coord)

  /** The sub-boards, whose turn it is, and the coordinates of the last
      placed cell inside its own sub-board (the only part of
      `lastPlacedCell` that is ever read). */
  datatype Board = Board(subs: SubGrid, turn: Player, lastPlaced: Option<Coord>)

  /** The constructor: X to move, no cell placed yet, nine fresh sub-boards
      each constructed with its own coordinates. */
  function NewBoard(): (g: Board)
    ensures g.turn == X && g.lastPlaced == None
    ensures forall s :: At(g.subs, s) == NewSubBoard(s)
  {
    Board(Fill(NewSubBoard), X, None)
  }

  /** The sub-board values, the grid the master check reads. */
  function SubValues(g: Board): (m: Marks)
    ensures forall s :: At(m, s) == At(g.subs, s).value
  {
    Map(g.subs, (b: SubBoard) => b.value)
  }

  function CellAt(g: Board, m: Move): Cell {
    At(At(g.subs, m.sub).cells, m.cell)
  }

  /** `switchTurn`: the turn toggles; then, if a cell has been placed, the
      sub-board at that cell's own coordinates is consulted. If it has a
      value every sub-board is enabled; otherwise it is the only enabled one.
      Only `.value` is tested: a full but undecided target is still chosen. */
  function SwitchTurn(g: Board): (r: Board)
    ensures r.turn == Other(g.turn) && r.lastPlaced == g.lastPlaced
    ensures forall s :: SameExceptEnabled(At(r.subs, s), At(g.subs, s))
    ensures g.lastPlaced.None? ==> r.subs == g.subs
    ensures g.lastPlaced.Some? && At(g.subs, g.lastPlaced.value).value.Some? ==>
              forall s :: At(r.subs, s).enabled
    ensures g.lastPlaced.Some? && At(g.subs, g.lastPlaced.value).value.None? ==>
              forall s :: At(r.subs, s).enabled <==> s == g.lastPlaced.value
  {
    var turn := Other(g.turn);
    match g.lastPlaced
    case None => g.(turn := turn)
    case Some(t) =>
      if At(g.subs, t).value.Some? then
        g.(turn := turn, subs := Map(g.subs, Enable))
      else
        var disabled := Map(g.subs, Disable);
        g.(turn := turn, subs := Update(disabled, t, Enable(At(disabled, t))))
  }

  /** The master `checkWin`: the shared detector over the sub-board values,
      with the horizontal > vertical > diagonal priority. A line enables all
      nine sub-boards and does nothing else: no winner is recorded, the game
      does not end and the turn stays. */
  function CheckWin(g: Board): (r: Board)
    ensures r.turn == g.turn && r.lastPlaced == g.lastPlaced
    ensures forall s :: SameExceptEnabled(At(r.subs, s), At(g.subs, s))
    ensures HasLine(SubValues(g)) ==> forall s :: At(r.subs, s).enabled
    ensures !HasLine(SubValues(g)) ==> r == g
  {
    match PickWin(SubValues(g))
    case Some(_) => g.(subs := Map(g.subs, Enable))
    case None => g
  }

  /** The sub-board `checkWin` of sub-board `s`: on a line (horizontal, else
      vertical, else diagonal) the sub-board's value becomes the line's
      winner and the master check runs; without a line nothing changes. It
      returns nothing, so the caller's `isFinalWin` is always falsy. */
  function SubCheckWin(g: Board, s: Coord): (r: Board)
    ensures r.turn == g.turn && r.lastPlaced == g.lastPlaced
    ensures forall t :: At(r.subs, t).pos == At(g.subs, t).pos && At(r.subs, t).cells == At(g.subs, t).cells
    ensures forall t :: t != s ==> At(r.subs, t).value == At(g.subs, t).value
    ensures !HasLine(Values(At(g.subs, s).cells)) ==> r == g
    ensures HasLine(Values(At(g.subs, s).cells)) ==>
              At(r.subs, s).value == Winner(Values(At(g.subs, s).cells)) && At(r.subs, s).value.Some?
    ensures HasLine(Values(At(g.subs, s).cells)) && HasLine(SubValues(r)) ==>
              forall t :: At(r.subs, t).enabled
    ensures HasLine(Values(At(g.subs, s).cells)) && !HasLine(SubValues(r)) ==>
              forall t :: At(r.subs, t).enabled == At(g.subs, t).enabled
  {
    var b := At(g.subs, s);
    match PickWin(Values(b.cells))
    case None => g
    case Some(w) => CheckWin(g.(subs := Update(g.subs, s, b.(value := w.winner))))
  }

  /** The first half of a click on an empty cell: the cell takes the current
      turn and becomes the last placed cell. Nothing else changes, the
      clicked sub-board's value and flag included. */
  function Place(g: Board, m: Move): (r: Board)
    requires CellAt(g, m).value.None?
    ensures r.turn == g.turn && r.lastPlaced == Some(CellAt(g, m).pos)
    ensures CellAt(r, m) == CellAt(g, m).(value := Some(g.turn))
    ensures forall c :: c != m.cell ==> At(At(r.subs, m.sub).cells, c) == At(At(g.subs, m.sub).cells, c)
    ensures At(r.subs, m.sub).pos == At(g.subs, m.sub).pos
    ensures At(r.subs, m.sub).value == At(g.subs, m.sub).value
    ensures At(r.subs, m.sub).enabled == At(g.subs, m.sub).enabled
    ensures forall s :: s != m.sub ==> At(r.subs, s) == At(g.subs, s)
  {
    var b := At(g.subs, m.sub);
    var cell := At(b.cells, m.cell);
    var placed := b.(cells := Update(b.cells, m.cell, cell.(value := Some(g.turn))));
    g.(subs := Update(g.subs, m.sub, placed), lastPlaced := Some(cell.pos))
  }

  /** `onClick` on cell `m.cell` of sub-board `m.sub`. The DOM delivers the
      click only when that sub-board is enabled and undecided. An occupied
      cell ignores the click. Otherwise the cell takes the current turn,
      becomes the last placed cell, the sub-board check runs, and the turn
      switches unconditionally. */
  function OnClick(g: Board, m: Move): (r: Board)
    requires Open(At(g.subs, m.sub))
    ensures CellAt(g, m).value.Some? ==> r == g
    ensures CellAt(g, m).value.None? ==>
              && CellAt(r, m).value == Some(g.turn)
              && r.lastPlaced == Some(CellAt(g, m).pos)
              && r.turn == Other(g.turn)
  {
    if CellAt(g, m).value.Some? then g
    else SwitchTurn(SubCheckWin(Place(g, m), m.sub))
  }
}
