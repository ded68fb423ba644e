/** The earlier single-file revision, src/main.ts: the same cells and
    sub-boards, but no enabled flags, no last placed cell, no master-board
    check, a plain turn toggle, and a sub-board check that applies all three
    line results in sequence. */
module SingleFile {
  import opened Common
  import opened Grids
  import opened Lines
  import opened Cells
  import SB = SubBoards
  import MB = MasterBoard
  import opened BoardProperties

  datatype SubBoard = SubBoard(pos: Coord, cells: SB.CellGrid, value: Mark)

  type SubGrid = g: seq<seq<SubBoard>> | IsGrid(g) witness Fill(NewSubBoard)

  datatype Board = Board(subs: SubGrid, turn: Player)

  /** The `MasterCell` constructor: value `null` and nine empty cells. */
  function NewSubBoard(pos: Coord): (b: SubBoard)
    ensures b.pos == pos && b.value == None
    ensures forall c :: At(b.cells, c) == NewCell(c)
  {
    SubBoard(pos, Fill(NewCell), None)
  }

  /** The `Board` constructor: X to move and nine fresh sub-boards. */
  function NewBoard(): (g: Board)
    ensures g.turn == X
    ensures forall s :: At(g.subs, s) == NewSubBoard(s)
  {
    Board(Fill(NewSubBoard), X)
  }

  /** Of the three results whose winner is set, the one applied last:
      diagonal overrides vertical, which overrides horizontal. */
  function DecidingLine(m: Marks): (r: Option<Line>)
    ensures r.Some? <==> HasLine(m)
    ensures HasDiag(m) ==> r == Some(CheckDiagonal(m))
    ensures !HasDiag(m) && HasCol(m) ==> r == Some(CheckVertical(m))
    ensures !HasDiag(m) && !HasCol(m) && HasRow(m) ==> r == Some(CheckHorizontal(m))
  {
    var h := CheckHorizontal(m);
    var v := CheckVertical(m);
    var d := CheckDiagonal(m);
    if d.winner.Some? then Some(d)
    else if v.winner.Some? then Some(v)
    else if h.winner.Some? then Some(h)
    else None
  }

  /** `checkWin`: each of the three results with a winner overwrites the
      value in turn, so the value ends as the deciding line's winner; with no
      line the value is left as it was. The class's private `check*` copies
      are the ones of src/masterCell.ts, line for line, so the shared
      detector stands for them here as `SubBoards.ScanHorizontal`,
      `ScanVertical` and `ScanDiagonal` prove it does there. */
  function CheckWin(b: SubBoard): (r: SubBoard)
    ensures r.pos == b.pos && r.cells == b.cells
    ensures !HasLine(SB.Values(b.cells)) ==> r.value == b.value
    ensures HasLine(SB.Values(b.cells)) ==> r.value == DecidingLine(SB.Values(b.cells)).value.winner
  {
    var m := SB.Values(b.cells);
    var h := CheckHorizontal(m);
    var v := CheckVertical(m);
    var d := CheckDiagonal(m);
    var afterH := if h.winner.Some? then h.winner else b.value;
    var afterV := if v.winner.Some? then v.winner else afterH;
    var afterD := if d.winner.Some? then d.winner else afterV;
    b.(value := afterD)
  }

  /** `switchTurn`: a plain toggle; the sub-boards are untouched. */
  function SwitchTurn(g: Board): (r: Board)
    ensures r.turn == Other(g.turn) && r.subs == g.subs
  {
    g.(turn := Other(g.turn))
  }

  function CellAt(g: Board, m: MB.Move): Cell {
    At(At(g.subs, m.sub).cells, m.cell)
  }

  /** `onClick`. The click reaches the cell only while its sub-board shows no
      big value. An occupied cell ignores it; otherwise the cell takes the
      current turn, the sub-board check runs, and the turn toggles. No other
      sub-board is read or written: nothing evaluates the master board. */
  function OnClick(g: Board, m: MB.Move): (r: Board)
    requires At(g.subs, m.sub).value.None?
    ensures CellAt(g, m).value.Some? ==> r == g
    ensures CellAt(g, m).value.None? ==>
              && CellAt(r, m) == CellAt(g, m).(value := Some(g.turn))
              && r.turn == Other(g.turn)
              && (forall c :: c != m.cell ==> At(At(r.subs, m.sub).cells, c) == At(At(g.subs, m.sub).cells, c))
              && (forall s :: s != m.sub ==> At(r.subs, s) == At(g.subs, s))
              && At(r.subs, m.sub).pos == At(g.subs, m.sub).pos
    ensures CellAt(g, m).value.None? ==>
              var cv := SB.Values(At(r.subs, m.sub).cells);
              At(r.subs, m.sub).value == (if HasLine(cv) then DecidingLine(cv).value.winner else None)
  {
    var b := At(g.subs, m.sub);
    var cell := At(b.cells, m.cell);
    if cell.value.Some? then g
    else
      var placed := b.(cells := Update(b.cells, m.cell, cell.(value := Some(g.turn))));
      SwitchTurn(g.(subs := Update(g.subs, m.sub, CheckWin(placed))))
  }

  // ---------------------------------------------------------------------
  // Comparison with the modular revision

  /** The reversed priority never changes the winner: lines of different
      kinds always cross, so whichever result is applied last carries the
      same player as the one the modular check picks first. */
  lemma {:induction false} DecidingWinnerAgrees(m: Marks)
    ensures HasLine(m) ==> DecidingLine(m).value.winner == Winner(m)
  {
    CrossingLinesAgree(m);
  }

  /** It does change which line is reported: with row 0 and column 0 both
      complete, the modular check reports the row and the single-file one
      ends on the column. */
  lemma PrioritiesReportDifferentLines()
    ensures exists m: Marks :: PickWin(m) != DecidingLine(m)
  {
    var x := Some(X);
    var m: Marks := [[x, x, x], [x, None, None], [x, None, None]];
    assert RowLine(m, 0) && FirstRow(m, 0);
    assert ColLine(m, 0) && FirstCol(m, 0);
    assert !MainLine(m) && !AntiLine(m);
    assert PickWin(m).value.last == Some(Coord(0, 2));
    assert DecidingLine(m).value.last == Some(Coord(2, 0));
  }

  /** What the single-file revision keeps of a modular board: everything but
      the enabled flags and the last placed cell. */
  function Forget(g: MB.Board): (r: Board)
    ensures r.turn == g.turn
    ensures forall s :: At(r.subs, s) == SubBoard(At(g.subs, s).pos, At(g.subs, s).cells, At(g.subs, s).value)
  {
    Board(Map(g.subs, (b: SB.SubBoard) => SubBoard(b.pos, b.cells, b.value)), g.turn)
  }

  /** Both revisions start from the same marks, values and turn. */
  lemma {:induction false} InitialBoardsAgree()
    ensures Forget(MB.NewBoard()) == NewBoard()
  {
    var a := Forget(MB.NewBoard());
    var b := NewBoard();
    forall s ensures At(a.subs, s) == At(b.subs, s) {
      assert At(MB.NewBoard().subs, s) == SB.NewSubBoard(s);
    }
    Extensionality(a.subs, b.subs);
  }

  /** On an undecided sub-board both sub-board checks leave the same value. */
  lemma {:induction false} SubCheckAgrees(g: MB.Board, s: Coord)
    requires At(g.subs, s).value.None?
    ensures At(MB.SubCheckWin(g, s).subs, s).value
         == CheckWin(SubBoard(At(g.subs, s).pos, At(g.subs, s).cells, None)).value
  {
    DecidingWinnerAgrees(SB.Values(At(g.subs, s).cells));
  }

  /** The revisions agree on every click the modular board accepts: the same
      cell is written, every sub-board ends with the same value and the same
      turn follows. They differ in the enabled flags and in which lines are
      drawn: here every kind of line found is drawn, there only the first. */
  lemma {:induction false} RevisionsAgree(g: MB.Board, m: MB.Move)
    requires SB.Open(At(g.subs, m.sub))
    ensures Forget(MB.OnClick(g, m)) == OnClick(Forget(g), m)
  {
    var lg := Forget(g);
    if MB.CellAt(g, m).value.None? {
      var g1 := MB.Place(g, m);
      var g2 := MB.SubCheckWin(g1, m.sub);
      var r := MB.SwitchTurn(g2);
      var b1 := At(g1.subs, m.sub);
      var lr := OnClick(lg, m);
      var lb1 := SubBoard(b1.pos, b1.cells, None);
      assert lr.subs == Update(lg.subs, m.sub, CheckWin(lb1));
      SubCheckAgrees(g1, m.sub);
      forall s ensures At(Forget(r).subs, s) == At(lr.subs, s) {
        assert SB.SameExceptEnabled(At(r.subs, s), At(g2.subs, s));
        assert At(g2.subs, s).cells == At(g1.subs, s).cells;
        if s != m.sub {
          assert At(g2.subs, s).value == At(g1.subs, s).value;
        }
      }
      Extensionality(Forget(r).subs, lr.subs);
    }
  }

  /** Every click of `ms`, in turn, reaches an open sub-board of the modular
      board. */
  predicate Accepted(g: MB.Board, ms: seq<MB.Move>)
    decreases |ms|
  {
    |ms| == 0 || (SB.Open(At(g.subs, ms[0].sub)) && Accepted(MB.OnClick(g, ms[0]), ms[1..]))
  }

  /** Every click of `ms`, in turn, reaches an undecided sub-board of the
      single-file board. */
  predicate LegacyAccepted(g: Board, ms: seq<MB.Move>)
    decreases |ms|
  {
    |ms| == 0 || (At(g.subs, ms[0].sub).value.None? && LegacyAccepted(OnClick(g, ms[0]), ms[1..]))
  }

  function Play(g: MB.Board, ms: seq<MB.Move>): MB.Board
    requires Accepted(g, ms)
    decreases |ms|
  {
    if |ms| == 0 then g else Play(MB.OnClick(g, ms[0]), ms[1..])
  }

  function LegacyPlay(g: Board, ms: seq<MB.Move>): Board
    requires LegacyAccepted(g, ms)
    decreases |ms|
  {
    if |ms| == 0 then g else LegacyPlay(OnClick(g, ms[0]), ms[1..])
  }

  /** Every sequence of clicks the modular board accepts is accepted by the
      single-file board too, and leads it to the same marks, sub-board values
      and turn. */
  lemma {:induction false} GamesAgree(g: MB.Board, ms: seq<MB.Move>)
    requires Accepted(g, ms)
    ensures LegacyAccepted(Forget(g), ms)
    ensures Forget(Play(g, ms)) == LegacyPlay(Forget(g), ms)
    decreases |ms|
  {
    if |ms| > 0 {
      RevisionsAgree(g, ms[0]);
      GamesAgree(MB.OnClick(g, ms[0]), ms[1..]);
    }
  }

  /** From a new board, both revisions play every game the modular board
      allows to the same marks, values and turn. */
  lemma {:induction false} NewGamesAgree(ms: seq<MB.Move>)
    requires Accepted(MB.NewBoard(), ms)
    ensures LegacyAccepted(NewBoard(), ms)
    ensures Forget(Play(MB.NewBoard(), ms)) == LegacyPlay(NewBoard(), ms)
  {
    InitialBoardsAgree();
    GamesAgree(MB.NewBoard(), ms);
  }

  /** The converse fails: without forwarding the single-file board accepts
      clicks the modular board blocks. After X plays cell (0,0) of the centre
      sub-board, O may answer in sub-board (2,2) here but not there. */
  lemma LegacyAcceptsBlockedClick()
    ensures var ms := [MB.Move(Coord(1, 1), Coord(0, 0)), MB.Move(Coord(2, 2), Coord(0, 0))];
            LegacyAccepted(NewBoard(), ms) && !Accepted(MB.NewBoard(), ms)
  {
    var m1 := MB.Move(Coord(1, 1), Coord(0, 0));
    var m2 := MB.Move(Coord(2, 2), Coord(0, 0));
    FirstMoveScenario();
    var l1 := OnClick(NewBoard(), m1);
    assert At(l1.subs, Coord(2, 2)) == At(NewBoard().subs, Coord(2, 2));
    var l2 := OnClick(l1, m2);
    assert LegacyAccepted(l2, []);
    assert [m1, m2][1..] == [m2];
    assert [m2][1..] == [];
  }
}
