/** Properties of the move and turn state machine of the master board. */
module BoardProperties {
  import opened Common
  import opened Grids
  import opened Lines
  import opened Cells
  import opened SubBoards
  import opened MasterBoard

  /** Every sub-board and every cell carries its own grid position as its
      coordinates, as the constructors set them up. */
  ghost predicate WellFormed(g: Board) {
    forall s :: WellPlaced(At(g.subs, s), s)
  }

  /** Every sub-board's value is exactly the winner the sub-board check
      reports for its cells (None when its cells hold no line). */
  ghost predicate Consistent(g: Board) {
    forall s :: At(g.subs, s).value == Winner(Values(At(g.subs, s).cells))
  }

  /** The fresh board is well formed and consistent. */
  lemma {:induction false} NewBoardInvariants()
    ensures WellFormed(NewBoard())
    ensures Consistent(NewBoard())
  {
    var g := NewBoard();
    forall s ensures At(g.subs, s).value == Winner(Values(At(g.subs, s).cells)) {
      var m := Values(At(g.subs, s).cells);
      assert forall c :: At(m, c) == None;
      assert !RowLine(m, 0) && !RowLine(m, 1) && !RowLine(m, 2);
      assert !ColLine(m, 0) && !ColLine(m, 1) && !ColLine(m, 2);
      assert !HasLine(m);
    }
  }

  /** A click changes no cell except the clicked one, and that one only when
      it was empty: a placed mark is never overwritten. */
  lemma {:induction false} PlacementsAreFinal(g: Board, m: Move)
    requires Open(At(g.subs, m.sub))
    ensures forall s, c :: (s != m.sub || c != m.cell) ==>
              At(At(OnClick(g, m).subs, s).cells, c) == At(At(g.subs, s).cells, c)
    ensures CellAt(g, m).value.Some? ==> CellAt(OnClick(g, m), m) == CellAt(g, m)
    ensures forall s :: At(g.subs, s).value.Some? ==> At(OnClick(g, m).subs, s).value == At(g.subs, s).value
  {
    if CellAt(g, m).value.None? {
      var g1 := Place(g, m);
      var g2 := SubCheckWin(g1, m.sub);
      var r := SwitchTurn(g2);
      forall s, c | s != m.sub || c != m.cell
        ensures At(At(r.subs, s).cells, c) == At(At(g.subs, s).cells, c)
      {
        assert At(r.subs, s).cells == At(g2.subs, s).cells == At(g1.subs, s).cells;
      }
      forall s | At(g.subs, s).value.Some? ensures At(r.subs, s).value == At(g.subs, s).value {
        assert SameExceptEnabled(At(r.subs, s), At(g2.subs, s));
        assert s != m.sub;
      }
    }
  }

  /** Clicks preserve well-formedness. */
  lemma {:induction false} OnClickPreservesWellFormed(g: Board, m: Move)
    requires WellFormed(g) && Open(At(g.subs, m.sub))
    ensures WellFormed(OnClick(g, m))
  {
    if CellAt(g, m).value.None? {
      var g1 := Place(g, m);
      var g2 := SubCheckWin(g1, m.sub);
      var r := SwitchTurn(g2);
      forall s ensures WellPlaced(At(r.subs, s), s) {
        assert WellPlaced(At(g.subs, s), s);
        assert SameExceptEnabled(At(r.subs, s), At(g2.subs, s));
        assert At(g2.subs, s).pos == At(g1.subs, s).pos;
        assert At(g2.subs, s).cells == At(g1.subs, s).cells;
        if s == m.sub {
          assert At(g1.subs, s).pos == s;
          assert At(At(g1.subs, s).cells, m.cell).pos == m.cell;
          assert forall c :: At(At(g1.subs, s).cells, c).pos == c;
        } else {
          assert At(g1.subs, s) == At(g.subs, s);
        }
      }
    }
  }

  /** Clicks preserve consistency: the clicked sub-board's value becomes the
      winner of its new cells, and no other sub-board changes its cells or
      its value. */
  lemma {:induction false} OnClickPreservesConsistent(g: Board, m: Move)
    requires Consistent(g) && Open(At(g.subs, m.sub))
    ensures Consistent(OnClick(g, m))
  {
    if CellAt(g, m).value.None? {
      var g1 := Place(g, m);
      var g2 := SubCheckWin(g1, m.sub);
      var r := SwitchTurn(g2);
      forall s ensures At(r.subs, s).value == Winner(Values(At(r.subs, s).cells)) {
        assert SameExceptEnabled(At(r.subs, s), At(g2.subs, s));
        assert At(g2.subs, s).cells == At(g1.subs, s).cells;
        if s == m.sub {
          var cv := Values(At(g1.subs, s).cells);
          if !HasLine(cv) {
            assert At(g2.subs, s) == At(g1.subs, s);
          }
        } else {
          assert At(g1.subs, s) == At(g.subs, s);
          assert At(g2.subs, s).value == At(g1.subs, s).value;
          assert Values(At(r.subs, s).cells) == Values(At(g.subs, s).cells);
        }
      }
    }
  }

  /** The enabled set after a successful click is the forwarding result
      alone: the clicked cell's coordinates name the next sub-board, and
      every sub-board is enabled exactly when that one has a value. A
      master-board line's enable-all is overwritten. */
  lemma {:induction false} ClickForwards(g: Board, m: Move)
    requires WellFormed(g) && Open(At(g.subs, m.sub)) && CellAt(g, m).value.None?
    ensures OnClick(g, m).lastPlaced == Some(m.cell)
    ensures forall s :: At(OnClick(g, m).subs, s).enabled <==>
              (At(OnClick(g, m).subs, m.cell).value.Some? || s == m.cell)
  {
    assert WellPlaced(At(g.subs, m.sub), m.sub);
    var g1 := Place(g, m);
    var g2 := SubCheckWin(g1, m.sub);
    assert g2.lastPlaced == Some(m.cell);
    var r := SwitchTurn(g2);
    assert SameExceptEnabled(At(r.subs, m.cell), At(g2.subs, m.cell));
  }

  /** Applying the turn switch twice restores the turn and leaves the
      enabled flags as one switch set them. */
  lemma {:induction false} SwitchTurnTwice(g: Board)
    ensures SwitchTurn(SwitchTurn(g)) == SwitchTurn(g).(turn := g.turn)
  {
    var r1 := SwitchTurn(g);
    var r2 := SwitchTurn(r1);
    if g.lastPlaced.Some? {
      var t := g.lastPlaced.value;
      assert SameExceptEnabled(At(r1.subs, t), At(g.subs, t));
      forall s ensures At(r2.subs, s) == At(r1.subs, s) {
        assert SameExceptEnabled(At(r2.subs, s), At(r1.subs, s));
      }
      Extensionality(r2.subs, r1.subs);
    }
  }

  /** The dead end. Every placement ends in `SwitchTurn` with the placed
      cell's coordinates as the target (`ClickForwards`). When that target is
      full but has no value, it is the only open sub-board, and every click
      the opponent can make there is ignored: the game can never move again. */
  lemma {:induction false} FullUndecidedTargetIsDeadEnd(g: Board, t: Coord)
    requires g.lastPlaced == Some(t)
    requires At(g.subs, t).value.None? && Full(At(g.subs, t))
    ensures forall s :: Open(At(SwitchTurn(g).subs, s)) <==> s == t
    ensures forall mv: Move :: Open(At(SwitchTurn(g).subs, mv.sub)) ==> OnClick(SwitchTurn(g), mv) == SwitchTurn(g)
  {
    var r := SwitchTurn(g);
    assert SameExceptEnabled(At(r.subs, t), At(g.subs, t));
    forall mv: Move | Open(At(r.subs, mv.sub)) ensures OnClick(r, mv) == r {
      assert mv.sub == t;
      assert CellAt(r, mv).value.Some?;
    }
  }

  /** A sub-board can be full and still have no value: the dead end above
      is not vacuous. */
  lemma FullWithoutLine()
    ensures exists b: SubBoard :: Full(b) && !HasLine(Values(b.cells))
  {
    var x := Some(X);
    var o := Some(O);
    var marks := [[x, o, x], [x, o, o], [o, x, x]];
    var b := SubBoard(Coord(0, 0), Fill((c: Coord) => Cell(c, marks[c.row][c.col])), None, true);
    var cv := Values(b.cells);
    assert At(cv, Coord(0, 0)) == x && At(cv, Coord(0, 1)) == o && At(cv, Coord(0, 2)) == x;
    assert At(cv, Coord(1, 0)) == x && At(cv, Coord(1, 1)) == o && At(cv, Coord(1, 2)) == o;
    assert At(cv, Coord(2, 0)) == o && At(cv, Coord(2, 1)) == x && At(cv, Coord(2, 2)) == x;
    assert !RowLine(cv, 0) && !RowLine(cv, 1) && !RowLine(cv, 2);
    assert !ColLine(cv, 0) && !ColLine(cv, 1) && !ColLine(cv, 2);
    assert Full(b);
  }

  /** After a successful click some sub-board is open unless all nine have
      a value: the forwarding rule never disables every undecided board. */
  lemma {:induction false} SomeBoardStaysOpen(g: Board, m: Move)
    requires WellFormed(g) && Open(At(g.subs, m.sub)) && CellAt(g, m).value.None?
    ensures (exists s :: At(OnClick(g, m).subs, s).value.None?) ==>
              exists s :: Open(At(OnClick(g, m).subs, s))
  {
    ClickForwards(g, m);
    var r := OnClick(g, m);
    if At(r.subs, m.cell).value.None? {
      assert Open(At(r.subs, m.cell));
    }
  }

  /** The first move of a game: X in the centre sub-board's top-left cell
      sends O to the top-left sub-board, and only there. */
  lemma FirstMoveScenario()
    ensures CellAt(OnClick(NewBoard(), Move(Coord(1, 1), Coord(0, 0))), Move(Coord(1, 1), Coord(0, 0))).value == Some(X)
    ensures OnClick(NewBoard(), Move(Coord(1, 1), Coord(0, 0))).turn == O
    ensures forall s :: At(OnClick(NewBoard(), Move(Coord(1, 1), Coord(0, 0))).subs, s).enabled <==> s == Coord(0, 0)
  {
    var g := NewBoard();
    var m := Move(Coord(1, 1), Coord(0, 0));
    NewBoardInvariants();
    ClickForwards(g, m);
    var r := OnClick(g, m);
    var g1 := Place(g, m);
    var cv := Values(At(g1.subs, m.sub).cells);
    assert forall c :: c != m.cell ==> At(cv, c) == None;
    assert !RowLine(cv, 0) && !RowLine(cv, 1) && !RowLine(cv, 2);
    assert !ColLine(cv, 0) && !ColLine(cv, 1) && !ColLine(cv, 2);
    assert !HasLine(cv);
    assert At(r.subs, Coord(0, 0)).value == At(g1.subs, Coord(0, 0)).value == None;
  }
}
