/** The line-win detector of src/utils.ts: three scans over a 3×3 grid of
    optional marks, shared by the sub-board check (cell values) and the
    master-board check (sub-board values). */
module Lines {
  import opened Common
  import opened Grids

  /** A 3×3 grid of marks: the cell values of a sub-board, or the values of
      the nine sub-boards. */
  type Marks = g: seq<seq<Mark>> | IsGrid(g)
    witness [[None, None, None], [None, None, None], [None, None, None]]

  /** The record every check returns: the winner (None for the source's
      `false`) and the two endpoint coordinates (None for `null`). */
  datatype Line = Line(winner: Mark, first: Option<Coord>, last: Option<Coord>)

  const NoLine := Line(None, None, None)

  /** Three values that are all the same player; an empty first value never
      matches, as the `if (!first) continue` guards demand. */
  predicate Same(a: Mark, b: Mark, c: Mark) {
    a.Some? && b == a && c == a
  }

  predicate RowLine(g: Marks, i: Idx) {
    Same(At(g, Coord(i, 0)), At(g, Coord(i, 1)), At(g, Coord(i, 2)))
  }

  predicate ColLine(g: Marks, i: Idx) {
    Same(At(g, Coord(0, i)), At(g, Coord(1, i)), At(g, Coord(2, i)))
  }

  /** The diagonal from (0,0) to (2,2). */
  predicate MainLine(g: Marks) {
    Same(At(g, Coord(0, 0)), At(g, Coord(1, 1)), At(g, Coord(2, 2)))
  }

  /** The diagonal from (0,2) to (2,0). */
  predicate AntiLine(g: Marks) {
    Same(At(g, Coord(0, 2)), At(g, Coord(1, 1)), At(g, Coord(2, 0)))
  }

  predicate HasRow(g: Marks) {
    exists i: Idx :: RowLine(g, i)
  }

  predicate HasCol(g: Marks) {
    exists i: Idx :: ColLine(g, i)
  }

  predicate HasDiag(g: Marks) {
    MainLine(g) || AntiLine(g)
  }

  /** Some line of some kind is complete. */
  predicate HasLine(g: Marks) {
    HasRow(g) || HasCol(g) || HasDiag(g)
  }

  /** Row `k` is complete and no lower-index row is. */
  predicate FirstRow(g: Marks, k: Idx) {
    RowLine(g, k) && forall m: Idx :: m < k ==> !RowLine(g, m)
  }

  /** Column `k` is complete and no lower-index column is. */
  predicate FirstCol(g: Marks, k: Idx) {
    ColLine(g, k) && forall m: Idx :: m < k ==> !ColLine(g, m)
  }

  /** The report for a win on row `i`: endpoints (i,0) and (i,2). */
  function RowReport(g: Marks, i: Idx): Line {
    Line(At(g, Coord(i, 0)), Some(Coord(i, 0)), Some(Coord(i, 2)))
  }

  /** The report for a win on column `i`: endpoints (0,i) and (2,i). */
  function ColReport(g: Marks, i: Idx): Line {
    Line(At(g, Coord(0, i)), Some(Coord(0, i)), Some(Coord(2, i)))
  }

  /** A reported winner is the value stored at both reported endpoints, and
      "no winner" comes with both endpoints absent. */
  predicate Honest(g: Marks, r: Line) {
    && (r.winner.None? <==> r == NoLine)
    && (r.winner.Some? ==>
          r.first.Some? && r.last.Some?
          && At(g, r.first.value) == r.winner && At(g, r.last.value) == r.winner)
  }

  /** The outer loop of `checkHorizontal` from row `i` on. */
  function ScanRows(g: Marks, i: int): (r: Line)
    requires 0 <= i <= 3
    ensures r.winner.Some? <==> exists k: Idx :: i <= k && RowLine(g, k)
    ensures r.winner.None? ==> r == NoLine
    ensures forall k: Idx :: i <= k && RowLine(g, k) && (forall m: Idx :: i <= m < k ==> !RowLine(g, m))
              ==> r == RowReport(g, k)
    decreases 3 - i
  {
    if i == 3 then NoLine
    else if RowLine(g, i) then RowReport(g, i)
    else ScanRows(g, i + 1)
  }

  /** The outer loop of `checkVertical` from column `i` on. */
  function ScanCols(g: Marks, i: int): (r: Line)
    requires 0 <= i <= 3
    ensures r.winner.Some? <==> exists k: Idx :: i <= k && ColLine(g, k)
    ensures r.winner.None? ==> r == NoLine
    ensures forall k: Idx :: i <= k && ColLine(g, k) && (forall m: Idx :: i <= m < k ==> !ColLine(g, m))
              ==> r == ColReport(g, k)
    decreases 3 - i
  {
    if i == 3 then NoLine
    else if ColLine(g, i) then ColReport(g, i)
    else ScanCols(g, i + 1)
  }

  /** `checkHorizontal`: the lowest-index complete row, with endpoints (i,0)
      and (i,2), or no winner and no endpoints when no row is complete. */
  function CheckHorizontal(g: Marks): (r: Line)
    ensures r.winner.Some? <==> HasRow(g)
    ensures forall k: Idx :: FirstRow(g, k) ==> r == RowReport(g, k)
    ensures Honest(g, r)
  {
    ScanRows(g, 0)
  }

  /** `checkVertical`: the lowest-index complete column, with endpoints
      (0,i) and (2,i), or no winner and no endpoints. */
  function CheckVertical(g: Marks): (r: Line)
    ensures r.winner.Some? <==> HasCol(g)
    ensures forall k: Idx :: FirstCol(g, k) ==> r == ColReport(g, k)
    ensures Honest(g, r)
  {
    ScanCols(g, 0)
  }

  /** `checkDiagonal`: the main diagonal is tested before the anti-diagonal. */
  function CheckDiagonal(g: Marks): (r: Line)
    ensures r.winner.Some? <==> HasDiag(g)
    ensures MainLine(g) ==> r.first == Some(Coord(0, 0)) && r.last == Some(Coord(2, 2))
    ensures !MainLine(g) && AntiLine(g) ==> r.first == Some(Coord(0, 2)) && r.last == Some(Coord(2, 0))
    ensures Honest(g, r)
  {
    var first := At(g, Coord(0, 0));
    var second := At(g, Coord(0, 2));
    if first.Some? && At(g, Coord(1, 1)) == first && At(g, Coord(2, 2)) == first then
      Line(first, Some(Coord(0, 0)), Some(Coord(2, 2)))
    else if second.Some? && At(g, Coord(1, 1)) == second && At(g, Coord(2, 0)) == second then
      Line(second, Some(Coord(0, 2)), Some(Coord(2, 0)))
    else
      NoLine
  }

  /** The selection in `checkWin` (sub-board and master board alike):
      horizontal, else vertical, else diagonal; None stands for `false`. */
  function PickWin(g: Marks): (r: Option<Line>)
    ensures r.Some? <==> HasLine(g)
    ensures r.Some? ==> r.value.winner.Some? && Honest(g, r.value)
    ensures HasRow(g) ==> r == Some(CheckHorizontal(g))
    ensures !HasRow(g) && HasCol(g) ==> r == Some(CheckVertical(g))
    ensures !HasRow(g) && !HasCol(g) && HasDiag(g) ==> r == Some(CheckDiagonal(g))
  {
    var h := CheckHorizontal(g);
    var v := CheckVertical(g);
    var d := CheckDiagonal(g);
    if h.winner.Some? then Some(h)
    else if v.winner.Some? then Some(v)
    else if d.winner.Some? then Some(d)
    else None
  }

  /** The winner `PickWin` reports, None when there is no line. */
  function Winner(g: Marks): Mark {
    match PickWin(g)
    case Some(l) => l.winner
    case None => None
  }

  /** A line whose first value is null is skipped, so an empty cell is
      never a reported endpoint, and an empty grid holds no line at all. */
  lemma EmptyCellsNeverWin(g: Marks)
    ensures forall c :: At(g, c).None? ==>
              && CheckHorizontal(g).first != Some(c) && CheckHorizontal(g).last != Some(c)
              && CheckVertical(g).first != Some(c) && CheckVertical(g).last != Some(c)
              && CheckDiagonal(g).first != Some(c) && CheckDiagonal(g).last != Some(c)
    ensures (forall c :: At(g, c).None?) ==> PickWin(g).None?
  {
    if forall c :: At(g, c).None? {
      assert !RowLine(g, 0) && !RowLine(g, 1) && !RowLine(g, 2);
      assert !ColLine(g, 0) && !ColLine(g, 1) && !ColLine(g, 2);
    }
  }

  // ---------------------------------------------------------------------
  // Symmetries of the detector

  function FlipLine(l: Line): Line {
    Line(l.winner,
         if l.first.Some? then Some(Flip(l.first.value)) else None,
         if l.last.Some? then Some(Flip(l.last.value)) else None)
  }

  lemma {:induction false} TransposedLines(g: Marks)
    ensures forall i: Idx :: ColLine(g, i) <==> RowLine(Transpose(g), i)
    ensures MainLine(Transpose(g)) <==> MainLine(g)
    ensures AntiLine(Transpose(g)) <==> AntiLine(g)
  {
    var t := Transpose(g);
    forall i: Idx ensures ColLine(g, i) <==> RowLine(t, i) {
      assert At(t, Coord(i, 0)) == At(g, Coord(0, i));
      assert At(t, Coord(i, 1)) == At(g, Coord(1, i));
      assert At(t, Coord(i, 2)) == At(g, Coord(2, i));
    }
    assert At(t, Coord(0, 2)) == At(g, Coord(2, 0));
    assert At(t, Coord(2, 0)) == At(g, Coord(0, 2));
    assert At(t, Coord(1, 1)) == At(g, Coord(1, 1));
    assert At(t, Coord(0, 0)) == At(g, Coord(0, 0));
    assert At(t, Coord(2, 2)) == At(g, Coord(2, 2));
  }

  /** `checkVertical` is `checkHorizontal` on the transposed grid, with the
      reported endpoints transposed back. */
  lemma {:induction false} VerticalIsTransposedHorizontal(g: Marks)
    ensures CheckVertical(g) == FlipLine(CheckHorizontal(Transpose(g)))
  {
    var t := Transpose(g);
    TransposedLines(g);
    FirstColExists(g);
    if HasCol(g) {
      var k: Idx :| FirstCol(g, k);
      assert FirstRow(t, k);
      assert At(t, Coord(k, 0)) == At(g, Coord(0, k));
    } else {
      assert !HasRow(t);
    }
  }

  /** Transposing the grid does not change what `checkDiagonal` reports. */
  lemma {:induction false} DiagonalTransposeInvariant(g: Marks)
    ensures CheckDiagonal(Transpose(g)) == CheckDiagonal(g)
  {
    TransposedLines(g);
    var t := Transpose(g);
    assert At(t, Coord(0, 2)) == At(g, Coord(2, 0));
    assert At(t, Coord(0, 0)) == At(g, Coord(0, 0));
  }

  function Swap(m: Mark): Mark {
    match m
    case None => None
    case Some(p) => Some(Other(p))
  }

  function SwapLine(l: Line): Line {
    l.(winner := Swap(l.winner))
  }

  /** Relabelling keeps three equal marks equal and three unequal ones
      unequal. */
  lemma SameSwap()
    ensures forall a: Mark, b: Mark, c: Mark :: Same(Swap(a), Swap(b), Swap(c)) <==> Same(a, b, c)
  {
  }

  lemma {:induction false} SwappedLines(g: Marks)
    ensures forall i: Idx :: (RowLine(Map(g, Swap), i) <==> RowLine(g, i))
    ensures forall i: Idx :: (ColLine(Map(g, Swap), i) <==> ColLine(g, i))
    ensures MainLine(Map(g, Swap)) <==> MainLine(g)
    ensures AntiLine(Map(g, Swap)) <==> AntiLine(g)
  {
    var s := Map(g, Swap);
    SameSwap();
    forall i: Idx ensures (RowLine(s, i) <==> RowLine(g, i)) && (ColLine(s, i) <==> ColLine(g, i)) {
      assert At(s, Coord(i, 0)) == Swap(At(g, Coord(i, 0)));
      assert At(s, Coord(i, 1)) == Swap(At(g, Coord(i, 1)));
      assert At(s, Coord(i, 2)) == Swap(At(g, Coord(i, 2)));
      assert At(s, Coord(0, i)) == Swap(At(g, Coord(0, i)));
      assert At(s, Coord(1, i)) == Swap(At(g, Coord(1, i)));
      assert At(s, Coord(2, i)) == Swap(At(g, Coord(2, i)));
    }
    assert At(s, Coord(0, 0)) == Swap(At(g, Coord(0, 0)));
    assert At(s, Coord(1, 1)) == Swap(At(g, Coord(1, 1)));
    assert At(s, Coord(2, 2)) == Swap(At(g, Coord(2, 2)));
    assert At(s, Coord(0, 2)) == Swap(At(g, Coord(0, 2)));
    assert At(s, Coord(2, 0)) == Swap(At(g, Coord(2, 0)));
  }

  /** Relabelling X as O and O as X relabels the horizontal result and
      nothing else. */
  lemma {:induction false} HorizontalSwapSymmetry(g: Marks)
    ensures CheckHorizontal(Map(g, Swap)) == SwapLine(CheckHorizontal(g))
  {
    var s := Map(g, Swap);
    SwappedLines(g);
    FirstRowExists(g);
    if HasRow(g) {
      var k: Idx :| FirstRow(g, k);
      assert FirstRow(s, k);
      assert At(s, Coord(k, 0)) == Swap(At(g, Coord(k, 0)));
    } else {
      assert !HasRow(s);
    }
  }

  /** The same relabelling for the vertical check. */
  lemma {:induction false} VerticalSwapSymmetry(g: Marks)
    ensures CheckVertical(Map(g, Swap)) == SwapLine(CheckVertical(g))
  {
    var s := Map(g, Swap);
    SwappedLines(g);
    FirstColExists(g);
    if HasCol(g) {
      var k: Idx :| FirstCol(g, k);
      assert FirstCol(s, k);
      assert At(s, Coord(0, k)) == Swap(At(g, Coord(0, k)));
    } else {
      assert !HasCol(s);
    }
  }

  /** The same relabelling for the diagonal check. */
  lemma {:induction false} DiagonalSwapSymmetry(g: Marks)
    ensures CheckDiagonal(Map(g, Swap)) == SwapLine(CheckDiagonal(g))
  {
    var s := Map(g, Swap);
    SwappedLines(g);
    assert At(s, Coord(0, 0)) == Swap(At(g, Coord(0, 0)));
    assert At(s, Coord(0, 2)) == Swap(At(g, Coord(0, 2)));
  }

  /** Whenever some row is complete, one of them is the lowest. */
  lemma {:induction false} FirstRowExists(g: Marks)
    ensures HasRow(g) ==> exists k: Idx :: FirstRow(g, k)
  {
    if RowLine(g, 0) {
      assert FirstRow(g, 0);
    } else if RowLine(g, 1) {
      assert FirstRow(g, 1);
    } else if RowLine(g, 2) {
      assert FirstRow(g, 2);
    }
  }

  /** Whenever some column is complete, one of them is the lowest. */
  lemma {:induction false} FirstColExists(g: Marks)
    ensures HasCol(g) ==> exists k: Idx :: FirstCol(g, k)
  {
    if ColLine(g, 0) {
      assert FirstCol(g, 0);
    } else if ColLine(g, 1) {
      assert FirstCol(g, 1);
    } else if ColLine(g, 2) {
      assert FirstCol(g, 2);
    }
  }

  /** Any two complete lines of different kinds cross in a cell, so they
      belong to the same player: the winner does not depend on the priority
      among the three checks. */
  lemma {:induction false} CrossingLinesAgree(g: Marks)
    ensures HasRow(g) && HasCol(g) ==> CheckHorizontal(g).winner == CheckVertical(g).winner
    ensures HasRow(g) && HasDiag(g) ==> CheckHorizontal(g).winner == CheckDiagonal(g).winner
    ensures HasCol(g) && HasDiag(g) ==> CheckVertical(g).winner == CheckDiagonal(g).winner
  {
    FirstRowExists(g);
    FirstColExists(g);
    var d := CheckDiagonal(g);
    if HasRow(g) {
      var i: Idx :| FirstRow(g, i);
      if HasCol(g) {
        var j: Idx :| FirstCol(g, j);
        assert At(g, Coord(i, j)) == At(g, Coord(i, 0)) == At(g, Coord(0, j));
      }
      if MainLine(g) {
        assert At(g, Coord(i, i)) == At(g, Coord(i, 0)) == At(g, Coord(0, 0));
      } else if AntiLine(g) {
        assert At(g, Coord(i, 2 - i)) == At(g, Coord(i, 0)) == At(g, Coord(0, 2));
      }
    }
    if HasCol(g) {
      var j: Idx :| FirstCol(g, j);
      if MainLine(g) {
        assert At(g, Coord(j, j)) == At(g, Coord(0, j)) == At(g, Coord(0, 0));
      } else if AntiLine(g) {
        assert At(g, Coord(2 - j, j)) == At(g, Coord(0, j)) == At(g, Coord(0, 2));
      }
    }
  }
}
