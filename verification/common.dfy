/** The small vocabulary every part of the game shares: optional values, the
    two players, the turn toggle and the value of a cell or sub-board. */
module Common {

  /** The conventional Some/None datatype, standing in for the source's `null`. */
  datatype Option<+T> = None | Some(value: T)

  datatype Player = X | O

  /** The turn toggle of `switchTurn`: "X" becomes "O" and "O" becomes "X". */
  function Other(p: Player): (q: Player)
    ensures q != p
  {
    if p == X then O else X
  }

  /** A cell value or a sub-board value: `null`, "X" or "O". */
  type Mark = Option<Player>
}
