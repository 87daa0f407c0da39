/** One square of the board: whether it hides a mine, has been uncovered, or carries a flag. */
module Cells {

  /** The three flags of a cell, as a value. */
  datatype CellState = CellState(isMine: bool, isRevealed: bool, isFlagged: bool)

  /** A cell is never both uncovered and flagged. */
  predicate FlagExclusive(s: CellState) {
    !(s.isRevealed && s.isFlagged)
  }

  /** What flagging a cell through the board does to it: an uncovered cell is left alone,
      a covered one has its flag turned over. */
  function AfterFlagCell(s: CellState): (r: CellState)
    ensures r.isMine == s.isMine && r.isRevealed == s.isRevealed
    ensures r.isFlagged != s.isFlagged <==> !s.isRevealed
  {
    if s.isRevealed then s else s.(isFlagged := !s.isFlagged)
  }

  /** Flagging twice gives the cell back as it was, and flagging keeps a cell from being both
      flagged and uncovered. */
  lemma AfterFlagCellProperties(s: CellState)
    ensures AfterFlagCell(AfterFlagCell(s)) == s
    ensures FlagExclusive(s) ==> FlagExclusive(AfterFlagCell(s))
  {
  }

  class Cell {
    /** The cell's own position, column and row. */
    const x: int
    const y: int
    var isMine: bool
    var isRevealed: bool
    var isFlagged: bool

    /** A fresh cell is covered, unflagged and holds no mine. */
    constructor (x: int, y: int)
      ensures this.x == x && this.y == y
      ensures !isMine && !isRevealed && !isFlagged
    {
      this.x, this.y := x, y;
      isMine, isRevealed, isFlagged := false, false, false;
    }

    function State(): CellState
      reads this
    {
      CellState(isMine, isRevealed, isFlagged)
    }

    /** Uncovers the cell; the mine and the flag are left as they are. */
    method Reveal()
      modifies this
      ensures isRevealed
      ensures isMine == old(isMine) && isFlagged == old(isFlagged)
    {
      isRevealed := true;
    }

    /** Turns the flag over, whatever the covering. */
    method Flag()
      modifies this
      ensures isFlagged == !old(isFlagged)
      ensures isMine == old(isMine) && isRevealed == old(isRevealed)
    {
      if !isFlagged {
        isFlagged := true;
      } else {
        isFlagged := false;
      }
    }
  }
}
