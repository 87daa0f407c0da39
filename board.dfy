/** The board state machine: mine placement, uncovering with flood fill, flagging, the win
    test and the end of the game. */
module Minesweeper {
  import opened Geometry
  import opened Placement
  import opened Cells
  import opened FloodFill

  /** How the game stands: the end of the game is recorded here instead of in a dialog. */
  datatype Outcome = InProgress | Won | Lost

  class Board {
    const width: nat
    const height: nat
    const totalMines: nat
    /** The grid of cells, row by row: `cells[y][x]` is the cell at column `x`, row `y`. */
    var cells: seq<seq<Cell>>
    /** The positions of the mines. */
    var mines: set<Coord>
    var outcome: Outcome
    /** The cell objects of the grid. */
    ghost var Repr: set<Cell>
    /** The positions of the uncovered cells. */
    ghost var revealed: set<Coord>
    /** The positions of the flagged cells. */
    ghost var flagged: set<Coord>

    predicate InGrid(p: Coord) {
      InBounds(width, height, p)
    }

    ghost predicate Shaped()
      reads this`cells
    {
      |cells| == height && forall j :: 0 <= j < height ==> |cells[j]| == width
    }

    function At(p: Coord): Cell
      reads this`cells
      requires Shaped() && InGrid(p)
    {
      cells[p.1][p.0]
    }

    /** The grid structure: every position holds its own cell object, which knows its
        position (so no two positions share one). Only the grid itself is read, so cell
        updates never disturb it. */
    ghost predicate Wellformed()
      reads this`cells, this`Repr
    {
      Shaped() &&
      forall p {:trigger At(p)} :: InGrid(p) ==> At(p) in Repr && At(p).x == p.0 && At(p).y == p.1
    }

    /** The board invariant: the grid is well formed; `mines`, `revealed` and `flagged` list
        exactly the mined, uncovered and flagged cells; there are `totalMines` mines; and no
        cell is both uncovered and flagged. */
    ghost predicate Valid()
      reads this, Repr
    {
      Wellformed() &&
      mines <= Positions(width, height) && revealed <= Positions(width, height) &&
      flagged <= Positions(width, height) &&
      (forall p {:trigger At(p)} :: InGrid(p) ==>
        (At(p).isMine <==> p in mines) && (At(p).isRevealed <==> p in revealed) &&
        (At(p).isFlagged <==> p in flagged)) &&
      |mines| == totalMines &&
      revealed !! flagged
    }

    /** The positions still covered. */
    ghost function Covered(): set<Coord>
      reads this`revealed
    {
      Positions(width, height) - revealed
    }

    /** The cell at `p` holds a mine or is uncovered. */
    ghost predicate Settled(p: Coord)
      reads this`mines, this`revealed
    {
      p in mines || p in revealed
    }

    /** Every cell holds a mine or is uncovered. */
    ghost predicate AllClear()
      reads this`mines, this`revealed
    {
      forall p {:trigger Settled(p)} :: InGrid(p) ==> Settled(p)
    }

    /** The number of mines next to `p`, taken from the mine set. */
    ghost function AdjacentMines(p: Coord): nat
      reads this
    {
      MinesAmong(Neighbors(width, height, p.0, p.1), mines)
    }

    /** Builds the grid of fresh covered cells row by row, then places mines by rejection:
        the draws `picks` (the random coordinates, in order) are taken one by one while fewer
        than `totalMines` mines are placed, and a draw that is already a mine is passed over. */
    method SetupGame(picks: seq<Coord>)
      requires forall p :: p in picks ==> InGrid(p)
      requires |Elems(picks)| >= totalMines
      modifies this`cells, this`mines, this`Repr, this`revealed, this`flagged
      ensures Valid() && fresh(Repr)
      ensures mines == PlaceMines(picks, totalMines, {})
      ensures revealed == {} && flagged == {}
    {
      cells := [];
      mines, revealed, flagged := {}, {}, {};
      Repr := {};
      var y := 0;
      while y < height
        invariant 0 <= y <= height && |cells| == y
        invariant forall j :: 0 <= j < y ==> |cells[j]| == width
        invariant fresh(Repr) && mines == {} && revealed == {} && flagged == {}
        invariant forall j, i :: 0 <= j < y && 0 <= i < width ==>
          cells[j][i] in Repr && cells[j][i].x == i && cells[j][i].y == j &&
          cells[j][i].State() == CellState(false, false, false)
      {
        var row: seq<Cell> := [];
        var x := 0;
        while x < width
          invariant 0 <= x <= width && |row| == x
          invariant |cells| == y && forall j :: 0 <= j < y ==> |cells[j]| == width
          invariant fresh(Repr) && mines == {} && revealed == {} && flagged == {}
          invariant forall j, i :: 0 <= j < y && 0 <= i < width ==>
            cells[j][i] in Repr && cells[j][i].x == i && cells[j][i].y == j &&
            cells[j][i].State() == CellState(false, false, false)
          invariant forall i :: 0 <= i < x ==>
            row[i] in Repr && row[i].x == i && row[i].y == y && row[i].State() == CellState(false, false, false)
        {
          var cell := new Cell(x, y);
          row := row + [cell];
          Repr := Repr + {cell};
          x := x + 1;
        }
        cells := cells + [row];
        y := y + 1;
      }

      LayMines(picks);
      UnplayedValid();
    }

    /** Before play: the grid is well formed, no cell is uncovered or flagged, and `mines`
        lists exactly the mined cells. */
    ghost predicate Unplayed()
      reads this, Repr
    {
      Wellformed() && mines <= Positions(width, height) &&
      forall p {:trigger At(p)} :: InGrid(p) ==>
        !At(p).isRevealed && !At(p).isFlagged && (At(p).isMine <==> p in mines)
    }

    /** One draw of the placement loop: the cell at `p` gets a mine unless it has one. */
    method PlaceMine(p: Coord)
      requires Unplayed() && InGrid(p)
      modifies this`mines, Repr
      ensures Unplayed()
      ensures mines == old(mines) + {p}
    {
      var cell := cells[p.1][p.0];
      assert cell == At(p);
      if !cell.isMine {
        cell.isMine := true;
        mines := mines + {p};
      }
    }

    /** One turn of the placement loop: while fewer than `totalMines` mines are placed, the
        first of the draws `rest` is placed. */
    method Draw(rest: seq<Coord>, ghost final: set<Coord>)
      requires Unplayed() && |mines| < totalMines
      requires forall k :: 0 <= k < |rest| ==> InGrid(rest[k])
      requires Pending(rest, totalMines, mines, final)
      modifies this`mines, Repr
      ensures Unplayed() && rest != []
      ensures mines == old(mines) + {rest[0]}
      ensures Pending(rest[1..], totalMines, mines, final)
    {
      PlaceMinesStep(rest, totalMines, mines, final);
      PlaceMine(rest[0]);
    }

    /** An unplayed board holding all its mines, with nothing uncovered or flagged, is valid. */
    lemma UnplayedValid()
      requires Unplayed() && revealed == {} && flagged == {} && |mines| == totalMines
      ensures Valid()
    {
    }

    /** The placement loop of the setup: draws are taken in order while fewer than
        `totalMines` mines are placed, and a draw that already holds a mine is passed over. */
    method LayMines(picks: seq<Coord>)
      requires Unplayed() && mines == {} && revealed == {} && flagged == {}
      requires forall k :: 0 <= k < |picks| ==> InGrid(picks[k])
      requires |Elems(picks)| >= totalMines
      modifies this`mines, Repr
      ensures Unplayed() && |mines| == totalMines
      ensures mines == PlaceMines(picks, totalMines, {})
    {
      var rest := picks;
      ghost var final := PlaceMines(picks, totalMines, {});
      while |mines| < totalMines
        invariant Unplayed()
        invariant forall k :: 0 <= k < |rest| ==> InGrid(rest[k])
        invariant Pending(rest, totalMines, mines, final)
        decreases |rest|
      {
        Draw(rest, final);
        rest := rest[1..];
      }
    }

    /** A new game: a `width` by `height` board with `totalMines` mines placed from the draws
        `picks`. The draws must be on the board and hold at least `totalMines` distinct
        positions, which is what it takes for placement to finish. */
    constructor (width: nat, height: nat, totalMines: nat, picks: seq<Coord>)
      requires forall p :: p in picks ==> InBounds(width, height, p)
      requires |Elems(picks)| >= totalMines
      ensures this.width == width && this.height == height && this.totalMines == totalMines
      ensures Valid() && fresh(Repr) && outcome == InProgress
      ensures mines == PlaceMines(picks, totalMines, {})
      ensures revealed == {} && flagged == {}
    {
      this.width, this.height, this.totalMines := width, height, totalMines;
      cells, mines, outcome := [], {}, InProgress;
      Repr, revealed, flagged := {}, {}, {};
      new;
      SetupGame(picks);
    }

    /** The positions around `(x, y)` that lie on the board, in the game's order. */
    method GetNeighbors(x: int, y: int) returns (ns: seq<Coord>)
      ensures ns == Neighbors(width, height, x, y)
    {
      var w, h := width, height;
      ns := [];
      for dx := -1 to 2
        invariant ns == Sweep(w, h, x, y, dx)
      {
        for dy := -1 to 2
          invariant ns == Sweep(w, h, x, y, dx) + Column(w, h, x, y, dx, dy)
        {
          ProbeStep(w, h, x, y, dx, dy, ns);
          var nx, ny := x + dx, y + dy;
          if 0 <= nx < w && 0 <= ny < h && (dx != 0 || dy != 0) {
            ns := ns + [(nx, ny)];
          }
        }
        SweepStep(w, h, x, y, dx);
      }
    }

    /** How many mines the cells of `ns` hold, read off the cells themselves. */
    function MinedCells(ns: seq<Coord>): (n: nat)
      reads this, Repr
      requires Valid() && forall q :: q in ns ==> InGrid(q)
      ensures n == MinesAmong(ns, mines)
    {
      if ns == [] then 0 else (if At(ns[0]).isMine then 1 else 0) + MinedCells(ns[1..])
    }

    /** The number of mined cells around `(x, y)`: the size of the set of mined on-board
        positions adjacent to it, at most 8. */
    function CountAdjacentMines(x: int, y: int): (n: nat)
      reads this, Repr
      requires Valid() && InGrid((x, y))
      ensures n == AdjacentMines((x, y))
      ensures n == |set q | q in mines && InBounds(width, height, q) && Adjacent((x, y), q)|
      ensures n <= 8
    {
      NeighborsExact(width, height, x, y);
      AdjacentMineCount(width, height, x, y, mines);
      MinedCells(Neighbors(width, height, x, y))
    }

    /** Whether the game is won: every cell holds a mine or is uncovered. */
    method CheckWin() returns (won: bool)
      requires Valid()
      ensures won == AllClear()
    {
      for y := 0 to height
        invariant forall p {:trigger At(p)} :: InGrid(p) && p.1 < y ==> At(p).isMine || At(p).isRevealed
      {
        for x := 0 to width
          invariant forall p {:trigger At(p)} :: InGrid(p) && (p.1 < y || (p.1 == y && p.0 < x)) ==> At(p).isMine || At(p).isRevealed
        {
          var cell := cells[y][x];
          if !cell.isMine && !cell.isRevealed {
            assert At((x, y)) == cell && !Settled((x, y));
            return false;
          }
        }
      }
      forall p | InGrid(p)
        ensures Settled(p)
      {
        assert At(p).isMine || At(p).isRevealed;
      }
      return true;
    }

    /** Flagging a cell: a covered cell has its flag turned over, an uncovered one is left
        alone, and no other cell changes. */
    method FlagCell(x: int, y: int)
      requires Valid() && InGrid((x, y))
      modifies Repr, this`flagged
      ensures Valid()
      ensures At((x, y)).State() == AfterFlagCell(old(At((x, y)).State()))
      ensures forall p {:trigger At(p)} :: InGrid(p) && p != (x, y) ==> At(p).State() == old(At(p).State())
      ensures revealed == old(revealed)
      ensures flagged == if (x, y) in revealed then old(flagged)
                         else if (x, y) in old(flagged) then old(flagged) - {(x, y)}
                         else old(flagged) + {(x, y)}
    {
      var cell := cells[y][x];
      assert cell == At((x, y));
      if !cell.isRevealed {
        cell.Flag();
        flagged := if (x, y) in flagged then flagged - {(x, y)} else flagged + {(x, y)};
      }
    }

    /** Uncovers the unflagged cell at `p`, as the game does on a click, on a mine that ends
        the game, and in the flood fill. No other cell changes. */
    method Uncover(p: Coord)
      requires Valid() && InGrid(p) && p !in flagged
      modifies Repr, this`revealed
      ensures Valid()
      ensures revealed == old(revealed) + {p}
      ensures old(AllClear()) ==> AllClear()
    {
      var cell := cells[p.1][p.0];
      assert cell == At(p);
      cell.Reveal();
      revealed := revealed + {p};
      AllClearKept();
    }

    /** Uncovering more cells keeps a cleared board cleared. */
    twostate lemma AllClearKept()
      requires old(revealed) <= revealed && unchanged(this`mines)
      ensures old(AllClear()) ==> AllClear()
    {
      if old(AllClear()) {
        forall q | InGrid(q)
          ensures Settled(q)
        {
          assert old(Settled(q));
        }
      }
    }

    /** The end of the game, won or lost: every unflagged mine is uncovered, flagged mines stay
        covered, nothing else changes, and the outcome is recorded. */
    method GameOver(won: bool)
      requires Valid()
      modifies Repr, this`outcome, this`revealed
      ensures Valid()
      ensures outcome == if won then Won else Lost
      ensures revealed == old(revealed) + (mines - flagged)
      ensures old(AllClear()) ==> AllClear()
    {
      var rest := mines;
      while rest != {}
        invariant rest <= mines
        invariant Valid()
        invariant revealed == old(revealed) + ((mines - rest) - flagged)
        decreases rest
      {
        var p :| p in rest;
        var cell := cells[p.1][p.0];
        assert cell == At(p);
        if !cell.isFlagged {
          Uncover(p);
        }
        rest := rest - {p};
      }
      assert mines - rest == mines;
      AllClearKept();
      outcome := if won then Won else Lost;
    }

    /** The last step of uncovering a mine-free cell: when every cell holds a mine or is
        uncovered, the game ends as won (uncovering every unflagged mine); otherwise nothing
        changes. */
    method EndIfWon()
      requires Valid()
      modifies Repr, this`outcome, this`revealed
      ensures Valid()
      ensures AllClear() == old(AllClear())
      ensures AllClear() ==> outcome == Won && revealed == old(revealed) + (mines - flagged)
      ensures !AllClear() ==> outcome == old(outcome) && revealed == old(revealed)
    {
      var won := CheckWin();
      if won {
        GameOver(true);
      }
    }

    /** Uncovering `(x, y)` at the player's request, with the flood fill. An uncovered or
        flagged cell is left alone. A mine is uncovered and ends the game as lost, uncovering
        every unflagged mine. Any other cell is uncovered; when no mine is next to it, each of
        its neighbours is uncovered the same way; then, if every cell holds a mine or is
        uncovered, the game ends as won. Flags never change and nothing is covered again.
        When `(x, y)` has no mine, mines stay covered unless the game is won, in which case
        every unflagged mine is uncovered, and the cells uncovered form a closed fill reached
        from `(x, y)`. Each call that goes on to its neighbours first uncovers a covered cell,
        so the set of covered cells shrinks from call to call. */
    method RevealCell(x: int, y: int)
      requires Valid() && InGrid((x, y))
      modifies Repr, this`outcome, this`revealed
      decreases Covered(), 2
      ensures Valid()
      ensures old(revealed) <= revealed
      ensures old(AllClear()) ==> AllClear()
      ensures (x, y) in old(revealed) || (x, y) in flagged ==>
        revealed == old(revealed) && outcome == old(outcome)
      ensures (x, y) !in old(revealed) && (x, y) !in flagged && (x, y) in mines ==>
        outcome == Lost && revealed == old(revealed) + (mines - flagged)
      ensures (x, y) !in old(revealed) && (x, y) !in flagged && (x, y) !in mines ==>
        (x, y) in revealed &&
        (AllClear() ==> outcome == Won && revealed * mines == mines - flagged) &&
        (!AllClear() ==> outcome == old(outcome) && revealed * mines == old(revealed) * mines)
      ensures Closed(width, height, mines, old(revealed), revealed, flagged, {})
      ensures Reached(width, height, mines, old(revealed), revealed, {(x, y)})
    {
      var cell := cells[y][x];
      assert cell == At((x, y));
      Start(width, height, mines, revealed, revealed, flagged, {});
      Start(width, height, mines, revealed, revealed, flagged, {(x, y)});
      if cell.isRevealed || cell.isFlagged {
        return;
      }
      if cell.isMine {
        Uncover((x, y));
        GameOver(false);
        AddMines(width, height, mines, old(revealed), old(revealed), flagged, mines - flagged, {(x, y)});
        return;
      }
      UncoverSafe(x, y);
    }

    /** Uncovering the covered, unflagged, mine-free cell `(x, y)`: it is uncovered; when no
        mine is next to it, each of its neighbours is uncovered as the player's request would;
        then, if every cell holds a mine or is uncovered, the game ends as won. Flags never
        change and nothing is covered again. Mines stay covered unless the game is won, in which
        case every unflagged mine is uncovered, and the cells uncovered form a closed fill
        reached from `(x, y)`. */
    method UncoverSafe(x: int, y: int)
      requires Valid() && InGrid((x, y))
      requires (x, y) !in revealed && (x, y) !in flagged && (x, y) !in mines
      modifies Repr, this`outcome, this`revealed
      decreases Covered(), 1
      ensures Valid()
      ensures old(revealed) <= revealed && (x, y) in revealed
      ensures old(AllClear()) ==> AllClear()
      ensures AllClear() ==> outcome == Won && revealed * mines == mines - flagged
      ensures !AllClear() ==> outcome == old(outcome) && revealed * mines == old(revealed) * mines
      ensures Closed(width, height, mines, old(revealed), revealed, flagged, {})
      ensures Reached(width, height, mines, old(revealed), revealed, {(x, y)})
    {
      var count := CountAdjacentMines(x, y);
      Uncover((x, y));
      assert revealed * mines == old(revealed) * mines;
      BlankCount(width, height, mines, (x, y));
      if count == 0 {
        ghost var mid := revealed;
        RevealAround(x, y, old(Covered()));
        FillFrom(width, height, mines, old(revealed), mid, revealed, flagged, (x, y));
      } else {
        FillStop(width, height, mines, old(revealed), revealed, flagged, (x, y));
      }
      ghost var filled := revealed;
      EndIfWon();
      if AllClear() {
        AddMines(width, height, mines, old(revealed), filled, flagged, mines - flagged, {(x, y)});
        assert revealed * mines == mines - flagged;
      } else {
        assert revealed * mines == old(revealed) * mines;
      }
    }

    /** The loop over the neighbours in the flood fill of the blank, mine-free, uncovered cell
        `(x, y)`: each on-board neighbour is uncovered in turn as the player's request would.
        Afterwards each of them is uncovered or flagged, flags never change, nothing is covered
        again, mines stay covered unless the game is won, and the cells uncovered form a closed
        fill reached from the neighbours. The covered cells at the start are fewer than
        `bound`, the covered cells of the request that uncovered `(x, y)`. */
    method RevealAround(x: int, y: int, ghost bound: set<Coord>)
      requires Valid() && InGrid((x, y)) && (x, y) !in mines && Blank(width, height, mines, (x, y))
      requires Covered() < bound
      modifies Repr, this`outcome, this`revealed
      decreases bound, 0
      ensures Valid()
      ensures old(revealed) <= revealed
      ensures old(AllClear()) ==> AllClear()
      ensures !AllClear() ==> outcome == old(outcome) && revealed * mines == old(revealed) * mines
      ensures forall q :: InGrid(q) && Adjacent((x, y), q) ==> q in revealed || q in flagged
      ensures Closed(width, height, mines, old(revealed), revealed, flagged, {})
      ensures Reached(width, height, mines, old(revealed), revealed, Elems(Neighbors(width, height, x, y)))
    {
      var ns := GetNeighbors(x, y);
      NeighborsOfBlank(width, height, mines, x, y);
      Start(width, height, mines, old(revealed), revealed, flagged, {});
      assert Elems(ns[..0]) == {};
      for i := 0 to |ns|
        invariant forall j :: 0 <= j < |ns| ==> InGrid(ns[j]) && ns[j] !in mines
        invariant Valid()
        invariant old(revealed) <= revealed && Covered() < bound
        invariant old(AllClear()) ==> AllClear()
        invariant !AllClear() ==> outcome == old(outcome) && revealed * mines == old(revealed) * mines
        invariant forall j :: 0 <= j < i ==> ns[j] in revealed || ns[j] in flagged
        invariant Closed(width, height, mines, old(revealed), revealed, flagged, {})
        invariant Reached(width, height, mines, old(revealed), revealed, Elems(ns[..i]))
      {
        var (nx, ny) := ns[i];
        ghost var mid := revealed;
        RevealCell(nx, ny);
        forall j | 0 <= j <= i
          ensures ns[j] in revealed || ns[j] in flagged
        {
          if j < i {
            assert ns[j] in mid || ns[j] in flagged;
          }
        }
        ClosedCompose(width, height, mines, old(revealed), mid, revealed, flagged, {});
        ReachedJoin(width, height, mines, old(revealed), mid, revealed, Elems(ns[..i]), {(nx, ny)});
        ElemsGrow(ns, i);
      }
      assert ns[..|ns|] == ns;
      NeighborsSettled(width, height, x, y, ns, revealed, flagged);
    }
  }
}
