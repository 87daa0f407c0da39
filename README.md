# Minesweeper board model

A model, in Dafny, of the game logic of a small tkinter Minesweeper (`minesweeper.py`).

The board is a `width` by `height` grid of cells. Each cell records whether it hides a mine,
whether it has been uncovered, and whether it carries a flag. Setting up a game builds the grid
and places `totalMines` mines by rejection sampling.

A left click uncovers a cell. A mine loses the game. Any other cell shows how many mines lie
around it; when that count is zero, the game uncovers the neighbours the same way (the flood
fill). When every cell holds a mine or is uncovered, the game is won. A right click turns a
flag over on a covered cell. At the end of the game every unflagged mine is uncovered.

Modules:

- `Geometry` (`geometry.dfy`): coordinates, the neighbour list in the game's order, and mine
  counts over it.
- `Placement` (`placement.dfy`): the outcome of the rejection-sampling loop, as a function of
  the random draws.
- `Cells` (`cell.dfy`): the cell object and its `reveal` and `flag` methods.
- `Display` (`display.dfy`): the label and colour of an uncovered cell.
- `FloodFill` (`floodfill.dfy`): what a flood fill achieves, stated over sets of positions
  (closed and reached), with the lemmas that compose fills.
- `Minesweeper` (`board.dfy`): the `Board` class. Its fields are the grid of `Cell` objects,
  the mine set and the outcome, and its methods update them in place.
  - The board invariant `Valid()` ties every cell's three flags to three sets: the field
    `mines` (the source's own mine set) and the ghost sets `revealed` and `flagged`.
  - It also requires exactly `totalMines` mines and no cell that is both uncovered and flagged.
  - Every operation keeps `Valid()`.

Recursion in `reveal_cell` is kept. `RevealCell` calls `UncoverSafe` for a mine-free cell, and
`UncoverSafe` calls `RevealAround`. `RevealAround` is the loop over `get_neighbors`, and it calls
`RevealCell` for each neighbour. Termination is proved on the set of covered cells: it shrinks
strictly between one request and the requests it makes for the neighbours.

The win test and the end of the game run in every frame of the recursion, as in the source.

What a click uncovers is stated in `FloodFill` over sets of positions:

- `Closed`: every uncovered mine-free cell with no mine next to it has each on-board neighbour
  uncovered or flagged.
- `Reached`: the newly uncovered mine-free cells can be put in an order that starts at the
  clicked cell, with every later cell next to a blank, mine-free cell that comes earlier in
  the order. So each of them is joined to the clicked cell by a chain of uncovered cells, and
  every step of the chain leaves a blank cell.
- `FillUnique`: these two conditions together fix the outcome. Two fills from the same cell,
  the same uncovered cells and the same flags uncover the same mine-free cells.

## Model

| member | source | states |
|---|---|---|
| Cells.Cell.constructor | minesweeper.py:6-14 | a new cell keeps its position and is covered, unflagged and mine-free |
| Cells.Cell.Reveal | minesweeper.py:27-29 | uncovering sets the uncovered flag and leaves the mine and the flag as they were |
| Cells.Cell.Flag | minesweeper.py:31-37 | flagging turns the flag over and leaves the mine and the covering unchanged |
| Cells.AfterFlagCell | minesweeper.py:85-88 | flagging through the board never touches the mine or the covering, and it changes the flag exactly when the cell is covered |
| Cells.AfterFlagCellProperties | minesweeper.py:85-88 | flagging through the board twice restores the cell, and it never makes a cell both flagged and uncovered |
| Minesweeper.Board.constructor | minesweeper.py:41-48 | a new game has the given size and mine total, a valid board, nothing uncovered or flagged, the outcome in progress, and the mines that placement yields from the draws |
| Minesweeper.Board.SetupGame | minesweeper.py:50-65 | builds a `height` by `width` grid of fresh covered cells, each knowing its own position; the mine set is what rejection sampling yields from the draws; the board is valid with nothing uncovered or flagged |
| Minesweeper.Board.LayMines | minesweeper.py:60-65 | the placement loop ends with exactly `totalMines` mines, its mine set is `PlaceMines` of the draws, every cell's mine mark agrees with that set, and no cell is uncovered or flagged |
| Minesweeper.Board.Draw | minesweeper.py:60-65 | one turn of the loop, taken while fewer than `totalMines` mines are placed: a draw is left, its position joins the mine set, and the loop stays on its way to the same final mine set |
| Minesweeper.Board.PlaceMine | minesweeper.py:63-65 | one draw adds its position to the mine set and marks that cell as a mine, whether or not it already was one; no cell is uncovered or flagged |
| Placement.PlaceMinesCount | minesweeper.py:60-65 | when the draws hold at least `total` distinct positions, placement ends with exactly `total` mines |
| Placement.PlaceMines | minesweeper.py:60-65 | placement keeps the mines already placed and adds only drawn positions |
| Placement.PlaceMinesAtMost | minesweeper.py:60-65 | placement that starts with at most `total` mines never ends with more than `total` |
| Minesweeper.Board.GetNeighbors | minesweeper.py:93-100 | the listed positions are exactly `Neighbors`: the on-board offsets other than the centre, `dx` outer and `dy` inner, each over -1, 0, 1 |
| Geometry.NeighborsExact | minesweeper.py:93-100 | a position is listed exactly when it is on the board and adjacent to the centre |
| Geometry.NeighborsDistinct | minesweeper.py:93-100 | no position is listed twice |
| Geometry.ColumnShape | minesweeper.py:96-99 | one outer turn adds distinct positions, all in column `x + dx` |
| Geometry.NeighborsSymmetric | minesweeper.py:93-100 | `q` lists `p` exactly when `p` lists `q` |
| Geometry.NeighborsCount | minesweeper.py:93-100 | the list has (cells of the on-board 3 x 3 block) - 1 entries: 3 in a corner, 5 on an edge, 8 inside |
| Minesweeper.Board.CountAdjacentMines | minesweeper.py:90-91 | the count equals the number of mined on-board cells adjacent to the cell, and is at most 8 |
| Minesweeper.Board.MinedCells | minesweeper.py:91 | the sum over the cells of a position list equals the count of listed positions in the mine set |
| Geometry.AdjacentMineCount | minesweeper.py:90-91 | the sum over the neighbour list is the size of the set of adjacent on-board mines, at most 8 |
| Geometry.MinesAmongZero | minesweeper.py:91 | the sum is zero exactly when no listed position is a mine |
| Geometry.MinesAmongCard | minesweeper.py:91 | over a list without duplicates, the sum is the size of the set of listed mines |
| Minesweeper.Board.CheckWin | minesweeper.py:110-116 | the answer is true exactly when every cell holds a mine or is uncovered |
| Minesweeper.Board.FlagCell | minesweeper.py:85-88 | the cell becomes `AfterFlagCell` of its old state, every other cell is unchanged, the uncovered set is unchanged, and the flagged set gains or loses the position only when the cell is covered |
| Minesweeper.Board.Uncover | minesweeper.py:72 | uncovering one unflagged cell adds exactly its position to the uncovered set, keeps the board valid, and keeps a cleared board cleared |
| Minesweeper.Board.AllClearKept | minesweeper.py:110-116 | uncovering more cells never undoes a win condition |
| Minesweeper.Board.GameOver | minesweeper.py:102-105 | the end of the game uncovers exactly the unflagged mines, keeps flagged mines covered, changes nothing else, and records the outcome |
| Minesweeper.Board.EndIfWon | minesweeper.py:82-83 | when every cell holds a mine or is uncovered, the game ends as won and the unflagged mines are uncovered; otherwise nothing changes |
| Minesweeper.Board.RevealCell | minesweeper.py:67-83 | an uncovered or flagged cell is left alone. A mine loses the game and uncovers exactly the unflagged mines. A mine-free cell is uncovered. Flags and mines never change and nothing is covered again. Without a win no mine is uncovered; a win uncovers exactly the unflagged mines. The new uncovered cells are closed (`Closed`) and are reached from the clicked cell by an uncovering order (`Reached`), which by `FillUnique` fixes them |
| Minesweeper.Board.UncoverSafe | minesweeper.py:76-83 | the mine-free cell is uncovered; when the board ends up cleared the game is won and exactly the unflagged mines are uncovered, otherwise the outcome is unchanged and no mine is uncovered; the new uncovered cells are closed and are reached from the cell by an uncovering order |
| Minesweeper.Board.RevealAround | minesweeper.py:78-80 | after the loop over the neighbours of a blank cell, each on-board neighbour is uncovered or flagged; the new uncovered cells are closed and have an uncovering order that starts from those neighbours |
| FloodFill.BlankCount | minesweeper.py:76-78 | a cell has no adjacent mine exactly when the game's count for it is zero |
| FloodFill.NeighborsOfBlank | minesweeper.py:78-80 | every neighbour the fill recurses into is on the board, adjacent and mine-free |
| FloodFill.NeighborsSettled | minesweeper.py:79-80 | once every listed neighbour is uncovered or flagged, so is every on-board adjacent cell |
| FloodFill.FillStop | minesweeper.py:76-78 | uncovering a cell that has a mine next to it, and nothing else, is a closed fill reached from it |
| FloodFill.FillFrom | minesweeper.py:76-80 | uncovering a blank cell and then filling from its neighbours until each is uncovered or flagged is a closed fill reached from the cell |
| FloodFill.ClosedCompose | minesweeper.py:79-80 | two fills in sequence are closed when each is |
| FloodFill.OrderJoin | minesweeper.py:79-80 | the uncovering orders of two fills in sequence, put one after the other, list the joint fill, and each cell keeps the earlier blank neighbour it had |
| FloodFill.ReachedJoin | minesweeper.py:79-80 | two fills in sequence have an uncovering order from the union of their starting points |
| FloodFill.ReachedFrom | minesweeper.py:78-80 | a fill started from the neighbours of an uncovered blank cell adds no starting point, since the blank cell comes earlier in the order than each of them |
| FloodFill.OrderWithin | minesweeper.py:76-80 | every cell in the uncovering order of a fill from a cell is uncovered by any closed fill from the same cell, start and flags |
| FloodFill.FillWithin | minesweeper.py:76-80 | a fill reached from a cell uncovers no mine-free cell that a closed fill from the same cell, start and flags leaves covered |
| FloodFill.FillUnique | minesweeper.py:67-83 | two closed fills reached from the same cell, from the same uncovered and flagged cells, uncover the same mine-free cells: the result of a click is determined |
| FloodFill.FlaggedLineFill | minesweeper.py:78-80 | on a 5 by 1 board without mines whose middle cell is flagged, any closed fill reached from the left end uncovers exactly the left end and the cell next to it |
| FloodFill.AddMines | minesweeper.py:102-105 | uncovering further mines at the end of the game keeps a fill closed and reached |
| Display.Label | minesweeper.py:77 | the label is empty exactly for a zero count, and it holds only decimal digits |
| Display.LabelMeaning | minesweeper.py:77 | a non-empty label reads back as the count, and a count from 1 to 9 is one digit |
| Display.DecimalRoundTrip | minesweeper.py:77 | reading the decimal numeral of a count back gives the count |
| Display.Decimal | minesweeper.py:77 | the numeral is non-empty and all digits; a count below 10 is its single digit, and a larger one has no leading zero |
| Display.ColorForCount | minesweeper.py:118-120 | the colour is one of the table's; black is used exactly for counts outside 1 to 7, so for 0 and 8 |
| Display.ColorForCountTable | minesweeper.py:118-120 | the counts 1 to 7 get seven different colours |

## Left out

- The tkinter interface is not modelled: the buttons, their text, relief, state and colours.
  The text and colour an uncovered cell gets are modelled separately as `Display.Label` and
  `Display.ColorForCount`.
- The message box and `root.quit()` at the end of the game are not modelled; the model
  records the result in the `outcome` field instead.
  - In the source, the `quit` call does not stop the flood fill that is running. In the model
    the flood fill carries on as well.
  - Requests made after the game has ended are not refused, as in the source.
- `random.randint` is not modelled. Its results are the parameter `picks`: the drawn
  positions, in order.
  - The setup requires the draws to lie on the board and to hold at least `totalMines`
    distinct positions. This rules out two cases in which the source never ends its setup.
  - On a board with no cells (`width` or `height` 0) and `mines` > 0, `random.randint(0, -1)`
    raises `ValueError` (lines 61-62).
  - On a board with cells, when `mines` exceeds `width * height`, the loop of lines 60-65 runs
    forever.
- The default arguments `width=10, height=10, mines=10` of the constructor (line 41) are not
  modelled. The constructor takes all three explicitly.
- `Cell.left_click` and `Cell.right_click` (lines 20-25) are not modelled as methods of their
  own.
  - `right_click` only forwards to `flag_cell`, which is `FlagCell`.
  - `left_click` refuses a flagged cell before calling `reveal_cell`. `RevealCell` applies the
    same test itself, so the result is the same.
- `GameOver`: `game_over` iterates over a Python set in hash order. The model takes the mines
  in an unspecified order, and the final state does not depend on the order.
- RevealCell: the model's recursion has no depth limit. In the source each level of the flood
  fill is a Python call, and CPython's default recursion limit of 1000 frames raises
  `RecursionError` when a blank region is deep enough. The exception then unwinds through the
  pending frames and skips their `check_win` calls (lines 82-83). The model states the
  behaviour of an unbounded stack.
- The sizes `width`, `height` and `totalMines` are taken as non-negative (`nat`). Python also
  accepts negative values (lines 41-45): a negative `mines` skips the placement loop (line 60),
  and a negative `width` or `height` gives an empty grid (lines 53-55).
- Python's negative list indices are not modelled. Every coordinate the game passes is on the
  board, and the methods require that.
