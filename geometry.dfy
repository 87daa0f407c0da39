/** Grid coordinates, the eight-neighbourhood of a cell and mine counts over it. */
module Geometry {

  /** A grid position `(x, y)`: column first, row second, as in the game's tuples. */
  type Coord = (int, int)

  predicate InBounds(width: int, height: int, p: Coord) {
    0 <= p.0 < width && 0 <= p.1 < height
  }

  /** All positions of a `width` by `height` board. */
  function Positions(width: int, height: int): (g: set<Coord>)
    ensures forall p :: p in g <==> InBounds(width, height, p)
  {
    set x, y | 0 <= x < width && 0 <= y < height :: (x, y)
  }

  /** `q` is one of the (at most) eight cells around `p`: each coordinate differs by at most one. */
  predicate Adjacent(p: Coord, q: Coord) {
    p != q && -1 <= q.0 - p.0 <= 1 && -1 <= q.1 - p.1 <= 1
  }

  /** No position occurs twice. */
  predicate Distinct(s: seq<Coord>) {
    forall i, j :: 0 <= i < j < |s| ==> s[i] != s[j]
  }

  /** The position at offset `(dx, dy)` from `(x, y)`, kept only when it lies on the board
      and is not `(x, y)` itself. */
  function Probe(width: int, height: int, x: int, y: int, dx: int, dy: int): seq<Coord> {
    if InBounds(width, height, (x + dx, y + dy)) && (dx != 0 || dy != 0) then [(x + dx, y + dy)] else []
  }

  /** What the inner loop has collected for one `dx` once `dy` has run over `-1 .. dyEnd - 1`. */
  function Column(width: int, height: int, x: int, y: int, dx: int, dyEnd: int): seq<Coord>
    requires -1 <= dyEnd <= 2
  {
    if dyEnd == -1 then []
    else if dyEnd == 0 then Probe(width, height, x, y, dx, -1)
    else if dyEnd == 1 then Probe(width, height, x, y, dx, -1) + Probe(width, height, x, y, dx, 0)
    else Probe(width, height, x, y, dx, -1) + Probe(width, height, x, y, dx, 0) + Probe(width, height, x, y, dx, 1)
  }

  /** What the outer loop has collected once `dx` has run over `-1 .. dxEnd - 1`. */
  function Sweep(width: int, height: int, x: int, y: int, dxEnd: int): seq<Coord>
    requires -1 <= dxEnd <= 2
  {
    if dxEnd == -1 then []
    else if dxEnd == 0 then Column(width, height, x, y, -1, 2)
    else if dxEnd == 1 then Column(width, height, x, y, -1, 2) + Column(width, height, x, y, 0, 2)
    else Column(width, height, x, y, -1, 2) + Column(width, height, x, y, 0, 2) + Column(width, height, x, y, 1, 2)
  }

  /** The neighbours of `(x, y)` in the order the game lists them: `dx` outer, `dy` inner,
      each over `-1, 0, 1`. */
  function Neighbors(width: int, height: int, x: int, y: int): seq<Coord> {
    Sweep(width, height, x, y, 2)
  }

  lemma ColumnStep(width: int, height: int, x: int, y: int, dx: int, dy: int)
    requires -1 <= dy < 2
    ensures Column(width, height, x, y, dx, dy + 1)
            == Column(width, height, x, y, dx, dy) + Probe(width, height, x, y, dx, dy)
  {
  }

  /** One turn of the inner loop of the neighbour listing: the probe at `(dx, dy)` is appended
      exactly when it lies on the board and is not the centre. */
  lemma ProbeStep(width: int, height: int, x: int, y: int, dx: int, dy: int, ns: seq<Coord>)
    requires -1 <= dx < 2 && -1 <= dy < 2
    requires ns == Sweep(width, height, x, y, dx) + Column(width, height, x, y, dx, dy)
    ensures InBounds(width, height, (x + dx, y + dy)) && (dx != 0 || dy != 0) ==>
      ns + [(x + dx, y + dy)] == Sweep(width, height, x, y, dx) + Column(width, height, x, y, dx, dy + 1)
    ensures !(InBounds(width, height, (x + dx, y + dy)) && (dx != 0 || dy != 0)) ==>
      ns == Sweep(width, height, x, y, dx) + Column(width, height, x, y, dx, dy + 1)
  {
    ColumnStep(width, height, x, y, dx, dy);
  }

  lemma SweepStep(width: int, height: int, x: int, y: int, dx: int)
    requires -1 <= dx < 2
    ensures Sweep(width, height, x, y, dx + 1)
            == Sweep(width, height, x, y, dx) + Column(width, height, x, y, dx, 2)
  {
  }

  /** The neighbour list holds exactly the on-board cells adjacent to `(x, y)`. */
  lemma NeighborsExact(width: int, height: int, x: int, y: int)
    ensures forall q :: q in Neighbors(width, height, x, y) <==> InBounds(width, height, q) && Adjacent((x, y), q)
  {
  }

  /** Adjacency is symmetric, so `p` lists `q` exactly when `q` lists `p`. */
  lemma NeighborsSymmetric(width: int, height: int, p: Coord, q: Coord)
    requires InBounds(width, height, p) && InBounds(width, height, q)
    ensures q in Neighbors(width, height, p.0, p.1) <==> p in Neighbors(width, height, q.0, q.1)
  {
    NeighborsExact(width, height, p.0, p.1);
    NeighborsExact(width, height, q.0, q.1);
  }

  lemma DistinctConcat(s: seq<Coord>, t: seq<Coord>)
    requires Distinct(s) && Distinct(t)
    requires forall q :: q in s ==> q !in t
    ensures Distinct(s + t)
  {
    forall i, j | 0 <= i < j < |s + t|
      ensures (s + t)[i] != (s + t)[j]
    {
      if j >= |s| && i < |s| {
        assert (s + t)[i] in s && (s + t)[j] in t;
      }
    }
  }

  /** The entries one turn of the outer loop adds are distinct and all lie in column `x + dx`. */
  lemma ColumnShape(width: int, height: int, x: int, y: int, dx: int)
    ensures Distinct(Column(width, height, x, y, dx, 2))
    ensures forall q {:trigger q in Column(width, height, x, y, dx, 2)} ::
      q in Column(width, height, x, y, dx, 2) ==> q.0 == x + dx
  {
    var top, mid, low := Probe(width, height, x, y, dx, -1), Probe(width, height, x, y, dx, 0),
                         Probe(width, height, x, y, dx, 1);
    DistinctConcat(top, mid);
    DistinctConcat(top + mid, low);
  }

  /** The neighbour list has no duplicates. */
  lemma NeighborsDistinct(width: int, height: int, x: int, y: int)
    ensures Distinct(Neighbors(width, height, x, y))
  {
    var left, centre, right := Column(width, height, x, y, -1, 2), Column(width, height, x, y, 0, 2),
                              Column(width, height, x, y, 1, 2);
    ColumnShape(width, height, x, y, -1);
    ColumnShape(width, height, x, y, 0);
    ColumnShape(width, height, x, y, 1);
    DistinctConcat(left, centre);
    DistinctConcat(left + centre, right);
  }

  /** How many of `c - 1, c, c + 1` lie in `0 .. size - 1`, for an on-board `c`. */
  function Span(size: int, c: int): (n: int)
    requires 0 <= c < size
    ensures 1 <= n <= 3
  {
    (if c - 1 >= 0 then 1 else 0) + 1 + (if c + 1 < size then 1 else 0)
  }

  /** An on-board cell has one neighbour fewer than the 3 x 3 block around it holds on the board:
      3 in a corner, 5 on an edge, 8 inside (given a board at least 2 or 3 cells wide and high). */
  lemma NeighborsCount(width: int, height: int, x: int, y: int)
    requires InBounds(width, height, (x, y))
    ensures |Neighbors(width, height, x, y)| == Span(width, x) * Span(height, y) - 1
    ensures (x == 0 || x == width - 1) && (y == 0 || y == height - 1) && width >= 2 && height >= 2
            ==> |Neighbors(width, height, x, y)| == 3
    ensures (x == 0 || x == width - 1) && 0 < y < height - 1 && width >= 2
            ==> |Neighbors(width, height, x, y)| == 5
    ensures 0 < x < width - 1 && (y == 0 || y == height - 1) && height >= 2
            ==> |Neighbors(width, height, x, y)| == 5
    ensures 0 < x < width - 1 && 0 < y < height - 1 ==> |Neighbors(width, height, x, y)| == 8
  {
  }

  /** How many entries of `ns` are in `mines`, the sum on line 91 of the game. */
  function MinesAmong(ns: seq<Coord>, mines: set<Coord>): nat {
    if ns == [] then 0 else (if ns[0] in mines then 1 else 0) + MinesAmong(ns[1..], mines)
  }

  lemma {:induction false} MinesAmongZero(ns: seq<Coord>, mines: set<Coord>)
    ensures MinesAmong(ns, mines) == 0 <==> forall q :: q in ns ==> q !in mines
  {
    if ns != [] {
      MinesAmongZero(ns[1..], mines);
      assert forall q :: q in ns <==> q == ns[0] || q in ns[1..];
    }
  }

  /** Over a list without duplicates the sum is the size of the set of listed mines. */
  lemma {:induction false} MinesAmongCard(ns: seq<Coord>, mines: set<Coord>)
    requires Distinct(ns)
    ensures MinesAmong(ns, mines) == |set q | q in ns && q in mines|
  {
    if ns == [] {
      assert (set q | q in ns && q in mines) == {};
    } else {
      var rest := ns[1..];
      assert Distinct(rest) by {
        forall i, j | 0 <= i < j < |rest| ensures rest[i] != rest[j] {
          assert rest[i] == ns[i + 1] && rest[j] == ns[j + 1];
        }
      }
      MinesAmongCard(rest, mines);
      assert ns[0] !in rest by {
        forall k | 0 <= k < |rest| ensures rest[k] != ns[0] {
          assert rest[k] == ns[k + 1];
        }
      }
      var tail := set q | q in rest && q in mines;
      if ns[0] in mines {
        assert (set q | q in ns && q in mines) == tail + {ns[0]};
      } else {
        assert (set q | q in ns && q in mines) == tail;
      }
    }
  }

  /** The count over the neighbour list is the number of mined on-board cells adjacent to
      `(x, y)`, and so lies in `0 .. 8`. */
  lemma AdjacentMineCount(width: int, height: int, x: int, y: int, mines: set<Coord>)
    ensures MinesAmong(Neighbors(width, height, x, y), mines)
            == |set q | q in mines && InBounds(width, height, q) && Adjacent((x, y), q)|
    ensures MinesAmong(Neighbors(width, height, x, y), mines) <= 8
  {
    var ns := Neighbors(width, height, x, y);
    NeighborsDistinct(width, height, x, y);
    NeighborsExact(width, height, x, y);
    MinesAmongCard(ns, mines);
    assert (set q | q in ns && q in mines)
        == (set q | q in mines && InBounds(width, height, q) && Adjacent((x, y), q));
    MinesAmongAtMostLength(ns, mines);
  }

  lemma {:induction false} MinesAmongAtMostLength(ns: seq<Coord>, mines: set<Coord>)
    ensures MinesAmong(ns, mines) <= |ns|
  {
    if ns != [] {
      MinesAmongAtMostLength(ns[1..], mines);
    }
  }
}
