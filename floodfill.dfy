/** What the flood fill of the game achieves, stated over sets of positions: `before` and
    `after` are the uncovered positions before and after a fill, `flags` the flagged ones. */
module FloodFill {
  import opened Geometry
  import opened Placement

  /** No mine lies on the board next to `p`. */
  predicate Blank(width: int, height: int, mines: set<Coord>, p: Coord) {
    forall q :: q in mines && InBounds(width, height, q) ==> !Adjacent(p, q)
  }

  /** A cell is blank exactly when the game's count over its neighbour list is zero. */
  lemma BlankCount(width: int, height: int, mines: set<Coord>, p: Coord)
    ensures Blank(width, height, mines, p) <==> MinesAmong(Neighbors(width, height, p.0, p.1), mines) == 0
  {
    MinesAmongZero(Neighbors(width, height, p.0, p.1), mines);
    NeighborsExact(width, height, p.0, p.1);
  }

  /** `p` was uncovered by the fill. */
  predicate Added(before: set<Coord>, after: set<Coord>, p: Coord) {
    p in after && p !in before
  }

  /** Every position uncovered by the fill that has no mine and no mine next to it, other than
      those in `pending`, has each of its on-board neighbours uncovered or flagged. */
  ghost predicate Closed(width: int, height: int, mines: set<Coord>, before: set<Coord>, after: set<Coord>,
                         flags: set<Coord>, pending: set<Coord>)
  {
    forall p, q {:trigger Added(before, after, p), InBounds(width, height, q)} ::
      (Added(before, after, p) && p !in mines && p !in pending && Blank(width, height, mines, p) &&
       InBounds(width, height, q) && Adjacent(p, q))
      ==> q in after || q in flags
  }

  /** `order` lists the mine-free positions the fill uncovered, each at least once. */
  ghost predicate Listed(mines: set<Coord>, before: set<Coord>, after: set<Coord>, order: seq<Coord>) {
    (forall j :: 0 <= j < |order| ==> Added(before, after, order[j]) && order[j] !in mines) &&
    (forall p {:trigger Added(before, after, p)} :: Added(before, after, p) && p !in mines ==> p in order)
  }

  /** Some position listed before index `j` of `order` has no mine next to it and lies next
      to `order[j]`. */
  ghost predicate Supported(width: int, height: int, mines: set<Coord>, order: seq<Coord>, j: int)
    requires 0 <= j < |order|
  {
    exists i :: 0 <= i < j && Blank(width, height, mines, order[i]) && Adjacent(order[i], order[j])
  }

  /** `order` is an uncovering order of the fill: it lists the mine-free positions the fill
      uncovered, and each of them other than the `roots` comes after a blank position next
      to it. */
  ghost predicate FillOrder(width: int, height: int, mines: set<Coord>, before: set<Coord>, after: set<Coord>,
                            roots: set<Coord>, order: seq<Coord>)
  {
    Listed(mines, before, after, order) &&
    forall j {:trigger Supported(width, height, mines, order, j)} ::
      0 <= j < |order| && order[j] !in roots ==> Supported(width, height, mines, order, j)
  }

  /** The fill spread out of `roots` only: its mine-free positions can be put in an order in
      which each one, other than the roots, lies next to a blank position uncovered earlier.
      So every one of them is joined to a root by a path of uncovered positions on which every
      step leaves a blank, mine-free cell. */
  ghost predicate Reached(width: int, height: int, mines: set<Coord>, before: set<Coord>, after: set<Coord>,
                          roots: set<Coord>)
  {
    exists order :: FillOrder(width, height, mines, before, after, roots, order)
  }

  /** The elements of a finite set of positions, in some order. */
  ghost function Listing(s: set<Coord>): (r: seq<Coord>)
    ensures forall p :: p in r <==> p in s
    decreases |s|
  {
    if s == {} then []
    else
      var p :| p in s;
      [p] + Listing(s - {p})
  }

  /** A fill that uncovers nothing, or only `roots`, is closed up to `roots` and reached. */
  lemma Start(width: int, height: int, mines: set<Coord>, before: set<Coord>, after: set<Coord>,
              flags: set<Coord>, roots: set<Coord>)
    requires after - before <= roots
    ensures Closed(width, height, mines, before, after, flags, roots)
    ensures Reached(width, height, mines, before, after, roots)
  {
    var order := Listing((after - before) - mines);
    forall j | 0 <= j < |order|
      ensures Added(before, after, order[j]) && order[j] !in mines && order[j] in roots
    {
      assert order[j] in order;
    }
    forall p | Added(before, after, p) && p !in mines
      ensures p in order
    {
    }
    assert FillOrder(width, height, mines, before, after, roots, order);
  }

  /** A fill from `mid` to `after` that is closed, following a fill from `before` to `mid`
      closed up to `pending`, makes one fill from `before` to `after` closed up to `pending`. */
  lemma ClosedCompose(width: int, height: int, mines: set<Coord>, before: set<Coord>, mid: set<Coord>,
                      after: set<Coord>, flags: set<Coord>, pending: set<Coord>)
    requires mid <= after
    requires Closed(width, height, mines, before, mid, flags, pending)
    requires Closed(width, height, mines, mid, after, flags, {})
    ensures Closed(width, height, mines, before, after, flags, pending)
  {
    forall p, q |
      Added(before, after, p) && p !in mines && p !in pending && Blank(width, height, mines, p) &&
      InBounds(width, height, q) && Adjacent(p, q)
      ensures q in after || q in flags
    {
      if p in mid {
        assert Added(before, mid, p);
      } else {
        assert Added(mid, after, p);
      }
    }
  }

  /** The uncovering orders of two fills one after the other, put together, list the joint
      fill, and every position keeps the support it had in its own order. */
  lemma OrderJoin(width: int, height: int, mines: set<Coord>, before: set<Coord>, mid: set<Coord>,
                  after: set<Coord>, roots: set<Coord>, more: set<Coord>, o1: seq<Coord>, o2: seq<Coord>)
    requires before <= mid <= after
    requires FillOrder(width, height, mines, before, mid, roots, o1)
    requires FillOrder(width, height, mines, mid, after, more, o2)
    ensures Listed(mines, before, after, o1 + o2)
    ensures forall j {:trigger Supported(width, height, mines, o1 + o2, j)} ::
      0 <= j < |o1| && o1[j] !in roots ==> Supported(width, height, mines, o1 + o2, j)
    ensures forall j {:trigger Supported(width, height, mines, o1 + o2, j)} ::
      |o1| <= j < |o1| + |o2| && o2[j - |o1|] !in more ==> Supported(width, height, mines, o1 + o2, j)
  {
    var o := o1 + o2;
    forall j | 0 <= j < |o|
      ensures Added(before, after, o[j]) && o[j] !in mines
    {
      if j < |o1| {
        assert o[j] == o1[j];
      } else {
        assert o[j] == o2[j - |o1|];
      }
    }
    forall p | Added(before, after, p) && p !in mines
      ensures p in o
    {
      if p in mid {
        assert Added(before, mid, p);
      } else {
        assert Added(mid, after, p);
      }
    }
    forall j | 0 <= j < |o1| && o1[j] !in roots
      ensures Supported(width, height, mines, o, j)
    {
      assert Supported(width, height, mines, o1, j);
      var i :| 0 <= i < j && Blank(width, height, mines, o1[i]) && Adjacent(o1[i], o1[j]);
      assert o[i] == o1[i] && o[j] == o1[j];
    }
    forall j | |o1| <= j < |o| && o2[j - |o1|] !in more
      ensures Supported(width, height, mines, o, j)
    {
      assert Supported(width, height, mines, o2, j - |o1|);
      var i :| 0 <= i < j - |o1| && Blank(width, height, mines, o2[i]) && Adjacent(o2[i], o2[j - |o1|]);
      assert o[i + |o1|] == o2[i] && o[j] == o2[j - |o1|];
    }
  }

  /** Two fills one after the other make one fill, started from the starting points of both. */
  lemma ReachedJoin(width: int, height: int, mines: set<Coord>, before: set<Coord>, mid: set<Coord>,
                    after: set<Coord>, roots: set<Coord>, more: set<Coord>)
    requires before <= mid <= after
    requires Reached(width, height, mines, before, mid, roots)
    requires Reached(width, height, mines, mid, after, more)
    ensures Reached(width, height, mines, before, after, roots + more)
  {
    var o1 :| FillOrder(width, height, mines, before, mid, roots, o1);
    var o2 :| FillOrder(width, height, mines, mid, after, more, o2);
    OrderJoin(width, height, mines, before, mid, after, roots, more, o1, o2);
    var o := o1 + o2;
    forall j | 0 <= j < |o| && o[j] !in roots + more
      ensures Supported(width, height, mines, o, j)
    {
      if j < |o1| {
        assert o[j] == o1[j];
      } else {
        assert o[j] == o2[j - |o1|];
      }
    }
    assert FillOrder(width, height, mines, before, after, roots + more, o);
  }

  /** A fill started from neighbours of the blank, mine-free `root` that an earlier fill
      uncovered extends that earlier fill without new starting points. */
  lemma ReachedFrom(width: int, height: int, mines: set<Coord>, before: set<Coord>, mid: set<Coord>,
                    after: set<Coord>, root: Coord, next: set<Coord>)
    requires before <= mid <= after
    requires root in mid && root !in before && root !in mines && Blank(width, height, mines, root)
    requires forall n :: n in next ==> Adjacent(root, n)
    requires Reached(width, height, mines, before, mid, {root})
    requires Reached(width, height, mines, mid, after, next)
    ensures Reached(width, height, mines, before, after, {root})
  {
    var o1 :| FillOrder(width, height, mines, before, mid, {root}, o1);
    var o2 :| FillOrder(width, height, mines, mid, after, next, o2);
    OrderJoin(width, height, mines, before, mid, after, {root}, next, o1, o2);
    var o := o1 + o2;
    assert Added(before, mid, root);
    var r :| 0 <= r < |o1| && o1[r] == root;
    forall j | 0 <= j < |o| && o[j] !in {root}
      ensures Supported(width, height, mines, o, j)
    {
      if j < |o1| {
        assert o[j] == o1[j];
      } else if o2[j - |o1|] in next {
        assert o[r] == root && o[j] == o2[j - |o1|];
      } else {
        assert o[j] == o2[j - |o1|];
      }
    }
    assert FillOrder(width, height, mines, before, after, {root}, o);
  }

  /** Once a root is known not to be blank, or every on-board neighbour of it is uncovered
      or flagged, the root no longer needs to be excepted. */
  lemma ClosedFinish(width: int, height: int, mines: set<Coord>, before: set<Coord>, after: set<Coord>,
                     flags: set<Coord>, root: Coord)
    requires Closed(width, height, mines, before, after, flags, {root})
    requires !Blank(width, height, mines, root) ||
             forall q :: InBounds(width, height, q) && Adjacent(root, q) ==> q in after || q in flags
    ensures Closed(width, height, mines, before, after, flags, {})
  {
  }

  /** Every entry of the neighbour list of a blank cell is on the board, adjacent to it and
      free of mines. */
  lemma NeighborsOfBlank(width: int, height: int, mines: set<Coord>, x: int, y: int)
    requires Blank(width, height, mines, (x, y))
    ensures forall j :: 0 <= j < |Neighbors(width, height, x, y)| ==>
      InBounds(width, height, Neighbors(width, height, x, y)[j]) &&
      Adjacent((x, y), Neighbors(width, height, x, y)[j]) &&
      Neighbors(width, height, x, y)[j] !in mines
  {
    NeighborsExact(width, height, x, y);
  }

  /** Once every entry of the neighbour list of `(x, y)` is uncovered or flagged, so is every
      on-board cell adjacent to it. */
  lemma NeighborsSettled(width: int, height: int, x: int, y: int, ns: seq<Coord>, after: set<Coord>,
                         flags: set<Coord>)
    requires ns == Neighbors(width, height, x, y)
    requires forall j :: 0 <= j < |ns| ==> ns[j] in after || ns[j] in flags
    ensures forall q :: InBounds(width, height, q) && Adjacent((x, y), q) ==> q in after || q in flags
  {
    NeighborsExact(width, height, x, y);
    forall q | InBounds(width, height, q) && Adjacent((x, y), q)
      ensures q in after || q in flags
    {
      var j :| 0 <= j < |ns| && ns[j] == q;
    }
  }

  /** Uncovering a cell with a mine next to it, and nothing else, is a closed fill reached
      from that cell. */
  lemma FillStop(width: int, height: int, mines: set<Coord>, before: set<Coord>, after: set<Coord>,
                 flags: set<Coord>, root: Coord)
    requires after == before + {root}
    requires !Blank(width, height, mines, root)
    ensures Closed(width, height, mines, before, after, flags, {})
    ensures Reached(width, height, mines, before, after, {root})
  {
    Start(width, height, mines, before, after, flags, {root});
    ClosedFinish(width, height, mines, before, after, flags, root);
  }

  /** Uncovering a blank, mine-free cell and then filling from its neighbours until each of
      them is uncovered or flagged is a closed fill reached from that cell. */
  lemma FillFrom(width: int, height: int, mines: set<Coord>, before: set<Coord>, mid: set<Coord>,
                 after: set<Coord>, flags: set<Coord>, root: Coord)
    requires mid == before + {root} && root !in before && mid <= after
    requires root !in mines && Blank(width, height, mines, root)
    requires Closed(width, height, mines, mid, after, flags, {})
    requires Reached(width, height, mines, mid, after, Elems(Neighbors(width, height, root.0, root.1)))
    requires forall q :: InBounds(width, height, q) && Adjacent(root, q) ==> q in after || q in flags
    ensures Closed(width, height, mines, before, after, flags, {})
    ensures Reached(width, height, mines, before, after, {root})
  {
    Start(width, height, mines, before, mid, flags, {root});
    ClosedCompose(width, height, mines, before, mid, after, flags, {root});
    ClosedFinish(width, height, mines, before, after, flags, root);
    NeighborsExact(width, height, root.0, root.1);
    ReachedFrom(width, height, mines, before, mid, after, root, Elems(Neighbors(width, height, root.0, root.1)));
  }

  /** Uncovering further mines (as the end of the game does) keeps a fill closed and reached. */
  lemma AddMines(width: int, height: int, mines: set<Coord>, before: set<Coord>, after: set<Coord>,
                 flags: set<Coord>, extra: set<Coord>, roots: set<Coord>)
    requires extra <= mines
    requires Closed(width, height, mines, before, after, flags, {})
    requires Reached(width, height, mines, before, after, roots)
    ensures Closed(width, height, mines, before, after + extra, flags, {})
    ensures Reached(width, height, mines, before, after + extra, roots)
  {
    forall p, q |
      Added(before, after + extra, p) && p !in mines && Blank(width, height, mines, p) &&
      InBounds(width, height, q) && Adjacent(p, q)
      ensures q in after + extra || q in flags
    {
      assert Added(before, after, p);
    }
    var o :| FillOrder(width, height, mines, before, after, roots, o);
    forall p | Added(before, after + extra, p) && p !in mines
      ensures p in o
    {
      assert Added(before, after, p);
    }
    assert FillOrder(width, height, mines, before, after + extra, roots, o);
  }

  /** Following an uncovering order of a fill reached from `root`, every listed position is
      uncovered by any closed fill that uncovers `root` from the same start and flags. */
  lemma {:induction false} OrderWithin(width: int, height: int, mines: set<Coord>, before: set<Coord>,
                                       a: set<Coord>, b: set<Coord>, flags: set<Coord>, root: Coord,
                                       order: seq<Coord>, j: int)
    requires a <= Positions(width, height) && a !! flags
    requires root in b && before <= b
    requires FillOrder(width, height, mines, before, a, {root}, order)
    requires Closed(width, height, mines, before, b, flags, {})
    requires 0 <= j < |order|
    ensures order[j] in b
    decreases j
  {
    if order[j] != root {
      assert Supported(width, height, mines, order, j);
      var i :| 0 <= i < j && Blank(width, height, mines, order[i]) && Adjacent(order[i], order[j]);
      OrderWithin(width, height, mines, before, a, b, flags, root, order, i);
      assert Added(before, b, order[i]) && InBounds(width, height, order[j]);
    }
  }

  /** A fill reached from `root` uncovers no mine-free position that a closed fill from the
      same start and flags, uncovering `root`, leaves covered. */
  lemma FillWithin(width: int, height: int, mines: set<Coord>, before: set<Coord>, a: set<Coord>,
                   b: set<Coord>, flags: set<Coord>, root: Coord)
    requires a <= Positions(width, height) && a !! flags
    requires root in b && before <= b
    requires Reached(width, height, mines, before, a, {root})
    requires Closed(width, height, mines, before, b, flags, {})
    ensures forall p :: p in a && p !in mines ==> p in b
  {
    var order :| FillOrder(width, height, mines, before, a, {root}, order);
    forall p | p in a && p !in mines
      ensures p in b
    {
      if p !in before {
        assert Added(before, a, p);
        var j :| 0 <= j < |order| && order[j] == p;
        OrderWithin(width, height, mines, before, a, b, flags, root, order, j);
      }
    }
  }

  /** The flood fill's result is determined: two closed fills reached from the same `root`,
      from the same uncovered and flagged positions, uncover the same mine-free positions. */
  lemma FillUnique(width: int, height: int, mines: set<Coord>, before: set<Coord>, a: set<Coord>,
                   b: set<Coord>, flags: set<Coord>, root: Coord)
    requires a <= Positions(width, height) && a !! flags && root in a && before <= a
    requires b <= Positions(width, height) && b !! flags && root in b && before <= b
    requires Reached(width, height, mines, before, a, {root}) && Closed(width, height, mines, before, a, flags, {})
    requires Reached(width, height, mines, before, b, {root}) && Closed(width, height, mines, before, b, flags, {})
    ensures a - mines == b - mines
  {
    FillWithin(width, height, mines, before, a, b, flags, root);
    FillWithin(width, height, mines, before, b, a, flags, root);
  }

  /** On a 5 by 1 board without mines whose middle cell is flagged, a click on the left end
      uncovers exactly the two cells left of the flag. */
  lemma FlaggedLineFill(a: set<Coord>)
    requires a <= Positions(5, 1) && a !! {(2, 0)} && (0, 0) in a
    requires Reached(5, 1, {}, {}, a, {(0, 0)}) && Closed(5, 1, {}, {}, a, {(2, 0)}, {})
    ensures a == {(0, 0), (1, 0)}
  {
    var b := {(0, 0), (1, 0)};
    var order := [(0, 0), (1, 0)];
    assert Blank(5, 1, {}, order[0]) && Adjacent(order[0], order[1]);
    assert Supported(5, 1, {}, order, 1);
    assert FillOrder(5, 1, {}, {}, b, {(0, 0)}, order);
    FillUnique(5, 1, {}, {}, a, b, {(2, 0)}, (0, 0));
    assert a - {} == a && b - {} == b;
  }
}
