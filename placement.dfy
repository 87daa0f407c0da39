/** Mine placement by rejection sampling, driven by a given sequence of random draws. */
module Placement {
  import opened Geometry

  function Elems(s: seq<Coord>): set<Coord> {
    set q | q in s
  }

  /** The positions of a prefix one longer. */
  lemma ElemsGrow(s: seq<Coord>, i: nat)
    requires i < |s|
    ensures Elems(s[..i + 1]) == Elems(s[..i]) + {s[i]}
  {
    assert s[..i + 1] == s[..i] + [s[i]];
  }

  /** The mine set the placement loop ends with when it starts from `placed` and the random
      draws come out as `picks`: draws are taken in order while fewer than `total` mines are
      placed, and a draw that is already a mine adds nothing. */
  function PlaceMines(picks: seq<Coord>, total: nat, placed: set<Coord>): (r: set<Coord>)
    ensures placed <= r <= placed + Elems(picks)
    decreases |picks|
  {
    if |placed| >= total || picks == [] then placed
    else
      assert Elems(picks) == {picks[0]} + Elems(picks[1..]);
      PlaceMines(picks[1..], total, placed + {picks[0]})
  }

  /** The placement loop with the draws `rest` still to come and the mines `placed` so far,
      on its way to the mine set `final`: no more than `total` mines are placed, the draws left
      can still complete them, and they lead to `final`. */
  ghost predicate Pending(rest: seq<Coord>, total: nat, placed: set<Coord>, final: set<Coord>) {
    |placed| <= total && |placed + Elems(rest)| >= total && PlaceMines(rest, total, placed) == final
  }

  /** One turn of the placement loop, taken while fewer than `total` mines are placed: a draw
      is left, and adding it leaves the loop on its way to the same mine set. */
  lemma PlaceMinesStep(rest: seq<Coord>, total: nat, placed: set<Coord>, final: set<Coord>)
    requires Pending(rest, total, placed, final) && |placed| < total
    ensures rest != []
    ensures Pending(rest[1..], total, placed + {rest[0]}, final)
  {
    if rest != [] {
      assert rest == [rest[0]] + rest[1..];
      assert placed + Elems(rest) == (placed + {rest[0]}) + Elems(rest[1..]);
    }
  }

  /** Placement that starts with at most `total` mines never ends with more. */
  lemma {:induction false} PlaceMinesAtMost(picks: seq<Coord>, total: nat, placed: set<Coord>)
    requires |placed| <= total
    ensures |PlaceMines(picks, total, placed)| <= total
  {
    if |placed| < total && picks != [] {
      PlaceMinesAtMost(picks[1..], total, placed + {picks[0]});
    }
  }

  /** When the draws hold enough distinct positions, placement ends with exactly `total` mines. */
  lemma {:induction false} PlaceMinesCount(picks: seq<Coord>, total: nat, placed: set<Coord>)
    requires |placed| <= total
    requires |placed + Elems(picks)| >= total
    ensures |PlaceMines(picks, total, placed)| == total
  {
    if |placed| < total && picks != [] {
      assert placed + Elems(picks) == (placed + {picks[0]}) + Elems(picks[1..]);
      PlaceMinesCount(picks[1..], total, placed + {picks[0]});
    } else if picks == [] {
      assert Elems(picks) == {};
      assert placed + Elems(picks) == placed;
    }
  }
}
