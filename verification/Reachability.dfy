/** What a worklist over a dependency graph finds: the names reachable along
    edges that avoid the ignored names. */
module Reachability {
  type Graph = imap<string, set<string>>

  ghost function At(g: Graph, k: string): set<string> {
    if k in g then g[k] else {}
  }

  /** Each name is a dependency of the one before it (the first one of from), and none is ignored. */
  ghost predicate IsWalk(g: Graph, ignored: set<string>, from: string, walk: seq<string>) {
    forall i | 0 <= i < |walk| :: Linked(g, ignored, from, walk, i)
  }

  ghost predicate Linked(g: Graph, ignored: set<string>, from: string, walk: seq<string>, i: nat)
    requires i < |walk|
  {
    walk[i] in At(g, Before(from, walk, i)) && walk[i] !in ignored
  }

  function Before(from: string, walk: seq<string>, i: nat): string
    requires i < |walk|
  {
    if i == 0 then from else walk[i - 1]
  }

  ghost predicate Reaches(g: Graph, ignored: set<string>, from: string, to: string) {
    exists walk :: walk != [] && walk[|walk| - 1] == to && IsWalk(g, ignored, from, walk)
  }

  lemma ReachFirst(g: Graph, ignored: set<string>, from: string)
    ensures forall x | x in At(g, from) - ignored :: Reaches(g, ignored, from, x)
  {
    forall x | x in At(g, from) - ignored ensures Reaches(g, ignored, from, x) {
      var walk := [x];
      assert IsWalk(g, ignored, from, walk) && walk[|walk| - 1] == x;
    }
  }

  lemma ReachMore(g: Graph, ignored: set<string>, from: string, y: string)
    requires Reaches(g, ignored, from, y)
    ensures forall x | x in At(g, y) - ignored :: Reaches(g, ignored, from, x)
  {
    var walk :| walk != [] && walk[|walk| - 1] == y && IsWalk(g, ignored, from, walk);
    forall x | x in At(g, y) - ignored ensures Reaches(g, ignored, from, x) {
      var longer := walk + [x];
      forall i | 0 <= i < |longer| ensures Linked(g, ignored, from, longer, i) {
        assert i < |walk| ==> Linked(g, ignored, from, walk, i);
      }
      assert IsWalk(g, ignored, from, longer) && longer[|longer| - 1] == x;
    }
  }

  ghost predicate Closed(g: Graph, ignored: set<string>, from: string, names: set<string>) {
    At(g, from) - ignored <= names && forall y | y in names :: At(g, y) - ignored <= names
  }

  lemma {:induction false} WalkStays(g: Graph, ignored: set<string>, from: string, names: set<string>,
                                     walk: seq<string>)
    requires Closed(g, ignored, from, names) && IsWalk(g, ignored, from, walk) && walk != []
    ensures walk[|walk| - 1] in names
  {
    var n := |walk| - 1;
    assert Linked(g, ignored, from, walk, n);
    if n > 0 {
      forall i | 0 <= i < n ensures Linked(g, ignored, from, walk[..n], i) {
        assert Linked(g, ignored, from, walk, i);
      }
      WalkStays(g, ignored, from, names, walk[..n]);
    }
  }

  lemma ClosedHoldsReach(g: Graph, ignored: set<string>, from: string, names: set<string>)
    requires Closed(g, ignored, from, names)
    ensures forall x | Reaches(g, ignored, from, x) :: x in names
  {
    forall x | Reaches(g, ignored, from, x) ensures x in names {
      var walk :| walk != [] && walk[|walk| - 1] == x && IsWalk(g, ignored, from, walk);
      WalkStays(g, ignored, from, names, walk);
    }
  }

  /** A worklist round: seen is done but for what next holds. */
  ghost predicate Frontier(g: Graph, ignored: set<string>, from: string, seen: set<string>, next: set<string>) {
    && (forall x | x in seen || x in next - ignored :: Reaches(g, ignored, from, x))
    && ClosedBut(g, ignored, from, seen, next)
  }

  ghost predicate ClosedBut(g: Graph, ignored: set<string>, from: string, seen: set<string>, next: set<string>) {
    At(g, from) - ignored <= seen + next && forall y | y in seen :: At(g, y) - ignored <= seen + next
  }

  ghost function DepsOfAll(g: Graph, names: set<string>): set<string> {
    set x, y | x in names && y in At(g, x) :: y
  }

  lemma DepsOfOneMore(g: Graph, names: set<string>, y: string)
    ensures DepsOfAll(g, names + {y}) == DepsOfAll(g, names) + At(g, y)
  {
  }

  lemma FrontierMoves(g: Graph, ignored: set<string>, from: string, seen: set<string>, next: set<string>,
                      found: set<string>)
    requires Frontier(g, ignored, from, seen, next)
    requires found == DepsOfAll(g, next - ignored)
    ensures Frontier(g, ignored, from, seen + (next - ignored), found - (seen + (next - ignored)))
  {
    var all := seen + (next - ignored);
    forall x | x in found - ignored ensures Reaches(g, ignored, from, x) {
      var y :| y in next - ignored && x in At(g, y);
      ReachMore(g, ignored, from, y);
    }
    forall y, x | y in all && x in At(g, y) - ignored ensures x in all + (found - all) {
      if y !in seen {
        assert x in DepsOfAll(g, next - ignored) - ignored;
      }
    }
  }

  lemma FrontierEmpty(g: Graph, ignored: set<string>, from: string, seen: set<string>)
    requires Frontier(g, ignored, from, seen, {})
    ensures forall x :: x in seen <==> Reaches(g, ignored, from, x)
  {
    assert Closed(g, ignored, from, seen);
    ClosedHoldsReach(g, ignored, from, seen);
  }
}
