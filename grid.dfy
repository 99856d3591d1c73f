/**
 * The grid as a graph: an independent statement of which moves are legal, of
 * walks, of reachability and of shortest walks. The searches are proved
 * against these definitions.
 */
module Grid {
  import opened Node

  function Abs(z: int): nat {
    if z < 0 then -z else z
  }

  predicate InBounds(gridSize: nat, x: int, y: int) {
    0 <= x < gridSize && 0 <= y < gridSize
  }

  /** 4-adjacency: the cells differ by one in exactly one coordinate. */
  predicate Adjacent(a: PathNode, b: PathNode) {
    Abs(a.x - b.x) + Abs(a.y - b.y) == 1
  }

  /** A single legal move from a to b: b is an in-bounds, non-blocked cell of the grid next to a. */
  predicate Step(nodes: seq<PathNode>, gridSize: nat, a: PathNode, b: PathNode) {
    b in nodes && InBounds(gridSize, b.x, b.y) && Adjacent(a, b) && b.value != NodeValue.Blocked
  }

  /** A walk is a non-empty sequence of cells in which every move is legal. */
  predicate IsWalk(nodes: seq<PathNode>, gridSize: nat, w: seq<PathNode>) {
    |w| > 0 && forall i :: 0 <= i < |w| - 1 ==> Step(nodes, gridSize, w[i], w[i + 1])
  }

  predicate WalkBetween(nodes: seq<PathNode>, gridSize: nat, w: seq<PathNode>, s: PathNode, e: PathNode) {
    IsWalk(nodes, gridSize, w) && w[0] == s && w[|w| - 1] == e
  }

  ghost predicate Reachable(nodes: seq<PathNode>, gridSize: nat, s: PathNode, e: PathNode) {
    exists w :: WalkBetween(nodes, gridSize, w, s, e)
  }

  /** Every walk from s to c makes at least d moves. */
  ghost predicate NoShorterWalk(nodes: seq<PathNode>, gridSize: nat, s: PathNode, c: PathNode, d: nat) {
    forall w :: WalkBetween(nodes, gridSize, w, s, c) ==> d < |w|
  }

  /** d is the least number of moves of a walk from s to c. */
  ghost predicate IsDistance(nodes: seq<PathNode>, gridSize: nat, s: PathNode, c: PathNode, d: nat) {
    (exists w :: WalkBetween(nodes, gridSize, w, s, c) && |w| == d + 1)
    && NoShorterWalk(nodes, gridSize, s, c, d)
  }

  /** w is a walk from s to e with no fewer moves than any other. */
  ghost predicate IsShortestWalk(nodes: seq<PathNode>, gridSize: nat, w: seq<PathNode>, s: PathNode, e: PathNode) {
    WalkBetween(nodes, gridSize, w, s, e) && NoShorterWalk(nodes, gridSize, s, e, |w| - 1)
  }

  /** Shortest walks between the same cells have the same length. */
  lemma ShortestWalksAgree(nodes: seq<PathNode>, gridSize: nat, w1: seq<PathNode>, w2: seq<PathNode>, s: PathNode, e: PathNode)
    requires IsShortestWalk(nodes, gridSize, w1, s, e)
    requires IsShortestWalk(nodes, gridSize, w2, s, e)
    ensures |w1| == |w2|
  {
  }

  /** A set of cells that holds s and is closed under legal moves holds every cell reachable from s. */
  lemma {:induction false} ClosedSetContainsWalk(nodes: seq<PathNode>, gridSize: nat, closed: set<PathNode>, w: seq<PathNode>)
    requires IsWalk(nodes, gridSize, w) && w[0] in closed
    requires forall a, b :: a in closed && Step(nodes, gridSize, a, b) ==> b in closed
    ensures w[|w| - 1] in closed
  {
    if |w| > 1 {
      var init := w[..|w| - 1];
      assert IsWalk(nodes, gridSize, init) by {
        forall i | 0 <= i < |init| - 1 ensures Step(nodes, gridSize, init[i], init[i + 1]) {
          assert init[i] == w[i] && init[i + 1] == w[i + 1];
        }
      }
      ClosedSetContainsWalk(nodes, gridSize, closed, init);
      assert Step(nodes, gridSize, w[|w| - 2], w[|w| - 1]);
    }
  }

  /** Hence an exhausted search that never saw e proves e unreachable. */
  lemma ClosedSetExcludesUnreached(nodes: seq<PathNode>, gridSize: nat, closed: set<PathNode>, s: PathNode, e: PathNode)
    requires s in closed && e !in closed
    requires forall a, b :: a in closed && Step(nodes, gridSize, a, b) ==> b in closed
    ensures !Reachable(nodes, gridSize, s, e)
  {
    if Reachable(nodes, gridSize, s, e) {
      var w :| WalkBetween(nodes, gridSize, w, s, e);
      ClosedSetContainsWalk(nodes, gridSize, closed, w);
    }
  }

  /** Dropping the last cell of a walk of two or more cells leaves a walk. */
  lemma WalkPrefix(nodes: seq<PathNode>, gridSize: nat, w: seq<PathNode>, s: PathNode)
    requires |w| > 1 && WalkBetween(nodes, gridSize, w, s, w[|w| - 1])
    ensures WalkBetween(nodes, gridSize, w[..|w| - 1], s, w[|w| - 2])
    ensures Step(nodes, gridSize, w[|w| - 2], w[|w| - 1])
  {
    var init := w[..|w| - 1];
    forall i | 0 <= i < |init| - 1 ensures Step(nodes, gridSize, init[i], init[i + 1]) {
      assert init[i] == w[i] && init[i + 1] == w[i + 1];
    }
  }

  /** Extending a walk by a legal move gives a walk. */
  lemma WalkExtend(nodes: seq<PathNode>, gridSize: nat, w: seq<PathNode>, s: PathNode, c: PathNode)
    requires IsWalk(nodes, gridSize, w) && w[0] == s && Step(nodes, gridSize, w[|w| - 1], c)
    ensures WalkBetween(nodes, gridSize, w + [c], s, c)
  {
    var w' := w + [c];
    forall i | 0 <= i < |w'| - 1 ensures Step(nodes, gridSize, w'[i], w'[i + 1]) {
      if i < |w| - 1 {
        assert w'[i] == w[i] && w'[i + 1] == w[i + 1];
      }
    }
  }

  /** A lower bound that holds for every walk is also a lower bound for a smaller count. */
  lemma NoShorterWalkMonotone(nodes: seq<PathNode>, gridSize: nat, s: PathNode, c: PathNode, d: nat, d': nat)
    requires NoShorterWalk(nodes, gridSize, s, c, d) && d' <= d
    ensures NoShorterWalk(nodes, gridSize, s, c, d')
  {
  }

  /** Every non-empty prefix of a walk is a walk. */
  lemma WalkTake(nodes: seq<PathNode>, gridSize: nat, w: seq<PathNode>, j: nat)
    requires IsWalk(nodes, gridSize, w) && 0 < j <= |w|
    ensures IsWalk(nodes, gridSize, w[..j])
  {
    var pre := w[..j];
    forall i | 0 <= i < |pre| - 1 ensures Step(nodes, gridSize, pre[i], pre[i + 1]) {
      assert pre[i] == w[i] && pre[i + 1] == w[i + 1];
    }
  }

  /** Every non-empty suffix of a walk is a walk. */
  lemma WalkDrop(nodes: seq<PathNode>, gridSize: nat, w: seq<PathNode>, j: nat)
    requires IsWalk(nodes, gridSize, w) && j < |w|
    ensures IsWalk(nodes, gridSize, w[j..])
  {
    var post := w[j..];
    forall i | 0 <= i < |post| - 1 ensures Step(nodes, gridSize, post[i], post[i + 1]) {
      assert post[i] == w[i + j] && post[i + 1] == w[i + j + 1];
    }
  }

  /** A walk that starts inside a region and ends outside it takes a step out of it somewhere. */
  lemma {:induction false} Crossing(w: seq<PathNode>, inside: set<PathNode>) returns (j: nat)
    requires |w| > 0 && w[0] in inside && w[|w| - 1] !in inside
    ensures 0 < j < |w| && w[j - 1] in inside && w[j] !in inside
  {
    if w[|w| - 2] in inside {
      j := |w| - 1;
    } else {
      j := Crossing(w[..|w| - 1], inside);
    }
  }
}
