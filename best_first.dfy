/**
 * What dijkstra and astar share. Both keep a tentative distance per cell
 * (JavaScript's `Infinity` until the cell is reached), a priority queue in
 * which a cell may be queued several times, a visited set of finalized cells
 * and a parent map. A dequeued cell that is already visited is skipped (lazy
 * deletion); otherwise it is finalized and its unvisited neighbours are
 * relaxed: one more move than the current cell, if that improves on their
 * tentative distance. The two searches differ only in the priority of an
 * entry: the distance itself for dijkstra, the distance plus the Manhattan
 * estimate to END for astar. Both are modelled with one loop state,
 * parameterised by that estimate.
 *
 * The ghost map `depth` holds the finite tentative distances; the searches'
 * own maps are tied to it by `Tracks`. The big loop-state predicate is
 * handed around in the form `var ok := SearchState(...); ok`, which the
 * verifier keeps whole instead of splitting into its conjuncts.
 */
module BestFirst {
  import opened Seqs
  import opened Node
  import opened Grid
  import opened PathfindingUtils
  import opened SearchCommon

  /** A tentative distance: a number of moves, or `Infinity`. */
  datatype Dist = Fin(n: nat) | Inf

  /** `d + k`, where `Infinity + k` is `Infinity`. */
  function Add(d: Dist, k: nat): Dist {
    match d
    case Fin(n) => Fin(n + k)
    case Inf => Inf
  }

  /** `a < b`, where every number is below `Infinity` and `Infinity < Infinity` is false. */
  predicate Less(a: Dist, b: Dist) {
    match a
    case Inf => false
    case Fin(m) => b.Inf? || m < b.n
  }

  /** dist is finite exactly on the cells of depth, and agrees with it there. */
  ghost predicate Tracks(dist: map<PathNode, Dist>, depth: map<PathNode, nat>) {
    (forall c :: c in depth ==> c in dist)
    && forall c :: c in dist ==> dist[c] == if c in depth then Fin(depth[c]) else Inf
  }

  // ---------------------------------------------------------------------------
  // The estimate and the priority
  // ---------------------------------------------------------------------------

  /** No estimate (dijkstra), or the Manhattan distance to a goal (astar). */
  datatype Heuristic = NoEstimate | ManhattanTo(goal: PathNode)

  function Estimate(h: Heuristic, c: PathNode): nat {
    match h
    case NoEstimate => 0
    case ManhattanTo(goal) => ManhattanDistance(c, goal)
  }

  /** The priority of a cell reached in d moves. */
  function Priority(h: Heuristic, d: nat, c: PathNode): nat {
    d + Estimate(h, c)
  }

  /** Both estimates are consistent: one move lowers them by at most one. */
  lemma EstimateConsistent(h: Heuristic, a: PathNode, b: PathNode)
    requires Adjacent(a, b)
    ensures Estimate(h, a) <= Estimate(h, b) + 1
  {
    if h.ManhattanTo? {
      ManhattanConsistent(a, b, h.goal);
    }
  }

  /** Hence along a whole walk the estimate drops by at most its number of moves. */
  lemma EstimateAlongWalk(nodes: seq<PathNode>, gridSize: nat, h: Heuristic, w: seq<PathNode>, a: PathNode, b: PathNode)
    requires WalkBetween(nodes, gridSize, w, a, b)
    ensures Estimate(h, a) <= Estimate(h, b) + (|w| - 1)
  {
    if h.ManhattanTo? {
      ManhattanAdmissible(nodes, gridSize, w, a, b);
      ManhattanTriangle(a, b, h.goal);
    }
  }

  // ---------------------------------------------------------------------------
  // The loop state
  // ---------------------------------------------------------------------------

  /** The depth of every finalized cell is its distance from s: no walk is shorter. */
  ghost predicate Settled(nodes: seq<PathNode>, gridSize: nat, s: PathNode,
                          closed: set<PathNode>, depth: map<PathNode, nat>) {
    forall c :: c in closed ==> c in depth && NoShorterWalk(nodes, gridSize, s, c, depth[c])
  }

  /** Every legal move out of a finalized cell has been relaxed: its target is at most one move deeper. */
  ghost predicate Relaxed(nodes: seq<PathNode>, gridSize: nat, closed: set<PathNode>, depth: map<PathNode, nat>) {
    forall a, b :: a in closed && Step(nodes, gridSize, a, b) ==> a in depth && b in depth && depth[b] <= depth[a] + 1
  }

  /** Every reached cell not yet finalized is queued at its current priority. */
  ghost predicate Queued(h: Heuristic, items: seq<Entry<PathNode>>, closed: set<PathNode>, depth: map<PathNode, nat>) {
    forall c :: c in depth && c !in closed ==> Entry(c, Priority(h, depth[c], c)) in items
  }

  /**
   * Every entry is for a reached cell, carries no less than that cell's
   * current priority (older entries may carry more) and no less than last.
   */
  ghost predicate EntriesSound(h: Heuristic, items: seq<Entry<PathNode>>, depth: map<PathNode, nat>, last: nat) {
    forall i :: 0 <= i < |items| ==>
      items[i].node in depth && Priority(h, depth[items[i].node], items[i].node) <= items[i].priority
      && last <= items[i].priority
  }

  /** In finalization order, priorities never decrease, and none exceeds last. */
  ghost predicate ClosedInOrder(h: Heuristic, order: seq<PathNode>, depth: map<PathNode, nat>, last: nat) {
    (forall i :: 0 <= i < |order| ==> order[i] in depth && Priority(h, depth[order[i]], order[i]) <= last)
    && (forall i, j :: 0 <= i < j < |order| ==>
          Priority(h, depth[order[i]], order[i]) <= Priority(h, depth[order[j]], order[j]))
  }

  /**
   * The state at the head of the main loop: items are the queue's entries,
   * closed the visited (finalized) cells, order the same cells in
   * finalization order and last the priority of the latest one.
   */
  ghost predicate SearchState(nodes: seq<PathNode>, gridSize: nat, s: PathNode, e: PathNode, h: Heuristic,
                              items: seq<Entry<PathNode>>, closed: set<PathNode>, depth: map<PathNode, nat>,
                              parent: map<PathNode, PathNode>, steps: seq<seq<PathNode>>,
                              order: seq<PathNode>, last: nat) {
    (forall c :: c in depth ==> c in nodes)
    && ParentTree(nodes, gridSize, s, parent, depth)
    && (forall v {:trigger parent[v]} :: v in parent ==> parent[v] in closed)
    && e !in closed
    && (s !in closed ==> closed == {} && depth.Keys == {s})
    && Settled(nodes, gridSize, s, closed, depth)
    && Relaxed(nodes, gridSize, closed, depth)
    && Queued(h, items, closed, depth)
    && EntriesSound(h, items, depth, last)
    && Distinct(order) && Elems(order) == closed
    && ClosedInOrder(h, order, depth, last)
    && StepsWellFormed(nodes, steps) && Singletons(steps)
    && (forall k, c :: 0 <= k < |steps| && c in steps[k] ==> c in closed)
    && Concat(steps) == Visible(order)
  }

  /** Before the loop: START queued at distance 0, nothing finalized. */
  lemma StartSearch(nodes: seq<PathNode>, gridSize: nat, s: PathNode, e: PathNode, h: Heuristic,
                    items: seq<Entry<PathNode>>)
    requires s in nodes && s != e
    requires items == [Entry(s, Priority(h, 0, s))]
    ensures var ok := SearchState(nodes, gridSize, s, e, h, items, {}, map[s := 0], map[], [], [], 0); ok
  {
    assert Queued(h, items, {}, map[s := 0]);
    assert SearchState(nodes, gridSize, s, e, h, items, {}, map[s := 0], map[], [], [], 0);
  }

  /** `if (visited.has(current.id)) continue;`: dropping a stale entry keeps the state. */
  lemma SkipStale(nodes: seq<PathNode>, gridSize: nat, s: PathNode, e: PathNode, h: Heuristic,
                  items: seq<Entry<PathNode>>, closed: set<PathNode>, depth: map<PathNode, nat>,
                  parent: map<PathNode, PathNode>, steps: seq<seq<PathNode>>, order: seq<PathNode>, last: nat,
                  rest: seq<Entry<PathNode>>)
    requires var ok := SearchState(nodes, gridSize, s, e, h, items, closed, depth, parent, steps, order, last); ok
    requires items != [] && items[0].node in closed && rest == items[1..]
    ensures var ok := SearchState(nodes, gridSize, s, e, h, rest, closed, depth, parent, steps, order, last); ok
  {
    assert items == [items[0]] + rest;
    assert Queued(h, rest, closed, depth) by {
      forall c | c in depth && c !in closed ensures Entry(c, Priority(h, depth[c], c)) in rest {
        assert Entry(c, Priority(h, depth[c], c)) in items;
      }
    }
    assert EntriesSound(h, rest, depth, last) by {
      forall i | 0 <= i < |rest| ensures rest[i] == items[i + 1] {
      }
    }
    assert SearchState(nodes, gridSize, s, e, h, rest, closed, depth, parent, steps, order, last);
  }

  /**
   * The front entry of the queue, for a cell not yet finalized, carries that
   * cell's current priority, and the cell's depth is already its distance:
   * any walk to it leaves the finalized cells at some queued cell whose
   * priority is no smaller, and the estimate is consistent.
   */
  lemma Settle(nodes: seq<PathNode>, gridSize: nat, s: PathNode, e: PathNode, h: Heuristic,
               items: seq<Entry<PathNode>>, closed: set<PathNode>, depth: map<PathNode, nat>,
               parent: map<PathNode, PathNode>, steps: seq<seq<PathNode>>, order: seq<PathNode>, last: nat)
    requires var ok := SearchState(nodes, gridSize, s, e, h, items, closed, depth, parent, steps, order, last); ok
    requires SortedByPriority(items) && items != [] && items[0].node !in closed
    ensures items[0].node in depth
    ensures items[0].priority == Priority(h, depth[items[0].node], items[0].node)
    ensures NoShorterWalk(nodes, gridSize, s, items[0].node, depth[items[0].node])
  {
    var c := items[0].node;
    var p := items[0].priority;
    assert EntriesSound(h, items, depth, last);
    assert c in depth && Priority(h, depth[c], c) <= p;
    assert Queued(h, items, closed, depth);
    assert Entry(c, Priority(h, depth[c], c)) in items;
    assert ParentTree(nodes, gridSize, s, parent, depth);
    forall w | WalkBetween(nodes, gridSize, w, s, c) ensures depth[c] < |w| {
      if c != s {
        assert s in closed;
        CrossingBound(nodes, gridSize, s, h, items, closed, depth, w);
      }
    }
  }

  /**
   * A walk from s to the front cell c leaves the finalized cells at some
   * cell b, reached and queued, with depth[b] at most the moves of the walk
   * up to b; c's priority is at most b's, and the estimate drops by at most
   * the remaining moves, so c's depth is below the walk's length.
   */
  lemma CrossingBound(nodes: seq<PathNode>, gridSize: nat, s: PathNode, h: Heuristic,
                      items: seq<Entry<PathNode>>, closed: set<PathNode>, depth: map<PathNode, nat>,
                      w: seq<PathNode>)
    requires Settled(nodes, gridSize, s, closed, depth) && Relaxed(nodes, gridSize, closed, depth)
    requires Queued(h, items, closed, depth) && SortedByPriority(items) && items != []
    requires items[0].node in depth && items[0].node !in closed
    requires Priority(h, depth[items[0].node], items[0].node) <= items[0].priority
    requires s in closed && WalkBetween(nodes, gridSize, w, s, items[0].node)
    ensures depth[items[0].node] < |w|
  {
    var c, p := items[0].node, items[0].priority;
    var j := Crossing(w, closed);
    var a, b := w[j - 1], w[j];
    assert Step(nodes, gridSize, a, b);
    assert b in depth && depth[b] <= depth[a] + 1;
    WalkTake(nodes, gridSize, w, j);
    assert WalkBetween(nodes, gridSize, w[..j], s, a);
    assert NoShorterWalk(nodes, gridSize, s, a, depth[a]);
    assert depth[a] < j;
    assert Entry(b, Priority(h, depth[b], b)) in items;
    assert p <= Priority(h, depth[b], b);
    WalkDrop(nodes, gridSize, w, j);
    EstimateAlongWalk(nodes, gridSize, h, w[j..], b, c);
  }

  // ---------------------------------------------------------------------------
  // Relaxing the neighbours of the finalized cell
  // ---------------------------------------------------------------------------

  /** `!visited.has(c) && d + 1 < dist(c)`: reaching c in lvl + 1 moves would be an improvement. */
  predicate Improvable(c: PathNode, visited: set<PathNode>, depth: map<PathNode, nat>, lvl: nat) {
    c !in visited && (c !in depth || lvl + 1 < depth[c])
  }

  /** c is one of the neighbours and improvable. */
  predicate Improves(c: PathNode, nbrs: seq<PathNode>, visited: set<PathNode>, depth: map<PathNode, nat>, lvl: nat) {
    c in nbrs && Improvable(c, visited, depth, lvl)
  }

  /** Exactly the improvable neighbours get depth lvl + 1; other depths stay. */
  ghost predicate DepthsRelaxed(nbrs: seq<PathNode>, visited: set<PathNode>, lvl: nat,
                                depth: map<PathNode, nat>, depth': map<PathNode, nat>) {
    (forall c :: c in depth' <==> c in depth || Improves(c, nbrs, visited, depth, lvl))
    && (forall c :: c in depth' ==> depth'[c] == if Improves(c, nbrs, visited, depth, lvl) then lvl + 1 else depth[c])
  }

  /** Exactly the improvable neighbours get current as parent; other parents stay. */
  ghost predicate ParentsRelaxed(nbrs: seq<PathNode>, visited: set<PathNode>, current: PathNode, lvl: nat,
                                 depth: map<PathNode, nat>, parent: map<PathNode, PathNode>,
                                 parent': map<PathNode, PathNode>) {
    (forall c :: c in parent' <==> c in parent || Improves(c, nbrs, visited, depth, lvl))
    && (forall c :: c in parent' ==> parent'[c] == if Improves(c, nbrs, visited, depth, lvl) then current else parent[c])
  }

  /** The queue gains one entry per improvable neighbour, at its new priority, and loses none. */
  ghost predicate EntriesRelaxed(h: Heuristic, nbrs: seq<PathNode>, visited: set<PathNode>, lvl: nat,
                                 depth: map<PathNode, nat>, items: seq<Entry<PathNode>>, items': seq<Entry<PathNode>>) {
    forall x :: x in items' <==> x in items || (Improves(x.node, nbrs, visited, depth, lvl)
                                                 && x.priority == Priority(h, lvl + 1, x.node))
  }

  /**
   * The effect of relaxing the neighbours nbrs of current, at depth lvl:
   * exactly the improvable ones get depth lvl + 1, current as parent and a
   * queue entry at their new priority; every other depth, parent and entry
   * stays as it was.
   */
  ghost predicate RelaxedBy(h: Heuristic, nbrs: seq<PathNode>, visited: set<PathNode>, current: PathNode, lvl: nat,
                            depth: map<PathNode, nat>, parent: map<PathNode, PathNode>, items: seq<Entry<PathNode>>,
                            depth': map<PathNode, nat>, parent': map<PathNode, PathNode>, items': seq<Entry<PathNode>>) {
    DepthsRelaxed(nbrs, visited, lvl, depth, depth')
    && ParentsRelaxed(nbrs, visited, current, lvl, depth, parent, parent')
    && EntriesRelaxed(h, nbrs, visited, lvl, depth, items, items')
  }

  /** Nothing has been relaxed yet. */
  lemma RelaxNone(h: Heuristic, nbrs: seq<PathNode>, visited: set<PathNode>, current: PathNode, lvl: nat,
                  depth: map<PathNode, nat>, parent: map<PathNode, PathNode>, items: seq<Entry<PathNode>>)
    ensures var ok := RelaxedBy(h, nbrs[..0], visited, current, lvl, depth, parent, items, depth, parent, items); ok
  {
    assert RelaxedBy(h, nbrs[..0], visited, current, lvl, depth, parent, items, depth, parent, items);
  }

  /** The neighbour nbrs[i] has not been met before, so its depth so far is the original one. */
  lemma Unmet(nbrs: seq<PathNode>, i: nat, visited: set<PathNode>, lvl: nat,
              depth0: map<PathNode, nat>, depth: map<PathNode, nat>)
    requires Distinct(nbrs) && i < |nbrs|
    requires DepthsRelaxed(nbrs[..i], visited, lvl, depth0, depth)
    ensures Improvable(nbrs[i], visited, depth, lvl) == Improvable(nbrs[i], visited, depth0, lvl)
    ensures forall c :: Improves(c, nbrs[..i + 1], visited, depth0, lvl) <==>
      Improves(c, nbrs[..i], visited, depth0, lvl) || (c == nbrs[i] && Improvable(nbrs[i], visited, depth0, lvl))
  {
    var nb := nbrs[i];
    assert nbrs[..i + 1] == nbrs[..i] + [nb];
    assert nb !in nbrs[..i] by {
      forall k | 0 <= k < i ensures nbrs[..i][k] != nb {
        assert nbrs[..i][k] == nbrs[k];
      }
    }
  }

  /** One more neighbour, improvable: it gets depth lvl + 1, parent current and a new entry. */
  lemma RelaxImprove(h: Heuristic, nbrs: seq<PathNode>, i: nat, visited: set<PathNode>, current: PathNode, lvl: nat,
                     depth0: map<PathNode, nat>, parent0: map<PathNode, PathNode>, items0: seq<Entry<PathNode>>,
                     depth: map<PathNode, nat>, parent: map<PathNode, PathNode>, items: seq<Entry<PathNode>>,
                     p: nat)
    requires Distinct(nbrs) && i < |nbrs|
    requires var ok := RelaxedBy(h, nbrs[..i], visited, current, lvl, depth0, parent0, items0, depth, parent, items); ok
    requires Improvable(nbrs[i], visited, depth, lvl) && p == Priority(h, lvl + 1, nbrs[i])
    ensures var ok := RelaxedBy(h, nbrs[..i + 1], visited, current, lvl, depth0, parent0, items0,
                                depth[nbrs[i] := lvl + 1], parent[nbrs[i] := current],
                                Insert(items, Entry(nbrs[i], p))); ok
  {
    var nb := nbrs[i];
    assert RelaxedBy(h, nbrs[..i], visited, current, lvl, depth0, parent0, items0, depth, parent, items);
    Unmet(nbrs, i, visited, lvl, depth0, depth);
    ImproveDepths(nbrs[..i], nbrs[..i + 1], nb, visited, lvl, depth0, depth);
    ImproveParents(nbrs[..i], nbrs[..i + 1], nb, visited, current, lvl, depth0, parent0, parent);
    ImproveEntries(h, nbrs[..i], nbrs[..i + 1], nb, visited, lvl, depth0, items0, items);
    assert RelaxedBy(h, nbrs[..i + 1], visited, current, lvl, depth0, parent0, items0,
                     depth[nb := lvl + 1], parent[nb := current], Insert(items, Entry(nb, p)));
  }

  lemma ImproveDepths(pre: seq<PathNode>, pre': seq<PathNode>, nb: PathNode, visited: set<PathNode>, lvl: nat,
                      depth0: map<PathNode, nat>, depth: map<PathNode, nat>)
    requires DepthsRelaxed(pre, visited, lvl, depth0, depth) && Improvable(nb, visited, depth0, lvl)
    requires forall c :: Improves(c, pre', visited, depth0, lvl) <==> Improves(c, pre, visited, depth0, lvl) || c == nb
    ensures DepthsRelaxed(pre', visited, lvl, depth0, depth[nb := lvl + 1])
  {
  }

  lemma ImproveParents(pre: seq<PathNode>, pre': seq<PathNode>, nb: PathNode, visited: set<PathNode>,
                       current: PathNode, lvl: nat, depth0: map<PathNode, nat>,
                       parent0: map<PathNode, PathNode>, parent: map<PathNode, PathNode>)
    requires ParentsRelaxed(pre, visited, current, lvl, depth0, parent0, parent) && Improvable(nb, visited, depth0, lvl)
    requires forall c :: Improves(c, pre', visited, depth0, lvl) <==> Improves(c, pre, visited, depth0, lvl) || c == nb
    ensures ParentsRelaxed(pre', visited, current, lvl, depth0, parent0, parent[nb := current])
  {
  }

  lemma ImproveEntries(h: Heuristic, pre: seq<PathNode>, pre': seq<PathNode>, nb: PathNode, visited: set<PathNode>,
                       lvl: nat, depth0: map<PathNode, nat>, items0: seq<Entry<PathNode>>, items: seq<Entry<PathNode>>)
    requires EntriesRelaxed(h, pre, visited, lvl, depth0, items0, items) && Improvable(nb, visited, depth0, lvl)
    requires forall c :: Improves(c, pre', visited, depth0, lvl) <==> Improves(c, pre, visited, depth0, lvl) || c == nb
    ensures EntriesRelaxed(h, pre', visited, lvl, depth0, items0, Insert(items, Entry(nb, Priority(h, lvl + 1, nb))))
  {
    InsertMembers(items, Entry(nb, Priority(h, lvl + 1, nb)));
  }

  /** One more neighbour, not improvable: nothing changes. */
  lemma RelaxKeep(h: Heuristic, nbrs: seq<PathNode>, i: nat, visited: set<PathNode>, current: PathNode, lvl: nat,
                  depth0: map<PathNode, nat>, parent0: map<PathNode, PathNode>, items0: seq<Entry<PathNode>>,
                  depth: map<PathNode, nat>, parent: map<PathNode, PathNode>, items: seq<Entry<PathNode>>)
    requires Distinct(nbrs) && i < |nbrs|
    requires var ok := RelaxedBy(h, nbrs[..i], visited, current, lvl, depth0, parent0, items0, depth, parent, items); ok
    requires !Improvable(nbrs[i], visited, depth, lvl)
    ensures var ok := RelaxedBy(h, nbrs[..i + 1], visited, current, lvl, depth0, parent0, items0, depth, parent, items); ok
  {
    assert RelaxedBy(h, nbrs[..i], visited, current, lvl, depth0, parent0, items0, depth, parent, items);
    Unmet(nbrs, i, visited, lvl, depth0, depth);
    KeepSame(h, nbrs[..i], nbrs[..i + 1], visited, current, lvl, depth0, parent0, items0, depth, parent, items);
  }

  lemma KeepSame(h: Heuristic, pre: seq<PathNode>, pre': seq<PathNode>, visited: set<PathNode>, current: PathNode,
                 lvl: nat, depth0: map<PathNode, nat>, parent0: map<PathNode, PathNode>, items0: seq<Entry<PathNode>>,
                 depth: map<PathNode, nat>, parent: map<PathNode, PathNode>, items: seq<Entry<PathNode>>)
    requires DepthsRelaxed(pre, visited, lvl, depth0, depth)
    requires ParentsRelaxed(pre, visited, current, lvl, depth0, parent0, parent)
    requires EntriesRelaxed(h, pre, visited, lvl, depth0, items0, items)
    requires forall c :: Improves(c, pre', visited, depth0, lvl) <==> Improves(c, pre, visited, depth0, lvl)
    ensures var ok := RelaxedBy(h, pre', visited, current, lvl, depth0, parent0, items0, depth, parent, items); ok
  {
    assert RelaxedBy(h, pre', visited, current, lvl, depth0, parent0, items0, depth, parent, items);
  }

  /**
   * `dist(current) + 1 < dist(c)` on a distance map tracking depth: the sum
   * is lvl + 1, and the test holds exactly when c is unreached or deeper.
   */
  lemma TracksLess(dist: map<PathNode, Dist>, depth: map<PathNode, nat>, current: PathNode, c: PathNode, lvl: nat)
    requires Tracks(dist, depth) && current in depth && depth[current] == lvl && c in dist
    ensures Add(dist[current], 1) == Fin(lvl + 1)
    ensures Less(Fin(lvl + 1), dist[c]) <==> c !in depth || lvl + 1 < depth[c]
  {
  }

  /** Setting a finite distance keeps the maps in step. */
  lemma TracksUpdate(dist: map<PathNode, Dist>, depth: map<PathNode, nat>, c: PathNode, d: nat)
    requires Tracks(dist, depth) && c in dist
    ensures Tracks(dist[c := Fin(d)], depth[c := d]) && dist[c := Fin(d)].Keys == dist.Keys
  {
  }

  // ---------------------------------------------------------------------------
  // Finalizing a cell
  // ---------------------------------------------------------------------------

  /** What relaxing does to the depths of cells already reached. */
  lemma RelaxedDepths(h: Heuristic, nbrs: seq<PathNode>, visited: set<PathNode>, current: PathNode, lvl: nat,
                      depth: map<PathNode, nat>, parent: map<PathNode, PathNode>, items: seq<Entry<PathNode>>,
                      depth': map<PathNode, nat>, parent': map<PathNode, PathNode>, items': seq<Entry<PathNode>>)
    requires RelaxedBy(h, nbrs, visited, current, lvl, depth, parent, items, depth', parent', items')
    ensures forall c :: c in depth ==> c in depth' && depth'[c] <= depth[c]
    ensures forall c :: c in visited && c in depth ==> depth'[c] == depth[c]
    ensures forall c :: c in visited ==> (c in depth' <==> c in depth)
  {
  }

  /** The parent tree grows by the relaxed cells and stays a tree rooted at s. */
  lemma AdvanceTree(nodes: seq<PathNode>, gridSize: nat, s: PathNode, h: Heuristic, nbrs: seq<PathNode>,
                    closed: set<PathNode>, closed': set<PathNode>, current: PathNode, lvl: nat,
                    depth: map<PathNode, nat>, parent: map<PathNode, PathNode>, items: seq<Entry<PathNode>>,
                    depth': map<PathNode, nat>, parent': map<PathNode, PathNode>, items': seq<Entry<PathNode>>)
    requires ParentTree(nodes, gridSize, s, parent, depth)
    requires forall v {:trigger parent[v]} :: v in parent ==> parent[v] in closed
    requires forall c :: c in depth ==> c in nodes
    requires current in depth && depth[current] == lvl && closed' == closed + {current}
    requires forall n :: n in nbrs ==> Step(nodes, gridSize, current, n)
    requires RelaxedBy(h, nbrs, closed', current, lvl, depth, parent, items, depth', parent', items')
    ensures ParentTree(nodes, gridSize, s, parent', depth')
    ensures forall v {:trigger parent'[v]} :: v in parent' ==> parent'[v] in closed'
    ensures forall c :: c in depth' ==> c in nodes
  {
    RelaxedDepths(h, nbrs, closed', current, lvl, depth, parent, items, depth', parent', items');
    forall v | v in parent'
      ensures v in depth' && parent'[v] in depth' && depth'[v] == depth'[parent'[v]] + 1
      ensures Step(nodes, gridSize, parent'[v], v) && parent'[v] in closed'
    {
      if !Improves(v, nbrs, closed', depth, lvl) {
        assert parent'[v] == parent[v] && parent[v] in closed;
      }
    }
  }

  /** The finalized cell joins the settled ones; the others keep their depths. */
  lemma AdvanceSettled(nodes: seq<PathNode>, gridSize: nat, s: PathNode, h: Heuristic, nbrs: seq<PathNode>,
                       closed: set<PathNode>, closed': set<PathNode>, current: PathNode, lvl: nat,
                       depth: map<PathNode, nat>, parent: map<PathNode, PathNode>, items: seq<Entry<PathNode>>,
                       depth': map<PathNode, nat>, parent': map<PathNode, PathNode>, items': seq<Entry<PathNode>>)
    requires Settled(nodes, gridSize, s, closed, depth)
    requires current in depth && depth[current] == lvl && closed' == closed + {current}
    requires NoShorterWalk(nodes, gridSize, s, current, lvl)
    requires RelaxedBy(h, nbrs, closed', current, lvl, depth, parent, items, depth', parent', items')
    ensures Settled(nodes, gridSize, s, closed', depth')
  {
    RelaxedDepths(h, nbrs, closed', current, lvl, depth, parent, items, depth', parent', items');
  }

  /** After relaxing, every legal move out of the finalized cell leads at most one move deeper. */
  lemma MovesOfCurrent(nodes: seq<PathNode>, gridSize: nat, s: PathNode, h: Heuristic, nbrs: seq<PathNode>,
                       closed: set<PathNode>, closed': set<PathNode>, current: PathNode, lvl: nat,
                       depth: map<PathNode, nat>, parent: map<PathNode, PathNode>, items: seq<Entry<PathNode>>,
                       depth': map<PathNode, nat>, parent': map<PathNode, PathNode>, items': seq<Entry<PathNode>>)
    requires DistinctIds(nodes)
    requires ParentTree(nodes, gridSize, s, parent, depth)
    requires Settled(nodes, gridSize, s, closed, depth)
    requires current in depth && depth[current] == lvl && closed' == closed + {current}
    requires nbrs == Neighbors(current, nodes, gridSize)
    requires RelaxedBy(h, nbrs, closed', current, lvl, depth, parent, items, depth', parent', items')
    ensures forall b :: Step(nodes, gridSize, current, b) ==> b in depth' && depth'[b] <= lvl + 1
  {
    RelaxedDepths(h, nbrs, closed', current, lvl, depth, parent, items, depth', parent', items');
    forall b | Step(nodes, gridSize, current, b) ensures b in depth' && depth'[b] <= lvl + 1 {
      NeighborsComplete(current, nodes, gridSize, b);
      if b in closed {
        TreeWalk(nodes, gridSize, s, parent, depth, current);
        var w :| WalkBetween(nodes, gridSize, w, s, current) && |w| == lvl + 1;
        WalkExtend(nodes, gridSize, w, s, b);
        assert |w + [b]| == lvl + 2;
      }
    }
  }

  /** Moves out of the finalized cells stay relaxed. */
  lemma AdvanceRelaxed(nodes: seq<PathNode>, gridSize: nat, h: Heuristic, nbrs: seq<PathNode>,
                       closed: set<PathNode>, closed': set<PathNode>, current: PathNode, lvl: nat,
                       depth: map<PathNode, nat>, parent: map<PathNode, PathNode>, items: seq<Entry<PathNode>>,
                       depth': map<PathNode, nat>, parent': map<PathNode, PathNode>, items': seq<Entry<PathNode>>)
    requires Relaxed(nodes, gridSize, closed, depth)
    requires current in depth && depth[current] == lvl && closed' == closed + {current}
    requires forall b :: Step(nodes, gridSize, current, b) ==> b in depth' && depth'[b] <= lvl + 1
    requires RelaxedBy(h, nbrs, closed', current, lvl, depth, parent, items, depth', parent', items')
    ensures Relaxed(nodes, gridSize, closed', depth')
  {
    RelaxedDepths(h, nbrs, closed', current, lvl, depth, parent, items, depth', parent', items');
  }

  /**
   * The queue after dequeuing the front entry and relaxing: every reached
   * cell not finalized is still queued at its priority, and every entry is
   * sound, none below the finalized priority p (new entries by consistency).
   */
  lemma AdvanceQueue(nodes: seq<PathNode>, gridSize: nat, h: Heuristic, nbrs: seq<PathNode>,
                     closed: set<PathNode>, closed': set<PathNode>, current: PathNode, lvl: nat, p: nat, last: nat,
                     depth: map<PathNode, nat>, parent: map<PathNode, PathNode>, items: seq<Entry<PathNode>>,
                     rest: seq<Entry<PathNode>>,
                     depth': map<PathNode, nat>, parent': map<PathNode, PathNode>, items': seq<Entry<PathNode>>)
    requires Queued(h, items, closed, depth) && EntriesSound(h, items, depth, last) && SortedByPriority(items)
    requires items != [] && items[0] == Entry(current, p) && rest == items[1..]
    requires current in depth && depth[current] == lvl && p == Priority(h, lvl, current) && closed' == closed + {current}
    requires forall n :: n in nbrs ==> Step(nodes, gridSize, current, n)
    requires RelaxedBy(h, nbrs, closed', current, lvl, depth, parent, rest, depth', parent', items')
    ensures Queued(h, items', closed', depth')
    ensures EntriesSound(h, items', depth', p)
  {
    RelaxedDepths(h, nbrs, closed', current, lvl, depth, parent, rest, depth', parent', items');
    assert items == [items[0]] + rest;
    forall c | c in depth' && c !in closed' ensures Entry(c, Priority(h, depth'[c], c)) in items' {
      if !Improves(c, nbrs, closed', depth, lvl) {
        assert Entry(c, Priority(h, depth[c], c)) in items;
      }
    }
    forall i | 0 <= i < |items'|
      ensures items'[i].node in depth' && Priority(h, depth'[items'[i].node], items'[i].node) <= items'[i].priority
      ensures p <= items'[i].priority
    {
      var x := items'[i];
      assert x in items';
      if x in rest {
        var k :| 0 <= k < |rest| && rest[k] == x;
        assert x == items[k + 1];
      } else {
        EstimateConsistent(h, current, x.node);
      }
    }
  }

  /** The finalized cell is appended to the order at priority p, no smaller than any before it. */
  lemma AdvanceOrder(h: Heuristic, nbrs: seq<PathNode>, closed: set<PathNode>, closed': set<PathNode>,
                     current: PathNode, lvl: nat, p: nat, last: nat, order: seq<PathNode>,
                     depth: map<PathNode, nat>, parent: map<PathNode, PathNode>, items: seq<Entry<PathNode>>,
                     depth': map<PathNode, nat>, parent': map<PathNode, PathNode>, items': seq<Entry<PathNode>>)
    requires Distinct(order) && Elems(order) == closed && ClosedInOrder(h, order, depth, last)
    requires current !in closed && current in depth && depth[current] == lvl
    requires p == Priority(h, lvl, current) && last <= p && closed' == closed + {current}
    requires RelaxedBy(h, nbrs, closed', current, lvl, depth, parent, items, depth', parent', items')
    ensures Distinct(order + [current]) && Elems(order + [current]) == closed'
    ensures ClosedInOrder(h, order + [current], depth', p)
  {
    RelaxedDepths(h, nbrs, closed', current, lvl, depth, parent, items, depth', parent', items');
    ExtendOrder(order, closed, current);
    var order' := order + [current];
    forall i | 0 <= i < |order'|
      ensures order'[i] in depth' && Priority(h, depth'[order'[i]], order'[i]) <= p
    {
      if i < |order| {
        assert order'[i] == order[i] && order[i] in closed;
      }
    }
    forall i, j | 0 <= i < j < |order'|
      ensures Priority(h, depth'[order'[i]], order'[i]) <= Priority(h, depth'[order'[j]], order'[j])
    {
      assert order'[i] == order[i] && order[i] in closed;
      if j < |order| {
        assert order'[j] == order[j] && order[j] in closed;
      }
    }
  }

  /** Assembles the loop state from its parts. */
  lemma KeepSearchState(nodes: seq<PathNode>, gridSize: nat, s: PathNode, e: PathNode, h: Heuristic,
                        items: seq<Entry<PathNode>>, closed: set<PathNode>, depth: map<PathNode, nat>,
                        parent: map<PathNode, PathNode>, steps: seq<seq<PathNode>>, order: seq<PathNode>, last: nat)
    requires forall c :: c in depth ==> c in nodes
    requires ParentTree(nodes, gridSize, s, parent, depth)
    requires forall v {:trigger parent[v]} :: v in parent ==> parent[v] in closed
    requires e !in closed && s in closed
    requires Settled(nodes, gridSize, s, closed, depth)
    requires Relaxed(nodes, gridSize, closed, depth)
    requires Queued(h, items, closed, depth)
    requires EntriesSound(h, items, depth, last)
    requires Distinct(order) && Elems(order) == closed
    requires ClosedInOrder(h, order, depth, last)
    requires StepsWellFormed(nodes, steps) && Singletons(steps)
    requires forall k, c :: 0 <= k < |steps| && c in steps[k] ==> c in closed
    requires Concat(steps) == Visible(order)
    ensures var ok := SearchState(nodes, gridSize, s, e, h, items, closed, depth, parent, steps, order, last); ok
  {
    assert SearchState(nodes, gridSize, s, e, h, items, closed, depth, parent, steps, order, last);
  }

  /**
   * One iteration that finalizes the front cell (not END): after relaxing
   * its neighbours and recording its step the loop state holds again, with
   * one more finalized cell.
   */
  lemma Advance(nodes: seq<PathNode>, gridSize: nat, s: PathNode, e: PathNode, h: Heuristic,
                items: seq<Entry<PathNode>>, closed: set<PathNode>, depth: map<PathNode, nat>,
                parent: map<PathNode, PathNode>, steps: seq<seq<PathNode>>, order: seq<PathNode>, last: nat,
                current: PathNode, lvl: nat, rest: seq<Entry<PathNode>>, nbrs: seq<PathNode>, closed': set<PathNode>,
                depth': map<PathNode, nat>, parent': map<PathNode, PathNode>, items': seq<Entry<PathNode>>,
                steps': seq<seq<PathNode>>)
    requires DistinctIds(nodes)
    requires var ok := SearchState(nodes, gridSize, s, e, h, items, closed, depth, parent, steps, order, last); ok
    requires SortedByPriority(items) && items != [] && items[0].node == current && rest == items[1..]
    requires current !in closed && current != e && closed' == closed + {current}
    requires current in depth && depth[current] == lvl
    requires items[0].priority == Priority(h, lvl, current) && NoShorterWalk(nodes, gridSize, s, current, lvl)
    requires nbrs == Neighbors(current, nodes, gridSize)
    requires RelaxedBy(h, nbrs, closed', current, lvl, depth, parent, rest, depth', parent', items')
    requires steps' == if IsEndpoint(current) then steps else steps + [[current]]
    ensures var ok := SearchState(nodes, gridSize, s, e, h, items', closed', depth', parent', steps',
                                  order + [current], items[0].priority); ok
    ensures |closed| < |closed'| <= |Elems(nodes)|
  {
    var p := items[0].priority;
    assert SearchState(nodes, gridSize, s, e, h, items, closed, depth, parent, steps, order, last);
    NeighborsSound(current, nodes, gridSize);
    AdvanceTree(nodes, gridSize, s, h, nbrs, closed, closed', current, lvl, depth, parent, rest, depth', parent', items');
    AdvanceSettled(nodes, gridSize, s, h, nbrs, closed, closed', current, lvl, depth, parent, rest, depth', parent', items');
    MovesOfCurrent(nodes, gridSize, s, h, nbrs, closed, closed', current, lvl, depth, parent, rest, depth', parent', items');
    AdvanceRelaxed(nodes, gridSize, h, nbrs, closed, closed', current, lvl, depth, parent, rest, depth', parent', items');
    AdvanceQueue(nodes, gridSize, h, nbrs, closed, closed', current, lvl, p, last, depth, parent, items, rest,
                 depth', parent', items');
    AdvanceOrder(h, nbrs, closed, closed', current, lvl, p, last, order, depth, parent, rest, depth', parent', items');
    RecordPop(nodes, steps, order, closed, current, steps');
    assert s in closed';
    KeepSearchState(nodes, gridSize, s, e, h, items', closed', depth', parent', steps', order + [current], p);
    assert closed' <= Elems(nodes);
    SubsetSize(closed', Elems(nodes));
  }

  // ---------------------------------------------------------------------------
  // The two ways the loop ends
  // ---------------------------------------------------------------------------

  /** The depths of the given cells, in order. */
  ghost function DepthsOf(cells: seq<PathNode>, depth: map<PathNode, nat>): (r: seq<nat>)
    requires forall i :: 0 <= i < |cells| ==> cells[i] in depth
    ensures |r| == |cells|
  {
    seq(|cells|, i requires 0 <= i < |cells| => depth[cells[i]])
  }

  /**
   * The finalized cells with their depths: each depth is the cell's distance
   * from s, and the priorities never decrease in finalization order.
   */
  lemma ClosedAreFinal(nodes: seq<PathNode>, gridSize: nat, s: PathNode, e: PathNode, h: Heuristic,
                       items: seq<Entry<PathNode>>, closed: set<PathNode>, depth: map<PathNode, nat>,
                       parent: map<PathNode, PathNode>, steps: seq<seq<PathNode>>, order: seq<PathNode>, last: nat)
    returns (settled: seq<nat>)
    requires var ok := SearchState(nodes, gridSize, s, e, h, items, closed, depth, parent, steps, order, last); ok
    ensures |settled| == |order|
    ensures forall i :: 0 <= i < |order| ==> IsDistance(nodes, gridSize, s, order[i], settled[i])
    ensures forall i, j :: 0 <= i < j < |order| ==>
      Priority(h, settled[i], order[i]) <= Priority(h, settled[j], order[j])
  {
    assert SearchState(nodes, gridSize, s, e, h, items, closed, depth, parent, steps, order, last);
    settled := DepthsOf(order, depth);
    forall i | 0 <= i < |order| ensures IsDistance(nodes, gridSize, s, order[i], settled[i]) {
      assert order[i] in closed;
      TreeWalk(nodes, gridSize, s, parent, depth, order[i]);
    }
  }

  /** END at the front of the queue: the path read back from the parent map is a shortest walk. */
  lemma ReachedEnd(nodes: seq<PathNode>, gridSize: nat, s: PathNode, e: PathNode, h: Heuristic,
                   items: seq<Entry<PathNode>>, closed: set<PathNode>, depth: map<PathNode, nat>,
                   parent: map<PathNode, PathNode>, steps: seq<seq<PathNode>>, order: seq<PathNode>, last: nat,
                   path: seq<PathNode>)
    requires FindStartAndEnd(nodes).startNode == Some(s) && FindStartAndEnd(nodes).endNode == Some(e)
    requires var ok := SearchState(nodes, gridSize, s, e, h, items, closed, depth, parent, steps, order, last); ok
    requires SortedByPriority(items) && items != [] && items[0].node == e
    requires |path| > 0 && path[|path| - 1] == e && path[0] !in parent
    requires forall j :: 0 <= j < |path| - 1 ==> ChildOf(parent, path[j + 1], path[j])
    ensures FindsPath(nodes, gridSize, SearchResult(steps, path))
    ensures FindsShortestPath(nodes, gridSize, SearchResult(steps, path))
  {
    assert SearchState(nodes, gridSize, s, e, h, items, closed, depth, parent, steps, order, last);
    Settle(nodes, gridSize, s, e, h, items, closed, depth, parent, steps, order, last);
    TreePath(nodes, gridSize, s, parent, depth, path, e);
  }

  /**
   * An empty queue: every reached cell was finalized and the finalized cells
   * are closed under legal moves, so they are exactly the cells reachable
   * from START, and END is not among them.
   */
  lemma Exhausted(nodes: seq<PathNode>, gridSize: nat, s: PathNode, e: PathNode, h: Heuristic,
                  closed: set<PathNode>, depth: map<PathNode, nat>,
                  parent: map<PathNode, PathNode>, steps: seq<seq<PathNode>>, order: seq<PathNode>, last: nat)
    requires FindStartAndEnd(nodes).startNode == Some(s) && FindStartAndEnd(nodes).endNode == Some(e)
    requires var ok := SearchState(nodes, gridSize, s, e, h, [], closed, depth, parent, steps, order, last); ok
    ensures FindsPath(nodes, gridSize, SearchResult(steps, []))
    ensures forall c :: Reachable(nodes, gridSize, s, c) ==> c in order
  {
    assert SearchState(nodes, gridSize, s, e, h, [], closed, depth, parent, steps, order, last);
    assert Queued(h, [], closed, depth);
    assert forall c :: c in depth ==> c in closed;
    assert s in closed;
    assert Relaxed(nodes, gridSize, closed, depth);
    ClosedSetExcludesUnreached(nodes, gridSize, closed, s, e);
    forall c | Reachable(nodes, gridSize, s, c) ensures c in order {
      var w :| WalkBetween(nodes, gridSize, w, s, c);
      ClosedSetContainsWalk(nodes, gridSize, closed, w);
    }
  }

  /**
   * What a best-first search delivers: the path `FindsPath` and
   * `FindsShortestPath` ask for; well-formed exploration steps showing the
   * finalized cells in finalization order; each finalized cell at its
   * distance from START, with priorities that never decrease; and, when no
   * path comes back, every cell reachable from START finalized.
   */
  ghost predicate Outcome(nodes: seq<PathNode>, gridSize: nat, h: Heuristic, r: SearchResult,
                          order: seq<PathNode>, settled: seq<nat>) {
    var ep := FindStartAndEnd(nodes);
    FindsPath(nodes, gridSize, r) && FindsShortestPath(nodes, gridSize, r)
    && StepsWellFormed(nodes, r.explorationSteps) && Singletons(r.explorationSteps)
    && Distinct(order) && Concat(r.explorationSteps) == Visible(order) && |settled| == |order|
    && (ep.startNode.Some? ==>
          forall i :: 0 <= i < |order| ==> IsDistance(nodes, gridSize, ep.startNode.value, order[i], settled[i]))
    && (forall i, j :: 0 <= i < j < |order| ==>
          Priority(h, settled[i], order[i]) <= Priority(h, settled[j], order[j]))
    && (ep.startNode.Some? && ep.endNode.Some? && r.path == [] ==>
          forall c :: Reachable(nodes, gridSize, ep.startNode.value, c) ==> c in order)
  }

  /** A grid without START or END: nothing explored, no path. */
  lemma NoEndpoints(nodes: seq<PathNode>, gridSize: nat, h: Heuristic)
    requires FindStartAndEnd(nodes).startNode.None? || FindStartAndEnd(nodes).endNode.None?
    ensures var ok := Outcome(nodes, gridSize, h, SearchResult([], []), [], []); ok
  {
    assert Outcome(nodes, gridSize, h, SearchResult([], []), [], []);
  }

  /** END dequeued: the reconstructed path and the finalized cells so far. */
  lemma Found(nodes: seq<PathNode>, gridSize: nat, s: PathNode, e: PathNode, h: Heuristic,
              items: seq<Entry<PathNode>>, closed: set<PathNode>, depth: map<PathNode, nat>,
              parent: map<PathNode, PathNode>, steps: seq<seq<PathNode>>, order: seq<PathNode>, last: nat,
              path: seq<PathNode>)
    returns (settled: seq<nat>)
    requires FindStartAndEnd(nodes).startNode == Some(s) && FindStartAndEnd(nodes).endNode == Some(e)
    requires var ok := SearchState(nodes, gridSize, s, e, h, items, closed, depth, parent, steps, order, last); ok
    requires SortedByPriority(items) && items != [] && items[0].node == e
    requires |path| > 0 && path[|path| - 1] == e && path[0] !in parent
    requires forall j :: 0 <= j < |path| - 1 ==> ChildOf(parent, path[j + 1], path[j])
    ensures var ok := Outcome(nodes, gridSize, h, SearchResult(steps, path), order, settled); ok
  {
    ReachedEnd(nodes, gridSize, s, e, h, items, closed, depth, parent, steps, order, last, path);
    settled := ClosedAreFinal(nodes, gridSize, s, e, h, items, closed, depth, parent, steps, order, last);
    assert Outcome(nodes, gridSize, h, SearchResult(steps, path), order, settled);
  }

  /** The queue ran dry before END was dequeued: no path. */
  lemma NotFound(nodes: seq<PathNode>, gridSize: nat, s: PathNode, e: PathNode, h: Heuristic,
                 closed: set<PathNode>, depth: map<PathNode, nat>,
                 parent: map<PathNode, PathNode>, steps: seq<seq<PathNode>>, order: seq<PathNode>, last: nat)
    returns (settled: seq<nat>)
    requires FindStartAndEnd(nodes).startNode == Some(s) && FindStartAndEnd(nodes).endNode == Some(e)
    requires var ok := SearchState(nodes, gridSize, s, e, h, [], closed, depth, parent, steps, order, last); ok
    ensures var ok := Outcome(nodes, gridSize, h, SearchResult(steps, []), order, settled); ok
  {
    Exhausted(nodes, gridSize, s, e, h, closed, depth, parent, steps, order, last);
    settled := ClosedAreFinal(nodes, gridSize, s, e, h, [], closed, depth, parent, steps, order, last);
    assert Outcome(nodes, gridSize, h, SearchResult(steps, []), order, settled);
  }
}
