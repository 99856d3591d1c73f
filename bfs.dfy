/**
 * Breadth-first search: a FIFO queue processed one level at a time. Cells are
 * marked visited when they are discovered, and each level's newly discovered
 * cells (other than START and END) form one exploration step.
 *
 * The loop state is a large conjunction. It is handed between the loops and
 * their lemmas as `var ok := Searching(...); ok` (and likewise for
 * `InLevel`), which the verifier takes as one fact instead of re-proving
 * every conjunct separately at each hand-over; the lemma that establishes it
 * ends by asserting the conjunction itself.
 */
module Bfs {
  import opened Seqs
  import opened Node
  import opened Grid
  import opened PathfindingUtils
  import opened SearchCommon

  /**
   * Step k holds exactly the cells, other than START and END, whose distance
   * from START is levels[k]; the levels increase, and when START and END are
   * unique they are 1, 2, 3, ... with no gap.
   */
  ghost predicate StepsAreLevels(nodes: seq<PathNode>, gridSize: nat, steps: seq<seq<PathNode>>, levels: seq<nat>) {
    var ep := FindStartAndEnd(nodes);
    |levels| == |steps|
    && (forall j, k :: 0 <= j < k < |levels| ==> levels[j] < levels[k])
    && (ep.startNode.Some? ==>
          forall k, c :: 0 <= k < |steps| ==>
            (c in steps[k] <==> c in nodes && !IsEndpoint(c) && IsDistance(nodes, gridSize, ep.startNode.value, c, levels[k])))
    && (UniqueEndpoints(nodes) ==> forall k :: 0 <= k < |levels| ==> levels[k] == k + 1)
  }

  /**
   * At the end of a level: a cell at distance lvl + 1 was not visited before
   * the level and is visited after it, because its predecessor on a shortest
   * walk sat in the level and was expanded.
   */
  lemma LevelComplete(nodes: seq<PathNode>, gridSize: nat, s: PathNode,
                      parent: map<PathNode, PathNode>, dist: map<PathNode, nat>,
                      visited0: set<PathNode>, visited: set<PathNode>, expanded: set<PathNode>,
                      lvl: nat, c: PathNode)
    requires ParentTree(nodes, gridSize, s, parent, dist)
    requires forall v :: v in visited0 ==> v in dist && dist[v] <= lvl
    requires forall v :: v !in visited0 ==> NoShorterWalk(nodes, gridSize, s, v, lvl + 1)
    requires forall v :: v in visited0 && dist[v] == lvl ==> v in expanded
    requires Closed(nodes, gridSize, expanded, visited)
    requires IsDistance(nodes, gridSize, s, c, lvl + 1)
    ensures c in visited && c !in visited0
  {
    var w :| WalkBetween(nodes, gridSize, w, s, c) && |w| == lvl + 2;
    if c in visited0 {
      TreeWalk(nodes, gridSize, s, parent, dist, c);
    }
    var p := w[lvl];
    WalkPrefix(nodes, gridSize, w, s);
    assert w[..lvl + 1] == w[..|w| - 1];
    assert WalkBetween(nodes, gridSize, w[..lvl + 1], s, p);
    assert p in visited0;
    TreeWalk(nodes, gridSize, s, parent, dist, p);
    var wp :| WalkBetween(nodes, gridSize, wp, s, p) && |wp| == dist[p] + 1;
    WalkExtend(nodes, gridSize, wp, s, c);
    assert |wp + [c]| == dist[p] + 2;
    assert dist[p] == lvl;
  }

  /** A cell whose recorded distance is a lower bound on every walk is at exactly that distance. */
  lemma TreeDistance(nodes: seq<PathNode>, gridSize: nat, s: PathNode,
                     parent: map<PathNode, PathNode>, dist: map<PathNode, nat>, c: PathNode)
    requires ParentTree(nodes, gridSize, s, parent, dist) && c in dist
    requires NoShorterWalk(nodes, gridSize, s, c, dist[c])
    ensures IsDistance(nodes, gridSize, s, c, dist[c])
  {
    TreeWalk(nodes, gridSize, s, parent, dist, c);
  }

  /** Every visited cell was given a distance that no walk from s beats. */
  ghost predicate DistBounds(nodes: seq<PathNode>, gridSize: nat, s: PathNode,
                             visited: set<PathNode>, dist: map<PathNode, nat>) {
    dist.Keys == visited
    && forall c :: c in visited ==> NoShorterWalk(nodes, gridSize, s, c, dist[c])
  }

  /** What both loops of bfs keep: the queue, the distances, the parent tree and the closure. */
  ghost predicate Frontier(nodes: seq<PathNode>, gridSize: nat, s: PathNode, e: PathNode,
                           queue: seq<PathNode>, visited: set<PathNode>, expanded: set<PathNode>,
                           dist: map<PathNode, nat>, parent: map<PathNode, PathNode>) {
    Pending(nodes, s, e, queue, visited, expanded)
    && DistBounds(nodes, gridSize, s, visited, dist)
    && ParentTree(nodes, gridSize, s, parent, dist)
    && Closed(nodes, gridSize, expanded, visited)
  }

  /** Moving the head of the queue to the expanded cells and queueing fresh grid cells keeps the queue state. */
  lemma ExtendQueue(nodes: seq<PathNode>, s: PathNode, e: PathNode,
                    queue: seq<PathNode>, visited: set<PathNode>, expanded: set<PathNode>,
                    found: seq<PathNode>)
    requires Pending(nodes, s, e, queue, visited, expanded)
    requires queue != [] && queue[0] != e
    requires Distinct(found) && forall c :: c in found ==> c !in visited && c in nodes
    ensures Pending(nodes, s, e, queue[1..] + found, visited + Elems(found), expanded + {queue[0]})
  {
    var current := queue[0];
    var queue' := queue[1..] + found;
    assert queue == [current] + queue[1..];
    DistinctAppend(queue[1..], found);
    assert Elems(queue') == Elems(queue[1..]) + Elems(found);
    assert Elems(queue) == {current} + Elems(queue[1..]);
  }

  /**
   * Cells discovered from a frontier whose open cells all lie at distance lvl
   * or more need at least lvl + 1 moves, so recording them at lvl + 1 keeps
   * every recorded distance a lower bound.
   */
  lemma ExtendBounds(nodes: seq<PathNode>, gridSize: nat, s: PathNode,
                     visited: set<PathNode>, expanded: set<PathNode>, dist: map<PathNode, nat>,
                     lvl: nat, found: seq<PathNode>)
    requires s in visited && DistBounds(nodes, gridSize, s, visited, dist)
    requires Closed(nodes, gridSize, expanded, visited)
    requires forall u :: u in visited && u !in expanded ==> lvl <= dist[u]
    requires forall c :: c in found ==> c !in visited
    ensures DistBounds(nodes, gridSize, s, visited + Elems(found), AtDistance(dist, found, lvl + 1))
  {
    forall u | u in visited && u !in expanded ensures NoShorterWalk(nodes, gridSize, s, u, lvl) {
      NoShorterWalkMonotone(nodes, gridSize, s, u, dist[u], lvl);
    }
    forall c | c in found ensures NoShorterWalk(nodes, gridSize, s, c, lvl + 1) {
      FrontierBound(nodes, gridSize, s, visited, expanded, lvl, c);
    }
  }

  /**
   * Expanding the head of the queue at level lvl (every queued cell is at
   * distance lvl or more) keeps the frontier: its unvisited neighbours are
   * queued at distance lvl + 1 with the head as parent.
   */
  lemma ExpandHead(nodes: seq<PathNode>, gridSize: nat, s: PathNode, e: PathNode,
                   queue: seq<PathNode>, visited: set<PathNode>, expanded: set<PathNode>,
                   dist: map<PathNode, nat>, parent: map<PathNode, PathNode>, lvl: nat,
                   found: seq<PathNode>, visited': set<PathNode>, parent': map<PathNode, PathNode>)
    requires DistinctIds(nodes)
    requires Frontier(nodes, gridSize, s, e, queue, visited, expanded, dist, parent)
    requires queue != [] && queue[0] != e && dist[queue[0]] == lvl
    requires forall c :: c in queue ==> lvl <= dist[c]
    requires found == Unvisited(Neighbors(queue[0], nodes, gridSize), visited)
    requires visited' == visited + Elems(found)
    requires parent'.Keys == parent.Keys + Elems(found)
    requires forall c :: c in parent' ==> parent'[c] == if c in found then queue[0] else parent[c]
    ensures Frontier(nodes, gridSize, s, e, queue[1..] + found, visited', expanded + {queue[0]},
                     AtDistance(dist, found, lvl + 1), parent')
    ensures Distinct(found) && forall c :: c in found ==> c !in visited
  {
    var current := queue[0];
    var neighbors := Neighbors(current, nodes, gridSize);
    assert Distinct(found) && forall c :: c in found ==> c !in visited && Step(nodes, gridSize, current, c) by {
      NeighborsSound(current, nodes, gridSize);
      NeighborsDistinct(current, nodes, gridSize);
      UnvisitedFacts(neighbors, visited);
    }
    ExtendQueue(nodes, s, e, queue, visited, expanded, found);
    ExtendTree(nodes, gridSize, s, parent, dist, current, lvl, found, parent');
    assert DistBounds(nodes, gridSize, s, visited', AtDistance(dist, found, lvl + 1)) by {
      assert forall u :: u in visited && u !in expanded ==> u in queue;
      ExtendBounds(nodes, gridSize, s, visited, expanded, dist, lvl, found);
    }
    assert Closed(nodes, gridSize, expanded + {current}, visited') by {
      forall b | Step(nodes, gridSize, current, b) ensures b in visited' {
        NeighborsComplete(current, nodes, gridSize, b);
        UnvisitedFacts(neighbors, visited);
      }
      ExtendClosure(nodes, gridSize, expanded, visited, current, visited');
    }
  }

  /**
   * What has been recorded about the steps so far: well formed, one level
   * each, every listed cell visited at its level and every non-endpoint cell
   * at a listed level listed; the levels increase and never pass lvl.
   */
  ghost predicate LevelsSoFar(nodes: seq<PathNode>, gridSize: nat, s: PathNode,
                              steps: seq<seq<PathNode>>, levels: seq<nat>,
                              visited: set<PathNode>, dist: map<PathNode, nat>, lvl: nat) {
    StepsWellFormed(nodes, steps)
    && |levels| == |steps|
    && (forall k, c :: 0 <= k < |steps| && c in steps[k] ==> c in visited && c in dist && dist[c] == levels[k])
    && (forall k, c ::
          0 <= k < |steps| && c in nodes && !IsEndpoint(c) && IsDistance(nodes, gridSize, s, c, levels[k])
          ==> c in steps[k])
    && (forall j, k :: 0 <= j < k < |levels| ==> levels[j] < levels[k])
    && (forall k :: 0 <= k < |levels| ==> levels[k] <= lvl)
    && (UniqueEndpoints(nodes) ==> forall k :: 0 <= k < |levels| ==> levels[k] == k + 1)
  }

  /** The recorded steps, read against the final parent tree, are what bfs promises. */
  lemma LevelsResult(nodes: seq<PathNode>, gridSize: nat, s: PathNode,
                     steps: seq<seq<PathNode>>, levels: seq<nat>,
                     visited: set<PathNode>, dist: map<PathNode, nat>, lvl: nat,
                     parent: map<PathNode, PathNode>, dist': map<PathNode, nat>)
    requires FindStartAndEnd(nodes).startNode == Some(s)
    requires LevelsSoFar(nodes, gridSize, s, steps, levels, visited, dist, lvl)
    requires ParentTree(nodes, gridSize, s, parent, dist')
    requires forall c :: c in dist ==> c in dist' && dist'[c] == dist[c]
    requires forall c :: c in dist' ==> NoShorterWalk(nodes, gridSize, s, c, dist'[c])
    ensures StepsAreLevels(nodes, gridSize, steps, levels)
  {
    forall k, c | 0 <= k < |steps| && c in steps[k] ensures IsDistance(nodes, gridSize, s, c, levels[k]) {
      TreeDistance(nodes, gridSize, s, parent, dist', c);
    }
  }

  /** Growing the visited set and the distances without changing old entries keeps the record. */
  lemma LevelsCarry(nodes: seq<PathNode>, gridSize: nat, s: PathNode,
                    steps: seq<seq<PathNode>>, levels: seq<nat>,
                    visited0: set<PathNode>, dist0: map<PathNode, nat>, lvl: nat,
                    visited: set<PathNode>, dist: map<PathNode, nat>)
    requires LevelsSoFar(nodes, gridSize, s, steps, levels, visited0, dist0, lvl)
    requires visited0 <= visited
    requires forall c :: c in visited0 && c in dist0 ==> c in dist && dist[c] == dist0[c]
    ensures LevelsSoFar(nodes, gridSize, s, steps, levels, visited, dist, lvl + 1)
  {
  }

  /** What has been recorded lies in the visited set. */
  lemma ListedVisited(nodes: seq<PathNode>, gridSize: nat, s: PathNode,
                      steps: seq<seq<PathNode>>, levels: seq<nat>,
                      visited: set<PathNode>, dist: map<PathNode, nat>, lvl: nat)
    requires LevelsSoFar(nodes, gridSize, s, steps, levels, visited, dist, lvl)
    ensures forall k, c :: 0 <= k < |steps| && c in steps[k] ==> c in visited
  {
  }

  /** Appending level lvl + 1, above every listed level, keeps the record. */
  lemma AppendLevel(nodes: seq<PathNode>, gridSize: nat, s: PathNode,
                    steps: seq<seq<PathNode>>, levels: seq<nat>,
                    visited: set<PathNode>, dist: map<PathNode, nat>, lvl: nat, step: seq<PathNode>)
    requires LevelsSoFar(nodes, gridSize, s, steps, levels, visited, dist, lvl + 1)
    requires forall k :: 0 <= k < |levels| ==> levels[k] <= lvl
    requires StepsWellFormed(nodes, steps + [step])
    requires forall c :: c in step ==> c in visited && c in dist && dist[c] == lvl + 1
    requires forall c :: c in nodes && !IsEndpoint(c) && IsDistance(nodes, gridSize, s, c, lvl + 1) ==> c in step
    requires UniqueEndpoints(nodes) ==> |levels| == lvl
    ensures LevelsSoFar(nodes, gridSize, s, steps + [step], levels + [lvl + 1], visited, dist, lvl + 1)
  {
    var steps', levels' := steps + [step], levels + [lvl + 1];
    forall k, c | 0 <= k < |steps'| && c in steps'[k]
      ensures c in visited && c in dist && dist[c] == levels'[k]
    {
      if k < |steps| {
        assert steps'[k] == steps[k] && levels'[k] == levels[k];
      }
    }
    forall k, c | 0 <= k < |steps'| && c in nodes && !IsEndpoint(c) && IsDistance(nodes, gridSize, s, c, levels'[k])
      ensures c in steps'[k]
    {
      if k < |steps| {
        assert steps'[k] == steps[k] && levels'[k] == levels[k];
      }
    }
  }

  /**
   * Closing a level lvl whose step is `step`: the cells discovered in it are
   * exactly those at distance lvl + 1, so appending the step (when not empty)
   * extends what has been recorded.
   */
  lemma CloseLevel(nodes: seq<PathNode>, gridSize: nat, s: PathNode, e: PathNode,
                   steps: seq<seq<PathNode>>, levels: seq<nat>,
                   visited0: set<PathNode>, dist0: map<PathNode, nat>, lvl: nat,
                   next: seq<PathNode>, step: seq<PathNode>,
                   visited: set<PathNode>, expanded: set<PathNode>,
                   dist: map<PathNode, nat>, parent: map<PathNode, PathNode>,
                   steps': seq<seq<PathNode>>, levels': seq<nat>)
    requires FindStartAndEnd(nodes).startNode == Some(s) && FindStartAndEnd(nodes).endNode == Some(e)
    requires LevelsSoFar(nodes, gridSize, s, steps, levels, visited0, dist0, lvl)
    requires Frontier(nodes, gridSize, s, e, next, visited, expanded, dist, parent)
    requires visited == visited0 + Elems(next) && forall c :: c in next ==> c !in visited0
    requires forall c :: c in visited0 ==> c in dist0 && c in dist && dist0[c] == dist[c] && dist[c] <= lvl
    requires forall c :: c in next ==> c in dist && dist[c] == lvl + 1
    requires forall v :: v !in visited0 ==> NoShorterWalk(nodes, gridSize, s, v, lvl + 1)
    requires forall v :: v in visited0 && dist[v] == lvl ==> v in expanded
    requires Distinct(step) && forall c :: c in step <==> c in next && !IsEndpoint(c)
    requires UniqueEndpoints(nodes) ==> |levels| == lvl
    requires steps' == if step != [] then steps + [step] else steps
    requires levels' == if step != [] then levels + [lvl + 1] else levels
    ensures LevelsSoFar(nodes, gridSize, s, steps', levels', visited, dist, lvl + 1)
    ensures UniqueEndpoints(nodes) ==>
              |levels'| == lvl + 1 || (|levels'| == lvl && forall c :: c in next ==> c == e)
  {
    LevelsCarry(nodes, gridSize, s, steps, levels, visited0, dist0, lvl, visited, dist);
    if step != [] {
      assert StepsWellFormed(nodes, steps + [step]) by {
        ListedVisited(nodes, gridSize, s, steps, levels, visited0, dist0, lvl);
        AppendStep(nodes, steps, step, visited0);
      }
      assert forall c :: c in nodes && !IsEndpoint(c) && IsDistance(nodes, gridSize, s, c, lvl + 1) ==> c in step by {
        forall c | c in nodes && !IsEndpoint(c) && IsDistance(nodes, gridSize, s, c, lvl + 1) ensures c in step {
          LevelComplete(nodes, gridSize, s, parent, dist, visited0, visited, expanded, lvl, c);
        }
      }
      AppendLevel(nodes, gridSize, s, steps, levels, visited, dist, lvl, step);
    } else if UniqueEndpoints(nodes) {
      forall c | c in next ensures c == e {
        UniqueEndpointCell(nodes, c);
      }
    }
  }

  /**
   * What the outer loop keeps between levels: the frontier, with every queued
   * cell at distance lvl and every expanded one below it, and the record of
   * the steps so far. With unique endpoints the levels have no gap, unless
   * only END is left in the queue.
   */
  ghost predicate Searching(nodes: seq<PathNode>, gridSize: nat, s: PathNode, e: PathNode,
                            queue: seq<PathNode>, visited: set<PathNode>, expanded: set<PathNode>,
                            dist: map<PathNode, nat>, parent: map<PathNode, PathNode>,
                            steps: seq<seq<PathNode>>, levels: seq<nat>, lvl: nat) {
    Frontier(nodes, gridSize, s, e, queue, visited, expanded, dist, parent)
    && (forall c :: c in queue ==> c in dist && dist[c] == lvl)
    && (forall c :: c in expanded ==> c in dist && dist[c] < lvl)
    && LevelsSoFar(nodes, gridSize, s, steps, levels, visited, dist, lvl)
    && (UniqueEndpoints(nodes) ==>
          |levels| == lvl || (|levels| + 1 == lvl && forall c :: c in queue ==> c == e))
  }

  /**
   * What is fixed when a level starts: the level's cells, the visited and
   * expanded sets and distances then, and the bound lvl + 1 on every cell not
   * yet visited.
   */
  ghost predicate LevelStart(nodes: seq<PathNode>, gridSize: nat, s: PathNode, e: PathNode,
                             level: seq<PathNode>, visited0: set<PathNode>, expanded0: set<PathNode>,
                             dist0: map<PathNode, nat>, steps: seq<seq<PathNode>>, levels: seq<nat>, lvl: nat) {
    level != [] && Distinct(level) && (forall c :: c in level ==> c !in expanded0)
    && visited0 == expanded0 + Elems(level)
    && (forall c :: c in visited0 ==> c in nodes)
    && dist0.Keys == visited0
    && (forall c :: c in level ==> c in dist0 && dist0[c] == lvl)
    && (forall c :: c in expanded0 ==> c in dist0 && dist0[c] < lvl)
    && (forall v :: v !in visited0 ==> NoShorterWalk(nodes, gridSize, s, v, lvl + 1))
    && LevelsSoFar(nodes, gridSize, s, steps, levels, visited0, dist0, lvl)
    && (UniqueEndpoints(nodes) ==>
          |levels| == lvl || (|levels| + 1 == lvl && forall c :: c in level ==> c == e))
  }

  /**
   * What the inner loop keeps after expanding the first i cells of the level:
   * the frontier, the cells discovered so far (`next`, all at distance
   * lvl + 1) queued behind the rest of the level, and the step being built
   * holding the discovered cells other than START and END.
   */
  ghost predicate InLevel(nodes: seq<PathNode>, gridSize: nat, s: PathNode, e: PathNode,
                          level: seq<PathNode>, visited0: set<PathNode>, expanded0: set<PathNode>,
                          dist0: map<PathNode, nat>, steps: seq<seq<PathNode>>, levels: seq<nat>, lvl: nat,
                          i: nat, queue: seq<PathNode>, visited: set<PathNode>, expanded: set<PathNode>,
                          dist: map<PathNode, nat>, parent: map<PathNode, PathNode>,
                          next: seq<PathNode>, currentLevel: seq<PathNode>) {
    LevelStart(nodes, gridSize, s, e, level, visited0, expanded0, dist0, steps, levels, lvl)
    && i <= |level|
    && Frontier(nodes, gridSize, s, e, queue, visited, expanded, dist, parent)
    && queue == level[i..] + next
    && expanded == expanded0 + Elems(level[..i])
    && visited == visited0 + Elems(next)
    && (forall c :: c in next ==> c !in visited0)
    && (forall c :: c in visited0 ==> c in dist && dist[c] == dist0[c])
    && (forall c :: c in next ==> c in dist && dist[c] == lvl + 1)
    && Distinct(next) && Distinct(currentLevel)
    && (forall c :: c in currentLevel <==> c in next && !IsEndpoint(c))
    && (UniqueEndpoints(nodes) && |levels| + 1 == lvl ==> i == 0)
  }

  /** The search starts with START alone in the queue, at level 0, with nothing recorded. */
  lemma StartSearch(nodes: seq<PathNode>, gridSize: nat, s: PathNode, e: PathNode)
    requires s in nodes && s != e
    ensures var ok := Searching(nodes, gridSize, s, e, [s], {s}, {}, map[s := 0], map[], [], [], 0); ok
  {
    assert Elems([s]) == {s};
    assert Searching(nodes, gridSize, s, e, [s], {s}, {}, map[s := 0], map[], [], [], 0);
  }

  /** A level starts from the whole queue. */
  lemma StartLevel(nodes: seq<PathNode>, gridSize: nat, s: PathNode, e: PathNode,
                   queue: seq<PathNode>, visited: set<PathNode>, expanded: set<PathNode>,
                   dist: map<PathNode, nat>, parent: map<PathNode, PathNode>,
                   steps: seq<seq<PathNode>>, levels: seq<nat>, lvl: nat)
    requires var ok := Searching(nodes, gridSize, s, e, queue, visited, expanded, dist, parent, steps, levels, lvl); ok
    requires queue != []
    ensures var ok := InLevel(nodes, gridSize, s, e, queue, visited, expanded, dist, steps, levels, lvl,
                    0, queue, visited, expanded, dist, parent, [], []); ok
  {
    assert LevelStart(nodes, gridSize, s, e, queue, visited, expanded, dist, steps, levels, lvl) by {
      forall v | v !in visited ensures NoShorterWalk(nodes, gridSize, s, v, lvl + 1) {
        assert forall u :: u in visited && u !in expanded ==> NoShorterWalk(nodes, gridSize, s, u, lvl);
        FrontierBound(nodes, gridSize, s, visited, expanded, lvl, v);
      }
    }
    assert queue[0..] + [] == queue;
    assert queue[..0] == [];
    assert InLevel(nodes, gridSize, s, e, queue, visited, expanded, dist, steps, levels, lvl,
                   0, queue, visited, expanded, dist, parent, [], []);
  }

  /** While the level lasts, the head of the queue is the level's next cell, at distance lvl. */
  lemma LevelHead(nodes: seq<PathNode>, gridSize: nat, s: PathNode, e: PathNode,
                  level: seq<PathNode>, visited0: set<PathNode>, expanded0: set<PathNode>,
                  dist0: map<PathNode, nat>, steps: seq<seq<PathNode>>, levels: seq<nat>, lvl: nat,
                  i: nat, queue: seq<PathNode>, visited: set<PathNode>, expanded: set<PathNode>,
                  dist: map<PathNode, nat>, parent: map<PathNode, PathNode>,
                  next: seq<PathNode>, currentLevel: seq<PathNode>)
    requires var ok := InLevel(nodes, gridSize, s, e, level, visited0, expanded0, dist0, steps, levels, lvl,
                     i, queue, visited, expanded, dist, parent, next, currentLevel); ok
    requires i < |level|
    ensures queue != [] && queue[0] == level[i] && queue[0] in nodes && queue[0] in dist && dist[queue[0]] == lvl
  {
    assert queue[0] == level[i];
    assert level[i] in level;
  }

  /** Recording the discovered cells at the distance of the ones already queued. */
  lemma AtDistanceAppend(dist: map<PathNode, nat>, next: seq<PathNode>, found: seq<PathNode>, d: nat)
    requires forall c :: c in next ==> c in dist && dist[c] == d
    ensures forall c :: c in next + found ==> c in AtDistance(dist, found, d) && AtDistance(dist, found, d)[c] == d
  {
  }

  /** The step being built keeps listing exactly the discovered cells other than START and END. */
  lemma VisibleAppend(currentLevel: seq<PathNode>, next: seq<PathNode>, found: seq<PathNode>)
    requires forall c :: c in currentLevel <==> c in next && !IsEndpoint(c)
    ensures forall c :: c in currentLevel + Visible(found) <==> c in next + found && !IsEndpoint(c)
  {
  }

  /** Expanding the level's next cell, when it is not END, keeps the inner loop's invariant. */
  lemma AdvanceLevel(nodes: seq<PathNode>, gridSize: nat, s: PathNode, e: PathNode,
                     level: seq<PathNode>, visited0: set<PathNode>, expanded0: set<PathNode>,
                     dist0: map<PathNode, nat>, steps: seq<seq<PathNode>>, levels: seq<nat>, lvl: nat,
                     i: nat, queue: seq<PathNode>, visited: set<PathNode>, expanded: set<PathNode>,
                     dist: map<PathNode, nat>, parent: map<PathNode, PathNode>,
                     next: seq<PathNode>, currentLevel: seq<PathNode>, current: PathNode,
                     found: seq<PathNode>, visited': set<PathNode>, parent': map<PathNode, PathNode>)
    requires DistinctIds(nodes)
    requires var ok := InLevel(nodes, gridSize, s, e, level, visited0, expanded0, dist0, steps, levels, lvl,
                     i, queue, visited, expanded, dist, parent, next, currentLevel); ok
    requires i < |level| && queue != [] && current == queue[0] && current == level[i] && current != e
    requires found == Unvisited(Neighbors(current, nodes, gridSize), visited)
    requires visited' == visited + Elems(found)
    requires parent'.Keys == parent.Keys + Elems(found)
    requires forall c :: c in parent' ==> parent'[c] == if c in found then current else parent[c]
    ensures var ok := InLevel(nodes, gridSize, s, e, level, visited0, expanded0, dist0, steps, levels, lvl,
                    i + 1, queue[1..] + found, visited', expanded + {current},
                    AtDistance(dist, found, lvl + 1), parent', next + found, currentLevel + Visible(found)); ok
  {
    var dist' := AtDistance(dist, found, lvl + 1);
    assert current in level && dist[current] == lvl;
    assert forall c :: c in queue ==> lvl <= dist[c] by {
      forall c | c in queue ensures lvl <= dist[c] {
        if c !in next {
          assert c in level;
        }
      }
    }
    ExpandHead(nodes, gridSize, s, e, queue, visited, expanded, dist, parent, lvl, found, visited', parent');
    ShiftQueue(level, next, found, i);
    ElemsTakeOne(level, i);
    ElemsAppend(next, found);
    UnionStep(expanded, expanded0, Elems(level[..i]), Elems(level[..i + 1]), {current});
    UnionStep(visited, visited0, Elems(next), Elems(next + found), Elems(found));
    DistinctAppend(next, found);
    DistinctAppend(currentLevel, Visible(found));
    assert forall c :: c in visited0 ==> c !in found;
    assert forall c :: c in next + found ==> c !in visited0;
    assert forall c :: c in visited0 ==> c in dist' && dist'[c] == dist0[c];
    AtDistanceAppend(dist, next, found, lvl + 1);
    VisibleAppend(currentLevel, next, found);
    assert UniqueEndpoints(nodes) && |levels| + 1 == lvl ==> i + 1 == 0;
    assert queue[1..] + found == level[i + 1..] + (next + found);
    assert expanded + {current} == expanded0 + Elems(level[..i + 1]);
    assert visited' == visited0 + Elems(next + found);
    assert Distinct(next + found) && Distinct(currentLevel + Visible(found));
    assert Frontier(nodes, gridSize, s, e, queue[1..] + found, visited', expanded + {queue[0]}, dist', parent');
    assert LevelStart(nodes, gridSize, s, e, level, visited0, expanded0, dist0, steps, levels, lvl);
    assert i + 1 <= |level|;
    assert InLevel(nodes, gridSize, s, e, level, visited0, expanded0, dist0, steps, levels, lvl,
                    i + 1, queue[1..] + found, visited', expanded + {current},
                    dist', parent', next + found, currentLevel + Visible(found));
  }

  /**
   * Closing a level: the discovered cells become the queue, the step joins
   * the record when it is not empty, and fewer cells are left unvisited (or
   * none was discovered and the queue shrank).
   */
  lemma EndLevel(nodes: seq<PathNode>, gridSize: nat, s: PathNode, e: PathNode,
                 level: seq<PathNode>, visited0: set<PathNode>, expanded0: set<PathNode>,
                 dist0: map<PathNode, nat>, steps: seq<seq<PathNode>>, levels: seq<nat>, lvl: nat,
                 queue: seq<PathNode>, visited: set<PathNode>, expanded: set<PathNode>,
                 dist: map<PathNode, nat>, parent: map<PathNode, PathNode>,
                 next: seq<PathNode>, currentLevel: seq<PathNode>,
                 steps': seq<seq<PathNode>>, levels': seq<nat>)
    requires FindStartAndEnd(nodes).startNode == Some(s) && FindStartAndEnd(nodes).endNode == Some(e)
    requires var ok := InLevel(nodes, gridSize, s, e, level, visited0, expanded0, dist0, steps, levels, lvl,
                     |level|, queue, visited, expanded, dist, parent, next, currentLevel); ok
    requires steps' == if currentLevel != [] then steps + [currentLevel] else steps
    requires levels' == if currentLevel != [] then levels + [lvl + 1] else levels
    ensures queue == next
    ensures var ok := Searching(nodes, gridSize, s, e, queue, visited, expanded, dist, parent, steps', levels', lvl + 1); ok
    ensures |visited| <= |Elems(nodes)|
    ensures |visited0| < |visited| || (|visited0| == |visited| && |queue| < |level|)
  {
    assert level[|level|..] == [] && level[..|level|] == level;
    assert queue == next;
    assert UniqueEndpoints(nodes) ==> |levels| == lvl;
    CloseLevel(nodes, gridSize, s, e, steps, levels, visited0, dist0, lvl,
               next, currentLevel, visited, expanded, dist, parent, steps', levels');
    ExpandedBelow(expanded0, level, expanded, dist0, dist, visited0, lvl);
    LevelGrowth(nodes, level, visited0, next, visited);
    assert Searching(nodes, gridSize, s, e, queue, visited, expanded, dist, parent, steps', levels', lvl + 1);
  }

  /** Once the whole level is expanded, every expanded cell lies below the next level. */
  lemma ExpandedBelow(expanded0: set<PathNode>, level: seq<PathNode>, expanded: set<PathNode>,
                      dist0: map<PathNode, nat>, dist: map<PathNode, nat>, visited0: set<PathNode>, lvl: nat)
    requires expanded == expanded0 + Elems(level[..|level|])
    requires expanded0 <= visited0 && dist0.Keys == visited0
    requires forall c :: c in expanded0 ==> c in dist0 && dist0[c] < lvl
    requires forall c :: c in level ==> c in dist0 && dist0[c] == lvl
    requires forall c :: c in visited0 ==> c in dist && dist[c] == dist0[c]
    requires forall c :: c in level ==> c in visited0
    ensures forall c :: c in expanded ==> c in dist && dist[c] < lvl + 1
  {
    assert level[..|level|] == level;
  }

  /** A level either visits new cells or, having found none, leaves a shorter queue. */
  lemma LevelGrowth(nodes: seq<PathNode>, level: seq<PathNode>, visited0: set<PathNode>,
                    next: seq<PathNode>, visited: set<PathNode>)
    requires level != [] && Distinct(next)
    requires visited == visited0 + Elems(next) && forall c :: c in next ==> c !in visited0
    requires forall c :: c in visited ==> c in nodes
    ensures |visited| <= |Elems(nodes)|
    ensures |visited0| < |visited| || (|visited0| == |visited| && |next| < |level|)
  {
    DistinctElems(next);
    if next != [] {
      assert next[0] in Elems(next);
    }
    DisjointUnionSize(visited0, Elems(next));
    SubsetSize(visited, Elems(nodes));
  }

  /** Reaching END: the reconstructed path is a shortest walk and the record is complete. */
  lemma ReachedEnd(nodes: seq<PathNode>, gridSize: nat, s: PathNode, e: PathNode,
                   level: seq<PathNode>, visited0: set<PathNode>, expanded0: set<PathNode>,
                   dist0: map<PathNode, nat>, steps: seq<seq<PathNode>>, levels: seq<nat>, lvl: nat,
                   i: nat, queue: seq<PathNode>, visited: set<PathNode>, expanded: set<PathNode>,
                   dist: map<PathNode, nat>, parent: map<PathNode, PathNode>,
                   next: seq<PathNode>, currentLevel: seq<PathNode>, path: seq<PathNode>)
    requires FindStartAndEnd(nodes).startNode == Some(s) && FindStartAndEnd(nodes).endNode == Some(e)
    requires var ok := InLevel(nodes, gridSize, s, e, level, visited0, expanded0, dist0, steps, levels, lvl,
                     i, queue, visited, expanded, dist, parent, next, currentLevel); ok
    requires i < |level| && queue != [] && queue[0] == level[i] && queue[0] == e
    requires |path| > 0 && path[|path| - 1] == e && path[0] !in parent
    requires forall j :: 0 <= j < |path| - 1 ==> ChildOf(parent, path[j + 1], path[j])
    ensures var r := SearchResult(steps, path);
      FindsPath(nodes, gridSize, r) && FindsShortestPath(nodes, gridSize, r)
      && StepsWellFormed(nodes, r.explorationSteps) && StepsAreLevels(nodes, gridSize, r.explorationSteps, levels)
  {
    assert e in level && e in dist;
    TreePath(nodes, gridSize, s, parent, dist, path, e);
    LevelsResult(nodes, gridSize, s, steps, levels, visited0, dist0, lvl, parent, dist);
  }

  /** An empty queue: every cell reachable from START was visited, END was not, and the record is complete. */
  lemma Exhausted(nodes: seq<PathNode>, gridSize: nat, s: PathNode, e: PathNode,
                  visited: set<PathNode>, expanded: set<PathNode>,
                  dist: map<PathNode, nat>, parent: map<PathNode, PathNode>,
                  steps: seq<seq<PathNode>>, levels: seq<nat>, lvl: nat)
    requires FindStartAndEnd(nodes).startNode == Some(s) && FindStartAndEnd(nodes).endNode == Some(e)
    requires var ok := Searching(nodes, gridSize, s, e, [], visited, expanded, dist, parent, steps, levels, lvl); ok
    ensures var r := SearchResult(steps, []);
      FindsPath(nodes, gridSize, r) && FindsShortestPath(nodes, gridSize, r)
      && StepsWellFormed(nodes, r.explorationSteps) && StepsAreLevels(nodes, gridSize, r.explorationSteps, levels)
  {
    assert visited == expanded;
    ClosedSetExcludesUnreached(nodes, gridSize, visited, s, e);
    LevelsResult(nodes, gridSize, s, steps, levels, visited, dist, lvl, parent, dist);
  }

  /**
   * The inner loop of bfs: expands the cells of one level in queue order,
   * queueing each unvisited neighbour with its parent and collecting the
   * level's step. Returns a non-empty path as soon as END is dequeued.
   */
  method ExpandLevel(nodes: seq<PathNode>, gridSize: nat, startNode: PathNode, endNode: PathNode,
                     queue: seq<PathNode>, visited: set<PathNode>, parentMap: map<PathNode, PathNode>,
                     ghost expanded: set<PathNode>, ghost dist: map<PathNode, nat>,
                     ghost steps: seq<seq<PathNode>>, ghost levels: seq<nat>, ghost lvl: nat)
    returns (path: seq<PathNode>, queue': seq<PathNode>, visited': set<PathNode>,
             parentMap': map<PathNode, PathNode>, currentLevel: seq<PathNode>,
             ghost expanded': set<PathNode>, ghost dist': map<PathNode, nat>, ghost next: seq<PathNode>)
    requires DistinctIds(nodes)
    requires FindStartAndEnd(nodes).startNode == Some(startNode) && FindStartAndEnd(nodes).endNode == Some(endNode)
    requires var ok := Searching(nodes, gridSize, startNode, endNode, queue, visited, expanded, dist, parentMap, steps, levels, lvl); ok
    requires queue != []
    ensures path != [] ==>
      var r := SearchResult(steps, path);
      FindsPath(nodes, gridSize, r) && FindsShortestPath(nodes, gridSize, r)
      && StepsWellFormed(nodes, r.explorationSteps) && StepsAreLevels(nodes, gridSize, r.explorationSteps, levels)
    ensures path == [] ==>
      var ok := InLevel(nodes, gridSize, startNode, endNode, queue, visited, expanded, dist, steps, levels, lvl,
              |queue|, queue', visited', expanded', dist', parentMap', next, currentLevel); ok
  {
    StartLevel(nodes, gridSize, startNode, endNode, queue, visited, expanded, dist, parentMap, steps, levels, lvl);
    var levelSize := |queue|;
    queue', visited', parentMap', currentLevel := queue, visited, parentMap, [];
    expanded', dist', next := expanded, dist, [];
    for i := 0 to levelSize
      invariant var ok := InLevel(nodes, gridSize, startNode, endNode, queue, visited, expanded, dist, steps, levels, lvl,
                        i, queue', visited', expanded', dist', parentMap', next, currentLevel); ok
    {
      LevelHead(nodes, gridSize, startNode, endNode, queue, visited, expanded, dist, steps, levels, lvl,
                i, queue', visited', expanded', dist', parentMap', next, currentLevel);
      ghost var queue1, visited1, parent1, level1 := queue', visited', parentMap', currentLevel;
      var current := queue'[0];
      queue' := queue'[1..];
      IdIdentifiesCell(nodes, current, endNode);
      if current.Id() == endNode.Id() {
        TreeAcyclic(nodes, gridSize, startNode, parentMap', dist');
        path := ReconstructPath(parentMap', current);
        ReachedEnd(nodes, gridSize, startNode, endNode, queue, visited, expanded, dist, steps, levels, lvl,
                   i, queue1, visited', expanded', dist', parentMap', next, currentLevel, path);
        return;
      }

      var neighbors := GetNeighbors(current, nodes, gridSize);
      NeighborsDistinct(current, nodes, gridSize);
      var found;
      found, visited', parentMap' := Discover(current, neighbors, visited', parentMap');
      queue' := queue' + found;
      currentLevel := currentLevel + Visible(found);

      AdvanceLevel(nodes, gridSize, startNode, endNode, queue, visited, expanded, dist, steps, levels, lvl,
                   i, queue1, visited1, expanded', dist', parent1, next, level1, current,
                   found, visited', parentMap');
      dist' := AtDistance(dist', found, lvl + 1);
      expanded' := expanded' + {current};
      next := next + found;
    }
    path := [];
  }

  /** `bfs(nodes, gridSize)`. */
  method Bfs(nodes: seq<PathNode>, gridSize: nat) returns (r: SearchResult, ghost levels: seq<nat>)
    requires DistinctIds(nodes)
    ensures FindsPath(nodes, gridSize, r)
    ensures FindsShortestPath(nodes, gridSize, r)
    ensures StepsWellFormed(nodes, r.explorationSteps)
    ensures StepsAreLevels(nodes, gridSize, r.explorationSteps, levels)
  {
    var ep := FindStartAndEnd(nodes);
    if ep.startNode.None? || ep.endNode.None? {
      return SearchResult([], []), [];
    }
    var startNode, endNode := ep.startNode.value, ep.endNode.value;
    EndpointsOfGrid(nodes);

    var queue := [startNode];
    var visited := {startNode};
    var parentMap: map<PathNode, PathNode> := map[];
    var explorationSteps: seq<seq<PathNode>> := [];
    ghost var expanded: set<PathNode> := {};
    ghost var dist: map<PathNode, nat> := map[startNode := 0];
    ghost var lvl: nat := 0;
    levels := [];
    StartSearch(nodes, gridSize, startNode, endNode);

    while |queue| > 0
      invariant var ok := Searching(nodes, gridSize, startNode, endNode, queue, visited, expanded, dist, parentMap,
                          explorationSteps, levels, lvl); ok
      decreases |Elems(nodes)| - |visited|, |queue|
    {
      ghost var level, visited0, expanded0, dist0, steps0, levels0 :=
        queue, visited, expanded, dist, explorationSteps, levels;
      var path, currentLevel;
      ghost var next;
      path, queue, visited, parentMap, currentLevel, expanded, dist, next :=
        ExpandLevel(nodes, gridSize, startNode, endNode, queue, visited, parentMap,
                    expanded, dist, explorationSteps, levels, lvl);
      if path != [] {
        return SearchResult(explorationSteps, path), levels;
      }

      if |currentLevel| > 0 {
        explorationSteps := explorationSteps + [currentLevel];
        ghost var depth: nat := lvl + 1;
        levels := levels + [depth];
      }
      EndLevel(nodes, gridSize, startNode, endNode, level, visited0, expanded0, dist0, steps0, levels0, lvl,
               queue, visited, expanded, dist, parentMap, next, currentLevel, explorationSteps, levels);
      lvl := lvl + 1;
    }

    Exhausted(nodes, gridSize, startNode, endNode, visited, expanded, dist, parentMap, explorationSteps, levels, lvl);
    r := SearchResult(explorationSteps, []);
  }
}
