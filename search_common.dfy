/**
 * What the four searches share: the result shape, the promises every search
 * makes about its path and its exploration steps, the parent-map tree the
 * searches build, and the neighbour-discovery loop of the two uninformed
 * searches.
 */
module SearchCommon {
  import opened Seqs
  import opened Node
  import opened Grid
  import opened PathfindingUtils

  /** `{ explorationSteps, path }`. */
  datatype SearchResult = SearchResult(explorationSteps: seq<seq<PathNode>>, path: seq<PathNode>)

  /** At most one START cell and at most one END cell. */
  predicate UniqueEndpoints(nodes: seq<PathNode>) {
    (forall i, j ::
       0 <= i < |nodes| && 0 <= j < |nodes| && nodes[i].value == NodeValue.Start && nodes[j].value == NodeValue.Start
       ==> i == j)
    && (forall i, j ::
          0 <= i < |nodes| && 0 <= j < |nodes| && nodes[i].value == NodeValue.End && nodes[j].value == NodeValue.End
          ==> i == j)
  }

  /** With unique endpoints, the only START and END cells are the ones the search found. */
  lemma UniqueEndpointCell(nodes: seq<PathNode>, c: PathNode)
    requires UniqueEndpoints(nodes) && c in nodes && IsEndpoint(c)
    requires FindStartAndEnd(nodes).startNode.Some? && FindStartAndEnd(nodes).endNode.Some?
    ensures c == FindStartAndEnd(nodes).startNode.value || c == FindStartAndEnd(nodes).endNode.value
  {
    var ep := FindStartAndEnd(nodes);
    var k :| 0 <= k < |nodes| && nodes[k] == c;
    if c.value == NodeValue.Start {
      var i :| 0 <= i < |nodes| && nodes[i] == ep.startNode.value && ep.startNode.value.value == NodeValue.Start
        && forall j :: 0 <= j < i ==> nodes[j].value != NodeValue.Start;
      assert i == k;
    } else {
      var i :| 0 <= i < |nodes| && nodes[i] == ep.endNode.value && ep.endNode.value.value == NodeValue.End
        && forall j :: 0 <= j < i ==> nodes[j].value != NodeValue.End;
      assert i == k;
    }
  }

  /** The endpoints a search uses are distinct cells of the grid. */
  lemma EndpointsOfGrid(nodes: seq<PathNode>)
    requires FindStartAndEnd(nodes).startNode.Some? && FindStartAndEnd(nodes).endNode.Some?
    ensures var ep := FindStartAndEnd(nodes);
      && ep.startNode.value in nodes && ep.endNode.value in nodes
      && ep.startNode.value.value == NodeValue.Start && ep.endNode.value.value == NodeValue.End
      && ep.startNode.value != ep.endNode.value
  {
  }

  /**
   * What every search promises about its path: with an endpoint missing the
   * result is empty; otherwise the path is empty exactly when END cannot be
   * reached from START, and a non-empty path is a walk from START to END.
   */
  ghost predicate FindsPath(nodes: seq<PathNode>, gridSize: nat, r: SearchResult) {
    var ep := FindStartAndEnd(nodes);
    if ep.startNode.None? || ep.endNode.None? then r == SearchResult([], [])
    else
      var s := ep.startNode.value;
      var e := ep.endNode.value;
      (r.path == [] <==> !Reachable(nodes, gridSize, s, e))
      && (r.path != [] ==> WalkBetween(nodes, gridSize, r.path, s, e))
  }

  /** A non-empty path makes no more moves than any other walk from START to END. */
  ghost predicate FindsShortestPath(nodes: seq<PathNode>, gridSize: nat, r: SearchResult) {
    var ep := FindStartAndEnd(nodes);
    ep.startNode.Some? && ep.endNode.Some? && r.path != [] ==>
      IsShortestWalk(nodes, gridSize, r.path, ep.startNode.value, ep.endNode.value)
  }

  /**
   * Two searches that both find a path when one exists, and a shortest one,
   * agree on whether there is a path and on how many cells it holds.
   */
  lemma ShortestResultsAgree(nodes: seq<PathNode>, gridSize: nat, r1: SearchResult, r2: SearchResult)
    requires FindsPath(nodes, gridSize, r1) && FindsShortestPath(nodes, gridSize, r1)
    requires FindsPath(nodes, gridSize, r2) && FindsShortestPath(nodes, gridSize, r2)
    ensures (r1.path == []) == (r2.path == [])
    ensures |r1.path| == |r2.path|
  {
  }

  /**
   * Exploration steps are non-empty, hold grid cells that are neither START
   * nor END, and no cell occurs twice in one step or in two steps.
   */
  predicate StepsWellFormed(nodes: seq<PathNode>, steps: seq<seq<PathNode>>) {
    (forall k :: 0 <= k < |steps| ==> steps[k] != [] && Distinct(steps[k]))
    && (forall k, c :: 0 <= k < |steps| && c in steps[k] ==> c in nodes && !IsEndpoint(c))
    && (forall j, k, c :: 0 <= j < k < |steps| && c in steps[j] ==> c !in steps[k])
  }

  /** Hence the flattened steps, which the animation walks through, hold each cell once. */
  lemma {:induction false} StepsNeverRepeat(nodes: seq<PathNode>, steps: seq<seq<PathNode>>)
    requires StepsWellFormed(nodes, steps)
    ensures Distinct(Concat(steps))
  {
    if steps != [] {
      var init := steps[..|steps| - 1];
      var last := steps[|steps| - 1];
      assert StepsWellFormed(nodes, init) by {
        forall k, c | 0 <= k < |init| && c in init[k] ensures c in nodes && !IsEndpoint(c) {
          assert init[k] == steps[k];
        }
        forall j, k, c | 0 <= j < k < |init| && c in init[j] ensures c !in init[k] {
          assert init[j] == steps[j] && init[k] == steps[k];
        }
      }
      StepsNeverRepeat(nodes, init);
      forall c | c in Concat(init) ensures c !in last {
        InConcat(init, c);
        var k :| 0 <= k < |init| && c in init[k];
        assert c in steps[k];
      }
      DistinctAppend(Concat(init), last);
      assert steps == init + [last];
      ConcatAppend(init, last);
    }
  }

  /** Steps that each hold exactly one cell. */
  predicate Singletons(steps: seq<seq<PathNode>>) {
    forall k :: 0 <= k < |steps| ==> |steps[k]| == 1
  }

  // ---------------------------------------------------------------------------
  // The parent map as a tree rooted at START
  // ---------------------------------------------------------------------------

  /**
   * parent and depth describe a tree of legal moves rooted at s: s has
   * depth 0 and no parent, every other cell with a depth has a parent, and
   * each parent is one move away and one level shallower.
   */
  ghost predicate ParentTree(nodes: seq<PathNode>, gridSize: nat, s: PathNode,
                             parent: map<PathNode, PathNode>, depth: map<PathNode, nat>) {
    s in depth && depth[s] == 0 && s !in parent
    && (forall v :: v in depth && v != s ==> v in parent)
    && (forall v {:trigger parent[v]} :: v in parent ==>
          v in depth && parent[v] in depth && depth[v] == depth[parent[v]] + 1 && Step(nodes, gridSize, parent[v], v))
  }

  /** Depth decreases toward the root, so the parent map has no cycle. */
  lemma TreeAcyclic(nodes: seq<PathNode>, gridSize: nat, s: PathNode,
                    parent: map<PathNode, PathNode>, depth: map<PathNode, nat>)
    requires ParentTree(nodes, gridSize, s, parent, depth)
    ensures Acyclic(parent)
  {
    assert RankedBy(parent, depth);
  }

  /** Every cell of the tree is reached from s by a walk of depth moves. */
  lemma {:induction false} TreeWalk(nodes: seq<PathNode>, gridSize: nat, s: PathNode,
                                    parent: map<PathNode, PathNode>, depth: map<PathNode, nat>, v: PathNode)
    requires ParentTree(nodes, gridSize, s, parent, depth) && v in depth
    ensures exists w :: WalkBetween(nodes, gridSize, w, s, v) && |w| == depth[v] + 1
    decreases depth[v]
  {
    if v == s {
      assert WalkBetween(nodes, gridSize, [s], s, s);
    } else {
      var p := parent[v];
      TreeWalk(nodes, gridSize, s, parent, depth, p);
      var w :| WalkBetween(nodes, gridSize, w, s, p) && |w| == depth[p] + 1;
      WalkExtend(nodes, gridSize, w, s, v);
      assert |w + [v]| == depth[v] + 1;
    }
  }

  /** The path read back from the tree is a walk from s of exactly depth moves. */
  lemma {:induction false} TreePath(nodes: seq<PathNode>, gridSize: nat, s: PathNode,
                                    parent: map<PathNode, PathNode>, depth: map<PathNode, nat>,
                                    path: seq<PathNode>, e: PathNode)
    requires ParentTree(nodes, gridSize, s, parent, depth) && e in depth
    requires |path| > 0 && path[|path| - 1] == e && path[0] !in parent
    requires forall i :: 0 <= i < |path| - 1 ==> ChildOf(parent, path[i + 1], path[i])
    ensures WalkBetween(nodes, gridSize, path, s, e) && |path| == depth[e] + 1
    decreases |path|
  {
    if |path| == 1 {
      assert e == s;
    } else {
      var init := path[..|path| - 1];
      var p := path[|path| - 2];
      assert ChildOf(parent, path[|path| - 1], path[|path| - 2]);
      forall i | 0 <= i < |init| - 1 ensures ChildOf(parent, init[i + 1], init[i]) {
        assert init[i + 1] == path[i + 1] && init[i] == path[i];
      }
      TreePath(nodes, gridSize, s, parent, depth, init, p);
      WalkExtend(nodes, gridSize, init, s, e);
      assert init + [e] == path;
    }
  }

  /** Every cell in the tree is reachable from its root. */
  lemma TreeReaches(nodes: seq<PathNode>, gridSize: nat, s: PathNode,
                    parent: map<PathNode, PathNode>, depth: map<PathNode, nat>, cells: seq<PathNode>)
    requires ParentTree(nodes, gridSize, s, parent, depth)
    requires forall c :: c in cells ==> c in depth
    ensures forall c :: c in cells ==> Reachable(nodes, gridSize, s, c)
  {
    forall c | c in cells ensures Reachable(nodes, gridSize, s, c) {
      TreeWalk(nodes, gridSize, s, parent, depth, c);
    }
  }

  /** Appending a cell other than START and END to a sequence appends it to its visible part. */
  lemma VisibleSnoc(cells: seq<PathNode>, c: PathNode)
    ensures Visible(cells + [c]) == Visible(cells) + (if IsEndpoint(c) then [] else [c])
  {
    assert (cells + [c])[..|cells|] == cells;
  }

  /** Processing a cell that is not END: its singleton step joins the record, in processing order. */
  lemma RecordPop(nodes: seq<PathNode>, steps: seq<seq<PathNode>>, order: seq<PathNode>,
                  expanded: set<PathNode>, current: PathNode, steps': seq<seq<PathNode>>)
    requires StepsWellFormed(nodes, steps) && Singletons(steps)
    requires forall k, c :: 0 <= k < |steps| && c in steps[k] ==> c in expanded
    requires Concat(steps) == Visible(order)
    requires current in nodes && current !in expanded
    requires steps' == if IsEndpoint(current) then steps else steps + [[current]]
    ensures StepsWellFormed(nodes, steps') && Singletons(steps')
    ensures forall k, c :: 0 <= k < |steps'| && c in steps'[k] ==> c in expanded + {current}
    ensures Concat(steps') == Visible(order + [current])
  {
    VisibleSnoc(order, current);
    if !IsEndpoint(current) {
      AppendStep(nodes, steps, [current], expanded);
      ConcatAppend(steps, [current]);
      forall k, c | 0 <= k < |steps'| && c in steps'[k] ensures c in expanded + {current} {
        if k < |steps| {
          assert steps'[k] == steps[k];
        }
      }
    }
  }

  /** The processing order gains a cell that had not been processed before. */
  lemma ExtendOrder(order: seq<PathNode>, expanded: set<PathNode>, current: PathNode)
    requires Distinct(order) && Elems(order) == expanded && current !in expanded
    ensures Distinct(order + [current]) && Elems(order + [current]) == expanded + {current}
  {
    DistinctAppend(order, [current]);
    ElemsAppend(order, [current]);
  }

  // ---------------------------------------------------------------------------
  // The neighbour loop of bfs and dfs
  // ---------------------------------------------------------------------------

  /** The neighbours not yet visited, in their original order. */
  function Unvisited(neighbors: seq<PathNode>, visited: set<PathNode>): seq<PathNode> {
    if neighbors == [] then []
    else
      var last := neighbors[|neighbors| - 1];
      Unvisited(neighbors[..|neighbors| - 1], visited) + (if last in visited then [] else [last])
  }

  lemma {:induction false} UnvisitedFacts(neighbors: seq<PathNode>, visited: set<PathNode>)
    ensures forall c :: c in Unvisited(neighbors, visited) <==> c in neighbors && c !in visited
    ensures Distinct(neighbors) ==> Distinct(Unvisited(neighbors, visited))
  {
    if neighbors != [] {
      var init := neighbors[..|neighbors| - 1];
      var last := neighbors[|neighbors| - 1];
      UnvisitedFacts(init, visited);
      assert neighbors == init + [last];
      if Distinct(neighbors) {
        assert Distinct(init);
        assert last !in init;
        var tail := if last in visited then [] else [last];
        DistinctAppend(Unvisited(init, visited), tail);
      }
    }
  }

  /** Filtering keeps the up, down, left, right order of the neighbours. */
  lemma {:induction false} UnvisitedOrder(node: PathNode, neighbors: seq<PathNode>, visited: set<PathNode>)
    requires DirectionsIncrease(node, neighbors)
    ensures DirectionsIncrease(node, Unvisited(neighbors, visited))
  {
    if neighbors != [] {
      var init := neighbors[..|neighbors| - 1];
      var last := neighbors[|neighbors| - 1];
      assert DirectionsIncrease(node, init) by {
        forall i, j | 0 <= i < j < |init| ensures DirectionOf(node, init[i]) < DirectionOf(node, init[j]) {
          assert init[i] == neighbors[i] && init[j] == neighbors[j];
        }
      }
      UnvisitedOrder(node, init, visited);
      UnvisitedFacts(init, visited);
      forall c | c in Unvisited(init, visited) ensures DirectionOf(node, c) < DirectionOf(node, last) {
        var i :| 0 <= i < |init| && init[i] == c;
        assert neighbors[i] == c;
      }
      AppendIncreasing(node, Unvisited(init, visited), if last in visited then [] else [last], DirectionOf(node, last));
    }
  }

  /** Filtering one more neighbour: it is kept exactly when not visited, and it was not kept before. */
  lemma UnvisitedStep(neighbors: seq<PathNode>, visited: set<PathNode>, i: nat)
    requires Distinct(neighbors) && i < |neighbors|
    ensures Unvisited(neighbors[..i + 1], visited)
            == Unvisited(neighbors[..i], visited) + (if neighbors[i] in visited then [] else [neighbors[i]])
    ensures neighbors[i] !in Unvisited(neighbors[..i], visited)
  {
    assert neighbors[..i + 1][..i] == neighbors[..i];
    UnvisitedFacts(neighbors[..i], visited);
  }

  /**
   * The `for (const neighbor of neighbors)` loop of bfs and dfs: each
   * unvisited neighbour is marked visited, given current as its parent and
   * handed back, in order, to be queued or stacked.
   */
  method Discover(current: PathNode, neighbors: seq<PathNode>, visited: set<PathNode>, parentMap: map<PathNode, PathNode>)
    returns (found: seq<PathNode>, visited': set<PathNode>, parentMap': map<PathNode, PathNode>)
    requires Distinct(neighbors)
    ensures found == Unvisited(neighbors, visited)
    ensures forall c :: c in found <==> c in neighbors && c !in visited
    ensures Distinct(found)
    ensures visited' == visited + Elems(found)
    ensures parentMap'.Keys == parentMap.Keys + Elems(found)
    ensures forall c :: c in parentMap' ==> parentMap'[c] == if c in found then current else parentMap[c]
  {
    found, visited', parentMap' := [], visited, parentMap;
    for i := 0 to |neighbors|
      invariant found == Unvisited(neighbors[..i], visited)
      invariant visited' == visited + Elems(found)
      invariant parentMap'.Keys == parentMap.Keys + Elems(found)
      invariant forall c :: c in parentMap' ==> parentMap'[c] == if c in found then current else parentMap[c]
    {
      var neighbor := neighbors[i];
      UnvisitedStep(neighbors, visited, i);
      if neighbor !in visited' {
        ElemsAppend(found, [neighbor]);
        visited' := visited' + {neighbor};
        parentMap' := parentMap'[neighbor := current];
        found := found + [neighbor];
      }
    }
    assert neighbors[..|neighbors|] == neighbors;
    UnvisitedFacts(neighbors, visited);
  }

  /** The cells of a sequence that are neither START nor END, in order. */
  function Visible(cells: seq<PathNode>): (r: seq<PathNode>)
    ensures forall c :: c in r <==> c in cells && !IsEndpoint(c)
    ensures Distinct(cells) ==> Distinct(r)
  {
    if cells == [] then []
    else
      var last := cells[|cells| - 1];
      var init := cells[..|cells| - 1];
      assert cells == init + [last];
      var r := Visible(init) + (if IsEndpoint(last) then [] else [last]);
      if Distinct(cells) then
        assert Distinct(init) && last !in init;
        DistinctAppend(Visible(init), if IsEndpoint(last) then [] else [last]);
        r
      else r
  }

  // ---------------------------------------------------------------------------
  // What the uninformed searches keep about their work list
  // ---------------------------------------------------------------------------

  /**
   * The cells waiting in the queue or on the stack are distinct, visited and
   * not yet expanded, and with the expanded cells they make up the visited
   * set; every visited cell lies on the grid; START is visited and END has not
   * been expanded.
   */
  ghost predicate Pending(nodes: seq<PathNode>, s: PathNode, e: PathNode,
                          pending: seq<PathNode>, visited: set<PathNode>, expanded: set<PathNode>) {
    Distinct(pending) && (forall c :: c in pending ==> c !in expanded)
    && visited == expanded + Elems(pending)
    && (forall c :: c in visited ==> c in nodes)
    && s in visited && e !in expanded
  }

  /** Every legal move out of an expanded cell leads to a visited one. */
  ghost predicate Closed(nodes: seq<PathNode>, gridSize: nat, expanded: set<PathNode>, visited: set<PathNode>) {
    forall a, b :: a in expanded && Step(nodes, gridSize, a, b) ==> b in visited
  }

  /** dist with every cell of cells recorded at distance d. */
  function AtDistance(dist: map<PathNode, nat>, cells: seq<PathNode>, d: nat): (r: map<PathNode, nat>)
    ensures r.Keys == dist.Keys + Elems(cells)
    ensures forall c :: c in r ==> r[c] == if c in cells then d else dist[c]
  {
    dist + map c | c in cells :: d
  }

  /** Hanging new cells one level below an existing cell keeps the parent tree. */
  lemma ExtendTree(nodes: seq<PathNode>, gridSize: nat, s: PathNode,
                   parent: map<PathNode, PathNode>, dist: map<PathNode, nat>,
                   current: PathNode, lvl: nat, found: seq<PathNode>, parent': map<PathNode, PathNode>)
    requires ParentTree(nodes, gridSize, s, parent, dist)
    requires current in dist && dist[current] == lvl
    requires forall c :: c in found ==> c !in dist && Step(nodes, gridSize, current, c)
    requires parent'.Keys == parent.Keys + Elems(found)
    requires forall c :: c in parent' ==> parent'[c] == if c in found then current else parent[c]
    ensures ParentTree(nodes, gridSize, s, parent', AtDistance(dist, found, lvl + 1))
  {
    var dist' := AtDistance(dist, found, lvl + 1);
    forall v | v in parent'
      ensures v in dist' && parent'[v] in dist' && dist'[v] == dist'[parent'[v]] + 1
      ensures Step(nodes, gridSize, parent'[v], v)
    {
      if v !in found {
        assert v in parent && parent'[v] == parent[v];
      }
    }
    forall v | v in dist' && v != s ensures v in parent' {
      if v !in found {
        assert v in dist;
      }
    }
  }

  /** Every move out of a newly expanded cell leading to a visited cell keeps the closure. */
  lemma ExtendClosure(nodes: seq<PathNode>, gridSize: nat, expanded: set<PathNode>, visited: set<PathNode>,
                      current: PathNode, visited': set<PathNode>)
    requires Closed(nodes, gridSize, expanded, visited)
    requires visited <= visited'
    requires forall b :: Step(nodes, gridSize, current, b) ==> b in visited'
    ensures Closed(nodes, gridSize, expanded + {current}, visited')
  {
  }

  /** A non-empty step of fresh, listable cells extends a well-formed record. */
  lemma AppendStep(nodes: seq<PathNode>, steps: seq<seq<PathNode>>, step: seq<PathNode>, seen: set<PathNode>)
    requires StepsWellFormed(nodes, steps)
    requires forall k, c :: 0 <= k < |steps| && c in steps[k] ==> c in seen
    requires step != [] && Distinct(step)
    requires forall c :: c in step ==> c in nodes && !IsEndpoint(c) && c !in seen
    ensures StepsWellFormed(nodes, steps + [step])
  {
    var steps' := steps + [step];
    forall j, k, c | 0 <= j < k < |steps'| && c in steps'[j] ensures c !in steps'[k] {
      if k == |steps| {
        assert c in seen;
      } else {
        assert steps'[j] == steps[j] && steps'[k] == steps[k];
      }
    }
  }

  // ---------------------------------------------------------------------------
  // Lower bounds from a closed explored region
  // ---------------------------------------------------------------------------

  /**
   * If every visited but unexpanded cell needs at least m moves, and every
   * legal move out of an expanded cell lands on a visited cell, then every
   * cell not yet visited needs at least m + 1 moves.
   */
  lemma FrontierBound(nodes: seq<PathNode>, gridSize: nat, s: PathNode,
                      visited: set<PathNode>, expanded: set<PathNode>, m: nat, c: PathNode)
    requires s in visited && c !in visited
    requires forall a, b :: a in expanded && Step(nodes, gridSize, a, b) ==> b in visited
    requires forall v :: v in visited && v !in expanded ==> NoShorterWalk(nodes, gridSize, s, v, m)
    ensures NoShorterWalk(nodes, gridSize, s, c, m + 1)
  {
    forall w | WalkBetween(nodes, gridSize, w, s, c) ensures m + 1 < |w| {
      var j := Crossing(w, visited);
      assert Step(nodes, gridSize, w[j - 1], w[j]);
      WalkTake(nodes, gridSize, w, j);
      assert WalkBetween(nodes, gridSize, w[..j], s, w[j - 1]);
    }
  }
}
