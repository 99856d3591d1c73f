/**
 * `dijkstra(nodes, gridSize)`: best-first search on the distance from START,
 * every move costing one. Distances and visited cells are keyed by cell
 * (distinct cells have distinct ids, see `IdIdentifiesCell`).
 */
module Dijkstra {
  import opened Seqs
  import opened Node
  import opened Grid
  import opened PathfindingUtils
  import opened SearchCommon
  import opened BestFirst

  /** `nodes.forEach(node => distances.set(node.id, Infinity))`. */
  method InitDistances(nodes: seq<PathNode>) returns (distances: map<PathNode, Dist>)
    ensures distances.Keys == Elems(nodes)
    ensures forall c :: c in distances ==> distances[c] == Inf
  {
    distances := map[];
    for i := 0 to |nodes|
      invariant distances.Keys == Elems(nodes[..i])
      invariant forall c :: c in distances ==> distances[c] == Inf
    {
      ElemsTakeOne(nodes, i);
      distances := distances[nodes[i] := Inf];
    }
    assert nodes[..|nodes|] == nodes;
  }

  /**
   * The `for (const neighbor of neighbors)` loop: an unvisited neighbour whose
   * distance one more than the current cell's improves on its tentative
   * distance gets that distance, the current cell as parent, and a queue
   * entry at that distance. `depth` and `lvl` are the finite distances and
   * the current cell's distance.
   */
  method RelaxNeighbors(pq: PriorityQueue<PathNode>, current: PathNode, neighbors: seq<PathNode>,
                        visited: set<PathNode>, distances: map<PathNode, Dist>,
                        parentMap: map<PathNode, PathNode>, ghost depth: map<PathNode, nat>, ghost lvl: nat)
    returns (distances': map<PathNode, Dist>, parentMap': map<PathNode, PathNode>, ghost depth': map<PathNode, nat>)
    requires pq.Valid()
    requires Distinct(neighbors) && forall n :: n in neighbors ==> n in distances
    requires Tracks(distances, depth) && current in visited && current in depth && depth[current] == lvl
    modifies pq
    ensures pq.Valid()
    ensures distances'.Keys == distances.Keys && Tracks(distances', depth')
    ensures RelaxedBy(NoEstimate, neighbors, visited, current, lvl, depth, parentMap, old(pq.items),
                      depth', parentMap', pq.items)
  {
    distances', parentMap', depth' := distances, parentMap, depth;
    ghost var items0 := pq.items;
    RelaxNone(NoEstimate, neighbors, visited, current, lvl, depth, parentMap, items0);
    for i := 0 to |neighbors|
      invariant pq.Valid()
      invariant distances'.Keys == distances.Keys && Tracks(distances', depth')
      invariant current in depth' && depth'[current] == lvl
      invariant var ok := RelaxedBy(NoEstimate, neighbors[..i], visited, current, lvl, depth, parentMap, items0,
                                    depth', parentMap', pq.items); ok
    {
      var neighbor := neighbors[i];
      var newDistance := Add(distances'[current], 1);
      TracksLess(distances', depth', current, neighbor, lvl);
      if neighbor !in visited && Less(newDistance, distances'[neighbor]) {
        RelaxImprove(NoEstimate, neighbors, i, visited, current, lvl, depth, parentMap, items0,
                     depth', parentMap', pq.items, newDistance.n);
        TracksUpdate(distances', depth', neighbor, lvl + 1);
        distances' := distances'[neighbor := newDistance];
        parentMap' := parentMap'[neighbor := current];
        pq.Enqueue(neighbor, newDistance.n);
        depth' := depth'[neighbor := lvl + 1];
      } else {
        RelaxKeep(NoEstimate, neighbors, i, visited, current, lvl, depth, parentMap, items0,
                  depth', parentMap', pq.items);
      }
    }
    assert neighbors[..|neighbors|] == neighbors;
  }

  /**
   * The invariant of the `while (!pq.isEmpty())` loop: the best-first search
   * state with no estimate, a sorted queue, and `distances` holding a
   * distance for every cell, finite exactly for the cells in `depth`.
   */
  ghost predicate LoopState(nodes: seq<PathNode>, gridSize: nat, s: PathNode, e: PathNode,
                            items: seq<Entry<PathNode>>, closed: set<PathNode>, depth: map<PathNode, nat>,
                            parent: map<PathNode, PathNode>, steps: seq<seq<PathNode>>, order: seq<PathNode>,
                            last: nat, distances: map<PathNode, Dist>) {
    SortedByPriority(items) && |closed| <= |Elems(nodes)|
    && distances.Keys == Elems(nodes) && Tracks(distances, depth)
    && SearchState(nodes, gridSize, s, e, NoEstimate, items, closed, depth, parent, steps, order, last)
  }

  /** Gathers the parts of `LoopState` at the end of an iteration. */
  lemma KeepLoopState(nodes: seq<PathNode>, gridSize: nat, s: PathNode, e: PathNode,
                      items: seq<Entry<PathNode>>, closed: set<PathNode>, depth: map<PathNode, nat>,
                      parent: map<PathNode, PathNode>, steps: seq<seq<PathNode>>, order: seq<PathNode>,
                      last: nat, distances: map<PathNode, Dist>)
    requires SortedByPriority(items) && |closed| <= |Elems(nodes)|
    requires distances.Keys == Elems(nodes) && Tracks(distances, depth)
    requires var ok := SearchState(nodes, gridSize, s, e, NoEstimate, items, closed, depth, parent, steps, order, last); ok
    ensures var ok := LoopState(nodes, gridSize, s, e, items, closed, depth, parent, steps, order, last, distances); ok
  {
  }

  /** A stale entry for an already finalized cell is dropped. */
  lemma Skip(nodes: seq<PathNode>, gridSize: nat, s: PathNode, e: PathNode,
             items: seq<Entry<PathNode>>, closed: set<PathNode>, depth: map<PathNode, nat>,
             parent: map<PathNode, PathNode>, steps: seq<seq<PathNode>>, order: seq<PathNode>,
             last: nat, distances: map<PathNode, Dist>, rest: seq<Entry<PathNode>>)
    requires var ok := LoopState(nodes, gridSize, s, e, items, closed, depth, parent, steps, order, last,
                                 distances); ok
    requires items != [] && items[0].node in closed && rest == items[1..] && SortedByPriority(rest)
    ensures var ok := LoopState(nodes, gridSize, s, e, rest, closed, depth, parent, steps, order, last,
                                distances); ok
  {
    assert LoopState(nodes, gridSize, s, e, items, closed, depth, parent, steps, order, last, distances);
    SkipStale(nodes, gridSize, s, e, NoEstimate, items, closed, depth, parent, steps, order, last, rest);
    KeepLoopState(nodes, gridSize, s, e, rest, closed, depth, parent, steps, order, last, distances);
  }

  /**
   * One iteration that finalizes `current`: from the facts the loop body
   * establishes (the dequeued front entry, the relaxed neighbours, the step
   * recorded) to the invariant on the new state.
   */
  lemma Visit(nodes: seq<PathNode>, gridSize: nat, s: PathNode, e: PathNode,
              items: seq<Entry<PathNode>>, closed: set<PathNode>, depth: map<PathNode, nat>,
              parent: map<PathNode, PathNode>, steps: seq<seq<PathNode>>, order: seq<PathNode>,
              last: nat, distances: map<PathNode, Dist>,
              current: PathNode, lvl: nat, rest: seq<Entry<PathNode>>, nbrs: seq<PathNode>, closed': set<PathNode>,
              depth': map<PathNode, nat>, parent': map<PathNode, PathNode>, items': seq<Entry<PathNode>>,
              distances': map<PathNode, Dist>, currentStep: seq<PathNode>, steps': seq<seq<PathNode>>)
    requires DistinctIds(nodes)
    requires var ok := LoopState(nodes, gridSize, s, e, items, closed, depth, parent, steps, order, last, distances); ok
    requires items != [] && items[0].node == current && rest == items[1..]
    requires current !in closed && current != e && closed' == closed + {current}
    requires current in depth && depth[current] == lvl
    requires nbrs == Neighbors(current, nodes, gridSize)
    requires SortedByPriority(items') && distances'.Keys == distances.Keys && Tracks(distances', depth')
    requires RelaxedBy(NoEstimate, nbrs, closed', current, lvl, depth, parent, rest, depth', parent', items')
    requires currentStep == if IsEndpoint(current) then [] else [current]
    requires steps' == if |currentStep| > 0 then steps + [currentStep] else steps
    ensures var ok := LoopState(nodes, gridSize, s, e, items', closed', depth', parent', steps', order + [current],
                                items[0].priority, distances'); ok
    ensures |closed| < |closed'|
  {
    assert LoopState(nodes, gridSize, s, e, items, closed, depth, parent, steps, order, last, distances);
    Settle(nodes, gridSize, s, e, NoEstimate, items, closed, depth, parent, steps, order, last);
    assert steps' == if IsEndpoint(current) then steps else steps + [[current]];
    Advance(nodes, gridSize, s, e, NoEstimate, items, closed, depth, parent, steps, order, last,
            current, lvl, rest, nbrs, closed', depth', parent', items', steps');
    KeepLoopState(nodes, gridSize, s, e, items', closed', depth', parent', steps', order + [current],
                  items[0].priority, distances');
  }

  /**
   * `dijkstra(nodes, gridSize)`. Besides the result, `order` is the sequence
   * of finalized cells and `settled` their distances; `Outcome` with no
   * estimate says the path is a shortest one, each settled distance is the
   * cell's distance from START, and they never decrease in finalization order.
   */
  method Dijkstra(nodes: seq<PathNode>, gridSize: nat)
    returns (r: SearchResult, ghost order: seq<PathNode>, ghost settled: seq<nat>)
    requires DistinctIds(nodes)
    ensures FindsPath(nodes, gridSize, r) && FindsShortestPath(nodes, gridSize, r)
    ensures StepsWellFormed(nodes, r.explorationSteps) && Singletons(r.explorationSteps)
    ensures Outcome(nodes, gridSize, NoEstimate, r, order, settled)
  {
    var ep := FindStartAndEnd(nodes);
    if ep.startNode.None? || ep.endNode.None? {
      NoEndpoints(nodes, gridSize, NoEstimate);
      return SearchResult([], []), [], [];
    }
    var startNode, endNode := ep.startNode.value, ep.endNode.value;
    EndpointsOfGrid(nodes);

    var parentMap: map<PathNode, PathNode> := map[];
    var visited: set<PathNode> := {};
    var explorationSteps: seq<seq<PathNode>> := [];
    var pq := new PriorityQueue<PathNode>();
    var distances := InitDistances(nodes);
    distances := distances[startNode := Fin(0)];
    pq.Enqueue(startNode, 0);

    ghost var depth: map<PathNode, nat> := map[startNode := 0];
    ghost var last: nat := 0;
    order := [];
    StartSearch(nodes, gridSize, startNode, endNode, NoEstimate, pq.items);
    KeepLoopState(nodes, gridSize, startNode, endNode, pq.items, visited, depth, parentMap,
                  explorationSteps, order, last, distances);

    while !pq.IsEmpty()
      invariant var ok := LoopState(nodes, gridSize, startNode, endNode, pq.items, visited, depth,
                                    parentMap, explorationSteps, order, last, distances); ok
      decreases |Elems(nodes)| - |visited|, |pq.items|
    {
      ghost var items := pq.items;
      var next := pq.Dequeue();
      var current := next.value;

      if current in visited {
        Skip(nodes, gridSize, startNode, endNode, items, visited, depth, parentMap, explorationSteps, order, last,
             distances, pq.items);
        continue;
      }
      Settle(nodes, gridSize, startNode, endNode, NoEstimate, items, visited, depth, parentMap,
             explorationSteps, order, last);
      ghost var closed := visited;
      ghost var lvl := depth[current];
      visited := visited + {current};

      assert current in nodes;
      IdIdentifiesCell(nodes, current, endNode);
      if current.Id() == endNode.Id() {
        TreeAcyclic(nodes, gridSize, startNode, parentMap, depth);
        var path := ReconstructPath(parentMap, current);
        settled := Found(nodes, gridSize, startNode, endNode, NoEstimate, items, closed, depth, parentMap,
                         explorationSteps, order, last, path);
        return SearchResult(explorationSteps, path), order, settled;
      }

      // `currentStep` holds `current` unless it is START or END
      var currentStep := if current.value != NodeValue.Start && current.value != NodeValue.End then [current] else [];

      var neighbors := GetNeighbors(current, nodes, gridSize);
      NeighborsDistinct(current, nodes, gridSize);
      ghost var rest, parent0, distances0 := pq.items, parentMap, distances;
      ghost var depth';
      distances, parentMap, depth' := RelaxNeighbors(pq, current, neighbors, visited, distances, parentMap, depth, lvl);

      ghost var steps0 := explorationSteps;
      explorationSteps := if |currentStep| > 0 then explorationSteps + [currentStep] else explorationSteps;
      Visit(nodes, gridSize, startNode, endNode, items, closed, depth, parent0, steps0, order, last, distances0,
            current, lvl, rest, neighbors, visited, depth', parentMap, pq.items, distances, currentStep,
            explorationSteps);
      depth := depth';
      order := order + [current];
      last := items[0].priority;
    }
    settled := NotFound(nodes, gridSize, startNode, endNode, NoEstimate, visited, depth, parentMap,
                        explorationSteps, order, last);
    return SearchResult(explorationSteps, []), order, settled;
  }
}
