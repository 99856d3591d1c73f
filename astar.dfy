/**
 * `astar(nodes, gridSize)`: best-first search on f = g + h, where g is the
 * number of moves from START and h the Manhattan distance to END. Scores
 * and visited cells are keyed by cell (distinct cells have distinct ids,
 * see `IdIdentifiesCell`).
 */
module AStar {
  import opened Seqs
  import opened Node
  import opened Grid
  import opened PathfindingUtils
  import opened SearchCommon
  import opened BestFirst

  /**
   * f-scores in step with the finite g-scores `depth`: the g-score plus the
   * Manhattan distance to `goal` where the g-score is finite, Infinity
   * elsewhere.
   */
  ghost predicate Estimates(f: map<PathNode, Dist>, depth: map<PathNode, nat>, goal: PathNode) {
    (forall c :: c in depth ==> c in f)
    && forall c :: c in f ==> f[c] == if c in depth then Fin(Priority(ManhattanTo(goal), depth[c], c)) else Inf
  }

  /** Setting a cell's g-score and f-score together keeps the f-scores in step. */
  lemma EstimatesUpdate(f: map<PathNode, Dist>, depth: map<PathNode, nat>, goal: PathNode, c: PathNode, d: nat)
    requires Estimates(f, depth, goal) && c in f
    ensures Estimates(f[c := Add(Fin(d), ManhattanDistance(c, goal))], depth[c := d], goal)
    ensures f[c := Add(Fin(d), ManhattanDistance(c, goal))].Keys == f.Keys
  {
  }

  /** The `nodes.forEach` that sets every g-score and f-score to Infinity. */
  method InitScores(nodes: seq<PathNode>) returns (gScore: map<PathNode, Dist>, fScore: map<PathNode, Dist>)
    ensures gScore.Keys == Elems(nodes) && fScore.Keys == Elems(nodes)
    ensures forall c :: c in gScore ==> gScore[c] == Inf
    ensures forall c :: c in fScore ==> fScore[c] == Inf
  {
    gScore, fScore := map[], map[];
    for i := 0 to |nodes|
      invariant gScore.Keys == Elems(nodes[..i]) && fScore.Keys == Elems(nodes[..i])
      invariant forall c :: c in gScore ==> gScore[c] == Inf
      invariant forall c :: c in fScore ==> fScore[c] == Inf
    {
      ElemsTakeOne(nodes, i);
      gScore := gScore[nodes[i] := Inf];
      fScore := fScore[nodes[i] := Inf];
    }
    assert nodes[..|nodes|] == nodes;
  }

  /** g-scores and f-scores for the cells `keys`, in step with the finite g-scores `depth`. */
  ghost predicate Scores(keys: set<PathNode>, gScore: map<PathNode, Dist>, fScore: map<PathNode, Dist>,
                         depth: map<PathNode, nat>, goal: PathNode) {
    gScore.Keys == keys && fScore.Keys == keys && Tracks(gScore, depth) && Estimates(fScore, depth, goal)
  }

  /** Giving cell c the g-score d and the f-score d + h(c) keeps the scores in step. */
  lemma ScoresUpdate(keys: set<PathNode>, gScore: map<PathNode, Dist>, fScore: map<PathNode, Dist>,
                     depth: map<PathNode, nat>, goal: PathNode, c: PathNode, d: nat)
    requires var ok := Scores(keys, gScore, fScore, depth, goal); ok
    requires c in keys
    ensures var ok := Scores(keys, gScore[c := Fin(d)], fScore[c := Add(Fin(d), ManhattanDistance(c, goal))],
                             depth[c := d], goal); ok
  {
    TracksUpdate(gScore, depth, c, d);
    EstimatesUpdate(fScore, depth, goal, c, d);
    assert Scores(keys, gScore[c := Fin(d)], fScore[c := Add(Fin(d), ManhattanDistance(c, goal))], depth[c := d], goal);
  }

  /**
   * The `for (const neighbor of neighbors)` loop: an unvisited neighbour
   * whose tentative g-score, one more than the current cell's, improves on
   * its g-score gets that g-score, the current cell as parent, the f-score
   * g + Manhattan distance to END, and a queue entry at that f-score.
   * `depth` and `lvl` are the finite g-scores and the current cell's.
   */
  method RelaxNeighbors(pq: PriorityQueue<PathNode>, current: PathNode, neighbors: seq<PathNode>,
                        visited: set<PathNode>, gScore: map<PathNode, Dist>, fScore: map<PathNode, Dist>,
                        parentMap: map<PathNode, PathNode>, endNode: PathNode,
                        ghost depth: map<PathNode, nat>, ghost lvl: nat)
    returns (gScore': map<PathNode, Dist>, fScore': map<PathNode, Dist>, parentMap': map<PathNode, PathNode>,
             ghost depth': map<PathNode, nat>)
    requires pq.Valid()
    requires Distinct(neighbors) && forall n :: n in neighbors ==> n in gScore && n in fScore
    requires fScore.Keys == gScore.Keys && Tracks(gScore, depth) && Estimates(fScore, depth, endNode)
    requires current in visited && current in depth && depth[current] == lvl
    modifies pq
    ensures pq.Valid()
    ensures gScore'.Keys == gScore.Keys && Tracks(gScore', depth')
    ensures fScore'.Keys == fScore.Keys && Estimates(fScore', depth', endNode)
    ensures RelaxedBy(ManhattanTo(endNode), neighbors, visited, current, lvl, depth, parentMap, old(pq.items),
                      depth', parentMap', pq.items)
  {
    gScore', fScore', parentMap', depth' := gScore, fScore, parentMap, depth;
    ghost var h := ManhattanTo(endNode);
    ghost var items0 := pq.items;
    RelaxNone(h, neighbors, visited, current, lvl, depth, parentMap, items0);
    assert Scores(gScore.Keys, gScore', fScore', depth', endNode);
    for i := 0 to |neighbors|
      invariant pq.Valid()
      invariant var ok := Scores(gScore.Keys, gScore', fScore', depth', endNode); ok
      invariant current in depth' && depth'[current] == lvl
      invariant var ok := RelaxedBy(h, neighbors[..i], visited, current, lvl, depth, parentMap, items0,
                                    depth', parentMap', pq.items); ok
    {
      var neighbor := neighbors[i];
      var tentativeGScore := Add(gScore'[current], 1);
      TracksLess(gScore', depth', current, neighbor, lvl);
      if neighbor !in visited && Less(tentativeGScore, gScore'[neighbor]) {
        RelaxImprove(h, neighbors, i, visited, current, lvl, depth, parentMap, items0,
                     depth', parentMap', pq.items, tentativeGScore.n + ManhattanDistance(neighbor, endNode));
        ScoresUpdate(gScore.Keys, gScore', fScore', depth', endNode, neighbor, lvl + 1);
        parentMap' := parentMap'[neighbor := current];
        gScore' := gScore'[neighbor := tentativeGScore];
        fScore' := fScore'[neighbor := Add(tentativeGScore, ManhattanDistance(neighbor, endNode))];
        pq.Enqueue(neighbor, fScore'[neighbor].n);
        depth' := depth'[neighbor := lvl + 1];
      } else {
        RelaxKeep(h, neighbors, i, visited, current, lvl, depth, parentMap, items0,
                  depth', parentMap', pq.items);
      }
    }
    assert neighbors[..|neighbors|] == neighbors;
    assert Scores(gScore.Keys, gScore', fScore', depth', endNode);
  }

  /**
   * The invariant of the `while (!pq.isEmpty())` loop: the best-first search
   * state with the Manhattan estimate to END, a sorted queue, and g-scores
   * and f-scores for every cell, finite exactly for the cells in `depth`.
   */
  ghost predicate LoopState(nodes: seq<PathNode>, gridSize: nat, s: PathNode, e: PathNode,
                            items: seq<Entry<PathNode>>, closed: set<PathNode>, depth: map<PathNode, nat>,
                            parent: map<PathNode, PathNode>, steps: seq<seq<PathNode>>, order: seq<PathNode>,
                            last: nat, gScore: map<PathNode, Dist>, fScore: map<PathNode, Dist>) {
    SortedByPriority(items) && |closed| <= |Elems(nodes)|
    && gScore.Keys == Elems(nodes) && Tracks(gScore, depth)
    && fScore.Keys == Elems(nodes) && Estimates(fScore, depth, e)
    && SearchState(nodes, gridSize, s, e, ManhattanTo(e), items, closed, depth, parent, steps, order, last)
  }

  /** Gathers the parts of `LoopState` at the end of an iteration. */
  lemma KeepLoopState(nodes: seq<PathNode>, gridSize: nat, s: PathNode, e: PathNode,
                      items: seq<Entry<PathNode>>, closed: set<PathNode>, depth: map<PathNode, nat>,
                      parent: map<PathNode, PathNode>, steps: seq<seq<PathNode>>, order: seq<PathNode>,
                      last: nat, gScore: map<PathNode, Dist>, fScore: map<PathNode, Dist>)
    requires SortedByPriority(items) && |closed| <= |Elems(nodes)|
    requires gScore.Keys == Elems(nodes) && Tracks(gScore, depth)
    requires fScore.Keys == Elems(nodes) && Estimates(fScore, depth, e)
    requires var ok := SearchState(nodes, gridSize, s, e, ManhattanTo(e), items, closed, depth, parent, steps,
                                   order, last); ok
    ensures var ok := LoopState(nodes, gridSize, s, e, items, closed, depth, parent, steps, order, last,
                                gScore, fScore); ok
  {
  }

  /** Before the loop: START queued at its f-score, every other score Infinity. */
  lemma StartLoop(nodes: seq<PathNode>, gridSize: nat, s: PathNode, e: PathNode, items: seq<Entry<PathNode>>,
                  gScore0: map<PathNode, Dist>, fScore0: map<PathNode, Dist>,
                  gScore: map<PathNode, Dist>, fScore: map<PathNode, Dist>)
    requires s in nodes && s != e
    requires gScore0.Keys == Elems(nodes) && fScore0.Keys == Elems(nodes)
    requires forall c :: c in gScore0 ==> gScore0[c] == Inf
    requires forall c :: c in fScore0 ==> fScore0[c] == Inf
    requires gScore == gScore0[s := Fin(0)] && fScore == fScore0[s := Fin(ManhattanDistance(s, e))]
    requires items == [Entry(s, ManhattanDistance(s, e))]
    ensures var ok := LoopState(nodes, gridSize, s, e, items, {}, map[s := 0], map[], [], [], 0, gScore, fScore); ok
  {
    assert s in Elems(nodes);
    StartSearch(nodes, gridSize, s, e, ManhattanTo(e), items);
    KeepLoopState(nodes, gridSize, s, e, items, {}, map[s := 0], map[], [], [], 0, gScore, fScore);
  }

  /** A stale entry for an already finalized cell is dropped. */
  lemma Skip(nodes: seq<PathNode>, gridSize: nat, s: PathNode, e: PathNode,
             items: seq<Entry<PathNode>>, closed: set<PathNode>, depth: map<PathNode, nat>,
             parent: map<PathNode, PathNode>, steps: seq<seq<PathNode>>, order: seq<PathNode>,
             last: nat, gScore: map<PathNode, Dist>, fScore: map<PathNode, Dist>, rest: seq<Entry<PathNode>>)
    requires var ok := LoopState(nodes, gridSize, s, e, items, closed, depth, parent, steps, order, last,
                                 gScore, fScore); ok
    requires items != [] && items[0].node in closed && rest == items[1..] && SortedByPriority(rest)
    ensures var ok := LoopState(nodes, gridSize, s, e, rest, closed, depth, parent, steps, order, last,
                                gScore, fScore); ok
  {
    assert LoopState(nodes, gridSize, s, e, items, closed, depth, parent, steps, order, last, gScore, fScore);
    SkipStale(nodes, gridSize, s, e, ManhattanTo(e), items, closed, depth, parent, steps, order, last, rest);
    KeepLoopState(nodes, gridSize, s, e, rest, closed, depth, parent, steps, order, last, gScore, fScore);
  }

  /**
   * One iteration that finalizes `current`: from the facts the loop body
   * establishes (the dequeued front entry, the relaxed neighbours, the step
   * recorded) to the invariant on the new state.
   */
  lemma Visit(nodes: seq<PathNode>, gridSize: nat, s: PathNode, e: PathNode,
              items: seq<Entry<PathNode>>, closed: set<PathNode>, depth: map<PathNode, nat>,
              parent: map<PathNode, PathNode>, steps: seq<seq<PathNode>>, order: seq<PathNode>,
              last: nat, gScore: map<PathNode, Dist>, fScore: map<PathNode, Dist>,
              current: PathNode, lvl: nat, rest: seq<Entry<PathNode>>, nbrs: seq<PathNode>, closed': set<PathNode>,
              depth': map<PathNode, nat>, parent': map<PathNode, PathNode>, items': seq<Entry<PathNode>>,
              gScore': map<PathNode, Dist>, fScore': map<PathNode, Dist>,
              currentStep: seq<PathNode>, steps': seq<seq<PathNode>>)
    requires DistinctIds(nodes)
    requires var ok := LoopState(nodes, gridSize, s, e, items, closed, depth, parent, steps, order, last,
                                 gScore, fScore); ok
    requires items != [] && items[0].node == current && rest == items[1..]
    requires current !in closed && current != e && closed' == closed + {current}
    requires current in depth && depth[current] == lvl
    requires nbrs == Neighbors(current, nodes, gridSize)
    requires SortedByPriority(items')
    requires gScore'.Keys == gScore.Keys && Tracks(gScore', depth')
    requires fScore'.Keys == fScore.Keys && Estimates(fScore', depth', e)
    requires RelaxedBy(ManhattanTo(e), nbrs, closed', current, lvl, depth, parent, rest, depth', parent', items')
    requires currentStep == if IsEndpoint(current) then [] else [current]
    requires steps' == if |currentStep| > 0 then steps + [currentStep] else steps
    ensures var ok := LoopState(nodes, gridSize, s, e, items', closed', depth', parent', steps', order + [current],
                                items[0].priority, gScore', fScore'); ok
    ensures |closed| < |closed'|
  {
    assert LoopState(nodes, gridSize, s, e, items, closed, depth, parent, steps, order, last, gScore, fScore);
    Settle(nodes, gridSize, s, e, ManhattanTo(e), items, closed, depth, parent, steps, order, last);
    assert steps' == if IsEndpoint(current) then steps else steps + [[current]];
    Advance(nodes, gridSize, s, e, ManhattanTo(e), items, closed, depth, parent, steps, order, last,
            current, lvl, rest, nbrs, closed', depth', parent', items', steps');
    KeepLoopState(nodes, gridSize, s, e, items', closed', depth', parent', steps', order + [current],
                  items[0].priority, gScore', fScore');
  }

  /** The estimate astar uses: the Manhattan distance to END, when there is one. */
  function GoalEstimate(nodes: seq<PathNode>): (h: Heuristic)
    ensures FindStartAndEnd(nodes).endNode.Some? ==> h == ManhattanTo(FindStartAndEnd(nodes).endNode.value)
  {
    match FindStartAndEnd(nodes).endNode
    case Some(e) => ManhattanTo(e)
    case None => NoEstimate
  }

  /**
   * `astar(nodes, gridSize)`. Besides the result, `order` is the sequence of
   * finalized cells and `settled` their g-scores; `Outcome` with the
   * Manhattan estimate says the path is a shortest one, each settled
   * g-score is the cell's distance from START, and the f-scores never
   * decrease in finalization order.
   */
  method AStar(nodes: seq<PathNode>, gridSize: nat)
    returns (r: SearchResult, ghost order: seq<PathNode>, ghost settled: seq<nat>)
    requires DistinctIds(nodes)
    ensures FindsPath(nodes, gridSize, r) && FindsShortestPath(nodes, gridSize, r)
    ensures StepsWellFormed(nodes, r.explorationSteps) && Singletons(r.explorationSteps)
    ensures Outcome(nodes, gridSize, GoalEstimate(nodes), r, order, settled)
  {
    var ep := FindStartAndEnd(nodes);
    if ep.startNode.None? || ep.endNode.None? {
      NoEndpoints(nodes, gridSize, GoalEstimate(nodes));
      return SearchResult([], []), [], [];
    }
    var startNode, endNode := ep.startNode.value, ep.endNode.value;
    EndpointsOfGrid(nodes);
    ghost var h := GoalEstimate(nodes);
    assert h == ManhattanTo(endNode);

    var parentMap: map<PathNode, PathNode> := map[];
    var visited: set<PathNode> := {};
    var explorationSteps: seq<seq<PathNode>> := [];
    var pq := new PriorityQueue<PathNode>();
    var gScore, fScore := InitScores(nodes);
    ghost var gScore0, fScore0 := gScore, fScore;
    gScore := gScore[startNode := Fin(0)];
    fScore := fScore[startNode := Fin(ManhattanDistance(startNode, endNode))];
    pq.Enqueue(startNode, fScore[startNode].n);

    ghost var depth: map<PathNode, nat> := map[startNode := 0];
    ghost var last: nat := 0;
    order := [];
    StartLoop(nodes, gridSize, startNode, endNode, pq.items, gScore0, fScore0, gScore, fScore);

    while !pq.IsEmpty()
      invariant var ok := LoopState(nodes, gridSize, startNode, endNode, pq.items, visited, depth,
                                    parentMap, explorationSteps, order, last, gScore, fScore); ok
      decreases |Elems(nodes)| - |visited|, |pq.items|
    {
      ghost var items := pq.items;
      var next := pq.Dequeue();
      var current := next.value;

      if current in visited {
        Skip(nodes, gridSize, startNode, endNode, items, visited, depth, parentMap, explorationSteps, order, last,
             gScore, fScore, pq.items);
        continue;
      }
      Settle(nodes, gridSize, startNode, endNode, h, items, visited, depth, parentMap,
             explorationSteps, order, last);
      ghost var closed := visited;
      ghost var lvl := depth[current];
      visited := visited + {current};

      assert current in nodes;
      IdIdentifiesCell(nodes, current, endNode);
      if current.Id() == endNode.Id() {
        TreeAcyclic(nodes, gridSize, startNode, parentMap, depth);
        var path := ReconstructPath(parentMap, current);
        settled := Found(nodes, gridSize, startNode, endNode, h, items, closed, depth, parentMap,
                         explorationSteps, order, last, path);
        return SearchResult(explorationSteps, path), order, settled;
      }

      // `currentStep` holds `current` unless it is START or END
      var currentStep := if current.value != NodeValue.Start && current.value != NodeValue.End then [current] else [];

      var neighbors := GetNeighbors(current, nodes, gridSize);
      NeighborsDistinct(current, nodes, gridSize);
      ghost var rest, parent0, gScore0, fScore0 := pq.items, parentMap, gScore, fScore;
      ghost var depth';
      gScore, fScore, parentMap, depth' :=
        RelaxNeighbors(pq, current, neighbors, visited, gScore, fScore, parentMap, endNode, depth, lvl);

      ghost var steps0 := explorationSteps;
      explorationSteps := if |currentStep| > 0 then explorationSteps + [currentStep] else explorationSteps;
      Visit(nodes, gridSize, startNode, endNode, items, closed, depth, parent0, steps0, order, last, gScore0, fScore0,
            current, lvl, rest, neighbors, visited, depth', parentMap, pq.items, gScore, fScore, currentStep,
            explorationSteps);
      depth := depth';
      order := order + [current];
      last := items[0].priority;
    }
    settled := NotFound(nodes, gridSize, startNode, endNode, h, visited, depth, parentMap,
                        explorationSteps, order, last);
    return SearchResult(explorationSteps, []), order, settled;
  }
}
