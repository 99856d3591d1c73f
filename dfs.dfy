/**
 * Depth-first search with an explicit stack. Cells are marked visited when
 * they are pushed; every pop of a cell other than START and END is one
 * exploration step holding just that cell.
 *
 * As in the breadth-first search, the loop state is passed between the loop
 * and its lemmas as `var ok := DfsState(...); ok`, which the verifier takes
 * as one fact rather than re-proving each conjunct at every hand-over.
 */
module Dfs {
  import opened Seqs
  import opened Node
  import opened Grid
  import opened PathfindingUtils
  import opened SearchCommon

  /**
   * What the loop of dfs keeps: the stack of pending cells, a parent tree
   * over the visited cells (with ghost depths), the closure of the expanded
   * cells, the pop order so far, and the steps: one singleton per popped
   * cell other than START and END, in pop order.
   */
  ghost predicate DfsState(nodes: seq<PathNode>, gridSize: nat, s: PathNode, e: PathNode,
                           stack: seq<PathNode>, visited: set<PathNode>, expanded: set<PathNode>,
                           depth: map<PathNode, nat>, parent: map<PathNode, PathNode>,
                           steps: seq<seq<PathNode>>, order: seq<PathNode>) {
    Pending(nodes, s, e, stack, visited, expanded)
    && depth.Keys == visited
    && ParentTree(nodes, gridSize, s, parent, depth)
    && Closed(nodes, gridSize, expanded, visited)
    && Distinct(order) && Elems(order) == expanded
    && StepsWellFormed(nodes, steps) && Singletons(steps)
    && (forall k, c :: 0 <= k < |steps| && c in steps[k] ==> c in expanded)
    && Concat(steps) == Visible(order)
  }

  /** dfs starts with START alone on the stack and nothing popped. */
  lemma StartDfs(nodes: seq<PathNode>, gridSize: nat, s: PathNode, e: PathNode)
    requires s in nodes && s != e
    ensures var ok := DfsState(nodes, gridSize, s, e, [s], {s}, {}, map[s := 0], map[], [], []); ok
  {
    var none: seq<PathNode> := [];
    assert Elems([s]) == {s} && Elems(none) == {};
    assert Pending(nodes, s, e, [s], {s}, {});
    assert ParentTree(nodes, gridSize, s, map[], map[s := 0]);
    assert Closed(nodes, gridSize, {}, {s});
    assert StepsWellFormed(nodes, []) && Singletons([]) && Concat([]) == Visible(none);
    assert DfsState(nodes, gridSize, s, e, [s], {s}, {}, map[s := 0], map[], [], none);
  }

  /** Popping the top of the stack and pushing fresh grid cells keeps the pending cells in order. */
  lemma ExtendStack(nodes: seq<PathNode>, s: PathNode, e: PathNode,
                    stack: seq<PathNode>, visited: set<PathNode>, expanded: set<PathNode>,
                    current: PathNode, found: seq<PathNode>, visited': set<PathNode>)
    requires Pending(nodes, s, e, stack, visited, expanded)
    requires stack != [] && current == stack[|stack| - 1] && current != e
    requires Distinct(found) && forall c :: c in found ==> c !in visited && c in nodes
    requires visited' == visited + Elems(found)
    ensures Pending(nodes, s, e, stack[..|stack| - 1] + found, visited', expanded + {current})
  {
    var rest := stack[..|stack| - 1];
    assert stack == rest + [current];
    DistinctAppend(rest, found);
    ElemsAppend(rest, found);
    ElemsAppend(rest, [current]);
  }

  /** The loop state, assembled from its parts. */
  lemma KeepDfsState(nodes: seq<PathNode>, gridSize: nat, s: PathNode, e: PathNode,
                     stack: seq<PathNode>, visited: set<PathNode>, expanded: set<PathNode>,
                     depth: map<PathNode, nat>, parent: map<PathNode, PathNode>,
                     steps: seq<seq<PathNode>>, order: seq<PathNode>)
    requires Pending(nodes, s, e, stack, visited, expanded)
    requires depth.Keys == visited
    requires ParentTree(nodes, gridSize, s, parent, depth)
    requires Closed(nodes, gridSize, expanded, visited)
    requires Distinct(order) && Elems(order) == expanded
    requires StepsWellFormed(nodes, steps) && Singletons(steps)
    requires forall k, c :: 0 <= k < |steps| && c in steps[k] ==> c in expanded
    requires Concat(steps) == Visible(order)
    ensures var ok := DfsState(nodes, gridSize, s, e, stack, visited, expanded, depth, parent, steps, order); ok
  {
    assert DfsState(nodes, gridSize, s, e, stack, visited, expanded, depth, parent, steps, order);
  }

  /** Pushing fresh cells grows the visited set by their number, within the grid. */
  lemma StackGrowth(nodes: seq<PathNode>, visited: set<PathNode>, found: seq<PathNode>, visited': set<PathNode>)
    requires Distinct(found) && forall c :: c in found ==> c !in visited
    requires visited' == visited + Elems(found)
    requires visited' <= Elems(nodes)
    ensures |visited'| == |visited| + |found| <= |Elems(nodes)|
  {
    DistinctElems(found);
    DisjointUnionSize(visited, Elems(found));
    SubsetSize(visited', Elems(nodes));
  }

  /**
   * The unvisited neighbours are pushed in the order up, down, left, right,
   * so the last of them, the one furthest along that order, is the next to
   * be popped.
   */
  lemma PushOrder(current: PathNode, nodes: seq<PathNode>, gridSize: nat, visited: set<PathNode>, rest: seq<PathNode>)
    ensures var found := Unvisited(Neighbors(current, nodes, gridSize), visited);
      DirectionsIncrease(current, found)
      && (found != [] ==>
            var top := (rest + found)[|rest + found| - 1];
            top == found[|found| - 1]
            && forall c :: c in found && c != top ==> DirectionOf(current, c) < DirectionOf(current, top))
  {
    var found := Unvisited(Neighbors(current, nodes, gridSize), visited);
    NeighborsOrder(current, nodes, gridSize);
    UnvisitedOrder(current, Neighbors(current, nodes, gridSize), visited);
    if found != [] {
      forall c | c in found && c != found[|found| - 1]
        ensures DirectionOf(current, c) < DirectionOf(current, found[|found| - 1])
      {
        var i :| 0 <= i < |found| && found[i] == c;
        assert i < |found| - 1;
      }
    }
  }

  // ---------------------------------------------------------------------------
  // The depth-first order
  // ---------------------------------------------------------------------------

  /**
   * The stack after the pops whose pushes are listed in pushed: START alone
   * at first, then each pop removes the top and pushes that pop's cells.
   */
  function StackAfter(s: PathNode, pushed: seq<seq<PathNode>>): seq<PathNode> {
    if pushed == [] then [s]
    else
      var st := StackAfter(s, pushed[..|pushed| - 1]);
      (if st == [] then [] else st[..|st| - 1]) + pushed[|pushed| - 1]
  }

  /** The visited cells after those pops: START and every cell pushed. */
  function VisitedAfter(s: PathNode, pushed: seq<seq<PathNode>>): set<PathNode> {
    {s} + Elems(Concat(pushed))
  }

  /**
   * Pop i took the top of the stack left by the pops before it, and pushed
   * that cell's neighbours not yet visited, in up, down, left, right order.
   */
  predicate IsPop(nodes: seq<PathNode>, gridSize: nat, s: PathNode, order: seq<PathNode>, pushed: seq<seq<PathNode>>, i: nat)
    requires i < |order| && i < |pushed|
  {
    var st := StackAfter(s, pushed[..i]);
    st != [] && order[i] == st[|st| - 1]
    && pushed[i] == Unvisited(Neighbors(order[i], nodes, gridSize), VisitedAfter(s, pushed[..i]))
  }

  /**
   * The pops of dfs are exactly the depth-first traversal: each pop as
   * `IsPop` says, and the loop ends with the stack empty when no path is
   * returned, or with END on top when one is.
   */
  predicate DepthFirst(nodes: seq<PathNode>, gridSize: nat, s: PathNode, e: PathNode,
                       path: seq<PathNode>, order: seq<PathNode>, pushed: seq<seq<PathNode>>) {
    |pushed| == |order|
    && (forall i :: 0 <= i < |order| ==> IsPop(nodes, gridSize, s, order, pushed, i))
    && var st := StackAfter(s, pushed);
       if path == [] then st == [] else st != [] && st[|st| - 1] == e
  }

  /** The loop's stack and visited set are the ones the recorded pops leave. */
  predicate Traversal(nodes: seq<PathNode>, gridSize: nat, s: PathNode, stack: seq<PathNode>, visited: set<PathNode>,
                      order: seq<PathNode>, pushed: seq<seq<PathNode>>) {
    |pushed| == |order|
    && stack == StackAfter(s, pushed) && visited == VisitedAfter(s, pushed)
    && forall i :: 0 <= i < |order| ==> IsPop(nodes, gridSize, s, order, pushed, i)
  }

  /** One more pop: the top comes off and its unvisited neighbours go on. */
  lemma PopStep(nodes: seq<PathNode>, gridSize: nat, s: PathNode, stack: seq<PathNode>, visited: set<PathNode>,
                order: seq<PathNode>, pushed: seq<seq<PathNode>>, current: PathNode, found: seq<PathNode>)
    requires Traversal(nodes, gridSize, s, stack, visited, order, pushed)
    requires stack != [] && current == stack[|stack| - 1]
    requires found == Unvisited(Neighbors(current, nodes, gridSize), visited)
    ensures Traversal(nodes, gridSize, s, stack[..|stack| - 1] + found, visited + Elems(found), order + [current], pushed + [found])
  {
    var pushed', order' := pushed + [found], order + [current];
    assert pushed'[..|pushed|] == pushed;
    ConcatAppend(pushed, found);
    ElemsAppend(Concat(pushed), found);
    forall i | 0 <= i < |order'| ensures IsPop(nodes, gridSize, s, order', pushed', i) {
      if i < |order| {
        assert pushed'[..i] == pushed[..i];
        assert IsPop(nodes, gridSize, s, order, pushed, i);
      }
    }
  }

  /** The loop ended, with the stack empty and no path, or with END on top and a path. */
  lemma FinishTraversal(nodes: seq<PathNode>, gridSize: nat, s: PathNode, e: PathNode, stack: seq<PathNode>,
                        visited: set<PathNode>, order: seq<PathNode>, pushed: seq<seq<PathNode>>, path: seq<PathNode>)
    requires Traversal(nodes, gridSize, s, stack, visited, order, pushed)
    requires if path == [] then stack == [] else stack != [] && stack[|stack| - 1] == e
    ensures DepthFirst(nodes, gridSize, s, e, path, order, pushed)
  {
  }

  /**
   * The LIFO order: when pop i pushed cells and another pop follows, the next
   * cell popped is the last one pushed, the one furthest along up, down,
   * left, right among them.
   */
  lemma NextPopIsLastPushed(nodes: seq<PathNode>, gridSize: nat, s: PathNode, e: PathNode,
                            path: seq<PathNode>, order: seq<PathNode>, pushed: seq<seq<PathNode>>, i: nat)
    requires DepthFirst(nodes, gridSize, s, e, path, order, pushed)
    requires i + 1 < |order| && pushed[i] != []
    ensures order[i + 1] == pushed[i][|pushed[i]| - 1]
    ensures forall c :: c in pushed[i] && c != order[i + 1] ==> DirectionOf(order[i], c) < DirectionOf(order[i], order[i + 1])
  {
    assert IsPop(nodes, gridSize, s, order, pushed, i);
    assert IsPop(nodes, gridSize, s, order, pushed, i + 1);
    assert pushed[..i + 1][..i] == pushed[..i];
    var st := StackAfter(s, pushed[..i]);
    PushOrder(order[i], nodes, gridSize, VisitedAfter(s, pushed[..i]), if st == [] then [] else st[..|st| - 1]);
  }

  /** One pop of a cell other than END keeps the loop state, and either visits new cells or shrinks the stack. */
  lemma ExpandTop(nodes: seq<PathNode>, gridSize: nat, s: PathNode, e: PathNode,
                  stack: seq<PathNode>, visited: set<PathNode>, expanded: set<PathNode>,
                  depth: map<PathNode, nat>, parent: map<PathNode, PathNode>,
                  steps: seq<seq<PathNode>>, order: seq<PathNode>, current: PathNode, lvl: nat,
                  found: seq<PathNode>, visited': set<PathNode>, parent': map<PathNode, PathNode>,
                  steps': seq<seq<PathNode>>)
    requires DistinctIds(nodes)
    requires var ok := DfsState(nodes, gridSize, s, e, stack, visited, expanded, depth, parent, steps, order); ok
    requires stack != [] && current == stack[|stack| - 1] && current != e
    requires current in depth && depth[current] == lvl
    requires found == Unvisited(Neighbors(current, nodes, gridSize), visited)
    requires visited' == visited + Elems(found)
    requires parent'.Keys == parent.Keys + Elems(found)
    requires forall c :: c in parent' ==> parent'[c] == if c in found then current else parent[c]
    requires steps' == if IsEndpoint(current) then steps else steps + [[current]]
    ensures var ok := DfsState(nodes, gridSize, s, e, stack[..|stack| - 1] + found, visited', expanded + {current},
                               AtDistance(depth, found, lvl + 1), parent', steps', order + [current]); ok
    ensures |visited'| <= |Elems(nodes)|
    ensures |visited| < |visited'| || (|visited| == |visited'| && |stack[..|stack| - 1] + found| < |stack|)
  {
    var neighbors := Neighbors(current, nodes, gridSize);
    assert depth.Keys == visited;
    assert AtDistance(depth, found, lvl + 1).Keys == visited';
    assert current in stack && current in nodes;
    assert Distinct(found) && forall c :: c in found ==> c !in visited && Step(nodes, gridSize, current, c) by {
      NeighborsSound(current, nodes, gridSize);
      NeighborsDistinct(current, nodes, gridSize);
      UnvisitedFacts(neighbors, visited);
    }
    ExtendStack(nodes, s, e, stack, visited, expanded, current, found, visited');
    ExtendTree(nodes, gridSize, s, parent, depth, current, lvl, found, parent');
    assert Closed(nodes, gridSize, expanded + {current}, visited') by {
      forall b | Step(nodes, gridSize, current, b) ensures b in visited' {
        NeighborsComplete(current, nodes, gridSize, b);
        UnvisitedFacts(neighbors, visited);
      }
      ExtendClosure(nodes, gridSize, expanded, visited, current, visited');
    }
    ExtendOrder(order, expanded, current);
    RecordPop(nodes, steps, order, expanded, current, steps');
    KeepDfsState(nodes, gridSize, s, e, stack[..|stack| - 1] + found, visited', expanded + {current},
                 AtDistance(depth, found, lvl + 1), parent', steps', order + [current]);
    StackGrowth(nodes, visited, found, visited');
  }

  /** Popping END: the path read back from the parent tree is a walk from START to END. */
  lemma DfsReachedEnd(nodes: seq<PathNode>, gridSize: nat, s: PathNode, e: PathNode,
                      stack: seq<PathNode>, visited: set<PathNode>, expanded: set<PathNode>,
                      depth: map<PathNode, nat>, parent: map<PathNode, PathNode>,
                      steps: seq<seq<PathNode>>, order: seq<PathNode>, path: seq<PathNode>)
    requires FindStartAndEnd(nodes).startNode == Some(s) && FindStartAndEnd(nodes).endNode == Some(e)
    requires var ok := DfsState(nodes, gridSize, s, e, stack, visited, expanded, depth, parent, steps, order); ok
    requires stack != [] && stack[|stack| - 1] == e
    requires |path| > 0 && path[|path| - 1] == e && path[0] !in parent
    requires forall j :: 0 <= j < |path| - 1 ==> ChildOf(parent, path[j + 1], path[j])
    ensures FindsPath(nodes, gridSize, SearchResult(steps, path))
    ensures forall c :: c in order ==> Reachable(nodes, gridSize, s, c)
  {
    assert e in stack;
    TreePath(nodes, gridSize, s, parent, depth, path, e);
    TreeReaches(nodes, gridSize, s, parent, depth, order);
  }

  /**
   * An empty stack: the expanded cells are closed under legal moves, so every
   * cell reachable from START was popped, END among them if it were reachable.
   */
  lemma DfsExhausted(nodes: seq<PathNode>, gridSize: nat, s: PathNode, e: PathNode,
                     visited: set<PathNode>, expanded: set<PathNode>,
                     depth: map<PathNode, nat>, parent: map<PathNode, PathNode>,
                     steps: seq<seq<PathNode>>, order: seq<PathNode>)
    requires FindStartAndEnd(nodes).startNode == Some(s) && FindStartAndEnd(nodes).endNode == Some(e)
    requires var ok := DfsState(nodes, gridSize, s, e, [], visited, expanded, depth, parent, steps, order); ok
    ensures FindsPath(nodes, gridSize, SearchResult(steps, []))
    ensures forall c :: c in order <==> Reachable(nodes, gridSize, s, c)
  {
    assert visited == expanded;
    ClosedSetExcludesUnreached(nodes, gridSize, visited, s, e);
    TreeReaches(nodes, gridSize, s, parent, depth, order);
    forall c | Reachable(nodes, gridSize, s, c) ensures c in order {
      var w :| WalkBetween(nodes, gridSize, w, s, c);
      ClosedSetContainsWalk(nodes, gridSize, visited, w);
    }
  }

  /**
   * `dfs(nodes, gridSize)`. Besides the result, `order` is the sequence of
   * popped cells other than a final END, and `pushed[i]` the cells pop i
   * pushed: the pops are exactly the depth-first traversal (`DepthFirst`),
   * each popped cell is reachable from START and popped once, and the steps
   * are the popped cells other than START and END, one per step, in pop order.
   */
  method Dfs(nodes: seq<PathNode>, gridSize: nat)
    returns (r: SearchResult, ghost order: seq<PathNode>, ghost pushed: seq<seq<PathNode>>)
    requires DistinctIds(nodes)
    ensures var ep := FindStartAndEnd(nodes);
      ep.startNode.Some? && ep.endNode.Some? ==>
        DepthFirst(nodes, gridSize, ep.startNode.value, ep.endNode.value, r.path, order, pushed)
    ensures FindsPath(nodes, gridSize, r)
    ensures StepsWellFormed(nodes, r.explorationSteps) && Singletons(r.explorationSteps)
    ensures Distinct(order) && Concat(r.explorationSteps) == Visible(order)
    ensures FindStartAndEnd(nodes).startNode.Some? ==>
      forall c :: c in order ==> Reachable(nodes, gridSize, FindStartAndEnd(nodes).startNode.value, c)
    ensures FindStartAndEnd(nodes).startNode.Some? && FindStartAndEnd(nodes).endNode.Some? && r.path == [] ==>
      forall c :: Reachable(nodes, gridSize, FindStartAndEnd(nodes).startNode.value, c) ==> c in order
  {
    var ep := FindStartAndEnd(nodes);
    if ep.startNode.None? || ep.endNode.None? {
      return SearchResult([], []), [], [];
    }
    var startNode, endNode := ep.startNode.value, ep.endNode.value;
    EndpointsOfGrid(nodes);

    var stack := [startNode];
    var visited := {startNode};
    var parentMap: map<PathNode, PathNode> := map[];
    var explorationSteps: seq<seq<PathNode>> := [];
    ghost var expanded: set<PathNode> := {};
    ghost var depth: map<PathNode, nat> := map[startNode := 0];
    order, pushed := [], [];
    StartDfs(nodes, gridSize, startNode, endNode);
    assert Traversal(nodes, gridSize, startNode, stack, visited, order, pushed);

    while |stack| > 0
      invariant var ok := DfsState(nodes, gridSize, startNode, endNode, stack, visited, expanded, depth, parentMap,
                                   explorationSteps, order); ok
      invariant var ok := Traversal(nodes, gridSize, startNode, stack, visited, order, pushed); ok
      decreases |Elems(nodes)| - |visited|, |stack|
    {
      ghost var stack0, visited0, parent0, steps0 := stack, visited, parentMap, explorationSteps;
      var current := stack[|stack| - 1];
      stack := stack[..|stack| - 1];
      var currentStep: seq<PathNode> := [];

      assert current in stack0 && current in nodes;
      IdIdentifiesCell(nodes, current, endNode);
      if current.Id() == endNode.Id() {
        TreeAcyclic(nodes, gridSize, startNode, parentMap, depth);
        var path := ReconstructPath(parentMap, current);
        DfsReachedEnd(nodes, gridSize, startNode, endNode, stack0, visited, expanded, depth, parentMap,
                      explorationSteps, order, path);
        FinishTraversal(nodes, gridSize, startNode, endNode, stack0, visited, order, pushed, path);
        return SearchResult(explorationSteps, path), order, pushed;
      }

      if current.value != NodeValue.Start && current.value != NodeValue.End {
        currentStep := [current];  // the push onto the empty step
      }
      assert currentStep == if IsEndpoint(current) then [] else [current];

      var neighbors := GetNeighbors(current, nodes, gridSize);
      NeighborsDistinct(current, nodes, gridSize);
      var found;
      found, visited, parentMap := Discover(current, neighbors, visited, parentMap);
      stack := stack + found;

      if |currentStep| > 0 {
        explorationSteps := explorationSteps + [currentStep];
      }
      assert explorationSteps == if IsEndpoint(current) then steps0 else steps0 + [[current]];
      ghost var lvl := depth[current];
      ExpandTop(nodes, gridSize, startNode, endNode, stack0, visited0, expanded, depth, parent0, steps0, order,
                current, lvl, found, visited, parentMap, explorationSteps);
      PopStep(nodes, gridSize, startNode, stack0, visited0, order, pushed, current, found);
      pushed := pushed + [found];
      depth := AtDistance(depth, found, lvl + 1);
      expanded := expanded + {current};
      order := order + [current];
    }

    DfsExhausted(nodes, gridSize, startNode, endNode, visited, expanded, depth, parentMap, explorationSteps, order);
    FinishTraversal(nodes, gridSize, startNode, endNode, stack, visited, order, pushed, []);
    r := SearchResult(explorationSteps, []);
  }
}
