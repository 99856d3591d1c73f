/**
 * The helpers shared by the four searches: neighbour lookup, path
 * reconstruction from a parent map, endpoint discovery, the sorted-array
 * priority queue and the Manhattan heuristic.
 */
module PathfindingUtils {
  import opened Seqs
  import opened Node
  import opened Grid

  // ---------------------------------------------------------------------------
  // Array.prototype.findIndex / find
  // ---------------------------------------------------------------------------

  /** The index of the first element satisfying p, or -1 when there is none. */
  function FindIndex<T>(s: seq<T>, p: T -> bool): (r: int)
    ensures -1 <= r < |s|
    ensures r == -1 ==> forall i :: 0 <= i < |s| ==> !p(s[i])
    ensures 0 <= r ==> p(s[r]) && forall i :: 0 <= i < r ==> !p(s[i])
  {
    if s == [] then -1
    else if p(s[0]) then 0
    else
      var k := FindIndex(s[1..], p);
      if k == -1 then -1 else k + 1
  }

  /** The first element satisfying p, if any. */
  function Find<T>(s: seq<T>, p: T -> bool): (r: Option<T>)
    ensures r.None? <==> forall i :: 0 <= i < |s| ==> !p(s[i])
    ensures r.Some? ==> exists i :: 0 <= i < |s| && s[i] == r.value && p(s[i]) && forall j :: 0 <= j < i ==> !p(s[j])
  {
    var k := FindIndex(s, p);
    if k == -1 then None else Some(s[k])
  }

  /** `nodes.find(n => n.x === x && n.y === y)`. */
  function FindAt(nodes: seq<PathNode>, x: int, y: int): Option<PathNode> {
    if nodes == [] then None
    else if nodes[0].x == x && nodes[0].y == y then Some(nodes[0])
    else FindAt(nodes[1..], x, y)
  }

  /** The lookup finds a cell with those coordinates, and finds nothing only when there is none. */
  lemma FindAtFacts(nodes: seq<PathNode>, x: int, y: int)
    ensures var r := FindAt(nodes, x, y);
      && (r.Some? ==> r.value in nodes && r.value.x == x && r.value.y == y)
      && (r.None? <==> forall i :: 0 <= i < |nodes| ==> !(nodes[i].x == x && nodes[i].y == y))
  {
    if nodes != [] {
      FindAtFacts(nodes[1..], x, y);
      assert forall i :: 1 <= i < |nodes| ==> nodes[i] == nodes[1..][i - 1];
    }
  }

  /** When ids are distinct, looking a cell up by its own coordinates finds that very cell. */
  lemma FindAtOwnCoords(nodes: seq<PathNode>, b: PathNode)
    requires DistinctIds(nodes) && b in nodes
    ensures FindAt(nodes, b.x, b.y) == Some(b)
  {
    var r := FindAt(nodes, b.x, b.y);
    FindAtFacts(nodes, b.x, b.y);
    var j :| 0 <= j < |nodes| && nodes[j] == b;
    assert r.Some?;
    var i :| 0 <= i < |nodes| && nodes[i] == r.value;
    assert SameCoords(nodes[i], nodes[j]);
  }

  // ---------------------------------------------------------------------------
  // getNeighbors
  // ---------------------------------------------------------------------------

  /** The four directions in the order they are tried: up, down, left, right. */
  const Directions: seq<(int, int)> := [(0, -1), (0, 1), (-1, 0), (1, 0)]

  /** What trying direction k contributes: the cell there, if in bounds, present and not blocked. */
  function Probe(node: PathNode, nodes: seq<PathNode>, gridSize: nat, k: nat): seq<PathNode>
    requires k < 4
  {
    var newX := node.x + Directions[k].0;
    var newY := node.y + Directions[k].1;
    if InBounds(gridSize, newX, newY) then
      match FindAt(nodes, newX, newY)
      case Some(neighbor) => if neighbor.value != NodeValue.Blocked then [neighbor] else []
      case None => []
    else []
  }

  /** The neighbours contributed by the first k directions, in order. */
  function ProbeUpTo(node: PathNode, nodes: seq<PathNode>, gridSize: nat, k: nat): seq<PathNode>
    requires k <= 4
  {
    if k == 0 then [] else ProbeUpTo(node, nodes, gridSize, k - 1) + Probe(node, nodes, gridSize, k - 1)
  }

  function Neighbors(node: PathNode, nodes: seq<PathNode>, gridSize: nat): seq<PathNode> {
    ProbeUpTo(node, nodes, gridSize, 4)
  }

  /** `getNeighbors(node, nodes, gridSize)`: the loop over the four directions. */
  method GetNeighbors(node: PathNode, nodes: seq<PathNode>, gridSize: nat) returns (neighbors: seq<PathNode>)
    ensures neighbors == Neighbors(node, nodes, gridSize)
    ensures |neighbors| <= 4
    ensures forall c :: c in neighbors ==> Step(nodes, gridSize, node, c)
  {
    neighbors := [];
    for i := 0 to |Directions|
      invariant neighbors == ProbeUpTo(node, nodes, gridSize, i)
    {
      var d := Directions[i];
      var newX := node.x + d.0;
      var newY := node.y + d.1;
      ghost var before := neighbors;
      ghost var probe := Probe(node, nodes, gridSize, i);
      if newX >= 0 && newX < gridSize && newY >= 0 && newY < gridSize {
        var neighbor := FindAt(nodes, newX, newY);
        if neighbor.Some? && neighbor.value.value != NodeValue.Blocked {
          assert probe == [neighbor.value];
          neighbors := neighbors + [neighbor.value];
        } else {
          assert probe == [];
        }
      } else {
        assert probe == [];
      }
      assert neighbors == before + Probe(node, nodes, gridSize, i);
    }
    NeighborsSound(node, nodes, gridSize);
  }

  /** The target of direction k (0 up, 1 down, 2 left, 3 right). */
  function Target(node: PathNode, k: nat): (int, int)
    requires k < 4
  {
    (node.x + Directions[k].0, node.y + Directions[k].1)
  }

  /** Which direction c lies in, seen from node. */
  function DirectionOf(node: PathNode, c: PathNode): nat {
    if c.x == node.x && c.y + 1 == node.y then 0
    else if c.x == node.x && c.y == node.y + 1 then 1
    else if c.x + 1 == node.x && c.y == node.y then 2
    else 3
  }

  /** Direction k is open: its target is in bounds and holds a non-blocked cell. */
  predicate Open(node: PathNode, nodes: seq<PathNode>, gridSize: nat, k: nat)
    requires k < 4
  {
    var t := Target(node, k);
    InBounds(gridSize, t.0, t.1) && FindAt(nodes, t.0, t.1).Some?
    && FindAt(nodes, t.0, t.1).value.value != NodeValue.Blocked
  }

  lemma ProbeFacts(node: PathNode, nodes: seq<PathNode>, gridSize: nat, k: nat)
    requires k < 4
    ensures var p := Probe(node, nodes, gridSize, k);
      && |p| <= 1
      && (|p| == 1 <==> Open(node, nodes, gridSize, k))
      && forall c :: c in p ==> Step(nodes, gridSize, node, c) && DirectionOf(node, c) == k
  {
    var t := Target(node, k);
    FindAtFacts(nodes, t.0, t.1);
  }

  lemma NeighborsUnrolled(node: PathNode, nodes: seq<PathNode>, gridSize: nat)
    ensures Neighbors(node, nodes, gridSize) ==
      Probe(node, nodes, gridSize, 0) + Probe(node, nodes, gridSize, 1)
      + Probe(node, nodes, gridSize, 2) + Probe(node, nodes, gridSize, 3)
  {
    assert ProbeUpTo(node, nodes, gridSize, 1) == Probe(node, nodes, gridSize, 0);
    assert ProbeUpTo(node, nodes, gridSize, 2) == ProbeUpTo(node, nodes, gridSize, 1) + Probe(node, nodes, gridSize, 1);
    assert ProbeUpTo(node, nodes, gridSize, 3) == ProbeUpTo(node, nodes, gridSize, 2) + Probe(node, nodes, gridSize, 2);
  }

  /** At most four neighbours, each a legal move from node. */
  lemma NeighborsSound(node: PathNode, nodes: seq<PathNode>, gridSize: nat)
    ensures |Neighbors(node, nodes, gridSize)| <= 4
    ensures forall c :: c in Neighbors(node, nodes, gridSize) ==> Step(nodes, gridSize, node, c)
  {
    NeighborsUnrolled(node, nodes, gridSize);
    ProbeFacts(node, nodes, gridSize, 0);
    ProbeFacts(node, nodes, gridSize, 1);
    ProbeFacts(node, nodes, gridSize, 2);
    ProbeFacts(node, nodes, gridSize, 3);
  }

  /** Directions strictly increase along r. */
  predicate DirectionsIncrease(node: PathNode, r: seq<PathNode>) {
    forall i, j :: 0 <= i < j < |r| ==> DirectionOf(node, r[i]) < DirectionOf(node, r[j])
  }

  lemma AppendIncreasing(node: PathNode, r: seq<PathNode>, p: seq<PathNode>, k: nat)
    requires DirectionsIncrease(node, r) && |p| <= 1
    requires forall c :: c in r ==> DirectionOf(node, c) < k
    requires forall c :: c in p ==> DirectionOf(node, c) == k
    ensures DirectionsIncrease(node, r + p)
  {
    var q := r + p;
    forall i, j | 0 <= i < j < |q| ensures DirectionOf(node, q[i]) < DirectionOf(node, q[j]) {
      if j < |r| {
        assert q[i] == r[i] && q[j] == r[j];
      } else {
        assert q[i] == r[i] && q[j] == p[0];
      }
    }
  }

  /** The neighbours come in the order up, down, left, right. */
  lemma NeighborsOrder(node: PathNode, nodes: seq<PathNode>, gridSize: nat)
    ensures DirectionsIncrease(node, Neighbors(node, nodes, gridSize))
  {
    NeighborsUnrolled(node, nodes, gridSize);
    var p0, p1 := Probe(node, nodes, gridSize, 0), Probe(node, nodes, gridSize, 1);
    var p2, p3 := Probe(node, nodes, gridSize, 2), Probe(node, nodes, gridSize, 3);
    ProbeFacts(node, nodes, gridSize, 0);
    ProbeFacts(node, nodes, gridSize, 1);
    ProbeFacts(node, nodes, gridSize, 2);
    ProbeFacts(node, nodes, gridSize, 3);
    AppendIncreasing(node, [], p0, 0);
    assert [] + p0 == p0;
    AppendIncreasing(node, p0, p1, 1);
    AppendIncreasing(node, p0 + p1, p2, 2);
    AppendIncreasing(node, p0 + p1 + p2, p3, 3);
  }

  /** Direction k contributes a neighbour exactly when it is open. */
  lemma NeighborsOpenAt(node: PathNode, nodes: seq<PathNode>, gridSize: nat, k: nat)
    requires k < 4
    ensures (exists c :: c in Neighbors(node, nodes, gridSize) && DirectionOf(node, c) == k) <==> Open(node, nodes, gridSize, k)
  {
    NeighborsUnrolled(node, nodes, gridSize);
    var p0, p1 := Probe(node, nodes, gridSize, 0), Probe(node, nodes, gridSize, 1);
    var p2, p3 := Probe(node, nodes, gridSize, 2), Probe(node, nodes, gridSize, 3);
    var all := p0 + p1 + p2 + p3;
    ProbeFacts(node, nodes, gridSize, k);
    var pk := Probe(node, nodes, gridSize, k);
    if exists c :: c in all && DirectionOf(node, c) == k {
      var c :| c in all && DirectionOf(node, c) == k;
      ProbeFacts(node, nodes, gridSize, 0);
      ProbeFacts(node, nodes, gridSize, 1);
      ProbeFacts(node, nodes, gridSize, 2);
      ProbeFacts(node, nodes, gridSize, 3);
      assert c in pk;
    }
    if Open(node, nodes, gridSize, k) {
      assert pk[0] in all;
    }
  }

  /** A direction contributes a neighbour exactly when it is open (in bounds, present and not blocked). */
  lemma NeighborsOpen(node: PathNode, nodes: seq<PathNode>, gridSize: nat)
    ensures forall k :: 0 <= k < 4 ==>
      ((exists c :: c in Neighbors(node, nodes, gridSize) && DirectionOf(node, c) == k) <==> Open(node, nodes, gridSize, k))
  {
    forall k | 0 <= k < 4
      ensures (exists c :: c in Neighbors(node, nodes, gridSize) && DirectionOf(node, c) == k) <==> Open(node, nodes, gridSize, k)
    {
      NeighborsOpenAt(node, nodes, gridSize, k);
    }
  }

  /** When ids are distinct, every legal move from node is among its neighbours. */
  lemma NeighborsComplete(node: PathNode, nodes: seq<PathNode>, gridSize: nat, b: PathNode)
    requires DistinctIds(nodes) && Step(nodes, gridSize, node, b)
    ensures b in Neighbors(node, nodes, gridSize)
  {
    FindAtOwnCoords(nodes, b);
    var k := DirectionOf(node, b);
    assert Target(node, k) == (b.x, b.y);
    ProbeFacts(node, nodes, gridSize, k);
    NeighborsUnrolled(node, nodes, gridSize);
    assert Probe(node, nodes, gridSize, k) == [b];
  }

  /** The neighbours are pairwise distinct. */
  lemma NeighborsDistinct(node: PathNode, nodes: seq<PathNode>, gridSize: nat)
    ensures Distinct(Neighbors(node, nodes, gridSize))
  {
    NeighborsOrder(node, nodes, gridSize);
  }

  // ---------------------------------------------------------------------------
  // findStartAndEnd
  // ---------------------------------------------------------------------------

  datatype Endpoints = Endpoints(startNode: Option<PathNode>, endNode: Option<PathNode>)

  /** c is the first cell of the snapshot holding state v. */
  predicate IsFirstWith(nodes: seq<PathNode>, v: NodeValue, c: PathNode) {
    exists i :: 0 <= i < |nodes| && nodes[i] == c && c.value == v
      && forall j :: 0 <= j < i ==> nodes[j].value != v
  }

  /** `findStartAndEnd(nodes)`: the first START and the first END cell, each possibly absent. */
  function FindStartAndEnd(nodes: seq<PathNode>): (r: Endpoints)
    ensures r.startNode.None? <==> forall i :: 0 <= i < |nodes| ==> nodes[i].value != NodeValue.Start
    ensures r.startNode.Some? ==> IsFirstWith(nodes, NodeValue.Start, r.startNode.value)
    ensures r.endNode.None? <==> forall i :: 0 <= i < |nodes| ==> nodes[i].value != NodeValue.End
    ensures r.endNode.Some? ==> IsFirstWith(nodes, NodeValue.End, r.endNode.value)
  {
    var startNode := Find(nodes, (n: PathNode) => n.value == NodeValue.Start);
    var endNode := Find(nodes, (n: PathNode) => n.value == NodeValue.End);
    Endpoints(startNode, endNode)
  }

  // ---------------------------------------------------------------------------
  // PriorityQueue
  // ---------------------------------------------------------------------------

  datatype Entry<T> = Entry(node: T, priority: nat)

  predicate SortedByPriority<T>(items: seq<Entry<T>>) {
    forall i, j :: 0 <= i < j < |items| ==> items[i].priority <= items[j].priority
  }

  /** Where the scan of `enqueue` stops: the first entry with a strictly greater priority. */
  function InsertionPoint<T>(items: seq<Entry<T>>, priority: nat): (k: nat)
    ensures k <= |items|
    ensures forall i :: 0 <= i < k ==> items[i].priority <= priority
    ensures k < |items| ==> priority < items[k].priority
  {
    if items == [] || priority < items[0].priority then 0
    else 1 + InsertionPoint(items[1..], priority)
  }

  function Insert<T>(items: seq<Entry<T>>, e: Entry<T>): seq<Entry<T>> {
    var k := InsertionPoint(items, e.priority);
    items[..k] + [e] + items[k..]
  }

  /** Inserting into a sorted queue keeps it sorted. */
  lemma InsertSorted<T>(items: seq<Entry<T>>, e: Entry<T>)
    requires SortedByPriority(items)
    ensures SortedByPriority(Insert(items, e))
  {
    var k := InsertionPoint(items, e.priority);
    var r := Insert(items, e);
    forall i, j | 0 <= i < j < |r| ensures r[i].priority <= r[j].priority {
      if j < k {
        assert r[i] == items[i] && r[j] == items[j];
      } else if j == k {
        assert r[i] == items[i];
      } else if i < k {
        assert r[i] == items[i] && r[j] == items[j - 1];
      } else if i == k {
        assert r[j] == items[j - 1];
        assert e.priority < items[k].priority <= items[j - 1].priority;
      } else {
        assert r[i] == items[i - 1] && r[j] == items[j - 1];
      }
    }
  }

  /**
   * Insertion is stable and touches nothing else: the new entry comes after
   * every entry of equal or smaller priority and before the first greater one,
   * the length grows by one and removing the new entry gives back the old queue.
   */
  lemma InsertStable<T>(items: seq<Entry<T>>, e: Entry<T>)
    requires SortedByPriority(items)
    ensures var r := Insert(items, e);
      exists k :: 0 <= k < |r| && r[k] == e
        && (forall i :: 0 <= i < |items| && items[i].priority <= e.priority ==> i < k)
        && (forall i :: k <= i < |items| ==> e.priority < items[i].priority)
        && |r| == |items| + 1
        && r[..k] + r[k + 1..] == items
  {
    var k := InsertionPoint(items, e.priority);
    var r := Insert(items, e);
    assert r[k] == e;
    assert r[..k] == items[..k];
    assert r[k + 1..] == items[k..];
    forall i | 0 <= i < |items| && items[i].priority <= e.priority ensures i < k {
    }
    forall i | k <= i < |items| ensures e.priority < items[i].priority {
      assert items[k].priority <= items[i].priority;
    }
    assert items[..k] + items[k..] == items;
  }

  lemma InsertMultiset<T>(items: seq<Entry<T>>, e: Entry<T>)
    ensures multiset(Insert(items, e)) == multiset(items) + multiset{e}
  {
    var k := InsertionPoint(items, e.priority);
    calc {
      multiset(Insert(items, e));
      multiset(items[..k]) + multiset{e} + multiset(items[k..]);
      { assert items[..k] + items[k..] == items; }
      multiset(items) + multiset{e};
    }
  }

  /** Inserting adds exactly the new entry to the queue's members. */
  lemma InsertMembers<T>(items: seq<Entry<T>>, e: Entry<T>)
    ensures forall x :: x in Insert(items, e) <==> x in items || x == e
  {
    InsertMultiset(items, e);
    forall x ensures x in Insert(items, e) <==> x in items || x == e {
      assert x in Insert(items, e) <==> x in multiset(Insert(items, e));
      assert x in items <==> x in multiset(items);
    }
  }

  /** The sorted-array min-priority queue; ties leave in insertion order. */
  class PriorityQueue<T> {
    var items: seq<Entry<T>>

    ghost predicate Valid()
      reads this
    {
      SortedByPriority(items)
    }

    constructor()
      ensures Valid() && items == []
    {
      items := [];
    }

    /** Scan from the front and insert before the first entry with a strictly greater priority. */
    method Enqueue(node: T, priority: nat)
      requires Valid()
      modifies this
      ensures Valid()
      ensures items == Insert(old(items), Entry(node, priority))
    {
      var element := Entry(node, priority);
      var added := false;
      var i := 0;
      while i < |items|
        invariant 0 <= i <= |items|
        invariant items == old(items) && !added
        invariant forall k :: 0 <= k < i ==> items[k].priority <= priority
      {
        if element.priority < items[i].priority {
          items := items[..i] + [element] + items[i..];
          added := true;
          break;
        }
        i := i + 1;
      }
      if !added {
        items := items + [element];
      }
      InsertionPointUnique(old(items), priority, i);
      InsertSorted(old(items), element);
    }

    /** Remove and return the first entry's node; on an empty queue, nothing. */
    method Dequeue() returns (r: Option<T>)
      requires Valid()
      modifies this
      ensures Valid()
      ensures old(items) == [] ==> r == None && items == []
      ensures old(items) != [] ==> r == Some(old(items)[0].node) && items == old(items)[1..]
      ensures r.Some? ==> forall i :: 0 <= i < |old(items)| ==> old(items)[0].priority <= old(items)[i].priority
    {
      if items == [] {
        r := None;
      } else {
        r := Some(items[0].node);
        items := items[1..];
      }
    }

    function IsEmpty(): (b: bool)
      reads this
      ensures b <==> |items| == 0
    {
      |items| == 0
    }
  }

  /** The stopping point of the scan is determined by the two facts the loop establishes. */
  lemma InsertionPointUnique<T>(items: seq<Entry<T>>, priority: nat, i: nat)
    requires i <= |items|
    requires forall k :: 0 <= k < i ==> items[k].priority <= priority
    requires i < |items| ==> priority < items[i].priority
    ensures InsertionPoint(items, priority) == i
  {
  }

  // ---------------------------------------------------------------------------
  // reconstructPath
  // ---------------------------------------------------------------------------

  /** rank strictly decreases from each key to its parent. */
  ghost predicate RankedBy(parentMap: map<PathNode, PathNode>, rank: map<PathNode, nat>) {
    forall v :: v in parentMap ==> v in rank && parentMap[v] in rank && rank[parentMap[v]] < rank[v]
  }

  /** child's recorded parent is parent. */
  predicate ChildOf(parentMap: map<PathNode, PathNode>, child: PathNode, parent: PathNode) {
    child in parentMap && parentMap[child] == parent
  }

  /** Following parents always stops: the map has no cycle. */
  ghost predicate Acyclic(parentMap: map<PathNode, PathNode>) {
    exists rank :: RankedBy(parentMap, rank)
  }

  /**
   * `reconstructPath(parentMap, endNode)`: walk the parents back from the goal,
   * prepending each cell.
   */
  method ReconstructPath(parentMap: map<PathNode, PathNode>, endNode: PathNode) returns (path: seq<PathNode>)
    requires Acyclic(parentMap)
    ensures |path| > 0 && path[|path| - 1] == endNode
    ensures path[0] !in parentMap
    ensures forall i :: 0 <= i < |path| - 1 ==> ChildOf(parentMap, path[i + 1], path[i])
  {
    ghost var rank :| RankedBy(parentMap, rank);
    path := [];
    var current: Option<PathNode> := Some(endNode);
    while current.Some?
      invariant path == [] ==> current == Some(endNode)
      invariant path != [] ==> path[|path| - 1] == endNode
      invariant path != [] && current.Some? ==> path[0] in parentMap && parentMap[path[0]] == current.value
      invariant path != [] && current.None? ==> path[0] !in parentMap
      invariant forall i :: 0 <= i < |path| - 1 ==> ChildOf(parentMap, path[i + 1], path[i])
      decreases match current case None => 0 case Some(c) => if c in parentMap then rank[c] + 2 else 1
    {
      path := [current.value] + path;
      current := if current.value in parentMap then Some(parentMap[current.value]) else None;
    }
  }

  // ---------------------------------------------------------------------------
  // manhattanDistance
  // ---------------------------------------------------------------------------

  /** `manhattanDistance(a, b)`: |ax - bx| + |ay - by|. */
  function ManhattanDistance(a: PathNode, b: PathNode): nat {
    Abs(a.x - b.x) + Abs(a.y - b.y)
  }

  /** Symmetric, and zero exactly on cells with the same coordinates. */
  lemma ManhattanMetric(a: PathNode, b: PathNode)
    ensures ManhattanDistance(a, b) == ManhattanDistance(b, a)
    ensures ManhattanDistance(a, b) == 0 <==> SameCoords(a, b)
  {
  }

  /** 4-adjacent cells are exactly those at distance one. */
  lemma ManhattanAdjacent(a: PathNode, b: PathNode)
    ensures Adjacent(a, b) <==> ManhattanDistance(a, b) == 1
  {
  }

  /** The triangle inequality. */
  lemma ManhattanTriangle(a: PathNode, b: PathNode, c: PathNode)
    ensures ManhattanDistance(a, c) <= ManhattanDistance(a, b) + ManhattanDistance(b, c)
  {
  }

  /** Consistency: one move changes the estimate to any goal by at most one. */
  lemma ManhattanConsistent(a: PathNode, b: PathNode, goal: PathNode)
    requires Adjacent(a, b)
    ensures ManhattanDistance(a, goal) <= ManhattanDistance(b, goal) + 1
    ensures ManhattanDistance(b, goal) <= ManhattanDistance(a, goal) + 1
  {
    ManhattanTriangle(a, b, goal);
    ManhattanTriangle(b, a, goal);
  }

  /** Admissibility: no walk from c to goal makes fewer moves than the estimate. */
  lemma {:induction false} ManhattanAdmissible(nodes: seq<PathNode>, gridSize: nat, w: seq<PathNode>, c: PathNode, goal: PathNode)
    requires WalkBetween(nodes, gridSize, w, c, goal)
    ensures ManhattanDistance(c, goal) <= |w| - 1
  {
    if |w| == 1 {
      assert c == goal;
    } else {
      var tail := w[1..];
      forall i | 0 <= i < |tail| - 1 ensures Step(nodes, gridSize, tail[i], tail[i + 1]) {
        assert tail[i] == w[i + 1] && tail[i + 1] == w[i + 2];
      }
      assert Step(nodes, gridSize, w[0], w[1]);
      ManhattanAdmissible(nodes, gridSize, tail, w[1], goal);
      ManhattanConsistent(c, w[1], goal);
    }
  }
}
