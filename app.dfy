/**
 * The grid-snapshot transforms of the application: building a fresh grid,
 * clearing the animation states, editing one cell, dragging an endpoint,
 * and the two animation ticks that mark the exploration and the path.
 */
module App {
  import opened Seqs
  import opened Node
  import opened PathfindingUtils
  import opened SearchCommon

  datatype Position = Position(x: nat, y: nat)

  // ---------------------------------------------------------------------------
  // getStartPosition / getEndPosition / createNodes
  // ---------------------------------------------------------------------------

  /** `getStartPosition`: x is the floor of size * 0.2, y the floor of size * 0.8. */
  function StartPosition(size: nat): (p: Position)
    ensures p.x as real <= size as real * 0.2 < p.x as real + 1.0
    ensures p.y as real <= size as real * 0.8 < p.y as real + 1.0
    ensures size > 0 ==> p.x < size && p.y < size
  {
    Position(size / 5, 4 * size / 5)
  }

  /** `getEndPosition`: x is the floor of size * 0.8, y the floor of size * 0.2. */
  function EndPosition(size: nat): (p: Position)
    ensures p.x as real <= size as real * 0.8 < p.x as real + 1.0
    ensures p.y as real <= size as real * 0.2 < p.y as real + 1.0
    ensures size > 0 ==> p.x < size && p.y < size
  {
    Position(4 * size / 5, size / 5)
  }

  /** The two positions differ on every grid of at least two cells a side, and coincide on a 1x1 grid. */
  lemma PositionsApart(size: nat)
    ensures StartPosition(size) == EndPosition(size) <==> size <= 1
  {
    if size >= 2 {
      assert 4 * size / 5 > size / 5;
    }
  }

  /** The state createNodes gives cell (x, y): START wins over END where the positions coincide. */
  function CellValue(size: nat, x: nat, y: nat): NodeValue {
    var start := StartPosition(size);
    var end := EndPosition(size);
    if x == start.x && y == start.y then NodeValue.Start
    else if x == end.x && y == end.y then NodeValue.End
    else NodeValue.Empty
  }

  /** Row y of a fresh grid. */
  function Row(size: nat, y: nat): (row: seq<PathNode>)
    ensures |row| == size
  {
    seq(size, x requires 0 <= x < size => PathNode(x, y, CellValue(size, x, y)))
  }

  /** `createNodes(size)`: the rows for y = 0 .. size - 1, flattened. */
  function CreateNodes(size: nat): seq<PathNode> {
    Concat(seq(size, y requires 0 <= y < size => Row(size, y)))
  }

  /** An index below size * size splits into a row below size and a column below size. */
  lemma RowMajorSplit(size: nat, i: nat)
    requires i < size * size
    ensures i / size < size && i % size < size && i == (i / size) * size + i % size
  {
    if i / size >= size {
      MulMonotone(size, i / size, size);
    }
  }

  /** Cell i of the flattened rows, for i below size * size. */
  lemma CreateNodesCell(size: nat, i: nat)
    requires i < size * size
    ensures |CreateNodes(size)| == size * size
    ensures var c := CreateNodes(size)[i];
      c.x < size && c.y < size && c.y * size + c.x == i && c.value == CellValue(size, c.x, c.y)
  {
    var rows := seq(size, y requires 0 <= y < size => Row(size, y));
    RowMajorSplit(size, i);
    var y, x := i / size, i % size;
    ConcatUniformIndex(rows, size, y, x);
    assert CreateNodes(size)[i] == rows[y][x] == PathNode(x, y, CellValue(size, x, y));
  }

  /** The fresh grid has size * size cells in row-major order: index y * size + x holds (x, y). */
  lemma CreateNodesLayout(size: nat)
    ensures |CreateNodes(size)| == size * size
    ensures forall i :: 0 <= i < |CreateNodes(size)| ==>
      var c := CreateNodes(size)[i];
      c.x < size && c.y < size && c.y * size + c.x == i && c.value == CellValue(size, c.x, c.y)
  {
    var rows := seq(size, y requires 0 <= y < size => Row(size, y));
    ConcatUniformLength(rows, size);
    forall i | 0 <= i < |CreateNodes(size)|
      ensures var c := CreateNodes(size)[i];
        c.x < size && c.y < size && c.y * size + c.x == i && c.value == CellValue(size, c.x, c.y)
    {
      CreateNodesCell(size, i);
    }
  }

  /** Read the other way: the cell at index y * size + x is (x, y). */
  lemma CreateNodesAt(size: nat, x: nat, y: nat)
    requires x < size && y < size
    ensures y * size + x < |CreateNodes(size)|
    ensures CreateNodes(size)[y * size + x] == PathNode(x, y, CellValue(size, x, y))
  {
    var rows := seq(size, y requires 0 <= y < size => Row(size, y));
    ConcatUniformIndex(rows, size, y, x);
  }

  /** Exactly one cell of the snapshot holds state v. */
  predicate ExactlyOne(nodes: seq<PathNode>, v: NodeValue) {
    exists k :: 0 <= k < |nodes| && nodes[k].value == v
      && forall i :: 0 <= i < |nodes| && nodes[i].value == v ==> i == k
  }

  /** No two cells of a fresh grid share coordinates. */
  lemma CreateNodesDistinct(size: nat)
    ensures DistinctIds(CreateNodes(size))
  {
    var g := CreateNodes(size);
    CreateNodesLayout(size);
    forall i, j | 0 <= i < |g| && 0 <= j < |g| && SameCoords(g[i], g[j]) ensures i == j {
      assert g[i].y * size + g[i].x == i;
      assert g[j].y * size + g[j].x == j;
    }
  }

  /** The only cell of the snapshot in state v is the one a search's lookup of v finds. */
  lemma OnlyCellFound(nodes: seq<PathNode>, k: nat)
    requires k < |nodes| && IsEndpoint(nodes[k])
    requires forall i :: 0 <= i < |nodes| && nodes[i].value == nodes[k].value ==> i == k
    ensures nodes[k].value == NodeValue.Start ==> FindStartAndEnd(nodes).startNode == Some(nodes[k])
    ensures nodes[k].value == NodeValue.End ==> FindStartAndEnd(nodes).endNode == Some(nodes[k])
  {
    var ep := FindStartAndEnd(nodes);
    if nodes[k].value == NodeValue.Start {
      assert ep.startNode.Some?;
      var i :| 0 <= i < |nodes| && nodes[i] == ep.startNode.value && nodes[i].value == NodeValue.Start
        && forall j :: 0 <= j < i ==> nodes[j].value != NodeValue.Start;
      assert i == k;
    } else {
      assert ep.endNode.Some?;
      var i :| 0 <= i < |nodes| && nodes[i] == ep.endNode.value && nodes[i].value == NodeValue.End
        && forall j :: 0 <= j < i ==> nodes[j].value != NodeValue.End;
      assert i == k;
    }
  }

  /**
   * Where p is the only position createNodes gives state v, the cell at p,
   * index k = p.y * size + p.x, is the only cell of the fresh grid in state v.
   */
  lemma CreateNodesOnly(size: nat, p: Position, v: NodeValue) returns (k: nat)
    requires p.x < size && p.y < size && CellValue(size, p.x, p.y) == v
    requires forall x: nat, y: nat :: CellValue(size, x, y) == v ==> x == p.x && y == p.y
    ensures var g := CreateNodes(size);
      && k == p.y * size + p.x && k < |g| && g[k] == PathNode(p.x, p.y, v)
      && forall i :: 0 <= i < |g| && g[i].value == v ==> i == k
  {
    var g := CreateNodes(size);
    CreateNodesLayout(size);
    CreateNodesAt(size, p.x, p.y);
    k := p.y * size + p.x;
    forall i | 0 <= i < |g| && g[i].value == v ensures i == k {
      assert g[i].y * size + g[i].x == i;
    }
  }

  /**
   * On every grid of at least two cells a side (the offered sizes 10, 20, 30
   * and 50 among them) the fresh grid has distinct ids, exactly one START at
   * the start position, exactly one END at the end position, and every other
   * cell EMPTY; so a search finds exactly those two cells as its endpoints.
   */
  lemma CreateNodesEndpoints(size: nat)
    requires size >= 2
    ensures var g := CreateNodes(size);
      var s := StartPosition(size);
      var e := EndPosition(size);
      && DistinctIds(g) && UniqueEndpoints(g)
      && ExactlyOne(g, NodeValue.Start) && ExactlyOne(g, NodeValue.End)
      && (forall i :: 0 <= i < |g| && !(g[i].x == s.x && g[i].y == s.y) && !(g[i].x == e.x && g[i].y == e.y) ==>
            g[i].value == NodeValue.Empty)
      && FindStartAndEnd(g) == Endpoints(Some(PathNode(s.x, s.y, NodeValue.Start)), Some(PathNode(e.x, e.y, NodeValue.End)))
  {
    var g := CreateNodes(size);
    var s := StartPosition(size);
    var e := EndPosition(size);
    CreateNodesLayout(size);
    CreateNodesDistinct(size);
    PositionsApart(size);
    var ks := CreateNodesOnly(size, s, NodeValue.Start);
    var ke := CreateNodesOnly(size, e, NodeValue.End);
    OnlyCellFound(g, ks);
    OnlyCellFound(g, ke);
    assert ExactlyOne(g, NodeValue.Start);
    assert ExactlyOne(g, NodeValue.End);
  }

  /** On a 1x1 grid the start and end positions coincide, START wins, and there is no END cell. */
  lemma CreateNodesSingleCell()
    ensures CreateNodes(1) == [PathNode(0, 0, NodeValue.Start)]
    ensures FindStartAndEnd(CreateNodes(1)).endNode.None?
  {
    CreateNodesLayout(1);
    assert CreateNodes(1)[0] == PathNode(0, 0, NodeValue.Start);
  }

  // ---------------------------------------------------------------------------
  // clearVisualization
  // ---------------------------------------------------------------------------

  /** States that only the animation sets. */
  predicate IsTrace(v: NodeValue) {
    v == NodeValue.Visited || v == NodeValue.Exploring || v == NodeValue.Path
  }

  function ClearCell(c: PathNode): PathNode {
    if IsTrace(c.value) then PathNode(c.x, c.y, NodeValue.Empty) else c
  }

  /**
   * `clearVisualization(nodes)`: VISITED, EXPLORING and PATH cells become
   * EMPTY at the same place; every other cell, and the order, stay as they are.
   */
  function ClearVisualization(nodes: seq<PathNode>): (r: seq<PathNode>)
    ensures |r| == |nodes|
    ensures forall i :: 0 <= i < |r| ==> SameCoords(r[i], nodes[i]) && !IsTrace(r[i].value)
    ensures forall i :: 0 <= i < |r| && IsTrace(nodes[i].value) ==> r[i].value == NodeValue.Empty
    ensures forall i :: 0 <= i < |r| && !IsTrace(nodes[i].value) ==> r[i] == nodes[i]
  {
    seq(|nodes|, i requires 0 <= i < |nodes| => ClearCell(nodes[i]))
  }

  /** Clearing twice is clearing once. */
  lemma ClearVisualizationIdempotent(nodes: seq<PathNode>)
    ensures ClearVisualization(ClearVisualization(nodes)) == ClearVisualization(nodes)
  {
  }

  /** Snapshots whose cells pairwise share coordinates have distinct ids together or not at all. */
  lemma SameLayoutDistinct(a: seq<PathNode>, b: seq<PathNode>)
    requires |a| == |b| && forall i :: 0 <= i < |a| ==> SameCoords(a[i], b[i])
    ensures DistinctIds(a) <==> DistinctIds(b)
  {
    if DistinctIds(a) {
      forall i, j | 0 <= i < |b| && 0 <= j < |b| && SameCoords(b[i], b[j]) ensures i == j {
        assert SameCoords(a[i], a[j]);
      }
    }
    if DistinctIds(b) {
      forall i, j | 0 <= i < |a| && 0 <= j < |a| && SameCoords(a[i], a[j]) ensures i == j {
        assert SameCoords(b[i], b[j]);
      }
    }
  }

  /** Snapshots that agree on every START and END cell agree on which cell is the first holding v. */
  lemma FirstWithCarries(a: seq<PathNode>, b: seq<PathNode>, v: NodeValue, c: PathNode)
    requires |a| == |b| && (v == NodeValue.Start || v == NodeValue.End)
    requires forall i :: 0 <= i < |a| && (IsEndpoint(a[i]) || IsEndpoint(b[i])) ==> a[i] == b[i]
    requires IsFirstWith(a, v, c)
    ensures IsFirstWith(b, v, c)
  {
    var i :| 0 <= i < |a| && a[i] == c && c.value == v && forall j :: 0 <= j < i ==> a[j].value != v;
    assert b[i] == c;
  }

  /** The first cell holding v is unique. */
  lemma FirstWithUnique(a: seq<PathNode>, v: NodeValue, c: PathNode, d: PathNode)
    requires IsFirstWith(a, v, c) && IsFirstWith(a, v, d)
    ensures c == d
  {
    var i :| 0 <= i < |a| && a[i] == c && c.value == v && forall j :: 0 <= j < i ==> a[j].value != v;
    var k :| 0 <= k < |a| && a[k] == d && d.value == v && forall j :: 0 <= j < k ==> a[j].value != v;
    assert !(i < k) && !(k < i);
  }

  /** Snapshots that agree on every START and END cell give a search the same endpoints. */
  lemma SameEndpointsFound(a: seq<PathNode>, b: seq<PathNode>)
    requires |a| == |b|
    requires forall i :: 0 <= i < |a| && (IsEndpoint(a[i]) || IsEndpoint(b[i])) ==> a[i] == b[i]
    ensures FindStartAndEnd(a) == FindStartAndEnd(b)
  {
    var ea, eb := FindStartAndEnd(a), FindStartAndEnd(b);
    if eb.startNode.Some? {
      FirstWithCarries(b, a, NodeValue.Start, eb.startNode.value);
    }
    if ea.startNode.Some? {
      FirstWithCarries(a, b, NodeValue.Start, ea.startNode.value);
      FirstWithUnique(b, NodeValue.Start, ea.startNode.value, eb.startNode.value);
    }
    if eb.endNode.Some? {
      FirstWithCarries(b, a, NodeValue.End, eb.endNode.value);
    }
    if ea.endNode.Some? {
      FirstWithCarries(a, b, NodeValue.End, ea.endNode.value);
      FirstWithUnique(b, NodeValue.End, ea.endNode.value, eb.endNode.value);
    }
  }

  /** Clearing keeps walls and endpoints, so a search after a clear sees the same START and END. */
  lemma ClearKeepsEndpoints(nodes: seq<PathNode>)
    ensures FindStartAndEnd(ClearVisualization(nodes)) == FindStartAndEnd(nodes)
    ensures DistinctIds(ClearVisualization(nodes)) <==> DistinctIds(nodes)
  {
    SameEndpointsFound(ClearVisualization(nodes), nodes);
    SameLayoutDistinct(ClearVisualization(nodes), nodes);
  }

  // ---------------------------------------------------------------------------
  // handleNodeUpdate / handleNodeDrop mappers
  // ---------------------------------------------------------------------------

  /** The cell lies at (x, y). */
  predicate At(c: PathNode, x: int, y: int) {
    c.x == x && c.y == y
  }

  /** The mapper of `handleNodeUpdate(x, y, newState)`. */
  function UpdateNode(nodes: seq<PathNode>, x: int, y: int, newState: NodeValue): (r: seq<PathNode>)
    ensures |r| == |nodes|
    ensures forall i :: 0 <= i < |r| ==> SameCoords(r[i], nodes[i])
    ensures forall i :: 0 <= i < |r| && At(nodes[i], x, y) ==> r[i].value == newState
    ensures forall i :: 0 <= i < |r| && !At(nodes[i], x, y) ==> r[i] == nodes[i]
  {
    seq(|nodes|, i requires 0 <= i < |nodes| =>
      if At(nodes[i], x, y) then PathNode(nodes[i].x, nodes[i].y, newState) else nodes[i])
  }

  /** With distinct ids, an update writes the one cell at (x, y), and nothing when there is none. */
  lemma UpdateNodeSingleWrite(nodes: seq<PathNode>, x: int, y: int, newState: NodeValue)
    requires DistinctIds(nodes)
    ensures FindAt(nodes, x, y).None? ==> UpdateNode(nodes, x, y, newState) == nodes
    ensures forall k :: 0 <= k < |nodes| && At(nodes[k], x, y) ==>
      UpdateNode(nodes, x, y, newState) == nodes[k := PathNode(nodes[k].x, nodes[k].y, newState)]
    ensures DistinctIds(UpdateNode(nodes, x, y, newState))
  {
    var r := UpdateNode(nodes, x, y, newState);
    FindAtFacts(nodes, x, y);
    forall k | 0 <= k < |nodes| && At(nodes[k], x, y)
      ensures r == nodes[k := PathNode(nodes[k].x, nodes[k].y, newState)]
    {
      forall i | 0 <= i < |nodes| && i != k ensures r[i] == nodes[i] {
        assert !SameCoords(nodes[i], nodes[k]);
      }
    }
    assert forall i, j :: 0 <= i < |r| && 0 <= j < |r| ==>
      (SameCoords(r[i], r[j]) <==> SameCoords(nodes[i], nodes[j]));
  }

  /**
   * The mapper of `handleNodeDrop(fromX, fromY, toX, toY)`: unchanged when
   * either cell is missing or the target is START or END; otherwise the cells
   * at the source become EMPTY and the others at the target take the dragged
   * state.
   */
  function DropNode(nodes: seq<PathNode>, fromX: int, fromY: int, toX: int, toY: int): (r: seq<PathNode>)
    ensures |r| == |nodes|
    ensures forall i :: 0 <= i < |r| ==> SameCoords(r[i], nodes[i])
    ensures FindAt(nodes, fromX, fromY).None? || FindAt(nodes, toX, toY).None? ==> r == nodes
    ensures FindAt(nodes, toX, toY).Some? && IsEndpoint(FindAt(nodes, toX, toY).value) ==> r == nodes
    ensures FindAt(nodes, fromX, fromY).Some? && FindAt(nodes, toX, toY).Some? && !IsEndpoint(FindAt(nodes, toX, toY).value) ==>
      forall i :: 0 <= i < |r| ==>
        && (At(nodes[i], fromX, fromY) ==> r[i].value == NodeValue.Empty)
        && (!At(nodes[i], fromX, fromY) && At(nodes[i], toX, toY) ==> r[i].value == FindAt(nodes, fromX, fromY).value.value)
        && (!At(nodes[i], fromX, fromY) && !At(nodes[i], toX, toY) ==> r[i] == nodes[i])
  {
    var fromNode := FindAt(nodes, fromX, fromY);
    var toNode := FindAt(nodes, toX, toY);
    if fromNode.None? || toNode.None? then nodes
    else if toNode.value.value == NodeValue.Start || toNode.value.value == NodeValue.End then nodes
    else
      var draggedValue := fromNode.value.value;
      seq(|nodes|, i requires 0 <= i < |nodes| =>
        if At(nodes[i], fromX, fromY) then PathNode(nodes[i].x, nodes[i].y, NodeValue.Empty)
        else if At(nodes[i], toX, toY) then PathNode(nodes[i].x, nodes[i].y, draggedValue)
        else nodes[i])
  }

  /** With distinct ids, a drop from cell f onto a cell t that is not START or END writes exactly those two cells. */
  lemma DropWrites(nodes: seq<PathNode>, f: nat, t: nat)
    requires DistinctIds(nodes) && f < |nodes| && t < |nodes| && f != t && !IsEndpoint(nodes[t])
    ensures DropNode(nodes, nodes[f].x, nodes[f].y, nodes[t].x, nodes[t].y)
      == nodes[f := PathNode(nodes[f].x, nodes[f].y, NodeValue.Empty)][t := PathNode(nodes[t].x, nodes[t].y, nodes[f].value)]
  {
    var r := DropNode(nodes, nodes[f].x, nodes[f].y, nodes[t].x, nodes[t].y);
    FindAtOwnCoords(nodes, nodes[f]);
    FindAtOwnCoords(nodes, nodes[t]);
    var w := nodes[f := PathNode(nodes[f].x, nodes[f].y, NodeValue.Empty)][t := PathNode(nodes[t].x, nodes[t].y, nodes[f].value)];
    forall i | 0 <= i < |nodes| ensures r[i] == w[i] {
      if i != f {
        assert !SameCoords(nodes[i], nodes[f]);
      }
      if i != t {
        assert !SameCoords(nodes[i], nodes[t]);
      }
    }
  }

  /**
   * Dragging START or END onto a cell that is neither, in a grid with
   * distinct ids, moves it: the source becomes EMPTY, the target takes the
   * endpoint's state, and a grid with exactly one START and one END still has
   * exactly one of each.
   */
  lemma DropMovesEndpoint(nodes: seq<PathNode>, f: nat, t: nat)
    requires DistinctIds(nodes) && f < |nodes| && t < |nodes|
    requires IsEndpoint(nodes[f]) && !IsEndpoint(nodes[t])
    ensures var r := DropNode(nodes, nodes[f].x, nodes[f].y, nodes[t].x, nodes[t].y);
      && r == nodes[f := PathNode(nodes[f].x, nodes[f].y, NodeValue.Empty)][t := PathNode(nodes[t].x, nodes[t].y, nodes[f].value)]
      && DistinctIds(r)
      && (ExactlyOne(nodes, NodeValue.Start) ==> ExactlyOne(r, NodeValue.Start))
      && (ExactlyOne(nodes, NodeValue.End) ==> ExactlyOne(r, NodeValue.End))
  {
    var r := DropNode(nodes, nodes[f].x, nodes[f].y, nodes[t].x, nodes[t].y);
    DropWrites(nodes, f, t);
    SameLayoutDistinct(r, nodes);
    MoveKeepsOne(nodes, f, t, NodeValue.Start);
    MoveKeepsOne(nodes, f, t, NodeValue.End);
  }

  /** Moving the state of cell f to cell t (f emptied, t not holding v) keeps "exactly one v". */
  lemma MoveKeepsOne(nodes: seq<PathNode>, f: nat, t: nat, v: NodeValue)
    requires f < |nodes| && t < |nodes| && f != t && v != NodeValue.Empty && nodes[t].value != v
    ensures var w := nodes[f := PathNode(nodes[f].x, nodes[f].y, NodeValue.Empty)][t := PathNode(nodes[t].x, nodes[t].y, nodes[f].value)];
      ExactlyOne(nodes, v) ==> ExactlyOne(w, v)
  {
    var w := nodes[f := PathNode(nodes[f].x, nodes[f].y, NodeValue.Empty)][t := PathNode(nodes[t].x, nodes[t].y, nodes[f].value)];
    if ExactlyOne(nodes, v) {
      var k :| 0 <= k < |nodes| && nodes[k].value == v && forall i :: 0 <= i < |nodes| && nodes[i].value == v ==> i == k;
      var k' := if k == f then t else k;
      assert forall i :: 0 <= i < |w| ==>
        w[i].value == if i == t then nodes[f].value else if i == f then NodeValue.Empty else nodes[i].value;
      assert w[k'].value == v;
      forall i | 0 <= i < |w| && w[i].value == v ensures i == k' {
        if i == t {
          assert nodes[f].value == v;
        } else {
          assert nodes[i].value == v;
        }
      }
    }
  }

  // ---------------------------------------------------------------------------
  // The animation ticks passed to setNodes
  // ---------------------------------------------------------------------------

  /** `new Set(currentStepNodes.map(n => n.id))`, built one cell at a time. */
  function StepIds(step: seq<PathNode>): set<string> {
    if step == [] then {} else StepIds(step[..|step| - 1]) + {step[|step| - 1].Id()}
  }

  /** The set holds the ids of the step's cells and nothing else. */
  lemma {:induction false} StepIdsMembers(step: seq<PathNode>, id: string)
    ensures id in StepIds(step) <==> exists n :: n in step && n.Id() == id
  {
    if step != [] {
      var init := step[..|step| - 1];
      StepIdsMembers(init, id);
      if exists n :: n in init && n.Id() == id {
        var n :| n in init && n.Id() == id;
        assert n in step;
      }
      if exists n :: n in step && n.Id() == id {
        var n :| n in step && n.Id() == id;
        if n != step[|step| - 1] {
          assert n in init;
        }
      }
    }
  }

  /** What one exploration tick makes of one cell. */
  function ExploreCell(c: PathNode, exploringIds: set<string>): PathNode {
    if c.Id() in exploringIds && !IsEndpoint(c) then PathNode(c.x, c.y, NodeValue.Exploring)
    else if c.value == NodeValue.Exploring then PathNode(c.x, c.y, NodeValue.Visited)
    else c
  }

  /**
   * A tick marks a cell EXPLORING exactly when a cell of the current step has
   * its coordinates and it is not START or END; an EXPLORING cell outside the
   * step becomes VISITED; every other cell, START and END among them, is kept.
   */
  lemma ExploreCellMeaning(c: PathNode, step: seq<PathNode>)
    ensures var r := ExploreCell(c, StepIds(step));
      && SameCoords(r, c)
      && (r.value == NodeValue.Exploring <==> !IsEndpoint(c) && exists n :: n in step && SameCoords(n, c))
      && (c.value == NodeValue.Exploring && r.value != NodeValue.Exploring ==> r.value == NodeValue.Visited)
      && (r.value != NodeValue.Exploring && c.value != NodeValue.Exploring ==> r == c)
      && (IsEndpoint(c) ==> r == c)
  {
    var ids := StepIds(step);
    StepIdsMembers(step, c.Id());
    if c.Id() in ids {
      var n :| n in step && n.Id() == c.Id();
      IdInjective(n, c);
    }
    if exists n :: n in step && SameCoords(n, c) {
      var n :| n in step && SameCoords(n, c);
      IdInjective(n, c);
      assert n.Id() in ids;
    }
  }

  /**
   * The exploration-tick updater: a copy of the grid, then one pass over it
   * that replaces every cell by what `ExploreCell` makes of it (a cell that
   * neither branch touches is written back unchanged).
   */
  method ExplorationTick(prevNodes: seq<PathNode>, currentStepNodes: seq<PathNode>) returns (newNodes: seq<PathNode>)
    ensures |newNodes| == |prevNodes|
    ensures forall i :: 0 <= i < |prevNodes| ==> newNodes[i] == ExploreCell(prevNodes[i], StepIds(currentStepNodes))
    ensures DistinctIds(newNodes) <==> DistinctIds(prevNodes)
    ensures FindStartAndEnd(newNodes) == FindStartAndEnd(prevNodes)
  {
    var copy := new PathNode[|prevNodes|](i requires 0 <= i < |prevNodes| => prevNodes[i]);
    var exploringIds := StepIds(currentStepNodes);
    var idx := 0;
    while idx < copy.Length
      invariant 0 <= idx <= copy.Length
      invariant forall i :: 0 <= i < idx ==> copy[i] == ExploreCell(prevNodes[i], exploringIds)
      invariant forall i :: idx <= i < copy.Length ==> copy[i] == prevNodes[i]
    {
      copy[idx] := ExploreCell(copy[idx], exploringIds);
      idx := idx + 1;
    }
    newNodes := copy[..];
    forall i | 0 <= i < |prevNodes|
      ensures SameCoords(newNodes[i], prevNodes[i])
      ensures IsEndpoint(newNodes[i]) || IsEndpoint(prevNodes[i]) ==> newNodes[i] == prevNodes[i]
    {
      ExploreCellMeaning(prevNodes[i], currentStepNodes);
    }
    SameLayoutDistinct(newNodes, prevNodes);
    SameEndpointsFound(newNodes, prevNodes);
  }

  /** i is the first index of a cell at p's coordinates. */
  predicate IsFirstAt(nodes: seq<PathNode>, i: nat, p: PathNode)
    requires i < |nodes|
  {
    SameCoords(nodes[i], p) && forall j :: 0 <= j < i ==> !SameCoords(nodes[j], p)
  }

  /**
   * The path-tick updater: a copy of the grid in which the first cell with
   * pathNode's id becomes PATH, unless it is START or END. No other cell
   * changes, and START and END never do.
   */
  method PathTick(prevNodes: seq<PathNode>, pathNode: PathNode) returns (newNodes: seq<PathNode>)
    ensures |newNodes| == |prevNodes|
    ensures forall i :: 0 <= i < |prevNodes| ==> SameCoords(newNodes[i], prevNodes[i])
    ensures forall i :: 0 <= i < |prevNodes| && IsEndpoint(prevNodes[i]) ==> newNodes[i] == prevNodes[i]
    ensures forall i :: 0 <= i < |prevNodes| && newNodes[i] != prevNodes[i] ==>
      IsFirstAt(prevNodes, i, pathNode) && newNodes[i].value == NodeValue.Path
    ensures forall i :: 0 <= i < |prevNodes| && IsFirstAt(prevNodes, i, pathNode) && !IsEndpoint(prevNodes[i]) ==>
      newNodes[i].value == NodeValue.Path
    ensures DistinctIds(newNodes) <==> DistinctIds(prevNodes)
    ensures FindStartAndEnd(newNodes) == FindStartAndEnd(prevNodes)
  {
    var copy := new PathNode[|prevNodes|](i requires 0 <= i < |prevNodes| => prevNodes[i]);
    assert copy[..] == prevNodes;
    var idx := FindIndex(copy[..], (n: PathNode) => n.Id() == pathNode.Id());
    forall j | 0 <= j < |prevNodes| ensures (prevNodes[j].Id() == pathNode.Id()) == SameCoords(prevNodes[j], pathNode) {
      IdInjective(prevNodes[j], pathNode);
    }
    if idx != -1 && copy[idx].value != NodeValue.Start && copy[idx].value != NodeValue.End {
      copy[idx] := PathNode(pathNode.x, pathNode.y, NodeValue.Path);
    }
    newNodes := copy[..];
    forall i | 0 <= i < |prevNodes| && IsFirstAt(prevNodes, i, pathNode) ensures i == idx {
      if idx == -1 || idx < i {
        assert false;
      }
    }
    SameLayoutDistinct(newNodes, prevNodes);
    SameEndpointsFound(newNodes, prevNodes);
  }
}
