/**
 * The grid cell of the path finder: a value type holding its coordinates and
 * its state, from which a string id is derived.
 */
module Node {

  /** The seven states a cell can be in. */
  datatype NodeValue = Empty | Blocked | Visited | Exploring | Start | End | Path

  /** The string each state stands for in the application. */
  function ValueName(v: NodeValue): string {
    match v
    case Empty => "empty"
    case Blocked => "blocked"
    case Visited => "visited"
    case Exploring => "exploring"
    case Start => "start"
    case End => "end"
    case Path => "path"
  }

  /** The seven state names are pairwise distinct. */
  lemma ValueNamesDistinct(a: NodeValue, b: NodeValue)
    ensures ValueName(a) == ValueName(b) <==> a == b
  {
  }

  /**
   * One cell. Cells are never changed in place: the application builds a new
   * cell whenever a state changes. The value defaults to `Empty`.
   */
  datatype PathNode = PathNode(x: nat, y: nat, value: NodeValue := NodeValue.Empty)
  {
    /** The id `"x-y"`, a function of the coordinates alone. */
    function Id(): string {
      NatToString(x) + "-" + NatToString(y)
    }
  }

  /** The constructor's value defaults to `Empty` and the id ignores the value. */
  lemma DefaultValueAndId(x: nat, y: nat, v: NodeValue)
    ensures PathNode(x, y).value == NodeValue.Empty
    ensures PathNode(x, y, v).Id() == PathNode(x, y).Id()
  {
  }

  predicate SameCoords(a: PathNode, b: PathNode) {
    a.x == b.x && a.y == b.y
  }

  predicate IsEndpoint(c: PathNode) {
    c.value == NodeValue.Start || c.value == NodeValue.End
  }

  function DigitChar(d: nat): (c: char)
    requires d < 10
    ensures '0' <= c <= '9'
  {
    "0123456789"[d]
  }

  /** Decimal text of a natural number, without leading zeros, as `${n}` prints it. */
  function NatToString(n: nat): (s: string)
    ensures |s| > 0
    ensures forall i :: 0 <= i < |s| ==> '0' <= s[i] <= '9'
    ensures |s| == 1 <==> n < 10
  {
    if n < 10 then [DigitChar(n)] else NatToString(n / 10) + [DigitChar(n % 10)]
  }

  lemma DigitCharInjective(a: nat, b: nat)
    requires a < 10 && b < 10 && DigitChar(a) == DigitChar(b)
    ensures a == b
  {
  }

  /** Distinct numbers print differently. */
  lemma {:induction false} NatToStringInjective(a: nat, b: nat)
    requires NatToString(a) == NatToString(b)
    ensures a == b
  {
    var s := NatToString(a);
    if a < 10 {
      DigitCharInjective(a, b);
    } else {
      assert b >= 10;
      assert s[|s| - 1] == DigitChar(a % 10) == DigitChar(b % 10);
      DigitCharInjective(a % 10, b % 10);
      assert s[..|s| - 1] == NatToString(a / 10) == NatToString(b / 10);
      NatToStringInjective(a / 10, b / 10);
    }
  }

  /** Splitting `p + "-" + q` at the dash is unique when p and p' hold no dash. */
  lemma DashSplit(p: string, q: string, p': string, q': string)
    requires forall i :: 0 <= i < |p| ==> p[i] != '-'
    requires forall i :: 0 <= i < |p'| ==> p'[i] != '-'
    requires p + "-" + q == p' + "-" + q'
    ensures p == p' && q == q'
  {
    var s := p + "-" + q;
    assert s[|p|] == '-';
    assert s[|p'|] == '-';
    assert |p| == |p'|;
    assert p == s[..|p|] == p';
    assert q == s[|p| + 1..] == q';
  }

  /** For non-negative coordinates, the id determines the coordinates. */
  lemma IdInjective(a: PathNode, b: PathNode)
    ensures a.Id() == b.Id() <==> SameCoords(a, b)
  {
    if a.Id() == b.Id() {
      DashSplit(NatToString(a.x), NatToString(a.y), NatToString(b.x), NatToString(b.y));
      NatToStringInjective(a.x, b.x);
      NatToStringInjective(a.y, b.y);
    }
  }

  /** No two cells of a grid snapshot share coordinates (hence ids). */
  predicate DistinctIds(nodes: seq<PathNode>) {
    forall i, j {:trigger SameCoords(nodes[i], nodes[j])} ::
      0 <= i < |nodes| && 0 <= j < |nodes| && SameCoords(nodes[i], nodes[j]) ==> i == j
  }

  /** DistinctIds says exactly that the string ids of the cells are pairwise distinct. */
  lemma DistinctIdsMeansDistinctStrings(nodes: seq<PathNode>)
    ensures DistinctIds(nodes) <==>
      forall i, j :: 0 <= i < j < |nodes| ==> nodes[i].Id() != nodes[j].Id()
  {
    forall i, j | 0 <= i < |nodes| && 0 <= j < |nodes| {
      IdInjective(nodes[i], nodes[j]);
    }
  }

  /** In such a snapshot a cell is identified by its id. */
  lemma IdIdentifiesCell(nodes: seq<PathNode>, a: PathNode, b: PathNode)
    requires DistinctIds(nodes) && a in nodes && b in nodes
    ensures a.Id() == b.Id() <==> a == b
  {
    IdInjective(a, b);
  }
}
