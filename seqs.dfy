/** Small sequence vocabulary shared by the grid model and the searches. */
module Seqs {

  datatype Option<+T> = None | Some(value: T)

  /** The elements of a sequence, as a set. */
  function Elems<T>(s: seq<T>): set<T> {
    set x | x in s
  }

  /** No element occurs twice. */
  predicate Distinct<T(==)>(s: seq<T>) {
    forall i, j :: 0 <= i < j < |s| ==> s[i] != s[j]
  }

  /** The concatenation of a sequence of sequences (JavaScript's `flat()`). */
  function Concat<T>(ss: seq<seq<T>>): seq<T> {
    if ss == [] then [] else Concat(ss[..|ss| - 1]) + ss[|ss| - 1]
  }

  lemma ConcatAppend<T>(ss: seq<seq<T>>, s: seq<T>)
    ensures Concat(ss + [s]) == Concat(ss) + s
  {
    assert (ss + [s])[..|ss|] == ss;
  }

  /** An element of the concatenation lies in one of the parts, and vice versa. */
  lemma {:induction false} InConcat<T>(ss: seq<seq<T>>, x: T)
    ensures x in Concat(ss) <==> exists k :: 0 <= k < |ss| && x in ss[k]
  {
    if ss != [] {
      var init := ss[..|ss| - 1];
      InConcat(init, x);
      if x in Concat(ss) {
        if x !in Concat(init) {
          assert x in ss[|ss| - 1];
        } else {
          var k :| 0 <= k < |init| && x in init[k];
          assert x in ss[k];
        }
      }
      if exists k :: 0 <= k < |ss| && x in ss[k] {
        var k :| 0 <= k < |ss| && x in ss[k];
        if k < |ss| - 1 {
          assert x in init[k];
        }
      }
    }
  }

  /** Total length of the concatenation of rows that all have length m. */
  lemma {:induction false} ConcatUniformLength<T>(ss: seq<seq<T>>, m: nat)
    requires forall k :: 0 <= k < |ss| ==> |ss[k]| == m
    ensures |Concat(ss)| == |ss| * m
  {
    if ss != [] {
      ConcatUniformLength(ss[..|ss| - 1], m);
      calc {
        |Concat(ss)|;
        (|ss| - 1) * m + m;
        |ss| * m;
      }
    }
  }

  lemma MulMonotone(a: nat, b: nat, m: nat)
    requires a <= b
    ensures a * m <= b * m
  {
  }

  /** Row-major indexing into the concatenation of rows that all have length m. */
  lemma {:induction false} ConcatUniformIndex<T>(ss: seq<seq<T>>, m: nat, k: nat, j: nat)
    requires forall r :: 0 <= r < |ss| ==> |ss[r]| == m
    requires k < |ss| && j < m
    ensures |Concat(ss)| == |ss| * m
    ensures k * m + j < |Concat(ss)| && Concat(ss)[k * m + j] == ss[k][j]
  {
    ConcatUniformLength(ss, m);
    var init := ss[..|ss| - 1];
    var rows := |ss| - 1;
    ConcatUniformLength(init, m);
    assert |Concat(init)| == rows * m;
    assert Concat(ss) == Concat(init) + ss[rows];
    if k < rows {
      ConcatUniformIndex(init, m, k, j);
      MulMonotone(k + 1, rows, m);
      assert (k + 1) * m == k * m + m;
      assert Concat(ss)[k * m + j] == Concat(init)[k * m + j];
    } else {
      assert k * m + j == |Concat(init)| + j;
    }
  }

  /** A sequence of distinct elements is no longer than any set holding them all. */
  lemma {:induction false} DistinctBounded<T>(s: seq<T>, bound: set<T>)
    requires Distinct(s)
    requires forall i :: 0 <= i < |s| ==> s[i] in bound
    ensures |s| <= |bound|
  {
    if s != [] {
      var last := s[|s| - 1];
      var init := s[..|s| - 1];
      forall i | 0 <= i < |init| ensures init[i] in bound - {last} {
        assert init[i] == s[i];
      }
      DistinctBounded(init, bound - {last});
    }
  }

  /** A set of elements of a sequence has at most as many members as the sequence. */
  lemma {:induction false} ElemsBounded<T>(s: seq<T>)
    ensures |Elems(s)| <= |s|
  {
    if s != [] {
      var init := s[..|s| - 1];
      ElemsBounded(init);
      assert Elems(s) == Elems(init) + {s[|s| - 1]};
    }
  }

  /** Two duplicate-free sequences with no common element concatenate to a duplicate-free one. */
  lemma DistinctAppend<T>(a: seq<T>, b: seq<T>)
    requires Distinct(a) && Distinct(b)
    requires forall x :: x in a ==> x !in b
    ensures Distinct(a + b)
  {
    var c := a + b;
    forall i, j | 0 <= i < j < |c| ensures c[i] != c[j] {
      if j < |a| {
        assert c[i] == a[i] && c[j] == a[j];
      } else if i < |a| {
        assert c[i] == a[i] && c[j] == b[j - |a|];
        assert a[i] in a;
      } else {
        assert c[i] == b[i - |a|] && c[j] == b[j - |a|];
      }
    }
  }

  /** A duplicate-free sequence has as many distinct elements as positions. */
  lemma {:induction false} DistinctElems<T>(s: seq<T>)
    requires Distinct(s)
    ensures |Elems(s)| == |s|
  {
    if s != [] {
      var init := s[..|s| - 1];
      assert Distinct(init);
      DistinctElems(init);
      assert s[|s| - 1] !in Elems(init);
      assert Elems(s) == Elems(init) + {s[|s| - 1]};
    }
  }

  /** A subset has no more elements than the set holding it. */
  lemma SubsetSize<T>(a: set<T>, b: set<T>)
    requires a <= b
    ensures |a| <= |b|
  {
    assert b == a + (b - a);
  }

  /** The size of a union of disjoint sets is the sum of the sizes. */
  lemma DisjointUnionSize<T>(a: set<T>, b: set<T>)
    requires a !! b
    ensures |a + b| == |a| + |b|
  {
  }

  /** Taking the head off a queue a[i..] + b and appending c. */
  lemma ShiftQueue<T>(a: seq<T>, b: seq<T>, c: seq<T>, i: nat)
    requires i < |a|
    ensures (a[i..] + b)[1..] + c == a[i + 1..] + (b + c)
  {
    assert a[i..] == [a[i]] + a[i + 1..];
  }

  /** Growing both a set and the part it adds to a base by the same elements. */
  lemma UnionStep<T>(x: set<T>, base: set<T>, a: set<T>, a': set<T>, d: set<T>)
    requires x == base + a && a' == a + d
    ensures x + d == base + a'
  {
  }

  /** The elements of a concatenation are those of its two parts. */
  lemma ElemsAppend<T>(a: seq<T>, b: seq<T>)
    ensures Elems(a + b) == Elems(a) + Elems(b)
  {
  }

  /** Extending a prefix by one position adds that position's element. */
  lemma ElemsTakeOne<T>(a: seq<T>, i: nat)
    requires i < |a|
    ensures Elems(a[..i + 1]) == Elems(a[..i]) + {a[i]}
  {
    assert a[..i + 1] == a[..i] + [a[i]];
  }
}
