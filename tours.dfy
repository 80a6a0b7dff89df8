/** Shared vocabulary of both solvers: the weighted graph, paths, their costs and tours. */
module Tours {

  datatype Option<T> = None | Some(value: T)

  datatype TspError =
    | StartingVertexMissing  // the start index is not below the vertex count
    | MissingEdge            // an edge lookup names a vertex that is not in the graph

  datatype Result<T> = Success(value: T) | Failure(error: TspError)

  /** The result of a solver: a closed tour and its total cost. */
  datatype TspPath = TspPath(path: seq<int>, cost: int)

  /** A complete undirected graph over the vertices 0..|w|-1, given by a symmetric
      matrix of non-negative edge weights (the diagonal is never consulted). */
  predicate IsGraph(w: seq<seq<nat>>) {
    && (forall u :: 0 <= u < |w| ==> |w[u]| == |w|)
    && (forall u, v :: 0 <= u < |w| && 0 <= v < |w| ==> w[u][v] == w[v][u])
  }

  predicate InRange(s: seq<int>, n: int) {
    forall i :: 0 <= i < |s| ==> 0 <= s[i] < n
  }

  predicate Distinct<T(==)>(s: seq<T>) {
    forall i, j :: 0 <= i < j < |s| ==> s[i] != s[j]
  }

  function Elems(s: seq<int>): set<int> {
    set x | x in s
  }

  /** q lists every member of S exactly once. */
  ghost predicate IsOrdering(q: seq<int>, S: set<int>) {
    Distinct(q) && forall x :: x in q <==> x in S
  }

  /** The integers lo..hi-1, in ascending order. */
  function Interval(lo: int, hi: int): (r: seq<int>)
    ensures |r| == if lo <= hi then hi - lo else 0
    ensures forall i :: 0 <= i < |r| ==> r[i] == lo + i
    decreases hi - lo
  {
    if hi <= lo then [] else [lo] + Interval(lo + 1, hi)
  }

  /** The integers lo..hi-1. */
  function Range(lo: int, hi: int): (r: set<int>)
    ensures forall x :: x in r <==> lo <= x < hi
    ensures |r| == if lo <= hi then hi - lo else 0
  {
    var s := Interval(lo, hi);
    assert forall x :: lo <= x < hi ==> x in s by {
      forall x | lo <= x < hi ensures x in s {
        assert s[x - lo] == x;
      }
    }
    assert |Elems(s)| == |s| by {
      DistinctElemsCard(s);
    }
    Elems(s)
  }

  /** Sum of the weights of the consecutive edges of s. */
  function PathCost(w: seq<seq<nat>>, s: seq<int>): nat
    requires IsGraph(w) && InRange(s, |w|)
  {
    if |s| <= 1 then 0 else w[s[0]][s[1]] + PathCost(w, s[1..])
  }

  /** c is a Hamiltonian cycle over n vertices from start: start, every other vertex once, start. */
  predicate IsTour(n: nat, start: int, c: seq<int>) {
    && |c| == n + 1
    && c[0] == start
    && c[n] == start
    && InRange(c, n)
    && Distinct(c[..n])
  }

  function Reverse(s: seq<int>): (r: seq<int>)
    ensures |r| == |s|
    ensures forall i :: 0 <= i < |s| ==> r[i] == s[|s| - 1 - i]
  {
    if s == [] then [] else Reverse(s[1..]) + [s[0]]
  }

  /** Reversing a reversed middle between two end vertices swaps the ends back. */
  lemma ReverseWrap(a: int, q: seq<int>, b: int)
    ensures Reverse([a] + Reverse(q) + [b]) == [b] + q + [a]
  {
    var x := [a] + Reverse(q) + [b];
    var y := [b] + q + [a];
    forall i | 0 <= i < |y| ensures Reverse(x)[i] == y[i] {
      if 0 < i < |y| - 1 {
        assert Reverse(x)[i] == x[|x| - 1 - i] == Reverse(q)[|q| - i];
      }
    }
  }

  /** Joining a path that ends where a second one begins adds their costs. */
  lemma {:induction false} PathCostJoin(w: seq<seq<nat>>, x: seq<int>, y: seq<int>)
    requires IsGraph(w) && InRange(x, |w|) && InRange(y, |w|)
    requires x != [] && y != [] && x[|x| - 1] == y[0]
    ensures InRange(x + y[1..], |w|)
    ensures PathCost(w, x + y[1..]) == PathCost(w, x) + PathCost(w, y)
  {
    if |x| == 1 {
      assert x + y[1..] == y;
    } else {
      PathCostJoin(w, x[1..], y);
      assert (x + y[1..])[1..] == x[1..] + y[1..];
    }
  }

  /** Cutting a closed path at position i and moving its first part to the end keeps
      its cost. */
  lemma RotationCost(w: seq<seq<nat>>, c: seq<int>, i: int)
    requires IsGraph(w) && InRange(c, |w|) && 0 <= i < |c| && c[0] == c[|c| - 1]
    ensures InRange(c[i..] + c[1..i + 1], |w|)
    ensures PathCost(w, c[i..] + c[1..i + 1]) == PathCost(w, c)
  {
    var x := c[..i + 1];
    var y := c[i..];
    assert InRange(x, |w|) && InRange(y, |w|) by {
      forall j | 0 <= j < |x| ensures 0 <= x[j] < |w| { assert x[j] == c[j]; }
      forall j | 0 <= j < |y| ensures 0 <= y[j] < |w| { assert y[j] == c[i + j]; }
    }
    assert x[|x| - 1] == y[0] && y[|y| - 1] == x[0];
    assert c == x + y[1..];
    PathCostJoin(w, x, y);
    assert x[1..] == c[1..i + 1];
    PathCostJoin(w, y, x);
  }

  /** The same rotation of a tour is a tour from the vertex it is cut at. */
  lemma RotationIsTour(n: nat, a: int, c: seq<int>, i: int)
    requires IsTour(n, a, c) && 0 <= i < n
    ensures IsTour(n, c[i], c[i..] + c[1..i + 1])
  {
    var r := c[i..] + c[1..i + 1];
    forall j | 0 <= j < n ensures r[j] == c[if i + j < n then i + j else i + j - n] {
      if i + j == n {
        assert r[j] == c[n];
      } else if i + j > n {
        assert r[j] == c[1..i + 1][j - (n + 1 - i)];
      }
    }
    assert r[n] == c[i] by {
      if i > 0 {
        assert r[n] == c[1..i + 1][i - 1];
      }
    }
    forall j1, j2 | 0 <= j1 < j2 < n ensures r[..n][j1] != r[..n][j2] {
      var f1 := if i + j1 < n then i + j1 else i + j1 - n;
      var f2 := if i + j2 < n then i + j2 else i + j2 - n;
      assert r[..n][j1] == c[..n][f1] && r[..n][j2] == c[..n][f2];
    }
  }

  /** A tour from a can be started at any vertex b instead, at the same cost. */
  lemma RotateTo(w: seq<seq<nat>>, a: int, c: seq<int>, b: int) returns (r: seq<int>)
    requires IsGraph(w) && IsTour(|w|, a, c) && 0 <= b < |w|
    ensures IsTour(|w|, b, r) && PathCost(w, r) == PathCost(w, c)
  {
    var n := |w|;
    assert InRange(c[..n], n) by {
      forall j | 0 <= j < n ensures 0 <= c[..n][j] < n {
        assert c[..n][j] == c[j];
      }
    }
    DistinctInRangeBound(c[..n], n);
    assert b in c[..n];
    var i :| 0 <= i < n && c[..n][i] == b;
    RotationIsTour(n, a, c, i);
    RotationCost(w, c, i);
    r := c[i..] + c[1..i + 1];
  }

  /** Extending a path by one vertex adds the weight of the new last edge. */
  lemma {:induction false} PathCostAppend(w: seq<seq<nat>>, s: seq<int>, v: int)
    requires IsGraph(w) && InRange(s, |w|) && |s| >= 1 && 0 <= v < |w|
    ensures InRange(s + [v], |w|)
    ensures PathCost(w, s + [v]) == PathCost(w, s) + w[s[|s| - 1]][v]
  {
    if |s| > 1 {
      assert (s + [v])[1..] == s[1..] + [v];
      PathCostAppend(w, s[1..], v);
    }
  }

  /** On an undirected graph a path costs the same in both directions. */
  lemma {:induction false} PathCostReverse(w: seq<seq<nat>>, s: seq<int>)
    requires IsGraph(w) && InRange(s, |w|)
    ensures InRange(Reverse(s), |w|)
    ensures PathCost(w, Reverse(s)) == PathCost(w, s)
  {
    if |s| > 1 {
      var t := s[1..];
      PathCostReverse(w, t);
      assert Reverse(s) == Reverse(t) + [s[0]];
      PathCostAppend(w, Reverse(t), s[0]);
      assert Reverse(t)[|t| - 1] == t[0] == s[1];
    }
  }

  lemma {:induction false} OrderingCard(q: seq<int>, S: set<int>)
    requires IsOrdering(q, S)
    ensures |q| == |S|
  {
    OrderingEmpty(q, S);
    if q != [] {
      var q' := q[1..];
      OrderingTail(q, S);
      OrderingCard(q', S - {q[0]});
      assert S == (S - {q[0]}) + {q[0]};
    }
  }

  /** The members of an ordering of S lie wherever the members of S lie. */
  lemma OrderingInRange(q: seq<int>, S: set<int>, n: int)
    requires IsOrdering(q, S) && forall x :: x in S ==> 0 <= x < n
    ensures InRange(q, n)
  {
    forall i | 0 <= i < |q| ensures 0 <= q[i] < n {
      assert q[i] in q;
    }
  }

  /** Closing an ordering of 1..n-1 with vertex 0 at both ends gives a tour from 0. */
  lemma OrderingToTour(n: nat, q: seq<int>)
    requires n >= 1 && IsOrdering(q, Range(1, n))
    ensures IsTour(n, 0, [0] + q + [0])
  {
    OrderingCard(q, Range(1, n));
    OrderingInRange(q, Range(1, n), n);
    var c := [0] + q + [0];
    assert c[..n] == [0] + q;
    forall i | 0 < i < n ensures c[..n][i] != 0 {
      assert c[..n][i] == q[i - 1];
      assert q[i - 1] in q;
    }
  }

  /** The same, for a path that already ends in 0. */
  lemma ClosedOrderingIsTour(n: nat, r: seq<int>)
    requires n >= 1 && |r| == n && r[n - 1] == 0 && IsOrdering(r[..n - 1], Range(1, n))
    ensures IsTour(n, 0, [0] + r)
  {
    var inner := r[..n - 1];
    assert r == inner + [0];
    OrderingToTour(n, inner);
    assert [0] + r == [0] + inner + [0];
  }

  /** Removing the head of an ordering of S leaves an ordering of the rest of S. */
  lemma OrderingTail(q: seq<int>, S: set<int>)
    requires IsOrdering(q, S) && q != []
    ensures q[0] in S && IsOrdering(q[1..], S - {q[0]})
  {
    var h := q[0];
    assert h in q;
    assert q == [h] + q[1..];
    forall x ensures x in q[1..] <==> x in S - {q[0]} {
      if x in q[1..] {
        var i :| 0 <= i < |q[1..]| && q[1..][i] == x;
        assert q[i + 1] == x;
      }
      if x in S && x != q[0] {
        assert x in q;
        var i :| 0 <= i < |q| && q[i] == x;
        assert q[1..][i - 1] == x;
      }
    }
    forall i, j | 0 <= i < j < |q[1..]| ensures q[1..][i] != q[1..][j] {
      assert q[1..][i] == q[i + 1] && q[1..][j] == q[j + 1];
    }
  }

  /** An ordering of the empty set is empty. */
  lemma OrderingEmpty(q: seq<int>, S: set<int>)
    requires IsOrdering(q, S)
    ensures q == [] <==> S == {}
  {
    if q == [] {
      assert forall x :: x in S ==> x in q;
    } else {
      var h := q[0];
      assert h in q;
    }
  }

  /** The cost of a path with a first vertex prepended. */
  lemma PathCostCons(w: seq<seq<nat>>, t: int, s: seq<int>)
    requires IsGraph(w) && 0 <= t < |w| && InRange(s, |w|) && s != []
    ensures InRange([t] + s, |w|)
    ensures PathCost(w, [t] + s) == w[t][s[0]] + PathCost(w, s)
  {
    assert ([t] + s)[1..] == s;
  }

  /** Conversely every tour from 0 is vertex 0, an ordering of 1..n-1, and vertex 0. */
  lemma TourToOrdering(n: nat, c: seq<int>)
    requires n >= 1 && IsTour(n, 0, c)
    ensures c == [0] + c[1..n] + [0]
    ensures IsOrdering(c[1..n], Range(1, n))
  {
    var q := c[1..n];
    assert c[..n] == [0] + q;
    forall x | x in q ensures 1 <= x < n {
      var i :| 0 <= i < |q| && q[i] == x;
      assert c[..n][i + 1] == x && c[..n][0] == 0;
    }
    DistinctInRangeBound(c[..n], n);
    forall x | 1 <= x < n ensures x in q {
      assert x in c[..n];
    }
  }

  lemma {:induction false} DistinctElemsCard(s: seq<int>)
    requires Distinct(s)
    ensures |Elems(s)| == |s|
  {
    if s != [] {
      var t := s[..|s| - 1];
      DistinctElemsCard(t);
      assert Elems(s) == Elems(t) + {s[|s| - 1]};
      assert s[|s| - 1] !in Elems(t);
    } else {
      assert Elems(s) == {};
    }
  }

  lemma SubsetCard(a: set<int>, b: set<int>)
    requires a <= b
    ensures |a| <= |b|
    ensures |a| == |b| ==> a == b
  {
    assert b == a + (b - a);
    assert |b| == |a| + |b - a|;
    if |a| == |b| {
      assert |b - a| == 0;
    }
  }

  /** A repetition-free sequence of vertices below n has at most n entries, and exactly n
      only when it contains every vertex. */
  lemma DistinctInRangeBound(s: seq<int>, n: nat)
    requires Distinct(s) && InRange(s, n)
    ensures |s| <= n
    ensures |s| == n ==> forall v :: 0 <= v < n ==> v in s
    ensures |s| < n ==> exists v :: 0 <= v < n && v !in s
  {
    DistinctElemsCard(s);
    assert Elems(s) <= Range(0, n);
    SubsetCard(Elems(s), Range(0, n));
    if |s| == n {
      forall v | 0 <= v < n ensures v in s {
        assert v in Range(0, n);
      }
    }
    if |s| < n {
      if Range(0, n) - Elems(s) == {} {
        forall v | v in Range(0, n) ensures v in Elems(s) {
          assert v !in Range(0, n) - Elems(s);
        }
        SubsetCard(Range(0, n), Elems(s));
      }
      var v :| v in Range(0, n) - Elems(s);
    }
  }
}
