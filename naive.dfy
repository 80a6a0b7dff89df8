/** The brute-force solver: a depth-first search over every Hamiltonian cycle from the
    start, keeping the first strictly cheapest one met. */
module Naive {
  import opened Tours

  /** The solver's running best: None plays the part of bestCost = MAX_VALUE, and the
      empty path that of the null bestPath. */
  datatype Record = Record(bestCost: Option<nat>, bestPath: seq<int>)

  /** The search stack: the start first, then distinct vertices of the graph. */
  predicate IsStack(n: nat, start: int, s: seq<int>) {
    0 <= start < n && s != [] && s[0] == start && InRange(s, n) && Distinct(s)
  }

  /** c is a tour from start whose first |s| vertices are s. */
  predicate Extends(n: nat, start: int, c: seq<int>, s: seq<int>) {
    IsTour(n, start, c) && |s| <= |c| && c[..|s|] == s
  }

  /** b is no more than the cost of any tour that begins with s. */
  ghost predicate LowerBound(w: seq<seq<nat>>, start: int, s: seq<int>, b: nat)
    requires IsGraph(w)
  {
    forall c :: Extends(|w|, start, c, s) ==> b <= PathCost(w, c)
  }

  /** A record with a cost holds a tour from start of exactly that cost; one without
      holds no path. */
  ghost predicate RecordValid(w: seq<seq<nat>>, start: int, rec: Record)
    requires IsGraph(w)
  {
    if rec.bestCost.Some? then
      IsTour(|w|, start, rec.bestPath) && rec.bestCost.value == PathCost(w, rec.bestPath)
    else
      rec.bestPath == []
  }

  /** a is b, or a strictly cheaper best than b: the best changes only on a strict
      improvement, so it never gets worse. */
  predicate ImprovesOn(a: Record, b: Record) {
    a == b || (a.bestCost.Some? && (b.bestCost.None? || a.bestCost.value < b.bestCost.value))
  }

  /** The candidate becomes the best only on a strict improvement. */
  function Offer(rec: Record, path: seq<int>, cost: nat): (r: Record)
    ensures r.bestCost.Some? && r.bestCost.value <= cost
    ensures ImprovesOn(r, rec)
    ensures r == rec || r == Record(Some(cost), path)
  {
    if rec.bestCost.None? || cost < rec.bestCost.value then Record(Some(cost), path) else rec
  }

  /** Pushing a vertex that is not on the stack keeps it a stack, and such a vertex only
      exists while the stack is shorter than the graph. */
  lemma PushKeepsStack(n: nat, start: int, s: seq<int>, v: int)
    requires IsStack(n, start, s) && 0 <= v < n && v !in s
    ensures IsStack(n, start, s + [v]) && |s| < n
  {
    DistinctInRangeBound(s, n);
    var t := s + [v];
    forall i, j | 0 <= i < j < |t| ensures t[i] != t[j] {
      if j < |s| {
        assert t[i] == s[i] && t[j] == s[j];
      } else {
        assert t[i] == s[i] && s[i] in s;
      }
    }
  }

  /** The search from stack s: first score s closed back to the start when it holds
      every vertex, then try every unvisited vertex in ascending order. */
  function Explore(w: seq<seq<nat>>, start: int, s: seq<int>, rec: Record): Record
    requires IsGraph(w) && IsStack(|w|, start, s)
    decreases |w| - |s|, 1, 0
  {
    DistinctInRangeBound(s, |w|);
    var scored := if |s| == |w| then Offer(rec, s + [start], PathCost(w, s + [start])) else rec;
    ExploreFrom(w, start, s, scored, 0)
  }

  /** The rest of the loop over the next vertex, from candidate v on. */
  function ExploreFrom(w: seq<seq<nat>>, start: int, s: seq<int>, rec: Record, v: nat): Record
    requires IsGraph(w) && IsStack(|w|, start, s) && v <= |w|
    decreases |w| - |s|, 0, |w| - v
  {
    if v == |w| then rec
    else if v in s then ExploreFrom(w, start, s, rec, v + 1)
    else
      PushKeepsStack(|w|, start, s, v);
      ExploreFrom(w, start, s, Explore(w, start, s + [v], rec), v + 1)
  }

  /** The search result of the whole solver from a fresh record. */
  function NaiveResult(w: seq<seq<nat>>, start: int): Record
    requires IsGraph(w) && 0 <= start < |w|
  {
    Explore(w, start, [start], Record(None, []))
  }

  /** The search changes the record only to a strictly cheaper one. */
  lemma {:induction false} ExploreImproves(w: seq<seq<nat>>, start: int, s: seq<int>, rec: Record)
    requires IsGraph(w) && IsStack(|w|, start, s)
    ensures ImprovesOn(Explore(w, start, s, rec), rec)
    decreases |w| - |s|, 1, 0
  {
    DistinctInRangeBound(s, |w|);
    var scored := if |s| == |w| then Offer(rec, s + [start], PathCost(w, s + [start])) else rec;
    ExploreFromImproves(w, start, s, scored, 0);
  }

  lemma {:induction false} ExploreFromImproves(w: seq<seq<nat>>, start: int, s: seq<int>, rec: Record, v: nat)
    requires IsGraph(w) && IsStack(|w|, start, s) && v <= |w|
    ensures ImprovesOn(ExploreFrom(w, start, s, rec, v), rec)
    decreases |w| - |s|, 0, |w| - v
  {
    if v < |w| {
      if v in s {
        ExploreFromImproves(w, start, s, rec, v + 1);
      } else {
        PushKeepsStack(|w|, start, s, v);
        var next := Explore(w, start, s + [v], rec);
        ExploreImproves(w, start, s + [v], rec);
        ExploreFromImproves(w, start, s, next, v + 1);
      }
    }
  }

  /** The stack closed back to the start is a tour once it holds every vertex. */
  lemma ClosedStackIsTour(n: nat, start: int, s: seq<int>)
    requires IsStack(n, start, s) && |s| == n
    ensures IsTour(n, start, s + [start]) && Extends(n, start, s + [start], s)
  {
    var c := s + [start];
    assert c[..n] == s;
  }

  /** Only tours from the start, at their own cost, are ever recorded. */
  lemma {:induction false} ExploreValid(w: seq<seq<nat>>, start: int, s: seq<int>, rec: Record)
    requires IsGraph(w) && IsStack(|w|, start, s) && RecordValid(w, start, rec)
    ensures RecordValid(w, start, Explore(w, start, s, rec))
    decreases |w| - |s|, 1, 0
  {
    DistinctInRangeBound(s, |w|);
    var scored := if |s| == |w| then Offer(rec, s + [start], PathCost(w, s + [start])) else rec;
    if |s| == |w| {
      ClosedStackIsTour(|w|, start, s);
    }
    ExploreFromValid(w, start, s, scored, 0);
  }

  lemma {:induction false} ExploreFromValid(w: seq<seq<nat>>, start: int, s: seq<int>, rec: Record, v: nat)
    requires IsGraph(w) && IsStack(|w|, start, s) && v <= |w| && RecordValid(w, start, rec)
    ensures RecordValid(w, start, ExploreFrom(w, start, s, rec, v))
    decreases |w| - |s|, 0, |w| - v
  {
    if v < |w| {
      if v in s {
        ExploreFromValid(w, start, s, rec, v + 1);
      } else {
        PushKeepsStack(|w|, start, s, v);
        var next := Explore(w, start, s + [v], rec);
        ExploreValid(w, start, s + [v], rec);
        ExploreFromValid(w, start, s, next, v + 1);
      }
    }
  }

  /** A tour that begins with s also begins with any prefix of s. */
  lemma ExtendsPrefix(n: nat, start: int, c: seq<int>, s: seq<int>, v: int)
    requires Extends(n, start, c, s + [v])
    ensures Extends(n, start, c, s)
  {
    assert c[..|s|] == c[..|s| + 1][..|s|];
  }

  /** What a tour that begins with s but has not ended looks like one vertex further. */
  lemma ExtendsStep(n: nat, start: int, c: seq<int>, s: seq<int>)
    requires IsStack(n, start, s) && Extends(n, start, c, s) && |s| < n
    ensures 0 <= c[|s|] < n && c[|s|] !in s && Extends(n, start, c, s + [c[|s|]])
  {
    var v := c[|s|];
    assert c[..|s| + 1] == s + [v];
    assert c[..n][|s|] == v;
    forall i | 0 <= i < |s| ensures s[i] != v {
      assert c[..n][i] == s[i];
    }
  }

  /** The search reaches every tour that begins with s: its result costs no more. */
  lemma {:induction false} ExploreCovers(w: seq<seq<nat>>, start: int, s: seq<int>, rec: Record, c: seq<int>)
    requires IsGraph(w) && IsStack(|w|, start, s) && Extends(|w|, start, c, s)
    ensures Explore(w, start, s, rec).bestCost.Some?
    ensures Explore(w, start, s, rec).bestCost.value <= PathCost(w, c)
    decreases |w| - |s|, 1, 0
  {
    DistinctInRangeBound(s, |w|);
    var scored := if |s| == |w| then Offer(rec, s + [start], PathCost(w, s + [start])) else rec;
    if |s| == |w| {
      assert c == c[..|s|] + [c[|s|]];
      ExploreFromImproves(w, start, s, scored, 0);
    } else {
      ExtendsStep(|w|, start, c, s);
      ExploreFromCovers(w, start, s, scored, 0, c);
    }
  }

  lemma {:induction false} ExploreFromCovers(w: seq<seq<nat>>, start: int, s: seq<int>, rec: Record, v: nat, c: seq<int>)
    requires IsGraph(w) && IsStack(|w|, start, s) && |s| < |w|
    requires Extends(|w|, start, c, s) && v <= c[|s|]
    ensures ExploreFrom(w, start, s, rec, v).bestCost.Some?
    ensures ExploreFrom(w, start, s, rec, v).bestCost.value <= PathCost(w, c)
    decreases |w| - |s|, 0, |w| - v
  {
    ExtendsStep(|w|, start, c, s);
    if v in s {
      ExploreFromCovers(w, start, s, rec, v + 1, c);
    } else {
      PushKeepsStack(|w|, start, s, v);
      var next := Explore(w, start, s + [v], rec);
      if v == c[|s|] {
        ExploreCovers(w, start, s + [v], rec, c);
        ExploreFromImproves(w, start, s, next, v + 1);
      } else {
        ExploreFromCovers(w, start, s, next, v + 1, c);
      }
    }
  }

  /** A record whose cost already bounds every tour that begins with s is left as it is:
      only a strict improvement replaces it. */
  lemma {:induction false} ExploreKeeps(w: seq<seq<nat>>, start: int, s: seq<int>, rec: Record)
    requires IsGraph(w) && IsStack(|w|, start, s)
    requires rec.bestCost.Some? && LowerBound(w, start, s, rec.bestCost.value)
    ensures Explore(w, start, s, rec) == rec
    decreases |w| - |s|, 1, 0
  {
    DistinctInRangeBound(s, |w|);
    var scored := if |s| == |w| then Offer(rec, s + [start], PathCost(w, s + [start])) else rec;
    if |s| == |w| {
      ClosedStackIsTour(|w|, start, s);
    }
    assert scored == rec;
    ExploreFromKeeps(w, start, s, rec, 0);
  }

  lemma {:induction false} ExploreFromKeeps(w: seq<seq<nat>>, start: int, s: seq<int>, rec: Record, v: nat)
    requires IsGraph(w) && IsStack(|w|, start, s) && v <= |w|
    requires rec.bestCost.Some? && LowerBound(w, start, s, rec.bestCost.value)
    ensures ExploreFrom(w, start, s, rec, v) == rec
    decreases |w| - |s|, 0, |w| - v
  {
    if v < |w| {
      if v in s {
        ExploreFromKeeps(w, start, s, rec, v + 1);
      } else {
        PushKeepsStack(|w|, start, s, v);
        forall c | Extends(|w|, start, c, s + [v]) ensures rec.bestCost.value <= PathCost(w, c) {
          ExtendsPrefix(|w|, start, c, s, v);
        }
        ExploreKeeps(w, start, s + [v], rec);
        ExploreFromKeeps(w, start, s, rec, v + 1);
      }
    }
  }

  /** Some tour from start exists: start, the other vertices in ascending order, start. */
  lemma SomeTour(n: nat, start: int) returns (c: seq<int>)
    requires 0 <= start < n
    ensures IsTour(n, start, c)
  {
    var q := Interval(0, start) + Interval(start + 1, n);
    c := [start] + q + [start];
    assert forall i :: 0 <= i < |q| ==> q[i] == if i < start then i else i + 1;
    assert c[..n] == [start] + q;
    forall i, j | 0 <= i < j < n ensures c[..n][i] != c[..n][j] {
      if i > 0 {
        assert c[..n][i] == q[i - 1] && c[..n][j] == q[j - 1];
      } else {
        assert c[..n][j] == q[j - 1];
      }
    }
  }

  /** Every tour from the start begins with the one-vertex stack. */
  lemma TourExtendsStart(n: nat, start: int, c: seq<int>)
    requires IsTour(n, start, c)
    ensures Extends(n, start, c, [start])
  {
    assert c[..1] == [start];
  }

  /** The solver returns a tour from the start, at its own cost, that is no dearer than
      any other tour from the start. */
  lemma NaiveIsOptimal(w: seq<seq<nat>>, start: int)
    requires IsGraph(w) && |w| >= 2 && 0 <= start < |w|
    ensures NaiveResult(w, start).bestCost.Some?
    ensures IsTour(|w|, start, NaiveResult(w, start).bestPath)
    ensures NaiveResult(w, start).bestCost.value == PathCost(w, NaiveResult(w, start).bestPath)
    ensures forall c :: IsTour(|w|, start, c) ==> NaiveResult(w, start).bestCost.value <= PathCost(w, c)
  {
    var c0 := SomeTour(|w|, start);
    TourExtendsStart(|w|, start, c0);
    ExploreCovers(w, start, [start], Record(None, []), c0);
    ExploreValid(w, start, [start], Record(None, []));
    forall c | IsTour(|w|, start, c) ensures NaiveResult(w, start).bestCost.value <= PathCost(w, c) {
      TourExtendsStart(|w|, start, c);
      ExploreCovers(w, start, [start], Record(None, []), c);
    }
  }

  /** Searching again from the record a search returned changes nothing: a second call
      of the solver returns the same tour. */
  lemma NaiveRepeatable(w: seq<seq<nat>>, start: int)
    requires IsGraph(w) && |w| >= 2 && 0 <= start < |w|
    ensures Explore(w, start, [start], NaiveResult(w, start)) == NaiveResult(w, start)
  {
    var r := NaiveResult(w, start);
    NaiveIsOptimal(w, start);
    forall c | Extends(|w|, start, c, [start]) ensures r.bestCost.value <= PathCost(w, c) {
    }
    ExploreKeeps(w, start, [start], r);
  }

  /** a comes no later than b in lexicographic order: the order in which the search,
      trying the next vertex in ascending order, meets tours. */
  predicate LexLE(a: seq<int>, b: seq<int>) {
    a == b || exists k :: 0 <= k < |a| && k < |b| && a[..k] == b[..k] && a[k] < b[k]
  }

  /** r's tour comes first among the tours of r's cost that begin with s and continue
      with a vertex no smaller than v. */
  ghost predicate FirstFrom(w: seq<seq<nat>>, start: int, s: seq<int>, v: int, r: Record)
    requires IsGraph(w) && r.bestCost.Some?
  {
    forall c :: Extends(|w|, start, c, s) && |s| < |c| && v <= c[|s|] && PathCost(w, c) == r.bestCost.value
      ==> LexLE(r.bestPath, c)
  }

  /** Once every vertex is on the stack there is nothing left to try. */
  lemma {:induction false} ExploreFromFull(w: seq<seq<nat>>, start: int, s: seq<int>, rec: Record, v: nat)
    requires IsGraph(w) && IsStack(|w|, start, s) && v <= |w| && |s| == |w|
    ensures ExploreFrom(w, start, s, rec, v) == rec
    decreases |w| - v
  {
    if v < |w| {
      DistinctInRangeBound(s, |w|);
      ExploreFromFull(w, start, s, rec, v + 1);
    }
  }

  /** If r differs from rec, r holds a tour that begins with s, continues with a vertex
      no smaller than v, and comes first among the tours of its cost that do so. */
  ghost predicate Replacement(w: seq<seq<nat>>, start: int, s: seq<int>, v: int, rec: Record, r: Record)
    requires IsGraph(w)
  {
    r != rec ==>
      && r.bestCost.Some?
      && Extends(|w|, start, r.bestPath, s)
      && |s| < |r.bestPath|
      && v <= r.bestPath[|s|]
      && FirstFrom(w, start, s, v, r)
  }

  /** When the search replaces the record, the new tour begins with s and is the first,
      in the order the search meets them, of the tours of its cost that begin with s. */
  lemma {:induction false} ExploreFirst(w: seq<seq<nat>>, start: int, s: seq<int>, rec: Record)
    requires IsGraph(w) && IsStack(|w|, start, s)
    ensures Replacement(w, start, s, 0, rec, Explore(w, start, s, rec))
    decreases |w| - |s|, 1, 0
  {
    DistinctInRangeBound(s, |w|);
    if |s| == |w| {
      var scored := Offer(rec, s + [start], PathCost(w, s + [start]));
      ExploreFromFull(w, start, s, scored, 0);
      ClosedStackIsTour(|w|, start, s);
      forall c | Extends(|w|, start, c, s) ensures c == s + [start] {
        assert c == c[..|s|] + [c[|s|]];
      }
    } else {
      ExploreFromFirst(w, start, s, rec, 0);
    }
  }

  lemma {:induction false} ExploreFromFirst(w: seq<seq<nat>>, start: int, s: seq<int>, rec: Record, v: nat)
    requires IsGraph(w) && IsStack(|w|, start, s) && v <= |w|
    ensures Replacement(w, start, s, v, rec, ExploreFrom(w, start, s, rec, v))
    decreases |w| - |s|, 0, |w| - v
  {
    DistinctInRangeBound(s, |w|);
    if |s| == |w| {
      ExploreFromFull(w, start, s, rec, v);
    } else if v < |w| {
      var r := ExploreFrom(w, start, s, rec, v);
      if v in s {
        ExploreFromFirst(w, start, s, rec, v + 1);
        FirstSkip(w, start, s, v, rec, r);
      } else {
        PushKeepsStack(|w|, start, s, v);
        var next := Explore(w, start, s + [v], rec);
        ExploreFromFirst(w, start, s, next, v + 1);
        if r != next {
          ExploreFromImproves(w, start, s, next, v + 1);
          FirstLater(w, start, s, v, rec, next, r);
        } else {
          ExploreFirst(w, start, s + [v], rec);
          FirstHere(w, start, s, v, rec, r);
        }
      }
    }
  }

  /** A vertex already on the stack starts no tour. */
  lemma FirstSkip(w: seq<seq<nat>>, start: int, s: seq<int>, v: int, rec: Record, r: Record)
    requires IsGraph(w) && IsStack(|w|, start, s) && |s| < |w| && v in s
    requires Replacement(w, start, s, v + 1, rec, r)
    ensures Replacement(w, start, s, v, rec, r)
  {
    if r != rec {
      forall c | Extends(|w|, start, c, s) && |s| < |c| && v <= c[|s|] && PathCost(w, c) == r.bestCost.value
        ensures LexLE(r.bestPath, c)
      {
        ExtendsStep(|w|, start, c, s);
      }
    }
  }

  /** A replacement made after the tours continuing with v were searched is strictly
      cheaper than all of them. */
  lemma FirstLater(w: seq<seq<nat>>, start: int, s: seq<int>, v: int, rec: Record, next: Record, r: Record)
    requires IsGraph(w) && IsStack(|w|, start, s) && |s| < |w| && 0 <= v < |w| && v !in s
    requires IsStack(|w|, start, s + [v]) && next == Explore(w, start, s + [v], rec)
    requires Replacement(w, start, s, v + 1, next, r) && ImprovesOn(r, next) && r != next
    ensures Replacement(w, start, s, v, rec, r)
  {
    forall c | Extends(|w|, start, c, s) && |s| < |c| && v <= c[|s|] && PathCost(w, c) == r.bestCost.value
      ensures LexLE(r.bestPath, c)
    {
      ExtendsStep(|w|, start, c, s);
      if c[|s|] == v {
        ExploreCovers(w, start, s + [v], rec, c);
      }
    }
  }

  /** A replacement made while searching the tours continuing with v comes before every
      tour continuing with a larger vertex. */
  lemma FirstHere(w: seq<seq<nat>>, start: int, s: seq<int>, v: int, rec: Record, r: Record)
    requires IsGraph(w) && IsStack(|w|, start, s) && |s| < |w| && 0 <= v < |w| && v !in s
    requires IsStack(|w|, start, s + [v]) && Replacement(w, start, s + [v], 0, rec, r)
    ensures Replacement(w, start, s, v, rec, r)
  {
    if r != rec {
      ExtendsPrefix(|w|, start, r.bestPath, s, v);
      assert r.bestPath[..|s| + 1] == s + [v];
      assert r.bestPath[|s|] == v;
      forall c | Extends(|w|, start, c, s) && |s| < |c| && v <= c[|s|] && PathCost(w, c) == r.bestCost.value
        ensures LexLE(r.bestPath, c)
      {
        ExtendsStep(|w|, start, c, s);
        if c[|s|] == v {
          assert c[|s| + 1] in c;
        } else {
          assert r.bestPath[..|s|] == c[..|s|];
          assert r.bestPath[|s|] < c[|s|];
        }
      }
    }
  }

  /** Among the cheapest tours from the start, the solver returns the first one the
      search meets. */
  lemma NaiveKeepsFirst(w: seq<seq<nat>>, start: int)
    requires IsGraph(w) && |w| >= 2 && 0 <= start < |w|
    ensures NaiveResult(w, start).bestCost.Some?
    ensures forall c ::
      IsTour(|w|, start, c) && PathCost(w, c) == NaiveResult(w, start).bestCost.value ==>
      LexLE(NaiveResult(w, start).bestPath, c)
  {
    var r := NaiveResult(w, start);
    NaiveIsOptimal(w, start);
    ExploreFirst(w, start, [start], Record(None, []));
    forall c | IsTour(|w|, start, c) && PathCost(w, c) == r.bestCost.value ensures LexLE(r.bestPath, c) {
      TourExtendsStart(|w|, start, c);
      assert c[1] in c;
    }
  }

  class NaiveTsp {
    const w: seq<seq<nat>>
    const nOfVertices: nat
    const startingVertex: int
    var bestCost: Option<nat>
    var bestPath: seq<int>
    /** The search stack, shared by every level of the recursion. */
    var currentPath: seq<int>

    ghost predicate Valid()
      reads this
    {
      IsGraph(w) && nOfVertices == |w| && nOfVertices >= 2 && startingVertex < nOfVertices
    }

    /** The running best is a tour at its own cost, or nothing yet. */
    ghost predicate Consistent()
      reads this
      requires Valid()
    {
      RecordValid(w, startingVertex, Current())
    }

    function Current(): Record
      reads this
    {
      Record(bestCost, bestPath)
    }

    constructor (w: seq<seq<nat>>, startingVertex: int)
      requires IsGraph(w) && |w| >= 2 && startingVertex < |w|
      ensures Valid() && Consistent()
      ensures this.w == w && this.startingVertex == startingVertex
      ensures bestCost == None && bestPath == [] && currentPath == []
    {
      this.w := w;
      nOfVertices := |w|;
      this.startingVertex := startingVertex;
      bestCost := None;
      bestPath := [];
      currentPath := [];
    }

    /** Construction fails when the start is not below the vertex count; otherwise the
        given start is kept. */
    static method Create(w: seq<seq<nat>>, startingVertex: int) returns (r: Result<NaiveTsp>)
      requires IsGraph(w) && |w| >= 2
      ensures r.Failure? <==> startingVertex >= |w|
      ensures r.Failure? ==> r.error == StartingVertexMissing
      ensures r.Success? ==> fresh(r.value) && r.value.Valid() && r.value.Consistent()
      ensures r.Success? ==> r.value.w == w && r.value.startingVertex == startingVertex
      ensures r.Success? ==> r.value.bestCost == None && r.value.bestPath == []
    {
      if startingVertex >= |w| {
        return Failure(StartingVertexMissing);
      }
      var tsp := new NaiveTsp(w, startingVertex);
      return Success(tsp);
    }

    /** Runs the search from a one-vertex stack holding the start. A negative start
        passes construction but names no vertex, so the first edge lookup fails. */
    method FindBestPath() returns (r: Result<TspPath>)
      requires Valid() && Consistent()
      modifies this
      ensures Valid() && Consistent()
      ensures startingVertex < 0 ==> r == Failure(MissingEdge) && Current() == old(Current())
      ensures 0 <= startingVertex ==>
        && Current() == Explore(w, startingVertex, [startingVertex], old(Current()))
        && currentPath == [startingVertex]
        && bestCost.Some? && r == Success(TspPath(bestPath, bestCost.value))
      ensures r.Success? ==> IsTour(nOfVertices, startingVertex, r.value.path)
      ensures r.Success? ==> r.value.cost == PathCost(w, r.value.path)
      ensures r.Success? ==> forall c :: IsTour(nOfVertices, startingVertex, c) ==> r.value.cost <= PathCost(w, c)
    {
      if startingVertex < 0 {
        return Failure(MissingEdge);
      }
      ghost var rec0 := Current();
      currentPath := [startingVertex];
      FindBestPathFrom(startingVertex, 0);
      ExploreValid(w, startingVertex, [startingVertex], rec0);
      var c0 := SomeTour(nOfVertices, startingVertex);
      TourExtendsStart(nOfVertices, startingVertex, c0);
      ExploreCovers(w, startingVertex, [startingVertex], rec0, c0);
      r := Success(TspPath(bestPath, bestCost.value));
      forall c | IsTour(nOfVertices, startingVertex, c) ensures r.value.cost <= PathCost(w, c) {
        TourExtendsStart(nOfVertices, startingVertex, c);
        ExploreCovers(w, startingVertex, [startingVertex], rec0, c);
      }
    }

    /** One level of the search, with `root` on top of the stack and `pathCost` the cost
        of the stack. It leaves the stack as it found it. */
    method FindBestPathFrom(root: int, pathCost: nat)
      requires Valid() && IsStack(nOfVertices, startingVertex, currentPath)
      requires root == currentPath[|currentPath| - 1] && pathCost == PathCost(w, currentPath)
      modifies this
      ensures Valid()
      ensures currentPath == old(currentPath)
      ensures Current() == Explore(w, startingVertex, old(currentPath), old(Current()))
      decreases nOfVertices - |currentPath|
    {
      ghost var stack := currentPath;
      ghost var rec0 := Current();
      DistinctInRangeBound(stack, nOfVertices);
      if |currentPath| == nOfVertices {
        var backToHomeValue := w[root][startingVertex];
        var finalCost := pathCost + backToHomeValue;
        PathCostAppend(w, stack, startingVertex);
        currentPath := currentPath + [startingVertex];
        if bestCost.None? || finalCost < bestCost.value {
          bestCost := Some(finalCost);
          bestPath := currentPath;
        }
        currentPath := currentPath[..|currentPath| - 1];
        assert currentPath == stack;
      }
      for nextToVisit := 0 to nOfVertices
        invariant Valid() && currentPath == stack
        invariant ExploreFrom(w, startingVertex, stack, Current(), nextToVisit)
          == Explore(w, startingVertex, stack, rec0)
      {
        if nextToVisit in currentPath {
          continue;
        }
        var edgeValue := w[root][nextToVisit];
        var newCost := pathCost + edgeValue;
        PushKeepsStack(nOfVertices, startingVertex, stack, nextToVisit);
        PathCostAppend(w, stack, nextToVisit);
        currentPath := currentPath + [nextToVisit];
        FindBestPathFrom(nextToVisit, newCost);
        currentPath := currentPath[..|currentPath| - 1];
        assert currentPath == stack;
      }
    }
  }
}
