/** The Held-Karp dynamic program: a memo table keyed on (target, visited set), filled
    bottom-up by increasing visited-set size, closed by one terminal state and read back
    by following predecessor links. */
module HeldKarp {
  import opened Tours
  import TspUtils

  /** Memo key: a target vertex reached from vertex 0 through the vertices of `parents`,
      in some unspecified order. Equality is value equality, so the set is a set. */
  datatype Path = Path(target: int, parents: set<int>)

  /** Memo value: the cheapest last parent before the target, and the cost through it. */
  datatype Entry = Entry(parent: int, cost: nat)

  /** The states the table holds for n vertices: a target 1..n-1 with a visited set of
      other non-start vertices, or the terminal state (0, {1..n-1}). */
  predicate IsMemoState(n: nat, k: Path) {
    || (1 <= k.target < n && k.parents <= Range(1, n) && k.target !in k.parents)
    || (k.target == 0 && k.parents == Range(1, n))
  }

  function CopyWithoutElement(s: set<int>, exclude: int): (r: set<int>)
    ensures forall x :: x in r <==> x in s && x != exclude
  {
    s - {exclude}
  }

  /** The entry the table holds for state (t, S): with nothing visited, the direct edge
      from vertex 0; otherwise the minimum over the last parent p in S of
      w[t][p] + Best(p, S - {p}).cost, the first minimiser in ascending order winning. */
  function Best(w: seq<seq<nat>>, t: int, S: set<int>): (r: Entry)
    requires IsGraph(w) && 0 <= t < |w| && S <= Range(1, |w|)
    ensures S != {} ==> r.parent in S
    decreases S, 1, 0
  {
    if S == {} then Entry(0, w[t][0])
    else
      var m := MinUpTo(w, t, S, |w|);
      assert m.Some? by {
        var p :| p in S;
        assert 1 <= p < |w|;
      }
      m.value
  }

  /** What choosing p as the last parent before t costs. */
  function Candidate(w: seq<seq<nat>>, t: int, S: set<int>, p: int): nat
    requires IsGraph(w) && 0 <= t < |w| && S <= Range(1, |w|) && p in S
    decreases S, 0, 0
  {
    w[t][p] + Best(w, p, S - {p}).cost
  }

  /** The running minimum after the candidate parents 1..k-1 have been tried in
      ascending order, replacing it only on a strictly smaller cost; None while no
      candidate has been seen. */
  function MinUpTo(w: seq<seq<nat>>, t: int, S: set<int>, k: int): (r: Option<Entry>)
    requires IsGraph(w) && 0 <= t < |w| && S <= Range(1, |w|) && 1 <= k <= |w|
    ensures r.Some? ==> r.value.parent in S && 1 <= r.value.parent < k
    ensures r.None? ==> forall p :: p in S ==> p >= k
    decreases S, 0, k
  {
    if k == 1 then None
    else
      var prev := MinUpTo(w, t, S, k - 1);
      if k - 1 in S then
        var c := Candidate(w, t, S, k - 1);
        if prev.None? || c < prev.value.cost then Some(Entry(k - 1, c)) else prev
      else prev
  }

  /** A non-empty state holds the value of the complete fold. */
  lemma BestIsFold(w: seq<seq<nat>>, t: int, S: set<int>)
    requires IsGraph(w) && 0 <= t < |w| && S <= Range(1, |w|) && S != {}
    ensures MinUpTo(w, t, S, |w|).Some? && Best(w, t, S) == MinUpTo(w, t, S, |w|).value
  {
  }

  /** The running minimum after offering parent k at cost c: replaced only when c is
      strictly smaller. */
  function Improve(prev: Option<Entry>, k: int, c: nat): (r: Option<Entry>)
    ensures r.Some?
    ensures r.value.cost <= c
    ensures prev.Some? ==> r.value.cost <= prev.value.cost
    ensures r == prev || r == Some(Entry(k, c))
    ensures r != prev ==> prev.None? || c < prev.value.cost
  {
    if prev.None? || c < prev.value.cost then Some(Entry(k, c)) else prev
  }

  /** One step of the fold, as the table-filling loop takes it: a parent in S is offered
      at its candidate cost. */
  lemma MinUpToTake(w: seq<seq<nat>>, t: int, S: set<int>, k: int, c: nat)
    requires IsGraph(w) && 0 <= t < |w| && S <= Range(1, |w|) && 1 <= k < |w|
    requires k in S && c == w[t][k] + Best(w, k, S - {k}).cost
    ensures MinUpTo(w, t, S, k + 1) == Improve(MinUpTo(w, t, S, k), k, c)
  {
  }

  /** A vertex outside S leaves the running minimum alone. */
  lemma MinUpToSkip(w: seq<seq<nat>>, t: int, S: set<int>, k: int)
    requires IsGraph(w) && 0 <= t < |w| && S <= Range(1, |w|) && 1 <= k < |w|
    requires k !in S
    ensures MinUpTo(w, t, S, k + 1) == MinUpTo(w, t, S, k)
  {
  }

  lemma {:induction false} MinUpToIsLeast(w: seq<seq<nat>>, t: int, S: set<int>, k: int, p: int)
    requires IsGraph(w) && 0 <= t < |w| && S <= Range(1, |w|) && 1 <= k <= |w|
    requires p in S && p < k
    ensures MinUpTo(w, t, S, k).Some?
    ensures MinUpTo(w, t, S, k).value.cost <= Candidate(w, t, S, p)
  {
    if p < k - 1 {
      MinUpToIsLeast(w, t, S, k - 1, p);
    }
  }

  lemma {:induction false} MinUpToAttained(w: seq<seq<nat>>, t: int, S: set<int>, k: int)
    requires IsGraph(w) && 0 <= t < |w| && S <= Range(1, |w|) && 1 <= k <= |w|
    requires MinUpTo(w, t, S, k).Some?
    ensures MinUpTo(w, t, S, k).value.cost == Candidate(w, t, S, MinUpTo(w, t, S, k).value.parent)
  {
    if MinUpTo(w, t, S, k - 1).Some? {
      MinUpToAttained(w, t, S, k - 1);
    }
  }

  /** The strict comparison keeps the first minimiser: every smaller candidate parent
      costs strictly more. */
  lemma {:induction false} MinUpToFirst(w: seq<seq<nat>>, t: int, S: set<int>, k: int, p: int)
    requires IsGraph(w) && 0 <= t < |w| && S <= Range(1, |w|) && 1 <= k <= |w|
    requires MinUpTo(w, t, S, k).Some? && p in S && p < MinUpTo(w, t, S, k).value.parent
    ensures MinUpTo(w, t, S, k).value.cost < Candidate(w, t, S, p)
  {
    var prev := MinUpTo(w, t, S, k - 1);
    if MinUpTo(w, t, S, k) == prev {
      MinUpToFirst(w, t, S, k - 1, p);
    } else {
      MinUpToIsLeast(w, t, S, k - 1, p);
    }
  }

  /** The recurrence: a non-empty state stores a parent from its visited set with the
      least candidate cost, and no smaller vertex of the set is as cheap. */
  lemma BestRecurrence(w: seq<seq<nat>>, t: int, S: set<int>)
    requires IsGraph(w) && 0 <= t < |w| && S <= Range(1, |w|) && S != {}
    ensures Best(w, t, S).parent in S
    ensures Best(w, t, S).cost == Candidate(w, t, S, Best(w, t, S).parent)
    ensures forall p :: p in S ==> Best(w, t, S).cost <= Candidate(w, t, S, p)
    ensures forall p :: p in S && p < Best(w, t, S).parent ==> Best(w, t, S).cost < Candidate(w, t, S, p)
  {
    MinUpToAttained(w, t, S, |w|);
    forall p | p in S ensures Best(w, t, S).cost <= Candidate(w, t, S, p) {
      MinUpToIsLeast(w, t, S, |w|, p);
    }
    forall p | p in S && p < Best(w, t, S).parent ensures Best(w, t, S).cost < Candidate(w, t, S, p) {
      MinUpToFirst(w, t, S, |w|, p);
    }
  }

  /** Any one parent bounds the stored cost from above. */
  lemma BestAtMost(w: seq<seq<nat>>, t: int, S: set<int>, p: int)
    requires IsGraph(w) && 0 <= t < |w| && S <= Range(1, |w|) && p in S
    ensures Best(w, t, S).cost <= w[t][p] + Best(w, p, S - {p}).cost
  {
    MinUpToIsLeast(w, t, S, |w|, p);
  }

  /** The vertices reconstruction appends from state (t, S): the stored parent, then the
      parents of the state it came from, down to the closing vertex 0. */
  function Walk(w: seq<seq<nat>>, t: int, S: set<int>): seq<int>
    requires IsGraph(w) && 0 <= t < |w| && S <= Range(1, |w|)
    decreases S
  {
    if S == {} then [0]
    else
      var p := Best(w, t, S).parent;
      [p] + Walk(w, p, S - {p})
  }

  /** The walk from (t, S) lists every vertex of S exactly once and then 0. */
  lemma {:induction false} WalkVisitsExactly(w: seq<seq<nat>>, t: int, S: set<int>)
    requires IsGraph(w) && 0 <= t < |w| && S <= Range(1, |w|)
    ensures |Walk(w, t, S)| == |S| + 1
    ensures Walk(w, t, S)[|S|] == 0
    ensures IsOrdering(Walk(w, t, S)[..|S|], S)
    decreases S
  {
    if S != {} {
      var p := Best(w, t, S).parent;
      var S' := S - {p};
      var r' := Walk(w, p, S');
      WalkVisitsExactly(w, p, S');
      assert Walk(w, t, S) == [p] + r';
      assert Walk(w, t, S)[..|S|] == [p] + r'[..|S'|];
    }
  }

  /** Read from t back to 0, the walk from (t, S) costs exactly the stored cost. */
  lemma {:induction false} WalkCost(w: seq<seq<nat>>, t: int, S: set<int>)
    requires IsGraph(w) && 0 <= t < |w| && S <= Range(1, |w|)
    ensures InRange([t] + Walk(w, t, S), |w|)
    ensures PathCost(w, [t] + Walk(w, t, S)) == Best(w, t, S).cost
    decreases S
  {
    if S == {} {
      assert [t] + Walk(w, t, S) == [t, 0];
    } else {
      BestRecurrence(w, t, S);
      var p := Best(w, t, S).parent;
      var r' := Walk(w, p, S - {p});
      WalkCost(w, p, S - {p});
      assert ([t] + Walk(w, t, S))[1..] == [p] + r';
    }
  }

  /** Every order of visiting S from 0 and ending at t, written from t back to 0, costs at
      least the stored cost. */
  lemma {:induction false} BestIsLowerBound(w: seq<seq<nat>>, t: int, S: set<int>, q: seq<int>)
    requires IsGraph(w) && 0 <= t < |w| && S <= Range(1, |w|)
    requires IsOrdering(q, S)
    ensures InRange([t] + q + [0], |w|)
    ensures Best(w, t, S).cost <= PathCost(w, [t] + q + [0])
    decreases |q|
  {
    OrderingInRange(q, S, |w|);
    OrderingEmpty(q, S);
    if q == [] {
      assert [t] + q + [0] == [t, 0];
    } else {
      var p := q[0];
      var q' := q[1..];
      OrderingTail(q, S);
      var tail := [p] + q' + [0];
      BestIsLowerBound(w, p, S - {p}, q');
      BestAtMost(w, t, S, p);
      assert [t] + q + [0] == [t] + tail;
      PathCostCons(w, t, tail);
    }
  }

  /** Read from vertex 0 forwards, on the undirected graph: every path from 0 through
      exactly S to t costs at least the stored cost. */
  lemma BestIsMinimumPathCost(w: seq<seq<nat>>, t: int, S: set<int>, q: seq<int>)
    requires IsGraph(w) && 0 <= t < |w| && S <= Range(1, |w|)
    requires IsOrdering(q, S)
    ensures InRange([0] + q + [t], |w|)
    ensures Best(w, t, S).cost <= PathCost(w, [0] + q + [t])
  {
    var rq := Reverse(q);
    ReverseOrdering(q, S);
    BestIsLowerBound(w, t, S, rq);
    var back := [t] + rq + [0];
    ReverseWrap(t, q, 0);
    PathCostReverse(w, back);
  }

  lemma ReverseOrdering(q: seq<int>, S: set<int>)
    requires IsOrdering(q, S)
    ensures IsOrdering(Reverse(q), S)
  {
    var r := Reverse(q);
    forall x ensures x in r <==> x in q {
      if x in q {
        var i :| 0 <= i < |q| && q[i] == x;
        assert r[|q| - 1 - i] == x;
      }
      if x in r {
        var i :| 0 <= i < |r| && r[i] == x;
      }
    }
    forall i, j | 0 <= i < j < |r| ensures r[i] != r[j] {
      assert r[i] == q[|q| - 1 - i] && r[j] == q[|q| - 1 - j];
    }
  }

  /** The tour and cost the engine returns: vertex 0, then the walk back from the
      terminal state (0, {1..n-1}). */
  function HeldKarpTour(w: seq<seq<nat>>): TspPath
    requires IsGraph(w) && |w| >= 2
  {
    TspPath([0] + Walk(w, 0, Range(1, |w|)), Best(w, 0, Range(1, |w|)).cost)
  }

  /** The returned path is a Hamiltonian cycle from 0 and its cost is its edge-weight sum. */
  lemma HeldKarpTourIsTour(w: seq<seq<nat>>)
    requires IsGraph(w) && |w| >= 2
    ensures IsTour(|w|, 0, HeldKarpTour(w).path)
    ensures HeldKarpTour(w).cost == PathCost(w, HeldKarpTour(w).path)
  {
    WalkVisitsExactly(w, 0, Range(1, |w|));
    WalkCost(w, 0, Range(1, |w|));
    ClosedOrderingIsTour(|w|, Walk(w, 0, Range(1, |w|)));
  }

  /** No Hamiltonian cycle from 0 is cheaper than the returned cost. */
  lemma HeldKarpTourIsOptimal(w: seq<seq<nat>>, c: seq<int>)
    requires IsGraph(w) && |w| >= 2 && IsTour(|w|, 0, c)
    ensures HeldKarpTour(w).cost <= PathCost(w, c)
  {
    var n := |w|;
    TourToOrdering(n, c);
    BestIsLowerBound(w, 0, Range(1, n), c[1..n]);
  }

  /** Every entry of table m is a state over the graph w holding the value of the recurrence. */
  ghost predicate TableHoldsBest(w: seq<seq<nat>>, m: map<Path, Entry>) {
    && IsGraph(w) && |w| >= 2
    && forall k {:trigger m[k]} :: k in m ==> IsMemoState(|w|, k) && m[k] == Best(w, k.target, k.parents)
  }

  /** Storing the recurrence's value of a state keeps the table correct. */
  lemma StoreKeepsBest(w: seq<seq<nat>>, m: map<Path, Entry>, k: Path)
    requires TableHoldsBest(w, m) && IsMemoState(|w|, k)
    ensures TableHoldsBest(w, m[k := Best(w, k.target, k.parents)])
  {
  }

  /** Every state whose visited set is one of the first i sets of ps is in the table. */
  ghost predicate FilledUpTo(n: nat, ps: seq<set<int>>, i: int, m: map<Path, Entry>)
    requires 0 <= i <= |ps|
  {
    forall j, t :: 0 <= j < i && 1 <= t < n && t !in ps[j] ==> Path(t, ps[j]) in m
  }

  /** Every state one removal below (_, parents) is in the table. */
  ghost predicate PredecessorsIn(parents: set<int>, m: map<Path, Entry>) {
    forall p :: p in parents ==> Path(p, parents - {p}) in m
  }

  /** Every state (t, parents) with t below `target` is in the table. */
  ghost predicate RowFilledUpTo(parents: set<int>, target: int, m: map<Path, Entry>) {
    forall t :: 1 <= t < target && t !in parents ==> Path(t, parents) in m
  }

  /** Storing the state (target, ps[i]) keeps everything already filled and extends the
      row of ps[i] by one target. */
  lemma StoreExtendsRow(n: nat, ps: seq<set<int>>, i: int, target: int, m: map<Path, Entry>, e: Entry)
    requires 0 <= i < |ps|
    requires FilledUpTo(n, ps, i, m) && PredecessorsIn(ps[i], m) && RowFilledUpTo(ps[i], target, m)
    ensures FilledUpTo(n, ps, i, m[Path(target, ps[i]) := e])
    ensures PredecessorsIn(ps[i], m[Path(target, ps[i]) := e])
    ensures RowFilledUpTo(ps[i], target + 1, m[Path(target, ps[i]) := e])
  {
  }

  /** A target already among the parents needs no state. */
  lemma RowSkips(parents: set<int>, target: int, m: map<Path, Entry>)
    requires RowFilledUpTo(parents, target, m) && target in parents
    ensures RowFilledUpTo(parents, target + 1, m)
  {
  }

  /** A finished row extends the filled prefix by one set. */
  lemma RowCompletes(n: nat, ps: seq<set<int>>, i: int, m: map<Path, Entry>)
    requires 0 <= i < |ps| && FilledUpTo(n, ps, i, m) && RowFilledUpTo(ps[i], n, m)
    ensures FilledUpTo(n, ps, i + 1, m)
  {
  }

  /** When the sets are listed so that removing one element gives an earlier set, every
      state one removal below the i-th set is already in the table. */
  lemma PredecessorsFilled(n: nat, ps: seq<set<int>>, i: int, m: map<Path, Entry>)
    requires 0 <= i < |ps| && ps[i] <= Range(1, n)
    requires forall i, p :: 0 <= i < |ps| && p in ps[i] ==> exists j :: 0 <= j < i && ps[j] == ps[i] - {p}
    requires FilledUpTo(n, ps, i, m)
    ensures PredecessorsIn(ps[i], m)
  {
    forall p | p in ps[i] ensures Path(p, ps[i] - {p}) in m {
      var j :| 0 <= j < i && ps[j] == ps[i] - {p};
      assert p !in ps[j] && 1 <= p < n;
    }
  }

  /** Once every proper subset of {1..n-1} has been processed, the table holds every
      non-terminal state, and in particular every state the terminal state looks up. */
  lemma ProperStatesFilled(n: nat, ps: seq<set<int>>, m: map<Path, Entry>)
    requires n >= 1
    requires forall s :: s <= Range(1, n) && s != Range(1, n) ==> s in ps
    requires FilledUpTo(n, ps, |ps|, m)
    ensures forall k :: IsMemoState(n, k) && k.target != 0 ==> k in m
    ensures forall p :: p in Range(1, n) ==> Path(p, Range(1, n) - {p}) in m
  {
    forall k | IsMemoState(n, k) && k.target != 0 ensures k in m {
      assert k.target in Range(1, n) && k.target !in k.parents;
      assert k.parents in ps;
      var j :| 0 <= j < |ps| && ps[j] == k.parents;
    }
    forall p | p in Range(1, n) ensures Path(p, Range(1, n) - {p}) in m {
      assert IsMemoState(n, Path(p, Range(1, n) - {p}));
    }
  }

  class HeldKarpTsp {
    const w: seq<seq<nat>>
    const nOfVertices: nat
    /** Always 0: the start passed to Create is only range-checked. */
    const startingVertex: int
    /** Path -> (cheapest parent, cost). */
    var minimumCosts: map<Path, Entry>

    /** Every stored entry is a well-formed state holding the value of the recurrence. */
    ghost predicate Valid()
      reads this
    {
      && nOfVertices == |w| && nOfVertices >= 2 && startingVertex == 0
      && TableHoldsBest(w, minimumCosts)
    }

    /** Every state of the table has been filled. */
    ghost predicate Complete()
      reads this
    {
      forall k :: IsMemoState(nOfVertices, k) ==> k in minimumCosts
    }

    constructor (w: seq<seq<nat>>)
      requires IsGraph(w) && |w| >= 2
      ensures Valid()
      ensures this.w == w && minimumCosts == map[]
    {
      this.w := w;
      nOfVertices := |w|;
      startingVertex := 0;
      minimumCosts := map[];
    }

    /** Construction fails when the start is not below the vertex count; otherwise the
        given start is discarded and the tour starts at 0. */
    static method Create(w: seq<seq<nat>>, startingVertex: int) returns (r: Result<HeldKarpTsp>)
      requires IsGraph(w) && |w| >= 2
      ensures r.Failure? <==> startingVertex >= |w|
      ensures r.Failure? ==> r.error == StartingVertexMissing
      ensures r.Success? ==> fresh(r.value) && r.value.Valid() && r.value.w == w
      ensures r.Success? ==> r.value.startingVertex == 0 && r.value.minimumCosts == map[]
    {
      if startingVertex >= |w| {
        return Failure(StartingVertexMissing);
      }
      var tsp := new HeldKarpTsp(w);
      return Success(tsp);
    }

    /** The stored cost of a state the table already holds. */
    function LookUpCostTo(vertex: int, viaPath: set<int>): (c: nat)
      reads this
      requires Valid() && Path(vertex, viaPath) in minimumCosts
      ensures c == Best(w, vertex, viaPath).cost
    {
      minimumCosts[Path(vertex, viaPath)].cost
    }

    /** Stores for `path` the parent through which it is cheapest to reach its target. */
    method FindMinimumCost(path: Path)
      requires Valid() && IsMemoState(nOfVertices, path) && path.parents != {}
      requires forall p :: p in path.parents ==> Path(p, path.parents - {p}) in minimumCosts
      modifies this
      ensures Valid()
      ensures minimumCosts == old(minimumCosts)[path := Best(w, path.target, path.parents)]
    {
      // None plays the part of minCost = MAX_VALUE with no parent yet.
      var best: Option<Entry> := None;
      for parent := 1 to nOfVertices
        invariant best == MinUpTo(w, path.target, path.parents, parent)
        modifies {}
      {
        ghost var prev := best;
        if parent in path.parents {
          var without := CopyWithoutElement(path.parents, parent);
          assert without == path.parents - {parent};
          var bestCostToParent := LookUpCostTo(parent, without);
          var cost := w[path.target][parent] + bestCostToParent;
          MinUpToTake(w, path.target, path.parents, parent, cost);
          if best.None? || cost < best.value.cost {
            best := Some(Entry(parent, cost));
          }
          assert best == Improve(prev, parent, cost);
          assert best == MinUpTo(w, path.target, path.parents, parent + 1);
        } else {
          MinUpToSkip(w, path.target, path.parents, parent);
          assert best == MinUpTo(w, path.target, path.parents, parent + 1);
        }
      }
      BestIsFold(w, path.target, path.parents);
      StoreKeepsBest(w, minimumCosts, path);
      minimumCosts := minimumCosts[path := best.value];
    }

    /** Appends to the accumulator the parents met walking back from `path`, then 0. */
    method ReconstructPath(path: Path, pathAccumulator: seq<int>) returns (r: seq<int>)
      requires Valid() && Complete() && IsMemoState(nOfVertices, path)
      ensures r == pathAccumulator + Walk(w, path.target, path.parents)
      decreases path.parents
    {
      if path.parents == {} {
        return pathAccumulator + [0];
      }
      var parent := minimumCosts[path].parent;
      var pathToParent := Path(parent, CopyWithoutElement(path.parents, parent));
      r := ReconstructPath(pathToParent, pathAccumulator + [parent]);
    }

    /** Fills the table over the ordered power set of {1..n-1}, closes the cycle with the
        terminal state and reconstructs the tour. */
    method FindBestPath() returns (tour: TspPath)
      requires Valid()
      modifies this
      ensures Valid() && Complete()
      ensures forall k :: k in minimumCosts <==> IsMemoState(nOfVertices, k)
      ensures tour == HeldKarpTour(w)
      ensures IsTour(nOfVertices, 0, tour.path) && tour.cost == PathCost(w, tour.path)
      ensures forall c :: IsTour(nOfVertices, 0, c) ==> tour.cost <= PathCost(w, c)
    {
      var n := nOfVertices;
      var powerSet := TspUtils.OrderedPowerSet(n - 1);
      assert n - 1 + 1 == n;
      for i := 0 to |powerSet|
        invariant Valid()
        invariant FilledUpTo(n, powerSet, i, minimumCosts)
      {
        var parents := powerSet[i];
        PredecessorsFilled(n, powerSet, i, minimumCosts);
        for target := 1 to n
          invariant Valid()
          invariant FilledUpTo(n, powerSet, i, minimumCosts)
          invariant PredecessorsIn(parents, minimumCosts)
          invariant RowFilledUpTo(parents, target, minimumCosts)
        {
          if target !in parents {
            var path := Path(target, parents);
            StoreExtendsRow(n, powerSet, i, target, minimumCosts, Best(w, target, parents));
            if parents == {} {
              StoreKeepsBest(w, minimumCosts, path);
              minimumCosts := minimumCosts[path := Entry(startingVertex, w[target][startingVertex])];
            } else {
              FindMinimumCost(path);
            }
          } else {
            RowSkips(parents, target, minimumCosts);
          }
        }
        RowCompletes(n, powerSet, i, minimumCosts);
      }
      var allWithoutStart := CopyWithoutElement(Range(0, n), startingVertex);
      assert allWithoutStart == Range(1, n);
      ProperStatesFilled(n, powerSet, minimumCosts);
      var finalPath := Path(startingVertex, allWithoutStart);
      FindMinimumCost(finalPath);
      var path := ReconstructPath(finalPath, [startingVertex]);
      tour := TspPath(path, minimumCosts[finalPath].cost);
      HeldKarpTourIsTour(w);
      forall c | IsTour(n, 0, c) ensures tour.cost <= PathCost(w, c) {
        HeldKarpTourIsOptimal(w, c);
      }
    }
  }
}
