/** The two solvers side by side: both return a cheapest tour from vertex 0, so their
    costs agree, and on the three-vertex graph of the repository's tests they return
    the same tour. */
module Agreement {
  import opened Tours
  import opened HeldKarp
  import opened Naive

  /** From every start the brute-force search finds the cost of the dynamic program's
      tour from 0: a tour can be started at any of its vertices at the same cost. */
  lemma NaiveAgreesWithHeldKarp(w: seq<seq<nat>>, start: int)
    requires IsGraph(w) && |w| >= 2 && 0 <= start < |w|
    ensures NaiveResult(w, start).bestCost == Some(HeldKarpTour(w).cost)
  {
    var r := NaiveResult(w, start);
    var h := HeldKarpTour(w);
    NaiveIsOptimal(w, start);
    HeldKarpTourIsTour(w);
    var fromZero := RotateTo(w, start, r.bestPath, 0);
    HeldKarpTourIsOptimal(w, fromZero);
    var fromStart := RotateTo(w, 0, h.path, start);
    assert r.bestCost.value <= PathCost(w, fromStart);
  }

  /** The triangle with edges 0-1 of weight 1, 0-2 of weight 4 and 1-2 of weight 5. */
  function Triangle(): (w: seq<seq<nat>>)
    ensures IsGraph(w) && |w| == 3
  {
    [[0, 1, 4], [1, 0, 5], [4, 5, 0]]
  }

  /** The states with one visited vertex: reach it from 0, then step to the target. */
  lemma TriangleSingletons()
    ensures Best(Triangle(), 1, {2}) == Entry(2, 9)
    ensures Best(Triangle(), 2, {1}) == Entry(1, 6)
  {
    var w := Triangle();
    assert {2} - {2} == {} && {1} - {1} == {};
    assert Best(w, 2, {}) == Entry(0, 4);
    assert Best(w, 1, {}) == Entry(0, 1);
    BestIsFold(w, 1, {2});
    BestIsFold(w, 2, {1});
  }

  /** The terminal state: both parents cost 10, and the first of them, 1, is kept. */
  lemma TriangleTerminal()
    ensures Best(Triangle(), 0, {1, 2}) == Entry(1, 10)
  {
    var w := Triangle();
    TriangleSingletons();
    assert {1, 2} - {1} == {2} && {1, 2} - {2} == {1};
    BestIsFold(w, 0, {1, 2});
    assert MinUpTo(w, 0, {1, 2}, 2) == Some(Entry(1, 10));
  }

  /** Both tours of the triangle cost 10; the dynamic program keeps parent 1 for the
      terminal state, as the first of two equal candidates, and so returns 0, 1, 2, 0. */
  lemma TriangleHeldKarp()
    ensures HeldKarpTour(Triangle()) == TspPath([0, 1, 2, 0], 10)
  {
    var w := Triangle();
    assert Range(1, 3) == {1, 2};
    TriangleSingletons();
    TriangleTerminal();
    assert {1, 2} - {1} == {2} && {2} - {2} == {};
    assert Walk(w, 2, {}) == [0];
    assert Walk(w, 1, {2}) == [2, 0];
    assert Walk(w, 0, {1, 2}) == [1, 2, 0];
  }

  /** The search meets 0, 1, 2, 0 first and keeps it against the equally cheap
      0, 2, 1, 0. */
  lemma TriangleNaive()
    ensures NaiveResult(Triangle(), 0) == Record(Some(10), [0, 1, 2, 0])
  {
    var w := Triangle();
    NaiveIsOptimal(w, 0);
    NaiveKeepsFirst(w, 0);
    NaiveAgreesWithHeldKarp(w, 0);
    TriangleHeldKarp();
    HeldKarpTourIsTour(w);
    var r := NaiveResult(w, 0);
    assert PathCost(w, [0, 1, 2, 0]) == 10;
    assert LexLE(r.bestPath, [0, 1, 2, 0]);
    FirstTourOfThree(r.bestPath);
  }

  /** On three vertices no tour from 0 comes before 0, 1, 2, 0. */
  lemma FirstTourOfThree(p: seq<int>)
    requires IsTour(3, 0, p) && LexLE(p, [0, 1, 2, 0])
    ensures p == [0, 1, 2, 0]
  {
    var c := [0, 1, 2, 0];
    assert p[..3][0] == p[0] && p[..3][1] == p[1] && p[..3][2] == p[2];
    assert 0 < p[1] < 3 && 0 < p[2] < 3 && p[1] != p[2];
    forall k | 0 <= k < 4 && p[..k] == c[..k] ensures p[k] >= c[k] {
      if k == 2 {
        assert p[1] == p[..k][1];
      }
    }
  }

  /** Both solvers on the triangle from vertex 0 return 0, 1, 2, 0 at cost 10. */
  method SolveTriangle() returns (heldKarp: TspPath, naive: Result<TspPath>)
    ensures heldKarp == TspPath([0, 1, 2, 0], 10)
    ensures naive == Success(TspPath([0, 1, 2, 0], 10))
  {
    var w := Triangle();
    var h := HeldKarpTsp.Create(w, 0);
    heldKarp := h.value.FindBestPath();
    TriangleHeldKarp();
    var b := NaiveTsp.Create(w, 0);
    naive := b.value.FindBestPath();
    TriangleNaive();
  }

  /** A start that is not a vertex is refused by both constructors. */
  method MissingStart() returns (heldKarp: Result<HeldKarpTsp>, naive: Result<NaiveTsp>)
    ensures heldKarp == Failure(StartingVertexMissing)
    ensures naive == Failure(StartingVertexMissing)
  {
    heldKarp := HeldKarpTsp.Create(Triangle(), 3);
    naive := NaiveTsp.Create(Triangle(), 3);
  }

  /** Every tour of the triangle uses each of its three edges once, so costs 10. */
  lemma TriangleTourCost(start: int, c: seq<int>)
    requires IsTour(3, start, c)
    ensures PathCost(Triangle(), c) == 10
  {
    var w := Triangle();
    assert c[..3][0] == c[0] && c[..3][1] == c[1] && c[..3][2] == c[2];
    var a, b, d := c[0], c[1], c[2];
    assert c == [a, b, d, a];
    assert c[1..] == [b, d, a] && c[1..][1..] == [d, a];
    assert PathCost(w, [d, a]) == w[d][a];
    assert PathCost(w, c) == w[a][b] + w[b][d] + w[d][a];
  }

  /** Asked to start at vertex 2, the brute-force search returns a tour from 2 while the
      dynamic program still returns its tour from 0, at the same cost. */
  method StartAtTwo() returns (heldKarp: TspPath, naive: Result<TspPath>)
    ensures |heldKarp.path| == 4 && heldKarp.path[0] == 0
    ensures naive.Success? && |naive.value.path| == 4 && naive.value.path[0] == 2
    ensures naive.value.cost == heldKarp.cost == 10
  {
    var w := Triangle();
    var h := HeldKarpTsp.Create(w, 2);
    heldKarp := h.value.FindBestPath();
    TriangleHeldKarp();
    var b := NaiveTsp.Create(w, 2);
    naive := b.value.FindBestPath();
    TriangleTourCost(2, naive.value.path);
  }
}
