# Held-Karp and brute-force travelling salesman solvers

This project models the travelling-salesman part of mk-algo in Dafny and proves
properties of the model. Both solvers take a complete undirected graph with
non-negative integer edge weights and return a cheapest Hamiltonian cycle and its cost.

- `HeldKarpTsp` is the dynamic program. Its memo table maps a state to the cheapest
  last parent and the cost through it. A state is a target vertex plus the set of
  vertices visited on the way there from vertex 0.
  - The table is filled bottom-up over the subsets of `{1..n-1}`, smallest first.
  - The terminal state `(0, {1..n-1})` closes the cycle.
  - The tour is read back by following the stored parents.
- `TspUtils.orderedPowerSet` lists those subsets in order of size, leaving out the
  full set.
- `NaiveTsp` is the depth-first backtracking search that serves as the oracle. It
  keeps the first strictly cheapest cycle it meets.

Modules:

- `Tours` (`tours.dfy`): the shared vocabulary.
  - The graph is a symmetric weight matrix, `IsGraph`.
  - `PathCost` is the sum of the consecutive edge weights.
  - `IsTour` is a Hamiltonian cycle from a start vertex.
  - Orderings of a set, and results and errors.
- `TspUtils` (`tsp_utils.dfy`): the ordered power set.
  - The power set in the binary-counter order of the library view (`PowerSetUpTo`).
  - A sort by size: `SortBySize`, an insertion loop proved sorted and a permutation.
  - Removal of the last member.
- `HeldKarp` (`held_karp.dfy`): the specification and the class.
  - `Best` is the recurrence. It is mutually recursive with `MinUpTo`, the running
    minimum over the candidate parents in ascending order, which keeps the first
    minimiser.
  - `Walk` is the reconstruction.
  - `HeldKarpTour` is the result.
  - Lemmas show that the result is a tour, costs what it claims, and is no dearer
    than any other tour from 0.
  - Class `HeldKarpTsp` has the map field `minimumCosts`.
    - `FindMinimumCost`'s loop is proved against `MinUpTo`.
    - `FindBestPath`'s nested loops keep the invariant that every state is present
      and holds `Best` by the time it is read.
- `Naive` (`naive.dfy`): the search and the class.
  - `Explore`/`ExploreFrom` are the search, written as a fold over the stack.
  - Lemmas show that the result is an optimal tour, that the record only ever
    improves strictly, and that a second run changes nothing. Among equally cheap
    tours, the one returned comes first in lexicographic order, which is the order
    the search meets them.
  - Class `NaiveTsp` has the fields `bestCost`, `bestPath` and the shared stack
    `currentPath`. Its recursive method is proved equal to `Explore`.
- `Agreement` (`agreement.dfy`): the two solvers side by side.
  - From every start both return the same cost on every graph.
  - On the three-vertex graph of the repository's tests both return `0, 1, 2, 0` at
    cost 10.
  - A start that is not a vertex is refused by both.
  - The dynamic program ignores the start it is given, while the search honours it.

Notes:

- Vertex 0 is the start of the dynamic program. `HeldKarpTsp.java:68-69` discards the
  caller's start after range-checking it, and the model keeps that.
  `Agreement.StartAtTwo` shows the consequence: asked to start at 2, the dynamic
  program returns a tour from 0 and the search a tour from 2, at the same cost.
- Three details of the code that a reader might expect otherwise:
  - The reconstructed path is built by appending parents to `[0]`, not by prepending.
  - `orderedPowerSet(0)` returns the empty list, not a list holding only the empty set.
    The only subset, `{}`, is the full set and is removed.
  - The candidate cost is `cost(target, parent)`, that is `w[t][p]`. On a symmetric
    graph this is the same as `w[p][t]`.

## Model

| member | source | states |
|---|---|---|
| Tours.Range | src/main/java/mk/tsp/TspUtils.java:42 | the set holds exactly the integers lo..hi-1 and has hi-lo members |
| TspUtils.PowerSetUpTo | src/main/java/mk/tsp/TspUtils.java:43 | the power set of {1..k} has 2^k members, each a subset of {1..k} |
| TspUtils.PowerSetComplete | src/main/java/mk/tsp/TspUtils.java:43 | every subset of {1..k} occurs in the power-set list |
| TspUtils.PowerSetDistinct | src/main/java/mk/tsp/TspUtils.java:43 | the power-set list has no repetitions |
| TspUtils.InsertBySizePermutes | src/main/java/mk/tsp/TspUtils.java:44 | one insertion step of the sort adds exactly the inserted set to the multiset |
| TspUtils.InsertBySizeSorted | src/main/java/mk/tsp/TspUtils.java:44 | one insertion step keeps the list sorted by size |
| TspUtils.SortBySize | src/main/java/mk/tsp/TspUtils.java:44 | the sort by size returns a list sorted by size that is a permutation of its input |
| TspUtils.SortedPowerSet | src/main/java/mk/tsp/TspUtils.java:43-44 | a permutation of the power set keeps its size, distinctness, bounds and completeness |
| TspUtils.FullSetLast | src/main/java/mk/tsp/TspUtils.java:44-45 | after sorting by size the full set {1..n} is the last member and occurs nowhere else |
| TspUtils.RemovalOccursEarlier | src/main/java/mk/tsp/TspUtils.java:41-46 | in the size-sorted list of proper subsets, removing any element of a member gives a member that occurs strictly earlier |
| TspUtils.DropFullSet | src/main/java/mk/tsp/TspUtils.java:45 | removing the last member leaves 2^n-1 distinct, size-sorted proper subsets, every proper subset among them |
| TspUtils.OrderedPowerSet | src/main/java/mk/tsp/TspUtils.java:41-47 | the result lists every proper subset of {1..n} exactly once, never the full set, sorted by size, the empty set first; each member minus any element occurs earlier; empty for n = 0 |
| HeldKarp.IsMemoState | src/main/java/mk/tsp/HeldKarpTsp.java:77-81 | the states the engine stores: a target 1..n-1 outside a visited subset of {1..n-1}, or the terminal state (0, {1..n-1}) built at lines 90-91 |
| HeldKarp.Candidate | src/main/java/mk/tsp/HeldKarpTsp.java:107-108 | the cost of reaching t through parent p: w[t][p] plus the stored cost of (p, S - {p}); its role in the minimum is stated by HeldKarp.BestRecurrence |
| HeldKarp.CopyWithoutElement | src/main/java/mk/tsp/HeldKarpTsp.java:133-137 | the copy holds exactly the members of the set other than the excluded one |
| HeldKarp.Best | src/main/java/mk/tsp/HeldKarpTsp.java:102-115 | the stored parent of a non-empty state is one of its visited vertices |
| HeldKarp.MinUpTo | src/main/java/mk/tsp/HeldKarpTsp.java:103-113 | after trying the parents below k, the running minimum names a parent in S below k, and has none only when S has no vertex below k |
| HeldKarp.Improve | src/main/java/mk/tsp/HeldKarpTsp.java:109-112 | the running minimum is kept or replaced by the new candidate, and replaced only when there is none yet or the candidate is strictly cheaper (a tie keeps it); it ends at most the candidate's cost and never rises |
| HeldKarp.MinUpToTake | src/main/java/mk/tsp/HeldKarpTsp.java:105-112 | offering a parent in S at its looked-up cost is one step of the fold |
| HeldKarp.MinUpToSkip | src/main/java/mk/tsp/HeldKarpTsp.java:105 | a vertex outside S leaves the running minimum unchanged |
| HeldKarp.MinUpToIsLeast | src/main/java/mk/tsp/HeldKarpTsp.java:107-112 | the running minimum costs no more than any candidate parent already tried |
| HeldKarp.MinUpToAttained | src/main/java/mk/tsp/HeldKarpTsp.java:108-111 | the running minimum's cost is exactly its own parent's candidate cost |
| HeldKarp.MinUpToFirst | src/main/java/mk/tsp/HeldKarpTsp.java:109 | the strict comparison keeps the first minimiser: every smaller parent costs strictly more |
| HeldKarp.BestIsFold | src/main/java/mk/tsp/HeldKarpTsp.java:102-115 | a non-empty state stores the complete fold over its parents |
| HeldKarp.BestRecurrence | src/main/java/mk/tsp/HeldKarpTsp.java:102-115 | a non-empty state stores a parent of least candidate cost, at exactly that cost, with every smaller parent strictly dearer |
| HeldKarp.BestAtMost | src/main/java/mk/tsp/HeldKarpTsp.java:107-112 | any parent bounds the stored cost from above |
| HeldKarp.Walk | src/main/java/mk/tsp/HeldKarpTsp.java:117-127 | the vertices reconstruction appends from (t, S): the stored parent, then the walk from that parent's state, down to 0; what it returns is stated by HeldKarp.WalkVisitsExactly and HeldKarp.WalkCost |
| HeldKarp.WalkVisitsExactly | src/main/java/mk/tsp/HeldKarpTsp.java:117-127 | reconstruction from (t, S) appends every vertex of S exactly once and then 0 |
| HeldKarp.WalkCost | src/main/java/mk/tsp/HeldKarpTsp.java:117-127 | the path from t through the reconstructed parents to 0 costs exactly the stored cost |
| HeldKarp.BestIsLowerBound | src/main/java/mk/tsp/HeldKarpTsp.java:102-115 | every order of visiting S between t and 0 costs at least the stored cost |
| HeldKarp.BestIsMinimumPathCost | src/main/java/mk/tsp/HeldKarpTsp.java:143-157 | a state's cost bounds every path from 0 through exactly its visited set to its target |
| HeldKarp.HeldKarpTour | src/main/java/mk/tsp/HeldKarpTsp.java:90-96 | the engine's result: 0 followed by the walk back from the terminal state, with the terminal state's cost; its properties are stated by HeldKarp.HeldKarpTourIsTour and HeldKarp.HeldKarpTourIsOptimal |
| HeldKarp.HeldKarpTourIsTour | src/main/java/mk/tsp/HeldKarpTsp.java:90-96 | the returned path is a Hamiltonian cycle from 0 and the returned cost is its edge-weight sum |
| HeldKarp.HeldKarpTourIsOptimal | src/main/java/mk/tsp/HeldKarpTsp.java:74-97 | no Hamiltonian cycle from 0 costs less than the returned cost |
| HeldKarp.StoreKeepsBest | src/main/java/mk/tsp/HeldKarpTsp.java:114 | storing a state's recurrence value keeps every entry of the table correct |
| HeldKarp.StoreExtendsRow | src/main/java/mk/tsp/HeldKarpTsp.java:77-87 | storing (target, parents) keeps the filled prefix and extends the row of parents by one target |
| HeldKarp.RowSkips | src/main/java/mk/tsp/HeldKarpTsp.java:78-80 | a target already among the parents needs no entry |
| HeldKarp.RowCompletes | src/main/java/mk/tsp/HeldKarpTsp.java:76-88 | a finished row extends the filled prefix by one subset |
| HeldKarp.PredecessorsFilled | src/main/java/mk/tsp/HeldKarpTsp.java:75-76 | in the ordered power set, every state a non-empty subset looks up has been stored before that subset is processed |
| HeldKarp.ProperStatesFilled | src/main/java/mk/tsp/HeldKarpTsp.java:88-92 | after the loop every non-terminal state is stored, so every lookup of the terminal state succeeds |
| HeldKarp.HeldKarpTsp.constructor | src/main/java/mk/tsp/HeldKarpTsp.java:64-71 | a new engine holds the graph, start 0 and an empty table |
| HeldKarp.HeldKarpTsp.Create | src/main/java/mk/tsp/HeldKarpTsp.java:64-71 | construction fails with StartingVertexMissing exactly when start >= n; otherwise the start is replaced by 0 |
| HeldKarp.HeldKarpTsp.LookUpCostTo | src/main/java/mk/tsp/HeldKarpTsp.java:129-131 | the looked-up cost is the recurrence's cost of that state |
| HeldKarp.HeldKarpTsp.FindMinimumCost | src/main/java/mk/tsp/HeldKarpTsp.java:102-115 | the loop over the parents stores exactly the recurrence's entry for the state and changes nothing else |
| HeldKarp.HeldKarpTsp.ReconstructPath | src/main/java/mk/tsp/HeldKarpTsp.java:117-127 | the result is the accumulator followed by the walk back through the stored parents |
| HeldKarp.HeldKarpTsp.FindBestPath | src/main/java/mk/tsp/HeldKarpTsp.java:74-97 | the table ends holding exactly the states; the result is a Hamiltonian cycle from 0 at its own cost and no cycle is cheaper |
| Naive.Offer | src/main/java/mk/tsp/NaiveTsp.java:75-77 | the candidate replaces the best only on a strictly smaller cost; afterwards there is a best no dearer than the candidate |
| Naive.PushKeepsStack | src/main/java/mk/tsp/NaiveTsp.java:84-89 | pushing an unvisited vertex keeps the stack repetition-free, which is only possible while it is shorter than n |
| Naive.ClosedStackIsTour | src/main/java/mk/tsp/NaiveTsp.java:71-74 | a full stack closed back to the start is a Hamiltonian cycle |
| Naive.Explore | src/main/java/mk/tsp/NaiveTsp.java:70-93 | one level of the search as a value: score the stack closed back to the start when it holds every vertex, then try each unvisited next vertex in ascending order; its properties are stated by Naive.ExploreImproves, Naive.ExploreValid, Naive.ExploreCovers, Naive.ExploreKeeps and Naive.ExploreFirst |
| Naive.ExploreFrom | src/main/java/mk/tsp/NaiveTsp.java:83-92 | the rest of the loop over the next vertex from candidate v: skip a visited vertex, otherwise search below it and go on with the record that search returns |
| Naive.NaiveResult | src/main/java/mk/tsp/NaiveTsp.java:62-68 | the solver's result: the search from the one-vertex stack holding the start, from a record with no best yet; its properties are stated by Naive.NaiveIsOptimal and Naive.NaiveKeepsFirst |
| Naive.ExploreImproves | src/main/java/mk/tsp/NaiveTsp.java:70-93 | the search changes the record only to a strictly cheaper one |
| Naive.ExploreFromImproves | src/main/java/mk/tsp/NaiveTsp.java:83-92 | the rest of the loop changes the record only to a strictly cheaper one |
| Naive.ExploreValid | src/main/java/mk/tsp/NaiveTsp.java:70-93 | only tours from the start, recorded with their own cost, become the best |
| Naive.ExploreFromValid | src/main/java/mk/tsp/NaiveTsp.java:83-92 | the same for the rest of the loop |
| Naive.ExploreCovers | src/main/java/mk/tsp/NaiveTsp.java:70-93 | the search reaches every tour extending the stack: afterwards the best costs no more than any of them |
| Naive.ExploreFromCovers | src/main/java/mk/tsp/NaiveTsp.java:83-92 | the rest of the loop reaches every tour whose next vertex is not below the loop counter |
| Naive.ExploreKeeps | src/main/java/mk/tsp/NaiveTsp.java:75-77 | a best already bounding every tour extending the stack is left unchanged |
| Naive.ExploreFromKeeps | src/main/java/mk/tsp/NaiveTsp.java:83-92 | the same for the rest of the loop |
| Naive.ExploreFromFull | src/main/java/mk/tsp/NaiveTsp.java:83-86 | once every vertex is on the stack the loop skips every vertex |
| Naive.ExploreFirst | src/main/java/mk/tsp/NaiveTsp.java:70-93 | a replaced best extends the stack and comes first in lexicographic order among the tours of its cost extending the stack |
| Naive.ExploreFromFirst | src/main/java/mk/tsp/NaiveTsp.java:83-92 | the same for the rest of the loop, over tours whose next vertex is not below the counter |
| Naive.FirstSkip | src/main/java/mk/tsp/NaiveTsp.java:84-86 | skipping a visited vertex loses no tour |
| Naive.FirstLater | src/main/java/mk/tsp/NaiveTsp.java:75 | a best replaced after vertex v was searched is strictly cheaper than every tour through v |
| Naive.FirstHere | src/main/java/mk/tsp/NaiveTsp.java:87-91 | a best found through vertex v comes before every tour through a larger vertex |
| Naive.NaiveIsOptimal | src/main/java/mk/tsp/NaiveTsp.java:62-68 | the search returns a Hamiltonian cycle from the start at its own cost, no dearer than any other |
| Naive.NaiveKeepsFirst | src/main/java/mk/tsp/NaiveTsp.java:75-77 | among the cheapest cycles the returned one comes first in lexicographic order |
| Naive.NaiveRepeatable | src/main/java/mk/tsp/NaiveTsp.java:62-68 | a second search, starting from the kept best, returns the same record |
| Naive.NaiveTsp.constructor | src/main/java/mk/tsp/NaiveTsp.java:54-60 | a new solver keeps the graph and the start, with no best yet |
| Naive.NaiveTsp.Create | src/main/java/mk/tsp/NaiveTsp.java:54-60 | construction fails with StartingVertexMissing exactly when start >= n; otherwise the start is kept |
| Naive.NaiveTsp.FindBestPath | src/main/java/mk/tsp/NaiveTsp.java:62-68 | a negative start fails at the first edge lookup; otherwise the best becomes the search's result from the one-vertex stack, an optimal cycle from the start |
| Naive.NaiveTsp.FindBestPathFrom | src/main/java/mk/tsp/NaiveTsp.java:70-93 | one recursion level leaves the stack as it found it and updates the best exactly as the search does |
| Agreement.NaiveAgreesWithHeldKarp | src/test/java/mk/tsp/TspTestBase.java:50-72 | from every valid start the search returns the cost of the dynamic program's tour, on every graph |
| Agreement.Triangle | src/test/java/mk/tsp/TspTestBase.java:39-43 | the test's three-vertex matrix is a symmetric graph on 3 vertices |
| Agreement.TriangleSingletons | src/main/java/mk/tsp/HeldKarpTsp.java:102-115 | on the triangle, state (1, {2}) stores parent 2 at cost 9 and state (2, {1}) stores parent 1 at cost 6 |
| Agreement.TriangleTerminal | src/main/java/mk/tsp/HeldKarpTsp.java:109-112 | on the triangle, the terminal state keeps parent 1, the first of two parents of cost 10 |
| Agreement.TriangleHeldKarp | src/test/java/mk/tsp/TspTestBase.java:37-48 | the dynamic program's result on the triangle is 0, 1, 2, 0 at cost 10 |
| Agreement.TriangleNaive | src/test/java/mk/tsp/TspTestBase.java:37-48 | the search's result on the triangle is 0, 1, 2, 0 at cost 10 |
| Agreement.SolveTriangle | src/test/java/mk/tsp/TspTestBase.java:37-48 | both solver objects return 0, 1, 2, 0 at cost 10 on the triangle |
| Agreement.MissingStart | src/test/java/mk/tsp/TspTestBase.java:74-77 | a start equal to the vertex count is refused by both constructors |
| Agreement.StartAtTwo | src/main/java/mk/tsp/HeldKarpTsp.java:67-69 | asked to start at 2, the dynamic program returns a tour from 0 and the search one from 2, both of cost 10 |

## Left out

- The graph library: the graph is a complete symmetric weight matrix. Missing edges and
  self-loops are not modelled. Only `Tours.PathCostReverse`, and through it
  `HeldKarp.BestIsMinimumPathCost`, uses the symmetry of the matrix.
- Graphs with fewer than two vertices are excluded by precondition.
  - On one vertex `NaiveTsp` fails at the self-loop lookup `edgeValue(0, 0).get()`
    (`NaiveTsp.java:72`).
  - On one vertex `HeldKarpTsp.findBestPath` needs no edge lookup.
    `orderedPowerSet(0)` is empty, so the table loop does nothing.
    `findMinimumCost((0, {}))` stores `(null, MAX_VALUE)` (`HeldKarpTsp.java:103-114`).
    The result is `[0, 0]` at cost `Integer.MAX_VALUE` (`HeldKarpTsp.java:94-96`,
    `118-120`).
  - The model sets these cases aside, because `MAX_VALUE` is modelled as `None`.
- Integer width: costs are unbounded naturals. `Integer.MAX_VALUE` as "no best yet"
  (`HeldKarpTsp.java:103`, `NaiveTsp.java:56`) is modelled as `None`. Overflow of a
  32-bit sum, and a tour whose true cost is `MAX_VALUE` or more, are not modelled.
- TspUtils.OrderedPowerSet: has no size bound. In the source the subset list is
  int-sized: `Sets.powerSet` (`TspUtils.java:43`) refuses a set of more than 30
  elements. So `HeldKarpTsp.findBestPath` throws for 32 or more vertices
  (`HeldKarpTsp.java:75`), while the model returns a tour for every graph.
- HeldKarp.HeldKarpTsp.FindMinimumCost: iterates the parents in ascending order.
  For every state but the terminal one, `path.parents` is a subset view from
  `Sets.powerSet` (`TspUtils.java:43`, `HeldKarpTsp.java:76`, `81`). That view
  iterates in the order of the `HashSet` it was built from (`TspUtils.java:42`).
  The terminal state's set is a `HashSet` copy (`HeldKarpTsp.java:90`, `134`). Both
  orders are ascending for small `Integer`s, but the library's rules are not part of
  this model. Only which of several equally cheap parents is stored depends on the
  order.
- TspUtils.SortBySize: states sorted-by-size and permutation, not stability. The
  order within one size is therefore not claimed. The proofs above need none of it.
- TspUtils.OrderedPowerSet: takes a natural number. The source's negative `n` (empty
  range, also giving an empty list) is not modelled, because the only caller passes
  `nOfVertices - 1 >= 1`.
- Naive.NaiveTsp.FindBestPathFrom: the `printf` of every improvement (`NaiveTsp.java:78`)
  is left out as output only.
- Exceptions: `checkState` becomes `Failure(StartingVertexMissing)` from the static
  `Create`, because a Dafny constructor cannot fail.
  - For a negative start the search's first edge lookup throws. This is
    `Failure(MissingEdge)` from `Naive.NaiveTsp.FindBestPath`.
  - For a negative start the dynamic program ignores the start, so nothing fails.
- The Java `Stack` shared by the recursion is modelled as the field `currentPath` of
  `NaiveTsp`. The rest of the program cannot alias it.
- The reconstruction accumulator is a mutable list in the source and a value in the
  model. The returned list is the same.
- `TspPath.equals`/`hashCode`, `Pair` and `Path`'s generated equality are value
  equality of Dafny datatypes. `toString` methods are left out.
- The tests on random graphs (`TspTestBase.java:50-72`) depend on `java.util.Random`
  and are not modelled. `Agreement.NaiveAgreesWithHeldKarp` states their cost
  agreement for every graph and every valid start, including the start 3 of lines
  58-72. The exact paths they expect are not derived.
