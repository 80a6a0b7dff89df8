/** The enumeration of visited sets that drives the bottom-up Held-Karp table. */
module TspUtils {
  import opened Tours

  function Pow2(k: nat): (r: nat)
    ensures r >= 1
  {
    if k == 0 then 1 else 2 * Pow2(k - 1)
  }

  /** Each member of p with k added. */
  function AddToEach(p: seq<set<int>>, k: int): (r: seq<set<int>>)
    ensures |r| == |p|
    ensures forall i :: 0 <= i < |p| ==> r[i] == p[i] + {k}
  {
    if p == [] then [] else [p[0] + {k}] + AddToEach(p[1..], k)
  }

  /** All subsets of {1..k} in binary-counter order: the list for k-1, then each of its
      members with k added. This is the order in which the power-set view of the set
      {1..k} lists its members. */
  function PowerSetUpTo(k: nat): (r: seq<set<int>>)
    ensures |r| == Pow2(k)
    ensures forall i :: 0 <= i < |r| ==> r[i] <= Range(1, k + 1)
  {
    if k == 0 then [{}] else PowerSetUpTo(k - 1) + AddToEach(PowerSetUpTo(k - 1), k)
  }

  lemma {:induction false} PowerSetComplete(k: nat, s: set<int>)
    requires s <= Range(1, k + 1)
    ensures s in PowerSetUpTo(k)
  {
    if k == 0 {
      assert forall x :: x !in s;
      assert s == {};
    } else if k in s {
      var s' := s - {k};
      assert s' <= Range(1, k);
      PowerSetComplete(k - 1, s');
      PowerSetGrows(k, s');
      AddBack(s, k);
    } else {
      assert s <= Range(1, k);
      PowerSetComplete(k - 1, s);
      PowerSetKeeps(k, s);
    }
  }

  /** The list for k holds each member of the list for k-1 ... */
  lemma PowerSetKeeps(k: nat, x: set<int>)
    requires k > 0 && x in PowerSetUpTo(k - 1)
    ensures x in PowerSetUpTo(k)
  {
    assert PowerSetUpTo(k) == PowerSetUpTo(k - 1) + AddToEach(PowerSetUpTo(k - 1), k);
  }

  /** ... and each of them with k added. */
  lemma PowerSetGrows(k: nat, x: set<int>)
    requires k > 0 && x in PowerSetUpTo(k - 1)
    ensures x + {k} in PowerSetUpTo(k)
  {
    AddToEachMember(PowerSetUpTo(k - 1), k, x);
    assert PowerSetUpTo(k) == PowerSetUpTo(k - 1) + AddToEach(PowerSetUpTo(k - 1), k);
  }

  lemma AddToEachMember(p: seq<set<int>>, k: int, x: set<int>)
    requires x in p
    ensures x + {k} in AddToEach(p, k)
  {
    var i :| 0 <= i < |p| && p[i] == x;
    assert AddToEach(p, k)[i] == x + {k};
  }

  lemma AddBack(s: set<int>, k: int)
    requires k in s
    ensures (s - {k}) + {k} == s
  {
  }

  lemma AddToEachDistinct(p: seq<set<int>>, k: int)
    requires Distinct(p)
    requires forall i :: 0 <= i < |p| ==> k !in p[i]
    ensures Distinct(AddToEach(p, k))
  {
    var q := AddToEach(p, k);
    forall i, j | 0 <= i < j < |q| ensures q[i] != q[j] {
      assert q[i] - {k} == p[i];
      assert q[j] - {k} == p[j];
    }
  }

  lemma DistinctConcat(p: seq<set<int>>, q: seq<set<int>>, k: int)
    requires Distinct(p) && Distinct(q)
    requires forall i :: 0 <= i < |p| ==> k !in p[i]
    requires forall i :: 0 <= i < |q| ==> k in q[i]
    ensures Distinct(p + q)
  {
    var r := p + q;
    forall i, j | 0 <= i < j < |r| ensures r[i] != r[j] {
      if j < |p| {
        assert r[i] == p[i] && r[j] == p[j];
      } else if i < |p| {
        assert k in r[j] && k !in r[i];
      } else {
        assert r[i] == q[i - |p|] && r[j] == q[j - |p|];
      }
    }
  }

  lemma {:induction false} PowerSetDistinct(k: nat)
    ensures Distinct(PowerSetUpTo(k))
  {
    if k > 0 {
      var p := PowerSetUpTo(k - 1);
      PowerSetDistinct(k - 1);
      assert forall i :: 0 <= i < |p| ==> k !in p[i];
      AddToEachDistinct(p, k);
      DistinctConcat(p, AddToEach(p, k), k);
    }
  }

  predicate SortedBySize(s: seq<set<int>>) {
    forall i, j :: 0 <= i <= j < |s| ==> |s[i]| <= |s[j]|
  }

  /** Inserts x behind every member of r that is not larger than it. */
  function InsertBySize(r: seq<set<int>>, x: set<int>): seq<set<int>> {
    if r == [] || |x| < |r[0]| then [x] + r else [r[0]] + InsertBySize(r[1..], x)
  }

  lemma {:induction false} InsertBySizePermutes(r: seq<set<int>>, x: set<int>)
    ensures multiset(InsertBySize(r, x)) == multiset(r) + multiset{x}
  {
    if !(r == [] || |x| < |r[0]|) {
      InsertBySizePermutes(r[1..], x);
      assert r == [r[0]] + r[1..];
    }
  }

  /** Inserting a set no smaller than a bound into a list of such sets keeps them all at
      least that large. */
  lemma {:induction false} InsertBySizeBounded(r: seq<set<int>>, x: set<int>, b: int)
    requires forall i :: 0 <= i < |r| ==> b <= |r[i]|
    requires b <= |x|
    ensures |InsertBySize(r, x)| == |r| + 1
    ensures forall i :: 0 <= i < |InsertBySize(r, x)| ==> b <= |InsertBySize(r, x)[i]|
  {
    if !(r == [] || |x| < |r[0]|) {
      InsertBySizeBounded(r[1..], x, b);
    }
  }

  lemma {:induction false} InsertBySizeSorted(r: seq<set<int>>, x: set<int>)
    requires SortedBySize(r)
    ensures SortedBySize(InsertBySize(r, x))
  {
    if r == [] || |x| < |r[0]| {
      var u := [x] + r;
      forall i, j | 0 <= i <= j < |u| ensures |u[i]| <= |u[j]| {
        if i > 0 {
          assert u[i] == r[i - 1] && u[j] == r[j - 1];
        } else if j > 0 {
          assert u[j] == r[j - 1] && |r[0]| <= |r[j - 1]|;
        }
      }
    } else {
      var t := InsertBySize(r[1..], x);
      InsertBySizeSorted(r[1..], x);
      InsertBySizeBounded(r[1..], x, |r[0]|);
      var u := [r[0]] + t;
      assert InsertBySize(r, x) == u;
      forall i, j | 0 <= i <= j < |u| ensures |u[i]| <= |u[j]| {
        if i > 0 {
          assert u[i] == t[i - 1] && u[j] == t[j - 1];
        } else if j > 0 {
          assert u[j] == t[j - 1];
        }
      }
    }
  }

  /** The stable sort of the list by subset size (the source sorts with the library's
      list sort; only its contract matters here). */
  method SortBySize(s: seq<set<int>>) returns (r: seq<set<int>>)
    ensures SortedBySize(r)
    ensures multiset(r) == multiset(s)
  {
    r := [];
    for i := 0 to |s|
      invariant SortedBySize(r)
      invariant multiset(r) == multiset(s[..i])
    {
      InsertBySizeSorted(r, s[i]);
      InsertBySizePermutes(r, s[i]);
      assert s[..i + 1] == s[..i] + [s[i]];
      r := InsertBySize(r, s[i]);
    }
    assert s[..|s|] == s;
  }

  lemma {:induction false} DistinctMultiplicity(s: seq<set<int>>, x: set<int>)
    requires Distinct(s)
    ensures multiset(s)[x] <= 1
  {
    if s != [] {
      var t := s[..|s| - 1];
      assert s == t + [s[|s| - 1]];
      DistinctMultiplicity(t, x);
      if x == s[|s| - 1] {
        assert x !in t;
      }
    }
  }

  lemma RepeatMultiplicity(s: seq<set<int>>, i: int, j: int)
    requires 0 <= i < j < |s| && s[i] == s[j]
    ensures multiset(s)[s[i]] >= 2
  {
    assert s == s[..i] + [s[i]] + s[i + 1..j] + [s[j]] + s[j + 1..];
  }

  lemma PermutationDistinct(a: seq<set<int>>, b: seq<set<int>>)
    requires multiset(a) == multiset(b) && Distinct(a)
    ensures Distinct(b)
  {
    forall i, j | 0 <= i < j < |b| ensures b[i] != b[j] {
      if b[i] == b[j] {
        RepeatMultiplicity(b, i, j);
        DistinctMultiplicity(a, b[i]);
      }
    }
  }

  /** What the sorted copy of the power set inherits from it. */
  lemma SortedPowerSet(n: nat, sorted: seq<set<int>>)
    requires multiset(sorted) == multiset(PowerSetUpTo(n))
    ensures |sorted| == Pow2(n)
    ensures Distinct(sorted)
    ensures forall i :: 0 <= i < |sorted| ==> sorted[i] <= Range(1, n + 1)
    ensures forall s :: s <= Range(1, n + 1) ==> s in sorted
  {
    var all := PowerSetUpTo(n);
    PowerSetDistinct(n);
    PermutationDistinct(all, sorted);
    assert |multiset(sorted)| == |multiset(all)|;
    forall i | 0 <= i < |sorted| ensures sorted[i] <= Range(1, n + 1) {
      assert sorted[i] in multiset(all);
    }
    forall s | s <= Range(1, n + 1) ensures s in sorted {
      PowerSetComplete(n, s);
      assert s in multiset(all);
    }
  }

  /** The full set is the unique largest subset, so sorting puts it last. */
  lemma FullSetLast(n: nat, sorted: seq<set<int>>)
    requires SortedBySize(sorted) && Distinct(sorted) && |sorted| >= 1
    requires forall i :: 0 <= i < |sorted| ==> sorted[i] <= Range(1, n + 1)
    requires Range(1, n + 1) in sorted
    ensures sorted[|sorted| - 1] == Range(1, n + 1)
    ensures forall i :: 0 <= i < |sorted| - 1 ==> sorted[i] != Range(1, n + 1)
  {
    var last := |sorted| - 1;
    var f :| 0 <= f < |sorted| && sorted[f] == Range(1, n + 1);
    SubsetCard(sorted[last], Range(1, n + 1));
    assert |sorted[f]| <= |sorted[last]|;
  }

  /** In a size-sorted list holding every proper subset of {1..n}, removing one element
      from a member gives a member that occurs strictly earlier. */
  lemma RemovalOccursEarlier(n: nat, r: seq<set<int>>, i: int, p: int)
    requires SortedBySize(r)
    requires forall s :: s <= Range(1, n + 1) && s != Range(1, n + 1) ==> s in r
    requires 0 <= i < |r| && r[i] <= Range(1, n + 1) && p in r[i]
    ensures exists j :: 0 <= j < i && r[j] == r[i] - {p}
  {
    var s := r[i] - {p};
    assert |s| == |r[i]| - 1;
    SubsetCard(s, Range(1, n + 1));
    SubsetCard(r[i], Range(1, n + 1));
    assert s in r;
    var j :| 0 <= j < |r| && r[j] == s;
  }

  /** Dropping the last (full) subset from the sorted power set. */
  lemma DropFullSet(n: nat, sorted: seq<set<int>>, r: seq<set<int>>)
    requires SortedBySize(sorted) && Distinct(sorted) && |sorted| == Pow2(n)
    requires forall i :: 0 <= i < |sorted| ==> sorted[i] <= Range(1, n + 1)
    requires forall s :: s <= Range(1, n + 1) ==> s in sorted
    requires sorted[|sorted| - 1] == Range(1, n + 1)
    requires r == sorted[..|sorted| - 1]
    ensures |r| == Pow2(n) - 1
    ensures Distinct(r) && SortedBySize(r)
    ensures forall i :: 0 <= i < |r| ==> r[i] <= Range(1, n + 1)
    ensures forall i :: 0 <= i < |r| ==> r[i] != Range(1, n + 1)
    ensures forall s :: s <= Range(1, n + 1) && s != Range(1, n + 1) ==> s in r
  {
    forall i | 0 <= i < |r| ensures r[i] != Range(1, n + 1) {
      assert r[i] == sorted[i];
    }
    forall s | s <= Range(1, n + 1) && s != Range(1, n + 1) ensures s in r {
      assert s in sorted;
      var k :| 0 <= k < |sorted| && sorted[k] == s;
      assert r[k] == s;
    }
  }

  /** All subsets of {1..n} except the full set, in order of non-decreasing size. */
  method OrderedPowerSet(n: nat) returns (powerSet: seq<set<int>>)
    ensures |powerSet| == Pow2(n) - 1
    ensures Distinct(powerSet)
    ensures forall i :: 0 <= i < |powerSet| ==> powerSet[i] <= Range(1, n + 1)
    ensures forall i :: 0 <= i < |powerSet| ==> powerSet[i] != Range(1, n + 1)
    ensures forall s :: s <= Range(1, n + 1) && s != Range(1, n + 1) ==> s in powerSet
    ensures SortedBySize(powerSet)
    ensures n >= 1 ==> powerSet[0] == {}
    ensures n == 0 ==> powerSet == []
    ensures forall i, p :: 0 <= i < |powerSet| && p in powerSet[i] ==>
              exists j :: 0 <= j < i && powerSet[j] == powerSet[i] - {p}
  {
    powerSet := PowerSetUpTo(n);
    powerSet := SortBySize(powerSet);
    SortedPowerSet(n, powerSet);
    FullSetLast(n, powerSet);
    ghost var sorted := powerSet;
    powerSet := powerSet[..|powerSet| - 1];
    DropFullSet(n, sorted, powerSet);
    if n >= 1 {
      assert {} in powerSet by { assert 1 in Range(1, n + 1); }
      ghost var z :| 0 <= z < |powerSet| && powerSet[z] == {};
      assert |powerSet[0]| <= |powerSet[z]|;
    }
    forall i, p | 0 <= i < |powerSet| && p in powerSet[i]
      ensures exists j :: 0 <= j < i && powerSet[j] == powerSet[i] - {p}
    {
      RemovalOccursEarlier(n, powerSet, i, p);
    }
  }
}
