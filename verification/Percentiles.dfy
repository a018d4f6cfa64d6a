/** Sorting latencies and reading percentiles off the sorted list. */
module Percentiles {
  import opened Numbers
  import opened Events

  ghost predicate Sorted(s: seq<nat>) {
    forall i, j :: 0 <= i < j < |s| ==> s[i] <= s[j]
  }

  function Insert(s: seq<nat>, x: nat): (r: seq<nat>)
    ensures |r| == |s| + 1
  {
    if s == [] || s[|s| - 1] <= x then s + [x]
    else Insert(s[..|s| - 1], x) + [s[|s| - 1]]
  }

  lemma {:induction false} InsertKeeps(s: seq<nat>, x: nat)
    ensures multiset(Insert(s, x)) == multiset(s) + multiset{x}
  {
    if !(s == [] || s[|s| - 1] <= x) {
      InsertKeeps(s[..|s| - 1], x);
      assert s == s[..|s| - 1] + [s[|s| - 1]];
    }
  }

  lemma {:induction false} InsertSorts(s: seq<nat>, x: nat)
    requires Sorted(s)
    ensures Sorted(Insert(s, x))
  {
    if !(s == [] || s[|s| - 1] <= x) {
      var front := s[..|s| - 1];
      InsertSorts(front, x);
      InsertedMembers(front, x);
      AppendLargest(Insert(front, x), s[|s| - 1]);
    }
  }

  lemma InsertedMembers(s: seq<nat>, x: nat)
    ensures forall y :: y in Insert(s, x) ==> y == x || y in s
  {
    InsertKeeps(s, x);
    forall y | y in Insert(s, x)
      ensures y == x || y in s
    {
      assert y in multiset(s) + multiset{x};
    }
  }

  lemma AppendLargest(s: seq<nat>, last: nat)
    requires Sorted(s) && forall y :: y in s ==> y <= last
    ensures Sorted(s + [last])
  {
    assert forall i :: 0 <= i < |s| ==> s[i] in s;
  }

  function SortAscending(s: seq<nat>): (r: seq<nat>)
    ensures Sorted(r) && multiset(r) == multiset(s) && |r| == |s|
  {
    if s == [] then []
    else
      var front := SortAscending(s[..|s| - 1]);
      InsertKeeps(front, s[|s| - 1]);
      InsertSorts(front, s[|s| - 1]);
      assert s == s[..|s| - 1] + [s[|s| - 1]];
      Insert(front, s[|s| - 1])
  }

  lemma SameLength(s: seq<nat>, t: seq<nat>)
    requires multiset(s) == multiset(t)
    ensures |s| == |t|
  {
    assert |s| == |multiset(s)|;
    assert |t| == |multiset(t)|;
  }

  lemma DropLast(s: seq<nat>) returns (front: seq<nat>, last: nat)
    requires Sorted(s) && s != []
    ensures s == front + [last] && Sorted(front)
    ensures last in multiset(s) && multiset(front) == multiset(s) - multiset{last}
    ensures forall x :: x in multiset(s) ==> x <= last
  {
    front, last := s[..|s| - 1], s[|s| - 1];
    assert s == front + [last];
    forall x | x in multiset(s)
      ensures x <= last
    {
      assert x in s;
    }
  }

  /** However a list is sorted, the result is the same. */
  lemma {:induction false} SortedIsUnique(s: seq<nat>, t: seq<nat>)
    requires Sorted(s) && Sorted(t) && multiset(s) == multiset(t)
    ensures s == t
    decreases |s|
  {
    SameLength(s, t);
    if s != [] {
      var s0, x := DropLast(s);
      var t0, y := DropLast(t);
      assert x == y;
      SortedIsUnique(s0, t0);
    }
  }

  /** The library sort, in place. */
  method SortLatencies(a: array<nat>)
    modifies a
    ensures a[..] == SortAscending(old(a[..]))
  {
    var i := 0;
    while i < a.Length
      invariant 0 <= i <= a.Length
      invariant Sorted(a[..i])
      invariant multiset(a[..]) == multiset(old(a[..]))
    {
      SinkLast(a, i);
      i := i + 1;
    }
    assert a[..a.Length] == a[..];
    SortedIsUnique(a[..], SortAscending(old(a[..])));
  }

  /** Moves a[end] down to its place in the sorted prefix below it. */
  method SinkLast(a: array<nat>, end: nat)
    requires end < a.Length && Sorted(a[..end])
    modifies a
    ensures Sorted(a[..end + 1])
    ensures multiset(a[..]) == multiset(old(a[..]))
  {
    var j := end;
    while j > 0 && a[j - 1] > a[j]
      invariant 0 <= j <= end
      invariant SortedBut(a[..], j, end)
      invariant multiset(a[..]) == multiset(old(a[..]))
    {
      SwapSinks(a[..], j, end);
      SwapDown(a, j);
      j := j - 1;
    }
  }

  method SwapDown(a: array<nat>, j: nat)
    requires 0 < j < a.Length
    modifies a
    ensures a[..] == Swapped(old(a[..]), j)
  {
    a[j - 1], a[j] := a[j], a[j - 1];
  }

  function Swapped(s: seq<nat>, j: nat): seq<nat>
    requires 0 < j < |s|
  {
    s[j - 1 := s[j]][j := s[j - 1]]
  }

  /** The elements up to end are in order, except that the one at j may be too small for its place. */
  ghost predicate SortedBut(s: seq<nat>, j: nat, end: nat)
    requires end < |s|
  {
    forall p, q :: 0 <= p < q <= end && q != j ==> s[p] <= s[q]
  }

  lemma SwapSinks(s: seq<nat>, j: nat, end: nat)
    requires 0 < j <= end < |s| && SortedBut(s, j, end) && s[j - 1] > s[j]
    ensures SortedBut(Swapped(s, j), j - 1, end)
    ensures multiset(Swapped(s, j)) == multiset(s)
  {
  }

  /** The rank that percentile reads: int((n-1) * p / 100). */
  function Rank(n: nat, p: nat): (index: nat)
    requires n > 0 && p <= 100
    ensures index < n
  {
    MultiplyBoth(p, 100, n - 1);
    (n - 1) * p / 100
  }

  /** It is the whole part of (n-1) * p / 100. */
  lemma RankExactly(n: nat, p: nat)
    requires n > 0 && p <= 100
    ensures Rank(n, p) * 100 <= (n - 1) * p < (Rank(n, p) + 1) * 100
  {
  }

  function Percentile(sorted: seq<nat>, p: nat): nat
    requires p <= 100
  {
    if |sorted| == 0 then 0 else sorted[Rank(|sorted|, p)]
  }

  function Above(bound: nat): nat -> bool {
    (x: nat) => x > bound
  }

  /** A sorted value exceeds a bound exactly when enough values do. */
  lemma RankAboveBound(sorted: seq<nat>, index: nat, bound: nat)
    requires Sorted(sorted) && index < |sorted|
    ensures sorted[index] > bound <==> CountIf(sorted, Above(bound)) >= |sorted| - index
  {
    if sorted[index] > bound {
      CountSplit(sorted, index, Above(bound));
      FilterAll(sorted[index..], Above(bound));
    } else {
      CountSplit(sorted, index + 1, Above(bound));
      FilterNone(sorted[..index + 1], Above(bound));
    }
  }

  lemma CountSplit(s: seq<nat>, i: nat, p: nat -> bool)
    requires i <= |s|
    ensures CountIf(s, p) == CountIf(s[..i], p) + CountIf(s[i..], p)
  {
    var before, behind := s[..i], s[i..];
    assert s == before + behind;
    FilterConcat(before, behind, p);
  }

  /** A percentile of a list exceeds a bound exactly when at least n - rank of its values do. */
  lemma PercentileAboveBound(values: seq<nat>, p: nat, bound: nat)
    requires values != [] && p <= 100
    ensures Percentile(SortAscending(values), p) > bound <==>
             CountIf(values, Above(bound)) >= |values| - Rank(|values|, p)
  {
    RankAboveBound(SortAscending(values), Rank(|values|, p), bound);
    CountOfRearranged(values, SortAscending(values), Above(bound));
  }

  function Below(bound: nat): nat -> bool {
    (x: nat) => x < bound
  }

  ghost function Smaller(values: seq<nat>, v: nat): set<int> {
    set i | 0 <= i < |values| && values[i] < v
  }

  ghost function Greater(values: seq<nat>, v: nat): set<int> {
    set i | 0 <= i < |values| && values[i] > v
  }

  /** v is the p-th percentile of the values as the code takes it: one of them, with at most (n-1) * p / 100
      of them below it and fewer than 1 + (n-1) * (100-p) / 100 above it. */
  ghost predicate AtPercentile(values: seq<nat>, v: nat, p: int) {
    && v in values
    && 100 * |Smaller(values, v)| <= (|values| - 1) * p
    && 100 * (|Greater(values, v)| - 1) < (|values| - 1) * (100 - p)
  }

  lemma SortedRank(sorted: seq<nat>, k: nat)
    requires Sorted(sorted) && k < |sorted|
    ensures CountIf(sorted, Below(sorted[k])) <= k
    ensures CountIf(sorted, Above(sorted[k])) <= |sorted| - 1 - k
  {
    CountSplit(sorted, k, Below(sorted[k]));
    FilterNone(sorted[k..], Below(sorted[k]));
    RankAboveBound(sorted, k, sorted[k]);
  }

  lemma PercentileArithmetic(n: nat, p: nat, below: nat, above: nat)
    requires n > 0 && p <= 100 && below <= Rank(n, p) && above <= n - 1 - Rank(n, p)
    ensures 100 * below <= (n - 1) * p && 100 * (above - 1) < (n - 1) * (100 - p)
  {
    RankExactly(n, p);
    assert (n - 1) * (100 - p) == 100 * (n - 1) - (n - 1) * p;
  }

  lemma PercentileExactly(values: seq<nat>, p: nat)
    requires values != [] && p <= 100
    ensures AtPercentile(values, Percentile(SortAscending(values), p), p)
  {
    var sorted, k := SortAscending(values), Rank(|values|, p);
    var v := sorted[k];
    SortedRank(sorted, k);
    CountOfRearranged(values, sorted, Below(v));
    CountOfRearranged(values, sorted, Above(v));
    CountSides(values, v);
    assert v in multiset(sorted);
    PercentileArithmetic(|values|, p, |Smaller(values, v)|, |Greater(values, v)|);
  }

  lemma CountSides(values: seq<nat>, v: nat)
    ensures CountIf(values, Below(v)) == |Smaller(values, v)|
    ensures CountIf(values, Above(v)) == |Greater(values, v)|
  {
    CountIfExactly(values, Below(v));
    CountIfExactly(values, Above(v));
    assert Positions(values, Below(v)) == Smaller(values, v);
    assert Positions(values, Above(v)) == Greater(values, v);
  }

  function Largest(values: seq<nat>): nat {
    if values == [] then 0
    else
      var m := Largest(values[..|values| - 1]);
      if values[|values| - 1] > m then values[|values| - 1] else m
  }

  lemma {:induction false} LargestIsMaximum(values: seq<nat>)
    ensures forall i :: 0 <= i < |values| ==> values[i] <= Largest(values)
    ensures values != [] ==> Largest(values) in values
  {
    if values != [] {
      var front := values[..|values| - 1];
      LargestIsMaximum(front);
      assert forall i :: 0 <= i < |front| ==> values[i] == front[i];
      if front != [] {
        assert Largest(front) in values;
      }
    }
  }

  lemma LargestIsLast(values: seq<nat>)
    requires values != []
    ensures Largest(values) == SortAscending(values)[|values| - 1]
  {
    LargestIsMaximum(values);
    var sorted := SortAscending(values);
    var last := sorted[|values| - 1];
    assert Largest(values) in multiset(sorted);
    assert last in multiset(values);
  }

  lemma RankMonotone(n: nat, p: nat, q: nat)
    requires n > 0 && p <= q <= 100
    ensures Rank(n, p) <= Rank(n, q)
  {
    MultiplyBoth(p, q, n - 1);
  }

  lemma PercentilesOrdered(sorted: seq<nat>, p: nat, q: nat)
    requires Sorted(sorted) && sorted != [] && p <= q <= 100
    ensures Percentile(sorted, p) <= Percentile(sorted, q) <= sorted[|sorted| - 1]
  {
    RankMonotone(|sorted|, p, q);
  }

  /** The percentiles are ordered, stay at or below the maximum, and the average does too. */
  lemma SummaryIsOrdered(values: seq<nat>)
    requires values != []
    ensures var sorted := SortAscending(values);
            Percentile(sorted, 50) <= Percentile(sorted, 95) <= Percentile(sorted, 99) <= Largest(values)
    ensures Sum(values) <= |values| * Largest(values)
    ensures Largest(values) == SortAscending(values)[|values| - 1]
  {
    PercentilesOrdered(SortAscending(values), 50, 95);
    PercentilesOrdered(SortAscending(values), 95, 99);
    LargestIsLast(values);
    LargestIsMaximum(values);
    SumAtMost(values, Largest(values));
  }

  /** Nothing in the summary depends on the order in which events arrived. */
  lemma SummaryIgnoresOrder(values: seq<nat>, others: seq<nat>)
    requires multiset(values) == multiset(others)
    ensures SortAscending(values) == SortAscending(others)
    ensures Sum(values) == Sum(others)
    ensures Largest(values) == Largest(others)
  {
    SortedIsUnique(SortAscending(values), SortAscending(others));
    SumOfRearranged(values, others);
    SameLength(values, others);
    if values != [] {
      LargestIsLast(values);
      LargestIsLast(others);
    }
  }
}
