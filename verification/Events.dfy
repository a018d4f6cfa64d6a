/** The events Go works on, and sums and counts over lists of numbers. */
module Events {
  import opened Numbers

  /** events.Event; its texts have one character per byte. */
  datatype Event = Event(
    timestamp: u64,
    pid: u32,
    processName: string,
    kind: u32,
    latency: u64,
    error: i32,
    target: string,
    details: string)

  const DNS: u32 := 0
  const CONNECT: u32 := 1
  const TCP_SEND: u32 := 2
  const TCP_RECV: u32 := 3
  const WRITE: u32 := 4
  const READ: u32 := 5
  const FSYNC: u32 := 6
  const SCHED_SWITCH: u32 := 7

  /** time.Unix(0, int64(e.Timestamp)) in nanoseconds */
  function EventTime(e: Event): i64 {
    I64OfU64(e.timestamp)
  }

  /** The elements of s that satisfy p, in order. */
  function Filter<T>(s: seq<T>, p: T -> bool): (r: seq<T>)
    ensures |r| <= |s|
  {
    if s == [] then []
    else Filter(s[..|s| - 1], p) + if p(s[|s| - 1]) then [s[|s| - 1]] else []
  }

  function CountIf<T>(s: seq<T>, p: T -> bool): nat {
    |Filter(s, p)|
  }

  function OfKind(kind: u32): Event -> bool {
    (e: Event) => e.kind == kind
  }

  function Sum(s: seq<nat>): nat {
    if s == [] then 0 else Sum(s[..|s| - 1]) + s[|s| - 1]
  }

  function Latencies(es: seq<Event>): (ls: seq<nat>)
    ensures |ls| == |es|
    ensures forall i :: 0 <= i < |es| ==> ls[i] == es[i].latency
  {
    seq(|es|, i requires 0 <= i < |es| => es[i].latency)
  }

  lemma FilterSnoc<T>(s: seq<T>, x: T, p: T -> bool)
    ensures Filter(s + [x], p) == Filter(s, p) + if p(x) then [x] else []
  {
    assert (s + [x])[..|s|] == s;
  }

  lemma {:induction false} FilterConcat<T>(a: seq<T>, b: seq<T>, p: T -> bool)
    ensures Filter(a + b, p) == Filter(a, p) + Filter(b, p)
  {
    if b == [] {
      assert a + b == a;
    } else {
      FilterConcat(a, b[..|b| - 1], p);
      assert (a + b)[..|a + b| - 1] == a + b[..|b| - 1];
    }
  }

  lemma FrontAndLast<T>(s: seq<T>)
    requires s != []
    ensures s == s[..|s| - 1] + [s[|s| - 1]]
  {
  }

  lemma {:induction false} FilterAll<T>(s: seq<T>, p: T -> bool)
    requires forall x :: x in s ==> p(x)
    ensures Filter(s, p) == s
  {
    if s != [] {
      var front, x := s[..|s| - 1], s[|s| - 1];
      FilterAll(front, p);
      FrontAndLast(s);
      assert x in s;
    }
  }

  lemma {:induction false} FilterNone<T>(s: seq<T>, p: T -> bool)
    requires forall x :: x in s ==> !p(x)
    ensures Filter(s, p) == []
  {
    if s != [] {
      FilterNone(s[..|s| - 1], p);
      assert s[|s| - 1] in s;
    }
  }

  lemma {:induction false} FilterKeepsMembers<T>(s: seq<T>, p: T -> bool)
    ensures forall x :: x in Filter(s, p) ==> x in s && p(x)
  {
    if s != [] {
      var front := s[..|s| - 1];
      FilterKeepsMembers(front, p);
      assert s == front + [s[|s| - 1]];
    }
  }

  /** The positions that satisfy a test. */
  ghost function Positions<T>(s: seq<T>, p: T -> bool): set<int> {
    set i | 0 <= i < |s| && p(s[i])
  }

  lemma PositionsSnoc<T>(s: seq<T>, x: T, p: T -> bool)
    ensures Positions(s + [x], p) == Positions(s, p) + if p(x) then {|s|} else {}
  {
  }

  lemma OneMorePosition(positions: set<int>, n: int)
    requires n !in positions
    ensures |positions + {n}| == |positions| + 1 && positions + {} == positions
  {
  }

  /** A count is the number of positions that satisfy the test. */
  lemma {:induction false} CountIfExactly<T>(s: seq<T>, p: T -> bool)
    ensures CountIf(s, p) == |Positions(s, p)|
  {
    if s == [] {
      assert Positions(s, p) == {};
    } else {
      var front, x := s[..|s| - 1], s[|s| - 1];
      assert s == front + [x];
      CountIfExactly(front, p);
      FilterSnoc(front, x, p);
      PositionsSnoc(front, x, p);
      OneMorePosition(Positions(front, p), |front|);
    }
  }

  /** The events of a kind: all of them, as often as they occur, and no others. */
  lemma {:induction false} KindExactly(es: seq<Event>, kind: u32, e: Event)
    ensures multiset(Filter(es, OfKind(kind)))[e] == if e.kind == kind then multiset(es)[e] else 0
  {
    if es != [] {
      var front, x := es[..|es| - 1], es[|es| - 1];
      KindExactly(front, kind, e);
      assert es == front + [x];
      FilteredLast(front, x, OfKind(kind));
      MultisetSnoc(front, x);
    }
  }

  /** The value of the timestamp as 64 signed bits. */
  lemma EventTimeExactly(e: Event)
    ensures EventTime(e) == e.timestamp || EventTime(e) == e.timestamp - 0x1_0000_0000_0000_0000
  {
  }

  /** Two complementary filters share out a list. */
  lemma {:induction false} FilterPartitions<T>(s: seq<T>, p: T -> bool, q: T -> bool)
    requires forall x :: x in s ==> p(x) != q(x)
    ensures multiset(s) == multiset(Filter(s, p)) + multiset(Filter(s, q))
    ensures |s| == |Filter(s, p)| + |Filter(s, q)|
  {
    if s != [] {
      var front, x := s[..|s| - 1], s[|s| - 1];
      assert s == front + [x] && x in s;
      FilterPartitions(front, p, q);
      FilteredLast(front, x, p);
      FilteredLast(front, x, q);
      MultisetSnoc(front, x);
      OneMore(multiset(Filter(front, p)), multiset(Filter(front, q)), x);
    }
  }

  lemma OneMore<T>(a: multiset<T>, b: multiset<T>, x: T)
    ensures (a + multiset{x}) + (b + multiset{}) == a + b + multiset{x}
    ensures (a + multiset{}) + (b + multiset{x}) == a + b + multiset{x}
  {
  }

  lemma FilteredLast<T>(s: seq<T>, x: T, p: T -> bool)
    ensures multiset(Filter(s + [x], p)) == multiset(Filter(s, p)) + if p(x) then multiset{x} else multiset{}
    ensures CountIf(s + [x], p) == CountIf(s, p) + if p(x) then 1 else 0
  {
    FilterSnoc(s, x, p);
    MultisetSnoc(Filter(s, p), x);
    assert Filter(s, p) + [] == Filter(s, p);
  }

  lemma MultisetSnoc<T>(s: seq<T>, x: T)
    ensures multiset(s + [x]) == multiset(s) + multiset{x}
  {
  }

  lemma {:induction false} SumConcat(a: seq<nat>, b: seq<nat>)
    ensures Sum(a + b) == Sum(a) + Sum(b)
  {
    if b == [] {
      assert a + b == a;
    } else {
      SumConcat(a, b[..|b| - 1]);
      assert (a + b)[..|a + b| - 1] == a + b[..|b| - 1];
    }
  }

  /** Removing the same element from two rearrangements leaves rearrangements. */
  lemma RemoveFromBoth<T>(s: seq<T>, t: seq<T>) returns (i: nat)
    requires s != [] && multiset(s) == multiset(t)
    ensures i < |t| && t[i] == s[|s| - 1]
    ensures multiset(s[..|s| - 1]) == multiset(t[..i] + t[i + 1..])
  {
    var x := s[|s| - 1];
    assert s == s[..|s| - 1] + [x];
    assert x in multiset(t);
    i :| 0 <= i < |t| && t[i] == x;
    var before, after := t[..i], t[i + 1..];
    assert t == before + [x] + after;
    assert multiset(t) == multiset(before) + multiset{x} + multiset(after);
    assert multiset(before + after) == multiset(t) - multiset{x};
    assert multiset(s[..|s| - 1]) == multiset(s) - multiset{x};
  }

  lemma EmptyRearranged<T>(t: seq<T>)
    requires multiset(t) == multiset{}
    ensures t == []
  {
    assert |t| == |multiset(t)|;
  }

  /** Counts do not depend on the order. */
  lemma {:induction false} CountOfRearranged<T>(s: seq<T>, t: seq<T>, p: T -> bool)
    requires multiset(s) == multiset(t)
    ensures CountIf(s, p) == CountIf(t, p)
    decreases |s|
  {
    if s == [] {
      EmptyRearranged(t);
    } else {
      var i := RemoveFromBoth(s, t);
      CountOfRearranged(s[..|s| - 1], t[..i] + t[i + 1..], p);
      assert t == t[..i] + [t[i]] + t[i + 1..];
      FilterConcat(t[..i] + [t[i]], t[i + 1..], p);
      FilterConcat(t[..i], [t[i]], p);
      FilterConcat(t[..i], t[i + 1..], p);
      assert [t[i]][..0] == [];
    }
  }

  /** Sums do not depend on the order. */
  lemma {:induction false} SumOfRearranged(s: seq<nat>, t: seq<nat>)
    requires multiset(s) == multiset(t)
    ensures Sum(s) == Sum(t)
    decreases |s|
  {
    if s == [] {
      EmptyRearranged(t);
    } else {
      var i := RemoveFromBoth(s, t);
      SumOfRearranged(s[..|s| - 1], t[..i] + t[i + 1..]);
      assert t == t[..i] + [t[i]] + t[i + 1..];
      SumConcat(t[..i] + [t[i]], t[i + 1..]);
      SumConcat(t[..i], [t[i]]);
      SumConcat(t[..i], t[i + 1..]);
      assert [t[i]][..0] == [];
    }
  }

  lemma {:induction false} SumAtMost(s: seq<nat>, bound: nat)
    requires forall i :: 0 <= i < |s| ==> s[i] <= bound
    ensures Sum(s) <= |s| * bound
  {
    if s != [] {
      SumAtMost(s[..|s| - 1], bound);
      assert (|s| - 1) * bound + bound == |s| * bound;
    }
  }

  // ----- percentages

  /** count as a percentage of total */
  function Percent(count: nat, total: nat): real {
    if total == 0 then 0.0 else count as real * 100.0 / total as real
  }

  lemma PercentAdds(a: nat, b: nat, total: nat)
    ensures Percent(a + b, total) == Percent(a, total) + Percent(b, total)
  {
    if total > 0 {
      var t, x, y := total as real, a as real * 100.0, b as real * 100.0;
      assert (a + b) as real * 100.0 == x + y;
      DivisionAdds(x, y, t);
    }
  }

  lemma DivisionAdds(x: real, y: real, t: real)
    requires t > 0.0
    ensures (x + y) / t == x / t + y / t
  {
    var p, q := x / t, y / t;
    assert p * t == x && q * t == y;
    assert (p + q) * t == x + y;
  }

  lemma FullPercent(total: nat)
    requires total > 0
    ensures Percent(total, total) == 100.0
  {
  }
}
