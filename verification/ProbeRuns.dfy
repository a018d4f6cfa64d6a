/** Whole runs of the probe maps: every interleaving of every thread's and the scheduler's actions. */
module ProbeRuns {
  import opened Numbers
  import opened Wire
  import opened ProbeMap

  function Run(trace: seq<Action>, cap: Capacity): State {
    Perform(EMPTY, trace, cap)
  }

  function Front<T>(s: seq<T>): seq<T>
    requires s != []
  {
    s[..|s| - 1]
  }

  function Last<T>(s: seq<T>): T
    requires s != []
  {
    s[|s| - 1]
  }

  /** Everything a run reports, in order. */
  function Emissions(trace: seq<Action>, cap: Capacity): seq<Emission> {
    if trace == [] then [] else Emissions(Front(trace), cap) + Fire(Run(Front(trace), cap), Last(trace))
  }

  lemma {:induction false} OutputIsEmissions(trace: seq<Action>, cap: Capacity)
    ensures Run(trace, cap).output == Records(Emissions(trace, cap))
  {
    if trace != [] {
      OutputIsEmissions(Front(trace), cap);
    }
  }

  lemma RunStep(trace: seq<Action>, i: nat, cap: Capacity)
    requires i < |trace|
    ensures Run(trace[..i + 1], cap) == Apply(Run(trace[..i], cap), trace[i], cap)
    ensures Emissions(trace[..i + 1], cap) == Emissions(trace[..i], cap) + Fire(Run(trace[..i], cap), trace[i])
  {
    assert trace[..i + 1][..i] == trace[..i];
  }

  lemma ConcatFront<T>(a: seq<T>, b: seq<T>)
    requires b != []
    ensures a + b != [] && Front(a + b) == a + Front(b) && Last(a + b) == Last(b)
  {
  }

  lemma {:induction false} PerformConcat(s: State, a: seq<Action>, b: seq<Action>, cap: Capacity)
    ensures Perform(s, a + b, cap) == Perform(Perform(s, a, cap), b, cap)
  {
    if b == [] {
      assert a + b == a;
    } else {
      PerformConcat(s, a, Front(b), cap);
      ConcatFront(a, b);
    }
  }

  lemma PerformSingle(s: State, a: Action, cap: Capacity)
    ensures Perform(s, [a], cap) == Apply(s, a, cap)
  {
    PerformSnoc(s, [], a, cap);
    assert [] + [a] == [a];
  }

  // ----- bounded size

  /** An update or a removal keeps a map within its size. */
  lemma StaysWithin<V>(m: map<u64, V>, key: u64, value: V, size: nat)
    requires |m| <= size
    ensures |Update(m, key, value, Bounded(size))| <= size
    ensures |m - {key}| <= size
  {
    UpdateSize(m, key, value, Bounded(size));
    RemoveSize(m, key);
  }

  lemma {:induction false} SizeBound(trace: seq<Action>, size: nat)
    ensures |Run(trace, Bounded(size)).startTimes| <= size
    ensures |Run(trace, Bounded(size)).dnsTargets| <= size
  {
    if trace != [] {
      SizeBound(Front(trace), size);
      var s, a := Run(Front(trace), Bounded(size)), Last(trace);
      StaysWithin(s.startTimes, a.key, Reading(a), size);
      StaysWithin(s.dnsTargets, a.key, if a.Start? && a.name.Some? then a.name.value else [], size);
    }
  }

  lemma RemoveSize<K, V>(m: map<K, V>, k: K)
    ensures |m - {k}| == if k in m then |m| - 1 else |m|
    ensures k !in m ==> m - {k} == m
  {
    assert (m - {k}).Keys == m.Keys - {k};
    assert |(m - {k}).Keys| == |m - {k}| && |m.Keys| == |m|;
    if k !in m {
      assert m - {k} == m;
    }
  }

  lemma UpdateSize<K, V>(m: map<K, V>, key: K, value: V, cap: Capacity)
    ensures |Update(m, key, value, cap)| == if key !in m && HasRoom(m, key, cap) then |m| + 1 else |m|
  {
    assert m[key := value].Keys == m.Keys + {key};
    assert |m[key := value].Keys| == |m[key := value]| && |m.Keys| == |m|;
  }

  // ----- which start a latency belongs to

  function Reading(a: Action): u64 {
    if a.Start? then a.at else a.now
  }

  /** The last action of a run on one key. */
  function LatestOn(trace: seq<Action>, key: u64): Option<Action> {
    if trace == [] then None
    else if Last(trace).key == key then Some(Last(trace))
    else LatestOn(Front(trace), key)
  }

  /** Whatever the capacity and the nesting, a key is in the map only while the last thing that
      happened on it is a start, and then with that start's time. With room for every key, exactly then. */
  lemma {:induction false} LatestStart(trace: seq<Action>, key: u64, cap: Capacity)
    ensures var m := Run(trace, cap).startTimes;
            key in m ==>
              LatestOn(trace, key).Some? && LatestOn(trace, key).value.Start? && m[key] == LatestOn(trace, key).value.at
    ensures NeverFull(trace, cap) && LatestOn(trace, key).Some? && LatestOn(trace, key).value.Start? ==>
              key in Run(trace, cap).startTimes
  {
    if trace != [] {
      LatestStart(Front(trace), key, cap);
    }
  }

  /** No start of the run is refused for want of room. */
  ghost predicate NeverFull(trace: seq<Action>, cap: Capacity) {
    trace != [] ==>
      && NeverFull(Front(trace), cap)
      && (Last(trace).Start? ==> HasRoom(Run(Front(trace), cap).startTimes, Last(trace).key, cap))
  }

  /** No host name of the run is refused for want of room. */
  ghost predicate NamesNeverFull(trace: seq<Action>, cap: Capacity) {
    trace != [] ==>
      && NamesNeverFull(Front(trace), cap)
      && (Last(trace).Start? && Last(trace).name.Some? ==>
            HasRoom(Run(Front(trace), cap).dnsTargets, Last(trace).key, cap))
  }

  /** What an action does to the map of starts. */
  function NextStarts(m: map<u64, u64>, a: Action, cap: Capacity): map<u64, u64> {
    if a.Start? then Update(m, a.key, a.at, cap) else m - {a.key}
  }

  lemma StartsAfter(trace: seq<Action>, cap: Capacity)
    requires trace != []
    ensures Run(trace, cap).startTimes == NextStarts(Run(Front(trace), cap).startTimes, Last(trace), cap)
  {
    RemoveSize(Run(Front(trace), cap).startTimes, Last(trace).key);
  }

  /** A map that is never full behaves as an unlimited one. */
  lemma {:induction false} NeverFullIsUnbounded(trace: seq<Action>, cap: Capacity)
    requires NeverFull(trace, cap)
    ensures Run(trace, cap).startTimes == Run(trace, Unbounded).startTimes
    ensures NamesNeverFull(trace, cap) ==>
              Run(trace, cap) == Run(trace, Unbounded) && Emissions(trace, cap) == Emissions(trace, Unbounded)
  {
    if trace != [] {
      NeverFullIsUnbounded(Front(trace), cap);
    }
  }

  /** The unlimited map never outgrows a size. */
  ghost predicate Fits(trace: seq<Action>, size: nat) {
    |Run(trace, Unbounded).startTimes| <= size && (trace != [] ==> Fits(Front(trace), size))
  }

  /** A map never fills exactly when the unlimited map never outgrows it. */
  lemma {:induction false} RoomExactly(trace: seq<Action>, size: nat)
    ensures NeverFull(trace, Bounded(size)) <==> Fits(trace, size)
  {
    if trace != [] {
      RoomExactly(Front(trace), size);
      if NeverFull(Front(trace), Bounded(size)) {
        NeverFullIsUnbounded(Front(trace), Bounded(size));
        StartsAfter(trace, Unbounded);
        NextFits(Run(Front(trace), Unbounded).startTimes, Last(trace), size);
      }
    }
  }

  lemma NextFits(m: map<u64, u64>, a: Action, size: nat)
    requires |m| <= size
    ensures |NextStarts(m, a, Unbounded)| <= size <==> (a.Start? ==> HasRoom(m, a.key, Bounded(size)))
  {
    if a.Start? {
      UpdateSize(m, a.key, a.at, Unbounded);
    } else {
      RemoveSize(m, a.key);
    }
  }

  ghost predicate KeysAmong(trace: seq<Action>, keys: set<u64>) {
    forall i :: 0 <= i < |trace| ==> trace[i].key in keys
  }

  lemma {:induction false} OnlyStartedKeys(trace: seq<Action>, keys: set<u64>, cap: Capacity)
    requires KeysAmong(trace, keys)
    ensures Run(trace, cap).startTimes.Keys <= keys && Run(trace, cap).dnsTargets.Keys <= keys
  {
    if trace != [] {
      assert forall i :: 0 <= i < |trace| - 1 ==> Front(trace)[i] == trace[i];
      OnlyStartedKeys(Front(trace), keys, cap);
      assert Last(trace).key in keys;
    }
  }

  /** A map whose keys come from a set no larger than its capacity has room for each of them. */
  lemma RoomForKey<V>(m: map<u64, V>, keys: set<u64>, key: u64, size: nat)
    requires m.Keys <= keys && key in keys && |keys| <= size
    ensures HasRoom(m, key, Bounded(size))
  {
    if key !in m {
      SubsetSize(m.Keys + {key}, keys);
    }
  }

  lemma SubsetSize<T>(a: set<T>, b: set<T>)
    requires a <= b
    ensures |a| <= |b|
  {
    assert b == a + (b - a);
  }

  /** A run over no more keys than there are entries never finds a map full. */
  lemma {:induction false} FewKeysNeverFull(trace: seq<Action>, keys: set<u64>, size: nat)
    requires KeysAmong(trace, keys) && |keys| <= size
    ensures NeverFull(trace, Bounded(size)) && NamesNeverFull(trace, Bounded(size))
  {
    if trace != [] {
      assert forall i :: 0 <= i < |trace| - 1 ==> Front(trace)[i] == trace[i];
      FewKeysNeverFull(Front(trace), keys, size);
      OnlyStartedKeys(Front(trace), keys, Bounded(size));
      var s, key := Run(Front(trace), Bounded(size)), Last(trace).key;
      assert key in keys;
      RoomForKey(s.startTimes, keys, key, size);
      RoomForKey(s.dnsTargets, keys, key, size);
    }
  }

  // ----- smaller maps lose events but invent none

  /** A DNS event without its target, which is kept in the other map. */
  function WithoutDnsTarget(e: Emission): Emission {
    if e.fn == GetAddrInfo then e.(record := e.record.(target := Pad([]))) else e
  }

  function WithoutDnsTargets(es: seq<Emission>): (r: seq<Emission>)
    ensures |r| == |es|
    ensures forall i :: 0 <= i < |es| ==> r[i] == WithoutDnsTarget(es[i])
  {
    seq(|es|, i requires 0 <= i < |es| => WithoutDnsTarget(es[i]))
  }

  ghost predicate Subsequence<T>(small: seq<T>, big: seq<T>) {
    if small == [] then true
    else if big == [] then false
    else if Last(small) == Last(big) && Subsequence(Front(small), Front(big)) then true
    else Subsequence(small, Front(big))
  }

  lemma SubsequenceSnoc<T>(small: seq<T>, big: seq<T>, x: T)
    requires Subsequence(small, big)
    ensures Subsequence(small + [x], big + [x])
    ensures Subsequence(small, big + [x])
  {
    assert Front(small + [x]) == small && Front(big + [x]) == big;
  }

  predicate AtMost(c1: Capacity, c2: Capacity) {
    c2.Unbounded? || (c1.Bounded? && c1.size <= c2.size)
  }

  ghost predicate SubMap<K, V>(small: map<K, V>, big: map<K, V>) {
    forall k :: k in small ==> k in big && big[k] == small[k]
  }

  /** The larger map holds everything the smaller holds, and never uses up its extra room. */
  ghost predicate Covers(small: map<u64, u64>, c1: Capacity, big: map<u64, u64>, c2: Capacity) {
    && SubMap(small, big)
    && (c1.Bounded? && c2.Bounded? ==> |big| - |small| <= c2.size - c1.size)
  }

  lemma CoversUpdate(small: map<u64, u64>, c1: Capacity, big: map<u64, u64>, c2: Capacity, key: u64, at: u64)
    requires AtMost(c1, c2) && Covers(small, c1, big, c2)
    requires c1.Bounded? ==> |small| <= c1.size
    ensures Covers(Update(small, key, at, c1), c1, Update(big, key, at, c2), c2)
  {
    UpdateSize(small, key, at, c1);
    UpdateSize(big, key, at, c2);
    assert key !in big ==> key !in small;
  }

  lemma CoversRemove(small: map<u64, u64>, c1: Capacity, big: map<u64, u64>, c2: Capacity, key: u64)
    requires AtMost(c1, c2) && Covers(small, c1, big, c2)
    ensures Covers(small - {key}, c1, big - {key}, c2)
  {
    RemoveSize(small, key);
    RemoveSize(big, key);
  }

  lemma BlankedConcat(es: seq<Emission>, more: seq<Emission>)
    ensures WithoutDnsTargets(es + more) == WithoutDnsTargets(es) + WithoutDnsTargets(more)
  {
  }

  lemma {:induction false} MapsCovered(trace: seq<Action>, c1: Capacity, c2: Capacity)
    requires AtMost(c1, c2)
    ensures Covers(Run(trace, c1).startTimes, c1, Run(trace, c2).startTimes, c2)
  {
    if trace != [] {
      MapsCovered(Front(trace), c1, c2);
      var m1, m2, a := Run(Front(trace), c1).startTimes, Run(Front(trace), c2).startTimes, Last(trace);
      if a.Start? {
        if c1.Bounded? {
          SizeBound(Front(trace), c1.size);
        }
        CoversUpdate(m1, c1, m2, c2, a.key, a.at);
      } else {
        CoversRemove(m1, c1, m2, c2, a.key);
        RemoveSize(m1, a.key);
        RemoveSize(m2, a.key);
      }
    }
  }

  lemma FireWithFewer(s1: State, s2: State, a: Action)
    requires SubMap(s1.startTimes, s2.startTimes)
    ensures Fire(s1, a) == [] || WithoutDnsTargets(Fire(s1, a)) == WithoutDnsTargets(Fire(s2, a))
  {
    if Fire(s1, a) != [] {
      assert WithoutDnsTarget(Fire(s1, a)[0]) == WithoutDnsTarget(Fire(s2, a)[0]);
    }
  }

  /** On the same trace a smaller map reports a subsequence of what a larger or unlimited one reports:
      events can be lost, but none is added and none has its latency changed. */
  lemma {:induction false} CapacityMonotone(trace: seq<Action>, c1: Capacity, c2: Capacity)
    requires AtMost(c1, c2)
    ensures Subsequence(WithoutDnsTargets(Emissions(trace, c1)), WithoutDnsTargets(Emissions(trace, c2)))
  {
    if trace != [] {
      CapacityMonotone(Front(trace), c1, c2);
      MapsCovered(Front(trace), c1, c2);
      var e1, e2 := Emissions(Front(trace), c1), Emissions(Front(trace), c2);
      var f1, f2 := Fire(Run(Front(trace), c1), Last(trace)), Fire(Run(Front(trace), c2), Last(trace));
      FireWithFewer(Run(Front(trace), c1), Run(Front(trace), c2), Last(trace));
      BlankedConcat(e1, f1);
      BlankedConcat(e2, f2);
      ExtendSubsequence(WithoutDnsTargets(e1), WithoutDnsTargets(f1), WithoutDnsTargets(e2), WithoutDnsTargets(f2));
    }
  }

  lemma ExtendSubsequence<T>(s1: seq<T>, f1: seq<T>, s2: seq<T>, f2: seq<T>)
    requires |f2| <= 1 && Subsequence(s1, s2)
    requires f1 == [] || f1 == f2
    ensures Subsequence(s1 + f1, s2 + f2)
  {
    if f2 == [] {
      assert s1 + f1 == s1 && s2 + f2 == s2;
    } else {
      SubsequenceSnoc(s1, s2, f2[0]);
      assert s2 + f2 == s2 + [f2[0]];
      if f1 == [] {
        assert s1 + f1 == s1;
      }
    }
  }

  /** How many starts of a run are refused for want of room. */
  function Refused(trace: seq<Action>, cap: Capacity): nat {
    if trace == [] then 0
    else
      var a := Last(trace);
      Refused(Front(trace), cap) +
      if a.Start? && !HasRoom(Run(Front(trace), cap).startTimes, a.key, cap) then 1 else 0
  }

  /** What the larger map has reported and still holds beyond the smaller one. */
  function Surplus(trace: seq<Action>, c1: Capacity, c2: Capacity): int {
    |Emissions(trace, c2)| - |Emissions(trace, c1)| + |Run(trace, c2).startTimes| - |Run(trace, c1).startTimes|
  }

  lemma SurplusStep(trace: seq<Action>, c1: Capacity, c2: Capacity)
    requires trace != [] && SubMap(Run(Front(trace), c1).startTimes, Run(Front(trace), c2).startTimes)
    ensures Surplus(trace, c1, c2) - Surplus(Front(trace), c1, c2) <= Refused(trace, c1) - Refused(Front(trace), c1)
  {
    var s1, s2, a := Run(Front(trace), c1), Run(Front(trace), c2), Last(trace);
    StartsAfter(trace, c1);
    StartsAfter(trace, c2);
    HeldStep(s1.startTimes, s2.startTimes, a, c1, c2);
    FireSurplus(s1, s2, a);
  }

  lemma FireSurplus(s1: State, s2: State, a: Action)
    requires SubMap(s1.startTimes, s2.startTimes)
    ensures a.Start? || a.key !in s2.startTimes || a.key in s1.startTimes ==> |Fire(s2, a)| == |Fire(s1, a)|
    ensures |Fire(s2, a)| <= |Fire(s1, a)| + 1
  {
  }

  /** How an action changes the difference between the sizes of the two maps. */
  lemma HeldStep(m1: map<u64, u64>, m2: map<u64, u64>, a: Action, c1: Capacity, c2: Capacity)
    requires SubMap(m1, m2)
    ensures var grown := |NextStarts(m2, a, c2)| - |NextStarts(m1, a, c1)| - (|m2| - |m1|);
            if a.Start? then grown <= if HasRoom(m1, a.key, c1) then 0 else 1
            else grown == if a.key in m2 && a.key !in m1 then -1 else 0
  {
    if a.Start? {
      UpdateSize(m1, a.key, a.at, c1);
      UpdateSize(m2, a.key, a.at, c2);
    } else {
      RemoveSize(m1, a.key);
      RemoveSize(m2, a.key);
    }
  }

  /** A smaller map loses at most one event for each start that it refuses. */
  lemma {:induction false} LossBound(trace: seq<Action>, c1: Capacity, c2: Capacity)
    requires AtMost(c1, c2)
    ensures Surplus(trace, c1, c2) <= Refused(trace, c1)
    ensures |Emissions(trace, c2)| - |Emissions(trace, c1)| <= Refused(trace, c1)
  {
    MapsCovered(trace, c1, c2);
    SubMapSize(Run(trace, c1).startTimes, Run(trace, c2).startTimes);
    if trace != [] {
      LossBound(Front(trace), c1, c2);
      MapsCovered(Front(trace), c1, c2);
      SurplusStep(trace, c1, c2);
    }
  }

  lemma SubMapSize(small: map<u64, u64>, big: map<u64, u64>)
    requires SubMap(small, big)
    ensures |small| <= |big|
  {
    assert forall k :: k in small.Keys ==> k in big.Keys;
    SubsetSize(small.Keys, big.Keys);
  }

  // ----- keys do not disturb each other

  function OnKey(trace: seq<Action>, key: u64): seq<Action> {
    if trace == [] then []
    else OnKey(Front(trace), key) + if Last(trace).key == key then [Last(trace)] else []
  }

  function EmittedOn(es: seq<Emission>, key: u64): seq<Emission> {
    if es == [] then []
    else EmittedOn(Front(es), key) + if Last(es).key == key then [Last(es)] else []
  }

  lemma EmittedOnSnoc(es: seq<Emission>, more: seq<Emission>, key: u64)
    requires |more| <= 1
    ensures EmittedOn(es + more, key) == EmittedOn(es, key) + if more != [] && more[0].key == key then more else []
  {
    if more != [] {
      assert Front(es + more) == es;
    } else {
      assert es + more == es;
    }
  }

  /** Two states agree on one key. */
  ghost predicate SameOn(s: State, t: State, key: u64) {
    && (key in s.startTimes <==> key in t.startTimes)
    && (key in s.startTimes ==> s.startTimes[key] == t.startTimes[key])
    && (key in s.dnsTargets <==> key in t.dnsTargets)
    && (key in s.dnsTargets ==> s.dnsTargets[key] == t.dnsTargets[key])
  }

  lemma {:induction false} KeyAlone(trace: seq<Action>, key: u64)
    ensures SameOn(Run(trace, Unbounded), Run(OnKey(trace, key), Unbounded), key)
    ensures EmittedOn(Emissions(trace, Unbounded), key) == Emissions(OnKey(trace, key), Unbounded)
  {
    if trace != [] {
      KeyAlone(Front(trace), key);
      var s, a := Run(Front(trace), Unbounded), Last(trace);
      EmittedOnSnoc(Emissions(Front(trace), Unbounded), Fire(s, a), key);
      if a.key == key {
        var mine := OnKey(Front(trace), key);
        assert Front(mine + [a]) == mine;
        ApplyOnSame(s, Run(mine, Unbounded), a);
      } else {
        assert OnKey(trace, key) == OnKey(Front(trace), key);
        ApplyElsewhere(s, a, key, Unbounded);
      }
    }
  }

  lemma ApplyOnSame(s: State, t: State, a: Action)
    requires SameOn(s, t, a.key)
    ensures SameOn(Apply(s, a, Unbounded), Apply(t, a, Unbounded), a.key)
    ensures Fire(s, a) == Fire(t, a)
  {
  }

  lemma ApplyElsewhere(s: State, a: Action, key: u64, cap: Capacity)
    requires a.key != key
    ensures SameOn(s, Apply(s, a, cap), key)
  {
  }

  /** While neither map is full, what is reported for one key in any interleaving is what is reported
      when that key's own actions run alone. */
  lemma NonInterference(trace: seq<Action>, key: u64, cap: Capacity)
    requires NeverFull(trace, cap) && NamesNeverFull(trace, cap)
    ensures EmittedOn(Emissions(trace, cap), key) == Emissions(OnKey(trace, key), Unbounded)
  {
    NeverFullIsUnbounded(trace, cap);
    KeyAlone(trace, key);
  }
}
