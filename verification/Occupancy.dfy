/** How full the map of starts gets: by the tasks that run and the calls in progress, however many tasks
    and threads a machine has seen. */
module Occupancy {
  import opened Numbers
  import opened Fields
  import opened ProbeMap
  import opened ProbeRuns
  import opened Clocks
  import opened Nesting
  import opened Scheduler

  /** The calls of every thread nest. */
  ghost predicate ThreadsNest(trace: seq<Action>) {
    forall key: u64 :: !IsTaskKey(key) ==> WellNested(trace, key)
  }

  /** The threads that have a call in progress. */
  ghost function InProgress(trace: seq<Action>): set<u64> {
    set a | a in trace && !IsTaskKey(a.key) && WellNested(trace, a.key) && Calls(trace, a.key).value != [] :: a.key
  }

  /** Whatever the capacity, an entry belongs to a running task or to a thread with a call in progress. */
  lemma EntryHasOwner(steps: seq<Step>, initial: seq<u32>, cap: Capacity, key: u64)
    requires LegalRun(steps, initial) && ThreadsNest(Flatten(steps))
    requires key in After(steps, cap).startTimes
    ensures key in KeysOf(Current(steps, initial)) + InProgress(Flatten(steps))
  {
    if IsTaskKey(key) {
      var p := TaskOfKey(key);
      OnlyRunningTasks(steps, initial, cap, p);
    } else {
      EntryOfThread(Flatten(steps), cap, key);
    }
  }

  lemma EntryOfThread(trace: seq<Action>, cap: Capacity, key: u64)
    requires ThreadsNest(trace) && !IsTaskKey(key) && key in Run(trace, cap).startTimes
    ensures key in InProgress(trace)
  {
    assert WellNested(trace, key);
    MapHoldsLeaf(trace, key, cap);
    LatestStart(trace, key, cap);
    LatestIsThere(trace, key);
    var i :| 0 <= i < |trace| && trace[i] == LatestOn(trace, key).value && trace[i].key == key;
    assert trace[i] in trace;
  }

  /** The map holds at most one entry for each CPU and one for each thread with a call in progress. */
  lemma OccupancyBound(steps: seq<Step>, initial: seq<u32>, cap: Capacity)
    requires LegalRun(steps, initial) && ThreadsNest(Flatten(steps))
    ensures |After(steps, cap).startTimes| <= |initial| + |InProgress(Flatten(steps))|
  {
    var keys, running, calling := After(steps, cap).startTimes.Keys, KeysOf(Current(steps, initial)),
                                  InProgress(Flatten(steps));
    forall key | key in keys
      ensures key in running + calling
    {
      EntryHasOwner(steps, initial, cap, key);
    }
    SubsetSize(keys, running + calling);
    UnionSize(running, calling);
  }

  lemma UnionSize<T>(a: set<T>, b: set<T>)
    ensures |a + b| <= |a| + |b|
  {
    assert a + b == a + (b - a);
    SubsetSize(b - a, b);
  }

  /** At every point of a run the CPUs and the calls in progress fit the map. */
  ghost predicate CallsFit(steps: seq<Step>, cpus: nat, size: nat) {
    && cpus + |InProgress(Flatten(steps))| <= size
    && (steps != [] ==> CallsFit(Front(steps), cpus, size))
  }

  lemma {:induction false} NestedPrefix(a: seq<Action>, b: seq<Action>)
    requires ThreadsNest(a + b)
    ensures ThreadsNest(a)
  {
    if b == [] {
      assert a + b == a;
    } else {
      var trace := a + b;
      ConcatFront(a, b);
      forall key: u64 | !IsTaskKey(key)
        ensures WellNested(Front(trace), key)
      {
        assert WellNested(trace, key);
      }
      NestedPrefix(a, Front(b));
    }
  }

  /** A step that starts something does so last, so the map is fullest when the step ends. */
  lemma NextStepFits(flat: seq<Action>, st: Step, size: nat)
    requires NeverFull(flat, Bounded(size))
    requires |Run(flat + Actions(st), Unbounded).startTimes| <= size
    ensures NeverFull(flat + Actions(st), Bounded(size))
  {
    RoomExactly(flat, size);
    if st.Switch? {
      ActionsOfSwitch(st);
      TwoMoreFit(flat, SwitchOut(st.prev, st.stamp, st.now), SwitchIn(st.next, st.at), size);
    } else {
      ActionsOfCall(st);
      OneMoreFits(flat, Actions(st), size);
    }
    RoomExactly(flat + Actions(st), size);
  }

  lemma TwoMoreFit(trace: seq<Action>, out: seq<Action>, inn: seq<Action>, size: nat)
    requires Fits(trace, size) && |out| <= 1 && |inn| <= 1 && forall a :: a in out ==> a.Finish?
    requires |Run(trace + (out + inn), Unbounded).startTimes| <= size
    ensures Fits(trace + (out + inn), size)
  {
    Regroup(trace, out, inn);
    FinishFits(trace, out, size);
    OneMoreFits(trace + out, inn, size);
  }

  lemma FinishFits(trace: seq<Action>, more: seq<Action>, size: nat)
    requires Fits(trace, size) && |more| <= 1 && forall a :: a in more ==> a.Finish?
    ensures Fits(trace + more, size)
  {
    if more == [] {
      assert trace + more == trace;
    } else {
      assert more[0] in more;
      assert Front(trace + more) == trace;
      StartsAfter(trace + more, Unbounded);
      RemoveSize(Run(trace, Unbounded).startTimes, more[0].key);
    }
  }

  lemma OneMoreFits(trace: seq<Action>, more: seq<Action>, size: nat)
    requires Fits(trace, size) && |more| <= 1 && |Run(trace + more, Unbounded).startTimes| <= size
    ensures Fits(trace + more, size)
  {
    if more == [] {
      assert trace + more == trace;
    } else {
      assert Front(trace + more) == trace;
    }
  }

  /** While the CPUs and the calls in progress fit, no start is ever refused. */
  lemma {:induction false} CallsFitNeverFull(steps: seq<Step>, initial: seq<u32>, size: nat)
    requires LegalRun(steps, initial) && ThreadsNest(Flatten(steps)) && CallsFit(steps, |initial|, size)
    ensures NeverFull(Flatten(steps), Bounded(size))
  {
    if steps != [] {
      NestedPrefix(Flatten(Front(steps)), Actions(Last(steps)));
      CallsFitNeverFull(Front(steps), initial, size);
      OccupancyBound(steps, initial, Unbounded);
      NextStepFits(Flatten(Front(steps)), Last(steps), size);
    }
  }
}
