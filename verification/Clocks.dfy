/** The intervals behind reported latencies, and threads seen on their own. */
module Clocks {
  import opened Numbers
  import opened ProbeMap
  import opened ProbeRuns

  /** The clock never goes back between two actions on one key. */
  ghost predicate ClockOrdered(trace: seq<Action>, key: u64) {
    forall i, j :: 0 <= i < j < |trace| && trace[i].key == key && trace[j].key == key ==>
                     Reading(trace[i]) <= Reading(trace[j])
  }

  ghost predicate ReadWithin(trace: seq<Action>, key: u64, lo: int, hi: int) {
    forall i :: 0 <= i < |trace| && trace[i].key == key ==> lo <= Reading(trace[i]) <= hi
  }

  /** Each interval ends before the next one of the list begins. */
  ghost predicate Disjoint(es: seq<Emission>) {
    && (forall i :: 0 <= i < |es| ==> es[i].start <= es[i].now)
    && (forall i, j :: 0 <= i < j < |es| ==> es[i].now <= es[j].start)
  }

  ghost predicate Within(es: seq<Emission>, lo: int, hi: int) {
    forall i :: 0 <= i < |es| ==> lo <= es[i].start && es[i].now <= hi
  }

  function TotalLatency(es: seq<Emission>): nat {
    if es == [] then 0 else TotalLatency(Front(es)) + Last(es).record.latency
  }

  /** The reported latency is the length of the measured interval. */
  ghost predicate Measured(es: seq<Emission>) {
    forall i :: 0 <= i < |es| ==> es[i].record.latency == CalcLatency(es[i].start, es[i].now)
  }

  lemma LatestIsThere(trace: seq<Action>, key: u64)
    requires LatestOn(trace, key).Some?
    ensures exists i :: 0 <= i < |trace| && trace[i] == LatestOn(trace, key).value && trace[i].key == key
  {
    if Last(trace).key == key {
      assert trace[|trace| - 1].key == key;
    } else {
      LatestIsThere(Front(trace), key);
      var i :| 0 <= i < |Front(trace)| && Front(trace)[i] == LatestOn(Front(trace), key).value &&
          Front(trace)[i].key == key;
      assert trace[i] == Front(trace)[i];
    }
  }

  lemma OrderedFront(trace: seq<Action>, key: u64)
    requires trace != [] && ClockOrdered(trace, key)
    ensures ClockOrdered(Front(trace), key)
    ensures Last(trace).key == key && LatestOn(Front(trace), key).Some? ==>
              Reading(LatestOn(Front(trace), key).value) <= Reading(Last(trace))
  {
    if LatestOn(Front(trace), key).Some? {
      LatestIsThere(Front(trace), key);
    }
  }

  /** Disjoint intervals that have ended by a given time. */
  ghost predicate EndedBy(es: seq<Emission>, time: int) {
    Disjoint(es) && Measured(es) && forall i :: 0 <= i < |es| ==> es[i].now <= time
  }

  lemma EndedBySnoc(es: seq<Emission>, e: Emission, time: int)
    requires EndedBy(es, time) && time <= e.start <= e.now && e.record.latency == CalcLatency(e.start, e.now)
    ensures EndedBy(es + [e], e.now)
  {
  }

  lemma EndedByLater(es: seq<Emission>, time: int, later: int)
    requires EndedBy(es, time) && time <= later
    ensures EndedBy(es, later)
  {
  }

  lemma FiresMeasured(s: State, a: Action)
    requires Fire(s, a) != []
    ensures var e := Fire(s, a)[0];
            && Fire(s, a) == [e] && a.Finish? && e.key == a.key && a.key in s.startTimes
            && e.start == s.startTimes[a.key] && e.now == a.now && e.record.latency == CalcLatency(e.start, e.now)
  {
  }

  /** The measured intervals of one key never overlap, whatever the nesting and the capacity. */
  lemma {:induction false} DisjointIntervals(trace: seq<Action>, key: u64, cap: Capacity)
    requires ClockOrdered(trace, key)
    ensures var es := EmittedOn(Emissions(trace, cap), key);
            if LatestOn(trace, key).None? then es == [] else EndedBy(es, Reading(LatestOn(trace, key).value))
  {
    if trace != [] {
      OrderedFront(trace, key);
      DisjointIntervals(Front(trace), key, cap);
      var a, s, latest := Last(trace), Run(Front(trace), cap), LatestOn(Front(trace), key);
      var before := EmittedOn(Emissions(Front(trace), cap), key);
      EmittedOnSnoc(Emissions(Front(trace), cap), Fire(s, a), key);
      if a.key == key {
        if latest.Some? {
          EndedByLater(before, Reading(latest.value), Reading(a));
        }
        if Fire(s, a) != [] {
          FiresAfterLatest(trace, key, cap);
          EndedBySnoc(before, Fire(s, a)[0], Reading(latest.value));
        }
      }
    }
  }

  lemma FiresAfterLatest(trace: seq<Action>, key: u64, cap: Capacity)
    requires trace != [] && ClockOrdered(trace, key) && Last(trace).key == key
    requires Fire(Run(Front(trace), cap), Last(trace)) != []
    ensures var fired, latest := Fire(Run(Front(trace), cap), Last(trace)), LatestOn(Front(trace), key);
            && fired == [fired[0]] && latest.Some? && fired[0].now == Reading(Last(trace))
            && Reading(latest.value) == fired[0].start <= fired[0].now
            && fired[0].record.latency == CalcLatency(fired[0].start, fired[0].now)
  {
    OrderedFront(trace, key);
    FiresMeasured(Run(Front(trace), cap), Last(trace));
    LatestStart(Front(trace), key, cap);
  }

  lemma {:induction false} DisjointSum(es: seq<Emission>, lo: int, hi: int)
    requires Disjoint(es) && Measured(es) && lo <= hi
    requires Within(es, lo, hi)
    ensures TotalLatency(es) <= hi - lo
  {
    if es != [] {
      DisjointSum(Front(es), lo, Last(es).start);
    }
  }

  lemma WithinSnoc(es: seq<Emission>, e: Emission, lo: int, hi: int)
    requires Within(es, lo, hi) && lo <= e.start && e.now <= hi
    ensures Within(es + [e], lo, hi)
  {
  }

  lemma ReadWithinFront(trace: seq<Action>, key: u64, lo: int, hi: int)
    requires trace != [] && ReadWithin(trace, key, lo, hi)
    ensures ReadWithin(Front(trace), key, lo, hi)
    ensures Last(trace).key == key ==> lo <= Reading(Last(trace)) <= hi
    ensures LatestOn(Front(trace), key).Some? ==> lo <= Reading(LatestOn(Front(trace), key).value) <= hi
  {
    assert forall i :: 0 <= i < |Front(trace)| ==> Front(trace)[i] == trace[i];
    if LatestOn(Front(trace), key).Some? {
      LatestIsThere(Front(trace), key);
    }
  }

  lemma {:induction false} IntervalsWithin(trace: seq<Action>, key: u64, cap: Capacity, lo: int, hi: int)
    requires ReadWithin(trace, key, lo, hi)
    ensures Within(EmittedOn(Emissions(trace, cap), key), lo, hi)
  {
    if trace != [] {
      ReadWithinFront(trace, key, lo, hi);
      IntervalsWithin(Front(trace), key, cap, lo, hi);
      var s := Run(Front(trace), cap);
      var before, fired := Emissions(Front(trace), cap), Fire(s, Last(trace));
      EmittedOnSnoc(before, fired, key);
      if fired != [] {
        FiresMeasured(s, Last(trace));
        if fired[0].key == key {
          LatestStart(Front(trace), key, cap);
          WithinSnoc(EmittedOn(before, key), fired[0], lo, hi);
        }
      }
    }
  }

  /** The latencies reported for one key add up to no more than the time the run took. */
  lemma TimeConservation(trace: seq<Action>, key: u64, cap: Capacity, lo: int, hi: int)
    requires ClockOrdered(trace, key) && ReadWithin(trace, key, lo, hi) && lo <= hi
    ensures TotalLatency(EmittedOn(Emissions(trace, cap), key)) <= hi - lo
  {
    DisjointIntervals(trace, key, cap);
    IntervalsWithin(trace, key, cap, lo, hi);
    DisjointSum(EmittedOn(Emissions(trace, cap), key), lo, hi);
  }

  // ----- threads

  /** The task identifiers the kernel hands to probes: only the idle task has thread number 0. */
  predicate TaskId(pid: u32, tid: u32) {
    tid > 0 || pid == 0
  }

  predicate ValidStep(st: Step) {
    st.Switch? || (TaskId(st.pid, st.tid) && st.fn != SchedSwitch)
  }

  function Flatten(steps: seq<Step>): seq<Action> {
    if steps == [] then [] else Flatten(Front(steps)) + Actions(Last(steps))
  }

  function StepsOf(steps: seq<Step>, pid: u32, tid: u32): seq<Step> {
    if steps == [] then []
    else
      var st := Last(steps);
      StepsOf(Front(steps), pid, tid) + if !st.Switch? && st.pid == pid && st.tid == tid then [st] else []
  }

  lemma {:induction false} OnKeyConcat(a: seq<Action>, b: seq<Action>, key: u64)
    ensures OnKey(a + b, key) == OnKey(a, key) + OnKey(b, key)
  {
    if b == [] {
      assert a + b == a;
    } else {
      OnKeyConcat(a, Front(b), key);
      ConcatFront(a, b);
    }
  }

  /** A scheduler key is never a thread's key, so a thread's key sees that thread's steps and no others. */
  lemma StepOnKey(st: Step, pid: u32, tid: u32)
    requires TaskId(pid, tid) && ValidStep(st)
    ensures OnKey(Actions(st), GetKey(pid, tid)) ==
            if !st.Switch? && st.pid == pid && st.tid == tid then Actions(st) else []
  {
    var key := GetKey(pid, tid);
    if st.Switch? {
      GetKeyInjective(st.prev, 0, pid, tid);
      GetKeyInjective(st.next, 0, pid, tid);
      OnKeyConcat(SwitchOut(st.prev, st.stamp, st.now), SwitchIn(st.next, st.at), key);
    } else {
      GetKeyInjective(st.pid, st.tid, pid, tid);
      assert Front(Actions(st)) == [];
    }
  }

  lemma {:induction false} ThreadOnKey(steps: seq<Step>, pid: u32, tid: u32)
    requires TaskId(pid, tid) && forall st :: st in steps ==> ValidStep(st)
    ensures OnKey(Flatten(steps), GetKey(pid, tid)) == Flatten(StepsOf(steps, pid, tid))
  {
    if steps != [] {
      ThreadOnKey(Front(steps), pid, tid);
      var st, mine := Last(steps), StepsOf(Front(steps), pid, tid);
      OnKeyConcat(Flatten(Front(steps)), Actions(st), GetKey(pid, tid));
      StepOnKey(st, pid, tid);
      FlattenSnoc(mine, st);
    }
  }

  lemma FlattenNext(steps: seq<Step>, i: nat)
    requires i < |steps|
    ensures Flatten(steps[..i + 1]) == Flatten(steps[..i]) + Actions(steps[i])
  {
    assert Front(steps[..i + 1]) == steps[..i];
  }

  lemma FlattenSnoc(steps: seq<Step>, st: Step)
    ensures Flatten(steps + [st]) == Flatten(steps) + Actions(st)
    ensures steps + [] == steps && Flatten(steps) + [] == Flatten(steps)
  {
    assert Front(steps + [st]) == steps;
  }

  /** While the maps have room, a thread's events in any interleaving with other threads and the
      scheduler are those of its own steps run alone. */
  lemma ThreadNonInterference(steps: seq<Step>, pid: u32, tid: u32, cap: Capacity)
    requires TaskId(pid, tid) && forall st :: st in steps ==> ValidStep(st)
    requires NeverFull(Flatten(steps), cap) && NamesNeverFull(Flatten(steps), cap)
    ensures EmittedOn(Emissions(Flatten(steps), cap), GetKey(pid, tid)) ==
            Emissions(Flatten(StepsOf(steps, pid, tid)), Unbounded)
  {
    NonInterference(Flatten(steps), GetKey(pid, tid), cap);
    ThreadOnKey(steps, pid, tid);
  }
}
