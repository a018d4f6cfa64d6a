/** Which call a reported event belongs to when a thread's probed calls nest. */
module Nesting {
  import opened Numbers
  import opened Wire
  import opened ProbeMap
  import opened ProbeRuns

  /** A call in progress; it is a leaf until another probed call of its thread starts inside it. */
  datatype Frame = Frame(fn: Probe, at: u64, leaf: bool)

  function Busy(stack: seq<Frame>): (r: seq<Frame>)
    ensures |r| == |stack|
  {
    if stack == [] then [] else Front(stack) + [Last(stack).(leaf := false)]
  }

  /** The calls in progress on a key, innermost last, or None once a return does not match the innermost call. */
  function Calls(trace: seq<Action>, key: u64): Option<seq<Frame>> {
    if trace == [] then Some([])
    else
      var a := Last(trace);
      match Calls(Front(trace), key)
      case None => None
      case Some(stack) =>
        if a.key != key then Some(stack)
        else if a.Start? then Some(Busy(stack) + [Frame(a.fn, a.at, true)])
        else if stack == [] || Last(stack).fn != a.fn then None
        else Some(Front(stack))
  }

  predicate WellNested(trace: seq<Action>, key: u64) {
    Calls(trace, key).Some?
  }

  /** A call in progress is a leaf exactly when nothing has happened on its key since it started. */
  lemma {:induction false} LeafIsLatest(trace: seq<Action>, key: u64)
    requires WellNested(trace, key)
    ensures var stack, latest := Calls(trace, key).value, LatestOn(trace, key);
            && (stack != [] && Last(stack).leaf <==> latest.Some? && latest.value.Start?)
            && (latest.Some? && latest.value.Start? ==> Last(stack) == Frame(latest.value.fn, latest.value.at, true))
            && (forall i :: 0 <= i < |stack| - 1 ==> !stack[i].leaf)
  {
    if trace != [] {
      LeafIsLatest(Front(trace), key);
    }
  }

  /** The map remembers exactly a leaf call in progress, when it has room; otherwise at most that. */
  lemma MapHoldsLeaf(trace: seq<Action>, key: u64, cap: Capacity)
    requires WellNested(trace, key)
    ensures var stack, m := Calls(trace, key).value, Run(trace, cap).startTimes;
            && (key in m ==> stack != [] && Last(stack).leaf && m[key] == Last(stack).at)
            && (NeverFull(trace, cap) && stack != [] && Last(stack).leaf ==> key in m)
  {
    LeafIsLatest(trace, key);
    LatestStart(trace, key, cap);
  }

  /** A return reports only a call that contained no other probed call of its thread, as an event of
      that call's own type measured from its own start; with room in the map every such call that
      passes its filter is reported. */
  lemma LeafExactness(trace: seq<Action>, cap: Capacity)
    requires trace != [] && Last(trace).Finish? && WellNested(trace, Last(trace).key)
    ensures var a, s := Last(trace), Run(Front(trace), cap);
            var stack := Calls(Front(trace), a.key).value;
            && stack != [] && Last(stack).fn == a.fn
            && (Fire(s, a) != [] ==>
                  && Last(stack).leaf
                  && Passes(a.fn, CalcLatency(Last(stack).at, a.now))
                  && Fire(s, a) == [Emission(a.key, a.fn, Last(stack).at, a.now,
                                     Report(a.fn, Last(stack).at, a.now, a.draft, Target(s, a)))])
            && (NeverFull(Front(trace), cap) && Last(stack).leaf && Passes(a.fn, CalcLatency(Last(stack).at, a.now)) ==>
                  Fire(s, a) != [])
  {
    MapHoldsLeaf(Front(trace), Last(trace).key, cap);
  }

  /** What a return should report given the calls in progress: the innermost call if it is a leaf and
      passes its filter, from its own start; a lookup with the host name left on its key. */
  function LeafEvent(stack: seq<Frame>, a: Action, name: HostName): (es: seq<Emission>)
    ensures |es| <= 1
  {
    if a.Finish? && stack != [] && Last(stack).leaf && Passes(a.fn, CalcLatency(Last(stack).at, a.now)) then
      var target := if a.fn == GetAddrInfo then name else a.draft.text;
      [Emission(a.key, a.fn, Last(stack).at, a.now, Report(a.fn, Last(stack).at, a.now, a.draft, target))]
    else []
  }

  /** The host name left on a key, read off the calls alone: that of the latest lookup which passed one,
      unless a lookup has returned since that was a leaf. */
  function NameOn(trace: seq<Action>, key: u64): Option<HostName> {
    if trace == [] then None
    else
      var a, before := Last(trace), NameOn(Front(trace), key);
      if a.key != key then before
      else if a.Start? then (if a.name.Some? then a.name else before)
      else if a.fn == GetAddrInfo && StartIsLatest(Front(trace), key) then None
      else before
  }

  /** The last thing that happened on a key is the start of a call; so a return now ends a leaf. */
  predicate StartIsLatest(trace: seq<Action>, key: u64) {
    LatestOn(trace, key).Some? && LatestOn(trace, key).value.Start?
  }

  /** What a key should report over a run, read off its calls alone. */
  function LeafEvents(trace: seq<Action>, key: u64): seq<Emission> {
    if trace == [] then []
    else LeafEvents(Front(trace), key) + if Last(trace).key == key then NextLeafEvent(trace) else []
  }

  function NextLeafEvent(trace: seq<Action>): (es: seq<Emission>)
    requires trace != []
    ensures |es| <= 1
  {
    var key, before := Last(trace).key, Front(trace);
    if WellNested(before, key) then LeafEvent(Calls(before, key).value, Last(trace), OwnName(NameOn(before, key)))
    else []
  }

  function OwnName(name: Option<HostName>): HostName {
    if name.Some? then name.value else []
  }

  /** With room for starts and names, the map of names holds what the calls say. */
  lemma {:induction false} NameIsLatest(trace: seq<Action>, key: u64, cap: Capacity)
    requires NeverFull(trace, cap) && NamesNeverFull(trace, cap)
    ensures var names := Run(trace, cap).dnsTargets;
            && (key in names <==> NameOn(trace, key).Some?)
            && (key in names ==> names[key] == NameOn(trace, key).value)
  {
    if trace != [] {
      NameIsLatest(Front(trace), key, cap);
      LatestStart(Front(trace), key, cap);
    }
  }

  lemma BlankedOne(e: Emission)
    ensures WithoutDnsTargets([e]) == [WithoutDnsTarget(e)]
    ensures WithoutDnsTargets([]) == []
  {
  }

  lemma FiresLeafEvent(trace: seq<Action>, cap: Capacity)
    requires trace != [] && WellNested(trace, Last(trace).key)
    ensures var fired, expected := Fire(Run(Front(trace), cap), Last(trace)), NextLeafEvent(trace);
            && (fired == [] || WithoutDnsTargets(fired) == WithoutDnsTargets(expected))
            && (NeverFull(Front(trace), cap) ==> WithoutDnsTargets(fired) == WithoutDnsTargets(expected))
            && (NeverFull(Front(trace), cap) && NamesNeverFull(Front(trace), cap) ==> fired == expected)
  {
    var a, s, stack := Last(trace), Run(Front(trace), cap), Calls(Front(trace), Last(trace).key).value;
    if a.Finish? {
      LeafExactness(trace, cap);
      if Fire(s, a) != [] {
        BlankedOne(Fire(s, a)[0]);
        BlankedOne(NextLeafEvent(trace)[0]);
        if NeverFull(Front(trace), cap) && NamesNeverFull(Front(trace), cap) {
          NameIsLatest(Front(trace), a.key, cap);
        }
      }
    }
  }

  lemma ReportedStep(trace: seq<Action>, key: u64, cap: Capacity)
    returns (fired: seq<Emission>, expected: seq<Emission>)
    requires trace != [] && WellNested(trace, key)
    ensures EmittedOn(Emissions(trace, cap), key) == EmittedOn(Emissions(Front(trace), cap), key) + fired
    ensures LeafEvents(trace, key) == LeafEvents(Front(trace), key) + expected
    ensures |expected| <= 1 && (fired == [] || WithoutDnsTargets(fired) == WithoutDnsTargets(expected))
    ensures NeverFull(Front(trace), cap) ==> WithoutDnsTargets(fired) == WithoutDnsTargets(expected)
    ensures NeverFull(Front(trace), cap) && NamesNeverFull(Front(trace), cap) ==> fired == expected
  {
    EmittedOnSnoc(Emissions(Front(trace), cap), Fire(Run(Front(trace), cap), Last(trace)), key);
    if Last(trace).key == key {
      FiresLeafEvent(trace, cap);
      fired, expected := Fire(Run(Front(trace), cap), Last(trace)), NextLeafEvent(trace);
    } else {
      fired, expected := [], [];
    }
  }

  /** Over a whole run a key reports a subsequence of its leaf calls, host names aside; all of them when
      the map of starts never fills, and with their host names when neither map does. */
  lemma {:induction false} ReportsAreLeafCalls(trace: seq<Action>, key: u64, cap: Capacity)
    requires WellNested(trace, key)
    ensures var reported, expected := EmittedOn(Emissions(trace, cap), key), LeafEvents(trace, key);
            && Subsequence(WithoutDnsTargets(reported), WithoutDnsTargets(expected))
            && (NeverFull(trace, cap) ==> WithoutDnsTargets(reported) == WithoutDnsTargets(expected))
            && (NeverFull(trace, cap) && NamesNeverFull(trace, cap) ==> reported == expected)
  {
    if trace != [] {
      assert WellNested(Front(trace), key);
      ReportsAreLeafCalls(Front(trace), key, cap);
      var reported, expected := EmittedOn(Emissions(Front(trace), cap), key), LeafEvents(Front(trace), key);
      var more, due := ReportedStep(trace, key, cap);
      BlankedConcat(reported, more);
      BlankedConcat(expected, due);
      ExtendSubsequence(WithoutDnsTargets(reported), WithoutDnsTargets(more),
                        WithoutDnsTargets(expected), WithoutDnsTargets(due));
    }
  }

  // ----- host names

  lemma {:induction false} Untouched(trace: seq<Action>, first: nat, end: nat, key: u64, cap: Capacity)
    requires first <= end <= |trace|
    requires forall i :: first <= i < end ==> trace[i].key != key
    ensures SameOn(Run(trace[..first], cap), Run(trace[..end], cap), key)
    decreases end - first
  {
    if first < end {
      Untouched(trace, first, end - 1, key, cap);
      RunStep(trace, end - 1, cap);
      ApplyElsewhere(Run(trace[..end - 1], cap), trace[end - 1], key, cap);
    }
  }

  lemma HostNamePads(a: HostName, b: HostName)
    requires Pad(a) == Pad(b)
    ensures a == b
  {
    TrimInvertsPad(a);
    TrimInvertsPad(b);
  }

  /** A lookup entered at j and returning at k, with nothing on its key in between. */
  ghost predicate LeafLookup(trace: seq<Action>, j: nat, k: nat) {
    && j < k < |trace|
    && trace[j].Start? && trace[j].fn == GetAddrInfo
    && trace[k].Finish? && trace[k].fn == GetAddrInfo && trace[k].key == trace[j].key
    && forall i :: j < i < k ==> trace[i].key != trace[j].key
  }

  /** A reported lookup carries its own host name exactly when the name could be stored; a lookup
      without a name exactly when no name was left behind on its key. A name that could not be stored
      gives an empty target. */
  lemma DnsTarget(trace: seq<Action>, j: nat, k: nat, cap: Capacity)
    requires LeafLookup(trace, j, k) && Fire(Run(trace[..k], cap), trace[k]) != []
    ensures var names, name, key := Run(trace[..j], cap).dnsTargets, trace[j].name, trace[j].key;
            var target := Fire(Run(trace[..k], cap), trace[k])[0].record.target;
            && (target == Pad(OwnName(name)) <==>
                  if name.Some? then HasRoom(names, key, cap) || name.value == []
                  else key !in names || names[key] == [])
            && (name.Some? && !HasRoom(names, key, cap) ==> target == Pad([]))
            && (name.None? && key in names ==> target == Pad(names[key]))
  {
    var key, name := trace[j].key, trace[j].name;
    var names := Run(trace[..j], cap).dnsTargets;
    RunStep(trace, j, cap);
    Untouched(trace, j + 1, k, key, cap);
    var s := Run(trace[..k], cap);
    var target: HostName := if key in s.dnsTargets then s.dnsTargets[key] else [];
    assert Fire(s, trace[k])[0].record.target == Pad(target);
    if Pad(target) == Pad(OwnName(name)) {
      HostNamePads(target, OwnName(name));
    }
  }

  lemma {:induction false} LatestUntouched(trace: seq<Action>, first: nat, end: nat, key: u64)
    requires first <= end <= |trace|
    requires forall i :: first <= i < end ==> trace[i].key != key
    ensures LatestOn(trace[..end], key) == LatestOn(trace[..first], key)
    ensures NameOn(trace[..end], key) == NameOn(trace[..first], key)
    decreases end - first
  {
    if first < end {
      LatestUntouched(trace, first, end - 1, key);
      assert Front(trace[..end]) == trace[..end - 1];
    }
  }

  /** With room, a leaf lookup is always reported, with its own host name or, if it passed none, with
      the name that earlier calls left on its key: wrongly so exactly if they left one that is not empty. */
  lemma TargetFromHistory(trace: seq<Action>, j: nat, k: nat, cap: Capacity)
    requires LeafLookup(trace, j, k) && NeverFull(trace[..k], cap) && NamesNeverFull(trace[..k], cap)
    ensures var name, left := trace[j].name, NameOn(trace[..j], trace[j].key);
            var fired := Fire(Run(trace[..k], cap), trace[k]);
            && fired != [] && fired[0].start == trace[j].at
            && fired[0].record.target == Pad(if name.Some? then name.value else OwnName(left))
            && (fired[0].record.target == Pad(OwnName(name)) <==> name.Some? || OwnName(left) == [])
  {
    var key, name, left := trace[j].key, trace[j].name, NameOn(trace[..j], trace[j].key);
    LatestUntouched(trace, j + 1, k, key);
    assert Front(trace[..j + 1]) == trace[..j];
    LatestStart(trace[..k], key, cap);
    NameIsLatest(trace[..k], key, cap);
    if Pad(OwnName(left)) == Pad([]) {
      HostNamePads(OwnName(left), []);
    }
  }

  // ----- a lookup that reports another one's host

  /** A lookup of a host that makes a connection, and then a lookup without a host name. */
  function StaleTrace(key: u64, host: HostName, clock: u64): seq<Action> {
    ConnectingLookup(key, host, clock) + NamelessLookup(key, clock)
  }

  function ConnectingLookup(key: u64, host: HostName, clock: u64): seq<Action> {
    var quiet := Draft(clock, 0, 0, []);
    [Start(key, GetAddrInfo, clock, Some(host))] + [Start(key, TcpV4Connect, clock, None)]
    + [Finish(key, TcpV4Connect, clock, quiet)] + [Finish(key, GetAddrInfo, clock, quiet)]
  }

  function NamelessLookup(key: u64, clock: u64): seq<Action> {
    [Start(key, GetAddrInfo, clock, None)] + [Finish(key, GetAddrInfo, clock, Draft(clock, 0, 0, []))]
  }

  lemma Enters(trace: seq<Action>, a: Action, stack: seq<Frame>)
    requires Calls(trace, a.key) == Some(stack) && a.Start?
    ensures Calls(trace + [a], a.key) == Some(Busy(stack) + [Frame(a.fn, a.at, true)])
    ensures StartIsLatest(trace + [a], a.key)
    ensures NameOn(trace + [a], a.key) == if a.name.Some? then a.name else NameOn(trace, a.key)
  {
    assert Front(trace + [a]) == trace;
  }

  lemma Leaves(trace: seq<Action>, a: Action, below: seq<Frame>, top: Frame)
    requires Calls(trace, a.key) == Some(below + [top]) && a.Finish? && a.fn == top.fn
    ensures Calls(trace + [a], a.key) == Some(below)
    ensures !StartIsLatest(trace + [a], a.key)
    ensures a.fn != GetAddrInfo || !StartIsLatest(trace, a.key) ==> NameOn(trace + [a], a.key) == NameOn(trace, a.key)
  {
    assert Front(trace + [a]) == trace && Front(below + [top]) == below;
  }

  lemma ConnectingLookupLeavesName(key: u64, host: HostName, clock: u64)
    ensures var trace := ConnectingLookup(key, host, clock);
            Calls(trace, key) == Some([]) && NameOn(trace, key) == Some(host)
  {
    var quiet := Draft(clock, 0, 0, []);
    var outer, inner := Frame(GetAddrInfo, clock, false), Frame(TcpV4Connect, clock, true);
    var first := Frame(GetAddrInfo, clock, true);
    var t1: seq<Action> := [Start(key, GetAddrInfo, clock, Some(host))];
    Enters([], t1[0], []);
    assert [] + t1 == t1 && Busy([]) + [first] == [] + [first];
    var t2 := t1 + [Start(key, TcpV4Connect, clock, None)];
    Enters(t1, Start(key, TcpV4Connect, clock, None), [] + [first]);
    assert Busy([] + [first]) == [] + [outer];
    var t3 := t2 + [Finish(key, TcpV4Connect, clock, quiet)];
    Leaves(t2, Finish(key, TcpV4Connect, clock, quiet), [] + [outer], inner);
    Leaves(t3, Finish(key, GetAddrInfo, clock, quiet), [], outer);
  }

  lemma NamelessLookupNests(trace: seq<Action>, key: u64, clock: u64)
    requires Calls(trace, key) == Some([])
    ensures WellNested(trace + NamelessLookup(key, clock), key)
  {
    var enter, leave := Start(key, GetAddrInfo, clock, None), Finish(key, GetAddrInfo, clock, Draft(clock, 0, 0, []));
    Enters(trace, enter, []);
    assert Busy([]) + [Frame(GetAddrInfo, clock, true)] == [] + [Frame(GetAddrInfo, clock, true)];
    Leaves(trace + [enter], leave, [], Frame(GetAddrInfo, clock, true));
    assert trace + [enter] + [leave] == trace + NamelessLookup(key, clock);
  }

  /** A lookup without a name can report the host of an earlier one: that earlier lookup made a
      connection, so its own return found no start time and left its name in the map. */
  lemma StaleHostName(key: u64, host: HostName, clock: u64)
    requires host != []
    ensures var trace := StaleTrace(key, host, clock);
            var fired := Fire(Run(trace[..5], MAX_ENTRIES), trace[5]);
            && WellNested(trace, key) && trace[4].name == None
            && fired != [] && fired[0].record.target == Pad(host) != Pad([])
  {
    var trace := StaleTrace(key, host, clock);
    ConnectingLookupLeavesName(key, host, clock);
    NamelessLookupNests(ConnectingLookup(key, host, clock), key, clock);
    assert trace[..4] == ConnectingLookup(key, host, clock);
    FewKeysNeverFull(trace[..5], {key}, 1024);
    TargetFromHistory(trace, 4, 5, MAX_ENTRIES);
  }

  // ----- a full map that reports a host which an unlimited one does not

  /** A read holds an entry while another thread looks a host up; then that thread looks up no host. */
  function CrowdedTrace(reader: u64, key: u64, host: HostName, clock: u64): seq<Action> {
    var quiet := Draft(clock, 0, 0, []);
    [Start(reader, VfsRead, clock, None), Start(key, GetAddrInfo, clock, Some(host)),
     Finish(key, GetAddrInfo, clock, quiet), Finish(reader, VfsRead, clock, quiet),
     Start(key, GetAddrInfo, clock, None), Finish(key, GetAddrInfo, clock, quiet)]
  }

  /** What a lookup without a name, started and returned with nothing in between, reports. */
  lemma NamelessLookupReports(s: State, key: u64, clock: u64, cap: Capacity)
    requires HasRoom(s.startTimes, key, cap)
    ensures var t := Apply(s, Start(key, GetAddrInfo, clock, None), cap);
            var fired := Fire(t, Finish(key, GetAddrInfo, clock, Draft(clock, 0, 0, [])));
            fired != [] && fired[0].record.target == Pad(if key in s.dnsTargets then s.dnsTargets[key] else [])
  {
  }

  lemma ReaderStarts(reader: u64, clock: u64, cap: Capacity)
    requires cap == Bounded(1) || cap == Unbounded
    ensures var s := Apply(EMPTY, Start(reader, VfsRead, clock, None), cap);
            s.startTimes == map[reader := clock] && s.dnsTargets == map[]
  {
  }

  lemma ReaderReturns(s: State, reader: u64, clock: u64, cap: Capacity)
    requires s.startTimes == map[reader := clock]
    ensures var t := Apply(s, Finish(reader, VfsRead, clock, Draft(clock, 0, 0, [])), cap);
            t.startTimes == map[] && t.dnsTargets == s.dnsTargets
  {
    assert map[reader := clock] - {reader} == map[];
  }

  /** The start of the lookup is refused, so its return deletes nothing, and the name stays. */
  lemma LookupRefused(s: State, reader: u64, key: u64, host: HostName, clock: u64)
    requires reader != key && s.startTimes == map[reader := clock] && s.dnsTargets == map[]
    ensures var t := Apply(s, Start(key, GetAddrInfo, clock, Some(host)), Bounded(1));
            && t.startTimes == map[reader := clock] && t.dnsTargets == map[key := host]
            && Apply(t, Finish(key, GetAddrInfo, clock, Draft(clock, 0, 0, [])), Bounded(1)) == t
  {
    assert |map[reader := clock]| == 1;
  }

  lemma LookupReported(s: State, reader: u64, key: u64, host: HostName, clock: u64)
    requires reader != key && s.startTimes == map[reader := clock] && s.dnsTargets == map[]
    ensures var t := Apply(s, Start(key, GetAddrInfo, clock, Some(host)), Unbounded);
            var u := Apply(t, Finish(key, GetAddrInfo, clock, Draft(clock, 0, 0, [])), Unbounded);
            u.startTimes == map[reader := clock] && u.dnsTargets == map[]
  {
    assert map[reader := clock][key := clock] - {key} == map[reader := clock];
    assert map[key := host] - {key} == map[];
  }

  ghost predicate Holding(s: State, starts: map<u64, u64>, names: map<u64, HostName>) {
    s.startTimes == starts && s.dnsTargets == names
  }

  lemma AfterReader(trace: seq<Action>, reader: u64, clock: u64, cap: Capacity)
    requires |trace| >= 1 && trace[0] == Start(reader, VfsRead, clock, None) && (cap == Bounded(1) || cap == Unbounded)
    ensures Holding(Run(trace[..1], cap), map[reader := clock], map[])
  {
    assert trace[..0] == [];
    RunStep(trace, 0, cap);
    ReaderStarts(reader, clock, cap);
  }

  lemma AfterLookup(trace: seq<Action>, reader: u64, key: u64, host: HostName, clock: u64, cap: Capacity)
    requires reader != key && |trace| >= 3 && (cap == Bounded(1) || cap == Unbounded)
    requires trace[1] == Start(key, GetAddrInfo, clock, Some(host))
    requires trace[2] == Finish(key, GetAddrInfo, clock, Draft(clock, 0, 0, []))
    requires Holding(Run(trace[..1], cap), map[reader := clock], map[])
    ensures Holding(Run(trace[..3], cap), map[reader := clock], if cap.Unbounded? then map[] else map[key := host])
  {
    RunStep(trace, 1, cap);
    RunStep(trace, 2, cap);
    if cap.Unbounded? {
      LookupReported(Run(trace[..1], cap), reader, key, host, clock);
    } else {
      LookupRefused(Run(trace[..1], cap), reader, key, host, clock);
    }
  }

  lemma AfterReturn(trace: seq<Action>, reader: u64, clock: u64, names: map<u64, HostName>, cap: Capacity)
    requires |trace| >= 4 && trace[3] == Finish(reader, VfsRead, clock, Draft(clock, 0, 0, []))
    requires Holding(Run(trace[..3], cap), map[reader := clock], names)
    ensures Holding(Run(trace[..4], cap), map[], names)
  {
    RunStep(trace, 3, cap);
    ReaderReturns(Run(trace[..3], cap), reader, clock, cap);
  }

  /** The state before the second lookup: a map with a single entry still has the name of the first. */
  lemma Crowded(reader: u64, key: u64, host: HostName, clock: u64, cap: Capacity)
    requires reader != key && (cap == Bounded(1) || cap == Unbounded)
    ensures var s := Run(CrowdedTrace(reader, key, host, clock)[..4], cap);
            Holding(s, map[], if cap.Unbounded? then map[] else map[key := host])
  {
    var trace := CrowdedTrace(reader, key, host, clock);
    AfterReader(trace, reader, clock, cap);
    AfterLookup(trace, reader, key, host, clock, cap);
    AfterReturn(trace, reader, clock, if cap.Unbounded? then map[] else map[key := host], cap);
  }

  /** Capacity changes no latency, but it can change a host name: on this run the smaller map reports a host
      for a lookup that passed none, and an unlimited map does not. */
  lemma CapacityCanChangeHost(reader: u64, key: u64, host: HostName, clock: u64)
    requires reader != key && host != []
    ensures var trace := CrowdedTrace(reader, key, host, clock);
            var small, big := Fire(Run(trace[..5], Bounded(1)), trace[5]), Fire(Run(trace[..5], Unbounded), trace[5]);
            && trace[4].name == None && small != [] && big != []
            && small[0].record.target == Pad(host) != Pad([]) == big[0].record.target
  {
    var trace := CrowdedTrace(reader, key, host, clock);
    Crowded(reader, key, host, clock, Bounded(1));
    Crowded(reader, key, host, clock, Unbounded);
    RunStep(trace, 4, Bounded(1));
    RunStep(trace, 4, Unbounded);
    NamelessLookupReports(Run(trace[..4], Bounded(1)), key, clock, Bounded(1));
    NamelessLookupReports(Run(trace[..4], Unbounded), key, clock, Unbounded);
    assert Pad(host)[0] == host[0] && Pad([])[0] == 0;
  }
}
