/** The event store of a report, its latency analyses and its issue detection.
    Latencies are whole nanoseconds, so 100 ms is 100_000_000, and a rate above p percent is a comparison
    of products. */
module Diagnosis {
  import opened Numbers
  import opened Events
  import opened Percentiles
  import opened Tally

  const SPIKE := 100_000_000

  datatype Summary = Summary(total: nat, max: nat, p50: nat, p95: nat, p99: nat)

  datatype Issue =
    | ConnectionFailures(errors: nat, connections: nat)
    | TcpSpikes(spikes: nat, transfers: nat)

  function Summarize(values: seq<nat>): Summary {
    var sorted := SortAscending(values);
    Summary(Sum(values), Largest(values), Percentile(sorted, 50), Percentile(sorted, 95), Percentile(sorted, 99))
  }

  predicate Failed(e: Event) {
    e.error != 0
  }

  /** -11 is EAGAIN, which is not counted. */
  predicate TransferFailed(e: Event) {
    e.error < 0 && e.error != -11
  }

  predicate HasName(e: Event) {
    e.target != "" && e.target != "?" && e.target != "unknown" && e.target != "file"
  }

  predicate Spike(e: Event) {
    e.latency > SPIKE
  }

  function TcpEvents(es: seq<Event>): seq<Event> {
    Filter(es, OfKind(TCP_SEND)) + Filter(es, OfKind(TCP_RECV))
  }

  function ErrorCodes(es: seq<Event>): seq<i32> {
    if es == [] then []
    else ErrorCodes(es[..|es| - 1]) + if Failed(es[|es| - 1]) then [es[|es| - 1].error] else []
  }

  function Targets(es: seq<Event>): seq<string> {
    if es == [] then []
    else Targets(es[..|es| - 1]) + if HasName(es[|es| - 1]) then [es[|es| - 1].target] else []
  }

  function Issues(es: seq<Event>): seq<Issue> {
    var connects, transfers := Filter(es, OfKind(CONNECT)), TcpEvents(es);
    var errors, spikes := CountIf(connects, Failed), CountIf(transfers, Spike);
    (if connects != [] && errors * 10 > |connects| then [ConnectionFailures(errors, |connects|)] else [])
    + (if transfers != [] && spikes * 20 > |transfers| then [TcpSpikes(spikes, |transfers|)] else [])
  }

  /** What the summary says: the sum, the largest value, and the three percentiles; all zero for no values. */
  lemma SummaryExactly(values: seq<nat>)
    ensures var s := Summarize(values);
            if values == [] then s.max == s.p50 == s.p95 == s.p99 == 0
            else
              && s.max in values && (forall i :: 0 <= i < |values| ==> values[i] <= s.max)
              && AtPercentile(values, s.p50, 50)
              && AtPercentile(values, s.p95, 95)
              && AtPercentile(values, s.p99, 99)
    ensures Summarize(values).total == Sum(values)
  {
    if values != [] {
      LargestIsMaximum(values);
      PercentileExactly(values, 50);
      PercentileExactly(values, 95);
      PercentileExactly(values, 99);
    }
  }

  ghost function EventsOf(es: seq<Event>, kind: u32): set<int> {
    set i | 0 <= i < |es| && es[i].kind == kind
  }

  ghost function SlowEvents(es: seq<Event>): set<int> {
    set i | 0 <= i < |es| && es[i].latency > 100_000_000
  }

  ghost function FailedEvents(es: seq<Event>): set<int> {
    set i | 0 <= i < |es| && es[i].error != 0
  }

  ghost function BrokenTransfers(es: seq<Event>): set<int> {
    set i | 0 <= i < |es| && es[i].error < 0 && es[i].error != -11
  }

  ghost function EventsWithError(es: seq<Event>, code: i32): set<int> {
    set i | 0 <= i < |es| && es[i].error == code
  }

  ghost function EventsWithTarget(es: seq<Event>, target: string): set<int> {
    set i | 0 <= i < |es| && es[i].target == target
  }

  /** Which events count as spikes, as failures, and as transfer errors. */
  lemma CountsExactly(es: seq<Event>)
    ensures CountIf(es, Spike) == |SlowEvents(es)|
    ensures CountIf(es, Failed) == |FailedEvents(es)|
    ensures CountIf(es, TransferFailed) == |BrokenTransfers(es)|
  {
    CountIfExactly(es, Spike);
    CountIfExactly(es, Failed);
    CountIfExactly(es, TransferFailed);
    assert Positions(es, Spike) == SlowEvents(es);
    assert Positions(es, Failed) == FailedEvents(es);
    assert Positions(es, TransferFailed) == BrokenTransfers(es);
  }

  function HasError(code: i32): Event -> bool {
    (e: Event) => e.error == code
  }

  /** How often a code is counted: once for each event that failed with it. */
  lemma {:induction false} ErrorCodesExactly(es: seq<Event>, code: i32)
    ensures multiset(ErrorCodes(es))[code] == if code == 0 then 0 else |EventsWithError(es, code)|
  {
    ErrorCodesCount(es, code);
    CountIfExactly(es, HasError(code));
    assert Positions(es, HasError(code)) == EventsWithError(es, code);
  }

  lemma {:induction false} ErrorCodesCount(es: seq<Event>, code: i32)
    ensures multiset(ErrorCodes(es))[code] == if code == 0 then 0 else CountIf(es, HasError(code))
  {
    if es != [] {
      ErrorCodesCount(es[..|es| - 1], code);
      MultisetSnoc(ErrorCodes(es[..|es| - 1]), es[|es| - 1].error);
    }
  }

  function HasTarget(target: string): Event -> bool {
    (e: Event) => e.target == target
  }

  /** How often a target is counted: once for each event with it, unless it stands for no name. */
  lemma TargetsExactly(es: seq<Event>, target: string)
    ensures multiset(Targets(es))[target] ==
            if target == "" || target == "?" || target == "unknown" || target == "file" then 0
            else |EventsWithTarget(es, target)|
  {
    TargetsCount(es, target);
    CountIfExactly(es, HasTarget(target));
    assert Positions(es, HasTarget(target)) == EventsWithTarget(es, target);
  }

  lemma {:induction false} TargetsCount(es: seq<Event>, target: string)
    ensures multiset(Targets(es))[target] ==
            if target == "" || target == "?" || target == "unknown" || target == "file" then 0
            else CountIf(es, HasTarget(target))
  {
    if es != [] {
      TargetsCount(es[..|es| - 1], target);
      MultisetSnoc(Targets(es[..|es| - 1]), es[|es| - 1].target);
    }
  }

  lemma NextEvent<T>(es: seq<T>, i: nat)
    requires i < |es|
    ensures es[..i + 1] == es[..i] + [es[i]]
    ensures es[..i + 1][..i] == es[..i]
  {
  }

  method CountEvents(es: seq<Event>, p: Event -> bool) returns (count: nat)
    ensures count == CountIf(es, p)
  {
    count := 0;
    for i := 0 to |es|
      invariant count == CountIf(es[..i], p)
    {
      NextEvent(es, i);
      if p(es[i]) {
        count := count + 1;
      }
    }
    assert es[..|es|] == es;
  }

  /** Sorts a copy of the latencies in place and reads the three percentiles. */
  method ReadPercentiles(values: seq<nat>) returns (p50: nat, p95: nat, p99: nat)
    ensures var sorted := SortAscending(values);
            p50 == Percentile(sorted, 50) && p95 == Percentile(sorted, 95) && p99 == Percentile(sorted, 99)
  {
    var a := new nat[|values|](i requires 0 <= i < |values| => values[i]);
    assert a[..] == values;
    SortLatencies(a);
    var sorted := a[..];
    p50, p95, p99 := Percentile(sorted, 50), Percentile(sorted, 95), Percentile(sorted, 99);
  }

  /** What an analysis loop has gathered from the events es: their latencies, ... */
  ghost predicate LatenciesSeen(es: seq<Event>, latencies: seq<nat>, total: nat, max: nat) {
    latencies == Latencies(es) && total == Sum(latencies) && max == Largest(latencies)
  }

  lemma LatencySeen(es: seq<Event>, latencies: seq<nat>, total: nat, max: nat, e: Event)
    requires LatenciesSeen(es, latencies, total, max)
    ensures var larger := if e.latency > max then e.latency else max;
            LatenciesSeen(es + [e], latencies + [e.latency], total + e.latency, larger)
  {
    assert (latencies + [e.latency])[..|latencies|] == latencies;
  }

  method AnalyzeTCP(es: seq<Event>) returns (summary: Summary, spikes: nat, errors: nat)
    ensures summary == Summarize(Latencies(es))
    ensures spikes == CountIf(es, Spike)
    ensures errors == CountIf(es, TransferFailed)
  {
    var total: nat, max: nat, rtts: seq<nat> := 0, 0, [];
    spikes, errors := 0, 0;
    for i := 0 to |es|
      invariant LatenciesSeen(es[..i], rtts, total, max)
      invariant spikes == CountIf(es[..i], Spike)
      invariant errors == CountIf(es[..i], TransferFailed)
    {
      var e := es[i];
      NextEvent(es, i);
      LatencySeen(es[..i], rtts, total, max, e);
      rtts := rtts + [e.latency];
      total := total + e.latency;
      if e.latency > max {
        max := e.latency;
      }
      if e.latency > SPIKE {
        spikes := spikes + 1;
      }
      if e.error < 0 && e.error != -11 {
        errors := errors + 1;
      }
    }
    assert es[..|es|] == es;
    var p50, p95, p99 := ReadPercentiles(rtts);
    summary := Summary(total, max, p50, p95, p99);
  }

  /** ... the failures, and the named targets. */
  ghost predicate FailuresSeen(es: seq<Event>, errors: nat, breakdown: map<i32, nat>, targets: map<string, nat>) {
    errors == CountIf(es, Failed) && breakdown == Counters(ErrorCodes(es)) && targets == Counters(Targets(es))
  }

  lemma FailureSeen(es: seq<Event>, errors: nat, breakdown: map<i32, nat>, targets: map<string, nat>, e: Event)
    requires FailuresSeen(es, errors, breakdown, targets)
    ensures FailuresSeen(es + [e],
              if Failed(e) then errors + 1 else errors,
              if Failed(e) then Bump(breakdown, e.error) else breakdown,
              if HasName(e) then Bump(targets, e.target) else targets)
  {
    assert (es + [e])[..|es|] == es;
    CountersSnoc(ErrorCodes(es), e.error);
    CountersSnoc(Targets(es), e.target);
    assert ErrorCodes(es) + [] == ErrorCodes(es) && Targets(es) + [] == Targets(es);
  }

  method AnalyzeConnections(es: seq<Event>)
    returns (summary: Summary, errors: nat, topTargets: seq<Entry<string>>, errorBreakdown: map<i32, nat>)
    ensures summary == Summarize(Latencies(es))
    ensures errors == CountIf(es, Failed)
    ensures errorBreakdown == Counters(ErrorCodes(es))
    ensures Lists(topTargets, Targets(es)) && Descending(topTargets)
  {
    var total: nat, max: nat, latencies: seq<nat> := 0, 0, [];
    var targetMap: map<string, nat> := map[];
    errors, errorBreakdown := 0, map[];
    for i := 0 to |es|
      invariant LatenciesSeen(es[..i], latencies, total, max)
      invariant FailuresSeen(es[..i], errors, errorBreakdown, targetMap)
    {
      var e := es[i];
      NextEvent(es, i);
      LatencySeen(es[..i], latencies, total, max, e);
      FailureSeen(es[..i], errors, errorBreakdown, targetMap, e);
      latencies := latencies + [e.latency];
      total := total + e.latency;
      if e.latency > max {
        max := e.latency;
      }
      if e.error != 0 {
        errors := errors + 1;
        errorBreakdown := Bump(errorBreakdown, e.error);
      }
      if HasName(e) {
        targetMap := Bump(targetMap, e.target);
      }
    }
    assert es[..|es|] == es;
    var p50, p95, p99 := ReadPercentiles(latencies);
    summary := Summary(total, max, p50, p95, p99);
    topTargets := RankCounters(targetMap, Targets(es));
  }

  /** The failures of each error code add up to the failures. */
  lemma {:induction false} BreakdownAddsUp(es: seq<Event>, breakdown: seq<Entry<i32>>)
    requires Lists(breakdown, ErrorCodes(es))
    ensures Total(breakdown) == CountIf(es, Failed)
  {
    CountsAddUp(breakdown, ErrorCodes(es));
    OneCodePerFailure(es);
  }

  lemma {:induction false} OneCodePerFailure(es: seq<Event>)
    ensures |ErrorCodes(es)| == CountIf(es, Failed)
  {
    if es != [] {
      OneCodePerFailure(es[..|es| - 1]);
    }
  }

  class Diagnostician {
    var events: seq<Event>
    var startTime: int
    var endTime: int

    constructor (now: int)
      ensures events == [] && startTime == now
    {
      events, startTime, endTime := [], now, 0;
    }

    method AddEvent(event: Event)
      modifies this`events
      ensures events == old(events) + [event]
    {
      events := events + [event];
    }

    method Finish(now: int)
      modifies this`endTime
      ensures endTime == now
    {
      endTime := now;
    }

    method FilterEvents(kind: u32) returns (filtered: seq<Event>)
      ensures filtered == Filter(events, OfKind(kind))
    {
      filtered := [];
      for i := 0 to |events|
        invariant filtered == Filter(events[..i], OfKind(kind))
      {
        NextEvent(events, i);
        if events[i].kind == kind {
          filtered := filtered + [events[i]];
        }
      }
      assert events[..|events|] == events;
    }

    method DetectIssues() returns (issues: seq<Issue>)
      ensures issues == Issues(events)
    {
      issues := [];
      var connectEvents := FilterEvents(CONNECT);
      if |connectEvents| > 0 {
        var errors := CountEvents(connectEvents, Failed);
        if errors * 100 > 10 * |connectEvents| {
          issues := issues + [ConnectionFailures(errors, |connectEvents|)];
        }
      }
      var sends := FilterEvents(TCP_SEND);
      var receives := FilterEvents(TCP_RECV);
      var tcpEvents := sends + receives;
      if |tcpEvents| > 0 {
        var spikes := CountEvents(tcpEvents, Spike);
        if spikes * 100 > 5 * |tcpEvents| {
          issues := issues + [TcpSpikes(spikes, |tcpEvents|)];
        }
      }
    }
  }

  // ----- percentiles against issues

  lemma {:induction false} SpikesOfLatencies(es: seq<Event>)
    ensures CountIf(es, Spike) == CountIf(Latencies(es), Above(SPIKE))
  {
    if es != [] {
      var front := es[..|es| - 1];
      SpikesOfLatencies(front);
      assert Latencies(es)[..|es| - 1] == Latencies(front);
    }
  }

  /** The reported P95 is a spike exactly when at least n - rank of the n transfers are. */
  lemma P95IsSpike(es: seq<Event>)
    requires es != []
    ensures Summarize(Latencies(es)).p95 > SPIKE <==> CountIf(es, Spike) >= |es| - Rank(|es|, 95)
  {
    PercentileAboveBound(Latencies(es), 95, SPIKE);
    SpikesOfLatencies(es);
  }

  lemma TopFivePercent(n: nat)
    requires n > 0
    ensures (n - Rank(n, 95)) * 20 > n
  {
  }

  /** A report whose P95 is above 100 ms lists the spike rate among its issues. */
  lemma P95ImpliesIssue(es: seq<Event>)
    requires TcpEvents(es) != []
    requires Summarize(Latencies(TcpEvents(es))).p95 > SPIKE
    ensures TcpSpikes(CountIf(TcpEvents(es), Spike), |TcpEvents(es)|) in Issues(es)
  {
    P95IsSpike(TcpEvents(es));
    TopFivePercent(|TcpEvents(es)|);
  }

  /** The spike rate is listed for nothing else than a rate above 5 percent, and then the P95 stays at
      100 ms or below exactly when the spikes are fewer than n - rank. */
  lemma IssueAgainstP95(es: seq<Event>)
    requires TcpEvents(es) != []
    ensures var tcp := TcpEvents(es);
            var spikes, n := CountIf(tcp, Spike), |tcp|;
            && (TcpSpikes(spikes, n) in Issues(es) <==> n < 20 * spikes)
            && (TcpSpikes(spikes, n) in Issues(es) && Summarize(Latencies(tcp)).p95 <= SPIKE <==>
                  n < 20 * spikes && spikes < n - Rank(n, 95))
  {
    P95IsSpike(TcpEvents(es));
  }

  lemma CalmAndSlow(calm: seq<Event>, slow: seq<Event>)
    requires forall e :: e in calm + slow ==> e.kind == TCP_SEND
    requires forall e :: e in calm ==> !Spike(e)
    requires forall e :: e in slow ==> Spike(e)
    ensures TcpEvents(calm + slow) == calm + slow && CountIf(calm + slow, Spike) == |slow|
  {
    var es := calm + slow;
    FilterAll(es, OfKind(TCP_SEND));
    FilterNone(es, OfKind(TCP_RECV));
    assert es + [] == es;
    FilterConcat(calm, slow, Spike);
    FilterNone(calm, Spike);
    FilterAll(slow, Spike);
  }

  /** It happens: with 2 spikes among 22 sends the rate is above 5 percent, and the P95 is not a spike. */
  lemma IssueWithoutP95(calm: seq<Event>, slow: seq<Event>)
    requires |calm| == 20 && |slow| == 2 && forall e :: e in calm + slow ==> e.kind == TCP_SEND
    requires forall e :: e in calm ==> !Spike(e)
    requires forall e :: e in slow ==> Spike(e)
    ensures TcpSpikes(2, 22) in Issues(calm + slow)
    ensures Summarize(Latencies(TcpEvents(calm + slow))).p95 <= SPIKE
  {
    CalmAndSlow(calm, slow);
    IssueAgainstP95(calm + slow);
  }

  // ----- the issues in terms of the events

  function KindAnd(kind: u32, p: Event -> bool): Event -> bool {
    (e: Event) => e.kind == kind && p(e)
  }

  lemma {:induction false} CountInKind(es: seq<Event>, kind: u32, p: Event -> bool)
    ensures CountIf(Filter(es, OfKind(kind)), p) == CountIf(es, KindAnd(kind, p))
  {
    if es != [] {
      var front, x := es[..|es| - 1], es[|es| - 1];
      assert es == front + [x];
      CountInKind(front, kind, p);
      FilterSnoc(front, x, OfKind(kind));
      FilterSnoc(front, x, KindAnd(kind, p));
      FilterSnoc(Filter(front, OfKind(kind)), x, p);
      assert Filter(front, OfKind(kind)) + [] == Filter(front, OfKind(kind));
    }
  }

  /** How many events of a kind there are, and how many of them satisfy a test. */
  lemma KindCounts(es: seq<Event>, kind: u32, p: Event -> bool)
    ensures |Filter(es, OfKind(kind))| == |EventsOf(es, kind)|
    ensures CountIf(Filter(es, OfKind(kind)), p) == |EventsOf(es, kind) * Positions(es, p)|
  {
    CountIfExactly(es, OfKind(kind));
    assert Positions(es, OfKind(kind)) == EventsOf(es, kind);
    CountInKind(es, kind, p);
    CountIfExactly(es, KindAnd(kind, p));
    assert Positions(es, KindAnd(kind, p)) == EventsOf(es, kind) * Positions(es, p);
  }

  /** The connection issue is listed exactly when more than 10 percent of the connects failed. */
  lemma ConnectionIssueExactly(es: seq<Event>, issue: Issue)
    requires issue.ConnectionFailures?
    ensures var n, errors := |EventsOf(es, 1)|, |EventsOf(es, 1) * FailedEvents(es)|;
            issue in Issues(es) <==> 100 * errors > 10 * n && issue == ConnectionFailures(errors, n)
  {
    KindCounts(es, CONNECT, Failed);
    assert Positions(es, Failed) == FailedEvents(es);
    ConnectionIssue(Filter(es, OfKind(CONNECT)), es, issue);
  }

  lemma ConnectionIssue(connects: seq<Event>, es: seq<Event>, issue: Issue)
    requires issue.ConnectionFailures? && connects == Filter(es, OfKind(CONNECT))
    ensures issue in Issues(es) <==>
            10 * CountIf(connects, Failed) > |connects| &&
            issue == ConnectionFailures(CountIf(connects, Failed), |connects|)
  {
  }

  /** The spike issue is listed exactly when more than 5 percent of sends and receives took over 100 ms. */
  lemma SpikeIssueExactly(es: seq<Event>, issue: Issue)
    requires issue.TcpSpikes?
    ensures var n := |EventsOf(es, 2)| + |EventsOf(es, 3)|;
            var spikes := |EventsOf(es, 2) * SlowEvents(es)| + |EventsOf(es, 3) * SlowEvents(es)|;
            issue in Issues(es) <==> 100 * spikes > 5 * n && issue == TcpSpikes(spikes, n)
  {
    TransferCounts(es);
    SpikeIssue(TcpEvents(es), es, issue);
  }

  lemma TransferCounts(es: seq<Event>)
    ensures |TcpEvents(es)| == |EventsOf(es, 2)| + |EventsOf(es, 3)|
    ensures CountIf(TcpEvents(es), Spike) ==
            |EventsOf(es, 2) * SlowEvents(es)| + |EventsOf(es, 3) * SlowEvents(es)|
  {
    KindCounts(es, TCP_SEND, Spike);
    KindCounts(es, TCP_RECV, Spike);
    assert Positions(es, Spike) == SlowEvents(es);
    FilterConcat(Filter(es, OfKind(TCP_SEND)), Filter(es, OfKind(TCP_RECV)), Spike);
  }

  /** Each issue is listed at most once, the connection issue first. */
  lemma IssuesInOrder(es: seq<Event>)
    ensures |Issues(es)| <= 2
    ensures |Issues(es)| == 2 ==> Issues(es)[0].ConnectionFailures? && Issues(es)[1].TcpSpikes?
  {
  }

  lemma SpikeIssue(transfers: seq<Event>, es: seq<Event>, issue: Issue)
    requires issue.TcpSpikes? && transfers == TcpEvents(es)
    ensures issue in Issues(es) <==>
            20 * CountIf(transfers, Spike) > |transfers| &&
            issue == TcpSpikes(CountIf(transfers, Spike), |transfers|)
  {
  }
}
