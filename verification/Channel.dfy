/** The event channel between the reader of the ring buffer and its two consumers, the metrics loop and
    the diagnostician. Each event goes to one of them. */
module Channel {
  import opened Numbers
  import opened Events

  const CAPACITY := 100

  /** The reader's position, the event its blocked send holds, the buffered events, and what each
      consumer has taken. */
  datatype Pipe = Pipe(
    read: nat,
    held: Option<Event>,
    buffer: seq<Event>,
    exported: seq<Event>,
    ignored: seq<Event>,
    taken: seq<Event>,
    stored: seq<Event>)

  const START := Pipe(0, None, [], [], [], [], [])

  /** What can happen next. Reading covers parsing and the cgroup filter (Pipeline.Outcome), which yield
      an event to send, or none. */
  datatype Move = Read | Send | TakeForMetrics | TakeForReport

  /** The kinds that HandleEvents has a case for. */
  predicate Exported(e: Event) {
    e.kind in {CONNECT, TCP_SEND, TCP_RECV, DNS, WRITE, FSYNC, SCHED_SWITCH}
  }

  predicate PassedOver(e: Event) {
    !Exported(e)
  }

  /** Of the kinds that probes produce, only reads have no case. */
  lemma OnlyReadsPassedOver(e: Event)
    ensures PassedOver(e) <==> e.kind == READ || e.kind > SCHED_SWITCH
  {
  }

  predicate Enabled(p: Pipe, m: Move, records: seq<Option<Event>>) {
    match m
    case Read => p.held.None? && p.read < |records|
    case Send => p.held.Some? && |p.buffer| < CAPACITY
    case TakeForMetrics => p.buffer != []
    case TakeForReport => p.buffer != []
  }

  function Next(p: Pipe, m: Move, records: seq<Option<Event>>): Pipe
    requires Enabled(p, m, records)
  {
    match m
    case Read => p.(read := p.read + 1, held := records[p.read])
    case Send => p.(held := None, buffer := p.buffer + [p.held.value])
    case TakeForMetrics =>
      var e := p.buffer[0];
      p.(buffer := p.buffer[1..],
         taken := p.taken + [e],
         exported := if Exported(e) then p.exported + [e] else p.exported,
         ignored := if Exported(e) then p.ignored else p.ignored + [e])
    case TakeForReport => p.(buffer := p.buffer[1..], stored := p.stored + [p.buffer[0]])
  }

  /** The state after some moves, or None if one of them was not possible. */
  function After(moves: seq<Move>, records: seq<Option<Event>>): Option<Pipe> {
    if moves == [] then Some(START)
    else
      match After(moves[..|moves| - 1], records)
      case None => None
      case Some(p) =>
        var m := moves[|moves| - 1];
        if Enabled(p, m, records) then Some(Next(p, m, records)) else None
  }

  /** The events among the records, in order. */
  function Accepted(records: seq<Option<Event>>): seq<Event> {
    if records == [] then []
    else
      var last := records[|records| - 1];
      Accepted(records[..|records| - 1]) + if last.Some? then [last.value] else []
  }

  /** whole is made of a and b, both in their own order. */
  ghost predicate Interleaving<T>(a: seq<T>, b: seq<T>, whole: seq<T>) {
    if whole == [] then a == [] && b == []
    else
      var n := |whole| - 1;
      || (a != [] && a[|a| - 1] == whole[n] && Interleaving(a[..|a| - 1], b, whole[..n]))
      || (b != [] && b[|b| - 1] == whole[n] && Interleaving(a, b[..|b| - 1], whole[..n]))
  }

  lemma InterleavingSnoc<T>(a: seq<T>, b: seq<T>, whole: seq<T>, x: T)
    requires Interleaving(a, b, whole)
    ensures Interleaving(a + [x], b, whole + [x])
    ensures Interleaving(a, b + [x], whole + [x])
  {
    assert (a + [x])[..|a|] == a && (b + [x])[..|b|] == b && (whole + [x])[..|whole|] == whole;
  }

  function Waiting(p: Pipe): seq<Event> {
    p.buffer + if p.held.Some? then [p.held.value] else []
  }

  /** The accepted events are, in order, an interleaving of what the two consumers took, then the buffer,
      then the event held by a blocked send; and each event the metrics loop took was exported or passed over. */
  ghost predicate Conserves(p: Pipe, records: seq<Option<Event>>, delivered: seq<Event>) {
    && p.read <= |records|
    && |p.buffer| <= 100
    && Accepted(records[..p.read]) == delivered + Waiting(p)
    && Interleaving(p.taken, p.stored, delivered)
    && p.exported == Filter(p.taken, Exported)
    && p.ignored == Filter(p.taken, PassedOver)
  }

  /** Every reachable state conserves the events accepted so far. */
  lemma {:induction false} NothingLostOrDuplicated(moves: seq<Move>, records: seq<Option<Event>>)
    returns (delivered: seq<Event>)
    requires After(moves, records).Some?
    ensures Conserves(After(moves, records).value, records, delivered)
  {
    if moves == [] {
      delivered := [];
    } else {
      var front, m := moves[..|moves| - 1], moves[|moves| - 1];
      var before := After(front, records).value;
      delivered := NothingLostOrDuplicated(front, records);
      match m {
        case Read => ReadConserves(before, records, delivered);
        case Send => SendConserves(before, records, delivered);
        case TakeForMetrics =>
          TakeForMetricsConserves(before, records, delivered);
          delivered := delivered + [before.buffer[0]];
        case TakeForReport =>
          TakeForReportConserves(before, records, delivered);
          delivered := delivered + [before.buffer[0]];
      }
    }
  }

  /** In every reachable state: the reader goes on unless it holds an event, a held event waits only while 100
      are buffered, and both consumers wait only while none is. */
  lemma BlockedExactly(moves: seq<Move>, records: seq<Option<Event>>)
    requires After(moves, records).Some?
    ensures var p := After(moves, records).value;
            && (Enabled(p, Read, records) <==> p.held.None? && p.read != |records|)
            && (Enabled(p, Send, records) <==> p.held.Some? && |p.buffer| != 100)
            && (Enabled(p, TakeForMetrics, records) <==> p.buffer != [])
            && (Enabled(p, TakeForReport, records) <==> p.buffer != [])
  {
    var delivered := NothingLostOrDuplicated(moves, records);
  }

  lemma ReadConserves(p: Pipe, records: seq<Option<Event>>, delivered: seq<Event>)
    requires Conserves(p, records, delivered) && Enabled(p, Read, records)
    ensures Conserves(Next(p, Read, records), records, delivered)
  {
    assert records[..p.read + 1][..p.read] == records[..p.read];
    assert records[..p.read + 1][p.read] == records[p.read];
  }

  lemma SendConserves(p: Pipe, records: seq<Option<Event>>, delivered: seq<Event>)
    requires Conserves(p, records, delivered) && Enabled(p, Send, records)
    ensures Conserves(Next(p, Send, records), records, delivered)
  {
    assert Waiting(Next(p, Send, records)) == Waiting(p);
  }

  lemma DeliverFirst(p: Pipe, q: Pipe, delivered: seq<Event>)
    requires p.buffer != [] && q.buffer == p.buffer[1..] && q.held == p.held
    ensures delivered + Waiting(p) == delivered + [p.buffer[0]] + Waiting(q)
  {
    assert Waiting(p) == [p.buffer[0]] + Waiting(q);
  }

  lemma TakeForMetricsConserves(p: Pipe, records: seq<Option<Event>>, delivered: seq<Event>)
    requires Conserves(p, records, delivered) && Enabled(p, TakeForMetrics, records)
    ensures Conserves(Next(p, TakeForMetrics, records), records, delivered + [p.buffer[0]])
  {
    var e := p.buffer[0];
    InterleavingSnoc(p.taken, p.stored, delivered, e);
    FilterSnoc(p.taken, e, Exported);
    FilterSnoc(p.taken, e, PassedOver);
    DeliverFirst(p, Next(p, TakeForMetrics, records), delivered);
  }

  lemma TakeForReportConserves(p: Pipe, records: seq<Option<Event>>, delivered: seq<Event>)
    requires Conserves(p, records, delivered) && Enabled(p, TakeForReport, records)
    ensures Conserves(Next(p, TakeForReport, records), records, delivered + [p.buffer[0]])
  {
    InterleavingSnoc(p.taken, p.stored, delivered, p.buffer[0]);
    DeliverFirst(p, Next(p, TakeForReport, records), delivered);
  }

  lemma {:induction false} InterleavingCounts<T>(a: seq<T>, b: seq<T>, whole: seq<T>)
    requires Interleaving(a, b, whole)
    ensures |a| + |b| == |whole|
    ensures multiset(a) + multiset(b) == multiset(whole)
  {
    if whole != [] {
      var n := |whole| - 1;
      CountsOfFront(whole);
      if a != [] && a[|a| - 1] == whole[n] && Interleaving(a[..|a| - 1], b, whole[..n]) {
        InterleavingCounts(a[..|a| - 1], b, whole[..n]);
        CountsOfFront(a);
        OneMore(multiset(a[..|a| - 1]), multiset(b), whole[n]);
        assert multiset(b) + multiset{} == multiset(b);
      } else {
        InterleavingCounts(a, b[..|b| - 1], whole[..n]);
        CountsOfFront(b);
        OneMore(multiset(a), multiset(b[..|b| - 1]), whole[n]);
        assert multiset(a) + multiset{} == multiset(a);
      }
    }
  }

  lemma CountsOfFront<T>(s: seq<T>)
    requires s != []
    ensures multiset(s) == multiset(s[..|s| - 1]) + multiset{s[|s| - 1]}
  {
    assert s == s[..|s| - 1] + [s[|s| - 1]];
  }

  /** When the records are used up and nothing waits, each accepted event was exported, passed over or
      stored, exactly once. */
  lemma FullyDrained(moves: seq<Move>, records: seq<Option<Event>>)
    requires After(moves, records).Some?
    requires var p := After(moves, records).value; p.read == |records| && p.buffer == [] && p.held.None?
    ensures var p := After(moves, records).value;
            && multiset(Accepted(records)) == multiset(p.exported) + multiset(p.ignored) + multiset(p.stored)
            && |Accepted(records)| == |p.exported| + |p.ignored| + |p.stored|
  {
    var p := After(moves, records).value;
    var delivered := NothingLostOrDuplicated(moves, records);
    assert records[..p.read] == records;
    InterleavingCounts(p.taken, p.stored, delivered);
    FilterPartitions(p.taken, Exported, PassedOver);
  }
}
