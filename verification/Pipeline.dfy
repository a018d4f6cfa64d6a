/** The whole way of an event: from the probes over the ring buffer, the parser and the cgroup filter
    into the channel, and from there to the metrics or to the report. */
module Pipeline {
  import opened Numbers
  import opened Wire
  import opened ProbeMap
  import opened ProbeRuns
  import opened Clocks
  import opened Events
  import opened Cgroup
  import opened Channel

  /** Go's string(bytes) */
  function Text(bytes: seq<u8>): string {
    seq(|bytes|, i requires 0 <= i < |bytes| => bytes[i] as char)
  }

  /** What reading /proc yields for a process: its name, and its cgroup file if that can be read. */
  datatype ProcEntry = ProcEntry(name: string, cgroup: Option<string>)

  function ToEvent(p: Parsed, name: string): Event {
    Event(p.timestamp, p.pid, name, p.kind, p.latency, p.error, Text(p.target), Text(p.details))
  }

  /** One turn of the reader's loop: an event to send, or none. */
  function Outcome(data: seq<u8>, cgroupPath: string, proc: u32 -> ProcEntry): Option<Event> {
    match ParseEvent(data)
    case None => None
    case Some(p) =>
      if InCgroup(cgroupPath, proc(p.pid).cgroup) then Some(ToEvent(p, proc(p.pid).name)) else None
  }

  /** A process belongs to the pod if there is no pod path, or its cgroup is the pod's, inside it or around it. */
  ghost predicate Belongs(cgroupPath: string, entry: ProcEntry) {
    cgroupPath == "" || Related(cgroupPath, entry.cgroup)
  }

  /** The event of a sample: the numbers and texts at their offsets. */
  ghost predicate ReadFrom(e: Event, data: seq<u8>, name: string)
    requires |data| >= 156
  {
    && e.timestamp == FromLittleEndian(data[0..8])
    && e.pid == FromLittleEndian(data[8..12])
    && e.kind == FromLittleEndian(data[12..16])
    && e.latency == FromLittleEndian(data[16..24])
    && SameLowWord(e.error, FromLittleEndian(data[24..28]))
    && IsText(e.target, data[28..92])
    && IsText(e.details, data[92..156])
    && e.processName == name
  }

  /** The characters of a NUL-padded text. */
  ghost predicate IsText(s: string, t: seq<u8>) {
    && |s| <= |t|
    && (forall i :: 0 <= i < |s| ==> s[i] as int == t[i])
    && (forall i :: |s| <= i < |t| ==> t[i] == 0)
    && (s != "" ==> s[|s| - 1] as int != 0)
  }

  lemma TextExactly(t: seq<u8>)
    ensures IsText(Text(TrimNuls(t)), t)
  {
  }

  /** A sample is sent exactly when it has 156 bytes and its process belongs to the pod. A process whose
      cgroup file cannot be read belongs to no pod. */
  lemma SentExactly(data: seq<u8>, cgroupPath: string, proc: u32 -> ProcEntry)
    ensures Outcome(data, cgroupPath, proc).Some? <==>
              |data| >= 156 && Belongs(cgroupPath, proc(ReadU32(data, 8)))
    ensures Outcome(data, cgroupPath, proc).Some? ==>
              ReadFrom(Outcome(data, cgroupPath, proc).value, data, proc(ReadU32(data, 8)).name)
  {
    if |data| >= 156 {
      AcceptedExactly(cgroupPath, proc(ReadU32(data, 8)).cgroup);
      TextExactly(data[28..92]);
      TextExactly(data[92..156]);
      BitsAgree(ParseEvent(data).value.error);
    }
  }

  /** The outcomes of all samples; /proc may answer differently from one sample to the next. */
  function Outcomes(samples: seq<seq<u8>>, cgroupPath: string, proc: nat -> u32 -> ProcEntry): seq<Option<Event>> {
    if samples == [] then []
    else Outcomes(Front(samples), cgroupPath, proc) + [Outcome(Last(samples), cgroupPath, proc(|samples| - 1))]
  }

  /** The samples of an output: the fields of each record, and the padding behind them. */
  ghost predicate SamplesOf(samples: seq<seq<u8>>, output: seq<Record>) {
    && |samples| == |output|
    && forall i :: 0 <= i < |output| ==> |samples[i]| == 160 && samples[i][..156] == Encode(output[i])
  }

  /** What Go sees of a reported call: the kind of the probed function and the time between its start and its return. */
  function Seen(e: Emission, name: string): Event {
    Event(e.record.timestamp, e.record.pid, name, Kind(e.fn), CalcLatency(e.start, e.now), e.record.error,
          Text(TrimNuls(e.record.target)), "")
  }

  /** What Go should see of the reported calls: those of processes in the cgroup, in order. */
  function Expected(es: seq<Emission>, cgroupPath: string, proc: nat -> u32 -> ProcEntry): seq<Event> {
    if es == [] then []
    else
      var entry := proc(|es| - 1)(Last(es).record.pid);
      Expected(Front(es), cgroupPath, proc) +
      if InCgroup(cgroupPath, entry.cgroup) then [Seen(Last(es), entry.name)] else []
  }

  ghost predicate Faithful(e: Emission) {
    && e.record.kind == Kind(e.fn)
    && e.record.latency == CalcLatency(e.start, e.now)
    && e.record.details == Pad([])
  }

  lemma {:induction false} EmissionsFaithful(trace: seq<Action>, cap: Capacity)
    ensures forall e :: e in Emissions(trace, cap) ==> Faithful(e)
  {
    if trace != [] {
      EmissionsFaithful(Front(trace), cap);
    }
  }

  /** One record and its padding are read as the call that they report. */
  lemma SampleSeen(e: Emission, sample: seq<u8>, cgroupPath: string, proc: u32 -> ProcEntry)
    requires Faithful(e) && |sample| == 160 && sample[..156] == Encode(e.record)
    ensures var entry := proc(e.record.pid);
            Outcome(sample, cgroupPath, proc) ==
            if InCgroup(cgroupPath, entry.cgroup) then Some(Seen(e, entry.name)) else None
  {
    var rest := sample[156..];
    assert sample == Encode(e.record) + rest;
    ParseInvertsEncode(e.record, rest);
    var p := ParseEvent(sample).value;
    NoDetails(p, e);
    assert ToEvent(p, proc(p.pid).name) == Seen(e, proc(p.pid).name);
  }

  lemma NoDetails(p: Parsed, e: Emission)
    requires Faithful(e) && p.details == TrimNuls(e.record.details)
    ensures Text(p.details) == ""
  {
    TrimInvertsPad([]);
  }

  lemma {:induction false} AcceptedAreExpected(es: seq<Emission>, samples: seq<seq<u8>>, cgroupPath: string,
      proc: nat -> u32 -> ProcEntry)
    requires forall e :: e in es ==> Faithful(e)
    requires SamplesOf(samples, Records(es))
    ensures Accepted(Outcomes(samples, cgroupPath, proc)) == Expected(es, cgroupPath, proc)
  {
    if es != [] {
      SamplesPrefix(es, samples, |es| - 1);
      LastSample(es, samples);
      AcceptedAreExpected(Front(es), Front(samples), cgroupPath, proc);
      SampleSeen(Last(es), Last(samples), cgroupPath, proc(|es| - 1));
      AcceptedSnoc(Outcomes(Front(samples), cgroupPath, proc), Outcome(Last(samples), cgroupPath, proc(|es| - 1)));
    }
  }

  lemma LastSample(es: seq<Emission>, samples: seq<seq<u8>>)
    requires es != [] && SamplesOf(samples, Records(es))
    ensures |samples| == |es| && Last(es) in es
    ensures |Last(samples)| == 160 && Last(samples)[..156] == Encode(Last(es).record)
  {
  }

  lemma AcceptedSnoc(records: seq<Option<Event>>, next: Option<Event>)
    ensures Accepted(records + [next]) == Accepted(records) + if next.Some? then [next.value] else []
  {
    assert (records + [next])[..|records|] == records;
  }

  lemma {:induction false} OutcomesPrefix(samples: seq<seq<u8>>, n: nat, cgroupPath: string,
      proc: nat -> u32 -> ProcEntry)
    requires n <= |samples|
    ensures |Outcomes(samples, cgroupPath, proc)| == |samples|
    ensures Outcomes(samples, cgroupPath, proc)[..n] == Outcomes(samples[..n], cgroupPath, proc)
  {
    if samples != [] {
      if n < |samples| {
        OutcomesPrefix(Front(samples), n, cgroupPath, proc);
        assert Front(samples)[..n] == samples[..n];
      } else {
        OutcomesPrefix(Front(samples), 0, cgroupPath, proc);
        assert samples[..n] == samples;
      }
    }
  }

  lemma {:induction false} ExpectedKinds(es: seq<Emission>, cgroupPath: string, proc: nat -> u32 -> ProcEntry)
    ensures forall e :: e in Expected(es, cgroupPath, proc) ==> e.kind <= SCHED_SWITCH
  {
    if es != [] {
      ExpectedKinds(Front(es), cgroupPath, proc);
    }
  }

  /** What the reader has accepted after n samples. */
  lemma AcceptedSoFar(es: seq<Emission>, samples: seq<seq<u8>>, cgroupPath: string, proc: nat -> u32 -> ProcEntry,
      n: nat)
    requires (forall e :: e in es ==> Faithful(e)) && SamplesOf(samples, Records(es))
    requires n <= |es|
    ensures |Outcomes(samples, cgroupPath, proc)| == |es|
    ensures Accepted(Outcomes(samples, cgroupPath, proc)[..n]) == Expected(es[..n], cgroupPath, proc)
  {
    OutcomesPrefix(samples, n, cgroupPath, proc);
    SamplesPrefix(es, samples, n);
    AcceptedAreExpected(es[..n], samples[..n], cgroupPath, proc);
  }

  lemma SamplesPrefix(es: seq<Emission>, samples: seq<seq<u8>>, n: nat)
    requires SamplesOf(samples, Records(es)) && n <= |es|
    ensures SamplesOf(samples[..n], Records(es[..n]))
    ensures forall e :: e in es[..n] ==> e in es
  {
  }

  /** What the channel holds and has delivered of some expected events. */
  ghost predicate Delivers(p: Pipe, expected: seq<Event>, delivered: seq<Event>) {
    && expected == delivered + Waiting(p)
    && Interleaving(p.taken, p.stored, delivered)
    && p.exported == Filter(p.taken, Exported) && p.ignored == Filter(p.taken, PassedOver)
    && forall e :: e in p.ignored ==> e.kind == READ
  }

  /** Whatever the probes, the reader and the two consumers do and in whichever order: the calls that the
      probes reported for processes of the cgroup are, as far as the reader has come, an interleaving of
      what the metrics took and what the report stores, and then of what still waits. What the metrics
      pass over are reads. */
  lemma FromProbesToStore(steps: seq<Step>, samples: seq<seq<u8>>, cgroupPath: string,
      proc: nat -> u32 -> ProcEntry, moves: seq<Move>) returns (delivered: seq<Event>)
    ensures var es, run := Emissions(Flatten(steps), MAX_ENTRIES), After(moves, Outcomes(samples, cgroupPath, proc));
            SamplesOf(samples, Run(Flatten(steps), MAX_ENTRIES).output) && run.Some? ==>
              && run.value.read <= |es|
              && Delivers(run.value, Expected(es[..run.value.read], cgroupPath, proc), delivered)
  {
    OutputIsEmissions(Flatten(steps), MAX_ENTRIES);
    EmissionsFaithful(Flatten(steps), MAX_ENTRIES);
    delivered := FromEmissionsToStore(Emissions(Flatten(steps), MAX_ENTRIES), samples, cgroupPath, proc, moves);
  }

  lemma FromEmissionsToStore(es: seq<Emission>, samples: seq<seq<u8>>, cgroupPath: string,
      proc: nat -> u32 -> ProcEntry, moves: seq<Move>) returns (delivered: seq<Event>)
    requires forall e :: e in es ==> Faithful(e)
    ensures var run := After(moves, Outcomes(samples, cgroupPath, proc));
            SamplesOf(samples, Records(es)) && run.Some? ==>
              && run.value.read <= |es|
              && Delivers(run.value, Expected(es[..run.value.read], cgroupPath, proc), delivered)
  {
    var run := After(moves, Outcomes(samples, cgroupPath, proc));
    delivered := [];
    if SamplesOf(samples, Records(es)) && run.Some? {
      delivered := NothingLostOrDuplicated(moves, Outcomes(samples, cgroupPath, proc));
      AcceptedSoFar(es, samples, cgroupPath, proc, 0);
      AcceptedSoFar(es, samples, cgroupPath, proc, run.value.read);
      ExpectedKinds(es[..run.value.read], cgroupPath, proc);
      IgnoredAreReads(run.value, delivered);
    }
  }

  lemma IgnoredAreReads(p: Pipe, delivered: seq<Event>)
    requires Interleaving(p.taken, p.stored, delivered) && p.ignored == Filter(p.taken, PassedOver)
    requires forall e :: e in delivered + Waiting(p) ==> e.kind <= SCHED_SWITCH
    ensures forall e :: e in p.ignored ==> e.kind == READ
  {
    InterleavingCounts(p.taken, p.stored, delivered);
    FilterKeepsMembers(p.taken, PassedOver);
    forall e | e in p.ignored
      ensures e.kind == READ
    {
      assert e in multiset(p.taken);
      assert e in multiset(delivered);
      OnlyReadsPassedOver(e);
    }
  }

  /** Once the reader has come to the end and nothing waits, each reported call of a process in the cgroup
      was exported, passed over as a read, or stored, exactly once. */
  lemma EachCallOnce(steps: seq<Step>, samples: seq<seq<u8>>, cgroupPath: string, proc: nat -> u32 -> ProcEntry,
      moves: seq<Move>)
    ensures var es, run := Emissions(Flatten(steps), MAX_ENTRIES), After(moves, Outcomes(samples, cgroupPath, proc));
            SamplesOf(samples, Run(Flatten(steps), MAX_ENTRIES).output) && run.Some?
            && run.value.read == |samples| && Waiting(run.value) == [] ==>
              multiset(Expected(es, cgroupPath, proc)) ==
              multiset(run.value.exported) + multiset(run.value.ignored) + multiset(run.value.stored)
  {
    var es, run := Emissions(Flatten(steps), MAX_ENTRIES), After(moves, Outcomes(samples, cgroupPath, proc));
    OutputIsEmissions(Flatten(steps), MAX_ENTRIES);
    if SamplesOf(samples, Records(es)) && run.Some? && run.value.read == |samples| && Waiting(run.value) == [] {
      OutcomesPrefix(samples, 0, cgroupPath, proc);
      FullyDrained(moves, Outcomes(samples, cgroupPath, proc));
      EmissionsFaithful(Flatten(steps), MAX_ENTRIES);
      AcceptedAreExpected(es, samples, cgroupPath, proc);
    }
  }

  // ----- what a sent event is, and whose

  /** The event that Go reads from the record of a reported call is of the kind of the probed function. */
  lemma KindOfSample(trace: seq<Action>, cap: Capacity, e: Emission, sample: seq<u8>, cgroupPath: string,
      proc: u32 -> ProcEntry)
    requires e in Emissions(trace, cap)
    requires |sample| == 160 && sample[..156] == Encode(e.record)
    ensures var outcome := Outcome(sample, cgroupPath, proc);
            outcome.Some? ==>
              && (OfKind(DNS)(outcome.value) <==> e.fn == GetAddrInfo)
              && (OfKind(CONNECT)(outcome.value) <==> e.fn == TcpV4Connect || e.fn == TcpV6Connect)
              && (OfKind(TCP_SEND)(outcome.value) <==> e.fn == TcpSendmsg)
              && (OfKind(TCP_RECV)(outcome.value) <==> e.fn == TcpRecvmsg)
              && (OfKind(WRITE)(outcome.value) <==> e.fn == VfsWrite)
              && (OfKind(READ)(outcome.value) <==> e.fn == VfsRead)
              && (OfKind(FSYNC)(outcome.value) <==> e.fn == VfsFsync)
              && (OfKind(SCHED_SWITCH)(outcome.value) <==> e.fn == SchedSwitch)
  {
    EmissionsFaithful(trace, cap);
    SampleSeen(e, sample, cgroupPath, proc);
    KindTable(e.fn);
  }

  lemma KindTable(fn: Probe)
    ensures Kind(fn) == DNS <==> fn == GetAddrInfo
    ensures Kind(fn) == CONNECT <==> fn == TcpV4Connect || fn == TcpV6Connect
    ensures Kind(fn) == TCP_SEND <==> fn == TcpSendmsg
    ensures Kind(fn) == TCP_RECV <==> fn == TcpRecvmsg
    ensures Kind(fn) == WRITE <==> fn == VfsWrite
    ensures Kind(fn) == READ <==> fn == VfsRead
    ensures Kind(fn) == FSYNC <==> fn == VfsFsync
    ensures Kind(fn) == SCHED_SWITCH <==> fn == SchedSwitch
  {
  }

  lemma {:induction false} AcceptedIsOutcome(samples: seq<seq<u8>>, cgroupPath: string,
      proc: nat -> u32 -> ProcEntry, e: Event) returns (i: nat)
    requires e in Accepted(Outcomes(samples, cgroupPath, proc))
    ensures i < |samples| && Outcome(samples[i], cgroupPath, proc(i)) == Some(e)
  {
    i := |samples| - 1;
    AcceptedSnoc(Outcomes(Front(samples), cgroupPath, proc), Outcome(Last(samples), cgroupPath, proc(i)));
    if Outcome(Last(samples), cgroupPath, proc(i)) != Some(e) {
      i := AcceptedIsOutcome(Front(samples), cgroupPath, proc, e);
    }
  }

  /** Whatever an event has come to, it was read from one sample, and its process then belonged to the pod. */
  lemma DeliveredBelongs(samples: seq<seq<u8>>, cgroupPath: string, proc: nat -> u32 -> ProcEntry,
      moves: seq<Move>, e: Event) returns (i: nat)
    ensures var run := After(moves, Outcomes(samples, cgroupPath, proc));
            run.Some? && e in run.value.exported + run.value.ignored + run.value.stored ==>
              && i < |samples| && |samples[i]| >= 156
              && ReadFrom(e, samples[i], proc(i)(e.pid).name)
              && Belongs(cgroupPath, proc(i)(e.pid))
  {
    i := 0;
    var run := After(moves, Outcomes(samples, cgroupPath, proc));
    if run.Some? && e in run.value.exported + run.value.ignored + run.value.stored {
      var delivered := NothingLostOrDuplicated(moves, Outcomes(samples, cgroupPath, proc));
      WasAccepted(run.value, Outcomes(samples, cgroupPath, proc), delivered, e);
      OutcomesPrefix(samples, 0, cgroupPath, proc);
      OutcomesPrefix(samples, run.value.read, cgroupPath, proc);
      i := AcceptedIsOutcome(samples[..run.value.read], cgroupPath, proc, e);
      SentExactly(samples[i], cgroupPath, proc(i));
      PidOfOutcome(samples[i], cgroupPath, proc(i));
    }
  }

  lemma PidOfOutcome(data: seq<u8>, cgroupPath: string, proc: u32 -> ProcEntry)
    requires Outcome(data, cgroupPath, proc).Some?
    ensures |data| >= 156 && Outcome(data, cgroupPath, proc).value.pid == ReadU32(data, 8)
  {
  }

  lemma WasAccepted(p: Pipe, records: seq<Option<Event>>, delivered: seq<Event>, e: Event)
    requires Conserves(p, records, delivered) && e in p.exported + p.ignored + p.stored
    ensures e in Accepted(records[..p.read])
  {
    InterleavingCounts(p.taken, p.stored, delivered);
    FilterKeepsMembers(p.taken, Exported);
    FilterKeepsMembers(p.taken, PassedOver);
    assert e in multiset(p.taken) || e in multiset(p.stored);
    assert e in multiset(delivered);
  }
}
