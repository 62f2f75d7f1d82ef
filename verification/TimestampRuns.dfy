/** Whole runs of the time-stamp ring, with timing by the network card and in user space. */
module TimestampRuns {
  import opened Numeric
  import opened Comparators
  import opened Timestamping

  // Timing by the network card: each request is timed by the first report that covers its last byte.

  /** The card reports the time for everything up to byte `id`. */
  datatype Report = Report(id: nat, time: Timespec)

  /** What happened on a connection: the byte ends of the requests sent, and the reports in order. */
  datatype History = History(ends: seq<nat>, log: seq<Report>)

  /** The time of a request that ends at byte `end`: that of the first report covering it. */
  ghost function TimeOf(end: nat, log: seq<Report>): Option<Timespec> {
    if log == [] then None
    else
      var n := |log| - 1;
      if TimeOf(end, log[..n]).Some? then TimeOf(end, log[..n])
      else if end <= log[n].id + 1 then Some(log[n].time) else None
  }

  lemma {:induction false} TimeOfNoneIff(end: nat, log: seq<Report>)
    ensures TimeOf(end, log) == None <==> forall i :: 0 <= i < |log| ==> log[i].id + 1 < end
  {
    if log != [] {
      TimeOfNoneIff(end, log[..|log| - 1]);
    }
  }

  lemma TimeOfAppend(end: nat, log: seq<Report>, r: Report)
    ensures TimeOf(end, log).Some? ==> TimeOf(end, log + [r]) == TimeOf(end, log)
    ensures TimeOf(end, log).None? ==> TimeOf(end, log + [r]) == if end <= r.id + 1 then Some(r.time) else None
  {
    assert (log + [r])[..|log|] == log;
  }

  ghost predicate Increasing(ends: seq<nat>) {
    forall i, j :: 0 <= i < j < |ends| ==> ends[i] < ends[j]
  }

  /** The cursors are in order and the slots hold what the code still needs of the requests around `tail`. */
  ghost predicate Window(p: Pending, ends: seq<nat>) {
    && p.WellFormed()
    && p.tail <= p.head == |ends|
    && p.head - p.tail <= MAX_PENDING_REQS
    && Increasing(ends)
    && p.byteCounter == (if ends == [] then 0 else ends[|ends| - 1])
    && forall r {:trigger ends[r]} :: p.tail <= r < p.head ==> p.At(r).optid == ends[r]
  }

  /** The slots of the last 16 resolved requests hold the times they are due. */
  ghost predicate TimesHeld(p: Pending, h: History)
    requires p.WellFormed() && p.tail <= |h.ends|
  {
    forall r {:trigger h.ends[r]} :: p.tail - MAX_PENDING_REQS <= r < p.tail && 0 <= r ==>
                                       TimeOf(h.ends[r], h.log) == Some(p.At(r).time)
  }

  /** The ring is a window on the history: exactly the requests below `tail` have been timed. */
  ghost predicate Tracks(p: Pending, h: History) {
    && Window(p, h.ends)
    && (forall i :: 0 <= i < |h.log| ==> h.log[i].id + 1 <= p.byteCounter)
    && (forall r :: 0 <= r < |h.ends| ==> (r < p.tail <==> TimeOf(h.ends[r], h.log).Some?))
    && TimesHeld(p, h)
  }

  lemma SlotsDiffer(i: nat, j: nat)
    requires i != j && -MAX_PENDING_REQS < i - j < MAX_PENDING_REQS
    ensures i % MAX_PENDING_REQS != j % MAX_PENDING_REQS
  {
  }

  /** Sending keeps track as long as fewer than 16 requests wait for their time. */
  lemma AddKeepsTrack(p: Pending, h: History, bytes: nat)
    requires Tracks(p, h) && bytes > 0 && p.head - p.tail < MAX_PENDING_REQS
    ensures Tracks(AddPending(p, bytes), History(h.ends + [p.byteCounter + bytes], h.log))
  {
    var q, end := AddPending(p, bytes), p.byteCounter + bytes;
    var h' := History(h.ends + [end], h.log);
    forall r | p.tail <= r < p.head ensures q.At(r).optid == h.ends[r] {
      SlotsDiffer(r, p.head);
    }
    forall r | 0 <= r < p.tail ensures q.At(r).time == p.At(r).time {
    }
    TimeOfNoneIff(end, h.log);
    assert forall r :: 0 <= r < |h.ends| ==> h'.ends[r] == h.ends[r];
  }

  /** The slots of the requests that wait for their time hold where they end. */
  ghost predicate EndsHeld(p: Pending, ends: seq<nat>, from: nat, to: nat)
    requires p.WellFormed() && to <= |ends|
  {
    forall r {:trigger ends[r]} :: from <= r < to ==> p.At(r).optid == ends[r]
  }

  /** Sending keeps the byte end of every waiting request exactly if fewer than 16 wait. */
  lemma SendKeepsEndsIff(p: Pending, h: History, bytes: nat)
    requires Tracks(p, h) && bytes > 0
    ensures EndsHeld(AddPending(p, bytes), h.ends, p.tail, p.head) <==> p.head - p.tail < MAX_PENDING_REQS
  {
    if p.head - p.tail < MAX_PENDING_REQS {
      forall r | p.tail <= r < p.head ensures AddPending(p, bytes).At(r).optid == h.ends[r] {
        SlotsDiffer(r, p.head);
      }
    } else {
      AddBeyondWindowOverwrites(p, h, bytes);
    }
  }

  /** With 16 requests waiting, sending overwrites the byte count of the oldest of them. */
  lemma AddBeyondWindowOverwrites(p: Pending, h: History, bytes: nat)
    requires Tracks(p, h) && bytes > 0 && p.head - p.tail == MAX_PENDING_REQS
    ensures var q := AddPending(p, bytes); q.At(p.tail).optid == p.byteCounter + bytes > h.ends[p.tail]
  {
    assert p.head % MAX_PENDING_REQS == p.tail % MAX_PENDING_REQS;
    assert h.ends[p.tail] <= h.ends[|h.ends| - 1];
  }

  /** The message by which the kernel delivers a report. */
  function Message(r: Report): seq<Cmsg> {
    [HwTime(r.time), TxReport(r.id)]
  }

  /** Reports carry a time, come in order, and each is about the last byte of some request. */
  ghost predicate ReportFits(r: Report, h: History) {
    && r.time.sec != 0
    && (exists k :: 0 <= k < |h.ends| && h.ends[k] == r.id + 1)
    && forall i :: 0 <= i < |h.log| ==> h.log[i].id < r.id
  }

  lemma ExtractMessage(r: Report, dest: TimestampInfo, opid: nat)
    requires r.time.sec != 0 && dest.optid <= r.id + 1
    ensures var e := Extract(Message(r), dest, opid);
            && e.ok && e.time == r.time
            && (dest.optid == r.id + 1 ==> e.found == 1)
            && (dest.optid < r.id + 1 ==> e.found == 0 && e.opid == r.id)
  {
    var m := Message(r);
    var first := m[..1];
    assert first == [HwTime(r.time)] && first[..0] == [];
    assert Extract(first[..0], dest, opid) == Extracted(true, -1, dest.time, opid);
    assert Extract(first, dest, opid) == Extracted(true, 1, r.time, opid);
  }

  lemma MessageNeverAsserts(r: Report, dest: TimestampInfo, opid: nat)
    ensures Extract(Message(r), dest, opid).ok
  {
    var first := Message(r)[..1];
    assert first == [HwTime(r.time)] && first[..0] == [];
    assert Extract(first[..0], dest, opid) == Extracted(true, -1, dest.time, opid);
  }

  /** Resolving the request at `tail`. */
  lemma ResolveOne(p: Pending, ends: seq<nat>, t: Timespec)
    requires Window(p, ends) && p.tail < p.head
    ensures var q := p.SetTime(p.tail, t).(tail := p.tail + 1);
            && Window(q, ends)
            && q.At(p.tail).time == t
            && forall r :: 0 <= r && p.tail - MAX_PENDING_REQS < r < p.tail ==> q.At(r).time == p.At(r).time
  {
    forall r | 0 <= r && p.tail - MAX_PENDING_REQS < r < p.tail
      ensures p.SetTime(p.tail, t).At(r) == p.At(r)
    {
      SlotsDiffer(r, p.tail);
    }
  }

  /** The coalescing loop resolves exactly the pending requests up to the reported one. */
  lemma {:induction false} CoalesceResolves(p: Pending, ends: seq<nat>, opid: nat, t: Timespec, k: nat)
    requires Window(p, ends) && p.tail <= k + 1 && k < |ends| && ends[k] == opid + 1
    ensures var q := Coalesce(p, opid, t);
            && Window(q, ends) && q.tail == k + 1 && q.consumed == p.consumed
            && (forall r :: 0 <= r && q.tail - MAX_PENDING_REQS <= r < q.tail ==>
                              q.At(r).time == if p.tail <= r then t else p.At(r).time)
    decreases k + 1 - p.tail
  {
    if p.tail < p.head {
      assert p.At(p.tail).optid == ends[p.tail];
    }
    if p.tail <= k {
      var p1 := p.SetTime(p.tail, t).(tail := p.tail + 1);
      assert ends[p.tail] <= ends[k];
      ResolveOne(p, ends, t);
      CoalesceResolves(p1, ends, opid, t, k);
    }
  }

  /** A report about the pending request `k` moves `tail` just past it. */
  lemma NotifyResolves(p: Pending, ends: seq<nat>, r: Report, opid: nat, k: nat)
    requires Window(p, ends) && p.tail <= k < |ends| && ends[k] == r.id + 1 && r.time.sec != 0
    ensures var e := Extract(Message(r), p.At(p.tail), opid);
            var q := Notify(p, e).0;
            && e.ok && Notify(p, e).1 == 1
            && Window(q, ends) && q.tail == k + 1 && q.consumed == p.consumed && q.byteCounter == p.byteCounter
            && (forall i :: 0 <= i && q.tail - MAX_PENDING_REQS <= i < q.tail ==>
                              q.At(i).time == if p.tail <= i then r.time else p.At(i).time)
  {
    assert p.At(p.tail).optid == ends[p.tail] <= ends[k];
    ExtractMessage(r, p.At(p.tail), opid);
    ResolveOne(p, ends, r.time);
    var e := Extract(Message(r), p.At(p.tail), opid);
    var p1 := p.SetTime(p.tail, r.time).(tail := p.tail + 1);
    if e.found == 0 {
      CoalesceResolves(p1, ends, r.id, r.time, k);
    }
  }

  /** One report resolves exactly the requests whose last byte it covers, all with its time. */
  lemma NotifyKeepsTrack(p: Pending, h: History, r: Report, opid: nat)
    requires Tracks(p, h) && ReportFits(r, h)
    ensures var e := Extract(Message(r), p.At(p.tail), opid);
            var q := Notify(p, e).0;
            && e.ok && Notify(p, e).1 == 1
            && Tracks(q, History(h.ends, h.log + [r]))
            && q.consumed == p.consumed && q.head == p.head
            && (forall i :: 0 <= i < |h.ends| ==> (i < q.tail <==> h.ends[i] <= r.id + 1))
  {
    hide Notify, Extract, TimeOf;
    var k :| 0 <= k < |h.ends| && h.ends[k] == r.id + 1;
    TimeOfNoneIff(h.ends[k], h.log);
    NotifyResolves(p, h.ends, r, opid, k);
    TimesAfterReport(p, Notify(p, Extract(Message(r), p.At(p.tail), opid)).0, h, r);
  }

  /** From resolved slots to the per-request times. */
  lemma TimesAfterReport(p: Pending, q: Pending, h: History, r: Report)
    requires Tracks(p, h) && Window(q, h.ends) && p.tail < q.tail
    requires q.byteCounter == p.byteCounter
    requires h.ends[q.tail - 1] == r.id + 1
    requires forall i :: 0 <= i && q.tail - MAX_PENDING_REQS <= i < q.tail ==>
                           q.At(i).time == if p.tail <= i then r.time else p.At(i).time
    ensures Tracks(q, History(h.ends, h.log + [r]))
    ensures forall i :: 0 <= i < |h.ends| ==> (i < q.tail <==> h.ends[i] <= r.id + 1)
  {
    var h' := History(h.ends, h.log + [r]);
    forall i | 0 <= i < |h.ends|
      ensures i < q.tail <==> h.ends[i] <= r.id + 1
      ensures i < q.tail <==> TimeOf(h.ends[i], h'.log).Some?
      ensures p.tail <= i < q.tail ==> TimeOf(h.ends[i], h'.log) == Some(r.time)
      ensures i < p.tail ==> TimeOf(h.ends[i], h'.log) == TimeOf(h.ends[i], h.log)
    {
      TimeOfAppend(h.ends[i], h.log, r);
    }
    assert h.ends[q.tail - 1] <= h.ends[|h.ends| - 1];
  }

  /** One connection timed by the card: its ring, its outstanding requests, and the last byte id reported. */
  datatype Nic = Nic(p: Pending, pendingReqs: int, opid: nat)

  datatype NicEvent = Sent(bytes: nat) | ErrorQueue(report: Report) | Answered(k: nat, late: Option<Report>)

  function Reported(s: Nic, r: Report): (s': Nic)
    requires s.p.WellFormed()
    ensures s'.p.WellFormed()
  {
    var e := Extract(Message(r), s.p.At(s.p.tail), s.opid);
    s.(p := Notify(s.p, e).0, opid := e.opid)
  }

  /** After skipping to the last answered request, its time is not known yet: the error queue is read. */
  predicate ReadsLate(s: Nic, k: nat) {
    s.p.tail < s.p.consumed + k
  }

  /** A batch of `k >= 1` responses: skip all but the last, take its time, or try once more and give up. */
  function AnsweredBy(s: Nic, k: nat, late: Option<Report>): (r: (Nic, Option<Timespec>))
    requires s.p.WellFormed() && k > 0
    ensures r.0.p.WellFormed()
  {
    var skipped := BlindSkip(s.p, k - 1);
    var (p1, t1) := Pop(skipped);
    if t1.Some? then (s.(p := p1, pendingReqs := s.pendingReqs - k), t1)
    else
      var s2 := if late.Some? then Reported(s.(p := p1), late.value) else s.(p := p1);
      var (p3, t3) := Pop(s2.p);
      var p4 := if t3.None? then p3.(consumed := p3.consumed + 1) else p3;
      (s2.(p := p4, pendingReqs := s.pendingReqs - k), t3)
  }

  /** The invariant of the card's mode. */
  ghost predicate NicValid(s: Nic, h: History) {
    Tracks(s.p, h) && s.p.consumed + s.pendingReqs == s.p.head && s.pendingReqs <= MAX_PENDING_REQS
  }

  /**
   What the window, the card and the server ensure: a connection is picked below its window, reports are in order and
   whole, and there are no more responses than requests.
   */
  ghost predicate EventAllowed(ev: NicEvent, s: Nic, h: History) {
    match ev
    case Sent(bytes) => bytes > 0 && s.pendingReqs < MAX_PENDING_REQS
    case ErrorQueue(r) => ReportFits(r, h)
    case Answered(k, late) => 1 <= k <= s.pendingReqs && (late.Some? ==> ReportFits(late.value, h))
  }

  /** What the ring needs besides: a request is sent only while fewer than 16 wait for their time. */
  ghost predicate EventFits(ev: NicEvent, s: Nic, h: History) {
    EventAllowed(ev, s, h) && (ev.Sent? ==> s.p.head - s.p.tail < MAX_PENDING_REQS)
  }

  function NicStep(s: Nic, ev: NicEvent): (r: (Nic, Option<Timespec>))
    requires s.p.WellFormed() && (ev.Answered? ==> ev.k > 0)
    ensures r.0.p.WellFormed() && (r.1.Some? ==> ev.Answered?)
  {
    match ev
    case Sent(bytes) => (s.(p := AddPending(s.p, bytes), pendingReqs := s.pendingReqs + 1), None)
    case ErrorQueue(r) => (Reported(s, r), None)
    case Answered(k, late) => AnsweredBy(s, k, late)
  }

  /** The history after the event; a late report counts only if it is read. */
  ghost function Recorded(h: History, s: Nic, ev: NicEvent): History {
    match ev
    case Sent(bytes) => History(h.ends + [s.p.byteCounter + bytes], h.log)
    case ErrorQueue(r) => History(h.ends, h.log + [r])
    case Answered(k, late) => if ReadsLate(s, k) && late.Some? then History(h.ends, h.log + [late.value]) else h
  }

  lemma ConsumedIrrelevant(p: Pending, h: History, consumed: nat)
    requires Tracks(p, h)
    ensures Tracks(p.(consumed := consumed), h)
  {
    var q := p.(consumed := consumed);
    assert forall r :: 0 <= r ==> q.At(r) == p.At(r);
  }

  /**
   A batch yields the time of exactly its last request as soon as a report covers it, and no sample otherwise.
   */
  lemma AnsweredKeepsTrack(s: Nic, h: History, k: nat, late: Option<Report>)
    requires NicValid(s, h) && EventFits(Answered(k, late), s, h)
    ensures var (s', t) := AnsweredBy(s, k, late);
            var h' := Recorded(h, s, Answered(k, late));
            && NicValid(s', h')
            && s'.p.consumed == s.p.consumed + k
            && t == TimeOf(h'.ends[s.p.consumed + k - 1], h'.log)
  {
    hide Notify, Extract, TimeOf, Tracks;
    var last := s.p.consumed + k - 1;
    var p0 := BlindSkip(s.p, k - 1);
    assert p0 == s.p.(consumed := last);
    ConsumedIrrelevant(s.p, h, last);
    TrackedCursors(p0, h);
    if last < p0.tail {
      ConsumedIrrelevant(p0, h, last + 1);
      TimeAtConsumed(p0, h);
    } else if late.Some? {
      NotifyKeepsTrack(p0, h, late.value, s.opid);
      var h' := History(h.ends, h.log + [late.value]);
      var q := Reported(s.(p := p0), late.value).p;
      TrackedCursors(q, h');
      ConsumedIrrelevant(q, h', last + 1);
      TimeAtConsumed(q, h');
    } else {
      ConsumedIrrelevant(p0, h, last + 1);
      TimeAtConsumed(p0, h);
    }
  }

  lemma TrackedCursors(p: Pending, h: History)
    requires Tracks(p, h)
    ensures p.WellFormed() && p.tail <= p.head == |h.ends|
  {
  }

  /** The next request to consume, among the last 16 sent: resolved exactly below `tail`, its time in its slot. */
  lemma TimeAtConsumed(p: Pending, h: History)
    requires Tracks(p, h) && p.head - MAX_PENDING_REQS <= p.consumed < p.head
    ensures p.WellFormed() && p.consumed < |h.ends|
    ensures TimeOf(h.ends[p.consumed], h.log) == if p.consumed < p.tail then Some(p.At(p.consumed).time) else None
  {
  }

  lemma StepKeepsTrack(s: Nic, h: History, ev: NicEvent)
    requires NicValid(s, h) && EventFits(ev, s, h)
    ensures NicValid(NicStep(s, ev).0, Recorded(h, s, ev))
  {
    match ev
    case Sent(bytes) => AddKeepsTrack(s.p, h, bytes);
    case ErrorQueue(r) =>
      hide Notify, Extract;
      NotifyKeepsTrack(s.p, h, r, s.opid);
    case Answered(k, late) => AnsweredKeepsTrack(s, h, k, late);
  }

  // Whole runs.

  ghost function NicStart(): (s: Nic)
    ensures s.p.WellFormed()
  {
    Nic(EMPTY, 0, 0)
  }

  /** The state and history after a run, and the samples `(request, time)` it emitted. */
  ghost function NicRun(es: seq<NicEvent>): (r: (Nic, History, seq<(nat, Timespec)>))
    ensures r.0.p.WellFormed()
  {
    if es == [] then (NicStart(), History([], []), [])
    else
      var n := |es| - 1;
      var (s, h, samples) := NicRun(es[..n]);
      if es[n].Answered? && es[n].k == 0 then (s, h, samples)
      else
        var (s', t) := NicStep(s, es[n]);
        (s', Recorded(h, s, es[n]), if t.Some? then samples + [(s.p.consumed + es[n].k - 1, t.value)] else samples)
  }

  /** Every event of the run meets the assumptions when it happens. */
  ghost predicate RunFits(es: seq<NicEvent>) {
    es == [] ||
    var n := |es| - 1;
    var (s, h, _) := NicRun(es[..n]);
    RunFits(es[..n]) && EventFits(es[n], s, h)
  }

  ghost predicate RunAllowed(es: seq<NicEvent>) {
    es == [] ||
    var n := |es| - 1;
    var (s, h, _) := NicRun(es[..n]);
    RunAllowed(es[..n]) && EventAllowed(es[n], s, h)
  }

  ghost predicate SamplesRight(samples: seq<(nat, Timespec)>, h: History) {
    forall i :: 0 <= i < |samples| ==>
                  samples[i].0 < |h.ends| && TimeOf(h.ends[samples[i].0], h.log) == Some(samples[i].1)
  }

  /**
   In every run the ring refines the per-request map, and every latency sample used the time of the first report
   that covers the last byte of the request it answers.
   */
  lemma {:induction false} NicRunRefines(es: seq<NicEvent>)
    requires RunFits(es)
    ensures var (s, h, samples) := NicRun(es); NicValid(s, h) && SamplesRight(samples, h)
  {
    hide TimeOf, Tracks, AnsweredBy, EventFits, Recorded, NicStep;
    if es == [] {
      StartTracks();
    } else {
      var n := |es| - 1;
      NicRunRefines(es[..n]);
      var (s, h, samples) := NicRun(es[..n]);
      StepKeepsTrack(s, h, es[n]);
      SamplesStayRight(samples, h, s, es[n]);
      NewSampleRight(s, h, es[n]);
    }
  }

  lemma NewSampleRight(s: Nic, h: History, ev: NicEvent)
    requires NicValid(s, h) && EventFits(ev, s, h)
    ensures ev.Answered? ==> ev.k > 0
    ensures var (s', t) := NicStep(s, ev);
            t.Some? ==> ev.Answered? && SamplesRight([(s.p.consumed + ev.k - 1, t.value)], Recorded(h, s, ev))
  {
    hide TimeOf, Tracks, AnsweredBy;
    if ev.Answered? {
      AnsweredKeepsTrack(s, h, ev.k, ev.late);
      TrackedCursors(s.p, h);
    }
  }

  lemma StartTracks()
    ensures NicValid(NicStart(), History([], []))
  {
  }

  lemma SamplesStayRight(samples: seq<(nat, Timespec)>, h: History, s: Nic, ev: NicEvent)
    requires SamplesRight(samples, h)
    ensures SamplesRight(samples, Recorded(h, s, ev))
  {
    var h' := Recorded(h, s, ev);
    forall i | 0 <= i < |samples|
      ensures samples[i].0 < |h'.ends| && TimeOf(h'.ends[samples[i].0], h'.log) == Some(samples[i].1)
    {
      var end := h.ends[samples[i].0];
      match ev
      case Sent(_) =>
      case ErrorQueue(r) => TimeOfAppend(end, h.log, r);
      case Answered(_, late) => if late.Some? { TimeOfAppend(end, h.log, late.value); }
    }
  }

  // Without the limit on waiting requests: a run within the window that takes a wrong time.

  function SlotsAfter(n: nat): (r: seq<TimestampInfo>)
    ensures |r| == MAX_PENDING_REQS
  {
    seq(MAX_PENDING_REQS, i requires 0 <= i => TimestampInfo(Timespec(0, 0), if i < n then i + 1 else 0))
  }

  function EndsAfter(n: nat): (r: seq<nat>)
    ensures |r| == n
  {
    seq(n, i requires 0 <= i => i + 1)
  }

  function Sends(n: nat): (r: seq<NicEvent>)
    ensures |r| == n
  {
    seq(n, _ => Sent(1))
  }

  lemma RunNext(es: seq<NicEvent>, e: NicEvent, s: Nic, h: History, samples: seq<(nat, Timespec)>)
    requires NicRun(es) == (s, h, samples) && RunAllowed(es) && EventAllowed(e, s, h)
    ensures s.p.WellFormed() && (e.Answered? ==> e.k > 0)
    ensures RunAllowed(es + [e])
    ensures var (s', t) := NicStep(s, e);
            NicRun(es + [e])
            == (s', Recorded(h, s, e), if t.Some? then samples + [(s.p.consumed + e.k - 1, t.value)] else samples)
  {
    hide NicStep, Recorded, EventAllowed;
    var all := es + [e];
    assert all[..|all| - 1] == es && all[|all| - 1] == e;
    assert e.Answered? ==> e.k > 0 by { AllowedPositive(e, s, h); }
  }

  lemma AllowedPositive(e: NicEvent, s: Nic, h: History)
    requires EventAllowed(e, s, h)
    ensures e.Answered? ==> e.k > 0
  {
  }

  function RingAfter(n: nat): (s: Nic)
    ensures s.p.WellFormed()
  {
    Nic(Pending(n, n, 0, 0, SlotsAfter(n)), n, 0)
  }

  lemma SendOne(n: nat)
    requires n < MAX_PENDING_REQS
    ensures AddPending(RingAfter(n).p, 1) == RingAfter(n + 1).p
  {
    assert AddPending(RingAfter(n).p, 1).slots == SlotsAfter(n + 1);
  }

  lemma NothingSent()
    ensures RunAllowed(Sends(0)) && NicRun(Sends(0)) == (RingAfter(0), History(EndsAfter(0), []), [])
  {
    assert SlotsAfter(0) == EMPTY.slots;
  }

  /** Up to 16 requests of one byte each. */
  lemma {:induction false} SendMany(n: nat)
    requires n <= MAX_PENDING_REQS
    ensures RunAllowed(Sends(n)) && NicRun(Sends(n)) == (RingAfter(n), History(EndsAfter(n), []), [])
  {
    hide RunAllowed, NicRun, EndsAfter, SlotsAfter, Sends, AddPending;
    if n == 0 {
      NothingSent();
    } else {
      SendMany(n - 1);
      SendOne(n - 1);
      RunNext(Sends(n - 1), Sent(1), RingAfter(n - 1), History(EndsAfter(n - 1), []), []);
      SendsNext(n - 1);
      EndsNext(n - 1);
    }
  }

  lemma SendsNext(n: nat)
    ensures Sends(n) + [Sent(1)] == Sends(n + 1)
  {
  }

  /** If all byte ends are covered, coalescing resolves every waiting request. */
  lemma {:induction false} CoalesceAll(p: Pending, opid: nat, t: Timespec)
    requires p.WellFormed() && p.tail <= p.head
    requires forall i :: 0 <= i < MAX_PENDING_REQS ==> p.slots[i].optid <= opid + 1
    ensures var q := Coalesce(p, opid, t);
            && q.WellFormed() && q.tail == p.head && q.byteCounter == p.byteCounter
            && (forall i :: 0 <= i < MAX_PENDING_REQS ==> q.slots[i] == p.slots[i] || q.slots[i].time == t)
            && (forall r :: p.tail <= r < p.head ==> q.At(r).time == t)
    decreases p.head - p.tail
  {
    if p.tail < p.head {
      var p1 := p.SetTime(p.tail, t).(tail := p.tail + 1);
      CoalesceAll(p1, opid, t);
      assert p1.At(p.tail).time == t;
    }
  }

  /** The ring after 16 requests, a lost response and one more request; the slot of request 0 is reused. */
  function FullRing(): (s: Nic)
    ensures s.p.WellFormed()
  {
    Nic(Pending(17, 17, 0, 1, SlotsAfter(MAX_PENDING_REQS)[0 := TimestampInfo(Timespec(0, 0), 17)]), 16, 0)
  }

  function FirstEvents(): seq<NicEvent> {
    Sends(MAX_PENDING_REQS) + [Answered(1, None)] + [Sent(1)]
  }

  lemma FirstEventsRun()
    ensures RunAllowed(FirstEvents()) && NicRun(FirstEvents()) == (FullRing(), History(EndsAfter(17), []), [])
  {
    hide RunAllowed, NicRun;
    var n := MAX_PENDING_REQS;
    SendMany(n);
    var es := Sends(n);
    var s, h := RingAfter(n), History(EndsAfter(n), []);
    RunNext(es, Answered(1, None), s, h, []);
    var s1 := Nic(Pending(n, n, 0, 1, SlotsAfter(n)), 15, 0);
    assert NicStep(s, Answered(1, None)) == (s1, None);
    RunNext(es + [Answered(1, None)], Sent(1), s1, h, []);
    assert EndsAfter(n) + [17] == EndsAfter(17);
  }

  /** The card reports the first 16 requests; because the oldest slot says 17, none of them is resolved. */
  lemma ReportLost(time: Timespec)
    requires time.sec != 0
    ensures ReportFits(Report(15, time), History(EndsAfter(17), []))
    ensures var s, p := FullRing(), FullRing().p;
            Reported(s, Report(15, time)) == s.(p := p.(slots := p.slots[0 := TimestampInfo(time, 17)]))
  {
    var r, dest := Report(15, time), FullRing().p.At(0);
    assert EndsAfter(17)[15] == 16;
    var m := Message(r);
    var first := m[..1];
    assert first == [HwTime(time)] && first[..0] == [];
    assert Extract(first[..0], dest, 0) == Extracted(true, -1, dest.time, 0);
    assert Extract(first, dest, 0) == Extracted(true, 1, time, 0);
    assert Extract(m, dest, 0) == Extracted(true, -1, time, 0);
  }

  /** The ring after the lost report, another lost response and one more request. */
  function LateRing(time: Timespec): (s: Nic)
    ensures s.p.WellFormed()
  {
    var slots := FullRing().p.slots[0 := TimestampInfo(time, 17)][1 := TimestampInfo(Timespec(0, 0), 18)];
    Nic(Pending(18, 18, 0, 2, slots), 16, 0)
  }

  function MiddleEvents(time: Timespec): seq<NicEvent> {
    FirstEvents() + [ErrorQueue(Report(15, time))] + [Answered(1, None)] + [Sent(1)]
  }

  lemma MiddleEventsRun(time: Timespec)
    requires time.sec != 0
    ensures RunAllowed(MiddleEvents(time))
    ensures NicRun(MiddleEvents(time)) == (LateRing(time), History(EndsAfter(18), [Report(15, time)]), [])
  {
    hide RunAllowed, NicRun, Reported, EndsAfter;
    FirstEventsRun();
    ReportLost(time);
    var s, h, r := FullRing(), History(EndsAfter(17), []), Report(15, time);
    RunNext(FirstEvents(), ErrorQueue(r), s, h, []);
    var s1, h1 := Reported(s, r), History(EndsAfter(17), [r]);
    assert [] + [r] == [r];
    RunNext(FirstEvents() + [ErrorQueue(r)], Answered(1, None), s1, h1, []);
    var s2 := s1.(p := s1.p.(consumed := 2), pendingReqs := 15);
    assert NicStep(s1, Answered(1, None)) == (s2, None);
    RunNext(FirstEvents() + [ErrorQueue(r)] + [Answered(1, None)], Sent(1), s2, h1, []);
    assert EndsAfter(17) + [18] == EndsAfter(18) by { EndsNext(17); }
    assert NicStep(s2, Sent(1)).0.p.slots == LateRing(time).p.slots;
  }

  lemma EndsNext(n: nat)
    ensures EndsAfter(n) + [n + 1] == EndsAfter(n + 1)
  {
  }

  /** The next report resolves everything, requests that were timed long before included. */
  lemma ReportTooLate(t15: Timespec, t17: Timespec)
    requires t17.sec != 0
    ensures var s := Reported(LateRing(t15), Report(17, t17));
            && s.p.consumed == 2 && s.p.tail == 18 && s.p.head == 18 && s.pendingReqs == 16
            && s.p.At(2).time == t17
  {
    var s := LateRing(t15);
    ExtractMessage(Report(17, t17), s.p.At(0), 0);
    var p1 := s.p.SetTime(0, t17).(tail := 1);
    CoalesceAll(p1, 17, t17);
  }

  /**
   Within the window, with whole and ordered reports and responses in order, a sample can take a wrong time: request 2
   is covered by the report of 16 bytes but gets the time of the later one.
   */
  lemma WrongSampleWithinWindow(t15: Timespec, t17: Timespec)
    requires t15.sec != 0 && t17.sec != 0
    ensures var es := MiddleEvents(t15) + [ErrorQueue(Report(17, t17))] + [Answered(1, None)];
            var (_, h, samples) := NicRun(es);
            && RunAllowed(es)
            && samples == [(2, t17)]
            && |h.ends| == 18 && TimeOf(h.ends[2], h.log) == Some(t15)
  {
    hide RunAllowed, NicRun, Reported, MiddleEvents;
    MiddleEventsRun(t15);
    ReportTooLate(t15, t17);
    var s, h, r := LateRing(t15), History(EndsAfter(18), [Report(15, t15)]), Report(17, t17);
    assert EndsAfter(18)[17] == 18;
    RunNext(MiddleEvents(t15), ErrorQueue(r), s, h, []);
    var s1, h1 := Reported(s, r), History(EndsAfter(18), [Report(15, t15)] + [r]);
    RunNext(MiddleEvents(t15) + [ErrorQueue(r)], Answered(1, None), s1, h1, []);
    TimeOfAppend(3, [], Report(15, t15));
    assert [] + [Report(15, t15)] == [Report(15, t15)];
    TimeOfAppend(3, [Report(15, t15)], r);
  }

  /** The receive step in the card's mode, on the structure; `late` is what the error queue would yield. */
  method NicReceive(ts: PendingTx, k: nat, late: Option<Report>, opid: nat) returns (t: Option<Timespec>)
    requires ts.Valid() && 0 < k && ts.consumed + k <= ts.head
    modifies ts, ts.pending
    ensures var s := Nic(old(ts.State()), 0, opid);
            (ts.State(), t) == (AnsweredBy(s, k, late).0.p, AnsweredBy(s, k, late).1)
  {
    hide Extract, Notify;
    if k > 1 {
      ts.Skip(k - 1);
    }
    t := ts.PopTimestamp();
    if t == None {
      if late.Some? {
        MessageNeverAsserts(late.value, ts.State().At(ts.tail), opid);
      }
      var n, recorded := ts.GetTxTimestamp(if late.Some? then Some(Message(late.value)) else None, opid);
      t := ts.PopTimestamp();
      if t == None {
        ts.consumed := ts.consumed + 1;
      }
    }
  }

  // Timing in user space: the ring against an unbounded queue.

  datatype User = User(p: Pending, pendingReqs: int)

  datatype UserEvent = Stamped(time: Timespec) | Replied(k: nat)

  /** The send and receive steps of the symmetric loop; an absent time would be a null pointer. */
  function UserStep(s: User, ev: UserEvent): (r: (User, Option<Timespec>))
    requires s.p.WellFormed()
    ensures r.0.p.WellFormed()
  {
    match ev
    case Stamped(t) => (User(PushComplete(s.p, t), s.pendingReqs + 1), None)
    case Replied(k) =>
      var (p, t) := Pop(BlindSkip(s.p, k - 1));
      (User(p, s.pendingReqs - k), t)
  }

  /** The queue of the times of all outstanding requests. */
  function FifoStep(queue: seq<Timespec>, ev: UserEvent): (seq<Timespec>, Option<Timespec>) {
    match ev
    case Stamped(t) => (queue + [t], None)
    case Replied(k) => if 1 <= k <= |queue| then (queue[k..], Some(queue[k - 1])) else (queue, None)
  }

  ghost predicate UserValid(s: User, queue: seq<Timespec>) {
    && s.p.WellFormed()
    && s.p.head == s.p.tail
    && s.p.head - s.p.consumed == s.pendingReqs == |queue| <= MAX_PENDING_REQS
    && forall i :: 0 <= i < |queue| ==> s.p.At(s.p.consumed + i).time == queue[i]
  }

  /** A connection is picked below its window, and there are no more responses than requests. */
  predicate UserFits(s: User, ev: UserEvent) {
    match ev
    case Stamped(_) => s.pendingReqs < MAX_PENDING_REQS
    case Replied(k) => 1 <= k <= s.pendingReqs
  }

  lemma StampRefines(s: User, queue: seq<Timespec>, t: Timespec)
    requires UserValid(s, queue) && s.pendingReqs < MAX_PENDING_REQS
    ensures UserValid(UserStep(s, Stamped(t)).0, queue + [t])
  {
    var p := PushComplete(s.p, t);
    forall i | 0 <= i < |queue| ensures p.At(s.p.consumed + i).time == queue[i] {
      SlotsDiffer(s.p.consumed + i, s.p.tail);
    }
  }

  lemma ReplyRefines(s: User, queue: seq<Timespec>, k: nat)
    requires UserValid(s, queue) && 1 <= k <= s.pendingReqs
    ensures UserValid(UserStep(s, Replied(k)).0, queue[k..]) && UserStep(s, Replied(k)).1 == Some(queue[k - 1])
  {
    assert s.p.At(s.p.consumed + (k - 1)).time == queue[k - 1];
    forall i | 0 <= i < |queue| - k ensures s.p.At(s.p.consumed + k + i).time == queue[k..][i] {
      assert s.p.At(s.p.consumed + (k + i)).time == queue[k + i];
    }
  }

  /** Every step agrees with the queue: no live slot is overwritten, and a reply always finds its time. */
  lemma UserStepRefines(s: User, queue: seq<Timespec>, ev: UserEvent)
    requires UserValid(s, queue) && UserFits(s, ev)
    ensures var (s', t) := UserStep(s, ev);
            var (queue', t') := FifoStep(queue, ev);
            UserValid(s', queue') && t == t' && (ev.Replied? ==> t.Some?)
  {
    hide UserValid;
    assert |queue| == s.pendingReqs by { QueueLength(s, queue); }
    match ev
    case Stamped(t) => StampRefines(s, queue, t);
    case Replied(k) => ReplyRefines(s, queue, k);
  }

  lemma QueueLength(s: User, queue: seq<Timespec>)
    requires UserValid(s, queue)
    ensures |queue| == s.pendingReqs
  {
  }

  ghost function UserRun(es: seq<UserEvent>): (r: (User, seq<Option<Timespec>>))
    ensures r.0.p.WellFormed()
  {
    if es == [] then (User(EMPTY, 0), [])
    else
      var n := |es| - 1;
      var (s, out) := UserRun(es[..n]);
      var (s', t) := UserStep(s, es[n]);
      (s', out + [t])
  }

  ghost function FifoRun(es: seq<UserEvent>): (seq<Timespec>, seq<Option<Timespec>>) {
    if es == [] then ([], [])
    else
      var n := |es| - 1;
      var (queue, out) := FifoRun(es[..n]);
      var (queue', t) := FifoStep(queue, es[n]);
      (queue', out + [t])
  }

  ghost predicate UserRunFits(es: seq<UserEvent>) {
    es == [] ||
    var n := |es| - 1;
    UserRunFits(es[..n]) && UserFits(UserRun(es[..n]).0, es[n])
  }

  /** In every run the ring of 16 slots answers exactly like an unbounded queue. */
  lemma {:induction false} UserRunRefinesFifo(es: seq<UserEvent>)
    requires UserRunFits(es)
    ensures UserValid(UserRun(es).0, FifoRun(es).0)
    ensures UserRun(es).1 == FifoRun(es).1
  {
    if es != [] {
      var n := |es| - 1;
      UserRunRefinesFifo(es[..n]);
      UserStepRefines(UserRun(es[..n]).0, FifoRun(es[..n]).0, es[n]);
    }
  }

  /** The receive step in user space, on the structure. */
  method UserReceive(ts: PendingTx, k: nat) returns (t: Option<Timespec>)
    requires ts.Valid() && 0 < k && ts.consumed + k - 1 <= ts.head
    modifies ts
    ensures var s := User(old(ts.State()), k);
            (ts.State(), t) == (UserStep(s, Replied(k)).0.p, UserStep(s, Replied(k)).1)
  {
    if k > 1 {
      ts.Skip(k - 1);
    }
    t := ts.PopTimestamp();
  }
}
