/** The send and receive steps of the symmetric loops: framing, window, time-stamp ring and latency sample together. */
module SymmetricThread {
  import opened Numeric
  import opened Comparators
  import opened ThreadStats
  import opened Timestamping
  import opened Framing
  import InterArrival
  import LoadThread
  import TimestampRuns

  /** The difference of two times is exact in nanoseconds, normalised or not. */
  lemma DiffNanos(a: Timespec, b: Timespec)
    requires a.sec != 0 && b.sec != 0
    ensures var d := InterArrival.TimespecDiff(Some(a), Some(b));
            d.Some? && InterArrival.Nanos(d.value) == InterArrival.Nanos(a) - InterArrival.Nanos(b)
  {
  }

  /** What a batch of responses adds to the samples: the time since its request was sent, if both times are known. */
  ghost predicate Sampled(before: seq<LatSample>, after: seq<LatSample>, taken: bool, now: Timespec,
                          sent: Option<Timespec>)
  {
    if taken && now.sec != 0 && sent.Some? && sent.value.sec != 0 then
      var latency := InterArrival.Nanos(now) - InterArrival.Nanos(sent.value);
      after == before + [LatSample(ToUint64(latency), sent.value)]
    else
      after == before
  }

  /** The end of the receive step; `wholeSecond` tells whether a second or more fails an assertion, as in user space. */
  method TakeSample(stats: Stats, measuring: bool, draw: real, rate: real, cap: nat, now: Timespec,
                    sent: Option<Timespec>, wholeSecond: bool)
    returns (ok: bool)
    requires stats.Valid(cap)
    modifies stats`count, stats`size, stats`history, stats.samples
    ensures stats.Valid(cap)
    ensures ok ==> Sampled(old(stats.history), stats.history, measuring && draw <= rate, now, sent)
    ensures !ok <==> wholeSecond && now.sec != 0 && sent.Some? && sent.value.sec != 0
                     && InterArrival.TimespecDiff(Some(now), sent).value.sec != 0
  {
    var latency := InterArrival.TimespecDiff(Some(now), sent);
    if latency.None? {
      return true;
    }
    DiffNanos(now, sent.value);
    if wholeSecond && latency.value.sec != 0 {
      return false;
    }
    ghost var before := stats.history;
    var diff := latency.value.nsec + latency.value.sec * InterArrival.BILLION;
    stats.AddLatencySample(measuring, draw, rate, cap, diff, sent);
    if measuring && draw <= rate {
      assert stats.history == before + [stats.history[|before|]];
    }
    return true;
  }

  /** The responses of one chunk, as `process_response` will count them. */
  function Responses(c: Connection, data: seq<byte>, proto: Proto): nat
    requires proto.Supported()
    reads c
  {
    WholeMessages(c.bufferIdx + |data|, proto.MessageLength()).reqs
  }

  // Timing in user space.

  /** One count of outstanding requests links the window, the ring, and the queue of transmission times. */
  ghost predicate UserLinked(t: LoadThread.Thread, idx: nat, ts: PendingTx, queue: seq<Timespec>)
    reads t, t.conns, ts, ts.pending
  {
    && ts.Valid() && idx < |t.conns|
    && TimestampRuns.UserValid(TimestampRuns.User(ts.State(), t.conns[idx].pendingReqs), queue)
  }

  /** The send step of `symmetric_tcp_main`. */
  method UserSend(t: LoadThread.Thread, idx: nat, ts: PendingTx, txs: TxSamples, bytes: nat, now: Timespec,
                  measuring: bool, ghost w: LoadThread.Window, ghost queue: seq<Timespec>)
    requires t.Valid() && t.Shows(w) && measuring == w.measuring && txs.Valid()
    requires LoadThread.CanSend(w, idx) && UserLinked(t, idx, ts, queue)
    modifies t.conns[idx], t`availReqs, t.stats`tx, ts, ts.pending, txs, txs.samples
    ensures t.Valid() && t.Shows(LoadThread.Step(w, LoadThread.Send(idx, bytes)))
    ensures UserLinked(t, idx, ts, queue + [now])
    ensures txs.Valid() && txs.history == if measuring then old(txs.history) + [now] else old(txs.history)
  {
    hide TimestampRuns.UserValid, PushComplete;
    ghost var s := TimestampRuns.User(ts.State(), t.conns[idx].pendingReqs);
    TimestampRuns.UserStepRefines(s, queue, TimestampRuns.Stamped(now));
    var recorded := ts.Push(now);
    txs.AddTxTimestamp(measuring, recorded);
    t.SendOn(idx, bytes, w, measuring);
  }

  /**
   The receive step of `symmetric_tcp_main` on a non-empty chunk; no result if the thread aborts. The sample is the time
   from the transmission of exactly the last request answered to now.
   */
  method UserReceive(t: LoadThread.Thread, idx: nat, ts: PendingTx, data: seq<byte>, proto: Proto, now: Timespec,
                     measuring: bool, draw: real, rate: real, cap: nat, ghost w: LoadThread.Window,
                     ghost queue: seq<Timespec>)
    returns (r: Option<ByteReqPair>)
    requires t.Valid() && t.Shows(w) && measuring == w.measuring && UserLinked(t, idx, ts, queue)
    requires t.stats.Valid(cap) && proto.Supported() && data != [] && |data| <= MAX_PAYLOAD - t.conns[idx].bufferIdx
    requires Responses(t.conns[idx], data, proto) <= t.conns[idx].pendingReqs
    modifies t.conns[idx], t.conns[idx].buffer, t`availReqs, t.stats, t.stats.samples, ts
    ensures r.Some? ==>
              && 1 <= r.value.reqs <= |queue|
              && t.Valid() && t.stats.Valid(cap)
              && t.Shows(LoadThread.Step(w, LoadThread.Respond(idx, r.value.reqs, r.value.bytes)))
              && UserLinked(t, idx, ts, queue[r.value.reqs..])
              && Sampled(old(t.stats.history), t.stats.history, measuring && draw <= rate, now,
                         Some(queue[r.value.reqs - 1]))
  {
    hide TimestampRuns.UserValid, TimestampRuns.UserStep, Sampled;
    ghost var s := TimestampRuns.User(ts.State(), t.conns[idx].pendingReqs);
    r := t.ReceiveOn(idx, data, proto, true, w, measuring);
    if r.None? {
      return;
    }
    var k := r.value.reqs;
    assert t.conns[idx].pendingReqs == s.pendingReqs - k;
    TimestampRuns.QueueLength(s, queue);
    TimestampRuns.ReplyRefines(s, queue, k);
    UserCursors(s, queue);
    var sent := TimestampRuns.UserReceive(ts, k);
    UserPendingIrrelevant(s, k);
    var ok := TakeSample(t.stats, measuring, draw, rate, cap, now, sent, true);
    if !ok {
      return None;
    }
  }

  lemma UserCursors(s: TimestampRuns.User, queue: seq<Timespec>)
    requires TimestampRuns.UserValid(s, queue)
    ensures s.p.consumed + s.pendingReqs == s.p.head
  {
  }

  /** The ring does not depend on the count of outstanding requests. */
  lemma UserPendingIrrelevant(s: TimestampRuns.User, k: nat)
    requires s.p.WellFormed()
    ensures var (a, x) := TimestampRuns.UserStep(s, TimestampRuns.Replied(k));
            var (b, y) := TimestampRuns.UserStep(s.(pendingReqs := k), TimestampRuns.Replied(k));
            a.p == b.p && x == y && a.pendingReqs == s.pendingReqs - k
  {
  }

  // Timing by the network card.

  ghost predicate NicLinked(t: LoadThread.Thread, idx: nat, ts: PendingTx, h: TimestampRuns.History)
    reads t, t.conns, ts, ts.pending
  {
    && ts.Valid() && idx < |t.conns|
    && TimestampRuns.NicValid(TimestampRuns.Nic(ts.State(), t.conns[idx].pendingReqs, 0), h)
  }

  /** The send step of `symmetric_nic_tcp_main`, while fewer than 16 requests wait for their time. */
  method NicSend(t: LoadThread.Thread, idx: nat, ts: PendingTx, bytes: nat, measuring: bool,
                 ghost w: LoadThread.Window, ghost h: TimestampRuns.History)
    requires t.Valid() && t.Shows(w) && measuring == w.measuring && bytes > 0
    requires LoadThread.CanSend(w, idx) && NicLinked(t, idx, ts, h)
    requires ts.head - ts.tail < MAX_PENDING_REQS
    modifies t.conns[idx], t`availReqs, t.stats`tx, ts, ts.pending
    ensures t.Valid() && t.Shows(LoadThread.Step(w, LoadThread.Send(idx, bytes)))
    ensures NicLinked(t, idx, ts, TimestampRuns.History(h.ends + [old(ts.txByteCounter) + bytes], h.log))
  {
    hide TimestampRuns.Tracks;
    TimestampRuns.AddKeepsTrack(ts.State(), h, bytes);
    ts.Add(bytes);
    t.SendOn(idx, bytes, w, measuring);
  }

  /**
   The receive step of `symmetric_nic_tcp_main` on a non-empty chunk; `now` is the card's time of the chunk, `late` what
   the error queue would yield. The sample is the time from the first report that covers the last request answered, if
   there is one by then.
   */
  method NicReceive(t: LoadThread.Thread, idx: nat, ts: PendingTx, data: seq<byte>, proto: Proto, now: Timespec,
                    late: Option<TimestampRuns.Report>, opid: nat, measuring: bool, draw: real, rate: real, cap: nat,
                    ghost w: LoadThread.Window, ghost h: TimestampRuns.History)
    returns (r: Option<ByteReqPair>)
    requires t.Valid() && t.Shows(w) && measuring == w.measuring && NicLinked(t, idx, ts, h)
    requires t.stats.Valid(cap) && proto.Supported() && data != [] && |data| <= MAX_PAYLOAD - t.conns[idx].bufferIdx
    requires Responses(t.conns[idx], data, proto) <= t.conns[idx].pendingReqs
    requires late.Some? ==> TimestampRuns.ReportFits(late.value, h)
    modifies t.conns[idx], t.conns[idx].buffer, t`availReqs, t.stats, t.stats.samples, ts, ts.pending
    ensures r.Some? ==>
              var s := TimestampRuns.Nic(old(ts.State()), old(t.conns[idx].pendingReqs), opid);
              var h' := TimestampRuns.Recorded(h, s, TimestampRuns.Answered(r.value.reqs, late));
              var last := s.p.consumed + r.value.reqs - 1;
              && r.value.reqs >= 1 && last < |h'.ends|
              && t.Valid() && t.stats.Valid(cap)
              && t.Shows(LoadThread.Step(w, LoadThread.Respond(idx, r.value.reqs, r.value.bytes)))
              && NicLinked(t, idx, ts, h')
              && Sampled(old(t.stats.history), t.stats.history, measuring && draw <= rate, now,
                         TimestampRuns.TimeOf(h'.ends[last], h'.log))
  {
    hide TimestampRuns.Tracks, TimestampRuns.AnsweredBy, TimestampRuns.TimeOf, Sampled, TimestampRuns.ReportFits;
    ghost var s := TimestampRuns.Nic(ts.State(), t.conns[idx].pendingReqs, opid);
    TimestampRuns.TrackedCursors(s.p, h);
    r := t.ReceiveOn(idx, data, proto, true, w, measuring);
    if r.None? {
      return;
    }
    var k := r.value.reqs;
    assert t.conns[idx].pendingReqs == s.pendingReqs - k;
    TimestampRuns.AnsweredKeepsTrack(s, h, k, late);
    NicPendingIrrelevant(s, k, late);
    var sent := TimestampRuns.NicReceive(ts, k, late, opid);
    var ok := TakeSample(t.stats, measuring, draw, rate, cap, now, sent, false);
  }

  lemma NicPendingIrrelevant(s: TimestampRuns.Nic, k: nat, late: Option<TimestampRuns.Report>)
    requires s.p.WellFormed() && k > 0
    ensures var (a, x) := TimestampRuns.AnsweredBy(s, k, late);
            var (b, y) := TimestampRuns.AnsweredBy(s.(pendingReqs := 0), k, late);
            a.p == b.p && x == y && a.pendingReqs == s.pendingReqs - k
  {
    hide Extract, Notify;
  }
}
