/** The window of outstanding requests of a load thread, and the accounting of a measurement. */
module LoadThread {
  import opened Numeric
  import opened Timestamping
  import opened Framing
  import opened ThreadStats

  /** What the thread knows of its connections, and what its counters say since they were cleared. */
  datatype Window = Window(pending: seq<int>, closed: seq<bool>, avail: int, measuring: bool, tx: ByteReqPair,
                           rx: ByteReqPair)

  datatype Event =
    | Send(conn: nat, bytes: nat)
    | Respond(conn: nat, reqs: nat, bytes: nat)
    | Close(conn: nat)
    | StartMeasure
    | StopMeasure

  function Step(w: Window, ev: Event): Window {
    match ev
    case Send(i, bytes) =>
      if i < |w.pending| then
        w.(pending := w.pending[i := w.pending[i] + 1], avail := w.avail - 1,
           tx := if w.measuring then ByteReqPair(w.tx.bytes + bytes, w.tx.reqs + 1) else w.tx)
      else w
    case Respond(i, reqs, bytes) =>
      if i < |w.pending| then
        w.(pending := w.pending[i := w.pending[i] - reqs], avail := w.avail + reqs,
           rx := if w.measuring then ByteReqPair(w.rx.bytes + bytes, w.rx.reqs + reqs) else w.rx)
      else w
    case Close(i) => if i < |w.closed| then w.(closed := w.closed[i := true]) else w
    case StartMeasure => w.(measuring := true, tx := NOTHING, rx := NOTHING)
    case StopMeasure => w.(measuring := false)
  }

  /** An open connection below its window of 16 requests. */
  predicate CanSend(w: Window, i: nat) {
    i < |w.pending| && i < |w.closed| && w.pending[i] < 16 && !w.closed[i]
  }

  /** Only a connection that can send is picked; a response batch answers outstanding requests. */
  predicate Enabled(w: Window, ev: Event) {
    match ev
    case Send(i, _) => CanSend(w, i)
    case Respond(i, reqs, _) => i < |w.pending| && 1 <= reqs <= w.pending[i]
    case Close(i) => i < |w.closed|
    case StartMeasure => true
    case StopMeasure => true
  }

  lemma {:induction false} SumUpdate(s: seq<int>, i: nat, v: int)
    requires i < |s|
    ensures Sum(s[i := v]) == Sum(s) - s[i] + v
  {
    var n := |s| - 1;
    if i < n {
      SumUpdate(s[..n], i, v);
      assert s[i := v][..n] == s[..n][i := v];
    } else {
      assert s[i := v][..n] == s[..n];
    }
  }

  lemma {:induction false} SumBounds(s: seq<int>, cap: int)
    requires forall i :: 0 <= i < |s| ==> s[i] <= cap
    ensures Sum(s) <= |s| * cap
    ensures Sum(s) == |s| * cap <==> forall i :: 0 <= i < |s| ==> s[i] == cap
  {
    if s != [] {
      var n := |s| - 1;
      SumBounds(s[..n], cap);
      assert |s| * cap == n * cap + cap;
      assert (forall i :: 0 <= i < |s| ==> s[i] == cap) <==>
             (forall i :: 0 <= i < n ==> s[..n][i] == cap) && s[n] == cap;
    } else {
      assert |s| * cap == 0;
    }
  }

  /** Free and used window slots add up, each connection stays within its window. */
  ghost predicate Conserved(w: Window) {
    |w.closed| == |w.pending| && Balanced(w.pending, w.avail)
  }

  ghost predicate Balanced(pending: seq<int>, avail: int) {
    && avail + Sum(pending) == |pending| * 16
    && forall i :: 0 <= i < |pending| ==> 0 <= pending[i] <= 16
  }

  lemma BalancedUpdate(pending: seq<int>, avail: int, i: nat, v: int)
    requires Balanced(pending, avail) && i < |pending| && 0 <= v <= MAX_PENDING_REQS
    ensures Balanced(pending[i := v], avail + pending[i] - v)
  {
    SumUpdate(pending, i, v);
  }

  lemma StepConserves(w: Window, ev: Event)
    requires Conserved(w) && Enabled(w, ev)
    ensures Conserved(Step(w, ev))
  {
    hide Balanced;
    match ev
    case Send(i, _) => WithinWindow(w, i); BalancedUpdate(w.pending, w.avail, i, w.pending[i] + 1);
    case Respond(i, reqs, _) => WithinWindow(w, i); BalancedUpdate(w.pending, w.avail, i, w.pending[i] - reqs);
    case _ =>
  }

  lemma WithinWindow(w: Window, i: nat)
    requires Conserved(w) && i < |w.pending|
    ensures 0 <= w.pending[i] <= MAX_PENDING_REQS
  {
  }

  /** The thread stops sending exactly when every connection is full. */
  lemma NoSlotsIffAllFull(w: Window)
    requires Conserved(w)
    ensures w.avail >= 0
    ensures w.avail == 0 <==> forall i :: 0 <= i < |w.pending| ==> w.pending[i] == MAX_PENDING_REQS
  {
    SumBounds(w.pending, MAX_PENDING_REQS);
  }

  ghost function Run(w: Window, es: seq<Event>): Window {
    if es == [] then w else Step(Run(w, es[..|es| - 1]), es[|es| - 1])
  }

  ghost predicate RunEnabled(w: Window, es: seq<Event>) {
    es == [] || (RunEnabled(w, es[..|es| - 1]) && Enabled(Run(w, es[..|es| - 1]), es[|es| - 1]))
  }

  lemma {:induction false} RunConserves(w: Window, es: seq<Event>)
    requires Conserved(w) && RunEnabled(w, es)
    ensures Conserved(Run(w, es)) && |Run(w, es).pending| == |w.pending|
  {
    if es != [] {
      RunConserves(w, es[..|es| - 1]);
      StepConserves(Run(w, es[..|es| - 1]), es[|es| - 1]);
    }
  }

  /** No measurement starts or stops in these events. */
  predicate Uninterrupted(es: seq<Event>) {
    forall i :: 0 <= i < |es| ==> es[i] != StartMeasure && es[i] != StopMeasure
  }

  /** Sent minus received during a measurement is the change of the outstanding requests. */
  lemma {:induction false} AccountingHolds(w: Window, es: seq<Event>)
    requires Conserved(w) && w.measuring && RunEnabled(w, es) && Uninterrupted(es)
    ensures var w' := Run(w, es);
            && w'.measuring
            && w'.tx.reqs - w'.rx.reqs == w.tx.reqs - w.rx.reqs + Sum(w'.pending) - Sum(w.pending)
  {
    if es != [] {
      hide Sum, Step, Conserved;
      var n := |es| - 1;
      assert Uninterrupted(es[..n]);
      AccountingHolds(w, es[..n]);
      AccountingStep(Run(w, es[..n]), es[n]);
    }
  }

  lemma AccountingStep(u: Window, ev: Event)
    requires u.measuring && Enabled(u, ev) && ev != StartMeasure && ev != StopMeasure
    ensures var w := Step(u, ev);
            w.measuring && w.tx.reqs - w.rx.reqs == u.tx.reqs - u.rx.reqs + Sum(w.pending) - Sum(u.pending)
  {
    match ev
    case Send(i, _) => SumUpdate(u.pending, i, u.pending[i] + 1);
    case Respond(i, reqs, _) => SumUpdate(u.pending, i, u.pending[i] - reqs);
    case _ =>
  }

  /** The counters a report reads: those of the last measurement, whatever preceded its start. */
  lemma MeasurementAccounting(w: Window, es: seq<Event>)
    requires Conserved(w) && RunEnabled(Step(w, StartMeasure), es) && Uninterrupted(es)
    ensures var w' := Run(Step(w, StartMeasure), es);
            && w'.tx.reqs - w'.rx.reqs == Sum(w'.pending) - Sum(w.pending)
            && Step(w', StopMeasure).tx == w'.tx && Step(w', StopMeasure).rx == w'.rx
  {
    AccountingHolds(Step(w, StartMeasure), es);
  }

  // What the counters count.

  function SentBytes(ev: Event): int {
    if ev.Send? then ev.bytes else 0
  }

  function SentReqs(ev: Event): int {
    if ev.Send? then 1 else 0
  }

  function ReceivedBytes(ev: Event): int {
    if ev.Respond? then ev.bytes else 0
  }

  function ReceivedReqs(ev: Event): int {
    if ev.Respond? then ev.reqs else 0
  }

  /** The counters are those of the sends and response batches in one run. */
  ghost predicate CountsRun(rx: ByteReqPair, tx: ByteReqPair, es: seq<Event>) {
    && tx.bytes == SumOver(es, SentBytes) && tx.reqs == SumOver(es, SentReqs)
    && rx.bytes == SumOver(es, ReceivedBytes) && rx.reqs == SumOver(es, ReceivedReqs)
  }

  /** From the clear on, the counters are those of the sends and of the response batches since. */
  lemma {:induction false} CountersCount(w: Window, es: seq<Event>)
    requires RunEnabled(Step(w, StartMeasure), es) && Uninterrupted(es)
    ensures var w' := Run(Step(w, StartMeasure), es);
            w'.measuring && CountsRun(w'.rx, w'.tx, es)
  {
    if es != [] {
      var n := |es| - 1;
      assert Uninterrupted(es[..n]);
      CountersCount(w, es[..n]);
      CountStep(Run(Step(w, StartMeasure), es[..n]), es[n]);
    }
  }

  lemma CountStep(u: Window, ev: Event)
    requires u.measuring && Enabled(u, ev) && ev != StartMeasure && ev != StopMeasure
    ensures var w := Step(u, ev);
            && w.measuring
            && w.tx.bytes == u.tx.bytes + SentBytes(ev) && w.tx.reqs == u.tx.reqs + SentReqs(ev)
            && w.rx.bytes == u.rx.bytes + ReceivedBytes(ev) && w.rx.reqs == u.rx.reqs + ReceivedReqs(ev)
  {
  }

  /** The law survives the aggregation over all threads, each with its own interleaving. */
  lemma {:induction false} AggregateAccounting(starts: seq<Window>, runs: seq<seq<Event>>, ends: seq<Window>)
    requires |starts| == |runs| == |ends|
    requires forall i :: 0 <= i < |starts| ==>
               && Conserved(starts[i]) && RunEnabled(Step(starts[i], StartMeasure), runs[i]) && Uninterrupted(runs[i])
               && ends[i] == Run(Step(starts[i], StartMeasure), runs[i])
    ensures SumOver(ends, (w: Window) => w.tx.reqs) - SumOver(ends, (w: Window) => w.rx.reqs)
         == SumOver(ends, (w: Window) => Sum(w.pending)) - SumOver(starts, (w: Window) => Sum(w.pending))
  {
    if starts != [] {
      var n := |starts| - 1;
      AggregateAccounting(starts[..n], runs[..n], ends[..n]);
      MeasurementAccounting(starts[n], runs[n]);
    }
  }

  /** The thread itself. */
  class Thread {
    const conns: seq<Connection>
    var availReqs: int
    const stats: Stats

    ghost predicate Valid()
      reads this, conns
    {
      && (forall i :: 0 <= i < |conns| ==> conns[i].Valid())
      && (forall i, j :: 0 <= i < j < |conns| ==> conns[i] != conns[j] && conns[i].buffer != conns[j].buffer)
    }

    /** The objects a window of the thread depends on. */
    ghost function Frame(): (r: set<object>)
      ensures this in r && stats in r && forall c :: c in conns ==> c in r
    {
      {this, stats} + set c | c in conns
    }

    /** `w` is the thread's window now. */
    ghost predicate Shows(w: Window)
      reads Frame()
    {
      && |w.pending| == |w.closed| == |conns|
      && (forall i :: 0 <= i < |conns| ==> w.pending[i] == conns[i].pendingReqs && w.closed[i] == conns[i].closed)
      && w.avail == availReqs && w.tx == stats.tx && w.rx == stats.rx
    }

    constructor (conns: seq<Connection>, stats: Stats, ghost w: Window)
      requires forall i :: 0 <= i < |conns| ==> conns[i].Valid()
      requires forall i, j :: 0 <= i < j < |conns| ==> conns[i] != conns[j] && conns[i].buffer != conns[j].buffer
      requires |w.pending| == |w.closed| == |conns| && w.avail == |conns| * MAX_PENDING_REQS
      requires forall i :: 0 <= i < |conns| ==>
                 w.pending[i] == conns[i].pendingReqs == 0 && w.closed[i] == conns[i].closed
      requires w.tx == stats.tx && w.rx == stats.rx
      ensures Valid() && this.conns == conns && this.stats == stats
      ensures Shows(w) && Conserved(w)
    {
      this.conns := conns;
      this.stats := stats;
      availReqs := |conns| * MAX_PENDING_REQS;
      ZeroSum(w.pending);
    }

    /** `pick_conn`: up to ten random picks; `draws` are the random numbers. */
    method PickConn(draws: seq<nat>, ghost w: Window) returns (idx: Option<nat>)
      requires |conns| > 0 && |draws| == 10 && Shows(w)
      ensures idx.Some? ==>
                exists i :: 0 <= i < 10 && idx.value == draws[i] % |conns| && CanSend(w, idx.value)
                            && forall j :: 0 <= j < i ==> !CanSend(w, draws[j] % |conns|)
      ensures idx.None? ==> forall i :: 0 <= i < 10 ==> !CanSend(w, draws[i] % |conns|)
    {
      for i := 0 to 10
        invariant forall j :: 0 <= j < i ==> !CanSend(w, draws[j] % |conns|)
      {
        var k := draws[i] % |conns|;
        var c := conns[k];
        assert w.pending[k] == c.pendingReqs && w.closed[k] == c.closed;
        if c.pendingReqs < MAX_PENDING_REQS && !c.closed {
          return Some(k);
        }
      }
      idx := None;
    }

    /** The send step after a complete `writev` of `bytes` bytes. */
    method SendOn(idx: nat, bytes: nat, ghost w: Window, measuring: bool)
      requires Valid() && idx < |conns| && Shows(w) && measuring == w.measuring
      modifies conns[idx], this`availReqs, stats`tx
      ensures Valid() && Shows(Step(w, Send(idx, bytes)))
    {
      var c := conns[idx];
      c.pendingReqs := c.pendingReqs + 1;
      availReqs := availReqs - 1;
      stats.AddThroughputTx(measuring, ByteReqPair(bytes, 1));
    }

    /** The part of `clear_all_stats` for this thread, after which its counters are those of a new measurement. */
    method StartMeasuring(ghost w: Window)
      requires Valid() && Shows(w)
      modifies stats
      ensures Valid() && Shows(Step(w, StartMeasure))
    {
      stats.Clear();
    }

    /** The receive step: an empty chunk closes the connection; no result if the thread aborts. */
    method ReceiveOn(idx: nat, data: seq<byte>, proto: Proto, wholeOnly: bool, ghost w: Window, measuring: bool)
      returns (r: Option<ByteReqPair>)
      requires Valid() && idx < |conns| && proto.Supported() && Shows(w) && measuring == w.measuring
      requires |data| <= MAX_PAYLOAD - conns[idx].bufferIdx
      modifies conns[idx], conns[idx].buffer, this`availReqs, stats`rx
      ensures data == [] ==> Valid() && Shows(Step(w, Close(idx)))
      ensures data != [] && r.Some? ==>
                && Valid() && r.value.reqs >= 1 && Shows(Step(w, Respond(idx, r.value.reqs, r.value.bytes)))
                && r.value == WholeMessages(old(conns[idx].bufferIdx) + |data|, proto.MessageLength())
    {
      var c := conns[idx];
      if data == [] {
        c.closed := true;
        return None;
      }
      WholeMessagesSplit(c.bufferIdx + |data|, proto.MessageLength());
      r := c.Receive(data, proto, wholeOnly);
      if r.None? {
        return;
      }
      availReqs := availReqs + r.value.reqs;
      stats.AddThroughputRx(measuring, r.value);
    }
  }

  // The counters the manager reports.

  function StatsOf(threads: seq<Thread>): (r: seq<Stats>)
    ensures |r| == |threads| && forall i :: 0 <= i < |r| ==> r[i] == threads[i].stats
  {
    seq(|threads|, i requires 0 <= i < |threads| => threads[i].stats)
  }

  /** The window at the end of a measurement, just before it is stopped. */
  ghost function EndOf(start: Window, run: seq<Event>): Window {
    Run(Step(start, StartMeasure), run)
  }

  ghost function EndsOf(starts: seq<Window>, runs: seq<seq<Event>>): (r: seq<Window>)
    requires |starts| == |runs|
    ensures |r| == |starts| && forall i :: 0 <= i < |r| ==> r[i] == EndOf(starts[i], runs[i])
  {
    seq(|starts|, i requires 0 <= i < |starts| => EndOf(starts[i], runs[i]))
  }

  /** After a stop, until the next start, no event touches the counters. */
  lemma {:induction false} CountersFrozen(w: Window, es: seq<Event>)
    requires !w.measuring && StartMeasure !in es
    ensures var w' := Run(w, es); !w'.measuring && w'.tx == w.tx && w'.rx == w.rx
  {
    if es != [] {
      var n := |es| - 1;
      CountersFrozen(w, es[..n]);
      assert es[n] in es;
    }
  }

  /** The window some time after the measurement. */
  ghost function LaterOf(start: Window, run: seq<Event>, later: seq<Event>): Window {
    Run(Step(EndOf(start, run), StopMeasure), later)
  }

  /**
   The threads measured from the windows `starts` through the events `runs`, were stopped, and went on with `laters`
   until now.
   */
  ghost predicate Measured(threads: seq<Thread>, starts: seq<Window>, runs: seq<seq<Event>>, laters: seq<seq<Event>>)
    reads set i, o | 0 <= i < |threads| && o in threads[i].Frame() :: o
  {
    && |starts| == |runs| == |laters| == |threads|
    && forall i :: 0 <= i < |threads| ==>
                     && Conserved(starts[i]) && RunEnabled(Step(starts[i], StartMeasure), runs[i])
                     && Uninterrupted(runs[i]) && StartMeasure !in laters[i]
                     && threads[i].Shows(LaterOf(starts[i], runs[i], laters[i]))
  }

  lemma LaterCounters(start: Window, run: seq<Event>, later: seq<Event>)
    requires StartMeasure !in later
    ensures LaterOf(start, run, later).tx == EndOf(start, run).tx
    ensures LaterOf(start, run, later).rx == EndOf(start, run).rx
  {
    hide Run;
    CountersFrozen(Step(EndOf(start, run), StopMeasure), later);
  }

  lemma {:induction false} TotalsOfWindows(cs: seq<Contribution>, ws: seq<Window>)
    requires |cs| == |ws|
    requires forall i :: 0 <= i < |cs| ==> cs[i].tx == ws[i].tx && cs[i].rx == ws[i].rx
    ensures SumOver(cs, (c: Contribution) => c.tx.reqs) == SumOver(ws, (w: Window) => w.tx.reqs)
    ensures SumOver(cs, (c: Contribution) => c.rx.reqs) == SumOver(ws, (w: Window) => w.rx.reqs)
  {
    if cs != [] {
      TotalsOfWindows(cs[..|cs| - 1], ws[..|ws| - 1]);
    }
  }

  /** The counters are those of the sends and response batches in all runs together. */
  ghost predicate CountsRuns(rx: ByteReqPair, tx: ByteReqPair, runs: seq<seq<Event>>) {
    && tx.bytes == SumOver(runs, (es: seq<Event>) => SumOver(es, SentBytes))
    && tx.reqs == SumOver(runs, (es: seq<Event>) => SumOver(es, SentReqs))
    && rx.bytes == SumOver(runs, (es: seq<Event>) => SumOver(es, ReceivedBytes))
    && rx.reqs == SumOver(runs, (es: seq<Event>) => SumOver(es, ReceivedReqs))
  }

  lemma {:induction false} TotalsOfRuns(cs: seq<Contribution>, runs: seq<seq<Event>>)
    requires |cs| == |runs|
    requires forall i :: 0 <= i < |cs| ==> CountsRun(cs[i].rx, cs[i].tx, runs[i])
    ensures CountsRuns(Joined(cs).rx, Joined(cs).tx, runs)
  {
    if cs != [] {
      TotalsOfRuns(cs[..|cs| - 1], runs[..|runs| - 1]);
    }
  }

  /**
   `aggregate_throughput_stats` some time after the end of a measurement: the bytes and requests of all sends and
   response batches since the clear, on all threads. So requests sent minus requests answered is what was outstanding
   at the stop minus what was at the clear.
   */
  method AggregateCounters(agg: Aggregate, threads: seq<Thread>, ghost starts: seq<Window>, ghost runs: seq<seq<Event>>,
                           ghost laters: seq<seq<Event>>, ghost cs: seq<Contribution>)
    requires Measured(threads, starts, runs, laters) && Describes(cs, StatsOf(threads))
    modifies agg
    ensures |starts| == |runs| && CountsRuns(agg.rx, agg.tx, runs)
    ensures agg.tx.reqs - agg.rx.reqs
         == SumOver(EndsOf(starts, runs), (w: Window) => Sum(w.pending))
            - SumOver(starts, (w: Window) => Sum(w.pending))
  {
    hide Conserved, RunEnabled, Run, SumOver, Joined, CountsRun;
    ghost var ends := EndsOf(starts, runs);
    AggregateAccounting(starts, runs, ends);
    forall i | 0 <= i < |cs|
      ensures cs[i].tx == ends[i].tx && cs[i].rx == ends[i].rx && CountsRun(cs[i].rx, cs[i].tx, runs[i])
    {
      assert cs[i] == ContributionOf(threads[i].stats);
      LaterCounters(starts[i], runs[i], laters[i]);
      CountersCount(starts[i], runs[i]);
    }
    TotalsOfWindows(cs, ends);
    TotalsOfRuns(cs, runs);
    JoinedTotals(cs);
    agg.AggregateThroughput(StatsOf(threads), cs);
  }

  lemma {:induction false} ZeroSum(s: seq<int>)
    requires forall i :: 0 <= i < |s| ==> s[i] == 0
    ensures Sum(s) == 0
  {
    if s != [] {
      ZeroSum(s[..|s| - 1]);
    }
  }
}
