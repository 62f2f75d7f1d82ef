/** The agent's command loop: a state machine driven by the coordinator's bytes. */
module Manager {
  import opened Numeric
  import opened Wire
  import opened Comparators
  import opened ThreadStats
  import Percentiles
  import InterArrival

  /** The manager's globals; `cap` and `rateBits` are what `set_per_thread_samples` stores. */
  datatype State = State(shouldLoad: bool, shouldMeasure: bool, start: int, stop: int, cap: int, rateBits: nat,
                         load: nat)

  const INITIAL := State(false, false, 0, 0, 0, 0, 0)

  datatype Answer = Ack | ThroughputReport(duration: nat) | LatencyReport(duration: nat)

  /** What one command leads to: a new state and answer, a failed assertion, or the end of the loop. */
  datatype Outcome = Continue(st: State, answer: Answer) | Abort | Exit(st: State)

  /** The per-thread share of the requested samples, with one per cent to spare. */
  function PerThreadSamples(samples: nat, threads: nat): int
    requires threads > 0
  {
    LRound(1.01 * ToInt32(samples) as real / threads as real)
  }

  /** The assertions of `set_per_thread_samples`. */
  predicate CapAccepted(cap: int) {
    0 < cap <= MAX_PER_THREAD_SAMPLES
  }

  datatype AgentType = ThroughputAgent | LatencyAgent | SymmetricNicAgent | SymmetricAgent

  /**
   How the agent was started: `averaged` tells whether its inter-arrival distribution can be given an average, `sqrt`
   is the square root its statistics use.
   */
  datatype Config = Config(agent: AgentType, threads: nat, averaged: bool, sqrt: real -> real)

  /**
   The threads when a command arrives: whether all are alive, as a failed assertion of any ends the process, how many
   latencies they hold, and the transmission times.
   */
  datatype Held = Held(alive: bool, samples: nat, times: seq<Timespec>)

  /** The statistics of a report are computed without a failing assertion or a read outside the buffers. */
  predicate Reportable(cfg: Config, kind: nat, held: Held) {
    && (kind == REPORT_LATENCY ==>
          held.samples <= AGG_SAMPLE_SIZE && Percentiles.Summarises(held.samples, AGG_SAMPLE_SIZE, cfg.sqrt))
    && (cfg.agent == SymmetricNicAgent ==> InterArrival.ComplianceRuns(held.times))
  }

  function Handle(st: State, c: Command, now: int, cfg: Config, held: Held): Outcome
    requires cfg.threads > 0
  {
    if !held.alive then Abort
    else match c
    case StartLoad(load) =>
      if !cfg.averaged then Abort
      else Continue(st.(load := load, shouldMeasure := false, shouldLoad := true), Ack)
    case StartMeasure(samples, rateBits) =>
      var cap := PerThreadSamples(samples, cfg.threads);
      if !CapAccepted(cap) then Abort
      else Continue(st.(cap := cap, rateBits := rateBits, start := now, shouldMeasure := true), Ack)
    case ReportReq(kind) =>
      var stopped := if st.shouldMeasure then st.(shouldMeasure := false, stop := now) else st;
      var duration := ToUint64(stopped.stop - stopped.start);
      if kind !in {REPORT_THROUGHPUT, REPORT_LATENCY} then Exit(stopped)
      else if !Reportable(cfg, kind, held) then Abort
      else
        Continue(stopped.(shouldMeasure := true),
                 if kind == REPORT_THROUGHPUT then ThroughputReport(duration) else LatencyReport(duration))
  }

  /** The answers to a run of commands, and how the run ends. */
  datatype Served = Served(answers: seq<Answer>, ended: Ending, st: State)

  datatype Ending = AllHandled | Aborted | Stopped

  /** When the `i`-th command is handled, and what the threads hold then. */
  datatype World = World(clock: nat -> int, held: nat -> Held)

  function Serve(st: State, cs: seq<Command>, w: World, from: nat, cfg: Config): Served
    requires cfg.threads > 0
    decreases |cs|
  {
    if cs == [] then Served([], AllHandled, st)
    else match Handle(st, cs[0], w.clock(from), cfg, w.held(from))
      case Continue(st', answer) =>
        var r := Serve(st', cs[1..], w, from + 1, cfg);
        r.(answers := [answer] + r.answers)
      case Abort => Served([], Aborted, st)
      case Exit(st') => Served([], Stopped, st')
  }

  /** The same, driven by the byte stream of the connection; bytes that run out fail an assertion. */
  function ServeBytes(st: State, bs: seq<byte>, w: World, from: nat, cfg: Config): Served
    requires cfg.threads > 0
    decreases |bs|
  {
    match ParseCommand(bs)
    case Closed => Served([], AllHandled, st)
    case Short => Served([], Aborted, st)
    case Unknown => Served([], Stopped, st)
    case Next(c, rest) =>
      match Handle(st, c, w.clock(from), cfg, w.held(from))
      case Continue(st', answer) =>
        var r := ServeBytes(st', rest, w, from + 1, cfg);
        r.(answers := [answer] + r.answers)
      case Abort => Served([], Aborted, st)
      case Exit(st') => Served([], Stopped, st')
  }

  /** Bytes produced by the coordinator's encoders drive the agent exactly like the commands themselves. */
  lemma {:induction false} BytesDriveLikeCommands(st: State, cs: seq<Command>, w: World, from: nat, cfg: Config)
    requires cfg.threads > 0
    requires forall i :: 0 <= i < |cs| ==> cs[i].Fits()
    ensures ServeBytes(st, EncodeCommands(cs), w, from, cfg) == Serve(st, cs, w, from, cfg)
    decreases |cs|
  {
    hide ParseCommand, EncodeCommand, Handle;
    if cs == [] {
      EmptyIsClosed();
    } else {
      ParseInvertsEncode(cs[0], EncodeCommands(cs[1..]));
      var o := Handle(st, cs[0], w.clock(from), cfg, w.held(from));
      if o.Continue? {
        BytesDriveLikeCommands(o.st, cs[1..], w, from + 1, cfg);
      }
    }
  }

  lemma EmptyIsClosed()
    ensures ParseCommand([]) == Closed
  {
  }

  /** The manager process. */
  class Agent {
    var shouldLoad: bool
    var shouldMeasure: bool
    var startTime: int
    var stopTime: int
    var perThreadSamples: int
    var rateBits: nat
    var load: nat
    const cfg: Config

    ghost function Shown(): State
      reads this
    {
      State(shouldLoad, shouldMeasure, startTime, stopTime, perThreadSamples, rateBits, load)
    }

    constructor (cfg: Config)
      ensures this.cfg == cfg && Shown() == INITIAL
    {
      this.cfg := cfg;
      shouldLoad, shouldMeasure, startTime, stopTime := false, false, 0, 0;
      perThreadSamples, rateBits, load := 0, 0, 0;
    }

    /**
     The body of the loop; `now` is read when the command needs the time, `held` is what the threads hold. No result
     ends the loop; after an abort the process, and with it the state, is gone.
     */
    method HandleCommand(c: Command, now: int, held: Held) returns (r: Option<Answer>, aborted: bool)
      requires cfg.threads > 0
      modifies this
      ensures match Handle(old(Shown()), c, now, cfg, held)
              case Continue(st', answer) => Shown() == st' && r == Some(answer) && !aborted
              case Abort => r == None && aborted
              case Exit(st') => r == None && !aborted && Shown() == st'
    {
      hide Reportable;
      if !held.alive {
        return None, true;
      }
      aborted := false;
      match c {
        case StartLoad(l) =>
          if !cfg.averaged {
            return None, true;
          }
          load := l;
          shouldMeasure := false;
          shouldLoad := true;
          r := Some(Ack);
        case StartMeasure(samples, bits) =>
          var cap := PerThreadSamples(samples, cfg.threads);
          if !CapAccepted(cap) {
            return None, true;
          }
          perThreadSamples := cap;
          rateBits := bits;
          startTime := now;
          shouldMeasure := true;
          r := Some(Ack);
        case ReportReq(kind) =>
          if shouldMeasure {
            shouldMeasure := false;
            stopTime := now;
          }
          if kind != REPORT_THROUGHPUT && kind != REPORT_LATENCY {
            return None, false;
          }
          var duration := ToUint64(stopTime - startTime);
          if !Reportable(cfg, kind, held) {
            return None, true;
          }
          r := Some(if kind == REPORT_THROUGHPUT then ThroughputReport(duration) else LatencyReport(duration));
          shouldMeasure := true;
      }
    }

    /** `manager_run` on the bytes of one connection; the state is of interest unless the process aborted. */
    method Run(stream: seq<byte>, w: World) returns (answers: seq<Answer>, ended: Ending)
      requires cfg.threads > 0
      modifies this
      ensures var s := ServeBytes(old(Shown()), stream, w, 0, cfg);
              answers == s.answers && ended == s.ended && (ended != Aborted ==> Shown() == s.st)
    {
      hide Handle, ParseCommand;
      var rest, i := stream, 0;
      answers := [];
      ghost var st0 := Shown();
      while true
        invariant var r := ServeBytes(Shown(), rest, w, i, cfg);
                  ServeBytes(st0, stream, w, 0, cfg) == r.(answers := answers + r.answers)
        decreases |rest|
      {
        match ParseCommand(rest) {
          case Closed =>
            assert answers + [] == answers;
            return answers, AllHandled;
          case Short =>
            assert answers + [] == answers;
            return answers, Aborted;
          case Unknown =>
            assert answers + [] == answers;
            return answers, Stopped;
          case Next(c, tail) =>
            var answer, aborted := HandleCommand(c, w.clock(i), w.held(i));
            if answer.None? {
              assert answers + [] == answers;
              return answers, if aborted then Aborted else Stopped;
            }
            ghost var r := ServeBytes(Shown(), tail, w, i + 1, cfg);
            assert answers + ([answer.value] + r.answers) == answers + [answer.value] + r.answers;
            answers := answers + [answer.value];
            rest, i := tail, i + 1;
        }
      }
    }
  }

  // What every well-formed conversation keeps.

  /** A conversation: load commands, and measurements each reported once, the last perhaps not. */
  ghost predicate Conversation(cs: seq<Command>, limit: nat) {
    cs == [] || (cs[0].StartLoad? && Rounds(cs[1..], limit))
  }

  ghost predicate Rounds(cs: seq<Command>, limit: nat) {
    || cs == []
    || (cs[0].StartLoad? && Rounds(cs[1..], limit))
    || (cs[0].StartMeasure? && 10000 <= cs[0].samples <= limit &&
        (|cs| == 1 ||
         (cs[1].ReportReq? && cs[1].kind in {REPORT_THROUGHPUT, REPORT_LATENCY} && Rounds(cs[2..], limit))))
  }

  lemma ShareBounds(x: real, t: real, s: real)
    requires x * t == s && 10100.0 <= s <= 202000.0 && 2.0 <= t <= 20200.0
    ensures 0.5 <= x <= 101000.0
  {
    assert 0.5 * t <= 10100.0 && 202000.0 <= 101000.0 * t;
    ScaleIff(x, 0.5, t);
    ScaleIff(101000.0, x, t);
  }

  /** The share before rounding. */
  lemma ShareOf(samples: nat, threads: nat) returns (x: real)
    requires 10000 <= samples <= 200000 && threads > 0
    ensures PerThreadSamples(samples, threads) == LRound(x) && x * threads as real == 1.01 * samples as real
  {
    assert ToInt32(samples) == samples;
    x := 1.01 * samples as real / threads as real;
  }

  lemma LargeShare(samples: nat, threads: nat)
    requires 10000 <= samples <= 200000 && 2 <= threads <= 20200
    ensures CapAccepted(PerThreadSamples(samples, threads))
  {
    var x := ShareOf(samples, threads);
    ShareBounds(x, threads as real, 1.01 * samples as real);
  }

  /** With 2 to 64 threads the share of 10000 to 200000 samples is accepted, and all shares fit the aggregate. */
  lemma CapInRange(samples: nat, threads: nat)
    requires 10000 <= samples <= 200000 && 2 <= threads <= 64
    ensures var cap := PerThreadSamples(samples, threads);
            CapAccepted(cap) && threads * cap <= AGG_SAMPLE_SIZE
  {
    LargeShare(samples, threads);
    var x := ShareOf(samples, threads);
    ShareBounds(x, threads as real, 1.01 * samples as real);
    ShareTotal(LRound(x), x, threads);
  }

  lemma ShareTotal(cap: int, x: real, threads: nat)
    requires threads <= 64 && cap as real <= x + 0.5 && x * threads as real <= 202000.0
    ensures threads * cap <= AGG_SAMPLE_SIZE
  {
    ScaleLe(cap as real, x + 0.5, threads as real);
    assert (threads * cap) as real == cap as real * threads as real;
  }

  /** An agent of 1 to 64 threads accepts 10000 to 200000 samples exactly if it has two threads or they are few. */
  lemma CapAcceptedIff(samples: nat, threads: nat)
    requires 10000 <= samples <= 200000 && 1 <= threads <= MAX_STATS_THREADS
    ensures CapAccepted(PerThreadSamples(samples, threads)) <==> threads >= 2 || samples <= 129774
  {
    if threads >= 2 {
      LargeShare(samples, threads);
    } else {
      var x := ShareOf(samples, 1);
    }
  }

  /** The times at which commands are handled do not go backwards. */
  ghost predicate Monotone(clock: nat -> int) {
    forall i, j :: i <= j ==> clock(i) <= clock(j)
  }

  /**
   The agent gets past the command: its threads are alive, the load can be set, the share is accepted, the statistics
   of the report can be computed.
   */
  predicate Acceptable(cfg: Config, c: Command, held: Held)
    requires cfg.threads > 0
  {
    held.alive &&
    match c
    case StartLoad(_) => cfg.averaged
    case StartMeasure(samples, _) => CapAccepted(PerThreadSamples(samples, cfg.threads))
    case ReportReq(kind) => Reportable(cfg, kind, held)
  }

  /** A report is answered with the time since the start of the measurement right before it. */
  ghost predicate ReportAnswered(cs: seq<Command>, answers: seq<Answer>, clock: nat -> int, from: nat, i: nat)
    requires i < |answers| <= |cs|
  {
    cs[i].ReportReq? ==>
      && i > 0 && cs[i - 1].StartMeasure?
      && clock(from + i - 1) <= clock(from + i)
      && (var d := ToUint64(clock(from + i) - clock(from + i - 1));
          answers[i] == if cs[i].kind == REPORT_THROUGHPUT then ThroughputReport(d) else LatencyReport(d))
  }

  /**
   The commands are handled in order up to the first one the agent cannot get past, if there is one; there it aborts.
   Each report before that is answered with the time of the measurement right before it, and the agent never measures
   without an accepted cap.
   */
  ghost predicate ServedUntil(cs: seq<Command>, r: Served, w: World, from: nat, cfg: Config)
    requires cfg.threads > 0
  {
    && |r.answers| <= |cs|
    && (forall i :: 0 <= i < |r.answers| ==>
                      Acceptable(cfg, cs[i], w.held(from + i)) && ReportAnswered(cs, r.answers, w.clock, from, i))
    && (if |r.answers| == |cs| then r.ended == AllHandled
        else r.ended == Aborted && !Acceptable(cfg, cs[|r.answers|], w.held(from + |r.answers|)))
    && (r.st.shouldMeasure ==> CapAccepted(r.st.cap))
  }

  /** Every conversation is served until the first command the agent cannot get past. */
  lemma {:induction false} RoundsServed(st: State, cs: seq<Command>, limit: nat, w: World, from: nat, cfg: Config)
    requires cfg.threads > 0 && Rounds(cs, limit) && Monotone(w.clock)
    requires st.shouldMeasure ==> CapAccepted(st.cap)
    ensures ServedUntil(cs, Serve(st, cs, w, from, cfg), w, from, cfg)
    decreases |cs|
  {
    hide CapAccepted, Reportable, PerThreadSamples, ServedUntil;
    if cs == [] {
      NothingServed(cs, Serve(st, cs, w, from, cfg), w, from, cfg);
    } else {
      var o := Handle(st, cs[0], w.clock(from), cfg, w.held(from));
      var rest := cs[1..];
      if o.Abort? {
        NothingServed(cs, Serve(st, cs, w, from, cfg), w, from, cfg);
      } else if cs[0].StartLoad? {
        RoundsServed(o.st, rest, limit, w, from + 1, cfg);
        LaterServed(cs, 1, Serve(st, cs, w, from, cfg), Serve(o.st, rest, w, from + 1, cfg), w, from, cfg);
      } else if |cs| == 1 {
        assert rest == [];
        NothingServed(rest, Serve(o.st, rest, w, from + 1, cfg), w, from + 1, cfg);
        LaterServed(cs, 1, Serve(st, cs, w, from, cfg), Serve(o.st, rest, w, from + 1, cfg), w, from, cfg);
      } else {
        ReportServed(st, cs, o.st, limit, w, from, cfg);
      }
    }
  }

  lemma NothingServed(cs: seq<Command>, r: Served, w: World, from: nat, cfg: Config)
    requires cfg.threads > 0 && r.answers == [] && (r.st.shouldMeasure ==> CapAccepted(r.st.cap))
    requires if cs == [] then r.ended == AllHandled else r.ended == Aborted && !Acceptable(cfg, cs[0], w.held(from))
    ensures ServedUntil(cs, r, w, from, cfg)
  {
  }

  /** A measurement and its report, then the later rounds. */
  lemma {:induction false} ReportServed(st: State, cs: seq<Command>, st1: State, limit: nat, w: World, from: nat,
                                        cfg: Config)
    requires cfg.threads > 0 && Rounds(cs, limit) && Monotone(w.clock)
    requires |cs| >= 2 && cs[0].StartMeasure?
    requires Handle(st, cs[0], w.clock(from), cfg, w.held(from)) == Continue(st1, Ack)
    ensures ServedUntil(cs, Serve(st, cs, w, from, cfg), w, from, cfg)
    decreases |cs|, 0
  {
    hide CapAccepted, Reportable, PerThreadSamples, ServedUntil;
    var rest := cs[1..];
    var r, r1 := Serve(st, cs, w, from, cfg), Serve(st1, rest, w, from + 1, cfg);
    var o := Handle(st1, rest[0], w.clock(from + 1), cfg, w.held(from + 1));
    if o.Abort? {
      NothingServed(rest, r1, w, from + 1, cfg);
      LaterServed(cs, 1, r, r1, w, from, cfg);
    } else {
      assert rest[1..] == cs[2..];
      RoundsServed(o.st, cs[2..], limit, w, from + 2, cfg);
      var r2 := Serve(o.st, cs[2..], w, from + 2, cfg);
      assert r.answers == [Ack] + ([o.answer] + r2.answers);
      assert r.answers == [Ack, o.answer] + r2.answers;
      LaterServed(cs, 2, r, r2, w, from, cfg);
    }
  }

  /** If the first `k` commands are handled and the later ones served, all are. */
  lemma LaterServed(cs: seq<Command>, k: nat, r: Served, later: Served, w: World, from: nat, cfg: Config)
    requires cfg.threads > 0 && k <= |cs|
    requires ServedUntil(cs[k..], later, w, from + k, cfg)
    requires |r.answers| == k + |later.answers| && r.answers[k..] == later.answers
    requires r.ended == later.ended && r.st == later.st
    requires forall i :: 0 <= i < k ==>
               Acceptable(cfg, cs[i], w.held(from + i)) && ReportAnswered(cs, r.answers, w.clock, from, i)
    ensures ServedUntil(cs, r, w, from, cfg)
  {
    hide CapAccepted, Reportable, PerThreadSamples, Acceptable;
    var tail := cs[k..];
    forall i | k <= i < |r.answers|
      ensures Acceptable(cfg, cs[i], w.held(from + i)) && ReportAnswered(cs, r.answers, w.clock, from, i)
    {
      assert Acceptable(cfg, tail[i - k], w.held(from + k + (i - k)));
      assert ReportAnswered(tail, later.answers, w.clock, from + k, i - k);
    }
  }

  // What the commands set.

  /** The load is that of the last load command, or still the initial one. */
  ghost predicate LoadSet(load: nat, cs: seq<Command>, initial: nat) {
    || (exists i :: 0 <= i < |cs| && cs[i] == StartLoad(load) && forall j :: i < j < |cs| ==> !cs[j].StartLoad?)
    || (load == initial && forall j :: 0 <= j < |cs| ==> !cs[j].StartLoad?)
  }

  /** The sampling rate is that of the last measurement, the cap its share of the samples, or both the initial ones. */
  ghost predicate SamplingSet(rateBits: nat, cap: int, cs: seq<Command>, initial: State, threads: nat)
    requires threads > 0
  {
    || (exists i :: 0 <= i < |cs| && cs[i].StartMeasure? && cs[i].rateBits == rateBits
                    && cap == PerThreadSamples(cs[i].samples, threads)
                    && forall j :: i < j < |cs| ==> !cs[j].StartMeasure?)
    || (rateBits == initial.rateBits && cap == initial.cap && forall j :: 0 <= j < |cs| ==> !cs[j].StartMeasure?)
  }

  /** What the commands `cs` leave an agent with, load generation and measuring included. */
  ghost predicate SetAs(st: State, cs: seq<Command>, initial: State, threads: nat)
    requires threads > 0
  {
    && LoadSet(st.load, cs, initial.load)
    && SamplingSet(st.rateBits, st.cap, cs, initial, threads)
    && (st.shouldLoad <==> initial.shouldLoad || exists i :: 0 <= i < |cs| && cs[i].StartLoad?)
    && (st.shouldMeasure <==> if cs == [] then initial.shouldMeasure else !cs[|cs| - 1].StartLoad?)
  }

  lemma SetByFirst(st: State, cs: seq<Command>, initial: State, second: State, threads: nat)
    requires threads > 0 && cs != [] && SetAs(second, cs[..1], initial, threads) && SetAs(st, cs[1..], second, threads)
    ensures SetAs(st, cs, initial, threads)
  {
    hide PerThreadSamples;
    var first, rest := cs[0], cs[1..];
    assert forall j :: 1 <= j < |cs| ==> cs[j] == rest[j - 1];
    assert cs[..1] == [first];
    LoadByFirst(st.load, cs, initial.load, second.load);
    SamplingByFirst(st, cs, initial, second, threads);
    if i :| 0 <= i < |rest| && rest[i].StartLoad? {
      assert cs[i + 1].StartLoad?;
    }
  }

  lemma LoadByFirst(load: nat, cs: seq<Command>, initial: nat, second: nat)
    requires cs != [] && LoadSet(second, [cs[0]], initial) && LoadSet(load, cs[1..], second)
    ensures LoadSet(load, cs, initial)
  {
    var rest := cs[1..];
    if i :| 0 <= i < |rest| && rest[i] == StartLoad(load) && forall j :: i < j < |rest| ==> !rest[j].StartLoad? {
      assert cs[i + 1] == StartLoad(load);
      assert forall j :: i + 1 < j < |cs| ==> cs[j] == rest[j - 1];
    } else {
      assert forall j :: 1 <= j < |cs| ==> cs[j] == rest[j - 1];
      assert [cs[0]][0] == cs[0];
    }
  }

  lemma SamplingByFirst(st: State, cs: seq<Command>, initial: State, second: State, threads: nat)
    requires threads > 0 && cs != [] && SamplingSet(second.rateBits, second.cap, [cs[0]], initial, threads)
    requires SamplingSet(st.rateBits, st.cap, cs[1..], second, threads)
    ensures SamplingSet(st.rateBits, st.cap, cs, initial, threads)
  {
    hide PerThreadSamples;
    var rest := cs[1..];
    if i :| 0 <= i < |rest| && rest[i].StartMeasure? && rest[i].rateBits == st.rateBits
            && st.cap == PerThreadSamples(rest[i].samples, threads)
            && forall j :: i < j < |rest| ==> !rest[j].StartMeasure? {
      assert cs[i + 1] == rest[i];
      assert forall j :: i + 1 < j < |cs| ==> cs[j] == rest[j - 1];
    } else {
      assert forall j :: 1 <= j < |cs| ==> cs[j] == rest[j - 1];
      assert [cs[0]][0] == cs[0];
    }
  }

  lemma HandledSets(st: State, c: Command, now: int, cfg: Config, held: Held)
    requires cfg.threads > 0 && Handle(st, c, now, cfg, held).Continue?
    ensures SetAs(Handle(st, c, now, cfg, held).st, [c], st, cfg.threads)
  {
    hide PerThreadSamples, CapAccepted, Reportable;
    assert [c][0] == c;
  }

  /**
   Whatever the commands, those handled so far determine the load, the sampling and whether the agent measures; an
   unknown kind of report also stops the measurement.
   */
  lemma {:induction false} SettingsFollow(st: State, cs: seq<Command>, w: World, from: nat, cfg: Config)
    requires cfg.threads > 0
    ensures var r := Serve(st, cs, w, from, cfg);
            && |r.answers| <= |cs|
            && (r.ended != Stopped ==> SetAs(r.st, cs[..|r.answers|], st, cfg.threads))
            && (r.ended == Stopped ==> !r.st.shouldMeasure && LoadSet(r.st.load, cs[..|r.answers|], st.load)
                                       && SamplingSet(r.st.rateBits, r.st.cap, cs[..|r.answers|], st, cfg.threads))
    decreases |cs|
  {
    hide PerThreadSamples, CapAccepted, Reportable;
    if cs != [] {
      var o := Handle(st, cs[0], w.clock(from), cfg, w.held(from));
      if o.Continue? {
        SettingsFollow(o.st, cs[1..], w, from + 1, cfg);
        HandledSets(st, cs[0], w.clock(from), cfg, w.held(from));
        FirstThenRest(st, cs, o.st, Serve(o.st, cs[1..], w, from + 1, cfg), cfg.threads);
      }
    }
  }

  lemma FirstThenRest(st: State, cs: seq<Command>, second: State, later: Served, threads: nat)
    requires threads > 0 && cs != [] && |later.answers| < |cs| && SetAs(second, [cs[0]], st, threads)
    ensures var (done, rest) := (cs[..|later.answers| + 1], cs[1..][..|later.answers|]);
            && (SetAs(later.st, rest, second, threads) ==> SetAs(later.st, done, st, threads))
            && (LoadSet(later.st.load, rest, second.load) ==> LoadSet(later.st.load, done, st.load))
            && (SamplingSet(later.st.rateBits, later.st.cap, rest, second, threads) ==>
                  SamplingSet(later.st.rateBits, later.st.cap, done, st, threads))
  {
    hide LoadSet, SamplingSet;
    var done, rest := cs[..|later.answers| + 1], cs[1..][..|later.answers|];
    assert done[1..] == rest && done[..1] == [cs[0]];
    if LoadSet(later.st.load, rest, second.load) {
      LoadByFirst(later.st.load, done, st.load, second.load);
    }
    if SamplingSet(later.st.rateBits, later.st.cap, rest, second, threads) {
      SamplingByFirst(later.st, done, st, second, threads);
    }
    if SetAs(later.st, rest, second, threads) {
      SetByFirst(later.st, done, st, second, threads);
    }
  }

  /** Once told to, the agent keeps generating load, whatever it is sent. */
  lemma {:induction false} LoadingStays(st: State, cs: seq<Command>, w: World, from: nat, cfg: Config)
    requires cfg.threads > 0 && st.shouldLoad
    ensures Serve(st, cs, w, from, cfg).st.shouldLoad
    decreases |cs|
  {
    hide Reportable, CapAccepted, PerThreadSamples;
    if cs != [] {
      var o := Handle(st, cs[0], w.clock(from), cfg, w.held(from));
      if o.Continue? {
        LoadingStays(o.st, cs[1..], w, from + 1, cfg);
      }
    }
  }

  /** With the samples the threads can hold, a latency report needs 4 of them, and hardware-timed agents their times. */
  lemma ReportableIff(cfg: Config, kind: nat, held: Held)
    requires IsSqrt(cfg.sqrt) && held.samples <= AGG_SAMPLE_SIZE
    ensures Reportable(cfg, kind, held) <==>
            && (kind == REPORT_LATENCY ==> held.samples >= 4)
            && (cfg.agent == SymmetricNicAgent ==> InterArrival.ComplianceRuns(held.times))
  {
    hide Percentiles.Summarises, InterArrival.ComplianceRuns;
    Percentiles.SummarisesIff(held.samples, AGG_SAMPLE_SIZE, cfg.sqrt);
  }

  /** The rings of more than 16 threads, once full, do not fit the compliance test. */
  lemma FullRingsFitIff(live: seq<seq<Timespec>>)
    requires forall i :: 0 <= i < |live| ==> |live[i]| == MAX_PER_THREAD_TX_SAMPLES
    ensures |InterArrival.Concat(live)| <= MAX_THREADS * MAX_PER_THREAD_TX_SAMPLES <==> |live| <= MAX_THREADS
    ensures |live| > MAX_THREADS ==> !InterArrival.ComplianceRuns(InterArrival.Concat(live))
  {
    FullRingsLength(live);
  }

  lemma {:induction false} FullRingsLength(live: seq<seq<Timespec>>)
    requires forall i :: 0 <= i < |live| ==> |live[i]| == MAX_PER_THREAD_TX_SAMPLES
    ensures |InterArrival.Concat(live)| == |live| * MAX_PER_THREAD_TX_SAMPLES
  {
    if live != [] {
      FullRingsLength(live[..|live| - 1]);
    }
  }
}
