/** The coordinator's adaptive experiment for symmetric agents. */
module Coordinator {
  import opened Numeric
  import opened Wire
  import opened AgentStats
  import Pearson

  type Double = Pearson.Double

  const MAX_TRIES := 20
  const INITIAL_SAMPLES := 10000
  const SAMPLES_STEP := 10000
  const INITIAL_RATE := 20.0

  /** What an experiment is run with; `bits` gives the representation of a double. */
  datatype Setup = Setup(agents: nat, loadRate: int, ciSize: int, bits: real -> nat)

  /** What the agents do in one round: acknowledge the measurement, then report. */
  datatype Round = Round(acked: bool, reported: bool, throughput: seq<ThroughputReply>, latency: seq<LatencyReply>,
                         convergence: seq<nat>, correlations: seq<Double>)

  /** The behaviour of the agents over all rounds; a successful collection has one reply for each agent. */
  type Environment = nat -> Round

  ghost predicate Replies(setup: Setup, env: Environment) {
    setup.agents > 0 && forall k :: |env(k).throughput| == setup.agents && |env(k).latency| == setup.agents
  }

  datatype Phase = WaitForThroughput | WaitForLatency | Exit {
    function Left(): nat {
      match this
      case WaitForThroughput => 2
      case WaitForLatency => 1
      case Exit => 0
    }
  }

  datatype State = State(phase: Phase, samples: nat, rate: real, tries: nat)

  datatype Verdict = Accepted | WrongThroughput | Correlated | ZeroCorrelation | TooWide

  datatype Result = Success | MaxTriesReached | CommunicationFailed | NoAgents

  /** The commands sent to each agent, and the result of the experiment. */
  datatype Outcome = Outcome(sent: seq<Command>, result: Result)

  // The checks.

  function Above(x: Double, y: real): bool {
    match x
    case NotANumber => false
    case Infinite(positive) => positive
    case Finite(v) => v > y
  }

  function Below(x: Double, y: real): bool {
    match x
    case NotANumber => false
    case Infinite(positive) => !positive
    case Finite(v) => v < y
  }

  /** `getRPS`: a division of doubles. */
  function Rps(t: ThroughputReply): Double {
    if t.duration > 0 then Pearson.Finite(1000000.0 * t.reqCount as real / t.duration as real)
    else if t.reqCount > 0 then Pearson.Infinite(true)
    else Pearson.NotANumber
  }

  predicate OffTarget(rps: Double, expected: real) {
    Above(rps, expected * 1.1) || Below(rps, expected * 0.9)
  }

  /** The throughput check, cross-multiplied; a measurement of no time passes if it counted nothing. */
  lemma OnTargetIff(t: ThroughputReply, loadRate: int)
    ensures !OffTarget(Rps(t), loadRate as real) <==>
            if t.duration == 0 then t.reqCount == 0
            else 9 * loadRate * t.duration <= 10000000 * t.reqCount <= 11 * loadRate * t.duration
  {
    if t.duration > 0 {
      RatioWithin(1000000.0 * t.reqCount as real, t.duration as real, loadRate as real);
      ProductAsReal(loadRate, t.duration);
    }
  }

  lemma RatioWithin(x: real, d: real, load: real)
    requires d > 0.0
    ensures load * 0.9 <= x / d <= load * 1.1 <==> 9.0 * (load * d) <= 10.0 * x <= 11.0 * (load * d)
  {
    var q := x / d;
    assert q * d == x;
    ScaleIff(load * 1.1, q, d);
    ScaleIff(q, load * 0.9, d);
    Regroup(load, d);
  }

  lemma Regroup(load: real, d: real)
    ensures load * 1.1 * d == 1.1 * (load * d) && load * 0.9 * d == 0.9 * (load * d)
  {
  }

  lemma ProductAsReal(x: int, y: int)
    ensures (x * y) as real == x as real * y as real
    ensures 9 * x * y == 9 * (x * y) && 11 * x * y == 11 * (x * y)
  {
  }

  ghost predicate SomeAbove(cs: seq<Double>) {
    exists i :: 0 <= i < |cs| && Above(cs[i], 0.25)
  }

  ghost predicate SomeZero(cs: seq<Double>) {
    Pearson.Finite(0.0) in cs
  }

  ghost predicate Complete(r: Round) {
    r.acked && r.reported
  }

  ghost predicate ThroughputOk(setup: Setup, r: Round)
    requires |r.throughput| > 0
  {
    !OffTarget(Rps(AggregateThroughput(r.throughput)), setup.loadRate as real)
  }

  ghost function JudgeLatency(setup: Setup, r: Round): Verdict
    requires |r.latency| > 0
  {
    if SomeAbove(r.correlations) then Correlated
    else if SomeZero(r.correlations) then ZeroCorrelation
    else if CiTooWide(AggregateLatency(r.latency), setup.ciSize) then TooWide
    else Accepted
  }

  ghost predicate LatencyOk(setup: Setup, r: Round)
    requires |r.latency| > 0
  {
    JudgeLatency(setup, r) == Accepted
  }

  ghost function Judge(phase: Phase, setup: Setup, r: Round): Verdict
    requires |r.throughput| > 0 && |r.latency| > 0
  {
    if phase == WaitForLatency then JudgeLatency(setup, r)
    else if ThroughputOk(setup, r) then Accepted else WrongThroughput
  }

  // The state machine.

  ghost function After(st: State, v: Verdict): State {
    match v
    case Accepted => st.(phase := if st.phase == WaitForThroughput then WaitForLatency else Exit)
    case WrongThroughput => st.(tries := st.tries + 1)
    case Correlated => st.(tries := st.tries + 1, rate := st.rate / 2.0)
    case _ => st.(tries := st.tries + 1, samples := st.samples + SAMPLES_STEP)
  }

  function LoadCommand(setup: Setup): Command
    requires setup.agents > 0
  {
    StartLoad(Quo(setup.loadRate, setup.agents) % TWO_32)
  }

  /** Every agent samples at the rate of all of them together. */
  function TotalRate(setup: Setup, rate: real): real {
    setup.agents as real * rate
  }

  function MeasureCommand(setup: Setup, samples: nat, rate: real): Command {
    StartMeasure(samples % TWO_32, ToUint64(setup.bits(TotalRate(setup, rate))))
  }

  function ReportCommand(phase: Phase): Command {
    ReportReq(if phase == WaitForThroughput then REPORT_THROUGHPUT else REPORT_LATENCY)
  }

  ghost function Run(st: State, setup: Setup, env: Environment, k: nat): Outcome
    requires Replies(setup, env)
    decreases MAX_TRIES - st.tries, st.phase.Left()
  {
    if st.tries >= MAX_TRIES then Outcome([], MaxTriesReached)
    else if st.phase == Exit then Outcome([], Success)
    else
      var m := MeasureCommand(setup, st.samples, st.rate);
      if !env(k).acked then Outcome([m], CommunicationFailed)
      else if !env(k).reported then Outcome([m, ReportCommand(st.phase)], CommunicationFailed)
      else
        var o := Run(After(st, Judge(st.phase, setup, env(k))), setup, env, k + 1);
        o.(sent := [m, ReportCommand(st.phase)] + o.sent)
  }

  /** One round of a run that goes on. */
  lemma RunRound(st: State, setup: Setup, env: Environment, k: nat)
    requires Replies(setup, env) && st.tries < MAX_TRIES && st.phase != Exit
    ensures var (m, report) := (MeasureCommand(setup, st.samples, st.rate), ReportCommand(st.phase));
            var o := Run(st, setup, env, k);
            if !env(k).acked then o == Outcome([m], CommunicationFailed)
            else if !env(k).reported then o == Outcome([m, report], CommunicationFailed)
            else
              var next := Run(After(st, Judge(st.phase, setup, env(k))), setup, env, k + 1);
              o.sent == [m, report] + next.sent && o.result == next.result
  {
    hide Judge, After;
  }

  lemma RunStops(st: State, setup: Setup, env: Environment, k: nat)
    requires Replies(setup, env) && (st.tries >= MAX_TRIES || st.phase == Exit)
    ensures Run(st, setup, env, k) == Outcome([], if st.tries >= MAX_TRIES then MaxTriesReached else Success)
  {
  }

  /** The whole experiment; `loaded` tells whether the agents acknowledged the load. */
  ghost function Fixed(samples: nat, rate: real, setup: Setup, loaded: bool, env: Environment): Outcome
    requires Replies(setup, env)
  {
    if !loaded then Outcome([LoadCommand(setup)], CommunicationFailed)
    else
      var o := Run(State(WaitForThroughput, samples, rate, 0), setup, env, 0);
      o.(sent := [LoadCommand(setup)] + o.sent)
  }

  class Coordinator {
    var samples: nat
    var phase: Phase
    var rate: real

    constructor ()
      ensures samples == 0 && rate == 0.0
    {
      samples, phase, rate := 0, WaitForThroughput, 0.0;
    }

    /** The scan for a correlation over a quarter. */
    method HasCorrelation(cs: seq<Double>) returns (found: bool)
      ensures found <==> SomeAbove(cs)
    {
      for i := 0 to |cs|
        invariant forall j :: 0 <= j < i ==> !Above(cs[j], 0.25)
      {
        if Above(cs[i], 0.25) {
          return true;
        }
      }
      return false;
    }

    /** The scan announced as the check of convergence: it looks at the correlations. */
    method HasZero(cs: seq<Double>) returns (found: bool)
      ensures found <==> SomeZero(cs)
    {
      for i := 0 to |cs|
        invariant Pearson.Finite(0.0) !in cs[..i]
      {
        if cs[i] == Pearson.Finite(0.0) {
          return true;
        }
      }
      assert cs[..|cs|] == cs;
      return false;
    }

    /** The case of the loop that waits for the throughput. */
    method TryThroughput(setup: Setup, r: Round, ghost tries: nat) returns (failed: bool)
      requires |r.throughput| > 0 && |r.latency| > 0 && phase == WaitForThroughput
      modifies this`phase
      ensures !failed ==> phase == WaitForLatency
      ensures var v := Judge(WaitForThroughput, setup, r);
              && failed == (v != Accepted)
              && After(State(WaitForThroughput, samples, rate, tries), v)
                 == State(phase, samples, rate, if failed then tries + 1 else tries)
    {
      var agg := ComputeStatsThroughput(r.throughput);
      failed := OffTarget(Rps(agg), setup.loadRate as real);
      if !failed {
        phase := WaitForLatency;
      }
    }

    /** The case of the loop that waits for the latency. */
    method TryLatency(setup: Setup, r: Round, ghost tries: nat) returns (failed: bool)
      requires |r.throughput| > 0 && |r.latency| > 0 && phase == WaitForLatency
      modifies this
      ensures SomeAbove(r.correlations) ==> failed && rate == old(rate) / 2.0 && samples == old(samples)
      ensures !SomeAbove(r.correlations) ==>
                && rate == old(rate) && samples == old(samples) + (if failed then 10000 else 0)
                && (failed <==> SomeZero(r.correlations) || CiTooWide(AggregateLatency(r.latency), setup.ciSize))
      ensures phase == if failed then old(phase) else Exit
      ensures var v := Judge(WaitForLatency, setup, r);
              && failed == (v != Accepted)
              && After(State(WaitForLatency, old(samples), old(rate), tries), v)
                 == State(phase, samples, rate, if failed then tries + 1 else tries)
    {
      var correlated := HasCorrelation(r.correlations);
      if correlated {
        rate := rate / 2.0;
        return true;
      }
      var zero := HasZero(r.correlations);
      if zero {
        samples := samples + SAMPLES_STEP;
        return true;
      }
      var agg := ComputeStatsLatency(r.latency);
      if CiTooWide(agg, setup.ciSize) {
        samples := samples + SAMPLES_STEP;
        return true;
      }
      phase := Exit;
      return false;
    }

    /** `fixedSymPattern`. */
    method FixedSymPattern(setup: Setup, loaded: bool, env: Environment) returns (sent: seq<Command>, result: Result)
      requires Replies(setup, env)
      modifies this
      ensures Outcome(sent, result) == Fixed(old(samples), old(rate), setup, loaded, env)
    {
      hide Judge, After, Run, MeasureCommand, ReportCommand, LoadCommand;
      sent := [LoadCommand(setup)];
      if !loaded {
        return sent, CommunicationFailed;
      }
      phase := WaitForThroughput;
      var tries, k := 0, 0;
      ghost var whole := Run(State(phase, samples, rate, 0), setup, env, 0);
      while tries < MAX_TRIES
        invariant tries <= MAX_TRIES
        invariant var rest := Run(State(phase, samples, rate, tries), setup, env, k);
                  [LoadCommand(setup)] + whole.sent == sent + rest.sent && whole.result == rest.result
        decreases MAX_TRIES - tries, phase.Left()
      {
        if phase == Exit {
          RunStops(State(phase, samples, rate, tries), setup, env, k);
          assert sent + [] == sent;
          return sent, Success;
        }
        RunRound(State(phase, samples, rate, tries), setup, env, k);
        var r, m, report := env(k), MeasureCommand(setup, samples, rate), ReportCommand(phase);
        if !r.acked {
          return sent + [m], CommunicationFailed;
        }
        if !r.reported {
          return sent + [m, report], CommunicationFailed;
        }
        var failed;
        if phase == WaitForThroughput {
          failed := TryThroughput(setup, r, tries);
        } else {
          failed := TryLatency(setup, r, tries);
        }
        if failed {
          tries := tries + 1;
        }
        ghost var next := Run(State(phase, samples, rate, tries), setup, env, k + 1);
        assert sent + ([m, report] + next.sent) == sent + [m, report] + next.sent;
        sent, k := sent + [m, report], k + 1;
      }
      RunStops(State(phase, samples, rate, tries), setup, env, k);
      assert sent + [] == sent;
      return sent, MaxTriesReached;
    }

    /** `runExp` with a fixed load: agents are needed, and every experiment starts from the initial values. */
    method RunFixed(setup: Setup, loaded: bool, env: Environment) returns (sent: seq<Command>, result: Result)
      requires setup.agents > 0 ==> Replies(setup, env)
      modifies this
      ensures Outcome(sent, result) == if setup.agents == 0 then Outcome([], NoAgents)
                                       else Fixed(INITIAL_SAMPLES, INITIAL_RATE, setup, loaded, env)
    {
      samples, rate := INITIAL_SAMPLES, INITIAL_RATE;
      if setup.agents == 0 {
        return [], NoAgents;
      }
      sent, result := FixedSymPattern(setup, loaded, env);
    }
  }
}
