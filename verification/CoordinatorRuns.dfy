/** What every run of the adaptive experiment does, told by its rounds alone. */
module CoordinatorRuns {
  import opened Numeric
  import opened Wire
  import opened AgentStats
  import opened Coordinator
  import Manager

  function Power2(n: nat): (p: nat)
    ensures p > 0
  {
    if n == 0 then 1 else 2 * Power2(n - 1)
  }

  // What the replies of a round lead to.

  /** Over a quarter; a value that is not a number compares as false. */
  predicate Exceeds(c: Double) {
    match c
    case NotANumber => false
    case Infinite(positive) => positive
    case Finite(v) => v > 0.25
  }

  ghost predicate HighCorrelation(r: Round) {
    exists i :: 0 <= i < |r.correlations| && Exceeds(r.correlations[i])
  }

  /** No correlation is high, and some is zero or the interval is too wide. */
  ghost predicate Inconclusive(setup: Setup, r: Round)
    requires |r.latency| > 0
  {
    && !HighCorrelation(r)
    && (Pearson.Finite(0.0) in r.correlations || CiTooWide(AggregateLatency(r.latency), setup.ciSize))
  }

  lemma VerdictIff(setup: Setup, r: Round)
    requires |r.latency| > 0
    ensures JudgeLatency(setup, r) == Correlated <==> HighCorrelation(r)
    ensures JudgeLatency(setup, r) in {ZeroCorrelation, TooWide} <==> Inconclusive(setup, r)
    ensures LatencyOk(setup, r) <==> !HighCorrelation(r) && !Inconclusive(setup, r)
  {
    hide CiTooWide;
    forall i | 0 <= i < |r.correlations|
      ensures Above(r.correlations[i], 0.25) <==> Exceeds(r.correlations[i])
    {
    }
  }

  /** How many of the rounds have a high correlation. */
  ghost function Halvings(env: Environment, from: nat, to: nat): (n: nat)
    ensures n <= if from <= to then to - from else 0
  {
    if to <= from then 0 else Halvings(env, from, to - 1) + if HighCorrelation(env(to - 1)) then 1 else 0
  }

  /** How many of the rounds are inconclusive. */
  ghost function Widenings(setup: Setup, env: Environment, from: nat, to: nat): (n: nat)
    requires Replies(setup, env)
    ensures n <= if from <= to then to - from else 0
  {
    if to <= from then 0
    else Widenings(setup, env, from, to - 1) + if Inconclusive(setup, env(to - 1)) then 1 else 0
  }

  /**
   The rounds before `j`: the first `i` miss the throughput, the next one meets it before the tries are used up, and
   the others fail the latency checks.
   */
  ghost predicate Trail(setup: Setup, env: Environment, i: nat, j: nat)
    requires Replies(setup, env)
  {
    && i <= j
    && (forall k :: 0 <= k < j ==> Complete(env(k)))
    && (forall k :: 0 <= k < i ==> !ThroughputOk(setup, env(k)))
    && (i < j ==> i < MAX_TRIES && ThroughputOk(setup, env(i)))
    && (forall k :: i < k < j ==> !LatencyOk(setup, env(k)))
  }

  /** The tries used up: the round that meets the throughput costs none. */
  function TriesAt(i: nat, j: nat): nat {
    if i >= j then i else j - 1
  }

  /** High correlations halve the sampling rate, inconclusive rounds ask for ten thousand samples more. */
  ghost function StateAt(setup: Setup, env: Environment, i: nat, j: nat): State
    requires Replies(setup, env)
  {
    State(if i == j then WaitForThroughput else WaitForLatency,
          10000 + 10000 * Widenings(setup, env, i + 1, j), 20.0 / Power2(Halvings(env, i + 1, j)) as real,
          TriesAt(i, j))
  }

  /** How a run that has come to round `j` ends there. */
  ghost predicate EndsAs(setup: Setup, env: Environment, i: nat, j: nat, result: Result)
    requires Replies(setup, env)
  {
    match result
    case MaxTriesReached => TriesAt(i, j) == 20
    case CommunicationFailed => TriesAt(i, j) < 20 && !Complete(env(j))
    case Success => i < j && TriesAt(i, j) < 20 && Complete(env(j)) && LatencyOk(setup, env(j))
    case NoAgents => false
  }

  /** What is still sent in the last round: the measurement, and the report if that was acknowledged. */
  function LastSent(r: Round, result: Result): nat {
    match result
    case CommunicationFailed => if r.acked then 2 else 1
    case Success => 2
    case _ => 0
  }

  lemma HalvePower(n: nat)
    ensures INITIAL_RATE / Power2(n) as real / 2.0 == INITIAL_RATE / Power2(n + 1) as real
  {
    var p := Power2(n) as real;
    assert Power2(n + 1) as real == 2.0 * p;
    DivideTwice(INITIAL_RATE, p);
  }

  lemma DivideTwice(x: real, p: real)
    requires p > 0.0
    ensures x / p / 2.0 == x / (2.0 * p)
  {
    var q := x / p;
    assert q * p == x;
    assert q / 2.0 * (2.0 * p) == x;
  }

  /** One failed latency round takes the state at `j` to the state at `j + 1`. */
  lemma LatencyStep(setup: Setup, env: Environment, i: nat, j: nat)
    requires Replies(setup, env) && i < j && !LatencyOk(setup, env(j))
    ensures After(StateAt(setup, env, i, j), JudgeLatency(setup, env(j))) == StateAt(setup, env, i, j + 1)
  {
    hide Power2, JudgeLatency, HighCorrelation, Inconclusive;
    VerdictIff(setup, env(j));
    HalvePower(Halvings(env, i + 1, j));
  }

  /** One round takes the state at the end of a trail to the state at the end of the longer trail, unless it ends. */
  lemma TrailStep(setup: Setup, env: Environment, i: nat, j: nat) returns (i': nat)
    requires Replies(setup, env) && Trail(setup, env, i, j) && TriesAt(i, j) < MAX_TRIES
    requires Complete(env(j)) && !(i < j && LatencyOk(setup, env(j)))
    ensures Trail(setup, env, i', j + 1)
    ensures var st := StateAt(setup, env, i, j);
            After(st, Judge(st.phase, setup, env(j))) == StateAt(setup, env, i', j + 1)
    ensures i' == if i == j && !ThroughputOk(setup, env(j)) then j + 1 else i
    ensures TriesAt(i', j + 1) > TriesAt(i, j) || (TriesAt(i', j + 1) == TriesAt(i, j) && i == j && i' <= j)
  {
    hide LatencyOk, ThroughputOk, JudgeLatency, Power2, Complete;
    if i == j {
      i' := if ThroughputOk(setup, env(j)) then i else j + 1;
    } else {
      LatencyStep(setup, env, i, j);
      i' := i;
    }
  }

  /** A run from the end of a trail comes to an end of some longer trail. */
  lemma {:induction false} RunEnds(setup: Setup, env: Environment, i: nat, j: nat) returns (i': nat, j': nat)
    requires Replies(setup, env) && Trail(setup, env, i, j) && TriesAt(i, j) <= MAX_TRIES
    ensures Trail(setup, env, i', j')
    ensures var o := Run(StateAt(setup, env, i, j), setup, env, j);
            && EndsAs(setup, env, i', j', o.result)
            && j <= j' && |o.sent| == 2 * (j' - j) + LastSent(env(j'), o.result)
    decreases MAX_TRIES - TriesAt(i, j), if i == j then 1 else 0
  {
    hide Judge, Halvings, Widenings, Trail, ThroughputOk, Power2;
    var st := StateAt(setup, env, i, j);
    if st.tries == MAX_TRIES || !Complete(env(j)) {
      return i, j;
    } else if i < j && LatencyOk(setup, env(j)) {
      LatencyAccepted(st, setup, env, j);
      return i, j;
    } else {
      var n := TrailStep(setup, env, i, j);
      i', j' := RunEnds(setup, env, n, j + 1);
    }
  }

  /** An accepted latency round ends the run. */
  lemma LatencyAccepted(st: State, setup: Setup, env: Environment, j: nat)
    requires Replies(setup, env) && st.phase == WaitForLatency && st.tries < MAX_TRIES
    requires Complete(env(j)) && LatencyOk(setup, env(j))
    ensures Run(st, setup, env, j).result == Success
    ensures Run(st, setup, env, j).sent == [MeasureCommand(setup, st.samples, st.rate), ReportCommand(WaitForLatency)]
  {
    var next := After(st, Judge(st.phase, setup, env(j)));
    assert next.phase == Exit && next.tries == st.tries;
  }

  /** The run from the start passes through the end of every trail that leaves tries. */
  lemma {:induction false} RunPasses(setup: Setup, env: Environment, i: nat, j: nat)
    requires Replies(setup, env) && Trail(setup, env, i, j) && TriesAt(i, j) <= MAX_TRIES
    ensures Run(StateAt(setup, env, 0, 0), setup, env, 0).result == Run(StateAt(setup, env, i, j), setup, env, j).result
    decreases j
  {
    hide Judge, StateAt, ThroughputOk, LatencyOk, Complete, Run;
    if j > 0 {
      var i0 := TrailShorter(setup, env, i, j);
      RunPasses(setup, env, i0, j - 1);
      RunStep(setup, env, i, j, i0);
    }
  }

  /** A trail without its last round is a trail, and its last round did not end the run. */
  lemma TrailShorter(setup: Setup, env: Environment, i: nat, j: nat) returns (i0: nat)
    requires Replies(setup, env) && Trail(setup, env, i, j) && j > 0 && TriesAt(i, j) <= MAX_TRIES
    ensures i0 == (if i == j then j - 1 else i) && i0 <= j - 1
    ensures Trail(setup, env, i0, j - 1) && TriesAt(i0, j - 1) < MAX_TRIES
    ensures Complete(env(j - 1)) && !(i0 < j - 1 && LatencyOk(setup, env(j - 1)))
    ensures i0 == j - 1 ==> (i == j <==> !ThroughputOk(setup, env(j - 1)))
  {
    hide LatencyOk, ThroughputOk, Complete;
    i0 := if i == j then j - 1 else i;
  }

  lemma RunStep(setup: Setup, env: Environment, i: nat, j: nat, i0: nat)
    requires Replies(setup, env) && j > 0 && i0 == (if i == j then j - 1 else i) && i0 <= j - 1
    requires Trail(setup, env, i0, j - 1) && TriesAt(i0, j - 1) < MAX_TRIES
    requires Complete(env(j - 1)) && !(i0 < j - 1 && LatencyOk(setup, env(j - 1)))
    requires i0 == j - 1 ==> (i == j <==> !ThroughputOk(setup, env(j - 1)))
    ensures Run(StateAt(setup, env, i0, j - 1), setup, env, j - 1).result
         == Run(StateAt(setup, env, i, j), setup, env, j).result
  {
    hide Judge, Trail, LatencyOk, ThroughputOk, Halvings, Widenings, Power2;
    var n := TrailStep(setup, env, i0, j - 1);
  }

  /** The result of the run, told by its rounds: the result is `result` exactly if some trail ends as `result`. */
  lemma ResultIff(setup: Setup, env: Environment, result: Result)
    requires Replies(setup, env)
    ensures Fixed(INITIAL_SAMPLES, INITIAL_RATE, setup, true, env).result == result
            <==> exists i, j :: Trail(setup, env, i, j) && EndsAs(setup, env, i, j, result)
  {
    hide Judge, Halvings, Widenings, Power2, Trail;
    InitialState(setup, env);
    var i', j' := RunEnds(setup, env, 0, 0);
    forall i, j | Trail(setup, env, i, j) && EndsAs(setup, env, i, j, result)
      ensures Fixed(INITIAL_SAMPLES, INITIAL_RATE, setup, true, env).result == result
    {
      RunPasses(setup, env, i, j);
      if result == Success {
        LatencyAccepted(StateAt(setup, env, i, j), setup, env, j);
      }
    }
  }

  /** The run goes through the rounds of some trail: the load, two commands in each, and those of the last round. */
  lemma RunTold(setup: Setup, env: Environment)
    requires Replies(setup, env)
    ensures var o := Fixed(INITIAL_SAMPLES, INITIAL_RATE, setup, true, env);
            exists i: nat, j: nat :: Trail(setup, env, i, j) && EndsAs(setup, env, i, j, o.result)
                                     && |o.sent| == 1 + 2 * j + LastSent(env(j), o.result)
  {
    hide Judge, Halvings, Widenings, Power2, Trail, EndsAs, Run;
    InitialState(setup, env);
    var i', j' := RunEnds(setup, env, 0, 0);
  }

  lemma InitialState(setup: Setup, env: Environment)
    requires Replies(setup, env)
    ensures StateAt(setup, env, 0, 0) == State(WaitForThroughput, INITIAL_SAMPLES, INITIAL_RATE, 0)
    ensures Trail(setup, env, 0, 0)
  {
    assert Power2(0) == 1;
  }

  // The commands.

  /** The command at position `p` starts the measurement of round `k`, and is followed by that round's report. */
  ghost predicate MeasuredAt(sent: seq<Command>, p: nat, setup: Setup, env: Environment, k: nat)
    requires Replies(setup, env) && p < |sent|
  {
    exists i :: Trail(setup, env, i, k) && TriesAt(i, k) < MAX_TRIES
                && Measured(sent, p, setup, StateAt(setup, env, i, k))
  }

  /** The samples wanted of each agent at the sampling rate of all of them together, and the kind of report. */
  ghost predicate Measured(sent: seq<Command>, p: nat, setup: Setup, st: State)
    requires p < |sent|
  {
    && (exists total :: total == setup.agents as real * st.rate
                        && sent[p] == StartMeasure(st.samples, setup.bits(total) % TWO_64))
    && (p + 1 < |sent| ==>
          sent[p + 1] == ReportReq(if st.phase == WaitForThroughput then REPORT_THROUGHPUT else REPORT_LATENCY))
  }

  lemma {:induction false} RunMeasures(setup: Setup, env: Environment, i: nat, j: nat)
    requires Replies(setup, env) && Trail(setup, env, i, j) && TriesAt(i, j) <= MAX_TRIES
    ensures var sent := Run(StateAt(setup, env, i, j), setup, env, j).sent;
            forall n :: 0 <= 2 * n < |sent| ==> MeasuredAt(sent, 2 * n, setup, env, j + n)
    decreases MAX_TRIES - TriesAt(i, j), if i == j then 1 else 0
  {
    hide Judge, Halvings, Widenings, Trail, ThroughputOk, Power2, MeasureCommand, ReportCommand, LatencyOk, Run, After,
         MeasuredAt;
    var st := StateAt(setup, env, i, j);
    var sent := Run(st, setup, env, j).sent;
    if st.tries == MAX_TRIES {
      RunStops(st, setup, env, j);
    } else {
      RunRound(st, setup, env, j);
      if Complete(env(j)) && i < j && LatencyOk(setup, env(j)) {
        LatencyAccepted(st, setup, env, j);
      } else if Complete(env(j)) {
        var i' := TrailStep(setup, env, i, j);
        RunMeasures(setup, env, i', j + 1);
        MeasuredLater(sent, Run(StateAt(setup, env, i', j + 1), setup, env, j + 1).sent, setup, env, i, j);
      }
      MeasuredNow(sent, setup, env, i, j);
    }
  }

  lemma MeasuredNow(sent: seq<Command>, setup: Setup, env: Environment, i: nat, j: nat)
    requires Replies(setup, env) && Trail(setup, env, i, j) && TriesAt(i, j) < MAX_TRIES
    requires var st := StateAt(setup, env, i, j);
             && sent != [] && sent[0] == MeasureCommand(setup, st.samples, st.rate)
             && (|sent| > 1 ==> sent[1] == ReportCommand(st.phase))
    ensures MeasuredAt(sent, 2 * 0, setup, env, j + 0)
  {
    hide StateAt, Trail, Measured, MeasureCommand, ReportCommand, HalvedUpTo, Replies;
    StateBounds(setup, env, i, j);
    CommandsMeasure(sent, setup, StateAt(setup, env, i, j));
  }

  lemma CommandsMeasure(sent: seq<Command>, setup: Setup, st: State)
    requires sent != [] && sent[0] == MeasureCommand(setup, st.samples, st.rate) && st.samples <= 200000
    requires |sent| > 1 ==> sent[1] == ReportCommand(st.phase)
    ensures Measured(sent, 0, setup, st)
  {
    assert setup.bits(TotalRate(setup, st.rate)) % TWO_64 == sent[0].rateBits;
  }

  lemma MeasuredLater(sent: seq<Command>, tail: seq<Command>, setup: Setup, env: Environment, i: nat, j: nat)
    requires Replies(setup, env) && |sent| >= 2 && tail == sent[2..]
    requires forall n :: 0 <= 2 * n < |tail| ==> MeasuredAt(tail, 2 * n, setup, env, j + 1 + n)
    ensures forall n :: 1 <= n && 2 * n < |sent| ==> MeasuredAt(sent, 2 * n, setup, env, j + n)
  {
    hide Trail, StateAt, MeasureCommand, ReportCommand;
    forall n | 1 <= n && 2 * n < |sent| ensures MeasuredAt(sent, 2 * n, setup, env, j + n) {
      var m := n - 1;
      assert MeasuredAt(tail, 2 * m, setup, env, j + 1 + m);
      var i' :| Trail(setup, env, i', j + n) && TriesAt(i', j + n) < MAX_TRIES
                && Measured(tail, 2 * m, setup, StateAt(setup, env, i', j + n));
      assert Measured(sent, 2 * n, setup, StateAt(setup, env, i', j + n));
    }
  }

  /**
   Every agent is sent its share of the load; every measurement asks for as many samples, at the rate, that the replies
   so far determine.
   */
  lemma MeasurementsFollowVerdicts(setup: Setup, env: Environment, loaded: bool)
    requires Replies(setup, env)
    ensures var sent := Fixed(INITIAL_SAMPLES, INITIAL_RATE, setup, loaded, env).sent;
            && sent != []
            && (exists q :: IsShare(q, setup.loadRate, setup.agents) && sent[0] == StartLoad(q % TWO_32))
            && forall n :: 0 <= n && 2 * n + 1 < |sent| ==> MeasuredAt(sent, 2 * n + 1, setup, env, n)
  {
    hide MeasureCommand, ReportCommand, StateAt, Trail, Run, Quo, IsShare;
    QuoIsShare(setup.loadRate, setup.agents);
    if loaded {
      InitialState(setup, env);
      RunMeasures(setup, env, 0, 0);
      var sent := Run(StateAt(setup, env, 0, 0), setup, env, 0).sent;
      var all := Fixed(INITIAL_SAMPLES, INITIAL_RATE, setup, true, env).sent;
      assert sent == all[1..];
      forall n | 0 <= n && 2 * n + 1 < |all| ensures MeasuredAt(all, 2 * n + 1, setup, env, n) {
        assert MeasuredAt(sent, 2 * n, setup, env, 0 + n);
        var i :| Trail(setup, env, i, n) && TriesAt(i, n) < MAX_TRIES
                 && Measured(sent, 2 * n, setup, StateAt(setup, env, i, n));
        assert Measured(all, 2 * n + 1, setup, StateAt(setup, env, i, n));
      }
    }
  }

  /** At most 200000 samples are ever asked for, and the rate stays positive: it is halved at most 19 times. */
  lemma StateBounds(setup: Setup, env: Environment, i: nat, j: nat)
    requires Replies(setup, env) && Trail(setup, env, i, j) && TriesAt(i, j) < MAX_TRIES
    ensures var st := StateAt(setup, env, i, j);
            INITIAL_SAMPLES <= st.samples <= 200000 && HalvedUpTo(st.rate, MAX_TRIES - 1)
  {
    hide Power2, Halvings, Widenings, Replies, Trail;
    TrailLength(setup, env, i, j);
    var b := Halvings(env, i + 1, j);
    Undivide(StateAt(setup, env, i, j).rate, INITIAL_RATE, Power2(b) as real);
    assert IsHalved(StateAt(setup, env, i, j).rate, b);
  }

  ghost predicate HalvedUpTo(rate: real, limit: nat) {
    exists b: nat :: b <= limit && IsHalved(rate, b)
  }

  predicate IsHalved(rate: real, b: nat) {
    rate > 0.0 && rate * Power2(b) as real == INITIAL_RATE
  }

  lemma Undivide(x: real, y: real, p: real)
    requires p > 0.0 && y > 0.0 && x == y / p
    ensures x * p == y && x > 0.0
  {
  }

  lemma TrailLength(setup: Setup, env: Environment, i: nat, j: nat)
    requires Replies(setup, env) && Trail(setup, env, i, j) && TriesAt(i, j) < MAX_TRIES
    ensures i <= j <= MAX_TRIES
  {
  }

  /** Each failed latency round is counted once, so the verdicts add up to the tries. */
  lemma {:induction false} CountsAddUp(setup: Setup, env: Environment, from: nat, to: nat)
    requires Replies(setup, env) && from <= to
    requires forall k :: from <= k < to ==> !LatencyOk(setup, env(k))
    ensures Halvings(env, from, to) + Widenings(setup, env, from, to) == to - from
  {
    hide JudgeLatency, HighCorrelation, Inconclusive;
    if from < to {
      VerdictIff(setup, env(to - 1));
      CountsAddUp(setup, env, from, to - 1);
    }
  }

  /** The accounting of the tries: throughput failures, halvings of the rate and increases of the samples. */
  lemma TriesAccounted(setup: Setup, env: Environment, i: nat, j: nat)
    requires Replies(setup, env) && Trail(setup, env, i, j)
    ensures i + Halvings(env, i + 1, j) + Widenings(setup, env, i + 1, j)
            == StateAt(setup, env, i, j).tries
  {
    hide LatencyOk, Complete, ThroughputOk, Power2;
    if i < j {
      CountsAddUp(setup, env, i + 1, j);
    }
  }

  /** A run stops after at most 21 rounds. */
  lemma {:induction false} RunLength(st: State, setup: Setup, env: Environment, k: nat)
    requires Replies(setup, env) && st.tries <= MAX_TRIES
    ensures |Run(st, setup, env, k).sent| <= 2 * (MAX_TRIES - st.tries + if st.phase == WaitForThroughput then 1 else 0)
    decreases MAX_TRIES - st.tries, st.phase.Left()
  {
    hide JudgeLatency, ThroughputOk;
    if st.tries < MAX_TRIES && st.phase != Exit && Complete(env(k)) {
      RunLength(After(st, Judge(st.phase, setup, env(k))), setup, env, k + 1);
    }
  }

  lemma {:induction false} RunIsRounds(st: State, setup: Setup, env: Environment, k: nat)
    requires Replies(setup, env) && st.tries <= MAX_TRIES
    requires INITIAL_SAMPLES <= st.samples <= INITIAL_SAMPLES + SAMPLES_STEP * st.tries
    ensures Manager.Rounds(Run(st, setup, env, k).sent, 200000)
    decreases MAX_TRIES - st.tries, st.phase.Left()
  {
    hide JudgeLatency, ThroughputOk;
    if st.tries < MAX_TRIES && st.phase != Exit {
      var sent := Run(st, setup, env, k).sent;
      assert sent[0] == MeasureCommand(setup, st.samples, st.rate) && sent[0].samples == st.samples;
      if Complete(env(k)) {
        var st' := After(st, Judge(st.phase, setup, env(k)));
        RunIsRounds(st', setup, env, k + 1);
        assert sent[2..] == Run(st', setup, env, k + 1).sent;
      }
    }
  }

  /** Whatever the agents reply, what an agent is sent is a conversation with at most 200000 samples per measurement. */
  lemma SentIsConversation(setup: Setup, loaded: bool, env: Environment)
    requires Replies(setup, env)
    ensures Manager.Conversation(Fixed(INITIAL_SAMPLES, INITIAL_RATE, setup, loaded, env).sent, 200000)
  {
    hide Run, Manager.Rounds;
    if loaded {
      var st := State(WaitForThroughput, INITIAL_SAMPLES, INITIAL_RATE, 0);
      RunIsRounds(st, setup, env, 0);
      var all := Fixed(INITIAL_SAMPLES, INITIAL_RATE, setup, true, env).sent;
      assert all[1..] == Run(st, setup, env, 0).sent;
    } else {
      RoundsEmpty(Fixed(INITIAL_SAMPLES, INITIAL_RATE, setup, false, env).sent[1..]);
    }
  }

  lemma RoundsEmpty(cs: seq<Command>)
    requires cs == []
    ensures Manager.Rounds(cs, 200000)
  {
  }

  /** Every command fits the fields it is sent in. */
  lemma {:induction false} RunFits(st: State, setup: Setup, env: Environment, k: nat)
    requires Replies(setup, env)
    ensures forall c :: c in Run(st, setup, env, k).sent ==> c.Fits()
    decreases MAX_TRIES - st.tries, st.phase.Left()
  {
    hide JudgeLatency, ThroughputOk;
    if st.tries < MAX_TRIES && st.phase != Exit && Complete(env(k)) {
      RunFits(After(st, Judge(st.phase, setup, env(k))), setup, env, k + 1);
    }
  }

  // What the checks of a round let through.

  /** A correlation passes both scans: it is not a number, or at most a quarter, and not zero. */
  predicate Passes(c: Double) {
    match c
    case NotANumber => true
    case Infinite(positive) => !positive
    case Finite(v) => v <= 0.25 && v != 0.0
  }

  /** A latency round is accepted exactly if every correlation passes and the interval is narrow enough. */
  lemma AcceptedIff(setup: Setup, r: Round)
    requires |r.latency| > 0
    ensures LatencyOk(setup, r) <==>
            (forall i :: 0 <= i < |r.correlations| ==> Passes(r.correlations[i]))
            && !CiTooWide(AggregateLatency(r.latency), setup.ciSize)
  {
    var cs := r.correlations;
    if !SomeAbove(cs) && !SomeZero(cs) {
      forall i | 0 <= i < |cs| ensures Passes(cs[i]) {
        assert !Above(cs[i], 0.25) && cs[i] != Pearson.Finite(0.0);
      }
    } else if SomeZero(cs) {
      var i :| 0 <= i < |cs| && cs[i] == Pearson.Finite(0.0);
      assert !Passes(cs[i]);
    }
  }

  /** The environments differ at most in the convergence verdicts. */
  ghost predicate SameButConvergence(e: Environment, f: Environment) {
    forall k :: e(k).(convergence := []) == f(k).(convergence := [])
  }

  /** The convergence verdicts of the agents have no influence on the run. */
  lemma {:induction false} ConvergenceIgnored(st: State, setup: Setup, e: Environment, f: Environment, k: nat)
    requires Replies(setup, e) && Replies(setup, f) && SameButConvergence(e, f)
    ensures Run(st, setup, e, k) == Run(st, setup, f, k)
    decreases MAX_TRIES - st.tries, st.phase.Left()
  {
    hide CiTooWide, OffTarget;
    if st.tries < MAX_TRIES && st.phase != Exit {
      assert e(k).(convergence := []) == f(k).(convergence := []);
      if Complete(e(k)) {
        assert Judge(st.phase, setup, e(k)) == Judge(st.phase, setup, f(k));
        ConvergenceIgnored(After(st, Judge(st.phase, setup, e(k))), setup, e, f, k + 1);
      }
    }
  }
}
