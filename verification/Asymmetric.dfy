/** Experiments with separate throughput and latency agents. */
module Asymmetric {
  import opened Numeric
  import opened Wire
  import Manager

  type Rate = x: real | 0.0 <= x

  /** The percentage of requests a latency agent samples; a division by zero gives an infinite or undefined share. */
  function LatencySampling(loadRate: int, latencyRate: int, rate: Rate): real {
    if loadRate + latencyRate == 0 then if latencyRate > 0 then 0.0 else 100.0
    else
      var portion := 100.0 * latencyRate as real / (loadRate + latencyRate) as real;
      if portion > rate then 100.0 * rate / portion else 100.0
  }

  /**
   The latency agents sample `rate` per cent of all requests, or all of their own if those are fewer; the result is
   always a percentage.
   */
  lemma SampledShare(loadRate: nat, latencyRate: nat, rate: real)
    requires latencyRate > 0 && 0.0 < rate <= 100.0
    ensures var s := LatencySampling(loadRate, latencyRate, rate);
            var all, own := rate * (loadRate + latencyRate) as real, 100.0 * latencyRate as real;
            && 0.0 < s <= 100.0
            && s * latencyRate as real == if all < own then all else own
  {
    var total, own := (loadRate + latencyRate) as real, 100.0 * latencyRate as real;
    var portion := own / total;
    ShareOfTotal(total, own, portion, rate, LatencySampling(loadRate, latencyRate, rate));
    var s, l := LatencySampling(loadRate, latencyRate, rate), latencyRate as real;
    assert s * own == 100.0 * (s * l);
  }

  lemma ShareOfTotal(total: real, own: real, portion: real, rate: real, s: real)
    requires total > 0.0 && own > 0.0 && rate > 0.0 && portion == own / total
    requires s == if portion > rate then 100.0 * rate / portion else 100.0
    ensures 0.0 < s <= 100.0
    ensures s * own == 100.0 * (if rate * total < own then rate * total else own)
  {
    assert portion * total == own;
    ScaleIff(rate, portion, total);
    if portion > rate {
      PositiveQuotient(own, total);
      Quotient(100.0 * rate, portion, s);
      ScaleIff(100.0, s, portion);
      assert s * own == (s * portion) * total;
    }
  }

  lemma PositiveQuotient(x: real, y: real)
    requires x > 0.0 && y > 0.0
    ensures x / y > 0.0
  {
  }

  lemma Quotient(x: real, y: real, q: real)
    requires x > 0.0 && y > 0.0 && q == x / y
    ensures q * y == x && q > 0.0
  {
  }

  datatype Experiment = Experiment(throughputAgents: nat, latencyRate: int, samples: nat, rate: Rate, bits: real -> nat)

  /** What the agents do in one round: which of the steps succeed. */
  datatype Round = Round(throughputLoaded: bool, latencyLoaded: bool, measured: bool, throughputReported: bool,
                         latencyReported: bool)

  /** The commands sent to each throughput agent and to each latency agent, and whether all succeeded. */
  datatype Sent = Sent(throughput: seq<Command>, latency: seq<Command>, ok: bool)

  /** `testAsymPattern`. */
  function TestAsymPattern(e: Experiment, loadRate: int, r: Round): Sent {
    var t := if e.throughputAgents > 0 then [StartLoad(Quo(loadRate, e.throughputAgents) % TWO_32)] else [];
    var l := [StartLoad(e.latencyRate % TWO_32)];
    var m := [StartMeasure(e.samples % TWO_32, ToUint64(e.bits(LatencySampling(loadRate, e.latencyRate, e.rate))))];
    if e.throughputAgents > 0 && !r.throughputLoaded then Sent(t, [], false)
    else if !r.latencyLoaded then Sent(t, l, false)
    else
      var tm := if e.throughputAgents > 0 then t + m else t;
      if !r.measured then Sent(tm, l + m, false)
      else
        var tr := if e.throughputAgents > 0 then tm + [ReportReq(REPORT_THROUGHPUT)] else tm;
        if !r.throughputReported then Sent(tr, l + m, false)
        else Sent(tr, l + m + [ReportReq(REPORT_LATENCY)], r.latencyReported)
  }

  /** At most `n` rounds of `stepPattern`, from load `loadRate` on. */
  function Steps(e: Experiment, loadRate: int, endLoad: int, step: int, env: nat -> Round, k: nat, n: nat): Sent
    decreases n
  {
    if n == 0 || loadRate >= endLoad then Sent([], [], true)
    else
      var s := TestAsymPattern(e, loadRate, env(k));
      if !s.ok then s
      else
        Then(s, Steps(e, loadRate + step, endLoad, step, env, k + 1, n - 1))
  }

  function Then(a: Sent, b: Sent): Sent {
    Sent(a.throughput + b.throughput, a.latency + b.latency, b.ok)
  }

  lemma ThenAssociates(a: Sent, b: Sent, c: Sent)
    ensures Then(a, Then(b, c)) == Then(Then(a, b), c)
  {
    assert a.throughput + (b.throughput + c.throughput) == a.throughput + b.throughput + c.throughput;
    assert a.latency + (b.latency + c.latency) == a.latency + b.latency + c.latency;
  }

  lemma ThenNothing(a: Sent)
    requires a.ok
    ensures Then(a, Sent([], [], true)) == a
  {
  }

  lemma StartFrom(a: Sent)
    ensures Then(Sent([], [], true), a) == a
  {
  }

  /** `stepPattern`, watched for `n` rounds: with a step that is not positive it need not end by itself. */
  method StepPattern(e: Experiment, startLoad: int, endLoad: int, step: int, env: nat -> Round, n: nat)
    returns (sent: Sent)
    ensures sent == Steps(e, startLoad, endLoad, step, env, 0, n)
  {
    hide TestAsymPattern, Then;
    var loadRate, k := startLoad, 0;
    sent := Sent([], [], true);
    ghost var whole := Steps(e, startLoad, endLoad, step, env, 0, n);
    StartFrom(whole);
    while k < n && loadRate < endLoad
      invariant k <= n && sent.ok
      invariant whole == Then(sent, Steps(e, loadRate, endLoad, step, env, k, n - k))
    {
      var s := TestAsymPattern(e, loadRate, env(k));
      if !s.ok {
        return Then(sent, s);
      }
      ThenAssociates(sent, s, Steps(e, loadRate + step, endLoad, step, env, k + 1, n - k - 1));
      ThenKeeps(sent, s);
      sent, loadRate, k := Then(sent, s), loadRate + step, k + 1;
    }
    ThenNothing(sent);
  }

  // What the rounds send.

  /** The sampling rate of a round is that of its load. */
  ghost predicate IsMeasurement(c: Command, e: Experiment, load: int) {
    c == StartMeasure(e.samples % TWO_32, e.bits(LatencySampling(load, e.latencyRate, e.rate)) % TWO_64)
  }

  /** Position `i` of the commands to a throughput agent in a round with load `load`. */
  ghost predicate ThroughputCommand(c: Command, i: nat, e: Experiment, load: int) {
    match i
    case 0 => exists q :: IsShare(q, load, e.throughputAgents) && c == StartLoad(q % TWO_32)
    case 1 => IsMeasurement(c, e, load)
    case _ => c == ReportReq(REPORT_THROUGHPUT)
  }

  /** Latency agents get their own load, whatever that of the round. */
  ghost predicate LatencyCommand(c: Command, i: nat, e: Experiment, load: int) {
    match i
    case 0 => c == StartLoad(e.latencyRate % TWO_32)
    case 1 => IsMeasurement(c, e, load)
    case _ => c == ReportReq(REPORT_LATENCY)
  }

  /** How many commands throughput agents are sent: the load first of all, the report only after the measurement. */
  function ThroughputSteps(r: Round): nat {
    if !r.throughputLoaded || !r.latencyLoaded then 1 else if !r.measured then 2 else 3
  }

  /** Latency agents get theirs once the throughput agents have theirs. */
  function LatencySteps(r: Round, throughputAgents: bool): nat {
    if throughputAgents && !r.throughputLoaded then 0
    else if !r.latencyLoaded then 1
    else if !r.measured || !r.throughputReported then 2
    else 3
  }

  lemma RoundCommands(e: Experiment, load: int, r: Round, p: nat)
    ensures var s := TestAsymPattern(e, load, r);
            && |s.throughput| == (if e.throughputAgents > 0 then ThroughputSteps(r) else 0)
            && |s.latency| == LatencySteps(r, e.throughputAgents > 0)
            && (p < |s.throughput| ==> ThroughputCommand(s.throughput[p], p, e, load))
            && (p < |s.latency| ==> LatencyCommand(s.latency[p], p, e, load))
            && (s.ok <==> (e.throughputAgents > 0 ==> r.throughputLoaded) && r.latencyLoaded && r.measured
                          && r.throughputReported && r.latencyReported)
  {
    hide LatencySampling, Quo, IsShare;
    if e.throughputAgents > 0 {
      QuoIsShare(load, e.throughputAgents);
    }
  }

  /**
   The commands of a stepped experiment, by position: round `j` is run with the load `startLoad + j * step`, which is
   below the end.
   */
  lemma {:induction false} StepsCommands(e: Experiment, startLoad: int, endLoad: int, step: int, env: nat -> Round,
                                         k: nat, n: nat, p: nat)
    ensures var (s, load) := (Steps(e, startLoad, endLoad, step, env, k, n), startLoad + p / 3 * step);
            && (e.throughputAgents == 0 ==> s.throughput == [])
            && (p < |s.throughput| ==> load < endLoad && ThroughputCommand(s.throughput[p], p % 3, e, load))
            && (p < |s.latency| ==> load < endLoad && LatencyCommand(s.latency[p], p % 3, e, load))
    decreases n
  {
    hide TestAsymPattern, ThroughputCommand, LatencyCommand;
    if n > 0 && startLoad < endLoad {
      RoundCommands(e, startLoad, env(k), p);
      StepsCommands(e, startLoad + step, endLoad, step, env, k + 1, n - 1, if p < 3 then 0 else p - 3);
      if p >= 3 {
        NextLoad(startLoad, step, p);
      }
    }
  }

  lemma NextLoad(load: int, step: int, p: nat)
    requires p >= 3
    ensures load + step + (p - 3) / 3 * step == load + p / 3 * step && (p - 3) % 3 == p % 3
  {
    var j := (p - 3) / 3;
    assert p / 3 == j + 1 && (j + 1) * step == j * step + step;
  }

  /** With a positive step the loop ends by itself: watching it longer than the distance to the end changes nothing. */
  lemma {:induction false} StepsEnd(e: Experiment, loadRate: int, endLoad: int, step: int,
                                    env: nat -> Round, k: nat, n: nat, m: nat)
    requires step > 0 && endLoad - loadRate <= n && endLoad - loadRate <= m
    ensures Steps(e, loadRate, endLoad, step, env, k, n) == Steps(e, loadRate, endLoad, step, env, k, m)
    decreases n
  {
    hide TestAsymPattern, Then;
    if loadRate < endLoad {
      StepsEnd(e, loadRate + step, endLoad, step, env, k + 1, n - 1, m - 1);
    }
  }

  ghost predicate AllSucceed(env: nat -> Round) {
    forall k :: env(k) == Round(true, true, true, true, true)
  }

  /** Without one it goes on for as long as all rounds succeed, with three commands to each latency agent per round. */
  lemma {:induction false} StepsGoOn(e: Experiment, loadRate: int, endLoad: int, step: int,
                                     env: nat -> Round, k: nat, n: nat)
    requires step <= 0 && loadRate < endLoad && AllSucceed(env)
    ensures |Steps(e, loadRate, endLoad, step, env, k, n).latency| == 3 * n
    decreases n
  {
    hide LatencySampling, Quo;
    if n > 0 {
      assert env(k) == Round(true, true, true, true, true);
      StepsGoOn(e, loadRate + step, endLoad, step, env, k + 1, n - 1);
    }
  }

  lemma ThenKeeps(a: Sent, b: Sent)
    ensures Then(a, b).ok == b.ok
  {
  }

  /** What one successful round sends to an agent: nothing, or a load, a measurement and its report. */
  predicate Whole(cs: seq<Command>, samples: nat) {
    || cs == []
    || (|cs| == 3 && cs[0].StartLoad? && cs[1].StartMeasure? && cs[1].samples == samples
        && cs[2].ReportReq? && cs[2].kind in {REPORT_THROUGHPUT, REPORT_LATENCY})
  }

  lemma WholeThenConversation(cs: seq<Command>, ds: seq<Command>, samples: nat)
    requires 10000 <= samples && Whole(cs, samples) && Manager.Conversation(ds, samples)
    ensures Manager.Conversation(cs + ds, samples)
  {
    if cs == [] {
      assert cs + ds == ds;
    } else {
      var tail := (cs + ds)[1..];
      assert tail[0] == cs[1] && tail[1] == cs[2] && tail[2..] == ds;
      assert Manager.Rounds(ds, samples);
      assert Manager.Rounds(tail, samples);
    }
  }

  /** The beginning of a round is a conversation. */
  lemma StartIsConversation(cs: seq<Command>, samples: nat)
    requires 10000 <= samples && |cs| <= 2
    requires |cs| > 0 ==> cs[0].StartLoad?
    requires |cs| > 1 ==> cs[1].StartMeasure? && cs[1].samples == samples
    ensures Manager.Conversation(cs, samples)
  {
    if |cs| > 0 {
      var tail := cs[1..];
      assert tail == [] || (tail == [cs[1]] && tail[1..] == []);
      assert Manager.Rounds(tail, samples);
    }
  }

  lemma OneExperiment(e: Experiment, loadRate: int, r: Round)
    requires 10000 <= e.samples < TWO_32
    ensures var s := TestAsymPattern(e, loadRate, r);
            && Manager.Conversation(s.throughput, e.samples) && Manager.Conversation(s.latency, e.samples)
            && (s.ok ==> Whole(s.throughput, e.samples) && Whole(s.latency, e.samples))
            && (forall c :: c in s.throughput || c in s.latency ==> c.Fits())
  {
    hide LatencySampling, Quo, Manager.Rounds;
    var s := TestAsymPattern(e, loadRate, r);
    if |s.throughput| == 3 {
      WholeThenConversation(s.throughput, [], e.samples);
      assert s.throughput + [] == s.throughput;
    } else {
      StartIsConversation(s.throughput, e.samples);
    }
    if |s.latency| == 3 {
      WholeThenConversation(s.latency, [], e.samples);
      assert s.latency + [] == s.latency;
    } else {
      StartIsConversation(s.latency, e.samples);
    }
  }

  /** However many steps are taken, every agent is sent a conversation with the given number of samples. */
  lemma {:induction false} StepsAreConversations(e: Experiment, loadRate: int, endLoad: int, step: int,
                                                 env: nat -> Round, k: nat, n: nat)
    requires 10000 <= e.samples < TWO_32
    ensures var s := Steps(e, loadRate, endLoad, step, env, k, n);
            && Manager.Conversation(s.throughput, e.samples) && Manager.Conversation(s.latency, e.samples)
            && (forall c :: c in s.throughput || c in s.latency ==> c.Fits())
    decreases n
  {
    hide LatencySampling, Quo;
    if n > 0 && loadRate < endLoad {
      var s := TestAsymPattern(e, loadRate, env(k));
      OneExperiment(e, loadRate, env(k));
      if s.ok {
        StepsAreConversations(e, loadRate + step, endLoad, step, env, k + 1, n - 1);
        var rest := Steps(e, loadRate + step, endLoad, step, env, k + 1, n - 1);
        WholeThenConversation(s.throughput, rest.throughput, e.samples);
        WholeThenConversation(s.latency, rest.latency, e.samples);
      }
    }
  }
}
