/** Coordinator, agents and statistics together. */
module EndToEnd {
  import opened Numeric
  import opened Wire
  import opened Comparators
  import opened ThreadStats
  import InterArrival
  import Manager
  import AgentStats
  import Coordinator
  import CoordinatorRuns
  import Asymmetric

  // Safety of the protocol.

  lemma {:induction false} RoundsPrefix(cs: seq<Command>, limit: nat, p: nat)
    requires Manager.Rounds(cs, limit) && p <= |cs|
    ensures Manager.Rounds(cs[..p], limit)
    decreases |cs|
  {
    var part := cs[..p];
    if p == 0 {
    } else if cs[0].StartLoad? {
      RoundsPrefix(cs[1..], limit, p - 1);
      assert part[1..] == cs[1..][..p - 1];
    } else if p >= 2 {
      RoundsPrefix(cs[2..], limit, p - 2);
      assert part[2..] == cs[2..][..p - 2] && part[1] == cs[1];
    }
  }

  /** Threads hold no more samples than their rings have slots since the measurement a report is about. */
  ghost predicate HeldWithin(cs: seq<Command>, w: Manager.World, cfg: Manager.Config)
    requires cfg.threads > 0
  {
    forall i :: 0 < i < |cs| && cs[i].ReportReq? && cs[i - 1].StartMeasure? ==>
                  w.held(i).samples <= cfg.threads * Manager.PerThreadSamples(cs[i - 1].samples, cfg.threads)
  }

  /** At every command the threads are alive, the load can be set, and every report is possible. */
  ghost predicate CommandsPossible(cs: seq<Command>, w: Manager.World, cfg: Manager.Config) {
    forall i :: 0 <= i < |cs| ==> CommandPossible(cs[i], w.held(i), cfg)
  }

  predicate CommandPossible(c: Command, held: Manager.Held, cfg: Manager.Config) {
    held.alive && (c.StartLoad? ==> cfg.averaged) && (c.ReportReq? ==> ReportPossible(c.kind, held, cfg))
  }

  /** A latency report finds 4 samples, and on hardware-timed agents every report times the test can process. */
  predicate ReportPossible(kind: nat, held: Manager.Held, cfg: Manager.Config) {
    && (kind == REPORT_LATENCY ==> held.samples >= 4)
    && (cfg.agent == Manager.SymmetricNicAgent ==> InterArrival.ComplianceRuns(held.times))
  }

  /** Served until the first impossible command, and to the end exactly if there is none; what was served is set. */
  ghost predicate ServedWell(cs: seq<Command>, r: Manager.Served, w: Manager.World, cfg: Manager.Config)
    requires cfg.threads > 0
  {
    && Manager.ServedUntil(cs, r, w, 0, cfg)
    && Manager.SetAs(r.st, cs[..|r.answers|], Manager.INITIAL, cfg.threads)
    && (r.ended == Manager.AllHandled <==> CommandsPossible(cs, w, cfg))
  }

  /** The same for the bytes the commands are sent in. */
  ghost predicate ServedBytesWell(cs: seq<Command>, w: Manager.World, cfg: Manager.Config)
    requires cfg.threads > 0
  {
    ServedWell(cs, Manager.ServeBytes(Manager.INITIAL, EncodeCommands(cs), w, 0, cfg), w, cfg)
  }

  /** Agents as the experiments need them: enough threads, and an exact square root. */
  ghost predicate Suitable(cfg: Manager.Config) {
    2 <= cfg.threads <= MAX_STATS_THREADS && IsSqrt(cfg.sqrt)
  }

  /** Measurements ask for 10000 samples up to the limit, and every report has its measurement right before it. */
  ghost predicate InRounds(cs: seq<Command>, limit: nat, i: nat)
    requires i < |cs|
  {
    && (cs[i].StartMeasure? ==> 10000 <= cs[i].samples <= limit)
    && (cs[i].ReportReq? ==> i > 0 && cs[i - 1].StartMeasure? && 10000 <= cs[i - 1].samples <= limit)
  }

  lemma {:induction false} RoundsShape(cs: seq<Command>, limit: nat)
    requires Manager.Rounds(cs, limit)
    ensures forall i :: 0 <= i < |cs| ==> InRounds(cs, limit, i)
    decreases |cs|
  {
    if cs != [] {
      var k := if cs[0].StartLoad? || |cs| == 1 then 1 else 2;
      var tail := cs[k..];
      assert cs[..1][1..] == [];
      if |cs| == 1 {
        assert tail == [];
      }
      RoundsShape(tail, limit);
      forall i | 0 <= i < |cs| ensures InRounds(cs, limit, i) {
        if i >= k {
          assert InRounds(tail, limit, i - k);
        }
      }
    }
  }

  lemma AcceptableIff(cs: seq<Command>, w: Manager.World, cfg: Manager.Config, i: nat)
    requires Suitable(cfg) && HeldWithin(cs, w, cfg) && i < |cs| && InRounds(cs, 200000, i)
    ensures Manager.Acceptable(cfg, cs[i], w.held(i)) <==> CommandPossible(cs[i], w.held(i), cfg)
  {
    hide Manager.PerThreadSamples, Manager.Reportable, Manager.CapAccepted;
    match cs[i]
    case StartLoad(_) =>
    case StartMeasure(samples, _) => Manager.CapInRange(samples, cfg.threads);
    case ReportReq(kind) =>
      Manager.CapInRange(cs[i - 1].samples, cfg.threads);
      Manager.ReportableIff(cfg, kind, w.held(i));
  }

  lemma ConversationServed(cs: seq<Command>, w: Manager.World, cfg: Manager.Config)
    requires Suitable(cfg) && Manager.Monotone(w.clock) && Manager.Conversation(cs, 200000) && HeldWithin(cs, w, cfg)
    ensures ServedWell(cs, Manager.Serve(Manager.INITIAL, cs, w, 0, cfg), w, cfg)
  {
    hide Manager.Acceptable, Manager.Serve, Manager.SetAs, CommandPossible, HeldWithin;
    UntilServed(cs, 200000, w, cfg);
    Manager.SettingsFollow(Manager.INITIAL, cs, w, 0, cfg);
    if cs != [] {
      RoundsShape(cs[1..], 200000);
    }
    forall i | 0 <= i < |cs|
      ensures Manager.Acceptable(cfg, cs[i], w.held(i)) <==> CommandPossible(cs[i], w.held(i), cfg)
    {
      if i > 0 {
        assert InRounds(cs[1..], 200000, i - 1);
      }
      AcceptableIff(cs, w, cfg, i);
    }
  }

  /** Any conversation is served until the first command the agent cannot get past. */
  lemma UntilServed(cs: seq<Command>, limit: nat, w: Manager.World, cfg: Manager.Config)
    requires cfg.threads > 0 && Manager.Monotone(w.clock) && Manager.Conversation(cs, limit)
    ensures Manager.ServedUntil(cs, Manager.Serve(Manager.INITIAL, cs, w, 0, cfg), w, 0, cfg)
  {
    hide Manager.Rounds, Manager.CapAccepted, Manager.Reportable, Manager.ServedUntil;
    var r := Manager.Serve(Manager.INITIAL, cs, w, 0, cfg);
    if cs == [] {
      Manager.NothingServed(cs, r, w, 0, cfg);
    } else {
      var o := Manager.Handle(Manager.INITIAL, cs[0], w.clock(0), cfg, w.held(0));
      if o.Abort? {
        Manager.NothingServed(cs, r, w, 0, cfg);
        return;
      }
      Manager.RoundsServed(o.st, cs[1..], limit, w, 1, cfg);
      Manager.LaterServed(cs, 1, r, Manager.Serve(o.st, cs[1..], w, 1, cfg), w, 0, cfg);
    }
  }

  lemma PrefixIsConversation(cs: seq<Command>, limit: nat, p: nat)
    requires Manager.Conversation(cs, limit) && p <= |cs|
    ensures Manager.Conversation(cs[..p], limit)
  {
    hide Manager.Rounds;
    if p > 0 {
      RoundsPrefix(cs[1..], limit, p - 1);
      assert cs[..p][1..] == cs[1..][..p - 1];
    }
  }

  lemma PrefixServed(cs: seq<Command>, p: nat, w: Manager.World, cfg: Manager.Config)
    requires Suitable(cfg) && Manager.Monotone(w.clock) && Manager.Conversation(cs, 200000) && p <= |cs|
    requires HeldWithin(cs[..p], w, cfg)
    requires forall c :: c in cs ==> c.Fits()
    ensures ServedWell(cs[..p], Manager.ServeBytes(Manager.INITIAL, EncodeCommands(cs[..p]), w, 0, cfg), w, cfg)
  {
    hide Manager.Conversation, ServedWell, EncodeCommands, HeldWithin;
    PrefixIsConversation(cs, 200000, p);
    ConversationServed(cs[..p], w, cfg);
    Manager.BytesDriveLikeCommands(Manager.INITIAL, cs[..p], w, 0, cfg);
  }

  /** What the adaptive experiment sends. */
  ghost function SentBy(setup: Coordinator.Setup, loaded: bool, env: Coordinator.Environment): seq<Command>
    requires Coordinator.Replies(setup, env)
  {
    Coordinator.Fixed(Coordinator.INITIAL_SAMPLES, Coordinator.INITIAL_RATE, setup, loaded, env).sent
  }

  /**
   The adaptive experiment and an agent with 2 to 64 threads: whatever all agents reply and however far the commands
   get, the agent handles every byte it is sent exactly if all commands are possible. It aborts at the first that is
   not, and before it reports the time of the measurement right before.
   */
  lemma FixedExperimentServed(setup: Coordinator.Setup, loaded: bool, env: Coordinator.Environment, p: nat,
                              w: Manager.World, cfg: Manager.Config)
    requires Coordinator.Replies(setup, env) && Suitable(cfg) && Manager.Monotone(w.clock)
    requires p <= |SentBy(setup, loaded, env)| && HeldWithin(SentBy(setup, loaded, env)[..p], w, cfg)
    ensures var cs := SentBy(setup, loaded, env)[..p];
            ServedWell(cs, Manager.ServeBytes(Manager.INITIAL, EncodeCommands(cs), w, 0, cfg), w, cfg)
  {
    hide Coordinator.Run, Manager.Conversation, ServedWell, HeldWithin;
    CoordinatorRuns.SentIsConversation(setup, loaded, env);
    SentFits(setup, loaded, env);
    PrefixServed(SentBy(setup, loaded, env), p, w, cfg);
  }

  lemma SentFits(setup: Coordinator.Setup, loaded: bool, env: Coordinator.Environment)
    requires Coordinator.Replies(setup, env)
    ensures forall c :: c in SentBy(setup, loaded, env) ==> c.Fits()
  {
    hide Coordinator.Run;
    var st := Coordinator.State(Coordinator.WaitForThroughput, Coordinator.INITIAL_SAMPLES,
                                Coordinator.INITIAL_RATE, 0);
    CoordinatorRuns.RunFits(st, setup, env, 0);
    assert Coordinator.LoadCommand(setup).Fits();
  }

  /** The same for the stepped experiment, however many steps it takes. */
  lemma StepExperimentServed(e: Asymmetric.Experiment, startLoad: int, endLoad: int, step: int,
                             env: nat -> Asymmetric.Round, n: nat, w: Manager.World, cfg: Manager.Config)
    requires e.samples == Coordinator.INITIAL_SAMPLES && Suitable(cfg) && Manager.Monotone(w.clock)
    ensures var s := Asymmetric.Steps(e, startLoad, endLoad, step, env, 0, n);
            && (HeldWithin(s.throughput, w, cfg) ==> ServedBytesWell(s.throughput, w, cfg))
            && (HeldWithin(s.latency, w, cfg) ==> ServedBytesWell(s.latency, w, cfg))
  {
    hide Asymmetric.Steps, ServedWell, Manager.Rounds, HeldWithin;
    var s := Asymmetric.Steps(e, startLoad, endLoad, step, env, 0, n);
    Asymmetric.StepsAreConversations(e, startLoad, endLoad, step, env, 0, n);
    if HeldWithin(s.throughput, w, cfg) {
      WholeServed(s.throughput, e.samples, w, cfg);
    }
    if HeldWithin(s.latency, w, cfg) {
      WholeServed(s.latency, e.samples, w, cfg);
    }
  }

  lemma WholeServed(cs: seq<Command>, limit: nat, w: Manager.World, cfg: Manager.Config)
    requires Suitable(cfg) && Manager.Monotone(w.clock) && Manager.Conversation(cs, limit) && limit <= 200000
    requires HeldWithin(cs, w, cfg)
    requires forall c :: c in cs ==> c.Fits()
    ensures ServedWell(cs, Manager.ServeBytes(Manager.INITIAL, EncodeCommands(cs), w, 0, cfg), w, cfg)
  {
    hide Manager.Rounds, ServedWell, EncodeCommands, HeldWithin;
    RaiseLimit(cs, limit, 200000);
    assert cs[..|cs|] == cs;
    PrefixServed(cs, |cs|, w, cfg);
  }

  lemma RaiseLimit(cs: seq<Command>, low: nat, high: nat)
    requires Manager.Conversation(cs, low) && low <= high
    ensures Manager.Conversation(cs, high)
  {
    if cs != [] {
      RaiseRounds(cs[1..], low, high);
    }
  }

  lemma {:induction false} RaiseRounds(cs: seq<Command>, low: nat, high: nat)
    requires Manager.Rounds(cs, low) && low <= high
    ensures Manager.Rounds(cs, high)
    decreases |cs|
  {
    if cs == [] {
    } else if cs[0].StartLoad? {
      RaiseRounds(cs[1..], low, high);
    } else if |cs| > 1 {
      RaiseRounds(cs[2..], low, high);
    }
  }

  // Capacity.

  /** Every measurement the adaptive experiment starts leaves at most as many samples as the aggregate has slots. */
  lemma SamplesFitAggregate(setup: Coordinator.Setup, env: Coordinator.Environment, i: nat, j: nat, cap: nat,
                            threads: seq<Stats>, cs: seq<Contribution>, histories: seq<seq<LatSample>>)
    requires Coordinator.Replies(setup, env)
    requires CoordinatorRuns.Trail(setup, env, i, j) && CoordinatorRuns.TriesAt(i, j) < Coordinator.MAX_TRIES
    requires 2 <= |threads| <= 64 && Describes(cs, threads) && |histories| == |threads|
    requires cap == Manager.PerThreadSamples(CoordinatorRuns.StateAt(setup, env, i, j).samples, |threads|)
    requires forall n :: 0 <= n < |threads| ==> threads[n].Valid(cap) && threads[n].history == histories[n]
    ensures |threads| * cap <= AGG_SAMPLE_SIZE && |Joined(cs).live| <= AGG_SAMPLE_SIZE
  {
    hide CoordinatorRuns.StateAt, CoordinatorRuns.Trail, Manager.PerThreadSamples, Joined, Describes;
    CoordinatorRuns.StateBounds(setup, env, i, j);
    var samples := CoordinatorRuns.StateAt(setup, env, i, j).samples;
    Manager.CapInRange(samples, |threads|);
    ContributionsRetained(cs, threads, histories, cap);
  }

  // The interval check on reports from few samples.

  /** If every agent reports from fewer than 726 samples, the check of the interval always passes. */
  lemma ShortMeasurementsPass(rs: seq<LatencyReply>, ciSize: nat)
    requires 0 < |rs| <= 0x10_0000
    requires forall i :: 0 <= i < |rs| ==> rs[i].p99.k == 0 < rs[i].p99.i < 0x1000_0000_0000
    ensures !AgentStats.CiTooWide(AgentStats.AggregateLatency(rs), ciSize)
  {
    hide AgentStats.CiTooWide, AgentStats.MeanOf, AgentStats.SumOf;
    var agg := AgentStats.AggregateLatency(rs);
    MeanBounds(rs, (r: LatencyReply) => r.p99);
    assert agg.p99 == AgentStats.MeanTriple(rs, (r: LatencyReply) => r.p99);
    AgentStats.CiCheckCases(agg, ciSize);
  }

  lemma MeanBounds(rs: seq<LatencyReply>, f: LatencyReply -> Triple)
    requires 0 < |rs| <= 0x10_0000
    requires forall i :: 0 <= i < |rs| ==> f(rs[i]).k == 0 < f(rs[i]).i < 0x1000_0000_0000
    ensures AgentStats.MeanTriple(rs, f).k == 0 < AgentStats.MeanTriple(rs, f).i < TWO_64 / 2
  {
    hide AgentStats.MeanOf, AgentStats.SumOf;
    var fi, fk := (r: LatencyReply) => f(r).i, (r: LatencyReply) => f(r).k;
    AgentStats.SumBetween(rs, fk, 0, 0);
    assert |rs| * 0 == 0;
    AgentStats.MeanBetween(rs, fk, 0, 0);
    AgentStats.SumBetween(rs, fi, 1, 0xFFF_FFFF_FFFF);
    AgentStats.MeanBetween(rs, fi, 1, 0xFFF_FFFF_FFFF);
  }
}
