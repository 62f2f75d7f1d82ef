/** Per-thread statistics and their aggregation by the manager. */
module ThreadStats {
  import opened Numeric
  import opened Comparators
  import opened Rings

  const MAX_PER_THREAD_SAMPLES := 131072
  const MAX_PER_THREAD_TX_SAMPLES := 2048
  const AGG_SAMPLE_SIZE := 0x100000
  const MAX_THREADS := 16

  /** The statistics of at most so many threads are kept; a further thread aborts when it starts. */
  const MAX_STATS_THREADS := 64

  datatype ByteReqPair = ByteReqPair(bytes: nat, reqs: nat) {
    function Plus(p: ByteReqPair): ByteReqPair {
      ByteReqPair(bytes + p.bytes, reqs + p.reqs)
    }
  }

  const NOTHING := ByteReqPair(0, 0)

  /** The thread-local `union stats` of one agent thread. */
  class Stats {
    var rx: ByteReqPair
    var tx: ByteReqPair
    var count: nat
    var size: nat
    const samples: array<LatSample>
    /** The latency samples recorded since the last clear. */
    ghost var history: seq<LatSample>

    ghost predicate Valid(cap: nat)
      reads this, samples
      ensures Valid(cap) ==> size <= samples.Length
    {
      && 0 < cap <= samples.Length == MAX_PER_THREAD_SAMPLES
      && count == |history|
      && size == Min(count, cap)
      && IsRing(samples[..], cap, history)
    }

    constructor (blank: LatSample)
      ensures samples.Length == MAX_PER_THREAD_SAMPLES && fresh(samples)
      ensures rx == NOTHING && tx == NOTHING && count == 0 && size == 0 && history == []
    {
      samples := new LatSample[MAX_PER_THREAD_SAMPLES](_ => blank);
      rx, tx, count, size := NOTHING, NOTHING, 0, 0;
      history := [];
    }

    /** `clear_stats`: the header is zeroed, the sample slots are not. */
    method Clear()
      modifies this
      ensures rx == NOTHING && tx == NOTHING && history == []
      ensures forall cap :: samples.Length == MAX_PER_THREAD_SAMPLES && 0 < cap <= MAX_PER_THREAD_SAMPLES ==> Valid(cap)
    {
      rx, tx, count, size := NOTHING, NOTHING, 0, 0;
      history := [];
    }

    method AddThroughputTx(measuring: bool, pair: ByteReqPair)
      modifies this`tx
      ensures tx.bytes == old(tx.bytes) + if measuring then pair.bytes else 0
      ensures tx.reqs == old(tx.reqs) + if measuring then pair.reqs else 0
    {
      if !measuring { return; }
      tx := tx.Plus(pair);
    }

    method AddThroughputRx(measuring: bool, pair: ByteReqPair)
      modifies this`rx
      ensures rx.bytes == old(rx.bytes) + if measuring then pair.bytes else 0
      ensures rx.reqs == old(rx.reqs) + if measuring then pair.reqs else 0
    {
      if !measuring { return; }
      rx := rx.Plus(pair);
    }

    /** `add_latency_sample`; `draw` is the random number, `sentAt` is absent for latency-only agents. */
    method AddLatencySample(measuring: bool, draw: real, rate: real, cap: nat, diff: int, sentAt: Option<Timespec>)
      requires Valid(cap)
      modifies this`count, this`size, this`history, samples
      ensures Valid(cap)
      ensures !measuring || rate < draw ==> history == old(history) && samples[..] == old(samples[..])
      ensures measuring && draw <= rate ==>
                && |history| == |old(history)| + 1
                && history[..|old(history)|] == old(history)
                && history[|old(history)|].nsec == ToUint64(diff)
                && (sentAt.Some? ==> history[|old(history)|].tx == sentAt.value)
    {
      if !measuring || rate < draw { return; }
      RingAppend(samples[..], cap, history,
                 LatSample(ToUint64(diff), if sentAt.Some? then sentAt.value else samples[count % cap].tx));
      var slot := count % cap;
      samples[slot] := samples[slot].(nsec := ToUint64(diff));
      if sentAt.Some? {
        samples[slot] := samples[slot].(tx := sentAt.value);
      }
      assert samples[..] == old(samples[..])[slot := samples[slot]];
      history := history + [samples[slot]];
      count := count + 1;
      size := if count > cap then cap else count;
    }
  }

  /** The slots `[0, size)` of a thread hold exactly the last `cap` recorded samples. */
  lemma LiveSamplesAreLast(s: Stats, cap: nat)
    requires s.Valid(cap)
    ensures s.size <= s.samples.Length
    ensures multiset(s.samples[..s.size]) == multiset(LastOf(s.history, cap))
  {
    RingHoldsLast(s.samples[..], cap, s.history);
    assert s.samples[..][..s.size] == s.samples[..s.size];
  }

  /** The thread-local transmission time stamps. */
  class TxSamples {
    var count: nat
    const samples: array<Timespec>
    ghost var history: seq<Timespec>

    ghost predicate Valid()
      reads this, samples
    {
      && samples.Length == MAX_PER_THREAD_TX_SAMPLES
      && count == |history|
      && IsRing(samples[..], MAX_PER_THREAD_TX_SAMPLES, history)
    }

    constructor (blank: Timespec)
      ensures Valid() && fresh(samples) && history == []
    {
      samples := new Timespec[MAX_PER_THREAD_TX_SAMPLES](_ => blank);
      count := 0;
      history := [];
    }

    method Clear()
      requires Valid()
      modifies this
      ensures Valid() && history == []
    {
      count := 0;
      history := [];
    }

    method AddTxTimestamp(measuring: bool, at: Timespec)
      requires Valid()
      modifies this, samples
      ensures Valid()
      ensures history == if measuring then old(history) + [at] else old(history)
    {
      if !measuring { return; }
      RingAppend(samples[..], MAX_PER_THREAD_TX_SAMPLES, history, at);
      ghost var before := samples[..];
      samples[count % MAX_PER_THREAD_TX_SAMPLES] := at;
      assert samples[..] == before[count % MAX_PER_THREAD_TX_SAMPLES := at];
      count := count + 1;
      history := history + [at];
    }
  }

  /** A thread's live time stamps are the last 2048 recorded since the clear. */
  lemma LiveTimesAreLast(t: TxSamples)
    requires t.Valid()
    ensures Min(t.count, MAX_PER_THREAD_TX_SAMPLES) <= t.samples.Length
    ensures multiset(t.samples[..Min(t.count, MAX_PER_THREAD_TX_SAMPLES)])
         == multiset(LastOf(t.history, MAX_PER_THREAD_TX_SAMPLES))
  {
    RingHoldsLast(t.samples[..], MAX_PER_THREAD_TX_SAMPLES, t.history);
    var n := Min(t.count, MAX_PER_THREAD_TX_SAMPLES);
    assert t.samples[..][..n] == t.samples[..n];
  }

  /** What one thread hands to the aggregation: its counters and its live samples. */
  datatype Contribution = Contribution(rx: ByteReqPair, tx: ByteReqPair, live: seq<LatSample>)

  ghost function ContributionOf(t: Stats): Contribution
    requires t.size <= t.samples.Length
    reads t, t.samples
  {
    Contribution(t.rx, t.tx, t.samples[..t.size])
  }

  /** `cs` lists what each of the threads would hand over now. */
  ghost predicate Describes(cs: seq<Contribution>, threads: seq<Stats>)
    reads threads, set i | 0 <= i < |threads| :: threads[i].samples
  {
    && |cs| == |threads|
    && forall i :: 0 <= i < |threads| ==>
                     threads[i].size <= threads[i].samples.Length && cs[i] == ContributionOf(threads[i])
  }

  /** Counters summed and live samples concatenated, thread after thread. */
  ghost function Joined(cs: seq<Contribution>): Contribution {
    if cs == [] then Contribution(NOTHING, NOTHING, [])
    else
      var init, c := Joined(cs[..|cs| - 1]), cs[|cs| - 1];
      Contribution(init.rx.Plus(c.rx), init.tx.Plus(c.tx), init.live + c.live)
  }

  /** Each of the four counters is the sum of the threads' counters. */
  ghost predicate Totals(rx: ByteReqPair, tx: ByteReqPair, cs: seq<Contribution>) {
    && rx.bytes == SumOver(cs, (c: Contribution) => c.rx.bytes)
    && rx.reqs == SumOver(cs, (c: Contribution) => c.rx.reqs)
    && tx.bytes == SumOver(cs, (c: Contribution) => c.tx.bytes)
    && tx.reqs == SumOver(cs, (c: Contribution) => c.tx.reqs)
  }

  lemma {:induction false} JoinedTotals(cs: seq<Contribution>)
    ensures Totals(Joined(cs).rx, Joined(cs).tx, cs)
  {
    if cs != [] {
      JoinedTotals(cs[..|cs| - 1]);
    }
  }

  /** What the threads recorded and their rings still hold. */
  ghost function Retained(histories: seq<seq<LatSample>>, cap: nat): multiset<LatSample> {
    if histories == [] then multiset{}
    else Retained(histories[..|histories| - 1], cap) + multiset(LastOf(histories[|histories| - 1], cap))
  }

  /** If each thread hands over a rotation of its last `cap` samples, the join is the multiset union of them. */
  lemma {:induction false} JoinedRetains(cs: seq<Contribution>, histories: seq<seq<LatSample>>, cap: nat)
    requires |cs| == |histories|
    requires forall i :: 0 <= i < |cs| ==> multiset(cs[i].live) == multiset(LastOf(histories[i], cap))
    ensures multiset(Joined(cs).live) == Retained(histories, cap)
  {
    if cs != [] {
      var n := |cs| - 1;
      JoinedRetains(cs[..n], histories[..n], cap);
    }
  }

  lemma {:induction false} JoinedBound(cs: seq<Contribution>, cap: nat)
    requires forall i :: 0 <= i < |cs| ==> |cs[i].live| <= cap
    ensures |Joined(cs).live| <= |cs| * cap
  {
    if cs != [] {
      JoinedBound(cs[..|cs| - 1], cap);
      assert |cs| * cap == (|cs| - 1) * cap + cap;
    }
  }

  lemma JoinedStep(cs: seq<Contribution>, i: nat)
    requires i < |cs|
    ensures var (before, after) := (Joined(cs[..i]), Joined(cs[..i + 1]));
            && after.rx == before.rx.Plus(cs[i].rx) && after.tx == before.tx.Plus(cs[i].tx)
            && after.live == before.live + cs[i].live
            && |after.live| <= |Joined(cs).live|
  {
    assert cs[..i + 1][..i] == cs[..i];
    JoinedPrefix(cs, i + 1);
  }

  lemma {:induction false} JoinedPrefix(cs: seq<Contribution>, i: nat)
    requires i <= |cs|
    ensures |Joined(cs[..i]).live| <= |Joined(cs).live|
    decreases |cs|
  {
    if i < |cs| {
      JoinedPrefix(cs[..|cs| - 1], i);
      assert cs[..|cs| - 1][..i] == cs[..i];
    } else {
      assert cs[..i] == cs;
    }
  }

  /** The threads' live samples together are exactly what their last `cap` recordings were. */
  lemma ContributionsRetained(cs: seq<Contribution>, threads: seq<Stats>, histories: seq<seq<LatSample>>, cap: nat)
    requires Describes(cs, threads) && |histories| == |threads|
    requires forall i :: 0 <= i < |threads| ==> threads[i].Valid(cap) && threads[i].history == histories[i]
    ensures multiset(Joined(cs).live) == Retained(histories, cap)
    ensures |Joined(cs).live| <= |threads| * cap
  {
    forall i | 0 <= i < |threads|
      ensures multiset(cs[i].live) == multiset(LastOf(histories[i], cap)) && |cs[i].live| <= cap
    {
      LiveSamplesAreLast(threads[i], cap);
      assert cs[i] == ContributionOf(threads[i]);
    }
    JoinedRetains(cs, histories, cap);
    JoinedBound(cs, cap);
  }

  const ZERO_SAMPLE := LatSample(0, Timespec(0, 0))

  /** The manager's `agg_stats`. */
  class Aggregate {
    var rx: ByteReqPair
    var tx: ByteReqPair
    var size: nat
    const samples: array<LatSample>

    constructor (blank: LatSample)
      ensures samples.Length == AGG_SAMPLE_SIZE && fresh(samples)
    {
      samples := new LatSample[AGG_SAMPLE_SIZE](_ => blank);
      rx, tx, size := NOTHING, NOTHING, 0;
    }

    method AggregateThroughput(threads: seq<Stats>, ghost cs: seq<Contribution>)
      requires Describes(cs, threads)
      requires forall i :: 0 <= i < |threads| ==> threads[i] as object != this
      modifies this
      ensures Totals(rx, tx, cs)
    {
      rx, tx, size := NOTHING, NOTHING, 0;
      for i := 0 to |threads|
        invariant rx == Joined(cs[..i]).rx && tx == Joined(cs[..i]).tx
      {
        JoinedStep(cs, i);
        assert old(ContributionOf(threads[i])) == cs[i];
        rx := rx.Plus(threads[i].rx);
        tx := tx.Plus(threads[i].tx);
      }
      assert cs[..|threads|] == cs;
      JoinedTotals(cs);
    }

    method Reset()
      modifies this, samples
      ensures rx == NOTHING && tx == NOTHING && size == 0
      ensures forall i :: 0 <= i < samples.Length ==> samples[i] == ZERO_SAMPLE
    {
      rx, tx, size := NOTHING, NOTHING, 0;
      forall i | 0 <= i < samples.Length {
        samples[i] := ZERO_SAMPLE;
      }
    }

    /** Adds one thread: its counters are summed, its live samples copied to the position `at`. */
    method Accumulate(t: Stats, at: nat)
      requires t as object != this && t.samples != samples
      requires t.size <= t.samples.Length && at + t.size <= samples.Length
      modifies this`rx, this`tx, samples
      ensures rx.bytes == old(rx.bytes) + t.rx.bytes && rx.reqs == old(rx.reqs) + t.rx.reqs
      ensures tx.bytes == old(tx.bytes) + t.tx.bytes && tx.reqs == old(tx.reqs) + t.tx.reqs
      ensures samples[..at + t.size] == old(samples[..at]) + t.samples[..t.size]
      ensures forall j :: at + t.size <= j < samples.Length ==> samples[j] == old(samples[j])
    {
      rx := rx.Plus(t.rx);
      tx := tx.Plus(t.tx);
      forall j | 0 <= j < t.size {
        samples[at + j] := t.samples[j];
      }
    }

    /** `aggregate_latency_samples`: the copies must fit the buffer, which the code does not check. */
    method AggregateLatency(threads: seq<Stats>, ghost cs: seq<Contribution>)
      requires Describes(cs, threads)
      requires forall i :: 0 <= i < |threads| ==> threads[i] as object != this && threads[i].samples != samples
      requires |Joined(cs).live| <= samples.Length
      modifies this, samples
      ensures size <= samples.Length
      ensures Totals(rx, tx, cs) && samples[..size] == Joined(cs).live
      ensures forall i :: size <= i < samples.Length ==> samples[i] == ZERO_SAMPLE
    {
      Reset();
      var aggCount := 0;
      for i := 0 to |threads|
        invariant aggCount == |Joined(cs[..i]).live| <= samples.Length
        invariant rx == Joined(cs[..i]).rx && tx == Joined(cs[..i]).tx
        invariant samples[..aggCount] == Joined(cs[..i]).live
        invariant forall j :: aggCount <= j < samples.Length ==> samples[j] == ZERO_SAMPLE
      {
        JoinedStep(cs, i);
        assert old(ContributionOf(threads[i])) == cs[i];
        Accumulate(threads[i], aggCount);
        aggCount := aggCount + threads[i].size;
      }
      size := aggCount;
      assert cs[..|threads|] == cs;
      JoinedTotals(cs);
    }
  }
}
