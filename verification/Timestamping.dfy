/** The per-connection ring that matches responses with transmission time stamps. */
module Timestamping {
  import opened Numeric
  import opened Comparators
  import opened ThreadStats

  const MAX_PENDING_REQS := 16

  datatype TimestampInfo = TimestampInfo(time: Timespec, optid: nat)

  /** `struct pending_tx_timestamps` as a value. */
  datatype Pending = Pending(byteCounter: nat, head: nat, tail: nat, consumed: nat, slots: seq<TimestampInfo>) {
    predicate WellFormed() {
      |slots| == MAX_PENDING_REQS
    }

    function At(i: nat): TimestampInfo
      requires WellFormed()
    {
      slots[i % MAX_PENDING_REQS]
    }

    function SetTime(i: nat, t: Timespec): (p: Pending)
      requires WellFormed()
      ensures p.WellFormed()
    {
      this.(slots := slots[i % MAX_PENDING_REQS := At(i).(time := t)])
    }
  }

  const ZERO_INFO := TimestampInfo(Timespec(0, 0), 0)

  /** The structure as `calloc` leaves it. */
  const EMPTY := Pending(0, 0, 0, 0, [ZERO_INFO, ZERO_INFO, ZERO_INFO, ZERO_INFO,
                                      ZERO_INFO, ZERO_INFO, ZERO_INFO, ZERO_INFO,
                                      ZERO_INFO, ZERO_INFO, ZERO_INFO, ZERO_INFO,
                                      ZERO_INFO, ZERO_INFO, ZERO_INFO, ZERO_INFO])

  /** A control message of the socket's error queue. */
  datatype Cmsg = HwTime(time: Timespec) | TxReport(data: nat) | Other

  /** The verdict of `extract_timestamps`: -1 none, 0 an earlier request, 1 this request; `ok` is its assertion. */
  datatype Extracted = Extracted(ok: bool, found: int, time: Timespec, opid: nat)

  function ExtractOne(e: Extracted, c: Cmsg, optid: nat): Extracted {
    if !e.ok then e
    else match c
      case HwTime(t) =>
        if t.sec == 0 then e
        else if e.found != -1 then e.(ok := false)
        else e.(time := t, found := 1)
      case TxReport(data) =>
        if optid < data + 1 then e.(found := 0, opid := data)
        else if optid > data + 1 then e.(found := -1)
        else e.(found := 1)
      case Other => e
  }

  function Extract(cmsgs: seq<Cmsg>, dest: TimestampInfo, opid: nat): Extracted {
    if cmsgs == [] then Extracted(true, -1, dest.time, opid)
    else ExtractOne(Extract(cmsgs[..|cmsgs| - 1], dest, opid), cmsgs[|cmsgs| - 1], dest.optid)
  }

  /** The coalescing loop: the pending requests up to byte `opid` share one time. */
  function Coalesce(p: Pending, opid: nat, t: Timespec): (r: Pending)
    requires p.WellFormed()
    ensures r.WellFormed() && r.head == p.head && r.consumed == p.consumed
    decreases p.head - p.tail
  {
    if p.At(p.tail).optid <= opid + 1 && p.tail < p.head
    then Coalesce(p.SetTime(p.tail, t).(tail := p.tail + 1), opid, t)
    else p
  }

  /** `get_tx_timestamp` after a received message: new ring, and whether a time stamp was found. */
  function Notify(p: Pending, e: Extracted): (r: (Pending, int))
    requires p.WellFormed()
    ensures r.0.WellFormed() && r.0.head == p.head && r.0.consumed == p.consumed
  {
    var q := p.SetTime(p.tail, e.time);
    if e.found == -1 then (q, 0)
    else if e.found == 1 then (q.(tail := q.tail + 1), 1)
    else (Coalesce(q.(tail := q.tail + 1), e.opid, e.time), 1)
  }

  function AddPending(p: Pending, bytes: nat): (r: Pending)
    requires p.WellFormed()
    ensures r.WellFormed()
  {
    var counter := p.byteCounter + bytes;
    p.(byteCounter := counter, head := p.head + 1,
       slots := p.slots[p.head % MAX_PENDING_REQS := p.At(p.head).(optid := counter)])
  }

  /** `pop_pending_tx_timestamps` below its assertion: the time of the next request, if it is known. */
  function Pop(p: Pending): (Pending, Option<Timespec>)
    requires p.WellFormed()
  {
    if p.consumed < p.tail then (p.(consumed := p.consumed + 1), Some(p.At(p.consumed).time)) else (p, None)
  }

  function BlindSkip(p: Pending, toSkip: int): Pending {
    if toSkip > 0 then p.(consumed := p.consumed + toSkip) else p
  }

  function PushComplete(p: Pending, t: Timespec): (r: Pending)
    requires p.WellFormed()
    ensures r.WellFormed()
  {
    p.SetTime(p.tail, t).(head := p.head + 1, tail := p.tail + 1)
  }

  /** The structure itself, updated in place. */
  class PendingTx {
    var txByteCounter: nat
    var head: nat
    var tail: nat
    var consumed: nat
    const pending: array<TimestampInfo>

    ghost predicate Valid() {
      pending.Length == MAX_PENDING_REQS
    }

    ghost function State(): (p: Pending)
      requires Valid()
      reads this, pending
      ensures p.WellFormed()
    {
      Pending(txByteCounter, head, tail, consumed, pending[..])
    }

    constructor ()
      ensures Valid() && fresh(pending)
      ensures State() == EMPTY
    {
      txByteCounter, head, tail, consumed := 0, 0, 0, 0;
      pending := new TimestampInfo[MAX_PENDING_REQS](_ => ZERO_INFO);
    }

    method Add(bytes: nat)
      requires Valid()
      modifies this, pending
      ensures State() == AddPending(old(State()), bytes)
    {
      txByteCounter := txByteCounter + bytes;
      var slot := head % MAX_PENDING_REQS;
      pending[slot] := pending[slot].(optid := txByteCounter);
      head := head + 1;
    }

    method PopTimestamp() returns (t: Option<Timespec>)
      requires Valid()
      requires consumed <= head
      modifies this
      ensures (State(), t) == Pop(old(State()))
    {
      if consumed < tail {
        t := Some(pending[consumed % MAX_PENDING_REQS].time);
        consumed := consumed + 1;
      } else {
        t := None;
      }
    }

    method Skip(toSkip: int)
      requires Valid()
      modifies this
      ensures State() == BlindSkip(old(State()), toSkip)
    {
      if toSkip > 0 {
        consumed := consumed + toSkip;
      }
    }

    /** Also hands the time to `add_tx_timestamp`. */
    method Push(t: Timespec) returns (recorded: Timespec)
      requires Valid()
      modifies this, pending
      ensures State() == PushComplete(old(State()), t)
      ensures recorded == t
    {
      var slot := tail % MAX_PENDING_REQS;
      pending[slot] := pending[slot].(time := t);
      head := head + 1;
      tail := tail + 1;
      recorded := pending[slot].time;
    }

    /**
     `get_tx_timestamp`; `message` is absent when nothing could be received, `opid` the last value of the thread's
     `received_opid`. The times in `recorded` went to `add_tx_timestamp`. No result if an assertion fails.
     */
    method GetTxTimestamp(message: Option<seq<Cmsg>>, opid: nat) returns (n: Option<int>, recorded: seq<Timespec>)
      requires Valid()
      modifies this, pending
      ensures message.None? ==> n == Some(0) && State() == old(State()) && recorded == []
      ensures message.Some? ==>
                var e := Extract(message.value, old(State()).At(old(tail)), opid);
                && (n.None? <==> !e.ok)
                && (e.ok ==> (State(), n.value) == Notify(old(State()), e))
                && (e.ok ==> old(tail) <= tail && recorded == seq(tail - old(tail), _ => e.time))
    {
      hide StampsAlone, LastSays, LastValues, Extract;
      recorded := [];
      if message.None? {
        return Some(0), [];
      }
      var slot := tail % MAX_PENDING_REQS;
      var e := ExtractTimestamps(message.value, pending[slot], opid);
      if !e.ok {
        return None, [];
      }
      pending[slot] := pending[slot].(time := e.time);
      if e.found == -1 {
        return Some(0), [];
      }
      recorded := [e.time];
      tail := tail + 1;
      if e.found == 1 {
        return Some(1), recorded;
      }
      ghost var start := State();
      while pending[tail % MAX_PENDING_REQS].optid <= e.opid + 1 && tail < head
        invariant old(tail) < tail
        invariant Coalesce(State(), e.opid, e.time) == Coalesce(start, e.opid, e.time)
        invariant recorded == seq(tail - old(tail), _ => e.time)
        decreases head - tail
      {
        var s := tail % MAX_PENDING_REQS;
        pending[s] := pending[s].(time := e.time);
        recorded := recorded + [e.time];
        tail := tail + 1;
      }
      n := Some(1);
    }
  }

  /** `get_tx_timestamp` together with the `add_tx_timestamp` calls it makes. */
  method NotifyAndRecord(ts: PendingTx, txs: TxSamples, measuring: bool, message: Option<seq<Cmsg>>, opid: nat)
    returns (n: Option<int>)
    requires ts.Valid() && txs.Valid()
    modifies ts, ts.pending, txs, txs.samples
    ensures txs.Valid()
    ensures message.None? ==> n == Some(0) && ts.State() == old(ts.State()) && txs.history == old(txs.history)
    ensures message.Some? ==>
              var e := Extract(message.value, old(ts.State()).At(old(ts.tail)), opid);
              && (n.None? <==> !e.ok)
              && (e.ok ==> (ts.State(), n.value) == Notify(old(ts.State()), e) && old(ts.tail) <= ts.tail)
              && (e.ok ==> txs.history == old(txs.history)
                                          + if measuring then seq(ts.tail - old(ts.tail), _ => e.time) else [])
  {
    hide Extract, Notify;
    var recorded;
    n, recorded := ts.GetTxTimestamp(message, opid);
    ghost var before, p := txs.history, ts.State();
    for i := 0 to |recorded|
      invariant txs.Valid() && ts.State() == p
      invariant txs.history == before + if measuring then recorded[..i] else []
    {
      assert recorded[..i + 1] == recorded[..i] + [recorded[i]];
      txs.AddTxTimestamp(measuring, recorded[i]);
    }
    assert recorded[..|recorded|] == recorded;
  }

  // What the control messages say.

  /** A message that carries a hardware time. */
  predicate IsStamp(c: Cmsg) {
    c.HwTime? && c.time.sec != 0
  }

  predicate IsRelevant(c: Cmsg) {
    IsStamp(c) || c.TxReport?
  }

  /** The reports about bytes past the request that ends at `optid`. */
  function Beyond(optid: nat): Cmsg -> bool {
    (c: Cmsg) => c.TxReport? && optid < c.data + 1
  }

  /** What a relevant message says by itself. */
  function VerdictOf(c: Cmsg, optid: nat): int
    requires IsRelevant(c)
  {
    if c.HwTime? || optid == c.data + 1 then 1 else if optid < c.data + 1 then 0 else -1
  }

  /** `k` is the last of the messages with the property, or -1 if there is none. */
  ghost predicate IsLast(cmsgs: seq<Cmsg>, p: Cmsg -> bool, k: int) {
    && -1 <= k < |cmsgs|
    && (k >= 0 ==> p(cmsgs[k]))
    && forall j :: k < j < |cmsgs| ==> !p(cmsgs[j])
  }

  /** The verdict is that of the last relevant message; without one there is no time stamp. */
  ghost predicate LastSays(cmsgs: seq<Cmsg>, optid: nat, found: int) {
    exists k :: IsLast(cmsgs, IsRelevant, k) && found == if k < 0 then -1 else VerdictOf(cmsgs[k], optid)
  }

  /** The assertion holds: before each hardware time, the verdict is that there is none. */
  ghost predicate StampsAlone(cmsgs: seq<Cmsg>, optid: nat) {
    forall i :: 0 <= i < |cmsgs| && IsStamp(cmsgs[i]) ==> LastSays(cmsgs[..i], optid, -1)
  }

  /** The time is the last hardware time, the remembered byte that of the last report beyond the request. */
  ghost predicate LastValues(cmsgs: seq<Cmsg>, dest: TimestampInfo, opid: nat, e: Extracted) {
    && (exists k :: IsLast(cmsgs, IsStamp, k) && e.time == if k < 0 then dest.time else cmsgs[k].time)
    && (exists k :: IsLast(cmsgs, Beyond(dest.optid), k) && e.opid == if k < 0 then opid else cmsgs[k].data)
  }

  lemma LastExtends(cmsgs: seq<Cmsg>, p: Cmsg -> bool, k: int)
    requires cmsgs != [] && IsLast(cmsgs[..|cmsgs| - 1], p, k)
    ensures IsLast(cmsgs, p, if p(cmsgs[|cmsgs| - 1]) then |cmsgs| - 1 else k)
  {
  }

  lemma LastUnique(cmsgs: seq<Cmsg>, optid: nat, x: int, y: int)
    requires LastSays(cmsgs, optid, x) && LastSays(cmsgs, optid, y)
    ensures x == y
  {
  }

  /** What the walk over the messages returns, told by the messages. */
  lemma {:induction false} ExtractMeaning(cmsgs: seq<Cmsg>, dest: TimestampInfo, opid: nat)
    ensures var e := Extract(cmsgs, dest, opid);
            && (e.ok <==> StampsAlone(cmsgs, dest.optid))
            && (e.ok ==> LastSays(cmsgs, dest.optid, e.found) && LastValues(cmsgs, dest, opid, e))
  {
    if cmsgs == [] {
      assert IsLast(cmsgs, IsRelevant, -1) && IsLast(cmsgs, IsStamp, -1);
      assert IsLast(cmsgs, Beyond(dest.optid), -1);
    } else {
      var n := |cmsgs| - 1;
      ExtractMeaning(cmsgs[..n], dest, opid);
      StampsExtend(cmsgs, dest.optid);
      if Extract(cmsgs[..n], dest, opid).ok {
        MeaningStep(cmsgs, dest, opid, Extract(cmsgs[..n], dest, opid));
      }
    }
  }

  lemma StampsExtend(cmsgs: seq<Cmsg>, optid: nat)
    requires cmsgs != []
    ensures var n := |cmsgs| - 1;
            StampsAlone(cmsgs, optid) <==>
            StampsAlone(cmsgs[..n], optid) && (IsStamp(cmsgs[n]) ==> LastSays(cmsgs[..n], optid, -1))
  {
    hide LastSays;
    var n := |cmsgs| - 1;
    forall i | 0 <= i < n ensures cmsgs[..n][..i] == cmsgs[..i] && cmsgs[..n][i] == cmsgs[i] {
    }
    if StampsAlone(cmsgs, optid) {
      forall i | 0 <= i < n && IsStamp(cmsgs[..n][i]) ensures LastSays(cmsgs[..n][..i], optid, -1) {
        assert IsStamp(cmsgs[i]);
      }
    }
    if StampsAlone(cmsgs[..n], optid) && (IsStamp(cmsgs[n]) ==> LastSays(cmsgs[..n], optid, -1)) {
      forall i | 0 <= i < |cmsgs| && IsStamp(cmsgs[i]) ensures LastSays(cmsgs[..i], optid, -1) {
        if i < n {
          assert IsStamp(cmsgs[..n][i]);
        }
      }
    }
  }

  /** One more message. */
  lemma MeaningStep(cmsgs: seq<Cmsg>, dest: TimestampInfo, opid: nat, e: Extracted)
    requires cmsgs != [] && e.ok
    requires LastSays(cmsgs[..|cmsgs| - 1], dest.optid, e.found) && LastValues(cmsgs[..|cmsgs| - 1], dest, opid, e)
    ensures var c := cmsgs[|cmsgs| - 1];
            var e' := ExtractOne(e, c, dest.optid);
            && (e'.ok <==> (IsStamp(c) ==> LastSays(cmsgs[..|cmsgs| - 1], dest.optid, -1)))
            && (e'.ok ==> LastSays(cmsgs, dest.optid, e'.found) && LastValues(cmsgs, dest, opid, e'))
  {
    var n := |cmsgs| - 1;
    var init, c := cmsgs[..n], cmsgs[n];
    var k :| IsLast(init, IsRelevant, k) && e.found == if k < 0 then -1 else VerdictOf(init[k], dest.optid);
    var t :| IsLast(init, IsStamp, t) && e.time == if t < 0 then dest.time else init[t].time;
    var beyond := Beyond(dest.optid);
    var o :| IsLast(init, beyond, o) && e.opid == if o < 0 then opid else init[o].data;
    LastExtends(cmsgs, IsRelevant, k);
    LastExtends(cmsgs, IsStamp, t);
    LastExtends(cmsgs, beyond, o);
    if LastSays(init, dest.optid, -1) {
      LastUnique(init, dest.optid, e.found, -1);
    }
  }

  /** The loop over the control messages. */
  method ExtractTimestamps(cmsgs: seq<Cmsg>, dest: TimestampInfo, opid: nat) returns (e: Extracted)
    ensures e == Extract(cmsgs, dest, opid)
    ensures e.ok <==> StampsAlone(cmsgs, dest.optid)
    ensures e.ok ==> LastSays(cmsgs, dest.optid, e.found) && LastValues(cmsgs, dest, opid, e)
  {
    ExtractMeaning(cmsgs, dest, opid);
    e := Extracted(true, -1, dest.time, opid);
    for i := 0 to |cmsgs|
      invariant e == Extract(cmsgs[..i], dest, opid)
    {
      assert cmsgs[..i + 1][..i] == cmsgs[..i];
      e := ExtractOne(e, cmsgs[i], dest.optid);
    }
    assert cmsgs[..|cmsgs|] == cmsgs;
  }
}
