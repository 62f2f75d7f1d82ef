/** Where every field of the protocol lies in the bytes, and what its bytes are. */
module WireLayout {
  import opened Numeric
  import opened Wire

  /** The `width` bytes from `at` on hold `v`, the lowest byte first. */
  ghost predicate Holds(bs: seq<byte>, at: nat, width: nat, v: nat) {
    at + width <= |bs| && forall i :: 0 <= i < width ==> bs[at + i] == v / Pow256(i) % 256
  }

  /** The 32-bit words `vs` from `at` on. */
  ghost predicate Words32(bs: seq<byte>, at: nat, vs: seq<nat>) {
    forall n :: 0 <= n < |vs| ==> Holds(bs, at + 4 * n, 4, vs[n])
  }

  ghost predicate Words64At(bs: seq<byte>, at: nat, vs: seq<nat>) {
    forall n :: 0 <= n < |vs| ==> Holds(bs, at + 8 * n, 8, vs[n])
  }

  lemma DivideAgain(x: nat, p: nat)
    requires p > 0
    ensures x / 256 / p == x / (256 * p)
  {
    var q := x / 256 / p;
    var r, s := x % 256, x / 256 % p;
    assert x / 256 == p * q + s;
    Regroup(p, q, s);
    QuotientUnique(x, 256 * p, q, 256 * s + r);
  }

  lemma Regroup(p: nat, q: nat, s: nat)
    ensures 256 * (p * q + s) == 256 * p * q + 256 * s
  {
  }

  lemma {:induction false} ByteAt(x: nat, width: nat, i: nat)
    requires i < width
    ensures ToBytes(x, width)[i] == x / Pow256(i) % 256
  {
    if i > 0 {
      ByteAt(x / 256, width - 1, i - 1);
      DivideAgain(x, Pow256(i - 1));
    }
  }

  lemma NumberHeld(x: nat, width: nat, tail: seq<byte>)
    ensures Holds(ToBytes(x, width) + tail, 0, width, x)
  {
    forall i | 0 <= i < width ensures ToBytes(x, width)[i] == x / Pow256(i) % 256 {
      ByteAt(x, width, i);
    }
  }

  lemma HeldLater(before: seq<byte>, bs: seq<byte>, at: nat, width: nat, v: nat)
    requires Holds(bs, at, width, v)
    ensures Holds(before + bs, |before| + at, width, v)
  {
    forall i | 0 <= i < width ensures (before + bs)[|before| + at + i] == v / Pow256(i) % 256 {
      assert (before + bs)[|before| + (at + i)] == bs[at + i];
    }
  }

  lemma Words64Later(before: seq<byte>, bs: seq<byte>, at: nat, vs: seq<nat>)
    requires Words64At(bs, at, vs)
    ensures Words64At(before + bs, |before| + at, vs)
  {
    hide Holds;
    forall n | 0 <= n < |vs| ensures Holds(before + bs, |before| + at + 8 * n, 8, vs[n]) {
      HeldLater(before, bs, at + 8 * n, 8, vs[n]);
    }
  }

  lemma Words32Later(before: seq<byte>, bs: seq<byte>, at: nat, vs: seq<nat>)
    requires Words32(bs, at, vs)
    ensures Words32(before + bs, |before| + at, vs)
  {
    hide Holds;
    forall n | 0 <= n < |vs| ensures Holds(before + bs, |before| + at + 4 * n, 4, vs[n]) {
      HeldLater(before, bs, at + 4 * n, 4, vs[n]);
    }
  }

  /** After 32-bit fields the next one lies at a multiple of 4. */
  lemma {:induction false} FieldAt(fs: seq<Field>, n: nat, tail: seq<byte>)
    requires n < |fs| && forall i :: 0 <= i < n ==> fs[i].U32?
    ensures Holds(Encode(fs) + tail, 4 * n, fs[n].Width(), fs[n].v)
  {
    hide Holds;
    var first, rest := ToBytes(fs[0].v, fs[0].Width()), Encode(fs[1..]) + tail;
    assert Encode(fs) + tail == first + rest;
    if n == 0 {
      NumberHeld(fs[0].v, fs[0].Width(), rest);
    } else {
      FieldAt(fs[1..], n - 1, tail);
      HeldLater(first, rest, 4 * (n - 1), fs[n].Width(), fs[n].v);
    }
  }

  lemma Fields32At(fs: seq<Field>, vs: seq<nat>, tail: seq<byte>)
    requires |vs| <= |fs| && forall i :: 0 <= i < |vs| ==> fs[i] == U32(vs[i])
    ensures Words32(Encode(fs) + tail, 0, vs)
  {
    hide Holds;
    forall n | 0 <= n < |vs| ensures Holds(Encode(fs) + tail, 0 + 4 * n, 4, vs[n]) {
      FieldAt(fs, n, tail);
    }
  }

  lemma {:induction false} WordsAt(ws: seq<nat>, tail: seq<byte>)
    ensures Words64At(Encode(Fields64(ws)) + tail, 0, ws)
  {
    hide Holds, Encode;
    if ws != [] {
      var first, rest := ToBytes(ws[0], 8), Encode(Fields64(ws[1..])) + tail;
      FirstWord(ws, tail);
      WordsAt(ws[1..], tail);
      NumberHeld(ws[0], 8, rest);
      Words64Later(first, rest, 0, ws[1..]);
      forall n | 0 <= n < |ws| ensures Holds(first + rest, 0 + 8 * n, 8, ws[n]) {
        if n > 0 {
          assert Holds(first + rest, |first| + 0 + 8 * (n - 1), 8, ws[1..][n - 1]);
        }
      }
    }
  }

  lemma FirstWord(ws: seq<nat>, tail: seq<byte>)
    requires ws != []
    ensures Encode(Fields64(ws)) + tail == ToBytes(ws[0], 8) + (Encode(Fields64(ws[1..])) + tail)
  {
    hide ToBytes;
    var fs := Fields64(ws);
    assert fs[1..] == Fields64(ws[1..]);
  }

  // Commands.

  /** Type, length of the payload, and payload of the three commands. */
  lemma CommandLayout(c: Command)
    ensures var bs := EncodeCommand(c);
            match c
            case StartLoad(load) => |bs| == 12 && Words32(bs, 0, [0, 4, load])
            case StartMeasure(samples, bits) =>
              |bs| == 20 && Words32(bs, 0, [1, 12, samples]) && Holds(bs, 12, 8, bits)
            case ReportReq(kind) => |bs| == 12 && Words32(bs, 0, [2, 4, kind])
  {
    hide Holds, Encode;
    var h, p := HeaderFields(c), PayloadFields(c);
    var fs := h + p;
    EncodeConcat(h, p);
    EncodeLength(fs);
    CommandWidth(fs);
    assert Encode(fs) + [] == Encode(fs);
    Fields32At(fs, [h[0].v, h[1].v, p[0].v], []);
    if c.StartMeasure? {
      FieldAt(fs, 3, []);
    }
  }

  lemma CommandWidth(fs: seq<Field>)
    requires 3 <= |fs| <= 4
    ensures TotalWidth(fs) == fs[0].Width() + fs[1].Width() + fs[2].Width() + if |fs| == 4 then fs[3].Width() else 0
  {
    WidthsAdd(fs);
  }

  // Replies.

  /** A reply of 64-bit words: its type, length and kind, the words, and whatever follows. */
  lemma ReplyLayout(length: nat, info: nat, ws: seq<nat>, tail: seq<byte>)
    requires length < TWO_32 && info < TWO_32
    ensures var bs := Encode(Msg1(length, info) + Fields64(ws)) + tail;
            |bs| == 12 + 8 * |ws| + |tail| && Words32(bs, 0, [3, length, info]) && Words64At(bs, 12, ws)
  {
    hide Words32, Words64At, Encode;
    var m, w := Encode(Msg1(length, info)), Encode(Fields64(ws));
    EncodeConcat(Msg1(length, info), Fields64(ws));
    Fields64Width(ws);
    DecodeMsg1(length, info, []);
    assert m + w + tail == m + (w + tail);
    Fields32At(Msg1(length, info), [3, length, info], w + tail);
    WordsAt(ws, tail);
    Words64Later(m, w + tail, 0, ws);
  }

  /** An acknowledgement is a reply of kind 0 and nothing else. */
  lemma AckLayout()
    ensures |AckBytes()| == 12 && Words32(AckBytes(), 0, [3, 4, 0])
  {
    hide Encode, Words32;
    DecodeMsg1(4, REPLY_ACK, []);
    Fields32At(Msg1(4, REPLY_ACK), [3, 4, 0], []);
    assert AckBytes() + [] == AckBytes();
  }

  /** Kind 1: bytes received, bytes sent, requests and duration; then perhaps the compliance flag. */
  lemma ThroughputLayout(r: ThroughputReply, ia: Option<nat>)
    requires ia.Some? ==> ia.value < TWO_32
    ensures var bs := ThroughputBytes(r, ia);
            && |bs| == (if ia.Some? then 60 else 44)
            && Words32(bs, 0, [3, 36, 1])
            && Words64At(bs, 12, [r.rxBytes, r.txBytes, r.reqCount, r.duration])
            && (ia.Some? ==> Words32(bs, 44, [3, 8, 4, ia.value]))
  {
    hide Encode, Words32, Words64At;
    var extra := if ia.Some? then Encode(Msg2(8, REPLY_IA_COMP, ia.value)) else [];
    ReplyLayout(36, REPLY_STATS_THROUGHPUT, r.Words(), extra);
    if ia.Some? {
      FlagLayout(ia.value);
      ReplyLayout(36, REPLY_STATS_THROUGHPUT, r.Words(), []);
      var head := Encode(Msg1(36, REPLY_STATS_THROUGHPUT) + Fields64(r.Words()));
      assert head + [] == head;
      Words32Later(head, extra, 0, [3, 8, 4, ia.value]);
    }
  }

  lemma FlagLayout(ia: nat)
    requires ia < TWO_32
    ensures var bs := Encode(Msg2(8, REPLY_IA_COMP, ia)); |bs| == 16 && Words32(bs, 0, [3, 8, 4, ia])
  {
    hide Encode, Decode, Words32;
    var m := Msg2(8, REPLY_IA_COMP, ia);
    DecodeFour(m, U32S_4, REPLY, 8, REPLY_IA_COMP, ia, []);
    Fields32At(m, [3, 8, 4, ia], []);
    assert Encode(m) + [] == Encode(m);
  }

  /**
   Kind 2: the throughput, the mean, and lower bound, value and upper bound of the four percentiles; then perhaps the
   trailer.
   */
  lemma LatencyLayout(r: LatencyReply, t: Option<Trailer>)
    requires t.Some? ==> t.value.Fits()
    ensures var bs := LatencyBytes(r, t);
            && |bs| == (if t.Some? then 200 else 148)
            && Words32(bs, 0, [3, 32, 2])
            && Words64At(bs, 12, [r.th.rxBytes, r.th.txBytes, r.th.reqCount, r.th.duration, r.avg])
            && Words64At(bs, 52, [r.p50.i, r.p50.p, r.p50.k, r.p90.i, r.p90.p, r.p90.k])
            && Words64At(bs, 100, [r.p95.i, r.p95.p, r.p95.k, r.p99.i, r.p99.p, r.p99.k])
            && (t.Some? ==> TrailerAt(bs, 148, t.value))
  {
    hide Encode, Words32, Holds, TrailerFields, TrailerAt;
    var ws := r.Words();
    var extra := if t.Some? then Encode(TrailerFields(t.value)) else [];
    ReplyLayout(32, REPLY_STATS_LATENCY, ws, extra);
    var bs := LatencyBytes(r, t);
    assert |ws| == 17;
    SomeWords(bs, 12, ws, 0, 5);
    SomeWords(bs, 12, ws, 5, 6);
    SomeWords(bs, 12, ws, 11, 6);
    assert ws[0..5] == [r.th.rxBytes, r.th.txBytes, r.th.reqCount, r.th.duration, r.avg];
    assert ws[5..11] == [r.p50.i, r.p50.p, r.p50.k, r.p90.i, r.p90.p, r.p90.k];
    assert ws[11..17] == [r.p95.i, r.p95.p, r.p95.k, r.p99.i, r.p99.p, r.p99.k];
    if t.Some? {
      TrailerLayout(t.value);
      ReplyLayout(32, REPLY_STATS_LATENCY, ws, []);
      var head := Encode(Msg1(32, REPLY_STATS_LATENCY) + Fields64(ws));
      assert head + [] == head;
      TrailerLater(head, extra, t.value);
    }
  }

  lemma SomeWords(bs: seq<byte>, at: nat, vs: seq<nat>, from: nat, count: nat)
    requires Words64At(bs, at, vs) && from + count <= |vs|
    ensures Words64At(bs, at + 8 * from, vs[from..from + count])
  {
    hide Holds;
    forall n | 0 <= n < count ensures Holds(bs, at + 8 * from + 8 * n, 8, vs[from..from + count][n]) {
      assert Holds(bs, at + 8 * (from + n), 8, vs[from + n]);
    }
  }

  /** Kinds 3, 5 and 4: the convergence flag, the bits of the correlation, the compliance flag. */
  ghost predicate TrailerAt(bs: seq<byte>, at: nat, t: Trailer) {
    && Words32(bs, at, [3, 8, 3, t.conv])
    && Words32(bs, at + 16, [3, 8, 5]) && Holds(bs, at + 28, 8, t.corrBits)
    && Words32(bs, at + 36, [3, 8, 4, t.ia])
  }

  lemma TrailerLayout(t: Trailer)
    requires t.Fits()
    ensures var bs := Encode(TrailerFields(t)); |bs| == 52 && TrailerAt(bs, 0, t)
  {
    hide Encode, Decode, Words32, Holds, TrailerFields;
    var a, b := Msg1(8, REPLY_CONVERGENCE) + [U32(t.conv)], Msg1(8, REPLY_IID) + [U64(t.corrBits)];
    TrailerParts(t);
    TrailerRoundTrip(t, []);
    DecodeFour(a, U32S_4, REPLY, 8, REPLY_CONVERGENCE, t.conv, []);
    DecodeFour(b, [4, 4, 4, 8], REPLY, 8, REPLY_IID, t.corrBits, []);
    FlagLayout(t.ia);
    var ea, eb, ec := Encode(a), Encode(b), Encode(Msg2(8, REPLY_IA_COMP, t.ia));
    Fields32At(a, [3, 8, 3, t.conv], eb + ec);
    Fields32At(b, [3, 8, 5], ec);
    FieldAt(b, 3, ec);
    Words32Later(ea, eb + ec, 0, [3, 8, 5]);
    HeldLater(ea, eb + ec, 12, 8, t.corrBits);
    Words32Later(eb, ec, 0, [3, 8, 4, t.ia]);
    Words32Later(ea, eb + ec, 20, [3, 8, 4, t.ia]);
  }

  lemma TrailerLater(before: seq<byte>, bs: seq<byte>, t: Trailer)
    requires TrailerAt(bs, 0, t)
    ensures TrailerAt(before + bs, |before|, t)
  {
    hide Words32, Holds;
    Words32Later(before, bs, 0, [3, 8, 3, t.conv]);
    Words32Later(before, bs, 16, [3, 8, 5]);
    HeldLater(before, bs, 28, 8, t.corrBits);
    Words32Later(before, bs, 36, [3, 8, 4, t.ia]);
  }
}
