/** The byte-level protocol between the coordinator and the agents' managers: little-endian, packed fields. */
module Wire {
  import opened Numeric

  // Little-endian integers.

  function Pow256(n: nat): (p: nat)
    ensures p > 0
  {
    if n == 0 then 1 else 256 * Pow256(n - 1)
  }

  function ToBytes(x: nat, width: nat): (r: seq<byte>)
    ensures |r| == width
  {
    if width == 0 then [] else [x % 256] + ToBytes(x / 256, width - 1)
  }

  function FromBytes(bs: seq<byte>): (x: nat)
    ensures x < Pow256(|bs|)
  {
    if bs == [] then 0 else bs[0] + 256 * FromBytes(bs[1..])
  }

  lemma {:induction false} FromToBytes(x: nat, width: nat)
    requires x < Pow256(width)
    ensures FromBytes(ToBytes(x, width)) == x
  {
    if width > 0 {
      FromToBytes(x / 256, width - 1);
      assert ToBytes(x, width)[1..] == ToBytes(x / 256, width - 1);
    }
  }

  lemma {:induction false} ToFromBytes(bs: seq<byte>)
    ensures ToBytes(FromBytes(bs), |bs|) == bs
  {
    if bs != [] {
      hide Pow256, ToBytes;
      var x := FromBytes(bs[1..]);
      ToFromBytes(bs[1..]);
      LowestByte(bs[0], x);
      ToBytesStep(bs[0] + 256 * x, bs[0], x, |bs|);
      assert bs == [bs[0]] + bs[1..];
    } else {
      NoBytes(0);
    }
  }

  lemma NoBytes(x: nat)
    ensures ToBytes(x, 0) == []
  {
  }

  lemma ToBytesStep(y: nat, b: byte, x: nat, width: nat)
    requires width > 0 && y % 256 == b && y / 256 == x
    ensures ToBytes(y, width) == [b] + ToBytes(x, width - 1)
  {
  }

  lemma LowestByte(b: byte, x: nat)
    ensures (b + 256 * x) % 256 == b && (b + 256 * x) / 256 == x
  {
  }

  lemma WidthLimits()
    ensures Pow256(4) == TWO_32 && Pow256(8) == TWO_64
  {
    assert Pow256(1) == 256 && Pow256(2) == 0x1_0000 && Pow256(3) == 0x100_0000 && Pow256(4) == TWO_32;
    assert Pow256(5) == 0x100_0000_0000 && Pow256(6) == 0x1_0000_0000_0000 && Pow256(7) == 0x100_0000_0000_0000;
  }

  // Packed structs.

  datatype Field = U32(v: nat) | U64(v: nat) {
    function Width(): nat {
      if U32? then 4 else 8
    }

    predicate Fits() {
      v < if U32? then TWO_32 else TWO_64
    }
  }

  function Encode(fs: seq<Field>): seq<byte> {
    if fs == [] then [] else ToBytes(fs[0].v, fs[0].Width()) + Encode(fs[1..])
  }

  /** Reads one value per width; absent if the bytes run out. */
  function Decode(widths: seq<nat>, bs: seq<byte>): Option<(seq<nat>, seq<byte>)> {
    if widths == [] then Some(([], bs))
    else if |bs| < widths[0] then None
    else
      var r := Decode(widths[1..], bs[widths[0]..]);
      if r.None? then None else Some(([FromBytes(bs[..widths[0]])] + r.value.0, r.value.1))
  }

  function Widths(fs: seq<Field>): (r: seq<nat>)
    ensures |r| == |fs| && forall i :: 0 <= i < |fs| ==> r[i] == fs[i].Width()
  {
    seq(|fs|, i requires 0 <= i < |fs| => fs[i].Width())
  }

  function Values(fs: seq<Field>): (r: seq<nat>)
    ensures |r| == |fs| && forall i :: 0 <= i < |fs| ==> r[i] == fs[i].v
  {
    seq(|fs|, i requires 0 <= i < |fs| => fs[i].v)
  }

  /** Decoding inverts encoding, and leaves what follows. */
  lemma {:induction false} DecodeInvertsEncode(fs: seq<Field>, rest: seq<byte>)
    requires forall i :: 0 <= i < |fs| ==> fs[i].Fits()
    ensures Decode(Widths(fs), Encode(fs) + rest) == Some((Values(fs), rest))
  {
    if fs == [] {
      assert Encode(fs) + rest == rest;
    } else {
      hide ToBytes, FromBytes, Pow256, Decode, Encode, Widths, Values;
      WidthLimits();
      FromToBytes(fs[0].v, fs[0].Width());
      DecodeInvertsEncode(fs[1..], rest);
      FieldsSplit(fs, rest);
      DecodeFirst(Widths(fs), ToBytes(fs[0].v, fs[0].Width()), Encode(fs[1..]) + rest, Encode(fs) + rest);
    }
  }

  lemma FieldsSplit(fs: seq<Field>, rest: seq<byte>)
    requires fs != []
    ensures Widths(fs)[1..] == Widths(fs[1..]) && Values(fs) == [fs[0].v] + Values(fs[1..])
    ensures Encode(fs) + rest == ToBytes(fs[0].v, fs[0].Width()) + (Encode(fs[1..]) + rest)
  {
    hide ToBytes;
  }

  lemma DecodeFirst(widths: seq<nat>, first: seq<byte>, tail: seq<byte>, bs: seq<byte>)
    requires widths != [] && |first| == widths[0] && bs == first + tail
    ensures Decode(widths, bs) ==
            var r := Decode(widths[1..], tail);
            if r.None? then None else Some(([FromBytes(first)] + r.value.0, r.value.1))
  {
    hide FromBytes;
    assert bs[..widths[0]] == first && bs[widths[0]..] == tail;
  }

  lemma {:induction false} EncodeConcat(a: seq<Field>, b: seq<Field>)
    ensures Encode(a + b) == Encode(a) + Encode(b)
  {
    if a == [] {
      assert a + b == b;
    } else {
      assert (a + b)[1..] == a[1..] + b;
      EncodeConcat(a[1..], b);
    }
  }

  lemma {:induction false} EncodeLength(fs: seq<Field>)
    ensures |Encode(fs)| == TotalWidth(fs)
  {
    if fs != [] {
      EncodeLength(fs[1..]);
    }
  }

  function TotalWidth(fs: seq<Field>): nat {
    if fs == [] then 0 else fs[0].Width() + TotalWidth(fs[1..])
  }

  // Commands.

  const START_LOAD := 0
  const START_MEASURE := 1
  const REPORT_REQ := 2
  const REPLY := 3

  const REPORT_THROUGHPUT := 0
  const REPORT_LATENCY := 1

  /** What the coordinator sends; a sampling rate travels as the bits of a double. */
  datatype Command = StartLoad(load: nat) | StartMeasure(samples: nat, rateBits: nat) | ReportReq(kind: nat) {
    predicate Fits() {
      match this
      case StartLoad(load) => load < TWO_32
      case StartMeasure(samples, rateBits) => samples < TWO_32 && rateBits < TWO_64
      case ReportReq(kind) => kind < TWO_32
    }
  }

  function HeaderFields(c: Command): seq<Field> {
    match c
    case StartLoad(_) => [U32(START_LOAD), U32(4)]
    case StartMeasure(_, _) => [U32(START_MEASURE), U32(12)]
    case ReportReq(_) => [U32(REPORT_REQ), U32(4)]
  }

  function PayloadFields(c: Command): seq<Field> {
    match c
    case StartLoad(load) => [U32(load)]
    case StartMeasure(samples, rateBits) => [U32(samples), U64(rateBits)]
    case ReportReq(kind) => [U32(kind)]
  }

  function EncodeCommand(c: Command): seq<byte> {
    Encode(HeaderFields(c)) + Encode(PayloadFields(c))
  }

  function EncodeCommands(cs: seq<Command>): seq<byte> {
    if cs == [] then [] else EncodeCommand(cs[0]) + EncodeCommands(cs[1..])
  }

  /** The manager's view of the next bytes: the peer has closed, a command, bytes that run out, or an unknown type. */
  datatype Parsed = Closed | Next(c: Command, rest: seq<byte>) | Short | Unknown

  /** One `read` into an integer of the given width. */
  function ReadInt(width: nat, bs: seq<byte>): (r: Option<(nat, seq<byte>)>)
    requires width > 0
    ensures r.Some? ==> |r.value.1| < |bs|
  {
    if |bs| < width then None else Some((FromBytes(bs[..width]), bs[width..]))
  }

  /** The reads of one iteration of the manager's loop; the announced length is not looked at. */
  function ParseCommand(bs: seq<byte>): (r: Parsed)
    ensures r.Next? ==> |r.rest| < |bs|
  {
    if bs == [] then Closed
    else
      var kind := ReadInt(4, bs);
      if kind.None? then Short
      else
        var length := ReadInt(4, kind.value.1);
        if length.None? then Short
        else ParsePayload(kind.value.0, length.value.1)
  }

  function ParsePayload(kind: nat, bs: seq<byte>): (r: Parsed)
    ensures r.Next? ==> |r.rest| < |bs|
  {
    if kind !in {START_LOAD, START_MEASURE, REPORT_REQ} then Unknown
    else
      var first := ReadInt(4, bs);
      if first.None? then Short
      else if kind == START_LOAD then Next(StartLoad(first.value.0), first.value.1)
      else if kind == REPORT_REQ then Next(ReportReq(first.value.0), first.value.1)
      else
        var second := ReadInt(8, first.value.1);
        if second.None? then Short else Next(StartMeasure(first.value.0, second.value.0), second.value.1)
  }

  lemma ReadIntInverts(f: Field, rest: seq<byte>, bs: seq<byte>)
    requires f.Fits() && bs == ToBytes(f.v, f.Width()) + rest
    ensures ReadInt(f.Width(), bs) == Some((f.v, rest))
  {
    WidthLimits();
    FromToBytes(f.v, f.Width());
    assert bs[..f.Width()] == ToBytes(f.v, f.Width()) && bs[f.Width()..] == rest;
  }

  lemma EncodeOne(f: Field)
    ensures Encode([f]) == ToBytes(f.v, f.Width())
  {
    assert [f][1..] == [];
  }

  lemma EncodeTwo(f: Field, g: Field)
    ensures Encode([f, g]) == ToBytes(f.v, f.Width()) + ToBytes(g.v, g.Width())
  {
    assert [f, g][1..] == [g];
    EncodeOne(g);
  }

  lemma PayloadInverts(c: Command, rest: seq<byte>)
    requires c.Fits()
    ensures ParsePayload(HeaderFields(c)[0].v, Encode(PayloadFields(c)) + rest) == Next(c, rest)
  {
    hide ReadInt, ToBytes, Encode;
    var p := PayloadFields(c);
    if c.StartMeasure? {
      EncodeTwo(p[0], p[1]);
      var tail := ToBytes(p[1].v, 8) + rest;
      assert Encode(p) + rest == ToBytes(p[0].v, 4) + tail;
      ReadIntInverts(p[0], tail, Encode(p) + rest);
      ReadIntInverts(p[1], rest, tail);
    } else {
      EncodeOne(p[0]);
      ReadIntInverts(p[0], rest, Encode(p) + rest);
    }
  }

  /** The manager reads back exactly the command that was encoded, whatever follows it. */
  lemma ParseInvertsEncode(c: Command, rest: seq<byte>)
    requires c.Fits()
    ensures ParseCommand(EncodeCommand(c) + rest) == Next(c, rest)
  {
    hide ReadInt, ToBytes, Encode, ParsePayload;
    var h, p := HeaderFields(c), Encode(PayloadFields(c)) + rest;
    var bs, tail := EncodeCommand(c) + rest, ToBytes(h[1].v, 4) + p;
    EncodeTwo(h[0], h[1]);
    assert bs == ToBytes(h[0].v, 4) + tail;
    ReadIntInverts(h[0], tail, bs);
    ReadIntInverts(h[1], p, tail);
    PayloadInverts(c, rest);
  }

  /**
   What the bytes lead to: nothing closes, an unknown type in the first word ends the loop, and bytes that run out
   within the header or the payload are short. Otherwise a command and what follows its 12 or 20 bytes.
   */
  lemma ParseCases(bs: seq<byte>)
    ensures var p := ParseCommand(bs);
            && (p == Closed <==> |bs| == 0)
            && (p == Unknown <==> |bs| >= 8 && FromBytes(bs[..4]) > 2)
            && (p == Short <==> 0 < |bs| < 8 || (|bs| >= 8 && FromBytes(bs[..4]) <= 2
                                                && |bs| < if FromBytes(bs[..4]) == 1 then 20 else 12))
            && (p.Next? ==> p.rest == bs[if FromBytes(bs[..4]) == 1 then 20 else 12..])
  {
    hide FromBytes;
    if |bs| >= 8 {
      var length := bs[4..];
      var payload := length[4..];
      assert payload == bs[8..];
      assert FromBytes(bs[..4]) in {0, 1, 2} <==> FromBytes(bs[..4]) <= 2;
      if |bs| >= 12 {
        assert payload[4..] == bs[12..];
        if |bs| >= 20 {
          assert payload[4..][8..] == bs[20..];
        }
      }
    }
  }

  // Replies.

  const REPLY_ACK := 0
  const REPLY_STATS_THROUGHPUT := 1
  const REPLY_STATS_LATENCY := 2
  const REPLY_CONVERGENCE := 3
  const REPLY_IA_COMP := 4
  const REPLY_IID := 5

  datatype ThroughputReply = ThroughputReply(rxBytes: nat, txBytes: nat, reqCount: nat, duration: nat) {
    function Words(): seq<nat> {
      [rxBytes, txBytes, reqCount, duration]
    }
  }

  datatype Triple = Triple(i: nat, p: nat, k: nat) {
    function Words(): seq<nat> {
      [i, p, k]
    }
  }

  datatype LatencyReply = LatencyReply(th: ThroughputReply, avg: nat, p50: Triple, p90: Triple, p95: Triple,
                                       p99: Triple) {
    function Words(): seq<nat> {
      th.Words() + [avg] + p50.Words() + p90.Words() + p95.Words() + p99.Words()
    }
  }

  /** What only agents with hardware time stamps append to a latency reply. */
  datatype Trailer = Trailer(conv: nat, corrBits: nat, ia: nat) {
    predicate Fits() {
      conv < TWO_32 && corrBits < TWO_64 && ia < TWO_32
    }
  }

  function Fields64(ws: seq<nat>): (r: seq<Field>)
    ensures |r| == |ws| && forall i :: 0 <= i < |ws| ==> r[i] == U64(ws[i])
  {
    seq(|ws|, i requires 0 <= i < |ws| => U64(ws[i]))
  }

  predicate Words64(ws: seq<nat>) {
    forall i :: 0 <= i < |ws| ==> ws[i] < TWO_64
  }

  function Msg1(length: nat, info: nat): seq<Field> {
    [U32(REPLY), U32(length), U32(info)]
  }

  function Msg2(length: nat, info1: nat, info2: nat): seq<Field> {
    [U32(REPLY), U32(length), U32(info1), U32(info2)]
  }

  /** `reply_throughput_stats`. */
  function ThroughputBytes(r: ThroughputReply, ia: Option<nat>): seq<byte> {
    Encode(Msg1(36, REPLY_STATS_THROUGHPUT) + Fields64(r.Words()))
    + (if ia.Some? then Encode(Msg2(8, REPLY_IA_COMP, ia.value)) else [])
  }

  function TrailerFields(t: Trailer): seq<Field> {
    Msg1(8, REPLY_CONVERGENCE) + [U32(t.conv)] + Msg1(8, REPLY_IID) + [U64(t.corrBits)] + Msg2(8, REPLY_IA_COMP, t.ia)
  }

  /** `reply_latency_stats`. */
  function LatencyBytes(r: LatencyReply, t: Option<Trailer>): seq<byte> {
    Encode(Msg1(32, REPLY_STATS_LATENCY) + Fields64(r.Words()))
    + (if t.Some? then Encode(TrailerFields(t.value)) else [])
  }

  const U32S_3 := [4, 4, 4]
  const U32S_4 := [4, 4, 4, 4]
  const THROUGHPUT_WIDTHS := [8, 8, 8, 8]
  const LATENCY_WIDTHS := [8, 8, 8, 8, 8, 8, 8, 8, 8, 8, 8, 8, 8, 8, 8, 8, 8]
  const READ_BUFFER := 1024

  /** The buffer after `Read`: the bytes received, then zeros. */
  function Padded(bs: seq<byte>): seq<byte>
    requires |bs| <= READ_BUFFER
  {
    bs + seq(READ_BUFFER - |bs|, _ => 0)
  }

  function ToThroughput(ws: seq<nat>): ThroughputReply
    requires |ws| >= 4
  {
    ThroughputReply(ws[0], ws[1], ws[2], ws[3])
  }

  function ToLatency(ws: seq<nat>): LatencyReply
    requires |ws| == 17
  {
    LatencyReply(ToThroughput(ws), ws[4], Triple(ws[5], ws[6], ws[7]), Triple(ws[8], ws[9], ws[10]),
                 Triple(ws[11], ws[12], ws[13]), Triple(ws[14], ws[15], ws[16]))
  }

  lemma {:induction false} DecodeShape(widths: seq<nat>, bs: seq<byte>)
    ensures var r := Decode(widths, bs); r.Some? ==> |r.value.0| == |widths|
  {
    if widths != [] && |bs| >= widths[0] {
      DecodeShape(widths[1..], bs[widths[0]..]);
    }
  }

  /** One agent's part of `collectThroughputResults`: the reply, and the compliance flag if more bytes arrived. */
  function ParseThroughput(bs: seq<byte>): Option<(ThroughputReply, Option<nat>)>
    requires |bs| <= READ_BUFFER
  {
    var prelude := Decode(U32S_3, Padded(bs));
    if prelude.None? then None
    else
      DecodeShape(U32S_3, Padded(bs));
      if prelude.value.0[2] != REPLY_STATS_THROUGHPUT then None
      else
        var body := Decode(THROUGHPUT_WIDTHS, prelude.value.1);
        if body.None? then None
        else
          DecodeShape(THROUGHPUT_WIDTHS, prelude.value.1);
          if |bs| <= 12 + 32 then Some((ToThroughput(body.value.0), None))
          else
            var ia := Decode(U32S_4, body.value.1);
            DecodeShape(U32S_4, body.value.1);
            if ia.None? then None else Some((ToThroughput(body.value.0), Some(ia.value.0[3])))
  }

  /** The optional part of `collectLatencyResults`. */
  function ParseTrailer(bs: seq<byte>): Option<Trailer> {
    var c := Decode(U32S_4, bs);
    DecodeShape(U32S_4, bs);
    if c.None? || c.value.0[2] != REPLY_CONVERGENCE then None
    else
      var d := Decode([4, 4, 4, 8], c.value.1);
      DecodeShape([4, 4, 4, 8], c.value.1);
      if d.None? || d.value.0[2] != REPLY_IID then None
      else
        var ia := Decode(U32S_4, d.value.1);
        DecodeShape(U32S_4, d.value.1);
        if ia.None? then None else Some(Trailer(c.value.0[3], d.value.0[3], ia.value.0[3]))
  }

  /** One agent's part of `collectLatencyResults`. */
  function ParseLatency(bs: seq<byte>): Option<(LatencyReply, Option<Trailer>)>
    requires |bs| <= READ_BUFFER
  {
    var prelude := Decode(U32S_3, Padded(bs));
    DecodeShape(U32S_3, Padded(bs));
    if prelude.None? || prelude.value.0[2] != REPLY_STATS_LATENCY then None
    else
      var body := Decode(LATENCY_WIDTHS, prelude.value.1);
      DecodeShape(LATENCY_WIDTHS, prelude.value.1);
      if body.None? then None
      else if |bs| <= 12 + 136 then Some((ToLatency(body.value.0), None))
      else
        var t := ParseTrailer(body.value.1);
        if t.None? then None else Some((ToLatency(body.value.0), t))
  }

  // Round trips of the replies.

  lemma {:induction false} Fields64Width(ws: seq<nat>)
    ensures |Encode(Fields64(ws))| == 8 * |ws|
  {
    var fs := Fields64(ws);
    if ws != [] {
      Fields64Width(ws[1..]);
      assert fs[1..] == Fields64(ws[1..]);
    }
  }

  /** Decoding a struct of 64-bit words. */
  lemma DecodeWords(ws: seq<nat>, widths: seq<nat>, rest: seq<byte>)
    requires Words64(ws) && |widths| == |ws| && forall i :: 0 <= i < |widths| ==> widths[i] == 8
    ensures Decode(widths, Encode(Fields64(ws)) + rest) == Some((ws, rest))
  {
    var fs := Fields64(ws);
    DecodeInvertsEncode(fs, rest);
    assert Widths(fs) == widths && Values(fs) == ws;
  }

  lemma DecodeMsg1(length: nat, info: nat, rest: seq<byte>)
    requires length < TWO_32 && info < TWO_32
    ensures Decode(U32S_3, Encode(Msg1(length, info)) + rest) == Some(([REPLY, length, info], rest))
    ensures |Encode(Msg1(length, info))| == 12
  {
    var fs := Msg1(length, info);
    DecodeInvertsEncode(fs, rest);
    assert Widths(fs) == U32S_3 && Values(fs) == [REPLY, length, info];
    EncodeLength(fs);
    WidthsAdd(fs);
  }

  /** The total width, one field at a time. */
  lemma WidthsAdd(fs: seq<Field>)
    ensures |fs| == 3 ==> TotalWidth(fs) == fs[0].Width() + fs[1].Width() + fs[2].Width()
    ensures |fs| == 4 ==> TotalWidth(fs) == fs[0].Width() + fs[1].Width() + fs[2].Width() + fs[3].Width()
  {
    if |fs| >= 3 {
      var f1 := fs[1..];
      var f2 := f1[1..];
      var f3 := f2[1..];
      assert TotalWidth(fs) == fs[0].Width() + TotalWidth(f1);
      assert TotalWidth(f1) == fs[1].Width() + TotalWidth(f2);
      assert TotalWidth(f2) == fs[2].Width() + TotalWidth(f3);
      if |fs| == 4 {
        assert f3[1..] == [];
        assert TotalWidth(f3) == fs[3].Width() + TotalWidth(f3[1..]);
      }
    }
  }

  lemma DecodeFour(fs: seq<Field>, widths: seq<nat>, a: nat, b: nat, c: nat, d: nat, rest: seq<byte>)
    requires |fs| == 4 && forall i :: 0 <= i < 4 ==> fs[i].Fits()
    requires widths == [fs[0].Width(), fs[1].Width(), fs[2].Width(), fs[3].Width()]
    requires [a, b, c, d] == [fs[0].v, fs[1].v, fs[2].v, fs[3].v]
    ensures Decode(widths, Encode(fs) + rest) == Some(([a, b, c, d], rest))
    ensures |Encode(fs)| == widths[0] + widths[1] + widths[2] + widths[3]
  {
    DecodeInvertsEncode(fs, rest);
    assert Widths(fs) == widths && Values(fs) == [a, b, c, d];
    EncodeLength(fs);
    WidthsAdd(fs);
  }

  /** What precedes the optional part of a reply is read back, and the optional part is left. */
  lemma DecodeReply(length: nat, info: nat, ws: seq<nat>, widths: seq<nat>, tail: seq<byte>)
    requires length < TWO_32 && info < TWO_32
    requires Words64(ws) && |widths| == |ws| && forall i :: 0 <= i < |widths| ==> widths[i] == 8
    ensures var head := Encode(Msg1(length, info) + Fields64(ws));
            && |head| == 12 + 8 * |ws|
            && Decode(U32S_3, head + tail) == Some(([REPLY, length, info], Encode(Fields64(ws)) + tail))
            && Decode(widths, Encode(Fields64(ws)) + tail) == Some((ws, tail))
  {
    var m, w := Encode(Msg1(length, info)), Encode(Fields64(ws));
    EncodeConcat(Msg1(length, info), Fields64(ws));
    Fields64Width(ws);
    DecodeMsg1(length, info, w + tail);
    assert m + w + tail == m + (w + tail);
    DecodeWords(ws, widths, tail);
  }

  /** The coordinator reads back a throughput reply, with and without the compliance flag. */
  lemma ThroughputRoundTrip(r: ThroughputReply, ia: Option<nat>)
    requires Words64(r.Words()) && (ia.Some? ==> ia.value < TWO_32)
    ensures var bs := ThroughputBytes(r, ia);
            |bs| <= READ_BUFFER && ParseThroughput(bs) == Some((r, ia))
  {
    hide Decode, Encode;
    var head := Encode(Msg1(36, REPLY_STATS_THROUGHPUT) + Fields64(r.Words()));
    var extra := if ia.Some? then Encode(Msg2(8, REPLY_IA_COMP, ia.value)) else [];
    if ia.Some? {
      DecodeFour(Msg2(8, REPLY_IA_COMP, ia.value), U32S_4, REPLY, 8, REPLY_IA_COMP, ia.value, []);
    }
    DecodeReply(36, REPLY_STATS_THROUGHPUT, r.Words(), THROUGHPUT_WIDTHS, extra);
    var bs := head + extra;
    var zeros := seq(READ_BUFFER - |bs|, _ => 0);
    var tail := extra + zeros;
    assert Padded(bs) == head + tail;
    DecodeReply(36, REPLY_STATS_THROUGHPUT, r.Words(), THROUGHPUT_WIDTHS, tail);
    if ia.Some? {
      DecodeFour(Msg2(8, REPLY_IA_COMP, ia.value), U32S_4, REPLY, 8, REPLY_IA_COMP, ia.value, zeros);
    }
  }

  /** The three parts of the trailer, byte for byte. */
  lemma TrailerParts(t: Trailer)
    ensures Encode(TrailerFields(t)) == Encode(Msg1(8, REPLY_CONVERGENCE) + [U32(t.conv)])
                                      + (Encode(Msg1(8, REPLY_IID) + [U64(t.corrBits)])
                                         + Encode(Msg2(8, REPLY_IA_COMP, t.ia)))
  {
    var a, b, c := Msg1(8, REPLY_CONVERGENCE) + [U32(t.conv)], Msg1(8, REPLY_IID) + [U64(t.corrBits)],
                   Msg2(8, REPLY_IA_COMP, t.ia);
    assert TrailerFields(t) == a + (b + c);
    EncodeConcat(a, b + c);
    EncodeConcat(b, c);
  }

  lemma TrailerRoundTrip(t: Trailer, rest: seq<byte>)
    requires t.Fits()
    ensures ParseTrailer(Encode(TrailerFields(t)) + rest) == Some(t)
    ensures |Encode(TrailerFields(t))| == 52
  {
    hide Decode, Encode, TrailerFields;
    var a, b, c := Msg1(8, REPLY_CONVERGENCE) + [U32(t.conv)], Msg1(8, REPLY_IID) + [U64(t.corrBits)],
                   Msg2(8, REPLY_IA_COMP, t.ia);
    TrailerParts(t);
    var ea, eb, ec := Encode(a), Encode(b), Encode(c);
    DecodeFour(a, U32S_4, REPLY, 8, REPLY_CONVERGENCE, t.conv, eb + ec + rest);
    DecodeFour(b, [4, 4, 4, 8], REPLY, 8, REPLY_IID, t.corrBits, ec + rest);
    DecodeFour(c, U32S_4, REPLY, 8, REPLY_IA_COMP, t.ia, rest);
    assert ea + (eb + ec) + rest == ea + (eb + ec + rest);
    assert eb + ec + rest == eb + (ec + rest);
  }

  lemma LatencyWords(r: LatencyReply)
    ensures |r.Words()| == 17 && ToLatency(r.Words()) == r
  {
  }

  /** The coordinator reads back a latency reply, with and without the trailer of hardware-timed agents. */
  lemma LatencyRoundTrip(r: LatencyReply, t: Option<Trailer>)
    requires Words64(r.Words()) && (t.Some? ==> t.value.Fits())
    ensures var bs := LatencyBytes(r, t);
            |bs| <= READ_BUFFER && ParseLatency(bs) == Some((r, t))
  {
    hide Decode, Encode, TrailerFields, ToLatency, ParseTrailer;
    LatencyWords(r);
    var head := Encode(Msg1(32, REPLY_STATS_LATENCY) + Fields64(r.Words()));
    var extra := if t.Some? then Encode(TrailerFields(t.value)) else [];
    if t.Some? {
      TrailerRoundTrip(t.value, []);
    }
    DecodeReply(32, REPLY_STATS_LATENCY, r.Words(), LATENCY_WIDTHS, extra);
    var bs := head + extra;
    var zeros := seq(READ_BUFFER - |bs|, _ => 0);
    var tail := extra + zeros;
    assert Padded(bs) == head + tail;
    DecodeReply(32, REPLY_STATS_LATENCY, r.Words(), LATENCY_WIDTHS, tail);
    if t.Some? {
      TrailerRoundTrip(t.value, zeros);
    }
  }

  // Acknowledgements.

  const ACK_BUFFER := 64

  /** `reply_ack`. */
  function AckBytes(): seq<byte> {
    Encode(Msg1(4, REPLY_ACK))
  }

  /** One agent's part of `collectAcks`; the buffer is zero past the bytes received, whose count is not looked at. */
  function IsAck(bs: seq<byte>): bool
    requires |bs| <= ACK_BUFFER
  {
    var m := Decode(U32S_3, bs + seq(ACK_BUFFER - |bs|, _ => 0));
    DecodeShape(U32S_3, bs + seq(ACK_BUFFER - |bs|, _ => 0));
    m.Some? && m.value.0[2] == REPLY_ACK
  }

  lemma {:induction false} ZeroBytes(bs: seq<byte>)
    ensures FromBytes(bs) == 0 <==> forall i :: 0 <= i < |bs| ==> bs[i] == 0
  {
    if bs != [] {
      var rest := bs[1..];
      ZeroBytes(rest);
      if bs[0] == 0 && FromBytes(rest) == 0 {
        forall i | 1 <= i < |bs| ensures bs[i] == 0 {
          assert rest[i - 1] == 0;
        }
      }
    }
  }

  lemma ThirdOfThree(p: seq<byte>)
    requires |p| >= 12
    ensures var m := Decode(U32S_3, p); m.Some? && |m.value.0| == 3 && m.value.0[2] == FromBytes(p[8..12])
  {
    hide FromBytes;
    var q := p[4..];
    var q' := q[4..];
    assert U32S_3[1..] == [4, 4] && [4, 4][1..] == [4];
    assert q'[..4] == p[8..12];
    assert Decode([4], q').Some? && Decode([4], q').value.0 == [FromBytes(q'[..4])];
    assert Decode([4, 4], q).Some? && Decode([4, 4], q).value.0 == [FromBytes(q[..4])] + [FromBytes(q'[..4])];
  }

  /** What counts as an acknowledgement: no non-zero byte arrived in the place of the third word. */
  lemma IsAckIff(bs: seq<byte>)
    requires |bs| <= ACK_BUFFER
    ensures IsAck(bs) <==> forall i :: 8 <= i < 12 && i < |bs| ==> bs[i] == 0
  {
    hide Decode, FromBytes;
    var p := bs + seq(ACK_BUFFER - |bs|, _ => 0);
    ThirdOfThree(p);
    ZeroBytes(p[8..12]);
    assert forall i :: 0 <= i < 4 ==> p[8..12][i] == p[8 + i];
    assert forall i :: 8 <= i < 12 ==> p[i] == p[8..12][i - 8];
    assert forall i :: 8 <= i < 12 && i < |bs| ==> p[i] == bs[i];
  }

  /** The manager's acknowledgement is accepted; a statistics reply read in its place is not. */
  lemma AckRoundTrip(th: ThroughputReply, ia: Option<nat>)
    ensures |AckBytes()| == 12 && IsAck(AckBytes())
    ensures |ThroughputBytes(th, ia)| <= ACK_BUFFER ==> !IsAck(ThroughputBytes(th, ia))
  {
    hide Decode, Encode;
    InfoDecides(AckBytes(), [], 4, REPLY_ACK);
    var bs := ThroughputBytes(th, ia);
    if |bs| <= ACK_BUFFER {
      var tail := Encode(Fields64(th.Words())) + (if ia.Some? then Encode(Msg2(8, REPLY_IA_COMP, ia.value)) else []);
      EncodeConcat(Msg1(36, REPLY_STATS_THROUGHPUT), Fields64(th.Words()));
      InfoDecides(bs, tail, 36, REPLY_STATS_THROUGHPUT);
    }
  }

  lemma InfoDecides(bs: seq<byte>, tail: seq<byte>, length: nat, info: nat)
    requires bs == Encode(Msg1(length, info)) + tail && length < TWO_32 && info < TWO_32
    ensures |bs| == 12 + |tail|
    ensures |bs| <= ACK_BUFFER ==> (IsAck(bs) <==> info == REPLY_ACK)
  {
    hide Decode, Encode;
    DecodeMsg1(length, info, []);
    if |bs| <= ACK_BUFFER {
      var zeros := seq(ACK_BUFFER - |bs|, _ => 0);
      DecodeMsg1(length, info, tail + zeros);
      assert bs + zeros == Encode(Msg1(length, info)) + (tail + zeros);
    }
  }

  /** `collectAcks`; an absent read is a failed one. */
  method CollectAcks(received: seq<Option<seq<byte>>>) returns (ok: bool)
    requires forall i :: 0 <= i < |received| && received[i].Some? ==> |received[i].value| <= ACK_BUFFER
    ensures ok <==> forall i :: 0 <= i < |received| ==> received[i].Some? && IsAck(received[i].value)
  {
    hide IsAck;
    for i := 0 to |received|
      invariant forall j :: 0 <= j < i ==> received[j].Some? && IsAck(received[j].value)
    {
      if received[i].None? || !IsAck(received[i].value) {
        return false;
      }
    }
    return true;
  }

  // Collecting from all agents; an absent read is a failed one.

  /** The trailers that are present, in order. */
  ghost function Present<T>(ts: seq<Option<T>>): seq<T> {
    if ts == [] then []
    else Present(ts[..|ts| - 1]) + (if ts[|ts| - 1].Some? then [ts[|ts| - 1].value] else [])
  }

  method CollectThroughput(received: seq<Option<seq<byte>>>) returns (r: Option<(seq<ThroughputReply>, seq<nat>)>)
    requires forall i :: 0 <= i < |received| && received[i].Some? ==> |received[i].value| <= READ_BUFFER
    ensures r.Some? <==>
            forall i :: 0 <= i < |received| ==> received[i].Some? && ParseThroughput(received[i].value).Some?
    ensures r.Some? ==>
              && |r.value.0| == |received|
              && (forall i :: 0 <= i < |received| ==> r.value.0[i] == ParseThroughput(received[i].value).value.0)
              && r.value.1 == Present(seq(|received|, i requires 0 <= i < |received| =>
                                            ParseThroughput(received[i].value).value.1))
  {
    hide ParseThroughput;
    var result, iaComp := [], [];
    ghost var flags: seq<Option<nat>> := [];
    for i := 0 to |received|
      invariant |result| == |flags| == i
      invariant forall j :: 0 <= j < i ==> received[j].Some? && ParseThroughput(received[j].value).Some?
      invariant forall j :: 0 <= j < i ==> ParseThroughput(received[j].value).value == (result[j], flags[j])
      invariant iaComp == Present(flags)
    {
      if received[i].None? {
        return None;
      }
      var p := ParseThroughput(received[i].value);
      if p.None? {
        return None;
      }
      result := result + [p.value.0];
      if p.value.1.Some? {
        iaComp := iaComp + [p.value.1.value];
      }
      assert (flags + [p.value.1])[..i] == flags;
      flags := flags + [p.value.1];
    }
    assert flags == seq(|received|, i requires 0 <= i < |received| => ParseThroughput(received[i].value).value.1);
    r := Some((result, iaComp));
  }

  method CollectLatency(received: seq<Option<seq<byte>>>) returns (r: Option<(seq<LatencyReply>, seq<Trailer>)>)
    requires forall i :: 0 <= i < |received| && received[i].Some? ==> |received[i].value| <= READ_BUFFER
    ensures r.Some? <==> forall i :: 0 <= i < |received| ==> received[i].Some? && ParseLatency(received[i].value).Some?
    ensures r.Some? ==>
              && |r.value.0| == |received|
              && (forall i :: 0 <= i < |received| ==> r.value.0[i] == ParseLatency(received[i].value).value.0)
              && r.value.1 == Present(seq(|received|, i requires 0 <= i < |received| =>
                                            ParseLatency(received[i].value).value.1))
  {
    hide ParseLatency;
    var result, trailers := [], [];
    ghost var flags: seq<Option<Trailer>> := [];
    for i := 0 to |received|
      invariant |result| == |flags| == i
      invariant forall j :: 0 <= j < i ==> received[j].Some? && ParseLatency(received[j].value).Some?
      invariant forall j :: 0 <= j < i ==> ParseLatency(received[j].value).value == (result[j], flags[j])
      invariant trailers == Present(flags)
    {
      if received[i].None? {
        return None;
      }
      var p := ParseLatency(received[i].value);
      if p.None? {
        return None;
      }
      result := result + [p.value.0];
      if p.value.1.Some? {
        trailers := trailers + [p.value.1.value];
      }
      assert (flags + [p.value.1])[..i] == flags;
      flags := flags + [p.value.1];
    }
    assert flags == seq(|received|, i requires 0 <= i < |received| => ParseLatency(received[i].value).value.1);
    r := Some((result, trailers));
  }
}
