/** Splitting the response stream of a connection into messages, whatever the chunks it arrives in. */
module Framing {
  import opened Numeric
  import opened ThreadStats

  const MAX_PAYLOAD := 4000
  const RESPONSE_SIZE := 40

  /** The application protocols, told apart by what their responses look like. */
  datatype Proto = Echo(len: nat) | Synthetic | AsciiMem {
    function MessageLength(): nat {
      match this
      case Echo(len) => len
      case Synthetic => 8
      case AsciiMem => RESPONSE_SIZE
    }

    /** The echo message is not empty, and a message fits the connection buffer. */
    predicate Supported() {
      0 < MessageLength() <= MAX_PAYLOAD
    }
  }

  /** `echo_consume_response` and `synthetic_consume_response`: whole messages only. */
  function WholeMessages(len: nat, m: nat): (r: ByteReqPair)
    requires m > 0
    ensures r.bytes <= len < r.bytes + m && r.bytes == r.reqs * m
  {
    ByteReqPair(len / m * m, len / m)
  }

  /** `ascii_mem_consume_response`; no result if its assertion fails. */
  method AsciiConsume(len: nat) returns (r: Option<ByteReqPair>)
    ensures r.Some? <==> len >= RESPONSE_SIZE
    ensures r.Some? ==> r.value == WholeMessages(len, RESPONSE_SIZE)
  {
    if len < RESPONSE_SIZE {
      return None;
    }
    var bytes, reqs := 0, 0;
    while bytes < len
      invariant bytes == reqs * RESPONSE_SIZE
      invariant bytes + RESPONSE_SIZE <= len || reqs > 0
      invariant bytes <= len
      invariant bytes + RESPONSE_SIZE <= len || bytes == len
    {
      reqs := reqs + 1;
      bytes := bytes + RESPONSE_SIZE;
      if bytes + RESPONSE_SIZE > len {
        break;
      }
    }
    r := Some(ByteReqPair(bytes, reqs));
  }

  method ConsumeResponse(proto: Proto, len: nat) returns (r: Option<ByteReqPair>)
    requires proto.Supported()
    ensures proto.Echo? ==> r.Some? && r.value.reqs == len / proto.len
    ensures proto.Synthetic? ==> r.Some? && r.value.reqs == len / 8
    ensures proto.AsciiMem? ==> if len < 40 then r.None? else r.Some? && r.value.reqs == len / 40
    ensures r.None? ==> len < proto.MessageLength()
    ensures r.Some? ==> r.value == WholeMessages(len, proto.MessageLength())
  {
    match proto
    case AsciiMem => r := AsciiConsume(len);
    case _ => r := Some(WholeMessages(len, proto.MessageLength()));
  }

  /** The trailing bytes of a stream that do not make a whole message. */
  ghost function Residue(stream: seq<byte>, m: nat): (r: seq<byte>)
    requires m > 0
    ensures |r| == |stream| % m
  {
    stream[|stream| - |stream| % m..]
  }

  /** A connection's receive side. */
  class Connection {
    var pendingReqs: int
    var closed: bool
    var bufferIdx: nat
    const buffer: array<byte>

    ghost predicate Valid()
      reads this
    {
      buffer.Length == MAX_PAYLOAD && bufferIdx < MAX_PAYLOAD
    }

    ghost function Buffered(): seq<byte>
      requires Valid()
      reads this, buffer
    {
      buffer[..bufferIdx]
    }

    constructor ()
      ensures Valid() && fresh(buffer) && Buffered() == [] && pendingReqs == 0 && !closed
    {
      buffer := new byte[MAX_PAYLOAD](_ => 0);
      pendingReqs, closed, bufferIdx := 0, false, 0;
    }

    /** `recv` into the free part of the buffer. */
    method Append(data: seq<byte>)
      requires buffer.Length == MAX_PAYLOAD && bufferIdx + |data| <= MAX_PAYLOAD
      modifies this`bufferIdx, buffer
      ensures bufferIdx == old(bufferIdx) + |data|
      ensures buffer[..bufferIdx] == old(buffer[..bufferIdx]) + data
    {
      forall i | 0 <= i < |data| {
        buffer[bufferIdx + i] := data[i];
      }
      bufferIdx := bufferIdx + |data|;
    }

    /** `memcpy` of the rest to the front; source and destination must not overlap. */
    method MoveRest(bytes: nat)
      requires bytes <= bufferIdx <= buffer.Length
      requires bufferIdx - bytes <= bytes
      modifies this`bufferIdx, buffer
      ensures bufferIdx == old(bufferIdx) - bytes
      ensures buffer[..bufferIdx] == old(buffer[bytes..bufferIdx])
    {
      forall i | 0 <= i < bufferIdx - bytes {
        buffer[i] := buffer[bytes + i];
      }
      bufferIdx := bufferIdx - bytes;
    }

    /**
     One readable event with a non-empty chunk; `wholeOnly` in the symmetric modes. The thread aborts unless the
     chunk completes a message, and in the symmetric modes also if a part of a message is left.
     */
    method Receive(data: seq<byte>, proto: Proto, wholeOnly: bool) returns (r: Option<ByteReqPair>)
      requires Valid() && proto.Supported()
      requires 0 < |data| <= MAX_PAYLOAD - bufferIdx
      modifies this`pendingReqs, this`bufferIdx, buffer
      ensures var (m, stream) := (proto.MessageLength(), old(Buffered()) + data);
              && (r.Some? <==> m <= |stream| && (wholeOnly ==> |stream| % m == 0))
              && (r.Some? ==> Valid() && r.value == WholeMessages(|stream|, m) && Buffered() == Residue(stream, m)
                              && pendingReqs == old(pendingReqs) - r.value.reqs)
    {
      ghost var stream := Buffered() + data;
      var m := proto.MessageLength();
      Append(data);
      r := ConsumeResponse(proto, bufferIdx);
      WholeMessagesSplit(bufferIdx, m);
      if r.None? {
        return;
      }
      if r.value.bytes == bufferIdx {
        bufferIdx := 0;
      } else {
        if wholeOnly {
          return None;
        }
        if r.value.reqs == 0 {
          return None;
        }
        MoveRest(r.value.bytes);
      }
      pendingReqs := pendingReqs - r.value.reqs;
      assert buffer[..bufferIdx] == stream[|stream| - |stream| % m..];
    }
  }

  /** What is left is shorter than a message, and at least one whole message precedes it if any is complete. */
  lemma WholeMessagesSplit(len: nat, m: nat)
    requires m > 0
    ensures var r := WholeMessages(len, m);
            && len - r.bytes == len % m
            && (r.reqs > 0 <==> m <= len)
            && (r.reqs > 0 ==> len - r.bytes < m <= r.bytes)
            && (r.bytes == len <==> len % m == 0)
  {
    var q := len / m;
    assert len == m * q + len % m;
    if q >= 1 {
      assert m * q == m + m * (q - 1);
      assert 0 <= m * (q - 1);
    }
  }

  // Whole streams.

  ghost function Join(chunks: seq<seq<byte>>): seq<byte> {
    if chunks == [] then [] else Join(chunks[..|chunks| - 1]) + chunks[|chunks| - 1]
  }

  /** The requests counted and the bytes left after the chunks; absent once a chunk completes no message. */
  ghost function Feed(m: nat, chunks: seq<seq<byte>>): Option<(nat, seq<byte>)>
    requires m > 0
  {
    if chunks == [] then Some((0, []))
    else
      var n := |chunks| - 1;
      var before := Feed(m, chunks[..n]);
      if before.None? then None
      else
        var stream := before.value.1 + chunks[n];
        if |stream| < m then None else Some((before.value.0 + |stream| / m, Residue(stream, m)))
  }

  lemma ResidueExtends(s: seq<byte>, data: seq<byte>, m: nat)
    requires m > 0
    ensures var (all, stream) := (s + data, Residue(s, m) + data);
            && |all| / m == |s| / m + |stream| / m
            && Residue(all, m) == Residue(stream, m)
            && (|stream| < m <==> |all| / m == |s| / m)
  {
    hide Residue;
    DivSplit(|s|, |data|, m);
    ResidueSame(s, data, m);
  }

  lemma ResidueSame(s: seq<byte>, data: seq<byte>, m: nat)
    requires m > 0
    ensures Residue(s + data, m) == Residue(Residue(s, m) + data, m)
  {
    hide Residue;
    var all, stream := s + data, Residue(s, m) + data;
    DivSplit(|s|, |data|, m);
    var k := |all| % m;
    ResidueIs(s, m, |s| % m);
    ResidueIs(all, m, k);
    ResidueIs(stream, m, k);
    SameSuffix(all, stream, k);
  }

  lemma ResidueIs(s: seq<byte>, m: nat, k: nat)
    requires m > 0 && k == |s| % m
    ensures k <= |s| && Residue(s, m) == s[|s| - k..]
  {
  }

  lemma SameSuffix(all: seq<byte>, stream: seq<byte>, k: nat)
    requires k <= |stream| <= |all| && all[|all| - |stream|..] == stream
    ensures all[|all| - k..] == stream[|stream| - k..]
  {
  }

  lemma DivSplit(x: nat, y: nat, m: nat)
    requires m > 0
    ensures (x + y) / m == x / m + (x % m + y) / m
    ensures (x + y) % m == (x % m + y) % m
    ensures x % m + y < m <==> (x % m + y) / m == 0
  {
    var r := x % m + y;
    assert x == m * (x / m) + x % m;
    assert r == m * (r / m) + r % m;
    var q := x / m + r / m;
    assert x + y == m * q + r % m by { assert m * q == m * (x / m) + m * (r / m); }
    QuotientUnique(x + y, m, q, r % m);
    if r < m {
      QuotientUnique(r, m, 0, r);
    }
  }

  /** Framing does not depend on the chunking: only the concatenated stream matters. */
  lemma {:induction false} FeedTotals(m: nat, chunks: seq<seq<byte>>)
    requires m > 0 && Feed(m, chunks).Some?
    ensures Feed(m, chunks).value == (|Join(chunks)| / m, Residue(Join(chunks), m))
  {
    if chunks == [] {
      QuotientUnique(0, m, 0, 0);
    } else {
      var n := |chunks| - 1;
      FeedTotals(m, chunks[..n]);
      ResidueExtends(Join(chunks[..n]), chunks[n], m);
    }
  }

  /** The `i`-th receive completes at least one message. */
  ghost predicate Completes(m: nat, chunks: seq<seq<byte>>, i: nat)
    requires m > 0 && i < |chunks|
  {
    |Join(chunks[..i])| / m < |Join(chunks[..i + 1])| / m
  }

  /** The thread survives the stream exactly when every receive completes at least one message. */
  lemma {:induction false} FeedSurvivesIff(m: nat, chunks: seq<seq<byte>>)
    requires m > 0
    ensures Feed(m, chunks).Some? <==> forall i :: 0 <= i < |chunks| ==> Completes(m, chunks, i)
  {
    if chunks != [] {
      hide Join;
      var n := |chunks| - 1;
      FeedSurvivesIff(m, chunks[..n]);
      forall i | 0 <= i < n ensures Completes(m, chunks[..n], i) <==> Completes(m, chunks, i) {
        assert chunks[..n][..i] == chunks[..i] && chunks[..n][..i + 1] == chunks[..i + 1];
      }
      assert chunks[..n + 1] == chunks;
      if Feed(m, chunks[..n]).Some? {
        LastCompletes(m, chunks);
      }
    }
  }

  lemma FeedNext(m: nat, chunks: seq<seq<byte>>, i: nat, count: nat, rest: seq<byte>)
    requires m > 0 && i < |chunks| && Feed(m, chunks[..i]) == Some((count, rest))
    ensures Feed(m, chunks[..i + 1]) ==
            var stream := rest + chunks[i];
            if |stream| < m then None else Some((count + |stream| / m, Residue(stream, m)))
  {
    hide Residue;
    assert chunks[..i + 1][..i] == chunks[..i];
  }

  lemma LastCompletes(m: nat, chunks: seq<seq<byte>>)
    requires m > 0 && chunks != [] && Feed(m, chunks[..|chunks| - 1]).Some?
    ensures Feed(m, chunks).Some? <==> Completes(m, chunks, |chunks| - 1)
  {
    hide Residue, Feed;
    var n := |chunks| - 1;
    var before := Join(chunks[..n]);
    assert chunks[..n + 1] == chunks;
    FeedTotals(m, chunks[..n]);
    FeedNext(m, chunks, n, |before| / m, Residue(before, m));
    ResidueExtends(before, chunks[n], m);
    QuotientsGrow(|before|, |Join(chunks)|, m);
  }

  lemma QuotientsGrow(x: nat, y: nat, m: nat)
    requires m > 0 && x <= y
    ensures x / m <= y / m
  {
    assert x == m * (x / m) + x % m && y == m * (y / m) + y % m;
    NextMultiple(m, y / m, x / m);
  }

  /** Each chunk is what one `recv` can deliver into the free part of the buffer. */
  ghost predicate Receivable(m: nat, chunks: seq<seq<byte>>)
    requires m > 0
  {
    forall i :: 0 <= i < |chunks| ==> 0 < |chunks[i]| <= MAX_PAYLOAD - |Join(chunks[..i])| % m
  }

  lemma {:induction false} FeedStopped(m: nat, chunks: seq<seq<byte>>, i: nat)
    requires m > 0 && i <= |chunks| && Feed(m, chunks[..i]).None?
    ensures Feed(m, chunks).None?
    decreases |chunks|
  {
    if i < |chunks| {
      assert chunks[..|chunks| - 1][..i] == chunks[..i];
      FeedStopped(m, chunks[..|chunks| - 1], i);
    } else {
      assert chunks[..i] == chunks;
    }
  }

  /** The receives of one connection that has nothing buffered, in a mode that keeps parts of messages. */
  method ReceiveAll(c: Connection, chunks: seq<seq<byte>>, proto: Proto) returns (reqs: Option<nat>)
    requires c.Valid() && proto.Supported() && c.Buffered() == [] && Receivable(proto.MessageLength(), chunks)
    modifies c`pendingReqs, c`bufferIdx, c.buffer
    ensures var feed := Feed(proto.MessageLength(), chunks);
            && (reqs.Some? <==> feed.Some?)
            && (reqs.Some? ==> c.Valid() && (reqs.value, c.Buffered()) == feed.value
                               && c.pendingReqs == old(c.pendingReqs) - reqs.value)
  {
    hide Residue, WholeMessages;
    var m, count := proto.MessageLength(), 0;
    for i := 0 to |chunks|
      invariant c.Valid() && Feed(m, chunks[..i]) == Some((count, c.Buffered()))
      invariant c.pendingReqs == old(c.pendingReqs) - count
    {
      FeedTotals(m, chunks[..i]);
      FeedNext(m, chunks, i, count, c.Buffered());
      ghost var stream := c.Buffered() + chunks[i];
      var r := c.Receive(chunks[i], proto, false);
      if r.None? {
        FeedStopped(m, chunks, i + 1);
        return None;
      }
      RequestsOf(|stream|, m);
      count := count + r.value.reqs;
    }
    assert chunks[..|chunks|] == chunks;
    return Some(count);
  }

  lemma RequestsOf(len: nat, m: nat)
    requires m > 0
    ensures WholeMessages(len, m).reqs == len / m
  {
  }
}
