/**
 * Whole-conversation properties of the packet framing: the non-blocking
 * reader is resumable (feeding the input in any chunks, with reads in between,
 * yields the same packets as feeding it at once), and what the writer emits
 * reads back as the packets written, in order.
 */
module PacketResume {
  import opened Bytes
  import opened PacketStream
  import Transport

  /** The reference decoder for a whole byte stream: its complete packets in
      order, and the incomplete tail. */
  function Split(s: seq<byte>): (r: (seq<seq<byte>>, seq<byte>))
    ensures NextPacket(r.1).None?
    decreases |s|
  {
    match NextPacket(s)
    case None => ([], s)
    case Some(p) =>
      var rest := Split(s[1 + |p|..]);
      ([p] + rest.0, rest.1)
  }

  /** A payload short enough for the one-byte length header. */
  type Packet = p: seq<byte> | |p| < 256

  /** The wire image of several packets sent back to back. */
  function Frames(packets: seq<Packet>): seq<byte>
    decreases |packets|
  {
    if |packets| == 0 then [] else Frame(packets[0]) + Frames(packets[1..])
  }

  /** Non-blocking reads repeated until one returns the null result. */
  function Drain(ps: State): (r: (State, seq<seq<byte>>))
    requires Valid(ps) && !ps.blockRead && !ps.inner.readFault
    ensures Valid(r.0) && !r.0.blockRead && !r.0.inner.readFault
    decreases |ps.inner.rx|
  {
    var rd := Pump(ps);
    if rd.packet.None? then (rd.stream, [])
    else
      PendingFits(ps);
      var rest := Drain(rd.stream);
      (rest.0, [rd.packet.value] + rest.1)
  }

  /** A packet handed out takes all the pending bytes and at least one input
      byte. */
  lemma PendingFits(ps: State)
    requires Valid(ps) && !ps.inner.readFault
    requires Pump(ps).packet.Some?
    ensures |Pump(ps).stream.inner.rx| < |ps.inner.rx|
  {
    PumpSpec(ps);
    if Pending(ps) != [] {
      assert Unread(ps)[0] == ps.buffer[0];
    }
  }

  /** Input arriving in chunks, each followed by reads until the null result
      (and reads until the null result when no chunk is left); yields the
      final state and every packet returned, in order. */
  function Feed(ps: State, chunks: seq<seq<byte>>): (r: (State, seq<seq<byte>>))
    requires Valid(ps) && !ps.blockRead && !ps.inner.readFault
    ensures Valid(r.0) && !r.0.blockRead && !r.0.inner.readFault
    decreases |chunks|
  {
    if |chunks| == 0 then Drain(ps)
    else
      var d := Drain(ps.(inner := ps.inner.(rx := ps.inner.rx + chunks[0])));
      var rest := Feed(d.0, chunks[1..]);
      (rest.0, d.1 + rest.1)
  }

  /** Draining returns exactly the complete packets of what was unread and
      keeps the incomplete tail as the pending packet. */
  lemma {:induction false} DrainSpec(ps: State)
    requires Valid(ps) && !ps.blockRead && !ps.inner.readFault
    ensures Drain(ps).1 == Split(Unread(ps)).0
    ensures Pending(Drain(ps).0) == Split(Unread(ps)).1
    ensures Drain(ps).0.inner.rx == []
    decreases |ps.inner.rx|
  {
    var rd := Pump(ps);
    var u := Unread(ps);
    PumpSpec(ps);
    DrainUnfold(ps);
    if rd.packet.Some? {
      var p := rd.packet.value;
      PendingFits(ps);
      SplitStep(u, p);
      assert Unread(rd.stream) == u[1 + |p|..];
      DrainSpec(rd.stream);
      assert Drain(ps).1 == [p] + Drain(rd.stream).1;
    } else {
      SplitNone(u);
      assert Pending(rd.stream) == u;
    }
  }

  /** `Split` at a complete first packet. */
  lemma SplitStep(s: seq<byte>, p: seq<byte>)
    requires NextPacket(s) == Some(p)
    ensures Split(s) == ([p] + Split(s[1 + |p|..]).0, Split(s[1 + |p|..]).1)
  {
  }

  /** `Split` of a stream without a complete packet. */
  lemma SplitNone(s: seq<byte>)
    requires NextPacket(s).None?
    ensures Split(s) == ([], s)
  {
  }

  lemma DrainUnfold(ps: State)
    requires Valid(ps) && !ps.blockRead && !ps.inner.readFault
    ensures var rd := Pump(ps);
      Drain(ps) == if rd.packet.None? then (rd.stream, [])
                   else (Drain(rd.stream).0, [rd.packet.value] + Drain(rd.stream).1)
  {
  }

  /** A complete packet at the front stays the first packet whatever follows. */
  lemma NextPacketExtends(s: seq<byte>, t: seq<byte>)
    requires NextPacket(s).Some?
    ensures NextPacket(s + t) == NextPacket(s)
  {
    var n := s[0] as int;
    assert (s + t)[1..1 + n] == s[1..1 + n];
  }

  /** Decoding a concatenation: the packets of the first part, then those of
      its incomplete tail followed by the second part. */
  lemma {:induction false} SplitAppend(s: seq<byte>, t: seq<byte>)
    ensures Split(s + t).0 == Split(s).0 + Split(Split(s).1 + t).0
    ensures Split(s + t).1 == Split(Split(s).1 + t).1
    decreases |s|
  {
    match NextPacket(s)
    case None =>
    case Some(p) =>
      NextPacketExtends(s, t);
      var k := 1 + |p|;
      assert (s + t)[k..] == s[k..] + t;
      SplitAppend(s[k..], t);
  }

  /** Resumability: feeding the input in any chunks, reading in between,
      returns exactly the packets of the whole input in order and leaves its
      incomplete tail pending. */
  lemma {:induction false} FeedSpec(ps: State, chunks: seq<seq<byte>>)
    requires Valid(ps) && !ps.blockRead && !ps.inner.readFault
    ensures Feed(ps, chunks).1 == Split(Unread(ps) + Concat(chunks)).0
    ensures Pending(Feed(ps, chunks).0) == Split(Unread(ps) + Concat(chunks)).1
    decreases |chunks|
  {
    if |chunks| == 0 {
      assert Unread(ps) + Concat(chunks) == Unread(ps);
      DrainSpec(ps);
    } else {
      var fed := ps.(inner := ps.inner.(rx := ps.inner.rx + chunks[0]));
      var d := Drain(fed);
      FeedUnfold(ps, chunks);
      DrainSpec(fed);
      FeedSpec(d.0, chunks[1..]);
      var u, t := Unread(fed), Concat(chunks[1..]);
      UnreadDrained(d.0);
      SplitAppend(u, t);
      FedUnread(ps, chunks);
    }
  }

  lemma FeedUnfold(ps: State, chunks: seq<seq<byte>>)
    requires Valid(ps) && !ps.blockRead && !ps.inner.readFault && |chunks| > 0
    ensures
      var d := Drain(ps.(inner := ps.inner.(rx := ps.inner.rx + chunks[0])));
      Feed(ps, chunks) == (Feed(d.0, chunks[1..]).0, d.1 + Feed(d.0, chunks[1..]).1)
  {
  }

  lemma UnreadDrained(ps: State)
    requires Valid(ps) && ps.inner.rx == []
    ensures Unread(ps) == Pending(ps)
  {
  }

  lemma FedUnread(ps: State, chunks: seq<seq<byte>>)
    requires Valid(ps) && |chunks| > 0
    ensures Unread(ps.(inner := ps.inner.(rx := ps.inner.rx + chunks[0]))) + Concat(chunks[1..])
         == Unread(ps) + Concat(chunks)
  {
    AppendAssoc(Pending(ps), ps.inner.rx, chunks[0]);
    AppendAssoc(Unread(ps), chunks[0], Concat(chunks[1..]));
  }

  /** The same packets come out whether the input arrives in chunks or all at
      once. */
  lemma ChunkingIsInvisible(ps: State, chunks: seq<seq<byte>>)
    requires Valid(ps) && !ps.blockRead && !ps.inner.readFault && ps.inner.rx == []
    ensures Feed(ps, chunks).1 == Feed(ps, [Concat(chunks)]).1
  {
    FeedSpec(ps, chunks);
    FeedSpec(ps, [Concat(chunks)]);
    assert Concat([Concat(chunks)]) == Concat(chunks);
  }

  /** A frame in front of anything decodes to its payload, followed by the
      packets of what comes after it. */
  lemma SplitOfFrame(p: Packet, rest: seq<byte>)
    ensures Split(Frame(p) + rest) == ([p] + Split(rest).0, Split(rest).1)
  {
    NextPacketOfFrame(p, rest);
    assert (Frame(p) + rest)[1 + |p|..] == rest;
  }

  /** Frames sent back to back decode to the packets sent, followed by the
      packets of whatever comes after them. */
  lemma {:induction false} FramesDecode(packets: seq<Packet>, more: seq<byte>)
    ensures Split(Frames(packets) + more) == (packets + Split(more).0, Split(more).1)
    decreases |packets|
  {
    if |packets| == 0 {
      assert Frames(packets) + more == more;
      assert packets + Split(more).0 == Split(more).0;
    } else {
      var p, tail := packets[0], packets[1..];
      FramesDecode(tail, more);
      FramesUnfold(packets, more);
      SplitOfFrame(p, Frames(tail) + more);
      ConsAppend(packets, Split(more).0);
    }
  }

  lemma FramesUnfold(packets: seq<Packet>, more: seq<byte>)
    requires |packets| > 0
    ensures Frames(packets) + more == Frame(packets[0]) + (Frames(packets[1..]) + more)
  {
  }

  /** Packets written back to back and delivered to an idle non-blocking
      reader in any chunks are read back in order with their boundaries. */
  lemma PacketsSurviveChunking(ps: State, packets: seq<Packet>, chunks: seq<seq<byte>>)
    requires Valid(ps) && !ps.blockRead && !ps.inner.readFault
    requires ps.totalRead == -1 && ps.inner.rx == []
    requires Concat(chunks) == Frames(packets)
    ensures Feed(ps, chunks).1 == packets
    ensures Pending(Feed(ps, chunks).0) == []
  {
    FeedSpec(ps, chunks);
    assert Unread(ps) + Concat(chunks) == Frames(packets) + [];
    FramesDecode(packets, []);
  }

  /** Round trip: what a successful `Write` appends to the wire, delivered to
      an idle reader in either mode, is read back as the same payload. */
  lemma WriteThenRead(w: State, payload: seq<byte>, r: State, more: seq<byte>)
    requires |payload| < 256
    requires Write(w, Some(payload), |payload|).ok
    requires Valid(r) && r.totalRead == -1 && !r.inner.readFault
    requires r.inner.rx == Write(w, Some(payload), |payload|).stream.inner.tx[|w.inner.tx|..] + more
    ensures Read(r).packet == Some(payload)
  {
    var sent := Write(w, Some(payload), |payload|);
    assert Payload(Some(payload), |payload|) == payload;
    assert sent.stream.inner.tx[|w.inner.tx|..] == Frame(payload);
    NextPacketOfFrame(payload, more);
    assert Unread(r) == r.inner.rx;
    if !r.blockRead {
      PumpSpec(r);
    }
  }
}
