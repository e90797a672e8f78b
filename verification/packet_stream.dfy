/**
 * Length-prefixed packet framing (src/comm/packet_stream.c).
 *
 * Wire format: one length byte `L`, then `L` payload bytes. The writer emits
 * that; the reader either takes a whole packet per call (blocking mode) or
 * runs a resumable state machine keyed on `totalRead` (non-blocking mode):
 * -1 awaits a header, 0..L counts the payload bytes received so far.
 *
 * The packet stream reaches its inner stream through a forwarding wrapper
 * (packet_stream.c:64); `Transport.WrappedPipeRead` and
 * `Transport.WrappedPipeWriteFlush` show that those calls are the pipe's own.
 */
module PacketStream {
  import opened Bytes
  import Transport

  /** Size of the internal buffer: one header byte and up to 255 payload bytes. */
  const BUFFER_SIZE: nat := 256

  /** A packet stream (packet_stream.c:32-40) around a pipe. */
  datatype State = State(inner: Transport.Pipe, blockRead: bool, totalRead: int, buffer: seq<byte>)

  /** The state between calls: awaiting a header, or part-way through a payload
      whose length sits in `buffer[0]`. A completed packet always resets to
      -1, so a partial payload is strictly shorter than its header says; and
      the blocking reader never leaves a partial packet behind. */
  predicate Valid(ps: State) {
    && |ps.buffer| == BUFFER_SIZE
    && (ps.totalRead == -1 || 0 <= ps.totalRead < ps.buffer[0] as int)
    && (ps.blockRead ==> ps.totalRead == -1)
  }

  /** The wire image of one packet. */
  function Frame(payload: seq<byte>): (r: seq<byte>)
    requires |payload| < 256
    ensures |r| == 1 + |payload| && r[0] as int == |payload| && r[1..] == payload
  {
    [|payload| as byte] + payload
  }

  /** The reference decoder: the first packet of a byte stream, if the stream
      holds a complete one. */
  function NextPacket(s: seq<byte>): (r: Option<seq<byte>>)
    ensures r.Some? ==> |r.value| < 256 && 1 + |r.value| <= |s| && Frame(r.value) == s[..1 + |r.value|]
  {
    if |s| > 0 && |s| > s[0] as int then
      var p := s[1..1 + s[0] as int];
      assert Frame(p) == s[..1 + |p|];
      Some(p)
    else None
  }

  /** A frame followed by anything decodes to its payload. */
  lemma NextPacketOfFrame(payload: seq<byte>, more: seq<byte>)
    requires |payload| < 256
    ensures NextPacket(Frame(payload) + more) == Some(payload)
  {
    assert (Frame(payload) + more)[1..1 + |payload|] == payload;
  }

  /** The bytes of the packet being assembled: the header and the payload
      bytes received, or nothing while awaiting a header. */
  function Pending(ps: State): (r: seq<byte>)
    requires |ps.buffer| == BUFFER_SIZE
    requires ps.totalRead == -1 || 0 <= ps.totalRead <= ps.buffer[0] as int
    ensures ps.totalRead == -1 <==> r == []
    ensures r != [] ==> r[0] == ps.buffer[0] && |r| == 1 + ps.totalRead
  {
    if ps.totalRead == -1 then [] else [ps.buffer[0]] + ps.buffer[1..1 + ps.totalRead]
  }

  /** Everything the reader has yet to turn into packets: the partial packet
      it holds followed by the unread input. */
  function Unread(ps: State): seq<byte>
    requires |ps.buffer| == BUFFER_SIZE
    requires ps.totalRead == -1 || 0 <= ps.totalRead <= ps.buffer[0] as int
  {
    Pending(ps) + ps.inner.rx
  }

  /** `comm_packet_stream_new` (packet_stream.c:49-68): refuses a null wrapped
      stream; otherwise starts awaiting a header. The buffer's initial content
      is unspecified (zeros here) and never observed. */
  function New(wrapped: Option<Transport.Pipe>, blockRead: bool): (r: Result<State>)
    ensures r.Err? <==> wrapped.None?
    ensures r.Err? ==> r.error == InvalidParameter
    ensures r.Ok? ==> Valid(r.value) && r.value.totalRead == -1 && Pending(r.value) == []
    ensures r.Ok? ==> r.value.inner == wrapped.value && r.value.blockRead == blockRead
  {
    if wrapped.None? then Err(InvalidParameter)
    else Ok(State(wrapped.value, blockRead, -1, seq(BUFFER_SIZE, _ => 0)))
  }

  /** The header loop of the writer (packet_stream.c:79-82): retries while the
      inner write accepts nothing; a failed write aborts. */
  function SendHeader(p: Transport.Pipe, h: byte): (r: (Transport.Pipe, bool))
    ensures r.1 ==> r.0.tx == p.tx + [h]
    ensures !r.1 ==> r.0.tx == p.tx
    ensures r.0.rx == p.rx && r.0.readFault == p.readFault && r.0.flushOk == p.flushOk
    decreases |p.grants|
  {
    var g := Transport.Write(p, [h]);
    if g.count < 0 then (g.pipe, false)
    else if g.count == 0 then SendHeader(g.pipe, h)
    else (g.pipe, true)
  }

  /** The payload loop of the writer (packet_stream.c:85-97): keeps writing the
      rest of the payload, advancing by whatever each inner write accepted, so
      the payload goes out whole and in order however it is split; a failed
      write aborts part-way. */
  function SendPayload(p: Transport.Pipe, data: seq<byte>): (r: (Transport.Pipe, bool))
    requires |data| > 0
    ensures r.1 ==> r.0.tx == p.tx + data
    ensures IsPrefix(p.tx, r.0.tx) && IsPrefix(r.0.tx, p.tx + data)
    ensures !r.1 ==> |r.0.tx| < |p.tx| + |data|
    ensures r.0.rx == p.rx && r.0.readFault == p.readFault && r.0.flushOk == p.flushOk
    decreases |p.grants|
  {
    var g := Transport.Write(p, data);
    if g.count < 0 then (g.pipe, false)
    else if g.count == |data| then (g.pipe, true)
    else
      var r := SendPayload(g.pipe, data[g.count..]);
      assert g.pipe.tx + data[g.count..] == p.tx + data;
      r
  }

  /** Outcome of a write: the stream afterwards, the boolean the call returns,
      and the error it records when it fails. */
  datatype Sent = Sent(stream: State, ok: bool, error: Option<Error>)

  /** The payload `in[0..len)`, empty for a null pointer with `len == 0`. */
  function Payload(data: Option<seq<byte>>, len: nat): (r: seq<byte>)
    requires data.Some? ==> len <= |data.value|
    requires data.None? ==> len == 0
    ensures |r| == len
  {
    if data.Some? then data.value[..len] else []
  }

  /** The header loop, then the payload loop unless the payload is empty:
      on success the wire holds the frame, otherwise a strict prefix of it. */
  function SendFrame(p: Transport.Pipe, payload: seq<byte>): (r: (Transport.Pipe, bool))
    requires |payload| < 256
    ensures r.1 ==> r.0.tx == p.tx + Frame(payload)
    ensures IsPrefix(p.tx, r.0.tx) && IsPrefix(r.0.tx, p.tx + Frame(payload))
    ensures !r.1 ==> |r.0.tx| < |p.tx| + |Frame(payload)|
    ensures r.0.rx == p.rx && r.0.readFault == p.readFault && r.0.flushOk == p.flushOk
  {
    var h := SendHeader(p, |payload| as byte);
    assert p.tx + [|payload| as byte] + payload == p.tx + Frame(payload);
    if !h.1 then (h.0, false)
    else if |payload| == 0 then (h.0, true)
    else SendPayload(h.0, payload)
  }

  /** `comm_packet_stream_write` (packet_stream.c:70-104). `data` is None for a
      null pointer. A null pointer with a nonzero length is refused. Otherwise
      the header and then the payload go to the inner stream, and the call
      returns what the final flush returns; a failing inner write aborts with
      false. */
  function Write(ps: State, data: Option<seq<byte>>, len: nat): (r: Sent)
    requires len < 256
    requires data.Some? ==> len <= |data.value|
    ensures data.None? && len > 0 ==> r == Sent(ps, false, Some(InvalidParameter))
    ensures r.ok <==> r.error.None?
    ensures data.Some? || len == 0 ==>
      var f := Frame(Payload(data, len));
      && IsPrefix(ps.inner.tx, r.stream.inner.tx)
      && IsPrefix(r.stream.inner.tx, ps.inner.tx + f)
      && (r.ok <==> r.stream.inner.tx == ps.inner.tx + f && ps.inner.flushOk)
      && (!r.ok ==> r.error == Some(IO))
    ensures r.stream.inner.rx == ps.inner.rx && r.stream.inner.readFault == ps.inner.readFault
    ensures r.stream == ps.(inner := r.stream.inner)
  {
    if data.None? && len > 0 then Sent(ps, false, Some(InvalidParameter))
    else
      var sent := SendFrame(ps.inner, Payload(data, len));
      if !sent.1 then Sent(ps.(inner := sent.0), false, Some(IO))
      else Flushed(ps.(inner := sent.0))
  }

  /** The closing flush of the writer: its result is the write's result. */
  function Flushed(ps: State): (r: Sent)
    ensures r.stream == ps
    ensures r.ok == ps.inner.flushOk
    ensures r.ok <==> r.error.None?
    ensures !r.ok ==> r.error == Some(IO)
  {
    if ps.inner.flushOk then Sent(ps, true, None) else Sent(ps, false, Some(IO))
  }

  /** Outcome of a read: the stream afterwards, the packet (None for the null
      result) and whether the null result is an I/O failure. */
  datatype Received = Received(stream: State, packet: Option<seq<byte>>, failed: bool)

  /** `buf` with `data` stored from offset `at` on. */
  function Store(buf: seq<byte>, at: nat, data: seq<byte>): (r: seq<byte>)
    requires at + |data| <= |buf|
    ensures |r| == |buf| && r[at..at + |data|] == data
    ensures r[..at] == buf[..at] && r[at + |data|..] == buf[at + |data|..]
  {
    buf[..at] + data + buf[at + |data|..]
  }

  /** Blocking mode (packet_stream.c:112-135, 176-186): one header byte, then
      exactly that many payload bytes. With this inner stream a read either
      delivers everything it asked for or fails, so each wait loop runs once. */
  function ReadBlocking(ps: State): (r: Received)
    requires Valid(ps) && ps.blockRead
    ensures Valid(r.stream) && r.stream.totalRead == -1
    ensures r.packet.Some? <==> !r.failed
    ensures !ps.inner.readFault && NextPacket(ps.inner.rx).Some? ==>
      && r.packet == NextPacket(ps.inner.rx)
      && r.stream.inner.rx == ps.inner.rx[1 + |r.packet.value|..]
    ensures ps.inner.readFault || NextPacket(ps.inner.rx).None? ==>
      && r.failed
      && r.stream.inner.rx == (if ps.inner.readFault || |ps.inner.rx| == 0 then ps.inner.rx else ps.inner.rx[1..])
    ensures r.stream.inner.tx == ps.inner.tx && r.stream.inner.grants == ps.inner.grants
    ensures r.stream.blockRead == ps.blockRead
  {
    var h := Transport.Read(ps.inner, 1);
    if h.count < 0 then Received(ps.(inner := h.pipe, totalRead := -1), None, true)
    else
      var len := h.data[0];
      var buf := ps.buffer[0 := len];
      var body := Transport.Read(h.pipe, len as nat);
      if body.count < 0 then Received(ps.(inner := body.pipe, totalRead := -1, buffer := buf), None, true)
      else
        assert body.data == ps.inner.rx[1..1 + len as int];
        assert body.pipe.rx == ps.inner.rx[1 + len as int..];
        Received(ps.(inner := body.pipe, totalRead := -1, buffer := Store(buf, 1, body.data)), Some(body.data), false)
  }

  /** The `packet_ready` exit (packet_stream.c:176-182): back to awaiting a
      header, handing out the payload whose length is the header byte. */
  function Ready(ps: State): (r: Received)
    requires |ps.buffer| == BUFFER_SIZE
    ensures r.packet == Some(ps.buffer[1..1 + ps.buffer[0] as int])
    ensures r.stream == ps.(totalRead := -1) && !r.failed
  {
    Received(ps.(totalRead := -1), Some(ps.buffer[1..1 + ps.buffer[0] as int]), false)
  }

  /** The loop of the non-blocking reader (packet_stream.c:138-173): while
      input is available, read a header if one is awaited, then the payload.
      What it hands out is stated by `PumpSpec`. */
  function Pump(ps: State): (r: Received)
    requires |ps.buffer| == BUFFER_SIZE
    requires ps.totalRead == -1 || 0 <= ps.totalRead < ps.buffer[0] as int
    ensures |r.stream.buffer| == BUFFER_SIZE
    ensures r.stream.totalRead == -1 || 0 <= r.stream.totalRead < r.stream.buffer[0] as int
    ensures r.stream.inner.tx == ps.inner.tx && r.stream.inner.grants == ps.inner.grants
    ensures r.stream.inner.flushOk == ps.inner.flushOk && r.stream.inner.readFault == ps.inner.readFault
    ensures r.stream.blockRead == ps.blockRead
    ensures r.failed ==> r.packet.None? && r.stream.totalRead == -1 && ps.inner.readFault
    ensures r.packet.Some? ==> r.stream.totalRead == -1 && |r.packet.value| < 256
    decreases |ps.inner.rx|, 1
  {
    if Transport.AvailableRead(ps.inner) == 0 then Received(ps, None, false)
    else if ps.totalRead == -1 then
      var h := Transport.Read(ps.inner, 1);
      if h.count == 0 then Received(ps.(inner := h.pipe), None, false)
      else if h.count < 0 then Received(ps.(inner := h.pipe, totalRead := -1), None, true)
      else PayloadStep(ps.(inner := h.pipe, totalRead := 0, buffer := ps.buffer[0 := h.data[0]]))
    else PayloadStep(ps)
  }

  /** The payload part of one loop turn (packet_stream.c:152-170): read as much
      of the remaining payload as is available; finish the packet when nothing
      remains. Here `totalRead` may equal the header (a zero-length packet
      right after its header). */
  function PayloadStep(ps: State): (r: Received)
    requires |ps.buffer| == BUFFER_SIZE
    requires 0 <= ps.totalRead <= ps.buffer[0] as int
    ensures |r.stream.buffer| == BUFFER_SIZE
    ensures r.stream.totalRead == -1 || 0 <= r.stream.totalRead < r.stream.buffer[0] as int
    ensures r.stream.inner.tx == ps.inner.tx && r.stream.inner.grants == ps.inner.grants
    ensures r.stream.inner.flushOk == ps.inner.flushOk && r.stream.inner.readFault == ps.inner.readFault
    ensures r.stream.blockRead == ps.blockRead
    ensures r.failed ==> r.packet.None? && r.stream.totalRead == -1 && ps.inner.readFault
    ensures r.packet.Some? ==> r.stream.totalRead == -1 && |r.packet.value| < 256
    decreases |ps.inner.rx|, 0
  {
    var len := ps.buffer[0] as int - ps.totalRead;
    var avail := Transport.AvailableRead(ps.inner);
    if len > 0 && avail > 0 then
      var g := Transport.Read(ps.inner, Min(len, avail));
      if g.count == 0 then Received(ps.(inner := g.pipe), None, false)
      else if g.count < 0 then Received(ps.(inner := g.pipe, totalRead := -1), None, true)
      else
        var ps2 := ps.(inner := g.pipe, totalRead := ps.totalRead + g.count,
                       buffer := Store(ps.buffer, 1 + ps.totalRead, g.data));
        if len - g.count == 0 then Ready(ps2)
        else Pump(ps2)
    else if len == 0 then Ready(ps)
    else Received(ps, None, false)
  }

  /** The non-blocking reader agrees with the reference decoder: on a working
      transport it never fails; it hands out the first complete packet of
      what is unread (pending bytes, then input) and leaves the input after
      it; without a complete packet it consumes all input into the pending
      packet. */
  lemma {:induction false} PumpSpec(ps: State)
    requires |ps.buffer| == BUFFER_SIZE
    requires ps.totalRead == -1 || 0 <= ps.totalRead < ps.buffer[0] as int
    ensures
      var r := Pump(ps);
      && (!ps.inner.readFault ==> !r.failed)
      && (!r.failed ==> r.packet == NextPacket(Unread(ps)))
      && (r.packet.Some? ==> r.stream.inner.rx == Unread(ps)[1 + |r.packet.value|..])
      && (r.packet.None? && !r.failed ==> r.stream.inner.rx == [] && Pending(r.stream) == Unread(ps))
    decreases |ps.inner.rx|, 2
  {
    if Transport.AvailableRead(ps.inner) == 0 {
      assert Unread(ps) == Pending(ps);
    } else if ps.totalRead == -1 {
      var h := Transport.Read(ps.inner, 1);
      if h.count > 0 {
        var ps1 := ps.(inner := h.pipe, totalRead := 0, buffer := ps.buffer[0 := h.data[0]]);
        assert Unread(ps1) == Unread(ps) by {
          assert Pending(ps1) == [h.data[0]];
          assert [ps.inner.rx[0]] + ps.inner.rx[1..] == ps.inner.rx;
        }
        assert Pump(ps) == PayloadStep(ps1);
        PayloadStepSpec(ps1);
      }
    } else {
      PayloadStepSpec(ps);
    }
  }

  /** `PumpSpec` from the payload part of a loop turn on. */
  lemma {:induction false} PayloadStepSpec(ps: State)
    requires |ps.buffer| == BUFFER_SIZE
    requires 0 <= ps.totalRead <= ps.buffer[0] as int
    ensures
      var r := PayloadStep(ps);
      && (!ps.inner.readFault ==> !r.failed)
      && (!r.failed ==> r.packet == NextPacket(Unread(ps)))
      && (r.packet.Some? ==> r.stream.inner.rx == Unread(ps)[1 + |r.packet.value|..])
      && (r.packet.None? && !r.failed ==> r.stream.inner.rx == [] && Pending(r.stream) == Unread(ps))
    decreases |ps.inner.rx|, 1
  {
    var len := ps.buffer[0] as int - ps.totalRead;
    if len > 0 && |ps.inner.rx| > 0 {
      if ps.inner.readFault {
        assert PayloadStep(ps).failed;
      } else if len <= |ps.inner.rx| {
        CompletesPayload(ps);
      } else {
        PartPayload(ps);
      }
    } else if len == 0 {
      assert PayloadStep(ps) == Ready(ps);
      ReadyIsNext(ps);
    } else {
      assert PayloadStep(ps) == Received(ps, None, false);
      assert Unread(ps) == Pending(ps);
      NotYet(ps);
    }
  }

  /** `PayloadStepSpec` when the input holds the rest of the payload. */
  lemma CompletesPayload(ps: State)
    requires |ps.buffer| == BUFFER_SIZE && !ps.inner.readFault
    requires 0 <= ps.totalRead < ps.buffer[0] as int <= ps.totalRead + |ps.inner.rx|
    ensures
      var r := PayloadStep(ps);
      && (!ps.inner.readFault ==> !r.failed)
      && (!r.failed ==> r.packet == NextPacket(Unread(ps)))
      && (r.packet.Some? ==> r.stream.inner.rx == Unread(ps)[1 + |r.packet.value|..])
      && (r.packet.None? && !r.failed ==> r.stream.inner.rx == [] && Pending(r.stream) == Unread(ps))
  {
    var len := ps.buffer[0] as int - ps.totalRead;
    var g := Transport.Read(ps.inner, len);
    var ps2 := ps.(inner := g.pipe, totalRead := ps.totalRead + g.count,
                   buffer := Store(ps.buffer, 1 + ps.totalRead, g.data));
    PendingGrows(ps, g.data, ps2);
    assert PayloadStep(ps) == Ready(ps2);
    ReadyIsNext(ps2);
  }

  /** `PayloadStepSpec` when the input ends inside the payload. */
  lemma {:induction false} PartPayload(ps: State)
    requires |ps.buffer| == BUFFER_SIZE && !ps.inner.readFault
    requires 0 <= ps.totalRead && 0 < |ps.inner.rx| < ps.buffer[0] as int - ps.totalRead
    ensures
      var r := PayloadStep(ps);
      && (!ps.inner.readFault ==> !r.failed)
      && (!r.failed ==> r.packet == NextPacket(Unread(ps)))
      && (r.packet.Some? ==> r.stream.inner.rx == Unread(ps)[1 + |r.packet.value|..])
      && (r.packet.None? && !r.failed ==> r.stream.inner.rx == [] && Pending(r.stream) == Unread(ps))
    decreases |ps.inner.rx|, 0
  {
    var g := Transport.Read(ps.inner, |ps.inner.rx|);
    var ps2 := ps.(inner := g.pipe, totalRead := ps.totalRead + g.count,
                   buffer := Store(ps.buffer, 1 + ps.totalRead, g.data));
    PendingGrows(ps, g.data, ps2);
    assert PayloadStep(ps) == Pump(ps2);
    PumpSpec(ps2);
  }

  /** Storing freshly read payload bytes moves them from the input to the
      pending packet. */
  lemma PendingGrows(ps: State, data: seq<byte>, ps2: State)
    requires |ps.buffer| == BUFFER_SIZE
    requires 0 <= ps.totalRead && ps.totalRead + |data| <= ps.buffer[0] as int
    requires IsPrefix(data, ps.inner.rx)
    requires ps2 == ps.(inner := ps.inner.(rx := ps.inner.rx[|data|..]),
                        totalRead := ps.totalRead + |data|,
                        buffer := Store(ps.buffer, 1 + ps.totalRead, data))
    ensures ps2.buffer[0] == ps.buffer[0]
    ensures Pending(ps2) == Pending(ps) + data
    ensures Unread(ps2) == Unread(ps)
  {
    var t := ps.totalRead;
    assert ps2.buffer[1..1 + t] == ps.buffer[1..1 + t];
    assert ps2.buffer[1..1 + t + |data|] == ps.buffer[1..1 + t] + data;
    assert data + ps.inner.rx[|data|..] == ps.inner.rx;
  }

  /** A complete pending packet is what the reference decoder reads first. */
  lemma ReadyIsNext(ps: State)
    requires |ps.buffer| == BUFFER_SIZE
    requires ps.totalRead == ps.buffer[0] as int
    ensures NextPacket(Unread(ps)) == Some(ps.buffer[1..1 + ps.buffer[0] as int])
    ensures Unread(ps)[1 + ps.buffer[0] as int..] == ps.inner.rx
  {
    var s := Unread(ps);
    assert s[1..1 + ps.buffer[0] as int] == ps.buffer[1..1 + ps.buffer[0] as int];
  }

  /** A pending packet still short of its header's length is not complete. */
  lemma NotYet(ps: State)
    requires |ps.buffer| == BUFFER_SIZE
    requires 0 <= ps.totalRead < ps.buffer[0] as int
    ensures NextPacket(Pending(ps)) == None
  {
  }

  /** `comm_packet_stream_read` (packet_stream.c:106-187); what it hands out
      is stated by `ReadSpec`. */
  function Read(ps: State): (r: Received)
    requires Valid(ps)
    ensures Valid(r.stream)
    ensures r.packet.Some? ==> r.stream.totalRead == -1 && |r.packet.value| < 256
    ensures r.failed ==> r.packet.None? && r.stream.totalRead == -1
    ensures r.stream.inner.tx == ps.inner.tx && r.stream.inner.grants == ps.inner.grants
    ensures r.stream.inner.flushOk == ps.inner.flushOk && r.stream.inner.readFault == ps.inner.readFault
    ensures r.stream.blockRead == ps.blockRead
  {
    if ps.blockRead then ReadBlocking(ps) else Pump(ps)
  }

  /** In either mode, on a working transport the packet handed out is the
      reference decoder's first packet of what is unread, and the input after
      it stays unread; a failed read hands out nothing. */
  lemma ReadSpec(ps: State)
    requires Valid(ps)
    ensures !ps.inner.readFault ==> Read(ps).packet == NextPacket(Unread(ps))
    ensures !ps.inner.readFault && NextPacket(Unread(ps)).Some? ==>
      Read(ps).stream.inner.rx == Unread(ps)[1 + |NextPacket(Unread(ps)).value|..]
  {
    if ps.blockRead {
      assert Unread(ps) == ps.inner.rx;
      assert Read(ps) == ReadBlocking(ps);
    } else {
      PumpSpec(ps);
      assert Read(ps) == Pump(ps);
    }
  }
}
