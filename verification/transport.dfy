/**
 * Concrete inner streams.
 *
 * `Pipe` is the byte stream the framing layers are run against. Its read side
 * is a queue of incoming bytes read with the blocking policy of the test
 * harness (test/src/test/buffer.c:34-41): a read that asks for more than is
 * queued fails instead of returning a short count; `readFault` models a
 * transport whose reads fail outright, so a fault strikes the first read of
 * a call and never a later one after some bytes got through. Its write side collects the bytes
 * accepted so far in `tx`; how many bytes each write call accepts is given by
 * `grants`, one entry per call (a negative entry is a failed call), and a
 * write once the grants run out fails, so retry loops always end. `flushOk` is
 * what the transport's flush reports.
 *
 * This module also puts the circular buffer behind the stream contract and
 * shows that the blocking-read buffer of the test harness, seen through a
 * wrapper, reads exactly like a `Pipe` whose queue is the buffer's contents.
 */
module Transport {
  import opened Bytes
  import Streams
  import RingBuffer

  datatype Pipe = Pipe(rx: seq<byte>, readFault: bool, tx: seq<byte>, grants: seq<int>, flushOk: bool)

  /** Outcome of one call on the pipe: new state, returned count, bytes read. */
  datatype Got = Got(pipe: Pipe, count: int, data: seq<byte>)

  function AvailableRead(p: Pipe): nat {
    |p.rx|
  }

  /** A read of `len` bytes: all of them, or a failure that consumes nothing. */
  function Read(p: Pipe, len: nat): (r: Got)
    ensures r.count < 0 <==> p.readFault || len > |p.rx|
    ensures r.count >= 0 ==> r.count == len && r.data == p.rx[..len] && r.pipe == p.(rx := p.rx[len..])
    ensures r.count < 0 ==> r.pipe == p && r.data == []
  {
    if p.readFault || len > |p.rx| then Got(p, -1, [])
    else Got(p.(rx := p.rx[len..]), len, p.rx[..len])
  }

  /** A write of `data`: the next grant decides how many leading bytes are
      accepted, or that the call fails. */
  function Write(p: Pipe, data: seq<byte>): (r: Got)
    ensures |p.grants| > 0 ==> r.pipe.grants == p.grants[1..]
    ensures |p.grants| == 0 ==> r.count < 0 && r.pipe == p
    ensures r.count >= 0 ==> r.count <= |data| && r.pipe.tx == p.tx + data[..r.count]
    ensures r.count < 0 ==> r.pipe.tx == p.tx
    ensures r.pipe.rx == p.rx && r.pipe.readFault == p.readFault && r.pipe.flushOk == p.flushOk
    ensures r.data == []
  {
    if |p.grants| == 0 then Got(p, -1, [])
    else if p.grants[0] < 0 then Got(p.(grants := p.grants[1..]), -1, [])
    else
      var n := Min(p.grants[0], |data|);
      Got(p.(tx := p.tx + data[..n], grants := p.grants[1..]), n, [])
  }

  function AvailableWrite(p: Pipe): nat {
    if |p.grants| > 0 && p.grants[0] > 0 then p.grants[0] else 0
  }

  /** The pipe behind the stream contract; it has no close callback. */
  function PipeController(): Streams.Controller<Pipe> {
    Streams.Controller(
      Some(AvailableRead),
      Some((p: Pipe, len: nat) => var g := Read(p, len); Streams.Moved(g.pipe, g.count, g.data)),
      Some(AvailableWrite),
      Some((p: Pipe, data: seq<byte>) => var g := Write(p, data); Streams.Moved(g.pipe, g.count, g.data)),
      Some((p: Pipe) => (p, p.flushOk)),
      None)
  }

  /** A framing layer's inner calls go through its forwarding wrapper to the
      pipe: reading that way is reading the pipe directly. */
  lemma WrappedPipeRead(p: Pipe, len: nat)
    ensures var io := Streams.Read(Streams.Wrapper(Streams.Stream(Some(PipeController()), p)), len);
      && io.count == Read(p, len).count
      && io.data == Read(p, len).data
      && io.stream == Streams.Wrapper(Streams.Stream(Some(PipeController()), Read(p, len).pipe))
  {
    Streams.ForwardsRead(Streams.Stream(Some(PipeController()), p), len);
  }

  /** Likewise for writes and flushes through the wrapper. */
  lemma WrappedPipeWriteFlush(p: Pipe, data: seq<byte>)
    ensures var io := Streams.Write(Streams.Wrapper(Streams.Stream(Some(PipeController()), p)), data);
      && io.count == Write(p, data).count
      && io.stream == Streams.Wrapper(Streams.Stream(Some(PipeController()), Write(p, data).pipe))
    ensures Streams.Flush(Streams.Wrapper(Streams.Stream(Some(PipeController()), p))).ok == p.flushOk
  {
    Streams.ForwardsWrite(Streams.Stream(Some(PipeController()), p), data);
    Streams.ForwardsFlush(Streams.Stream(Some(PipeController()), p));
  }

  /** Buffers that satisfy the ring invariant. */
  type Ring = b: RingBuffer.Buffer | RingBuffer.Valid(b) witness RingBuffer.New(0)

  function RingRead(b: Ring, len: nat): Streams.Moved<Ring> {
    var t := RingBuffer.Read(b, len, true);
    Streams.Moved(t.buffer, t.count, t.data)
  }

  function RingWrite(b: Ring, data: seq<byte>): Streams.Moved<Ring> {
    var t := RingBuffer.Write(b, data);
    Streams.Moved(t.buffer, t.count, [])
  }

  /** The controller `comm_buffer_new` installs (buffer.c:115-122): four
      callbacks, no flush and no close. */
  function RingController(): Streams.Controller<Ring> {
    Streams.Controller(
      Some((b: Ring) => RingBuffer.AvailableRead(b)),
      Some(RingRead),
      Some((b: Ring) => RingBuffer.AvailableWrite(b)),
      Some(RingWrite),
      None,
      None)
  }

  /** The test harness's blocking read (test/src/test/buffer.c:34-41): asking
      for more than is available fails; otherwise it is the buffer's read. */
  function BlockingRead(b: Ring, len: nat): Streams.Moved<Ring> {
    if RingBuffer.AvailableRead(b) < len then Streams.Moved(b, -1, [])
    else RingRead(b, len)
  }

  /** The buffer's controller with its read replaced by `BlockingRead`
      (test/src/test/buffer.c:184-202). */
  function BlockingRingController(): Streams.Controller<Ring> {
    RingController().(read := Some(BlockingRead))
  }

  /** A buffer has nothing to flush or close: both succeed and change nothing. */
  lemma RingFlushCloseAreNoOps(b: Ring)
    ensures Streams.Flush(Streams.Stream(Some(RingController()), b))
         == Streams.Status(Streams.Stream(Some(RingController()), b), true, false)
    ensures Streams.Close(Streams.Stream(Some(RingController()), b))
         == Streams.Status(Streams.Stream(Some(RingController()), b), true, false)
  {
  }

  /** Reads through the public entry point move exactly `min(len, available)`
      bytes off the front of the buffer's FIFO and never fail. */
  lemma RingStreamRead(b: Ring, len: nat)
    ensures var io := Streams.Read(Streams.Stream(Some(RingController()), b), len);
      && io.count == Min(len, RingBuffer.AvailableRead(b))
      && !io.ioError
      && io.data == RingBuffer.Contents(b)[..io.count]
      && RingBuffer.Contents(io.stream.state) == RingBuffer.Contents(b)[io.count..]
  {
  }

  /** The framing layers' inner stream model is faithful to the harness: a
      read through a wrapper around the blocking buffer returns what `Read` on
      a pipe holding the buffer's contents returns, and leaves the buffer
      holding what the pipe would still hold. */
  lemma BlockingRingIsPipe(b: Ring, len: nat, tx: seq<byte>, grants: seq<int>, flushOk: bool)
    ensures
      var inner := Streams.Stream(Some(BlockingRingController()), b);
      var io := Streams.Read(Streams.Wrapper(inner), len);
      var g := Read(Pipe(RingBuffer.Contents(b), false, tx, grants, flushOk), len);
      && io.count == g.count
      && io.data == g.data
      && RingBuffer.Contents(io.stream.state.state) == g.pipe.rx
  {
    var inner := Streams.Stream(Some(BlockingRingController()), b);
    Streams.ForwardsRead(inner, len);
  }
}
