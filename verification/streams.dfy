/**
 * The stream contract (src/comm/stream.c) and the forwarding wrapper that the
 * framing layers are built on (src/comm/stream.c:32-60 and
 * src/comm/_stream_wrapper.c).
 *
 * A stream is a state plus an optional controller holding optional callbacks.
 * The dispatch functions say what the public `comm_stream_*` entry points do
 * when a callback is missing, and which results record an I/O error.
 */
module Streams {
  import opened Bytes

  /** What a read or write callback reports: the stream's next state, the
      count it returns (negative means an I/O failure) and the bytes read. */
  datatype Moved<S> = Moved(state: S, count: int, data: seq<byte>)

  /** A controller (include/comm/stream.h:28-37): each callback may be absent. */
  datatype Controller<!S> = Controller(
    availableRead: Option<S -> nat>,
    read: Option<(S, nat) -> Moved<S>>,
    availableWrite: Option<S -> nat>,
    write: Option<(S, seq<byte>) -> Moved<S>>,
    flush: Option<S -> (S, bool)>,
    close: Option<S -> (S, bool)>)

  /** A stream object: its controller (None for a null controller) and state. */
  datatype Stream<!S> = Stream(controller: Option<Controller<S>>, state: S)

  /** Outcome of a dispatched read or write: the stream afterwards, the count
      handed back to the caller, the bytes read, and whether the I/O error was
      recorded in the last-error slot. */
  datatype Io<!S> = Io(stream: Stream<S>, count: int, data: seq<byte>, ioError: bool)

  /** Outcome of a dispatched flush or close. */
  datatype Status<!S> = Status(stream: Stream<S>, ok: bool, ioError: bool)

  predicate HasAvailableRead<S>(s: Stream<S>) {
    s.controller.Some? && s.controller.value.availableRead.Some?
  }

  predicate HasRead<S>(s: Stream<S>) {
    s.controller.Some? && s.controller.value.read.Some?
  }

  predicate HasAvailableWrite<S>(s: Stream<S>) {
    s.controller.Some? && s.controller.value.availableWrite.Some?
  }

  predicate HasWrite<S>(s: Stream<S>) {
    s.controller.Some? && s.controller.value.write.Some?
  }

  predicate HasFlush<S>(s: Stream<S>) {
    s.controller.Some? && s.controller.value.flush.Some?
  }

  predicate HasClose<S>(s: Stream<S>) {
    s.controller.Some? && s.controller.value.close.Some?
  }

  /** `comm_stream_available_read` (stream.c:110-117). */
  function AvailableRead<S>(s: Stream<S>): (r: nat)
    ensures !HasAvailableRead(s) ==> r == 0
    ensures HasAvailableRead(s) ==> r == s.controller.value.availableRead.value(s.state)
  {
    if HasAvailableRead(s) then s.controller.value.availableRead.value(s.state) else 0
  }

  /** `comm_stream_read` (stream.c:119-131): a missing callback moves nothing
      and returns 0; otherwise the callback's count is returned unchanged and
      a negative one records the I/O error. */
  function Read<S>(s: Stream<S>, len: nat): (r: Io<S>)
    ensures r.ioError <==> r.count < 0
    ensures !HasRead(s) ==> r == Io(s, 0, [], false)
    ensures HasRead(s) ==>
      var m := s.controller.value.read.value(s.state, len);
      r.count == m.count && r.data == m.data && r.stream == s.(state := m.state)
  {
    if HasRead(s) then
      var m := s.controller.value.read.value(s.state, len);
      Io(s.(state := m.state), m.count, m.data, m.count < 0)
    else Io(s, 0, [], false)
  }

  /** `comm_stream_available_write` (stream.c:133-141). */
  function AvailableWrite<S>(s: Stream<S>): (r: nat)
    ensures !HasAvailableWrite(s) ==> r == 0
    ensures HasAvailableWrite(s) ==> r == s.controller.value.availableWrite.value(s.state)
  {
    if HasAvailableWrite(s) then s.controller.value.availableWrite.value(s.state) else 0
  }

  /** `comm_stream_write` (stream.c:143-155), the mirror image of `Read`. */
  function Write<S>(s: Stream<S>, data: seq<byte>): (r: Io<S>)
    ensures r.ioError <==> r.count < 0
    ensures r.data == []
    ensures !HasWrite(s) ==> r == Io(s, 0, [], false)
    ensures HasWrite(s) ==>
      var m := s.controller.value.write.value(s.state, data);
      r.count == m.count && r.stream == s.(state := m.state)
  {
    if HasWrite(s) then
      var m := s.controller.value.write.value(s.state, data);
      Io(s.(state := m.state), m.count, [], m.count < 0)
    else Io(s, 0, [], false)
  }

  /** `comm_stream_flush` (stream.c:157-168): succeeds when there is nothing to
      call; otherwise fails, recording the I/O error, exactly when the callback
      fails. */
  function Flush<S>(s: Stream<S>): (r: Status<S>)
    ensures r.ok <==> !r.ioError
    ensures !HasFlush(s) ==> r == Status(s, true, false)
    ensures HasFlush(s) ==>
      var f := s.controller.value.flush.value(s.state);
      r.ok == f.1 && r.stream == s.(state := f.0)
  {
    if HasFlush(s) then
      var f := s.controller.value.flush.value(s.state);
      Status(s.(state := f.0), f.1, !f.1)
    else Status(s, true, false)
  }

  /** `comm_stream_close` (stream.c:170-180): always reports success; a failing
      callback only records the I/O error. */
  function Close<S>(s: Stream<S>): (r: Status<S>)
    ensures r.ok
    ensures r.ioError <==> HasClose(s) && !s.controller.value.close.value(s.state).1
    ensures !HasClose(s) ==> r.stream == s
    ensures HasClose(s) ==> r.stream == s.(state := s.controller.value.close.value(s.state).0)
  {
    if HasClose(s) then
      var c := s.controller.value.close.value(s.state);
      Status(s.(state := c.0), true, !c.1)
    else Status(s, true, false)
  }

  /** The forwarding controller of a wrapper, whose state is the wrapped stream
      (stream.c:32-54, and identically _stream_wrapper.c:34-56). Every call is
      passed to the wrapped stream through the public entry points; `close`
      goes to the wrapped stream's `flush`. */
  function Forwarding<S>(): Controller<Stream<S>> {
    Controller(
      Some(inner => AvailableRead(inner)),
      Some((inner: Stream<S>, len: nat) => var o := Read(inner, len); Moved(o.stream, o.count, o.data)),
      Some(inner => AvailableWrite(inner)),
      Some((inner, data) => var o := Write(inner, data); Moved(o.stream, o.count, o.data)),
      Some(inner => var f := Flush(inner); (f.stream, f.ok)),
      Some(inner => var f := Flush(inner); (f.stream, f.ok)))
  }

  /** A wrapper around `inner`, as both wrapper constructors build it. */
  function Wrapper<S>(inner: Stream<S>): Stream<Stream<S>> {
    Stream(Some(Forwarding()), inner)
  }

  /** `_comm_stream_wrap` (stream.c:56-104). `wrapped` is None for a null
      pointer, `size` is the requested object size (0 for the default) and
      `structSize` is `sizeof(_comm_stream_wrapper_t)`; `onInit` is the outcome
      of the wrapper controller's `on_init` callback, None when it has none. */
  function Wrap<S>(wrapped: Option<Stream<S>>, size: nat, structSize: nat, onInit: Option<bool>)
    : (r: Result<Stream<Stream<S>>>)
    ensures r.Ok? <==> wrapped.Some? && !(0 < size < structSize) && onInit != Some(false)
    ensures (wrapped.None? || 0 < size < structSize) ==> r == Err(InvalidParameter)
    ensures wrapped.Some? && !(0 < size < structSize) && onInit == Some(false) ==> r == Err(Unknown)
    ensures r.Ok? ==> r.value == Wrapper(wrapped.value)
  {
    if (0 < size < structSize) || wrapped.None? then Err(InvalidParameter)
    else if onInit == Some(false) then Err(Unknown)
    else Ok(Wrapper(wrapped.value))
  }

  /** `_comm_stream_wrapper_new` (_stream_wrapper.c:76-96): refuses a null
      wrapped stream; otherwise a forwarding wrapper around it. */
  function WrapperNew<S>(wrapped: Option<Stream<S>>): (r: Result<Stream<Stream<S>>>)
    ensures r.Err? <==> wrapped.None?
    ensures r.Err? ==> r.error == InvalidParameter
    ensures r.Ok? ==> r.value == Wrapper(wrapped.value)
  {
    if wrapped.None? then Err(InvalidParameter) else Ok(Wrapper(wrapped.value))
  }

  /** The wrapper reports the wrapped stream's available counts. */
  lemma ForwardsAvailable<S>(inner: Stream<S>)
    ensures AvailableRead(Wrapper(inner)) == AvailableRead(inner)
    ensures AvailableWrite(Wrapper(inner)) == AvailableWrite(inner)
  {
  }

  /** A read through the wrapper is the wrapped stream's read: same count, same
      bytes, same failure, and the wrapper now wraps the stream that read left. */
  lemma ForwardsRead<S>(inner: Stream<S>, len: nat)
    ensures Read(Wrapper(inner), len).count == Read(inner, len).count
    ensures Read(Wrapper(inner), len).data == Read(inner, len).data
    ensures Read(Wrapper(inner), len).ioError == Read(inner, len).ioError
    ensures Read(Wrapper(inner), len).stream == Wrapper(Read(inner, len).stream)
  {
  }

  /** A write through the wrapper is the wrapped stream's write. */
  lemma ForwardsWrite<S>(inner: Stream<S>, data: seq<byte>)
    ensures Write(Wrapper(inner), data).count == Write(inner, data).count
    ensures Write(Wrapper(inner), data).ioError == Write(inner, data).ioError
    ensures Write(Wrapper(inner), data).stream == Wrapper(Write(inner, data).stream)
  {
  }

  /** Flushing the wrapper flushes the wrapped stream and reports its result. */
  lemma ForwardsFlush<S>(inner: Stream<S>)
    ensures Flush(Wrapper(inner)).ok == Flush(inner).ok
    ensures Flush(Wrapper(inner)).stream == Wrapper(Flush(inner).stream)
  {
  }

  /** Closing the wrapper flushes (does not close) the wrapped stream, always
      reports success, and records the I/O error when that flush fails. */
  lemma CloseFlushesWrapped<S>(inner: Stream<S>)
    ensures Close(Wrapper(inner)).ok
    ensures Close(Wrapper(inner)).ioError == !Flush(inner).ok
    ensures Close(Wrapper(inner)).stream == Wrapper(Flush(inner).stream)
  {
  }

  /** A stream created with a null controller (test/tests/stream.c:42-55):
      nothing available, reads and writes move 0 bytes, flush and close
      succeed, and no error is recorded. */
  lemma VoidStream<S>(state: S, len: nat, data: seq<byte>)
    ensures AvailableRead(Stream(None, state)) == 0 && AvailableWrite(Stream(None, state)) == 0
    ensures Read(Stream(None, state), len) == Io(Stream(None, state), 0, [], false)
    ensures Write(Stream(None, state), data) == Io(Stream(None, state), 0, [], false)
    ensures Flush(Stream(None, state)) == Status(Stream(None, state), true, false)
    ensures Close(Stream(None, state)) == Status(Stream(None, state), true, false)
  {
  }
}
