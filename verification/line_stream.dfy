/**
 * Line framing over a byte stream (src/comm/line_stream.c).
 *
 * A line on the wire is its bytes followed by '\n'. The writer sends a
 * NUL-terminated message one byte at a time and adds the delimiter unless the
 * message already ends with one. The reader collects bytes up to the next
 * delimiter into a buffer of `lineMaxLen + 1` bytes; bytes beyond `lineMaxLen`
 * keep overwriting the last slot, so an overlong line comes back cut to its
 * first `lineMaxLen` bytes. A non-blocking reader keeps the partial line
 * between calls.
 */
module LineStream {
  import opened Bytes
  import Transport

  /** The largest accepted `lineMaxLen` (line_stream.c:28), one below the
      largest value of the 16-bit `totalRead` counter. */
  const LINE_LIMIT: nat := 0xFFFE

  /** `inner` is the wrapped stream, `totalRead` the 16-bit count of bytes of
      the current line kept in `buffer`. */
  datatype State = State(inner: Transport.Pipe, blockRead: bool, lineMaxLen: nat, totalRead: nat, buffer: seq<byte>)

  /** The part of the current line received so far. */
  function Stored(ls: State): seq<byte>
    requires ls.totalRead <= |ls.buffer|
  {
    ls.buffer[..ls.totalRead]
  }

  /** The invariant every operation keeps. */
  predicate Valid(ls: State) {
    && 0 < ls.lineMaxLen <= LINE_LIMIT
    && |ls.buffer| == ls.lineMaxLen + 1
    && ls.totalRead <= ls.lineMaxLen
    && NEWLINE !in Stored(ls)
  }

  /** `uint16_t` increment: wraps to 0 past 65535. */
  function Inc16(x: nat): (r: nat)
    requires x < 0x1_0000
    ensures r < 0x1_0000
    ensures r == x + 1 || (x == 0xFFFF && r == 0)
  {
    (x + 1) % 0x1_0000
  }

  /** `comm_line_stream_new` (line_stream.c:43-72): refuses a maximum line
      length of 0 or above `LINE_LIMIT`, then a null wrapped stream; otherwise
      starts with an empty line. The buffer's initial content is unspecified
      (zeros here) and never observed. */
  function New(wrapped: Option<Transport.Pipe>, lineMaxLen: nat, blockRead: bool): (r: Result<State>)
    ensures r.Err? <==> lineMaxLen == 0 || lineMaxLen > LINE_LIMIT || wrapped.None?
    ensures r.Err? ==> r.error == InvalidParameter
    ensures r.Ok? ==> Valid(r.value) && Stored(r.value) == []
    ensures r.Ok? ==> r.value.inner == wrapped.value && r.value.blockRead == blockRead
                      && r.value.lineMaxLen == lineMaxLen
  {
    if lineMaxLen > LINE_LIMIT || lineMaxLen == 0 then Err(InvalidParameter)
    else if wrapped.None? then Err(InvalidParameter)
    else Ok(State(wrapped.value, blockRead, lineMaxLen, 0, seq(lineMaxLen + 1, _ => 0)))
  }

  /** The text a null-or-C-string argument stands for: "" for null, else the
      bytes before the first NUL. */
  function Message(msg: Option<seq<byte>>): (r: seq<byte>)
    ensures NUL !in r
    ensures msg.Some? ==> IsPrefix(r, msg.value)
  {
    if msg.None? then [] else CString(msg.value)
  }

  predicate EndsWithNewline(m: seq<byte>) {
    |m| > 0 && m[|m| - 1] == NEWLINE
  }

  /** The wire image of a message: the delimiter is added unless present. */
  function LineFrame(m: seq<byte>): (r: seq<byte>)
    ensures EndsWithNewline(r)
    ensures IsPrefix(m, r) && |r| <= |m| + 1
    ensures EndsWithNewline(m) <==> r == m
  {
    if EndsWithNewline(m) then m else m + [NEWLINE]
  }

  /** The byte loop of the writer (line_stream.c:81-89, and the delimiter loop
      of lines 91-97 on a one-byte message): one byte per inner write, retried
      while nothing is accepted; a failed write aborts. */
  function SendBytes(p: Transport.Pipe, m: seq<byte>): (r: (Transport.Pipe, bool))
    ensures r.1 ==> r.0.tx == p.tx + m
    ensures IsPrefix(p.tx, r.0.tx) && IsPrefix(r.0.tx, p.tx + m)
    ensures !r.1 ==> |r.0.tx| < |p.tx| + |m|
    ensures r.0.rx == p.rx && r.0.readFault == p.readFault && r.0.flushOk == p.flushOk
    decreases |p.grants|
  {
    if |m| == 0 then
      assert p.tx + m == p.tx;
      (p, true)
    else
      var g := Transport.Write(p, m[..1]);
      if g.count < 0 then (g.pipe, false)
      else if g.count == 0 then SendBytes(g.pipe, m)
      else
        assert g.pipe.tx + m[1..] == p.tx + m;
        SendBytes(g.pipe, m[1..])
  }

  /** Outcome of a write: the stream afterwards and the boolean returned. */
  datatype Sent = Sent(stream: State, ok: bool)

  /** `comm_line_stream_write` (line_stream.c:74-103): the message, then the
      delimiter when it does not already end with one, then a flush whose
      result is returned. The wire receives exactly `LineFrame` of the message
      on success, and a prefix of it otherwise. */
  function Write(ls: State, msg: Option<seq<byte>>): (r: Sent)
    ensures var f := LineFrame(Message(msg));
      && IsPrefix(ls.inner.tx, r.stream.inner.tx)
      && IsPrefix(r.stream.inner.tx, ls.inner.tx + f)
      && (r.ok <==> r.stream.inner.tx == ls.inner.tx + f && ls.inner.flushOk)
    ensures r.stream.inner.rx == ls.inner.rx && r.stream.inner.readFault == ls.inner.readFault
    ensures r.stream == ls.(inner := r.stream.inner)
  {
    var m := Message(msg);
    var body := SendBytes(ls.inner, m);
    if !body.1 then Sent(ls.(inner := body.0), false)
    else if EndsWithNewline(m) then Sent(ls.(inner := body.0), body.0.flushOk)
    else
      var nl := SendBytes(body.0, [NEWLINE]);
      assert ls.inner.tx + m + [NEWLINE] == ls.inner.tx + LineFrame(m);
      if !nl.1 then Sent(ls.(inner := nl.0), false)
      else Sent(ls.(inner := nl.0), nl.0.flushOk)
  }

  /** Keeping one non-delimiter byte (line_stream.c:125-130 and 147-151): it
      goes where `totalRead` points and the count advances, but never past
      `lineMaxLen`, so later bytes overwrite the last slot. The count cannot
      wrap because `lineMaxLen` is at most `LINE_LIMIT`. */
  function Accept(ls: State, c: byte): (r: State)
    requires Valid(ls) && c != NEWLINE
    ensures Valid(r)
    ensures Stored(r) == Clamp(Stored(ls) + [c], ls.lineMaxLen)
    ensures r.inner == ls.inner && r.blockRead == ls.blockRead && r.lineMaxLen == ls.lineMaxLen
  {
    var t := Inc16(ls.totalRead);
    var r := ls.(buffer := ls.buffer[ls.totalRead := c],
                 totalRead := if t > ls.lineMaxLen then ls.lineMaxLen else t);
    assert t == ls.totalRead + 1;
    assert Stored(r) == Clamp(Stored(ls) + [c], ls.lineMaxLen) by {
      if ls.totalRead < ls.lineMaxLen {
        assert Stored(r) == Stored(ls) + [c];
      } else {
        assert Stored(r) == Stored(ls);
      }
    }
    r
  }

  /** The delimiter's slot is overwritten with NUL. */
  function Terminate(ls: State): (r: State)
    requires Valid(ls)
    ensures Valid(r) && Stored(r) == Stored(ls)
    ensures r == ls.(buffer := r.buffer)
    ensures r.buffer[ls.totalRead] == NUL
  {
    var r := ls.(buffer := ls.buffer[ls.totalRead := NUL]);
    assert Stored(r) == Stored(ls);
    r
  }

  /** Outcome of a read: the stream afterwards, the line handed out (None for
      the null result) and whether the null result is an I/O failure. */
  datatype Received = Received(stream: State, line: Option<seq<byte>>, failed: bool)

  /** The loop of the non-blocking reader (line_stream.c:134-154): one byte at
      a time while input is available; at a delimiter the stored line is
      handed out and the count restarts at 0. Without a delimiter every
      available byte is consumed into the partial line (`ScanFound`,
      `ScanMissing`). A fault of the inner stream strikes the first read
      here, so a failing call leaves the state as it was. */
  function Scan(ls: State): (r: Received)
    requires Valid(ls)
    ensures Valid(r.stream)
    ensures r.stream.inner.tx == ls.inner.tx && r.stream.inner.grants == ls.inner.grants
    ensures r.stream.inner.flushOk == ls.inner.flushOk && r.stream.inner.readFault == ls.inner.readFault
    ensures r.stream.blockRead == ls.blockRead && r.stream.lineMaxLen == ls.lineMaxLen
    ensures r.failed <==> ls.inner.readFault && |ls.inner.rx| > 0
    ensures r.failed ==> r.stream == ls && r.line.None?
    ensures ls.inner.readFault ==> r.line.None?
    ensures r.line.Some? ==> r.stream.totalRead == 0 && |r.stream.inner.rx| < |ls.inner.rx|
    ensures r.line.Some? ==> CString(r.stream.buffer) == CString(r.line.value)
    decreases |ls.inner.rx|
  {
    if Transport.AvailableRead(ls.inner) == 0 then Received(ls, None, false)
    else
      var g := Transport.Read(ls.inner, 1);
      if g.count < 0 then Received(ls.(inner := g.pipe), None, true)
      else if g.data[0] == NEWLINE then
        var done := Terminate(ls.(inner := g.pipe));
        TerminatedString(ls.buffer, ls.totalRead);
        Received(done.(totalRead := 0), Some(Stored(ls)), false)
      else
        Scan(Accept(ls.(inner := g.pipe), g.data[0]))
  }

  /** With a delimiter in the input, the non-blocking read hands out the
      stored line extended by the input before the first delimiter, cut to
      `lineMaxLen`, and leaves the input after that delimiter unread. */
  lemma {:induction false} ScanFound(ls: State, k: nat)
    requires Valid(ls) && !ls.inner.readFault
    requires IndexOf(ls.inner.rx, NEWLINE).Some? && IndexOf(ls.inner.rx, NEWLINE).value == k
    ensures
      var r := Scan(ls);
      && r.line == Some(Clamp(Stored(ls) + ls.inner.rx[..k], ls.lineMaxLen))
      && r.stream.inner.rx == ls.inner.rx[k + 1..]
    decreases |ls.inner.rx|
  {
    var rx := ls.inner.rx;
    ScanUnfold(ls);
    if rx[0] == NEWLINE {
      AtDelimiter(ls);
    } else {
      var next := Accept(ls.(inner := ls.inner.(rx := rx[1..])), rx[0]);
      AcceptThenRest(Stored(ls), rx[0], rx, ls.lineMaxLen);
      assert IndexOf(next.inner.rx, NEWLINE).value == k - 1;
      ScanFound(next, k - 1);
    }
  }

  /** One turn of the non-blocking loop on a working transport with input. */
  lemma ScanUnfold(ls: State)
    requires Valid(ls) && !ls.inner.readFault && |ls.inner.rx| > 0
    ensures var rx := ls.inner.rx;
      rx[0] == NEWLINE ==>
        Scan(ls) == Received(Terminate(ls.(inner := ls.inner.(rx := rx[1..]))).(totalRead := 0), Some(Stored(ls)), false)
    ensures var rx := ls.inner.rx;
      rx[0] != NEWLINE ==> Scan(ls) == Scan(Accept(ls.(inner := ls.inner.(rx := rx[1..])), rx[0]))
  {
  }

  /** Without a delimiter, the non-blocking read returns the null result
      after moving all the input into the partial line, cut to `lineMaxLen`. */
  lemma {:induction false} ScanMissing(ls: State)
    requires Valid(ls) && !ls.inner.readFault && IndexOf(ls.inner.rx, NEWLINE).None?
    ensures
      var r := Scan(ls);
      && r.line.None?
      && r.stream.inner.rx == []
      && Stored(r.stream) == Clamp(Stored(ls) + ls.inner.rx, ls.lineMaxLen)
    decreases |ls.inner.rx|
  {
    if |ls.inner.rx| == 0 {
      assert Stored(ls) + ls.inner.rx == Stored(ls);
    } else {
      var g := Transport.Read(ls.inner, 1);
      AcceptThenRest(Stored(ls), g.data[0], ls.inner.rx, ls.lineMaxLen);
      ScanMissing(Accept(ls.(inner := g.pipe), g.data[0]));
    }
  }

  /** A delimiter as the next input byte: the line handed out is the stored
      line, and the terminated buffer reads as that line in C. */
  lemma AtDelimiter(ls: State)
    requires Valid(ls) && |ls.inner.rx| > 0 && ls.inner.rx[0] == NEWLINE
    ensures IndexOf(ls.inner.rx, NEWLINE).Some? && IndexOf(ls.inner.rx, NEWLINE).value == 0
    ensures Clamp(Stored(ls) + ls.inner.rx[..0], ls.lineMaxLen) == Stored(ls)
    ensures ls.inner.rx[0 + 1..] == ls.inner.rx[1..]
  {
    assert Stored(ls) + ls.inner.rx[..0] == Stored(ls);
  }

  /** Moving the first input byte into the partial line changes neither the
      line that will be handed out nor the partial line left over. */
  lemma AcceptThenRest(stored: seq<byte>, c: byte, rx: seq<byte>, n: nat)
    requires |rx| > 0 && rx[0] == c && c != NEWLINE
    ensures IndexOf(rx, NEWLINE).Some? <==> IndexOf(rx[1..], NEWLINE).Some?
    ensures IndexOf(rx, NEWLINE).Some? ==>
      var k := IndexOf(rx[1..], NEWLINE).value;
      && IndexOf(rx, NEWLINE).value == k + 1
      && Clamp(Clamp(stored + [c], n) + rx[1..][..k], n) == Clamp(stored + rx[..k + 1], n)
      && rx[1..][k + 1..] == rx[k + 2..]
    ensures Clamp(Clamp(stored + [c], n) + rx[1..], n) == Clamp(stored + rx, n)
  {
    IndexOfTail(rx, NEWLINE);
    ShiftPrefix(stored, c, rx, |rx| - 1, n);
    if IndexOf(rx, NEWLINE).Some? {
      ShiftPrefix(stored, c, rx, IndexOf(rx[1..], NEWLINE).value, n);
    }
  }

  /** `ShiftIn` for the first `1 + k` input bytes. */
  lemma ShiftPrefix(stored: seq<byte>, c: byte, rx: seq<byte>, k: nat, n: nat)
    requires |rx| > k && rx[0] == c
    ensures Clamp(Clamp(stored + [c], n) + rx[1..][..k], n) == Clamp(stored + rx[..k + 1], n)
    ensures k + 1 < |rx| ==> rx[1..][k + 1..] == rx[k + 2..]
    ensures k + 1 == |rx| ==> rx[1..][..k] == rx[1..] && rx[..k + 1] == rx
  {
    ShiftIn(stored, c, rx[1..][..k], n);
    assert [c] + rx[1..][..k] == rx[..k + 1];
  }

  /** Clamping after moving `c` from the front of the input onto `stored`. */
  lemma ShiftIn(stored: seq<byte>, c: byte, rest: seq<byte>, n: nat)
    ensures Clamp(Clamp(stored + [c], n) + rest, n) == Clamp(stored + ([c] + rest), n)
  {
    AppendAssoc(stored, [c], rest);
    ClampAppend(stored + [c], rest, n);
  }

  /** What a C caller sees through the returned pointer: the buffer up to
      its first NUL, which is the line up to its first NUL. */
  lemma TerminatedString(buf: seq<byte>, t: nat)
    requires t < |buf|
    ensures CString(buf[t := NUL]) == CString(buf[..t])
  {
    var b := buf[t := NUL];
    var a := CString(b);
    assert b[t] == NUL;
    assert |a| <= t;
    assert IsPrefix(a, buf[..t]) by {
      assert b[..|a|] == buf[..t][..|a|];
    }
    if |a| < t {
      assert buf[..t][|a|] == b[|a|];
    }
    CStringUnique(buf[..t], a);
  }

  /** A NUL-free prefix followed by NUL or the end is the C string. */
  lemma CStringUnique(s: seq<byte>, a: seq<byte>)
    requires IsPrefix(a, s) && NUL !in a
    requires |a| < |s| ==> s[|a|] == NUL
    ensures a == CString(s)
  {
  }

  /** The loop of the blocking reader (line_stream.c:115-132) from the current
      count on: reads one byte at a time until a delimiter; a failing read
      (here: a fault, or no input left) ends it with the null result
      (`CollectFound`, `CollectMissing`). */
  function Collect(ls: State): (r: Received)
    requires Valid(ls)
    ensures Valid(r.stream)
    ensures r.stream.inner.tx == ls.inner.tx && r.stream.inner.grants == ls.inner.grants
    ensures r.stream.inner.flushOk == ls.inner.flushOk && r.stream.inner.readFault == ls.inner.readFault
    ensures r.stream.blockRead == ls.blockRead && r.stream.lineMaxLen == ls.lineMaxLen
    ensures r.failed <==> r.line.None?
    ensures ls.inner.readFault ==> r.failed && r.stream == ls
    ensures r.line.Some? ==> Stored(r.stream) == r.line.value
    ensures r.line.Some? ==> CString(r.stream.buffer) == CString(r.line.value)
    decreases |ls.inner.rx|
  {
    var g := Transport.Read(ls.inner, 1);
    if g.count < 0 then Received(ls.(inner := g.pipe), None, true)
    else if g.data[0] == NEWLINE then
      TerminatedString(ls.buffer, ls.totalRead);
      Received(Terminate(ls.(inner := g.pipe)), Some(Stored(ls)), false)
    else
      Collect(Accept(ls.(inner := g.pipe), g.data[0]))
  }

  /** With a delimiter in the input, the blocking loop succeeds with the
      stored line extended by the input before the first delimiter, cut to
      `lineMaxLen`; that line stays stored and the rest of the input unread. */
  lemma {:induction false} CollectFound(ls: State, k: nat)
    requires Valid(ls) && !ls.inner.readFault
    requires IndexOf(ls.inner.rx, NEWLINE).Some? && IndexOf(ls.inner.rx, NEWLINE).value == k
    ensures
      var r := Collect(ls);
      && r.line == Some(Clamp(Stored(ls) + ls.inner.rx[..k], ls.lineMaxLen))
      && r.stream.inner.rx == ls.inner.rx[k + 1..]
    decreases |ls.inner.rx|
  {
    var rx := ls.inner.rx;
    CollectUnfold(ls);
    if rx[0] == NEWLINE {
      AtDelimiter(ls);
    } else {
      var next := Accept(ls.(inner := ls.inner.(rx := rx[1..])), rx[0]);
      AcceptThenRest(Stored(ls), rx[0], rx, ls.lineMaxLen);
      assert IndexOf(next.inner.rx, NEWLINE).value == k - 1;
      CollectFound(next, k - 1);
    }
  }

  /** One turn of the blocking loop on a working transport with input. */
  lemma CollectUnfold(ls: State)
    requires Valid(ls) && !ls.inner.readFault && |ls.inner.rx| > 0
    ensures var rx := ls.inner.rx;
      rx[0] == NEWLINE ==>
        Collect(ls) == Received(Terminate(ls.(inner := ls.inner.(rx := rx[1..]))), Some(Stored(ls)), false)
    ensures var rx := ls.inner.rx;
      rx[0] != NEWLINE ==> Collect(ls) == Collect(Accept(ls.(inner := ls.inner.(rx := rx[1..])), rx[0]))
  {
  }

  /** Without a delimiter, the blocking loop fails once the input runs out,
      having moved all of it into the stored line, cut to `lineMaxLen`. */
  lemma {:induction false} CollectMissing(ls: State)
    requires Valid(ls) && !ls.inner.readFault && IndexOf(ls.inner.rx, NEWLINE).None?
    ensures
      var r := Collect(ls);
      && r.failed
      && r.stream.inner.rx == []
      && Stored(r.stream) == Clamp(Stored(ls) + ls.inner.rx, ls.lineMaxLen)
    decreases |ls.inner.rx|
  {
    if |ls.inner.rx| == 0 {
      assert Stored(ls) + ls.inner.rx == Stored(ls);
    } else {
      var g := Transport.Read(ls.inner, 1);
      AcceptThenRest(Stored(ls), g.data[0], ls.inner.rx, ls.lineMaxLen);
      CollectMissing(Accept(ls.(inner := g.pipe), g.data[0]));
    }
  }

  /** Blocking mode (line_stream.c:111-132): the count restarts at 0, so a
      line read this way never includes bytes kept from an earlier call. On
      success the count is left at the line's stored length. */
  function ReadBlocking(ls: State): (r: Received)
    requires Valid(ls)
    ensures Valid(r.stream)
    ensures r.failed <==> r.line.None?
    ensures r.failed <==> ls.inner.readFault || IndexOf(ls.inner.rx, NEWLINE).None?
    ensures !r.failed ==>
      var k := IndexOf(ls.inner.rx, NEWLINE).value;
      && r.line == Some(Clamp(ls.inner.rx[..k], ls.lineMaxLen))
      && r.stream.inner.rx == ls.inner.rx[k + 1..]
    ensures r.stream.inner.tx == ls.inner.tx && r.stream.inner.grants == ls.inner.grants
    ensures r.stream.blockRead == ls.blockRead && r.stream.lineMaxLen == ls.lineMaxLen
  {
    var start := ls.(totalRead := 0);
    var r := Collect(start);
    if ls.inner.readFault then
      assert r.failed;
      r
    else match IndexOf(ls.inner.rx, NEWLINE)
      case None =>
        CollectMissing(start);
        assert r.failed;
        r
      case Some(k) =>
        CollectFound(start, k);
        assert Stored(start) + ls.inner.rx[..k] == ls.inner.rx[..k];
        assert r.line == Some(Clamp(ls.inner.rx[..k], ls.lineMaxLen));
        assert !r.failed;
        r
  }

  /** `comm_line_stream_read` (line_stream.c:105-159); which line it hands
      out is stated by `ReadSpec`. */
  function Read(ls: State): (r: Received)
    requires Valid(ls)
    ensures Valid(r.stream)
    ensures r.failed ==> r.line.None?
    ensures r.line.Some? ==> |r.line.value| <= ls.lineMaxLen && NEWLINE !in r.line.value
    ensures r.stream.inner.tx == ls.inner.tx && r.stream.inner.grants == ls.inner.grants
    ensures r.stream.blockRead == ls.blockRead && r.stream.lineMaxLen == ls.lineMaxLen
  {
    if ls.blockRead then ReadBlocking(ls)
    else
      var r := Scan(ls);
      if ls.inner.readFault then r
      else match IndexOf(ls.inner.rx, NEWLINE)
        case None => ScanMissing(ls); r
        case Some(k) => ScanFound(ls, k); r
  }

  /** On a working transport a line comes out exactly when the input holds a
      delimiter; it is the input before the first delimiter, after the kept
      partial line in non-blocking mode, cut to `lineMaxLen`, and the input
      after that delimiter stays unread. */
  lemma ReadSpec(ls: State)
    requires Valid(ls) && !ls.inner.readFault
    ensures Read(ls).line.Some? <==> NEWLINE in ls.inner.rx
    ensures NEWLINE in ls.inner.rx ==>
      var k := IndexOf(ls.inner.rx, NEWLINE).value;
      && Read(ls).line == Some(Clamp((if ls.blockRead then [] else Stored(ls)) + ls.inner.rx[..k], ls.lineMaxLen))
      && Read(ls).stream.inner.rx == ls.inner.rx[k + 1..]
  {
    match IndexOf(ls.inner.rx, NEWLINE)
    case None =>
      if ls.blockRead {
        assert Read(ls) == ReadBlocking(ls);
      } else {
        ScanMissing(ls);
        assert Read(ls) == Scan(ls);
      }
    case Some(k) =>
      if ls.blockRead {
        assert Read(ls) == ReadBlocking(ls);
        assert [] + ls.inner.rx[..k] == ls.inner.rx[..k];
      } else {
        ScanFound(ls, k);
        assert Read(ls) == Scan(ls);
      }
  }
}
