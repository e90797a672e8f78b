/**
 * Whole-conversation properties of the line framing: the non-blocking reader
 * is resumable (feeding the input in any chunks, with reads in between,
 * yields the same lines as feeding it at once, each cut to `lineMaxLen`), and
 * what the writer emits reads back as the lines written.
 */
module LineResume {
  import opened Bytes
  import opened LineStream
  import Transport

  /** Everything the reader has yet to turn into lines: the partial line it
      holds plus the unread input. */
  function Unread(ls: State): seq<byte>
    requires Valid(ls)
  {
    Stored(ls) + ls.inner.rx
  }

  /** The reference splitter: the delimited lines of a byte stream in order
      (without their delimiters), and the undelimited tail. */
  function SplitLines(s: seq<byte>): (r: (seq<seq<byte>>, seq<byte>))
    ensures NEWLINE !in r.1
    decreases |s|
  {
    match IndexOf(s, NEWLINE)
    case None => ([], s)
    case Some(k) =>
      var rest := SplitLines(s[k + 1..]);
      ([s[..k]] + rest.0, rest.1)
  }

  /** Every line cut to at most `n` bytes, as the reader hands them out. */
  function ClampAll(lines: seq<seq<byte>>, n: nat): (r: seq<seq<byte>>)
    ensures |r| == |lines|
    decreases |lines|
  {
    if |lines| == 0 then [] else [Clamp(lines[0], n)] + ClampAll(lines[1..], n)
  }

  /** The wire image of several delimiter-free lines sent back to back. */
  function LineFrames(lines: seq<seq<byte>>): seq<byte>
    decreases |lines|
  {
    if |lines| == 0 then [] else lines[0] + [NEWLINE] + LineFrames(lines[1..])
  }

  /** Non-blocking reads repeated until one returns the null result. */
  function Drain(ls: State): (r: (State, seq<seq<byte>>))
    requires Valid(ls) && !ls.blockRead && !ls.inner.readFault
    ensures Valid(r.0) && !r.0.blockRead && !r.0.inner.readFault && r.0.lineMaxLen == ls.lineMaxLen
    decreases |ls.inner.rx|
  {
    var rd := Scan(ls);
    if rd.line.None? then (rd.stream, [])
    else
      var rest := Drain(rd.stream);
      (rest.0, [rd.line.value] + rest.1)
  }

  /** Input arriving in chunks, each followed by reads until the null result
      (and reads until the null result when no chunk is left); yields the
      final state and every line returned, in order. */
  function Feed(ls: State, chunks: seq<seq<byte>>): (r: (State, seq<seq<byte>>))
    requires Valid(ls) && !ls.blockRead && !ls.inner.readFault
    ensures Valid(r.0) && !r.0.blockRead && !r.0.inner.readFault && r.0.lineMaxLen == ls.lineMaxLen
    decreases |chunks|
  {
    if |chunks| == 0 then Drain(ls)
    else
      var d := Drain(ls.(inner := ls.inner.(rx := ls.inner.rx + chunks[0])));
      var rest := Feed(d.0, chunks[1..]);
      (rest.0, d.1 + rest.1)
  }

  /** Draining hands out exactly the delimited lines of what was unread, each
      cut to `lineMaxLen`, and keeps the cut undelimited tail as the partial
      line. */
  lemma {:induction false} DrainSpec(ls: State)
    requires Valid(ls) && !ls.blockRead && !ls.inner.readFault
    ensures Drain(ls).1 == ClampAll(SplitLines(Unread(ls)).0, ls.lineMaxLen)
    ensures Stored(Drain(ls).0) == Clamp(SplitLines(Unread(ls)).1, ls.lineMaxLen)
    ensures Drain(ls).0.inner.rx == []
    decreases |ls.inner.rx|
  {
    var rd := Scan(ls);
    DrainUnfold(ls);
    SplitLinesAfter(Stored(ls), ls.inner.rx);
    match IndexOf(ls.inner.rx, NEWLINE)
    case None =>
      ScanMissing(ls);
    case Some(k) =>
      ScanFound(ls, k);
      DrainSpec(rd.stream);
      assert Unread(rd.stream) == ls.inner.rx[k + 1..] by {
        assert Stored(rd.stream) == [];
      }
      ClampAllCons(Stored(ls) + ls.inner.rx[..k], SplitLines(ls.inner.rx[k + 1..]).0, ls.lineMaxLen);
  }

  lemma DrainUnfold(ls: State)
    requires Valid(ls) && !ls.blockRead && !ls.inner.readFault
    ensures var rd := Scan(ls);
      Drain(ls) == if rd.line.None? then (rd.stream, [])
                   else (Drain(rd.stream).0, [rd.line.value] + Drain(rd.stream).1)
  {
  }

  lemma ClampAllCons(line: seq<byte>, lines: seq<seq<byte>>, n: nat)
    ensures ClampAll([line] + lines, n) == [Clamp(line, n)] + ClampAll(lines, n)
  {
    assert ([line] + lines)[1..] == lines;
  }

  lemma ClampAllAppend(a: seq<seq<byte>>, b: seq<seq<byte>>, n: nat)
    ensures ClampAll(a + b, n) == ClampAll(a, n) + ClampAll(b, n)
    decreases |a|
  {
    if |a| == 0 {
      assert a + b == b;
    } else {
      assert (a + b)[1..] == a[1..] + b;
      ClampAllAppend(a[1..], b, n);
    }
  }

  /** Splitting a concatenation: the lines of the first part, then those of
      its undelimited tail followed by the second part. */
  lemma {:induction false} SplitLinesAppend(s: seq<byte>, t: seq<byte>)
    ensures SplitLines(s + t).0 == SplitLines(s).0 + SplitLines(SplitLines(s).1 + t).0
    ensures SplitLines(s + t).1 == SplitLines(SplitLines(s).1 + t).1
    decreases |s|
  {
    match IndexOf(s, NEWLINE)
    case None =>
    case Some(k) =>
      IndexOfBefore(s, t, NEWLINE);
      assert (s + t)[..k] == s[..k];
      assert (s + t)[k + 1..] == s[k + 1..] + t;
      SplitLinesAppend(s[k + 1..], t);
      AppendAssoc([s[..k]], SplitLines(s[k + 1..]).0, SplitLines(SplitLines(s[k + 1..]).1 + t).0);
  }

  /** `SplitLines` at a known first delimiter. */
  lemma SplitLinesAt(s: seq<byte>, k: nat)
    requires IndexOf(s, NEWLINE).Some? && IndexOf(s, NEWLINE).value == k
    ensures SplitLines(s) == ([s[..k]] + SplitLines(s[k + 1..]).0, SplitLines(s[k + 1..]).1)
  {
  }

  /** `SplitLines` of a stream without delimiter. */
  lemma SplitLinesNone(s: seq<byte>)
    requires IndexOf(s, NEWLINE).None?
    ensures SplitLines(s) == ([], s)
  {
  }

  /** The pieces of `a + t` around the delimiter at `t[k]`. */
  lemma AroundDelimiter(a: seq<byte>, t: seq<byte>, k: nat)
    requires k < |t|
    ensures (a + t)[..|a| + k] == a + t[..k]
    ensures (a + t)[|a| + k + 1..] == t[k + 1..]
  {
  }

  /** Splitting a stream that starts with a delimiter-free `a`: the first
      line is `a` followed by the input up to the first delimiter of `t`. */
  lemma SplitLinesAfter(a: seq<byte>, t: seq<byte>)
    requires NEWLINE !in a
    ensures IndexOf(t, NEWLINE).None? ==> SplitLines(a + t) == ([], a + t)
    ensures IndexOf(t, NEWLINE).Some? ==>
      var k := IndexOf(t, NEWLINE).value;
      SplitLines(a + t) == ([a + t[..k]] + SplitLines(t[k + 1..]).0, SplitLines(t[k + 1..]).1)
  {
    IndexOfAfter(a, t, NEWLINE);
    if IndexOf(t, NEWLINE).None? {
      SplitLinesNone(a + t);
    } else {
      var k := IndexOf(t, NEWLINE).value;
      SplitLinesAt(a + t, |a| + k);
      AroundDelimiter(a, t, k);
    }
  }

  /** Cutting an undelimited tail to `n` bytes before more input arrives
      changes nothing the reader hands out: the first line it completes is
      cut to `n` bytes anyway. */
  lemma ClampedTail(tail: seq<byte>, t: seq<byte>, n: nat)
    requires NEWLINE !in tail
    ensures ClampAll(SplitLines(Clamp(tail, n) + t).0, n) == ClampAll(SplitLines(tail + t).0, n)
    ensures Clamp(SplitLines(Clamp(tail, n) + t).1, n) == Clamp(SplitLines(tail + t).1, n)
  {
    var c := Clamp(tail, n);
    assert NEWLINE !in c by {
      assert c == tail[..|c|];
    }
    SplitLinesAfter(c, t);
    SplitLinesAfter(tail, t);
    if IndexOf(t, NEWLINE).None? {
      ClampAppend(tail, t, n);
    } else {
      var k := IndexOf(t, NEWLINE).value;
      var rest := SplitLines(t[k + 1..]);
      ClampAppend(tail, t[..k], n);
      ClampAllCons(c + t[..k], rest.0, n);
      ClampAllCons(tail + t[..k], rest.0, n);
    }
  }

  lemma FeedUnfold(ls: State, chunks: seq<seq<byte>>)
    requires Valid(ls) && !ls.blockRead && !ls.inner.readFault && |chunks| > 0
    ensures
      var d := Drain(ls.(inner := ls.inner.(rx := ls.inner.rx + chunks[0])));
      Feed(ls, chunks) == (Feed(d.0, chunks[1..]).0, d.1 + Feed(d.0, chunks[1..]).1)
  {
  }

  lemma FedUnread(ls: State, chunks: seq<seq<byte>>)
    requires Valid(ls) && |chunks| > 0
    ensures Unread(ls.(inner := ls.inner.(rx := ls.inner.rx + chunks[0]))) + Concat(chunks[1..])
         == Unread(ls) + Concat(chunks)
  {
    AppendAssoc(Stored(ls), ls.inner.rx, chunks[0]);
    AppendAssoc(Unread(ls), chunks[0], Concat(chunks[1..]));
  }

  lemma UnreadDrained(ls: State)
    requires Valid(ls) && ls.inner.rx == []
    ensures Unread(ls) == Stored(ls)
  {
  }

  /** Resumability: feeding the input in any chunks, reading in between,
      hands out exactly the delimited lines of the whole input in order, each
      cut to `lineMaxLen`, and keeps its cut undelimited tail. */
  lemma {:induction false} FeedSpec(ls: State, chunks: seq<seq<byte>>)
    requires Valid(ls) && !ls.blockRead && !ls.inner.readFault
    ensures Feed(ls, chunks).1 == ClampAll(SplitLines(Unread(ls) + Concat(chunks)).0, ls.lineMaxLen)
    ensures Stored(Feed(ls, chunks).0) == Clamp(SplitLines(Unread(ls) + Concat(chunks)).1, ls.lineMaxLen)
    decreases |chunks|
  {
    var n := ls.lineMaxLen;
    if |chunks| == 0 {
      assert Unread(ls) + Concat(chunks) == Unread(ls);
      DrainSpec(ls);
    } else {
      var fed := ls.(inner := ls.inner.(rx := ls.inner.rx + chunks[0]));
      var d := Drain(fed);
      FeedUnfold(ls, chunks);
      DrainSpec(fed);
      FeedSpec(d.0, chunks[1..]);
      var u, t := Unread(fed), Concat(chunks[1..]);
      var tail := SplitLines(u).1;
      UnreadDrained(d.0);
      ClampedTail(tail, t, n);
      SplitLinesAppend(u, t);
      ClampAllAppend(SplitLines(u).0, SplitLines(tail + t).0, n);
      FedUnread(ls, chunks);
    }
  }

  /** The same lines come out whether the input arrives in chunks or all at
      once. */
  lemma ChunkingIsInvisible(ls: State, chunks: seq<seq<byte>>)
    requires Valid(ls) && !ls.blockRead && !ls.inner.readFault
    ensures Feed(ls, chunks).1 == Feed(ls, [Concat(chunks)]).1
  {
    FeedSpec(ls, chunks);
    FeedSpec(ls, [Concat(chunks)]);
    assert Concat([Concat(chunks)]) == Concat(chunks);
  }

  lemma LineFramesUnfold(lines: seq<seq<byte>>, more: seq<byte>)
    requires |lines| > 0
    ensures LineFrames(lines) + more == lines[0] + ([NEWLINE] + (LineFrames(lines[1..]) + more))
  {
  }

  /** A delimiter-free line and its delimiter in front of anything split off
      as that line. */
  lemma SplitLinesOfLine(line: seq<byte>, rest: seq<byte>)
    requires NEWLINE !in line
    ensures SplitLines(line + ([NEWLINE] + rest)) == ([line] + SplitLines(rest).0, SplitLines(rest).1)
  {
    var s := line + ([NEWLINE] + rest);
    IndexOfAfter(line, [NEWLINE] + rest, NEWLINE);
    assert s[..|line|] == line;
    assert s[|line| + 1..] == rest;
  }

  /** Delimiter-free lines sent back to back split back into those lines,
      followed by the lines of whatever comes after them. */
  lemma {:induction false} LineFramesSplit(lines: seq<seq<byte>>, more: seq<byte>)
    requires forall i :: 0 <= i < |lines| ==> NEWLINE !in lines[i]
    ensures SplitLines(LineFrames(lines) + more) == (lines + SplitLines(more).0, SplitLines(more).1)
    decreases |lines|
  {
    if |lines| == 0 {
      assert LineFrames(lines) + more == more;
      assert lines + SplitLines(more).0 == SplitLines(more).0;
    } else {
      LineFramesSplit(lines[1..], more);
      LineFramesUnfold(lines, more);
      SplitLinesOfLine(lines[0], LineFrames(lines[1..]) + more);
      ConsAppend(lines, SplitLines(more).0);
    }
  }

  /** Lines without delimiters, sent back to back and delivered to a
      non-blocking reader holding no partial line in any chunks, are read
      back in order, each cut to `lineMaxLen`. */
  lemma LinesSurviveChunking(ls: State, lines: seq<seq<byte>>, chunks: seq<seq<byte>>)
    requires Valid(ls) && !ls.blockRead && !ls.inner.readFault
    requires ls.totalRead == 0 && ls.inner.rx == []
    requires forall i :: 0 <= i < |lines| ==> NEWLINE !in lines[i]
    requires Concat(chunks) == LineFrames(lines)
    ensures Feed(ls, chunks).1 == ClampAll(lines, ls.lineMaxLen)
    ensures Stored(Feed(ls, chunks).0) == []
  {
    FeedSpec(ls, chunks);
    assert Unread(ls) + Concat(chunks) == LineFrames(lines) + [] by {
      assert Stored(ls) == [];
    }
    LineFramesSplit(lines, []);
    SplitLinesNone([]);
    assert lines + [] == lines;
  }

  /** What a successful `Write` adds to the wire is the message with its
      delimiter. */
  lemma WrittenLine(w: State, msg: Option<seq<byte>>)
    requires NEWLINE !in Message(msg)
    requires Write(w, msg).ok
    ensures Write(w, msg).stream.inner.tx[|w.inner.tx|..] == Message(msg) + [NEWLINE]
  {
    var m := Message(msg);
    assert !EndsWithNewline(m) by {
      if |m| > 0 {
        assert m[|m| - 1] in m;
      }
    }
  }

  /** A reader holding no partial line, in either mode, hands out the
      delimiter-free line at the front of its input, cut to `lineMaxLen`. */
  lemma ReadsFirstLine(r: State, line: seq<byte>, more: seq<byte>)
    requires Valid(r) && r.totalRead == 0 && !r.inner.readFault
    requires NEWLINE !in line
    requires r.inner.rx == line + ([NEWLINE] + more)
    ensures Read(r).line == Some(Clamp(line, r.lineMaxLen))
  {
    var k := |line|;
    IndexOfAfter(line, [NEWLINE] + more, NEWLINE);
    AroundDelimiter(line, [NEWLINE] + more, 0);
    assert IndexOf(r.inner.rx, NEWLINE).Some? && IndexOf(r.inner.rx, NEWLINE).value == k;
    assert r.inner.rx[..k] == line;
    if r.blockRead {
      assert Read(r) == ReadBlocking(r);
    } else {
      ScanFound(r, k);
      assert Stored(r) + line == line;
      assert Read(r) == Scan(r);
    }
  }

  /** Round trip: what a successful `Write` of a delimiter-free message
      appends to the wire, delivered to a reader in either mode holding no
      partial line, reads back as the message cut to `lineMaxLen`. */
  lemma WriteThenRead(w: State, msg: Option<seq<byte>>, r: State, more: seq<byte>)
    requires NEWLINE !in Message(msg)
    requires Write(w, msg).ok
    requires Valid(r) && r.totalRead == 0 && !r.inner.readFault
    requires r.inner.rx == Write(w, msg).stream.inner.tx[|w.inner.tx|..] + more
    ensures Read(r).line == Some(Clamp(Message(msg), r.lineMaxLen))
  {
    WrittenLine(w, msg);
    AppendAssoc(Message(msg), [NEWLINE], more);
    ReadsFirstLine(r, Message(msg), more);
  }
}
