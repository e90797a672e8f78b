/**
 * Properties of the circular buffer over whole sequences of calls: FIFO order
 * across any number of cursor wrap-arounds, and the read/write walk-through of
 * test/src/test/buffer.c:129-166.
 */
module RingTrace {
  import opened Bytes
  import opened RingBuffer

  /** One call on the buffer: a write of some bytes, or a read of up to `len`. */
  datatype Call = Put(data: seq<byte>) | Take(len: nat)

  /** What a run of calls produced: the final state, every byte the reads
      returned and every byte the writes accepted, each in call order. */
  datatype Trace = Trace(buffer: Buffer, taken: seq<byte>, accepted: seq<byte>)

  function Run(b: Buffer, calls: seq<Call>): (r: Trace)
    requires Valid(b)
    ensures Valid(r.buffer)
    decreases |calls|
  {
    if |calls| == 0 then Trace(b, [], [])
    else match calls[0]
      case Put(data) =>
        var w := Write(b, data);
        var rest := Run(w.buffer, calls[1..]);
        Trace(rest.buffer, rest.taken, data[..w.count] + rest.accepted)
      case Take(len) =>
        var t := Read(b, len, true);
        var rest := Run(t.buffer, calls[1..]);
        Trace(rest.buffer, t.data + rest.taken, rest.accepted)
  }

  /** FIFO: whatever the interleaving and wherever the cursors wrap, the bytes
      read followed by what is still buffered are exactly the bytes that were
      buffered at the start followed by every byte the writes accepted. */
  lemma {:induction false} Fifo(b: Buffer, calls: seq<Call>)
    requires Valid(b)
    ensures Run(b, calls).taken + Contents(Run(b, calls).buffer)
         == Contents(b) + Run(b, calls).accepted
    decreases |calls|
  {
    if |calls| > 0 {
      match calls[0]
      case Put(data) =>
        var w := Write(b, data);
        Fifo(w.buffer, calls[1..]);
        var rest := Run(w.buffer, calls[1..]);
        assert Run(b, calls) == Trace(rest.buffer, rest.taken, data[..w.count] + rest.accepted);
        AppendAssoc(Contents(b), data[..w.count], rest.accepted);
      case Take(len) =>
        var t := Read(b, len, true);
        Fifo(t.buffer, calls[1..]);
        var rest := Run(t.buffer, calls[1..]);
        assert Run(b, calls) == Trace(rest.buffer, t.data + rest.taken, rest.accepted);
        TakeDrop(Contents(b), t.count);
        AppendAssoc(t.data, rest.taken, Contents(rest.buffer));
        AppendAssoc(t.data, Contents(t.buffer), rest.accepted);
    }
  }

  /** Writing `k <= capacity` bytes into an empty buffer and reading `k` back
      returns them and empties it again, with the full capacity free, wherever
      the cursors ended up. */
  lemma WriteThenReadEmpties(b: Buffer, data: seq<byte>)
    requires Valid(b) && Contents(b) == [] && |data| <= b.capacity
    ensures Write(b, data).count == |data|
    ensures Read(Write(b, data).buffer, |data|, true).data == data
    ensures Contents(Read(Write(b, data).buffer, |data|, true).buffer) == []
    ensures AvailableWrite(Read(Write(b, data).buffer, |data|, true).buffer) == b.capacity
  {
    assert data[..|data|] == data;
  }

  /** The first half of the walk-through (test/src/test/buffer.c:140-153),
      from any empty 15-byte ring: 13 bytes go in, and reads of 5 and then 8
      return them in order and leave the ring empty with all 15 bytes free. */
  lemma WalkThroughFill(b: Buffer, hello: seq<byte>)
    requires Valid(b) && b.capacity == 15 && Contents(b) == [] && |hello| == 13
    ensures
      var w := Write(b, hello);
      var r1 := Read(w.buffer, 5, true);
      var r2 := Read(r1.buffer, 8, true);
      && w.count == 13 && AvailableRead(w.buffer) == 13 && AvailableWrite(w.buffer) == 2
      && r1.count == 5 && r1.data == hello[..5]
      && AvailableRead(r1.buffer) == 8 && AvailableWrite(r1.buffer) == 7
      && r2.count == 8 && r2.data == hello[5..]
      && Contents(r2.buffer) == [] && AvailableWrite(r2.buffer) == 15
      && Valid(r2.buffer) && r2.buffer.capacity == 15
      && r2.buffer.readCursor == Slot(b.readCursor, 13, 15)
  {
    var w := Write(b, hello);
    assert hello[..13] == hello;
    var r1 := Read(w.buffer, 5, true);
    assert Contents(r1.buffer) == hello[5..];
    CursorGap(b);
    CursorGap(w.buffer);
  }

  /** The second half (test/src/test/buffer.c:155-166), from any empty 15-byte
      ring: an 8-byte write fits, a 9-byte write is cut to the 7 bytes still
      free, and reads of 8 and of up to 256 return the 8 bytes and then the 7
      accepted ones. */
  lemma WalkThroughWrap(b: Buffer, more: seq<byte>, time: seq<byte>)
    requires Valid(b) && b.capacity == 15 && Contents(b) == [] && |more| == 8 && |time| == 9
    ensures
      var w2 := Write(b, more);
      var w3 := Write(w2.buffer, time);
      var r3 := Read(w3.buffer, 8, true);
      var r4 := Read(r3.buffer, 256, true);
      && w2.count == 8 && w3.count == 7
      && Contents(w3.buffer) == more + time[..7]
      && r3.count == 8 && r3.data == more
      && r4.count == 7 && r4.data == time[..7]
      && Contents(r4.buffer) == []
  {
    var w2 := Write(b, more);
    assert more[..8] == more;
    var w3 := Write(w2.buffer, time);
    var r3 := Read(w3.buffer, 8, true);
    assert (more + time[..7])[..8] == more;
    assert (more + time[..7])[8..] == time[..7];
    assert time[..7][..7] == time[..7];
  }

  /** A full ring's storage is its FIFO rotated by the read cursor: the
      block from the read cursor to its end holds the oldest bytes, and the
      block's start holds the newest. */
  lemma FullStorage(b: Buffer)
    requires Valid(b) && b.capacity > 0 && AvailableRead(b) == b.capacity
    ensures b.storage == Contents(b)[b.capacity - b.readCursor..] + Contents(b)[..b.capacity - b.readCursor]
  {
    var c, cap, rc := Contents(b), b.capacity, b.readCursor;
    var m := cap - rc;
    forall j | 0 <= j < cap
      ensures b.storage[j] == (c[m..] + c[..m])[j]
    {
      if j < rc {
        assert Slot(rc, m + j, cap) == j;
      } else {
        assert Slot(rc, j - rc, cap) == j;
      }
    }
  }

  /** Where the second half's bytes land when it starts at slot 13, as in the
      walk-through (test/src/test/buffer.c:161-162): the 8-byte write wraps
      past the end of the block, and the 7 accepted bytes fill the rest. */
  lemma WrapLayout(b: Buffer, more: seq<byte>, time: seq<byte>)
    requires Valid(b) && b.capacity == 15 && Contents(b) == [] && b.readCursor == 13
    requires |more| == 8 && |time| == 9
    ensures Write(Write(b, more).buffer, time).buffer.storage == more[2..] + time[..7] + more[..2]
  {
    WalkThroughWrap(b, more, time);
    var w3 := Write(Write(b, more).buffer, time);
    FullStorage(w3.buffer);
    var c := more + time[..7];
    assert c[2..] == more[2..] + time[..7];
    assert c[..2] == more[..2];
  }

  /** The whole walk-through of test/src/test/buffer.c:133-166 on a caller's
      15-byte block installed as empty storage, including the block's layout
      once the second write has wrapped around its end. */
  lemma ReadWriteWalkThrough(storage: seq<byte>, hello: seq<byte>, more: seq<byte>, time: seq<byte>)
    requires |storage| == 15 && |hello| == 13 && |more| == 8 && |time| == 9
    ensures SetStorage(New(0), Some(storage), 15, true).Ok?
    ensures
      var b0 := SetStorage(New(0), Some(storage), 15, true).value;
      var r2 := Read(Read(Write(b0, hello).buffer, 5, true).buffer, 8, true);
      var w3 := Write(Write(r2.buffer, more).buffer, time);
      var r3 := Read(w3.buffer, 8, true);
      && Capacity(b0) == 15
      && r2.data == hello[5..]
      && w3.count == 7
      && w3.buffer.storage == more[2..] + time[..7] + more[..2]
      && r3.data == more
      && Read(r3.buffer, 256, true).data == time[..7]
  {
    var b0 := SetStorage(New(0), Some(storage), 15, true).value;
    WalkThroughFill(b0, hello);
    var r2 := Read(Read(Write(b0, hello).buffer, 5, true).buffer, 8, true);
    WalkThroughWrap(r2.buffer, more, time);
    WrapLayout(r2.buffer, more, time);
  }
}
