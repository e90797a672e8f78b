/**
 * The circular byte buffer (src/comm/buffer.c).
 *
 * The buffer is a fixed ring of `capacity` bytes with a read cursor, a write
 * cursor and a `lastRead` flag that tells "empty" from "full" when the two
 * cursors meet. Its abstract meaning is `Contents`: the bytes from the read
 * cursor onward, `AvailableRead` of them, in FIFO order. Every operation is
 * stated against that sequence.
 */
module RingBuffer {
  import opened Bytes

  /** State of one buffer (src/comm/_buffer.h:27-32). `storage` is the block
      the storage pointer designates; `wrapped` is true when that block is
      borrowed from the caller rather than owned. */
  datatype Buffer = Buffer(
    storage: seq<byte>,
    capacity: nat,
    readCursor: nat,
    writeCursor: nat,
    lastRead: bool,
    wrapped: bool)

  /** The state every operation keeps: the storage holds `capacity` bytes and
      both cursors index it (or are 0 when there is no room at all). */
  predicate Valid(b: Buffer) {
    && |b.storage| == b.capacity
    && (b.capacity == 0 ==> b.readCursor == 0 && b.writeCursor == 0)
    && (b.capacity > 0 ==> b.readCursor < b.capacity && b.writeCursor < b.capacity)
  }

  /** One cursor step of the copy loops: increment, and wrap to 0 at the end. */
  function Next(cursor: nat, cap: nat): (r: nat)
    requires cursor < cap
    ensures r < cap
  {
    if cursor + 1 == cap then 0 else cursor + 1
  }

  /** The slot `i` steps after `start` on a ring of `cap` slots. */
  function Slot(start: nat, i: nat, cap: nat): (r: nat)
    requires start < cap && i <= cap
    ensures r < cap
  {
    if start + i < cap then start + i else start + i - cap
  }

  /** Bytes ready to be read (`__available_read`). */
  function AvailableRead(b: Buffer): (r: nat)
    requires Valid(b)
    ensures r <= b.capacity
    ensures b.capacity > 0 ==> (r == 0 <==> b.readCursor == b.writeCursor && b.lastRead)
  {
    if b.writeCursor < b.readCursor then b.capacity - b.readCursor + b.writeCursor
    else if b.writeCursor > b.readCursor then b.writeCursor - b.readCursor
    else if b.lastRead then 0
    else b.capacity
  }

  /** Free room (`__available_write`): always the complement of the readable bytes. */
  function AvailableWrite(b: Buffer): (r: nat)
    requires Valid(b)
    ensures r + AvailableRead(b) == b.capacity
  {
    if b.writeCursor < b.readCursor then b.readCursor - b.writeCursor
    else if b.writeCursor > b.readCursor then b.capacity - b.writeCursor + b.readCursor
    else if b.lastRead then b.capacity
    else 0
  }

  /** The abstract FIFO the ring holds: the readable bytes, oldest first. */
  function Contents(b: Buffer): (r: seq<byte>)
    requires Valid(b)
    ensures |r| == AvailableRead(b)
  {
    var n := AvailableRead(b);
    seq(n, i requires 0 <= i < n => b.storage[Slot(b.readCursor, i, b.capacity)])
  }

  /** The write cursor always sits `AvailableRead` slots after the read cursor. */
  lemma CursorGap(b: Buffer)
    requires Valid(b) && b.capacity > 0
    ensures b.writeCursor == Slot(b.readCursor, AvailableRead(b), b.capacity)
  {
  }

  /** Conversely, a gap of `k` slots with the matching flag means `k` readable bytes. */
  lemma GapIsAvailable(b: Buffer, k: nat)
    requires Valid(b) && b.capacity > 0 && k <= b.capacity
    requires b.writeCursor == Slot(b.readCursor, k, b.capacity)
    requires k == 0 ==> b.lastRead
    requires k == b.capacity ==> !b.lastRead
    ensures AvailableRead(b) == k
  {
  }

  /** The copy loop of `__read`: walks `n` slots from `cursor`, collecting the
      bytes when there is an output buffer and skipping them otherwise; also
      yields the cursor it stops at. */
  function ReadLoop(storage: seq<byte>, cursor: nat, n: nat, copy: bool): (seq<byte>, nat)
    requires cursor < |storage|
    decreases n
  {
    if n == 0 then ([], cursor)
    else
      var rest := ReadLoop(storage, Next(cursor, |storage|), n - 1, copy);
      ((if copy then [storage[cursor]] else []) + rest.0, rest.1)
  }

  lemma {:induction false} ReadLoopSpec(storage: seq<byte>, cursor: nat, n: nat, copy: bool)
    requires cursor < |storage| && n <= |storage|
    ensures ReadLoop(storage, cursor, n, copy).1 == Slot(cursor, n, |storage|)
    ensures copy ==> |ReadLoop(storage, cursor, n, copy).0| == n
    ensures copy ==> forall i :: 0 <= i < n ==>
      ReadLoop(storage, cursor, n, copy).0[i] == storage[Slot(cursor, i, |storage|)]
    ensures !copy ==> ReadLoop(storage, cursor, n, copy).0 == []
    decreases n
  {
    if n > 0 {
      var cap := |storage|;
      var nx := Next(cursor, cap);
      ReadLoopSpec(storage, nx, n - 1, copy);
      var r := ReadLoop(storage, cursor, n, copy);
      var rest := ReadLoop(storage, nx, n - 1, copy);
      if copy {
        forall i | 0 <= i < n
          ensures r.0[i] == storage[Slot(cursor, i, cap)]
        {
          if i > 0 {
            assert r.0[i] == rest.0[i - 1];
            assert Slot(nx, i - 1, cap) == Slot(cursor, i, cap);
          }
        }
      }
    }
  }

  /** The copy loop of `__write`: stores `data` slot by slot from `cursor`,
      yielding the new storage and the cursor it stops at. */
  function WriteLoop(storage: seq<byte>, cursor: nat, data: seq<byte>): (seq<byte>, nat)
    requires cursor < |storage|
    decreases |data|
  {
    if |data| == 0 then (storage, cursor)
    else WriteLoop(storage[cursor := data[0]], Next(cursor, |storage|), data[1..])
  }

  lemma {:induction false} WriteLoopSpec(storage: seq<byte>, cursor: nat, data: seq<byte>)
    requires cursor < |storage| && |data| <= |storage|
    ensures |WriteLoop(storage, cursor, data).0| == |storage|
    ensures WriteLoop(storage, cursor, data).1 == Slot(cursor, |data|, |storage|)
    ensures forall i :: 0 <= i < |data| ==>
      WriteLoop(storage, cursor, data).0[Slot(cursor, i, |storage|)] == data[i]
    ensures forall j :: |data| <= j < |storage| ==>
      WriteLoop(storage, cursor, data).0[Slot(cursor, j, |storage|)] == storage[Slot(cursor, j, |storage|)]
    decreases |data|
  {
    if |data| > 0 {
      var cap := |storage|;
      var s1 := storage[cursor := data[0]];
      var nx := Next(cursor, cap);
      WriteLoopSpec(s1, nx, data[1..]);
      var r := WriteLoop(storage, cursor, data).0;
      assert r == WriteLoop(s1, nx, data[1..]).0;
      forall i | 0 <= i < |data|
        ensures r[Slot(cursor, i, cap)] == data[i]
      {
        if i == 0 {
          assert Slot(nx, cap - 1, cap) == cursor;
        } else {
          assert Slot(nx, i - 1, cap) == Slot(cursor, i, cap);
        }
      }
      forall j | |data| <= j < cap
        ensures r[Slot(cursor, j, cap)] == storage[Slot(cursor, j, cap)]
      {
        assert Slot(nx, j - 1, cap) == Slot(cursor, j, cap);
      }
    }
  }

  /** Outcome of a transfer: the new state, the byte count the call returns,
      and the bytes copied out (reads only). */
  datatype Transfer = Transfer(buffer: Buffer, count: nat, data: seq<byte>)

  /** `__read` (buffer.c:51-77): moves `min(len, AvailableRead)` bytes off the
      front of the FIFO; `copy` is false when the output pointer is null, in
      which case the bytes are skipped rather than copied. */
  function Read(b: Buffer, len: nat, copy: bool): (r: Transfer)
    requires Valid(b)
    ensures Valid(r.buffer)
    ensures r.count == Min(len, AvailableRead(b))
    ensures copy ==> r.data == Contents(b)[..r.count]
    ensures !copy ==> r.data == []
    ensures Contents(r.buffer) == Contents(b)[r.count..]
    ensures r.count == 0 ==> r.buffer == b
    ensures r.count > 0 ==> r.buffer.lastRead
    ensures r.buffer.storage == b.storage && r.buffer.capacity == b.capacity
    ensures r.buffer.writeCursor == b.writeCursor && r.buffer.wrapped == b.wrapped
  {
    var n := Min(len, AvailableRead(b));
    if n == 0 then Transfer(b, 0, [])
    else
      var loop := ReadLoop(b.storage, b.readCursor, n, copy);
      var b' := b.(readCursor := loop.1, lastRead := true);
      ReadLoopSpec(b.storage, b.readCursor, n, copy);
      ReadShift(b, n, b');
      Transfer(b', n, loop.0)
  }

  /** Advancing the read cursor by `n` readable slots drops `n` bytes off the FIFO. */
  lemma ReadShift(b: Buffer, n: nat, b': Buffer)
    requires Valid(b) && 0 < n <= AvailableRead(b)
    requires b' == b.(readCursor := Slot(b.readCursor, n, b.capacity), lastRead := true)
    ensures Valid(b')
    ensures Contents(b') == Contents(b)[n..]
  {
    var cap := b.capacity;
    var k := AvailableRead(b);
    CursorGap(b);
    assert b.writeCursor == Slot(b'.readCursor, k - n, cap);
    GapIsAvailable(b', k - n);
    forall i | 0 <= i < k - n
      ensures Contents(b')[i] == Contents(b)[n + i]
    {
      assert Slot(b'.readCursor, i, cap) == Slot(b.readCursor, n + i, cap);
    }
  }

  /** `__write` (buffer.c:91-112): appends `min(|data|, AvailableWrite)` bytes
      of `data` to the FIFO; the rest of `data` is not accepted. */
  function Write(b: Buffer, data: seq<byte>): (r: Transfer)
    requires Valid(b)
    ensures Valid(r.buffer)
    ensures r.count == Min(|data|, AvailableWrite(b))
    ensures Contents(r.buffer) == Contents(b) + data[..r.count]
    ensures r.data == []
    ensures r.count == 0 ==> r.buffer == b
    ensures r.count > 0 ==> !r.buffer.lastRead
    ensures r.buffer.capacity == b.capacity && r.buffer.readCursor == b.readCursor
    ensures r.buffer.wrapped == b.wrapped
  {
    var n := Min(|data|, AvailableWrite(b));
    if n == 0 then Transfer(b, 0, [])
    else
      var loop := WriteLoop(b.storage, b.writeCursor, data[..n]);
      var b' := b.(storage := loop.0, writeCursor := loop.1, lastRead := false);
      WriteLoopSpec(b.storage, b.writeCursor, data[..n]);
      WriteShift(b, data[..n], b');
      Transfer(b', n, [])
  }

  /** Storing `d` at the write cursor and advancing past it appends `d` to the FIFO. */
  lemma WriteShift(b: Buffer, d: seq<byte>, b': Buffer)
    requires Valid(b) && 0 < |d| <= AvailableWrite(b)
    requires b' == b.(storage := WriteLoop(b.storage, b.writeCursor, d).0,
                      writeCursor := WriteLoop(b.storage, b.writeCursor, d).1,
                      lastRead := false)
    requires |WriteLoop(b.storage, b.writeCursor, d).0| == b.capacity
    requires WriteLoop(b.storage, b.writeCursor, d).1 == Slot(b.writeCursor, |d|, b.capacity)
    requires forall i :: 0 <= i < |d| ==>
      WriteLoop(b.storage, b.writeCursor, d).0[Slot(b.writeCursor, i, b.capacity)] == d[i]
    requires forall j :: |d| <= j < b.capacity ==>
      WriteLoop(b.storage, b.writeCursor, d).0[Slot(b.writeCursor, j, b.capacity)]
        == b.storage[Slot(b.writeCursor, j, b.capacity)]
    ensures Valid(b')
    ensures Contents(b') == Contents(b) + d
  {
    var cap := b.capacity;
    var k := AvailableRead(b);
    var s' := b'.storage;
    CursorGap(b);
    assert b'.writeCursor == Slot(b.readCursor, k + |d|, cap);
    GapIsAvailable(b', k + |d|);
    forall i | 0 <= i < k + |d|
      ensures Contents(b')[i] == (Contents(b) + d)[i]
    {
      if i < k {
        var j := cap - k + i;
        assert Slot(b.writeCursor, j, cap) == Slot(b.readCursor, i, cap);
        assert s'[Slot(b.readCursor, i, cap)] == b.storage[Slot(b.readCursor, i, cap)];
      } else {
        assert Slot(b.writeCursor, i - k, cap) == Slot(b.readCursor, i, cap);
        assert s'[Slot(b.readCursor, i, cap)] == d[i - k];
      }
    }
  }

  /** State set up by `comm_buffer_new` (buffer.c:129-139): owned storage of
      `capacity` bytes (allocated, content unspecified; zeros here), both
      cursors at 0 and `lastRead` set, so the buffer starts empty. */
  function New(capacity: nat): (r: Buffer)
    ensures Valid(r)
    ensures r.capacity == capacity && !r.wrapped
    ensures r.readCursor == 0 && r.writeCursor == 0 && r.lastRead
    ensures AvailableRead(r) == 0 && Contents(r) == []
    ensures AvailableWrite(r) == capacity
  {
    Buffer(seq(capacity, _ => 0), capacity, 0, 0, true, false)
  }

  /** `comm_buffer_set_storage` (buffer.c:154-174). `storage` is the caller's
      block of `capacity` bytes, or None for a null pointer. A null pointer with
      a nonzero capacity is refused and the buffer is left as it was. Otherwise
      the block replaces the storage, the cursors go to 0 and `empty` decides
      whether the block's bytes count as readable. */
  function SetStorage(b: Buffer, storage: Option<seq<byte>>, capacity: nat, empty: bool): (r: Result<Buffer>)
    requires storage.Some? ==> |storage.value| == capacity
    ensures r.Err? <==> storage.None? && capacity > 0
    ensures r.Err? ==> r.error == InvalidParameter
    ensures r.Ok? ==> Valid(r.value)
    ensures r.Ok? ==> r.value.capacity == capacity && r.value.wrapped == storage.Some?
    ensures r.Ok? ==> r.value.readCursor == 0 && r.value.writeCursor == 0 && r.value.lastRead == empty
    ensures r.Ok? ==> AvailableRead(r.value) == (if empty then 0 else capacity)
    ensures r.Ok? ==> AvailableWrite(r.value) == (if empty then capacity else 0)
    ensures r.Ok? && storage.Some? ==> Contents(r.value) == (if empty then [] else storage.value)
  {
    if storage.None? && capacity > 0 then Err(InvalidParameter)
    else
      var block := if storage.Some? then storage.value else [];
      var b' := Buffer(block, capacity, 0, 0, empty, storage.Some?);
      assert !empty ==> Contents(b') == block by {
        if !empty {
          forall i | 0 <= i < capacity ensures Contents(b')[i] == block[i] {
            assert Slot(0, i, capacity) == i;
          }
        }
      }
      Ok(b')
  }

  /** `comm_buffer_capacity` (buffer.c:176-178): the ring size, which is always
      what can be read plus what can be written. */
  function Capacity(b: Buffer): (r: nat)
    requires Valid(b)
    ensures r == AvailableRead(b) + AvailableWrite(b)
  {
    b.capacity
  }

  /** `comm_buffer_clear` (buffer.c:180-186): discards the content; the storage,
      its size and its ownership stay. */
  function Clear(b: Buffer): (r: Buffer)
    requires Valid(b)
    ensures Valid(r)
    ensures Contents(r) == [] && AvailableWrite(r) == b.capacity
    ensures r.storage == b.storage && r.capacity == b.capacity && r.wrapped == b.wrapped
  {
    b.(readCursor := 0, writeCursor := 0, lastRead := true)
  }
}
