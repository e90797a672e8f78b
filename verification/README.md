# comm: a Dafny model of the buffer, the stream contract and the framing layers

This project models the core of the `comm` C library for byte-stream
communication.

- **Circular byte buffer** (`comm_buffer_*`): a ring of `capacity` bytes with a
  read cursor, a write cursor and a `lastRead` flag. The flag tells an empty
  ring from a full one when the cursors meet.
- **Stream contract** (`comm_stream_*`): one dispatch function per operation
  that calls the stream controller's callback, or behaves as a no-op when the
  callback is missing. Negative counts and failed flushes record the I/O error.
- **Forwarding wrapper**: every call on the wrapper goes to the wrapped stream.
  The wrapper's `close` goes to the wrapped stream's `flush`.
- **Packet framing** (`comm_packet_stream_*`): a packet on the wire is one length
  byte `L` followed by `L` payload bytes. The writer retries until each part is
  accepted. The reader either takes a whole packet per call (blocking) or runs
  a resumable state machine keyed on `totalRead` (non-blocking): -1 awaits a
  header and `0..L` counts the payload bytes received.
- **Line framing** (`comm_line_stream_*`): a line on the wire is its bytes
  followed by `'\n'`. The writer adds the delimiter unless the message already
  ends with one. The reader strips the delimiter and cuts the line to
  `lineMaxLen` bytes. In non-blocking mode it keeps the partial line between
  calls.

Everything is a pure function over immutable datatypes. Each C loop is a
recursive function that takes the same branches.

- **Ring.** Its meaning is `RingBuffer.Contents`, the readable bytes oldest
  first. Each operation is stated against that sequence.
- **Framing readers.** Each reader is compared with an independent reference
  decoder on whole byte streams: `NextPacket` and `PacketResume.Split` for
  packets, `LineResume.SplitLines` for lines.
- **Writers.** Each writer is stated by the exact wire image it appends:
  `PacketStream.Frame` and `LineStream.LineFrame`.

The framing layers run over one concrete inner stream, `Transport.Pipe`, in
place of the function-pointer polymorphism.

- **Reads** are all-or-nothing, as in the blocking read of the test harness.
  `Transport.BlockingRingIsPipe` shows that this is what a wrapped buffer with
  that read does. A `readFault` flag reaches the error paths.
- **Writes** accept as many bytes as the next entry of a `grants` list allows.
  A negative entry is a failed call, and running out of grants is a failure,
  so every retry loop ends.
- **Flush** reports `flushOk`.

The framing layers reach the pipe through a forwarding wrapper.
`Transport.WrappedPipeRead` and `Transport.WrappedPipeWriteFlush` show that
those calls are the pipe's own.

## Model

| member | source | states |
|---|---|---|
| `Bytes.CString` | src/comm/line_stream.c:121-123 | The string a C caller sees: the longest NUL-free prefix, ended by a NUL or by the end of the buffer. |
| `RingBuffer.Next` | src/comm/buffer.c:67-71 | One cursor step wraps to 0 at the end and never leaves the ring. |
| `RingBuffer.AvailableRead` | src/comm/buffer.c:39-49 | The readable count is at most the capacity, and is 0 exactly when the cursors meet after a read. |
| `RingBuffer.AvailableWrite` | src/comm/buffer.c:79-89 | The free count plus the readable count is always the capacity. |
| `RingBuffer.Contents` | src/comm/buffer.c:39-49 | The FIFO the ring holds has exactly `AvailableRead` bytes. |
| `RingBuffer.CursorGap` | src/comm/buffer.c:39-49 | The write cursor is always `AvailableRead` slots after the read cursor, modulo the capacity. |
| `RingBuffer.GapIsAvailable` | src/comm/buffer.c:39-49 | Conversely, a cursor gap of `k` slots with the matching `lastRead` flag means `k` readable bytes. |
| `RingBuffer.ReadLoopSpec` | src/comm/buffer.c:62-72 | The copy loop of a read visits `n` consecutive ring slots from the read cursor. It copies them only when there is an output buffer, and stops `n` slots further on. |
| `RingBuffer.WriteLoopSpec` | src/comm/buffer.c:102-108 | The copy loop of a write stores the bytes into `n` consecutive ring slots from the write cursor. It leaves every other slot alone. |
| `RingBuffer.Read` | src/comm/buffer.c:51-77 | A read moves `min(len, available)` bytes off the front of the FIFO, or only skips them for a null output buffer. A read that moves nothing changes nothing. A non-empty read sets `lastRead`. The invariant is kept. |
| `RingBuffer.ReadShift` | src/comm/buffer.c:62-74 | Advancing the read cursor by `n` readable slots drops exactly the first `n` bytes of the FIFO. |
| `RingBuffer.Write` | src/comm/buffer.c:91-112 | A write appends the first `min(len, free)` bytes to the FIFO and refuses the rest. A write that moves nothing changes nothing. A non-empty write clears `lastRead`. The invariant is kept. |
| `RingBuffer.WriteShift` | src/comm/buffer.c:102-110 | Storing bytes from the write cursor on and advancing past them appends exactly those bytes to the FIFO. |
| `RingBuffer.New` | src/comm/buffer.c:129-139 | A new buffer owns its storage, has both cursors at 0, and is empty with the whole capacity free. |
| `RingBuffer.SetStorage` | src/comm/buffer.c:154-174 | A null block with a nonzero capacity is refused with the invalid-parameter error. Otherwise the block is installed with cursors at 0, and `wrapped` says whether the block is the caller's. The block reads as empty or as full, as `empty` says, and when full its bytes are the FIFO. |
| `RingBuffer.Capacity` | src/comm/buffer.c:176-178 | The capacity is the readable count plus the free count. |
| `RingBuffer.Clear` | src/comm/buffer.c:180-186 | Clearing empties the FIFO and frees the whole capacity. Storage, size and ownership stay. |
| `RingTrace.Fifo` | src/comm/buffer.c:51-112 | For any sequence of reads and writes, across any wrap-around, the bytes read and then the bytes still buffered are the initial contents followed by every byte the writes accepted. |
| `RingTrace.WriteThenReadEmpties` | src/comm/buffer.c:91-112 | Writing up to `capacity` bytes into an empty ring and reading the same count back returns them and empties the ring again. |
| `RingTrace.WalkThroughFill` | test/src/test/buffer.c:140-153 | In a 15-byte ring, a 13-byte write is accepted whole, a read of 5 and then a read of 8 return the bytes in order, and the available counts are those the test checks. |
| `RingTrace.WalkThroughWrap` | test/src/test/buffer.c:155-166 | In an empty 15-byte ring, an 8-byte write is accepted whole and a 9-byte write is cut to 7 bytes. The reads then return the 8 bytes and the 7 accepted ones. |
| `RingTrace.FullStorage` | src/comm/buffer.c:62-72 | A full ring's storage is its FIFO rotated by the read cursor. |
| `RingTrace.WrapLayout` | test/src/test/buffer.c:161-162 | Starting at slot 13, the two writes leave the block holding `more[2..]`, then the 7 accepted bytes, then `more[..2]`. |
| `RingTrace.ReadWriteWalkThrough` | test/src/test/buffer.c:133-166 | The whole walk-through on a caller's 15-byte block installed as empty storage, including the block layout and every count and byte the test checks. |
| `Streams.AvailableRead` | src/comm/stream.c:110-117 | 0 without a controller or callback, otherwise the callback's value. |
| `Streams.Read` | src/comm/stream.c:119-131 | 0 bytes and no error without a callback. Otherwise the callback's count and bytes are passed through unchanged, and the I/O error is recorded exactly when the count is negative. |
| `Streams.AvailableWrite` | src/comm/stream.c:133-141 | 0 without a controller or callback, otherwise the callback's value. |
| `Streams.Write` | src/comm/stream.c:143-155 | 0 and no error without a callback. Otherwise the callback's count is passed through, and the I/O error is recorded exactly when the count is negative. |
| `Streams.Flush` | src/comm/stream.c:157-168 | Succeeds without a callback. Otherwise it fails, recording the I/O error, exactly when the callback fails. |
| `Streams.Close` | src/comm/stream.c:170-180 | Always reports success. The I/O error is recorded exactly when a close callback exists and fails. |
| `Streams.Wrap` | src/comm/stream.c:56-104 | A null wrapped stream, or a nonzero size below the wrapper struct, is refused with the invalid-parameter error. A failing `on_init` gives the unknown error. Otherwise the result is a forwarding wrapper around the stream. |
| `Streams.WrapperNew` | src/comm/_stream_wrapper.c:76-96 | A null wrapped stream is refused with the invalid-parameter error. Otherwise the result is a forwarding wrapper around it. |
| `Streams.ForwardsAvailable` | src/comm/_stream_wrapper.c:34-44 | The wrapper reports the wrapped stream's available read and write counts. |
| `Streams.ForwardsRead` | src/comm/_stream_wrapper.c:38-40 | A read through the wrapper returns the wrapped stream's count, bytes and error, and afterwards wraps the stream that read left. |
| `Streams.ForwardsWrite` | src/comm/_stream_wrapper.c:46-48 | A write through the wrapper is the wrapped stream's write, with the same count and error. |
| `Streams.ForwardsFlush` | src/comm/_stream_wrapper.c:50-52 | Flushing the wrapper flushes the wrapped stream and reports its result. |
| `Streams.CloseFlushesWrapped` | src/comm/_stream_wrapper.c:54-56 | Closing the wrapper flushes the wrapped stream instead of closing it. It always succeeds and records the error when that flush fails. |
| `Streams.VoidStream` | test/tests/stream.c:42-55 | A stream without a controller has nothing available, moves 0 bytes, and flushes and closes successfully without recording an error. |
| `Transport.Read` | test/src/test/buffer.c:34-41 | A pipe read asking for more than is queued fails and consumes nothing. Otherwise it returns exactly the requested bytes from the front of the queue. |
| `Transport.WrappedPipeRead` | src/comm/_stream_wrapper.c:38-40 | Reading a pipe through a wrapper is reading the pipe. |
| `Transport.WrappedPipeWriteFlush` | src/comm/_stream_wrapper.c:46-52 | Writing to a pipe and flushing it through a wrapper is writing to and flushing the pipe. |
| `Transport.RingFlushCloseAreNoOps` | src/comm/buffer.c:115-122 | The buffer's controller has no flush and no close, so both succeed and change nothing. |
| `Transport.RingStreamRead` | src/comm/buffer.c:115-122 | A read of a buffer through the public entry point moves `min(len, available)` bytes off the FIFO and never fails. |
| `Transport.BlockingRingIsPipe` | test/src/test/buffer.c:184-202 | Through a wrapper, the buffer with the blocking read installed returns the same count and bytes as a pipe queuing the buffer's contents, and keeps the same remaining bytes. |
| `PacketStream.Frame` | src/comm/packet_stream.c:79-97 | The wire image of a packet is its length byte followed by its payload. |
| `PacketStream.NextPacket` | src/comm/packet_stream.c:112-135 | The reference decoder returns a payload only when the stream begins with its complete frame. |
| `PacketStream.NextPacketOfFrame` | src/comm/packet_stream.c:79-97 | A frame followed by anything decodes to its own payload. |
| `PacketStream.Pending` | src/comm/packet_stream.c:37-39 | The partial packet is empty exactly while a header is awaited. Otherwise it is the header byte and `totalRead` payload bytes. |
| `PacketStream.New` | src/comm/packet_stream.c:49-68 | A null wrapped stream is refused with the invalid-parameter error. Otherwise the stream starts awaiting a header in the requested mode. |
| `PacketStream.SendHeader` | src/comm/packet_stream.c:79-82 | The header loop puts exactly the length byte on the wire, or nothing if an inner write fails. |
| `PacketStream.SendPayload` | src/comm/packet_stream.c:85-97 | However the inner writes split it, the payload loop puts exactly the payload on the wire. A failing write leaves a strict prefix of it. |
| `PacketStream.Payload` | src/comm/packet_stream.c:70-74 | The payload is the first `len` bytes of the caller's data. |
| `PacketStream.SendFrame` | src/comm/packet_stream.c:79-97 | On success the wire gains exactly the frame. An empty packet is the single byte 0. On failure the wire gains a strict prefix of the frame. |
| `PacketStream.Write` | src/comm/packet_stream.c:70-104 | A null payload with a nonzero length is refused with the invalid-parameter error. Otherwise the call succeeds exactly when the whole frame reaches the wire and the final flush succeeds. Any failure reports the I/O error. The wire always gains a prefix of the frame. |
| `PacketStream.Flushed` | src/comm/packet_stream.c:99 | A write's result is its final flush's result. |
| `PacketStream.ReadBlocking` | src/comm/packet_stream.c:112-135 | A blocking read consumes exactly the first packet's frame and returns its payload. If the input holds no complete packet, or reading fails, it returns null and ends awaiting a header. |
| `PacketStream.Ready` | src/comm/packet_stream.c:176-182 | A completed packet is handed out with the length in its header, and the stream goes back to awaiting a header. |
| `PacketStream.Pump` | src/comm/packet_stream.c:137-173 | The non-blocking loop keeps the state invariant `totalRead == -1` or `0 <= totalRead < buffer[0]`. It never touches the write side. A completion or an inner read error resets `totalRead` to -1. |
| `PacketStream.PayloadStep` | src/comm/packet_stream.c:152-170 | The payload turn keeps the same invariant. A zero-length packet completes right after its header. |
| `PacketStream.PumpSpec` | src/comm/packet_stream.c:137-173 | On a working transport the non-blocking reader never fails and returns the reference decoder's first packet of the pending bytes plus the input, leaving the input after it. Without a complete packet it returns null and moves all input into the partial packet. |
| `PacketStream.PayloadStepSpec` | src/comm/packet_stream.c:152-170 | The same agreement with the reference decoder, from the payload turn on. |
| `PacketStream.CompletesPayload` | src/comm/packet_stream.c:158-170 | When the input holds the rest of the payload, the packet completes and is the decoder's first packet. |
| `PacketStream.PartPayload` | src/comm/packet_stream.c:158-167 | When the input ends inside the payload, every input byte joins the partial packet and the result is null. |
| `PacketStream.PendingGrows` | src/comm/packet_stream.c:159-166 | Storing freshly read payload bytes moves them from the input to the partial packet, so the unread stream is unchanged. |
| `PacketStream.ReadyIsNext` | src/comm/packet_stream.c:169-170 | A partial packet that has reached its header's length is the decoder's first packet. |
| `PacketStream.NotYet` | src/comm/packet_stream.c:171-173 | A partial packet short of its header's length does not decode. |
| `PacketStream.Read` | src/comm/packet_stream.c:106-187 | A read in either mode keeps the state invariant and never touches the write side. |
| `PacketStream.ReadSpec` | src/comm/packet_stream.c:106-187 | In either mode, on a working transport, the packet handed out is the reference decoder's first packet of what is unread, and the input after it stays unread. |
| `PacketResume.Split` | src/comm/packet_stream.c:138-173 | The reference decoder of a whole stream leaves a tail that holds no complete packet. |
| `PacketResume.Drain` | src/comm/packet_stream.c:138-173 | Reading until the null result keeps the state invariant and the mode. |
| `PacketResume.PendingFits` | src/comm/packet_stream.c:176-182 | Handing out a packet consumes at least one input byte. |
| `PacketResume.Feed` | src/comm/packet_stream.c:138-173 | Feeding input in chunks with reads in between keeps the state invariant. |
| `PacketResume.DrainSpec` | src/comm/packet_stream.c:138-173 | Reading until the null result returns exactly the complete packets of what was unread, in order, and keeps the incomplete tail as the partial packet. |
| `PacketResume.SplitAppend` | src/comm/packet_stream.c:138-173 | Decoding a concatenation is decoding the first part, then its incomplete tail followed by the second part. |
| `PacketResume.FeedSpec` | src/comm/packet_stream.c:138-173 | Chunks of any size, with reads in between, yield exactly the packets of the whole input in order. The incomplete tail stays pending. |
| `PacketResume.ChunkingIsInvisible` | src/comm/packet_stream.c:138-173 | The same packets come out whether the input arrives in chunks or all at once. |
| `PacketResume.SplitOfFrame` | src/comm/packet_stream.c:79-97 | A frame in front of anything decodes to its payload and then the packets of the rest. |
| `PacketResume.FramesDecode` | src/comm/packet_stream.c:79-97 | Frames sent back to back decode to the packets sent, in order. |
| `PacketResume.PacketsSurviveChunking` | src/comm/packet_stream.c:70-173 | Packets written back to back and delivered in any chunks to an idle non-blocking reader are read back in order, with nothing left pending. |
| `PacketResume.WriteThenRead` | src/comm/packet_stream.c:70-187 | Whatever a successful write appends to the wire is read back as the same payload by an idle reader in either mode. |
| `LineStream.Inc16` | src/comm/line_stream.c:125 | The 16-bit counter increment wraps to 0 only past 65535. |
| `LineStream.New` | src/comm/line_stream.c:43-62 | A maximum length of 0 or above 65534 is refused with the invalid-parameter error, and so is a null wrapped stream. Otherwise the stream starts with an empty line in the requested mode. |
| `LineStream.Message` | src/comm/line_stream.c:75-81 | A null message is the empty string. Otherwise the message is the bytes before the first NUL. |
| `LineStream.LineFrame` | src/comm/line_stream.c:91-97 | The wire image of a message always ends with the delimiter. It equals the message exactly when the message already ends with one, and otherwise has the delimiter appended. |
| `LineStream.SendBytes` | src/comm/line_stream.c:81-89 | The byte loop puts exactly the message on the wire, retrying a write that accepted nothing. A failing write leaves a strict prefix. |
| `LineStream.Write` | src/comm/line_stream.c:74-103 | The call succeeds exactly when the whole line image reaches the wire and the final flush succeeds. The wire always gains a prefix of it, and the read side is untouched. |
| `LineStream.Accept` | src/comm/line_stream.c:125-130 | Keeping a non-delimiter byte extends the stored line by it, cut to `lineMaxLen`. `totalRead` never passes `lineMaxLen`. |
| `LineStream.Terminate` | src/comm/line_stream.c:121-122 | The delimiter's slot becomes NUL and the stored line is unchanged. |
| `LineStream.Scan` | src/comm/line_stream.c:134-154 | The non-blocking loop keeps the invariant. It fails exactly on a faulty transport with input pending, and then leaves the state as it was, with `totalRead` unchanged. A line handed out resets the count to 0 and reads as that line in C. |
| `LineStream.ScanFound` | src/comm/line_stream.c:134-145 | With a delimiter in the input, the non-blocking read returns the kept partial line followed by the input before the delimiter, cut to `lineMaxLen`. The input after the delimiter stays unread. |
| `LineStream.ScanMissing` | src/comm/line_stream.c:134-154 | Without a delimiter, the non-blocking read returns null without error and keeps all the input, cut to `lineMaxLen`, as the partial line. |
| `LineStream.TerminatedString` | src/comm/line_stream.c:121-123 | The buffer with NUL at the count reads in C as the stored line. |
| `LineStream.Collect` | src/comm/line_stream.c:115-132 | The blocking loop keeps the invariant and fails exactly when it returns null. A line handed out stays stored and reads as that line in C. |
| `LineStream.CollectFound` | src/comm/line_stream.c:115-132 | With a delimiter in the input, the blocking loop returns the stored bytes followed by the input before the delimiter, cut to `lineMaxLen`. The input after it stays unread. |
| `LineStream.CollectMissing` | src/comm/line_stream.c:115-132 | Without a delimiter, the blocking loop fails once the input runs out. |
| `LineStream.ReadBlocking` | src/comm/line_stream.c:111-132 | A blocking read fails exactly on a faulty transport or when no delimiter arrives. Otherwise it returns the input before the first delimiter, without any earlier partial line, cut to `lineMaxLen`, and leaves the input after the delimiter unread. |
| `LineStream.Read` | src/comm/line_stream.c:105-159 | A read in either mode keeps the invariant and never touches the write side. A failed read returns null. |
| `LineStream.ReadSpec` | src/comm/line_stream.c:105-159 | On a working transport a line comes out exactly when the input holds a delimiter. It is the input before that delimiter, preceded in non-blocking mode by the kept partial line, cut to `lineMaxLen`. The input after the delimiter stays unread. |
| `LineResume.SplitLines` | src/comm/line_stream.c:134-154 | The reference splitter's undelimited tail holds no delimiter. |
| `LineResume.ClampAll` | src/comm/line_stream.c:147-151 | Cutting every line keeps the number of lines. |
| `LineResume.Drain` | src/comm/line_stream.c:134-154 | Reading until the null result keeps the invariant, the mode and the maximum length. |
| `LineResume.Feed` | src/comm/line_stream.c:134-154 | Feeding input in chunks with reads in between keeps the invariant. |
| `LineResume.DrainSpec` | src/comm/line_stream.c:134-154 | Reading until the null result returns the delimited lines of what was unread, in order, each cut to `lineMaxLen`. The cut undelimited tail is kept as the partial line. |
| `LineResume.SplitLinesAppend` | src/comm/line_stream.c:134-154 | Splitting a concatenation is splitting the first part, then its undelimited tail followed by the second part. |
| `LineResume.SplitLinesAfter` | src/comm/line_stream.c:141-147 | A delimiter-free kept line becomes the front of the first line completed. |
| `LineResume.ClampedTail` | src/comm/line_stream.c:147-151 | Cutting the kept partial line to `lineMaxLen` before more input arrives changes no line handed out. |
| `LineResume.FeedSpec` | src/comm/line_stream.c:134-154 | Chunks of any size, with reads in between, yield exactly the delimited lines of the whole input in order, each cut to `lineMaxLen`. The cut undelimited tail stays kept. |
| `LineResume.ChunkingIsInvisible` | src/comm/line_stream.c:134-154 | The same lines come out whether the input arrives in chunks or all at once. |
| `LineResume.SplitLinesOfLine` | src/comm/line_stream.c:91-97 | A delimiter-free line and its delimiter split off as that line. |
| `LineResume.LineFramesSplit` | src/comm/line_stream.c:74-97 | Delimiter-free lines sent back to back split back into those lines, in order. |
| `LineResume.LinesSurviveChunking` | src/comm/line_stream.c:74-154 | Lines written back to back and delivered in any chunks to a non-blocking reader with no partial line are read back in order, each cut to `lineMaxLen`. |
| `LineResume.WrittenLine` | src/comm/line_stream.c:74-99 | A successful write of a delimiter-free message adds the message and one delimiter to the wire. |
| `LineResume.ReadsFirstLine` | src/comm/line_stream.c:105-159 | A reader in either mode with no partial line returns the first delimiter-free line of its input, cut to `lineMaxLen`. |
| `LineResume.WriteThenRead` | src/comm/line_stream.c:74-159 | Whatever a successful write of a delimiter-free message appends to the wire is read back as that message, cut to `lineMaxLen`, by a reader in either mode with no partial line. |

## Left out

- Object lifecycle:
  - allocation, and allocation failure (out-of-memory results);
  - `on_init`/`on_deinit` callbacks, apart from the `on_init` outcome that `Streams.Wrap` takes as a parameter;
  - the controller and user-data parameters of `comm_buffer_new`, and freeing storage in `comm_buffer_set_storage` (src/comm/buffer.c:162-164);
  - the line buffer allocated in src/comm/line_stream.c:60, which is assumed to succeed because the code does not check it.

  All of these are memory management, not stream behaviour.
- The buffer's storage after `comm_buffer_new`, and the framing buffers at creation, are unspecified in C. They are modelled as zeros, which no operation observes.
- The global last-error slot is modelled as an error value returned by each call. The macro that sets it is not part of this model, so the model does not derive which code wins when two are set in one call. The one such case it does decide is `PacketStream.Write`. A null payload with a nonzero length sets the invalid-parameter code at src/comm/packet_stream.c:72, and then the I/O code at line 102. The model keeps the invalid-parameter code, which test/tests/packet_stream.c:180-181 expects.
- LineStream.Write returns no error field. A false result always comes with the I/O error that the stream entry points record for a failed inner write or flush (src/comm/stream.c:148-150, 161-163), and the line writer sets no error of its own.
- RingBuffer.SetStorage installs the caller's block as a value. Writes the caller makes to that block afterwards, outside the buffer's operations, are not seen by the model; a byte array shared between the buffer and its owner is not modelled.
- Integer widths are left out, with two exceptions that are written out: the 16-bit line counter (`LineStream.Inc16`) and the one-byte packet length (`len < 256`). Elsewhere counts are unbounded, because the 32-bit counts never wrap for the sizes involved.
- Busy waiting is left out:
  - The inner stream is `Transport.Pipe`, whose reads deliver all requested bytes or fail, so every read that returns 0 and is retried runs once. This covers the blocking header and payload loops of src/comm/packet_stream.c:116-133 and the `read == 0` branches of src/comm/line_stream.c:119, 139 and src/comm/packet_stream.c:145, 161.
  - Retrying writes end because the `grants` list is finite.
  - A transport that accepts nothing forever is not modelled.
- The pointer the readers return is only valid until the next read. The model returns the line or packet as a value, and states the C string view through `Bytes.CString`.
- LineStream.Scan: a read fault is modelled only at the first inner read of a call. `Transport.Pipe` has one `readFault` flag, so either every read of a call fails or none does. A failing non-blocking line read therefore leaves the state as it was. In C, a read can fail after `j` bytes of the same call were stored (src/comm/line_stream.c:134-152); it then returns null with those bytes kept and `totalRead` advanced by `j`. The model cannot reach that state.
- PacketStream.Pump: for the same reason, a header read followed by a failing payload read in the same call (src/comm/packet_stream.c:143-163) is not reached. On any failure the model resets `totalRead` to -1, as the code does at line 185.
- `PacketResume.Feed` and `LineResume.Feed` are stated for a working transport. Inner read errors are covered per call by `PacketStream.Pump` and `LineStream.Scan`.
- `PacketStream.Read`: its own contract covers only the invariant and the untouched write side. What it hands out is stated by `PacketStream.ReadSpec`, because stating it on the function made its proof too costly.
- `LineStream.Read`: its own contract covers the invariant and the null result on failure. Which line it hands out is stated by `LineStream.ReadSpec`, for the same reason.
- The header/definition signature mismatches and the vtable layout of the controllers are left out. Each controller is a record of optional functions.
- After a successful blocking line read, `totalRead` stays at the stored line's length (src/comm/line_stream.c:112-130). It is not returned to 0 until the next blocking read, at line 112. `LineStream.Collect` keeps the line stored in the same way.
