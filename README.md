# StreamWrapper: the managed-stream bridge of Magick.NET

Magick.NET hands ImageMagick's native code a set of I/O callbacks (read,
write, seek, tell) that it implements on top of a .NET `System.IO.Stream`.
`StreamWrapper` is that bridge. Native memory blocks are reached through raw
addresses, and every byte passes through a private scratch buffer of
`BufferSize` = 8192 bytes that the wrapper owns and pins:

- a read asks the stream for `Min(remaining, 8192)` bytes at a time and
  copies each chunk from the scratch buffer to native memory;
- a write copies `Min(remaining, 8192)` bytes of native memory at a time into
  the scratch buffer and hands them to the stream;
- any exception the stream raises in a read, write or seek becomes `-1`.

The project has three modules:

- `StreamModel` (`stream_model.dfy`): the collaborator, a `Stream` class with
  contents, a position and the `CanRead`/`CanWrite`/`CanSeek` flags. It is a
  seekable stream that stores what is written at its position, as a memory
  or file stream does. Its `Read`, `Write`, `Seek` and `Position` contracts
  say:
  - a read returns at most the bytes asked for, zero only at the end, and
    exactly the bytes stored ahead of the position;
  - a write that goes through stores its bytes at the position and moves
    past them;
  - any call may raise, and a call that raises changes nothing.

  Their bodies are one admissible stream, an in-memory stream. Every read,
  write and seek is recorded in a ghost `trace`, so the bridge's contracts can
  speak of the calls it issues and what came of them; a query of `Position`
  changes nothing and is not recorded. `Ahead` gives the bytes a read finds
  next. `Splice` gives a stream's contents after a write, including growth
  past the end and a zero-filled gap.
- `Chunking` (`chunking.dfy`): the spec on values.
  - `WriteChunks` cuts a source into chunks.
  - `Written`/`WriteResult` and `Received`/`ReadResult` recognise the call
    sequences that a `Write` or `Read` session issues, and give the value that
    session returns.
  - `Delivered` is the bytes the calls delivered.
  - `AfterWrites` is the stream state after a sequence of calls.

  The lemmas prove what those sessions guarantee.
- `StreamBridge` (`stream_wrapper.dfy`): the class `StreamWrapper` itself.
  - The scratch buffer is an `array<byte>`, and native memory is an
    `array<byte>` indexed by the address `p`.
  - `FillBuffer` and `ReadBuffer` are the byte-by-byte copy loops.
  - `Read` and `Write` keep the `while (total > 0)` loops of the C# code.
    `ReadChunk` and `WriteChunk` are one iteration's body.
  - Each method is proved against the `Chunking` functions.

## Model

All source paths are in `Source/Magick.NET/Shared/Helpers/StreamWrapper.cs`.

| member | source | states |
|---|---|---|
| StreamBridge.StreamWrapper.constructor | Source/Magick.NET/Shared/Helpers/StreamWrapper.cs:29-35 | the wrapper holds the given stream and a fresh, pinned scratch buffer of exactly `BufferSize` bytes |
| StreamBridge.StreamWrapper.CreateForReading | Source/Magick.NET/Shared/Helpers/StreamWrapper.cs:37-42 | a wrapper is created if and only if the stream can read; otherwise the result is the `stream` argument error with the message "The stream should be readable." |
| StreamBridge.StreamWrapper.CreateForWriting | Source/Magick.NET/Shared/Helpers/StreamWrapper.cs:44-49 | a wrapper is created if and only if the stream can write; otherwise the result is the `stream` argument error with the message "The stream should be writeable." |
| StreamBridge.StreamWrapper.Dispose | Source/Magick.NET/Shared/Helpers/StreamWrapper.cs:51-58 | afterwards the stream is gone and the pin released; the pin is released exactly once over any number of calls; a second call changes nothing |
| StreamBridge.StreamWrapper.Read | Source/Magick.NET/Shared/Helpers/StreamWrapper.cs:61-94 | the result is `-1` or at most `count`, as `ReadResult` gives it for the calls issued. A `count` of 0 returns 0 with no stream call. On a disposed wrapper the result is `-1` and memory is untouched. The bytes delivered are the stream's next bytes and land in native memory from `data` on; nothing else changes. Whatever the result, the stream ends up past exactly the bytes delivered, so a `-1` leaves it past the chunks read before the failing read. A non-negative result is `Min(count, bytes left in the stream)` |
| StreamBridge.StreamWrapper.ReadAll | Source/Magick.NET/Shared/Helpers/StreamWrapper.cs:67-93 | the loop issues a call sequence that `ReadResult` accepts, returns its value, and leaves the delivered bytes, a prefix of the stream's remaining bytes, in memory from `data` on, and the stream past exactly them, also when the result is `-1`; the rest of memory is unchanged |
| StreamBridge.StreamWrapper.ReadChunk | Source/Magick.NET/Shared/Helpers/StreamWrapper.cs:72-90 | one iteration: a single read call of `length` bytes. If it raises, nothing moves. Otherwise it got at most `length` bytes, zero exactly at the end of the stream, and they are the stream's next bytes, copied to memory right after the earlier ones; the native address it returns has moved past them |
| StreamBridge.StreamWrapper.ReadBuffer | Source/Magick.NET/Shared/Helpers/StreamWrapper.cs:156-166 | copies exactly the first `length` bytes of the scratch buffer to memory from `p` on, returns `p + length`, and changes no other byte |
| StreamBridge.CopiedOn | Source/Magick.NET/Shared/Helpers/StreamWrapper.cs:86-88 | after the copy, memory holds the first `w + n` bytes read, from `data` on, and the original bytes elsewhere |
| StreamBridge.StreamWrapper.Seek | Source/Magick.NET/Shared/Helpers/StreamWrapper.cs:97-107 | on a disposed wrapper or when the stream raises: `-1` with the position unchanged; otherwise the stream's new position, which is the target of the offset from the origin. An invalid origin or a target before the start gives `-1` |
| StreamBridge.StreamWrapper.Tell | Source/Magick.NET/Shared/Helpers/StreamWrapper.cs:109-112 | the stream's position; an exception escapes (not `-1`) on a disposed wrapper and on a stream that cannot seek |
| StreamBridge.StreamWrapper.Write | Source/Magick.NET/Shared/Helpers/StreamWrapper.cs:115-142 | the result is `count` or `-1`, as `WriteResult` gives it for the calls issued. A `count` of 0 returns 0 with no stream call. On a disposed wrapper the result is `-1`. On success the stream holds the source bytes spliced in at its old position and has moved past them. On failure it holds the whole chunks before the failing one |
| StreamBridge.StreamWrapper.WriteAll | Source/Magick.NET/Shared/Helpers/StreamWrapper.cs:121-141 | the loop issues a call sequence that `WriteResult` accepts, returns its value, and leaves the stream in the state `AfterWrites` gives for those calls |
| StreamBridge.StreamWrapper.WriteChunk | Source/Magick.NET/Shared/Helpers/StreamWrapper.cs:125-138 | one iteration: the next chunk of the source goes to the stream in one call; if accepted, the write moves on by its length and the stream holds it; if not, the session's result is `-1` and the stream is unchanged; the native address it returns has moved on by `length`, as `FillBuffer` leaves it |
| StreamBridge.StreamWrapper.FillBuffer | Source/Magick.NET/Shared/Helpers/StreamWrapper.cs:144-154 | the first `length` bytes of the scratch buffer become exactly memory's bytes from `p` on; the rest of the buffer is unchanged; the result is `p + length` |
| Chunking.WriteChunks | Source/Magick.NET/Shared/Helpers/StreamWrapper.cs:123-141 | every chunk has 1 to `BufferSize` bytes, every chunk but the last is full, and there are no chunks exactly when there is no source |
| Chunking.FlattenWriteChunks | Source/Magick.NET/Shared/Helpers/StreamWrapper.cs:123-141 | the chunks put back together are the source: nothing is lost, duplicated or reordered |
| Chunking.WriteChunksCount | Source/Magick.NET/Shared/Helpers/StreamWrapper.cs:123-141 | a write of `n` bytes needs `ceil(n / 8192)` stream calls |
| Chunking.WriteChunksPrefix | Source/Magick.NET/Shared/Helpers/StreamWrapper.cs:123-141 | the first `k` chunks hold exactly the first `k * BufferSize` bytes, or all of them |
| Chunking.WriteChunksSplit | Source/Magick.NET/Shared/Helpers/StreamWrapper.cs:123-141 | writing `a + b` issues the same chunks as writing `a` and then `b`, when `a` fills whole buffers |
| Chunking.WriteChunksAt | Source/Magick.NET/Shared/Helpers/StreamWrapper.cs:123-141 | chunk `i` is the `i`-th block of `BufferSize` bytes of the source, or what is left of it |
| Chunking.NextChunk | Source/Magick.NET/Shared/Helpers/StreamWrapper.cs:125-127 | the next chunk has 1 to `BufferSize` bytes |
| Chunking.WrittenChunk | Source/Magick.NET/Shared/Helpers/StreamWrapper.cs:131-138 | an accepted chunk moves the write on by its length |
| Chunking.WrittenFailed | Source/Magick.NET/Shared/Helpers/StreamWrapper.cs:129-136 | a chunk the stream raised on ends the session with `-1` |
| Chunking.WrittenCalls | Source/Magick.NET/Shared/Helpers/StreamWrapper.cs:123-141 | after `k` accepted calls, `Min(k * BufferSize, count)` bytes went out, and call `i` carried chunk `i` |
| Chunking.WriteResultCalls | Source/Magick.NET/Shared/Helpers/StreamWrapper.cs:115-142 | a session returns `count` or `-1`. Call `i` carries chunk `i`. Every call is accepted except the last one of a failed session. A successful session makes exactly `ceil(count / 8192)` calls, and a failed one makes at least one |
| Chunking.WriteResultChunks | Source/Magick.NET/Shared/Helpers/StreamWrapper.cs:123-141 | the chunks a session issues are a prefix of `WriteChunks` of the source: all of them on success, which together are the source |
| Chunking.WriteResultFailure | Source/Magick.NET/Shared/Helpers/StreamWrapper.cs:129-136 | every call stays within the buffer; the result is `-1` exactly when some chunk was refused, and then only the last call was refused, so no chunk follows a failure |
| Chunking.WriteResultWritten | Source/Magick.NET/Shared/Helpers/StreamWrapper.cs:129-136 | what a failed session handed over in full before the failing chunk is the first `(calls - 1) * BufferSize` source bytes |
| Chunking.WrittenEffect | Source/Magick.NET/Shared/Helpers/StreamWrapper.cs:123-141 | accepted chunks leave the bytes written so far spliced into the stream at its old position, which ends up past them |
| Chunking.WriteStep | Source/Magick.NET/Shared/Helpers/StreamWrapper.cs:125-138 | one iteration on values: the stream state after the next chunk is what `AfterWrites` gives for the calls so far plus this one; an accepted chunk moves the session on by its length, a refused one ends it with `-1` |
| Chunking.WrittenExtend | Source/Magick.NET/Shared/Helpers/StreamWrapper.cs:131 | writing the next chunk after the first `w` bytes leaves the stream as writing the first `w` bytes plus that chunk at once |
| Chunking.WriteResultEffect | Source/Magick.NET/Shared/Helpers/StreamWrapper.cs:123-141 | a successful session leaves the source spliced into the stream; a failed one leaves the whole buffers before the failing chunk, or nothing if the first chunk failed, and chunks written before the failure stay |
| Chunking.ReceivedChunk | Source/Magick.NET/Shared/Helpers/StreamWrapper.cs:83-90 | a read that delivered bytes moves the session on by their number and appends them to what was delivered |
| Chunking.ReceivedMore | Source/Magick.NET/Shared/Helpers/StreamWrapper.cs:86-90 | a read that delivered the stream's next `n` bytes extends the delivered bytes to the first `w + n` bytes ahead |
| Chunking.ReceivedEnds | Source/Magick.NET/Shared/Helpers/StreamWrapper.cs:74-84 | a read that raised ends the session with `-1`; one that delivered nothing ends it with the count so far; neither adds bytes |
| Chunking.ReceivedBounded | Source/Magick.NET/Shared/Helpers/StreamWrapper.cs:70-90 | while a read session goes on, the count received equals the bytes delivered and stays at most `count`; every request is for 1 to `Min(count, BufferSize)` bytes and delivered something |
| Chunking.ReadSessionBounded | Source/Magick.NET/Shared/Helpers/StreamWrapper.cs:63-93 | a read session returns `-1` or at most `count`; a non-negative result is the number of bytes delivered; every request is for 1 to `Min(count, BufferSize)` bytes |
| Chunking.ReceivedPrefix | Source/Magick.NET/Shared/Helpers/StreamWrapper.cs:70-90 | every prefix of the calls of a read loop that goes on is itself such a sequence of calls |
| Chunking.ReceivedCount | Source/Magick.NET/Shared/Helpers/StreamWrapper.cs:83-86 | while a read session goes on, `bytesRead` equals the number of bytes delivered and stays at most `count` |
| Chunking.ReceivedRequest | Source/Magick.NET/Shared/Helpers/StreamWrapper.cs:70-90 | while a read session goes on, request `i` is for exactly `Min(count - bytes delivered by the earlier requests, BufferSize)` bytes |
| Chunking.ReadSessionRequest | Source/Magick.NET/Shared/Helpers/StreamWrapper.cs:70-90 | request `i` of a read session, its last included, is for exactly `Min(count - bytes delivered by the earlier requests, BufferSize)` bytes |
| Chunking.ReadSessionSentinel | Source/Magick.NET/Shared/Helpers/StreamWrapper.cs:74-81 | a read session returns `-1` if and only if one of its reads raised, and that read is its last, so no partial count is reported |
| Chunking.ReadSessionShort | Source/Magick.NET/Shared/Helpers/StreamWrapper.cs:83-93 | a session returns fewer than `count` bytes only after a read that delivered nothing, which is its last; every earlier read delivered bytes |
| StreamModel.Min | Source/Magick.NET/Shared/Helpers/StreamWrapper.cs:72 | `Math.Min`: the smaller of the two |
| StreamModel.Ahead | Source/Magick.NET/Shared/Helpers/StreamWrapper.cs:76 | the bytes a read finds from a position on: the rest of the contents, none at or past the end |
| StreamModel.AheadAfter | Source/Magick.NET/Shared/Helpers/StreamWrapper.cs:76 | reading `n` of the bytes ahead moves past exactly them |
| StreamModel.SpliceContents | Source/Magick.NET/Shared/Helpers/StreamWrapper.cs:131 | a write leaves the chunk at the position, the old contents elsewhere, zeros in a gap past the old end, and grows the stream only as far as the write reaches |
| StreamModel.SpliceLength | Source/Magick.NET/Shared/Helpers/StreamWrapper.cs:131 | after a write the stream is as long as before, or as long as the write reaches |
| StreamModel.SpliceAt | Source/Magick.NET/Shared/Helpers/StreamWrapper.cs:131 | each byte after a write: the chunk's byte inside the written range, the old byte elsewhere, zero in a gap |
| StreamModel.SpliceCompose | Source/Magick.NET/Shared/Helpers/StreamWrapper.cs:131 | two consecutive writes leave the stream as one write of both would |
| StreamModel.SpliceReadBack | Source/Magick.NET/Shared/Helpers/StreamWrapper.cs:76-88 | round trip: after a successful `Write` of `src` at a position, a `Read` of as many bytes as `src` holds from that position that returns a count (whose delivered bytes `Read` states are a prefix of the bytes ahead, `Min(count, bytes left)` of them) gets back exactly `src` |
| StreamModel.AfterWritesStep | Source/Magick.NET/Shared/Helpers/StreamWrapper.cs:131 | one more call: an accepted write splices its chunk in at the position and moves past it; a refused one changes nothing |
| StreamModel.SeekTarget | Source/Magick.NET/Shared/Helpers/StreamWrapper.cs:101 | the target of a seek: defined only for the origins 0 to 2; from the beginning, a non-negative offset is the target itself |
| StreamModel.Stream.Read | Source/Magick.NET/Shared/Helpers/StreamWrapper.cs:76 | the stream contract: at most the bytes asked for, zero only at the end, exactly the bytes ahead; a raise moves nothing; a stream that cannot read raises |
| StreamModel.Stream.Write | Source/Magick.NET/Shared/Helpers/StreamWrapper.cs:131 | the stream contract: an accepted write splices the chunk in and moves past it; a raise changes nothing; a stream that cannot write raises |
| StreamModel.Stream.Seek | Source/Magick.NET/Shared/Helpers/StreamWrapper.cs:101 | the stream contract: an invalid origin or a target before the start raises; otherwise, if it succeeds, it moves to the target and returns it |
| StreamModel.Stream.Position | Source/Magick.NET/Shared/Helpers/StreamWrapper.cs:111 | the position or, on a stream that cannot seek, a raise |

## Left out

- GC pinning (`GCHandle.Alloc`, `AddrOfPinnedObject`, `_Handle.Free`) is the boolean `pinned` and a ghost count of releases. The scratch buffer is a private array of its own, which native memory is never the same array as (`memory != buffer`). Nothing stops a call after `Dispose`: a `Write` on a disposed wrapper still copies its first chunk into the buffer, whose pin was released, before the stream call fails. The model records this copy but does not capture that the pinned address may no longer be valid.
- Raw native addresses (`byte*`, `IntPtr`) are indices into `array<byte>`, and the unused `user_data` parameters are dropped.
- StreamBridge.StreamWrapper.Read: requires `count <= int.MaxValue`. What the `(int)count` cast does with a larger `UIntPtr` depends on the platform and is not modelled. The same goes for `Write`.
- Exception types are not distinguished: every exception is the `Raised` outcome of the call that threw it. A disposed wrapper's `NullReferenceException` is modelled as that same outcome. It happens inside the try of `Read`, `Write` and `Seek`, so they return `-1`; in `Tell` it escapes.
- Real .NET streams are not modelled. The bridge's contracts rest only on the `Stream` contract, and the in-memory body is one instance of it. In this model a call that raises leaves the stream's contents and position unchanged.
- StreamModel.Stream.Write: a general `System.IO.Stream` promises only to accept the bytes and advance its position. The contract here is that of a seekable stream that stores the bytes at its position (a memory or file stream). The contents `StreamWrapper.Write` states and the round trip `SpliceReadBack` hold for such streams only; for a network or append-only stream the model states only the calls issued and the result.
- StreamBridge.StreamWrapper.Tell: states the position only when the getter returns one. A stream may raise from `Position` even when it can seek.
- StreamBridge.StreamWrapper.Seek: integers are unbounded. The `long` overflow of a seek target is left to the stream.
- The `(SeekOrigin)whence` cast is the integer `whence`. Origins other than 0, 1 and 2 make the stream raise, so `Seek` returns `-1`.
- Concurrency and the native caller are not modelled. The callbacks are called one at a time on a wrapper that satisfies `Valid()`, before or after `Dispose`.
