/** The stream bridge: `StreamWrapper` adapts a `Stream` to the read, write,
    seek and tell callbacks the native image library calls.  Native memory
    blocks are arrays, and a native address is an index into one. */
module StreamBridge {
  import opened StreamModel
  import opened Chunking

  /** What a factory returns: a wrapper, or the `ArgumentException` that
      `Throw.IfFalse` raises for a stream of the wrong direction. */
  datatype Construction =
    | Created(wrapper: StreamWrapper)
    | InvalidMode(paramName: string, message: string)

  /** Native memory that held the first `w` bytes of `src` from index
      `data` on and `orig` elsewhere (`m0`) holds the first `w + n` bytes
      of `src` from there once the first `n` bytes of `chunk`, which are
      the next `n` of `src`, are copied right after them. */
  lemma CopiedOn(memory: array<byte>, m0: seq<byte>, orig: seq<byte>, data: nat, src: seq<byte>, w: nat, chunk: array<byte>, n: nat)
    requires memory.Length == |m0| == |orig| && data + w + n <= |orig| && n <= chunk.Length && w + n <= |src|
    requires chunk[..n] == src[w..w + n]
    requires forall i :: 0 <= i < |m0| ==> m0[i] == if data <= i < data + w then src[i - data] else orig[i]
    requires forall i :: 0 <= i < memory.Length ==> memory[i] == if data + w <= i < data + w + n then chunk[i - (data + w)] else m0[i]
    ensures forall i :: 0 <= i < memory.Length ==>
      memory[i] == if data <= i < data + w + n then src[i - data] else orig[i]
  {
    assert forall k :: 0 <= k < n ==> chunk[k] == chunk[..n][k];
  }

  class StreamWrapper {
    /** `_Buffer`, the scratch buffer every chunk passes through. */
    const buffer: array<byte>
    /** Whether `_Handle` still pins `buffer`. */
    var pinned: bool
    /** How many times the pin has been released. */
    ghost var releases: nat
    /** `_Stream`; null once the wrapper is disposed. */
    var stream: Stream?

    /** The buffer has `BufferSize` bytes; it is pinned exactly while a
        stream is attached, and its pin is released once at most. */
    ghost predicate Valid()
      reads this
    {
      && buffer.Length == BufferSize
      && (pinned <==> stream != null)
      && releases == (if pinned then 0 else 1)
    }

    constructor (stream: Stream)
      ensures Valid() && fresh(buffer)
      ensures this.stream == stream && pinned
    {
      this.stream := stream;
      buffer := new byte[BufferSize];
      pinned := true;
      releases := 0;
    }

    static method CreateForReading(stream: Stream) returns (r: Construction)
      ensures r.Created? <==> stream.CanRead
      ensures r.Created? ==> fresh(r.wrapper) && fresh(r.wrapper.buffer) && r.wrapper.Valid() && r.wrapper.stream == stream
      ensures r.InvalidMode? ==> r == InvalidMode("stream", "The stream should be readable.")
    {
      if !stream.CanRead {
        return InvalidMode("stream", "The stream should be readable.");
      }
      var w := new StreamWrapper(stream);
      return Created(w);
    }

    static method CreateForWriting(stream: Stream) returns (r: Construction)
      ensures r.Created? <==> stream.CanWrite
      ensures r.Created? ==> fresh(r.wrapper) && fresh(r.wrapper.buffer) && r.wrapper.Valid() && r.wrapper.stream == stream
      ensures r.InvalidMode? ==> r == InvalidMode("stream", "The stream should be writeable.")
    {
      if !stream.CanWrite {
        return InvalidMode("stream", "The stream should be writeable.");
      }
      var w := new StreamWrapper(stream);
      return Created(w);
    }

    /** Releases the pin and drops the stream, the first time only; the
        stream itself is left open and untouched. */
    method Dispose()
      requires Valid()
      modifies this
      ensures Valid()
      ensures stream == null && !pinned && releases == 1
      ensures old(stream) == null ==> unchanged(this)
      ensures old(stream) != null ==> releases == old(releases) + 1
    {
      if stream == null {
        return;
      }
      pinned := false;
      releases := releases + 1;
      stream := null;
    }

    /** The read callback: fills at most `count` bytes of native memory
        from index `data` on with what the stream yields next. */
    method Read(memory: array<byte>, data: nat, count: nat) returns (r: int)
      requires Valid()
      requires count <= IntMaxValue
      requires data + count <= memory.Length
      requires memory != buffer
      modifies memory, buffer, stream
      ensures Valid()
      ensures r == -1 || 0 <= r <= count
      ensures count == 0 ==> r == 0 && unchanged(memory) && (stream != null ==> unchanged(stream))
      ensures stream == null ==> r == (if count == 0 then 0 else -1) && unchanged(memory)
      ensures stream != null ==>
        && stream.data == old(stream.data)
        && |old(stream.trace)| <= |stream.trace|
        && stream.trace[..|old(stream.trace)|] == old(stream.trace)
        && ReadResult(count, stream.trace[|old(stream.trace)|..]) == Some(r)
      ensures stream != null ==>
        var got := Delivered(stream.trace[|old(stream.trace)|..]);
        && |got| <= count
        && got <= Ahead(stream.data, old(stream.pos))
        && stream.pos == old(stream.pos) + |got|
        && forall i :: 0 <= i < memory.Length ==> memory[i] == if data <= i < data + |got| then got[i - data] else old(memory[i])
      ensures stream != null && r >= 0 ==>
        && r == Min(count, |Ahead(stream.data, old(stream.pos))|)
        && r == |Delivered(stream.trace[|old(stream.trace)|..])|
        && stream.pos == old(stream.pos) + r
    {
      if count == 0 {
        if stream != null {
          TraceSuffix(stream.trace, []);
        }
        return 0;
      }
      // On a disposed wrapper `_Stream.Read` raises inside the try in the
      // first iteration, before anything is read or copied.
      if stream == null {
        return -1;
      }
      ghost var log0 := stream.trace;
      ghost var calls;
      r, calls := ReadAll(memory, data, count);
      TraceSuffix(log0, calls);
      ReadSessionBounded(count, calls, r);
    }

    /** The loop of `Read`, for a wrapper with a stream and a positive
        count; `calls` are the stream calls it makes. */
    method ReadAll(memory: array<byte>, data: nat, count: nat) returns (r: int, ghost calls: seq<StreamCall>)
      requires buffer.Length == BufferSize && stream != null
      requires 0 < count <= IntMaxValue
      requires data + count <= memory.Length
      requires memory != buffer
      modifies memory, buffer, stream
      ensures stream.trace == old(stream.trace) + calls
      ensures stream.data == old(stream.data)
      ensures ReadResult(count, calls) == Some(r)
      ensures |Delivered(calls)| <= count
      ensures Delivered(calls) <= Ahead(stream.data, old(stream.pos))
      ensures stream.pos == old(stream.pos) + |Delivered(calls)|
      ensures forall i :: 0 <= i < memory.Length ==>
        memory[i] == if data <= i < data + |Delivered(calls)| then Delivered(calls)[i - data] else old(memory[i])
      ensures r >= 0 ==>
        && r == Min(count, |Ahead(stream.data, old(stream.pos))|)
        && stream.pos == old(stream.pos) + r
    {
      var s := stream;
      var total := count;
      var p := data;
      var bytesRead := 0;
      ghost var pos0, log0, orig := s.pos, s.trace, memory[..];
      ghost var ahead := Ahead(s.data, pos0);
      calls := [];

      while total > 0
        invariant 0 <= total <= count && bytesRead == count - total && p == data + bytesRead
        invariant s.data == old(s.data) && s.pos == pos0 + bytesRead && bytesRead <= |ahead|
        invariant s.trace == log0 + calls
        invariant Received(count, calls) == Some(bytesRead)
        invariant Delivered(calls) == ahead[..bytesRead]
        invariant forall i :: 0 <= i < memory.Length ==> memory[i] == if data <= i < p then ahead[i - data] else orig[i]
      {
        var length := Min(total, BufferSize);
        var got, next;
        ghost var call;
        got, next, call := ReadChunk(s, memory, p, length, data, pos0, bytesRead, ahead, orig);
        TraceExtend(log0, calls, call);
        if got.Raised? {
          ReceivedEnds(count, calls, bytesRead, call);
          return -1, calls + [call];
        }
        length := got.value;
        if length == 0 {
          ReceivedEnds(count, calls, bytesRead, call);
          calls := calls + [call];
          break;
        }
        ReceivedMore(count, calls, bytesRead, call, ahead, length);
        calls := calls + [call];
        bytesRead := bytesRead + length;
        p := next;
        total := total - length;
      }
      return bytesRead, calls;
    }

    /** One iteration of the loop of `Read`, after the first `w` of the
        bytes `ahead` of the stream at position `pos0` arrived at native
        memory from index `data` on: a stream read of `length` bytes into
        the scratch buffer and, when it delivered any, their copy to native
        memory right after the earlier ones, which moves the native address
        on to `next`.  `call` is the stream call made. */
    method ReadChunk(s: Stream, memory: array<byte>, p: nat, length: nat,
                     ghost data: nat, ghost pos0: nat, ghost w: nat, ghost ahead: seq<byte>, ghost orig: seq<byte>)
      returns (got: Result<nat>, next: nat, ghost call: StreamCall)
      requires buffer.Length == BufferSize && memory != buffer
      requires 0 < length <= BufferSize && p + length <= memory.Length
      requires ahead == Ahead(s.data, pos0) && p == data + w && s.pos == pos0 + w && w <= |ahead|
      requires memory.Length == |orig|
      requires forall i :: 0 <= i < memory.Length ==> memory[i] == if data <= i < p then ahead[i - data] else orig[i]
      modifies memory, buffer, s
      ensures s.data == old(s.data)
      ensures s.trace == old(s.trace) + [call]
      ensures call.ReadCall? && call.requested == length
      ensures got.Raised? ==> call.delivered == Raised && s.pos == old(s.pos) && unchanged(memory)
      ensures got.Ok? ==>
        && got.value <= length
        && w + got.value <= |ahead|
        && (got.value == 0 <==> w == |ahead|)
        && s.pos == pos0 + (w + got.value)
        && call.delivered == Ok(ahead[w..w + got.value])
        && (got.value == 0 ==> call.delivered == Ok([]))
        && next == p + got.value
        && forall i :: 0 <= i < memory.Length ==> memory[i] == if data <= i < p + got.value then ahead[i - data] else orig[i]
    {
      AheadAfter(s.data, pos0, w);
      next := p;
      got := s.Read(buffer, length);
      if got.Raised? {
        call := ReadCall(length, Raised);
      } else {
        assert buffer[..got.value] == ahead[w..][..got.value] == ahead[w..w + got.value];
        call := ReadCall(length, Ok(buffer[..got.value]));
        if got.value > 0 {
          ghost var m0 := memory[..];
          next := ReadBuffer(memory, p, got.value);
          CopiedOn(memory, m0, orig, data, ahead, w, buffer, got.value);
        }
      }
    }

    /** `ReadBuffer`: copies the first `length` bytes of the scratch
        buffer to native memory from index `p` on and returns the index
        after the last byte copied. */
    method ReadBuffer(memory: array<byte>, p: nat, length: nat) returns (next: nat)
      requires buffer.Length == BufferSize
      requires memory != buffer
      requires length <= BufferSize && p + length <= memory.Length
      modifies memory
      ensures next == p + length
      ensures forall i :: 0 <= i < memory.Length ==> memory[i] == if p <= i < next then buffer[i - p] else old(memory[i])
    {
      var q := 0;
      var n := length;
      next := p;
      while n > 0
        invariant 0 <= n <= length && q == length - n && next == p + q
        invariant forall i :: 0 <= i < q ==> memory[p + i] == buffer[i]
        invariant forall i :: 0 <= i < memory.Length && !(p <= i < next) ==> memory[i] == old(memory[i])
      {
        memory[next] := buffer[q];
        next, q := next + 1, q + 1;
        n := n - 1;
      }
    }

    /** The write callback: hands `count` bytes of native memory from index
        `data` on to the stream, chunk by chunk through the scratch buffer. */
    method Write(memory: array<byte>, data: nat, count: nat) returns (r: int)
      requires Valid()
      requires count <= IntMaxValue
      requires data + count <= memory.Length
      requires memory != buffer
      modifies buffer, stream
      ensures Valid()
      ensures r == -1 || r == count
      ensures count == 0 ==> r == 0 && (stream != null ==> unchanged(stream))
      ensures stream == null ==> r == (if count == 0 then 0 else -1)
      ensures stream != null ==>
        && |old(stream.trace)| <= |stream.trace|
        && stream.trace[..|old(stream.trace)|] == old(stream.trace)
      ensures stream != null && 0 < count ==>
        var calls := stream.trace[|old(stream.trace)|..];
        && WriteResult(memory[data..data + count], calls) == Some(r)
        && State(stream.data, stream.pos) == AfterWrites(State(old(stream.data), old(stream.pos)), calls)
      ensures stream != null && 0 < count && r == count ==>
        stream.data == Splice(old(stream.data), old(stream.pos), memory[data..data + count]) && stream.pos == old(stream.pos) + count
      ensures stream != null && 0 < count && r == -1 ==>
        var written := (|stream.trace| - |old(stream.trace)| - 1) * BufferSize;
        && written < count
        && (written == 0 ==> stream.data == old(stream.data) && stream.pos == old(stream.pos))
        && (written > 0 ==> stream.data == Splice(old(stream.data), old(stream.pos), memory[data..data + written]) && stream.pos == old(stream.pos) + written)
    {
      if count == 0 {
        return 0;
      }
      if stream == null {
        // On a disposed wrapper the first chunk is copied and then
        // `_Stream.Write` raises inside the try.  The copy goes through
        // the buffer's old address although its pin was already released.
        var _ := FillBuffer(memory, data, Min(count, BufferSize));
        return -1;
      }
      ghost var log0, st0 := stream.trace, State(stream.data, stream.pos);
      ghost var src := memory[data..data + count];
      ghost var calls;
      r, calls := WriteAll(memory, data, count, src);
      TraceSuffix(log0, calls);
      WriteResultEffect(src, calls, r, st0);
      if r == -1 {
        ghost var written := (|calls| - 1) * BufferSize;
        assert written < count;
        assert memory[data..data + count] == src;
        assert src[..written] == memory[data..data + written];
      }
    }

    /** `Write`'s loop on an attached stream: chunk after chunk of `src`,
        the `count` bytes of native memory from index `data` on, through
        the scratch buffer until all went out or the stream raised; `calls`
        are the stream calls it made. */
    method WriteAll(memory: array<byte>, data: nat, count: nat, ghost src: seq<byte>)
      returns (r: int, ghost calls: seq<StreamCall>)
      requires Valid() && stream != null
      requires 0 < count <= IntMaxValue
      requires data + count <= memory.Length && src == memory[data..data + count]
      requires memory != buffer
      modifies buffer, stream
      ensures r == -1 || r == count
      ensures stream.trace == old(stream.trace) + calls
      ensures WriteResult(src, calls) == Some(r)
      ensures State(stream.data, stream.pos) == AfterWrites(State(old(stream.data), old(stream.pos)), calls)
    {
      var s := stream;
      var total := count;
      var p := data;
      ghost var log0, st0 := s.trace, State(s.data, s.pos);
      calls := [];

      while total > 0
        invariant 0 <= total <= count && p == data + (count - total)
        invariant forall j :: data <= j < data + count ==> memory[j] == src[j - data]
        invariant s.trace == log0 + calls
        invariant Written(src, calls) == Some(count - total)
        invariant State(s.data, s.pos) == AfterWrites(st0, calls)
      {
        var length := Min(total, BufferSize);
        ghost var w, before := count - total, State(s.data, s.pos);
        var next, accepted := WriteChunk(s, memory, p, length, src, w, calls);
        p := next;
        ghost var call := WriteCall(NextChunk(src, w), accepted);
        WriteStep(st0, src, calls, w, accepted, before, State(s.data, s.pos));
        TraceExtend(log0, calls, call);
        calls := calls + [call];
        if !accepted {
          return -1, calls;
        }
        total := total - length;
      }

      assert Written(src, calls) == Some(|src|);
      return count, calls;
    }

    /** One iteration of `Write`'s loop, after the first `w` bytes of `src`
        went out in `calls`: copies the next `length` bytes of native memory,
        which are the next chunk of `src`, into the scratch buffer, moving
        the native address on to `next`, and hands them to the stream. */
    method WriteChunk(s: Stream, memory: array<byte>, p: nat, length: nat,
                      ghost src: seq<byte>, ghost w: nat, ghost calls: seq<StreamCall>) returns (next: nat, accepted: bool)
      requires Valid() && s == stream
      requires memory != buffer
      requires Written(src, calls) == Some(w) && w < |src| && length == Min(|src| - w, BufferSize)
      requires p + length <= memory.Length && forall j :: p <= j < p + length ==> memory[j] == src[w + (j - p)]
      modifies buffer, s
      ensures next == p + length
      ensures s.trace == old(s.trace) + [WriteCall(NextChunk(src, w), accepted)]
      ensures accepted ==> s.data == Splice(old(s.data), old(s.pos), NextChunk(src, w)) && s.pos == old(s.pos) + length
      ensures !accepted ==> s.data == old(s.data) && s.pos == old(s.pos)
      ensures accepted ==> Written(src, calls + [WriteCall(NextChunk(src, w), true)]) == Some(w + length)
      ensures !accepted ==> WriteResult(src, calls + [WriteCall(NextChunk(src, w), false)]) == Some(-1)
    {
      next := FillBuffer(memory, p, length);
      assert buffer[..length] == NextChunk(src, w);
      accepted := s.Write(buffer, length);
      if accepted {
        WrittenChunk(src, w, calls);
      } else {
        WrittenFailed(src, w, calls);
      }
    }

    /** `FillBuffer`: copies `length` bytes of native memory from index `p`
        on into the front of the scratch buffer and returns the index after
        the last byte copied. */
    method FillBuffer(memory: array<byte>, p: nat, length: nat) returns (next: nat)
      requires Valid()
      requires memory != buffer
      requires length <= BufferSize && p + length <= memory.Length
      modifies buffer
      ensures next == p + length
      ensures buffer[..length] == memory[p..next]
      ensures forall i :: length <= i < buffer.Length ==> buffer[i] == old(buffer[i])
    {
      var q := 0;
      var n := length;
      next := p;
      while n > 0
        invariant 0 <= n <= length && q == length - n && next == p + q
        invariant forall i :: 0 <= i < q ==> buffer[i] == memory[p + i]
        invariant forall i :: q <= i < buffer.Length ==> buffer[i] == old(buffer[i])
      {
        buffer[q] := memory[next];
        next, q := next + 1, q + 1;
        n := n - 1;
      }
      assert forall i :: 0 <= i < length ==> buffer[..length][i] == memory[p..next][i];
    }

    /** The seek callback: the stream's new position, or `-1` when the
        stream raised (on a disposed wrapper too). */
    method Seek(offset: int, whence: int) returns (r: int)
      requires Valid()
      modifies stream
      ensures Valid()
      ensures stream == null ==> r == -1
      ensures stream != null ==>
        && stream.data == old(stream.data)
        && stream.trace == old(stream.trace) + [SeekCall(offset, whence, if r == -1 then Raised else Ok(r))]
        && (r == -1 || (r >= 0 && stream.pos == r && SeekTarget(old(stream.pos), |stream.data|, offset, whence) == Some(r)))
        && (r == -1 ==> stream.pos == old(stream.pos))
        && (SeekTarget(old(stream.pos), |stream.data|, offset, whence).None? ==> r == -1)
    {
      if stream == null {
        return -1;
      }
      var moved := stream.Seek(offset, whence);
      if moved.Raised? {
        return -1;
      }
      return moved.value;
    }

    /** The tell callback: the stream's position.  Outside any try, an
        exception of `Stream.Position` (or of a disposed wrapper's missing
        stream) escapes to the caller. */
    method Tell() returns (position: Result<int>)
      requires Valid()
      ensures stream == null ==> position.Raised?
      ensures stream != null && !stream.CanSeek ==> position.Raised?
      ensures position.Ok? ==> stream != null && position.value == stream.pos
    {
      if stream == null {
        return Raised;
      }
      var at := stream.Position();
      if at.Raised? {
        return Raised;
      }
      return Ok(at.value);
    }
  }
}
