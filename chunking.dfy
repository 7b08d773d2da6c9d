/** What the bridge's `Read` and `Write` loops issue on the stream, stated on
    values: the chunks a write is cut into, and the sequences of stream calls
    a read or a write may make, each with the value it returns. */
module Chunking {
  import opened StreamModel

  /** The size of the scratch buffer, and so the largest chunk moved per stream call. */
  const BufferSize: nat := 8192

  /** `int.MaxValue`: the largest count the `(int)count` casts keep intact. */
  const IntMaxValue: nat := 0x7FFF_FFFF

  // ---------------------------------------------------------------------
  // Write: the chunks a source block is cut into.

  /** The chunks `Write` hands to the stream, in order: each cut off the
      front of the bytes still to write, `Min(remaining, BufferSize)` long. */
  function WriteChunks(src: seq<byte>): (chunks: seq<seq<byte>>)
    ensures forall i :: 0 <= i < |chunks| ==> 0 < |chunks[i]| <= BufferSize
    ensures forall i :: 0 <= i < |chunks| - 1 ==> |chunks[i]| == BufferSize
    ensures src == [] <==> chunks == []
    decreases |src|
  {
    if |src| == 0 then []
    else
      var length := Min(|src|, BufferSize);
      [src[..length]] + WriteChunks(src[length..])
  }

  function Flatten(chunks: seq<seq<byte>>): seq<byte>
  {
    if chunks == [] then [] else chunks[0] + Flatten(chunks[1..])
  }

  /** The chunks, put back together, are the source: nothing is lost,
      duplicated or reordered by the chunking. */
  lemma {:induction false} FlattenWriteChunks(src: seq<byte>)
    ensures Flatten(WriteChunks(src)) == src
    decreases |src|
  {
    if |src| > 0 {
      var length := Min(|src|, BufferSize);
      FlattenWriteChunks(src[length..]);
      assert src[..length] + src[length..] == src;
    }
  }

  /** A write needs one stream call per started `BufferSize` bytes. */
  lemma {:induction false} WriteChunksCount(src: seq<byte>)
    ensures |WriteChunks(src)| == (|src| + BufferSize - 1) / BufferSize
    decreases |src|
  {
    if |src| > 0 {
      WriteChunksCount(src[Min(|src|, BufferSize)..]);
    }
  }

  /** The first `k` chunks hold exactly the first `k * BufferSize` bytes
      of the source (all of it once `k` reaches the last chunk). */
  lemma {:induction false} WriteChunksPrefix(src: seq<byte>, k: nat)
    requires k <= |WriteChunks(src)|
    ensures Flatten(WriteChunks(src)[..k]) == src[..Min(k * BufferSize, |src|)]
    decreases k
  {
    if k > 0 {
      var length := Min(|src|, BufferSize);
      var rest := src[length..];
      assert WriteChunks(src)[..k] == [src[..length]] + WriteChunks(rest)[..k - 1];
      WriteChunksPrefix(rest, k - 1);
      assert src[..length] + rest[..Min((k - 1) * BufferSize, |rest|)] == src[..Min(k * BufferSize, |src|)];
    }
  }

  /** Chunking transparency: writing `a + b` in one call issues the same
      chunks as writing `a` and then `b`, when `a` fills whole buffers. */
  lemma {:induction false} WriteChunksSplit(k: nat, a: seq<byte>, b: seq<byte>)
    requires |a| == k * BufferSize
    ensures WriteChunks(a + b) == WriteChunks(a) + WriteChunks(b)
    decreases k
  {
    if k == 0 {
      assert a + b == b;
    } else {
      assert (a + b)[..BufferSize] == a[..BufferSize];
      assert (a + b)[BufferSize..] == a[BufferSize..] + b;
      WriteChunksSplit(k - 1, a[BufferSize..], b);
    }
  }

  /** The `i`-th chunk of `src`, read off by position: the bytes from
      `i * BufferSize` on, `BufferSize` of them or as many as are left. */
  function Chunk(src: seq<byte>, i: nat): seq<byte>
    requires i * BufferSize < |src|
  {
    src[i * BufferSize..Min((i + 1) * BufferSize, |src|)]
  }

  /** The number of chunks of `n` bytes: one per started `BufferSize` bytes. */
  function ChunkCount(n: nat): nat
  {
    (n + BufferSize - 1) / BufferSize
  }

  /** Chunk `j` of what follows the first full buffer is chunk `j + 1` of
      the whole. */
  lemma ChunkShift(src: seq<byte>, j: nat)
    requires BufferSize <= |src| && j * BufferSize < |src| - BufferSize
    ensures (j + 1) * BufferSize < |src|
    ensures Chunk(src[BufferSize..], j) == Chunk(src, j + 1)
  {
    var rest := src[BufferSize..];
    var lo := j * BufferSize;
    var hi := (j + 1) * BufferSize;
    assert hi == lo + BufferSize;
    assert (j + 2) * BufferSize == hi + BufferSize;
    var end := Min(hi, |rest|);
    assert Min((j + 2) * BufferSize, |src|) == end + BufferSize;
    assert Chunk(rest, j) == rest[lo..end];
    assert Chunk(src, j + 1) == src[lo + BufferSize..end + BufferSize];
    assert rest[lo..end] == src[lo + BufferSize..end + BufferSize];
  }

  /** The chunking read off by position agrees with the front-to-back
      cutting of `WriteChunks`, chunk by chunk. */
  lemma {:induction false} WriteChunksAt(src: seq<byte>, i: nat)
    requires i < |WriteChunks(src)|
    ensures i * BufferSize < |src|
    ensures WriteChunks(src)[i] == Chunk(src, i)
    decreases i
  {
    var chunks := WriteChunks(src);
    var length := Min(|src|, BufferSize);
    var rest := src[length..];
    assert chunks == [src[..length]] + WriteChunks(rest);
    if i == 0 {
      assert Chunk(src, 0) == src[..length];
    } else {
      assert |chunks[0]| == BufferSize == length;
      assert chunks[i] == WriteChunks(rest)[i - 1];
      WriteChunksAt(rest, i - 1);
      ChunkShift(src, i - 1);
    }
  }

  /** The next chunk `Write` cuts off `src` once its first `w` bytes went
      out: `Min(remaining, BufferSize)` bytes. */
  function NextChunk(src: seq<byte>, w: nat): (chunk: seq<byte>)
    requires w < |src|
    ensures 0 < |chunk| <= BufferSize
  {
    src[w..w + Min(|src| - w, BufferSize)]
  }

  /** How many bytes of `src` the calls `calls` handed to the stream, when
      they are the calls `Write` makes, one chunk after the other, and every
      one was accepted; None for any other sequence of calls. */
  function Written(src: seq<byte>, calls: seq<StreamCall>): Option<nat>
    decreases |calls|
  {
    if calls == [] then Some(0)
    else
      var before := Written(src, calls[..|calls| - 1]);
      if before.Some? && before.value < |src| && calls[|calls| - 1] == WriteCall(NextChunk(src, before.value), true)
      then Some(before.value + |NextChunk(src, before.value)|)
      else None
  }

  /** The value a `Write` of `src` returns after making the stream calls
      `calls`, when these are calls such a write makes: `|src|` once every
      chunk was accepted; `-1` when the stream raised on the chunk after the
      accepted ones; None for any other sequence of calls. */
  function WriteResult(src: seq<byte>, calls: seq<StreamCall>): Option<int>
  {
    if Written(src, calls) == Some(|src|) then Some(|src|)
    else if calls == [] then None
    else
      var before := Written(src, calls[..|calls| - 1]);
      if before.Some? && before.value < |src| && calls[|calls| - 1] == WriteCall(NextChunk(src, before.value), false)
      then Some(-1)
      else None
  }

  /** An accepted chunk moves the write on by its length. */
  lemma WrittenChunk(src: seq<byte>, w: nat, calls: seq<StreamCall>)
    requires Written(src, calls) == Some(w) && w < |src|
    ensures Written(src, calls + [WriteCall(NextChunk(src, w), true)]) == Some(w + |NextChunk(src, w)|)
  {
    assert (calls + [WriteCall(NextChunk(src, w), true)])[..|calls|] == calls;
  }

  /** A chunk the stream raised on ends the write with `-1`. */
  lemma WrittenFailed(src: seq<byte>, w: nat, calls: seq<StreamCall>)
    requires Written(src, calls) == Some(w) && w < |src|
    ensures WriteResult(src, calls + [WriteCall(NextChunk(src, w), false)]) == Some(-1)
  {
    assert (calls + [WriteCall(NextChunk(src, w), false)])[..|calls|] == calls;
  }

  /** One iteration of `Write`'s loop, on values: the chunk after the first
      `w` bytes goes to the stream in state `before`, which the earlier
      calls left, and leaves it in state `after`; the session moves on by
      the chunk, or ends in `-1` if the stream raised. */
  lemma WriteStep(st: State, src: seq<byte>, calls: seq<StreamCall>, w: nat, accepted: bool, before: State, after: State)
    requires Written(src, calls) == Some(w) && w < |src|
    requires before == AfterWrites(st, calls)
    requires after == if accepted then State(Splice(before.data, before.pos, NextChunk(src, w)), before.pos + |NextChunk(src, w)|) else before
    ensures after == AfterWrites(st, calls + [WriteCall(NextChunk(src, w), accepted)])
    ensures accepted ==> Written(src, calls + [WriteCall(NextChunk(src, w), true)]) == Some(w + |NextChunk(src, w)|)
    ensures !accepted ==> WriteResult(src, calls + [WriteCall(NextChunk(src, w), false)]) == Some(-1)
  {
    AfterWritesStep(st, calls, WriteCall(NextChunk(src, w), accepted));
    if accepted {
      WrittenChunk(src, w, calls);
    } else {
      WrittenFailed(src, w, calls);
    }
  }

  /** The calls behind `Written`, read off by position: call `i` handed
      over chunk `i`, and the bytes written are the first `|calls|` chunks. */
  lemma {:induction false} WrittenCalls(src: seq<byte>, calls: seq<StreamCall>, w: nat)
    requires Written(src, calls) == Some(w)
    ensures w == Min(|calls| * BufferSize, |src|)
    ensures calls != [] ==> (|calls| - 1) * BufferSize < |src|
    ensures forall i :: 0 <= i < |calls| ==> i * BufferSize < |src| && calls[i] == WriteCall(Chunk(src, i), true)
    decreases |calls|
  {
    if calls != [] {
      var k := |calls| - 1;
      var before := calls[..k];
      var v := Written(src, before).value;
      WrittenCalls(src, before, v);
      assert v == k * BufferSize;
      assert NextChunk(src, v) == Chunk(src, k);
      assert forall i :: 0 <= i < k ==> calls[i] == before[i];
    }
  }

  /** The calls a write session made: the write call of chunk `i` of
      `src` for each `i` in turn, all accepted but, after a failure, the
      last; after success, exactly `ChunkCount(|src|)` of them. */
  lemma WriteResultCalls(src: seq<byte>, calls: seq<StreamCall>, r: int)
    requires WriteResult(src, calls) == Some(r)
    ensures r == |src| || r == -1
    ensures forall i :: 0 <= i < |calls| ==>
      i * BufferSize < |src| && calls[i] == WriteCall(Chunk(src, i), r != -1 || i < |calls| - 1)
    ensures r == |src| ==> |calls| == ChunkCount(|src|)
    ensures r == -1 ==> calls != []
  {
    if Written(src, calls) == Some(|src|) {
      WrittenCalls(src, calls, |src|);
      if calls != [] {
        assert (|calls| - 1) * BufferSize < |src| <= |calls| * BufferSize;
      }
    } else {
      var k := |calls| - 1;
      var before := calls[..k];
      var v := Written(src, before).value;
      WrittenCalls(src, before, v);
      assert NextChunk(src, v) == Chunk(src, k);
      assert forall i :: 0 <= i < k ==> calls[i] == before[i];
    }
  }

  /** The chunks a sequence of write calls handed to the stream. */
  function ChunksOf(calls: seq<StreamCall>): (chunks: seq<seq<byte>>)
    ensures |chunks| == |calls|
    ensures forall i :: 0 <= i < |calls| && calls[i].WriteCall? ==> chunks[i] == calls[i].chunk
  {
    seq(|calls|, i requires 0 <= i < |calls| => if calls[i].WriteCall? then calls[i].chunk else [])
  }

  /** A write session issues exactly the chunks of `WriteChunks`, in order:
      all of them when it succeeds, so that they put back together give the
      source, and a prefix of them, ending in the failing one, when it fails. */
  lemma WriteResultChunks(src: seq<byte>, calls: seq<StreamCall>, r: int)
    requires WriteResult(src, calls) == Some(r)
    ensures |calls| <= |WriteChunks(src)|
    ensures ChunksOf(calls) == WriteChunks(src)[..|calls|]
    ensures r == |src| ==> ChunksOf(calls) == WriteChunks(src) && Flatten(ChunksOf(calls)) == src
  {
    var chunks := WriteChunks(src);
    WriteResultCalls(src, calls, r);
    WriteChunksCount(src);
    if calls != [] {
      assert (|calls| - 1) * BufferSize < |src|;
    }
    forall i | 0 <= i < |calls|
      ensures ChunksOf(calls)[i] == chunks[i]
    {
      WriteChunksAt(src, i);
    }
    if r == |src| {
      assert ChunksOf(calls) == chunks;
      FlattenWriteChunks(src);
    }
  }

  /** Every call of a write session stays within the scratch buffer, and a
      session ends in `-1` exactly when the stream raised on a chunk, which
      is then its last call. */
  lemma WriteResultFailure(src: seq<byte>, calls: seq<StreamCall>, r: int)
    requires WriteResult(src, calls) == Some(r)
    ensures forall i :: 0 <= i < |calls| ==> calls[i].WriteCall? && 0 < |calls[i].chunk| <= BufferSize
    ensures r == -1 <==> exists i :: 0 <= i < |calls| && calls[i] == WriteCall(calls[i].chunk, false)
    ensures forall i :: 0 <= i < |calls| - 1 ==> calls[i].accepted
  {
    WriteResultCalls(src, calls, r);
    if r == -1 {
      assert calls[|calls| - 1] == WriteCall(calls[|calls| - 1].chunk, false);
    }
  }

  /** What a failed write session handed over in whole: the buffers before
      the failing chunk, which are the first bytes of the source. */
  lemma WriteResultWritten(src: seq<byte>, calls: seq<StreamCall>)
    requires WriteResult(src, calls) == Some(-1)
    ensures (|calls| - 1) * BufferSize < |src|
    ensures Flatten(ChunksOf(calls)[..|calls| - 1]) == src[..(|calls| - 1) * BufferSize]
  {
    var k := |calls| - 1;
    WriteResultCalls(src, calls, -1);
    assert k * BufferSize < |src|;
    WriteResultChunks(src, calls, -1);
    assert ChunksOf(calls)[..k] == WriteChunks(src)[..k];
    WriteChunksPrefix(src, k);
  }

  /** Accepted chunks of `src` leave the bytes written so far written on
      the in-memory stream, at its position, which ends up past them. */
  lemma {:induction false} WrittenEffect(src: seq<byte>, calls: seq<StreamCall>, w: nat, st: State)
    requires Written(src, calls) == Some(w)
    ensures AfterWrites(st, calls) == if w == 0 then st else State(Splice(st.data, st.pos, src[..w]), st.pos + w)
    decreases |calls|
  {
    if calls != [] {
      var done := calls[..|calls| - 1];
      var v := Written(src, done).value;
      WrittenEffect(src, done, v, st);
      var before := AfterWrites(st, done);
      var chunk := NextChunk(src, v);
      assert AfterWrites(st, calls) == State(Splice(before.data, before.pos, chunk), before.pos + |chunk|);
      WrittenExtend(st, src, v, before);
    }
  }

  /** The stream state after the first `w` bytes of `src` were written,
      then the next chunk, is that after the first `w` bytes and the chunk. */
  lemma WrittenExtend(st: State, src: seq<byte>, w: nat, before: State)
    requires w < |src|
    requires before == if w == 0 then st else State(Splice(st.data, st.pos, src[..w]), st.pos + w)
    ensures var n := |NextChunk(src, w)|;
      State(Splice(before.data, before.pos, NextChunk(src, w)), before.pos + n)
        == State(Splice(st.data, st.pos, src[..w + n]), st.pos + (w + n))
  {
    SpliceExtend(st.data, st.pos, src, w, |NextChunk(src, w)|, before.data);
  }

  /** On the in-memory stream a write session leaves `src` written at the
      position, which ends up past it; after a failure, the whole buffers
      before the failing chunk, or nothing when the first chunk failed. */
  lemma WriteResultEffect(src: seq<byte>, calls: seq<StreamCall>, r: int, st: State)
    requires WriteResult(src, calls) == Some(r)
    ensures r == |src| && |src| > 0 ==> AfterWrites(st, calls) == State(Splice(st.data, st.pos, src), st.pos + |src|)
    ensures r == -1 ==>
      var written := (|calls| - 1) * BufferSize;
      && written < |src|
      && AfterWrites(st, calls) == if written == 0 then st else State(Splice(st.data, st.pos, src[..written]), st.pos + written)
  {
    if Written(src, calls) == Some(|src|) {
      WrittenEffect(src, calls, |src|, st);
      assert src[..|src|] == src;
    } else {
      var k := |calls| - 1;
      var v := Written(src, calls[..k]).value;
      WrittenCalls(src, calls[..k], v);
      WrittenEffect(src, calls[..k], v, st);
      assert calls == calls[..k] + [calls[k]];
      AfterWritesStep(st, calls[..k], calls[k]);
    }
  }

  // ---------------------------------------------------------------------
  // Read: the calls a read session issues, which depend on what the
  // stream delivers.

  /** The bytes a sequence of calls delivered, in order. */
  function Delivered(calls: seq<StreamCall>): seq<byte>
  {
    if calls == [] then []
    else Delivered(calls[..|calls| - 1]) + BytesOf(calls[|calls| - 1])
  }

  function BytesOf(call: StreamCall): seq<byte>
  {
    if call.ReadCall? && call.delivered.Ok? then call.delivered.value else []
  }

  /** A read that asked for `Min(total, BufferSize)` bytes, `total` being
      the bytes still wanted, and received at least one of them. */
  predicate IsChunkRead(call: StreamCall, total: int)
  {
    && call.ReadCall?
    && call.requested == Min(total, BufferSize)
    && call.delivered.Ok?
    && 0 < |call.delivered.value| <= call.requested
  }

  /** The number of bytes received when `calls` are the reads of loop
      iterations of a `Read` of `count` bytes that each delivered bytes and
      so let the loop go on; None for any other sequence of calls. */
  function Received(count: nat, calls: seq<StreamCall>): Option<nat>
    decreases |calls|
  {
    if calls == [] then Some(0)
    else
      var before := Received(count, calls[..|calls| - 1]);
      var last := calls[|calls| - 1];
      if before.Some? && before.value < count && IsChunkRead(last, count - before.value)
      then Some(before.value + |last.delivered.value|)
      else None
  }

  predicate Failed(call: StreamCall)
  {
    call.ReadCall? && call.delivered.Raised?
  }

  /** The value one `Read` of `count` bytes returns after the stream calls
      `calls`, or None when these are not the calls it makes: reads of
      `Min(remaining, BufferSize)` bytes until `count` bytes arrived (and
      `count` is returned; for a count of 0 no call at all), until a read
      delivers nothing (the bytes so far are returned), or until one raises
      (`-1` is returned). */
  function ReadResult(count: nat, calls: seq<StreamCall>): Option<int>
  {
    if Received(count, calls) == Some(count) then Some(count)
    else if calls == [] then None
    else
      var before := Received(count, calls[..|calls| - 1]);
      var last := calls[|calls| - 1];
      if before.Some? && before.value < count && last.ReadCall? && last.requested == Min(count - before.value, BufferSize) then
        if last.delivered == Ok([]) then Some(before.value)
        else if last.delivered.Raised? then Some(-1)
        else None
      else None
  }

  /** One loop iteration of `Read` that received bytes. */
  lemma ReceivedChunk(count: nat, calls: seq<StreamCall>, w: nat, call: StreamCall)
    requires Received(count, calls) == Some(w) && w < count
    requires IsChunkRead(call, count - w)
    ensures Received(count, calls + [call]) == Some(w + |call.delivered.value|)
    ensures Delivered(calls + [call]) == Delivered(calls) + call.delivered.value
  {
    assert (calls + [call])[..|calls|] == calls;
  }

  /** One loop iteration of `Read` that received the next `n` of the
      bytes `ahead` of the stream, the first `w` of which arrived so far. */
  lemma ReceivedMore(count: nat, calls: seq<StreamCall>, w: nat, call: StreamCall, ahead: seq<byte>, n: nat)
    requires Received(count, calls) == Some(w) && w < count
    requires w + n <= |ahead| && Delivered(calls) == ahead[..w]
    requires 0 < n <= Min(count - w, BufferSize)
    requires call == ReadCall(Min(count - w, BufferSize), Ok(ahead[w..w + n]))
    ensures Received(count, calls + [call]) == Some(w + n)
    ensures Delivered(calls + [call]) == ahead[..w + n]
  {
    ReceivedChunk(count, calls, w, call);
    assert ahead[..w] + ahead[w..w + n] == ahead[..w + n];
  }

  /** The iteration that ends a `Read` early: its read delivered nothing,
      or raised. */
  lemma ReceivedEnds(count: nat, calls: seq<StreamCall>, w: nat, call: StreamCall)
    requires Received(count, calls) == Some(w) && w < count
    requires call.ReadCall? && call.requested == Min(count - w, BufferSize)
    requires call.delivered == Ok([]) || call.delivered.Raised?
    ensures ReadResult(count, calls + [call]) == Some(if call.delivered.Raised? then -1 else w)
    ensures Delivered(calls + [call]) == Delivered(calls)
  {
    assert (calls + [call])[..|calls|] == calls;
  }

  /** While a read makes progress, the bytes received are those
      delivered, and never more than `count`. */
  lemma {:induction false} ReceivedCount(count: nat, calls: seq<StreamCall>, w: nat)
    requires Received(count, calls) == Some(w)
    ensures w == |Delivered(calls)| && w <= count
    decreases |calls|
  {
    if calls != [] {
      var done := calls[..|calls| - 1];
      ReceivedCount(count, done, Received(count, done).value);
    }
  }

  /** While a read makes progress, every request is for 1 to
      `Min(count, BufferSize)` bytes, every one of them delivered something,
      and the bytes received are those delivered and never exceed `count`. */
  lemma {:induction false} ReceivedBounded(count: nat, calls: seq<StreamCall>, w: nat)
    requires Received(count, calls) == Some(w)
    ensures w == |Delivered(calls)| && w <= count
    ensures forall i :: 0 <= i < |calls| ==>
      && calls[i].ReadCall?
      && 0 < calls[i].requested <= Min(count, BufferSize)
      && calls[i].delivered.Ok?
      && 0 < |calls[i].delivered.value|
    decreases |calls|
  {
    if calls != [] {
      var done := calls[..|calls| - 1];
      ReceivedBounded(count, done, Received(count, done).value);
      assert forall i :: 0 <= i < |done| ==> done[i] == calls[i];
    }
  }

  /** Every prefix of a read that makes progress makes progress too. */
  lemma {:induction false} ReceivedPrefix(count: nat, calls: seq<StreamCall>, w: nat, j: nat)
    requires Received(count, calls) == Some(w) && j <= |calls|
    ensures Received(count, calls[..j]).Some?
    decreases |calls|
  {
    if j < |calls| {
      var done := calls[..|calls| - 1];
      ReceivedPrefix(count, done, Received(count, done).value, j);
      assert done[..j] == calls[..j];
    } else {
      assert calls[..j] == calls;
    }
  }

  /** While a read makes progress, request `i` is for exactly
      `Min(remaining, BufferSize)` bytes, `remaining` being `count` less
      the bytes the requests before it delivered. */
  lemma ReceivedRequest(count: nat, calls: seq<StreamCall>, w: nat, i: nat)
    requires Received(count, calls) == Some(w) && i < |calls|
    ensures calls[i].ReadCall? && calls[i].requested == Min(count - |Delivered(calls[..i])|, BufferSize)
  {
    ReceivedPrefix(count, calls, w, i + 1);
    var upto := calls[..i + 1];
    assert upto[..i] == calls[..i] && upto[i] == calls[i];
    var v := Received(count, calls[..i]).value;
    ReceivedCount(count, calls[..i], v);
  }

  /** The value a read session returns is `-1` or a count of at most
      `count` bytes, which is then the number of bytes the stream delivered;
      and every request is for 1 to `Min(count, BufferSize)` bytes (its exact
      size is given by `ReadSessionRequest`). */
  lemma ReadSessionBounded(count: nat, calls: seq<StreamCall>, r: int)
    requires ReadResult(count, calls) == Some(r)
    ensures r == -1 || 0 <= r <= count
    ensures r >= 0 ==> r == |Delivered(calls)|
    ensures forall i :: 0 <= i < |calls| ==> calls[i].ReadCall? && 0 < calls[i].requested <= Min(count, BufferSize)
  {
    if Received(count, calls) == Some(count) {
      ReceivedBounded(count, calls, count);
    } else {
      var k := |calls| - 1;
      var done, last := calls[..k], calls[k];
      var v := Received(count, done).value;
      assert v < count && last.ReadCall? && last.requested == Min(count - v, BufferSize);
      ReceivedBounded(count, done, v);
      forall i | 0 <= i < |calls|
        ensures calls[i].ReadCall? && 0 < calls[i].requested <= Min(count, BufferSize)
      {
        if i < k {
          assert calls[i] == done[i];
        }
      }
      if r >= 0 {
        assert last.delivered == Ok([]);
        assert Delivered(calls) == Delivered(done) + BytesOf(last);
      }
    }
  }

  /** Request `i` of a read session, its last included, is for
      `Min(remaining, BufferSize)` bytes, `remaining` being `count` less
      what the requests before it delivered. */
  lemma ReadSessionRequest(count: nat, calls: seq<StreamCall>, r: int, i: nat)
    requires ReadResult(count, calls) == Some(r) && i < |calls|
    ensures calls[i].ReadCall? && calls[i].requested == Min(count - |Delivered(calls[..i])|, BufferSize)
  {
    if Received(count, calls) == Some(count) {
      ReceivedRequest(count, calls, count, i);
    } else {
      var k := |calls| - 1;
      var done := calls[..k];
      var v := Received(count, done).value;
      if i < k {
        ReceivedRequest(count, done, v, i);
        assert done[..i] == calls[..i] && done[i] == calls[i];
      } else {
        assert calls[..i] == done;
        ReceivedCount(count, done, v);
      }
    }
  }

  /** A read session returns `-1` exactly when one of its stream reads
      raised, and that read is its last: no partial count is reported. */
  lemma ReadSessionSentinel(count: nat, calls: seq<StreamCall>, r: int)
    requires ReadResult(count, calls) == Some(r)
    ensures r == -1 <==> exists i :: 0 <= i < |calls| && Failed(calls[i])
    ensures forall i :: 0 <= i < |calls| - 1 ==> !Failed(calls[i])
  {
    if Received(count, calls) == Some(count) {
      ReceivedBounded(count, calls, count);
    } else {
      var done := calls[..|calls| - 1];
      ReceivedBounded(count, done, Received(count, done).value);
      assert forall i :: 0 <= i < |done| ==> done[i] == calls[i];
      if r == -1 {
        assert Failed(calls[|calls| - 1]);
      }
    }
  }

  /** A read session returns fewer bytes than asked for only when its last
      stream read delivered nothing; every earlier read delivered bytes. */
  lemma ReadSessionShort(count: nat, calls: seq<StreamCall>, r: int)
    requires ReadResult(count, calls) == Some(r)
    requires 0 <= r < count
    ensures |calls| > 0 && calls[|calls| - 1].ReadCall? && calls[|calls| - 1].delivered == Ok([])
    ensures forall i :: 0 <= i < |calls| - 1 ==> |BytesOf(calls[i])| > 0
  {
    var done := calls[..|calls| - 1];
    ReceivedBounded(count, done, Received(count, done).value);
    assert forall i :: 0 <= i < |done| ==> done[i] == calls[i];
  }
}
