/** The collaborator the bridge wraps: a .NET `System.IO.Stream` that can
    seek and stores what is written at its position, as a memory or file
    stream does.  The contracts of `Stream.Read`, `Stream.Write` and
    `Stream.Seek` allow any such stream (a read returns at most the bytes
    asked for and zero only at the end of the stream; any call may raise),
    and the bodies are one admissible stream: an in-memory stream.  Every
    read, write and seek is recorded in the ghost `trace`, which is how the
    bridge's contracts speak about the calls it issues; `Position` changes
    nothing and is not recorded. */
module StreamModel {

  newtype byte = x: int | 0 <= x < 256

  datatype Option<T> = None | Some(value: T)

  /** The outcome of a stream call: its value, or an exception it raised. */
  datatype Result<T> = Ok(value: T) | Raised

  /** `System.IO.SeekOrigin`, whose values are 0, 1 and 2. */
  datatype SeekOrigin = Begin | Current | End

  /** One call the bridge made on the stream, with what came of it. */
  datatype StreamCall =
    | ReadCall(requested: nat, delivered: Result<seq<byte>>)
    | WriteCall(chunk: seq<byte>, accepted: bool)
    | SeekCall(offset: int, whence: int, moved: Result<int>)

  function Min(a: int, b: int): (m: int)
    ensures m <= a && m <= b
    ensures m == a || m == b
  {
    if a <= b then a else b
  }

  /** The bytes a read from `position` on finds in a stream with contents
      `data`: none once the position is at or past the end. */
  function Ahead(data: seq<byte>, position: nat): (a: seq<byte>)
    ensures |a| == (if position < |data| then |data| - position else 0)
    ensures forall i :: 0 <= i < |a| ==> a[i] == data[position + i]
  {
    if position < |data| then data[position..] else []
  }

  /** Reading `n` of the bytes ahead moves past exactly them. */
  lemma AheadAfter(data: seq<byte>, position: nat, n: nat)
    requires n <= |Ahead(data, position)|
    ensures Ahead(data, position + n) == Ahead(data, position)[n..]
  {
  }

  function Zeros(n: nat): (z: seq<byte>)
    ensures |z| == n
    ensures forall i :: 0 <= i < n ==> z[i] == 0
  {
    seq(n, _ => 0)
  }

  /** The contents of a stream after `s` is written at position `at` of
      contents `d`: the bytes from `at` on are overwritten, the stream grows
      when the write runs past its end, and a gap between the old end and
      `at` reads as zeros. */
  function Splice(d: seq<byte>, at: nat, s: seq<byte>): seq<byte>
  {
    var head := if at <= |d| then d[..at] else d + Zeros(at - |d|);
    var tail := if at + |s| <= |d| then d[at + |s|..] else [];
    head + s + tail
  }

  /** What a write leaves in the stream: `s` from `at` on, the old contents
      elsewhere, zeros in a gap past the old end, and a length that grows
      only as far as the write reaches. */
  lemma SpliceContents(d: seq<byte>, at: nat, s: seq<byte>)
    ensures var r := Splice(d, at, s);
      && |r| == (if at + |s| <= |d| then |d| else at + |s|)
      && r[at..at + |s|] == s
      && (forall j :: 0 <= j < |s| ==> r[at + j] == s[j])
      && (forall i :: 0 <= i < |r| && !(at <= i < at + |s|) ==> r[i] == (if i < |d| then d[i] else 0))
  {
    var r := Splice(d, at, s);
    var head := if at <= |d| then d[..at] else d + Zeros(at - |d|);
    assert r == head + s + (if at + |s| <= |d| then d[at + |s|..] else []);
    assert r[at..at + |s|] == s;
  }

  /** How long a stream is after a write: as long as before, or as far
      as the write reaches. */
  lemma SpliceLength(d: seq<byte>, at: nat, s: seq<byte>)
    ensures |Splice(d, at, s)| == if at + |s| <= |d| then |d| else at + |s|
  {
  }

  /** Byte `i` of a stream after a write: from the chunk inside it, from
      the old contents before and after it, and zero in a gap. */
  lemma SpliceAt(d: seq<byte>, at: nat, s: seq<byte>, i: nat)
    requires i < |Splice(d, at, s)|
    ensures Splice(d, at, s)[i] == if at <= i < at + |s| then s[i - at] else if i < |d| then d[i] else 0
  {
    SpliceContents(d, at, s);
    if at <= i < at + |s| {
      assert Splice(d, at, s)[at + (i - at)] == s[i - at];
    }
  }

  /** Two consecutive writes leave the stream as one write of both would. */
  lemma SpliceCompose(d: seq<byte>, at: nat, a: seq<byte>, b: seq<byte>)
    ensures Splice(Splice(d, at, a), at + |a|, b) == Splice(d, at, a + b)
  {
    var x := Splice(d, at, a);
    var y := Splice(x, at + |a|, b);
    var z := Splice(d, at, a + b);
    SpliceLength(d, at, a);
    SpliceLength(x, at + |a|, b);
    SpliceLength(d, at, a + b);
    forall i | 0 <= i < |y|
      ensures y[i] == z[i]
    {
      SpliceAt(x, at + |a|, b, i);
      SpliceAt(d, at, a + b, i);
      if i < |x| {
        SpliceAt(d, at, a, i);
      }
    }
  }

  /** Writing the next `n` bytes of `src` after its first `w` leaves the
      stream as writing its first `w + n` bytes at once; `current` is the
      stream's contents after the first `w` bytes. */
  lemma SpliceExtend(d: seq<byte>, at: nat, src: seq<byte>, w: nat, n: nat, current: seq<byte>)
    requires w + n <= |src|
    requires current == if w == 0 then d else Splice(d, at, src[..w])
    ensures Splice(current, at + w, src[w..w + n]) == Splice(d, at, src[..w + n])
  {
    if w == 0 {
      assert src[w..w + n] == src[..w + n];
    } else {
      calc {
        Splice(current, at + w, src[w..w + n]);
        Splice(Splice(d, at, src[..w]), at + |src[..w]|, src[w..w + n]);
        { SpliceCompose(d, at, src[..w], src[w..w + n]); }
        Splice(d, at, src[..w] + src[w..w + n]);
        { assert src[..w] + src[w..w + n] == src[..w + n]; }
        Splice(d, at, src[..w + n]);
      }
    }
  }

  /** Round trip: once `src` is written at position `at`, a read from `at`
      that delivers a prefix of the bytes ahead, as many as it asked for
      or as are left, gets back exactly `src`. */
  lemma SpliceReadBack(d: seq<byte>, at: nat, src: seq<byte>, got: seq<byte>)
    requires got <= Ahead(Splice(d, at, src), at)
    requires |got| == Min(|src|, |Ahead(Splice(d, at, src), at)|)
    ensures got == src
  {
    var r := Splice(d, at, src);
    SpliceContents(d, at, src);
    assert |got| == |src|;
    forall j | 0 <= j < |src|
      ensures got[j] == src[j]
    {
      assert got[j] == Ahead(r, at)[j] == r[at + j];
    }
  }

  /** A stream's contents and position. */
  datatype State = State(data: seq<byte>, pos: nat)

  /** The state of the in-memory stream after the write calls of `calls`,
      from state `st`: an accepted chunk is written at the position, which
      moves past it; a chunk the stream raised on changes nothing. */
  function AfterWrites(st: State, calls: seq<StreamCall>): State
    decreases |calls|
  {
    if calls == [] then st
    else
      var before := AfterWrites(st, calls[..|calls| - 1]);
      var call := calls[|calls| - 1];
      if call.WriteCall? && call.accepted then State(Splice(before.data, before.pos, call.chunk), before.pos + |call.chunk|)
      else before
  }

  /** One more call on top of `calls`. */
  lemma AfterWritesStep(st: State, calls: seq<StreamCall>, call: StreamCall)
    ensures var before := AfterWrites(st, calls);
      AfterWrites(st, calls + [call])
        == if call.WriteCall? && call.accepted then State(Splice(before.data, before.pos, call.chunk), before.pos + |call.chunk|)
           else before
  {
    assert (calls + [call])[..|calls|] == calls;
  }

  /** A call made after `calls` extends the trace by one. */
  lemma TraceExtend(log: seq<StreamCall>, calls: seq<StreamCall>, call: StreamCall)
    ensures log + calls + [call] == log + (calls + [call])
  {
  }

  /** The calls made after a point of the trace are its suffix from there. */
  lemma TraceSuffix(log: seq<StreamCall>, calls: seq<StreamCall>)
    ensures (log + calls)[..|log|] == log
    ensures (log + calls)[|log|..] == calls
  {
  }

  /** The position a seek moves to, or None when the seek must fail: an
      origin outside `SeekOrigin`, or a position before the start. */
  function SeekTarget(position: nat, length: nat, offset: int, whence: int): (target: Option<nat>)
    ensures target.Some? ==> 0 <= whence <= 2
    ensures whence == 0 && offset >= 0 ==> target == Some(offset)
  {
    var base := if whence == 0 then 0 else if whence == 1 then position else length;
    if whence < 0 || 2 < whence || base + offset < 0 then None else Some(base + offset)
  }

  class Stream {
    const CanRead: bool
    const CanWrite: bool
    const CanSeek: bool
    var data: seq<byte>
    var pos: nat
    ghost var trace: seq<StreamCall>

    constructor (content: seq<byte>, canRead: bool, canWrite: bool, canSeek: bool)
      ensures CanRead == canRead && CanWrite == canWrite && CanSeek == canSeek
      ensures data == content && pos == 0 && trace == []
    {
      CanRead, CanWrite, CanSeek := canRead, canWrite, canSeek;
      data, pos := content, 0;
      trace := [];
    }

    /** `Stream.Read(buffer, 0, count)`. */
    method Read(buffer: array<byte>, count: nat) returns (r: Result<nat>)
      requires count <= buffer.Length
      modifies this, buffer
      ensures data == old(data)
      ensures !CanRead ==> r.Raised?
      ensures r.Ok? ==>
        && r.value <= count
        && r.value <= |Ahead(data, old(pos))|
        && (count > 0 ==> (r.value == 0 <==> Ahead(data, old(pos)) == []))
        && pos == old(pos) + r.value
        && buffer[..r.value] == Ahead(data, old(pos))[..r.value]
      ensures r.Raised? ==> pos == old(pos)
      ensures trace == old(trace) + [ReadCall(count, if r.Ok? then Ok(buffer[..r.value]) else Raised)]
    {
      if !CanRead {
        r := Raised;
      } else {
        var n := Min(count, |Ahead(data, pos)|);
        forall i | 0 <= i < n {
          buffer[i] := data[pos + i];
        }
        pos := pos + n;
        r := Ok(n);
      }
      trace := trace + [ReadCall(count, if r.Ok? then Ok(buffer[..r.value]) else Raised)];
    }

    /** `Stream.Write(buffer, 0, count)`; `accepted` is false when it raised. */
    method Write(buffer: array<byte>, count: nat) returns (accepted: bool)
      requires count <= buffer.Length
      modifies this
      ensures !CanWrite ==> !accepted
      ensures accepted ==> data == Splice(old(data), old(pos), buffer[..count]) && pos == old(pos) + count
      ensures !accepted ==> data == old(data) && pos == old(pos)
      ensures trace == old(trace) + [WriteCall(buffer[..count], accepted)]
    {
      accepted := CanWrite;
      if accepted {
        data := Splice(data, pos, buffer[..count]);
        pos := pos + count;
      }
      trace := trace + [WriteCall(buffer[..count], accepted)];
    }

    /** The `Stream.Position` getter, which raises on a stream that cannot seek. */
    method Position() returns (r: Result<nat>)
      ensures !CanSeek ==> r.Raised?
      ensures r.Ok? ==> r.value == pos
    {
      if CanSeek {
        r := Ok(pos);
      } else {
        r := Raised;
      }
    }

    /** `Stream.Seek(offset, (SeekOrigin)whence)`. */
    method Seek(offset: int, whence: int) returns (r: Result<int>)
      modifies this
      ensures data == old(data)
      ensures !CanSeek ==> r.Raised?
      ensures SeekTarget(old(pos), |data|, offset, whence).None? ==> r.Raised?
      ensures r.Ok? ==> r.value >= 0 && SeekTarget(old(pos), |data|, offset, whence) == Some(r.value) && pos == r.value
      ensures r.Raised? ==> pos == old(pos)
      ensures trace == old(trace) + [SeekCall(offset, whence, r)]
    {
      var target := SeekTarget(pos, |data|, offset, whence);
      if CanSeek && target.Some? {
        pos := target.value;
        r := Ok(target.value);
      } else {
        r := Raised;
      }
      trace := trace + [SeekCall(offset, whence, r)];
    }
  }
}
