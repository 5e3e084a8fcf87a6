/** Reads that are refused, never cut, when the source holds too much. */
module BoundedReads {

  type Byte = bv8

  /** A source of bytes, of some length or without an end. */
  datatype Stream = Stream(at: nat -> Byte, length: Length)
  datatype Length = Finite(n: nat) | Endless

  datatype Result = Ok(bytes: seq<Byte>) | TooLarge | TimedOut | Unreadable

  const CHUNK_BYTES: nat := 1024 * 1024

  /** The bytes of `s` from `a` up to `b`. */
  function Bytes(s: Stream, a: nat, b: nat): (r: seq<Byte>)
    requires a <= b
    ensures |r| == b - a && forall i :: 0 <= i < |r| ==> r[i] == s.at(a + i)
  {
    seq(b - a, i requires 0 <= i < b - a => s.at(a + i))
  }

  /** How many bytes the read number `call` at `position` returns: none at the end, else at least
      one, at most `size`, and fewer than are left whenever the source likes. */
  function Taken(s: Stream, sizes: nat -> nat, call: nat, position: nat, size: nat): (k: nat)
    ensures k <= size
    ensures s.length.Finite? ==> k <= if position < s.length.n then s.length.n - position else 0
    ensures size > 0 ==> (k == 0 <==> s.length.Finite? && position >= s.length.n)
  {
    var wanted := if 1 <= sizes(call) <= size then sizes(call) else size;
    if s.length.Endless? then wanted
    else if position >= s.length.n then 0
    else if wanted <= s.length.n - position then wanted
    else s.length.n - position
  }

  class Reader {
    const stream: Stream
    const sizes: nat -> nat
    var position: nat
    var calls: nat

    constructor (stream: Stream, sizes: nat -> nat)
      ensures this.stream == stream && this.sizes == sizes && position == 0 && calls == 0
    {
      this.stream, this.sizes := stream, sizes;
      position, calls := 0, 0;
    }

    method Read(size: nat) returns (chunk: seq<Byte>)
      modifies this
      ensures var k := Taken(stream, sizes, old(calls), old(position), size);
              position == old(position) + k && chunk == Bytes(stream, old(position), position)
      ensures calls == old(calls) + 1
    {
      var k := Taken(stream, sizes, calls, position, size);
      chunk := Bytes(stream, position, position + k);
      position := position + k;
      calls := calls + 1;
    }
  }

  /** A clock: each reading is some time, in any unit. */
  class Clock {
    const times: nat -> real
    var readings: nat

    constructor (times: nat -> real)
      ensures this.times == times && readings == 0
    {
      this.times := times;
      readings := 0;
    }

    method Now() returns (t: real)
      modifies this
      ensures t == times(old(readings)) && readings == old(readings) + 1
    {
      t := times(readings);
      readings := readings + 1;
    }
  }

  // ----- what a capped read returns

  /** The rest of the source, or the refusal, whatever the sizes of the chunks. */
  ghost function Capped(s: Stream, start: nat, limit: int): Result {
    match s.length
    case Endless => TooLarge
    case Finite(n) =>
      if n <= start then Ok([])
      else if n - start <= limit then Ok(Bytes(s, start, n))
      else TooLarge
  }

  /** How many reads it takes to see the end or one byte too many; `room` is what the
      limit still allows. */
  ghost function ReadsNeeded(s: Stream, sizes: nat -> nat, position: nat, call: nat, room: int): (k: nat)
    decreases Larger(room + 1, 0)
  {
    var taken := Taken(s, sizes, call, position, CHUNK_BYTES);
    if taken == 0 || taken > room then 1
    else 1 + ReadsNeeded(s, sizes, position + taken, call + 1, room - taken)
  }

  /** One of the readings `first .. first + n` is at the deadline or behind it. */
  ghost predicate Late(times: nat -> real, first: nat, n: nat, deadline: real) {
    exists k :: first <= k < first + n && times(k) >= deadline
  }

  function Larger(a: int, b: int): int { if a < b then b else a }

  lemma BytesConcat(s: Stream, a: nat, b: nat, c: nat)
    requires a <= b <= c
    ensures Bytes(s, a, b) + Bytes(s, b, c) == Bytes(s, a, c)
  {}

  method ReadCapped(fh: Reader, limit: int) returns (r: Result)
    modifies fh
    ensures r == Capped(fh.stream, old(fh.position), limit)
    ensures old(fh.position) <= fh.position <= old(fh.position) + Larger(limit, 0) + 1048576
    ensures fh.calls == old(fh.calls) + ReadsNeeded(fh.stream, fh.sizes, old(fh.position), old(fh.calls), limit)
    ensures r.Ok? ==> r.bytes == Bytes(fh.stream, old(fh.position), fh.position)
  {
    hide Taken;
    var out := [];
    while true
      invariant old(fh.position) <= fh.position
      invariant out == Bytes(fh.stream, old(fh.position), fh.position)
      invariant |out| <= Larger(limit, 0) && (out == [] || |out| <= limit)
      invariant fh.calls + ReadsNeeded(fh.stream, fh.sizes, fh.position, fh.calls, limit - |out|)
        == old(fh.calls) + ReadsNeeded(fh.stream, fh.sizes, old(fh.position), old(fh.calls), limit)
      invariant fh.stream.length.Finite? ==> fh.position <= Larger(fh.stream.length.n, old(fh.position))
      decreases limit + 1 - |out|
    {
      ghost var p := fh.position;
      var chunk := fh.Read(CHUNK_BYTES);
      if |chunk| == 0 {
        break;
      }
      BytesConcat(fh.stream, old(fh.position), p, fh.position);
      out := out + chunk;
      if |out| > limit {
        return TooLarge;
      }
    }
    return Ok(out);
  }

  /** The same under a deadline: the check before every read is a reading of the
      clock, and the first late one refuses. */
  method ReadCappedWithDeadline(fh: Reader, limit: int, clock: Clock, seconds: real) returns (r: Result)
    modifies fh, clock
    ensures var needed := ReadsNeeded(fh.stream, fh.sizes, old(fh.position), old(fh.calls), limit);
            var deadline := clock.times(old(clock.readings)) + seconds;
            r == if Late(clock.times, old(clock.readings) + 1, needed, deadline) then TimedOut
                 else Capped(fh.stream, old(fh.position), limit)
    ensures old(fh.calls) <= fh.calls
    ensures !Late(clock.times, old(clock.readings) + 1, fh.calls - old(fh.calls),
                  clock.times(old(clock.readings)) + seconds)
    ensures old(fh.position) <= fh.position <= old(fh.position) + Larger(limit, 0) + 1048576
  {
    hide Taken;
    ghost var first := clock.readings + 1;
    var now := clock.Now();
    var deadline := now + seconds;
    var out := [];
    ghost var needed := ReadsNeeded(fh.stream, fh.sizes, fh.position, fh.calls, limit);
    while true
      invariant old(fh.position) <= fh.position
      invariant out == Bytes(fh.stream, old(fh.position), fh.position)
      invariant |out| <= Larger(limit, 0) && (out == [] || |out| <= limit)
      invariant old(fh.calls) <= fh.calls && clock.readings - first == fh.calls - old(fh.calls)
      invariant fh.calls + ReadsNeeded(fh.stream, fh.sizes, fh.position, fh.calls, limit - |out|)
                == old(fh.calls) + needed
      invariant forall k :: first <= k < clock.readings ==> clock.times(k) < deadline
      invariant fh.stream.length.Finite? ==> fh.position <= Larger(fh.stream.length.n, old(fh.position))
      decreases limit + 1 - |out|
    {
      now := clock.Now();
      var remaining := deadline - now;
      if remaining <= 0.0 {
        return TimedOut;
      }
      ghost var p := fh.position;
      var chunk := fh.Read(CHUNK_BYTES);
      if |chunk| == 0 {
        break;
      }
      BytesConcat(fh.stream, old(fh.position), p, fh.position);
      out := out + chunk;
      if |out| > limit {
        return TooLarge;
      }
    }
    return Ok(out);
  }

  /** On a clock that never runs back only the last check matters. */
  lemma LastCheckDecides(times: nat -> real, first: nat, n: nat, deadline: real)
    requires n > 0 && forall i, j :: first <= i <= j ==> times(i) <= times(j)
    ensures Late(times, first, n, deadline) <==> times(first + n - 1) >= deadline
  {
    if times(first + n - 1) >= deadline { assert first <= first + n - 1 < first + n; }
  }

  /** However small the chunks, also on a source without an end, the reads needed are at
      most two more than the limit. */
  lemma {:induction false} ReadsAreBounded(s: Stream, sizes: nat -> nat, position: nat, call: nat, room: int)
    ensures 1 <= ReadsNeeded(s, sizes, position, call, room) <= Larger(room, 0) + 2
    decreases Larger(room + 1, 0)
  {
    hide Taken;
    var taken := Taken(s, sizes, call, position, CHUNK_BYTES);
    if taken == 0 || taken > room {
    } else {
      ReadsAreBounded(s, sizes, position + taken, call + 1, room - taken);
    }
  }

  // ----- a file: its size on disk first

  /** `declared` is the size on disk, none when it cannot be had; `file` is null when it cannot
      be opened. */
  datatype Size = Known(n: nat) | Unknown

  predicate Oversized(declared: Size, limit: int) {
    match declared case Known(n) => n > limit case Unknown => -1 > limit
  }

  ghost function FileCapped(declared: Size, opens: bool, s: Stream, start: nat, limit: int): Result {
    if Oversized(declared, limit) then TooLarge
    else if !opens then Unreadable
    else Capped(s, start, limit)
  }

  method ReadFileCapped(declared: Size, file: Reader?, limit: int) returns (r: Result)
    modifies if file == null then {} else {file}
    ensures declared.Known? ==>
              (declared.n > limit ==> r == TooLarge) && (declared.n <= limit && file == null ==> r == Unreadable)
    ensures declared.Unknown? ==> (limit < -1 ==> r == TooLarge) && (limit >= -1 && file == null ==> r == Unreadable)
    ensures file != null ==> r == FileCapped(declared, true, file.stream, old(file.position), limit)
    ensures file != null && Oversized(declared, limit) ==> unchanged(file)
    ensures file != null && declared.Known? && declared.n > limit ==> r == TooLarge && unchanged(file)
    ensures file != null ==> old(file.position) <= file.position <= old(file.position) + Larger(limit, 0) + 1048576
  {
    var size: int := if declared.Known? then declared.n else -1;
    if size > limit {
      return TooLarge;
    }
    if file == null {
      return Unreadable;
    }
    r := ReadCapped(file, limit);
  }

  /** A true size on disk only saves the reading: the answer is the same, except that an
      empty file under a negative limit is refused where the stream alone is not. */
  lemma TrueSizeChangesNothing(s: Stream, limit: int)
    requires s.length.Finite?
    ensures FileCapped(Known(s.length.n), true, s, 0, limit) == Capped(s, 0, limit) <==> !(s.length.n == 0 && limit < 0)
  {}

  /** Whatever the size on disk said, bytes come back exactly when the file opens and
      fits, and they are then the whole file. */
  lemma NeverCut(declared: Size, opens: bool, s: Stream, limit: int)
    requires limit >= 0
    ensures var r := FileCapped(declared, opens, s, 0, limit);
            && (r.Ok? <==> opens && !(declared.Known? && declared.n > limit) && s.length.Finite? && s.length.n <= limit)
            && (r.Ok? ==> r.bytes == Bytes(s, 0, s.length.n) && |r.bytes| <= limit)
  {}
}
