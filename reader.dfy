/**
 * The two readers of src/file.c: `read_characters`, which reads up to a
 * count of bytes in chunks of at most `LUAL_BUFFERSIZE`, and `read_line`,
 * which reads one byte at a time into a `LUAL_BUFFERSIZE` buffer until a
 * line break. Each reader is a method with the source's loops, proved
 * against a closed-form description of what it returns.
 *
 * The thread's last error is passed in as `err` and handed back as `err'`
 * (the value each reader leaves with `SetLastError (error)`).
 */
module Reader {
  import opened Common
  import opened Engine

  /**
   * `LUAL_BUFFERSIZE`, fixed at 1024 (its value in Lua 5.4; Lua 5.3 on a
   * 64-bit build uses 8192). The properties are stated in terms of the
   * constant, not its value.
   */
  const BufferSize: nat := 1024

  /** The line terminator, `'\n'`. */
  const Newline: byte := 10

  function Min(a: nat, b: nat): nat {
    if a < b then a else b
  }

  /** Whether `m` is a whole number of chunks of `BufferSize` bytes. */
  predicate IsBoundary(m: nat) {
    m == 0 || (m >= BufferSize && IsBoundary(m - BufferSize))
  }

  /** The least whole number of chunks that holds `n` bytes. */
  function RoundUp(n: nat): nat {
    if n == 0 then 0
    else if n <= BufferSize then BufferSize
    else BufferSize + RoundUp(n - BufferSize)
  }

  /** No chunk boundary at or above `n` lies below `RoundUp(n)`. */
  lemma {:induction false} RoundUpIsLeast(n: nat, m: nat)
    requires IsBoundary(m) && n <= m
    ensures RoundUp(n) <= m
    decreases m
  {
    if n > BufferSize {
      RoundUpIsLeast(n - BufferSize, m - BufferSize);
    }
  }

  /** A chunk that starts below `n` ends at or below `RoundUp(n)`. */
  lemma {:induction false} RoundUpCovers(n: nat, start: nat)
    requires IsBoundary(start) && start < n
    ensures start + BufferSize <= RoundUp(n)
    decreases start
  {
    if start > 0 {
      RoundUpCovers(n - BufferSize, start - BufferSize);
    }
  }

  /** `RoundUp (n)` is the smallest whole number of chunks not below `n`. */
  lemma {:induction false} RoundUpBounds(n: nat)
    ensures n <= RoundUp(n) < n + BufferSize
    ensures IsBoundary(RoundUp(n))
  {
    if n > BufferSize {
      RoundUpBounds(n - BufferSize);
    }
  }

  /** What `read_characters` leaves behind. */
  datatype CharsRead = CharsRead(chars: seq<byte>, status: bool, st: Stream, err: ErrorCode)

  /**
   * The outcome of `read_characters (count)` on `st`: the readable bytes up
   * to `count`; status 1 unless a chunk found nothing left to read, which
   * happens exactly when `count` exceeds the readable length rounded up to
   * whole chunks; and the last error of the final engine call (or
   * `ERROR_SUCCESS` when no call was made).
   */
  function CharsSpec(st: Stream, err: ErrorCode, count: nat): (r: CharsRead)
    requires st.Valid()
    ensures r.st.Valid() && r.st.data == st.data
    ensures r.st.faultPos == st.faultPos && r.st.fault == st.fault
    ensures st.pos <= r.st.pos && r.chars == st.data[st.pos..r.st.pos] && |r.chars| <= count
  {
    var k := Min(count, Avail(st));
    var status := count <= RoundUp(Avail(st));
    CharsRead(st.data[st.pos..st.pos + k], status, st.(pos := st.pos + k),
              if count == 0 then ERROR_SUCCESS
              else if !status && Faulted(st) then st.fault
              else err)
  }

  /** The common shape of the states `read_characters` passes through. */
  ghost predicate ReadSoFar(st: Stream, chars: seq<byte>, st': Stream)
  {
    && st.Valid() && st'.Valid() && st'.data == st.data
    && st'.faultPos == st.faultPos && st'.fault == st.fault
    && st'.pos == st.pos + |chars| && chars == st.data[st.pos..st'.pos]
  }

  /** A chunk that reads nothing ends `read_characters` as `CharsSpec` says. */
  lemma ChunkFoundNothing(st: Stream, err: ErrorCode, count: nat, before: nat,
                          chars: seq<byte>, st': Stream, err': ErrorCode)
    requires ReadSoFar(st, chars, st') && Avail(st') == 0
    requires |chars| == Min(before, Avail(st)) && IsBoundary(before) && before < count
    requires err' == if Faulted(st) then st.fault else err
    ensures CharsRead(chars, false, st', err') == CharsSpec(st, err, count)
  {
    assert |chars| == Avail(st);
    RoundUpIsLeast(Avail(st), before);
  }

  /** A chunk that reads something extends the bytes read so far. */
  lemma ChunkGrows(st: Stream, before: nat, want: nat, chars: seq<byte>, cur: Stream)
    requires ReadSoFar(st, chars, cur) && |chars| == Min(before, Avail(st))
    requires var t := ReadFile(cur, want); t.ok && |t.bytes| > 0
    ensures var t := ReadFile(cur, want);
      && ReadSoFar(st, chars + t.bytes, t.st)
      && |chars + t.bytes| == Min(before + want, Avail(st))
      && before < Avail(st)
  {
  }

  /** Running out of count ends `read_characters` as `CharsSpec` says. */
  lemma ChunksComplete(st: Stream, err: ErrorCode, count: nat, start: nat,
                       chars: seq<byte>, st': Stream, err': ErrorCode)
    requires ReadSoFar(st, chars, st') && |chars| == Min(count, Avail(st))
    requires count > 0 ==> IsBoundary(start) && start < Avail(st) && count <= start + BufferSize
    requires err' == if count == 0 then ERROR_SUCCESS else err
    ensures CharsRead(chars, true, st', err') == CharsSpec(st, err, count)
  {
    if count > 0 {
      RoundUpCovers(Avail(st), start);
    }
  }

  /** The state `read_characters` keeps between chunks, `left` bytes short of `count`. */
  ghost predicate ChunksSoFar(st: Stream, err: ErrorCode, count: nat, left: nat, start: nat,
                              chars: seq<byte>, st': Stream, err': ErrorCode)
  {
    && left <= count
    && ReadSoFar(st, chars, st')
    && |chars| == Min(count - left, Avail(st))
    && (left > 0 ==> IsBoundary(count - left))
    && (count - left > 0 ==> IsBoundary(start) && start < Avail(st))
    && count - left <= start + BufferSize
    && err' == if left == count then ERROR_SUCCESS else err
  }

  /**
   * `read_characters`: reads `count` bytes in chunks of at most
   * `BufferSize`, stopping at the first chunk that fails or reads nothing.
   * `requests` lists the sizes asked of the engine, one per call.
   */
  method ReadCharacters(st: Stream, err: ErrorCode, count: nat)
    returns (chars: seq<byte>, status: bool, st': Stream, err': ErrorCode, ghost requests: seq<nat>)
    requires st.Valid()
    ensures CharsRead(chars, status, st', err') == CharsSpec(st, err, count)
    ensures forall q | q in requests :: 0 < q <= BufferSize
    ensures requests == [] <==> count == 0
  {
    var left: nat := count;
    chars, status, st', err' := [], true, st, ERROR_SUCCESS;
    requests := [];
    ghost var start: nat := 0;
    while left > 0
      invariant status && left <= count
      invariant ChunksSoFar(st, err, count, left, start, chars, st', err')
      invariant forall q | q in requests :: 0 < q <= BufferSize
      invariant requests == [] <==> left == count
    {
      var want := if left > BufferSize then BufferSize else left;
      ghost var before: nat := count - left;
      left := left - want;
      var t := ReadFile(st', want);
      requests := requests + [want];
      err' := if t.ok then err else st'.fault;
      if !t.ok || |t.bytes| == 0 {
        status := false;
        assert t.ok <==> !Faulted(st);
        ChunkFoundNothing(st, err, count, before, chars, st', err');
        break;
      }
      ChunkGrows(st, before, want, chars, st');
      chars := chars + t.bytes;
      st' := t.st;
      start := before;
    }
    if status {
      ChunksComplete(st, err, count, start, chars, st', err');
    }
  }

  /** The index of the first line break in `s`, or `|s|` if there is none. */
  function NewlineIndex(s: seq<byte>): (i: nat)
    ensures i <= |s|
    ensures i < |s| ==> s[i] == Newline
    ensures forall j | 0 <= j < i :: s[j] != Newline
  {
    if |s| == 0 || s[0] == Newline then 0 else 1 + NewlineIndex(s[1..])
  }

  /** What `read_line` leaves behind (its status is always 0). */
  datatype LineRead = LineRead(line: seq<byte>, st: Stream, err: ErrorCode)

  /**
   * The outcome of `read_line` on `st`: the readable bytes before the first
   * line break, which is consumed and, unless `chop`, kept; without a line
   * break, every readable byte, and the last error is the fault if reading
   * stopped at one.
   */
  function LineSpec(st: Stream, err: ErrorCode, chop: bool): (r: LineRead)
    requires st.Valid()
    ensures r.st.Valid() && r.st.data == st.data
    ensures r.st.faultPos == st.faultPos && r.st.fault == st.fault
    ensures st.pos <= r.st.pos
  {
    var seg := Readable(st);
    var i := NewlineIndex(seg);
    if i < |seg| then
      LineRead(seg[..i] + (if chop then [] else [Newline]), st.(pos := st.pos + i + 1), err)
    else
      LineRead(seg, st.(pos := st.pos + |seg|), if Faulted(st) then st.fault else err)
  }

  /** The state in which `read_line`'s loops have stopped, before the optional `'\n'` is added. */
  ghost predicate LineFinished(st: Stream, err: ErrorCode, got: seq<byte>, st': Stream, err': ErrorCode, character: byte)
    requires st.Valid()
  {
    var seg := Readable(st);
    var i := NewlineIndex(seg);
    if i < |seg| then
      got == seg[..i] && st' == st.(pos := st.pos + i + 1) && err' == err && character == Newline
    else
      got == seg && st' == st.(pos := st.pos + |seg|) && character != Newline
      && err' == (if Faulted(st) then st.fault else err)
  }

  /**
   * `read_line` has read `got` and stands at `cur`: `got` is a prefix of
   * the readable bytes with no line break in it.
   */
  ghost predicate LinePrefix(st: Stream, got: seq<byte>, cur: Stream)
    requires st.Valid()
  {
    var seg := Readable(st);
    && |got| <= |seg| && got == seg[..|got|] && NewlineIndex(seg) >= |got|
    && cur == st.(pos := st.pos + |got|)
  }

  /** A one-byte read that succeeds with anything but `'\n'` extends the prefix. */
  lemma LineGrows(st: Stream, got: seq<byte>, cur: Stream)
    requires st.Valid() && LinePrefix(st, got, cur)
    requires var t := ReadFile(cur, 1); t.ok && |t.bytes| > 0 && t.bytes[0] != Newline
    ensures var t := ReadFile(cur, 1); LinePrefix(st, got + [t.bytes[0]], t.st)
  {
    var seg := Readable(st);
    var t := ReadFile(cur, 1);
    assert seg[|got|] == t.bytes[0];
    assert got + [t.bytes[0]] == seg[..|got| + 1];
  }

  /** A one-byte read that reads `'\n'` ends the line after `got`. */
  lemma LineStopsAtBreak(st: Stream, err: ErrorCode, got: seq<byte>, cur: Stream)
    requires st.Valid() && LinePrefix(st, got, cur)
    requires var t := ReadFile(cur, 1); t.ok && |t.bytes| > 0 && t.bytes[0] == Newline
    ensures LineFinished(st, err, got, ReadFile(cur, 1).st, err, Newline)
  {
    var seg := Readable(st);
    assert seg[|got|] == Newline;
  }

  /** A one-byte read that fails or reads nothing ends the line after `got`. */
  lemma LineStopsAtEnd(st: Stream, err: ErrorCode, got: seq<byte>, cur: Stream, character: byte)
    requires st.Valid() && LinePrefix(st, got, cur) && character != Newline
    requires var t := ReadFile(cur, 1); !t.ok || |t.bytes| == 0
    ensures var t := ReadFile(cur, 1);
      LineFinished(st, err, got, cur, if t.ok then err else cur.fault, character)
  {
  }

  /**
   * `read_line`: fills a `BufferSize` buffer one byte at a time, appending
   * each full buffer to the line, until a read fails, reads nothing or
   * reads `'\n'`. The status it returns is always 0.
   */
  method ReadLine(st: Stream, err: ErrorCode, chop: bool)
    returns (line: seq<byte>, status: bool, st': Stream, err': ErrorCode)
    requires st.Valid()
    ensures !status
    ensures LineRead(line, st', err') == LineSpec(st, err, chop)
  {
    ghost var seg := Readable(st);
    var character: byte := 0;
    status := true;
    line, st', err' := [], st, err;
    while status && character != Newline
      invariant status ==> character != Newline && err' == err && LinePrefix(st, line, st')
      invariant !status ==> LineFinished(st, err, line, st', err', character)
      decreases if status then 1 else 0, |seg| - |line|
    {
      var buffer := new byte[BufferSize];
      var index := 0;
      while index < BufferSize
        invariant 0 <= index <= BufferSize
        invariant character != Newline && err' == err
        invariant LinePrefix(st, line + buffer[..index], st')
      {
        ghost var got := line + buffer[..index];
        var t := ReadFile(st', 1);
        err' := if t.ok then err else st'.fault;
        if |t.bytes| > 0 {
          character := t.bytes[0];
        }
        if !t.ok || |t.bytes| == 0 {
          LineStopsAtEnd(st, err, got, st', character);
          status := false;
          break;
        }
        if character == Newline {
          LineStopsAtBreak(st, err, got, st');
          st' := t.st;
          status := false;
          break;
        }
        LineGrows(st, got, st');
        st' := t.st;
        buffer[index] := character;
        index := index + 1;
        assert line + buffer[..index] == got + [character];
      }
      line := line + buffer[..index];
    }
    if !chop && character == Newline {
      line := line + [Newline];
    }
  }

  /**
   * `read_line` consumes exactly the bytes of the line it returns with
   * `chop` off; with `chop` on, the same bytes less the final `'\n'`, and
   * no `'\n'` is left in the line.
   */
  lemma LineConsumes(st: Stream, err: ErrorCode)
    requires st.Valid()
    ensures var kept := LineSpec(st, err, false);
      kept.line == st.data[st.pos..kept.st.pos]
    ensures var kept := LineSpec(st, err, false); var chopped := LineSpec(st, err, true);
      && chopped.st == kept.st && chopped.err == kept.err
      && (kept.line == chopped.line || kept.line == chopped.line + [Newline])
      && Newline !in chopped.line
  {
    var seg := Readable(st);
    var i := NewlineIndex(seg);
    if i < |seg| {
      assert seg[..i] + [Newline] == seg[..i + 1];
    }
  }
}
