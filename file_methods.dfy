/**
 * What the methods of an open archived file do with their arguments
 * (src/file.c): the formats of `file:read` and `file:lines`, the options
 * of `file:seek`, and the step of the iterator `file:lines` returns. Every
 * function here works on the engine stream behind an open handle; the
 * checks for a closed handle live with the `File` class.
 */
module FileMethods {
  import opened Common
  import opened Engine
  import opened Reader

  /** The range of `lua_Integer`, a signed 64-bit integer. */
  const IntegerLimit: int := 0x8000_0000_0000_0000

  type LuaInteger = x: int | -IntegerLimit <= x < IntegerLimit

  /** The range of `lua_Unsigned`. */
  const UnsignedLimit: int := 0x1_0000_0000_0000_0000

  /** The conversion of a `lua_Integer` to `lua_Unsigned` (two's complement). */
  function ToUnsigned(n: LuaInteger): (u: nat)
    ensures u < UnsignedLimit
    ensures n >= 0 ==> u == n
    ensures n < 0 ==> u >= IntegerLimit && (u - n) % UnsignedLimit == 0
  {
    if n < 0 then n + UnsignedLimit else n
  }

  /**
   * One argument of `file:read`: an integer, a string, or anything else
   * (a number with no integer representation, a table, ...), which Lua's
   * argument checks refuse.
   */
  datatype Format = Count(n: LuaInteger) | Text(s: string) | Unusable

  /** What a format asks of the file. */
  datatype Action = Characters(count: nat) | Line(chop: bool) | All | Invalid

  /**
   * The action a format selects: a count reads that many bytes (as an
   * unsigned number); a string may start with one `'*'`, and then only its
   * first character counts: `'l'`, `'L'` or `'a'`.
   */
  function ActionOf(f: Format): Action {
    match f
    case Count(n) => Characters(ToUnsigned(n))
    case Unusable => Invalid
    case Text(s) =>
      var d := if |s| > 0 && s[0] == '*' then s[1..] else s;
      if |d| == 0 then Invalid
      else if d[0] == 'l' then Line(true)
      else if d[0] == 'L' then Line(false)
      else if d[0] == 'a' then All
      else Invalid
  }

  /** The outcome of one format: the bytes it pushed and the state after it. */
  datatype Step = Step(bytes: seq<byte>, status: bool, st: Stream, err: ErrorCode)

  /**
   * One format of `file:read`: `read_characters` for a count,
   * `read_line` for `'l'` and `'L'` (whose status is always 0), and
   * `read_characters` of the whole file size for `'a'`, whose status is
   * not looked at.
   */
  function Perform(st: Stream, err: ErrorCode, a: Action): (s: Step)
    requires st.Valid() && !a.Invalid?
    ensures s.st.Valid() && s.st.data == st.data
    ensures s.st.faultPos == st.faultPos && s.st.fault == st.fault
    ensures a.Line? ==> !s.status
    ensures a.All? ==> s.status && s.bytes == Readable(st)
  {
    match a
    case Characters(n) =>
      var r := CharsSpec(st, err, n);
      Step(r.chars, r.status, r.st, r.err)
    case Line(chop) =>
      var r := LineSpec(st, err, chop);
      Step(r.line, false, r.st, r.err)
    case All =>
      var r := CharsSpec(st, err, |st.data|);
      Step(r.chars, true, r.st, r.err)
  }

  /**
   * A run of formats: the values pushed and the status of the last one,
   * or the argument error raised at a stack position.
   */
  datatype Run =
    | Ran(values: seq<Value>, status: bool, st: Stream, err: ErrorCode)
    | Rejected(position: nat, st: Stream, err: ErrorCode)

  /** `values` pushed before the run `r`. */
  function Prefix(values: seq<Value>, r: Run): Run {
    match r
    case Ran(rest, status, st, err) => Ran(values + rest, status, st, err)
    case Rejected(_, _, _) => r
  }

  /**
   * The loop of `file_read` over `fs`, the first of which sits at stack
   * position `position`: formats run in order while the status is 1; an
   * invalid format raises an argument error at its position.
   */
  function RunFormats(st: Stream, err: ErrorCode, fs: seq<Format>, position: nat): (r: Run)
    requires st.Valid()
    ensures r.st.Valid() && r.st.data == st.data
    ensures r.st.faultPos == st.faultPos && r.st.fault == st.fault
    ensures r.Ran? ==> |r.values| <= |fs| && forall v | v in r.values :: v.Bytes?
    ensures r.Ran? && r.status ==> |r.values| == |fs|
    ensures r.Ran? && !r.status ==> |r.values| > 0
    ensures r.Ran? ==> forall j | 0 <= j < |r.values| :: !ActionOf(fs[j]).Invalid?
    ensures r.Rejected? ==> position <= r.position < position + |fs|
    ensures r.Rejected? ==>
      && ActionOf(fs[r.position - position]).Invalid?
      && forall j | 0 <= j < r.position - position :: !ActionOf(fs[j]).Invalid?
    decreases |fs|
  {
    if fs == [] then Ran([], true, st, err)
    else
      var a := ActionOf(fs[0]);
      if a.Invalid? then Rejected(position, st, err)
      else
        var s := Perform(st, err, a);
        if !s.status then Ran([Bytes(s.bytes)], false, s.st, s.err)
        else Prefix([Bytes(s.bytes)], RunFormats(s.st, s.err, fs[1..], position + 1))
  }

  /** What a call leaves behind: its reply, the engine stream and the last error. */
  datatype Outcome = Outcome(reply: Reply, st: Stream, err: ErrorCode)

  /** The formats `file:read` uses: `"l"` when none is given. */
  function Effective(formats: seq<Format>): (fs: seq<Format>)
    ensures |fs| > 0
  {
    if formats == [] then [Text("l")] else formats
  }

  /**
   * How `file_read` ends a run: one that stopped on a genuine error returns
   * the failure triple, and one that stopped on an empty string replaces it
   * with `nil`.
   */
  function Conclude(r: Run): (o: Outcome)
    requires r.Ran? && !r.status ==> |r.values| > 0
  {
    match r
    case Rejected(p, st', err') => Outcome(Raises(BadArgument(p)), st', err')
    case Ran(values, status, st', err') =>
      if !status && err' != ERROR_SUCCESS then
        Outcome(Returns(CascResult(false, err')), st', err')
      else if !status && values[|values| - 1] == Bytes([]) then
        Outcome(Returns(values[..|values| - 1] + [Nil]), st', err')
      else
        Outcome(Returns(values), st', err')
  }

  /**
   * `file:read (...)` on an open file: the formats run with the last error
   * cleared, and the run is concluded as `Conclude` says. Formats 1, 2, ...
   * sit at stack positions 2, 3, ....
   */
  function Read(st: Stream, formats: seq<Format>): (o: Outcome)
    requires st.Valid()
    ensures o.st.Valid() && o.st.data == st.data
    ensures o.st.faultPos == st.faultPos && o.st.fault == st.fault
    ensures o.reply.Raises? ==>
      o.reply.raise.BadArgument? && 2 <= o.reply.raise.position < 2 + |formats|
    ensures o.reply.Returns? && !IsErrorTriple(o.reply.values) ==>
      0 < |o.reply.values| <= |Effective(formats)|
      && forall v | v in o.reply.values :: v.Bytes? || v == Nil
  {
    Conclude(RunFormats(st, ERROR_SUCCESS, Effective(formats), 2))
  }

  /** Running one more format extends the values pushed so far. */
  lemma Advance(st: Stream, err: ErrorCode, fs: seq<Format>, index: nat, values: seq<Value>)
    requires st.Valid() && index < |fs| && !ActionOf(fs[index]).Invalid?
    ensures var s := Perform(st, err, ActionOf(fs[index]));
      var sofar := Prefix(values, RunFormats(st, err, fs[index..], 2 + index));
      if s.status then
        sofar == Prefix(values + [Bytes(s.bytes)], RunFormats(s.st, s.err, fs[index + 1..], 2 + index + 1))
      else
        sofar == Ran(values + [Bytes(s.bytes)], false, s.st, s.err)
  {
    var s := Perform(st, err, ActionOf(fs[index]));
    assert fs[index..][1..] == fs[index + 1..];
    if s.status {
      var r := RunFormats(s.st, s.err, fs[index + 1..], 2 + index + 1);
      if r.Ran? {
        assert values + ([Bytes(s.bytes)] + r.values) == (values + [Bytes(s.bytes)]) + r.values;
      }
    }
  }

  /** `whole` is what is left of the run of `fs` once `values` are pushed and `index` formats run. */
  ghost predicate Resumes(whole: Run, values: seq<Value>, st: Stream, err: ErrorCode, fs: seq<Format>, index: nat)
  {
    st.Valid() && index <= |fs| && whole == Prefix(values, RunFormats(st, err, fs[index..], 2 + index))
  }

  /** The body of `file_read`'s loop for one valid format. */
  method Execute(st: Stream, err: ErrorCode, action: Action)
    returns (bytes: seq<byte>, status: bool, st': Stream, err': ErrorCode)
    requires st.Valid() && !action.Invalid?
    ensures Step(bytes, status, st', err') == Perform(st, err, action)
  {
    ghost var requests: seq<nat>;
    match action
    case Characters(n) =>
      bytes, status, st', err', requests := ReadCharacters(st, err, n);
    case Line(chop) =>
      bytes, status, st', err' := ReadLine(st, err, chop);
    case All =>
      bytes, status, st', err', requests := ReadCharacters(st, err, |st.data|);
      status := true;
  }

  /**
   * The loop of `file_read`, one engine call at a time through the two
   * readers; proved to do what `Read` describes.
   */
  method ReadFormats(st: Stream, formats: seq<Format>) returns (reply: Reply, st': Stream, err': ErrorCode)
    requires st.Valid()
    ensures Outcome(reply, st', err') == Read(st, formats)
  {
    var fs := Effective(formats);
    st', err' := st, ERROR_SUCCESS;
    ghost var whole := RunFormats(st, ERROR_SUCCESS, fs, 2);
    var status := true;
    var values: seq<Value> := [];
    var index: nat := 0;
    assert fs[index..] == fs;
    assert whole.Ran? ==> [] + whole.values == whole.values;
    while index < |fs| && status
      invariant index <= |fs| && st'.Valid()
      invariant status ==> Resumes(whole, values, st', err', fs, index)
      invariant !status ==> whole == Ran(values, false, st', err')
      decreases |fs| - index
    {
      var action := ActionOf(fs[index]);
      if action.Invalid? {
        return Raises(BadArgument(2 + index)), st', err';
      }
      Advance(st', err', fs, index, values);
      var bytes;
      bytes, status, st', err' := Execute(st', err', action);
      values := values + [Bytes(bytes)];
      index := index + 1;
    }
    if status {
      assert fs[index..] == [];
    }
    assert whole == Ran(values, status, st', err');
    if !status && err' != ERROR_SUCCESS {
      reply := Returns(CascResult(false, err'));
    } else if !status && values[|values| - 1] == Bytes([]) {
      reply := Returns(values[..|values| - 1] + [Nil]);
    } else {
      reply := Returns(values);
    }
  }

  /** A line format ends the list: `file_read` never looks at the formats after it. */
  lemma LineEndsRead(st: Stream, f: Format, rest: seq<Format>)
    requires st.Valid() && ActionOf(f).Line?
    ensures Read(st, [f] + rest) == Read(st, [f])
  {
    assert ([f] + rest)[0] == f;
  }

  /** `"a"` returns every readable byte, an empty string at the end, and never `nil`. */
  lemma ReadAllReturnsRest(st: Stream)
    requires st.Valid()
    ensures var o := Read(st, [Text("a")]);
      o.reply == Returns([Bytes(Readable(st))]) && o.st.pos == st.pos + Avail(st)
  {
    assert ActionOf(Text("a")) == All;
    assert [Text("a")][1..] == [];
  }

  /**
   * A count of 0 returns an empty string and moves nothing, even at the end
   * of the file (where the description of `file:read` promises `nil`).
   */
  lemma ReadZeroIsEmpty(st: Stream)
    requires st.Valid()
    ensures Read(st, [Count(0)]) == Outcome(Returns([Bytes([])]), st, ERROR_SUCCESS)
  {
    assert [Count(0)][1..] == [];
  }

  /** A count no larger than what is left reads exactly that many bytes. */
  lemma ReadCountWithin(st: Stream, n: LuaInteger)
    requires st.Valid() && 0 < n <= Avail(st)
    ensures var o := Read(st, [Count(n)]);
      o.reply == Returns([Bytes(st.data[st.pos..st.pos + n])]) && o.st.pos == st.pos + n
  {
    RoundUpBounds(Avail(st));
    var r := CharsSpec(st, ERROR_SUCCESS, n);
    assert r.status && r.chars == st.data[st.pos..st.pos + n];
    assert Perform(st, ERROR_SUCCESS, ActionOf(Count(n))) == Step(r.chars, true, r.st, r.err);
    assert [Count(n)][1..] == [];
    assert RunFormats(r.st, r.err, [], 3) == Ran([], true, r.st, r.err);
    assert RunFormats(st, ERROR_SUCCESS, [Count(n)], 2) == Ran([Bytes(r.chars)], true, r.st, r.err);
  }

  /** A positive count at the clean end of the file returns `nil`. */
  lemma ReadCountAtEnd(st: Stream, n: LuaInteger)
    requires st.Valid() && n > 0 && Avail(st) == 0 && !Faulted(st)
    ensures Read(st, [Count(n)]) == Outcome(Returns([Nil]), st, ERROR_SUCCESS)
  {
    assert RoundUp(0) == 0;
    assert st.(pos := st.pos + 0) == st;
  }

  /** A positive count at a read fault returns the failure triple of the fault. */
  lemma ReadCountAtFault(st: Stream, n: LuaInteger)
    requires st.Valid() && n > 0 && Faulted(st) && st.pos >= st.faultPos
    ensures Read(st, [Count(n)]) == Outcome(Returns(ErrorTriple(st.fault)), st, st.fault)
  {
    assert Avail(st) == 0 && RoundUp(0) == 0;
    assert st.(pos := st.pos + 0) == st;
  }

  /**
   * A negative count is taken as a huge unsigned one: it reads everything
   * that is left.
   */
  lemma NegativeCountReadsRest(st: Stream, n: LuaInteger)
    requires st.Valid() && n < 0 && 0 < Avail(st) && !Faulted(st)
    requires |st.data| < IntegerLimit - BufferSize
    ensures var o := Read(st, [Count(n)]);
      o.reply == Returns([Bytes(Readable(st))]) && o.st.pos == |st.data|
  {
    RoundUpBounds(Avail(st));
    assert [Count(n)][1..] == [];
  }

  /** `"l"` on an empty line returns `nil`, as it does at the end of the file. */
  lemma EmptyLineIsNil(st: Stream)
    requires st.Valid() && 0 < Avail(st) && st.data[st.pos] == Newline
    ensures var o := Read(st, [Text("l")]);
      o.reply == Returns([Nil]) && o.st.pos == st.pos + 1
  {
    var seg := Readable(st);
    assert seg[0] == Newline;
    assert NewlineIndex(seg) == 0;
    assert ActionOf(Text("l")) == Line(true);
  }

  /** `"l"` at the clean end of the file returns `nil`. */
  lemma LineAtEndIsNil(st: Stream)
    requires st.Valid() && Avail(st) == 0 && !Faulted(st)
    ensures Read(st, [Text("l")]) == Outcome(Returns([Nil]), st, ERROR_SUCCESS)
  {
    assert Readable(st) == [];
    assert ActionOf(Text("l")) == Line(true);
    assert st.(pos := st.pos + 0) == st;
  }

  /** The entry `"ab\ncd"`, read from `pos`. */
  function Sample(pos: nat): (st: Stream)
    ensures st.Valid() == (pos <= 5)
  {
    Stream([97, 98, 10, 99, 100], pos, 0, ERROR_SUCCESS)
  }

  /** Reading `"ab\ncd"`: `read ("l", "l")` returns only `"ab"`; the second format is never run. */
  lemma FirstLineOfSample()
    ensures Read(Sample(0), [Text("l"), Text("l")]) == Outcome(Returns([Bytes([97, 98])]), Sample(3), ERROR_SUCCESS)
  {
    var st := Sample(0);
    LineEndsRead(st, Text("l"), [Text("l")]);
    assert Readable(st) == [97, 98, 10, 99, 100];
    assert NewlineIndex([10, 99, 100]) == 0;
    assert NewlineIndex([98, 10, 99, 100]) == 1;
    assert NewlineIndex([97, 98, 10, 99, 100]) == 2;
    assert [97, 98, 10, 99, 100][..2] == [97, 98];
    assert ActionOf(Text("l")) == Line(true);
    assert LineSpec(st, ERROR_SUCCESS, true) == LineRead([97, 98], Sample(3), ERROR_SUCCESS);
    assert RunFormats(st, ERROR_SUCCESS, [Text("l")], 2) == Ran([Bytes([97, 98])], false, Sample(3), ERROR_SUCCESS);
  }

  /** Reading `"ab\ncd"` after its first line: `"cd"`, and then `nil`. */
  lemma LastLineOfSample()
    ensures Read(Sample(3), [Text("L")]) == Outcome(Returns([Bytes([99, 100])]), Sample(5), ERROR_SUCCESS)
    ensures Read(Sample(5), [Text("l")]) == Outcome(Returns([Nil]), Sample(5), ERROR_SUCCESS)
  {
    assert Readable(Sample(3)) == [99, 100];
    assert NewlineIndex([100]) == 1;
    assert NewlineIndex([99, 100]) == 2;
    assert ActionOf(Text("L")) == Line(false);
    LineAtEndIsNil(Sample(5));
  }

  /** One leading `'*'` is ignored (as Lua 5.1 spells formats); a second is not. */
  lemma StarIsSkipped(s: string)
    ensures ActionOf(Text("*" + s)) == if |s| > 0 && s[0] == '*' then Invalid else ActionOf(Text(s))
  {
    assert ("*" + s)[1..] == s;
  }

  /** The base options of `file:seek`; `"cur"` when none is given. */
  function WhenceOf(option: Option<string>): (w: Option<Whence>)
    ensures w.None? <==> option.Some? && option.value != "set" && option.value != "cur" && option.value != "end"
  {
    match option
    case None => Some(Current)
    case Some(s) =>
      if s == "set" then Some(Begin)
      else if s == "cur" then Some(Current)
      else if s == "end" then Some(End)
      else None
  }

  /**
   * `file:seek` on an open file: the new position, or the failure triple
   * with the position unchanged.
   */
  function Seek(st: Stream, err: ErrorCode, whence: Whence, offset: int): (o: Outcome)
    requires st.Valid()
    ensures o.st.Valid() && o.st.data == st.data
    ensures o.reply == Returns([Integer(Base(st, whence) + offset)]) <==> 0 <= Base(st, whence) + offset <= |st.data|
    ensures o.reply.Returns? && |o.reply.values| == 1 ==> o.st.pos == Base(st, whence) + offset && o.err == err
    ensures o.reply != Returns([Integer(Base(st, whence) + offset)]) ==>
      o.reply == Returns(ErrorTriple(ERROR_INVALID_PARAMETER)) && o.st == st
  {
    match SetFilePointer(st, offset, whence)
    case Some(st') => Outcome(Returns([Integer(st'.pos)]), st', err)
    case None => Outcome(Returns(CascResult(false, ERROR_INVALID_PARAMETER)), st, ERROR_INVALID_PARAMETER)
  }

  /**
   * The defaults of `file:seek`: `seek ()` reports the position, `seek
   * ("set")` rewinds to 0 and `seek ("end")` moves to the end and reports
   * the size.
   */
  lemma SeekDefaults(st: Stream, err: ErrorCode)
    requires st.Valid()
    ensures WhenceOf(None).Some? && WhenceOf(Some("set")).Some? && WhenceOf(Some("end")).Some?
    ensures var o := Seek(st, err, WhenceOf(None).value, 0);
      o.reply == Returns([Integer(st.pos)]) && o.st == st
    ensures var o := Seek(st, err, WhenceOf(Some("set")).value, 0);
      o.reply == Returns([Integer(0)]) && o.st.pos == 0
    ensures var o := Seek(st, err, WhenceOf(Some("end")).value, 0);
      o.reply == Returns([Integer(|st.data|)]) && o.st.pos == |st.data|
  {
    assert st.(pos := st.pos) == st;
  }

  /**
   * One call of the iterator of `file:lines`, given the values `file_read`
   * returned (none when the file was closed and nothing was read) and the
   * last error: the values when the first is true; otherwise the error
   * message raised, or nothing at the end of the file.
   */
  function LinesStep(results: seq<Value>, err: ErrorCode): (r: Reply)
    ensures r.Returns? && |r.values| > 0 <==> |results| > 0 && Truthy(results[0])
    ensures |results| > 0 && Truthy(results[0]) ==> r == Returns(results)
    ensures |results| > 0 && !Truthy(results[0]) ==>
      if |results| > 1 then r == Raises(Error(results[1])) else r == Returns([])
    ensures |results| == 0 ==>
      if err == ERROR_SUCCESS then r == Returns([]) else r == Raises(Error(ErrorText(err)))
  {
    if |results| > 0 && Truthy(results[0]) then Returns(results)
    else
      var shown := if |results| == 0 then CascResult(false, err) else results;
      if |shown| > 1 then Raises(Error(shown[1])) else Returns([])
  }

  /**
   * The iterator of `file:lines ()` ends (returns nothing) at the clean end
   * of the file and also on an empty line, so a loop over the lines stops
   * at the first empty one; it raises the message of a read fault, and
   * returns a non-empty line that does not run into a fault.
   */
  lemma LinesEndsAtEnd(st: Stream, err: ErrorCode)
    requires st.Valid()
    ensures Avail(st) == 0 && !Faulted(st) ==> LinesStep(Read(st, []).reply.values, err) == Returns([])
    ensures Avail(st) == 0 && Faulted(st) ==> LinesStep(Read(st, []).reply.values, err) == Raises(Error(ErrorText(st.fault)))
    ensures 0 < Avail(st) && st.data[st.pos] == Newline ==> LinesStep(Read(st, []).reply.values, err) == Returns([])
    ensures 0 < Avail(st) && st.data[st.pos] != Newline && !Faulted(st) ==>
      LinesStep(Read(st, []).reply.values, err) == Read(st, []).reply
  {
    assert Effective([]) == [Text("l")];
    if Avail(st) == 0 && !Faulted(st) {
      LineAtEndIsNil(st);
    } else if 0 < Avail(st) && st.data[st.pos] == Newline {
      EmptyLineIsNil(st);
    } else if Avail(st) == 0 {
      assert Readable(st) == [];
      assert ActionOf(Text("l")) == Line(true);
    } else if st.data[st.pos] != Newline && !Faulted(st) {
      var seg := Readable(st);
      assert seg[0] != Newline;
      assert NewlineIndex(seg) > 0;
      assert ActionOf(Text("l")) == Line(true);
    }
  }
}
