/**
 * An in-memory stand-in for the archive engine (CascLib), reduced to what
 * the binding relies on. An open file is a byte sequence, a position and an
 * injectable read fault; a storage is a list of entry names for enumeration
 * and a map from names to entries for opening.
 */
module Engine {
  import opened Common

  /**
   * The engine's state behind one open file handle. When `fault` is not
   * `ERROR_SUCCESS` and `faultPos` lies within the data, every read that
   * starts at or beyond `faultPos` fails with `fault`.
   */
  datatype Stream = Stream(data: seq<byte>, pos: nat, faultPos: nat, fault: ErrorCode) {
    ghost predicate Valid() {
      pos <= |data|
    }
  }

  /** Whether reads of `st` eventually hit an injected fault. */
  predicate Faulted(st: Stream) {
    st.fault != ERROR_SUCCESS && st.faultPos <= |st.data|
  }

  /** The position at which reading stops: end of data, or the fault. */
  function Limit(st: Stream): (n: nat)
    ensures n <= |st.data|
  {
    if Faulted(st) then st.faultPos else |st.data|
  }

  /** How many bytes can still be read successfully from `st`. */
  function Avail(st: Stream): (n: nat)
    requires st.Valid()
    ensures n > 0 ==> st.pos + n == Limit(st)
    ensures st.pos + n <= |st.data|
  {
    if st.pos < Limit(st) then Limit(st) - st.pos else 0
  }

  /** The bytes that can still be read successfully from `st`. */
  function Readable(st: Stream): (s: seq<byte>)
    requires st.Valid()
    ensures |s| == Avail(st)
  {
    st.data[st.pos..st.pos + Avail(st)]
  }

  /** The outcome of one `CascReadFile` call. */
  datatype Transfer = Transfer(ok: bool, bytes: seq<byte>, st: Stream)

  /**
   * `CascReadFile (handle, buffer, n, &bytes_read)`: a failure at the fault,
   * otherwise at most `n` bytes from the current position (zero at the end).
   */
  function ReadFile(st: Stream, n: nat): (t: Transfer)
    requires st.Valid()
    ensures t.st.Valid() && t.st.data == st.data
    ensures t.st.faultPos == st.faultPos && t.st.fault == st.fault
    ensures !t.ok <==> Faulted(st) && st.pos >= st.faultPos
    ensures !t.ok ==> t.bytes == [] && t.st == st
    ensures t.ok ==> |t.bytes| == (if n < Avail(st) then n else Avail(st))
    ensures t.ok ==> t.st.pos == st.pos + |t.bytes| && t.bytes == st.data[st.pos..t.st.pos]
  {
    if Faulted(st) && st.pos >= st.faultPos then
      Transfer(false, [], st)
    else
      var k := if n < Avail(st) then n else Avail(st);
      Transfer(true, st.data[st.pos..st.pos + k], st.(pos := st.pos + k))
  }

  /** The base of a seek: `FILE_BEGIN`, `FILE_CURRENT` or `FILE_END`. */
  datatype Whence = Begin | Current | End

  /** The position a seek from `whence` counts from. */
  function Base(st: Stream, whence: Whence): nat {
    match whence
    case Begin => 0
    case Current => st.pos
    case End => |st.data|
  }

  /**
   * `CascSetFilePointer64`: the new position is the base plus `offset`; a
   * position before the start or past the end of the entry is refused
   * (with `ERROR_INVALID_PARAMETER`), leaving the position where it was.
   */
  function SetFilePointer(st: Stream, offset: int, whence: Whence): (r: Option<Stream>)
    requires st.Valid()
    ensures r.Some? <==> 0 <= Base(st, whence) + offset <= |st.data|
    ensures r.Some? ==> r.value.Valid() && r.value == st.(pos := Base(st, whence) + offset)
  {
    var target := Base(st, whence) + offset;
    if 0 <= target <= |st.data| then Some(st.(pos := target)) else None
  }

  /** What the engine knows of one archive entry when it is opened. */
  datatype Entry = Entry(data: seq<byte>, faultPos: nat, fault: ErrorCode)

  /** The stream behind a freshly opened handle to `e`: at position 0. */
  function OpenStream(e: Entry): (st: Stream)
    ensures st.Valid() && st.pos == 0 && st.data == e.data
  {
    Stream(e.data, 0, e.faultPos, e.fault)
  }

  /**
   * An opened archive: the entry names in enumeration order, the entries by
   * name, and the error code the engine sets once enumeration has no
   * further name (`ERROR_SUCCESS` for a clean end, anything else for an
   * enumeration failure), or `None` when it sets none and the thread's last
   * error stays whatever an earlier call left.
   */
  datatype Archive = Archive(names: seq<string>, entries: map<string, Entry>, findFault: Option<ErrorCode>)

  /** The thread's last error after a search of `a` runs out of names, given the one before. */
  function SearchEnd(a: Archive, last: ErrorCode): (e: ErrorCode)
    ensures a.findFault.None? ==> e == last
    ensures a.findFault.Some? ==> e == a.findFault.value
  {
    match a.findFault
    case Some(code) => code
    case None => last
  }

  /** The result of `CascOpenStorageEx`: a live handle, or an error code. */
  datatype Opening = Opened(handle: LiveHandle, archive: Archive) | OpenFailed(code: ErrorCode)
}
