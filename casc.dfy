/**
 * The objects of the binding and their lifecycle. A storage owns a
 * registry of the files and finders opened through it (src/registry.c);
 * closing the storage closes them all before the engine storage
 * (src/storage.c), and a file (src/file.c) or a finder (src/finder.c)
 * removes itself from the registry when it is closed. The thread's last
 * error is the state shared by `SetLastError` and `GetLastError`.
 */
module Casc {
  import opened Common
  import opened Engine
  import opened FileMethods
  import opened Enumeration

  /** The calling thread's last error. */
  class ThreadState {
    var lastError: ErrorCode

    constructor ()
      ensures lastError == ERROR_SUCCESS
    {
      lastError := ERROR_SUCCESS;
    }
  }

  /** A registry entry: the file or finder registered under a handle. */
  datatype Child = FileChild(file: File) | FinderChild(finder: Finder)

  function Object(c: Child): object {
    match c
    case FileChild(f) => f
    case FinderChild(g) => g
  }

  /** A child as its `close` leaves it: no handle, and a file no longer tied to a storage. */
  ghost predicate Closed(c: Child)
    reads Object(c)
  {
    match c
    case FileChild(f) => f.handle == Null && f.storage == null
    case FinderChild(g) => g.handle == Null
  }

  /** What a call that may create an object hands back to Lua. */
  datatype Call<T> = Created(obj: T) | Returned(values: seq<Value>) | Raised(raise: Raise)

  /** The modes `storage:open` accepts: `"r"` (the default) and `"rb"`. */
  predicate ModeAccepted(mode: Option<string>) {
    mode.None? || mode.value == "r" || mode.value == "rb"
  }

  /** `LINES_MAXIMUM_ARGUMENTS`: the most formats `file:lines` keeps. */
  const LinesMaximumArguments: nat := 250

  /**
   * `casc_storage_initialize`: a new storage when the engine opened the
   * archive, the failure result otherwise.
   */
  method OpenStorage(opening: Opening, thread: ThreadState) returns (r: Call<Storage>)
    modifies thread
    ensures opening.OpenFailed? ==>
      r == Returned(CascResult(false, opening.code)) && thread.lastError == opening.code
    ensures opening.Opened? ==>
      && r.Created? && fresh(r.obj) && r.obj.Valid()
      && r.obj.handle == opening.handle && r.obj.archive == opening.archive
      && r.obj.registry == map[] && thread.lastError == old(thread.lastError)
  {
    match opening
    case OpenFailed(code) =>
      thread.lastError := code;
      r := Returned(CascResult(false, thread.lastError));
    case Opened(handle, archive) =>
      var storage := new Storage(handle, archive);
      r := Created(storage);
  }

  class Storage {
    /** The engine's storage handle; `Null` once closed. */
    var handle: Handle
    /** The registry table of this storage: child handle to child. */
    var registry: map<Handle, Child>
    /** The next handle the engine hands out for a file or a search. */
    var issued: LiveHandle
    /** What the engine serves from this storage. */
    const archive: Archive

    ghost function Children(): set<object>
      reads this
    {
      set h | h in registry :: Object(registry[h])
    }

    /** `c` holds `h` and was opened through this storage. */
    ghost predicate Owns(h: Handle, c: Child)
      reads Object(c)
    {
      match c
      case FileChild(f) => f.handle == h && f.storage == this
      case FinderChild(g) => g.handle == h && g.storage == this && g.cursor <= |archive.names|
    }

    /**
     * A closed storage has an empty registry, and every entry is a live
     * child of this storage registered under the handle it holds.
     */
    ghost predicate Valid()
      reads this, Children()
    {
      && (handle == Null ==> registry == map[])
      && forall h | h in registry :: 0 < h < issued && Owns(h, registry[h])
    }

    /** The storage behind an open engine handle, with `casc_registry_open`'s empty table. */
    constructor (handle: LiveHandle, archive: Archive)
      ensures this.handle == handle && this.archive == archive
      ensures registry == map[] && Valid()
    {
      this.handle := handle;
      this.archive := archive;
      registry := map[];
      issued := 1;
    }

    /** `registry_insert`: enters `c` under `h`, replacing whatever was there. */
    method Insert(h: Handle, c: Child)
      modifies this
      ensures registry == old(registry)[h := c]
      ensures handle == old(handle) && issued == old(issued)
    {
      registry := registry[h := c];
    }

    /** `registry_remove`: drops the entry under `h`, if there is one. */
    method Remove(h: Handle)
      requires Valid()
      modifies this
      ensures registry == old(registry) - {h}
      ensures handle == old(handle) && issued == old(issued)
      ensures Valid()
    {
      registry := registry - {h};
    }

    /**
     * `storage_files`: a new finder, not yet bound to an engine search and
     * not yet registered; the failure triple on a closed storage.
     */
    method Files(pattern: Option<string>, plain: bool, find: (string, string) -> bool, thread: ThreadState)
      returns (r: Call<Finder>)
      modifies thread
      ensures handle == Null ==>
        r == Returned(ErrorTriple(ERROR_INVALID_HANDLE)) && thread.lastError == ERROR_INVALID_HANDLE
      ensures handle != Null ==>
        && r.Created? && fresh(r.obj) && r.obj.handle == Null && r.obj.storage == this
        && r.obj.filter == Filter(pattern, plain) && r.obj.find == find
        && thread.lastError == old(thread.lastError)
    {
      if handle == Null {
        thread.lastError := ERROR_INVALID_HANDLE;
        return Returned(CascResult(false, thread.lastError));
      }
      var finder := new Finder(this, Filter(pattern, plain), find);
      r := Created(finder);
    }

    /**
     * `storage_open` with `casc_file_initialize`: on an open storage and an
     * accepted mode, a new file at the start of the named entry, registered
     * under a fresh handle. The handle is checked before the mode.
     */
    method Open(name: string, mode: Option<string>, thread: ThreadState) returns (r: Call<File>)
      requires Valid()
      modifies this, thread
      ensures Valid() && handle == old(handle)
      ensures old(handle) == Null ==>
        && r == Returned(ErrorTriple(ERROR_INVALID_HANDLE)) && thread.lastError == ERROR_INVALID_HANDLE
        && registry == old(registry)
      ensures old(handle) != Null && !ModeAccepted(mode) ==>
        r == Raised(BadArgument(3)) && registry == old(registry) && thread.lastError == old(thread.lastError)
      ensures old(handle) != Null && ModeAccepted(mode) && name !in archive.entries ==>
        && r == Returned(ErrorTriple(ERROR_FILE_NOT_FOUND)) && thread.lastError == ERROR_FILE_NOT_FOUND
        && registry == old(registry)
      ensures old(handle) != Null && ModeAccepted(mode) && name in archive.entries ==>
        && r.Created? && fresh(r.obj) && r.obj.Valid()
        && r.obj.handle != Null && r.obj.handle !in old(registry)
        && r.obj.storage == this && r.obj.stream == OpenStream(archive.entries[name])
        && registry == old(registry)[r.obj.handle := FileChild(r.obj)]
        && thread.lastError == old(thread.lastError)
    {
      if handle == Null {
        thread.lastError := ERROR_INVALID_HANDLE;
        return Returned(CascResult(false, thread.lastError));
      }
      if !ModeAccepted(mode) {
        return Raised(BadArgument(3));
      }
      if name !in archive.entries {
        thread.lastError := ERROR_FILE_NOT_FOUND;
        return Returned(CascResult(false, thread.lastError));
      }
      var h := issued;
      issued := issued + 1;
      var file := new File(h, this, OpenStream(archive.entries[name]));
      Insert(h, FileChild(file));
      r := Created(file);
    }

    /**
     * `storage_close`: on an open storage, closes every registered child
     * (`casc_registry_close`, in whatever order the table yields them),
     * then the engine storage, and clears the handle; on a closed storage,
     * fails with `ERROR_INVALID_HANDLE`. Finalisation runs the same code.
     */
    method Close(thread: ThreadState) returns (values: seq<Value>)
      requires Valid()
      modifies this, thread, Children()
      ensures Valid() && handle == Null && registry == map[]
      ensures old(handle) == Null ==>
        values == ErrorTriple(ERROR_INVALID_HANDLE) && thread.lastError == ERROR_INVALID_HANDLE
      ensures old(handle) != Null ==>
        values == [Boolean(true)] && thread.lastError == old(thread.lastError)
      ensures forall h | h in old(registry) :: Closed(old(registry)[h])
      ensures forall h | h in old(registry) && old(registry)[h].FileChild? ::
        old(registry)[h].file.stream == old(registry[h].file.stream)
    {
      if handle == Null {
        thread.lastError := ERROR_INVALID_HANDLE;
        return CascResult(false, thread.lastError);
      }
      CloseRegistry(thread);
      handle := Null;
      values := CascResult(true, thread.lastError);
    }

    /**
     * `casc_registry_close`: every child registered in the table closes
     * itself, which leaves the table empty and every former child closed;
     * the files keep their streams.
     */
    method CloseRegistry(thread: ThreadState)
      requires Valid() && handle != Null
      modifies this, thread, Children()
      ensures Valid() && registry == map[] && handle == old(handle)
      ensures thread.lastError == old(thread.lastError)
      ensures forall h | h in old(registry) :: Closed(old(registry)[h])
      ensures forall h | h in old(registry) && old(registry)[h].FileChild? ::
        old(registry)[h].file.stream == old(registry[h].file.stream)
    {
      while registry != map[]
        invariant Valid() && handle == old(handle)
        invariant forall h | h in registry :: h in old(registry) && registry[h] == old(registry)[h]
        invariant forall h | h in old(registry) && h !in registry :: Closed(old(registry)[h])
        invariant forall h | h in old(registry) && old(registry)[h].FileChild? ::
          old(registry)[h].file.stream == old(registry[h].file.stream)
        invariant thread.lastError == old(thread.lastError)
        decreases registry.Keys
      {
        var h :| h in registry;
        ghost var child := registry[h];
        forall k | k in old(registry) && k != h
          ensures Object(old(registry)[k]) != Object(child)
        {
          assert Owns(h, child);
          if k in registry {
            assert Owns(k, registry[k]);
          }
        }
        CloseChild(h, thread);
      }
    }

    /**
     * One step of `casc_registry_close`: the child under `h` closes itself
     * and leaves the table; a file keeps its stream.
     */
    method CloseChild(h: Handle, thread: ThreadState)
      requires Valid() && h in registry
      modifies this, thread, Object(registry[h])
      ensures Valid() && registry == old(registry) - {h}
      ensures handle == old(handle) && issued == old(issued)
      ensures Closed(old(registry)[h]) && thread.lastError == old(thread.lastError)
      ensures old(registry)[h].FileChild? ==> old(registry)[h].file.stream == old(registry[h].file.stream)
    {
      assert Owns(h, registry[h]);
      match registry[h]
      case FileChild(f) =>
        var ignored := f.Close(thread);
      case FinderChild(g) =>
        var ignored := g.Close(thread);
    }

    /** `storage_to_string`, without the object's address. */
    function Text(): (s: string)
      reads this
      ensures |s| >= 8 && (s[|s| - 8..] == "(Closed)" <==> handle == Null)
    {
      if handle == Null then "Casc Storage (Closed)" else "Casc Storage"
    }
  }

  class File {
    /** The engine's file handle; `Null` once closed. */
    var handle: Handle
    /** The storage the file was opened through; cleared by `close`. */
    var storage: Storage?
    /** The engine's state behind the handle. */
    var stream: Stream

    /** An open file is registered in its storage under its handle. */
    ghost predicate Registered()
      reads this, storage
    {
      && (handle != Null <==> storage != null)
      && (handle != Null ==> handle in storage.registry && storage.registry[handle] == FileChild(this))
    }

    ghost predicate Valid()
      reads this, storage
    {
      stream.Valid() && Registered()
    }

    constructor (handle: LiveHandle, storage: Storage, stream: Stream)
      requires stream.Valid()
      ensures this.handle == handle && this.storage == storage && this.stream == stream
    {
      this.handle := handle;
      this.storage := storage;
      this.stream := stream;
    }

    /**
     * `file:seek ([whence [, offset]])`: an unknown `whence` raises an
     * argument error before the handle is looked at; a closed file fails
     * with `ERROR_INVALID_HANDLE`; otherwise the engine moves the position.
     */
    method Seek(option: Option<string>, offset: LuaInteger, thread: ThreadState) returns (reply: Reply)
      requires Valid()
      modifies this, thread
      ensures Valid() && handle == old(handle) && storage == old(storage)
      ensures WhenceOf(option).None? ==>
        reply == Raises(BadArgument(2)) && stream == old(stream) && thread.lastError == old(thread.lastError)
      ensures WhenceOf(option).Some? && handle == Null ==>
        && reply == Returns(ErrorTriple(ERROR_INVALID_HANDLE)) && stream == old(stream)
        && thread.lastError == ERROR_INVALID_HANDLE
      ensures WhenceOf(option).Some? && handle != Null ==>
        Outcome(reply, stream, thread.lastError)
          == FileMethods.Seek(old(stream), old(thread.lastError), WhenceOf(option).value, offset)
    {
      var whence := WhenceOf(option);
      if whence.None? {
        return Raises(BadArgument(2));
      }
      if handle == Null {
        thread.lastError := ERROR_INVALID_HANDLE;
        return Returns(CascResult(false, thread.lastError));
      }
      var o := FileMethods.Seek(stream, thread.lastError, whence.value, offset);
      reply, stream, thread.lastError := o.reply, o.st, o.err;
    }

    /**
     * `file:read (...)`: a closed file fails with `ERROR_INVALID_HANDLE`;
     * otherwise the formats run as `FileMethods.Read` describes.
     */
    method Read(formats: seq<Format>, thread: ThreadState) returns (reply: Reply)
      requires Valid()
      modifies this, thread
      ensures Valid() && handle == old(handle) && storage == old(storage)
      ensures handle == Null ==>
        && reply == Returns(ErrorTriple(ERROR_INVALID_HANDLE)) && stream == old(stream)
        && thread.lastError == ERROR_INVALID_HANDLE
      ensures handle != Null ==>
        Outcome(reply, stream, thread.lastError) == FileMethods.Read(old(stream), formats)
    {
      if handle == Null {
        thread.lastError := ERROR_INVALID_HANDLE;
        return Returns(CascResult(false, thread.lastError));
      }
      reply, stream, thread.lastError := ReadFormats(stream, formats);
    }

    /**
     * `file:lines (...)`: an iterator over the file with the given formats;
     * the failure triple on a closed file, and an argument error at
     * position 251 for more than 250 formats.
     */
    method Lines(formats: seq<Format>, thread: ThreadState) returns (r: Call<LinesIterator>)
      modifies thread
      ensures handle == Null ==>
        r == Returned(ErrorTriple(ERROR_INVALID_HANDLE)) && thread.lastError == ERROR_INVALID_HANDLE
      ensures handle != Null && |formats| > LinesMaximumArguments ==>
        r == Raised(BadArgument(LinesMaximumArguments + 1)) && thread.lastError == old(thread.lastError)
      ensures handle != Null && |formats| <= LinesMaximumArguments ==>
        && r.Created? && fresh(r.obj) && r.obj.file == this && r.obj.formats == formats
        && thread.lastError == old(thread.lastError)
    {
      if handle == Null {
        thread.lastError := ERROR_INVALID_HANDLE;
        return Returned(CascResult(false, thread.lastError));
      }
      if |formats| > LinesMaximumArguments {
        return Raised(BadArgument(LinesMaximumArguments + 1));
      }
      var lines := new LinesIterator(this, formats);
      r := Created(lines);
    }

    /** `file:write`: archived files are read-only, so it always fails. */
    method Write(thread: ThreadState) returns (values: seq<Value>)
      modifies thread
      ensures values == ErrorTriple(ERROR_INVALID_HANDLE) && thread.lastError == ERROR_INVALID_HANDLE
    {
      thread.lastError := ERROR_INVALID_HANDLE;
      values := CascResult(false, thread.lastError);
    }

    /** `file:setvbuf`: nothing to do; `true` on an open file. */
    method Setvbuf(thread: ThreadState) returns (values: seq<Value>)
      modifies thread
      ensures handle == Null ==>
        values == ErrorTriple(ERROR_INVALID_HANDLE) && thread.lastError == ERROR_INVALID_HANDLE
      ensures handle != Null ==> values == [Boolean(true)] && thread.lastError == old(thread.lastError)
    {
      var status := true;
      if handle == Null {
        thread.lastError := ERROR_INVALID_HANDLE;
        status := false;
      }
      values := CascResult(status, thread.lastError);
    }

    /** `file:flush`: nothing to do; `true` on an open file. */
    method Flush(thread: ThreadState) returns (values: seq<Value>)
      modifies thread
      ensures handle == Null ==>
        values == ErrorTriple(ERROR_INVALID_HANDLE) && thread.lastError == ERROR_INVALID_HANDLE
      ensures handle != Null ==> values == [Boolean(true)] && thread.lastError == old(thread.lastError)
    {
      var status := true;
      if handle == Null {
        thread.lastError := ERROR_INVALID_HANDLE;
        status := false;
      }
      values := CascResult(status, thread.lastError);
    }

    /**
     * `file:close`: an open file leaves its storage's registry, closes its
     * engine handle and forgets its storage; the handle is `Null`
     * afterwards either way, so a second close fails with
     * `ERROR_INVALID_HANDLE`. Finalisation runs the same code.
     */
    method Close(thread: ThreadState) returns (values: seq<Value>)
      requires Registered() && (storage != null ==> storage.Valid())
      modifies this, storage, thread
      ensures handle == Null && storage == null && stream == old(stream)
      ensures old(handle) == Null ==>
        values == ErrorTriple(ERROR_INVALID_HANDLE) && thread.lastError == ERROR_INVALID_HANDLE
      ensures old(handle) != Null ==>
        && values == [Boolean(true)] && thread.lastError == old(thread.lastError)
        && old(storage).registry == old(storage.registry) - {old(handle)}
        && old(storage).handle == old(storage.handle) && old(storage).issued == old(storage.issued)
        && old(storage).Valid()
    {
      var status := false;
      if handle == Null {
        thread.lastError := ERROR_INVALID_HANDLE;
      } else {
        var owner := storage;
        owner.Remove(handle);
        assert this !in owner.Children() by {
          forall k | k in owner.registry
            ensures Object(owner.registry[k]) != this
          {
            assert owner.Owns(k, owner.registry[k]);
          }
        }
        status := true;
        storage := null;
      }
      handle := Null;
      values := CascResult(status, thread.lastError);
    }
  }

  /** The iterator `file:lines` returns: the file and the formats it was given. */
  class LinesIterator {
    const file: File
    const formats: seq<Format>

    constructor (file: File, formats: seq<Format>)
      ensures this.file == file && this.formats == formats
    {
      this.file := file;
      this.formats := formats;
    }

    /**
     * `lines_iterator`: one `file:read` with the stored formats. A closed
     * file raises the `ERROR_INVALID_HANDLE` message; otherwise the reply
     * is `LinesStep` of what the read returned.
     */
    method Call(thread: ThreadState) returns (reply: Reply)
      requires file.Valid()
      modifies file, thread
      ensures file.Valid() && file.handle == old(file.handle) && file.storage == old(file.storage)
      ensures file.handle == Null ==>
        reply == Raises(Error(ErrorText(ERROR_INVALID_HANDLE))) && thread.lastError == ERROR_INVALID_HANDLE
      ensures file.handle != Null ==>
        var o := FileMethods.Read(old(file.stream), formats);
        && file.stream == o.st && thread.lastError == o.err
        && reply == (if o.reply.Raises? then o.reply else LinesStep(o.reply.values, o.err))
    {
      if file.handle == Null {
        thread.lastError := ERROR_INVALID_HANDLE;
        return LinesStep([], thread.lastError);
      }
      var results := file.Read(formats, thread);
      if results.Raises? {
        return results;
      }
      reply := LinesStep(results.values, thread.lastError);
    }
  }

  class Finder {
    /** The engine's search handle; `Null` until the first step and after the search ends. */
    var handle: Handle
    /** The index of the name the engine's search returns next. */
    var cursor: nat
    /** The storage the finder searches. */
    const storage: Storage
    /** The pattern and `plain` flag the finder was created with. */
    const filter: Filter
    /** Lua's pattern matcher, left uninterpreted. */
    const find: (string, string) -> bool

    /** A bound finder is registered in its storage under its handle. */
    ghost predicate Registered()
      reads this, storage
    {
      handle != Null ==>
        && handle in storage.registry && storage.registry[handle] == FinderChild(this)
        && cursor <= |storage.archive.names|
    }

    /** `casc_finder_initialize`: not yet bound to an engine search. */
    constructor (storage: Storage, filter: Filter, find: (string, string) -> bool)
      ensures handle == Null && this.storage == storage && this.filter == filter && this.find == find
    {
      handle := Null;
      cursor := 0;
      this.storage := storage;
      this.filter := filter;
      this.find := find;
    }

    /**
     * The index of the name the next call yields: the first kept name from
     * the cursor of a bound finder, or from the first name when the search
     * starts anew on an open storage.
     */
    function Upcoming(bound: bool, from: nat, open: bool): (r: Option<nat>)
      ensures r.Some? ==> r.value < |storage.archive.names|
    {
      if !bound && !open then None
      else NextMatch(storage.archive.names, if bound then from else 0, filter, find)
    }

    /**
     * The last error once the search has no next name, given the one before:
     * the search of a closed storage fails with `ERROR_INVALID_HANDLE`;
     * otherwise the engine's end of enumeration decides, and when it sets no
     * error the earlier one stands.
     */
    function EndCode(bound: bool, open: bool, last: ErrorCode): (e: ErrorCode)
      ensures !bound && !open ==> e == ERROR_INVALID_HANDLE
      ensures (bound || open) && storage.archive.findFault.None? ==> e == last
    {
      if !bound && !open then ERROR_INVALID_HANDLE else SearchEnd(storage.archive, last)
    }

    /**
     * `finder_iterator`: the next name the filter keeps. An unbound finder
     * starts the engine's search and registers itself; once no name is
     * left, the finder closes itself, and the call returns nothing on a
     * clean end and raises the engine's error message otherwise. A finder
     * that has ended starts over on its next call.
     */
    method Next(thread: ThreadState) returns (reply: Reply)
      requires Registered() && storage.Valid()
      modifies this, storage, thread
      ensures Registered() && storage.Valid() && storage.handle == old(storage.handle)
      ensures
        var found := Upcoming(old(handle) != Null, old(cursor), old(storage.handle) != Null);
        match found
        case Some(i) =>
          && reply == Returns([Name(storage.archive.names[i])]) && handle != Null && cursor == i + 1
          && (old(handle) != Null ==> handle == old(handle))
          && (old(handle) == Null ==> handle !in old(storage.registry))
          && storage.registry == old(storage.registry)[handle := FinderChild(this)]
        case None =>
          var code := EndCode(old(handle) != Null, old(storage.handle) != Null, old(thread.lastError));
          && handle == Null && storage.registry == old(storage.registry) - {old(handle)}
          && reply == (if code == ERROR_SUCCESS then Returns([]) else Raises(Error(ErrorText(code))))
          && (code != ERROR_SUCCESS ==> thread.lastError == code)
    {
      var names := storage.archive.names;
      ghost var bound := handle != Null;
      ghost var from := if bound then cursor else 0;
      var status := false;
      var name: string := "";
      while true
        invariant Registered() && storage.Valid()
        invariant storage.handle == old(storage.handle) && thread.lastError == old(thread.lastError)
        invariant handle == Null ==> !bound && storage.registry == old(storage.registry)
        invariant handle != Null ==> from <= cursor <= |names|
        invariant handle != Null ==> storage.registry == old(storage.registry)[handle := FinderChild(this)]
        invariant handle != Null && bound ==> handle == old(handle)
        invariant handle != Null && !bound ==> handle !in old(storage.registry) && storage.handle != Null
        invariant handle != Null ==> forall j | from <= j < cursor :: !Accepts(names[j], filter, find)
        decreases if handle == Null then |names| + 1 else |names| - cursor
      {
        if handle == Null {
          status, name := First(thread);
        } else {
          status, name := Following(thread);
        }
        if !status {
          break;
        }
        if filter.pattern.Some? {
          status := Accepts(name, filter, find);
        }
        if status {
          break;
        }
      }
      if !status {
        reply := Stop(thread);
      } else {
        reply := Returns([Name(name)]);
      }
    }

    /**
     * The end of a search: the finder closes itself, and the call returns
     * nothing when the engine's last error is `ERROR_SUCCESS` and raises
     * its message otherwise.
     */
    method Stop(thread: ThreadState) returns (reply: Reply)
      requires Registered() && storage.Valid()
      modifies this, storage, thread
      ensures handle == Null && storage.Valid() && storage.handle == old(storage.handle)
      ensures storage.registry == old(storage.registry) - {old(handle)}
      ensures var code := old(thread.lastError);
        && reply == (if code == ERROR_SUCCESS then Returns([]) else Raises(Error(ErrorText(code))))
        && (code != ERROR_SUCCESS ==> thread.lastError == code)
    {
      var error := thread.lastError;
      assert Null !in storage.registry;
      var ignored := Close(thread);
      if error == ERROR_SUCCESS {
        reply := Returns([]);
      } else {
        thread.lastError := error;
        reply := Raises(Error(CascResult(false, error)[1]));
      }
    }

    /**
     * The first step of a search, as intended: `CascFindFirstFile` on the
     * storage, which hands out a fresh handle and the first name unless the
     * storage is closed or empty, and, exactly when it gave a handle, the
     * finder's registration under that handle.
     */
    method First(thread: ThreadState) returns (status: bool, name: string)
      requires handle == Null && storage.Valid()
      modifies this, storage, thread
      ensures storage.Valid() && storage.handle == old(storage.handle)
      ensures status <==> storage.handle != Null && |storage.archive.names| > 0
      ensures !status ==>
        && handle == Null && storage.registry == old(storage.registry)
        && thread.lastError == EndCode(false, storage.handle != Null, old(thread.lastError))
      ensures status ==>
        && handle != Null && handle !in old(storage.registry) && Registered()
        && cursor == 1 && name == storage.archive.names[0]
        && storage.registry == old(storage.registry)[handle := FinderChild(this)]
        && thread.lastError == old(thread.lastError)
    {
      var names := storage.archive.names;
      var first: Handle := Null;
      name := "";
      if storage.handle == Null {
        thread.lastError := ERROR_INVALID_HANDLE;
      } else if |names| == 0 {
        thread.lastError := SearchEnd(storage.archive, thread.lastError);
      } else {
        first := storage.issued;
        storage.issued := storage.issued + 1;
      }
      status := first != Null;
      if status {
        handle, cursor, name := first, 1, names[0];
        storage.Insert(handle, FinderChild(this));
      }
    }

    /**
     * The first step as written at src/finder.c:78, on an open storage: the
     * status tests the finder object, which is never null, rather than the
     * handle the engine returned. So the step always proceeds and registers
     * the finder, under `Null` when the storage has no entries, and that
     * entry breaks the registry's invariant. `First` is the step as intended.
     */
    method FirstAsWritten(thread: ThreadState) returns (status: bool)
      requires handle == Null && storage.Valid() && storage.handle != Null
      modifies this, storage, thread
      ensures status
      ensures storage.registry == old(storage.registry)[handle := FinderChild(this)]
      ensures handle == Null <==> |storage.archive.names| == 0
      ensures handle == Null ==> Null in storage.registry && !storage.Valid()
    {
      var names := storage.archive.names;
      if |names| == 0 {
        thread.lastError := SearchEnd(storage.archive, thread.lastError);
      } else {
        handle := storage.issued;
        storage.issued := storage.issued + 1;
        cursor := 1;
      }
      var finderIsNonNull := true;
      status := finderIsNonNull;
      if status {
        storage.Insert(handle, FinderChild(this));
      }
    }

    /** A later step of a search: `CascFindNextFile`, the name under the cursor. */
    method Following(thread: ThreadState) returns (status: bool, name: string)
      requires handle != Null && Registered() && storage.Valid()
      modifies this, thread
      ensures Registered() && storage.Valid() && handle == old(handle)
      ensures status <==> old(cursor) < |storage.archive.names|
      ensures status ==>
        && cursor == old(cursor) + 1 && name == storage.archive.names[old(cursor)]
        && thread.lastError == old(thread.lastError)
      ensures !status ==>
        cursor == old(cursor) && thread.lastError == SearchEnd(storage.archive, old(thread.lastError))
    {
      name := "";
      if cursor < |storage.archive.names| {
        name, cursor, status := storage.archive.names[cursor], cursor + 1, true;
      } else {
        thread.lastError := SearchEnd(storage.archive, thread.lastError);
        status := false;
      }
    }

    /**
     * `finder_close`: a bound finder leaves the registry, closes its engine
     * search and clears its handle; an unbound one fails with
     * `ERROR_INVALID_HANDLE`.
     */
    method Close(thread: ThreadState) returns (values: seq<Value>)
      requires Registered() && storage.Valid()
      modifies this, storage, thread
      ensures handle == Null && storage.Valid()
      ensures storage.handle == old(storage.handle) && storage.issued == old(storage.issued)
      ensures old(handle) == Null ==>
        && values == ErrorTriple(ERROR_INVALID_HANDLE) && thread.lastError == ERROR_INVALID_HANDLE
        && storage.registry == old(storage.registry)
      ensures old(handle) != Null ==>
        && values == [Boolean(true)] && thread.lastError == old(thread.lastError)
        && storage.registry == old(storage.registry) - {old(handle)}
    {
      var status := false;
      if handle == Null {
        thread.lastError := ERROR_INVALID_HANDLE;
      } else {
        storage.Remove(handle);
        assert this !in storage.Children() by {
          forall k | k in storage.registry
            ensures Object(storage.registry[k]) != this
          {
            assert storage.Owns(k, storage.registry[k]);
          }
        }
        status := true;
        handle := Null;
      }
      values := CascResult(status, thread.lastError);
    }
  }

  /**
   * A file closed by the close of its storage stays closed: reading,
   * seeking and closing it again all fail with `ERROR_INVALID_HANDLE`.
   */
  method UseAfterStorageClose(s: Storage, f: File, thread: ThreadState)
    returns (read: Reply, seek: Reply, again: seq<Value>)
    requires s.Valid() && f.Valid() && f.handle != Null && f.storage == s
    modifies s, thread, s.Children()
    ensures read == Returns(ErrorTriple(ERROR_INVALID_HANDLE))
    ensures seek == Returns(ErrorTriple(ERROR_INVALID_HANDLE))
    ensures again == ErrorTriple(ERROR_INVALID_HANDLE)
  {
    assert s.registry[f.handle] == FileChild(f);
    var closed := s.Close(thread);
    read := f.Read([], thread);
    seek := f.Seek(None, 0, thread);
    again := f.Close(thread);
  }

  /**
   * A search of a closed storage fails: after the storage closes, a finder
   * of it, bound or not, raises the `ERROR_INVALID_HANDLE` message.
   */
  method SearchAfterStorageClose(s: Storage, g: Finder, thread: ThreadState) returns (next: Reply)
    requires s.Valid() && g.storage == s && g.Registered()
    modifies s, g, thread, s.Children()
    ensures next == Raises(Error(ErrorText(ERROR_INVALID_HANDLE)))
  {
    var closed := s.Close(thread);
    next := g.Next(thread);
  }

  /**
   * An engine whose end of enumeration sets no error leaves the outcome of
   * a finished search to an earlier call: after `storage:open` of a missing
   * name, the last call of an exhausted finder raises the file-not-found
   * message instead of returning nothing.
   */
  method StaleErrorEndsSearch(s: Storage, g: Finder, missing: string, thread: ThreadState)
    returns (attempt: Call<File>, next: Reply)
    requires s.Valid() && s.handle != Null && missing !in s.archive.entries && s.archive.findFault.None?
    requires g.storage == s && g.Registered() && g.handle != Null && g.cursor == |s.archive.names|
    modifies s, g, thread
    ensures attempt == Returned(ErrorTriple(ERROR_FILE_NOT_FOUND))
    ensures next == Raises(Error(ErrorText(ERROR_FILE_NOT_FOUND)))
  {
    attempt := s.Open(missing, None, thread);
    next := g.Next(thread);
  }
}
