# lua-casclib, modelled in Dafny

lua-casclib exposes CascLib archives to Lua with three kinds of object:
- a **storage**: an opened archive, with `files`, `open`, `close` and `__tostring`;
- a **file**: an entry opened for reading, with `seek`, `read`, `lines`, `write`, `setvbuf`, `flush` and `close`, imitating Lua's own file handles;
- a **finder**: the state behind the iterator that `storage:files` returns.

Each storage keeps a **registry**, a table of the files and finders opened through it, keyed by their engine handles. Closing the storage closes everything still in its registry. Every call reports success or failure through `casc_result`, either as a boolean or as the triple `nil, message, code`.

This project models that layer over an in-memory stand-in for the archive engine:
- each storage is a list of entry names (the order enumeration walks) and a map from names to entries;
- each open file is a byte sequence, a position and an optional read fault (an error code the engine reports for any read at or beyond a given offset).

Modules:
- `Common` (common.dfy): the Lua values a call returns, error codes, and `casc_result`.
- `Engine` (engine.dfy): the engine stand-in, covering `CascReadFile`, `CascSetFilePointer64`, archive entries and opening.
- `Reader` (reader.dfy): `read_characters` and `read_line`, as methods with the source's loops: a single loop of chunked engine reads for `read_characters`, which collects the bytes in a sequence, and for `read_line` the nested loops that fill a `LUAL_BUFFERSIZE` array one byte at a time. Each is proved equal to a closed-form description of what it returns.
- `FileMethods` (file_methods.dfy): the format loop of `file:read` and how its results are concluded, proved against a recursive description; also the options of `file:seek` and the step rule of the `file:lines` iterator.
- `Enumeration` (enumeration.dfy): the name filter of the finder, the first kept name from a cursor, and what a whole enumeration yields.
- `Casc` (casc.dfy): classes `Storage`, `File`, `Finder` and `LinesIterator`, plus `ThreadState`, the thread's last error.
  - The storage's registry is a `map` field. Its validity invariant: a closed storage has an empty registry, and every entry is a live child of that storage, registered under the handle it holds.
  - Files and finders remove themselves from the registry when they close. Closing a storage closes every child, one entry at a time.

The description of `file:read` says `read(0)` returns `nil` at end of file (src/file.c:185-186). The code returns an empty string, because `read_characters` never reads for a count of 0. The model follows the code (`FileMethods.ReadZeroIsEmpty`).

## Model

| member | source | states |
|---|---|---|
| Common.CascResult | src/common.c:7-26 | one boolean equal to the status when the status is set or the last error is `ERROR_SUCCESS`; otherwise the triple `nil, message, code` carrying that error; the first value is truthy exactly when the status is set |
| Reader.ReadCharacters | src/file.c:129-165 | the loop returns the readable bytes up to the count, with status and last error as `CharsSpec` describes; every engine request asks for between 1 and `LUAL_BUFFERSIZE` bytes, and no request is made exactly when the count is 0 |
| Reader.RoundUpBounds | src/file.c:143-160 | the bytes requested in whole chunks are at least the readable length and less than one chunk more, which is where status 0 comes from |
| Reader.ReadLine | src/file.c:82-127 | the byte-at-a-time loop returns the readable bytes before the first `'\n'` and consumes the `'\n'`, keeping it for `"L"` only, as `LineSpec` describes; its status is always 0 |
| Reader.LineConsumes | src/file.c:96-122 | `"L"` returns exactly the bytes it consumed; `"l"` and `"L"` move the same distance and differ only by a final `'\n'`; an `"l"` line contains no `'\n'` |
| FileMethods.ToUnsigned | src/file.c:228-231 | an integer count becomes `lua_Unsigned` by two's complement: unchanged when non-negative, at least 2^63 when negative |
| FileMethods.Perform | src/file.c:226-267 | a line format always reports status 0; `"a"` reports status 1 whatever its reader did and returns every readable byte |
| FileMethods.RunFormats | src/file.c:226-268 | formats run left to right while the status is 1; the values pushed are strings, one per valid format attempted, all of them when every status is 1; an invalid format raises at its own stack position, and only when every format before it is valid |
| FileMethods.Effective | src/file.c:213-218 | without formats, `"l"` is used, so at least one format always runs |
| FileMethods.Read | src/file.c:193-294 | an open file either raises an argument error at a position among the formats, or returns the error triple, or returns between one and as many values as formats, each a string or `nil` |
| FileMethods.ReadFormats | src/file.c:210-294 | the imperative format loop, calling the two reader methods, returns exactly what `Read` describes |
| FileMethods.LineEndsRead | src/file.c:245-255 | a `"l"` or `"L"` format ends the call: the formats after it are never looked at |
| FileMethods.ReadAllReturnsRest | src/file.c:257-260 | `"a"` returns every readable byte and moves past them, returning an empty string rather than `nil` at the end |
| FileMethods.ReadZeroIsEmpty | src/file.c:143-165 | `read(0)` returns an empty string, moves nothing and clears the last error, even at end of file |
| FileMethods.ReadCountWithin | src/file.c:143-165 | a count no larger than what is left returns exactly that many bytes from the position and advances by that many |
| FileMethods.ReadCountAtEnd | src/file.c:270-287 | a positive count at a clean end of file returns `nil` |
| FileMethods.ReadCountAtFault | src/file.c:270-275 | a positive count at a read fault returns the error triple of the fault |
| FileMethods.NegativeCountReadsRest | src/file.c:228-231 | a negative count reads as a huge unsigned one and returns everything left |
| FileMethods.EmptyLineIsNil | src/file.c:283-287 | `"l"` on an empty line returns `nil` and consumes the `'\n'` |
| FileMethods.LineAtEndIsNil | src/file.c:283-287 | `"l"` at a clean end of file returns `nil` |
| FileMethods.FirstLineOfSample | src/file.c:96-122 | on `"ab\ncd"`, `read("l", "l")` returns only `"ab"` and leaves the position after the `'\n'` |
| FileMethods.LastLineOfSample | src/file.c:119-122 | on `"ab\ncd"` after the first line, `"L"` returns `"cd"` with no `'\n'` added, and then `"l"` returns `nil` |
| FileMethods.StarIsSkipped | src/file.c:238-241 | one leading `'*'` is ignored; a second makes the format invalid |
| FileMethods.WhenceOf | src/file.c:42-58 | `whence` is `"set"`, `"cur"` or `"end"`, defaulting to `"cur"`; any other string is refused |
| FileMethods.Seek | src/file.c:68-79 | on an open file, the new position is the base plus the offset when it lies within the entry and is returned as one integer; otherwise the error triple for `ERROR_INVALID_PARAMETER` is returned and the position is unchanged |
| FileMethods.SeekDefaults | src/file.c:33-37 | `seek()` returns the position unchanged; `seek("set")` returns 0 and rewinds; `seek("end")` returns the size |
| FileMethods.LinesStep | src/file.c:320-343 | the results of a read are returned whole when the first is truthy; otherwise the call raises the message when there is one, and returns nothing when there is not; an empty result raises the last error's message, unless that error is `ERROR_SUCCESS` |
| FileMethods.LinesEndsAtEnd | src/file.c:322-343 | with the default format, the iterator returns nothing at a clean end of file and also on an empty line (so iteration stops at the first empty line), raises the fault's message at a fault, and returns a non-empty line that reads no fault |
| Enumeration.Occurs | src/finder.c:95-108 | a plain `string.find` succeeds exactly when the pattern occurs at some index of the name |
| Enumeration.EmptyOccurs | src/finder.c:95-108 | the empty plain pattern is found in every name |
| Enumeration.NextMatch | src/finder.c:72-117 | a step yields the first name at or after the cursor that the filter keeps, skipping only rejected names; when it yields nothing, no name from the cursor on is kept |
| Enumeration.KeptSkips | src/finder.c:90-116 | rejected names contribute nothing to what is kept |
| Enumeration.YieldsKept | src/finder.c:72-117 | the successive steps yield exactly the names the filter keeps, each once, in the engine's order |
| Enumeration.YieldsEverything | src/finder.c:95 | without a pattern, every name is yielded |
| Casc.OpenStorage | src/storage.c:162-184 | a failed engine open returns the result for its error code; a successful one returns a new storage with that handle and an empty registry |
| Casc.Storage.constructor | src/registry.c:12-27 | a new storage starts with an empty registry |
| Casc.Storage.Insert | src/registry.c:51-81 | the child is entered under its handle, whatever that handle is, replacing any earlier entry, so inserting twice is the same as once |
| Casc.Storage.Remove | src/registry.c:83-109 | only the given key leaves the registry; an absent key changes nothing |
| Casc.Storage.Files | src/storage.c:27-46 | a closed storage returns the `ERROR_INVALID_HANDLE` triple and creates nothing; an open one returns a new finder that has a null handle, belongs to this storage and is not registered |
| Casc.Storage.Open | src/storage.c:65-90 | the handle is checked first, then the mode (only `"r"`, the default, or `"rb"`), then the name; a success returns a new file at position 0 of the entry, registered under a handle no other child holds |
| Casc.Storage.Close | src/storage.c:102-120 | on an open storage, every child it had is closed (null handle; a file also forgets its storage and keeps its stream), the registry is empty, and the storage's handle is null; on a closed storage, the `ERROR_INVALID_HANDLE` triple, so a second close fails |
| Casc.Storage.CloseRegistry | src/registry.c:29-49 | every registered child closes itself, leaving the registry empty and every former child closed as its own `close` leaves it, files with their streams unchanged |
| Casc.Storage.CloseChild | src/registry.c:37-44 | closing one entry removes exactly its key and leaves the child closed: a null handle, and for a file no storage and the same stream |
| Casc.Storage.Text | src/storage.c:128-136 | the string form ends in `(Closed)` exactly when the handle is null |
| Casc.File.Seek | src/file.c:39-80 | an unknown `whence` raises an argument error before the handle is checked; a closed file returns the `ERROR_INVALID_HANDLE` triple; an open one behaves as `FileMethods.Seek` |
| Casc.File.Read | src/file.c:193-208 | a closed file returns the `ERROR_INVALID_HANDLE` triple and leaves the stream alone; an open one behaves as `FileMethods.Read` |
| Casc.File.Lines | src/file.c:362-386 | a closed file returns the `ERROR_INVALID_HANDLE` triple; more than 250 formats raise an argument error at position 251; otherwise a new iterator over this file with these formats |
| Casc.File.Write | src/file.c:398-404 | always the `ERROR_INVALID_HANDLE` triple, even on an open file |
| Casc.File.Setvbuf | src/file.c:416-429 | `true` on an open file; the `ERROR_INVALID_HANDLE` triple on a closed one |
| Casc.File.Flush | src/file.c:441-454 | `true` on an open file; the `ERROR_INVALID_HANDLE` triple on a closed one |
| Casc.File.Close | src/file.c:466-486 | an open file leaves its storage's registry (only its own key) and forgets its storage, and the storage stays valid; the handle is null afterwards either way, so a second close fails with `ERROR_INVALID_HANDLE` |
| Casc.LinesIterator.Call | src/file.c:296-344 | a closed file raises the `ERROR_INVALID_HANDLE` message; an open one performs `FileMethods.Read` with the stored formats and answers as `LinesStep` says, passing argument errors through |
| Casc.Finder.constructor | src/finder.c:160-177 | a new finder has a null handle, the given storage, pattern and `plain` flag |
| Casc.Finder.First | src/finder.c:74-84 | the first step as intended: on an open, non-empty storage it binds a fresh handle, positions after the first name and registers the finder; otherwise it records the engine's error, proceeds no further and leaves the registry alone |
| Casc.Finder.FirstAsWritten | src/finder.c:74-84 | on an open storage, the first step as written always proceeds and registers the finder under the handle the engine returned; on an open storage with no entries that handle is null, the registry gains a null key, and the storage's invariant no longer holds |
| Casc.Finder.Following | src/finder.c:85-88 | a later step returns the name under the cursor and advances it, or fails, leaving as the last error the engine's end-of-enumeration code, or the earlier last error when the engine sets none |
| Casc.Finder.Next | src/finder.c:59-137 | a call yields the name `NextMatch` selects from the cursor (from the first name when unbound) and keeps the finder registered under its handle; when there is none, the finder is closed and unregistered, and the call returns nothing when the last error after the end is `ERROR_SUCCESS` and otherwise raises its message, where an engine that sets no error at the end leaves that decision to the error an earlier call left; a finished finder starts over on its next call |
| Casc.Finder.Stop | src/finder.c:119-136 | the finder closes itself; the call returns nothing when the last error is `ERROR_SUCCESS`, and otherwise raises that error's message and leaves it as the last error |
| Casc.UseAfterStorageClose | src/file.c:466-486 | a file closed by its storage's close answers `read`, `seek` and a second `close` with the `ERROR_INVALID_HANDLE` triple |
| Casc.StaleErrorEndsSearch | src/finder.c:119-123 | with an engine that sets no error at the end of a search, a failed `storage:open` of a missing name makes the next call of an exhausted finder raise the file-not-found message |
| Casc.SearchAfterStorageClose | src/finder.c:72-88 | after its storage closes, a finder of it, bound or not, raises the `ERROR_INVALID_HANDLE` message on its next call |
| Casc.Finder.Close | src/finder.c:23-41 | a bound finder leaves the registry (only its own key) and its handle becomes null; an unbound one returns the `ERROR_INVALID_HANDLE` triple |

## Left out

- CascLib itself is replaced by the stand-in in `Engine`. The model relies on these behaviours of the stand-in:
  - a successful engine call leaves the thread's last error as it was;
  - `CascGetFileSize64`, `CascCloseFile`, `CascFindClose` and `CascCloseStorage` always succeed;
  - a seek outside the entry fails with `ERROR_INVALID_PARAMETER`;
  - once no name is left, enumeration sets a fixed per-archive code, or, for an archive whose `findFault` is `None`, sets no error and leaves the thread's last error as an earlier call left it;
  - a search of a closed storage fails with `ERROR_INVALID_HANDLE`.
- `casc_result` reads the engine's error through `GetCascError`. The model treats it as the thread's last error.
- Lua C API mechanics: stack indices, userdata, metatables and `luaL_checkstack` are not modelled. Arguments are typed parameters; a non-string name or pattern is not modelled.
- Garbage collection: the weak values of the registry table and the timing of finalisers are not modelled. `__gc` is the same code as `close`, so finalisation is a call to the `Close` methods.
- Message text: `strerror` text is represented by the error code it describes (`ErrorText`).
- Casc.Storage.Text: does not model the `%p` address in the string.
- The `__tostring` methods of files and finders are not modelled; they have the same shape as `storage_to_string`.
- src/init.c (module registration, the `"local"`/`"online"` option) is not part of this model. The storage opening it performs is the `Opening` parameter of `Casc.OpenStorage`.
- The mode list of `storage:open` has no `NULL` terminator, so an unknown mode is undefined behaviour. The model raises the argument error that a terminated list would give.
- Lua pattern matching: a pattern that is not plain goes to an uninterpreted `find` parameter. The model assumes this matcher never raises an error.
- `LUAL_BUFFERSIZE` is fixed at 1024, its value in Lua 5.4. Lua 5.3 on 64-bit builds uses 8192 (`0x80 * sizeof(void*) * sizeof(lua_Integer)`). The properties are stated in terms of the constant, not its value.
- A finder whose storage has been collected (undefined behaviour) is not modelled.
- Casc.Finder.FirstAsWritten: requires an open storage. On a closed storage the as-written step inserts into the registry table that the storage's close already deleted (src/registry.c:46-48, 59-61), which is undefined behaviour in the Lua C API and is not modelled.
- Casc.Finder.Next: states the last error only when the call raises; after a clean end it is left unspecified.

## Findings

| source | as written | input that shows it | evidently intended | confidence | as-written member | corrected member |
|---|---|---|---|---|---|---|
| src/finder.c:78 | `status = !!finder` tests the finder object, which is never null, so the first step always proceeds and registers the finder | an open storage with no entries: `CascFindFirstFile` returns null, yet the step registers the finder under the null key, breaking the registry's invariant, and goes on to read a name from an unfilled find record | `status = !!finder->handle`: stop, unregistered, and report the engine's error | high (not executed) | Casc.Finder.FirstAsWritten | Casc.Finder.First, used by Casc.Finder.Next |
