/**
 * Values exchanged with the Lua host, and the uniform result convention of
 * `casc_result` (src/common.c): success is a single boolean, failure is the
 * triple `nil, message, code`.
 */
module Common {

  /** A byte of archived content. */
  type byte = x: int | 0 <= x < 256

  /** A Win32-style error number (a `DWORD`). */
  type ErrorCode = x: int | 0 <= x < 0x1_0000_0000

  /** A native handle; `Null` is the C `NULL`. */
  type Handle = nat

  const Null: Handle := 0

  /** A handle the engine hands out for a live object. */
  type LiveHandle = h: Handle | h != Null witness 1

  const ERROR_SUCCESS: ErrorCode := 0
  const ERROR_FILE_NOT_FOUND: ErrorCode := 2
  const ERROR_INVALID_HANDLE: ErrorCode := 6
  const ERROR_INVALID_PARAMETER: ErrorCode := 87

  /**
   * The Lua values the binding pushes. `Bytes` is a string read from an
   * archived file, `Name` a string naming an archive entry, and
   * `ErrorText(code)` stands for the message `strerror(code)`.
   */
  datatype Value =
    | Nil
    | Boolean(b: bool)
    | Integer(i: int)
    | Bytes(data: seq<byte>)
    | Name(text: string)
    | ErrorText(code: ErrorCode)

  /** Lua's notion of truth: everything but `nil` and `false`. */
  predicate Truthy(v: Value) {
    v != Nil && v != Boolean(false)
  }

  datatype Option<T> = None | Some(value: T)

  /** A Lua error raised out of a call (`luaL_argerror`, `luaL_error`). */
  datatype Raise =
    | BadArgument(position: nat)
    | Error(message: Value)

  /** What a call hands back to Lua: values, or a raised error. */
  datatype Reply = Returns(values: seq<Value>) | Raises(raise: Raise)

  /** The failure triple for `code`. */
  function ErrorTriple(code: ErrorCode): seq<Value> {
    [Nil, ErrorText(code), Integer(code)]
  }

  /** True of exactly the values `casc_result` pushes on failure. */
  predicate IsErrorTriple(r: seq<Value>) {
    |r| == 3 && r[0] == Nil && r[1].ErrorText? && r[2] == Integer(r[1].code)
  }

  /**
   * `casc_result (L, status)` with `error` the thread's last error: one
   * boolean unless the call failed with a genuine error code, in which case
   * the triple that carries that code.
   */
  function CascResult(status: bool, error: ErrorCode): (r: seq<Value>)
    ensures |r| == 1 <==> status || error == ERROR_SUCCESS
    ensures |r| == 1 ==> r[0] == Boolean(status)
    ensures |r| != 1 ==> IsErrorTriple(r) && r[2] == Integer(error)
    ensures Truthy(r[0]) <==> status
  {
    if status || error == ERROR_SUCCESS then [Boolean(status)] else ErrorTriple(error)
  }
}
