/** `lib/pico/lwip.c`: the lwIP error codes, their messages, and the
    conventions by which the bindings report a result to Lua. */
module Lwip {

  import opened Wrappers
  import opened LuaValues

  // The `err_t` codes of lwIP (`lwip/err.h`).
  const ERR_OK: int := 0
  const ERR_MEM: int := -1
  const ERR_BUF: int := -2
  const ERR_TIMEOUT: int := -3
  const ERR_RTE: int := -4
  const ERR_INPROGRESS: int := -5
  const ERR_VAL: int := -6
  const ERR_WOULDBLOCK: int := -7
  const ERR_USE: int := -8
  const ERR_ALREADY: int := -9
  const ERR_ISCONN: int := -10
  const ERR_CONN: int := -11
  const ERR_IF: int := -12
  const ERR_ABRT: int := -13
  const ERR_RST: int := -14
  const ERR_CLSD: int := -15
  const ERR_ARG: int := -16

  /** The conversion of a `lua_Integer` to `err_t`, a signed 8-bit integer:
      the value modulo 256, in `[-128, 128)`. */
  function ToErrT(i: int): (r: int)
    ensures -128 <= r < 128
    ensures (r - i) % 256 == 0
    ensures -128 <= i < 128 ==> r == i
  {
    (i + 128) % 256 - 128
  }

  /** The messages of `mlua_lwip_err_str`, indexed by `-err` for the codes
      from `ERR_OK` down to `ERR_ARG`. */
  const MESSAGES: seq<string> := [
    "no error", "out of memory", "buffer error", "timeout", "routing problem",
    "operation in progress", "illegal value", "operation would block",
    "address in use", "already connecting", "connection already established",
    "not connected", "low-level netif error", "connection aborted",
    "connection reset", "connection closed", "illegal argument"]

  const UNKNOWN_ERROR: string := "unknown error"

  /** A code that `mlua_lwip_err_str` lists. */
  predicate IsKnown(err: int)
  {
    ERR_ARG <= err <= ERR_OK
  }

  /** `mlua_lwip_err_str`: the fixed message of a listed code, and "unknown
      error" for any other. */
  function ErrStr(err: int): (msg: string)
    ensures IsKnown(err) ==> msg == MESSAGES[-err]
    ensures !IsKnown(err) ==> msg == UNKNOWN_ERROR
  {
    match err
    case 0 => "no error"
    case -1 => "out of memory"
    case -2 => "buffer error"
    case -3 => "timeout"
    case -4 => "routing problem"
    case -5 => "operation in progress"
    case -6 => "illegal value"
    case -7 => "operation would block"
    case -8 => "address in use"
    case -9 => "already connecting"
    case -10 => "connection already established"
    case -11 => "not connected"
    case -12 => "low-level netif error"
    case -13 => "connection aborted"
    case -14 => "connection reset"
    case -15 => "connection closed"
    case -16 => "illegal argument"
    case _ => "unknown error"
  }

  /** The message identifies the code: distinct listed codes have distinct
      messages, none of which is "unknown error". */
  lemma ErrStrIdentifiesCode(a: int, b: int)
    requires IsKnown(a)
    ensures ErrStr(a) != UNKNOWN_ERROR
    ensures IsKnown(b) && a != b ==> ErrStr(a) != ErrStr(b)
  {
    MessagesDistinct();
  }

  lemma MessagesDistinct()
    ensures forall i, j | 0 <= i < j < |MESSAGES| :: MESSAGES[i] != MESSAGES[j]
    ensures forall i | 0 <= i < |MESSAGES| :: MESSAGES[i] != UNKNOWN_ERROR
  {
  }

  /** `lwip.err_str(err)`: the message of the argument taken as an `err_t`. */
  function ModErrStr(arg: int): (msg: string)
    ensures -128 <= arg < 128 ==> msg == ErrStr(arg)
  {
    ErrStr(ToErrT(arg))
  }

  /** An integer argument is truncated to 8 bits: codes differing by a
      multiple of 256 have the same message. */
  lemma ErrStrWraps(arg: int, k: int)
    ensures ModErrStr(arg + 256 * k) == ModErrStr(arg)
  {
    var x, y := ToErrT(arg + 256 * k), ToErrT(arg);
    assert (x - y) % 256 == 0 by {
      assert x - y == (x - (arg + 256 * k)) - (y - arg) + 256 * k;
    }
  }

  /** `mlua_lwip_push_err`: the values pushed, fail (nil) then the code. */
  function PushErr(err: int): (r: seq<Value>)
    ensures |r| == 2 && !Truthy(r[0]) && r[1] == Integer(err)
  {
    [Nil, Integer(err)]
  }

  /** `mlua_lwip_push_result`: true alone on `ERR_OK`, otherwise fail and the
      code. */
  function PushResult(err: int): (r: seq<Value>)
    ensures |r| >= 1
    ensures Truthy(r[0]) <==> err == ERR_OK
    ensures err != ERR_OK ==> r == PushErr(err)
  {
    if err == ERR_OK then [Boolean(true)] else PushErr(err)
  }

  /** The outcome of a C function: the values it returns, or the value it
      raises with `lua_error`. */
  datatype Outcome = Returns(values: seq<Value>) | Raises(error: Value)

  /** `lwip.assert(...)`: with a truthy first argument, returns all its
      arguments; otherwise raises the second argument, or the message for it
      when it is an integer error code. */
  function Assert(args: seq<Value>): (r: Outcome)
    ensures r.Returns? <==> |args| > 0 && Truthy(args[0])
    ensures r.Returns? ==> r.values == args
    ensures r.Raises? ==>
      var second := if |args| >= 2 then args[1] else Nil;
      && (second.Integer? ==> r.error == Str(ModErrStr(second.i)))
      && (second.Float? && FloatFits(second.r) ==> r.error == Str(ModErrStr(second.r.Floor)))
      && (!second.Integer? && !(second.Float? && FloatFits(second.r)) ==> r.error == second)
  {
    if |args| > 0 && Truthy(args[0]) then Returns(args)
    else
      var second := if |args| >= 2 then args[1] else Nil;
      match ToIntegerX(second)
      case Some(err) => Raises(Str(ModErrStr(err)))
      case None => Raises(second)
  }

  /** `assert` composes with `push_result`: a success passes its values
      through, and a failure raises the message of its code. */
  lemma AssertOfResult(err: int)
    requires -0x8000_0000 <= err < 0x8000_0000
    ensures Assert(PushResult(err)) ==
      if err == ERR_OK then Returns([Boolean(true)]) else Raises(Str(ErrStr(ToErrT(err))))
  {
  }
}
