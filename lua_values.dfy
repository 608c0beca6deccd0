/** The slice of the Lua value space that the modelled C functions inspect. */
module LuaValues {

  import opened Wrappers

  /** A Lua value as seen through the C API. Floats are exact reals (no NaN,
      no rounding); tables are maps from string keys to values; functions,
      threads and userdata are opaque and carry only an identity. */
  datatype Value =
    | Nil
    | Boolean(b: bool)
    | Integer(i: int)
    | Float(r: real)
    | Str(s: string)
    | Table(fields: map<string, Value>)
    | Opaque(id: nat)

  /** Lua truthiness (`lua_toboolean`): only nil and false are false. */
  predicate Truthy(v: Value)
  {
    !(v.Nil? || v == Boolean(false))
  }

  /** The range of the 32-bit `lua_Integer`: `LUA_INT_MIN <= n < LUA_INT_LIMIT`. */
  const LUA_INT_MIN: int := -0x8000_0000
  const LUA_INT_LIMIT: int := 0x8000_0000

  /** Whether a float has an exact integral value that `lua_Integer` holds. */
  predicate FloatFits(x: real)
  {
    x.Floor as real == x && LUA_INT_MIN <= x.Floor < LUA_INT_LIMIT
  }

  /** `lua_tointegerx` restricted to numbers: an integer converts to itself and a
      float converts exactly when it has an integral value that fits
      `lua_Integer`. Strings are not converted by this model. */
  function ToIntegerX(v: Value): (r: Option<int>)
    ensures v.Integer? ==> r == Some(v.i)
    ensures v.Float? ==> (r.Some? <==> FloatFits(v.r))
    ensures r.Some? && v.Float? ==> r.value as real == v.r && LUA_INT_MIN <= r.value < LUA_INT_LIMIT
    ensures !(v.Integer? || v.Float?) ==> r == None
  {
    match v
    case Integer(i) => Some(i)
    case Float(x) => if FloatFits(x) then Some(x.Floor) else None
    case _ => None
  }
}
