/** Helpers from `core/util.c`: C truthiness of Lua values, module table
    construction from symbol arrays, and the per-core `yield_enabled` flags. */
module Util {

  import opened LuaValues

  const NUM_CORES: nat := 2

  /** `mlua_to_cbool`: numbers are true iff non-zero, everything else follows
      Lua truthiness. */
  function ToCBool(v: Value): (r: bool)
    ensures v.Integer? ==> (r <==> v.i != 0)
    ensures v.Float? ==> (r <==> v.r != 0.0)
    ensures !(v.Integer? || v.Float?) ==> r == Truthy(v)
  {
    match v
    case Integer(i) => i != 0
    case Float(x) => x != 0.0
    case _ => Truthy(v)
  }

  /** C truthiness differs from Lua truthiness exactly on numeric zeros: Lua
      treats 0 as true, `mlua_to_cbool` as false. */
  lemma ToCBoolVersusTruthy(v: Value)
    ensures ToCBool(v) != Truthy(v) <==> v == Integer(0) || (v.Float? && v.r == 0.0)
    ensures v.Integer? ==> (ToCBool(v) <==> v.i != 0)
    ensures v.Boolean? ==> ToCBool(v) == v.b
  {
  }

  /** A module symbol: its name and the value its `push` function pushes. */
  datatype Sym = Sym(name: string, value: Value)

  predicate HasHiddenPrefix(name: string)
  {
    |name| >= 2 && name[0] == '@' && name[1] == '_'
  }

  /** The table key for a symbol name: a leading "@_" is stripped, so that
      names which are reserved in C can still be exported. */
  function FieldName(name: string): (r: string)
    ensures HasHiddenPrefix(name) ==> "@_" + r == name
    ensures !HasHiddenPrefix(name) ==> r == name
  {
    if HasHiddenPrefix(name) then name[2..] else name
  }

  /** The "@_" prefix round-trips: hiding a name and exporting it gives back
      the name, and only prefixed names are changed. */
  lemma FieldNameRoundTrip(name: string)
    ensures FieldName("@_" + name) == name
    ensures FieldName(name) != name ==> HasHiddenPrefix(name) && |FieldName(name)| == |name| - 2
  {
    assert HasHiddenPrefix("@_" + name);
    assert ("@_" + name)[2..] == name;
  }

  /** The table obtained by `lua_setfield` of each symbol in turn. */
  function Assign(t: map<string, Value>, syms: seq<Sym>): map<string, Value>
  {
    if syms == [] then t
    else
      var last := syms[|syms| - 1];
      Assign(t, syms[..|syms| - 1])[FieldName(last.name) := last.value]
  }

  /** A key that no symbol is exported under keeps its previous value. */
  lemma {:induction false} AssignUntouched(t: map<string, Value>, syms: seq<Sym>, key: string)
    requires forall i :: 0 <= i < |syms| ==> FieldName(syms[i].name) != key
    ensures key in Assign(t, syms) <==> key in t
    ensures key in t ==> Assign(t, syms)[key] == t[key]
  {
    if syms != [] {
      AssignUntouched(t, syms[..|syms| - 1], key);
    }
  }

  /** After the symbols are set in order, a key holds the value of the LAST
      symbol exported under it: later symbols overwrite earlier ones. */
  lemma {:induction false} AssignLast(t: map<string, Value>, syms: seq<Sym>, i: nat, key: string)
    requires i < |syms| && FieldName(syms[i].name) == key
    requires forall j :: i < j < |syms| ==> FieldName(syms[j].name) != key
    ensures key in Assign(t, syms) && Assign(t, syms)[key] == syms[i].value
  {
    if i < |syms| - 1 {
      var init := syms[..|syms| - 1];
      assert init[i] == syms[i];
      AssignLast(t, init, i, key);
    }
  }

  /** `mlua_set_fields_`: exports exactly the first `cnt` symbols, in order. */
  method SetFields(t: map<string, Value>, fields: seq<Sym>, cnt: int) returns (r: map<string, Value>)
    requires cnt <= |fields|
    ensures cnt <= 0 ==> r == t
    ensures cnt > 0 ==> r == Assign(t, fields[..cnt])
  {
    r := t;
    var n, i := cnt, 0;
    while n > 0
      invariant 0 <= i <= |fields|
      invariant n > 0 ==> i + n == cnt
      invariant n <= 0 ==> i == (if cnt > 0 then cnt else 0)
      invariant r == Assign(t, fields[..i])
    {
      assert fields[..i + 1][..i] == fields[..i];
      r := r[FieldName(fields[i].name) := fields[i].value];
      n, i := n - 1, i + 1;
    }
  }

  /** The per-core flags read by `mlua_yield_enabled` and the `yield_enabled`
      global. */
  class YieldFlags {
    var enabled: array<bool>

    ghost predicate Valid()
      reads this
    {
      enabled.Length == NUM_CORES
    }

    /** The constructor `init`: every core starts with yielding enabled. */
    constructor ()
      ensures Valid() && fresh(enabled)
      ensures forall c :: 0 <= c < NUM_CORES ==> enabled[c]
    {
      var flags := new bool[NUM_CORES];
      var core := 0;
      while core < NUM_CORES
        invariant 0 <= core <= NUM_CORES
        invariant forall c :: 0 <= c < core ==> flags[c]
      {
        flags[core] := true;
        core := core + 1;
      }
      enabled := flags;
    }

    /** `mlua_yield_enabled` on core `core`. */
    function YieldEnabled(core: nat): (r: bool)
      requires Valid() && core < NUM_CORES
      reads this, enabled
    {
      enabled[core]
    }

    /** `global_yield_enabled([enable])` on core `core`: returns the previous
        flag; a non-nil argument sets it to the argument's C truthiness. Only
        the calling core's flag can change. */
    method GlobalYieldEnabled(core: nat, arg: Value) returns (previous: bool)
      requires Valid() && core < NUM_CORES
      modifies enabled
      ensures Valid()
      ensures previous == old(YieldEnabled(core))
      ensures arg.Nil? ==> YieldEnabled(core) == old(YieldEnabled(core))
      ensures !arg.Nil? ==> YieldEnabled(core) == ToCBool(arg)
      ensures forall c :: 0 <= c < NUM_CORES && c != core ==> enabled[c] == old(enabled[c])
    {
      previous := enabled[core];
      if !arg.Nil? {
        enabled[core] := ToCBool(arg);
      }
    }
  }
}
