/** `lib/pico/hardware.rtc.c`: the real-time clock's datetime conversions and
    its alarm, whose interrupt is forwarded to a Lua callback through a pending
    flag, an event and a handler thread.

    Calls into the RTC hardware are recorded, in order, in the ghost `log`;
    each region between `mlua_event_lock` and `mlua_event_unlock` is one step. */
module Rtc {

  import opened Wrappers
  import opened Events
  import opened LuaValues
  import Text

  // -------------------------------------------------------------------------
  // Datetime tables

  /** `datetime_t`: `year` is an `int16_t`, the other fields `int8_t`; -1 means
      "any" in an alarm. */
  datatype Datetime = Datetime(year: int, month: int, day: int, dotw: int,
                               hour: int, min: int, sec: int)

  /** Conversion of a `lua_Integer` to the `int16_t` year field (two's
      complement truncation). */
  function ToInt16(v: int): (r: int)
    ensures -0x8000 <= r < 0x8000
    ensures (r - v) % 0x1_0000 == 0
    ensures -0x8000 <= v < 0x8000 ==> r == v
  {
    (v + 0x8000) % 0x1_0000 - 0x8000
  }

  /** Conversion of a `lua_Integer` to one of the `int8_t` fields. */
  function ToInt8(v: int): (r: int)
    ensures -0x80 <= r < 0x80
    ensures (r - v) % 0x100 == 0
    ensures -0x80 <= v < 0x80 ==> r == v
  {
    (v + 0x80) % 0x100 - 0x80
  }

  /** `get_datetime_field`: a missing (nil) field reads as -1, a number with an
      integer value as that integer; anything else raises an error. */
  function GetDatetimeField(t: map<string, Value>, name: string): (r: Result<int>)
    ensures (name !in t || t[name].Nil?) ==> r == Ok(-1)
    ensures name in t && t[name].Integer? ==> r == Ok(t[name].i)
    ensures name in t && !(t[name].Nil? || t[name].Integer? || t[name].Float?) ==>
              r == Err("invalid datetime " + name + " value")
    ensures name in t && t[name].Float? && FloatFits(t[name].r) ==> r == Ok(t[name].r.Floor)
    ensures name in t && t[name].Float? && !FloatFits(t[name].r) ==>
              r == Err("invalid datetime " + name + " value")
  {
    if name !in t || t[name].Nil? then Ok(-1)
    else
      match ToIntegerX(t[name])
      case Some(v) => Ok(v)
      case None => Err("invalid datetime " + name + " value")
  }

  /** The `datetime_t` fields, in the order `check_datetime` reads them. */
  const FIELD_NAMES: seq<string> := ["year", "month", "day", "dotw", "hour", "min", "sec"]

  /** Reads the named fields in order; the first one that fails raises its
      error. */
  function ReadFields(t: map<string, Value>, names: seq<string>): (r: Result<seq<int>>)
    ensures r.Ok? ==> |r.value| == |names|
    ensures r.Ok? ==> forall i | 0 <= i < |names| :: GetDatetimeField(t, names[i]) == Ok(r.value[i])
    ensures r.Err? <==> exists i | 0 <= i < |names| :: GetDatetimeField(t, names[i]).Err?
  {
    if names == [] then Ok([])
    else
      var v :- GetDatetimeField(t, names[0]);
      var rest :- ReadFields(t, names[1..]);
      assert forall i | 1 <= i < |names| :: names[i] == names[1..][i - 1];
      Ok([v] + rest)
  }

  /** `check_datetime`: the argument must be a table; its fields are read in
      the order year, month, day, dotw, hour, min, sec and stored into the
      narrow `datetime_t` fields. The first bad field raises its error. */
  function CheckDatetime(arg: Value): (r: Result<Datetime>)
    ensures !arg.Table? ==> r == Err(Text.ArgError(1, "datetime table expected"))
    ensures arg.Table? ==> (r.Err? <==> exists i | 0 <= i < |FIELD_NAMES| :: GetDatetimeField(arg.fields, FIELD_NAMES[i]).Err?)
    ensures r.Ok? ==> InFieldRanges(r.value)
  {
    if !arg.Table? then Err(Text.ArgError(1, "datetime table expected"))
    else
      var v :- ReadFields(arg.fields, FIELD_NAMES);
      Ok(Datetime(ToInt16(v[0]), ToInt8(v[1]), ToInt8(v[2]), ToInt8(v[3]),
                  ToInt8(v[4]), ToInt8(v[5]), ToInt8(v[6])))
  }

  predicate InFieldRanges(dt: Datetime)
  {
    && -0x8000 <= dt.year < 0x8000
    && -0x80 <= dt.month < 0x80 && -0x80 <= dt.day < 0x80 && -0x80 <= dt.dotw < 0x80
    && -0x80 <= dt.hour < 0x80 && -0x80 <= dt.min < 0x80 && -0x80 <= dt.sec < 0x80
  }

  /** `set_datetime_field`: a negative value leaves the field out. */
  function SetDatetimeField(t: map<string, Value>, name: string, value: int): (r: map<string, Value>)
    ensures value < 0 ==> r == t
    ensures value >= 0 ==> r == t[name := Integer(value)]
  {
    if value < 0 then t else t[name := Integer(value)]
  }

  /** The table `mod_get_datetime` builds from a `datetime_t`. */
  function DatetimeTable(dt: Datetime): (r: map<string, Value>)
    ensures forall name | name in r :: name in FIELD_NAMES && r[name].Integer? && r[name].i >= 0
  {
    var t0: map<string, Value> := map[];
    var t1 := SetDatetimeField(t0, "year", dt.year);
    var t2 := SetDatetimeField(t1, "month", dt.month);
    var t3 := SetDatetimeField(t2, "day", dt.day);
    var t4 := SetDatetimeField(t3, "dotw", dt.dotw);
    var t5 := SetDatetimeField(t4, "hour", dt.hour);
    var t6 := SetDatetimeField(t5, "min", dt.min);
    SetDatetimeField(t6, "sec", dt.sec)
  }

  function AtLeastMinusOne(v: int): int { if v < 0 then -1 else v }

  /** The datetime with every negative field replaced by -1 ("any"). */
  function Normalised(dt: Datetime): Datetime
  {
    Datetime(AtLeastMinusOne(dt.year), AtLeastMinusOne(dt.month), AtLeastMinusOne(dt.day),
             AtLeastMinusOne(dt.dotw), AtLeastMinusOne(dt.hour), AtLeastMinusOne(dt.min),
             AtLeastMinusOne(dt.sec))
  }

  /** The fields of a datetime, in the order of `FIELD_NAMES`. */
  function Fields(dt: Datetime): seq<int>
  {
    [dt.year, dt.month, dt.day, dt.dotw, dt.hour, dt.min, dt.sec]
  }

  /** Reading back a table built by `get_datetime` gives the same datetime,
      except that every negative field comes back as -1 ("any"): negative
      values are omitted, and missing fields read as -1. */
  lemma DatetimeRoundTrip(dt: Datetime)
    requires InFieldRanges(dt)
    ensures CheckDatetime(Table(DatetimeTable(dt))) == Ok(Normalised(dt))
  {
    TableReadsBack(dt);
    FieldsInRange(DatetimeTable(dt), Normalised(dt));
  }

  /** Reading the fields of the built table yields the datetime's fields,
      with -1 for each negative one. */
  lemma TableReadsBack(dt: Datetime)
    ensures ReadFields(DatetimeTable(dt), FIELD_NAMES) == Ok(Fields(Normalised(dt)))
  {
    var t := DatetimeTable(dt);
    TableField(dt);
    var expected := Fields(Normalised(dt));
    FieldReads(t, "year", dt.year);
    FieldReads(t, "month", dt.month);
    FieldReads(t, "day", dt.day);
    FieldReads(t, "dotw", dt.dotw);
    FieldReads(t, "hour", dt.hour);
    FieldReads(t, "min", dt.min);
    FieldReads(t, "sec", dt.sec);
    ReadsInOrder(t, FIELD_NAMES, expected);
  }

  /** When every named field reads as the corresponding value, reading them
      all succeeds with those values. */
  lemma {:induction false} ReadsInOrder(t: map<string, Value>, names: seq<string>, v: seq<int>)
    requires |v| == |names|
    requires forall i | 0 <= i < |names| :: GetDatetimeField(t, names[i]) == Ok(v[i])
    ensures ReadFields(t, names) == Ok(v)
  {
    if names != [] {
      assert GetDatetimeField(t, names[0]) == Ok(v[0]);
      assert forall i | 0 <= i < |names| - 1 :: names[1..][i] == names[i + 1] && v[1..][i] == v[i + 1];
      ReadsInOrder(t, names[1..], v[1..]);
      assert v == [v[0]] + v[1..];
    }
  }

  /** Fields that already fit their C types are stored unchanged. */
  lemma FieldsInRange(t: map<string, Value>, dt: Datetime)
    requires ReadFields(t, FIELD_NAMES) == Ok(Fields(dt))
    requires InFieldRanges(dt)
    ensures CheckDatetime(Table(t)) == Ok(dt)
  {
  }

  /** A field written by `set_datetime_field` reads back as its value, or as
      -1 when the value was negative and the field left out. */
  lemma FieldReads(t: map<string, Value>, name: string, v: int)
    requires v >= 0 <==> name in t
    requires v >= 0 ==> t[name] == Integer(v)
    ensures GetDatetimeField(t, name) == Ok(AtLeastMinusOne(v))
  {
  }

  /** Each field of the built table holds the datetime's field, or is absent
      when that field is negative. */
  lemma TableField(dt: Datetime)
    ensures var t := DatetimeTable(dt);
      && (dt.year >= 0 <==> "year" in t) && (dt.year >= 0 ==> t["year"] == Integer(dt.year))
      && (dt.month >= 0 <==> "month" in t) && (dt.month >= 0 ==> t["month"] == Integer(dt.month))
      && (dt.day >= 0 <==> "day" in t) && (dt.day >= 0 ==> t["day"] == Integer(dt.day))
      && (dt.dotw >= 0 <==> "dotw" in t) && (dt.dotw >= 0 ==> t["dotw"] == Integer(dt.dotw))
      && (dt.hour >= 0 <==> "hour" in t) && (dt.hour >= 0 ==> t["hour"] == Integer(dt.hour))
      && (dt.min >= 0 <==> "min" in t) && (dt.min >= 0 ==> t["min"] == Integer(dt.min))
      && (dt.sec >= 0 <==> "sec" in t) && (dt.sec >= 0 ==> t["sec"] == Integer(dt.sec))
  {
    assert "year" != "month" && "year" != "day" && "year" != "dotw" && "year" != "hour" && "year" != "min" && "year" != "sec";
    assert "month" != "day" && "month" != "dotw" && "month" != "hour" && "month" != "min" && "month" != "sec";
    assert "day" != "dotw" && "day" != "hour" && "day" != "min" && "day" != "sec";
    assert "dotw" != "hour" && "dotw" != "min" && "dotw" != "sec";
    assert "hour" != "min" && "hour" != "sec" && "min" != "sec";
  }

  // -------------------------------------------------------------------------
  // Alarm

  /** The datetime that `alarm_handler_done` arms to park the alarm. */
  const PARKED: Datetime := Datetime(4095, 1, 1, 0, 0, 0, 0)

  datatype Step =
    | AlarmSet(dt: Datetime, withHandler: bool)
    | AlarmEnabled
    | AlarmDisabled
    | HandlerStarted

  /** The callback argument of `set_alarm`: absent, or a value (possibly nil). */
  datatype CallbackArg = NoArg | Arg(v: Value)

  /** What `mod_set_alarm` returns: nothing, the running handler thread, or a
      newly started one. */
  datatype SetAlarmOutcome = NoValue | ExistingHandler | NewHandler

  class RtcModule {
    /** `rtc_state.event`: claimed while a handler thread exists. */
    var event: Event
    /** `rtc_state.pending`. */
    var pending: bool
    /** The callback stored in the registry under `&rtc_state.pending`. */
    var callback: Option<Value>
    ghost var log: seq<Step>

    /** The zero-initialised static `rtc_state`. Nothing in the module sets
        the event to UNSET, so its initial value is that of a zeroed
        `MLuaEvent`, given here as `zero`. */
    constructor (zero: Event)
      ensures event == zero && !pending && callback == None && log == []
    {
      event, pending, callback, log := zero, false, None, [];
    }

    /** `handle_alarm`, the RTC interrupt callback: sets `pending` and signals
        the event in one locked region. */
    method HandleAlarm()
      modifies this`pending, this`event
      ensures pending && event == Signal(old(event))
    {
      pending := true;
      event := Signal(event);
    }

    /** `handle_alarm_event`, the handler thread's step: reads and clears
        `pending` atomically; the stored callback is invoked iff it was set. */
    method HandleAlarmEvent() returns (invoke: Option<Value>)
      modifies this`pending
      ensures !pending
      ensures invoke.Some? <==> old(pending)
      ensures invoke.Some? ==> invoke.value == (if callback.Some? then callback.value else Nil)
    {
      var was := pending;
      pending := false;
      if !was {
        return None;
      }
      invoke := Some(if callback.Some? then callback.value else Nil);
    }

    /** `alarm_handler_done`, run when the handler thread ends: forgets the
        callback, parks and disables the alarm, then releases the event. */
    method AlarmHandlerDone()
      modifies this`callback, this`event, this`log
      ensures callback == None && event == Unset
      ensures log == old(log) + [AlarmSet(PARKED, false), AlarmDisabled]
    {
      callback := None;
      log := log + [AlarmSet(PARKED, false), AlarmDisabled];
      event := Unclaim(event);
    }

    /** `mod_set_alarm(datetime, [callback])`.
        - a nil callback only stops the handler thread (running its cleanup);
        - otherwise the datetime is checked, then the event enabled; if it was
          newly enabled without a callback argument it is disabled again and
          nothing is armed;
        - else `pending` is reset before the alarm is armed, a given callback
          is stored, and the running handler thread is returned (when the event
          was already enabled) or a new one is started. */
    method SetAlarm(dtArg: Value, cb: CallbackArg) returns (r: Result<SetAlarmOutcome>)
      modifies this`pending, this`event, this`callback, this`log
      ensures cb == Arg(Nil) && !old(event).Claimed? ==>
                r == Ok(NoValue) && event == old(event) && pending == old(pending) &&
                callback == old(callback) && log == old(log)
      ensures cb == Arg(Nil) && old(event).Claimed? ==>
                r == Ok(NoValue) && event == Unset && callback == None && pending == old(pending) &&
                log == old(log) + [AlarmSet(PARKED, false), AlarmDisabled]
      ensures cb != Arg(Nil) && CheckDatetime(dtArg).Err? ==>
                r == Err(CheckDatetime(dtArg).message) && event == old(event) &&
                pending == old(pending) && callback == old(callback) && log == old(log)
      ensures cb == NoArg && CheckDatetime(dtArg).Ok? && old(event).Unset? ==>
                r == Ok(NoValue) && event == Unset && pending == old(pending) &&
                callback == old(callback) && log == old(log)
      ensures cb != Arg(Nil) && CheckDatetime(dtArg).Ok? && !(cb == NoArg && old(event).Unset?) ==>
                && !pending
                && event == (if old(event).Unset? then Claimed(false) else old(event))
                && log == old(log) + [AlarmSet(CheckDatetime(dtArg).value, true)] +
                          (if old(event).Unset? then [HandlerStarted] else [])
                && (cb.Arg? ==> callback == Some(cb.v))
                && (cb.NoArg? ==> callback == old(callback))
                && r == Ok(if old(event).Unset? then NewHandler else ExistingHandler)
    {
      if cb == Arg(Nil) {
        if event.Claimed? {
          AlarmHandlerDone();
        }
        return Ok(NoValue);
      }
      var dt :- CheckDatetime(dtArg);
      var (ev, enabled) := Enable(event);
      event := ev;
      if enabled && cb.NoArg? {
        event := Unclaim(event);
        return Ok(NoValue);
      }
      pending := false;
      log := log + [AlarmSet(dt, true)];
      if cb.Arg? {
        callback := Some(cb.v);
      }
      if !enabled {
        return Ok(ExistingHandler);
      }
      log := log + [HandlerStarted];
      r := Ok(NewHandler);
    }

    /** `mod_enable_alarm`. */
    method EnableAlarm()
      modifies this`log
      ensures log == old(log) + [AlarmEnabled]
    {
      log := log + [AlarmEnabled];
    }

    /** `mod_disable_alarm`: disables the alarm, then always clears `pending`. */
    method DisableAlarm()
      modifies this`pending, this`log
      ensures !pending
      ensures log == old(log) + [AlarmDisabled]
    {
      log := log + [AlarmDisabled];
      pending := false;
    }
  }
}
