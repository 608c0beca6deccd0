/** `lib/hardware.timer.c`: hardware alarms whose expiry is forwarded to Lua
    through an 8-bit pending mask and one event slot per alarm.

    Calls into the alarm hardware are recorded, in order, in the ghost `log`.
    Each region between `mlua_event_lock` and `mlua_event_unlock` is one step. */
module Timer {

  import opened Wrappers
  import opened Events
  import opened LuaValues
  import Text

  const NUM_TIMERS: nat := 4

  /** `check_alarm`: accepts exactly the alarm numbers 0 <= alarm < NUM_TIMERS,
      each of which has a bit in the pending mask (the `static_assert`). */
  function CheckAlarm(alarm: int, index: nat): (r: Result<nat>)
    ensures r.Ok? <==> 0 <= alarm < NUM_TIMERS
    ensures r.Ok? ==> r.value == alarm && r.value < MASK_BITS
    ensures r.Err? ==> r.message == Text.ArgError(index, "invalid alarm number")
  {
    if 0 <= alarm < NUM_TIMERS then Ok(alarm) else Err(Text.ArgError(index, "invalid alarm number"))
  }

  datatype Step =
    | SetCallback(alarm: nat, installed: bool)
    | EventUnclaimed(alarm: nat)
    | AlarmCancelled(alarm: nat)
    | TargetSet(alarm: nat, target: int)

  class TimerModule {
    /** `alarm_state.events`. */
    var events: array<Event>
    /** `alarm_state.pending`, one bit per alarm. */
    var pending: bv8
    /** Whether `handle_alarm` is the hardware callback of an alarm. */
    var callbacks: array<bool>
    ghost var log: seq<Step>

    ghost predicate Valid()
      reads this
    {
      events.Length == NUM_TIMERS && callbacks.Length == NUM_TIMERS && events != callbacks as object
    }

    /** The constructor `init`: after it every alarm's event slot is UNSET. */
    constructor ()
      ensures Valid() && fresh(events) && fresh(callbacks) && log == []
      ensures forall i :: 0 <= i < NUM_TIMERS ==> events[i] == Unset && !callbacks[i]
      ensures pending == 0
    {
      var evs := new Event[NUM_TIMERS];
      var i := 0;
      while i < NUM_TIMERS
        invariant 0 <= i <= NUM_TIMERS
        invariant forall j :: 0 <= j < i ==> evs[j] == Unset
      {
        evs[i] := Unset;
        i := i + 1;
      }
      events := evs;
      pending := 0;
      callbacks := new bool[NUM_TIMERS](_ => false);
      log := [];
    }

    /** `handle_alarm`, the hardware callback: sets bit `alarm` under the lock,
        then signals `events[alarm]` after releasing it. */
    method HandleAlarm(alarm: nat)
      requires Valid() && alarm < NUM_TIMERS
      modifies this`pending, events
      ensures Valid()
      ensures pending == SetPending(old(pending), alarm)
      ensures events[alarm] == Signal(old(events[alarm]))
      ensures forall j :: 0 <= j < NUM_TIMERS && j != alarm ==> events[j] == old(events[j])
    {
      pending := pending | BitOf(alarm);
      events[alarm] := Signal(events[alarm]);
    }

    /** `mod_enable_alarm(alarm, [enable])`: an explicit `false` removes the
        callback and then unclaims the event; anything else claims the event
        (failing with "TIMER<n>: <reason>" and installing nothing) and then
        installs the callback. */
    method EnableAlarm(alarmArg: int, enable: Value) returns (r: Result<()>)
      requires Valid()
      modifies events, callbacks, this`log
      ensures Valid()
      ensures CheckAlarm(alarmArg, 1).Err? ==> r.Err? && unchanged(events) && unchanged(callbacks) && log == old(log)
      ensures CheckAlarm(alarmArg, 1).Ok? && enable == Boolean(false) ==>
                && r.Ok? && events[alarmArg] == Unset && !callbacks[alarmArg]
                && log == old(log) + [SetCallback(alarmArg, false), EventUnclaimed(alarmArg)]
      ensures CheckAlarm(alarmArg, 1).Ok? && enable != Boolean(false) && !old(events[alarmArg]).Unset? ==>
                && r == Err("TIMER" + Text.NatToString(alarmArg) + ": " + ALREADY_CLAIMED)
                && unchanged(events) && unchanged(callbacks) && log == old(log)
      ensures CheckAlarm(alarmArg, 1).Ok? && enable != Boolean(false) && old(events[alarmArg]).Unset? ==>
                && r.Ok? && events[alarmArg] == Claimed(false) && callbacks[alarmArg]
                && log == old(log) + [SetCallback(alarmArg, true)]
      ensures forall j :: 0 <= j < NUM_TIMERS && j != alarmArg ==>
                events[j] == old(events[j]) && callbacks[j] == old(callbacks[j])
    {
      var checked := CheckAlarm(alarmArg, 1);
      if checked.Err? {
        return Err(checked.message);
      }
      var alarm := checked.value;
      if enable == Boolean(false) {
        callbacks[alarm] := false;
        log := log + [SetCallback(alarm, false)];
        events[alarm] := Unclaim(events[alarm]);
        log := log + [EventUnclaimed(alarm)];
        return Ok(());
      }
      var (ev, err) := Claim(events[alarm]);
      if err.Some? {
        return Err("TIMER" + Text.NatToString(alarm) + ": " + err.value);
      }
      events[alarm] := ev;
      callbacks[alarm] := true;
      log := log + [SetCallback(alarm, true)];
      r := Ok(());
    }

    /** `try_pending`, the retry step of `wait_alarm`: atomic test-and-clear of
        bit `alarm`. Returns 0 (ready) iff the bit was set, -1 (keep waiting)
        otherwise; the other bits are unchanged. */
    method TryPending(alarm: nat) returns (r: int)
      requires Valid() && alarm < NUM_TIMERS
      modifies this`pending
      ensures Valid()
      ensures r == (if IsPending(old(pending), alarm) then 0 else -1)
      ensures pending == ClearPending(old(pending), alarm)
    {
      var mask := BitOf(alarm);
      var was := pending;
      pending := pending & !mask;
      r := if was & mask != 0 then 0 else -1;
    }

    /** `cancel_alarm`: cancels the hardware alarm, then clears its pending bit. */
    method CancelAlarm(alarm: nat)
      requires Valid() && alarm < NUM_TIMERS
      modifies this`pending, this`log
      ensures Valid()
      ensures log == old(log) + [AlarmCancelled(alarm)]
      ensures pending == ClearPending(old(pending), alarm)
    {
      log := log + [AlarmCancelled(alarm)];
      pending := pending & !BitOf(alarm);
    }

    /** `mod_cancel`. */
    method Cancel(alarmArg: int) returns (r: Result<()>)
      requires Valid()
      modifies this`pending, this`log
      ensures Valid()
      ensures r.Ok? <==> CheckAlarm(alarmArg, 1).Ok?
      ensures r.Err? ==> pending == old(pending) && log == old(log)
      ensures r.Ok? ==> pending == ClearPending(old(pending), alarmArg) && log == old(log) + [AlarmCancelled(alarmArg)]
    {
      var checked := CheckAlarm(alarmArg, 1);
      if checked.Err? {
        return Err(checked.message);
      }
      CancelAlarm(checked.value);
      r := Ok(());
    }

    /** `mod_set_target`: cancels the alarm (clearing its pending bit) before
        arming the new target, so a fire of the previous target cannot be
        taken for the new one. `missed` is what `hardware_alarm_set_target`
        reports (true when the target is already in the past). */
    method SetTarget(alarmArg: int, target: int, missed: bool) returns (r: Result<bool>)
      requires Valid()
      modifies this`pending, this`log
      ensures Valid()
      ensures r.Ok? <==> CheckAlarm(alarmArg, 1).Ok?
      ensures r.Err? ==> pending == old(pending) && log == old(log)
      ensures r.Ok? ==>
                && r.value == missed
                && !IsPending(pending, alarmArg)
                && pending == ClearPending(old(pending), alarmArg)
                && log == old(log) + [AlarmCancelled(alarmArg), TargetSet(alarmArg, target)]
    {
      var checked := CheckAlarm(alarmArg, 1);
      if checked.Err? {
        return Err(checked.message);
      }
      var alarm := checked.value;
      CancelAlarm(alarm);
      log := log + [TargetSet(alarm, target)];
      r := Ok(missed);
    }
  }
}
