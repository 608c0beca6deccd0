/** `lib/hardware.irq.c`: user IRQs whose interrupts are forwarded to a Lua
    handler thread through a per-core pending bitmask and event slots.

    The current core (`get_core_num()`) is a parameter of every operation.
    Hardware calls (handler registration, NVIC clear/enable) and the Lua
    registry updates are recorded, in order, in the ghost `log`. Each region
    between `save_and_disable_interrupts` and `restore_interrupts` is one step. */
module Irq {

  import opened Wrappers
  import opened Events
  import opened LuaValues
  import Text
  import Util

  const NUM_IRQS: nat := 32
  const NUM_USER_IRQS: nat := 6
  const FIRST_USER_IRQ: nat := NUM_IRQS - NUM_USER_IRQS
  const NUM_CORES: nat := Util.NUM_CORES

  /** `is_user_irq`: the user IRQs are the last `NUM_USER_IRQS` of the
      `NUM_IRQS` interrupts, and each has a bit in an 8-bit pending mask. */
  function IsUserIrq(irq: int): (r: bool)
    ensures r <==> NUM_IRQS - NUM_USER_IRQS <= irq < NUM_IRQS
    ensures r ==> irq - FIRST_USER_IRQ < 8
  {
    FIRST_USER_IRQ <= irq < FIRST_USER_IRQ + NUM_USER_IRQS
  }

  /** `is_user_irq` takes a `uint`: a negative `lua_Integer` converts to a
      value of at least 2^31, which is no user IRQ either, so the conversion
      never changes the answer. */
  lemma UserIrqUnsigned(irq: int)
    requires -0x8000_0000 <= irq < 0x8000_0000
    ensures IsUserIrq(irq % 0x1_0000_0000) == IsUserIrq(irq)
  {
  }

  /** `check_irq`: argument `index` must name one of the NUM_IRQS interrupts. */
  function CheckIrq(irq: int, index: nat): (r: Result<nat>)
    ensures r.Ok? <==> 0 <= irq < NUM_IRQS
    ensures r.Ok? ==> r.value == irq
    ensures r.Err? ==> r.message == Text.ArgError(index, "unsupported IRQ number")
  {
    if 0 <= irq < NUM_IRQS then Ok(irq) else Err(Text.ArgError(index, "unsupported IRQ number"))
  }

  /** `check_user_irq`: the argument must name a user IRQ. Every user IRQ is an
      IRQ, and its index in the family fits the 8-bit pending mask (the
      `static_assert` of the source). */
  function CheckUserIrq(irq: int, index: nat): (r: Result<nat>)
    ensures r.Ok? <==> IsUserIrq(irq)
    ensures r.Ok? ==> r.value == irq && CheckIrq(irq, index).Ok? && r.value - FIRST_USER_IRQ < MASK_BITS
    ensures r.Err? ==> r.message == Text.ArgError(index, "unsupported user IRQ number")
  {
    if IsUserIrq(irq) then Ok(irq) else Err(Text.ArgError(index, "unsupported user IRQ number"))
  }

  /** Observable steps, in the order the source performs them. */
  datatype Step =
    | SetIrqHandler(irq: nat, priority: int)
    | RemoveIrqHandler(irq: nat)
    | IrqClear(irq: nat)
    | IrqSetEnabled(irq: nat, enabled: bool)
    | ThreadStarted(irq: nat)
    | RegistryCleared(irq: nat)
    | EventUnclaimed(irq: nat)

  class IrqModule {
    /** `uirq_state[core].pending`, one bit per user IRQ. */
    var pending: array<bv8>
    /** `uirq_state[core].events[irq - FIRST_USER_IRQ]`. */
    var events: array2<Event>
    /** Whether the registry holds the handler thread of a user IRQ's event. */
    var threads: array2<bool>
    /** Whether `handle_user_irq` is installed as the hardware handler of an IRQ. */
    var installed: array<bool>
    ghost var log: seq<Step>

    ghost predicate Valid()
      reads this
    {
      && pending.Length == NUM_CORES
      && events.Length0 == NUM_CORES && events.Length1 == NUM_USER_IRQS
      && threads.Length0 == NUM_CORES && threads.Length1 == NUM_USER_IRQS
      && installed.Length == NUM_IRQS
    }

    /** Static zero-initialisation followed by the constructor `init`. The
        source's loop runs once per core but always indexes
        `uirq_state[get_core_num()]`, so only the slots of the core running the
        constructor become UNSET; the other core's slots keep their static
        value `zero`. */
    constructor (core: nat, zero: Event)
      requires core < NUM_CORES
      ensures Valid() && log == []
      ensures fresh(pending) && fresh(events) && fresh(threads) && fresh(installed)
      ensures forall c :: 0 <= c < NUM_CORES ==> pending[c] == 0
      ensures forall i :: 0 <= i < NUM_USER_IRQS ==> events[core, i] == Unset
      ensures forall c, i :: 0 <= c < NUM_CORES && c != core && 0 <= i < NUM_USER_IRQS ==>
                events[c, i] == zero
      ensures forall c, i :: 0 <= c < NUM_CORES && 0 <= i < NUM_USER_IRQS ==> !threads[c, i]
      ensures forall irq :: 0 <= irq < NUM_IRQS ==> !installed[irq]
    {
      var evs := new Event[NUM_CORES, NUM_USER_IRQS]((c, i) => zero);
      var c := 0;
      while c < NUM_CORES
        invariant 0 <= c <= NUM_CORES
        invariant c > 0 ==> forall i :: 0 <= i < NUM_USER_IRQS ==> evs[core, i] == Unset
        invariant forall c2, i :: 0 <= c2 < NUM_CORES && c2 != core && 0 <= i < NUM_USER_IRQS ==>
                    evs[c2, i] == zero
      {
        var i := 0;
        while i < NUM_USER_IRQS
          invariant 0 <= i <= NUM_USER_IRQS
          invariant forall j :: 0 <= j < i ==> evs[core, j] == Unset
          invariant c > 0 ==> forall j :: 0 <= j < NUM_USER_IRQS ==> evs[core, j] == Unset
          invariant forall c2, j :: 0 <= c2 < NUM_CORES && c2 != core && 0 <= j < NUM_USER_IRQS ==>
                      evs[c2, j] == zero
        {
          evs[core, i] := Unset;
          i := i + 1;
        }
        c := c + 1;
      }
      events := evs;
      pending := new bv8[NUM_CORES](_ => 0);
      threads := new bool[NUM_CORES, NUM_USER_IRQS]((_, _) => false);
      installed := new bool[NUM_IRQS](_ => false);
      log := [];
    }

    /** `handle_user_irq`, the interrupt handler of user IRQ `irq` on `core`:
        sets only that IRQ's pending bit and signals only its event. */
    method HandleUserIrq(core: nat, irq: nat)
      requires Valid() && core < NUM_CORES && IsUserIrq(irq)
      modifies pending, events
      ensures Valid()
      ensures pending[core] == SetPending(old(pending[core]), irq - FIRST_USER_IRQ)
      ensures forall c :: 0 <= c < NUM_CORES && c != core ==> pending[c] == old(pending[c])
      ensures events[core, irq - FIRST_USER_IRQ] == Signal(old(events[core, irq - FIRST_USER_IRQ]))
      ensures forall c, i | 0 <= c < NUM_CORES && 0 <= i < NUM_USER_IRQS && (c != core || i != irq - FIRST_USER_IRQ) ::
                events[c, i] == old(events[c, i])
    {
      var num := irq - FIRST_USER_IRQ;
      pending[core] := pending[core] | BitOf(num);
      events[core, num] := Signal(events[core, num]);
    }

    /** `irq_thread_2`, the handler thread's retry step: test-and-clear of this
        IRQ's bit. The handler is called iff the bit was set, so interrupts
        that arrived since the last step result in one call. */
    method IrqThreadStep(core: nat, irq: nat) returns (callHandler: bool)
      requires Valid() && core < NUM_CORES && IsUserIrq(irq)
      modifies pending
      ensures Valid()
      ensures callHandler == IsPending(old(pending[core]), irq - FIRST_USER_IRQ)
      ensures pending[core] == ClearPending(old(pending[core]), irq - FIRST_USER_IRQ)
      ensures forall c :: 0 <= c < NUM_CORES && c != core ==> pending[c] == old(pending[c])
    {
      var mask := BitOf(irq - FIRST_USER_IRQ);
      var was := pending[core];
      pending[core] := pending[core] & !mask;
      callHandler := was & mask != 0;
    }

    /** `irq_thread_done`, run when the handler thread ends: removes the
        hardware handler, then clears the registry entry, then unclaims the
        event, in that order. */
    method IrqThreadDone(core: nat, irq: nat)
      requires Valid() && core < NUM_CORES && IsUserIrq(irq)
      modifies installed, threads, events, this`log
      ensures Valid()
      ensures log == old(log) + [RemoveIrqHandler(irq), RegistryCleared(irq), EventUnclaimed(irq)]
      ensures !installed[irq] && !threads[core, irq - FIRST_USER_IRQ]
      ensures events[core, irq - FIRST_USER_IRQ] == Unset
      ensures forall j :: 0 <= j < NUM_IRQS && j != irq ==> installed[j] == old(installed[j])
      ensures forall c, i | 0 <= c < NUM_CORES && 0 <= i < NUM_USER_IRQS && (c != core || i != irq - FIRST_USER_IRQ) ::
                events[c, i] == old(events[c, i]) && threads[c, i] == old(threads[c, i])
    {
      var num := irq - FIRST_USER_IRQ;
      installed[irq] := false;
      log := log + [RemoveIrqHandler(irq)];
      threads[core, num] := false;
      log := log + [RegistryCleared(irq)];
      events[core, num] := Unclaim(events[core, num]);
      log := log + [EventUnclaimed(irq)];
    }

    /** `set_handler`: claims the IRQ's event, installs `handle_user_irq` and
        starts the handler thread. A failed claim raises "IRQ<n>: <reason>"
        before anything is installed or started. */
    method SetHandler(core: nat, irqArg: int, priority: int) returns (r: Result<()>)
      requires Valid() && core < NUM_CORES
      modifies events, installed, threads, this`log
      ensures Valid()
      ensures !IsUserIrq(irqArg) ==> r == Err(Text.ArgError(1, "unsupported user IRQ number"))
      ensures IsUserIrq(irqArg) && !old(events[core, irqArg - FIRST_USER_IRQ]).Unset? ==>
                r == Err("IRQ" + Text.NatToString(irqArg) + ": " + ALREADY_CLAIMED)
      ensures r.Err? ==> unchanged(events) && unchanged(installed) && unchanged(threads) && log == old(log)
      ensures r.Ok? ==>
                && IsUserIrq(irqArg) && old(events[core, irqArg - FIRST_USER_IRQ]).Unset?
                && events[core, irqArg - FIRST_USER_IRQ] == Claimed(false)
                && installed[irqArg] && threads[core, irqArg - FIRST_USER_IRQ]
                && log == old(log) + [SetIrqHandler(irqArg, priority), ThreadStarted(irqArg)]
      ensures r.Ok? ==> forall c, i | 0 <= c < NUM_CORES && 0 <= i < NUM_USER_IRQS && (c != core || i != irqArg - FIRST_USER_IRQ) ::
                events[c, i] == old(events[c, i]) && threads[c, i] == old(threads[c, i])
      ensures r.Ok? ==> forall j :: 0 <= j < NUM_IRQS && j != irqArg ==> installed[j] == old(installed[j])
    {
      var checked := CheckUserIrq(irqArg, 1);
      if checked.Err? {
        return Err(checked.message);
      }
      var irq := checked.value;
      var num := irq - FIRST_USER_IRQ;
      var (ev, err) := Claim(events[core, num]);
      if err.Some? {
        return Err("IRQ" + Text.NatToString(irq) + ": " + err.value);
      }
      events[core, num] := ev;
      installed[irq] := true;
      log := log + [SetIrqHandler(irq, priority)];
      threads[core, num] := true;
      log := log + [ThreadStarted(irq)];
      r := Ok(());
    }

    /** `mod_clear`: clears the IRQ in the NVIC and, for a user IRQ, also its
        pending bit and its event's owed wake-up; nothing else changes. */
    method Clear(core: nat, irqArg: int) returns (r: Result<()>)
      requires Valid() && core < NUM_CORES
      modifies pending, events, this`log
      ensures Valid()
      ensures r.Ok? <==> 0 <= irqArg < NUM_IRQS
      ensures r.Err? ==> unchanged(pending) && unchanged(events) && log == old(log)
      ensures r.Ok? ==> log == old(log) + [IrqClear(irqArg)]
      ensures r.Ok? && IsUserIrq(irqArg) ==>
                && pending[core] == ClearPending(old(pending[core]), irqArg - FIRST_USER_IRQ)
                && events[core, irqArg - FIRST_USER_IRQ] == ClearSignal(old(events[core, irqArg - FIRST_USER_IRQ]))
      ensures r.Ok? && !IsUserIrq(irqArg) ==> pending[core] == old(pending[core])
      ensures forall c :: 0 <= c < NUM_CORES && c != core ==> pending[c] == old(pending[c])
      ensures forall c, i | 0 <= c < NUM_CORES && 0 <= i < NUM_USER_IRQS && (c != core || i != irqArg - FIRST_USER_IRQ) ::
                events[c, i] == old(events[c, i])
    {
      var checked := CheckIrq(irqArg, 1);
      if checked.Err? {
        return Err(checked.message);
      }
      var irq := checked.value;
      if IsUserIrq(irq) {
        var num := irq - FIRST_USER_IRQ;
        log := log + [IrqClear(irq)];
        pending[core] := pending[core] & !BitOf(num);
        events[core, num] := ClearSignal(events[core, num]);
      } else {
        log := log + [IrqClear(irq)];
      }
      r := Ok(());
    }

    /** `mod_is_pending`: `icpr` holds the bits of the calling core's NVIC
        pending register. True iff the hardware bit is set or, for a user IRQ,
        its software pending bit is set. */
    method IsPendingIrq(core: nat, irqArg: int, icpr: seq<bool>) returns (r: Result<bool>)
      requires Valid() && core < NUM_CORES && |icpr| == NUM_IRQS
      ensures r.Ok? <==> 0 <= irqArg < NUM_IRQS
      ensures r.Ok? ==> (r.value <==>
                icpr[irqArg] ||
                (IsUserIrq(irqArg) && IsPending(pending[core], irqArg - FIRST_USER_IRQ)))
    {
      var checked := CheckIrq(irqArg, 1);
      if checked.Err? {
        return Err(checked.message);
      }
      var irq := checked.value;
      var isPending := icpr[irq];
      if !isPending && IsUserIrq(irq) {
        var num := irq - FIRST_USER_IRQ;
        if pending[core] & BitOf(num) != 0 {
          isPending := true;
        }
      }
      r := Ok(isPending);
    }

    /** `mod_set_enabled`: enabling a user IRQ first clears its pending state
        (NVIC, pending bit, event), then enables it in the NVIC. */
    method SetEnabled(core: nat, irqArg: int, enabledArg: Value) returns (r: Result<()>)
      requires Valid() && core < NUM_CORES
      modifies pending, events, this`log
      ensures Valid()
      ensures r.Ok? <==> IsUserIrq(irqArg)
      ensures r.Err? ==> unchanged(pending) && unchanged(events) && log == old(log)
      ensures r.Ok? && Util.ToCBool(enabledArg) ==>
                && log == old(log) + [IrqClear(irqArg), IrqSetEnabled(irqArg, true)]
                && pending[core] == ClearPending(old(pending[core]), irqArg - FIRST_USER_IRQ)
                && events[core, irqArg - FIRST_USER_IRQ] == ClearSignal(old(events[core, irqArg - FIRST_USER_IRQ]))
      ensures r.Ok? && !Util.ToCBool(enabledArg) ==>
                log == old(log) + [IrqSetEnabled(irqArg, false)] && unchanged(pending) && unchanged(events)
      ensures forall c :: 0 <= c < NUM_CORES && c != core ==> pending[c] == old(pending[c])
      ensures forall c, i | 0 <= c < NUM_CORES && 0 <= i < NUM_USER_IRQS && (c != core || i != irqArg - FIRST_USER_IRQ) ::
                events[c, i] == old(events[c, i])
    {
      var checked := CheckUserIrq(irqArg, 1);
      if checked.Err? {
        return Err(checked.message);
      }
      var irq := checked.value;
      var enabled := Util.ToCBool(enabledArg);
      if enabled && IsUserIrq(irq) {
        var _ := Clear(core, irq);
      }
      log := log + [IrqSetEnabled(irq, enabled)];
      r := Ok(());
    }
  }
}
