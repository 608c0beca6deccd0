/** The event slots (`MLuaEvent`) and the small pending bitmasks that the
    interrupt-driven modules pair with them. The event module's own
    implementation is not part of this model: a slot is reduced to the two
    facts its consumers rely on, whether it is claimed (enabled) and whether a
    wake-up is owed to its waiter. */
module Events {

  import opened Wrappers

  datatype Event = Unset | Claimed(signalled: bool)

  /** Reason reported by a claim on a slot that is already claimed. */
  const ALREADY_CLAIMED: string := "already claimed"

  /** `mlua_event_claim`: take exclusive ownership of an unset slot. Returns the
      new slot and `None` on success, or the unchanged slot and the reason. */
  function Claim(e: Event): (r: (Event, Option<string>))
    ensures r.1.None? <==> e.Unset?
    ensures r.1.None? ==> r.0 == Claimed(false)
    ensures r.1.Some? ==> r.0 == e
  {
    if e.Unset? then (Claimed(false), None) else (e, Some(ALREADY_CLAIMED))
  }

  /** `mlua_event_enable`: like `Claim`, but reports only whether the slot was
      newly enabled (false when a handler already owns it). */
  function Enable(e: Event): (r: (Event, bool))
    ensures r.1 <==> e.Unset?
    ensures r.0.Claimed?
    ensures !r.1 ==> r.0 == e
  {
    if e.Unset? then (Claimed(false), true) else (e, false)
  }

  /** `mlua_event_unclaim` / `mlua_event_disable`: release the slot. Safe to call
      on a slot that was never claimed. */
  function Unclaim(e: Event): (r: Event)
    ensures r.Unset?
  {
    Unset
  }

  /** `mlua_event_set` / `mlua_event_set_nolock`: owe the waiter a wake-up.
      Signalling a slot nobody claimed has no effect. */
  function Signal(e: Event): (r: Event)
    ensures r.Claimed? <==> e.Claimed?
    ensures e.Claimed? ==> r.signalled
  {
    if e.Claimed? then Claimed(true) else e
  }

  /** `mlua_event_clear`: drop an owed wake-up without releasing the slot. */
  function ClearSignal(e: Event): (r: Event)
    ensures r.Claimed? <==> e.Claimed?
    ensures r.Claimed? ==> !r.signalled
  {
    if e.Claimed? then Claimed(false) else e
  }

  /** A second claim without an intervening unclaim fails and leaves the
      owner's slot as it was. */
  lemma ClaimIsExclusive(e: Event)
    ensures Claim(e).1.None? ==> Claim(Claim(e).0).1.Some? && Claim(Claim(e).0).0 == Claim(e).0
  {
  }

  /** Claiming, signalling and releasing returns a slot to exactly the unset
      state it started in: no pending wake-up and no claim leaks. */
  lemma ClaimSignalUnclaimRoundTrip(signals: nat)
    ensures Unclaim(Repeat(Claim(Unset).0, signals)) == Unset
    ensures signals > 0 ==> Repeat(Claim(Unset).0, signals) == Claimed(true)
  {
    RepeatCoalesces(Claimed(false), signals);
  }

  /** `n` signals in a row, with no consumer running in between. */
  function Repeat(e: Event, n: nat): (r: Event)
    ensures r.Claimed? <==> e.Claimed?
  {
    if n == 0 then e else Signal(Repeat(e, n - 1))
  }

  /** Signals coalesce: any positive number of them leaves exactly one owed
      wake-up, and none leaves the slot as it was. */
  lemma {:induction false} RepeatCoalesces(e: Event, n: nat)
    ensures n == 0 ==> Repeat(e, n) == e
    ensures n > 0 ==> Repeat(e, n) == Signal(e)
  {
    if n > 1 {
      RepeatCoalesces(e, n - 1);
    }
  }

  // ---------------------------------------------------------------------
  // 8-bit pending masks (`uint8_t pending`), one bit per slot of a family.

  const MASK_BITS: nat := 8

  function BitOf(k: nat): (r: bv8)
    requires k < MASK_BITS
  {
    1 << k
  }

  predicate IsPending(m: bv8, k: nat)
    requires k < MASK_BITS
  {
    m & BitOf(k) != 0
  }

  /** `pending |= 1u << k`: sets bit `k` and no other. */
  function SetPending(m: bv8, k: nat): (r: bv8)
    requires k < MASK_BITS
    ensures IsPending(r, k)
    ensures forall j :: 0 <= j < MASK_BITS && j != k ==> IsPending(r, j) == IsPending(m, j)
  {
    assert forall j | 0 <= j < MASK_BITS && j != k :: IsPending(m | BitOf(k), j) == IsPending(m, j) by {
      forall j | 0 <= j < MASK_BITS && j != k {
        OtherBit(m, j, k);
      }
    }
    m | BitOf(k)
  }

  /** `pending &= ~(1u << k)`: clears bit `k` and no other. */
  function ClearPending(m: bv8, k: nat): (r: bv8)
    requires k < MASK_BITS
    ensures !IsPending(r, k)
    ensures forall j :: 0 <= j < MASK_BITS && j != k ==> IsPending(r, j) == IsPending(m, j)
  {
    assert forall j | 0 <= j < MASK_BITS && j != k :: IsPending(m & !BitOf(k), j) == IsPending(m, j) by {
      forall j | 0 <= j < MASK_BITS && j != k {
        OtherBit(m, j, k);
      }
    }
    m & !BitOf(k)
  }

  /** Setting or clearing bit `k` leaves every other bit as it was. */
  lemma OtherBit(m: bv8, j: nat, k: nat)
    requires j < MASK_BITS && k < MASK_BITS && j != k
    ensures IsPending(m & !BitOf(k), j) == IsPending(m, j)
    ensures IsPending(m | BitOf(k), j) == IsPending(m, j)
  {
    BitsDisjoint(j, k);
    MaskFrame(m, BitOf(j), BitOf(k));
  }

  lemma BitsDisjoint(j: nat, k: nat)
    requires j < MASK_BITS && k < MASK_BITS && j != k
    ensures BitOf(j) & BitOf(k) == 0
  {
  }

  lemma MaskFrame(m: bv8, bj: bv8, bk: bv8)
    requires bj & bk == 0
    ensures (m & !bk) & bj == m & bj
    ensures (m | bk) & bj == m & bj
  {
  }

  /** The consumer's atomic test-and-clear: reports whether bit `k` was set and
      returns the mask with that bit cleared. */
  function TestAndClear(m: bv8, k: nat): (r: (bool, bv8))
    requires k < MASK_BITS
    ensures r.0 <==> IsPending(m, k)
    ensures r.1 == ClearPending(m, k)
  {
    (m & BitOf(k) != 0, m & !BitOf(k))
  }

  /** `n` interrupts on slot `k` with no consumer running in between. */
  function Interrupts(m: bv8, k: nat, n: nat): (r: bv8)
    requires k < MASK_BITS
  {
    if n == 0 then m else SetPending(Interrupts(m, k, n - 1), k)
  }

  /** Interrupts coalesce: after any positive number of them, one consumer step
      sees the bit set (one handler call) and the next sees it clear (no call). */
  lemma {:induction false} InterruptsCoalesce(m: bv8, k: nat, n: nat)
    requires k < MASK_BITS
    requires n > 0
    ensures Interrupts(m, k, n) == SetPending(m, k)
    ensures TestAndClear(Interrupts(m, k, n), k).0
    ensures !TestAndClear(TestAndClear(Interrupts(m, k, n), k).1, k).0
  {
    if n > 1 {
      InterruptsCoalesce(m, k, n - 1);
    }
  }
}
