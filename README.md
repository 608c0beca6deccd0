# MicroLua firmware core in Dafny

This project models the parts of the MicroLua firmware (Lua on the Raspberry
Pi Pico) that move data between interrupt context, the Lua runtime and byte
buffers, and proves properties of that model.

- **Interrupt-to-task pending-flag protocol** (`Events`, `Irq`, `Timer`, `Rtc`).
  An interrupt handler sets one bit of a small per-family bitmask, or a flag,
  and signals the family's event slot. The waiting handler thread
  test-and-clears its own bit and calls the Lua callback only when the bit
  was set, so several interrupts coalesce into one call. Setup claims the
  event slot and fails with a resource-named message ("IRQ27: already
  claimed"). Teardown removes the hardware callback, then unclaims. The
  `hardware.irq` and `hardware.timer` modules are classes over arrays, and
  their hardware side effects are recorded in order in a ghost log. An event
  slot is reduced to "unset" or "claimed, possibly signalled"; the event
  module itself is not part of this model.
- **WiFi scan-result queue** (`WiFi`). A fixed ring of four results with
  `uint8_t` head and tail, the `QUEUE_EMPTY` sentinel 0xff, a drop counter
  for a full queue, and the drain loop that hands results to the Lua handler
  oldest first.
- **64-bit integers on a 32-bit Lua** (`Int64`, `Int64Parse`, `Bits`).
  - Wrapping arithmetic and bitwise operations; the unsigned comparison.
  - Shifts by out-of-range and negative amounts.
  - Floor division and modulo, as in section 3.4.1 of the Lua 5.4 Reference
    Manual.
  - Assembly of a value from 32-bit parts.
  - The string parser, with its base prefixes, whitespace rules and
    wrap-around accumulation.
- **Bounds-checked byte buffers** (`Mem`). `read`, `read_cstr`, `write`,
  `fill`, `find`, `get` and `set` over a buffer whose size is known. Offsets
  and lengths are 32-bit `lua_Unsigned`.
- **lwIP packet buffers** (`Pbuf`). `fill` walks the segments of a pbuf
  chain and memsets them. `find` searches within a window. The Lua handle's
  `free` releases the chain at most once; `__len`, `__buffer` and `alloc`
  report its state.
- **lwIP error conventions** (`Lwip`). The error-code message table, the
  `fail, code` result convention and `lwip.assert`.
- **Utilities** (`Util`). C truthiness of Lua values, symbol-name prefix
  stripping when fields are set, and the per-core `yield_enabled` flag.

Widths follow the firmware's configuration:

| C type | width |
|---|---|
| `lua_Integer`, `lua_Unsigned`, `size_t` | 32 bits |
| `int64_t` | 64 bits |
| `err_t` | signed 8 bits |
| pbuf `tot_len` | 16 bits |
| datetime year | 16 bits |
| other datetime fields | 8 bits |

Conversions to these types are written out as wrap-arounds.

The `init` constructor in `lib/hardware.irq.c:266-273` loops over the cores
but indexes `uirq_state[get_core_num()]`. So it resets only the running
core's user-IRQ slots; the other core's slots keep their static initial
value. `Irq.IrqModule.constructor` states exactly that.

## Model

| member | source | states |
|---|---|---|
| Events.Claim | lib/hardware.irq.c:102-105 | a claim succeeds exactly on an unset slot and leaves it claimed and unsignalled; a failed claim leaves the slot unchanged and gives the reason |
| Events.Enable | lib/pico/hardware.rtc.c:148-153 | enabling reports true exactly when the slot was unset; the slot is claimed afterwards, and untouched when it already was |
| Events.Unclaim | lib/hardware.irq.c:89-97 | unclaiming leaves the slot unset |
| Events.Signal | lib/hardware.irq.c:46-53 | signalling a claimed slot marks it signalled and never claims or releases it |
| Events.ClearSignal | lib/hardware.irq.c:147-165 | clearing keeps the claim and drops any owed wake-up |
| Events.ClaimIsExclusive | lib/hardware.timer.c:39-51 | after a successful claim a second claim fails and changes nothing |
| Events.ClaimSignalUnclaimRoundTrip | lib/hardware.timer.c:32-51 | claim, any number of signals, then unclaim returns the slot to unset |
| Events.Repeat | lib/hardware.irq.c:46-53 | repeated signals never change whether the slot is claimed |
| Events.RepeatCoalesces | lib/hardware.irq.c:46-53 | n > 0 signals have the effect of one signal |
| Events.SetPending | lib/hardware.irq.c:50 | `pending \|= 1 << k` sets bit k and leaves every other bit unchanged |
| Events.ClearPending | lib/hardware.irq.c:155 | `pending &= ~(1 << k)` clears bit k and leaves every other bit unchanged |
| Events.OtherBit | lib/hardware.irq.c:50-155 | setting or clearing bit k of the pending mask leaves every other bit as it was |
| Events.TestAndClear | lib/hardware.timer.c:53-60 | reports whether bit k was set and leaves the mask with bit k cleared |
| Events.InterruptsCoalesce | lib/hardware.irq.c:73-87 | n > 0 interrupts set the bit once; the first test-and-clear reports it, the second does not |
| Irq.IsUserIrq | lib/hardware.irq.c:13-15 | the user IRQs are exactly the last NUM_USER_IRQS of the NUM_IRQS interrupts, each with a bit in the 8-bit mask |
| Irq.UserIrqUnsigned | lib/hardware.irq.c:13-15 | converting a `lua_Integer` to the `uint` parameter never changes whether it is a user IRQ |
| Irq.CheckIrq | lib/hardware.irq.c:17-22 | accepts exactly 0 <= irq < NUM_IRQS; otherwise raises "bad argument #n (unsupported IRQ number)" |
| Irq.CheckUserIrq | lib/hardware.irq.c:24-28 | accepts exactly the user IRQs, each of them an IRQ with a bit in the 8-bit mask; otherwise raises "bad argument #n (unsupported user IRQ number)" |
| Irq.IrqModule.constructor | lib/hardware.irq.c:266-273 | all pending masks are 0; the running core's user-IRQ slots are unset and the other core's keep their static value |
| Irq.IrqModule.HandleUserIrq | lib/hardware.irq.c:46-53 | sets only this IRQ's bit of the current core's mask and signals only its slot |
| Irq.IrqModule.IrqThreadStep | lib/hardware.irq.c:73-87 | the handler is called exactly when the bit was set; only that bit is cleared |
| Irq.IrqModule.IrqThreadDone | lib/hardware.irq.c:89-97 | removes the handler, clears the registry, then unclaims, in that order; nothing else changes |
| Irq.IrqModule.SetHandler | lib/hardware.irq.c:99-118 | a non-user IRQ raises "bad argument #1 (unsupported user IRQ number)" and a failed claim "IRQ<n>: already claimed", both before any handler is installed; success claims, installs, then starts the thread |
| Irq.IrqModule.Clear | lib/hardware.irq.c:147-165 | fails exactly outside [0, NUM_IRQS); for a user IRQ clears that bit and that slot's signal, other bits untouched |
| Irq.IrqModule.IsPendingIrq | lib/hardware.irq.c:167-181 | true exactly when the NVIC bit is set or, for a user IRQ, the software bit is set |
| Irq.IrqModule.SetEnabled | lib/hardware.irq.c:183-194 | enabling first clears exactly this IRQ's pending bit of the current core's mask and this slot's signal, then enables; disabling changes no pending state; other cores' masks and all other slots are unchanged |
| Timer.CheckAlarm | lib/hardware.timer.c:10-15 | accepts exactly 0 <= alarm < NUM_TIMERS, each of which has a bit in the 8-bit mask; otherwise raises "bad argument #n (invalid alarm number)" |
| Timer.TimerModule.constructor | lib/hardware.timer.c:134-138 | every alarm slot starts unset, with no callback and no pending bit |
| Timer.TimerModule.HandleAlarm | lib/hardware.timer.c:32-37 | sets only this alarm's bit and signals only its slot |
| Timer.TimerModule.EnableAlarm | lib/hardware.timer.c:39-51 | disable removes the callback, then unclaims; a failed claim raises "TIMER<n>: already claimed" and installs nothing; other alarms unchanged |
| Timer.TimerModule.TryPending | lib/hardware.timer.c:53-60 | returns 0 if the bit was set and -1 otherwise, clearing only that bit |
| Timer.TimerModule.CancelAlarm | lib/hardware.timer.c:69-76 | cancels the hardware alarm, then clears its pending bit |
| Timer.TimerModule.Cancel | lib/hardware.timer.c:90-93 | validates the alarm, then cancels and clears its bit; on error nothing changes |
| Timer.TimerModule.SetTarget | lib/hardware.timer.c:78-88 | cancels, clearing the bit, before arming the new target, so a stale fire cannot be consumed; returns whether the target was missed |
| Rtc.ToInt16 | lib/pico/hardware.rtc.c:60-69 | the `int16_t` conversion: in range, congruent modulo 2^16, identity on representable values |
| Rtc.ToInt8 | lib/pico/hardware.rtc.c:60-69 | the `int8_t` conversion: in range, congruent modulo 2^8, identity on representable values |
| Rtc.GetDatetimeField | lib/pico/hardware.rtc.c:41-58 | a missing or nil field reads as -1, an integer as itself, an integral float within `lua_Integer` as its integer; any other float or non-number raises "invalid datetime <name> value" |
| Rtc.ReadFields | lib/pico/hardware.rtc.c:60-69 | reads every field in order, and fails exactly when one of them fails |
| Rtc.CheckDatetime | lib/pico/hardware.rtc.c:60-69 | a non-table raises "bad argument #1 (datetime table expected)"; a table fails exactly when a field does; the result fits the field widths |
| Rtc.SetDatetimeField | lib/pico/hardware.rtc.c:78-83 | negative values are omitted; others are stored as integers under their name |
| Rtc.DatetimeTable | lib/pico/hardware.rtc.c:85-97 | the built table holds only datetime field names, each as a non-negative integer |
| Rtc.DatetimeRoundTrip | lib/pico/hardware.rtc.c:85-97 | reading back a table built by `get_datetime` gives the same datetime, with negative fields as -1 |
| Rtc.TableReadsBack | lib/pico/hardware.rtc.c:85-97 | the fields of a built table read back in order, with negative fields as -1 |
| Rtc.FieldsInRange | lib/pico/hardware.rtc.c:60-69 | a table whose fields read as a datetime within the field widths checks to exactly that datetime |
| Rtc.ReadsInOrder | lib/pico/hardware.rtc.c:60-69 | when each named field reads as its value, reading them all in order succeeds with those values |
| Rtc.FieldReads | lib/pico/hardware.rtc.c:41-58 | a field stored exactly when non-negative reads back as itself or -1 |
| Rtc.TableField | lib/pico/hardware.rtc.c:78-83 | a built table holds exactly the non-negative fields, each as its own integer |
| Rtc.RtcModule.constructor | lib/pico/hardware.rtc.c:100-106 | the zeroed static state: the event holds the zeroed event value, with no pending flag and no callback |
| Rtc.RtcModule.HandleAlarm | lib/pico/hardware.rtc.c:108-113 | sets the pending flag and signals the event in one step |
| Rtc.RtcModule.HandleAlarmEvent | lib/pico/hardware.rtc.c:115-125 | reads and clears the flag; the stored callback is invoked exactly when it was set |
| Rtc.RtcModule.AlarmHandlerDone | lib/pico/hardware.rtc.c:127-137 | parks the alarm, forgets the callback and disables the event |
| Rtc.RtcModule.SetAlarm | lib/pico/hardware.rtc.c:139-175 | a nil callback only stops the handler and leaves the flag alone; a bad datetime raises before any change; a new event without a callback is disabled again, keeping the stored callback; otherwise the flag is reset before arming, a claimed event is left as it was, and a running handler is reused |
| Rtc.RtcModule.EnableAlarm | lib/pico/hardware.rtc.c:179-182 | enables the hardware alarm |
| Rtc.RtcModule.DisableAlarm | lib/pico/hardware.rtc.c:184-192 | disables the alarm and always leaves the flag clear |
| WiFi.Slot | lib/pico/pico.cyw43.wifi.c:57-65 | the i-th queued result lives in a valid index, never QUEUE_EMPTY |
| WiFi.SlotsDistinct | lib/pico/pico.cyw43.wifi.c:21-23 | the positions of a full queue occupy distinct slots |
| WiFi.SlotShift | lib/pico/pico.cyw43.wifi.c:80-88 | advancing the head modulo the size shifts every queued position down by one |
| WiFi.Enqueued | lib/pico/pico.cyw43.wifi.c:57-64 | storing at `scan_tail` keeps every queued result in its slot and adds the new one last |
| WiFi.WiFiState.constructor | lib/pico/pico.cyw43.wifi.c:34-40 | the zeroed static state: head and tail 0, nothing dropped, the event holds the zeroed event value |
| WiFi.WiFiState.HandleScanResult | lib/pico/pico.cyw43.wifi.c:50-71 | a full queue keeps its contents and counts a drop; otherwise the result is appended at the tail and the event signalled; an empty queue resets head and tail first; the hardware log is untouched |
| WiFi.WiFiState.DrainStep | lib/pico/pico.cyw43.wifi.c:79-91 | dequeues the oldest result, if any, and reads and resets the drop count; the head becomes QUEUE_EMPTY when it reaches the tail; the tail, the stored results and the hardware log are untouched |
| WiFi.WiFiState.HandleScanResultEvent | lib/pico/pico.cyw43.wifi.c:76-116 | delivers every queued result in enqueue order, with the drop count on the first only, then waits or stops depending on whether the scan is active; the event, the tail, the stored results and the hardware log are untouched |
| WiFi.WiFiState.Scan | lib/pico/pico.cyw43.wifi.c:152-175 | errors if a scan is in progress; otherwise empties the queue and the drop count, and disables the event again if the scan fails to start |
| WiFi.WiFiState.ScanResultHandlerDone | lib/pico/pico.cyw43.wifi.c:123-129 | stops the scan and disables the event |
| Util.ToCBool | core/util.c:13-18 | an integer is true iff nonzero, a float iff not 0.0, any other value as Lua truthiness |
| Util.ToCBoolVersusTruthy | core/util.c:13-18 | an integer is true exactly when nonzero, a boolean is itself; only numeric zero differs from Lua truthiness |
| Util.FieldName | core/util.c:48 | strips a leading "@_" and leaves every other name unchanged |
| Util.FieldNameRoundTrip | core/util.c:48 | a hidden name loses exactly its prefix; a name is changed only when it carries the prefix |
| Util.AssignUntouched | core/util.c:44-51 | a key no symbol names keeps its old entry |
| Util.AssignLast | core/util.c:44-51 | a key takes the value of the last symbol that names it |
| Util.SetFields | core/util.c:44-51 | processes exactly the first `cnt` symbols, in order |
| Util.YieldFlags.constructor | core/util.c:107-112 | every core starts with yielding enabled |
| Util.YieldFlags.GlobalYieldEnabled | core/util.c:89-98 | returns the current core's previous flag and changes only that flag, only when a non-nil argument is given |
| Int64.ToUnsigned | lib/common/mlua.int64.c:207 | `(uint64_t)x`: the representative of x in [0, 2^64), two's complement on int64 values |
| Int64.ToSigned | lib/common/mlua.int64.c:207 | `(int64_t)u`: an int64 that converts back to u |
| Int64.Wrap | lib/common/mlua.int64.c:207 | reduces any integer to an int64, leaving int64 values unchanged |
| Int64.Add | lib/common/mlua.int64.c:297-308 | the sum wraps modulo 2^64 |
| Int64.Sub | lib/common/mlua.int64.c:297-308 | the difference wraps modulo 2^64 |
| Int64.Mul | lib/common/mlua.int64.c:297-308 | the product wraps modulo 2^64 |
| Int64.Unm | lib/common/mlua.int64.c:342-345 | negation wraps modulo 2^64 |
| Int64.UnmInvolution | lib/common/mlua.int64.c:342-345 | negating twice is the identity; INT64_MIN is its own negation |
| Int64.SubInvertsAdd | lib/common/mlua.int64.c:297-308 | subtracting undoes adding, modulo 2^64 |
| Int64.SubIsAddNegation | lib/common/mlua.int64.c:297-345 | a - b == a + (-b), both wrapping |
| Int64.Band | lib/common/mlua.int64.c:358-366 | an int64 whose unsigned pattern is the bitwise and of the operands' patterns |
| Int64.Bor | lib/common/mlua.int64.c:358-367 | an int64 whose unsigned pattern is the bitwise or of the operands' patterns |
| Int64.Bxor | lib/common/mlua.int64.c:358-368 | an int64 whose unsigned pattern is the bitwise xor of the operands' patterns |
| Int64.Bnot | lib/common/mlua.int64.c:370-373 | an int64 whose unsigned pattern is 2^64 - 1 minus the operand's, every bit flipped |
| Int64.BorZero | lib/common/mlua.int64.c:358-367 | or with 0 is the identity on int64 values |
| Int64.BorDisjoint | lib/common/mlua.int64.c:358-367 | or of operands with no bit in common is their sum |
| Int64.BnotIsComplement | lib/common/mlua.int64.c:370-373 | `~a == -a - 1`, and complementing twice is the identity |
| Int64.BxorInvolution | lib/common/mlua.int64.c:358-368 | xor with the same operand twice is the identity |
| Int64.BxorSign | lib/common/mlua.int64.c:358-368 | a xor b is negative exactly when the signs differ |
| Int64.BandLowMask | lib/common/mlua.int64.c:358-368 | and with 2^k - 1 keeps the low k bits |
| Int64.Ult | lib/common/mlua.int64.c:263-267 | the unsigned order: same signs compare as signed, otherwise the negative one is larger |
| Int64.ToLuaInteger | lib/common/mlua.int64.c:247-256 | `(lua_Integer)x`: a 32-bit value, identity on representable values |
| Int64.ToInteger | lib/common/mlua.int64.c:247-256 | succeeds exactly when the value round-trips through `lua_Integer`, and returns it |
| Int64.LogicalLeft | lib/common/mlua.int64.c:211 | `(uint64_t)x << n`: an int64 whose pattern is x's pattern times 2^n modulo 2^64 |
| Int64.LogicalRight | lib/common/mlua.int64.c:215 | `(uint64_t)x >> n`: an int64 whose pattern is x's pattern divided by 2^n, a non-negative value when n > 0 |
| Int64.ArithmeticRight | lib/common/mlua.int64.c:214 | `lhs >> n` on a signed value is floor division by 2^n and stays within int64 |
| Int64.FloorDivBound | lib/common/mlua.int64.c:214 | floor division by a positive divisor brackets x, moves a non-negative value toward zero and keeps a negative one in [x, -1] |
| Int64.ShiftLeft | lib/common/mlua.int64.c:209-216 | `shift_left` always yields an int64 |
| Int64.Shl | lib/common/mlua.int64.c:375-379 | `__shl`: a non-negative amount multiplies by 2^b with wrap-around, a negative one shifts right logically |
| Int64.Shr | lib/common/mlua.int64.c:381-385 | `__shr`: a non-negative amount shifts right logically, a negative one multiplies by 2^-b with wrap-around |
| Int64.Ashr | lib/common/mlua.int64.c:218-222 | `ashr`: a non-negative amount shifts right arithmetically, a negative one multiplies by 2^-b with wrap-around |
| Int64.ShiftLeftIsMultiplication | lib/common/mlua.int64.c:209-216 | a non-negative amount multiplies by 2^k modulo 2^64, so 64 or more yields 0 |
| Int64.LeftShiftWide | lib/common/mlua.int64.c:210 | a shift of 64 or more yields 0 |
| Int64.LeftShiftNarrow | lib/common/mlua.int64.c:211 | a shift below 64 is multiplication by 2^k modulo 2^64 |
| Int64.ShiftRightIsDivision | lib/common/mlua.int64.c:212-215 | a negative amount shifts right, logically or arithmetically |
| Int64.ShiftByZero | lib/common/mlua.int64.c:209-216 | shifting by 0 is the identity |
| Int64.RightShiftWide | lib/common/mlua.int64.c:213 | a right shift of 64 or more yields -1 only for an arithmetic shift of a negative value, else 0 |
| Int64.CDiv | lib/common/mlua.int64.c:318 | C's `/`: \|q\| is the largest multiple count of \|b\| within \|a\|, and a nonzero q is negative exactly when the signs differ |
| Int64.CRem | lib/common/mlua.int64.c:310-324 | C's `%`: a == (a / b) * b + r, \|r\| < \|b\|, r has the sign of a |
| Int64.TruncatedDivision | lib/common/mlua.int64.c:310-324 | C's `/` truncates toward zero with a remainder smaller than the divisor |
| Int64.ZeroOrMinusOne | lib/common/mlua.int64.c:313 | the unsigned test `(uint64_t)rhs + 1 <= 1` holds exactly for 0 and -1 |
| Int64.FixedQuotient | lib/common/mlua.int64.c:318-321 | for int64 operands and a divisor other than 0 and -1, the adjusted quotient is the floor quotient and an int64 |
| Int64.Idiv | lib/common/mlua.int64.c:310-324 | divisor 0 raises "attempt to divide by zero"; any other divisor succeeds |
| Int64.Mod | lib/common/mlua.int64.c:326-340 | divisor 0 raises "attempt to perform 'n%0'"; any other divisor succeeds |
| Int64.TruncToFloor | lib/common/mlua.int64.c:318-321 | adjusting a truncated quotient by one when the signs differ and the remainder is nonzero gives the floor quotient |
| Int64.IdivIsFloor | lib/common/mlua.int64.c:310-324 | the quotient rounds toward negative infinity; INT64_MIN // -1 wraps to INT64_MIN |
| Int64.DivisionBound | lib/common/mlua.int64.c:318-321 | the quotient and its adjustment stay within int64 |
| Int64.ModIsFloorRemainder | lib/common/mlua.int64.c:326-340 | a nonzero remainder has the sign of the divisor and is smaller, and a == (a // b) * b + a % b |
| Int64.ModByMinusOne | lib/common/mlua.int64.c:313-316 | divisor -1 gives the wrapping negation and remainder 0 |
| Int64.RecombineWraps | lib/common/mlua.int64.c:326-340 | an exact quotient-remainder decomposition survives wrapping |
| Int64.AssembleSplit | lib/common/mlua.int64.c:158-172 | every int64 is assembled from its low word and its high word |
| Int64.NewFromParts | lib/common/mlua.int64.c:158-172 | more than two parts raise "too many arguments (max: 2)"; otherwise the loop assembles the parts into an int64 |
| Int64.MergeStep | lib/common/mlua.int64.c:166-171 | one loop iteration keeps the merged value and mask consistent |
| Int64.MergedAll | lib/common/mlua.int64.c:166-171 | after the loop, the value is the assembled int64 |
| Int64Parse.DigitValue | lib/common/mlua.int64.c:80-87 | an alphanumeric digit is below 36, and below 10 exactly when decimal |
| Int64Parse.SkipSpace | lib/common/mlua.int64.c:63 | skipping whitespace ends at a non-space |
| Int64Parse.AlnumRun | lib/common/mlua.int64.c:80-87 | the longest alphanumeric prefix |
| Int64Parse.DetectBase | lib/common/mlua.int64.c:67-77 | the chosen base is between 2 and 36 |
| Int64Parse.StringToInt64 | lib/common/mlua.int64.c:62-92 | a parse that succeeds yields an int64, and the string ends after the digits and trailing white space |
| Int64Parse.ReadPrefix | lib/common/mlua.int64.c:63-77 | the loop skipping white space, the sign and the base prefix yields the sign, base and first digit of the parsing specification |
| Int64Parse.Scan | lib/common/mlua.int64.c:78-89 | a scan that succeeds ends at the end of the string after white space, and its first alphanumeric digit is below the base |
| Int64Parse.ParseInt64 | lib/common/mlua.int64.c:62-92 | the parser walking the string character by character returns exactly the value of the parsing specification |
| Int64Parse.ScanFrom | lib/common/mlua.int64.c:80-89 | digit scanning succeeds exactly when every digit is below the base and only whitespace follows |
| Int64Parse.ScanIsLiteral | lib/common/mlua.int64.c:78-89 | a literal must start with an alphanumeric character |
| Int64Parse.ScanStep | lib/common/mlua.int64.c:80-87 | one turn of the digit loop consumes a digit below the base and pushes it onto the accumulator |
| Int64Parse.ReadDigits | lib/common/mlua.int64.c:78-87 | the accumulation loop yields the literal's value modulo 2^64 |
| Int64Parse.SkipTrailingSpace | lib/common/mlua.int64.c:88-89 | the trailing loop stops at the first non-space |
| Int64Parse.AccumulateStep | lib/common/mlua.int64.c:84-87 | accumulating `v*base+digit` modulo 2^64 at every step equals reducing once |
| Int64Parse.WrapOfResidue | lib/common/mlua.int64.c:90 | negating the residue modulo 2^64 is the wrapping negation |
| Int64Parse.DecimalRoundTrip | lib/common/mlua.int64.c:58-60 | parsing the decimal rendering of any int64 in base 0 or 10 gives it back |
| Int64Parse.DecimalWraps | lib/common/mlua.int64.c:62-92 | a decimal literal too large for int64 wraps modulo 2^64 |
| Int64Parse.DecimalLiteral | lib/common/mlua.int64.c:80-87 | the digits of n in base 10 have value n |
| Int64Parse.MinusNegates | lib/common/mlua.int64.c:64-66 | a leading '-' negates modulo 2^64, and fails exactly when the rest fails |
| Int64Parse.SignedNegates | lib/common/mlua.int64.c:90 | the negative sign maps the unsigned literal to its wrapping negation |
| Int64Parse.PrefixSelectsBase | lib/common/mlua.int64.c:67-77 | in base 0, "0x"/"0X" select 16, "0o" 8 and "0b" 2 |
| Int64Parse.ExplicitBaseRejectsPrefix | lib/common/mlua.int64.c:67-77 | with an explicit base, "0x" is not a prefix and 'x' fails as a digit |
| Int64Parse.BarePrefixFails | lib/common/mlua.int64.c:78 | a prefix without digits fails |
| Mem.Unsigned | lib/common/mlua.mem.c:48-52 | the conversion to 32-bit `lua_Unsigned` |
| Mem.OptLen | lib/common/mlua.mem.c:48-52 | the default is used only when the size is known and the argument is absent; otherwise the argument is required |
| Mem.OptUnsigned | lib/common/mlua.mem.c:61-73 | an optional offset or length is a 32-bit value |
| Mem.WrappedLengthPassesCheck | lib/common/mlua.mem.c:54-59 | as written, a length of 2^32 - 1 passes the check on a 16-byte buffer |
| Mem.CheckBounds | lib/common/mlua.mem.c:54-59 | accepts exactly off + len <= size; an offset past the end names the offset argument, otherwise the length argument, with "out of bounds" |
| Mem.CheckBoundsCorrected | lib/common/mlua.mem.c:54-59 | the corrected check never accepts more than the written one, and agrees with it when the sum does not wrap |
| Mem.Read | lib/common/mlua.mem.c:61-73 | succeeds exactly when the window fits, and returns the bytes from off, of the given length or to the end of the buffer |
| Mem.ReadWindow | lib/common/mlua.mem.c:61-73 | a read succeeds exactly when its window fits, and returns bytes [off, off + len) |
| Mem.ReadWhole | lib/common/mlua.mem.c:61-73 | with no arguments a read returns the whole buffer |
| Mem.FindByte | lib/common/mlua.mem.c:75-89 | the first position of a byte in a window, or none in the window |
| Mem.ReadCstr | lib/common/mlua.mem.c:75-89 | succeeds exactly when the window fits; the string read holds no zero byte |
| Mem.ReadCstrPrefix | lib/common/mlua.mem.c:75-89 | the result is the window cut at its first zero byte, or the whole window |
| Mem.FindSeq | lib/common/mlua.mem.c:115-128 | the first occurrence of the needle within a window, or none in the window |
| Mem.Find | lib/common/mlua.mem.c:115-128 | succeeds exactly when the window and the needle fit; a needle past the end raises "bad argument #2 (out of bounds)"; a reported position lies within the window |
| Mem.FindIsFirstMatch | lib/common/mlua.mem.c:115-128 | `find` reports an occurrence of the needle that lies within the window with no occurrence before it from off, or nothing when the window holds none |
| Mem.Get | lib/common/mlua.mem.c:130-148 | returns the bytes of [off, off + len) as integers, in order, and fails exactly when the read would |
| Mem.Overwrite | lib/common/mlua.mem.c:91-101 | the window holds the new bytes, every other byte is unchanged |
| Mem.OverwriteByParts | lib/common/mlua.mem.c:91-101 | a buffer equal to the source on the window and to the old buffer elsewhere is the overwrite |
| Mem.ReadAfterOverwrite | lib/common/mlua.mem.c:61-101 | reading back the window just written returns what was written |
| Mem.Byte | lib/common/mlua.mem.c:103-113 | the stored byte is the value modulo 256 |
| Mem.Repeat | lib/common/mlua.mem.c:103-113 | len copies of the fill byte |
| Mem.Write | lib/common/mlua.mem.c:91-101 | copies the source into [off, off + len) and changes no other byte; on a bounds error nothing changes |
| Mem.Fill | lib/common/mlua.mem.c:103-113 | sets [off, off + len) to the low byte of the value and changes no other byte; on a bounds error nothing changes |
| Mem.Set | lib/common/mlua.mem.c:150-162 | stores the low bytes of the values at consecutive offsets from off; on a bounds error nothing changes |
| Mem.Store | lib/common/mlua.mem.c:157-160 | the store loop writes the low byte of each value at consecutive offsets from off and changes no other byte |
| Mem.StoreStep | lib/common/mlua.mem.c:157-160 | one store just past the bytes written so far extends the overwritten window by that byte |
| Mem.Bytes | lib/common/mlua.mem.c:150-162 | the low byte of each value, in order |
| Mem.ReadAfterSet | lib/common/mlua.mem.c:130-162 | `get` after `set` yields each value modulo 256 |
| Pbuf.Lens | lib/pico/lwip.pbuf.c:53-73 | the `len` of each segment of the chain |
| Pbuf.StartMonotone | lib/pico/lwip.pbuf.c:53-73 | segment start offsets never decrease along the chain |
| Pbuf.StartNext | lib/pico/lwip.pbuf.c:65-71 | each segment starts where the previous one ends |
| Pbuf.FlattenLength | lib/pico/lwip.pbuf.c:33-37 | the packet's length is the sum of the segment lengths |
| Pbuf.Skip | lib/pico/lwip.pbuf.c:57 | the found segment is at or after the start one and the in-segment offset is at most the offset and lies within that segment |
| Pbuf.SkipLocates | lib/pico/lwip.pbuf.c:57 | `pbuf_skip` finds the segment and in-segment offset of a packet offset, which is inside that segment when one is found |
| Pbuf.FillFlatten | lib/pico/lwip.pbuf.c:53-73 | filling each segment over its share of the window fills the window of the whole packet |
| Pbuf.FillRangeIsOverwrite | lib/pico/lwip.pbuf.c:53-73 | a window fill is the packet overwritten with len copies of the byte |
| Pbuf.FillSegment | lib/pico/lwip.pbuf.c:58-70 | a memset capped at the segment's length fills exactly that segment's share of the window |
| Pbuf.Memset | lib/pico/lwip.pbuf.c:61-69 | sets [lo, lo + size) and nothing else |
| Pbuf.Fill | lib/pico/lwip.pbuf.c:53-73 | every segment is filled over its share of the window, never past its length, and the packet equals the old one with [off, off + len) set to the byte |
| Pbuf.FillFirst | lib/pico/lwip.pbuf.c:57-64 | fills the partial first segment from the skip offset, capped at its length, and nothing else |
| Pbuf.FillPartial | lib/pico/lwip.pbuf.c:58-64 | given the segment and offset from `pbuf_skip`, fills that segment from the offset, capped at its length, and nothing else |
| Pbuf.FillLoop | lib/pico/lwip.pbuf.c:65-71 | fills whole segments until len bytes are done or the chain ends |
| Pbuf.FillWhole | lib/pico/lwip.pbuf.c:65-70 | fills one segment from its start, capped at its length, and counts down what remains |
| Pbuf.FillPacket | lib/pico/lwip.pbuf.c:53-73 | segment-wise fills add up to the overwrite of the whole packet |
| Pbuf.FillBefore | lib/pico/lwip.pbuf.c:57 | segments before the skip target are untouched |
| Pbuf.FillRest | lib/pico/lwip.pbuf.c:65-71 | segments after the last filled one are untouched |
| Pbuf.MemFind | lib/pico/lwip.pbuf.c:78 | `pbuf_memfind`: the first match from start, or 0xFFFF when no match starts before 0xFFFF |
| Pbuf.Find | lib/pico/lwip.pbuf.c:75-82 | a reported position is a match that lies within the window and the packet |
| Pbuf.FindIsWindowSearch | lib/pico/lwip.pbuf.c:75-82 | `find` reports the first match within [off, off + len), and nothing when the match would end past it |
| Pbuf.FindSeqShorter | lib/pico/lwip.pbuf.c:80-81 | searching the whole packet and discarding a match past the window equals searching the window |
| Pbuf.Handle.constructor | lib/pico/lwip.pbuf.c:110-120 | a new handle holds the given chain and has not been freed |
| Pbuf.Handle.Len | lib/pico/lwip.pbuf.c:33-37 | nothing for a freed pbuf, otherwise the packet's total length |
| Pbuf.Handle.Buffer | lib/pico/lwip.pbuf.c:87-94 | nothing for a freed pbuf, otherwise the chain and its length |
| Pbuf.Handle.Free | lib/pico/lwip.pbuf.c:22-31 | frees at most once and forgets the chain, so a second call is a no-op |
| Pbuf.Alloc | lib/pico/lwip.pbuf.c:110-120 | the size is taken modulo 2^16; success returns the handle, failure returns fail and ERR_MEM |
| LuaValues.ToIntegerX | lib/pico/lwip.c:156 | `lua_tointegerx` without string coercion: an integer as itself, a float exactly when it is integral and within `lua_Integer`, nothing otherwise |
| Lwip.ToErrT | lib/pico/lwip.c:147-150 | the `err_t` conversion: in [-128, 128), congruent modulo 256, identity on representable codes |
| Lwip.ErrStr | lib/pico/lwip.c:28-49 | each listed code maps to its fixed message and every other code to "unknown error" |
| Lwip.ErrStrIdentifiesCode | lib/pico/lwip.c:28-49 | distinct listed codes have distinct messages, never "unknown error" |
| Lwip.MessagesDistinct | lib/pico/lwip.c:28-49 | the message table has no duplicates |
| Lwip.ModErrStr | lib/pico/lwip.c:147-150 | on an `err_t` value, `lwip.err_str` is the table lookup |
| Lwip.ErrStrWraps | lib/pico/lwip.c:147-150 | the argument is reduced to `err_t`, so codes 256 apart share a message |
| Lwip.PushErr | lib/pico/lwip.c:17-21 | pushes fail and the code: two results, the first falsy |
| Lwip.PushResult | lib/pico/lwip.c:23-26 | the first result is truthy exactly when err is ERR_OK; otherwise it is `push_err` |
| Lwip.Assert | lib/pico/lwip.c:152-159 | a truthy first argument returns all the arguments unchanged; otherwise raises `err_str` of the second argument when it converts to an integer, and the second argument itself when it does not |
| Lwip.AssertOfResult | lib/pico/lwip.c:152-159 | asserting a pushed result returns true on ERR_OK and otherwise raises the code's message |

## Left out

- Event module internals (claim, wait, lock, handler threads): they are not part of this model. A slot is abstracted to unset or claimed-and-signalled.
- Concurrency: spinlocks, disabled interrupts and cross-core wake-ups. Each locked region is one atomic step of a method, and interleavings are not modelled.
- Hardware and driver calls are recorded in a ghost log of steps or become parameters: NVIC registers, `irq_set_exclusive_handler`, `hardware_alarm_*`, `rtc_set_alarm`, the cyw43 driver, and the current core number. The RTC workaround for a hardware race is not modelled.
- Lua stack plumbing: argument type errors, and the function name that `luaL_argerror` puts into "bad argument #n to '<name>' (...)". Argument errors in `Mem`, `Irq`, `Timer` and `Rtc` are modelled as "bad argument #n (reason)". For `luaL_argexpected` in `Rtc.CheckDatetime`, the ", got <type>" suffix is left out.
- `lua_tointegerx` string coercion in `lwip.assert`: a numeric string is raised as itself, not converted to its error message. (The datetime fields read numbers only, so coercion does not arise there.)
- Rtc.RtcModule.constructor, WiFi.WiFiState.constructor: `rtc_state` and `wifi_state` are zero-initialised statics, and no code in these modules sets their event to UNSET. Whether a zeroed `MLuaEvent` is unset depends on the event module, which is not part of this model. So the initial event is a parameter, as for the other core's slots in `Irq.IrqModule.constructor`.
- Mem.FindSeq: the body of `mlua_buffer_find` is not part of this model. It is specified by its effect: the first occurrence lying wholly within `[off, off + len)`, or none. The same holds for Mem.FindByte, which uses it for `read_cstr`.
- `mod_remove_handler`, `mod_wait_alarm`, `mod_set_pending` and the thin wrappers around the checks are not modelled.
- Int64 floating-point paths (number conversions, `__div`, `__pow`, float comparisons) and the snprintf-based `hex`, `__tostring` and `__concat`; decimal rendering is a plain function.
- Int64.ShiftLeft, Int64.Shl, Int64.Shr, Int64.Ashr: negating INT64_MIN as a shift amount is undefined behaviour in C and is excluded by a precondition.
- Mem: buffers given by raw address and size (`SIZE_UNKNOWN`) beyond the `optlen` rule; `mallinfo`; `mem.alloc`.
- Mem.Read, Mem.ReadCstr, Mem.Write, Mem.Fill, Mem.Find, Mem.Get, Mem.Set, Pbuf.Fill: these use the corrected bounds check (`Mem.CheckBounds`). So when `off + len` wraps past 2^32, they report "out of bounds" where the code as written carries on (see Findings). `Pbuf.Fill` requires the window to lie within the packet, which the corrected check guarantees. So its model covers neither the wrapped clip `poff + size > pb->len` nor the loop exit where the chain ends before `len` is done.
- Mem.Get: the "too many results" stack limit is not modelled.
- Mem.Set: the partial writes left behind when a later argument is not an integer are not modelled; arguments are integers.
- Pbuf: `read`/`write` (via `pbuf_copy_partial` and `pbuf_take_at`), the layer and type arguments of `alloc`, and the vtable address returned by `__buffer`. `pbuf_skip` and `pbuf_memfind` are specified by their effect over the chain.
- Pbuf.FindIsWindowSearch: excludes an empty needle at offset 0xFFFF, where the not-found marker collides with a valid position.
- lwIP netif, IP addresses, and module init/deinit.

## Findings

| source | as written | input that shows it | evidently intended | confidence | as-written member | corrected member |
|---|---|---|---|---|---|---|
| lib/common/mlua.mem.c:54-59 | `off + len` is summed in 32-bit `lua_Unsigned` and wraps | `mem.fill(buf, 0, 1, -1)` on a 16-byte buffer: len becomes 0xFFFFFFFF, the sum wraps to 0 and passes; `PBUF_fill` then computes its clip `poff + size` in `lua_Unsigned` too, so with poff = 1 the sum wraps to 0, nothing is clipped and the memset runs past the segment | the window `[off, off + len)` lies within the buffer | not executed | Mem.WrappedLengthPassesCheck | Mem.CheckBoundsCorrected |
