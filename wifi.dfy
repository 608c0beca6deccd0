/** `lib/pico/pico.cyw43.wifi.c`: the bounded queue through which the WiFi
    driver's scan-result callback hands results to the Lua handler thread.

    `scan_head`, `scan_tail` and `scan_dropped` are `uint8_t`; `QUEUE_EMPTY`
    (0xff) in `scan_head` encodes the empty queue, and `scan_tail == scan_head`
    with a valid head encodes the full one. The abstract view `contents` lists
    the queued results oldest first. */
module WiFi {

  import opened Wrappers
  import opened Events

  /** `MLUA_WIFI_SCAN_BUFFER_SIZE` (default). */
  const SIZE: nat := 4
  /** `QUEUE_EMPTY`, i.e. `UINT8_MAX`. */
  const QUEUE_EMPTY: int := 0xff
  /** The timeout, in microseconds, after which the drain loop polls again. */
  const POLL_US: int := 200000

  /** One scan result, as copied out of the driver's record. */
  datatype ScanResult = ScanResult(rssi: int, channel: int, authMode: int,
                                   bssid: seq<bv8>, ssid: seq<bv8>)

  const ZERO_RESULT: ScanResult := ScanResult(0, 0, 0, [0, 0, 0, 0, 0, 0], [])

  /** One call of the Lua scan handler: the result and the number of results
      dropped since the previous call. */
  datatype Delivery = Delivery(result: ScanResult, missed: int)

  /** How the drain loop ends when the queue is empty: wait for the event or
      the poll timeout, or raise (ending the handler thread) once the scan is
      over. */
  datatype DrainOutcome = WaitUntil(timeoutUs: int) | Stop

  /** What `mod_scan` returns once the event is enabled. */
  datatype ScanOutcome = HandlerStarted | Failed(message: string, err: int)

  datatype Step = ScanStarted | ScanStopped

  /** The array index of the `i`-th queued result when the head is at `h`. */
  function Slot(h: int, i: int): (r: int)
    requires 0 <= h < SIZE && 0 <= i
    ensures 0 <= r < SIZE
  {
    (h + i) % SIZE
  }

  /** The first `SIZE` positions after a head occupy distinct slots. */
  lemma SlotsDistinct(h: int, i: int, j: int)
    requires 0 <= h < SIZE && 0 <= i < j < SIZE
    ensures Slot(h, i) != Slot(h, j)
  {
  }

  /** Advancing the head by one shifts every later position down by one. */
  lemma SlotShift(h: int, i: int)
    requires 0 <= h < SIZE && 0 <= i
    ensures Slot((h + 1) % SIZE, i) == Slot(h, i + 1)
  {
  }

  /** Storing a result in the slot after the last queued one keeps every
      queued result in its slot and places the new one last. */
  lemma Enqueued(before: seq<ScanResult>, after: seq<ScanResult>, h: int, queued: seq<ScanResult>, r: ScanResult)
    requires 0 <= h < SIZE && |queued| < SIZE && |before| == SIZE
    requires forall i | 0 <= i < |queued| :: queued[i] == before[Slot(h, i)]
    requires after == before[Slot(h, |queued|) := r]
    ensures forall i | 0 <= i < |queued| + 1 :: (queued + [r])[i] == after[Slot(h, i)]
  {
    forall i | 0 <= i < |queued| + 1
      ensures (queued + [r])[i] == after[Slot(h, i)]
    {
      if i < |queued| {
        SlotsDistinct(h, i, |queued|);
      }
    }
  }

  class WiFiState {
    var results: array<ScanResult>
    var head: int
    var tail: int
    var dropped: int
    var event: Event
    ghost var contents: seq<ScanResult>
    ghost var log: seq<Step>

    ghost predicate Valid()
      reads this, results
    {
      && results.Length == SIZE
      && 0 <= tail < SIZE
      && 0 <= dropped < 0x100
      && (head == QUEUE_EMPTY <==> contents == [])
      && (head != QUEUE_EMPTY ==> 0 <= head < SIZE && tail == Slot(head, |contents|))
      && |contents| <= SIZE
      && (forall i | 0 <= i < |contents| :: contents[i] == results[Slot(head, i)])
      // A drop happens only when the queue is full, and the next dequeue
      // resets the counter: a nonzero count is never lost with an empty queue.
      && (dropped != 0 ==> |contents| == SIZE)
    }

    /** The zero-initialised static state. Head and tail are both 0, which
        reads as a full queue of zero records; `mod_scan` resets the head
        before the driver callback that uses the queue is installed. Nothing
        in the module sets the event to UNSET, so it starts as a zeroed
        `MLuaEvent`, given here as `zero`. */
    constructor (zero: Event)
      ensures Valid() && fresh(results)
      ensures head == 0 && tail == 0 && dropped == 0 && event == zero && log == []
      ensures contents == [ZERO_RESULT, ZERO_RESULT, ZERO_RESULT, ZERO_RESULT]
    {
      results := new ScanResult[SIZE](_ => ZERO_RESULT);
      head, tail, dropped, event := 0, 0, 0, zero;
      contents := [ZERO_RESULT, ZERO_RESULT, ZERO_RESULT, ZERO_RESULT];
      log := [];
    }

    /** `handle_scan_result`, the driver callback. A full queue keeps its
        contents and counts the drop (wrapping at 256, as a `uint8_t`); an
        empty one is reset to slot 0 first; otherwise the result goes to slot
        `scan_tail`, the tail advances and the event is signalled. */
    method HandleScanResult(r: ScanResult)
      requires Valid()
      modifies this`head, this`tail, this`dropped, this`event, this`contents, results
      ensures Valid() && results == old(results) && log == old(log)
      ensures |old(contents)| == SIZE ==>
                && contents == old(contents) && dropped == (old(dropped) + 1) % 0x100
                && event == old(event) && head == old(head) && tail == old(tail)
                && results[..] == old(results[..])
      ensures |old(contents)| < SIZE ==>
                && contents == old(contents) + [r] && dropped == old(dropped)
                && event == Signal(old(event))
      ensures old(head) == QUEUE_EMPTY ==> head == 0 && tail == 1 && results[0] == r
      ensures |old(contents)| < SIZE && old(head) != QUEUE_EMPTY ==>
                head == old(head) && tail == (old(tail) + 1) % SIZE && results[old(tail)] == r
    {
      if tail != head {
        if head == QUEUE_EMPTY {
          head, tail := 0, 0;
        }
        ghost var before := results[..];
        results[tail] := r;
        Enqueued(before, results[..], head, contents, r);
        tail := (tail + 1) % SIZE;
        contents := contents + [r];
        event := Signal(event);
      } else {
        dropped := (dropped + 1) % 0x100;
      }
    }

    /** One locked region of `handle_scan_result_event`: dequeue the oldest
        result if there is one (marking the queue empty when the head catches
        up with the tail), and read and reset the drop counter in every case. */
    method DrainStep() returns (item: Option<ScanResult>, missed: int)
      requires Valid()
      modifies this
      ensures Valid() && results == old(results) && event == old(event) && tail == old(tail)
      ensures log == old(log) && results[..] == old(results[..])
      ensures dropped == 0 && missed == old(dropped)
      ensures old(contents) == [] ==> item == None && contents == [] && missed == 0
      ensures old(contents) != [] ==> item == Some(old(contents)[0]) && contents == old(contents)[1..]
      ensures old(contents) != [] ==> head == (if |old(contents)| == 1 then QUEUE_EMPTY else (old(head) + 1) % SIZE)
    {
      item := None;
      if head != QUEUE_EMPTY {
        item := Some(results[head]);
        assert contents[0] == results[head];
        head := (head + 1) % SIZE;
        forall i | 0 <= i < |contents| - 1
          ensures Slot(head, i) == Slot(old(head), i + 1)
        {
          SlotShift(old(head), i);
        }
        contents := contents[1..];
        if head == tail {
          head := QUEUE_EMPTY;
        }
      }
      missed := dropped;
      dropped := 0;
    }

    /** `handle_scan_result_event`, the handler thread's `for (;;)` loop: calls
        the handler once per queued result, in queue order, passing the drop
        count read with it; when the queue is empty it waits again while the
        scan is active and stops otherwise. Results enqueued by the driver
        while the loop runs are not modelled. */
    method HandleScanResultEvent(scanActive: bool) returns (calls: seq<Delivery>, outcome: DrainOutcome)
      requires Valid()
      modifies this
      ensures Valid() && results == old(results)
      ensures event == old(event) && log == old(log) && tail == old(tail) && results[..] == old(results[..])
      ensures contents == [] && dropped == 0 && head == QUEUE_EMPTY
      ensures |calls| == |old(contents)|
      ensures forall i | 0 <= i < |calls| :: calls[i].result == old(contents)[i]
      ensures forall i | 0 <= i < |calls| :: calls[i].missed == (if i == 0 then old(dropped) else 0)
      ensures outcome == (if scanActive then WaitUntil(POLL_US) else Stop)
    {
      calls := [];
      while true
        invariant Valid() && results == old(results)
        invariant event == old(event) && log == old(log) && tail == old(tail) && results[..] == old(results[..])
        invariant |calls| <= |old(contents)| && contents == old(contents)[|calls|..]
        invariant forall i | 0 <= i < |calls| :: calls[i].result == old(contents)[i]
        invariant forall i | 0 <= i < |calls| :: calls[i].missed == (if i == 0 then old(dropped) else 0)
        invariant dropped == (if |calls| == 0 then old(dropped) else 0)
        decreases |contents|
      {
        var item, missed := DrainStep();
        if item.None? {
          outcome := if scanActive then WaitUntil(POLL_US) else Stop;
          return;
        }
        calls := calls + [Delivery(item.value, missed)];
      }
    }

    /** `mod_scan`: fails if a scan handler already owns the event; otherwise
        empties the queue and clears the drop counter before starting the
        scan, and disables the event again if the driver refuses to start it
        (`startErr` is the driver's return code). */
    method Scan(startErr: int) returns (r: Result<ScanOutcome>)
      requires Valid()
      modifies this
      ensures Valid() && results == old(results) && tail == old(tail) && results[..] == old(results[..])
      ensures old(event).Claimed? ==>
                r == Err("WiFi: scan already in progress") && event == old(event) &&
                contents == old(contents) && head == old(head) && dropped == old(dropped) && log == old(log)
      ensures old(event).Unset? ==> contents == [] && head == QUEUE_EMPTY && dropped == 0 && log == old(log) + [ScanStarted]
      ensures old(event).Unset? && startErr != 0 ==>
                r == Ok(Failed("failed to start scan", startErr)) && event == Unset
      ensures old(event).Unset? && startErr == 0 ==> r == Ok(HandlerStarted) && event == Claimed(false)
    {
      var (ev, enabled) := Enable(event);
      if !enabled {
        return Err("WiFi: scan already in progress");
      }
      event := ev;
      head := QUEUE_EMPTY;
      dropped := 0;
      contents := [];
      log := log + [ScanStarted];
      if startErr != 0 {
        event := Unclaim(event);
        return Ok(Failed("failed to start scan", startErr));
      }
      r := Ok(HandlerStarted);
    }

    /** `scan_result_handler_done`: stops the scan, then disables the event. */
    method ScanResultHandlerDone()
      modifies this`event, this`log
      ensures event == Unset && log == old(log) + [ScanStopped]
    {
      log := log + [ScanStopped];
      event := Unclaim(event);
    }
  }
}
