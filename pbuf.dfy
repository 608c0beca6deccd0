/** `lib/pico/lwip.pbuf.c`: the Lua handle on an lwIP packet buffer. A
    packet buffer is a chain of segments; its bytes are the segments' bytes
    in order, and its length `tot_len` the sum of the segments' lengths. */
module Pbuf {

  import opened Wrappers
  import opened LuaValues
  import Mem
  import Lwip

  type uint8 = Mem.uint8

  /** The value `pbuf_memfind` returns when the needle does not occur. */
  const NOT_FOUND: nat := 0xffff

  // -------------------------------------------------------------------------
  // Chains of segments

  /** The lengths of the segments of a chain. */
  function Lens(chain: seq<array<uint8>>): (r: seq<nat>)
    ensures |r| == |chain| && forall i | 0 <= i < |chain| :: r[i] == chain[i].Length
  {
    seq(|chain|, i requires 0 <= i < |chain| => chain[i].Length)
  }

  /** The offset in the packet of the first byte of segment `i`. */
  function Start(lens: seq<nat>, i: nat): nat
    requires i <= |lens|
  {
    if i == 0 then 0 else Start(lens, i - 1) + lens[i - 1]
  }

  /** `tot_len`: the length of the whole chain. */
  function Total(lens: seq<nat>): nat
  {
    Start(lens, |lens|)
  }

  lemma {:induction false} StartMonotone(lens: seq<nat>, i: nat, j: nat)
    requires i <= j <= |lens|
    ensures Start(lens, i) <= Start(lens, j)
    decreases j
  {
    if i < j {
      StartMonotone(lens, i, j - 1);
    }
  }

  lemma StartNext(lens: seq<nat>, i: nat)
    requires i < |lens|
    ensures Start(lens, i + 1) == Start(lens, i) + lens[i]
  {
  }

  lemma {:induction false} StartAgree(a: seq<nat>, c: seq<nat>, i: nat)
    requires i <= |a| && i <= |c|
    requires forall k | 0 <= k < i :: a[k] == c[k]
    ensures Start(a, i) == Start(c, i)
    decreases i
  {
    if i > 0 {
      StartAgree(a, c, i - 1);
    }
  }

  /** The lengths of the segments of a packet given by its contents. */
  function LensOf(segs: seq<seq<uint8>>): (r: seq<nat>)
    ensures |r| == |segs| && forall i | 0 <= i < |segs| :: r[i] == |segs[i]|
  {
    seq(|segs|, i requires 0 <= i < |segs| => |segs[i]|)
  }

  /** The segments' contents. */
  function Segments(chain: seq<array<uint8>>): (r: seq<seq<uint8>>)
    reads set i | 0 <= i < |chain| :: chain[i]
    ensures |r| == |chain| && forall i | 0 <= i < |chain| :: r[i] == chain[i][..]
  {
    seq(|chain|, i reads set i | 0 <= i < |chain| :: chain[i] requires 0 <= i < |chain| => chain[i][..])
  }

  /** The bytes of a packet: its segments' bytes in order. */
  function Flatten(segs: seq<seq<uint8>>): seq<uint8>
  {
    if segs == [] then [] else Flatten(segs[..|segs| - 1]) + segs[|segs| - 1]
  }

  /** The packet is as long as the sum of its segments. */
  lemma {:induction false} FlattenLength(segs: seq<seq<uint8>>)
    ensures |Flatten(segs)| == Total(LensOf(segs))
  {
    if segs != [] {
      var n := |segs|;
      FlattenLength(segs[..n - 1]);
      StartAgree(LensOf(segs[..n - 1]), LensOf(segs), n - 1);
    }
  }

  /** The segments of a chain do not share storage. */
  predicate Distinct(chain: seq<array<uint8>>)
  {
    forall i, j | 0 <= i < j < |chain| :: chain[i] != chain[j]
  }

  // -------------------------------------------------------------------------
  // pbuf_skip

  /** `pbuf_skip(p, offset, &poff)` from segment `i`: the segment that holds
      the byte at `offset` and the offset within it; past the end, the index
      `|lens|` (the NULL segment). */
  function Skip(lens: seq<nat>, i: nat, offset: nat): (r: (nat, nat))
    requires i <= |lens|
    ensures i <= r.0 <= |lens| && r.1 <= offset
    ensures r.0 < |lens| ==> r.1 < lens[r.0]
    decreases |lens| - i
  {
    if i == |lens| || lens[i] > offset then (i, offset)
    else Skip(lens, i + 1, offset - lens[i])
  }

  /** `pbuf_skip` finds the segment holding the byte at the offset: every
      segment before it ends at or before the offset, and the offset lies
      within it, or past the end of the chain when it is the NULL one. */
  lemma {:induction false} SkipLocates(lens: seq<nat>, i: nat, offset: nat)
    requires i <= |lens|
    ensures var (j, poff) := Skip(lens, i, offset);
      i <= j <= |lens|
      && Start(lens, j) + poff == Start(lens, i) + offset
      && (j < |lens| ==> poff < lens[j])
    decreases |lens| - i
  {
    if i < |lens| && lens[i] <= offset {
      SkipLocates(lens, i + 1, offset - lens[i]);
    }
  }

  // -------------------------------------------------------------------------
  // Filling

  /** The bytes of a segment starting at `start` in the packet, after the
      packet's window `[off, off + len)` is set to `b`. */
  function FillRange(data: seq<uint8>, start: nat, off: nat, len: nat, b: uint8): (r: seq<uint8>)
  {
    seq(|data|, k requires 0 <= k < |data| => if off <= start + k < off + len then b else data[k])
  }

  /** Filling the two parts of a packet is filling the whole. */
  lemma FillRangeAppend(a: seq<uint8>, c: seq<uint8>, start: nat, off: nat, len: nat, b: uint8)
    ensures FillRange(a + c, start, off, len, b)
         == FillRange(a, start, off, len, b) + FillRange(c, start + |a|, off, len, b)
  {
    var l, r := FillRange(a + c, start, off, len, b), FillRange(a, start, off, len, b) + FillRange(c, start + |a|, off, len, b);
    assert forall k | |a| <= k < |l| :: (a + c)[k] == c[k - |a|];
    assert forall k | 0 <= k < |l| :: l[k] == r[k];
  }

  /** A segment that lies outside the window keeps its bytes. */
  lemma FillRangeOutside(data: seq<uint8>, start: nat, off: nat, len: nat, b: uint8)
    requires start + |data| <= off || off + len <= start
    ensures FillRange(data, start, off, len, b) == data
  {
  }

  /** Filling the segments of a packet, each at its own place, fills the
      packet's bytes. */
  lemma {:induction false} FillFlatten(segs: seq<seq<uint8>>, after: seq<seq<uint8>>, off: nat, len: nat, b: uint8)
    requires |after| == |segs|
    requires forall i | 0 <= i < |segs| :: after[i] == FillRange(segs[i], Start(LensOf(segs), i), off, len, b)
    ensures Flatten(after) == FillRange(Flatten(segs), 0, off, len, b)
  {
    if segs != [] {
      var n := |segs|;
      var lens := LensOf(segs);
      var p, q := segs[..n - 1], after[..n - 1];
      var lp := LensOf(p);
      FillPrefix(segs, after, off, len, b);
      FillFlatten(p, q, off, len, b);
      FlattenLength(p);
      StartAgree(lp, lens, n - 1);
      assert Flatten(segs) == Flatten(p) + segs[n - 1];
      assert Flatten(after) == Flatten(q) + after[n - 1];
      FillRangeAppend(Flatten(p), segs[n - 1], 0, off, len, b);
    }
  }

  /** The hypothesis of `FillFlatten` holds for all segments but the last. */
  lemma FillPrefix(segs: seq<seq<uint8>>, after: seq<seq<uint8>>, off: nat, len: nat, b: uint8)
    requires |after| == |segs| > 0
    requires forall i | 0 <= i < |segs| :: after[i] == FillRange(segs[i], Start(LensOf(segs), i), off, len, b)
    ensures var n := |segs|; var p, q := segs[..n - 1], after[..n - 1];
      forall i | 0 <= i < n - 1 :: q[i] == FillRange(p[i], Start(LensOf(p), i), off, len, b)
  {
    var n := |segs|;
    var p, q, lp := segs[..n - 1], after[..n - 1], LensOf(segs[..n - 1]);
    forall i | 0 <= i < n - 1
      ensures q[i] == FillRange(p[i], Start(lp, i), off, len, b)
    {
      StartAgree(lp, LensOf(segs), i);
      assert q[i] == after[i] && p[i] == segs[i];
    }
  }

  /** Filling the window of a packet's bytes is overwriting it with copies
      of the byte. */
  lemma FillRangeIsOverwrite(data: seq<uint8>, off: nat, len: nat, b: uint8)
    requires off + len <= |data|
    ensures FillRange(data, 0, off, len, b) == Mem.Overwrite(data, off, Mem.Repeat(b, len))
  {
    var l, r := FillRange(data, 0, off, len, b), Mem.Overwrite(data, off, Mem.Repeat(b, len));
    forall k | 0 <= k < |data| ensures l[k] == r[k] {
      if off <= k < off + len {
        assert r[k] == r[off..off + len][k - off];
      }
    }
  }

  /** A segment starting at `start`, of which `[lo, lo + size)` was set to
      `b`: `lo` is where the window begins in it, and `lo + size` where the
      window or the segment ends. */
  lemma FillSegment(before: seq<uint8>, after: seq<uint8>, start: nat, lo: nat, size: nat, off: nat, len: nat, b: uint8)
    requires |after| == |before| && start <= off + len
    requires lo == if off > start then off - start else 0
    requires lo + size == if off + len - start < |before| then off + len - start else |before|
    requires forall k | 0 <= k < |before| :: after[k] == if lo <= k < lo + size then b else before[k]
    ensures after == FillRange(before, start, off, len, b)
  {
  }

  /** `memset(a + lo, b, size)`. */
  method Memset(a: array<uint8>, lo: nat, size: nat, b: uint8)
    requires lo + size <= a.Length
    modifies a
    ensures forall k | 0 <= k < a.Length :: a[k] == if lo <= k < lo + size then b else old(a[k])
  {
    forall k | lo <= k < lo + size {
      a[k] := b;
    }
  }

  /** `PBUF_fill`: skips to the segment holding byte `off`, sets the rest of
      it, then whole segments, to `value` until `len` bytes are set. Each
      segment's bytes inside the window become the byte, the others keep
      theirs, and so the packet's bytes are overwritten in the window. */
  method Fill(chain: seq<array<uint8>>, off: nat, len: nat, value: int)
    requires Distinct(chain)
    requires off + len <= Total(Lens(chain))
    modifies set i | 0 <= i < |chain| :: chain[i]
    ensures forall i {:trigger chain[i][..]} | 0 <= i < |chain| ::
      chain[i][..] == FillRange(old(chain[i][..]), Start(Lens(chain), i), off, len, Mem.Byte(value))
    ensures var before := old(Flatten(Segments(chain)));
      off + len <= |before|
      && Flatten(Segments(chain)) == Mem.Overwrite(before, off, Mem.Repeat(Mem.Byte(value), len))
  {
    ghost var segs := Segments(chain);
    var lens := Lens(chain);
    assert LensOf(segs) == lens;
    var b := Mem.Byte(value);
    var i, rest := FillFirst(chain, lens, off, len, b, segs);
    FillLoop(chain, lens, i, rest, b, segs, off, len);
    FillPacket(segs, Segments(chain), lens, off, len, b);
  }

  /** The loop of `PBUF_fill`: from segment `i`, which starts inside the
      window when `rest` bytes are left to set, whole segments are set to
      `b` until none are left. */
  method FillLoop(chain: seq<array<uint8>>, lens: seq<nat>, i: nat, rest: nat, b: uint8,
                  ghost segs: seq<seq<uint8>>, ghost off: nat, ghost len: nat)
    requires Distinct(chain) && lens == Lens(chain) && |segs| == |chain|
    requires i <= |chain|
    requires rest > 0 ==> off <= Start(lens, i) && rest == off + len - Start(lens, i)
    requires rest == 0 ==> off + len <= Start(lens, i)
    requires forall j {:trigger chain[j][..]} | 0 <= j < i :: chain[j][..] == FillRange(segs[j], Start(lens, j), off, len, b)
    requires forall j {:trigger chain[j][..]} | i <= j < |chain| :: chain[j][..] == segs[j]
    modifies set i | 0 <= i < |chain| :: chain[i]
    ensures forall j {:trigger chain[j][..]} | 0 <= j < |chain| :: chain[j][..] == FillRange(segs[j], Start(lens, j), off, len, b)
  {
    var i, rest := i, rest;
    ghost var pos := Start(lens, i);
    while i < |chain| && rest > 0
      invariant i <= |chain|
      invariant pos == Start(lens, i)
      invariant rest > 0 ==> off <= pos && rest == off + len - pos
      invariant rest == 0 ==> off + len <= pos
      invariant forall j {:trigger chain[j][..]} | 0 <= j < i :: chain[j][..] == FillRange(segs[j], Start(lens, j), off, len, b)
      invariant forall j {:trigger chain[j][..]} | i <= j < |chain| :: chain[j][..] == segs[j]
      decreases |chain| - i
    {
      StartNext(lens, i);
      rest := FillWhole(chain, lens, i, rest, b, segs[i], off, len);
      pos := pos + lens[i];
      i := i + 1;
    }
    FillRest(lens, segs, i, off, len, b);
  }

  /** One step of the loop of `PBUF_fill`: segment `i`, which starts inside
      the window, is set to `b` up to the end of the window or of the
      segment. Returns the number of bytes left to set. */
  method FillWhole(chain: seq<array<uint8>>, lens: seq<nat>, i: nat, rest: nat, b: uint8,
                   ghost seg: seq<uint8>, ghost off: nat, ghost len: nat)
    returns (left: nat)
    requires Distinct(chain) && lens == Lens(chain) && i < |chain| && chain[i][..] == seg
    requires off <= Start(lens, i) && rest == off + len - Start(lens, i)
    modifies chain[i]
    ensures chain[i][..] == FillRange(seg, Start(lens, i), off, len, b)
    ensures forall j {:trigger chain[j][..]} | 0 <= j < |chain| && j != i :: chain[j][..] == old(chain[j][..])
    ensures left > 0 ==> left == rest - lens[i]
    ensures left == 0 ==> rest <= lens[i]
  {
    var size := rest;
    if size > chain[i].Length {
      size := chain[i].Length;
    }
    Memset(chain[i], 0, size, b);
    FillSegment(seg, chain[i][..], Start(lens, i), 0, size, off, len, b);
    left := rest - size;
  }

  /** The packet's bytes after each segment is filled at its place. */
  lemma FillPacket(segs: seq<seq<uint8>>, after: seq<seq<uint8>>, lens: seq<nat>, off: nat, len: nat, b: uint8)
    requires lens == LensOf(segs) && off + len <= Total(lens) && |after| == |segs|
    requires forall j | 0 <= j < |segs| :: after[j] == FillRange(segs[j], Start(lens, j), off, len, b)
    ensures off + len <= |Flatten(segs)|
    ensures Flatten(after) == Mem.Overwrite(Flatten(segs), off, Mem.Repeat(b, len))
  {
    FillFlatten(segs, after, off, len, b);
    FlattenLength(segs);
    FillRangeIsOverwrite(Flatten(segs), off, len, b);
  }

  /** Segments from `i` on, all past the end of the window, keep their
      bytes. */
  lemma FillRest(lens: seq<nat>, segs: seq<seq<uint8>>, i: nat, off: nat, len: nat, b: uint8)
    requires i <= |lens| == |segs|
    requires i == |lens| || off + len <= Start(lens, i)
    ensures forall j | i <= j < |segs| :: FillRange(segs[j], Start(lens, j), off, len, b) == segs[j]
  {
    forall j | i <= j < |segs|
      ensures FillRange(segs[j], Start(lens, j), off, len, b) == segs[j]
    {
      StartMonotone(lens, i, j);
      FillRangeOutside(segs[j], Start(lens, j), off, len, b);
    }
  }

  /** The start of `PBUF_fill`: `pbuf_skip` to the segment holding byte
      `off`; when the window begins inside it, the rest of that segment, up
      to the end of the window, is set to `b`. Returns the next segment to
      fill whole. */
  method FillFirst(chain: seq<array<uint8>>, lens: seq<nat>, off: nat, len: nat, b: uint8, ghost segs: seq<seq<uint8>>)
    returns (i: nat, rest: nat)
    requires Distinct(chain) && lens == Lens(chain) && segs == Segments(chain)
    requires off + len <= Total(lens)
    modifies set i | 0 <= i < |chain| :: chain[i]
    ensures i <= |chain|
    ensures rest > 0 ==> off <= Start(lens, i) && rest == off + len - Start(lens, i)
    ensures rest == 0 ==> off + len <= Start(lens, i)
    ensures forall j {:trigger chain[j][..]} | 0 <= j < i :: chain[j][..] == FillRange(segs[j], Start(lens, j), off, len, b)
    ensures forall j {:trigger chain[j][..]} | i <= j < |chain| :: chain[j][..] == segs[j]
  {
    var skipped := Skip(lens, 0, off);
    SkipLocates(lens, 0, off);
    i, rest := FillPartial(chain, lens, skipped.0, skipped.1, off, len, b, segs);
  }

  /** The partial fill of `FillFirst` once `pbuf_skip` has found segment
      `first` and the offset `poff` of byte `off` within it. */
  method FillPartial(chain: seq<array<uint8>>, lens: seq<nat>, first: nat, poff: nat, off: nat, len: nat, b: uint8,
                     ghost segs: seq<seq<uint8>>)
    returns (i: nat, rest: nat)
    requires Distinct(chain) && lens == Lens(chain) && segs == Segments(chain)
    requires off + len <= Total(lens)
    requires first <= |chain| && Start(lens, first) + poff == off
    requires first < |chain| ==> poff < lens[first]
    modifies set i | 0 <= i < |chain| :: chain[i]
    ensures i <= |chain|
    ensures rest > 0 ==> off <= Start(lens, i) && rest == off + len - Start(lens, i)
    ensures rest == 0 ==> off + len <= Start(lens, i)
    ensures forall j {:trigger chain[j][..]} | 0 <= j < i :: chain[j][..] == FillRange(segs[j], Start(lens, j), off, len, b)
    ensures forall j {:trigger chain[j][..]} | i <= j < |chain| :: chain[j][..] == segs[j]
  {
    i := first;
    FillBefore(lens, segs, i, off, len, b);
    rest := len;
    if i < |chain| && poff > 0 {
      var size := len;
      if poff + size > chain[i].Length {
        size := chain[i].Length - poff;
      }
      Memset(chain[i], poff, size, b);
      FillSegment(segs[i], chain[i][..], Start(lens, i), poff, size, off, len, b);
      StartNext(lens, i);
      rest := rest - size;
      i := i + 1;
    }
  }

  /** Segments before `i`, all ending at or before the window, keep their
      bytes. */
  lemma FillBefore(lens: seq<nat>, segs: seq<seq<uint8>>, i: nat, off: nat, len: nat, b: uint8)
    requires i <= |lens| == |segs| && Start(lens, i) <= off
    requires forall j {:trigger segs[j]} | 0 <= j < |segs| :: |segs[j]| == lens[j]
    ensures forall j | 0 <= j < i :: FillRange(segs[j], Start(lens, j), off, len, b) == segs[j]
  {
    forall j | 0 <= j < i
      ensures FillRange(segs[j], Start(lens, j), off, len, b) == segs[j]
    {
      StartNext(lens, j);
      StartMonotone(lens, j + 1, i);
      assert Start(lens, j) + |segs[j]| <= off;
      FillRangeOutside(segs[j], Start(lens, j), off, len, b);
    }
  }

  // -------------------------------------------------------------------------
  // Searching

  /** `pbuf_memfind(p, needle, needle_len, start)`: the first position from
      `start` where the needle occurs in the packet's bytes, or `NOT_FOUND`;
      it searches only when the needle fits after `start`. */
  function MemFind(content: seq<uint8>, needle: seq<uint8>, start: nat): (r: nat)
    ensures r != NOT_FOUND ==>
      && start <= r && r + |needle| <= |content| && Mem.MatchAt(content, r, needle)
      && (forall p: nat | start <= p < r :: !Mem.MatchAt(content, p, needle))
    ensures r == NOT_FOUND ==>
      forall p: nat | start <= p < NOT_FOUND && p + |needle| <= |content| :: !Mem.MatchAt(content, p, needle)
  {
    if start + |needle| > |content| then NOT_FOUND
    else match Mem.FindSeq(content, start, |content|, needle)
      case Some(pos) => pos
      case None => NOT_FOUND
  }

  /** `PBUF_find`: the position `pbuf_memfind` reports, provided the needle
      ends within the window `[off, off + len)`; nothing otherwise. */
  function Find(content: seq<uint8>, off: nat, len: nat, needle: seq<uint8>): (r: Option<nat>)
    ensures r.Some? ==>
      && off <= r.value && r.value + |needle| <= off + len && r.value + |needle| <= |content|
      && Mem.MatchAt(content, r.value, needle)
  {
    var pos := MemFind(content, needle, off);
    if pos == NOT_FOUND || pos + |needle| > off + len then None else Some(pos)
  }

  /** Searching a shorter window finds the occurrence found in the longer
      one when it ends within the shorter window, and nothing otherwise. */
  lemma {:induction false} FindSeqShorter(s: seq<uint8>, from: nat, to: nat, to2: nat, needle: seq<uint8>)
    requires from <= to <= to2 <= |s|
    ensures Mem.FindSeq(s, from, to, needle) ==
      match Mem.FindSeq(s, from, to2, needle)
      case Some(p) => if p + |needle| <= to then Some(p) else None
      case None => None
    decreases (to as int) - from
  {
    if from + |needle| <= to && !Mem.MatchAt(s, from, needle) {
      FindSeqShorter(s, from + 1, to, to2, needle);
    }
  }

  /** Searching a packet through `PBUF_find`, which searches to the end of
      the packet and then checks the window, finds what searching the window
      alone finds. The packet is at most 65535 bytes long (`tot_len` is a
      `u16_t`), and the window and the needle fit in it, as the caller
      checks. */
  lemma FindIsWindowSearch(content: seq<uint8>, off: nat, len: nat, needle: seq<uint8>)
    requires |content| <= NOT_FOUND
    requires off + len <= |content| && off + |needle| <= |content|
    requires off < NOT_FOUND || |needle| > 0
    ensures Find(content, off, len, needle) == Mem.FindSeq(content, off, off + len, needle)
  {
    FindSeqShorter(content, off, off + len, |content|, needle);
    var whole := Mem.FindSeq(content, off, |content|, needle);
    if whole.Some? && |needle| == 0 {
      assert Mem.MatchAt(content, off, needle);
    }
  }

  // -------------------------------------------------------------------------
  // The handle

  /** The `struct pbuf**` userdata: the packet it holds, or NULL when the
      packet was freed or could not be allocated. `frees` counts the calls
      to `pbuf_free` made through it. */
  class Handle {
    var packet: Option<seq<array<uint8>>>
    ghost var frees: nat

    /** A held packet has not been freed, its segments are distinct and its
        length fits `tot_len`; no packet is freed twice. */
    ghost predicate Valid()
      reads this
    {
      frees <= 1
      && (packet.Some? ==> frees == 0 && Distinct(packet.value) && Total(Lens(packet.value)) <= NOT_FOUND)
    }

    constructor (packet: Option<seq<array<uint8>>>)
      requires packet.Some? ==> Distinct(packet.value) && Total(Lens(packet.value)) <= NOT_FOUND
      ensures this.packet == packet && frees == 0 && Valid()
    {
      this.packet := packet;
      frees := 0;
    }

    /** The segments of the held packet. */
    ghost function Footprint(): set<object>
      reads this
    {
      if packet.Some? then set i | 0 <= i < |packet.value| :: packet.value[i] else {}
    }

    /** `PBUF___len`: nothing once freed, otherwise `tot_len`, the number of
        bytes of the packet. */
    function Len(): (r: Option<nat>)
      reads this, Footprint()
      ensures r.None? <==> packet.None?
      ensures r.Some? ==> r.value == |Flatten(Segments(packet.value))|
    {
      if packet.None? then None
      else
        var segs := Segments(packet.value);
        assert LensOf(segs) == Lens(packet.value);
        FlattenLength(segs);
        Some(Total(Lens(packet.value)))
    }

    /** `PBUF___buffer`: nothing once freed, otherwise the packet and its
        length, through which the `mem` functions reach its bytes. */
    function Buffer(): (r: Option<(seq<array<uint8>>, nat)>)
      reads this, Footprint()
      ensures r.None? <==> packet.None?
      ensures r.Some? ==> r.value.0 == packet.value && Len() == Some(r.value.1)
    {
      if packet.None? then None else Some((packet.value, Total(Lens(packet.value))))
    }

    /** `PBUF_free`, also the `__close` and `__gc` metamethods: frees a held
        packet and forgets it; with no packet, does nothing. A packet is
        thus freed once, however often the handle is closed. */
    method Free()
      requires Valid()
      modifies this
      ensures Valid() && packet.None?
      ensures frees == old(frees) + (if old(packet).Some? then 1 else 0)
      ensures Len().None? && Buffer().None?
    {
      if packet.Some? {
        frees := frees + 1;
        packet := None;
      }
    }
  }

  /** `pbuf.alloc(layer, size, type)`: a new handle on the packet of the
      size truncated to 16 bits; `alloc` stands for what `pbuf_alloc`
      returns and `id` for the new userdata. When allocation fails, the
      handle holds nothing and the results are fail and `ERR_MEM`. */
  method Alloc(sizeArg: int, alloc: Option<seq<array<uint8>>>, id: nat) returns (h: Handle, results: seq<Value>)
    requires alloc.Some? ==> Distinct(alloc.value) && Total(Lens(alloc.value)) == sizeArg % 0x10000
    ensures fresh(h) && h.Valid() && h.packet == alloc && h.frees == 0
    ensures alloc.Some? ==> results == [Opaque(id)] && h.Len() == Some(sizeArg % 0x10000)
    ensures alloc.None? ==> results == Lwip.PushErr(Lwip.ERR_MEM)
  {
    h := new Handle(alloc);
    if h.packet.None? {
      return h, Lwip.PushErr(Lwip.ERR_MEM);
    }
    results := [Opaque(id)];
  }
}
