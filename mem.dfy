/** `lib/common/mlua.mem.c`: bounds-checked access to byte buffers.

    A buffer is a Lua string or a `mlua.mem.Buffer` userdata, whose size is
    known; its contents are a `seq<uint8>`, or an `array<uint8>` where an operation
    writes to it. Offsets and lengths are `lua_Unsigned`, 32 bits wide, so a
    Lua integer argument is converted modulo 2^32. An absent or nil optional
    argument is `None`. */
module Mem {

  import opened Wrappers
  import opened Text
  import opened LuaValues

  /** A byte of a buffer. */
  newtype uint8 = x: int | 0 <= x < 0x100

  /** 2^32: `lua_Unsigned` and `size_t` are 32 bits wide. */
  const U32: nat := 0x1_0000_0000
  /** `(size_t)-1`, the size of a buffer whose extent is not known; every
      buffer modelled here has a known size, below this. */
  const SIZE_UNKNOWN: nat := 0xffff_ffff

  /** The conversion of a `lua_Integer` to `lua_Unsigned`. */
  function Unsigned(i: int): (r: nat)
    ensures r < U32
    ensures 0 <= i < U32 ==> r == i
  {
    i % U32
  }

  /** Reasons passed to `luaL_argerror`. */
  const NUMBER_EXPECTED: string := "number expected, got no value"
  const OUT_OF_BOUNDS: string := "out of bounds"

  /** `optlen`: the default is used only when the size is known and the
      argument is absent; otherwise the argument is required. */
  function OptLen(size: nat, arg: Option<int>, argNum: nat, def: nat): (r: Result<nat>)
    ensures r.Ok? <==> arg.Some? || size != SIZE_UNKNOWN
    ensures arg.Some? ==> r == Ok(Unsigned(arg.value))
    ensures arg.None? && size != SIZE_UNKNOWN ==> r == Ok(def)
  {
    if size != SIZE_UNKNOWN && arg.None? then Ok(def)
    else if arg.None? then Err(ArgError(argNum, NUMBER_EXPECTED))
    else Ok(Unsigned(arg.value))
  }

  /** `luaL_optinteger` followed by the conversion to `lua_Unsigned`. */
  function OptUnsigned(arg: Option<int>, def: nat): (r: nat)
    requires def < U32
    ensures r < U32
  {
    if arg.None? then def else Unsigned(arg.value)
  }

  /** `check_bounds` as written: the sum `off + len` is computed on
      `lua_Unsigned` and wraps modulo 2^32. */
  predicate CheckBoundsAsWritten(size: nat, off: nat, len: nat)
  {
    off <= size && (off + len) % U32 <= size
  }

  /** A length close to 2^32 wraps the sum and passes the check as written,
      although the window reaches far beyond the buffer. */
  lemma WrappedLengthPassesCheck()
    ensures CheckBoundsAsWritten(16, 1, U32 - 1)
    ensures !(1 + (U32 - 1) <= 16)
  {
  }

  /** `check_bounds` as intended: the window `[off, off + len)` lies within the
      buffer. The operations below use this check. */
  function CheckBounds(size: nat, off: nat, ioff: nat, len: nat, ilen: nat): (r: Result<()>)
    ensures r.Ok? <==> off + len <= size
    ensures off > size ==> r == Err(ArgError(ioff, OUT_OF_BOUNDS))
    ensures off <= size < off + len ==> r == Err(ArgError(ilen, OUT_OF_BOUNDS))
  {
    if off > size then Err(ArgError(ioff, OUT_OF_BOUNDS))
    else if off + len > size then Err(ArgError(ilen, OUT_OF_BOUNDS))
    else Ok(())
  }

  /** The corrected check agrees with the one as written exactly when the sum
      does not wrap, and is never more permissive. */
  lemma CheckBoundsCorrected(size: nat, off: nat, len: nat, ioff: nat, ilen: nat)
    requires size < U32 && off < U32 && len < U32
    ensures CheckBounds(size, off, ioff, len, ilen).Ok? ==> CheckBoundsAsWritten(size, off, len)
    ensures off + len < U32 ==> (CheckBounds(size, off, ioff, len, ilen).Ok? <==> CheckBoundsAsWritten(size, off, len))
  {
  }

  // -------------------------------------------------------------------------
  // Reading

  /** `mem.read(src, off, len)`: the bytes `[off, off + len)`; both arguments
      default to the whole rest of the buffer. */
  function Read(src: seq<uint8>, offArg: Option<int>, lenArg: Option<int>): (r: Result<seq<uint8>>)
    requires |src| < SIZE_UNKNOWN
    ensures var off := OptUnsigned(offArg, 0);
      r.Ok? <==> (if lenArg.Some? then off + Unsigned(lenArg.value) <= |src| else off <= |src|)
    ensures var off := OptUnsigned(offArg, 0);
      r.Ok? ==> && off + |r.value| <= |src| && r.value == src[off..off + |r.value|]
                && (lenArg.Some? ==> |r.value| == Unsigned(lenArg.value))
                && (lenArg.None? ==> off + |r.value| == |src|)
  {
    var off := OptUnsigned(offArg, 0);
    // The size is known, so `optlen` always yields a length here.
    var len := OptLen(|src|, lenArg, 3, Unsigned(|src| - off)).value;
    var _ :- CheckBounds(|src|, off, 2, len, 3);
    Ok(src[off..off + len])
  }

  /** A read succeeds exactly when its window fits, and returns that window. */
  lemma ReadWindow(src: seq<uint8>, off: nat, len: nat)
    requires |src| < SIZE_UNKNOWN && off < U32 && len < U32
    ensures Read(src, Some(off), Some(len)).Ok? <==> off + len <= |src|
    ensures off + len <= |src| ==> Read(src, Some(off), Some(len)) == Ok(src[off..off + len])
  {
  }

  /** With no offset and no length, a read returns the whole buffer. */
  lemma ReadWhole(src: seq<uint8>)
    requires |src| < SIZE_UNKNOWN
    ensures Read(src, None, None) == Ok(src)
  {
    assert OptUnsigned(None, 0) == 0;
    assert OptLen(|src|, None, 3, Unsigned(|src| - 0)) == Ok(|src|);
    assert src[0..0 + |src|] == src;
  }

  /** The first position in `[from, to)` holding the byte `b`. */
  function FindByte(src: seq<uint8>, from: nat, to: nat, b: uint8): (r: Option<nat>)
    requires from <= to <= |src|
    ensures r.Some? ==> from <= r.value < to && src[r.value] == b
    ensures r.Some? ==> (forall k | from <= k < r.value :: src[k] != b)
    ensures r.None? ==> (forall k | from <= k < to :: src[k] != b)
    decreases (to as int) - from
  {
    if from == to then None
    else if src[from] == b then Some(from)
    else FindByte(src, from + 1, to, b)
  }

  /** `mem.read_cstr(src, off, len)`: the window up to its first zero byte, or
      the whole window when it has none. */
  function ReadCstr(src: seq<uint8>, offArg: Option<int>, lenArg: Option<int>): (r: Result<seq<uint8>>)
    requires |src| < SIZE_UNKNOWN
    ensures var off := OptUnsigned(offArg, 0);
      var len := OptUnsigned(lenArg, Unsigned(|src| - off));
      r.Ok? <==> off + len <= |src|
    ensures r.Ok? ==> (forall k | 0 <= k < |r.value| :: r.value[k] != 0)
  {
    var off := OptUnsigned(offArg, 0);
    var len := OptUnsigned(lenArg, Unsigned(|src| - off));
    var _ :- CheckBounds(|src|, off, 2, len, 3);
    match FindByte(src, off, off + len, 0)
    case Some(end) => Ok(src[off..end])
    case None => Ok(src[off..off + len])
  }

  /** The string `read_cstr` returns is a prefix of the window, and it stops
      short of the window only at a zero byte. */
  lemma ReadCstrPrefix(src: seq<uint8>, off: nat, len: nat)
    requires |src| < SIZE_UNKNOWN && off < U32 && len < U32 && off + len <= |src|
    ensures var r := ReadCstr(src, Some(off), Some(len));
      r.Ok? && r.value <= src[off..off + len]
      && (|r.value| < len ==> src[off + |r.value|] == 0)
  {
  }

  /** `needle` occurs in `src` at `p`. */
  predicate MatchAt(src: seq<uint8>, p: nat, needle: seq<uint8>)
    requires p + |needle| <= |src|
  {
    src[p..p + |needle|] == needle
  }

  /** The first position `p` in `[from, to)` where `needle` starts and ends
      within the window. */
  function FindSeq(src: seq<uint8>, from: nat, to: nat, needle: seq<uint8>): (r: Option<nat>)
    requires from <= to <= |src|
    ensures r.Some? ==> from <= r.value && r.value + |needle| <= to && MatchAt(src, r.value, needle)
    ensures r.Some? ==> (forall p: nat | from <= p < r.value :: !MatchAt(src, p, needle))
    ensures r.None? ==> (forall p: nat | from <= p && p + |needle| <= to :: !MatchAt(src, p, needle))
    decreases (to as int) - from
  {
    if from + |needle| > to then None
    else if MatchAt(src, from, needle) then Some(from)
    else FindSeq(src, from + 1, to, needle)
  }

  /** `mem.find(src, needle, off, len)`: the offset of the first occurrence of
      `needle` within the window, or nothing. The needle must also fit in the
      buffer from `off`. */
  function Find(src: seq<uint8>, needle: seq<uint8>, offArg: Option<int>, lenArg: Option<int>): (r: Result<Option<nat>>)
    requires |src| < SIZE_UNKNOWN && |needle| < U32
    ensures var off := OptUnsigned(offArg, 0);
      var len := OptUnsigned(lenArg, Unsigned(|src| - off));
      && (r.Ok? <==> off + len <= |src| && off + |needle| <= |src|)
      && (off + len <= |src| && off + |needle| > |src| ==> r == Err(ArgError(2, OUT_OF_BOUNDS)))
      && (r.Ok? && r.value.Some? ==> off <= r.value.value && r.value.value + |needle| <= off + len)
  {
    var off := OptUnsigned(offArg, 0);
    var len := OptUnsigned(lenArg, Unsigned(|src| - off));
    var _ :- CheckBounds(|src|, off, 3, len, 4);
    if off + |needle| > |src| then Err(ArgError(2, OUT_OF_BOUNDS))
    else Ok(FindSeq(src, off, off + len, needle))
  }

  /** What `find` reports is an occurrence of the needle inside the window,
      the first one; when it reports nothing, the window holds none. */
  lemma FindIsFirstMatch(src: seq<uint8>, needle: seq<uint8>, off: nat, len: nat)
    requires |src| < SIZE_UNKNOWN && |needle| < U32 && off < U32 && len < U32
    requires off + len <= |src| && off + |needle| <= |src|
    ensures var r := Find(src, needle, Some(off), Some(len));
      r.Ok?
      && (r.value.Some? ==> (off <= r.value.value && r.value.value + |needle| <= off + len
                            && MatchAt(src, r.value.value, needle)
                            && (forall p: nat | off <= p < r.value.value :: !MatchAt(src, p, needle))))
      && (r.value.None? ==> (forall p: nat | off <= p && p + |needle| <= off + len :: !MatchAt(src, p, needle)))
  {
  }

  /** `mem.get(src, off, len)`: the byte values at `[off, off + len)` as
      integers, one result per byte; `len` defaults to 1. */
  method Get(src: seq<uint8>, offArg: int, lenArg: Option<int>) returns (r: Result<seq<Value>>)
    requires |src| < SIZE_UNKNOWN
    ensures r.Ok? <==> Read(src, Some(offArg), Some(OptUnsigned(lenArg, 1))).Ok?
    ensures r.Ok? ==> ByteValues(r.value, Read(src, Some(offArg), Some(OptUnsigned(lenArg, 1))).value)
  {
    var off := Unsigned(offArg);
    var len := OptUnsigned(lenArg, 1);
    var check := CheckBounds(|src|, off, 2, len, 3);
    if check.Err? {
      return Err(check.message);
    }
    var values: seq<Value> := [];
    var i := 0;
    while i < len
      invariant 0 <= i <= len
      invariant ByteValues(values, src[off..off + i])
    {
      values := values + [Integer(src[off + i] as int)];
      i := i + 1;
    }
    return Ok(values);
  }

  /** `values` are the Lua integers of `bytes`, in order. */
  predicate ByteValues(values: seq<Value>, bytes: seq<uint8>)
  {
    |values| == |bytes| && forall k | 0 <= k < |bytes| :: values[k] == Integer(bytes[k] as int)
  }

  // -------------------------------------------------------------------------
  // Writing

  /** `data` with the bytes from `off` replaced by `src`. */
  function Overwrite(data: seq<uint8>, off: nat, src: seq<uint8>): (r: seq<uint8>)
    requires off + |src| <= |data|
    ensures |r| == |data|
    ensures r[off..off + |src|] == src
    ensures forall k | 0 <= k < |data| && !(off <= k < off + |src|) :: r[k] == data[k]
  {
    data[..off] + src + data[off + |src|..]
  }

  /** A sequence that agrees with `src` on the window from `off` and with
      `data` elsewhere is `data` overwritten by `src`. */
  lemma OverwriteByParts(data: seq<uint8>, after: seq<uint8>, off: nat, src: seq<uint8>)
    requires off + |src| <= |data| == |after|
    requires forall k | off <= k < off + |src| :: after[k] == src[k - off]
    requires forall k | 0 <= k < |data| && !(off <= k < off + |src|) :: after[k] == data[k]
    ensures after == Overwrite(data, off, src)
  {
    var w := Overwrite(data, off, src);
    forall k | 0 <= k < |data| ensures after[k] == w[k] {
      if off <= k < off + |src| {
        assert w[k] == w[off..off + |src|][k - off];
      }
    }
  }

  /** Storing the low byte of the next value just past the window written
      so far extends the window by that byte. */
  lemma StoreStep(data: seq<uint8>, off: nat, values: seq<int>, i: nat, cur: seq<uint8>)
    requires i < |values| && off + |values| <= |data|
    requires cur == Overwrite(data, off, Bytes(values[..i]))
    ensures cur[off + i := Byte(values[i])] == Overwrite(data, off, Bytes(values[..i + 1]))
  {
    var src := Bytes(values[..i + 1]);
    assert src[..i] == Bytes(values[..i]);
    OverwriteByParts(data, cur[off + i := Byte(values[i])], off, src);
  }

  /** Reading back the window just written returns what was written. */
  lemma ReadAfterOverwrite(data: seq<uint8>, off: nat, src: seq<uint8>)
    requires |data| < SIZE_UNKNOWN && off + |src| <= |data|
    ensures Read(Overwrite(data, off, src), Some(off), Some(|src|)) == Ok(src)
  {
  }

  /** The byte stored for an integer by a `uint8_t` conversion or `memset`. */
  function Byte(v: int): (b: uint8)
    ensures b as int == v % 256
  {
    (v % 256) as uint8
  }

  /** `len` copies of the byte `b`. */
  function Repeat(b: uint8, len: nat): (r: seq<uint8>)
    ensures |r| == len && forall k | 0 <= k < len :: r[k] == b
  {
    seq(len, _ => b)
  }

  /** `mem.write(dest, src, off)`: copies `src` into `dest` from `off`; no
      other byte changes. */
  method Write(dest: array<uint8>, src: seq<uint8>, offArg: Option<int>) returns (r: Result<()>)
    requires dest.Length < SIZE_UNKNOWN && |src| < U32
    modifies dest
    ensures var off := OptUnsigned(offArg, 0);
      r == CheckBounds(dest.Length, off, 3, |src|, 2)
      && (r.Ok? ==> dest[..] == Overwrite(old(dest[..]), off, src))
      && (r.Err? ==> dest[..] == old(dest[..]))
  {
    var off := OptUnsigned(offArg, 0);
    r := CheckBounds(dest.Length, off, 3, |src|, 2);
    if r.Err? {
      return;
    }
    forall k | off <= k < off + |src| {
      dest[k] := src[k - off];
    }
    OverwriteByParts(old(dest[..]), dest[..], off, src);
  }

  /** `mem.fill(dest, value, off, len)`: sets the bytes `[off, off + len)` to
      the low byte of `value` (default 0); the offset defaults to 0 and the
      length to the rest of the buffer. */
  method Fill(dest: array<uint8>, valueArg: Option<int>, offArg: Option<int>, lenArg: Option<int>) returns (r: Result<()>)
    requires dest.Length < SIZE_UNKNOWN
    modifies dest
    ensures var off := OptLen(dest.Length, offArg, 3, 0).value;
      var len := OptUnsigned(lenArg, Unsigned(dest.Length - off));
      var b := Byte(if valueArg.None? then 0 else valueArg.value);
      r == CheckBounds(dest.Length, off, 3, len, 4)
      && (r.Ok? ==> dest[..] == Overwrite(old(dest[..]), off, Repeat(b, len)))
      && (r.Err? ==> dest[..] == old(dest[..]))
  {
    var off := OptLen(dest.Length, offArg, 3, 0).value;
    var len := OptUnsigned(lenArg, Unsigned(dest.Length - off));
    var b := Byte(if valueArg.None? then 0 else valueArg.value);
    r := CheckBounds(dest.Length, off, 3, len, 4);
    if r.Err? {
      return;
    }
    forall k | off <= k < off + len {
      dest[k] := b;
    }
    OverwriteByParts(old(dest[..]), dest[..], off, Repeat(b, len));
  }

  /** `mem.set(dest, off, ...)`: stores the low byte of each value at
      consecutive offsets from `off`. */
  method Set(dest: array<uint8>, offArg: int, values: seq<int>) returns (r: Result<()>)
    requires dest.Length < SIZE_UNKNOWN && |values| < U32
    modifies dest
    ensures var off := Unsigned(offArg);
      r == CheckBounds(dest.Length, off, 2, |values|, 3 + Unsigned(dest.Length - off))
      && (r.Ok? ==> dest[..] == Overwrite(old(dest[..]), off, Bytes(values)))
      && (r.Err? ==> dest[..] == old(dest[..]))
  {
    var off := Unsigned(offArg);
    r := CheckBounds(dest.Length, off, 2, |values|, 3 + Unsigned(dest.Length - off));
    if r.Ok? {
      Store(dest, off, values);
    }
  }

  /** The loop of `mem.set`: one `uint8_t` store per value, at consecutive
      offsets from `off`. */
  method Store(dest: array<uint8>, off: nat, values: seq<int>)
    requires off + |values| <= dest.Length
    modifies dest
    ensures dest[..] == Overwrite(old(dest[..]), off, Bytes(values))
  {
    ghost var before := dest[..];
    var i := 0;
    while i < |values|
      invariant 0 <= i <= |values|
      invariant dest[..] == Overwrite(before, off, Bytes(values[..i]))
    {
      StoreStep(before, off, values, i, dest[..]);
      dest[off + i] := Byte(values[i]);
      i := i + 1;
    }
    assert values[..i] == values;
  }

  /** The low bytes of `values`. */
  function Bytes(values: seq<int>): (r: seq<uint8>)
    ensures |r| == |values| && forall k | 0 <= k < |values| :: r[k] == Byte(values[k])
  {
    seq(|values|, k requires 0 <= k < |values| => Byte(values[k]))
  }

  /** Getting back what `set` stored yields each value modulo 256. */
  lemma ReadAfterSet(data: seq<uint8>, off: nat, values: seq<int>)
    requires |data| < SIZE_UNKNOWN && off + |values| <= |data|
    ensures Read(Overwrite(data, off, Bytes(values)), Some(off), Some(|values|)) == Ok(Bytes(values))
  {
    ReadAfterOverwrite(data, off, Bytes(values));
  }
}
