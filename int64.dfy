/** `lib/common/mlua.int64.c`: 64-bit two's complement integer semantics of
    the `Int64` type, used where `lua_Integer` is 32 bits wide. Values are
    mathematical integers in [INT64_MIN, INT64_MAX]; every C conversion to
    `uint64_t` and back is written out with `ToUnsigned` and `ToSigned`. */
module Int64 {

  import opened Wrappers
  import opened Bits

  const TWO_32: int := 0x1_0000_0000
  const TWO_63: int := 0x8000_0000_0000_0000
  const TWO_64: int := 0x1_0000_0000_0000_0000
  const INT64_MIN: int := -0x8000_0000_0000_0000
  const INT64_MAX: int := 0x7fff_ffff_ffff_ffff
  const ALL_ONES: nat := 0xffff_ffff_ffff_ffff

  predicate IsInt64(x: int) { INT64_MIN <= x <= INT64_MAX }

  /** A `lua_Integer` (32 bits). */
  predicate IsLuaInteger(x: int) { -0x8000_0000 <= x < 0x8000_0000 }

  /** The conversion `(uint64_t)x`. */
  function ToUnsigned(x: int): (r: nat)
    ensures r < TWO_64
    ensures IsInt64(x) ==> r == (if x < 0 then x + TWO_64 else x)
  {
    x % TWO_64
  }

  /** The conversion `(int64_t)u` of a `uint64_t`. */
  function ToSigned(u: nat): (r: int)
    requires u < TWO_64
    ensures IsInt64(r)
    ensures ToUnsigned(r) == u
  {
    if u < TWO_63 then u else u - TWO_64
  }

  /** The signed 64-bit value congruent to `x` modulo 2^64: what a wrapping
      operation yields for the mathematical result `x`. */
  function Wrap(x: int): (r: int)
    ensures IsInt64(r)
    ensures IsInt64(x) ==> r == x
  {
    ToSigned(x % TWO_64)
  }

  // -------------------------------------------------------------------------
  // Congruences

  lemma ModCongruent(x: int, m: int)
    requires m > 0
    ensures (x % m - x) % m == 0
  {
    LemmaModUnique(x % m - x, m, -(x / m), 0);
  }

  lemma CongruentTrans(x: int, y: int, z: int, m: int)
    requires m > 0 && (x - y) % m == 0 && (y - z) % m == 0
    ensures (x - z) % m == 0
  {
    var i, j := (x - y) / m, (y - z) / m;
    LemmaModUnique(x - z, m, i + j, 0);
  }

  lemma CongruentAdd(x: int, x2: int, y: int, y2: int, m: int)
    requires m > 0 && (x - x2) % m == 0 && (y - y2) % m == 0
    ensures ((x + y) - (x2 + y2)) % m == 0 && ((x - y) - (x2 - y2)) % m == 0
  {
    var i, j := (x - x2) / m, (y - y2) / m;
    LemmaModUnique((x + y) - (x2 + y2), m, i + j, 0);
    LemmaModUnique((x - y) - (x2 - y2), m, i - j, 0);
  }

  /** Products of congruent factors are congruent. */
  lemma CongruentMul(x: int, x2: int, y: int, y2: int, m: int)
    requires m > 0 && (x - x2) % m == 0 && (y - y2) % m == 0
    ensures (x * y - x2 * y2) % m == 0
  {
    var i, j := (x - x2) / m, (y - y2) / m;
    assert x - x2 == i * m && y - y2 == j * m;
    assert x * y - x2 * y2 == (x - x2) * y + x2 * (y - y2);
    assert x * y - x2 * y2 == (i * y + x2 * j) * m;
    LemmaModUnique(x * y - x2 * y2, m, i * y + x2 * j, 0);
  }

  lemma ModOfDifference(x: int, y: int, m: int)
    requires m > 0 && (x - y) % m == 0
    ensures x % m == y % m
  {
    var k := (x - y) / m;
    assert x - y == k * m;
    LemmaModUnique(x, m, y / m + k, y % m);
  }

  lemma UnsignedCongruent(x: int)
    ensures (ToUnsigned(x) - x) % TWO_64 == 0
  {
    ModCongruent(x, TWO_64);
  }

  lemma WrapIsCongruent(x: int)
    ensures (Wrap(x) - x) % TWO_64 == 0
  {
    var u := x % TWO_64;
    ModCongruent(x, TWO_64);
    assert Wrap(x) - u == 0 || Wrap(x) - u == -TWO_64;
    LemmaModUnique(Wrap(x) - u, TWO_64, if Wrap(x) == u then 0 else -1, 0);
    CongruentTrans(Wrap(x), u, x, TWO_64);
  }

  /** Two integers with the same residue wrap to the same value. */
  lemma WrapCongruent(x: int, y: int)
    requires (x - y) % TWO_64 == 0
    ensures Wrap(x) == Wrap(y)
  {
    ModOfDifference(x, y, TWO_64);
  }

  /** An operation computed on `uint64_t` and converted back yields the wrap of
      any integer congruent to its unsigned result. */
  lemma SignedOfCongruent(z: int, w: int)
    requires (z - w) % TWO_64 == 0
    ensures ToSigned(z % TWO_64) == Wrap(w)
  {
    WrapCongruent(z, w);
  }

  // -------------------------------------------------------------------------
  // Arithmetic (`ARITH_OP`, `__unm`): computed on `uint64_t`, wrapping.

  function Add(a: int, b: int): (r: int)
    ensures r == Wrap(a + b)
  {
    UnsignedCongruent(a);
    UnsignedCongruent(b);
    CongruentAdd(ToUnsigned(a), a, ToUnsigned(b), b, TWO_64);
    SignedOfCongruent(ToUnsigned(a) + ToUnsigned(b), a + b);
    ToSigned((ToUnsigned(a) + ToUnsigned(b)) % TWO_64)
  }

  function Sub(a: int, b: int): (r: int)
    ensures r == Wrap(a - b)
  {
    UnsignedCongruent(a);
    UnsignedCongruent(b);
    CongruentAdd(ToUnsigned(a), a, ToUnsigned(b), b, TWO_64);
    SignedOfCongruent(ToUnsigned(a) - ToUnsigned(b), a - b);
    ToSigned((ToUnsigned(a) - ToUnsigned(b)) % TWO_64)
  }

  function Mul(a: int, b: int): (r: int)
    ensures r == Wrap(a * b)
  {
    UnsignedCongruent(a);
    UnsignedCongruent(b);
    CongruentMul(ToUnsigned(a), a, ToUnsigned(b), b, TWO_64);
    SignedOfCongruent(ToUnsigned(a) * ToUnsigned(b), a * b);
    ToSigned((ToUnsigned(a) * ToUnsigned(b)) % TWO_64)
  }

  /** `__unm`, written as `0 - x` on `uint64_t`. */
  function Unm(a: int): (r: int)
    ensures r == Wrap(-a)
  {
    UnsignedCongruent(a);
    CongruentAdd(0, 0, ToUnsigned(a), a, TWO_64);
    SignedOfCongruent(0 - ToUnsigned(a), -a);
    ToSigned((0 - ToUnsigned(a)) % TWO_64)
  }

  /** Wrapping negation is its own inverse, and differs from mathematical
      negation only at INT64_MIN, which it leaves unchanged. */
  lemma UnmInvolution(a: int)
    requires IsInt64(a)
    ensures Unm(Unm(a)) == a
    ensures a != INT64_MIN ==> Unm(a) == -a
    ensures Unm(INT64_MIN) == INT64_MIN
  {
    WrapIsCongruent(-a);
    CongruentAdd(0, 0, Wrap(-a), -a, TWO_64);
    WrapCongruent(-Wrap(-a), a);
    WrapCongruent(TWO_63, INT64_MIN);
  }

  /** Subtraction undoes addition. */
  lemma SubInvertsAdd(a: int, b: int)
    requires IsInt64(a)
    ensures Sub(Add(a, b), b) == a
  {
    var s := Add(a, b);
    assert s == Wrap(a + b);
    WrapIsCongruent(a + b);
    CongruentAdd(s, a + b, b, b, TWO_64);
    WrapCongruent(s - b, a);
    assert Sub(s, b) == Wrap(s - b);
  }

  /** Subtraction is addition of the wrapping negation. */
  lemma SubIsAddNegation(a: int, b: int)
    ensures Sub(a, b) == Add(a, Unm(b))
  {
    var n := Unm(b);
    assert n == Wrap(-b);
    WrapIsCongruent(-b);
    CongruentAdd(a, a, n, -b, TWO_64);
    WrapCongruent(a + n, a - b);
    assert Add(a, n) == Wrap(a + n);
  }

  // -------------------------------------------------------------------------
  // Bitwise operations (`BIT_OP`, `__bnot`): on the 64 bits of `uint64_t`.

  /** `__band`, `__bor` and `__bxor`: the int64 whose 64-bit pattern is the
      bitwise combination of the operands' patterns. */
  function Band(a: int, b: int): (r: int)
    ensures IsInt64(r) && ToUnsigned(r) == And(ToUnsigned(a), ToUnsigned(b), 64)
  {
    Pow2Values();
    ToSigned(And(ToUnsigned(a), ToUnsigned(b), 64))
  }

  function Bor(a: int, b: int): (r: int)
    ensures IsInt64(r) && ToUnsigned(r) == Or(ToUnsigned(a), ToUnsigned(b), 64)
  {
    Pow2Values();
    ToSigned(Or(ToUnsigned(a), ToUnsigned(b), 64))
  }

  function Bxor(a: int, b: int): (r: int)
    ensures IsInt64(r) && ToUnsigned(r) == Xor(ToUnsigned(a), ToUnsigned(b), 64)
  {
    Pow2Values();
    ToSigned(Xor(ToUnsigned(a), ToUnsigned(b), 64))
  }

  /** `__bnot`, written as `~(uint64_t)0 ^ x`: every bit of the pattern is
      flipped. */
  function Bnot(a: int): (r: int)
    ensures IsInt64(r) && ToUnsigned(r) == ALL_ONES - ToUnsigned(a)
  {
    Pow2Values();
    XorAllOnes(ToUnsigned(a), 64);
    ToSigned(Xor(ALL_ONES, ToUnsigned(a), 64))
  }

  lemma Pow2Values()
    ensures Pow2(32) == TWO_32 && Pow2(63) == TWO_63 && Pow2(64) == TWO_64
  {
    assert Pow2(2) == 4;
    Pow2Add(2, 2);
    assert Pow2(4) == 0x10;
    Pow2Add(4, 4);
    assert Pow2(8) == 0x100;
    Pow2Add(8, 8);
    assert Pow2(16) == 0x1_0000;
    Pow2Add(16, 16);
    assert Pow2(32) == TWO_32;
    Pow2Add(32, 32);
    assert Pow2(64) == TWO_64;
    assert Pow2(64) == 2 * Pow2(63);
  }

  /** The one's complement of `x` is `-x - 1`, so complementing twice is the
      identity. */
  lemma BnotIsComplement(a: int)
    requires IsInt64(a)
    ensures Bnot(a) == -a - 1
    ensures Bnot(Bnot(a)) == a
  {
    Pow2Values();
    XorAllOnes(ToUnsigned(a), 64);
    XorAllOnes(ToUnsigned(-a - 1), 64);
  }

  /** Exclusive or with the same value twice is the identity. */
  lemma BxorInvolution(a: int, b: int)
    requires IsInt64(a)
    ensures Bxor(Bxor(a, b), b) == a
  {
    Pow2Values();
    XorInvolution(ToUnsigned(a), ToUnsigned(b), 64);
  }

  /** `(lhs ^ rhs) < 0` holds exactly when the operands' signs differ. */
  lemma BxorSign(a: int, b: int)
    requires IsInt64(a) && IsInt64(b)
    ensures Bxor(a, b) < 0 <==> ((a < 0) != (b < 0))
  {
    Pow2Values();
    XorTopBit(ToUnsigned(a), ToUnsigned(b), 64);
  }

  /** Or with zero is the identity. */
  lemma BorZero(b: int)
    requires IsInt64(b)
    ensures Bor(0, b) == b
  {
    Pow2Values();
    OrZero(ToUnsigned(b), 64);
  }

  /** Or of non-negative values whose bits do not overlap (`a` below bit `k`,
      `b` shifted above it) is their sum. */
  lemma BorDisjoint(a: nat, b: nat, k: nat)
    requires k < 64 && a < Pow2(k) && a + b * Pow2(k) < TWO_63
    ensures Bor(a, b * Pow2(k)) == a + b * Pow2(k)
  {
    var p := Pow2(k);
    MulMonotone(b, p);
    var s: nat := b * p;
    Pow2Values();
    assert IsInt64(a) && IsInt64(s);
    OrDisjoint(a, b, k, 64);
    var r := Bor(a, s);
    assert ToUnsigned(r) == a + s;
  }

  /** Masking with `2^k - 1` keeps the low `k` bits of the unsigned pattern. */
  lemma BandLowMask(a: int, k: nat)
    requires k < 64
    ensures Band(a, Pow2(k) - 1) == ToUnsigned(a) % Pow2(k)
  {
    Pow2Values();
    Pow2Monotonic(k, 63);
    var m := Pow2(k) - 1;
    assert ToUnsigned(m) == m;
    AndLowMask(ToUnsigned(a), k, 64);
    var r := ToUnsigned(a) % Pow2(k);
    assert r < TWO_63;
    assert ToSigned(r) == r;
  }

  // -------------------------------------------------------------------------
  // Comparison and conversion

  /** `int64_ult`: unsigned comparison of the two bit patterns. */
  function Ult(a: int, b: int): (r: bool)
    requires IsInt64(a) && IsInt64(b)
    ensures r <==> (if (a < 0) == (b < 0) then a < b else b < 0)
  {
    ToUnsigned(a) < ToUnsigned(b)
  }

  /** `(lua_Integer)x`: truncation to 32 bits. */
  function ToLuaInteger(x: int): (r: int)
    ensures IsLuaInteger(r)
    ensures IsLuaInteger(x) ==> r == x
  {
    (x + 0x8000_0000) % TWO_32 - 0x8000_0000
  }

  /** `int64_tointeger`: the value as a `lua_Integer` if it survives the
      round trip through that type, fail otherwise. */
  function ToInteger(x: int): (r: Option<int>)
    ensures r.Some? <==> IsLuaInteger(x)
    ensures r.Some? ==> r.value == x
  {
    var v := ToLuaInteger(x);
    if v == x then Some(v) else None
  }

  // -------------------------------------------------------------------------
  // Shifts

  /** `(uint64_t)x << n`: the unsigned pattern times `2^n`, modulo 2^64. */
  function LogicalLeft(x: int, n: nat): (r: int)
    requires n < 64
    ensures IsInt64(r) && ToUnsigned(r) == (ToUnsigned(x) * Pow2(n)) % TWO_64
  {
    ToSigned((ToUnsigned(x) * Pow2(n)) % TWO_64)
  }

  /** `(uint64_t)x >> n`: division of the unsigned pattern by `2^n`. */
  function LogicalRight(x: int, n: nat): (r: int)
    ensures IsInt64(r) && ToUnsigned(r) == ToUnsigned(x) / Pow2(n)
    ensures n > 0 ==> r == ToUnsigned(x) / Pow2(n)
  {
    var u := ToUnsigned(x);
    DivLe(u, Pow2(n));
    if n > 0 then
      Pow2Values();
      Pow2Monotonic(1, n);
      assert Pow2(1) == 2;
      ToSigned(u / Pow2(n))
    else
      ToSigned(u / Pow2(n))
  }

  /** `lhs >> n` on a signed value: GCC shifts arithmetically, which is floor
      division by `2^n`. */
  function ArithmeticRight(x: int, n: nat): (r: int)
    ensures r * Pow2(n) <= x < r * Pow2(n) + Pow2(n)
    ensures IsInt64(x) ==> IsInt64(r)
  {
    FloorDivBound(x, Pow2(n));
    x / Pow2(n)
  }

  /** Floor division by a positive divisor moves a value toward zero or, for
      a negative value, at most to -1. */
  lemma FloorDivBound(x: int, p: int)
    requires p >= 1
    ensures (x / p) * p <= x < (x / p) * p + p
    ensures x >= 0 ==> 0 <= x / p <= x
    ensures x < 0 ==> x <= x / p < 0
  {
    var q := x / p;
    DivBracket(x, p);
    if q >= 0 {
      MulMonotone(q, p);
    } else {
      MulNegative(q, p);
    }
    if x >= 0 {
      DivLe(x, p);
    }
  }

  lemma DivBracket(x: int, p: int)
    requires p >= 1
    ensures (x / p) * p <= x < (x / p) * p + p
  {
    assert x == (x / p) * p + x % p;
  }

  lemma MulNegative(c: int, p: int)
    requires c < 0 && p >= 1
    ensures c * p + p <= c + 1
  {
    assert (c + 1) * p <= c + 1;
  }

  /** `shift_left(lhs, rhs, arith)`: a left shift by `rhs`, or a right shift
      by `-rhs` (arithmetic when `arith`), with shifts of 64 bits or more
      saturating. Negating INT64_MIN is undefined in C and is excluded. */
  function ShiftLeft(lhs: int, rhs: int, arith: bool): (r: int)
    requires IsInt64(lhs) && IsInt64(rhs) && rhs != INT64_MIN
    ensures IsInt64(r)
  {
    if rhs >= 64 then 0
    else if rhs >= 0 then LogicalLeft(lhs, rhs)
    else
      var n := -rhs;
      if n >= 64 then (if arith && lhs < 0 then -1 else 0)
      else if arith then ArithmeticRight(lhs, n)
      else LogicalRight(lhs, n)
  }

  lemma DivLe(n: nat, d: nat)
    requires d >= 1
    ensures n / d <= n
    ensures d >= 2 ==> 2 * (n / d) <= n
  {
    var q := n / d;
    assert n == q * d + n % d;
    MulMonotone(q, d);
  }

  lemma MulMonotone(q: nat, d: nat)
    requires d >= 1
    ensures q * d >= q
    ensures d >= 2 ==> q * d >= 2 * q
  {
  }

  /** The special cases of `shift_left` agree with the uniform definitions, for
      every amount `k`: a left shift multiplies by `2^k` modulo 2^64 ... */
  lemma ShiftLeftIsMultiplication(x: int, k: int)
    requires IsInt64(x) && 0 <= k <= INT64_MAX
    ensures ShiftLeft(x, k, false) == Wrap(x * Pow2(k))
    ensures ShiftLeft(x, k, true) == Wrap(x * Pow2(k))
  {
    if k >= 64 {
      LeftShiftWide(x, k);
    } else {
      LeftShiftNarrow(x, k);
    }
  }

  lemma LeftShiftWide(x: int, k: nat)
    requires k >= 64
    ensures Wrap(x * Pow2(k)) == 0
  {
    var p := Pow2(k - 64);
    Pow2Values();
    Pow2Add(64, k - 64);
    assert Pow2(k) == TWO_64 * p;
    var c := x * p;
    MulCommutesOut(x, p, TWO_64);
    LemmaModUnique(x * Pow2(k), TWO_64, c, 0);
  }

  lemma MulCommutesOut(x: int, p: int, m: int)
    ensures x * (m * p) == (x * p) * m
  {
  }

  lemma LeftShiftNarrow(x: int, k: nat)
    requires k < 64
    ensures LogicalLeft(x, k) == Wrap(x * Pow2(k))
  {
    UnsignedCongruent(x);
    CongruentMul(ToUnsigned(x), x, Pow2(k), Pow2(k), TWO_64);
    SignedOfCongruent(ToUnsigned(x) * Pow2(k), x * Pow2(k));
  }

  /** ... a logical right shift divides the unsigned pattern by `2^k`, and an
      arithmetic right shift is floor division by `2^k`. */
  lemma ShiftRightIsDivision(x: int, k: int)
    requires IsInt64(x) && 0 <= k <= INT64_MAX
    ensures ShiftLeft(x, -k, false) == LogicalRight(x, k)
    ensures ShiftLeft(x, -k, true) == ArithmeticRight(x, k)
  {
    if k >= 64 {
      RightShiftWide(x, k);
    } else if k == 0 {
      ShiftByZero(x);
    }
  }

  lemma ShiftByZero(x: int)
    requires IsInt64(x)
    ensures ShiftLeft(x, 0, false) == x && ShiftLeft(x, 0, true) == x
    ensures LogicalRight(x, 0) == x && ArithmeticRight(x, 0) == x
  {
    assert Pow2(0) == 1;
    assert (ToUnsigned(x) * 1) % TWO_64 == ToUnsigned(x);
  }

  lemma RightShiftWide(x: int, k: nat)
    requires IsInt64(x) && k >= 64
    ensures ToUnsigned(x) / Pow2(k) == 0
    ensures x / Pow2(k) == (if x < 0 then -1 else 0)
  {
    Pow2Values();
    Pow2Monotonic(64, k);
    var p := Pow2(k);
    LemmaModUnique(ToUnsigned(x), p, 0, ToUnsigned(x));
    if x < 0 {
      LemmaModUnique(x, p, -1, x + p);
    } else {
      LemmaModUnique(x, p, 0, x);
    }
  }

  /** `__shl`: a left shift by `b`, or a logical right shift by `-b`. */
  function Shl(a: int, b: int): (r: int)
    requires IsInt64(a) && IsInt64(b) && b != INT64_MIN
    ensures b >= 0 ==> r == Wrap(a * Pow2(b))
    ensures b < 0 ==> r == LogicalRight(a, -b)
  {
    if b >= 0 then ShiftLeftIsMultiplication(a, b); ShiftLeft(a, b, false)
    else ShiftRightIsDivision(a, -b); ShiftLeft(a, b, false)
  }

  /** `__shr`: a logical right shift by `b`, or a left shift by `-b`. */
  function Shr(a: int, b: int): (r: int)
    requires IsInt64(a) && IsInt64(b) && b != INT64_MIN
    ensures b >= 0 ==> r == LogicalRight(a, b)
    ensures b < 0 ==> r == Wrap(a * Pow2(-b))
  {
    if b >= 0 then ShiftRightIsDivision(a, b); ShiftLeft(a, -b, false)
    else ShiftLeftIsMultiplication(a, -b); ShiftLeft(a, -b, false)
  }

  /** `ashr`: an arithmetic right shift by `b`, or a left shift by `-b`. */
  function Ashr(a: int, b: int): (r: int)
    requires IsInt64(a) && IsInt64(b) && b != INT64_MIN
    ensures b >= 0 ==> r == ArithmeticRight(a, b)
    ensures b < 0 ==> r == Wrap(a * Pow2(-b))
  {
    if b >= 0 then ShiftRightIsDivision(a, b); ShiftLeft(a, -b, true)
    else ShiftLeftIsMultiplication(a, -b); ShiftLeft(a, -b, true)
  }

  // -------------------------------------------------------------------------
  // Floor division and modulo (section 3.4.1 of the Lua 5.4 Reference Manual)

  function Abs(x: int): nat { if x < 0 then -x else x }

  /** C's `/` on integers: truncates toward zero. */
  function CDiv(a: int, b: int): (r: int)
    requires b != 0
    ensures Abs(r) * Abs(b) <= Abs(a) < Abs(r) * Abs(b) + Abs(b)
    ensures r != 0 ==> ((r < 0) <==> ((a < 0) != (b < 0)))
  {
    var q := Abs(a) / Abs(b);
    DivBracket(Abs(a), Abs(b));
    if (a < 0) == (b < 0) then q else -q
  }

  /** C's `%` on integers: the remainder of `CDiv`, with the sign of `a`. */
  function CRem(a: int, b: int): (r: int)
    requires b != 0
    ensures a == CDiv(a, b) * b + r
    ensures Abs(r) < Abs(b)
    ensures a >= 0 ==> r >= 0
    ensures a <= 0 ==> r <= 0
  {
    TruncatedDivision(a, b);
    a - CDiv(a, b) * b
  }

  lemma TruncatedDivision(a: int, b: int)
    requires b != 0
    ensures var r := a - CDiv(a, b) * b;
      Abs(r) < Abs(b) && (a >= 0 ==> r >= 0) && (a <= 0 ==> r <= 0)
  {
    var q := CDiv(a, b);
    var t := Abs(q) * Abs(b);
    assert Abs(q) * b == (if b < 0 then -t else t);
    assert q * b == (if a < 0 then -t else t) by {
      if q < 0 {
        assert q * b == -(Abs(q) * b);
      }
    }
  }

  /** `q` is the quotient of `a` by `b` rounded toward minus infinity: the
      remainder `a - q*b` lies between 0 and `b`, on `b`'s side. */
  predicate IsFloorQuotient(a: int, b: int, q: int)
  {
    var r := a - q * b;
    if b > 0 then 0 <= r < b else b < r <= 0
  }

  /** The divisor test `(uint64_t)rhs + 1 <= 1`. */
  predicate IsZeroOrMinusOne(b: int)
  {
    (ToUnsigned(b) + 1) % TWO_64 <= 1
  }

  lemma ZeroOrMinusOne(b: int)
    requires IsInt64(b)
    ensures IsZeroOrMinusOne(b) <==> b == 0 || b == -1
  {
    if b < 0 {
      LemmaModUnique(ToUnsigned(b) + 1, TWO_64, if b == -1 then 1 else 0, if b == -1 then 0 else b + TWO_64 + 1);
    } else {
      LemmaModUnique(ToUnsigned(b) + 1, TWO_64, 0, b + 1);
    }
  }

  /** The quotient from C's truncating division, moved down by one when the
      exact quotient is a negative non-integer. */
  function FixedQuotient(a: int, b: int): (r: int)
    requires b != 0
    ensures IsInt64(a) && IsInt64(b) && b != -1 ==> IsFloorQuotient(a, b, r) && IsInt64(r)
  {
    var q := CDiv(a, b);
    var r := if Bxor(a, b) < 0 && CRem(a, b) != 0 then q - 1 else q;
    assert IsInt64(a) && IsInt64(b) && b != -1 ==> IsFloorQuotient(a, b, r) && IsInt64(r) by {
      if IsInt64(a) && IsInt64(b) && b != -1 {
        BxorSign(a, b);
        TruncToFloor(a, b, q, CRem(a, b));
        DivisionBound(a, b);
      }
    }
    r
  }

  /** `int64___idiv`. */
  function Idiv(a: int, b: int): (r: Result<int>)
    requires IsInt64(a) && IsInt64(b)
    ensures b == 0 ==> r == Err("attempt to divide by zero")
    ensures b != 0 ==> r.Ok?
  {
    ZeroOrMinusOne(b);
    if IsZeroOrMinusOne(b) then
      if b == 0 then Err("attempt to divide by zero") else Ok(Unm(a))
    else
      Ok(FixedQuotient(a, b))
  }

  /** `int64___mod`. */
  function Mod(a: int, b: int): (r: Result<int>)
    requires IsInt64(a) && IsInt64(b)
    ensures b == 0 ==> r == Err("attempt to perform 'n%0'")
    ensures b != 0 ==> r.Ok?
  {
    ZeroOrMinusOne(b);
    if IsZeroOrMinusOne(b) then
      if b == 0 then Err("attempt to perform 'n%0'") else Ok(0)
    else
      var r := CRem(a, b);
      if r != 0 && Bxor(a, b) < 0 then Ok(r + b) else Ok(r)
  }

  /** Truncating division, corrected as the source corrects it, rounds toward
      minus infinity. */
  lemma TruncToFloor(a: int, b: int, q: int, r: int)
    requires b != 0 && a == q * b + r && Abs(r) < Abs(b)
    requires (a >= 0 ==> r >= 0) && (a <= 0 ==> r <= 0)
    ensures var adjust := (a < 0) != (b < 0) && r != 0;
      && IsFloorQuotient(a, b, if adjust then q - 1 else q)
      && a == (if adjust then q - 1 else q) * b + (if adjust then r + b else r)
  {
    assert (q - 1) * b == q * b - b;
  }

  /** Integer division rounds toward minus infinity, except that INT64_MIN
      divided by -1 wraps to INT64_MIN. */
  lemma IdivIsFloor(a: int, b: int)
    requires IsInt64(a) && IsInt64(b) && b != 0
    ensures !(a == INT64_MIN && b == -1) ==> IsFloorQuotient(a, b, Idiv(a, b).value)
    ensures a == INT64_MIN && b == -1 ==> Idiv(a, b) == Ok(INT64_MIN)
    ensures IsInt64(Idiv(a, b).value)
  {
    ZeroOrMinusOne(b);
    if b == -1 {
      UnmInvolution(a);
    } else {
      BxorSign(a, b);
      TruncToFloor(a, b, CDiv(a, b), CRem(a, b));
      DivisionBound(a, b);
    }
  }

  lemma DivisionBound(a: int, b: int)
    requires IsInt64(a) && IsInt64(b) && b != 0 && b != -1
    ensures IsInt64(CDiv(a, b))
    ensures CRem(a, b) != 0 ==> IsInt64(CDiv(a, b) - 1)
  {
    DivLe(Abs(a), Abs(b));
    if CRem(a, b) != 0 {
      assert Abs(b) != 1;
    }
  }

  /** The remainder of floor division: zero or of the divisor's sign, and
      smaller than the divisor in magnitude; dividend, quotient and remainder
      recombine exactly, or, for INT64_MIN divided by -1, in wrapping
      arithmetic. */
  lemma ModIsFloorRemainder(a: int, b: int)
    requires IsInt64(a) && IsInt64(b) && b != 0
    ensures var r := Mod(a, b).value; if b > 0 then 0 <= r < b else b < r <= 0
    ensures !(a == INT64_MIN && b == -1) ==> a == Idiv(a, b).value * b + Mod(a, b).value
    ensures Add(Mul(Idiv(a, b).value, b), Mod(a, b).value) == a
  {
    ZeroOrMinusOne(b);
    if b == -1 {
      ModByMinusOne(a);
    } else {
      BxorSign(a, b);
      TruncToFloor(a, b, CDiv(a, b), CRem(a, b));
      assert a == Idiv(a, b).value * b + Mod(a, b).value;
      RecombineWraps(a, b, Idiv(a, b).value, Mod(a, b).value);
    }
  }

  lemma ModByMinusOne(a: int)
    requires IsInt64(a)
    ensures Idiv(a, -1) == Ok(Unm(a)) && Mod(a, -1) == Ok(0)
    ensures Add(Mul(Unm(a), -1), 0) == a
  {
    ZeroOrMinusOne(-1);
    WrapIsCongruent(-a);
    CongruentMul(Wrap(-a), -a, -1, -1, TWO_64);
    WrapCongruent(Wrap(-a) * -1, a);
  }

  lemma RecombineWraps(a: int, b: int, q: int, r: int)
    requires IsInt64(a) && a == q * b + r
    ensures Add(Mul(q, b), r) == a
  {
    WrapIsCongruent(q * b);
    CongruentAdd(Wrap(q * b), q * b, r, r, TWO_64);
    WrapCongruent(Wrap(q * b) + r, a);
  }

  // -------------------------------------------------------------------------
  // Construction from `lua_Integer` parts (`int64___new`, integer branch)

  /** `maxargs`: as many `lua_Integer` parts as fit in an `int64_t`. */
  const MAX_PARTS: nat := 2
  const PART_BITS: nat := 32

  /** The value the parts stand for: little-endian 32-bit words, the last one
      signed. */
  function Assemble(parts: seq<int>): int
    requires |parts| >= 1
    decreases |parts|
  {
    if |parts| == 1 then parts[0]
    else parts[0] % TWO_32 + TWO_32 * Assemble(parts[1..])
  }

  /** Splitting a value into its low word (as a `lua_Integer`) and its high
      word, and assembling the parts, gives the value back. */
  lemma AssembleSplit(x: int)
    requires IsInt64(x)
    ensures IsLuaInteger(ToLuaInteger(x)) && IsLuaInteger(x / TWO_32)
    ensures Assemble([ToLuaInteger(x), x / TWO_32]) == x
  {
    var lo := ToLuaInteger(x);
    var k := (x + 0x8000_0000) / TWO_32;
    assert lo == x - k * TWO_32;
    LemmaModUnique(lo - x, TWO_32, -k, 0);
    ModOfDifference(lo, x, TWO_32);
    assert [lo, x / TWO_32][1..] == [x / TWO_32];
  }

  /** The integer branch of `int64___new`: at most `MAX_PARTS` arguments, each
      shifted into place and merged under a mask that protects the bits
      already set. */
  method NewFromParts(parts: seq<int>) returns (r: Result<int>)
    requires |parts| >= 1
    requires forall i | 0 <= i < |parts| :: IsLuaInteger(parts[i])
    ensures |parts| > MAX_PARTS ==> r == Err("too many arguments (max: 2)")
    ensures |parts| <= MAX_PARTS ==> r.Ok? && r.value == Assemble(parts) && IsInt64(r.value)
  {
    if |parts| > MAX_PARTS {
      return Err("too many arguments (max: 2)");
    }
    var value: nat := 0;
    var mask: nat := ALL_ONES;
    for index := 1 to |parts| + 1
      invariant Merged(parts, index, value, mask)
    {
      var part := ToUnsigned(Wrap(parts[index - 1] * Pow2((index - 1) * PART_BITS)));
      MergeStep(parts, index, value, mask, part);
      value := Or(And(value, Xor(ALL_ONES, mask, 64), 64), part, 64);
      mask := (mask * Pow2(PART_BITS)) % TWO_64;
    }
    MergedAll(parts, value, mask);
    r := Ok(ToSigned(value));
  }

  /** The loop state of `NewFromParts` once `index - 1` parts are merged. */
  predicate Merged(parts: seq<int>, index: int, value: nat, mask: nat)
    requires 1 <= |parts| <= MAX_PARTS
  {
    && (index == 1 ==> value == 0 && mask == ALL_ONES)
    && (index == 2 ==> value == ToUnsigned(parts[0]) && mask == TWO_64 - TWO_32)
    && (index == 3 ==> value == ToUnsigned(Assemble(parts)) && mask == 0)
  }

  lemma MergeStep(parts: seq<int>, index: int, value: nat, mask: nat, part: nat)
    requires 1 <= |parts| <= MAX_PARTS && 1 <= index <= |parts|
    requires forall i | 0 <= i < |parts| :: IsLuaInteger(parts[i])
    requires Merged(parts, index, value, mask)
    requires part == ToUnsigned(Wrap(parts[index - 1] * Pow2((index - 1) * PART_BITS)))
    ensures Merged(parts, index + 1, Or(And(value, Xor(ALL_ONES, mask, 64), 64), part, 64),
                   (mask * Pow2(PART_BITS)) % TWO_64)
  {
    MaskSteps();
    if index == 1 {
      MergeFirst(parts[0], part, Xor(ALL_ONES, mask, 64));
    } else {
      MergeSecond(parts, value, part, Xor(ALL_ONES, mask, 64));
    }
  }

  lemma MergedAll(parts: seq<int>, value: nat, mask: nat)
    requires 1 <= |parts| <= MAX_PARTS
    requires forall i | 0 <= i < |parts| :: IsLuaInteger(parts[i])
    requires Merged(parts, |parts| + 1, value, mask)
    ensures value < TWO_64 && ToSigned(value) == Assemble(parts) && IsInt64(Assemble(parts))
  {
    AssembleInRange(parts);
    ToUnsignedInRange(parts, value);
  }

  /** `mask << 32` on `uint64_t`, from the full mask and then from the high
      half. */
  lemma MaskSteps()
    ensures (ALL_ONES * Pow2(PART_BITS)) % TWO_64 == TWO_64 - TWO_32
    ensures ((TWO_64 - TWO_32) * Pow2(PART_BITS)) % TWO_64 == 0
  {
    Pow2Values();
    LemmaModUnique(ALL_ONES * TWO_32, TWO_64, TWO_32 - 1, TWO_64 - TWO_32);
    LemmaModUnique((TWO_64 - TWO_32) * TWO_32, TWO_64, TWO_32 - 1, 0);
  }

  lemma ToUnsignedInRange(parts: seq<int>, value: nat)
    requires 1 <= |parts| <= MAX_PARTS && IsInt64(Assemble(parts))
    requires |parts| == 1 ==> value == ToUnsigned(parts[0])
    requires |parts| == 2 ==> value == ToUnsigned(Assemble(parts))
    ensures value < TWO_64 && ToSigned(value) == Assemble(parts)
  {
    if |parts| == 1 {
      SignedOfUnsigned(parts[0]);
    } else {
      SignedOfUnsigned(Assemble(parts));
    }
  }

  lemma SignedOfUnsigned(x: int)
    requires IsInt64(x)
    ensures ToSigned(ToUnsigned(x)) == x
  {
  }

  lemma AssembleInRange(parts: seq<int>)
    requires 1 <= |parts| <= MAX_PARTS
    requires forall i | 0 <= i < |parts| :: IsLuaInteger(parts[i])
    ensures IsInt64(Assemble(parts))
  {
    if |parts| == 2 {
      assert parts[1..] == [parts[1]];
    }
  }

  lemma MergeFirst(p: int, part: nat, notMask: nat)
    requires IsLuaInteger(p)
    requires part == ToUnsigned(Wrap(p * Pow2(0)))
    requires notMask == Xor(ALL_ONES, ALL_ONES, 64)
    ensures Or(And(0, notMask, 64), part, 64) == ToUnsigned(p)
  {
    Pow2Values();
    And0Left(notMask);
    OrZero(part, 64);
  }

  lemma And0Left(b: nat)
    ensures And(0, b, 64) == 0
  {
    AndCommutes(0, b, 64);
    AndZero(b, 64);
  }

  lemma MergeSecond(parts: seq<int>, value: nat, part: nat, notMask: nat)
    requires |parts| == 2 && IsLuaInteger(parts[0]) && IsLuaInteger(parts[1])
    requires value == ToUnsigned(parts[0])
    requires part == ToUnsigned(Wrap(parts[1] * Pow2(PART_BITS)))
    requires notMask == Xor(ALL_ONES, TWO_64 - TWO_32, 64)
    ensures Or(And(value, notMask, 64), part, 64) == ToUnsigned(Assemble(parts))
  {
    var p0, p1 := parts[0], parts[1];
    var lo := p0 % TWO_32;
    var hi := if p1 < 0 then p1 + TWO_32 else p1;
    LowWord(p0, value, notMask);
    HighWord(p1, part);
    Pow2Values();
    WordsFit(lo, hi);
    OrDisjoint(lo, hi, 32, 64);
    assert Or(And(value, notMask, 64), part, 64) == lo + hi * TWO_32;
    assert parts[1..] == [p1];
    assert Assemble(parts) == lo + TWO_32 * p1;
    UnsignedOfWords(lo, p1, hi);
  }

  /** A low word and a high word below 2^32 fit together in 64 bits. */
  lemma WordsFit(lo: int, hi: int)
    requires 0 <= lo < TWO_32 && 0 <= hi < TWO_32
    ensures hi * TWO_32 < TWO_64 && lo + hi * TWO_32 < TWO_64
  {
    MulMonotoneStrict(hi, TWO_32 - 1, TWO_32);
  }

  lemma MulMonotoneStrict(a: int, b: int, c: int)
    requires 0 <= a <= b && c > 0
    ensures a * c <= b * c
  {
  }

  /** The unsigned pattern of `lo + 2^32 * p1` is the low word followed by the
      two's-complement high word. */
  lemma UnsignedOfWords(lo: int, p1: int, hi: int)
    requires 0 <= lo < TWO_32 && IsLuaInteger(p1)
    requires hi == if p1 < 0 then p1 + TWO_32 else p1
    requires lo + hi * TWO_32 < TWO_64
    ensures ToUnsigned(lo + TWO_32 * p1) == lo + hi * TWO_32
  {
    var q := if p1 < 0 then -1 else 0;
    assert lo + TWO_32 * p1 == q * TWO_64 + (lo + hi * TWO_32);
    LemmaModUnique(lo + TWO_32 * p1, TWO_64, q, lo + hi * TWO_32);
  }

  /** Masking the first part with the complement of the high-half mask keeps
      its low word. */
  lemma LowWord(p0: int, value: nat, notMask: nat)
    requires IsLuaInteger(p0) && value == ToUnsigned(p0)
    requires notMask == Xor(ALL_ONES, TWO_64 - TWO_32, 64)
    ensures And(value, notMask, 64) == p0 % TWO_32
  {
    Pow2Values();
    XorAllOnes(TWO_64 - TWO_32, 64);
    AndLowMask(value, 32, 64);
    if p0 < 0 {
      var r := (p0 + TWO_32) % TWO_32;
      var d := (p0 + TWO_32) / TWO_32;
      LemmaModUnique(value, TWO_32, TWO_32 - 1 + d, r);
      LemmaModUnique(p0, TWO_32, d - 1, r);
    }
  }

  /** The second part shifted left by 32 bits, as `uint64_t`, is its low word
      times 2^32. */
  lemma HighWord(p1: int, part: nat)
    requires IsLuaInteger(p1)
    requires part == ToUnsigned(Wrap(p1 * Pow2(PART_BITS)))
    ensures part == (if p1 < 0 then p1 + TWO_32 else p1) * TWO_32
  {
    Pow2Values();
    assert IsInt64(p1 * TWO_32);
  }
}
