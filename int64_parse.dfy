/** `mlua_string_to_int64` (lib/common/mlua.int64.c): parsing of an integer
    literal into a 64-bit value, with optional base detection.

    A `const char *` is modelled as the suffix of the string it addresses:
    `*s` is `Head`, `s++` is `Tail`. Reading at the end yields the terminating
    NUL, and an embedded NUL ends the string as it does in C. */
module Int64Parse {

  import opened Wrappers
  import opened Text
  import opened Int64

  const NUL: char := 0 as char

  function Head(s: string): char
  {
    if |s| > 0 then s[0] else NUL
  }

  function Tail(s: string): (r: string)
    ensures |s| > 0 ==> r == s[1..]
    ensures |s| == 0 ==> r == []
  {
    if |s| > 0 then s[1..] else []
  }

  /** `isspace` in the C locale. */
  predicate IsSpace(c: char)
  {
    c == ' ' || c == '\t' || c == '\n' || c == '\r' || c == 0x0b as char || c == 0x0c as char
  }

  predicate IsDigit(c: char) { '0' <= c <= '9' }

  /** `isalnum` in the C locale. */
  predicate IsAlnum(c: char)
  {
    IsDigit(c) || 'A' <= c <= 'Z' || 'a' <= c <= 'z'
  }

  /** The digit value of an alphanumeric character: `c - '0'` for a decimal
      digit, `toupper(c) - 'A' + 10` for a letter. */
  function DigitValue(c: char): (d: nat)
    requires IsAlnum(c)
    ensures d < 36
    ensures IsDigit(c) <==> d < 10
  {
    if IsDigit(c) then (c as int) - ('0' as int)
    else if 'a' <= c <= 'z' then (c as int) - ('a' as int) + 10
    else (c as int) - ('A' as int) + 10
  }

  /** The input after its leading white space. */
  function SkipSpace(s: string): (r: string)
    ensures |r| <= |s|
    ensures !IsSpace(Head(r))
  {
    if |s| > 0 && IsSpace(s[0]) then SkipSpace(s[1..]) else s
  }

  /** The longest prefix of `s` made of alphanumeric characters. */
  function AlnumRun(s: string): (r: string)
    ensures |r| <= |s| && r == s[..|r|]
    ensures forall i | 0 <= i < |r| :: IsAlnum(r[i])
    ensures !IsAlnum(Head(s[|r|..]))
  {
    if |s| > 0 && IsAlnum(s[0]) then [s[0]] + AlnumRun(s[1..]) else []
  }

  /** What follows the alphanumeric run of `s`. */
  function AfterRun(s: string): (r: string)
    ensures r == s[|AlnumRun(s)|..]
  {
    if |s| > 0 && IsAlnum(s[0]) then AfterRun(s[1..]) else s
  }

  predicate DigitsBelow(ds: string, base: int)
  {
    forall i | 0 <= i < |ds| :: IsAlnum(ds[i]) && DigitValue(ds[i]) < base
  }

  /** The accumulator after one more digit: `v * base + digit`. */
  function Push(acc: nat, b: nat, d: nat): nat
  {
    acc * b + d
  }

  /** The value of a digit string in base `base`, most significant digit
      first. */
  function DigitsValue(ds: string, base: nat): nat
    requires DigitsBelow(ds, base)
  {
    if ds == [] then 0
    else Push(DigitsValue(ds[..|ds| - 1], base), base, DigitValue(ds[|ds| - 1]))
  }

  /** With base 0, a "0x"/"0X", "0o" or "0b" prefix selects base 16, 8 or 2
      and is skipped, and anything else selects base 10. A nonzero base is
      used as given, and no prefix is recognised. */
  function DetectBase(s: string, base: int): (r: (nat, string))
    requires base == 0 || 2 <= base <= 36
    ensures 2 <= r.0 <= 36
  {
    if base != 0 then (base, s)
    else if Head(s) == '0' && Head(Tail(s)) in {'x', 'X', 'o', 'b'} then
      var p := Head(Tail(s));
      (if p == 'o' then 8 else if p == 'b' then 2 else 16, Tail(Tail(s)))
    else (10, s)
  }

  /** The mathematical value of the digits that start `s`: a nonempty
      alphanumeric run whose every digit is below the base, followed by
      nothing but white space. */
  function Literal(s: string, base: nat): Option<nat>
  {
    var run := AlnumRun(s);
    if run == [] || !DigitsBelow(run, base) || Head(SkipSpace(AfterRun(s))) != NUL then None
    else Some(DigitsValue(run, base))
  }

  /** The input after its leading white space and sign, and whether the sign
      was '-'. */
  function StripSign(s: string): (r: (bool, string))
  {
    var t := SkipSpace(s);
    if Head(t) == '-' || Head(t) == '+' then (Head(t) == '-', Tail(t)) else (false, t)
  }

  /** The literal's value negated when `neg`, wrapped to 64 bits. */
  function Signed(neg: bool, lit: Option<nat>): Option<int>
  {
    match lit
    case None => None
    case Some(n) => Some(Wrap(if neg then -(n as int) else n))
  }

  /** What `mlua_string_to_int64` yields: leading white space, an optional
      sign, the digits (after an optional base prefix), trailing white space,
      then the end of the string. The result is the signed value of the
      literal wrapped to 64 bits, since the accumulation is not checked for
      overflow. */
  function StringToInt64(s: string, base: int): (r: Option<int>)
    requires base == 0 || 2 <= base <= 36
    ensures r.Some? ==> IsInt64(r.value)
    ensures r.Some? ==> Head(SkipSpace(AfterRun(DetectBase(StripSign(s).1, base).1))) == NUL
  {
    var (neg, u) := StripSign(s);
    var (b, ds) := DetectBase(u, base);
    Signed(neg, Literal(ds, b))
  }

  /** The parser as the C code runs it: a cursor walks the string while the
      value accumulates in a `uint64_t`, which '-' negates at the end. */
  method ParseInt64(s: string, base: int) returns (r: Option<int>)
    requires base == 0 || 2 <= base <= 36
    ensures r == StringToInt64(s, base)
  {
    var neg, b, c, p, ds := ReadPrefix(s, base);
    var lit := ReadDigits(c, p, b, ds);
    ScanIsLiteral(ds, b);
    ghost var spec := Literal(ds, b);
    assert StringToInt64(s, base) == Signed(neg, spec);
    match lit
    case None =>
      r := None;
    case Some(v) =>
      ResidueSigned(neg, spec, v);
      r := Some(ToSigned(if neg then ToUnsigned(0 - v) else v));
  }

  /** Negating the residue modulo 2^64 and converting to signed gives the
      wrap of the signed literal. */
  lemma ResidueSigned(neg: bool, lit: Option<nat>, v: nat)
    requires Residue(lit) == Some(v)
    ensures Signed(neg, lit) == Some(ToSigned(if neg then ToUnsigned(0 - v) else v))
  {
    WrapOfResidue(lit.value, neg);
  }

  /** The residue modulo 2^64 of a literal's value. */
  function Residue(lit: Option<nat>): Option<nat>
  {
    match lit
    case None => None
    case Some(n) => Some(n % TWO_64)
  }

  /** The first half of `mlua_string_to_int64`: skips white space, reads the
      sign and detects the base. On return `c` is the first digit character
      and `p` points after it. */
  method ReadPrefix(s: string, base: int) returns (neg: bool, b: nat, c: char, p: string, ghost ds: string)
    requires base == 0 || 2 <= base <= 36
    ensures (neg, ds) == (StripSign(s).0, DetectBase(StripSign(s).1, base).1)
    ensures b == DetectBase(StripSign(s).1, base).0
    ensures c == Head(ds) && p == Tail(ds)
  {
    p := s;
    while IsSpace(Head(p))
      invariant SkipSpace(p) == SkipSpace(s)
      decreases |p|
    {
      p := Tail(p);
    }
    NoSpace(p);
    ds := p;
    c := Head(p);
    p := Tail(p);
    neg := c == '-';
    if neg || c == '+' {
      ds := p;
      c := Head(p);
      p := Tail(p);
    }
    b := base;
    if b == 0 {
      if c == '0' {
        var next := Head(p);
        if next == 'x' || next == 'X' {
          b := 16;
        } else if next == 'o' {
          b := 8;
        } else if next == 'b' {
          b := 2;
        }
        if b != 0 {
          p := Tail(p);
          ds := p;
          c := Head(p);
          p := Tail(p);
        }
      }
      if b == 0 {
        b := 10;
      }
    }
  }

  /** The digit loop of `mlua_string_to_int64` read as a recursion: `acc` is
      the value of the digits consumed so far, and the scan stops at the
      first digit not below the base, or at the first non-alphanumeric
      character, after which only white space may follow. */
  function Scan(s: string, b: nat, acc: nat): (r: Option<nat>)
    ensures r.Some? ==> Head(SkipSpace(AfterRun(s))) == NUL
    ensures r.Some? && IsAlnum(Head(s)) ==> DigitValue(Head(s)) < b
    decreases |s|
  {
    if !IsAlnum(Head(s)) then
      if Head(SkipSpace(s)) == NUL then Some(acc) else None
    else if DigitValue(Head(s)) >= b then None
    else Scan(Tail(s), b, Push(acc, b, DigitValue(Head(s))))
  }

  /** Scanning after a digit prefix `pre` yields the value of `pre` followed
      by the alphanumeric run of `s`, or fails exactly as `Literal` does. */
  lemma {:induction false} ScanFrom(s: string, b: nat, pre: string)
    requires DigitsBelow(pre, b)
    ensures var run := AlnumRun(s);
      Scan(s, b, DigitsValue(pre, b)) ==
        if !DigitsBelow(run, b) || Head(SkipSpace(AfterRun(s))) != NUL then None
        else Some(DigitsValue(pre + run, b))
    decreases |s|
  {
    var run := AlnumRun(s);
    if !IsAlnum(Head(s)) {
      assert run == [] && pre + run == pre;
    } else if DigitValue(s[0]) >= b {
      assert run[0] == s[0];
    } else {
      var pre' := pre + [s[0]];
      DigitsBelowSnoc(pre, s[0], b);
      ScanFrom(s[1..], b, pre');
      var run' := AlnumRun(s[1..]);
      assert run == [s[0]] + run';
      assert pre + ([s[0]] + run') == pre' + run';
      DigitsBelowCons(s[0], run', b);
    }
  }

  /** Appending a digit below the base keeps a digit string valid, and
      pushes that digit onto its value. */
  lemma DigitsBelowSnoc(ds: string, c: char, b: nat)
    requires DigitsBelow(ds, b) && IsAlnum(c) && DigitValue(c) < b
    ensures DigitsBelow(ds + [c], b)
    ensures DigitsValue(ds + [c], b) == Push(DigitsValue(ds, b), b, DigitValue(c))
  {
    assert (ds + [c])[..|ds|] == ds;
    var dsc := ds + [c];
    forall i | 0 <= i < |dsc| ensures IsAlnum(dsc[i]) && DigitValue(dsc[i]) < b {
      if i < |ds| {
        assert dsc[i] == ds[i];
      }
    }
  }

  lemma DigitsBelowCons(c: char, ds: string, b: int)
    requires IsAlnum(c) && DigitValue(c) < b
    ensures DigitsBelow([c] + ds, b) <==> DigitsBelow(ds, b)
  {
    var cds := [c] + ds;
    if DigitsBelow(cds, b) {
      forall i | 0 <= i < |ds| ensures IsAlnum(ds[i]) && DigitValue(ds[i]) < b {
        assert ds[i] == cds[i + 1];
      }
    }
    if DigitsBelow(ds, b) {
      forall i | 0 <= i < |cds| ensures IsAlnum(cds[i]) && DigitValue(cds[i]) < b {
        if i > 0 {
          assert cds[i] == ds[i - 1];
        }
      }
    }
  }

  /** A literal is what the scan from zero yields, once its first character
      is known to be alphanumeric. */
  lemma ScanIsLiteral(ds: string, b: nat)
    ensures Literal(ds, b) == if IsAlnum(Head(ds)) then Scan(ds, b, 0) else None
  {
    if IsAlnum(Head(ds)) {
      ScanFrom(ds, b, []);
      assert [] + AlnumRun(ds) == AlnumRun(ds);
    } else {
      assert AlnumRun(ds) == [];
    }
  }

  /** The second half of `mlua_string_to_int64`: accumulates the digits of
      `ds`, whose first character is `c` and whose rest is `p`, then skips
      trailing white space and requires the end of the string. */
  method ReadDigits(c: char, p: string, b: nat, ghost ds: string) returns (lit: Option<nat>)
    requires 2 <= b <= 36 && c == Head(ds) && p == Tail(ds)
    ensures lit == Residue(if IsAlnum(c) then Scan(ds, b, 0) else None)
  {
    if !IsAlnum(c) {
      return None;
    }
    ghost var cur := ds;
    var ch, rest := c, p;
    var v: nat := 0;
    ghost var value: nat := 0;
    while true
      invariant ch == Head(cur) && rest == Tail(cur) && IsAlnum(ch)
      invariant Scan(cur, b, value) == Scan(ds, b, 0)
      invariant v == value % TWO_64
      decreases |cur|
    {
      var digit := DigitValue(ch);
      if digit >= b {
        return None;
      }
      AccumulateStep(value, b, digit, v);
      ScanStep(cur, b, value);
      v := (v * b + digit) % TWO_64;
      value := Push(value, b, digit);
      cur := rest;
      ch := Head(rest);
      rest := Tail(rest);
      if !IsAlnum(ch) {
        break;
      }
    }
    ch := SkipTrailingSpace(ch, rest, cur);
    if ch != NUL {
      return None;
    }
    lit := Some(v);
  }

  /** One turn of the digit loop: a digit below the base is consumed and
      pushed onto the accumulator. */
  lemma ScanStep(s: string, b: nat, acc: nat)
    requires IsAlnum(Head(s)) && DigitValue(Head(s)) < b
    ensures Scan(s, b, acc) == Scan(Tail(s), b, Push(acc, b, DigitValue(Head(s))))
  {
  }

  /** The loop `while (isspace(c)) c = *s++;`: returns the first character of
      `cur` after its white space, where `ch` and `rest` are the head and tail
      of `cur`. */
  method SkipTrailingSpace(ch: char, rest: string, ghost cur: string) returns (last: char)
    requires ch == Head(cur) && rest == Tail(cur)
    ensures last == Head(SkipSpace(cur))
  {
    last := ch;
    var p := rest;
    ghost var q := cur;
    while IsSpace(last)
      invariant last == Head(q) && p == Tail(q)
      invariant SkipSpace(q) == SkipSpace(cur)
      decreases |q|
    {
      q := p;
      last := Head(p);
      p := Tail(p);
    }
    NoSpace(q);
  }

  lemma NoSpace(s: string)
    requires !IsSpace(Head(s))
    ensures SkipSpace(s) == s
  {
  }

  /** One turn of the digit loop keeps the accumulator equal to the value of
      the digits read so far, modulo 2^64. */
  lemma AccumulateStep(x: nat, b: nat, d: nat, v: nat)
    requires v == x % TWO_64
    ensures (v * b + d) % TWO_64 == (x * b + d) % TWO_64
  {
    ModCongruent(x, TWO_64);
    CongruentMul(v, x, b, b, TWO_64);
    CongruentAdd(v * b, x * b, d, d, TWO_64);
    ModOfDifference(v * b + d, x * b + d, TWO_64);
  }

  /** Converting the accumulated residue, negated modulo 2^64 for '-', gives
      the wrap of the signed value. */
  lemma WrapOfResidue(x: nat, neg: bool)
    ensures ToSigned(if neg then ToUnsigned(0 - x % TWO_64) else x % TWO_64) == Wrap(if neg then -(x as int) else x)
  {
    if neg {
      ModCongruent(x, TWO_64);
      CongruentAdd(0, 0, x % TWO_64, x, TWO_64);
      SignedOfCongruent(0 - x % TWO_64, -(x as int));
      assert ToUnsigned(0 - x % TWO_64) == (0 - x % TWO_64) % TWO_64;
    }
  }

  // -------------------------------------------------------------------------
  // Properties of the parser

  /** The `%PRId64` rendering of a signed value: an optional '-' and the
      decimal digits of the magnitude. */
  function DecimalString(x: int): (s: string)
    ensures |s| >= 1
  {
    if x < 0 then "-" + NatToString(-x) else NatToString(x)
  }

  lemma AlnumRunAll(s: string)
    requires forall i | 0 <= i < |s| :: IsAlnum(s[i])
    ensures AlnumRun(s) == s
  {
  }

  lemma {:induction false} DecimalDigitsValue(n: nat)
    ensures DigitsBelow(NatToString(n), 10)
    ensures DigitsValue(NatToString(n), 10) == n
    decreases n
  {
    var s := NatToString(n);
    assert DigitsBelow(s, 10);
    if n >= 10 {
      DecimalDigitsValue(n / 10);
      assert s[..|s| - 1] == NatToString(n / 10);
    }
  }

  /** The decimal digits of a natural read back as that natural. */
  lemma DecimalLiteral(n: nat)
    ensures Literal(NatToString(n), 10) == Some(n)
  {
    var s := NatToString(n);
    AlnumRunAll(s);
    DecimalDigitsValue(n);
    assert s[|s|..] == [];
  }

  /** A decimal string needs no base prefix: base 0 reads it as base 10. */
  lemma DecimalBase(n: nat)
    ensures DetectBase(NatToString(n), 0) == (10, NatToString(n))
  {
    var s := NatToString(n);
    if s[0] == '0' {
      assert s == "0";
    }
  }

  /** Any decimal literal, however large, parses as its value wrapped to 64
      bits: the accumulation does not detect overflow. */
  lemma DecimalWraps(n: nat, neg: bool, base: int)
    requires base == 0 || base == 10
    ensures StringToInt64((if neg then "-" else "") + NatToString(n), base) == Some(Wrap(if neg then -(n as int) else n))
  {
    var digits := NatToString(n);
    var s := (if neg then "-" else "") + digits;
    NoSpace(s);
    assert StripSign(s) == (neg, digits) by {
      if neg {
        assert Tail(s) == digits;
      } else {
        assert s == digits;
      }
    }
    DecimalBase(n);
    assert DetectBase(digits, base) == (10, digits);
    DecimalLiteral(n);
    Unfold(s, base);
  }

  /** `StringToInt64` in terms of its stages. */
  lemma Unfold(s: string, base: int)
    requires base == 0 || 2 <= base <= 36
    ensures var (neg, u) := StripSign(s);
      var (b, ds) := DetectBase(u, base);
      StringToInt64(s, base) == Signed(neg, Literal(ds, b))
  {
  }

  /** Parsing undoes the `%PRId64` rendering of every 64-bit value, in base 10
      and with base detection. */
  lemma DecimalRoundTrip(x: int, base: int)
    requires IsInt64(x) && (base == 0 || base == 10)
    ensures StringToInt64(DecimalString(x), base) == Some(x)
  {
    if x < 0 {
      DecimalWraps(-x, true, base);
      assert DecimalString(x) == "-" + NatToString(-x);
    } else {
      DecimalWraps(x, false, base);
      assert DecimalString(x) == "" + NatToString(x);
    }
  }

  /** A '-' sign yields the wrapping negation of the unsigned parse. */
  lemma MinusNegates(t: string, base: int)
    requires base == 0 || 2 <= base <= 36
    requires !IsSpace(Head(t)) && Head(t) != '-' && Head(t) != '+'
    ensures StringToInt64("-" + t, base) ==
      match StringToInt64(t, base)
      case None => None
      case Some(x) => Some(Unm(x))
  {
    NoSpace("-" + t);
    NoSpace(t);
    assert StripSign("-" + t) == (true, t);
    assert StripSign(t) == (false, t);
    var (b, ds) := DetectBase(t, base);
    assert StringToInt64("-" + t, base) == Signed(true, Literal(ds, b));
    assert StringToInt64(t, base) == Signed(false, Literal(ds, b));
    SignedNegates(Literal(ds, b));
  }

  lemma SignedNegates(lit: Option<nat>)
    ensures Signed(true, lit) ==
      match Signed(false, lit)
      case None => None
      case Some(x) => Some(Unm(x))
  {
    if lit.Some? {
      var n := lit.value;
      WrapIsCongruent(n);
      CongruentAdd(0, 0, Wrap(n), n, TWO_64);
      WrapCongruent(-Wrap(n), -(n as int));
    }
  }

  /** With base detection, a "0x", "0X", "0o" or "0b" prefix followed by a
      digit character reads the rest in base 16, 8 or 2. */
  lemma PrefixSelectsBase(p: char, t: string)
    requires p in {'x', 'X', 'o', 'b'} && IsAlnum(Head(t))
    ensures StringToInt64(['0', p] + t, 0) == StringToInt64(t, if p == 'o' then 8 else if p == 'b' then 2 else 16)
  {
    var s := ['0', p] + t;
    NoSpace(s);
    NoSpace(t);
    assert StripSign(s) == (false, s);
    assert Tail(Tail(s)) == t;
  }

  /** An explicit base recognises no prefix: "0x..." is rejected in base 16,
      since 'x' is not a hexadecimal digit. */
  lemma ExplicitBaseRejectsPrefix(t: string)
    ensures StringToInt64("0x" + t, 16) == None
  {
    var s := "0x" + t;
    NoSpace(s);
    assert StripSign(s) == (false, s);
    var run := AlnumRun(s);
    assert run[1] == 'x';
  }

  /** A bare prefix is not a literal: "0x" with base detection fails rather
      than reading 0. */
  lemma BarePrefixFails()
    ensures StringToInt64("0x", 0) == None
  {
    assert StripSign("0x") == (false, "0x");
    assert DetectBase("0x", 0) == (16, []);
    assert AlnumRun([]) == [];
    Unfold("0x", 0);
  }
}
