/** Bitwise operations on unsigned machine words of `n` bits, defined bit by
    bit from the least significant end, with the facts about them that the
    C expressions in the int64 module rely on. */
module Bits {

  function Pow2(n: nat): (r: nat)
    ensures r >= 1
  {
    if n == 0 then 1 else 2 * Pow2(n - 1)
  }

  lemma Pow2Add(a: nat, b: nat)
    ensures Pow2(a + b) == Pow2(a) * Pow2(b)
  {
    if a > 0 {
      Pow2Add(a - 1, b);
    }
  }

  lemma Pow2Monotonic(a: nat, b: nat)
    requires a <= b
    ensures Pow2(a) <= Pow2(b)
  {
    if a < b {
      Pow2Monotonic(a, b - 1);
    }
  }

  function Bit(a: nat): nat { a % 2 }

  /** `a & b`, restricted to the low `n` bits. */
  function And(a: nat, b: nat, n: nat): (r: nat)
    ensures r < Pow2(n)
  {
    if n == 0 then 0
    else (if Bit(a) == 1 && Bit(b) == 1 then 1 else 0) + 2 * And(a / 2, b / 2, n - 1)
  }

  /** `a | b`, restricted to the low `n` bits. */
  function Or(a: nat, b: nat, n: nat): (r: nat)
    ensures r < Pow2(n)
  {
    if n == 0 then 0
    else (if Bit(a) == 1 || Bit(b) == 1 then 1 else 0) + 2 * Or(a / 2, b / 2, n - 1)
  }

  /** `a ^ b`, restricted to the low `n` bits. */
  function Xor(a: nat, b: nat, n: nat): (r: nat)
    ensures r < Pow2(n)
  {
    if n == 0 then 0
    else (if Bit(a) != Bit(b) then 1 else 0) + 2 * Xor(a / 2, b / 2, n - 1)
  }

  /** Every operand below `2^n` is fully described by its low `n` bits. */
  lemma HalfBound(a: nat, n: nat)
    requires n > 0 && a < Pow2(n)
    ensures a / 2 < Pow2(n - 1)
  {
  }

  /** Exclusive or with the same operand twice gives the operand back. */
  lemma {:induction false} XorInvolution(a: nat, b: nat, n: nat)
    requires a < Pow2(n)
    ensures Xor(Xor(a, b, n), b, n) == a
  {
    if n > 0 {
      var x := Xor(a, b, n);
      assert x / 2 == Xor(a / 2, b / 2, n - 1);
      assert Bit(x) == (if Bit(a) != Bit(b) then 1 else 0);
      HalfBound(a, n);
      XorInvolution(a / 2, b / 2, n - 1);
    }
  }

  /** Exclusive or with the all-ones word is the one's complement. */
  lemma {:induction false} XorAllOnes(a: nat, n: nat)
    requires a < Pow2(n)
    ensures Xor(Pow2(n) - 1, a, n) == Pow2(n) - 1 - a
  {
    if n > 0 {
      assert (Pow2(n) - 1) / 2 == Pow2(n - 1) - 1;
      assert Bit(Pow2(n) - 1) == 1;
      HalfBound(a, n);
      XorAllOnes(a / 2, n - 1);
    }
  }

  /** Masking with `2^k - 1` keeps the low `k` bits. */
  lemma {:induction false} AndLowMask(a: nat, k: nat, n: nat)
    requires k <= n
    ensures And(a, Pow2(k) - 1, n) == a % Pow2(k)
    decreases k, 1
  {
    if k == 0 {
      AndEmptyMask(a, n);
    } else {
      AndLowMaskStep(a, k, n);
    }
  }

  lemma AndEmptyMask(a: nat, n: nat)
    ensures And(a, Pow2(0) - 1, n) == a % Pow2(0)
  {
    assert Pow2(0) - 1 == 0;
    AndZero(a, n);
  }

  /** The step of `AndLowMask`: the lowest bit passes the mask, and the rest
      is the shorter mask on the shifted operand. */
  lemma {:induction false} AndLowMaskStep(a: nat, k: nat, n: nat)
    requires 0 < k <= n
    ensures And(a, Pow2(k) - 1, n) == a % Pow2(k)
    decreases k, 0
  {
    AndLowMask(a / 2, k - 1, n - 1);
    AndMaskStep(a, k, n);
    DivMod2(a, k);
  }

  lemma AndMaskStep(a: nat, k: nat, n: nat)
    requires 0 < k <= n
    ensures And(a, Pow2(k) - 1, n) == Bit(a) + 2 * And(a / 2, Pow2(k - 1) - 1, n - 1)
  {
    var m := Pow2(k) - 1;
    assert m == 2 * (Pow2(k - 1) - 1) + 1;
    assert Bit(m) == 1 && m / 2 == Pow2(k - 1) - 1;
  }

  lemma DivMod2(a: nat, k: nat)
    requires k > 0
    ensures a % Pow2(k) == a % 2 + 2 * ((a / 2) % Pow2(k - 1))
  {
    var p := Pow2(k - 1);
    var q := (a / 2) / p;
    var r := (a / 2) % p;
    assert a / 2 == q * p + r;
    assert a == q * (2 * p) + (a % 2 + 2 * r);
    assert 0 <= a % 2 + 2 * r < 2 * p;
    LemmaModUnique(a, 2 * p, q, a % 2 + 2 * r);
  }

  lemma LemmaModUnique(a: int, d: int, q: int, r: int)
    requires d > 0 && 0 <= r < d && a == q * d + r
    ensures a % d == r && a / d == q
  {
    var q2, r2 := a / d, a % d;
    assert (q2 - q) * d == r - r2;
    if q2 > q {
      MulAtLeast(q2 - q, d);
    } else if q2 < q {
      MulAtLeast(q - q2, d);
    }
  }

  lemma MulAtLeast(m: int, d: int)
    requires m >= 1 && d > 0
    ensures m * d >= d
  {
  }

  lemma {:induction false} AndZero(a: nat, n: nat)
    ensures And(a, 0, n) == 0
  {
    if n > 0 {
      AndZero(a / 2, n - 1);
    }
  }

  lemma {:induction false} OrZero(b: nat, n: nat)
    requires b < Pow2(n)
    ensures Or(0, b, n) == b
  {
    if n > 0 {
      HalfBound(b, n);
      OrZero(b / 2, n - 1);
    }
  }

  /** Or-ing a value below `2^k` with a multiple of `2^k` is addition: the two
      operands have no bit in common. */
  lemma {:induction false} OrDisjoint(a: nat, b: nat, k: nat, n: nat)
    requires k <= n && a < Pow2(k) && b * Pow2(k) < Pow2(n)
    ensures Or(a, b * Pow2(k), n) == a + b * Pow2(k)
  {
    if k == 0 {
      assert a == 0;
      OrZero(b, n);
    } else {
      var m := b * Pow2(k - 1);
      assert b * Pow2(k) == 2 * m;
      assert Bit(2 * m) == 0 && (2 * m) / 2 == m;
      assert m < Pow2(n - 1);
      assert a / 2 < Pow2(k - 1);
      OrDisjoint(a / 2, b, k - 1, n - 1);
      assert Or(a, 2 * m, n) == Bit(a) + 2 * Or(a / 2, m, n - 1);
    }
  }

  /** The top bit of `a ^ b` is set iff exactly one of `a` and `b` has it set:
      the sign test on an exclusive or. */
  lemma {:induction false} XorTopBit(a: nat, b: nat, n: nat)
    requires n > 0 && a < Pow2(n) && b < Pow2(n)
    ensures (Xor(a, b, n) >= Pow2(n - 1)) <==> ((a >= Pow2(n - 1)) != (b >= Pow2(n - 1)))
  {
    if n > 1 {
      HalfBound(a, n);
      HalfBound(b, n);
      XorTopBit(a / 2, b / 2, n - 1);
      assert Pow2(n - 1) == 2 * Pow2(n - 2);
    }
  }

  lemma {:induction false} AndCommutes(a: nat, b: nat, n: nat)
    ensures And(a, b, n) == And(b, a, n)
  {
    if n > 0 {
      AndCommutes(a / 2, b / 2, n - 1);
    }
  }
}
