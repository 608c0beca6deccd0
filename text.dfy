/** Decimal rendering of naturals, as `%d` formats them in the error messages
    of the modelled C functions. */
module Text {

  function DigitChar(d: nat): (c: char)
    requires d < 10
    ensures '0' <= c <= '9'
    ensures (c as int) - ('0' as int) == d
  {
    (('0' as int) + d) as char
  }

  /** Decimal digits of `n`, most significant first, without leading zeros. */
  function NatToString(n: nat): (s: string)
    ensures |s| >= 1
    ensures forall i :: 0 <= i < |s| ==> '0' <= s[i] <= '9'
    ensures s[0] == '0' ==> n == 0
  {
    if n < 10 then [DigitChar(n)] else NatToString(n / 10) + [DigitChar(n % 10)]
  }

  /** The message `luaL_argerror` raises for argument `arg`; the name of the
      calling function, which Lua takes from debug information, is left out. */
  function ArgError(arg: nat, what: string): string
  {
    "bad argument #" + NatToString(arg) + " (" + what + ")"
  }
}
