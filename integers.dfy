/** Python's `int(s)` and `str(n)` on integers, in decimal.

    `int` is modelled as an optional sign followed by one or more ASCII
    digits; the leading and trailing whitespace, the `_` separators and the
    non-ASCII digits that Python also accepts are not modelled. */
module Integers {
  import opened Wrappers

  predicate IsDigit(c: char)
  {
    '0' <= c <= '9'
  }

  predicate AllDigits(s: string)
  {
    forall i :: 0 <= i < |s| ==> IsDigit(s[i])
  }

  /** The value of a string of decimal digits, most significant first. */
  function DigitsValue(s: string): nat
    requires AllDigits(s)
    decreases |s|
  {
    if |s| == 0 then 0 else DigitsValue(s[..|s| - 1]) * 10 + (s[|s| - 1] as int - '0' as int)
  }

  /** `int(s)`: `Some` of the value of an optionally signed decimal numeral,
      `None` where Python raises `ValueError`. */
  function ParseInt(s: string): Option<int>
  {
    if |s| > 0 && (s[0] == '-' || s[0] == '+') then
      if |s| > 1 && AllDigits(s[1..]) then
        var magnitude: int := DigitsValue(s[1..]);
        Some(if s[0] == '-' then -magnitude else magnitude)
      else None
    else if |s| > 0 && AllDigits(s) then Some(DigitsValue(s))
    else None
  }

  function DigitChar(d: nat): (c: char)
    requires d < 10
    ensures IsDigit(c) && c as int - '0' as int == d
  {
    ('0' as int + d) as char
  }

  /** `str(n)` for a natural number: its decimal numeral. */
  function NatToString(n: nat): (s: string)
    ensures |s| > 0 && AllDigits(s) && DigitsValue(s) == n
    decreases n
  {
    if n < 10 then [DigitChar(n)]
    else
      var s := NatToString(n / 10) + [DigitChar(n % 10)];
      assert s[..|s| - 1] == NatToString(n / 10);
      s
  }

  /** `str(n)`: reading the numeral back with `int` gives `n`. */
  function IntToString(n: int): (s: string)
    ensures ParseInt(s) == Some(n)
  {
    if n < 0 then
      var s := "-" + NatToString(-n);
      assert s[1..] == NatToString(-n);
      s
    else NatToString(n)
  }

  /** The numeral of a natural number starts with `0` only when it is `0`
      itself. */
  lemma {:induction false} NatToStringCanonical(n: nat)
    ensures NatToString(n)[0] != '0' || NatToString(n) == "0"
    decreases n
  {
    if n >= 10 {
      NatToStringCanonical(n / 10);
      assert NatToString(n)[0] == NatToString(n / 10)[0];
    }
  }

  /** The numeral of `str(n)` is the canonical one: a `-` exactly when `n` is
      negative, never a `+`, and no leading zero. */
  lemma IntToStringCanonical(n: int)
    ensures var s := IntToString(n);
            && |s| > 0 && (s[0] == '-' <==> n < 0) && s[0] != '+'
            && var digits := if n < 0 then s[1..] else s;
               |digits| > 0 && AllDigits(digits) && (digits[0] != '0' || s == "0")
  {
    var s := IntToString(n);
    if n < 0 {
      var digits := NatToString(-n);
      NatToStringCanonical(-n);
      assert s == "-" + digits;
      assert s[1..] == digits && s[0] == '-';
    } else {
      NatToStringCanonical(n);
      assert s == NatToString(n);
      assert IsDigit(s[0]);
    }
  }
}
