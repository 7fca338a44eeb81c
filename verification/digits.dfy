/** Digit strings: the decimal and hexadecimal readings of a trace token
    (Python's `int(x)` and `int(x, 16)` restricted to plain digit strings)
    and the decimal rendering `str(n)` used in process names. */
module Digits {
  import opened Results

  /** Value of `c` as a digit of `base`, if it is one. */
  function DigitValue(c: char, base: nat): Option<nat> {
    if '0' <= c <= '9' && (c as int) - ('0' as int) < base then Some((c as int) - ('0' as int))
    else if base == 16 && 'a' <= c <= 'f' then Some((c as int) - ('a' as int) + 10)
    else if base == 16 && 'A' <= c <= 'F' then Some((c as int) - ('A' as int) + 10)
    else None
  }

  predicate AllDigits(s: string, base: nat) {
    forall i | 0 <= i < |s| :: DigitValue(s[i], base).Some?
  }

  /** Positional value of a digit string, most significant digit first. */
  function DigitsValue(s: string, base: nat): nat
    requires AllDigits(s, base)
  {
    if |s| == 0 then 0
    else DigitsValue(s[..|s| - 1], base) * base + DigitValue(s[|s| - 1], base).value
  }

  /** Reading a token in `base`: it must be a non-empty string of digits. */
  function ParseDigits(s: string, base: nat): (r: Option<nat>)
    ensures r.Some? <==> |s| > 0 && AllDigits(s, base)
  {
    if |s| > 0 && AllDigits(s, base) then Some(DigitsValue(s, base)) else None
  }

  function ParseDecimal(s: string): Option<nat> {
    ParseDigits(s, 10)
  }

  function ParseHex(s: string): Option<nat> {
    ParseDigits(s, 16)
  }

  function DecimalDigit(d: nat): (c: char)
    requires d < 10
    ensures DigitValue(c, 10) == Some(d)
  {
    ('0' as int + d) as char
  }

  /** `str(n)`: the shortest decimal rendering of `n`. */
  function ToDecimal(n: nat): (s: string)
    ensures |s| > 0 && AllDigits(s, 10)
    ensures s[0] == '0' <==> n == 0
    ensures |s| == 1 || s[0] != '0'
  {
    if n < 10 then [DecimalDigit(n)] else ToDecimal(n / 10) + [DecimalDigit(n % 10)]
  }

  /** Reading back a rendered number gives the number. */
  lemma {:induction false} DecimalRoundTrip(n: nat)
    ensures ParseDecimal(ToDecimal(n)) == Some(n)
  {
    ValueOfDecimal(n);
  }

  lemma {:induction false} ValueOfDecimal(n: nat)
    ensures DigitsValue(ToDecimal(n), 10) == n
  {
    var s := ToDecimal(n);
    if n >= 10 {
      assert s[..|s| - 1] == ToDecimal(n / 10);
      ValueOfDecimal(n / 10);
    } else {
      assert s[..|s| - 1] == [];
    }
  }

  /** A rendering never contains a separator character. */
  lemma DecimalHasNoSeparator(n: nat)
    ensures ',' !in ToDecimal(n) && ')' !in ToDecimal(n)
  {
  }
}
