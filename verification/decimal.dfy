/** Decimal rendering of a natural number, as Go's `%d` verb writes it,
    and the parse that undoes it. */
module Decimal {

  predicate IsDigit(c: char) {
    '0' <= c <= '9'
  }

  function DigitChar(d: nat): (c: char)
    requires d < 10
    ensures IsDigit(c)
  {
    ('0' as int + d) as char
  }

  function DigitValue(c: char): nat
    requires IsDigit(c)
  {
    c as int - '0' as int
  }

  /** `fmt.Sprintf("%d", n)` for a non-negative n: most significant digit
      first, no leading zeros, no sign. */
  function FromNat(n: nat): (s: string)
    ensures 0 < |s|
    ensures forall i :: 0 <= i < |s| ==> IsDigit(s[i])
    ensures |s| > 1 ==> s[0] != '0'
    decreases n
  {
    if n < 10 then [DigitChar(n)] else FromNat(n / 10) + [DigitChar(n % 10)]
  }

  /** Reads a string of decimal digits back as a number. */
  function ToNat(s: string): nat
    requires forall i :: 0 <= i < |s| ==> IsDigit(s[i])
    decreases |s|
  {
    if s == [] then 0 else ToNat(s[..|s| - 1]) * 10 + DigitValue(s[|s| - 1])
  }

  /** Parsing the rendering gives the number back. */
  lemma {:induction false} RoundTrip(n: nat)
    ensures ToNat(FromNat(n)) == n
    decreases n
  {
    var s := FromNat(n);
    if n >= 10 {
      var prefix := FromNat(n / 10);
      assert s[..|s| - 1] == prefix;
      RoundTrip(n / 10);
    }
  }

  /** Distinct numbers render as distinct strings. */
  lemma FromNatInjective(m: nat, n: nat)
    requires FromNat(m) == FromNat(n)
    ensures m == n
  {
    RoundTrip(m);
    RoundTrip(n);
  }
}
