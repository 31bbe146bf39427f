/**
 * Decimal numerals as the daemon reads them with Python's `int()` on a
 * string of ASCII digits, and writes them with the `%i` conversion.
 * Python integers are unbounded, so `nat` models them without a width.
 */
module Decimal {

  import opened Wrappers

  predicate IsDigit(c: char) {
    '0' <= c <= '9'
  }

  predicate AllDigits(s: string) {
    forall i :: 0 <= i < |s| ==> IsDigit(s[i])
  }

  /** A numeral without superfluous leading zeros: "0", "7", "120", never "007". */
  predicate Canonical(s: string) {
    |s| > 0 && AllDigits(s) && (s[0] == '0' ==> |s| == 1)
  }

  function DigitValue(c: char): (d: nat)
    requires IsDigit(c)
    ensures d < 10
  {
    (c - '0') as nat
  }

  function DigitChar(d: nat): (c: char)
    requires d < 10
    ensures IsDigit(c) && DigitValue(c) == d
  {
    ('0' as int + d) as char
  }

  /** The number a string of digits denotes, most significant digit first. */
  function Value(s: string): nat
    requires AllDigits(s)
  {
    if s == [] then 0 else Value(s[..|s| - 1]) * 10 + DigitValue(s[|s| - 1])
  }

  /**
   * `int(s)` on a string of digits: Python rejects the empty string, and
   * writing the number back with `%i` gives the digits without leading zeros.
   */
  function ParseInt(s: string): (r: Option<nat>)
    requires AllDigits(s)
    ensures r.None? <==> s == []
    ensures r.Some? ==> r.value == Value(s)
    ensures r.Some? ==> Format(r.value) == StripZeros(s)
  {
    if s == [] then None
    else
      FormatStripsZeros(s);
      Some(Value(s))
  }

  /** `"%i" % n`: the canonical numeral of `n`, which reads back as `n`. */
  function Format(n: nat): (s: string)
    ensures Canonical(s)
    ensures Value(s) == n
  {
    if n < 10 then [DigitChar(n)]
    else
      var s := Format(n / 10) + [DigitChar(n % 10)];
      assert s[..|s| - 1] == Format(n / 10);
      s
  }

  /** A numeral with any leading zeros removed, keeping at least one digit. */
  function StripZeros(s: string): (r: string)
    requires |s| > 0 && AllDigits(s)
    ensures Canonical(r)
  {
    if |s| > 1 && s[0] == '0' then StripZeros(s[1..]) else s
  }

  lemma {:induction false} LeadingDigitPositive(s: string)
    requires AllDigits(s) && |s| > 0 && s[0] != '0'
    ensures Value(s) >= 1
  {
    if |s| > 1 {
      LeadingDigitPositive(s[..|s| - 1]);
    }
  }

  /** Format is the inverse of Value on canonical numerals. */
  lemma {:induction false} FormatValue(s: string)
    requires Canonical(s)
    ensures Format(Value(s)) == s
  {
    if |s| > 1 {
      var init := s[..|s| - 1];
      LeadingDigitPositive(init);
      FormatValue(init);
      var v := Value(s);
      assert v / 10 == Value(init) && v % 10 == DigitValue(s[|s| - 1]);
      assert s == init + [s[|s| - 1]];
    }
  }

  /** A leading zero does not change the value of a numeral. */
  lemma {:induction false} ZeroPrefix(s: string)
    requires AllDigits(s)
    ensures AllDigits("0" + s) && Value("0" + s) == Value(s)
  {
    if s != [] {
      var z := "0" + s;
      assert z[..|z| - 1] == "0" + s[..|s| - 1];
      ZeroPrefix(s[..|s| - 1]);
    }
  }

  /**
   * Reading a numeral and formatting it again drops its leading zeros, so
   * "007" and "7" denote one number and both are written back as "7".
   */
  lemma {:induction false} FormatStripsZeros(s: string)
    requires |s| > 0 && AllDigits(s)
    ensures Format(Value(s)) == StripZeros(s)
  {
    if |s| > 1 && s[0] == '0' {
      assert s == "0" + s[1..];
      ZeroPrefix(s[1..]);
      FormatStripsZeros(s[1..]);
    } else {
      FormatValue(s);
    }
  }
}
