/** Decimal integer text: the literal form the parser accepts
    (`/^[-+]?\d+$/`, then `BigInt(text)`) and the exact decimal text
    `BigInt.prototype.toString()` produces. */
module Decimal {

  predicate IsDigit(c: char) {
    '0' <= c <= '9'
  }

  predicate AllDigits(s: string) {
    forall i :: 0 <= i < |s| ==> IsDigit(s[i])
  }

  function DigitValue(c: char): nat
    requires IsDigit(c)
  {
    c as int - '0' as int
  }

  function DigitChar(d: nat): (c: char)
    requires d < 10
    ensures IsDigit(c) && DigitValue(c) == d
  {
    ('0' as int + d) as char
  }

  /** The text after an optional leading `+` or `-`. */
  function Unsigned(s: string): string {
    if |s| > 0 && (s[0] == '+' || s[0] == '-') then s[1..] else s
  }

  /** The regular expression `^[-+]?\d+$` (JavaScript's `\d` is ASCII `[0-9]`,
      and `$` without the `m` flag matches only at the very end). */
  predicate IsIntegerLiteral(s: string) {
    |Unsigned(s)| > 0 && AllDigits(Unsigned(s))
  }

  /** The value of a non-empty or empty digit string, most significant first. */
  function DigitsValue(d: string): nat
    requires AllDigits(d)
    decreases |d|
  {
    if d == [] then 0 else 10 * DigitsValue(d[..|d| - 1]) + DigitValue(d[|d| - 1])
  }

  /** `BigInt(s)` for a text that `IsIntegerLiteral` accepts. */
  function LiteralValue(s: string): int
    requires IsIntegerLiteral(s)
  {
    var magnitude: int := DigitsValue(Unsigned(s));
    if s[0] == '-' then -magnitude else magnitude
  }

  function NatToString(n: nat): string
    decreases n
  {
    if n < 10 then [DigitChar(n)] else NatToString(n / 10) + [DigitChar(n % 10)]
  }

  /** `n.toString()` for a `bigint`. */
  function IntToString(n: int): string {
    if n < 0 then "-" + NatToString(-n) else NatToString(n)
  }

  /** Leading zeros removed, keeping one digit. */
  function StripZeros(d: string): string
    decreases |d|
  {
    if |d| > 1 && d[0] == '0' then StripZeros(d[1..]) else d
  }

  /** The text `BigInt(s).toString()` gives: no `+`, no leading zeros,
      and no sign on zero. */
  function Canonical(s: string): string
    requires IsIntegerLiteral(s)
  {
    var m := StripZeros(Unsigned(s));
    if s[0] == '-' && m != "0" then "-" + m else m
  }

  /** The decimal text of a natural number is a digit string without leading
      zeros, and denotes that number. */
  lemma {:induction false} NatToStringDenotes(n: nat)
    ensures |NatToString(n)| > 0 && AllDigits(NatToString(n))
    ensures DigitsValue(NatToString(n)) == n
    ensures NatToString(n)[0] != '0' || n == 0
    decreases n
  {
    var s := NatToString(n);
    if n >= 10 {
      NatToStringDenotes(n / 10);
      var p := NatToString(n / 10);
      assert s[..|s| - 1] == p;
      assert s[0] == p[0];
    }
  }

  /** The text `toString` gives for any integer is accepted by the literal
      pattern and parses back to the same integer. */
  lemma IntToStringRoundTrip(n: int)
    ensures IsIntegerLiteral(IntToString(n))
    ensures LiteralValue(IntToString(n)) == n
  {
    if n < 0 {
      NatToStringDenotes(-n);
      assert IntToString(n)[1..] == NatToString(-n);
    } else {
      NatToStringDenotes(n);
    }
  }

  lemma {:induction false} LeadingZeroIgnored(d: string)
    requires AllDigits(d)
    ensures AllDigits("0" + d) && DigitsValue("0" + d) == DigitsValue(d)
    decreases |d|
  {
    if d != [] {
      var init := d[..|d| - 1];
      LeadingZeroIgnored(init);
      assert ("0" + d)[..|"0" + d| - 1] == "0" + init;
    }
  }

  lemma {:induction false} StripZerosValue(d: string)
    requires |d| > 0 && AllDigits(d)
    ensures |StripZeros(d)| > 0 && AllDigits(StripZeros(d))
    ensures DigitsValue(StripZeros(d)) == DigitsValue(d)
    ensures StripZeros(d)[0] != '0' || StripZeros(d) == "0"
    decreases |d|
  {
    if |d| > 1 && d[0] == '0' {
      StripZerosValue(d[1..]);
      LeadingZeroIgnored(d[1..]);
      assert "0" + d[1..] == d;
    }
  }

  lemma {:induction false} LeadingDigitPositive(d: string)
    requires |d| > 0 && AllDigits(d) && d[0] != '0'
    ensures DigitsValue(d) >= 1
    decreases |d|
  {
    if |d| > 1 {
      LeadingDigitPositive(d[..|d| - 1]);
    }
  }

  /** A digit string without leading zeros is the decimal text of its value. */
  lemma {:induction false} CanonicalDigits(d: string)
    requires |d| > 0 && AllDigits(d)
    requires d[0] != '0' || d == "0"
    ensures NatToString(DigitsValue(d)) == d
    decreases |d|
  {
    if |d| > 1 {
      var init := d[..|d| - 1];
      CanonicalDigits(init);
      LeadingDigitPositive(init);
      var v := DigitsValue(d);
      assert v / 10 == DigitsValue(init) && v % 10 == DigitValue(d[|d| - 1]);
      assert init + [d[|d| - 1]] == d;
    }
  }

  /** Parsing a literal and printing it again gives its canonical form
      (for example `"+007"` gives `"7"` and `"-0"` gives `"0"`). */
  lemma LiteralCanonical(s: string)
    requires IsIntegerLiteral(s)
    ensures IntToString(LiteralValue(s)) == Canonical(s)
  {
    var u := Unsigned(s);
    StripZerosValue(u);
    CanonicalDigits(StripZeros(u));
    if s[0] == '-' {
      if StripZeros(u) == "0" {
        assert LiteralValue(s) == 0;
      } else {
        LeadingDigitPositive(StripZeros(u));
      }
    }
  }
}
