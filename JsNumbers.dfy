/** The JavaScript number primitives the clock formatters rely on: `String(n)`
    on integers, `padStart(2, "0")`, the `%` operator and `Math.round`. */
module JsNumbers {

  // ---------------------------------------------------------------------------
  // Decimal strings: JS String(n) on integers and padStart(2, "0")
  // ---------------------------------------------------------------------------

  predicate IsDigit(c: char)
  {
    '0' <= c <= '9'
  }

  predicate AllDigits(s: string)
  {
    forall i :: 0 <= i < |s| ==> IsDigit(s[i])
  }

  function DigitChar(d: nat): (c: char)
    requires d < 10
    ensures IsDigit(c) && c as int - '0' as int == d
  {
    ('0' as int + d) as char
  }

  /** The number a string of decimal digits denotes (leading zeros allowed). */
  function DigitsValue(s: string): nat
    requires AllDigits(s)
  {
    if s == [] then 0
    else DigitsValue(s[..|s| - 1]) * 10 + (s[|s| - 1] as int - '0' as int)
  }

  /** `s` is a string of decimal digits that denotes `v`. */
  predicate ReadsAs(s: string, v: nat)
  {
    AllDigits(s) && DigitsValue(s) == v
  }

  /** The decimal representation of a natural number, as JS `String(n)` gives it. */
  function NatToString(n: nat): (s: string)
    ensures |s| >= 1 && AllDigits(s)
    ensures n < 10 <==> |s| == 1
    ensures n < 100 <==> |s| <= 2
    decreases n
  {
    if n < 10 then [DigitChar(n)] else NatToString(n / 10) + [DigitChar(n % 10)]
  }

  /** `String(n)` reads back as n and has no leading zero. */
  lemma {:induction false} NatToStringReadsBack(n: nat)
    ensures DigitsValue(NatToString(n)) == n
    ensures |NatToString(n)| > 1 ==> NatToString(n)[0] != '0'
    decreases n
  {
    if n >= 10 {
      var prefix := NatToString(n / 10);
      var s := NatToString(n);
      assert s[..|s| - 1] == prefix;
      NatToStringReadsBack(n / 10);
    }
  }

  /** JS `String(i)` for an integer: the digits of |i|, after a minus sign when i < 0. */
  function IntToString(i: int): (s: string)
    ensures |s| >= 1
    ensures s[0] == '-' <==> i < 0
  {
    if i < 0 then "-" + NatToString(-i) else NatToString(i)
  }

  /** JS `s.padStart(2, "0")`: zeros on the left up to length 2; never truncates. */
  function PadStart2(s: string): (r: string)
    ensures |r| == if |s| < 2 then 2 else |s|
    ensures forall i :: |r| - |s| <= i < |r| ==> r[i] == s[i - (|r| - |s|)]
    ensures forall i :: 0 <= i < |r| - |s| ==> r[i] == '0'
  {
    if |s| >= 2 then s else if |s| == 1 then "0" + s else "00"
  }

  /** A leading zero does not change the value of a digit string. */
  lemma {:induction false} LeadingZeroIgnored(s: string)
    requires AllDigits(s)
    ensures AllDigits("0" + s) && DigitsValue("0" + s) == DigitsValue(s)
  {
    if s != [] {
      var t := "0" + s;
      assert t[..|t| - 1] == "0" + s[..|s| - 1];
      LeadingZeroIgnored(s[..|s| - 1]);
    }
  }

  /** Padding a digit string keeps it a digit string with the same value. */
  lemma PadKeepsValue(s: string)
    requires AllDigits(s)
    ensures AllDigits(PadStart2(s)) && DigitsValue(PadStart2(s)) == DigitsValue(s)
  {
    if |s| == 1 {
      LeadingZeroIgnored(s);
    } else if |s| == 0 {
      LeadingZeroIgnored("0");
      assert "0" + "0" == "00";
    }
  }

  /** One zero-padded clock field, as both clock formatters print a natural number. */
  function Field(n: nat): string
  {
    PadStart2(NatToString(n))
  }

  /** A field reads back as its number, has two characters below 100 and
      keeps every digit at 100 and above. */
  lemma FieldReadsBack(n: nat)
    ensures AllDigits(Field(n)) && DigitsValue(Field(n)) == n
    ensures n < 100 ==> |Field(n)| == 2
    ensures n >= 100 ==> |Field(n)| >= 3 && Field(n) == NatToString(n)
  {
    NatToStringReadsBack(n);
    PadKeepsValue(NatToString(n));
  }

  /** A number below 100 prints as exactly its two digits. */
  lemma TwoDigitField(n: nat)
    requires n < 100
    ensures Field(n) == [DigitChar(n / 10), DigitChar(n % 10)]
  {
    if n >= 10 {
      assert NatToString(n) == NatToString(n / 10) + [DigitChar(n % 10)];
    }
  }

  // ---------------------------------------------------------------------------
  // JS arithmetic used by the formatters
  // ---------------------------------------------------------------------------

  /** JS `a % b` for b > 0: the mathematical remainder on a nonnegative `a`;
      on a negative `a` the remainder is negative or zero, like `a`. */
  function JsRem(a: int, b: int): (r: int)
    requires b > 0
    ensures a >= 0 ==> r == a % b && 0 <= r < b
    ensures a < 0 ==> -b < r <= 0
  {
    if a >= 0 then a % b else -((-a) % b)
  }

  /** JS `Math.round(x)`: the nearest integer, halves rounded up. */
  function JsRound(x: real): (r: int)
    ensures x - 0.5 < r as real <= x + 0.5
  {
    (x + 0.5).Floor
  }
}
