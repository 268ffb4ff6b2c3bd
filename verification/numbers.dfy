/** Python's decimal text <-> number conversions as the pipeline uses them:
    `int(text)`, `float(text)`, `str(n)`, the `f"{n:04d}"` serial, and the
    script's own `safe_int` / `safe_float` wrappers. */
module Numbers {
  import opened Wrappers
  import opened Text

  predicate IsDigit(c: char) {
    '0' <= c <= '9'
  }

  predicate AllDigits(s: string) {
    forall i :: 0 <= i < |s| ==> IsDigit(s[i])
  }

  function DigitValue(c: char): nat
    requires IsDigit(c)
  {
    c as int - '0' as int
  }

  function DigitChar(d: nat): (c: char)
    requires d < 10
    ensures IsDigit(c) && DigitValue(c) == d
  {
    ('0' as int + d) as char
  }

  function Pow10(k: nat): (p: nat)
    ensures p >= 1
  {
    if k == 0 then 1 else 10 * Pow10(k - 1)
  }

  /** The value of a run of decimal digits, most significant first. */
  function DigitsValue(s: string): nat
    requires AllDigits(s)
  {
    if |s| == 0 then 0 else 10 * DigitsValue(s[..|s| - 1]) + DigitValue(s[|s| - 1])
  }

  lemma AllDigitsConcat(a: string, b: string)
    requires AllDigits(a) && AllDigits(b)
    ensures AllDigits(a + b)
  {
    var ab := a + b;
    forall i | 0 <= i < |ab| ensures IsDigit(ab[i]) {
      if i < |a| { assert ab[i] == a[i]; } else { assert ab[i] == b[i - |a|]; }
    }
  }

  /** Leading zeros do not change the value of a run of digits. */
  lemma {:induction false} LeadingZeros(z: string, d: string)
    requires AllDigits(z) && DigitsValue(z) == 0 && AllDigits(d)
    ensures AllDigits(z + d)
    ensures DigitsValue(z + d) == DigitsValue(d)
    decreases |d|
  {
    AllDigitsConcat(z, d);
    if |d| > 0 {
      var zd := z + d;
      var d' := d[..|d| - 1];
      assert zd[..|zd| - 1] == z + d';
      assert zd[|zd| - 1] == d[|d| - 1];
      LeadingZeros(z, d');
    } else {
      assert z + d == z;
    }
  }

  /** `str(n)` for a non-negative integer: its digits, without leading zeros. */
  function DecimalText(n: nat): (s: string)
    ensures |s| >= 1 && AllDigits(s) && DigitsValue(s) == n
    ensures s[0] != '0' || n == 0
  {
    if n < 10 then [DigitChar(n)]
    else
      var s := DecimalText(n / 10) + [DigitChar(n % 10)];
      assert s[..|s| - 1] == DecimalText(n / 10);
      s
  }

  /** A number below 10^k needs at most k digits. */
  lemma {:induction false} DecimalTextLength(n: nat, k: nat)
    requires n < Pow10(k)
    ensures |DecimalText(n)| <= k || (n == 0 && k == 0)
  {
    if n >= 10 {
      DecimalTextLength(n / 10, k - 1);
    }
  }

  /** A run of `k` zero digits (none when `k` is not positive). */
  function Zeros(k: int): (z: string)
    ensures |z| == if k > 0 then k else 0
    ensures AllDigits(z) && DigitsValue(z) == 0
    decreases k
  {
    if k <= 0 then "" else
      var z := Zeros(k - 1) + "0";
      assert z[..|z| - 1] == Zeros(k - 1);
      z
  }

  /** Python's `int(text)` on base-10 text: surrounding whitespace is
      ignored, one optional sign, then one or more ASCII digits. */
  function ParseInt(s: string): Option<int> {
    IntOfTrimmed(Trim(s))
  }

  /** `int()` on text without surrounding whitespace. */
  function IntOfTrimmed(t: string): Option<int> {
    if |t| > 0 && (t[0] == '-' || t[0] == '+') then
      var body := t[1..];
      if |body| > 0 && AllDigits(body) then
        var v: int := DigitsValue(body);
        Some(if t[0] == '-' then -v else v)
      else None
    else if |t| > 0 && AllDigits(t) then Some(DigitsValue(t))
    else None
  }

  /** The unsigned decimal literal of Python's `float(text)`: digits with at
      most one '.', and at least one digit on either side of it. */
  function DecimalValue(body: string): Option<real> {
    var parts := Split(body, ".");
    if |parts| > 2 then None
    else
      var whole := parts[0];
      var frac := if |parts| == 2 then parts[1] else "";
      if AllDigits(whole) && AllDigits(frac) && |whole| + |frac| > 0 then
        Some(DigitsValue(whole) as real + DigitsValue(frac) as real / Pow10(|frac|) as real)
      else None
  }

  /** Python's `float(text)` on plain decimal notation. */
  function ParseFloat(s: string): Option<real> {
    var t := Trim(s);
    var negative := |t| > 0 && t[0] == '-';
    var body := if |t| > 0 && (t[0] == '-' || t[0] == '+') then t[1..] else t;
    match DecimalValue(body)
    case None => None
    case Some(x) => Some(if negative then -x else x)
  }

  /** `f"{n:04d}"`: the decimal digits zero-filled to width four, the sign
      (if any) counting towards the width. */
  function Pad4(n: int): string {
    if n >= 0 then ZeroFill(DecimalText(n), 4)
    else "-" + ZeroFill(DecimalText(-n), 3)
  }

  /** `digits` preceded by as many zeros as bring it to `width` characters. */
  function ZeroFill(digits: string, width: nat): string {
    Zeros(width - |digits|) + digits
  }

  /** `safe_int(value)`: `None` for a missing or empty value, and for text
      that `int()` rejects. `safe_int(value, d)` is `SafeInt(value).GetOr(d)`. */
  function SafeInt(value: Option<string>): Option<int> {
    if value.None? || value.value == "" then None else ParseInt(value.value)
  }

  /** `safe_float(value)`, likewise. */
  function SafeFloat(value: Option<string>): Option<real> {
    if value.None? || value.value == "" then None else ParseFloat(value.value)
  }

  /** A bare run of digits reads as its value. */
  lemma ParseDigits(s: string)
    requires |s| > 0 && AllDigits(s)
    ensures ParseInt(s) == Some(DigitsValue(s))
  {
    assert IsDigit(s[0]) && IsDigit(s[|s| - 1]);
    TrimUnchanged(s);
    assert IntOfTrimmed(s) == Some(DigitsValue(s));
  }

  /** `int(str(n)) == n`. */
  lemma DecimalTextRoundTrip(n: nat)
    ensures ParseInt(DecimalText(n)) == Some(n)
  {
    ParseDigits(DecimalText(n));
  }

  /** The serial is at least four characters wide, exactly four digits for
      a number in 0..9999, and parses back to the number it was made from. */
  lemma Pad4RoundTrip(n: int)
    ensures ParseInt(Pad4(n)) == Some(n)
    ensures |Pad4(n)| >= 4
    ensures 0 <= n < 10000 ==> |Pad4(n)| == 4 && AllDigits(Pad4(n))
  {
    if n >= 0 {
      Pad4NonNegative(n);
    } else {
      Pad4Negative(n);
    }
  }

  lemma Pad4NonNegative(n: nat)
    ensures ParseInt(Pad4(n)) == Some(n)
    ensures |Pad4(n)| >= 4
    ensures n < 10000 ==> |Pad4(n)| == 4 && AllDigits(Pad4(n))
  {
    var d := DecimalText(n);
    var s := ZeroFill(d, 4);
    LeadingZeros(Zeros(4 - |d|), d);
    assert AllDigits(s) && DigitsValue(s) == n;
    ParseDigits(s);
    if n < 10000 {
      assert Pow10(4) == 10000;
      DecimalTextLength(n, 4);
    }
  }

  /** A minus sign followed by a run of digits reads as the negated value. */
  lemma ParseNegative(body: string)
    requires |body| > 0 && AllDigits(body)
    ensures ParseInt("-" + body) == Some(-(DigitsValue(body) as int))
  {
    var s := "-" + body;
    assert s[1..] == body;
    assert s[0] == '-';
    assert IsDigit(s[|s| - 1]) by {
      assert s[|s| - 1] == body[|body| - 1];
    }
    TrimUnchanged(s);
    SignedDigits(s);
  }

  /** Stripped text of a minus sign and digits reads as the negated digits. */
  lemma SignedDigits(t: string)
    requires |t| > 1 && t[0] == '-' && AllDigits(t[1..])
    ensures IntOfTrimmed(t) == Some(-(DigitsValue(t[1..]) as int))
  {
  }

  /** A negative number's serial: a minus sign and three or more digits. */
  lemma Pad4Negative(n: int)
    requires n < 0
    ensures ParseInt(Pad4(n)) == Some(n)
    ensures |Pad4(n)| >= 4
  {
    var d := DecimalText(-n);
    var s := ZeroFill(d, 3);
    LeadingZeros(Zeros(3 - |d|), d);
    assert AllDigits(s) && DigitsValue(s) == -n;
    ParseNegative(s);
  }
}
