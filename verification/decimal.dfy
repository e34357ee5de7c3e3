/** Decimal text for 64-bit integers as Qt produces and reads it:
    QString::number(qint64) and QString::toLongLong() in base 10.  Values
    are unbounded `int`s; the 64-bit range is checked explicitly. */
module Decimal {
  import opened Wrappers

  const Int64Min: int := -0x8000_0000_0000_0000
  const Int64Max: int := 0x7FFF_FFFF_FFFF_FFFF

  predicate InInt64(x: int)
  {
    Int64Min <= x <= Int64Max
  }

  /** Two's-complement wrap-around of a product that left the 64-bit range. */
  function WrapInt64(x: int): (r: int)
    ensures InInt64(r)
    ensures (r - x) % 0x1_0000_0000_0000_0000 == 0
    ensures InInt64(x) ==> r == x
  {
    (x - Int64Min) % 0x1_0000_0000_0000_0000 + Int64Min
  }

  /** Division rounding toward zero, as C++ `/` does on signed integers
      (Dafny's own `/` rounds toward negative infinity for a positive
      divisor). */
  function TruncDiv(a: int, b: int): (q: int)
    requires b > 0
    ensures a >= 0 ==> 0 <= q * b <= a < q * b + b
    ensures a < 0 ==> q * b - b < a <= q * b <= 0
  {
    if a >= 0 then
      DivBounds(a, b);
      a / b
    else
      DivBounds(-a, b);
      -((-a) / b)
  }

  lemma DivBounds(n: int, b: int)
    requires n >= 0 && b > 0
    ensures 0 <= (n / b) * b <= n < (n / b) * b + b
  {
    var q, r := n / b, n % b;
    assert n == q * b + r && 0 <= r < b;
    assert q >= 0;
    MulNonNegative(q, b);
  }

  lemma MulNonNegative(x: int, y: int)
    requires x >= 0 && y >= 0
    ensures x * y >= 0
  {
  }

  predicate IsDigit(c: char)
  {
    '0' <= c <= '9'
  }

  predicate AllDigits(s: string)
  {
    forall i :: 0 <= i < |s| ==> IsDigit(s[i])
  }

  function DigitChar(d: int): (c: char)
    requires 0 <= d < 10
    ensures IsDigit(c)
  {
    ('0' as int + d) as char
  }

  function DigitValue(c: char): (d: int)
    requires IsDigit(c)
    ensures 0 <= d < 10 && DigitChar(d) == c
  {
    c as int - '0' as int
  }

  /** The shortest decimal digits of `n`, most significant first. */
  function Digits(n: nat): (s: string)
    ensures |s| >= 1 && AllDigits(s)
    ensures s[|s| - 1] == DigitChar(n % 10)
    ensures |s| == 1 <==> n < 10
  {
    if n < 10 then [DigitChar(n)] else Digits(n / 10) + [DigitChar(n % 10)]
  }

  /** The number a digit string denotes (leading zeros allowed). */
  function DigitsValue(s: string): nat
    requires AllDigits(s)
  {
    if |s| == 0 then 0 else DigitsValue(s[..|s| - 1]) * 10 + DigitValue(s[|s| - 1])
  }

  /** QString::number for a signed integer: a `-` for negatives, then the
      digits without leading zeros. */
  function NumberToString(n: int): (s: string)
    ensures |s| >= 1
    ensures n >= 0 ==> AllDigits(s)
    ensures n < 0 ==> s[0] == '-' && |s| >= 2 && AllDigits(s[1..])
  {
    if n < 0 then "-" + Digits(-n) else Digits(n)
  }

  /** ASCII white space, which toLongLong skips at both ends. */
  predicate IsSpace(c: char)
  {
    c == ' ' || c == '\t' || c == '\n' || c == '\r' || c == '\U{B}' || c == '\U{C}'
  }

  function TrimSpaces(s: string): (t: string)
    ensures |t| > 0 ==> !IsSpace(t[0]) && !IsSpace(t[|t| - 1])
    decreases |s|
  {
    if |s| > 0 && IsSpace(s[0]) then TrimSpaces(s[1..])
    else if |s| > 0 && IsSpace(s[|s| - 1]) then TrimSpaces(s[..|s| - 1])
    else s
  }

  /** QString::toLongLong in base 10: surrounding white space is skipped,
      one optional sign, then at least one digit and nothing else; the
      conversion fails when the value leaves the 64-bit range. */
  function ParseLongLong(s: string): (r: Option<int>)
    ensures r.Some? ==> InInt64(r.value)
  {
    var t := TrimSpaces(s);
    if |t| == 0 then None
    else
      var body := if t[0] == '-' || t[0] == '+' then t[1..] else t;
      if |body| == 0 || !AllDigits(body) then None
      else
        var magnitude: int := DigitsValue(body);
        var v := if t[0] == '-' then -magnitude else magnitude;
        if InInt64(v) then Some(v) else None
  }

  /** The `qint64` toLongLong returns: 0 when the conversion fails. */
  function ToLongLong(s: string): int
  {
    ParseLongLong(s).GetOr(0)
  }

  lemma {:induction false} DigitsValueOfDigits(n: nat)
    ensures DigitsValue(Digits(n)) == n
  {
    if n >= 10 {
      DigitsValueOfDigits(n / 10);
      var s := Digits(n);
      assert s[..|s| - 1] == Digits(n / 10);
    }
  }

  /** Reading back what QString::number wrote gives the number again. */
  lemma {:induction false} NumberRoundTrip(n: int)
    requires InInt64(n)
    ensures ParseLongLong(NumberToString(n)) == Some(n)
    ensures ToLongLong(NumberToString(n)) == n
  {
    if n < 0 {
      NegativeRoundTrip(n);
    } else {
      NonNegativeRoundTrip(n);
    }
  }

  lemma {:induction false} NegativeRoundTrip(n: int)
    requires InInt64(n) && n < 0
    ensures ParseLongLong(NumberToString(n)) == Some(n)
  {
    var m: nat := -n;
    assert NumberToString(n) == "-" + Digits(m);
    DigitsValueOfDigits(m);
    ParseNegative(Digits(m));
  }

  lemma {:induction false} NonNegativeRoundTrip(n: int)
    requires InInt64(n) && n >= 0
    ensures ParseLongLong(NumberToString(n)) == Some(n)
  {
    assert NumberToString(n) == Digits(n);
    DigitsValueOfDigits(n);
    ParseUnsigned(Digits(n));
  }

  lemma {:induction false} TrimSpacesNoop(s: string)
    requires |s| > 0 && !IsSpace(s[0]) && !IsSpace(s[|s| - 1])
    ensures TrimSpaces(s) == s
  {
  }

  lemma {:induction false} ParseNegative(digits: string)
    requires |digits| >= 1 && AllDigits(digits)
    requires InInt64(-(DigitsValue(digits) as int))
    ensures ParseLongLong("-" + digits) == Some(-(DigitsValue(digits) as int))
  {
    var s := "-" + digits;
    TrimSpacesNoop(s);
    assert s[1..] == digits;
  }

  lemma {:induction false} ParseUnsigned(digits: string)
    requires |digits| >= 1 && AllDigits(digits)
    requires InInt64(DigitsValue(digits))
    ensures ParseLongLong(digits) == Some(DigitsValue(digits))
  {
    TrimSpacesNoop(digits);
  }

  /** Different numbers are written differently. */
  lemma {:induction false} NumberToStringInjective(a: int, b: int)
    requires InInt64(a) && InInt64(b)
    requires NumberToString(a) == NumberToString(b)
    ensures a == b
  {
    NumberRoundTrip(a);
    NumberRoundTrip(b);
  }
}
