/** Python's `int(s)`, `float(s)` and `str(i)` on ASCII decimal text.
    `int` and `float` ignore surrounding whitespace and accept one sign;
    `float` also accepts a fraction and an exponent. */
module Numbers {
  import opened Wrappers
  import opened Text

  predicate IsDigit(c: char)
  {
    '0' <= c <= '9'
  }

  predicate AllDigits(s: string)
  {
    forall i :: 0 <= i < |s| ==> IsDigit(s[i])
  }

  function DigitValue(c: char): nat
    requires IsDigit(c)
  {
    c as int - '0' as int
  }

  function DigitChar(d: nat): (c: char)
    requires d < 10
    ensures IsDigit(c) && DigitValue(c) == d
  {
    ('0' as int + d) as char
  }

  /** Value of a run of decimal digits, most significant first. */
  function DigitsValue(s: string): nat
    requires AllDigits(s)
  {
    if |s| == 0 then 0 else 10 * DigitsValue(s[..|s| - 1]) + DigitValue(s[|s| - 1])
  }

  function Pow10(n: nat): (r: nat)
    ensures r >= 1
  {
    if n == 0 then 1 else 10 * Pow10(n - 1)
  }

  /** `(sign, rest)`: a leading `+` or `-` removed and its sign. */
  function SignOf(t: string): (r: (int, string))
    ensures r.0 == 1 || r.0 == -1
  {
    if |t| > 0 && t[0] == '-' then (-1, t[1..])
    else if |t| > 0 && t[0] == '+' then (1, t[1..])
    else (1, t)
  }

  /** `int(s)`: `None` stands for the `ValueError` Python raises. */
  function ParseInt(s: string): (r: Option<int>)
    ensures r.Some? <==> |SignOf(Strip(s)).1| > 0 && AllDigits(SignOf(Strip(s)).1)
  {
    var t := SignOf(Strip(s));
    if |t.1| > 0 && AllDigits(t.1) then Some(t.0 * DigitsValue(t.1)) else None
  }

  /** `float(s)` for `[sign] digits [. digits] [e [sign] digits]` with at
      least one mantissa digit; a plain digit run is read as an integer,
      which `DigitsAgree` shows is what the general reading gives. */
  function ParseFloat(s: string): (r: Option<real>)
    ensures ParseInt(s).Some? ==> r == Some(ParseInt(s).value as real)
  {
    var t := SignOf(Strip(s));
    if |t.1| > 0 && AllDigits(t.1) then
      var n := DigitsValue(t.1);
      SignedValue(t.0, n, n as real);
      Some(t.0 as real * n as real)
    else
      match Decimal(t.1)
      case Some(m) => Some(t.0 as real * m)
      case None => None
  }

  /** A sign times a magnitude is the same in integers and in reals. */
  lemma SignedValue(sign: int, n: nat, x: real)
    requires sign == 1 || sign == -1
    requires x == n as real
    ensures (sign * n) as real == sign as real * x
  {
    if sign == 1 {
      assert sign * n == n;
    } else {
      assert sign * n == -(n as int);
    }
  }

  /** `[digits] [. digits] [e [sign] digits]` with at least one mantissa
      digit: the mantissa digits over a power of ten for the fraction,
      scaled by the exponent. */
  function Decimal(body: string): Option<real>
  {
    var (mant, expo) := SplitExponent(body);
    var intPart := if '.' in mant then mant[..IndexOf(mant, '.')] else mant;
    var fracPart := if '.' in mant then mant[IndexOf(mant, '.') + 1..] else "";
    var e := ParseExponent(expo);
    if |intPart| + |fracPart| > 0 && AllDigits(intPart) && AllDigits(fracPart) && e.Some? then
      var m := DigitsValue(intPart + fracPart) as real / Pow10(|fracPart|) as real;
      Some(Scale10(m, e.value))
    else
      None
  }

  /** A plain digit run has no point and no exponent, so the general
      reading gives it its integer value: `ParseFloat` reads such a run
      directly. */
  lemma DigitsAgree(body: string)
    requires |body| > 0 && AllDigits(body)
    ensures Decimal(body) == Some(DigitsValue(body) as real)
  {
    NoSeparatorsInDigits(body);
    assert body + "" == body;
  }

  lemma NoSeparatorsInDigits(body: string)
    ensures AllDigits(body) ==> '.' !in body && 'e' !in body && 'E' !in body
  {
  }

  /** The mantissa and, when an `e` or `E` is present, the exponent text. */
  function SplitExponent(body: string): (string, Option<string>)
  {
    if 'e' in body then (body[..IndexOf(body, 'e')], Some(body[IndexOf(body, 'e') + 1..]))
    else if 'E' in body then (body[..IndexOf(body, 'E')], Some(body[IndexOf(body, 'E') + 1..]))
    else (body, None)
  }

  /** A missing exponent is 0; a present one is a signed digit run. */
  function ParseExponent(expo: Option<string>): Option<int>
  {
    match expo
    case None => Some(0)
    case Some(t) =>
      var (sign, digits) := SignOf(t);
      if |digits| > 0 && AllDigits(digits) then Some(sign * DigitsValue(digits)) else None
  }

  function Scale10(m: real, e: int): real
  {
    if e >= 0 then m * Pow10(e) as real else m / Pow10(-e) as real
  }

  function NatToString(n: nat): (s: string)
    ensures |s| > 0 && AllDigits(s)
    ensures DigitsValue(s) == n
  {
    if n < 10 then [DigitChar(n)]
    else
      var s := NatToString(n / 10) + [DigitChar(n % 10)];
      assert s[..|s| - 1] == NatToString(n / 10);
      s
  }

  /** `str(i)` for an integer. */
  function IntToString(i: int): string
  {
    if i < 0 then "-" + NatToString(-i) else NatToString(i)
  }

  /** Printing an integer and reading it back with `int()` is lossless. */
  lemma IntRoundTrip(i: int)
    ensures ParseInt(IntToString(i)) == Some(i)
  {
    var s := IntToString(i);
    var digits := NatToString(if i < 0 then -i else i);
    assert !IsSpace(digits[0]) && !IsSpace(digits[|digits| - 1]);
    StripOfSpaceFree(s);
    if i < 0 {
      assert s[1..] == digits;
    } else {
      assert !IsSpace(s[0]);
    }
  }
}
