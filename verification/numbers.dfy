/** JavaScript's `parseFloat`, which the age rules apply to the trimmed age.
    The model reads the longest prefix that is a decimal literal and keeps
    its value as an exact real; binary floating-point rounding is not part
    of it. */
module Numbers {
  import Text

  /** What `parseFloat` returns: not-a-number, a finite value, or an
      infinity of either sign. */
  datatype Number = NaN | Finite(value: real) | Infinite(negative: bool)

  predicate IsDigit(c: char) {
    '0' <= c <= '9'
  }

  predicate AllDigits(s: string) {
    forall i :: 0 <= i < |s| ==> IsDigit(s[i])
  }

  /** The number of decimal digits `s` starts with. */
  function DigitRun(s: string): (k: nat)
    ensures k <= |s|
    ensures AllDigits(s[..k])
    ensures k < |s| ==> !IsDigit(s[k])
  {
    if |s| == 0 || !IsDigit(s[0]) then 0
    else
      var k' := DigitRun(s[1..]);
      assert s[1..][..k'] == s[1..k' + 1];
      1 + k'
  }

  /** The digit run of a string is fixed by where its first non-digit is. */
  lemma DigitRunUnique(s: string, k: nat)
    requires k <= |s| && AllDigits(s[..k]) && (k < |s| ==> !IsDigit(s[k]))
    ensures DigitRun(s) == k
  {
  }

  /** The value of a string of decimal digits, most significant first. */
  function DigitsValue(d: string): nat
    requires AllDigits(d)
  {
    if d == [] then 0
    else 10 * DigitsValue(d[..|d| - 1]) + (d[|d| - 1] as int - '0' as int)
  }

  function Pow10(n: nat): (p: nat)
    ensures p >= 1
  {
    if n == 0 then 1 else 10 * Pow10(n - 1)
  }

  /** `m` times ten to the power `e`, for an exponent of either sign. */
  function Scale(m: real, e: int): real {
    if e >= 0 then m * Pow10(e) as real else m / Pow10(-e) as real
  }

  /** The exponent part `s` starts with, if any: `e` or `E`, an optional
      sign and at least one digit. Returns the exponent, or 0 when `s` does
      not start with a complete exponent part (which `parseFloat` then
      leaves unread). */
  function ExponentPart(s: string): int {
    if |s| < 2 || (s[0] != 'e' && s[0] != 'E') then 0
    else
      var signLength := if s[1] == '+' || s[1] == '-' then 1 else 0;
      var digits := s[1 + signLength..];
      var n := DigitRun(digits);
      if n == 0 then 0
      else
        var magnitude: int := DigitsValue(digits[..n]);
        if s[1] == '-' then -magnitude else magnitude
  }

  /** After an optional sign, `t` starts the way a decimal literal or an
      infinity does. */
  predicate StartsNumeric(t: string) {
    || StartsUnsigned(t)
    || (|t| > 0 && (t[0] == '+' || t[0] == '-') && StartsUnsigned(t[1..]))
  }

  /** `u` starts with a digit, with a point followed by a digit, or with
      `Infinity`. */
  predicate StartsUnsigned(u: string) {
    || (|u| > 0 && IsDigit(u[0]))
    || (|u| > 1 && u[0] == '.' && IsDigit(u[1]))
    || "Infinity" <= u
  }

  /** JavaScript's `parseFloat`: skip leading whitespace, read an optional
      sign, then either `Infinity` or the longest decimal literal, and ignore
      the rest. Not-a-number exactly when no such prefix exists. */
  function ParseFloat(s: string): (n: Number)
    ensures n.NaN? <==> !StartsNumeric(Text.TrimStart(s))
  {
    var t := Text.TrimStart(s);
    if |t| > 0 && t[0] == '-' then Negate(ParseUnsigned(t[1..]))
    else if |t| > 0 && t[0] == '+' then ParseUnsigned(t[1..])
    else ParseUnsigned(t)
  }

  function Negate(n: Number): Number {
    match n
    case NaN => NaN
    case Finite(v) => Finite(-v)
    case Infinite(negative) => Infinite(!negative)
  }

  /** `parseFloat` after the sign: `Infinity`, or the longest decimal
      literal `u` starts with. */
  function ParseUnsigned(u: string): (n: Number)
    ensures n.NaN? <==> !StartsUnsigned(u)
  {
    if "Infinity" <= u then Infinite(false) else ParseDecimal(u)
  }

  /** The longest prefix of `u` made of integer digits, an optional point
      and fraction digits (at least one digit in all), and an optional
      exponent part; not-a-number when there is none. */
  function ParseDecimal(u: string): (n: Number)
    ensures n.NaN? <==> !((|u| > 0 && IsDigit(u[0])) || (|u| > 1 && u[0] == '.' && IsDigit(u[1])))
  {
    var intLength := DigitRun(u);
    if intLength < |u| && u[intLength] == '.' then ParseFraction(u, intLength)
    else if intLength == 0 then NaN
    else Finite(Scale(DigitsValue(u[..intLength]) as real, ExponentPart(u[intLength..])))
  }

  /** The decimal literal when `u` has `intLength` integer digits followed
      by a point: the fraction digits after the point, then the exponent. */
  function ParseFraction(u: string, intLength: nat): (n: Number)
    requires intLength < |u| && AllDigits(u[..intLength]) && u[intLength] == '.'
    ensures n.NaN? <==> intLength == 0 && !(intLength + 1 < |u| && IsDigit(u[intLength + 1]))
  {
    var fracStart := intLength + 1;
    var fracLength := DigitRun(u[fracStart..]);
    if intLength == 0 && fracLength == 0 then NaN
    else
      assert u[fracStart..][..fracLength] == u[fracStart..fracStart + fracLength];
      var whole := DigitsValue(u[..intLength]);
      var fraction := DigitsValue(u[fracStart..fracStart + fracLength]);
      var mantissa := whole as real + fraction as real / Pow10(fracLength) as real;
      Finite(Scale(mantissa, ExponentPart(u[fracStart + fracLength..])))
  }

  /** ECMAScript's less-than on numbers: never true when either side is
      not-a-number; negative infinity is below, and positive infinity above,
      every other value. */
  predicate Below(a: Number, b: Number) {
    if a.NaN? || b.NaN? then false
    else if a.Infinite? then a.negative && !(b.Infinite? && b.negative)
    else if b.Infinite? then !b.negative
    else a.value < b.value
  }

  /** JavaScript's `n >= bound`: false for not-a-number and for negative
      infinity, true for positive infinity. */
  predicate AtLeast(n: Number, bound: real): (r: bool)
    ensures r <==> !n.NaN? && !Below(n, Finite(bound))
  {
    match n
    case NaN => false
    case Finite(v) => v >= bound
    case Infinite(negative) => !negative
  }

  /** A run of digits followed by anything that cannot continue a decimal
      literal parses to the value of the digits: the rest is ignored, as
      `parseFloat("17abc")` is 17. */
  lemma ParseDigitsPrefix(d: string, rest: string)
    requires d != [] && AllDigits(d)
    requires rest == [] || (!IsDigit(rest[0]) && rest[0] != '.' && rest[0] != 'e' && rest[0] != 'E')
    ensures ParseFloat(d + rest) == Finite(DigitsValue(d) as real)
  {
    var s := d + rest;
    assert s[0] == d[0];
    assert Text.TrimStart(s) == s;
    DecimalDigitsPrefix(d, rest);
  }

  lemma DecimalDigitsPrefix(d: string, rest: string)
    requires d != [] && AllDigits(d)
    requires rest == [] || (!IsDigit(rest[0]) && rest[0] != '.' && rest[0] != 'e' && rest[0] != 'E')
    ensures ParseDecimal(d + rest) == Finite(DigitsValue(d) as real)
  {
    var s := d + rest;
    assert s[..|d|] == d;
    DigitRunUnique(s, |d|);
    assert s[|d|..] == rest;
    assert ExponentPart(rest) == 0;
    assert Pow10(0) == 1;
  }

  /** A string of digits parses to its decimal value. */
  lemma ParseDigits(d: string)
    requires d != [] && AllDigits(d)
    ensures ParseFloat(d) == Finite(DigitsValue(d) as real)
  {
    ParseDigitsPrefix(d, []);
    assert d + [] == d;
  }
}
