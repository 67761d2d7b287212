/**
 * JavaScript numbers as the accessory uses them: exact decimal values or NaN
 * (binary floating point is not modelled), the conversions `Number(text)` and
 * `parseFloat(text)`, the one-decimal rounding `Math.round(x * 10) / 10`, and
 * the comparisons, in which NaN is never equal, smaller or greater.
 */
module Numbers {
  import opened Text

  datatype Num = Val(v: real) | NaN

  /** `a == b` (and `a === b`) on numbers: NaN equals nothing, itself included. */
  predicate Eq(a: Num, b: Num) { a.Val? && b.Val? && a.v == b.v }
  predicate Lt(a: Num, b: Num) { a.Val? && b.Val? && a.v < b.v }
  predicate Le(a: Num, b: Num) { a.Val? && b.Val? && a.v <= b.v }
  predicate Gt(a: Num, b: Num) { a.Val? && b.Val? && a.v > b.v }

  function Add(a: Num, b: Num): Num { if a.Val? && b.Val? then Val(a.v + b.v) else NaN }
  function Sub(a: Num, b: Num): Num { if a.Val? && b.Val? then Val(a.v - b.v) else NaN }

  predicate IsDigit(c: char) { '0' <= c <= '9' }
  predicate AllDigits(s: string) { forall i :: 0 <= i < |s| ==> IsDigit(s[i]) }

  function DigitValue(c: char): nat
    requires IsDigit(c)
  {
    c as int - '0' as int
  }

  function DigitChar(d: nat): (c: char)
    requires d < 10
    ensures IsDigit(c) && DigitValue(c) == d
  {
    ('0' as int + d) as char
  }

  /** The value of a string of decimal digits, most significant first. */
  function DigitsValue(s: string): nat
    requires AllDigits(s)
  {
    if s == [] then 0 else DigitsValue(s[..|s| - 1]) * 10 + DigitValue(s[|s| - 1])
  }

  function Pow10(k: nat): (p: nat)
    ensures p >= 1
  {
    if k == 0 then 1 else 10 * Pow10(k - 1)
  }

  /** The value of an unsigned decimal `ip.fp`. */
  function DecimalValue(ip: string, fp: string): real
    requires AllDigits(ip) && AllDigits(fp)
  {
    DigitsValue(ip) as real + DigitsValue(fp) as real / Pow10(|fp|) as real
  }

  /**
   * `Number(s)`: white space around the text is ignored, blank text is 0, and
   * otherwise the text must be an optional sign followed by digits with at
   * most one decimal point and at least one digit; anything else is NaN.
   */
  function JsNumber(s: string): (r: Num)
    ensures Trim(s) == [] ==> r == Val(0.0)
    ensures var t := Trim(s); t != [] && !IsDigit(t[0]) && t[0] !in "+-." ==> r.NaN?
  {
    var t := Trim(s);
    if t == [] then Val(0.0)
    else if t[0] == '-' then Negate(UnsignedDecimal(t[1..]))
    else if t[0] == '+' then UnsignedDecimal(t[1..])
    else UnsignedDecimal(t)
  }

  function Negate(n: Num): Num { if n.Val? then Val(-n.v) else NaN }

  /** Digits with at most one decimal point and at least one digit, or NaN. */
  function UnsignedDecimal(body: string): (r: Num)
    ensures body != [] && !IsDigit(body[0]) && body[0] != '.' ==> r.NaN?
  {
    var parts := Split(body, '.');
    var ip := parts[0];
    assert body != [] && body[0] != '.' ==> ip != [] && ip[0] == body[0];
    var fp := if |parts| == 2 then parts[1] else [];
    if |parts| <= 2 && AllDigits(ip) && AllDigits(fp) && (ip != [] || fp != []) then
      Val(DecimalValue(ip, fp))
    else
      NaN
  }

  /** The number of leading decimal digits of `s`. */
  function LeadingDigits(s: string): (n: nat)
    ensures n <= |s| && AllDigits(s[..n])
    ensures n < |s| ==> !IsDigit(s[n])
  {
    if s != [] && IsDigit(s[0]) then
      var n := 1 + LeadingDigits(s[1..]);
      assert forall i :: 1 <= i < n ==> s[..n][i] == s[1..][..n - 1][i - 1];
      n
    else 0
  }

  /**
   * `parseFloat(s)`: leading white space is skipped, then the longest prefix
   * of the form sign, digits, point, digits is read; NaN if it holds no digit.
   */
  function ParseFloat(s: string): (r: Num)
    ensures var t := TrimStart(s); t == [] || (!IsDigit(t[0]) && t[0] !in "+-.") ==> r.NaN?
  {
    var t := TrimStart(s);
    if t != [] && t[0] == '-' then Negate(DecimalPrefix(t[1..]))
    else if t != [] && t[0] == '+' then DecimalPrefix(t[1..])
    else DecimalPrefix(t)
  }

  /** The value of the longest prefix of the form digits, point, digits; NaN if it holds no digit. */
  function DecimalPrefix(body: string): Num
  {
    var n := LeadingDigits(body);
    var ip := body[..n];
    var rest := body[n..];
    var fp := if rest != [] && rest[0] == '.' then rest[1..][..LeadingDigits(rest[1..])] else [];
    if ip == [] && fp == [] then NaN else Val(DecimalValue(ip, fp))
  }

  /** A value with at most one decimal. */
  predicate IsTenth(x: real) { (x * 10.0).Floor as real == x * 10.0 }

  /** `Math.round(x * 10) / 10`: the nearest value with one decimal, halves rounded upward. */
  function Round1(n: Num): (r: Num)
    ensures r.Val? <==> n.Val?
    ensures n.Val? ==> n.v - 0.05 < r.v <= n.v + 0.05
    ensures n.Val? ==> IsTenth(r.v)
  {
    match n
    case NaN => NaN
    case Val(x) => Val((x * 10.0 + 0.5).Floor as real / 10.0)
  }

  /** Rounding a value that already has one decimal leaves it alone. */
  lemma Round1OfTenth(x: real)
    requires IsTenth(x)
    ensures Round1(Val(x)) == Val(x)
  {
    var k := (x * 10.0).Floor;
    assert (x * 10.0 + 0.5).Floor == k;
  }

  /** Decimal digits of a natural number, without leading zeros. */
  function NatText(n: nat): (s: string)
    ensures s != [] && AllDigits(s) && DigitsValue(s) == n
  {
    var last := [DigitChar(n % 10)];
    if n < 10 then last
    else
      var s := NatText(n / 10) + last;
      assert s[..|s| - 1] == NatText(n / 10);
      s
  }

  /** The text the heater sends for a value in tenths of a degree, `21.5` or `-3.0`. */
  function TenthsText(k: int): string
  {
    if k < 0 then ['-'] + UnsignedTenthsText(-k) else UnsignedTenthsText(k)
  }

  function UnsignedTenthsText(a: nat): string
  {
    NatText(a / 10) + "." + [DigitChar(a % 10)]
  }
}
