/**
 * Numbers written as text with one decimal, as the heater reports its set
 * points, and what `Number` and `parseFloat` read back from such text.
 */
module NumberText {
  import opened Text
  import opened Numbers

  /** The one-decimal value of the digits of `UnsignedTenthsText(a)`. */
  lemma TenthsValue(a: nat)
    ensures DecimalValue(NatText(a / 10), [DigitChar(a % 10)]) == a as real / 10.0
  {
    var q, r := a / 10, a % 10;
    var ip, fp := NatText(q), [DigitChar(r)];
    assert DigitsValue(ip) == q;
    assert fp[..0] == [];
    assert DigitsValue(fp) == r;
    assert Pow10(1) == 10;
    assert DecimalValue(ip, fp) == q as real + r as real / 10.0;
    assert a == 10 * q + r;
  }

  lemma DigitsNoSeparator(s: string, c: char)
    requires AllDigits(s) && !IsDigit(c)
    ensures c !in s
  {
  }

  lemma UnsignedOfTenthsText(a: nat)
    ensures UnsignedDecimal(UnsignedTenthsText(a)) == Val(a as real / 10.0)
  {
    var ip, fp := NatText(a / 10), [DigitChar(a % 10)];
    DigitsNoSeparator(ip, '.');
    DigitsNoSeparator(fp, '.');
    SplitAtSeparator(ip, fp, '.');
    SplitWithoutSeparator(ip, '.');
    SplitWithoutSeparator(fp, '.');
    assert UnsignedTenthsText(a) == ip + ['.'] + fp;
    TenthsValue(a);
  }

  lemma TenthsTextShape(k: int)
    ensures var a := if k < 0 then -k else k;
      && UnsignedTenthsText(a) != [] && IsDigit(UnsignedTenthsText(a)[0])
      && TenthsText(k) == (if k < 0 then "-" else "") + UnsignedTenthsText(a)
      && IsTrimmed(TenthsText(k))
  {
    var a := if k < 0 then -k else k;
    var ip, u := NatText(a / 10), UnsignedTenthsText(a);
    assert u == ip + "." + [DigitChar(a % 10)];
    assert u[0] == ip[0] && IsDigit(u[0]);
    assert u[|u| - 1] == DigitChar(a % 10);
    var t := TenthsText(k);
    assert t[|t| - 1] == u[|u| - 1];
  }

  /** `Number` of a trimmed, optionally negated unsigned text. */
  lemma NumberOfSigned(s: string, body: string, neg: bool)
    requires body != [] && IsDigit(body[0])
    requires s == (if neg then "-" else "") + body
    requires IsTrimmed(s)
    ensures JsNumber(s) == if neg then Negate(UnsignedDecimal(body)) else UnsignedDecimal(body)
  {
    TrimOfTrimmed(s);
    if neg {
      assert s[1..] == body;
    } else {
      assert s == body;
    }
  }

  lemma NumberOfUnsignedTenths(a: nat)
    ensures JsNumber(UnsignedTenthsText(a)) == Val(a as real / 10.0)
  {
    TenthsTextShape(a);
    assert TenthsText(a) == UnsignedTenthsText(a);
    UnsignedOfTenthsText(a);
    NumberOfSigned(UnsignedTenthsText(a), UnsignedTenthsText(a), false);
  }

  lemma NumberOfNegativeTenths(a: nat)
    requires a > 0
    ensures JsNumber("-" + UnsignedTenthsText(a)) == Val(-(a as real / 10.0))
  {
    TenthsTextShape(-(a as int));
    UnsignedOfTenthsText(a);
    NumberOfSigned("-" + UnsignedTenthsText(a), UnsignedTenthsText(a), true);
  }

  /** `Number` reads back exactly the value a one-decimal text was written from. */
  lemma {:induction false} NumberOfTenthsText(k: int)
    ensures JsNumber(TenthsText(k)) == Val(k as real / 10.0)
  {
    if k >= 0 {
      NumberOfUnsignedTenths(k);
      assert TenthsText(k) == UnsignedTenthsText(k);
    } else {
      NumberOfNegativeTenths(-k);
      assert TenthsText(k) == "-" + UnsignedTenthsText(-k);
      assert -((-k) as real / 10.0) == k as real / 10.0;
    }
  }

  /** `Number` of the decimal digits of a natural number, as the heater sends a power level. */
  lemma NumberOfNatText(n: nat)
    ensures JsNumber(NatText(n)) == Val(n as real)
  {
    var s := NatText(n);
    assert IsDigit(s[0]) && IsDigit(s[|s| - 1]);
    NumberOfSigned(s, s, false);
    DigitsNoSeparator(s, '.');
    SplitWithoutSeparator(s, '.');
    assert DecimalValue(s, []) == n as real;
  }

  /** The longest decimal prefix of an unsigned one-decimal text is the whole text. */
  lemma {:induction false} PrefixOfUnsignedTenths(a: nat, tail: string)
    requires tail == [] || !IsDigit(tail[0])
    ensures DecimalPrefix(UnsignedTenthsText(a) + tail) == Val(a as real / 10.0)
  {
    var ip, fp := NatText(a / 10), [DigitChar(a % 10)];
    var u := UnsignedTenthsText(a) + tail;
    assert u == ip + ("." + fp + tail);
    LeadingDigitsOf(ip, "." + fp + tail);
    assert u[..|ip|] == ip;
    var rest := u[|ip|..];
    assert rest == "." + fp + tail;
    assert rest[1..] == fp + tail;
    LeadingDigitsOf(fp, tail);
    assert (fp + tail)[..1] == fp;
    TenthsValue(a);
  }

  /** `parseFloat` of an optionally negated text that starts with a digit. */
  lemma ParseFloatOfSigned(s: string, body: string, neg: bool)
    requires body != [] && IsDigit(body[0])
    requires s == (if neg then "-" else "") + body
    ensures ParseFloat(s) == if neg then Negate(DecimalPrefix(body)) else DecimalPrefix(body)
  {
    assert s[0] == (if neg then '-' else body[0]);
    TrimStartOfNonSpace(s);
    if neg {
      assert s[1..] == body;
    } else {
      assert s == body;
      assert s[0] != '-' && s[0] != '+';
    }
  }

  lemma ParseFloatOfUnsignedTenths(a: nat, tail: string)
    requires tail == [] || !IsDigit(tail[0])
    ensures ParseFloat(UnsignedTenthsText(a) + tail) == Val(a as real / 10.0)
  {
    TenthsTextShape(a);
    PrefixOfUnsignedTenths(a, tail);
    var u := UnsignedTenthsText(a) + tail;
    ParseFloatOfSigned(u, u, false);
  }

  lemma ParseFloatOfNonNegativeText(k: int, tail: string)
    requires k >= 0
    requires tail == [] || !IsDigit(tail[0])
    ensures ParseFloat(TenthsText(k) + tail) == Val(k as real / 10.0)
  {
    ParseFloatOfUnsignedTenths(k, tail);
    assert TenthsText(k) + tail == UnsignedTenthsText(k) + tail;
  }

  lemma ParseFloatOfNegativeShape(k: int, tail: string)
    requires k < 0
    requires tail == [] || !IsDigit(tail[0])
    ensures ParseFloat(TenthsText(k) + tail) == Negate(DecimalPrefix(UnsignedTenthsText(-k) + tail))
  {
    var u := UnsignedTenthsText(-k) + tail;
    TenthsTextShape(k);
    assert TenthsText(k) + tail == ['-'] + u;
    ParseFloatOfSigned(TenthsText(k) + tail, u, true);
  }

  lemma NegatedPrefixOfTenths(k: int, tail: string)
    requires k < 0
    requires tail == [] || !IsDigit(tail[0])
    ensures Negate(DecimalPrefix(UnsignedTenthsText(-k) + tail)) == Val(k as real / 10.0)
  {
    PrefixOfUnsignedTenths(-k, tail);
  }

  lemma ParseFloatOfNegativeText(k: int, tail: string)
    requires k < 0
    requires tail == [] || !IsDigit(tail[0])
    ensures ParseFloat(TenthsText(k) + tail) == Val(k as real / 10.0)
  {
    ParseFloatOfNegativeShape(k, tail);
    NegatedPrefixOfTenths(k, tail);
  }

  /** `parseFloat` reads the value of a one-decimal text, and ignores whatever follows if it does not continue the number. */
  lemma {:induction false} ParseFloatOfTenthsText(k: int, tail: string)
    requires tail == [] || !IsDigit(tail[0])
    ensures ParseFloat(TenthsText(k) + tail) == Val(k as real / 10.0)
  {
    if k >= 0 {
      ParseFloatOfNonNegativeText(k, tail);
    } else {
      ParseFloatOfNegativeText(k, tail);
    }
  }

  lemma {:induction false} LeadingDigitsOf(ds: string, tail: string)
    requires AllDigits(ds)
    requires tail == [] || !IsDigit(tail[0])
    ensures LeadingDigits(ds + tail) == |ds|
  {
    if ds != [] {
      assert (ds + tail)[1..] == ds[1..] + tail;
      LeadingDigitsOf(ds[1..], tail);
    }
  }

  /** Rendered tenths are made of digits, one point and possibly a leading minus. */
  lemma TenthsTextAlphabet(k: int)
    ensures forall c :: c in TenthsText(k) ==> c == '-' || c == '.' || IsDigit(c)
  {
    var a := if k < 0 then -k else k;
    TenthsTextShape(k);
    var ip := NatText(a / 10);
    assert UnsignedTenthsText(a) == ip + "." + [DigitChar(a % 10)];
  }

  /** `Math.round(Number(t) * 10) / 10` of rendered tenths gives their value back. */
  lemma RoundedNumberOfTenthsText(k: int)
    ensures Round1(JsNumber(TenthsText(k))) == Val(k as real / 10.0)
  {
    NumberOfTenthsText(k);
    var x := k as real / 10.0;
    assert x * 10.0 == k as real;
    Round1OfTenth(x);
  }
}
