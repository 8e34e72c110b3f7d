/** Conversion of a number token's text to a 64-bit float, as the parser's
    `json_number.parse::<f64>()` does (src/parser.rs:58). Which texts are accepted
    follows the grammar Rust documents for `f64::from_str`, applied to the
    lower-cased text:
      Float  ::= Sign? ( 'inf' | 'infinity' | 'nan' | Number )
      Number ::= ( Digit+ | Digit+ '.' Digit* | Digit* '.' Digit+ ) Exp?
      Exp    ::= 'e' Sign? Digit+
    The value of an accepted decimal is kept exact; rounding it to the nearest
    double is not modelled. */
module Float64 {
  import opened Wrappers

  /** A parsed float: a finite value, a signed infinity, or not-a-number. */
  datatype Float = Finite(r: real) | Infinite(negative: bool) | NaN

  predicate IsDigit(c: char) {
    '0' <= c <= '9'
  }

  predicate AllDigits(s: string) {
    forall k :: 0 <= k < |s| ==> IsDigit(s[k])
  }

  /** The natural number a run of decimal digits denotes. */
  function DigitsValue(s: string): nat
    requires AllDigits(s)
  {
    if s == [] then 0 else DigitsValue(s[..|s| - 1]) * 10 + (s[|s| - 1] as int - '0' as int)
  }

  /** `m` times ten to the power `e`, one factor of ten at a time. */
  function Scale(m: nat, e: int): real
    decreases if e >= 0 then e else -e
  {
    if e == 0 then m as real
    else if e > 0 then 10.0 * Scale(m, e - 1)
    else Scale(m, e + 1) / 10.0
  }

  function LowerChar(c: char): char {
    if 'A' <= c <= 'Z' then (c as int + 32) as char else c
  }

  /** `s` with every ASCII upper-case letter replaced by its lower-case form. */
  function LowerAscii(s: string): (r: string)
    ensures |r| == |s|
    ensures forall i :: 0 <= i < |s| ==> r[i] == LowerChar(s[i])
  {
    if s == [] then [] else [LowerChar(s[0])] + LowerAscii(s[1..])
  }

  /** Splits `s` at the first occurrence of `c`: the text before it and, if `c`
      occurs, the text after it. */
  function SplitAtFirst(s: string, c: char): (r: (string, Option<string>))
    ensures c !in r.0
    ensures r.1.None? ==> r.0 == s
    ensures r.1.Some? ==> s == r.0 + [c] + r.1.value
  {
    if s == [] then ([], None)
    else if s[0] == c then ([], Some(s[1..]))
    else
      var (before, after) := SplitAtFirst(s[1..], c);
      ([s[0]] + before, after)
  }

  /** Digits with at most one point and at least one digit: the digits as one
      integer and the count of digits after the point. */
  function ParseMantissa(s: string): Option<(nat, nat)> {
    var (whole, fraction) := SplitAtFirst(s, '.');
    var frac := if fraction.Some? then fraction.value else [];
    if AllDigits(whole) && AllDigits(frac) && |whole| + |frac| > 0 then
      Some((DigitsValue(whole + frac), |frac|))
    else None
  }

  /** An optional sign followed by at least one digit. */
  function ParseExponent(s: string): Option<int> {
    var negative := |s| > 0 && s[0] == '-';
    var digits := if |s| > 0 && (s[0] == '+' || s[0] == '-') then s[1..] else s;
    if |digits| > 0 && AllDigits(digits) then
      var magnitude: int := DigitsValue(digits);
      Some(if negative then -magnitude else magnitude)
    else None
  }

  /** An unsigned decimal of the Number rule, already lower-cased. */
  function ParseDecimal(s: string): Option<real> {
    var (mantissa, exponent) := SplitAtFirst(s, 'e');
    match ParseMantissa(mantissa)
    case None => None
    case Some((m, fractionDigits)) =>
      if exponent.None? then Some(Scale(m, 0 - fractionDigits))
      else
        match ParseExponent(exponent.value)
        case None => None
        case Some(e) => Some(Scale(m, e - fractionDigits))
  }

  /** The text without its leading sign, if it has one. */
  function Unsigned(s: string): string {
    if |s| > 0 && (s[0] == '+' || s[0] == '-') then s[1..] else s
  }

  /** The value of an unsigned, lower-cased float text. */
  function ParseMagnitude(body: string): Option<Float> {
    if body == "inf" || body == "infinity" then Some(Infinite(false))
    else if body == "nan" then Some(NaN)
    else
      match ParseDecimal(body)
      case None => None
      case Some(r) => Some(Finite(r))
  }

  function Negate(f: Float): Float {
    match f
    case Finite(r) => Finite(-r)
    case Infinite(negative) => Infinite(!negative)
    case NaN => NaN
  }

  /** The text's float, or None where Rust's conversion reports an error. The
      empty text is an error, and an infinity carries the text's sign. */
  function ParseF64(s: string): (r: Option<Float>)
    ensures r.Some? ==> |s| > 0
    ensures r.Some? && r.value.Infinite? ==> (r.value.negative <==> s[0] == '-')
  {
    match ParseMagnitude(LowerAscii(Unsigned(s)))
    case None => None
    case Some(f) => Some(if |s| > 0 && s[0] == '-' then Negate(f) else f)
  }

  /** The decimal digits of a natural number, most significant first. */
  function NatText(n: nat): (s: string)
    ensures |s| > 0 && AllDigits(s)
    ensures DigitsValue(s) == n
  {
    var last := ['0' + (n % 10) as char];
    if n < 10 then last
    else
      var prefix := NatText(n / 10);
      assert (prefix + last)[..|prefix + last| - 1] == prefix;
      prefix + last
  }

  /** The decimal text of an integer, with a leading minus when negative. */
  function IntText(i: int): string {
    if i < 0 then "-" + NatText(-i) else NatText(i)
  }

  /** Ten to the power `k`. */
  function Pow10(k: nat): (p: nat)
    ensures p > 0
  {
    if k == 0 then 1 else 10 * Pow10(k - 1)
  }

  predicate IsIntegral(x: real) {
    x == x.Floor as real
  }

  /** `n` divided by ten to the `k`. */
  function Decimal(n: int, k: nat): real {
    n as real / Pow10(k) as real
  }

  /** A real with a finite decimal expansion. */
  ghost predicate Terminating(x: real) {
    exists n: int, k: nat :: x == Decimal(n, k)
  }

  predicate AllZeros(z: string) {
    forall k :: 0 <= k < |z| ==> z[k] == '0'
  }

  function Zeros(k: nat): (z: string)
    ensures |z| == k && AllZeros(z) && AllDigits(z)
  {
    seq(k, _ => '0')
  }

  /** `m` divided by ten to the `k`, written with a decimal point and exactly
      `k` digits after it. */
  function PointDigits(m: nat, k: nat): (s: string)
    ensures |s| > 0
    ensures forall i :: 0 <= i < |s| ==> s[i] == '.' || IsDigit(s[i])
  {
    var digits := Zeros(k) + NatText(m);
    var point := |digits| - k;
    digits[..point] + "." + digits[point..]
  }

  /** `n` divided by ten to the `k` as a decimal, with a leading minus when
      `n` is negative. */
  function DecimalText(n: int, k: nat): (s: string)
    ensures |s| > 0
    ensures forall i :: 0 <= i < |s| ==> s[i] == '-' || s[i] == '.' || IsDigit(s[i])
  {
    if n < 0 then "-" + PointDigits(-n, k) else PointDigits(n, k)
  }

  lemma SplitAbsent(s: string, c: char)
    requires c !in s
    ensures SplitAtFirst(s, c) == (s, None)
  {
  }

  /** A plain run of digits is a decimal without point or exponent. */
  lemma DecimalDigits(d: string)
    requires |d| > 0 && AllDigits(d)
    ensures ParseDecimal(d) == Some(DigitsValue(d) as real)
  {
    assert 'e' !in d && '.' !in d;
    SplitAbsent(d, 'e');
    SplitAbsent(d, '.');
    assert d + [] == d;
    assert ParseMantissa(d) == Some((DigitsValue(d), 0));
  }

  lemma LowerDigits(d: string)
    requires AllDigits(d)
    ensures LowerAscii(d) == d
  {
  }

  /** Lower-casing leaves a text without upper-case letters as it is. */
  lemma LowerUnchanged(s: string)
    requires forall k :: 0 <= k < |s| ==> !('A' <= s[k] <= 'Z')
    ensures LowerAscii(s) == s
  {
  }

  /** A text that starts with a digit names neither infinity nor not-a-number. */
  lemma NotSpecial(d: string)
    requires |d| > 0 && IsDigit(d[0])
    ensures d != "inf" && d != "infinity" && d != "nan"
  {
  }

  lemma MagnitudeDigits(d: string)
    requires |d| > 0 && AllDigits(d)
    ensures LowerAscii(d) == d
    ensures ParseMagnitude(d) == Some(Finite(DigitsValue(d) as real))
  {
    LowerDigits(d);
    NotSpecial(d);
    DecimalDigits(d);
  }

  /** A run of digits converts to its integer... */
  lemma DigitsConvert(d: string)
    requires |d| > 0 && AllDigits(d)
    ensures ParseF64(d) == Some(Finite(DigitsValue(d) as real))
  {
    MagnitudeDigits(d);
    UnsignedDigits(d);
  }

  lemma UnsignedDigits(d: string)
    requires |d| > 0 && IsDigit(d[0])
    ensures Unsigned(d) == d
    ensures Unsigned("-" + d) == d
  {
    assert ("-" + d)[1..] == d;
  }

  /** ... and after a minus sign to its negation. */
  lemma NegativeDigitsConvert(d: string)
    requires |d| > 0 && AllDigits(d)
    ensures ParseF64("-" + d) == Some(Negate(Finite(DigitsValue(d) as real)))
  {
    MagnitudeDigits(d);
    UnsignedDigits(d);
    assert ("-" + d)[0] == '-';
  }

  /** The decimal text of every integer converts back to exactly that integer. */
  lemma IntTextRoundTrip(i: int)
    ensures ParseF64(IntText(i)) == Some(Finite(i as real))
  {
    var n: nat := if i < 0 then -i else i;
    if i < 0 {
      NegativeDigitsConvert(NatText(n));
      assert Negate(Finite(n as real)) == Finite(i as real);
    } else {
      DigitsConvert(NatText(n));
    }
  }

  /** Number texts of the source's tests: "20" is twenty, "4-.5" does not convert. */
  lemma NumberTextExamples()
    ensures ParseF64("20") == Some(Finite(20.0))
    ensures ParseF64("4-.5") == None
  {
    assert DigitsValue("20") == 20 by {
      assert "20"[..1] == "2";
    }
    DigitsConvert("20");
    BadNumberText();
  }

  lemma BadNumberText()
    ensures ParseF64("4-.5") == None
  {
    var body := "4-.5";
    LowerDigits("4");
    assert LowerAscii(body) == body by {
      assert body == "4" + "-.5";
    }
    assert Unsigned(body) == body;
    SplitAbsent(body, 'e');
    BadMantissa();
  }

  /** The text before the point, "4-", is not a run of digits. */
  lemma BadMantissa()
    ensures ParseMantissa("4-.5") == None
  {
    SplitPrefix("4-", ".5", '.');
    assert !IsDigit("4-"[1]);
  }

  /** Splitting at the first `c` past a prefix free of `c`. */
  lemma {:induction false} SplitPrefix(before: string, after: string, c: char)
    requires c !in before && after != [] && after[0] == c
    ensures SplitAtFirst(before + after, c) == (before, Some(after[1..]))
    decreases |before|
  {
    if before != [] {
      SplitPrefix(before[1..], after, c);
      assert (before + after)[1..] == before[1..] + after;
      assert [before[0]] + before[1..] == before;
    } else {
      assert before + after == after;
    }
  }

  /** Zeros in front of a run of digits do not change its value. */
  lemma {:induction false} LeadingZeros(z: string, d: string)
    requires AllZeros(z) && AllDigits(d)
    ensures AllDigits(z + d) && DigitsValue(z + d) == DigitsValue(d)
    decreases |z| + |d|
  {
    var zd := z + d;
    if d == [] {
      assert zd == z;
      if z != [] {
        var init := z[..|z| - 1];
        assert init + [] == init;
        LeadingZeros(init, []);
      }
    } else {
      assert zd[..|zd| - 1] == z + d[..|d| - 1];
      LeadingZeros(z, d[..|d| - 1]);
    }
  }

  /** Scaling down by `k` factors of ten divides by ten to the `k`. */
  lemma {:induction false} ScaleDown(m: nat, k: nat)
    ensures Scale(m, 0 - k) == m as real / Pow10(k) as real
    decreases k
  {
    if k > 0 {
      ScaleDown(m, k - 1);
      var p := Pow10(k - 1) as real;
      assert Pow10(k) as real == 10.0 * p;
      assert m as real / p / 10.0 == m as real / (10.0 * p);
    }
  }

  /** Scaling up by `e` factors of ten multiplies by ten to the `e`. */
  lemma {:induction false} ScaleUp(m: nat, e: nat)
    ensures Scale(m, e) == (m * Pow10(e)) as real
    decreases e
  {
    if e > 0 {
      ScaleUp(m, e - 1);
      assert m * Pow10(e) == 10 * (m * Pow10(e - 1));
    }
  }

  lemma DigitsJoin(a: string, b: string)
    requires AllDigits(a) && AllDigits(b)
    ensures AllDigits(a + b)
  {
    assert forall i :: |a| <= i < |a + b| ==> (a + b)[i] == b[i - |a|];
  }

  /** Digits, a point and more digits: only digits and the point, starting with a digit. */
  lemma PointText(whole: string, fraction: string)
    requires |whole| > 0 && AllDigits(whole) && AllDigits(fraction)
    ensures var body := whole + "." + fraction;
            IsDigit(body[0]) && forall i :: 0 <= i < |body| ==> body[i] == '.' || IsDigit(body[i])
  {
    var body := whole + "." + fraction;
    forall i | 0 <= i < |body| ensures body[i] == '.' || IsDigit(body[i]) {
      if i < |whole| {
        assert body[i] == whole[i];
      } else if i > |whole| {
        assert body[i] == fraction[i - |whole| - 1];
      }
    }
  }

  /** Digits, a point and more digits: the integer of all the digits scaled
      down by the count of digits after the point. */
  lemma PointDecimal(whole: string, fraction: string)
    requires |whole| > 0 && AllDigits(whole) && AllDigits(fraction)
    ensures AllDigits(whole + fraction)
    ensures ParseDecimal(whole + "." + fraction) == Some(Scale(DigitsValue(whole + fraction), 0 - |fraction|))
  {
    PointNoExponent(whole, fraction);
    PointSplit(whole, fraction);
    DigitsJoin(whole, fraction);
  }

  lemma PointNoExponent(whole: string, fraction: string)
    requires |whole| > 0 && AllDigits(whole) && AllDigits(fraction)
    ensures SplitAtFirst(whole + "." + fraction, 'e') == (whole + "." + fraction, None)
  {
    var body := whole + "." + fraction;
    PointText(whole, fraction);
    assert 'e' !in body by {
      assert forall i :: 0 <= i < |body| ==> body[i] != 'e';
    }
    SplitAbsent(body, 'e');
  }

  lemma PointSplit(whole: string, fraction: string)
    requires AllDigits(whole)
    ensures SplitAtFirst(whole + "." + fraction, '.') == (whole, Some(fraction))
  {
    assert '.' !in whole by {
      assert forall i :: 0 <= i < |whole| ==> IsDigit(whole[i]);
    }
    assert whole + "." + fraction == whole + ("." + fraction);
    SplitPrefix(whole, "." + fraction, '.');
    assert ("." + fraction)[1..] == fraction;
  }

  /** An unsigned text of digits and one point converts like a decimal. */
  lemma PointMagnitude(body: string, value: real)
    requires |body| > 0 && IsDigit(body[0])
    requires forall i :: 0 <= i < |body| ==> body[i] == '.' || IsDigit(body[i])
    requires ParseDecimal(body) == Some(value)
    ensures ParseF64(body) == Some(Finite(value))
  {
    UnsignedDigits(body);
    LowerUnchanged(body);
    NotSpecial(body);
  }

  /** A minus in front of a text that starts with a digit negates its value. */
  lemma NegativeText(body: string, x: real, y: real)
    requires |body| > 0 && IsDigit(body[0]) && ParseF64(body) == Some(Finite(x)) && y == -x
    ensures ParseF64("-" + body) == Some(Finite(y))
  {
    UnsignedDigits(body);
    assert ("-" + body)[0] == '-';
  }

  /** The digits of `m` with `k` zeros in front, split before their last `k`. */
  lemma PaddedDigits(m: nat, k: nat) returns (whole: string, fraction: string)
    ensures |whole| > 0 && AllDigits(whole) && AllDigits(fraction) && |fraction| == k
    ensures whole + fraction == Zeros(k) + NatText(m)
    ensures DigitsValue(whole + fraction) == m
  {
    var digits := Zeros(k) + NatText(m);
    LeadingZeros(Zeros(k), NatText(m));
    var point := |digits| - k;
    whole := digits[..point];
    fraction := digits[point..];
    SplitDigits(digits, point);
  }

  lemma SplitDigits(d: string, point: nat)
    requires AllDigits(d) && point <= |d|
    ensures AllDigits(d[..point]) && AllDigits(d[point..]) && d[..point] + d[point..] == d
  {
    assert forall i :: 0 <= i < point ==> d[..point][i] == d[i];
    assert forall i :: 0 <= i < |d| - point ==> d[point..][i] == d[point + i];
  }

  /** The decimal text of `n` over ten to the `k` converts back to exactly that value. */
  lemma DecimalTextRoundTrip(n: int, k: nat)
    ensures ParseF64(DecimalText(n, k)) == Some(Finite(Decimal(n, k)))
  {
    if n < 0 {
      var m: nat := -n;
      NegativeDecimal(n, m, k);
    } else {
      PointBody(n, k);
    }
  }

  lemma NegativeDecimal(n: int, m: nat, k: nat)
    requires n + m == 0 && m > 0
    ensures ParseF64(DecimalText(n, k)) == Some(Finite(Decimal(n, k)))
  {
    PointBody(m, k);
    DecimalNegate(n, m, k);
    NegativeText(PointDigits(m, k), Decimal(m, k), Decimal(n, k));
    assert DecimalText(n, k) == "-" + PointDigits(m, k);
  }

  /** The unsigned text of `m` over ten to the `k` starts with a digit and
      converts to that value. */
  lemma PointBody(m: nat, k: nat)
    ensures IsDigit(PointDigits(m, k)[0])
    ensures ParseF64(PointDigits(m, k)) == Some(Finite(Decimal(m, k)))
  {
    var whole, fraction := PaddedDigits(m, k);
    PointShape(m, k, whole, fraction);
    PointConverts(whole, fraction, m);
  }

  /** Digits, a point and `k` more digits, all of which denote `m`, convert
      to `m` over ten to the `k`. */
  lemma PointConverts(whole: string, fraction: string, m: nat)
    requires |whole| > 0 && AllDigits(whole) && AllDigits(fraction)
    requires AllDigits(whole + fraction) && DigitsValue(whole + fraction) == m
    ensures ParseF64(whole + "." + fraction) == Some(Finite(Decimal(m, |fraction|)))
  {
    PointDecimal(whole, fraction);
    ScaleDown(m, |fraction|);
    PointText(whole, fraction);
    PointMagnitude(whole + "." + fraction, Decimal(m, |fraction|));
  }

  lemma PointShape(m: nat, k: nat, whole: string, fraction: string)
    requires |fraction| == k && whole + fraction == Zeros(k) + NatText(m)
    ensures PointDigits(m, k) == whole + "." + fraction
  {
    var digits := Zeros(k) + NatText(m);
    var point := |digits| - k;
    assert digits[..point] == whole && digits[point..] == fraction;
  }

  /** Every finite value a number text converts to has a terminating decimal
      expansion. */
  lemma ConvertedTerminating(s: string)
    requires ParseF64(s).Some? && ParseF64(s).value.Finite?
    ensures Terminating(ParseF64(s).value.r)
  {
    var x := ConvertedDecimal(s);
    var n, k := DecimalTerminating(LowerAscii(Unsigned(s)), x);
    if |s| > 0 && s[0] == '-' {
      DecimalNegate(-n, n, k);
    }
  }

  /** A finite conversion is the decimal value of the unsigned, lower-cased
      text, negated for a leading minus sign. */
  lemma ConvertedDecimal(s: string) returns (x: real)
    requires ParseF64(s).Some? && ParseF64(s).value.Finite?
    ensures ParseDecimal(LowerAscii(Unsigned(s))) == Some(x)
    ensures ParseF64(s).value.r == if |s| > 0 && s[0] == '-' then -x else x
  {
    var f := ParseMagnitude(LowerAscii(Unsigned(s))).value;
    x := f.r;
  }

  lemma DecimalNegate(n: int, m: int, k: nat)
    requires n == -m
    ensures Decimal(n, k) == -Decimal(m, k)
  {
    var p := Pow10(k) as real;
    var q := m as real / p;
    assert q * p == m as real;
    assert (-q) * p == n as real;
    assert n as real / p == -q;
  }

  /** The value of a decimal text is an integer over a power of ten. */
  lemma DecimalTerminating(body: string, x: real) returns (n: int, k: nat)
    requires ParseDecimal(body) == Some(x)
    ensures x == Decimal(n, k)
  {
    var (mantissa, exponent) := SplitAtFirst(body, 'e');
    var (m, fractionDigits) := ParseMantissa(mantissa).value;
    var e := if exponent.None? then 0 - fractionDigits else ParseExponent(exponent.value).value - fractionDigits;
    assert x == Scale(m, e);
    n, k := ScaledDecimal(m, e);
  }

  /** `m` times any power of ten is an integer over a power of ten. */
  lemma ScaledDecimal(m: nat, e: int) returns (n: int, k: nat)
    ensures Scale(m, e) == Decimal(n, k)
  {
    if e >= 0 {
      ScaleUp(m, e);
      n, k := m * Pow10(e), 0;
      assert Pow10(0) == 1;
    } else {
      k := -e;
      n := m;
      ScaleDown(m, k);
      assert 0 - k == e;
    }
  }
}
