/**
 * Decimal numbers as text. `ParseFloat` is Python's `float(str)` on decimal
 * notation; `FormatNum` writes a number the way Python's `repr` writes a float
 * that holds an exact decimal of magnitude from 1e-4 up to 1e16 (at least one
 * fractional digit, no exponent); outside that range `repr` switches to
 * exponent notation and `FormatNum` does not.
 */
module Numbers {
  import opened Wrappers
  import opened Chars

  function DigitValue(c: char): nat
    requires IsDigit(c)
  {
    c as int - '0' as int
  }

  function DigitChar(d: nat): (c: char)
    requires d < 10
    ensures IsDigit(c) && DigitValue(c) == d
  {
    ('0' as int + d) as char
  }

  /** The value of a run of decimal digits, most significant first. */
  function DigitsValue(s: string): (n: nat)
    requires AllDigits(s)
  {
    if s == [] then 0 else 10 * DigitsValue(s[..|s| - 1]) + DigitValue(s[|s| - 1])
  }

  lemma DigitsValueSnoc(s: string, c: char)
    requires AllDigits(s) && IsDigit(c)
    ensures AllDigits(s + [c]) && DigitsValue(s + [c]) == 10 * DigitsValue(s) + DigitValue(c)
  {
    assert (s + [c])[..|s|] == s;
  }

  /** `x * 10^k`, one decimal place at a time. */
  function Shift(x: real, k: nat): real
  {
    if k == 0 then x else 10.0 * Shift(x, k - 1)
  }

  /** `y / 10^k`, one decimal place at a time. */
  function Unshift(y: real, k: nat): real
  {
    if k == 0 then y else Unshift(y, k - 1) / 10.0
  }

  /** The number written `whole.frac`. */
  function DecimalValue(whole: string, frac: string): real
    requires AllDigits(whole) && AllDigits(frac)
  {
    DigitsValue(whole) as real + Unshift(DigitsValue(frac) as real, |frac|)
  }

  /** The first position of `c` in `s`. */
  function IndexOf(s: string, c: char): (r: Option<nat>)
    ensures r.None? ==> c !in s
    ensures r.Some? ==> r.value < |s| && s[r.value] == c && c !in s[..r.value]
  {
    if s == [] then None
    else if s[0] == c then Some(0)
    else match IndexOf(s[1..], c)
      case None => None
      case Some(i) => Some(i + 1)
  }

  /** Unsigned decimal notation: digits with at most one '.', and at least one digit. */
  function ParseUnsigned(body: string): Option<real>
  {
    match IndexOf(body, '.')
    case None =>
      if |body| > 0 && AllDigits(body) then Some(DigitsValue(body) as real) else None
    case Some(d) =>
      var whole, frac := body[..d], body[d + 1..];
      if AllDigits(whole) && AllDigits(frac) && |whole| + |frac| > 0
      then Some(DecimalValue(whole, frac)) else None
  }

  function Negated(v: Option<real>): (r: Option<real>)
    ensures r.Some? <==> v.Some?
    ensures r.Some? ==> r.value == -v.value
  {
    match v
    case None => None
    case Some(x) => Some(-x)
  }

  /**
   * Python `float(s)` on decimal notation: surrounding whitespace, then an
   * optional sign, then unsigned decimal notation.
   */
  function ParseFloat(s: string): Option<real>
  {
    var t := Strip(s);
    if |t| > 0 && t[0] == '-' then Negated(ParseUnsigned(t[1..]))
    else if |t| > 0 && t[0] == '+' then ParseUnsigned(t[1..])
    else ParseUnsigned(t)
  }

  /** A run of digits reads back as its own value. */
  lemma ParseDigits(s: string)
    requires |s| > 0 && AllDigits(s)
    ensures ParseFloat(s) == Some(DigitsValue(s) as real)
  {
    assert !IsSpace(s[0]) && !IsSpace(s[|s| - 1]);
    assert Strip(s) == s;
    assert IndexOf(s, '.') == None;
  }

  /** Text that starts and ends with a digit is read without sign or padding. */
  lemma ParseDigitLed(s: string)
    requires |s| > 0 && IsDigit(s[0]) && IsDigit(s[|s| - 1])
    ensures ParseFloat(s) == ParseUnsigned(s)
  {
    assert !IsSpace(s[0]) && !IsSpace(s[|s| - 1]);
    var t := Strip(s);
    assert t == s;
    assert t[0] != '-' && t[0] != '+';
  }

  lemma ParseWholeDotFrac(whole: string, frac: string)
    requires |whole| > 0 && AllDigits(whole) && AllDigits(frac) && |frac| > 0
    ensures ParseUnsigned(whole + "." + frac) == Some(DecimalValue(whole, frac))
  {
    var s := whole + "." + frac;
    assert '.' !in whole;
    assert s[..|whole|] == whole;
    assert s[|whole|] == '.';
    assert IndexOf(s, '.') == Some(|whole|);
    assert s[|whole| + 1..] == frac;
  }

  /** The decimal digits of `n`, without leading zeros. */
  function NatToDigits(n: nat): (s: string)
    ensures |s| > 0 && AllDigits(s) && DigitsValue(s) == n
  {
    if n < 10 then
      DigitsValueSnoc([], DigitChar(n));
      [DigitChar(n)]
    else
      DigitsValueSnoc(NatToDigits(n / 10), DigitChar(n % 10));
      NatToDigits(n / 10) + [DigitChar(n % 10)]
  }

  /** `s` with zeros prepended until it is at least `n` digits long. */
  function LeftPad(s: string, n: nat): (r: string)
    requires AllDigits(s)
    ensures AllDigits(r) && |r| >= n && |r| >= |s|
    decreases n - |s|
  {
    if |s| >= n then s else LeftPad(['0'] + s, n)
  }

  lemma {:induction false} UnshiftAdd(a: real, b: real, k: nat)
    ensures Unshift(a + b, k) == Unshift(a, k) + Unshift(b, k)
  {
    if k > 0 {
      UnshiftAdd(a, b, k - 1);
    }
  }

  lemma {:induction false} UnshiftTen(y: real, k: nat)
    requires k >= 1
    ensures Unshift(10.0 * y, k) == Unshift(y, k - 1)
  {
    if k > 1 {
      UnshiftTen(y, k - 1);
    }
  }

  lemma {:induction false} UnshiftShift(x: real, k: nat)
    ensures Unshift(Shift(x, k), k) == x
  {
    if k > 0 {
      UnshiftTen(Shift(x, k - 1), k);
      UnshiftShift(x, k - 1);
    }
  }

  lemma {:induction false} ShiftNegate(x: real, k: nat)
    ensures Shift(-x, k) == -Shift(x, k)
  {
    if k > 0 {
      ShiftNegate(x, k - 1);
    }
  }

  /** Moving the decimal point `|frac|` places to the left of `whole ++ frac` gives `whole.frac`. */
  lemma {:induction false} DecimalValueJoin(whole: string, frac: string)
    requires AllDigits(whole) && AllDigits(frac)
    ensures AllDigits(whole + frac)
    ensures DecimalValue(whole, frac) == Unshift(DigitsValue(whole + frac) as real, |frac|)
    decreases |frac|
  {
    if frac == [] {
      assert whole + frac == whole;
    } else {
      var f', c := frac[..|frac| - 1], frac[|frac| - 1];
      assert frac == f' + [c];
      assert whole + frac == (whole + f') + [c];
      DecimalValueJoin(whole, f');
      DigitsValueSnoc(whole + f', c);
      DigitsValueSnoc(f', c);
      var k := |frac|;
      var a, b := DigitsValue(whole + f') as real, DigitsValue(f') as real;
      var d := DigitValue(c) as real;
      UnshiftAdd(10.0 * a, d, k);
      UnshiftTen(a, k);
      UnshiftAdd(10.0 * b, d, k);
      UnshiftTen(b, k);
    }
  }

  lemma {:induction false} LeftPadValue(s: string, n: nat)
    requires AllDigits(s)
    ensures DigitsValue(LeftPad(s, n)) == DigitsValue(s)
    decreases n - |s|
  {
    if |s| < n {
      LeadingZero(s);
      LeftPadValue(['0'] + s, n);
    }
  }

  lemma {:induction false} LeadingZero(s: string)
    requires AllDigits(s)
    ensures AllDigits(['0'] + s) && DigitsValue(['0'] + s) == DigitsValue(s)
    decreases |s|
  {
    if s != [] {
      var s', c := s[..|s| - 1], s[|s| - 1];
      assert ['0'] + s == (['0'] + s') + [c];
      LeadingZero(s');
      DigitsValueSnoc(['0'] + s', c);
    }
  }

  predicate IsIntegral(x: real) { x.Floor as real == x }

  /** A number with at most fifteen fractional decimal digits. */
  predicate IsExactDecimal(x: real) { IsIntegral(Shift(x, 15)) }

  /** The fewest fractional digits, from `k` up to fifteen, that write `x` exactly. */
  function FracLen(x: real, k: nat): (n: nat)
    requires 1 <= k <= 15
    ensures k <= n <= 15
    decreases 15 - k
  {
    if k == 15 || IsIntegral(Shift(x, k)) then k else FracLen(x, k + 1)
  }

  /** The digits of `m`, padded so that `k` fractional digits leave a whole part. */
  function Padded(m: nat, k: nat): (d: string)
    ensures AllDigits(d) && |d| >= k + 1
  {
    LeftPad(NatToDigits(m), k + 1)
  }

  /** The whole part of `m / 10^k` as digits. */
  function WholeDigits(m: nat, k: nat): (w: string)
    ensures |w| > 0 && AllDigits(w)
  {
    var d := Padded(m, k);
    d[..|d| - k]
  }

  /** The `k` fractional digits of `m / 10^k`. */
  function FracDigits(m: nat, k: nat): (f: string)
    ensures |f| == k && AllDigits(f)
  {
    var d := Padded(m, k);
    d[|d| - k..]
  }

  /** `m / 10^k` written with exactly `k >= 1` fractional digits. */
  function Render(m: nat, k: nat): (s: string)
    requires k >= 1
    ensures |s| > 0 && IsDigit(s[0]) && IsDigit(s[|s| - 1])
    ensures forall c :: c in s ==> IsDigit(c) || c == '.'
  {
    var whole, frac := WholeDigits(m, k), FracDigits(m, k);
    assert (whole + "." + frac)[|whole| + k] == frac[k - 1];
    whole + "." + frac
  }

  lemma RenderValue(m: nat, k: nat)
    ensures DecimalValue(WholeDigits(m, k), FracDigits(m, k)) == Unshift(m as real, k)
  {
    var d := Padded(m, k);
    assert d == WholeDigits(m, k) + FracDigits(m, k);
    DecimalValueJoin(WholeDigits(m, k), FracDigits(m, k));
    LeftPadValue(NatToDigits(m), k + 1);
  }

  lemma RenderParse(m: nat, k: nat)
    requires k >= 1
    ensures ParseFloat(Render(m, k)) == Some(Unshift(m as real, k))
  {
    ParseDigitLed(Render(m, k));
    ParseWholeDotFrac(WholeDigits(m, k), FracDigits(m, k));
    RenderValue(m, k);
  }

  function FormatNonNeg(x: real): (s: string)
    requires x >= 0.0
    ensures |s| > 0 && IsDigit(s[0]) && IsDigit(s[|s| - 1])
    ensures forall c :: c in s ==> IsDigit(c) || c == '.'
  {
    var k := FracLen(x, 1);
    ShiftNonNeg(x, k);
    Render(Shift(x, k).Floor, k)
  }

  lemma {:induction false} ShiftNonNeg(x: real, k: nat)
    requires x >= 0.0
    ensures Shift(x, k) >= 0.0
  {
    if k > 0 {
      ShiftNonNeg(x, k - 1);
    }
  }

  /**
   * `repr(x)` for a float holding an exact decimal with 1e-4 <= |x| < 1e16 (or
   * zero): sign, whole part, '.', fraction. Outside that range `repr` uses an
   * exponent and this positional form differs from it.
   */
  function FormatNum(x: real): (s: string)
    ensures forall c :: c in s ==> IsDigit(c) || c == '.' || c == '-'
  {
    if x < 0.0 then "-" + FormatNonNeg(-x) else FormatNonNeg(x)
  }

  lemma {:induction false} FracLenExact(x: real, k: nat)
    requires 1 <= k <= 15 && IsExactDecimal(x)
    ensures IsIntegral(Shift(x, FracLen(x, k)))
    decreases 15 - k
  {
    if k < 15 && !IsIntegral(Shift(x, k)) {
      FracLenExact(x, k + 1);
    }
  }

  lemma FormatNonNegRoundTrip(x: real)
    requires x >= 0.0 && IsExactDecimal(x)
    ensures ParseFloat(FormatNonNeg(x)) == Some(x)
  {
    var k := FracLen(x, 1);
    FracLenExact(x, 1);
    ShiftNonNeg(x, k);
    var m := Shift(x, k).Floor;
    RenderParse(m, k);
    UnshiftShift(x, k);
  }

  lemma ExactNegate(x: real)
    requires IsExactDecimal(x)
    ensures IsExactDecimal(-x)
  {
    ShiftNegate(x, 15);
    var y := Shift(x, 15);
    assert (-y).Floor == -(y.Floor);
  }

  /** A minus sign in front of digit-led text negates what the text reads as. */
  lemma ParseNegated(s: string)
    requires |s| > 0 && IsDigit(s[0]) && IsDigit(s[|s| - 1])
    ensures ParseFloat("-" + s) == Negated(ParseUnsigned(s))
  {
    var u := "-" + s;
    SignedStrip(s);
    assert u[1..] == s;
    assert ParseFloat(u) == Negated(ParseUnsigned(u[1..]));
  }

  lemma SignedStrip(s: string)
    requires |s| > 0 && IsDigit(s[|s| - 1])
    ensures Strip("-" + s) == "-" + s
  {
    var t := "-" + s;
    assert t[0] == '-' && t[|t| - 1] == s[|s| - 1];
  }

  /** Reading back a formatted exact decimal gives the same number. */
  lemma FormatRoundTrip(x: real)
    requires IsExactDecimal(x)
    ensures ParseFloat(FormatNum(x)) == Some(x)
  {
    if x < 0.0 {
      ExactNegate(x);
      FormatNonNegRoundTrip(-x);
      var s := FormatNonNeg(-x);
      ParseDigitLed(s);
      ParseNegated(s);
    } else {
      FormatNonNegRoundTrip(x);
    }
  }
}
