/**
 * Quality values: the text of a `q` parameter read as an exact decimal
 * (the part of Float.parseFloat that plain decimals exercise) and its
 * conversion `(int) (q * 1000)` to an integer quality.
 */
module QValues {
  import opened Wrappers
  import opened Strings

  /** Integer.MAX_VALUE and Integer.MIN_VALUE, where a float-to-int cast saturates. */
  const IntMax: int := 0x7fff_ffff
  const IntMin: int := -0x8000_0000

  predicate IsDigit(c: char) {
    '0' <= c <= '9'
  }

  predicate IsDigits(s: string) {
    forall i :: 0 <= i < |s| ==> IsDigit(s[i])
  }

  function Pow10(n: nat): (r: nat)
    ensures r >= 1
  {
    if n == 0 then 1 else 10 * Pow10(n - 1)
  }

  lemma {:induction false} Pow10Add(a: nat, b: nat)
    ensures Pow10(a + b) == Pow10(a) * Pow10(b)
  {
    if a > 0 {
      Pow10Add(a - 1, b);
      assert Pow10(a + b) == 10 * Pow10(a - 1 + b);
    }
  }

  /** The number a string of decimal digits denotes, most significant first. */
  function DigitsValue(s: string): (r: nat)
    requires IsDigits(s)
    ensures r < Pow10(|s|)
  {
    if s == [] then 0 else 10 * DigitsValue(s[..|s| - 1]) + (s[|s| - 1] as int - '0' as int)
  }

  /** `x` divided by 10 `k` times: the value of `k` digits after the decimal point. */
  function Shift(x: real, k: nat): (r: real)
    ensures x >= 0.0 ==> r >= 0.0
  {
    if k == 0 then x else Shift(x, k - 1) / 10.0
  }

  /** The value of `whole.frac` for two digit strings. */
  function DecimalValue(whole: string, frac: string): (r: real)
    requires IsDigits(whole) && IsDigits(frac)
    ensures r >= 0.0
  {
    DigitsValue(whole) as real + Shift(DigitsValue(frac) as real, |frac|)
  }

  /**
   * An unsigned decimal as Float.parseFloat accepts it without exponent or
   * suffix: digits and at most one `.`, with at least one digit.
   */
  predicate IsUnsignedDecimal(s: string) {
    && s != [] && s != "."
    && (forall i :: 0 <= i < |s| ==> IsDigit(s[i]) || s[i] == '.')
    && (forall i, j :: 0 <= i < j < |s| && s[i] == '.' ==> s[j] != '.')
  }

  /** The exact value of an unsigned decimal `whole.fraction`, either part possibly empty. */
  function ParseUnsigned(s: string): (r: Option<real>)
    ensures r.Some? ==> r.value >= 0.0
  {
    match IndexOf(s, '.')
    case None =>
      if s != [] && IsDigits(s) then Some(DigitsValue(s) as real) else None
    case Some(i) =>
      if |s| > 1 && IsDigits(s[..i]) && IsDigits(s[i + 1..]) then
        Some(DecimalValue(s[..i], s[i + 1..]))
      else None
  }

  /** Float.parseFloat on a decimal with an optional sign; anything else is a NumberFormatException. */
  function ParseDecimal(s: string): (r: Option<real>)
  {
    if s != [] && (s[0] == '+' || s[0] == '-') then
      match ParseUnsigned(s[1..])
      case None => None
      case Some(x) => Some(if s[0] == '-' then -x else x)
    else ParseUnsigned(s)
  }

  /** ParseUnsigned accepts exactly the unsigned decimals. */
  lemma ParseUnsignedAccepts(s: string)
    ensures ParseUnsigned(s).Some? <==> IsUnsignedDecimal(s)
  {
    match IndexOf(s, '.')
    case None =>
    case Some(i) =>
      if IsUnsignedDecimal(s) {
        assert IsDigits(s[..i]) by {
          forall k | 0 <= k < i
            ensures IsDigit(s[..i][k])
          {
            assert s[..i][k] == s[k];
          }
        }
        var frac := s[i + 1..];
        assert IsDigits(frac) by {
          forall k | 0 <= k < |frac|
            ensures IsDigit(frac[k])
          {
            assert frac[k] == s[i + 1 + k];
          }
        }
      }
      if |s| > 1 && IsDigits(s[..i]) && IsDigits(s[i + 1..]) {
        forall k | 0 <= k < |s|
          ensures IsDigit(s[k]) || s[k] == '.'
        {
          if k < i {
            assert s[k] == s[..i][k];
          } else if k > i {
            assert s[k] == s[i + 1..][k - i - 1];
          }
        }
        forall k, l | 0 <= k < l < |s| && s[k] == '.'
          ensures s[l] != '.'
        {
          if k == i {
            assert s[i + 1..][l - i - 1] == s[l];
          }
        }
      }
  }

  /** A leading sign negates; otherwise the value is unsigned. */
  lemma ParseDecimalSign(s: string)
    requires ParseUnsigned(s).Some?
    ensures ParseDecimal(s) == ParseUnsigned(s)
    ensures ParseDecimal(['+'] + s) == ParseUnsigned(s)
    ensures ParseDecimal(['-'] + s) == Some(-ParseUnsigned(s).value)
  {
    assert s[0] != '+' && s[0] != '-' by {
      ParseUnsignedAccepts(s);
    }
    assert (['+'] + s)[1..] == s;
    assert (['-'] + s)[1..] == s;
  }

  /** A `(int)` cast of a float: truncation toward zero. */
  function Truncate(y: real): (r: int)
    ensures y >= 0.0 ==> r >= 0 && r as real <= y < r as real + 1.0
    ensures y < 0.0 ==> r <= 0 && r as real - 1.0 < y <= r as real
  {
    if y >= 0.0 then y.Floor else -((-y).Floor)
  }

  /**
   * `(int) (q * 1000)`: the quality in thousandths, truncated toward zero
   * and saturated at the int range.
   */
  function Quality(q: real): (r: int)
    ensures IntMin <= r <= IntMax
    ensures r == Truncate(q * 1000.0) || (r == IntMax && q * 1000.0 >= IntMax as real)
                                      || (r == IntMin && q * 1000.0 <= IntMin as real)
  {
    var t := Truncate(q * 1000.0);
    if t > IntMax then IntMax else if t < IntMin then IntMin else t
  }

  /** A higher q value never gives a lower quality. */
  lemma QualityMonotonic(a: real, b: real)
    requires a <= b
    ensures Quality(a) <= Quality(b)
  {
    var x, y := a * 1000.0, b * 1000.0;
    assert x <= y;
    if 0.0 <= x {
      assert x.Floor <= y.Floor;
    } else if y < 0.0 {
      assert (-y).Floor <= (-x).Floor;
    }
  }

  /** q values within the range the standard allows give qualities from 0 to 1000. */
  lemma QualityInUnitRange(q: real)
    requires 0.0 <= q <= 1.0
    ensures 0 <= Quality(q) <= 1000
  {
    QualityMonotonic(q, 1.0);
    QualityMonotonic(0.0, q);
    assert Truncate(1000.0) == 1000;
  }

  /** A value that is a whole number of thousandths converts to exactly that number. */
  lemma QualityOfMillis(x: real, n: int)
    requires x * 1000.0 == n as real && IntMin <= n <= IntMax
    ensures Quality(x) == n
  {
  }

  lemma ShiftThousand(f: nat, k: nat)
    requires k <= 3
    ensures Shift(f as real, k) * 1000.0 == (f * Pow10(3 - k)) as real
  {
    var x := f as real;
    assert Shift(x, 1) == x / 10.0;
    assert Shift(x, 2) == Shift(x, 1) / 10.0;
    assert Shift(x, 3) == Shift(x, 2) / 10.0;
    assert Pow10(1) == 10 && Pow10(2) == 100 && Pow10(3) == 1000;
  }

  lemma ParseUnsignedAt(s: string, dot: nat, whole: string, frac: string)
    requires IndexOf(s, '.') == Some(dot) && |s| > 1
    requires s[..dot] == whole && s[dot + 1..] == frac && IsDigits(whole) && IsDigits(frac)
    ensures ParseUnsigned(s) == Some(DecimalValue(whole, frac))
  {
  }

  lemma LayoutDecimal(s: string, whole: string, frac: string) returns (dot: nat)
    requires s == whole + ['.'] + frac && IsDigits(whole)
    ensures IndexOf(s, '.') == Some(dot) && s[..dot] == whole && s[dot + 1..] == frac
  {
    dot := |whole|;
    IndexOfAfter(whole, '.', frac);
  }

  /** The value of `whole.fraction` when both parts are digit strings. */
  lemma ParseUnsignedParts(whole: string, frac: string)
    requires IsDigits(whole) && IsDigits(frac) && |whole| + |frac| > 0
    ensures ParseUnsigned(whole + ['.'] + frac) == Some(DecimalValue(whole, frac))
  {
    var s := whole + ['.'] + frac;
    var dot := LayoutDecimal(s, whole, frac);
    ParseUnsignedAt(s, dot, whole, frac);
  }

  /**
   * A q value written with at most three fractional digits converts to its
   * exact number of thousandths: `.3` is 300, `0.25` is 250, `1` is 1000.
   */
  lemma QualityOfShortFraction(whole: string, frac: string)
    requires IsDigits(whole) && IsDigits(frac) && |whole| + |frac| > 0 && |frac| <= 3
    requires DigitsValue(whole) * 1000 + DigitsValue(frac) * Pow10(3 - |frac|) <= IntMax
    ensures ParseDecimal(whole + ['.'] + frac).Some?
    ensures Quality(ParseDecimal(whole + ['.'] + frac).value)
         == DigitsValue(whole) * 1000 + DigitsValue(frac) * Pow10(3 - |frac|)
  {
    var w, f := DigitsValue(whole), DigitsValue(frac);
    var n := w * 1000 + f * Pow10(3 - |frac|);
    var x := w as real + Shift(f as real, |frac|);
    ParseUnsignedParts(whole, frac);
    assert DecimalValue(whole, frac) == x;
    ParseDecimalSign(whole + ['.'] + frac);
    ShiftThousand(f, |frac|);
    assert x * 1000.0 == n as real;
    QualityOfMillis(x, n);
  }
}
