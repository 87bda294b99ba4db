/** The part of `Double.parseDouble` that the exchange-rate feed exercises:
    an optionally signed decimal numeral, surrounded by trimmable characters.
 */
module Decimal {
  import opened Wrappers
  import opened Text

  function Pow10(n: nat): (r: nat)
    ensures r >= 1
  {
    if n == 0 then 1 else 10 * Pow10(n - 1)
  }

  function DigitValue(c: char): (r: nat)
    requires IsDigit(c)
    ensures r < 10
  {
    (c as int - '0' as int) as nat
  }

  /** The number a string of decimal digits denotes (most significant first). */
  function DigitsValue(s: string): (r: nat)
    requires AllDigits(s)
    ensures r < Pow10(|s|)
  {
    if |s| == 0 then 0
    else DigitsValue(s[..|s| - 1]) * 10 + DigitValue(s[|s| - 1])
  }

  /** The value of the digits after a decimal point: `0.d1d2...` is
      `(d1 + 0.d2...) / 10`. */
  function Fraction(s: string): (r: real)
    requires AllDigits(s)
    ensures 0.0 <= r < 1.0
  {
    if |s| == 0 then 0.0
    else (DigitValue(s[0]) as real + Fraction(s[1..])) / 10.0
  }

  /** The text `Double.parseDouble` accepts here, read character by
      character: only digits and points, at most one point, and at least one
      digit. */
  predicate DecimalNumeral(t: string) {
    && (forall k :: 0 <= k < |t| ==> IsDigit(t[k]) || t[k] == '.')
    && (forall i, j :: 0 <= i < j < |t| && t[i] == '.' ==> t[j] != '.')
    && (exists k :: 0 <= k < |t| && IsDigit(t[k]))
  }

  /** A decimal numeral, possibly behind one sign character. */
  predicate SignedNumeral(t: string) {
    DecimalNumeral(t) || (|t| > 0 && (t[0] == '-' || t[0] == '+') && DecimalNumeral(t[1..]))
  }

  /** An unsigned numeral: digits, optionally followed by a point and more
      digits, with at least one digit overall. */
  function ParseUnsigned(t: string): (r: Option<real>)
    ensures r.Some? ==> 0.0 <= r.value
  {
    match IndexOf(t, ".", 0)
    case None =>
      if |t| > 0 && AllDigits(t) then Some(DigitsValue(t) as real) else None
    case Some(i) =>
      var whole := t[..i];
      var frac := t[i + 1..];
      if (|whole| > 0 || |frac| > 0) && AllDigits(whole) && AllDigits(frac)
      then Some(DigitsValue(whole) as real + Fraction(frac))
      else None
  }

  /** `Double.parseDouble` restricted to plain decimal numerals; `None` is
      the NumberFormatException. */
  function ParseDouble(s: string): (r: Option<real>)
    ensures r.Some? ==> |Trim(s)| > 0
  {
    var t := Trim(s);
    if |t| > 0 && t[0] == '-' then
      match ParseUnsigned(t[1..])
      case None => None
      case Some(v) => Some(-v)
    else if |t| > 0 && t[0] == '+' then ParseUnsigned(t[1..])
    else ParseUnsigned(t)
  }

  /** No decimal point starts at a position holding a digit. */
  lemma NoPointAtDigit(t: string, j: nat)
    requires j < |t| && IsDigit(t[j])
    ensures !OccursAt(t, ".", j)
  {
    if j + 1 <= |t| {
      assert t[j..j + 1][0] == t[j];
    }
  }

  /** A string of digits holds no decimal point. */
  lemma NoPointInDigits(a: string)
    requires AllDigits(a)
    ensures IndexOf(a, ".", 0).None?
  {
    forall j: nat | j < |a|
      ensures !OccursAt(a, ".", j)
    {
      NoPointAtDigit(a, j);
    }
  }

  /** The first point in `whole + "." + frac` is the one written there. */
  lemma PointPosition(whole: string, frac: string)
    requires AllDigits(whole)
    ensures IndexOf(whole + "." + frac, ".", 0) == Some(|whole|)
  {
    var t := whole + "." + frac;
    assert t[|whole|..|whole| + 1] == ".";
    assert OccursAt(t, ".", |whole|);
    forall j: nat | j < |whole|
      ensures !OccursAt(t, ".", j)
    {
      assert t[j] == whole[j];
      NoPointAtDigit(t, j);
    }
  }

  /** A numeral that starts with a digit and has nothing to trim parses
      as its unsigned reading. */
  lemma {:induction false} ParseDoubleOfPlain(t: string)
    requires |t| > 0 && IsDigit(t[0]) && !IsTrimmed(t[|t| - 1])
    ensures ParseDouble(t) == ParseUnsigned(t)
  {
    assert !IsTrimmed(t[0]);
    var u := Trim(t);
    assert u == t;
    assert u[0] != '-' && u[0] != '+';
  }

  lemma {:induction false} ParseUnsignedNumeral(whole: string, frac: string)
    requires AllDigits(whole) && AllDigits(frac)
    requires |whole| > 0
    ensures ParseUnsigned(whole + "." + frac) == Some(DigitsValue(whole) as real + Fraction(frac))
  {
    var t := whole + "." + frac;
    PointPosition(whole, frac);
    assert t[..|whole|] == whole;
    assert t[|whole| + 1..] == frac;
  }

  /** Round trip: a numeral written as whole digits, a point and fraction
      digits parses to the value those digits denote. */
  lemma ParseNumeral(whole: string, frac: string)
    requires |whole| > 0 && AllDigits(whole) && AllDigits(frac)
    ensures ParseDouble(whole + "." + frac) == Some(DigitsValue(whole) as real + Fraction(frac))
  {
    var t := whole + "." + frac;
    assert t[0] == whole[0];
    assert !IsTrimmed(t[|t| - 1]) by {
      if |frac| > 0 {
        assert t[|t| - 1] == frac[|frac| - 1];
      } else {
        assert t[|t| - 1] == '.';
      }
    }
    ParseDoubleOfPlain(t);
    ParseUnsignedNumeral(whole, frac);
  }

  /** Round trip for a numeral without a point. */
  lemma ParseWholeNumeral(whole: string)
    requires |whole| > 0 && AllDigits(whole)
    ensures ParseDouble(whole) == Some(DigitsValue(whole) as real)
  {
    ParseDoubleOfPlain(whole);
    NoPointInDigits(whole);
  }

  /** Surrounding characters up to the space do not matter: parsing the
      trimmed text gives the same answer. */
  lemma {:induction false} ParseDoubleTrims(s: string)
    ensures ParseDouble(s) == ParseDouble(Trim(s))
  {
    var t := Trim(s);
    assert Trim(t) == t;
  }

  /** A leading sign in front of an untrimmed unsigned text: a minus
      negates its value, a plus keeps it. */
  lemma {:induction false} ParseSigned(sign: char, n: string)
    requires sign == '-' || sign == '+'
    requires |n| > 0 && !IsTrimmed(n[|n| - 1])
    ensures sign == '-' ==>
      (ParseDouble([sign] + n) == if ParseUnsigned(n).Some? then Some(-ParseUnsigned(n).value) else None)
    ensures sign == '+' ==> ParseDouble([sign] + n) == ParseUnsigned(n)
  {
    var m := [sign] + n;
    assert m[1..] == n && m[0] == sign && m[|m| - 1] == n[|n| - 1];
    assert Trim(m) == m;
  }

  /** A one-character slice is a point exactly when that character is. */
  lemma PointIff(t: string, k: nat)
    requires k < |t|
    ensures OccursAt(t, ".", k) <==> t[k] == '.'
  {
    assert t[k..k + 1] == [t[k]];
  }

  /** The unsigned reading succeeds exactly on decimal numerals: text with
      anything but digits and one point, or with no digit, is the
      NumberFormatException. */
  lemma {:induction false} ParseUnsignedIff(t: string)
    ensures ParseUnsigned(t).Some? <==> DecimalNumeral(t)
  {
    forall k: nat | k < |t|
      ensures OccursAt(t, ".", k) <==> t[k] == '.'
    {
      PointIff(t, k);
    }
    match IndexOf(t, ".", 0)
    case None =>
      assert forall k :: 0 <= k < |t| ==> t[k] != '.';
    case Some(i) =>
      var whole := t[..i];
      var frac := t[i + 1..];
      assert t[i] == '.';
      assert forall k :: 0 <= k < i ==> t[k] != '.';
      assert forall k :: 0 <= k < |whole| ==> whole[k] == t[k];
      assert forall k :: 0 <= k < |frac| ==> frac[k] == t[i + 1 + k];
      if ParseUnsigned(t).Some? {
        assert AllDigits(whole) && AllDigits(frac);
        forall k | 0 <= k < |t|
          ensures IsDigit(t[k]) || t[k] == '.'
        {
          if k < i {
            assert t[k] == whole[k];
          } else if k > i {
            assert t[k] == frac[k - i - 1];
          }
        }
        if |whole| > 0 {
          assert IsDigit(t[0]);
        } else {
          assert IsDigit(t[i + 1]);
        }
      }
      if DecimalNumeral(t) {
        assert forall k :: i < k < |t| ==> t[k] != '.';
        var k :| 0 <= k < |t| && IsDigit(t[k]);
        assert k != i;
      }
  }

  /** `Double.parseDouble` (as modelled) accepts exactly a signed decimal
      numeral once the text is trimmed; everything else is refused. */
  lemma {:induction false} ParseDoubleIff(s: string)
    ensures ParseDouble(s).Some? <==> SignedNumeral(Trim(s))
  {
    var t := Trim(s);
    ParseUnsignedIff(t);
    if |t| > 0 {
      ParseUnsignedIff(t[1..]);
      if t[0] == '-' || t[0] == '+' {
        assert !DecimalNumeral(t) by {
          assert !IsDigit(t[0]) && t[0] != '.';
        }
      }
    }
  }
}
