/** Amounts: the `^\d+(\.\d{1,2})?$` format shared by the server's custom validator and the
    client form, the positivity tests of express-validator's `isFloat({ gt: 0 })` and of
    `parseFloat(x) > 0`, and the part of BSON's Decimal128 that amounts pass through
    (`Decimal128.fromString` and `toString`). */
module Amount {
  import opened JsText

  predicate IsDigit(c: char)
  {
    '0' <= c <= '9'
  }

  predicate AllDigits(s: string)
  {
    forall i :: 0 <= i < |s| ==> IsDigit(s[i])
  }

  predicate HasNonZeroDigit(s: string)
  {
    exists i :: 0 <= i < |s| && '1' <= s[i] <= '9'
  }

  /** Length of the run of digits that starts at index `i`. */
  function DigitRun(s: string, i: nat): (n: nat)
    requires i <= |s|
    ensures i + n <= |s| && AllDigits(s[i..i + n])
    ensures i + n == |s| || !IsDigit(s[i + n])
    decreases |s| - i
  {
    if i < |s| && IsDigit(s[i]) then
      var n := 1 + DigitRun(s, i + 1);
      assert s[i..i + n] == [s[i]] + s[i + 1..i + n];
      n
    else 0
  }

  /** `/^\d+(\.\d{1,2})?$/.test(s)`. */
  predicate AmountFormat(s: string)
  {
    var n := DigitRun(s, 0);
    n > 0 && (n == |s| || (s[n] == '.' && 2 <= |s| - n <= 3 && AllDigits(s[n + 1..])))
  }

  /** The same format read as a grammar: digits, optionally followed by a point and one or
      two digits. */
  predicate SplitsAsAmount(s: string, whole: string, fraction: string)
  {
    && |whole| > 0 && AllDigits(whole) && AllDigits(fraction) && |fraction| <= 2
    && (if fraction == [] then s == whole else s == whole + "." + fraction)
  }

  lemma AmountFormatIsGrammar(s: string)
    ensures AmountFormat(s) <==> exists w, f :: SplitsAsAmount(s, w, f)
  {
    if AmountFormat(s) {
      var n := DigitRun(s, 0);
      if n == |s| {
        assert SplitsAsAmount(s, s, []);
      } else {
        assert s == s[..n] + "." + s[n + 1..];
        assert SplitsAsAmount(s, s[..n], s[n + 1..]);
      }
    }
    if exists w, f :: SplitsAsAmount(s, w, f) {
      var w, f :| SplitsAsAmount(s, w, f);
      WholeRun(s, w, f);
    }
  }

  lemma WholeRun(s: string, w: string, f: string)
    requires SplitsAsAmount(s, w, f)
    ensures DigitRun(s, 0) == |w| && AmountFormat(s)
  {
    var n := DigitRun(s, 0);
    assert forall i :: 0 <= i < |w| ==> s[i] == w[i];
    if f != [] {
      assert s[|w|] == '.';
      assert s[n + 1..] == f;
    }
  }

  /** Whether the leading sign of a number literal, if any, is a minus. */
  function SignLength(s: string): (n: nat)
    ensures n <= |s|
  {
    if |s| > 0 && (s[0] == '+' || s[0] == '-') then 1 else 0
  }

  predicate Negative(s: string)
  {
    |s| > 0 && s[0] == '-'
  }

  /** End of the mantissa `digits [ "." digits ]` that starts at `start`. */
  function MantissaEnd(s: string, start: nat): (e: nat)
    requires start <= |s|
    ensures start <= e <= |s|
  {
    var i := start + DigitRun(s, start);
    if i < |s| && s[i] == '.' then i + 1 + DigitRun(s, i + 1) else i
  }

  /** The mantissa holds at least one digit (otherwise the literal is not a number). */
  predicate MantissaHasDigit(s: string, start: nat)
    requires start <= |s|
  {
    exists i :: start <= i < MantissaEnd(s, start) && IsDigit(s[i])
  }

  /** `[eE][+-]?\d+` filling the whole of `t`. */
  predicate ExponentPart(t: string)
  {
    |t| >= 2 && (t[0] == 'e' || t[0] == 'E') &&
    var k := if t[1] == '+' || t[1] == '-' then 2 else 1;
    k < |t| && DigitRun(t, k) == |t| - k
  }

  /** The value a number literal's mantissa denotes is above zero: no minus sign and a
      non-zero digit. The exponent cannot change the sign (underflow to zero aside). */
  predicate MantissaPositive(s: string, start: nat)
    requires start <= |s|
  {
    !Negative(s) && HasNonZeroDigit(s[start..MantissaEnd(s, start)])
  }

  /** express-validator's `isFloat({ gt: 0 })` with the default locale: the string matches
      `^[-+]?([0-9]+)?(\.[0-9]*)?([eE][+-]?[0-9]+)?$`, is not one of "", ".", "-", "+", and
      `parseFloat` of it is above 0. The exponent is not applied, so a literal that
      underflows to 0 in double precision (such as "1e-400") counts as above zero here. */
  predicate IsFloatAboveZero(s: string)
  {
    var m := MantissaEnd(s, SignLength(s));
    && (m == |s| || ExponentPart(s[m..]))
    && s != "" && s != "." && s != "-" && s != "+"
    && MantissaHasDigit(s, SignLength(s))
    && MantissaPositive(s, SignLength(s))
  }

  /** `parseFloat(s) > 0`: leading white space is skipped, then the longest prefix that is a
      decimal literal or `Infinity` is read; anything else gives NaN, which is not above 0.
      As in `IsFloatAboveZero`, underflow to 0 is not modelled. */
  predicate ParsesAboveZero(s: string)
  {
    var t := TrimStart(s);
    var k := SignLength(t);
    if |t| - k >= 8 && t[k..k + 8] == "Infinity" then !Negative(t)
    else MantissaHasDigit(t, k) && MantissaPositive(t, k)
  }

  /** On strings in the amount format both positivity tests agree: the amount is above zero
      exactly when one of its digits is not 0. So "25.50" passes while "0" and "0.00" fail. */
  lemma PositivityOnAmounts(s: string)
    requires AmountFormat(s)
    ensures IsFloatAboveZero(s) <==> HasNonZeroDigit(s)
    ensures ParsesAboveZero(s) <==> HasNonZeroDigit(s)
  {
    AmountIsWholeMantissa(s);
    assert s[0..|s|] == s;
    if |s| >= 8 {
      assert s[..8] != "Infinity" by { assert s[..8][0] == s[0]; }
    }
  }

  /** An amount is unsigned, starts with a digit, and is one mantissa from end to end. */
  lemma AmountIsWholeMantissa(s: string)
    requires AmountFormat(s)
    ensures SignLength(s) == 0 && !Negative(s) && IsDigit(s[0])
    ensures MantissaEnd(s, 0) == |s| && TrimStart(s) == s
    ensures s != "" && s != "." && s != "-" && s != "+"
  {
    AmountMantissaEnd(s);
    assert IsDigit(s[0]) && !IsSpace(s[0]);
  }

  lemma AmountMantissaEnd(s: string)
    requires AmountFormat(s)
    ensures MantissaEnd(s, 0) == |s|
  {
    var n := DigitRun(s, 0);
    if n < |s| {
      assert s[n + 1..][..|s| - n - 1] == s[n + 1..];
      DigitRunOfDigits(s, n + 1);
    }
  }

  lemma DigitRunOfDigits(s: string, i: nat)
    requires i <= |s| && AllDigits(s[i..])
    ensures DigitRun(s, i) == |s| - i
    decreases |s| - i
  {
    if i < |s| {
      assert IsDigit(s[i..][0]);
      assert s[i + 1..] == s[i..][1..];
      DigitRunOfDigits(s, i + 1);
    }
  }

  /** Digits, a point and three or more digits: the format refuses it, while both positivity
      tests read it as above zero exactly when a digit is not 0. */
  lemma LongFraction(w: string, f: string)
    requires |w| > 0 && AllDigits(w) && AllDigits(f) && |f| >= 3
    ensures var s := w + "." + f;
      && !AmountFormat(s)
      && (IsFloatAboveZero(s) <==> HasNonZeroDigit(s))
      && (ParsesAboveZero(s) <==> HasNonZeroDigit(s))
  {
    var s := w + "." + f;
    PointedMantissa(w, f);
    assert s[0..|s|] == s;
    if |s| >= 8 {
      assert s[..8] != "Infinity" by { assert s[..8][0] == s[0]; }
    }
  }

  /** Digits, a point and digits are one unsigned mantissa from end to end. */
  lemma PointedMantissa(w: string, f: string)
    requires |w| > 0 && AllDigits(w) && AllDigits(f)
    ensures var s := w + "." + f;
      && DigitRun(s, 0) == |w| && s[|w|] == '.' && |s| - |w| == |f| + 1
      && MantissaEnd(s, 0) == |s| && TrimStart(s) == s
      && SignLength(s) == 0 && !Negative(s) && IsDigit(s[0])
      && s != "" && s != "." && s != "-" && s != "+"
  {
    var s := w + "." + f;
    assert forall i :: 0 <= i < |w| ==> s[i] == w[i];
    assert s[|w|] == '.';
    var n := DigitRun(s, 0);
    assert n == |w|;
    assert s[n + 1..] == f;
    DigitRunOfDigits(s, n + 1);
    assert IsDigit(s[0]) && !IsSpace(s[0]);
  }

  // ----- Decimal128, for the values amounts take -----

  /** A Decimal128 as `fromString` builds it from an amount: the value is
      `coefficient * 10^-scale`, and the scale (the number of fraction digits written) is kept,
      so "25.50" and "25.5" are different decimals. */
  datatype Decimal = Decimal(coefficient: nat, scale: nat)

  /** The decimals an amount in the amount format can produce: at most two fraction digits. */
  type Money = d: Decimal | d.scale <= 2 witness Decimal(0, 0)

  function DigitValue(c: char): (d: nat)
    requires IsDigit(c)
    ensures d < 10
  {
    c as int - '0' as int
  }

  function DigitChar(d: nat): (c: char)
    requires d < 10
    ensures IsDigit(c) && DigitValue(c) == d
  {
    ('0' as int + d) as char
  }

  /** The number a string of decimal digits denotes. */
  function DigitsValue(t: string): nat
    requires AllDigits(t)
  {
    if t == [] then 0 else DigitsValue(t[..|t| - 1]) * 10 + DigitValue(t[|t| - 1])
  }

  function Pow10(n: nat): (p: nat)
    ensures p >= 1
  {
    if n == 0 then 1 else 10 * Pow10(n - 1)
  }

  /** Number of decimal digits of `v` (one for zero). */
  function NumDigits(v: nat): (n: nat)
    ensures n >= 1
  {
    if v < 10 then 1 else 1 + NumDigits(v / 10)
  }

  /** The `w` lowest decimal digits of `v`, most significant first. */
  function FixedWidth(v: nat, w: nat): (t: string)
    ensures |t| == w && AllDigits(t)
  {
    if w == 0 then [] else FixedWidth(v / 10, w - 1) + [DigitChar(v % 10)]
  }

  /** The integer and fraction digits of an amount, read without the point. */
  function AmountDigits(s: string): (t: string)
    requires AmountFormat(s)
    ensures AllDigits(t) && |t| == if DigitRun(s, 0) == |s| then |s| else |s| - 1
  {
    var n := DigitRun(s, 0);
    if n == |s| then s else s[..n] + s[n + 1..]
  }

  /** `Decimal128.fromString(s)` for a string in the amount format. */
  function FromString(s: string): (d: Money)
    requires AmountFormat(s)
  {
    var n := DigitRun(s, 0);
    Decimal(DigitsValue(AmountDigits(s)), |s| - n - (if n == |s| then 0 else 1))
  }

  /** `Decimal128.prototype.toString` for a finite value whose exponent is 0, -1 or -2 (the
      plain, non-scientific notation): the coefficient's digits, padded with zeros to one
      more than the scale, with the point before the last `scale` digits. */
  function ToString(d: Money): (s: string)
  {
    var w := if NumDigits(d.coefficient) > d.scale then NumDigits(d.coefficient) else d.scale + 1;
    var digits := FixedWidth(d.coefficient, w);
    if d.scale == 0 then digits else digits[..w - d.scale] + "." + digits[w - d.scale..]
  }

  // ----- arithmetic facts about digit strings -----

  lemma ModUnique(v: int, m: int, q: int, r: int)
    requires m > 0 && v == m * q + r && 0 <= r < m
    ensures v % m == r && v / m == q
  {
    var q', r' := v / m, v % m;
    assert m * (q - q') == r' - r;
    if q - q' >= 1 {
      MulAtLeast(m, q - q');
    }
    if q' - q >= 1 {
      MulAtLeast(m, q' - q);
    }
  }

  lemma MulAtLeast(m: int, k: int)
    requires m > 0 && k >= 1
    ensures m * k >= m
  {
  }

  lemma {:induction false} FixedWidthValue(v: nat, w: nat)
    ensures DigitsValue(FixedWidth(v, w)) == v % Pow10(w)
  {
    if w > 0 {
      var t := FixedWidth(v, w);
      assert t[..|t| - 1] == FixedWidth(v / 10, w - 1);
      FixedWidthValue(v / 10, w - 1);
      ModStep(v, Pow10(w - 1));
    }
  }

  lemma ModStep(v: nat, p: nat)
    requires p >= 1
    ensures ((v / 10) % p) * 10 + v % 10 == v % (10 * p)
  {
    var q, b := (v / 10) / p, (v / 10) % p;
    assert v / 10 == p * q + b;
    assert v == 10 * (v / 10) + v % 10;
    assert 10 * (p * q) == (10 * p) * q;
    assert v == (10 * p) * q + (10 * b + v % 10);
    ModUnique(v, 10 * p, q, 10 * b + v % 10);
  }

  lemma {:induction false} FixedWidthOfDigits(t: string)
    requires AllDigits(t)
    ensures FixedWidth(DigitsValue(t), |t|) == t
  {
    if t != [] {
      var u, c := t[..|t| - 1], t[|t| - 1];
      assert AllDigits(u);
      var v, d := DigitsValue(t), DigitValue(c);
      assert v == 10 * DigitsValue(u) + d;
      ModUnique(v, 10, DigitsValue(u), d);
      FixedWidthOfDigits(u);
      assert FixedWidth(v, |t|) == FixedWidth(DigitsValue(u), |u|) + [DigitChar(d)];
      DigitCharOfValue(c);
      assert t == u + [c];
    }
  }

  lemma DigitCharOfValue(c: char)
    requires IsDigit(c)
    ensures DigitChar(DigitValue(c)) == c
  {
  }

  lemma {:induction false} DigitsValueBound(t: string)
    requires AllDigits(t)
    ensures DigitsValue(t) < Pow10(|t|)
    ensures |t| > 0 && t[0] != '0' ==> Pow10(|t| - 1) <= DigitsValue(t)
  {
    if t != [] {
      var u := t[..|t| - 1];
      DigitsValueBound(u);
      if |u| > 0 {
        assert u[0] == t[0];
      }
    }
  }

  lemma {:induction false} NumDigitsBound(v: nat)
    ensures v < Pow10(NumDigits(v))
    ensures NumDigits(v) > 1 ==> Pow10(NumDigits(v) - 1) <= v
  {
    if v >= 10 {
      NumDigitsBound(v / 10);
    }
  }

  lemma {:induction false} Pow10Monotone(a: nat, b: nat)
    requires a <= b
    ensures Pow10(a) <= Pow10(b)
  {
    if a < b {
      Pow10Monotone(a, b - 1);
    }
  }

  /** The number of digits of `v` is pinned down by the power-of-ten bounds on `v`. */
  lemma NumDigitsFromBounds(v: nat, n: nat)
    requires n >= 1 && v < Pow10(n)
    ensures NumDigits(v) <= n
    ensures Pow10(n - 1) <= v ==> NumDigits(v) == n
  {
    NumDigitsBound(v);
    var k := NumDigits(v);
    if k > n {
      Pow10Monotone(n, k - 1);
    }
    if Pow10(n - 1) <= v && k < n {
      Pow10Monotone(k, n - 1);
    }
  }

  lemma {:induction false} DigitsValuePositive(t: string)
    requires AllDigits(t)
    ensures DigitsValue(t) > 0 <==> HasNonZeroDigit(t)
  {
    if t != [] {
      var u := t[..|t| - 1];
      DigitsValuePositive(u);
      if HasNonZeroDigit(t) && !HasNonZeroDigit(u) {
        assert '1' <= t[|t| - 1] <= '9';
      }
      if HasNonZeroDigit(u) {
        var i :| 0 <= i < |u| && '1' <= u[i] <= '9';
        assert t[i] == u[i];
      }
    }
  }

  // ----- the round trips of an amount through Decimal128 -----

  /** The integer part of an amount has no superfluous leading zero. */
  predicate Canonical(s: string)
    requires AmountFormat(s)
  {
    s[0] != '0' || DigitRun(s, 0) == 1
  }

  /** Rendering a two-place decimal and parsing it back gives the same decimal, and the
      rendering is itself in the amount format. */
  lemma ToStringFromString(d: Money)
    ensures AmountFormat(ToString(d)) && FromString(ToString(d)) == d
  {
    var whole, fraction := ToStringParts(d);
    FromStringOfSplit(ToString(d), whole, fraction);
  }

  /** The rendering of a decimal is its integer digits, then a point and its `scale`
      fraction digits when the scale is not zero; the digits together denote the
      coefficient. */
  lemma ToStringParts(d: Money) returns (whole: string, fraction: string)
    ensures SplitsAsAmount(ToString(d), whole, fraction)
    ensures DigitsValue(whole + fraction) == d.coefficient && |fraction| == d.scale
  {
    var c := d.coefficient;
    var w := if NumDigits(c) > d.scale then NumDigits(c) else d.scale + 1;
    var digits := FixedWidth(c, w);
    FixedWidthExact(c, w);
    whole, fraction := digits[..w - d.scale], digits[w - d.scale..];
    assert whole + fraction == digits;
    RenderedDigits(d, digits);
    SplitDigits(digits, w - d.scale);
  }

  /** A digit string with a point placed before its last one or two digits (or none) is an
      amount split at the point. */
  lemma SplitDigits(digits: string, k: nat)
    requires AllDigits(digits) && 0 < k <= |digits| && |digits| - k <= 2
    ensures SplitsAsAmount(if k == |digits| then digits else digits[..k] + "." + digits[k..],
                           digits[..k], digits[k..])
  {
    assert digits[..k] + digits[k..] == digits;
    assert AllDigits(digits[..k]) by {
      assert forall i :: 0 <= i < k ==> digits[..k][i] == digits[i];
    }
    assert AllDigits(digits[k..]) by {
      assert forall i :: 0 <= i < |digits| - k ==> digits[k..][i] == digits[k + i];
    }
  }

  /** `w` digits are enough to write `v` when `v` has at most `w` digits. */
  lemma FixedWidthExact(v: nat, w: nat)
    requires NumDigits(v) <= w
    ensures DigitsValue(FixedWidth(v, w)) == v
  {
    NumDigitsBound(v);
    Pow10Monotone(NumDigits(v), w);
    FixedWidthValue(v, w);
    ModUnique(v, Pow10(w), 0, v);
  }

  /** Reading an amount that splits into `whole` and `fraction`. */
  lemma FromStringOfSplit(s: string, whole: string, fraction: string)
    requires SplitsAsAmount(s, whole, fraction)
    ensures AmountFormat(s) && AmountDigits(s) == whole + fraction
    ensures FromString(s) == Decimal(DigitsValue(whole + fraction), |fraction|)
  {
    WholeRun(s, whole, fraction);
    if fraction != [] {
      assert s[..|whole|] == whole && s[|whole| + 1..] == fraction;
    }
  }

  /** An amount written canonically is rendered back exactly as written: "25.50" stays
      "25.50" and "10.10" stays "10.10"; only superfluous leading zeros are lost. */
  lemma FromStringToString(s: string)
    requires AmountFormat(s) && Canonical(s)
    ensures ToString(FromString(s)) == s
  {
    var n := DigitRun(s, 0);
    var t := AmountDigits(s);
    var d := FromString(s);
    RenderWidth(s);
    FixedWidthOfDigits(t);
    RenderedDigits(d, t);
    if n < |s| {
      assert |t| - d.scale == n;
      AmountAroundPoint(s);
    }
  }

  /** A decimal whose padded digits are `t` renders as `t` with the point placed. */
  lemma RenderedDigits(d: Money, t: string)
    requires |t| == if NumDigits(d.coefficient) > d.scale then NumDigits(d.coefficient) else d.scale + 1
    requires FixedWidth(d.coefficient, |t|) == t
    ensures ToString(d) == if d.scale == 0 then t else t[..|t| - d.scale] + "." + t[|t| - d.scale..]
  {
  }

  /** An amount with a point is its digits with the point put back. */
  lemma AmountAroundPoint(s: string)
    requires AmountFormat(s) && DigitRun(s, 0) < |s|
    ensures var n := DigitRun(s, 0);
      s == AmountDigits(s)[..n] + "." + AmountDigits(s)[n..]
  {
    var n := DigitRun(s, 0);
    assert s[n] == '.' && AmountDigits(s) == s[..n] + s[n + 1..];
    PointPutBack(s, n);
  }

  lemma PointPutBack(s: string, n: nat)
    requires n < |s| && s[n] == '.'
    ensures var t := s[..n] + s[n + 1..];
      s == t[..n] + "." + t[n..]
  {
    var t := s[..n] + s[n + 1..];
    assert t[..n] == s[..n] && t[n..] == s[n + 1..];
    assert s == s[..n] + "." + s[n + 1..];
  }

  /** Rendering the decimal of a canonical amount uses as many digits as the amount has. */
  lemma RenderWidth(s: string)
    requires AmountFormat(s) && Canonical(s)
    ensures var d := FromString(s);
      var w := if NumDigits(d.coefficient) > d.scale then NumDigits(d.coefficient) else d.scale + 1;
      w == |AmountDigits(s)| && d.coefficient == DigitsValue(AmountDigits(s))
  {
    var t := AmountDigits(s);
    var c := DigitsValue(t);
    DigitsValueBound(t);
    if s[0] != '0' {
      assert t[0] == s[0];
    }
    NumDigitsFromBounds(c, |t|);
  }

  /** A written amount and its Decimal128 are above zero together. */
  lemma FromStringPositive(s: string)
    requires AmountFormat(s)
    ensures FromString(s).coefficient > 0 <==> HasNonZeroDigit(s)
  {
    var n := DigitRun(s, 0);
    DigitsValuePositive(AmountDigits(s));
    if n < |s| {
      NonZeroWithoutPoint(s, n);
    }
  }

  /** Dropping the decimal point keeps every digit. */
  lemma NonZeroWithoutPoint(s: string, n: nat)
    requires n < |s| && s[n] == '.'
    ensures HasNonZeroDigit(s) <==> HasNonZeroDigit(s[..n] + s[n + 1..])
  {
    var t := s[..n] + s[n + 1..];
    if HasNonZeroDigit(s) {
      var i :| 0 <= i < |s| && '1' <= s[i] <= '9';
      assert t[if i < n then i else i - 1] == s[i];
    }
    if HasNonZeroDigit(t) {
      var j :| 0 <= j < |t| && '1' <= t[j] <= '9';
      assert s[if j < n then j else j + 1] == t[j];
    }
  }

  /** `parseFloat(d.toString()) > 0`, the schema's amount validator, holds exactly when the
      decimal is above zero. */
  lemma RenderedPositive(d: Money)
    ensures ParsesAboveZero(ToString(d)) <==> d.coefficient > 0
  {
    ToStringFromString(d);
    PositivityOnAmounts(ToString(d));
    FromStringPositive(ToString(d));
  }
}
