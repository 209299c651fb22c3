/**
 * formatNum of the result screen: round the amount, then print it in
 * millions with two decimals and an "M", in thousands with one decimal and
 * a "K", or as a plain integer. A fraction of ".00" (millions) or ".0"
 * (thousands) is dropped. Number.prototype.toFixed is modelled on the exact
 * value, where it rounds half up.
 */
module Format {
  import opened Wrappers
  import opened Rounding

  const Million := 1_000_000
  const Thousand := 1_000

  predicate IsDigit(c: char) {
    '0' <= c <= '9'
  }

  predicate AllDigits(s: string) {
    forall i :: 0 <= i < |s| ==> IsDigit(s[i])
  }

  /** The character of a decimal digit. */
  function DigitChar(d: int): (c: char)
    requires 0 <= d < 10
    ensures IsDigit(c) && c as int - '0' as int == d
  {
    (d + '0' as int) as char
  }

  function Pow10(k: nat): (p: nat)
    ensures p >= 1
  {
    if k == 0 then 1 else 10 * Pow10(k - 1)
  }

  /** The decimal numeral of n, without leading zeros. */
  function Digits(n: nat): (s: string)
    ensures 1 <= |s| && AllDigits(s)
    ensures |s| > 1 ==> s[0] != '0'
    ensures n < Pow10(|s|) && (|s| > 1 ==> Pow10(|s| - 1) <= n)
  {
    if n < 10 then [DigitChar(n)] else Digits(n / 10) + [DigitChar(n % 10)]
  }

  /** The number a string of digits denotes; leading zeros are allowed. */
  function DigitsValue(s: string): (n: nat)
    requires AllDigits(s)
  {
    if |s| == 0 then 0 else 10 * DigitsValue(s[..|s| - 1]) + (s[|s| - 1] as int - '0' as int)
  }

  /** Reading a numeral back gives the number. */
  lemma {:induction false} DigitsRoundTrip(n: nat)
    ensures DigitsValue(Digits(n)) == n
  {
    if n >= 10 {
      var s := Digits(n);
      assert s[..|s| - 1] == Digits(n / 10);
      DigitsRoundTrip(n / 10);
    }
  }

  /** A string of '0's. */
  function Zeros(k: nat): (s: string)
    ensures |s| == k && AllDigits(s)
    ensures forall i :: 0 <= i < k ==> s[i] == '0'
  {
    if k == 0 then [] else ['0'] + Zeros(k - 1)
  }

  /** Leading zeros do not change the value of a numeral. */
  lemma {:induction false} LeadingZeros(k: nat, s: string)
    requires AllDigits(s)
    ensures AllDigits(Zeros(k) + s) && DigitsValue(Zeros(k) + s) == DigitsValue(s)
    decreases |s|
  {
    var z := Zeros(k) + s;
    if |s| == 0 {
      assert z == Zeros(k);
      AllZeros(k);
    } else {
      assert z[..|z| - 1] == Zeros(k) + s[..|s| - 1];
      LeadingZeros(k, s[..|s| - 1]);
    }
  }

  /** A string of zeros denotes zero. */
  lemma {:induction false} AllZeros(k: nat)
    ensures DigitsValue(Zeros(k)) == 0
  {
    if k > 0 {
      assert Zeros(k)[..k - 1] == Zeros(k - 1) by {
        ZerosShift(k);
      }
      AllZeros(k - 1);
    }
  }

  /** Dropping the last '0' of Zeros(k) leaves Zeros(k - 1). */
  lemma ZerosShift(k: nat)
    requires k > 0
    ensures Zeros(k)[..k - 1] == Zeros(k - 1)
  {
  }

  /** n written with exactly `width` digits, zero-padded on the left, for n < 10^width. */
  function Padded(n: nat, width: nat): (s: string)
    requires width >= 1 && n < Pow10(width)
    ensures |s| == width && AllDigits(s) && DigitsValue(s) == n
  {
    var d := Digits(n);
    DigitsFit(n, width);
    LeadingZeros(width - |d|, d);
    DigitsRoundTrip(n);
    Zeros(width - |d|) + d
  }

  /** The numeral of n < 10^width has at most width digits. */
  lemma DigitsFit(n: nat, width: nat)
    requires width >= 1 && n < Pow10(width)
    ensures |Digits(n)| <= width
  {
  }

  /**
   * Number.prototype.toFixed(places) of the value q / 10^places: the whole
   * part, then, for places > 0, a '.' and exactly `places` fraction digits.
   */
  function ToFixed(q: nat, places: nat): (s: string)
    ensures places == 0 ==> AllDigits(s) && DigitsValue(s) == q
    ensures places > 0 ==>
      && |s| > places + 1 && s[|s| - places - 1] == '.'
      && AllDigits(s[..|s| - places - 1]) && DigitsValue(s[..|s| - places - 1]) == q / Pow10(places)
      && AllDigits(s[|s| - places..]) && DigitsValue(s[|s| - places..]) == q % Pow10(places)
  {
    var p := Pow10(places);
    DivNat(q, p);
    DigitsRoundTrip(q / p);
    if places == 0 then
      Digits(q / p)
    else
      var whole, frac := Digits(q / p), Padded(q % p, places);
      PointLayout(whole, frac);
      whole + "." + frac
  }

  /** The parts of whole + "." + frac sit where they were put. */
  lemma PointLayout(whole: string, frac: string)
    ensures var s := whole + "." + frac;
      && |s| == |whole| + 1 + |frac| && s[|whole|] == '.'
      && s[..|whole|] == whole && s[|whole| + 1..] == frac
  {
  }

  /** s with `suffix` removed from its end when it ends with it: replace(/\.00$/, '') and its ".0" twin. */
  function DropSuffix(s: string, suffix: string): (r: string)
    ensures r == s || (|suffix| <= |s| && r + suffix == s)
    ensures |suffix| <= |s| && s[|s| - |suffix|..] == suffix ==> |r| == |s| - |suffix|
  {
    if |suffix| <= |s| && s[|s| - |suffix|..] == suffix then s[..|s| - |suffix|] else s
  }

  /** toLocaleString of a small integer: its numeral, with a minus sign when negative. */
  function Plain(r: int): (s: string)
    ensures |s| > 0 && IsDigit(s[|s| - 1])
    ensures r >= 0 ==> AllDigits(s) && DigitsValue(s) == r
    ensures r < 0 ==> s[0] == '-' && AllDigits(s[1..]) && DigitsValue(s[1..]) == -r
  {
    if r >= 0 then
      DigitsRoundTrip(r);
      Digits(r)
    else
      DigitsRoundTrip(-r);
      var s := "-" + Digits(-r);
      assert s[1..] == Digits(-r);
      s
  }

  /** formatNum: the rounded amount in millions, thousands or units, with its suffix. */
  function FormatNum(n: real): (s: string)
    ensures |s| > 0
    ensures s[|s| - 1] == 'M' <==> Round(n) >= Million
    ensures s[|s| - 1] == 'K' <==> Thousand <= Round(n) < Million
    ensures IsDigit(s[|s| - 1]) <==> Round(n) < Thousand
  {
    var r := Round(n);
    if r >= Million then DropSuffix(ToFixed(RoundDiv(r, 10_000), 2), ".00") + "M"
    else if r >= Thousand then DropSuffix(ToFixed(RoundDiv(r, 100), 1), ".0") + "K"
    else Plain(r)
  }

  // ---------------------------------------------------------------------
  // Reading a formatted amount back

  /** A decimal numeral: whole part, the digits after the point as a number, and how many there are. */
  datatype Numeral = Numeral(whole: nat, fraction: nat, places: nat)

  /** The exact value of a numeral. */
  function Value(d: Numeral): (v: real) {
    d.whole as real + d.fraction as real / Pow10(d.places) as real
  }

  /** The index of the first '.' in s, or |s| when there is none. */
  function DotIndex(s: string): (k: nat)
    ensures k <= |s|
    ensures forall i :: 0 <= i < k ==> s[i] != '.'
    ensures k < |s| ==> s[k] == '.'
  {
    if |s| == 0 || s[0] == '.' then 0 else 1 + DotIndex(s[1..])
  }

  /** Parses an unsigned decimal "D+" or "D+.D+". */
  function Decimal(s: string): (d: Option<Numeral>)
  {
    var k := DotIndex(s);
    var whole := s[..k];
    if |whole| == 0 || !AllDigits(whole) then None
    else if k == |s| then Some(Numeral(DigitsValue(whole), 0, 0))
    else
      var frac := s[k + 1..];
      if |frac| == 0 || !AllDigits(frac) then None
      else Some(Numeral(DigitsValue(whole), DigitsValue(frac), |frac|))
  }

  /** The value a formatted amount stands for: a decimal, optionally signed, times its suffix's unit. */
  function Reading(s: string): (v: Option<real>)
  {
    if |s| == 0 then None
    else if s[|s| - 1] == 'M' then Scaled(Decimal(s[..|s| - 1]), Million as real)
    else if s[|s| - 1] == 'K' then Scaled(Decimal(s[..|s| - 1]), Thousand as real)
    else if s[0] == '-' then Scaled(Decimal(s[1..]), -1.0)
    else Scaled(Decimal(s), 1.0)
  }

  /** The value a parsed numeral stands for once its unit suffix is applied; nothing for text that did not parse. */
  function Scaled(d: Option<Numeral>, unit: real): (v: Option<real>) {
    match d
    case None => None
    case Some(x) => Some(Value(x) * unit)
  }

  /**
   * What formatNum prints reads back as the rounded amount to within half
   * of the last printed digit: 5000 in millions, 50 in thousands, exactly
   * for plain integers.
   */
  lemma FormatNumReadsBack(n: real)
    ensures Reading(FormatNum(n)).Some?
    ensures var v, r := Reading(FormatNum(n)).value, Round(n) as real;
      && (Round(n) >= Million ==> -5000.0 <= v - r <= 5000.0)
      && (Thousand <= Round(n) < Million ==> -50.0 <= v - r <= 50.0)
      && (Round(n) < Thousand ==> v == r)
  {
    var r := Round(n);
    if r >= Million {
      MillionsReadBack(r);
    } else if r >= Thousand {
      ThousandsReadBack(r);
    } else {
      PlainReadsBack(r);
    }
  }

  /** An amount in millions reads back to within 5000. */
  lemma MillionsReadBack(r: int)
    requires r >= Million
    ensures var s := DropSuffix(ToFixed(RoundDiv(r, 10_000), 2), ".00") + "M";
      Reading(s).Some? && -5000.0 <= Reading(s).value - r as real <= 5000.0
  {
    var q := RoundDiv(r, 10_000);
    var body := DropSuffix(ToFixed(q, 2), ".00");
    var d := FixedReadsBack(q, 2, ".00");
    ReadingSuffixed(body, 'M');
    assert Reading(body + "M") == Some(Value(d) * 1_000_000.0);
    UnitsBack(r, q, 100, 10_000);
  }

  /** An amount in thousands reads back to within 50. */
  lemma ThousandsReadBack(r: int)
    requires r >= Thousand
    ensures var s := DropSuffix(ToFixed(RoundDiv(r, 100), 1), ".0") + "K";
      Reading(s).Some? && -50.0 <= Reading(s).value - r as real <= 50.0
  {
    var q := RoundDiv(r, 100);
    var body := DropSuffix(ToFixed(q, 1), ".0");
    var d := FixedReadsBack(q, 1, ".0");
    ReadingSuffixed(body, 'K');
    assert Reading(body + "K") == Some(Value(d) * 1_000.0);
    UnitsBack(r, q, 10, 100);
  }

  /**
   * q, the rounded count of `step`s in r, printed as q / p units of p * step,
   * stands for a value within half a step of r.
   */
  lemma UnitsBack(r: int, q: nat, p: nat, step: nat)
    requires p >= 1 && step >= 1
    requires 2 * step * q - step <= 2 * r < 2 * step * q + step
    ensures var v := (q as real / p as real) * (p * step) as real;
      -(step as real / 2.0) <= v - r as real <= step as real / 2.0
  {
    ScaleBack(q, p, (p * step) as real, step as real);
    assert (q * step) as real == q as real * step as real;
  }

  /** A body followed by 'M' or 'K' reads as the body's decimal times the unit. */
  lemma ReadingSuffixed(body: string, unit: char)
    requires unit == 'M' || unit == 'K'
    ensures Reading(body + [unit]) == Scaled(Decimal(body), if unit == 'M' then Million as real else Thousand as real)
  {
    var s := body + [unit];
    assert s[..|s| - 1] == body;
  }

  /** A plain integer reads back exactly. */
  lemma PlainReadsBack(r: int)
    ensures Reading(Plain(r)) == Some(r as real)
  {
    if r >= 0 {
      var d := Digits(r);
      assert Reading(d) == Scaled(Decimal(d), 1.0) by {
        assert IsDigit(d[0]) && IsDigit(d[|d| - 1]);
      }
      DigitsDecimal(r);
    } else {
      var d := Digits(-r);
      var s := "-" + d;
      assert Reading(s) == Scaled(Decimal(d), -1.0) by {
        assert s[1..] == d;
        assert s[|s| - 1] == d[|d| - 1] && IsDigit(d[|d| - 1]);
      }
      DigitsDecimal(-r);
    }
  }

  /** (q / p) * unit is q * step when unit is p * step. */
  lemma ScaleBack(q: nat, p: nat, unit: real, step: real)
    requires p >= 1 && unit == p as real * step
    ensures (q as real / p as real) * unit == q as real * step
  {
  }

  /** A numeral reads back as its number. */
  lemma DigitsDecimal(n: nat)
    ensures Decimal(Digits(n)) == Some(Numeral(n, 0, 0))
    ensures Value(Numeral(n, 0, 0)) == n as real
  {
    DigitsRoundTrip(n);
    WholeDecimal(Digits(n));
  }

  /** A non-empty run of digits parses as a whole number. */
  lemma WholeDecimal(s: string)
    requires |s| >= 1 && AllDigits(s)
    ensures Decimal(s) == Some(Numeral(DigitsValue(s), 0, 0))
  {
    NoDot(s);
    assert s[..|s|] == s;
  }

  /** A run of digits that denotes zero is all '0's. */
  lemma {:induction false} ZeroValue(s: string)
    requires AllDigits(s) && DigitsValue(s) == 0
    ensures s == Zeros(|s|)
  {
    if |s| > 0 {
      var init := s[..|s| - 1];
      assert AllDigits(init);
      ZeroValue(init);
      assert s == init + [s[|s| - 1]];
      assert Zeros(|s|) == Zeros(|s| - 1) + ['0'] by {
        ZerosSnoc(|s| - 1);
      }
    }
  }

  /** Appending a '0' to Zeros(k) gives Zeros(k + 1). */
  lemma ZerosSnoc(k: nat)
    ensures Zeros(k) + ['0'] == Zeros(k + 1)
  {
    var a, b := Zeros(k) + ['0'], Zeros(k + 1);
    assert forall i :: 0 <= i < |a| ==> a[i] == '0' == b[i];
  }

  /** A string of digits holds no '.'. */
  lemma {:induction false} NoDot(s: string)
    requires AllDigits(s)
    ensures DotIndex(s) == |s|
  {
    if |s| > 0 {
      assert AllDigits(s[1..]);
      NoDot(s[1..]);
    }
  }

  /** In digits + "." + rest, the first '.' follows the digits. */
  lemma {:induction false} DotAfterDigits(a: string, rest: string)
    requires AllDigits(a)
    ensures DotIndex(a + ['.'] + rest) == |a|
  {
    if |a| > 0 {
      assert (a + ['.'] + rest)[1..] == a[1..] + ['.'] + rest;
      assert AllDigits(a[1..]);
      DotAfterDigits(a[1..], rest);
    }
  }

  /** A numeral, a '.', and a non-empty run of digits parse as whole part and fraction. */
  lemma DecimalOfPoint(whole: string, frac: string)
    requires 1 <= |whole| && AllDigits(whole)
    requires 1 <= |frac| && AllDigits(frac)
    ensures Decimal(whole + ['.'] + frac) == Some(Numeral(DigitsValue(whole), DigitsValue(frac), |frac|))
  {
    var t := whole + ['.'] + frac;
    var k := DotIndex(t);
    assert k == |whole| by { DotAfterDigits(whole, frac); }
    assert t[..k] == whole;
    assert t[k + 1..] == frac;
  }

  /**
   * toFixed(places) of q / 10^places, with a trailing zero fraction `zeros`
   * dropped, parses as a numeral whose value is exactly q / 10^places.
   */
  lemma FixedReadsBack(q: nat, places: nat, zeros: string) returns (d: Numeral)
    requires places > 0
    requires zeros == ['.'] + Zeros(places)
    ensures Decimal(DropSuffix(ToFixed(q, places), zeros)) == Some(d)
    ensures Value(d) == q as real / Pow10(places) as real
  {
    var p := Pow10(places);
    DivNat(q, p);
    if q % p == 0 {
      FixedWholeParse(q, places, zeros);
      d := Numeral(q / p, 0, 0);
      assert Value(d) == (q / p) as real by {
        assert Pow10(0) == 1;
      }
      ExactQuotient(q, p);
    } else {
      FixedFractionParse(q, places, zeros);
      d := Numeral(q / p, q % p, places);
      SplitQuotient(q, p);
    }
  }

  /** toFixed(places) splits as its whole digits, a '.', and its fraction digits. */
  lemma FixedSplitsAtPoint(q: nat, places: nat) returns (whole: string, frac: string)
    requires places > 0
    ensures ToFixed(q, places) == whole + ['.'] + frac
    ensures |whole| >= 1 && AllDigits(whole) && DigitsValue(whole) == q / Pow10(places)
    ensures |frac| == places && AllDigits(frac) && DigitsValue(frac) == q % Pow10(places)
  {
    var t := ToFixed(q, places);
    var k := |t| - places - 1;
    whole, frac := t[..k], t[k + 1..];
    assert t == whole + ['.'] + frac;
  }

  /** With an all-zero fraction, dropping it leaves the whole part, which parses as a whole number. */
  lemma FixedWholeParse(q: nat, places: nat, zeros: string)
    requires places > 0 && q % Pow10(places) == 0
    requires zeros == ['.'] + Zeros(places)
    ensures Decimal(DropSuffix(ToFixed(q, places), zeros)) == Some(Numeral(q / Pow10(places), 0, 0))
  {
    var whole, frac := FixedSplitsAtPoint(q, places);
    ZeroValue(frac);
    PointDropped(whole, frac);
  }

  /** With a non-zero fraction nothing is dropped, and the text parses as whole part and fraction. */
  lemma FixedFractionParse(q: nat, places: nat, zeros: string)
    requires places > 0 && q % Pow10(places) != 0
    requires zeros == ['.'] + Zeros(places)
    ensures Decimal(DropSuffix(ToFixed(q, places), zeros)) == Some(Numeral(q / Pow10(places), q % Pow10(places), places))
  {
    var whole, frac := FixedSplitsAtPoint(q, places);
    assert frac != Zeros(places) by { AllZeros(places); }
    PointKept(whole, frac);
  }

  /** Whole digits followed by a point and only zeros parse, once the zeros are dropped, as the whole number. */
  lemma PointDropped(whole: string, frac: string)
    requires 1 <= |whole| && AllDigits(whole) && 1 <= |frac| && frac == Zeros(|frac|)
    ensures Decimal(DropSuffix(whole + ['.'] + frac, ['.'] + frac)) == Some(Numeral(DigitsValue(whole), 0, 0))
  {
    ZeroFractionDropped(whole, frac);
    WholeDecimal(whole);
  }

  /** Whole digits, a point and a fraction with a non-zero digit are kept and parse as whole part and fraction. */
  lemma PointKept(whole: string, frac: string)
    requires 1 <= |whole| && AllDigits(whole) && 1 <= |frac| && AllDigits(frac) && frac != Zeros(|frac|)
    ensures Decimal(DropSuffix(whole + ['.'] + frac, ['.'] + Zeros(|frac|))) == Some(Numeral(DigitsValue(whole), DigitsValue(frac), |frac|))
  {
    FractionKept(whole, frac);
    DecimalOfPoint(whole, frac);
  }

  /** A point followed by only zeros is removed, leaving the whole part. */
  lemma ZeroFractionDropped(whole: string, frac: string)
    requires frac == Zeros(|frac|)
    ensures DropSuffix(whole + ['.'] + frac, ['.'] + frac) == whole
  {
    var suffix := ['.'] + frac;
    var t := whole + suffix;
    assert whole + ['.'] + frac == t;
    assert t[|whole|..] == suffix;
    assert t[..|whole|] == whole;
  }

  /** A fraction with some non-zero digit is kept. */
  lemma FractionKept(whole: string, frac: string)
    requires frac != Zeros(|frac|)
    ensures DropSuffix(whole + ['.'] + frac, ['.'] + Zeros(|frac|)) == whole + ['.'] + frac
  {
    var tail, suffix := ['.'] + frac, ['.'] + Zeros(|frac|);
    assert tail != suffix by {
      assert tail[1..] == frac;
      assert suffix[1..] == Zeros(|frac|);
    }
    OtherEndingKept(whole, tail, suffix);
    assert whole + ['.'] + frac == whole + tail;
  }

  /** A string ending in something of the suffix's length other than the suffix keeps it. */
  lemma OtherEndingKept(head: string, tail: string, suffix: string)
    requires |tail| == |suffix| && tail != suffix
    ensures DropSuffix(head + tail, suffix) == head + tail
  {
    var t := head + tail;
    assert t[|t| - |suffix|..] == tail;
  }

  /** Dividing a natural number by a positive one leaves a natural quotient and a remainder below it. */
  lemma DivNat(q: nat, p: nat)
    requires p >= 1
    ensures q / p >= 0 && 0 <= q % p < p
  {
  }

  /** q / p as an exact value is the whole part plus the remainder over p. */
  lemma SplitQuotient(q: nat, p: nat)
    requires p >= 1
    ensures (q / p) as real + (q % p) as real / p as real == q as real / p as real
  {
    var a, b, pr := (q / p) as real, (q % p) as real, p as real;
    assert q == (q / p) * p + q % p;
    assert q as real == a * pr + b;
    assert (a + b / pr) * pr == a * pr + b;
  }

  /** A division without remainder is exact. */
  lemma ExactQuotient(q: nat, p: nat)
    requires p >= 1 && q % p == 0
    ensures (q / p) as real == q as real / p as real
  {
    var a, pr := (q / p) as real, p as real;
    assert q == (q / p) * p;
    assert q as real == a * pr;
  }

  /** formatNum in its million branch: the two-decimal form of the amount in millions, ".00" dropped. */
  lemma MillionsBranch(n: real, r: int, fixed: string, body: string)
    requires Round(n) == r && r >= Million
    requires ToFixed(RoundDiv(r, 10_000), 2) == fixed && DropSuffix(fixed, ".00") == body
    ensures FormatNum(n) == body + "M"
  {
  }

  /** formatNum in its thousand branch: the one-decimal form of the amount in thousands, ".0" dropped. */
  lemma ThousandsBranch(n: real, r: int, fixed: string, body: string)
    requires Round(n) == r && Thousand <= r < Million
    requires ToFixed(RoundDiv(r, 100), 1) == fixed && DropSuffix(fixed, ".0") == body
    ensures FormatNum(n) == body + "K"
  {
  }

  /** An integer amount is its own rounding. */
  lemma RoundOfInteger(k: int)
    ensures Round(k as real) == k
  {
  }

  /**
   * `toFixed(places)` of q / 10^places with an all-zero fraction removed: the
   * whole digits alone when the remainder is zero, and otherwise the whole
   * digits, a point and all `places` fraction digits, trailing zeros kept.
   */
  lemma FixedForm(q: nat, places: nat, zeros: string)
    requires places > 0 && zeros == ['.'] + Zeros(places)
    ensures DropSuffix(ToFixed(q, places), zeros) ==
            if q % Pow10(places) == 0 then Digits(q / Pow10(places))
            else Digits(q / Pow10(places)) + "." + Padded(q % Pow10(places), places)
  {
    var p := Pow10(places);
    DivNat(q, p);
    FixedSplit(q, places, q / p, q % p);
    var frac := Padded(q % p, places);
    if q % p == 0 {
      ZeroValue(frac);
      ZeroFractionDropped(Digits(q / p), frac);
    } else {
      assert frac != Zeros(places) by { AllZeros(places); }
      FractionKept(Digits(q / p), frac);
    }
  }

  /**
   * The M branch for every amount of a million or more: with q the amount in
   * hundredths of a million, the whole millions, then ".dd" unless both
   * digits are zero.
   */
  lemma MillionsForm(n: real)
    requires Round(n) >= Million
    ensures var q := RoundDiv(Round(n), 10_000);
            FormatNum(n) == (if q % 100 == 0 then Digits(q / 100) else Digits(q / 100) + "." + Padded(q % 100, 2)) + "M"
  {
    var r := Round(n);
    var q := RoundDiv(r, 10_000);
    assert Pow10(2) == 100;
    assert ".00" == ['.'] + Zeros(2);
    FixedForm(q, 2, ".00");
    MillionsBranch(n, r, ToFixed(q, 2), DropSuffix(ToFixed(q, 2), ".00"));
  }

  /**
   * The K branch for every amount from a thousand up to a million: with q the
   * amount in tenths of a thousand, the whole thousands, then ".d" unless
   * that digit is zero.
   */
  lemma ThousandsForm(n: real)
    requires Thousand <= Round(n) < Million
    ensures var q := RoundDiv(Round(n), 100);
            FormatNum(n) == (if q % 10 == 0 then Digits(q / 10) else Digits(q / 10) + "." + Padded(q % 10, 1)) + "K"
  {
    var r := Round(n);
    var q := RoundDiv(r, 100);
    assert Pow10(1) == 10;
    assert ".0" == ['.'] + Zeros(1);
    FixedForm(q, 1, ".0");
    ThousandsBranch(n, r, ToFixed(q, 1), DropSuffix(ToFixed(q, 1), ".0"));
  }

  /** toFixed of q = w * 10^places + m with m < 10^places: w's digits, a point, m's padded digits. */
  lemma FixedSplit(q: nat, places: nat, w: nat, m: nat)
    requires places >= 1 && m < Pow10(places) && q == w * Pow10(places) + m
    ensures ToFixed(q, places) == Digits(w) + "." + Padded(m, places)
  {
    DivUnique(q, Pow10(places), w, m);
  }

  lemma DivUnique(q: int, p: int, w: int, m: int)
    requires p >= 1 && 0 <= m < p && q == w * p + m
    ensures q / p == w && q % p == m
  {
    var a := q / p;
    assert q == a * p + q % p && 0 <= q % p < p;
    if a < w {
      MulMonotone(p, a + 1, w);
    } else if a > w {
      MulMonotone(p, w + 1, a);
    }
  }

  /** An integer within half a unit of n / d, ties up, is its rounding. */
  lemma RoundDivNear(n: int, d: int, q: int)
    requires d > 0 && 2 * d * q - d <= 2 * n < 2 * d * q + d
    ensures RoundDiv(n, d) == q
  {
    NearestQuotientUnique(n, d, q, RoundDiv(n, d));
  }

  /** A number that already has `width` digits is not padded. */
  lemma PaddedFull(n: nat, width: nat)
    requires width >= 1 && n < Pow10(width) && |Digits(n)| == width
    ensures Padded(n, width) == Digits(n)
  {
    assert Zeros(0) == [];
  }

  /** The M branch at an amount whose hundredths of a million, q, are known. */
  lemma MillionsAt(n: real, q: nat, body: string)
    requires Round(n) >= Million && RoundDiv(Round(n), 10_000) == q
    requires q % 100 == 0 ==> body == Digits(q / 100)
    requires q % 100 != 0 ==> body == Digits(q / 100) + "." + Padded(q % 100, 2)
    ensures FormatNum(n) == body + "M"
  {
    MillionsForm(n);
  }

  /** The K branch at an amount whose tenths of a thousand, q, are known. */
  lemma ThousandsAt(n: real, q: nat, body: string)
    requires Thousand <= Round(n) < Million && RoundDiv(Round(n), 100) == q
    requires q % 10 == 0 ==> body == Digits(q / 10)
    requires q % 10 != 0 ==> body == Digits(q / 10) + "." + Padded(q % 10, 1)
    ensures FormatNum(n) == body + "K"
  {
    ThousandsForm(n);
  }

  /** One million prints as "1M": the ".00" is dropped. */
  lemma OneMillionExample()
    ensures FormatNum(1_000_000.0) == "1M"
  {
    RoundOfInteger(1_000_000);
    RoundDivNear(1_000_000, 10_000, 100);
    assert Digits(1) == "1";
    MillionsAt(1_000_000.0, 100, "1");
  }

  /** One and a half million prints as "1.50M": only a ".00" fraction is dropped, not a trailing zero. */
  lemma MillionAndAHalfExample()
    ensures FormatNum(1_500_000.0) == "1.50M"
  {
    RoundOfInteger(1_500_000);
    RoundDivNear(1_500_000, 10_000, 150);
    assert Digits(1) == "1";
    assert Digits(50) == "50";
    assert Pow10(2) == 100;
    PaddedFull(50, 2);
    MillionsAt(1_500_000.0, 150, "1.50");
  }

  /** 2500 prints as "2.5K". */
  lemma ThousandsExample()
    ensures FormatNum(2_500.0) == "2.5K"
  {
    RoundOfInteger(2_500);
    RoundDivNear(2_500, 100, 25);
    assert Digits(2) == "2";
    assert Digits(5) == "5";
    assert Pow10(1) == 10;
    PaddedFull(5, 1);
    ThousandsAt(2_500.0, 25, "2.5");
  }

  /** The lowest level-4 allocation, 1650, prints as "1.7K": an exact half tenth rounds up. */
  lemma HalfTenthExample()
    ensures FormatNum(1_650.0) == "1.7K"
  {
    RoundOfInteger(1_650);
    RoundDivNear(1_650, 100, 17);
    assert Digits(1) == "1";
    assert Digits(7) == "7";
    assert Pow10(1) == 10;
    PaddedFull(7, 1);
    ThousandsAt(1_650.0, 17, "1.7");
  }

  /** Below a thousand the amount prints plainly. */
  lemma PlainExample()
    ensures FormatNum(999.0) == "999"
  {
    RoundOfInteger(999);
    assert Digits(999) == "999";
  }

  /** Just under a million the thousands branch rounds up to "1000K" rather than "1M". */
  lemma RoundsUpToThousandK()
    ensures FormatNum(999_960.0) == "1000K"
  {
    RoundOfInteger(999_960);
    RoundDivNear(999_960, 100, 10_000);
    assert Digits(1000) == "1000";
    ThousandsAt(999_960.0, 10_000, "1000");
  }
}
