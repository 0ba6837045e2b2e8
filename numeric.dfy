/**
 * `DataExtractor.extract_numeric_value`: the value of the first match of the
 * regular expression `\d+\.?\d*` in a cell's text, converted with `float`.
 * Values are exact decimals (`real`); binary floating-point rounding is not
 * modelled.
 */
module Numeric {
  import opened Wrappers
  import opened Text

  /** The integer written by a string of decimal digits (most significant first). */
  function DigitsValue(ds: string): nat
    requires AllDigits(ds)
  {
    if ds == [] then 0 else DigitsValue(ds[..|ds| - 1]) * 10 + DigitValue(ds[|ds| - 1])
  }

  /** The value of the digits written after a decimal point: "5" is 0.5, "25" is 0.25. */
  function FracValue(ds: string): (v: real)
    requires AllDigits(ds)
    ensures 0.0 <= v <= 1.0
  {
    if ds == [] then 0.0 else (DigitValue(ds[0]) as real + FracValue(ds[1..])) / 10.0
  }

  /** The value of the decimal numeral `whole.frac`. */
  function DecimalValue(whole: string, frac: string): real
    requires AllDigits(whole) && AllDigits(frac)
  {
    DigitsValue(whole) as real + FracValue(frac)
  }

  /** The length of the longest prefix of `s` made of digits: a greedy `\d*`. */
  function DigitRun(s: string): (n: nat)
    ensures n <= |s| && AllDigits(s[..n])
    ensures n == |s| || !IsDigit(s[n])
  {
    if s != [] && IsDigit(s[0]) then
      var n := 1 + DigitRun(s[1..]);
      assert s[..n] == [s[0]] + s[1..][..n - 1];
      n
    else 0
  }

  /**
   * The value of the regex match that starts at the first character of `s`,
   * which is a digit: `\d+` greedily, then an optional '.', then `\d*`.
   */
  function NumberAt(s: string): (v: real)
    requires s != [] && IsDigit(s[0])
    ensures v >= 0.0
  {
    var n := DigitRun(s);
    if n < |s| && s[n] == '.' then
      var frac := s[n + 1..][..DigitRun(s[n + 1..])];
      DecimalValue(s[..n], frac)
    else
      DigitsValue(s[..n]) as real
  }

  /** `re.search` finds the leftmost match; the pattern can only start at a digit. */
  function ExtractNumericValue(text: string): (r: Option<real>)
    ensures r.None? <==> NoDigits(text)
    ensures r.Some? ==> r.value >= 0.0
  {
    if text == [] then None
    else if IsDigit(text[0]) then Some(NumberAt(text))
    else
      var r := ExtractNumericValue(text[1..]);
      assert NoDigits(text[1..]) <==> NoDigits(text) by {
        assert forall i :: 1 <= i < |text| ==> text[i] == text[1..][i - 1];
      }
      r
  }

  lemma {:induction false} DigitRunOf(ds: string, rest: string)
    requires AllDigits(ds)
    requires rest == [] || !IsDigit(rest[0])
    ensures DigitRun(ds + rest) == |ds|
  {
    if ds != [] {
      assert (ds + rest)[1..] == ds[1..] + rest;
      DigitRunOf(ds[1..], rest);
    } else {
      assert ds + rest == rest;
    }
  }

  lemma {:induction false} SkipPrefix(prefix: string, s: string)
    requires NoDigits(prefix)
    ensures ExtractNumericValue(prefix + s) == ExtractNumericValue(s)
  {
    if prefix != [] {
      assert (prefix + s)[1..] == prefix[1..] + s;
      SkipPrefix(prefix[1..], s);
    } else {
      assert prefix + s == s;
    }
  }

  lemma NumberAtDecimal(whole: string, frac: string, suffix: string)
    requires AllDigits(whole) && whole != [] && AllDigits(frac)
    requires suffix == [] || !IsDigit(suffix[0])
    ensures NumberAt(whole + ['.'] + frac + suffix) == DecimalValue(whole, frac)
  {
    DecimalLayout(whole, frac, suffix);
  }

  /** Where the greedy digit runs stop in `whole.frac` followed by a non-digit. */
  lemma DecimalLayout(whole: string, frac: string, suffix: string)
    requires AllDigits(whole) && AllDigits(frac)
    requires suffix == [] || !IsDigit(suffix[0])
    ensures var s := whole + ['.'] + frac + suffix;
      && DigitRun(s) == |whole| && s[..|whole|] == whole && s[|whole|] == '.'
      && s[|whole| + 1..][..DigitRun(s[|whole| + 1..])] == frac
  {
    WholeRun(whole, ['.'] + frac + suffix);
    FracRun(frac, suffix);
    assert whole + ['.'] + frac + suffix == whole + (['.'] + frac + suffix);
    assert (whole + (['.'] + frac + suffix))[|whole| + 1..] == frac + suffix;
  }

  lemma WholeRun(whole: string, tail: string)
    requires AllDigits(whole) && tail != [] && tail[0] == '.'
    ensures var s := whole + tail;
      DigitRun(s) == |whole| && s[..|whole|] == whole && s[|whole|] == '.'
  {
    DigitRunOf(whole, tail);
    assert (whole + tail)[..|whole|] == whole;
  }

  lemma FracRun(frac: string, suffix: string)
    requires AllDigits(frac)
    requires suffix == [] || !IsDigit(suffix[0])
    ensures (frac + suffix)[..DigitRun(frac + suffix)] == frac
  {
    DigitRunOf(frac, suffix);
    assert (frac + suffix)[..|frac|] == frac;
  }

  /**
   * The value of a decimal number is found whatever text surrounds it, as long
   * as no digit comes before it and no digit continues it:
   * "95.5 mg/dL" gives 95.5 and "1.2.3" gives 1.2.
   */
  lemma ExtractDecimal(prefix: string, whole: string, frac: string, suffix: string)
    requires NoDigits(prefix) && AllDigits(whole) && whole != [] && AllDigits(frac)
    requires suffix == [] || !IsDigit(suffix[0])
    ensures ExtractNumericValue(prefix + whole + ['.'] + frac + suffix)
         == Some(DecimalValue(whole, frac))
  {
    var s := whole + ['.'] + frac + suffix;
    var t := prefix + whole + ['.'] + frac + suffix;
    assert t == prefix + s;
    SkipPrefix(prefix, s);
    assert s[0] == whole[0];
    NumberAtDecimal(whole, frac, suffix);
    calc {
      ExtractNumericValue(t);
      ExtractNumericValue(s);
      Some(NumberAt(s));
    }
  }

  /**
   * A whole number not followed by a digit or a decimal point is read as that
   * integer: "-5" gives 5, so no extracted value is negative.
   */
  lemma ExtractWhole(prefix: string, whole: string, suffix: string)
    requires NoDigits(prefix) && AllDigits(whole) && whole != []
    requires suffix == [] || (!IsDigit(suffix[0]) && suffix[0] != '.')
    ensures ExtractNumericValue(prefix + whole + suffix) == Some(DigitsValue(whole) as real)
  {
    var s := whole + suffix;
    assert prefix + whole + suffix == prefix + s;
    SkipPrefix(prefix, s);
    assert s[0] == whole[0];
    DigitRunOf(whole, suffix);
    assert s[..|whole|] == whole;
  }

  /** "95.5 mg/dL" reads as 95.5. */
  lemma ExtractWithUnit()
    ensures ExtractNumericValue("95.5 mg/dL") == Some(95.5)
  {
    ExtractDecimal("", "95", "5", " mg/dL");
    UnitExampleParts();
  }

  lemma UnitExampleParts()
    ensures "" + "95" + ['.'] + "5" + " mg/dL" == "95.5 mg/dL"
    ensures DecimalValue("95", "5") == 95.5
  {
    assert DigitsValue("95") == 95 by {
      assert "95"[..1] == "9";
      assert DigitsValue("9") == 9 by { assert "9"[..0] == ""; }
    }
    assert FracValue("5") == 0.5 by { assert "5"[1..] == ""; }
  }

  /** "1.2.3" reads as 1.2: the match stops before the second point. */
  lemma ExtractStopsAtSecondPoint()
    ensures ExtractNumericValue("1.2.3") == Some(1.2)
  {
    ExtractDecimal("", "1", "2", ".3");
    SecondPointExampleParts();
  }

  lemma SecondPointExampleParts()
    ensures "" + "1" + ['.'] + "2" + ".3" == "1.2.3"
    ensures DecimalValue("1", "2") == 1.2
  {
    assert DigitsValue("1") == 1 by { assert "1"[..0] == ""; }
    assert FracValue("2") == 0.2 by { assert "2"[1..] == ""; }
  }

  /** "-5" reads as 5: the sign is not part of the pattern. */
  lemma ExtractIgnoresSign()
    ensures ExtractNumericValue("-5") == Some(5.0)
  {
    ExtractWhole("-", "5", "");
    assert "-" + "5" + "" == "-5";
    assert DigitsValue("5") == 5 by { assert "5"[..0] == ""; }
  }

  /** The cell text "120" reads as the value 120. */
  lemma WholeNumberExample()
    ensures ExtractNumericValue("120") == Some(120.0)
  {
    ExtractWhole("", "120", "");
    assert "" + "120" + "" == "120";
    assert DigitsValue("120") == 120 by {
      assert "120"[..2] == "12" && "12"[..1] == "1" && "1"[..0] == "";
    }
  }
}
