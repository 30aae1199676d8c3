/**
 * Python 2's `float()` on the decimal texts a quote page shows, on exact
 * reals: optional surrounding whitespace, an optional sign, then digits with
 * at most one decimal point and at least one digit. `None` stands for the
 * `ValueError` that `float()` raises on anything else.
 */
module Numbers {
  import opened Wrappers
  import opened Text

  predicate IsDigit(c: char) { '0' <= c <= '9' }

  /** Every character is a digit (stated recursively, last character first, as `DigitsValue` reads it). */
  predicate AllDigits(s: string) {
    |s| == 0 || (AllDigits(s[..|s| - 1]) && IsDigit(s[|s| - 1]))
  }

  lemma {:induction false} AllDigitsIff(s: string)
    ensures AllDigits(s) <==> forall i :: 0 <= i < |s| ==> IsDigit(s[i])
  {
    if |s| > 0 {
      var p := s[..|s| - 1];
      AllDigitsIff(p);
      assert forall i :: 0 <= i < |p| ==> p[i] == s[i];
    }
  }

  function DigitValue(c: char): nat
    requires IsDigit(c)
  {
    c as int - '0' as int
  }

  /** The value of a digit string read in base 10 (the empty string reads as 0). */
  function DigitsValue(ds: string): nat
    requires AllDigits(ds)
  {
    if |ds| == 0 then 0
    else DigitsValue(ds[..|ds| - 1]) * 10 + DigitValue(ds[|ds| - 1])
  }

  function Pow10(n: nat): (r: nat)
    ensures r >= 1
  {
    if n == 0 then 1 else 10 * Pow10(n - 1)
  }

  /** The value of the numeral `whole.frac`. */
  function DecimalValue(whole: string, frac: string): real
    requires AllDigits(whole) && AllDigits(frac)
  {
    DigitsValue(whole) as real + DigitsValue(frac) as real / Pow10(|frac|) as real
  }

  /** An unsigned decimal numeral: digits, optionally a point and more digits, at least one digit. */
  function ParseUnsigned(s: string): Option<real> {
    if '.' in s then
      var i := IndexOf(s, '.');
      var whole, frac := s[..i], s[i + 1..];
      if AllDigits(whole) && AllDigits(frac) && |whole| + |frac| > 0 then
        Some(DecimalValue(whole, frac))
      else None
    else if AllDigits(s) && |s| > 0 then Some(DigitsValue(s) as real)
    else None
  }

  /** `float(s)` */
  function ParseFloat(s: string): Option<real> {
    var t := Trim(s);
    if |t| > 0 && (t[0] == '+' || t[0] == '-') then
      match ParseUnsigned(t[1..])
      case None => None
      case Some(v) => Some(if t[0] == '-' then -v else v)
    else ParseUnsigned(t)
  }

  /** `float(s.replace(',', ''))`: the parse every numeric cell of a quote row goes through. */
  function ParseNumber(s: string): Option<real> {
    ParseFloat(StripCommas(s))
  }

  // ---------------------------------------------------------------------
  // A formatter for whole numbers, the partner of the parser

  function DigitChar(d: nat): (c: char)
    requires d < 10
    ensures IsDigit(c) && DigitValue(c) == d
  {
    (d + '0' as int) as char
  }

  /** The decimal numeral of `n`, without sign or separators. */
  function FormatNat(n: nat): (s: string)
    ensures |s| > 0 && AllDigits(s)
  {
    if n < 10 then [DigitChar(n)] else FormatNat(n / 10) + [DigitChar(n % 10)]
  }

  /** `str(n)` for a whole number: a minus sign in front of negative numbers. */
  function FormatInt(n: int): string {
    if n < 0 then "-" + FormatNat(-n) else FormatNat(n)
  }

  lemma {:induction false} DigitsValueFormat(n: nat)
    ensures DigitsValue(FormatNat(n)) == n
  {
    if n >= 10 {
      DigitsValueFormat(n / 10);
      var s := FormatNat(n);
      assert s[..|s| - 1] == FormatNat(n / 10);
    }
  }

  /** A non-empty digit string parses as its base-10 value. */
  lemma ParseUnsignedWhole(d: string)
    requires |d| > 0 && AllDigits(d)
    ensures ParseUnsigned(d) == Some(DigitsValue(d) as real)
  {
    AllDigitsIff(d);
    assert '.' !in d by {
      forall k | 0 <= k < |d| ensures d[k] != '.' { assert IsDigit(d[k]); }
    }
  }

  /** Digits, a point and digits parse as the whole part plus the scaled fraction. */
  lemma ParseUnsignedPoint(whole: string, frac: string)
    requires AllDigits(whole) && AllDigits(frac) && |whole| + |frac| > 0
    ensures ParseUnsigned(whole + "." + frac) == Some(DecimalValue(whole, frac))
  {
    var s := whole + "." + frac;
    AllDigitsIff(whole);
    assert '.' !in whole by {
      forall k | 0 <= k < |whole| ensures whole[k] != '.' { assert IsDigit(whole[k]); }
    }
    assert s[|whole|] == '.' && s[..|whole|] == whole;
    IndexOfAt(s, '.', |whole|);
    var i := IndexOf(s, '.');
    assert s[..i] == whole;
    assert s[i + 1..] == frac;
  }

  /** Without surrounding whitespace or a sign, `float()` is the unsigned parse. */
  lemma ParseFloatPlain(s: string)
    requires |s| > 0 ==> !IsSpace(s[0]) && !IsSpace(s[|s| - 1])
    requires |s| > 0 ==> s[0] != '+' && s[0] != '-'
    ensures ParseFloat(s) == ParseUnsigned(s)
  {
    TrimUntouched(s);
  }

  /** Parsing a formatted whole number gives the number back. */
  lemma ParseFormatInt(n: int)
    ensures ParseFloat(FormatInt(n)) == Some(n as real)
  {
    var m: nat := if n < 0 then -n else n;
    var d := FormatNat(m);
    DigitsValueFormat(m);
    ParseUnsignedWhole(d);
    AllDigitsIff(d);
    assert IsDigit(d[0]) && IsDigit(d[|d| - 1]);
    var s := FormatInt(n);
    if n < 0 {
      assert s == "-" + d && s[1..] == d;
      TrimUntouched(s);
    } else {
      ParseFloatPlain(d);
    }
  }

  /** Thousands separators do not change what a numeric cell parses to. */
  lemma SeparatorIgnored(a: string, b: string)
    ensures ParseNumber(a + "," + b) == ParseNumber(a + b)
  {
    CommaIgnored(a, b);
  }

  /** Parsing the digits `n` with thousands separators inserted gives `n` back. */
  lemma ParseGrouped(n: nat, i: nat)
    requires i <= |FormatNat(n)|
    ensures ParseNumber(FormatNat(n)[..i] + "," + FormatNat(n)[i..]) == Some(n as real)
  {
    var d := FormatNat(n);
    assert d[..i] + d[i..] == d;
    SeparatorIgnored(d[..i], d[i..]);
    ParseFormatNat(n);
  }

  /** A formatted whole number, read as a numeric cell, gives the number back. */
  lemma ParseFormatNat(n: nat)
    ensures ParseNumber(FormatNat(n)) == Some(n as real)
  {
    var d := FormatNat(n);
    assert ',' !in d by {
      AllDigitsIff(d);
      forall k | 0 <= k < |d| ensures d[k] != ',' { assert IsDigit(d[k]); }
    }
    StripCommasNoComma(d);
    ParseFormatInt(n);
    assert FormatInt(n) == d;
  }

  /** A plain decimal numeral (no sign, no blanks) is what `float()` reads it as. */
  lemma ParseFloatDecimal(whole: string, frac: string)
    requires |whole| > 0 && AllDigits(whole) && AllDigits(frac)
    ensures ParseFloat(whole + "." + frac) == Some(DecimalValue(whole, frac))
  {
    var s := whole + "." + frac;
    ParseUnsignedPoint(whole, frac);
    AllDigitsIff(whole);
    AllDigitsIff(frac);
    assert s[0] == whole[0] && IsDigit(whole[0]);
    if |frac| > 0 { assert s[|s| - 1] == frac[|frac| - 1] && IsDigit(frac[|frac| - 1]); }
    ParseFloatPlain(s);
  }

  lemma DecimalNoComma(whole: string, frac: string)
    requires AllDigits(whole) && AllDigits(frac)
    ensures ',' !in whole + "." + frac
  {
    var s := whole + "." + frac;
    AllDigitsIff(whole);
    AllDigitsIff(frac);
    forall k | 0 <= k < |s| ensures s[k] != ',' {
      if k < |whole| { assert IsDigit(whole[k]); }
      else if k > |whole| { assert IsDigit(frac[k - |whole| - 1]); }
    }
  }

  /** Removing the separator from `high,low.frac` leaves the plain numeral. */
  lemma StripGroupedDecimal(high: string, low: string, frac: string)
    requires AllDigits(high + low) && AllDigits(frac)
    ensures StripCommas(high + "," + low + "." + frac) == high + low + "." + frac
  {
    assert high + "," + low + "." + frac == high + "," + (low + "." + frac);
    CommaIgnored(high, low + "." + frac);
    assert high + (low + "." + frac) == high + low + "." + frac;
    DecimalNoComma(high + low, frac);
    StripCommasNoComma(high + low + "." + frac);
  }

  /** Digits with a thousands separator and a fractional part read as the separator-free numeral. */
  lemma ParseGroupedDecimal(high: string, low: string, frac: string)
    requires |high| > 0 && AllDigits(high + low) && AllDigits(frac)
    ensures ParseNumber(high + "," + low + "." + frac) == Some(DecimalValue(high + low, frac))
  {
    StripGroupedDecimal(high, low, frac);
    ParseFloatDecimal(high + low, frac);
  }

  /** The digits `1234` read as one thousand two hundred and thirty-four. */
  lemma DigitsValueExample(w: string)
    requires w == "1234"
    ensures AllDigits(w) && DigitsValue(w) == 1234
  {
    assert w[..3] == "123" && "123"[..2] == "12" && "12"[..1] == "1" && "1"[..0] == "";
  }

  /** The price text `1,234.50` reads as 1234.5. */
  lemma ParseThousandsExample(cell: string)
    requires cell == "1,234.50"
    ensures ParseNumber(cell) == Some(1234.5)
  {
    var high, low, frac := "1", "234", "50";
    DigitsValueExample(high + low);
    assert AllDigits(high) && AllDigits(low) && AllDigits(frac) by {
      assert "234"[..2] == "23" && "23"[..1] == "2" && "50"[..1] == "5";
    }
    assert DigitsValue(frac) == 50 by { assert "50"[..1] == "5" && "5"[..0] == ""; }
    ParseGroupedDecimal(high, low, frac);
    assert high + "," + low + "." + frac == cell;
    assert Pow10(2) == 100;
  }

  lemma {:induction false} ParseUnsignedHasDigit(u: string)
    requires ParseUnsigned(u).Some?
    ensures exists i :: 0 <= i < |u| && IsDigit(u[i])
  {
    if '.' in u {
      var i := IndexOf(u, '.');
      var whole, frac := u[..i], u[i + 1..];
      AllDigitsIff(whole);
      AllDigitsIff(frac);
      if i > 0 { assert IsDigit(whole[0]); }
      else { assert IsDigit(frac[0]) && frac[0] == u[i + 1]; }
    } else {
      AllDigitsIff(u);
      assert IsDigit(u[0]);
    }
  }

  /** A cell with no digit in it never parses: it yields `ValueError`. */
  lemma NoDigitNoNumber(s: string)
    requires forall i :: 0 <= i < |s| ==> !IsDigit(s[i])
    ensures ParseNumber(s) == None
  {
    var c := StripCommas(s);
    StripCommasSpec(s);
    var t := Trim(c);
    assert forall i :: 0 <= i < |t| ==> !IsDigit(t[i]) by {
      TrimStartSuffix(c);
      TrimEndPrefix(TrimStart(c));
      forall i | 0 <= i < |t| ensures !IsDigit(t[i]) {
        var ts := TrimStart(c);
        assert t[i] == ts[i];
        assert ts[i] == c[|c| - |ts| + i];
        assert c[|c| - |ts| + i] in s;
      }
    }
    if ParseNumber(s).Some? {
      if |t| > 0 && (t[0] == '+' || t[0] == '-') {
        ParseUnsignedHasDigit(t[1..]);
      } else {
        ParseUnsignedHasDigit(t);
      }
    }
  }

  /** The placeholders a quote page shows for a missing number do not parse. */
  lemma PlaceholdersDoNotParse(cell: string)
    requires cell == "-" || cell == "" || cell == "N/A"
    ensures ParseNumber(cell) == None
  {
    NoDigitNoNumber(cell);
  }
}
