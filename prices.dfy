/** Price text cleaning and numeric parsing, as both halves of the pipeline
    do it: remove every '$' and ',', strip surrounding whitespace, then read
    the rest as a decimal number (concat_data.py's regex replace followed by
    pd.to_numeric, and get_anomalies' _parse_price followed by float()). */
module Prices {
  import opened Wrappers
  import opened Text

  /** Every character that is not '$' or ',', in order. */
  function RemoveCurrencyMarks(s: string): (r: string)
    ensures |r| <= |s|
    ensures forall i :: 0 <= i < |r| ==> r[i] != '$' && r[i] != ','
  {
    if s == [] then []
    else
      (if s[0] == '$' || s[0] == ',' then [] else [s[0]]) + RemoveCurrencyMarks(s[1..])
  }

  /** Removing the marks works piece by piece, so it keeps the order of what
      it keeps. */
  lemma {:induction false} RemoveCurrencyMarksAppend(a: string, b: string)
    ensures RemoveCurrencyMarks(a + b) == RemoveCurrencyMarks(a) + RemoveCurrencyMarks(b)
  {
    if a != [] {
      assert (a + b)[1..] == a[1..] + b;
      RemoveCurrencyMarksAppend(a[1..], b);
    } else {
      assert a + b == b;
    }
  }

  /** Text without marks is left alone. */
  lemma {:induction false} RemoveCurrencyMarksNone(s: string)
    requires forall i :: 0 <= i < |s| ==> s[i] != '$' && s[i] != ','
    ensures RemoveCurrencyMarks(s) == s
  {
    if s != [] {
      RemoveCurrencyMarksNone(s[1..]);
    }
  }

  /** The cleaned price text: marks removed, then whitespace stripped. */
  function CleanPrice(s: string): (r: string)
    ensures forall i :: 0 <= i < |r| ==> r[i] != '$' && r[i] != ','
    ensures r == [] || (!IsSpace(r[0]) && !IsSpace(r[|r| - 1]))
  {
    StripKeeps(RemoveCurrencyMarks(s), c => c != '$' && c != ',');
    Strip(RemoveCurrencyMarks(s))
  }

  // -------------------------------------------------------------------------
  // Decimal numbers

  /** The value of the digits after a decimal point: 0.d1 d2 d3 ... */
  function FracValue(s: string): (v: real)
    requires AllDigits(s)
    ensures 0.0 <= v <= 1.0
  {
    if s == [] then 0.0 else (DigitValue(s[0]) as real + FracValue(s[1..])) / 10.0
  }

  /** The number spelled by the digits before and after a decimal point; at
      least one digit is needed. */
  function PointedValue(whole: string, frac: string): (r: Option<real>)
    ensures r.Some? ==> r.value >= 0.0
    ensures r.Some? <==> AllDigits(whole) && AllDigits(frac) && |whole| + |frac| > 0
  {
    if AllDigits(whole) && AllDigits(frac) && |whole| + |frac| > 0 then
      Some(DigitsValue(whole) as real + FracValue(frac))
    else None
  }

  /** How an unsigned decimal is written: digits and at most one point,
      with at least one digit. */
  predicate UnsignedText(s: string)
  {
    (forall i :: 0 <= i < |s| ==> IsDigit(s[i]) || s[i] == '.') &&
    (forall i, j :: 0 <= i < j < |s| && s[i] == '.' ==> s[j] != '.') &&
    (exists i :: 0 <= i < |s| && IsDigit(s[i]))
  }

  /** Digits with at most one decimal point and at least one digit:
      "12", "12.5", "12.", ".5". */
  function ParseUnsigned(s: string): (r: Option<real>)
    ensures r.Some? <==> UnsignedText(s)
    ensures r.Some? ==> r.value >= 0.0
  {
    var k := IndexOf(s, '.');
    UnsignedShape(s, k);
    PointedValue(s[..k], if k < |s| then s[k + 1..] else [])
  }

  /** Split at its first point, a text is digits, a point and digits with
      some digit exactly when it is written as an unsigned decimal. */
  lemma UnsignedShape(s: string, k: nat)
    requires k == IndexOf(s, '.')
    ensures var rest := if k < |s| then s[k + 1..] else [];
      AllDigits(s[..k]) && AllDigits(rest) && k + |rest| > 0 <==> UnsignedText(s)
  {
    var rest := if k < |s| then s[k + 1..] else [];
    if AllDigits(s[..k]) && AllDigits(rest) && k + |rest| > 0 {
      forall i | 0 <= i < |s| && i != k
        ensures IsDigit(s[i])
      {
        if i < k {
          assert s[i] == s[..k][i];
        } else {
          assert s[i] == rest[i - k - 1];
        }
      }
      if k > 0 {
        assert IsDigit(s[0]);
      } else {
        assert IsDigit(s[k + 1]);
      }
    }
    if UnsignedText(s) {
      forall i | 0 <= i < k
        ensures IsDigit(s[..k][i])
      {
        assert s[..k][i] == s[i];
      }
      if k < |s| {
        forall i | 0 <= i < |rest|
          ensures IsDigit(rest[i])
        {
          assert rest[i] == s[k + 1 + i];
        }
      }
      var d :| 0 <= d < |s| && IsDigit(s[d]);
      assert d != k || k == |s|;
    }
  }

  /** A decimal number as float() and pd.to_numeric read it: an optional sign
      followed by an unsigned decimal. */
  function ParseDecimal(s: string): (r: Option<real>)
    ensures r.Some? <==> |s| > 0 && UnsignedText(if s[0] == '-' || s[0] == '+' then s[1..] else s)
    ensures r.Some? ==> |s| > 0 && forall i :: 1 <= i < |s| ==> IsDigit(s[i]) || s[i] == '.'
    ensures r.Some? && s[0] != '-' ==> r.value >= 0.0
  {
    if |s| > 0 && (s[0] == '-' || s[0] == '+') then
      match ParseUnsigned(s[1..])
      case None => None
      case Some(v) => Some(if s[0] == '-' then -v else v)
    else ParseUnsigned(s)
  }

  /** A price cell: the cleaned text read as a decimal; None when the text is
      not a number (pandas' errors="coerce" turns it into NaN). */
  function ParsePrice(s: string): (r: Option<real>)
    ensures var c := CleanPrice(s);
      r.Some? <==> |c| > 0 && UnsignedText(if c[0] == '-' || c[0] == '+' then c[1..] else c)
    ensures r.Some? ==> |CleanPrice(s)| > 0 && (CleanPrice(s)[0] != '-' ==> r.value >= 0.0)
  {
    ParseDecimal(CleanPrice(s))
  }

  // -------------------------------------------------------------------------
  // Round trip: a price printed as dollars and cents reads back as its value

  function DigitChar(d: nat): (c: char)
    requires d < 10
    ensures IsDigit(c) && DigitValue(c) == d
  {
    ('0' as int + d) as char
  }

  /** The decimal digits of n, without leading zeros. */
  function NatToString(n: nat): (s: string)
    ensures |s| > 0 && AllDigits(s)
    ensures DigitsValue(s) == n
  {
    if n < 10 then
      assert [DigitChar(n)][..0] == [];
      [DigitChar(n)]
    else
      var s := NatToString(n / 10) + [DigitChar(n % 10)];
      assert s[..|s| - 1] == NatToString(n / 10);
      s
  }

  /** cents as "D.CC": whole dollars, a point and two digits of cents. */
  function FormatCents(cents: nat): (s: string)
  {
    NatToString(cents / 100) + "." + [DigitChar(cents % 100 / 10), DigitChar(cents % 10)]
  }

  lemma TwoDigitFraction(a: nat, b: nat)
    requires a < 10 && b < 10
    ensures FracValue([DigitChar(a), DigitChar(b)]) == (10 * a + b) as real / 100.0
  {
    var f := [DigitChar(a), DigitChar(b)];
    assert f[1..][1..] == [];
    assert FracValue(f[1..]) == b as real / 10.0;
  }

  /** A sign only sets the sign of the unsigned value after it. */
  lemma ParseSigned(t: string)
    ensures ParseDecimal("-" + t) == if ParseUnsigned(t).Some? then Some(-ParseUnsigned(t).value) else None
    ensures ParseDecimal("+" + t) == ParseUnsigned(t)
  {
    NegativeText(t);
    assert ("+" + t)[0] == '+' && ("+" + t)[1..] == t;
  }

  lemma NegativeText(t: string)
    ensures ParseDecimal("-" + t) == if ParseUnsigned(t).Some? then Some(-ParseUnsigned(t).value) else None
  {
    assert ("-" + t)[0] == '-' && ("-" + t)[1..] == t;
  }

  /** Digits without a point read as the whole number they spell. */
  lemma ParseWhole(w: string)
    requires |w| > 0 && AllDigits(w)
    ensures ParseDecimal(w) == Some(DigitsValue(w) as real)
  {
    assert IsDigit(w[0]);
    assert ParseDecimal(w) == ParseUnsigned(w);
    WholeIsUnsigned(w);
    PointedValueOf(w, []);
  }

  lemma WholeIsUnsigned(w: string)
    requires |w| > 0 && AllDigits(w)
    ensures ParseUnsigned(w) == PointedValue(w, [])
  {
    var k := IndexOf(w, '.');
    if k < |w| {
      assert false;
    }
    assert w[..k] == w;
  }

  /** A second point, or no digit at all, is not a number. */
  lemma ParseRejectsMalformed()
    ensures ParseDecimal("1.2.3") == None
    ensures ParseDecimal(".") == None
    ensures ParseDecimal("-") == None
  {
    assert "1.2.3"[1] == '.' && "1.2.3"[3] == '.';
    assert !IsDigit("."[0]);
    assert "-"[1..] == [];
  }

  /** Whole part, point and fraction digits read as whole + fraction. */
  lemma ParsePointed(w: string, f: string)
    requires AllDigits(w) && AllDigits(f) && |w| + |f| > 0
    ensures ParseDecimal(w + "." + f) == Some(DigitsValue(w) as real + FracValue(f))
  {
    PointedIsUnsigned(w, f);
    UnsignedPointed(w, f);
    PointedValueOf(w, f);
  }

  lemma PointedValueOf(w: string, f: string)
    requires AllDigits(w) && AllDigits(f) && |w| + |f| > 0
    ensures PointedValue(w, f) == Some(DigitsValue(w) as real + FracValue(f))
  {
  }

  /** A text opening with a digit or the point carries no sign. */
  lemma PointedIsUnsigned(w: string, f: string)
    requires AllDigits(w)
    ensures ParseDecimal(w + "." + f) == ParseUnsigned(w + "." + f)
  {
    var s := w + "." + f;
    if w != [] {
      assert s[0] == w[0] && IsDigit(w[0]);
    } else {
      assert s[0] == '.';
    }
  }

  lemma UnsignedPointed(w: string, f: string)
    requires AllDigits(w) && AllDigits(f) && |w| + |f| > 0
    ensures ParseUnsigned(w + "." + f) == PointedValue(w, f)
  {
    var s := w + "." + f;
    IndexOfAfter(w, '.', f);
    assert s[..|w|] == w;
    assert s[|w| + 1..] == f;
  }

  /** Reading back a formatted amount gives the amount. */
  lemma ParseFormatCents(cents: nat)
    ensures ParseDecimal(FormatCents(cents)) == Some(cents as real / 100.0)
  {
    var w := NatToString(cents / 100);
    var f := [DigitChar(cents % 100 / 10), DigitChar(cents % 10)];
    assert FormatCents(cents) == w + "." + f;
    ParsePointed(w, f);
    TwoDigitFraction(cents % 100 / 10, cents % 10);
    DollarsAndCents(cents);
  }

  lemma DollarsAndCents(cents: nat)
    ensures cents as real / 100.0 ==
            (cents / 100) as real + (10 * (cents % 100 / 10) + cents % 10) as real / 100.0
  {
    assert cents == 100 * (cents / 100) + 10 * (cents % 100 / 10) + cents % 10;
  }

  /** Padding in spaces and a leading dollar sign disappear in cleaning. */
  lemma CleanPadded(t: string)
    requires t != [] && !IsSpace(t[0]) && !IsSpace(t[|t| - 1])
    requires forall i :: 0 <= i < |t| ==> t[i] != '$' && t[i] != ','
    ensures CleanPrice(" $" + t + " ") == t
  {
    RemoveCurrencyMarksNone(t);
    RemoveCurrencyMarksAppend(" $", t);
    RemoveCurrencyMarksAppend(" $" + t, " ");
    assert RemoveCurrencyMarks(" $") == " " by {
      assert " $"[1..] == "$";
      assert "$"[1..] == "";
    }
    assert RemoveCurrencyMarks(" ") == " " by {
      assert " "[1..] == "";
    }
    assert RemoveCurrencyMarks(" $" + t + " ") == " " + t + " ";
    StripPadded(t);
  }

  /** A price shown on the site as "$D.CC", surrounding spaces and all, is
      read as D.CC. */
  lemma ParsePriceOfDisplayedPrice(cents: nat)
    ensures ParsePrice(" $" + FormatCents(cents) + " ") == Some(cents as real / 100.0)
  {
    var w := NatToString(cents / 100);
    var t := FormatCents(cents);
    assert t == w + "." + [DigitChar(cents % 100 / 10), DigitChar(cents % 10)];
    assert forall i :: 0 <= i < |w| ==> IsDigit(t[i]);
    assert forall i :: 0 <= i < |t| ==> IsDigit(t[i]) || t[i] == '.';
    CleanPadded(t);
    ParseFormatCents(cents);
  }

  /** A dollar sign in front and a thousands separator in the middle both
      go. */
  lemma RemoveMarksAround(x: string, y: string)
    requires forall i :: 0 <= i < |x| ==> x[i] != '$' && x[i] != ','
    requires forall i :: 0 <= i < |y| ==> y[i] != '$' && y[i] != ','
    ensures RemoveCurrencyMarks("$" + x + "," + y) == x + y
  {
    MarkDroppedFront('$', x);
    MarkDroppedBack("$" + x, ',');
    RemoveCurrencyMarksAppend("$" + x + ",", y);
    RemoveCurrencyMarksNone(x);
    RemoveCurrencyMarksNone(y);
  }

  lemma MarkDroppedFront(c: char, b: string)
    requires c == '$' || c == ','
    ensures RemoveCurrencyMarks([c] + b) == RemoveCurrencyMarks(b)
  {
    assert ([c] + b)[1..] == b;
  }

  lemma MarkDroppedBack(a: string, c: char)
    requires c == '$' || c == ','
    ensures RemoveCurrencyMarks(a + [c]) == RemoveCurrencyMarks(a)
  {
    RemoveCurrencyMarksAppend(a, [c]);
    assert [c][1..] == [];
  }

  lemma DigitsExample()
    ensures AllDigits("1234") && DigitsValue("1234") == 1234
    ensures AllDigits("50") && FracValue("50") == 0.5
  {
    assert "1234"[..3] == "123";
    assert "123"[..2] == "12";
    assert "12"[..1] == "1";
    assert "1"[..0] == "";
    assert "50"[1..] == "0";
    assert "0"[1..] == "";
  }

  lemma CleanPriceExample()
    ensures CleanPrice("$1,234.50") == "1234.50"
  {
    var x, y := "1", "234.50";
    assert "$1,234.50" == "$" + x + "," + y;
    RemoveMarksAround(x, y);
    assert x + y == "1234.50";
    StripTrimmed(x + y);
  }

  lemma ParseDecimalExample()
    ensures ParseDecimal("1234.50") == Some(1234.5)
  {
    assert "1234.50" == "1234" + "." + "50";
    DigitsExample();
    ParsePointed("1234", "50");
  }

  /** Thousands separators and the dollar sign are dropped before parsing. */
  lemma ParsePriceExample()
    ensures ParsePrice("$1,234.50") == Some(1234.5)
  {
    CleanPriceExample();
    ParseDecimalExample();
  }

  /** Text that is not a number is not a price. */
  lemma ParsePriceRejects()
    ensures ParsePrice("N/A") == None
    ensures ParsePrice("") == None
  {
    CleanNotANumber();
    UnsignedNotANumber();
    assert ParseDecimal("N/A") == ParseUnsigned("N/A");
    assert RemoveCurrencyMarks("") == "";
  }

  lemma CleanNotANumber()
    ensures CleanPrice("N/A") == "N/A"
  {
    RemoveCurrencyMarksNone("N/A");
    StripTrimmed("N/A");
  }

  lemma UnsignedNotANumber()
    ensures ParseUnsigned("N/A") == None
  {
    assert !IsDigit("N/A"[0]);
  }
}
