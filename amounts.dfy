/** The open balance column: thousands separators removed, then read as an exact
    decimal number. Amounts are Dafny reals, so no rounding ever happens. */
module Amounts {
  import opened Seqs
  import opened Text
  import opened Results
  import opened Cells

  function Pow10(n: nat): (p: nat)
    ensures p >= 1
  {
    if n == 0 then 1 else 10 * Pow10(n - 1)
  }

  predicate NotComma(c: char)
  {
    c != ','
  }

  /** Every ',' removed, every other character kept in order. */
  function StripCommas(s: string): (r: string)
    ensures ',' !in r
  {
    KeepCount(s, NotComma, ',');
    Keep(s, NotComma)
  }

  /** Each character other than ',' occurs as often as in the input; ',' not at all. */
  lemma StripCommasCounts(s: string)
    ensures multiset(StripCommas(s)) == multiset(s)[',' := 0]
  {
    var r := StripCommas(s);
    forall c ensures multiset(r)[c] == multiset(s)[',' := 0][c] {
      KeepCount(s, NotComma, c);
    }
  }

  /** The characters that remain keep their order. */
  lemma StripCommasKeepsOrder(s: string)
    ensures IsSubseq(StripCommas(s), s)
  {
    KeepIsSubseq(s, NotComma);
  }

  /** Position of the first `c` in `s`, or `|s|` when there is none. */
  function IndexOf(s: string, c: char): (k: nat)
    ensures k <= |s|
    ensures k < |s| ==> s[k] == c
    ensures c !in s[..k]
  {
    if s == [] then 0
    else if s[0] == c then 0
    else
      var k := 1 + IndexOf(s[1..], c);
      assert s[..k] == [s[0]] + s[1..][..k - 1];
      k
  }

  /** The number written by a digit run, a point and a digit run. */
  function PointValue(whole: string, frac: string): (v: real)
    requires AllDigits(whole) && AllDigits(frac)
    ensures v >= 0.0
  {
    DigitsValue(whole) as real + DigitsValue(frac) as real / Pow10(|frac|) as real
  }

  /** Digits with an optional decimal point, at least one digit in all:
      "12", "12.5", "12.", ".5". */
  function ParseUnsigned(t: string): (r: Option<real>)
    ensures r.Some? ==> |t| > 0 && r.value >= 0.0
    ensures r.Some? ==> forall i :: 0 <= i < |t| ==> IsDigit(t[i]) || t[i] == '.'
  {
    var k := IndexOf(t, '.');
    var whole := t[..k];
    var frac := if k < |t| then t[k + 1..] else "";
    if AllDigits(whole) && AllDigits(frac) && |whole| + |frac| > 0
    then Some(PointValue(whole, frac))
    else None
  }

  /** `float(t)` for plain decimal texts, with an optional leading sign. */
  function ParseDecimal(t: string): (r: Option<real>)
    ensures r.Some? ==> |t| > 0
    ensures r.Some? ==> forall i :: 0 <= i < |t| ==>
              IsDigit(t[i]) || t[i] == '.' || (i == 0 && (t[i] == '-' || t[i] == '+'))
    ensures r.Some? && t[0] == '-' ==> r.value <= 0.0
    ensures r.Some? && t[0] != '-' ==> r.value >= 0.0
  {
    if |t| > 0 && (t[0] == '-' || t[0] == '+') then
      match ParseUnsigned(t[1..])
      case Some(v) => Some(if t[0] == '-' then -v else v)
      case None => None
    else ParseUnsigned(t)
  }

  /** `replace(",", "", regex=True).astype(float)` on one cell: text loses its commas
      and is read as a number; a number stays as it is; a missing cell stays missing
      (NaN); a date-time cannot be converted. */
  function BalanceOf(c: Cell): (r: Result<Cell>)
    ensures r.Err? <==> c.When? || (c.Str? && ParseDecimal(StripCommas(c.text)).None?)
    ensures r.Err? ==> r.error == if c.When? then NotNumeric else NotANumber(c.text)
    ensures c.Num? ==> r == Ok(c)
    ensures c.Blank? ==> r == Ok(Blank)
    ensures c.Str? && r.Ok? ==> r.value.Num? && ParseDecimal(StripCommas(c.text)) == Some(r.value.x)
  {
    match c
    case Str(s) =>
      (match ParseDecimal(StripCommas(s))
       case Some(v) => Ok(Num(v))
       case None => Err(NotANumber(s)))
    case Num(x) => Ok(Num(x))
    case Blank => Ok(Blank)
    case When(_) => Err(NotNumeric)
  }

  /** An amount in hundredths written the way an aging report shows it, without
      thousands separators: optional minus, whole units, a point, two digits. */
  function CentsText(cents: int): string
  {
    if cents < 0 then "-" + MagnitudeText(-cents) else MagnitudeText(cents)
  }

  /** Whole units, a point and two digits of hundredths. */
  function MagnitudeText(m: nat): string
  {
    NatText(m / 100) + "." + Digits2(m % 100)
  }

  lemma {:induction false} NoPointInDigits(s: string)
    requires AllDigits(s)
    ensures IndexOf(s + "." + "", '.') == |s|
    decreases |s|
  {
    if s != [] {
      assert (s + "." + "")[1..] == s[1..] + "." + "";
      NoPointInDigits(s[1..]);
    }
  }

  /** Whole units and hundredths add back up to the amount. */
  lemma CentsSplit(m: nat)
    ensures (m / 100) as real + (m % 100) as real / 100.0 == m as real / 100.0
  {
    assert m == (m / 100) * 100 + m % 100;
    assert m as real == ((m / 100) * 100) as real + (m % 100) as real;
  }

  /** A digit run, a point and anything after it: the point is found right after
      the run. */
  lemma PointAfterDigits(w: string, d: string)
    requires AllDigits(w)
    ensures var u := w + "." + d;
      IndexOf(u, '.') == |w| && u[..|w|] == w && u[|w| + 1..] == d
  {
    NoPointInDigits(w);
    IndexOfPrefix(w + "." + "", d, '.');
    assert (w + "." + "") + d == w + "." + d;
  }

  /** The unsigned text of an amount in hundredths reads back as that amount. */
  lemma UnsignedCentsRoundTrip(m: nat)
    ensures ParseUnsigned(MagnitudeText(m)) == Some(m as real / 100.0)
  {
    var w := NatText(m / 100);
    var d := Digits2(m % 100);
    PointAfterDigits(w, d);
    NatTextValue(m / 100);
    Digits2Value(m % 100);
    CentsSplit(m);
    assert MagnitudeText(m) == w + "." + d;
    assert AllDigits(w) && AllDigits(d) && |w| + |d| > 0;
    assert PointValue(w, d) == m as real / 100.0;
  }

  /** A negative amount is written with a minus in front of its magnitude. */
  lemma NegativeCentsRoundTrip(cents: int)
    requires cents < 0
    ensures ParseDecimal(CentsText(cents)) == Some(cents as real / 100.0)
  {
    var m: nat := -cents;
    var u := MagnitudeText(m);
    assert CentsText(cents) == "-" + u;
    UnsignedCentsRoundTrip(m);
    MinusParse(u, m as real / 100.0);
  }

  /** A leading minus negates what the rest reads as. */
  lemma MinusParse(u: string, v: real)
    requires ParseUnsigned(u) == Some(v)
    ensures ParseDecimal("-" + u) == Some(-v)
  {
    assert ("-" + u)[1..] == u;
  }

  /** A non-negative amount is written as its magnitude alone. */
  lemma NonNegativeCentsRoundTrip(cents: int)
    requires cents >= 0
    ensures ParseDecimal(CentsText(cents)) == Some(cents as real / 100.0)
  {
    var w := NatText(cents / 100);
    UnsignedCentsRoundTrip(cents);
    assert MagnitudeText(cents)[0] == w[0] && IsDigit(w[0]);
  }

  /** Reading an amount written in hundredths gives back exactly that many hundredths. */
  lemma CentsTextRoundTrip(cents: int)
    ensures ParseDecimal(CentsText(cents)) == Some(cents as real / 100.0)
  {
    if cents < 0 {
      NegativeCentsRoundTrip(cents);
    } else {
      NonNegativeCentsRoundTrip(cents);
    }
  }

  /** The first `c` inside a prefix is the first `c` of the whole text. */
  lemma {:induction false} IndexOfPrefix(a: string, b: string, c: char)
    requires IndexOf(a, c) < |a|
    ensures IndexOf(a + b, c) == IndexOf(a, c)
  {
    if a[0] != c {
      assert (a + b)[1..] == a[1..] + b;
      IndexOfPrefix(a[1..], b, c);
    }
  }

  // ---------------------------------------------------------------------------
  // Which texts read as a number, and as which number

  /** What `float` accepts in front of the digits: nothing, a minus or a plus. */
  predicate IsSign(sign: string)
  {
    sign == "" || sign == "-" || sign == "+"
  }

  function Signed(sign: string, v: real): real
  {
    if sign == "-" then -v else v
  }

  /** Digits and points only, at most one point, at least one digit. */
  predicate UnsignedShaped(u: string)
  {
    && (forall i :: 0 <= i < |u| ==> IsDigit(u[i]) || u[i] == '.')
    && (forall i, j :: 0 <= i < j < |u| && u[i] == '.' ==> u[j] != '.')
    && (exists i :: 0 <= i < |u| && IsDigit(u[i]))
  }

  /** A plain decimal with an optional leading sign. */
  predicate DecimalShaped(t: string)
  {
    if |t| > 0 && (t[0] == '-' || t[0] == '+') then UnsignedShaped(t[1..]) else UnsignedShaped(t)
  }

  /** The unsigned reader accepts exactly the shaped texts. */
  lemma ParseUnsignedDomain(u: string)
    ensures ParseUnsigned(u).Some? <==> UnsignedShaped(u)
  {
    var k := IndexOf(u, '.');
    var whole := u[..k];
    var frac := if k < |u| then u[k + 1..] else "";
    assert forall i :: 0 <= i < k ==> u[i] == whole[i];
    assert forall i :: 0 <= i < k ==> u[i] != '.';
    assert forall i :: k < i < |u| ==> u[i] == frac[i - k - 1];
    if ParseUnsigned(u).Some? {
      assert AllDigits(whole) && AllDigits(frac) && |whole| + |frac| > 0;
      assert forall i :: k < i < |u| ==> IsDigit(u[i]);
      assert forall i :: 0 <= i < k ==> IsDigit(u[i]);
      if |whole| > 0 {
        assert IsDigit(u[0]);
      } else {
        assert IsDigit(u[k + 1]);
      }
    }
    if UnsignedShaped(u) {
      assert forall i :: 0 <= i < |frac| ==> frac[i] == u[k + 1 + i];
      assert AllDigits(whole);
      assert AllDigits(frac);
      var d :| 0 <= d < |u| && IsDigit(u[d]);
      assert d != k;
    }
  }

  /** `ParseDecimal` accepts exactly the plain decimals with an optional leading
      sign: `"1.2.3"`, `""`, `"."` and `"-"` read as nothing. */
  lemma ParseDecimalDomain(t: string)
    ensures ParseDecimal(t).Some? <==> DecimalShaped(t)
  {
    if |t| > 0 && (t[0] == '-' || t[0] == '+') {
      ParseUnsignedDomain(t[1..]);
    } else {
      ParseUnsignedDomain(t);
    }
  }

  /** A digit run, a point and a digit run, not both empty, read as the whole part
      plus the fraction. */
  lemma PointedUnsignedValue(whole: string, frac: string)
    requires AllDigits(whole) && AllDigits(frac) && |whole| + |frac| > 0
    ensures ParseUnsigned(whole + "." + frac)
            == Some(PointValue(whole, frac))
  {
    PointAfterDigits(whole, frac);
  }

  /** A digit run holds no point. */
  lemma NoPointInRun(s: string)
    requires AllDigits(s)
    ensures IndexOf(s, '.') == |s|
  {
    var k := IndexOf(s, '.');
    assert k < |s| ==> IsDigit(s[k]);
  }

  /** A digit run alone reads as the number it denotes. */
  lemma WholeUnsignedValue(whole: string)
    requires AllDigits(whole) && |whole| > 0
    ensures ParseUnsigned(whole) == Some(DigitsValue(whole) as real)
  {
    NoPointInRun(whole);
    assert whole[..|whole|] == whole;
    assert DigitsValue("") == 0 && Pow10(0) == 1;
    assert AllDigits("");
  }

  /** A sign in front of an unsigned decimal that starts with a digit or a point. */
  lemma SignedParse(sign: string, u: string, v: real)
    requires IsSign(sign) && ParseUnsigned(u) == Some(v) && (IsDigit(u[0]) || u[0] == '.')
    ensures ParseDecimal(sign + u) == Some(Signed(sign, v))
  {
    if sign == "" {
      assert sign + u == u;
    } else {
      assert (sign + u)[1..] == u;
    }
  }

  /** A sign, a digit run, a point and a digit run read as the whole part plus
      the fraction, with the sign. */
  lemma PointedDecimalValue(sign: string, whole: string, frac: string)
    requires IsSign(sign) && AllDigits(whole) && AllDigits(frac) && |whole| + |frac| > 0
    ensures ParseDecimal(sign + whole + "." + frac)
            == Some(Signed(sign, PointValue(whole, frac)))
  {
    var u := whole + "." + frac;
    PointedUnsignedValue(whole, frac);
    assert IsDigit(u[0]) || u[0] == '.' by {
      if |whole| > 0 { assert u[0] == whole[0]; }
    }
    SignedParse(sign, u, PointValue(whole, frac));
    assert sign + whole + "." + frac == sign + u;
  }

  /** A sign and a digit run read as the number the digits denote, with the sign. */
  lemma WholeDecimalValue(sign: string, whole: string)
    requires IsSign(sign) && AllDigits(whole) && |whole| > 0
    ensures ParseDecimal(sign + whole) == Some(Signed(sign, DigitsValue(whole) as real))
  {
    WholeUnsignedValue(whole);
    SignedParse(sign, whole, DigitsValue(whole) as real);
  }

  /** `"1250"` reads as 1250. */
  lemma WholeExample()
    ensures ParseDecimal("1250") == Some(1250.0)
  {
    assert DigitsValue("1250") == 1250 by {
      assert "1250"[..3] == "125" && "125"[..2] == "12" && "12"[..1] == "1" && "1"[..0] == "";
    }
    WholeDecimalValue("", "1250");
    assert "" + "1250" == "1250";
  }

  /** `"12.5"` reads as 12.5. */
  lemma PointedExample()
    ensures ParseDecimal("12.5") == Some(12.5)
  {
    assert DigitsValue("12") == 12 by { assert "12"[..1] == "1" && "1"[..0] == ""; }
    assert DigitsValue("5") == 5 by { assert "5"[..0] == ""; }
    assert PointValue("12", "5") == 12.5 by { assert Pow10(1) == 10; }
    PointedDecimalValue("", "12", "5");
    assert "" + "12" + "." + "5" == "12.5";
  }

  /** `".5"` reads as 0.5: the whole part may be empty. */
  lemma FractionExample()
    ensures ParseDecimal(".5") == Some(0.5)
  {
    assert DigitsValue("") == 0;
    assert DigitsValue("5") == 5 by { assert "5"[..0] == ""; }
    assert PointValue("", "5") == 0.5 by { assert Pow10(1) == 10; }
    PointedDecimalValue("", "", "5");
    assert "" + "" + "." + "5" == ".5";
  }

  /** Two points: `"1.2.3"` reads as nothing. */
  lemma TwoPointsExample()
    ensures ParseDecimal("1.2.3") == None
  {
    ParseDecimalDomain("1.2.3");
    assert "1.2.3"[1] == '.' && "1.2.3"[3] == '.';
  }

  /** The digit texts the examples below are built from. */
  lemma DigitExamples()
    ensures NatText(1250) == "1250" && NatText(300) == "300" && Digits2(0) == "00"
  {
    assert NatText(1) == "1";
    assert NatText(12) == "12";
    assert NatText(125) == "125";
    assert NatText(3) == "3";
    assert NatText(30) == "30";
  }

  /** A thousands separator does not change the amount read. */
  lemma ThousandsSeparator()
    ensures BalanceOf(Str("1,250.00")) == Ok(Num(1250.0))
    ensures BalanceOf(Str("-300.00")) == Ok(Num(-300.0))
  {
    GroupedThousandExample();
    GroupedHundredExample();
    GroupedAmountValue(125000);
    GroupedAmountValue(-30000);
  }

  lemma GroupedThousandExample()
    ensures GroupedCentsText(125000) == "1,250.00"
  {
    DigitExamples();
    var w := NatText(1250);
    assert w == "1250";
    assert w[..1] == "1" && w[1..] == "250";
    assert GroupThousands(w) == "1,250";
    assert "1,250" + ("." + "00") == "1,250.00";
  }

  lemma GroupedHundredExample()
    ensures GroupedCentsText(-30000) == "-300.00"
  {
    DigitExamples();
    assert GroupThousands(NatText(300)) == "300";
    assert "-" + "300" + ("." + "00") == "-300.00";
  }

  /** Thousands separators as a report prints them: a comma before each group of
      three digits, counted from the right. */
  function GroupThousands(w: string): (r: string)
    ensures |r| >= |w|
    decreases |w|
  {
    if |w| <= 3 then w else GroupThousands(w[..|w| - 3]) + "," + w[|w| - 3..]
  }

  /** Removing the separators gives back the digits they were put into. */
  lemma {:induction false} StripGrouped(w: string)
    requires ',' !in w
    ensures StripCommas(GroupThousands(w)) == w
    decreases |w|
  {
    if |w| <= 3 {
      StripNoComma(w);
    } else {
      var a := w[..|w| - 3];
      var b := w[|w| - 3..];
      assert w == a + b;
      assert ',' !in a && ',' !in b;
      var g := GroupThousands(a);
      assert GroupThousands(w) == g + "," + b;
      StripGrouped(a);
      StripConcat(g + ",", b);
      StripConcat(g, ",");
      StripNoComma(b);
      assert StripCommas(",") == [];
    }
  }

  /** An amount in hundredths with thousands separators, as an aging report shows it. */
  function GroupedCentsText(cents: int): string
  {
    var m: nat := if cents < 0 then -cents else cents;
    (if cents < 0 then "-" else "") + GroupThousands(NatText(m / 100)) + ("." + Digits2(m % 100))
  }

  /** Stripping commas works piece by piece. */
  lemma StripConcat(a: string, b: string)
    ensures StripCommas(a + b) == StripCommas(a) + StripCommas(b)
  {
    KeepConcat(a, b, NotComma);
  }

  /** A text without commas is left as it is. */
  lemma StripNoComma(a: string)
    requires ',' !in a
    ensures StripCommas(a) == a
  {
    KeepAll(a, NotComma);
  }

  lemma NoCommaInDigits(w: string)
    requires AllDigits(w)
    ensures ',' !in w
  {
    forall i | 0 <= i < |w| ensures w[i] != ',' {
      assert IsDigit(w[i]);
    }
  }

  lemma Regroup(a: string, b: string, c: string, e: string)
    ensures (a + b) + (c + e) == a + ((b + c) + e)
  {
  }

  /** The separators of a grouped amount are exactly the commas that are stripped. */
  lemma GroupedStripsToPlain(cents: int)
    ensures StripCommas(GroupedCentsText(cents)) == CentsText(cents)
  {
    var m: nat := if cents < 0 then -cents else cents;
    var sign := if cents < 0 then "-" else "";
    var w := NatText(m / 100);
    var d := Digits2(m % 100);
    NoCommaInDigits(w);
    NoCommaInDigits(d);
    StripGrouped(w);
    StripNoComma(sign);
    StripNoComma("." + d);
    var g := GroupThousands(w);
    StripConcat(sign + g, "." + d);
    StripConcat(sign, g);
    var stripped := StripCommas((sign + g) + ("." + d));
    assert stripped == (sign + w) + ("." + d);
    assert GroupedCentsText(cents) == (sign + g) + ("." + d);
    assert MagnitudeText(m) == w + "." + d;
    Regroup(sign, w, ".", d);
    if cents < 0 {
      assert CentsText(cents) == "-" + MagnitudeText(m);
    } else {
      assert CentsText(cents) == MagnitudeText(m);
      assert sign + MagnitudeText(m) == MagnitudeText(m);
    }
  }

  /** Any text that is an amount in hundredths once its commas are gone converts to
      exactly that amount, wherever the commas stood. */
  lemma CommasIgnored(s: string, cents: int)
    requires StripCommas(s) == CentsText(cents)
    ensures BalanceOf(Str(s)) == Ok(Num(cents as real / 100.0))
  {
    var t := CentsText(cents);
    var v := cents as real / 100.0;
    CentsTextRoundTrip(cents);
    ReadsAs(s, t, v);
  }

  /** A text whose comma-free form `t` reads as `v` converts to `v`. */
  lemma ReadsAs(s: string, t: string, v: real)
    requires StripCommas(s) == t && ParseDecimal(t) == Some(v)
    ensures BalanceOf(Str(s)) == Ok(Num(v))
  {
  }

  /** An amount with thousands separators converts to its value. */
  lemma GroupedAmountValue(cents: int)
    ensures BalanceOf(Str(GroupedCentsText(cents))) == Ok(Num(cents as real / 100.0))
  {
    GroupedStripsToPlain(cents);
    CommasIgnored(GroupedCentsText(cents), cents);
  }
}
