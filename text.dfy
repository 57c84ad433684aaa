/** Character-level helpers: decimal digits, ASCII lower-casing, prefixes. */
module Text {

  predicate IsDigit(c: char)
  {
    '0' <= c <= '9'
  }

  predicate AllDigits(s: string)
  {
    forall i :: 0 <= i < |s| ==> IsDigit(s[i])
  }

  function DigitChar(n: nat): (c: char)
    requires n < 10
    ensures IsDigit(c) && c as int - '0' as int == n
  {
    ('0' as int + n) as char
  }

  /** The number a string of decimal digits denotes (most significant first). */
  function DigitsValue(s: string): nat
    requires AllDigits(s)
    decreases |s|
  {
    if s == [] then 0
    else DigitsValue(s[..|s| - 1]) * 10 + (s[|s| - 1] as int - '0' as int)
  }

  /** The shortest decimal spelling of `n`: one digit below ten, and no leading
      zero except in `"0"` itself. */
  function NatText(n: nat): (r: string)
    ensures |r| > 0 && AllDigits(r)
    ensures |r| == 1 <==> n < 10
    ensures r[0] == '0' <==> n == 0
    decreases n
  {
    if n < 10 then [DigitChar(n)] else NatText(n / 10) + [DigitChar(n % 10)]
  }

  lemma {:induction false} NatTextValue(n: nat)
    ensures DigitsValue(NatText(n)) == n
    decreases n
  {
    if n >= 10 {
      var r := NatText(n);
      assert r[..|r| - 1] == NatText(n / 10);
      NatTextValue(n / 10);
    }
  }

  /** `n` written with exactly two digits, zero-padded. */
  function Digits2(n: nat): (r: string)
    requires n < 100
    ensures |r| == 2 && AllDigits(r)
  {
    [DigitChar(n / 10), DigitChar(n % 10)]
  }

  /** `n` written with exactly four digits, zero-padded. */
  function Digits4(n: nat): (r: string)
    requires n < 10000
    ensures |r| == 4 && AllDigits(r)
  {
    Digits2(n / 100) + Digits2(n % 100)
  }

  /** Appending a digit shifts the value by one place. */
  lemma DigitsSnoc(s: string, c: char)
    requires AllDigits(s) && IsDigit(c)
    ensures AllDigits(s + [c])
    ensures DigitsValue(s + [c]) == DigitsValue(s) * 10 + (c as int - '0' as int)
  {
    assert (s + [c])[..|s|] == s;
  }

  lemma Digits2Value(n: nat)
    requires n < 100
    ensures DigitsValue(Digits2(n)) == n
  {
    var a, b := DigitChar(n / 10), DigitChar(n % 10);
    assert Digits2(n) == ([] + [a]) + [b];
    DigitsSnoc([], a);
    DigitsSnoc([a], b);
  }

  lemma Digits2Canonical(t: string)
    requires |t| == 2 && AllDigits(t)
    ensures DigitsValue(t) < 100 && Digits2(DigitsValue(t)) == t
  {
    assert t == ([] + [t[0]]) + [t[1]];
    DigitsSnoc([], t[0]);
    DigitsSnoc([t[0]], t[1]);
    var hi, lo := t[0] as int - '0' as int, t[1] as int - '0' as int;
    assert DigitsValue(t) == hi * 10 + lo;
    assert DigitsValue(t) / 10 == hi && DigitsValue(t) % 10 == lo;
  }

  /** Appending two digits shifts the value by two places. */
  lemma DigitsConcat2(a: string, b: string)
    requires AllDigits(a) && AllDigits(b) && |b| == 2
    ensures AllDigits(a + b) && DigitsValue(a + b) == DigitsValue(a) * 100 + DigitsValue(b)
  {
    assert a + b == (a + [b[0]]) + [b[1]];
    DigitsSnoc(a, b[0]);
    DigitsSnoc(a + [b[0]], b[1]);
    assert b == ([] + [b[0]]) + [b[1]];
    DigitsSnoc([], b[0]);
    DigitsSnoc([b[0]], b[1]);
  }

  lemma Digits4Value(n: nat)
    requires n < 10000
    ensures DigitsValue(Digits4(n)) == n
  {
    DigitsConcat2(Digits2(n / 100), Digits2(n % 100));
    Digits2Value(n / 100);
    Digits2Value(n % 100);
  }

  lemma Digits4Canonical(t: string)
    requires |t| == 4 && AllDigits(t)
    ensures DigitsValue(t) < 10000 && Digits4(DigitsValue(t)) == t
  {
    var hi, lo := t[..2], t[2..];
    assert t == hi + lo;
    DigitsConcat2(hi, lo);
    Digits2Canonical(hi);
    Digits2Canonical(lo);
    var v, h, l := DigitsValue(t), DigitsValue(hi), DigitsValue(lo);
    assert v == h * 100 + l && l < 100 && h < 100;
    assert v / 100 == h && v % 100 == l;
  }

  /** Python's `str.lower` restricted to ASCII letters. */
  function LowerChar(c: char): char
  {
    if 'A' <= c <= 'Z' then (c as int + 32) as char else c
  }

  function Lower(s: string): (r: string)
    ensures |r| == |s|
    ensures forall i :: 0 <= i < |s| ==> r[i] == LowerChar(s[i])
  {
    seq(|s|, i requires 0 <= i < |s| => LowerChar(s[i]))
  }

  predicate StartsWith(s: string, prefix: string)
  {
    |prefix| <= |s| && s[..|prefix|] == prefix
  }
}
