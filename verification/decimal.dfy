/** Decimal text: PHP's `%0Nd` formatting and its (int) cast of strings. */
module Decimal {
  import opened Chars
  import opened Strings

  function DigitChar(d: nat): (c: char)
    requires d < 10
    ensures IsAsciiDigit(c)
  {
    ('0' as int + d) as char
  }

  function DigitValue(c: char): (d: nat)
    requires IsAsciiDigit(c)
    ensures d < 10 && DigitChar(d) == c
  {
    c as int - '0' as int
  }

  predicate AllDigits(s: string) {
    forall c :: c in s ==> IsAsciiDigit(c)
  }

  /** Between `lo` and `hi` ASCII digits: `[0-9]{lo,hi}` (or `\d{lo,hi}`) as a whole string. */
  predicate DigitRun(s: string, lo: nat, hi: nat) {
    lo <= |s| <= hi && AllDigits(s)
  }

  /** `\d{3}-\d{4}`, the postal-code pattern of both the server and the browser, as a whole string. */
  predicate PostalShape(s: string) {
    |s| == 8 && s[3] == '-' && AllDigits(s[..3]) && AllDigits(s[4..])
  }

  function Pow10(n: nat): (p: nat)
    ensures p >= 1
  {
    if n == 0 then 1 else 10 * Pow10(n - 1)
  }

  /** The value of a string of ASCII digits read as a decimal numeral. */
  function DecimalValue(s: string): (v: nat)
    requires AllDigits(s)
    ensures v < Pow10(|s|)
  {
    if s == [] then 0
    else
      assert forall c :: c in s[..|s| - 1] ==> c in s;
      DecimalValue(s[..|s| - 1]) * 10 + DigitValue(s[|s| - 1])
  }

  /** The last `w` decimal digits of `n`, zero-padded on the left. */
  function FixedDigits(n: nat, w: nat): (r: string)
    ensures |r| == w
    ensures AllDigits(r)
    ensures n < Pow10(w) ==> DecimalValue(r) == n
  {
    if w == 0 then []
    else
      var r := FixedDigits(n / 10, w - 1) + [DigitChar(n % 10)];
      assert r[..|r| - 1] == FixedDigits(n / 10, w - 1);
      r
  }

  /** How many decimal digits `n` has (0 has one). */
  function DigitCount(n: nat): (k: nat)
    ensures 1 <= k
    ensures n < Pow10(k)
    ensures k == 1 || Pow10(k - 1) <= n
  {
    if n < 10 then 1 else 1 + DigitCount(n / 10)
  }

  /** sprintf("%0wd", n) for a non-negative `n`: all of its digits, zero-padded to width `w`. */
  function PadDecimal(n: nat, w: nat): (r: string)
    ensures |r| == if w < DigitCount(n) then DigitCount(n) else w
    ensures AllDigits(r)
    ensures DecimalValue(r) == n
    ensures |r| > w && n > 0 ==> r[0] != '0'
  {
    var k := if w < DigitCount(n) then DigitCount(n) else w;
    PadDecimalFacts(n, k);
    FixedDigits(n, k)
  }

  lemma PadDecimalFacts(n: nat, k: nat)
    requires DigitCount(n) <= k
    ensures DecimalValue(FixedDigits(n, k)) == n
    ensures k == DigitCount(n) && n > 0 ==> FixedDigits(n, k)[0] != '0'
  {
    PowMonotone(DigitCount(n), k);
    if k == DigitCount(n) && k > 1 {
      LeadingDigitNonZero(n, k);
    } else if k == 1 {
      assert FixedDigits(n, k) == FixedDigits(n / 10, 0) + [DigitChar(n % 10)];
    }
  }

  lemma {:induction false} PowMonotone(a: nat, b: nat)
    requires a <= b
    ensures Pow10(a) <= Pow10(b)
  {
    if a < b {
      PowMonotone(a, b - 1);
    }
  }

  lemma {:induction false} LeadingDigitNonZero(n: nat, k: nat)
    requires k == DigitCount(n) && k > 1
    ensures FixedDigits(n, k)[0] != '0'
  {
    assert n >= 10 && DigitCount(n / 10) == k - 1;
    FixedHead(n, k);
    if k == 2 {
      SingleDigit(n / 10);
    } else {
      LeadingDigitNonZero(n / 10, k - 1);
    }
  }

  /** The first digit of a width-k rendering is the first digit of the rendering of n / 10. */
  lemma FixedHead(n: nat, k: nat)
    requires k >= 2
    ensures FixedDigits(n, k)[0] == FixedDigits(n / 10, k - 1)[0]
  {
    var a := FixedDigits(n / 10, k - 1);
    assert FixedDigits(n, k) == a + [DigitChar(n % 10)];
  }

  lemma SingleDigit(d: nat)
    requires 1 <= d < 10
    ensures FixedDigits(d, 1) == [DigitChar(d)] && DigitChar(d) != '0'
  {
    assert d / 10 == 0 && d % 10 == d;
  }

  /** Splitting off the last decimal digit preserves order and equality. */
  lemma DivModOrder(n: nat, m: nat)
    ensures n < m <==> n / 10 < m / 10 || (n / 10 == m / 10 && n % 10 < m % 10)
    ensures n == m <==> n / 10 == m / 10 && n % 10 == m % 10
  {
    assert n == 10 * (n / 10) + n % 10 && m == 10 * (m / 10) + m % 10;
  }

  lemma DigitCharOrder(a: nat, b: nat)
    requires a < 10 && b < 10
    ensures LexLess([DigitChar(a)], [DigitChar(b)]) <==> a < b
    ensures DigitChar(a) == DigitChar(b) <==> a == b
  {
    assert [DigitChar(a)][1..] == [] && [DigitChar(b)][1..] == [];
  }

  /** Equal-width zero-padded numerals compare as strings the way their values compare. */
  lemma {:induction false} FixedDigitsOrder(n: nat, m: nat, w: nat)
    requires n < Pow10(w) && m < Pow10(w)
    ensures LexLess(FixedDigits(n, w), FixedDigits(m, w)) <==> n < m
    ensures FixedDigits(n, w) == FixedDigits(m, w) <==> n == m
  {
    if w > 0 {
      var p := Pow10(w - 1);
      assert n / 10 < p && m / 10 < p;
      var a, b := FixedDigits(n / 10, w - 1), FixedDigits(m / 10, w - 1);
      FixedDigitsOrder(n / 10, m / 10, w - 1);
      LexLessAppend(a, b, [DigitChar(n % 10)], [DigitChar(m % 10)]);
      DigitCharOrder(n % 10, m % 10);
      DivModOrder(n, m);
      assert FixedDigits(n, w) == a + [DigitChar(n % 10)];
      assert FixedDigits(m, w) == b + [DigitChar(m % 10)];
      assert a + [DigitChar(n % 10)] == b + [DigitChar(m % 10)] <==> a == b && DigitChar(n % 10) == DigitChar(m % 10) by {
        if a + [DigitChar(n % 10)] == b + [DigitChar(m % 10)] {
          assert (a + [DigitChar(n % 10)])[..|a|] == a;
          assert (b + [DigitChar(m % 10)])[..|b|] == b;
          assert (a + [DigitChar(n % 10)])[|a|] == DigitChar(n % 10);
        }
      }
    }
  }

  /** The digits at the front of `s`. */
  function LeadingDigits(s: string): (r: string)
    ensures AllDigits(r)
    ensures r <= s
    ensures AllDigits(s) ==> r == s
  {
    s[..LeadingRun(IsAsciiDigit, s)]
  }

  /** PHP's (int) cast of a string in its integer forms: whitespace is skipped, an optional sign
      is read, then the longest run of digits; with no digits the value is 0. */
  function PhpIntCast(s: string): (v: int)
    ensures AllDigits(s) ==> v == DecimalValue(s)
  {
    var t := s[LeadingRun(IsPhpNumericSpace, s)..];
    assert AllDigits(s) && s != [] ==> s[0] in s && t == s;
    if t != [] && t[0] == '-' then var d: int := DecimalValue(LeadingDigits(t[1..])); -d
    else if t != [] && t[0] == '+' then DecimalValue(LeadingDigits(t[1..]))
    else DecimalValue(LeadingDigits(t))
  }

  /** The cast skips leading numeric whitespace, reads an optional sign, then the digits up to the
      first non-digit, and ignores whatever follows: `(int)" 12"` is 12, `(int)"-3kg"` is -3 and
      `(int)"abc"` is 0. */
  lemma IntCastReadsPrefix(w: string, sign: string, d: string, rest: string)
    requires forall c :: c in w ==> IsPhpNumericSpace(c)
    requires sign == "" || sign == "-" || sign == "+"
    requires AllDigits(d)
    requires rest == [] || !IsAsciiDigit(rest[0])
    requires sign == "" && d == [] && rest != [] ==> !IsPhpNumericSpace(rest[0]) && rest[0] != '-' && rest[0] != '+'
    ensures PhpIntCast(w + sign + d + rest) == (if sign == "-" then -(DecimalValue(d) as int) else DecimalValue(d))
  {
    if sign == "" {
      assert w + sign + d + rest == w + d + rest;
      IntCastPrefixUnsigned(w, d, rest);
    } else {
      IntCastPrefixSigned(w, sign, d, rest);
    }
  }

  lemma IntCastPrefixSigned(w: string, sign: string, d: string, rest: string)
    requires forall c :: c in w ==> IsPhpNumericSpace(c)
    requires |sign| == 1 && (sign[0] == '-' || sign[0] == '+')
    requires AllDigits(d)
    requires rest == [] || !IsAsciiDigit(rest[0])
    ensures PhpIntCast(w + sign + d + rest) == (if sign[0] == '-' then -(DecimalValue(d) as int) else DecimalValue(d))
  {
    var t := sign + d + rest;
    assert w + sign + d + rest == w + t;
    assert t[0] == sign[0];
    IntCastSkipsSpace(w, t);
    IntCastWithSign(sign, d, rest);
  }

  lemma IntCastPrefixUnsigned(w: string, d: string, rest: string)
    requires forall c :: c in w ==> IsPhpNumericSpace(c)
    requires AllDigits(d)
    requires rest == [] || !IsAsciiDigit(rest[0])
    requires d == [] && rest != [] ==> !IsPhpNumericSpace(rest[0]) && rest[0] != '-' && rest[0] != '+'
    ensures PhpIntCast(w + d + rest) == DecimalValue(d)
  {
    var t := d + rest;
    assert w + d + rest == w + t;
    assert t == [] || !IsPhpNumericSpace(t[0]) by {
      if d != [] {
        assert t[0] == d[0] && d[0] in d;
      }
    }
    IntCastSkipsSpace(w, t);
    IntCastWithoutSign(d, rest);
  }

  lemma IntCastSkipsSpace(w: string, t: string)
    requires forall c :: c in w ==> IsPhpNumericSpace(c)
    requires t == [] || !IsPhpNumericSpace(t[0])
    ensures PhpIntCast(w + t) == PhpIntCast(t)
  {
    if t == [] {
      assert w + t == w;
      LeadingRunAll(w);
    } else {
      LeadingRunPast(IsPhpNumericSpace, w, t);
      assert (w + t)[|w|..] == t;
    }
  }

  lemma IntCastWithSign(sign: string, d: string, rest: string)
    requires |sign| == 1 && (sign[0] == '-' || sign[0] == '+')
    requires AllDigits(d)
    requires rest == [] || !IsAsciiDigit(rest[0])
    ensures PhpIntCast(sign + d + rest) == (if sign[0] == '-' then -(DecimalValue(d) as int) else DecimalValue(d))
  {
    DigitPrefix(d, rest);
    assert sign + d + rest == [sign[0]] + (d + rest);
    IntCastAfterSign(sign[0], d + rest);
  }

  lemma IntCastWithoutSign(d: string, rest: string)
    requires AllDigits(d)
    requires rest == [] || !IsAsciiDigit(rest[0])
    requires d == [] && rest != [] ==> !IsPhpNumericSpace(rest[0]) && rest[0] != '-' && rest[0] != '+'
    ensures PhpIntCast(d + rest) == DecimalValue(d)
  {
    DigitPrefix(d, rest);
    var u := d + rest;
    assert u == [] || (!IsPhpNumericSpace(u[0]) && u[0] != '-' && u[0] != '+') by {
      if d != [] {
        assert u[0] == d[0] && d[0] in d;
      } else {
        assert u == rest;
      }
    }
    IntCastUnsigned(u);
  }

  lemma IntCastAfterSign(sign: char, u: string)
    requires sign == '-' || sign == '+'
    ensures PhpIntCast([sign] + u) == (if sign == '-' then -(DecimalValue(LeadingDigits(u)) as int) else DecimalValue(LeadingDigits(u)))
  {
    var t := [sign] + u;
    assert t[0] == sign && t[1..] == u;
  }

  lemma IntCastUnsigned(u: string)
    requires u == [] || (!IsPhpNumericSpace(u[0]) && u[0] != '-' && u[0] != '+')
    ensures PhpIntCast(u) == DecimalValue(LeadingDigits(u))
  {
  }

  lemma DigitPrefix(d: string, rest: string)
    requires AllDigits(d)
    requires rest == [] || !IsAsciiDigit(rest[0])
    ensures LeadingDigits(d + rest) == d
  {
    if rest == [] {
      assert d + rest == d;
    } else {
      LeadingRunPast(IsAsciiDigit, d, rest);
      assert (d + rest)[..|d|] == d;
    }
  }

  lemma {:induction false} LeadingRunAll(w: string)
    requires forall c :: c in w ==> IsPhpNumericSpace(c)
    ensures LeadingRun(IsPhpNumericSpace, w) == |w|
  {
    if w != [] {
      assert w[0] in w;
      assert forall c :: c in w[1..] ==> c in w;
      LeadingRunAll(w[1..]);
    }
  }

  /** The cast reads back any zero-padded rendering of a number. */
  lemma IntCastReadsPadded(n: nat, w: nat)
    ensures PhpIntCast(PadDecimal(n, w)) == n
  {
    var r := PadDecimal(n, w);
    assert r != [] ==> r[0] in r;
  }
}
