/** Birth-date checks of the server validator: PHP's checkdate and the "not in the future" test. */
module Dates {
  import opened Strings
  import opened Decimal

  /** A calendar date; the validator builds one only after checkdate accepted the parts. */
  datatype Date = Date(year: nat, month: nat, day: nat)

  /** Gregorian leap years: every fourth year, except centuries not divisible by 400. */
  predicate IsLeapYear(y: int) {
    y % 4 == 0 && (y % 100 != 0 || y % 400 == 0)
  }

  function DaysInMonth(month: int, year: int): (n: int)
    requires 1 <= month <= 12
    ensures 28 <= n <= 31
  {
    if month == 2 then (if IsLeapYear(year) then 29 else 28)
    else if month == 4 || month == 6 || month == 9 || month == 11 then 30
    else 31
  }

  /** PHP's checkdate(month, day, year): a real Gregorian date with a year from 1 to 32767. */
  predicate CheckDate(month: int, day: int, year: int)
    ensures CheckDate(month, day, year) ==> 1 <= month <= 12 && 1 <= day <= 31 && 1 <= year <= 32767
    ensures 1 <= month <= 12 && 1 <= day <= 28 && 1 <= year <= 32767 ==> CheckDate(month, day, year)
    ensures month == 2 && day == 29 ==> (CheckDate(month, day, year) <==> 1 <= year <= 32767 && IsLeapYear(year))
    ensures day == 31 ==> (CheckDate(month, day, year) <==> 1 <= year <= 32767 && month in {1, 3, 5, 7, 8, 10, 12})
    ensures day == 30 ==> (CheckDate(month, day, year) <==> 1 <= year <= 32767 && 1 <= month <= 12 && month != 2)
    ensures day == 29 && month != 2 ==> (CheckDate(month, day, year) <==> 1 <= year <= 32767 && 1 <= month <= 12)
  {
    1 <= month <= 12 && 1 <= day && day <= DaysInMonth(month, year) && 1 <= year <= 32767
  }

  /** A century year has a 29 February only when it is divisible by 400: 1900-02-29 is refused,
      2000-02-29 accepted. */
  lemma CenturyLeapDay(y: int)
    requires 1 <= y <= 32767 && y % 100 == 0
    ensures CheckDate(2, 29, y) <==> y % 400 == 0
  {
  }

  /** sprintf('%04d-%02d-%02d', y, m, d), which for the current date is also date('Y-m-d'). */
  function FormatDate(d: Date): (r: string)
    ensures |r| >= 10
  {
    PadDecimal(d.year, 4) + "-" + PadDecimal(d.month, 2) + "-" + PadDecimal(d.day, 2)
  }

  /** The source's test `$inputDate > $today`: PHP compares the two formatted strings byte by byte. */
  predicate IsFutureAsWritten(input: Date, today: Date) {
    LexLess(FormatDate(today), FormatDate(input))
  }

  /** The intended test: the date lies after today in calendar order. */
  predicate IsFuture(input: Date, today: Date) {
    || input.year > today.year
    || (input.year == today.year && input.month > today.month)
    || (input.year == today.year && input.month == today.month && input.day > today.day)
  }

  /** A date with a year of 10000 or more formats with five digits and compares as a string
      before 2026-10-10, so the test as written lets this checkdate-valid future date through. */
  lemma Year10000SlipsThrough()
    ensures CheckDate(1, 1, 10000)
    ensures IsFuture(Date(10000, 1, 1), Date(2026, 10, 10))
    ensures !IsFutureAsWritten(Date(10000, 1, 1), Date(2026, 10, 10))
  {
    var a := FormatDate(Date(10000, 1, 1));
    var b := FormatDate(Date(2026, 10, 10));
    assert a[0] == '1' by {
      assert PadDecimal(10000, 4) == FixedDigits(10000, 5);
      assert FixedDigits(10000, 5)[0] == FixedDigits(1000, 4)[0] == FixedDigits(100, 3)[0]
          == FixedDigits(10, 2)[0] == FixedDigits(1, 1)[0] == '1';
    }
    assert b[0] == '2' by {
      assert PadDecimal(2026, 4) == FixedDigits(2026, 4);
      assert FixedDigits(2026, 4)[0] == FixedDigits(202, 3)[0] == FixedDigits(20, 2)[0]
          == FixedDigits(2, 1)[0] == '2';
    }
    assert b != [] && a != [] && b[0] != a[0];
  }

  lemma PadFixed(n: nat, w: nat)
    requires 1 <= w && n < Pow10(w)
    ensures PadDecimal(n, w) == FixedDigits(n, w)
  {
    var k := DigitCount(n);
    if k > w {
      PowMonotone(w, k - 1);
    }
  }

  /** With a year below 10000 and two-digit month and day, the rendering is three fixed-width fields. */
  lemma FormatDateFields(d: Date)
    requires d.year < 10000 && d.month < 100 && d.day < 100
    ensures FormatDate(d) == FixedDigits(d.year, 4) + ("-" + (FixedDigits(d.month, 2) + ("-" + FixedDigits(d.day, 2))))
  {
    assert Pow10(4) == 10000 && Pow10(2) == 100;
    PadFixed(d.year, 4);
    PadFixed(d.month, 2);
    PadFixed(d.day, 2);
  }

  /** The month-and-day tail "-mm-dd" compares as the pair (month, day) does. */
  lemma TailOrder(m1: nat, d1: nat, m2: nat, d2: nat)
    requires m1 < 100 && d1 < 100 && m2 < 100 && d2 < 100
    ensures var t1 := "-" + (FixedDigits(m1, 2) + ("-" + FixedDigits(d1, 2)));
            var t2 := "-" + (FixedDigits(m2, 2) + ("-" + FixedDigits(d2, 2)));
            && (LexLess(t1, t2) <==> m1 < m2 || (m1 == m2 && d1 < d2))
            && (t1 == t2 <==> m1 == m2 && d1 == d2)
  {
    assert Pow10(2) == 100;
    var a1, a2 := FixedDigits(m1, 2), FixedDigits(m2, 2);
    var b1, b2 := FixedDigits(d1, 2), FixedDigits(d2, 2);
    FixedDigitsOrder(m1, m2, 2);
    FixedDigitsOrder(d1, d2, 2);
    LexLessAppend("-", "-", a1 + ("-" + b1), a2 + ("-" + b2));
    LexLessAppend(a1, a2, "-" + b1, "-" + b2);
    LexLessAppend("-", "-", b1, b2);
    assert !LexLess("-", "-");
    assert "-" + (a1 + ("-" + b1)) == "-" + (a2 + ("-" + b2)) ==> a1 == a2 && b1 == b2 by {
      if "-" + (a1 + ("-" + b1)) == "-" + (a2 + ("-" + b2)) {
        assert ("-" + (a1 + ("-" + b1)))[1..3] == a1;
        assert ("-" + (a2 + ("-" + b2)))[1..3] == a2;
        assert ("-" + (a1 + ("-" + b1)))[4..] == b1;
        assert ("-" + (a2 + ("-" + b2)))[4..] == b2;
      }
    }
  }

  /** On four-digit years the string test as written and the calendar test agree. */
  lemma FutureTestsAgree(input: Date, today: Date)
    requires input.year < 10000 && today.year < 10000
    requires input.month < 100 && input.day < 100 && today.month < 100 && today.day < 100
    ensures IsFutureAsWritten(input, today) <==> IsFuture(input, today)
  {
    assert Pow10(4) == 10000;
    FormatDateFields(today);
    FormatDateFields(input);
    var y1, y2 := FixedDigits(today.year, 4), FixedDigits(input.year, 4);
    var t1 := "-" + (FixedDigits(today.month, 2) + ("-" + FixedDigits(today.day, 2)));
    var t2 := "-" + (FixedDigits(input.month, 2) + ("-" + FixedDigits(input.day, 2)));
    FixedDigitsOrder(today.year, input.year, 4);
    TailOrder(today.month, today.day, input.month, input.day);
    LexLessAppend(y1, y2, t1, t2);
  }
}
