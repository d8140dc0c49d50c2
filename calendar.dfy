/** Calendar arithmetic of the tracker: the length of the month on view and
    the canonical `YYYY-MM-DD` key (the extended calendar-date form of
    section 4.1.2.2 of ISO 8601:2004) under which a day's completions are
    stored. Months are numbered from 0, as `Date.prototype.getMonth` gives
    them. */
module Calendar {
  import opened Wrappers
  import opened Builtins

  /** The Gregorian leap-year rule, which JavaScript's `Date` follows for
      every year (proleptically). */
  predicate IsLeapYear(y: int)
  {
    y % 4 == 0 && (y % 100 != 0 || y % 400 == 0)
  }

  /** The year `new Date(y, m, d)` actually builds: a year from 0 to 99 is
      read as 1900 + y. */
  function ConstructorYear(y: int): int
  {
    if 0 <= y <= 99 then 1900 + y else y
  }

  /** `new Date(year, month + 1, 0).getDate()`: day 0 of the next month is
      the last day of `month`, so this is the length of `month`. */
  function DaysInMonth(year: int, month: int): (n: nat)
    requires 0 <= month < 12
    ensures 28 <= n <= 31
  {
    if month == 1 then (if IsLeapYear(ConstructorYear(year)) then 29 else 28)
    else if month == 3 || month == 5 || month == 8 || month == 10 then 30
    else 31
  }

  /** January, March, May, July, August, October and December have 31
      days; April, June, September and November 30; February 29 in a leap
      year and 28 otherwise. */
  lemma MonthLengths(year: int, month: int)
    requires 0 <= month < 12
    ensures DaysInMonth(year, month) == 31 <==> month in {0, 2, 4, 6, 7, 9, 11}
    ensures DaysInMonth(year, month) == 30 <==> month in {3, 5, 8, 10}
    ensures DaysInMonth(year, month) == 29 <==> month == 1 && IsLeapYear(ConstructorYear(year))
    ensures DaysInMonth(year, month) == 28 <==> month == 1 && !IsLeapYear(ConstructorYear(year))
  {
  }

  /** The day of the year on which `month` starts, counted from 0: the table
      by which ECMA-262's MonthFromTime and DateFromTime split a year. */
  function MonthStart(y: int, month: nat): nat
    requires month <= 12
  {
    [0, 31, 59, 90, 120, 151, 181, 212, 243, 273, 304, 334, 365][month]
      + (if month >= 2 && IsLeapYear(y) then 1 else 0)
  }

  /** The month length agrees with the distance between consecutive month
      starts in the year the `Date` constructor builds. */
  lemma DaysInMonthMatchesMonthStarts(year: int, month: int)
    requires 0 <= month < 12
    ensures DaysInMonth(year, month)
            == MonthStart(ConstructorYear(year), month + 1) - MonthStart(ConstructorYear(year), month)
  {
  }

  /** The twelve month lengths add up to the length of the year. */
  lemma {:induction false} YearLength(year: int)
    ensures SumOfMonths(year, 12) == if IsLeapYear(ConstructorYear(year)) then 366 else 365
  {
    var k := 0;
    while k < 12
      invariant 0 <= k <= 12
      invariant SumOfMonths(year, k) == MonthStart(ConstructorYear(year), k)
    {
      DaysInMonthMatchesMonthStarts(year, k);
      k := k + 1;
    }
  }

  /** Days in the first k months of the year. */
  function SumOfMonths(year: int, k: nat): nat
    requires k <= 12
  {
    if k == 0 then 0 else SumOfMonths(year, k - 1) + DaysInMonth(year, k - 1)
  }

  // ---------------------------------------------------------------------
  // Date keys

  /** The key of day `day` of `month` in `year`: the year as `String` prints
      it, then month + 1 and the day, each padded to two places with '0',
      joined by '-'. */
  function DateKey(year: int, month: nat, day: nat): (k: string)
    ensures month < 99 && day < 100 ==> |k| == |IntToDecimal(year)| + 6
  {
    IntToDecimal(year) + "-" + TwoDigits(month + 1) + "-" + TwoDigits(day)
  }

  datatype DateParts = DateParts(year: int, month: nat, day: nat)

  /** A signed decimal integer that must fill the whole string. */
  function WholeInt(s: string): Option<int>
  {
    if s != [] && s[0] == '-' then
      if |s| > 1 && AllDigits(s[1..], 10) then Some(0 - DigitsValue(s[1..], 10)) else None
    else if s != [] && AllDigits(s, 10) then Some(DigitsValue(s, 10))
    else None
  }

  /** Reads a date key back: the last six characters are `-MM-DD` and what
      precedes them is the year. */
  function ParseDateKey(k: string): Option<DateParts>
  {
    if |k| < 7 || k[|k| - 6] != '-' || k[|k| - 3] != '-' then None
    else
      var mm := k[|k| - 5..|k| - 3];
      var dd := k[|k| - 2..];
      if !AllDigits(mm, 10) || !AllDigits(dd, 10) || DigitsValue(mm, 10) == 0 then None
      else
        match WholeInt(k[..|k| - 6])
        case None => None
        case Some(y) => Some(DateParts(y, DigitsValue(mm, 10) - 1, DigitsValue(dd, 10)))
  }

  /** A printed integer is read back whole as that integer. */
  lemma WholeIntRoundTrip(n: int)
    ensures WholeInt(IntToDecimal(n)) == Some(n)
  {
    if n < 0 {
      WholeIntOfNegative(n);
    } else {
      WholeIntOfNatural(n);
    }
  }

  /** The negative half of WholeIntRoundTrip. */
  lemma WholeIntOfNegative(n: int)
    requires n < 0
    ensures WholeInt(IntToDecimal(n)) == Some(n)
  {
    NatToDecimalValue(-n);
    WholeIntOfMinus(NatToDecimal(-n), -n);
  }

  /** A minus sign followed by digits denoting m reads as -m. */
  lemma WholeIntOfMinus(digits: string, m: nat)
    requires digits != [] && AllDigits(digits, 10) && DigitsValue(digits, 10) == m
    ensures WholeInt("-" + digits) == Some(-(m as int))
  {
    assert ("-" + digits)[1..] == digits;
  }

  /** The non-negative half of WholeIntRoundTrip. */
  lemma WholeIntOfNatural(n: nat)
    ensures WholeInt(IntToDecimal(n)) == Some(n)
  {
    NatToDecimalValue(n);
    assert DigitValue(NatToDecimal(n)[0]) < 10;
  }

  /** Where the fields of an assembled key sit, counted from its end. */
  lemma KeyFields(y: string, mm: string, dd: string)
    requires |mm| == 2 && |dd| == 2
    ensures var k := y + "-" + mm + "-" + dd;
      && |k| == |y| + 6
      && k[|k| - 6] == '-' && k[|k| - 3] == '-'
      && k[..|k| - 6] == y && k[|k| - 5..|k| - 3] == mm && k[|k| - 2..] == dd
  {
    var k := y + "-" + mm + "-" + dd;
    assert k[..|k| - 6] == y;
    assert k[|k| - 5..|k| - 3] == mm;
    assert k[|k| - 2..] == dd;
  }

  /** A key assembled from a whole year and two two-digit fields is split
      back into them. */
  lemma ParseAssembledKey(y: string, mm: string, dd: string)
    requires WholeInt(y).Some?
    requires |mm| == 2 && AllDigits(mm, 10) && DigitsValue(mm, 10) > 0
    requires |dd| == 2 && AllDigits(dd, 10)
    ensures ParseDateKey(y + "-" + mm + "-" + dd)
            == Some(DateParts(WholeInt(y).value, DigitsValue(mm, 10) - 1, DigitsValue(dd, 10)))
  {
    KeyFields(y, mm, dd);
  }

  /** Every key of a month with at most 98 months and 99 days is read back
      as the date it was built from. */
  lemma {:induction false} DateKeyRoundTrip(year: int, month: nat, day: nat)
    requires month < 99 && day < 100
    ensures ParseDateKey(DateKey(year, month, day)) == Some(DateParts(year, month, day))
  {
    TwoDigitsValue(month + 1);
    TwoDigitsValue(day);
    WholeIntRoundTrip(year);
    ParseAssembledKey(IntToDecimal(year), TwoDigits(month + 1), TwoDigits(day));
  }

  /** Distinct dates have distinct keys: a key names one day of one month of
      one year. */
  lemma DateKeyInjective(y1: int, m1: nat, d1: nat, y2: int, m2: nat, d2: nat)
    requires m1 < 99 && d1 < 100 && m2 < 99 && d2 < 100
    requires DateKey(y1, m1, d1) == DateKey(y2, m2, d2)
    ensures y1 == y2 && m1 == m2 && d1 == d2
  {
    DateKeyRoundTrip(y1, m1, d1);
    DateKeyRoundTrip(y2, m2, d2);
  }
}
