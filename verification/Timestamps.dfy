/**
 Timestamps as the server keeps them: strings, compared byte by byte.  For UTC times in
 the form of section 5.6 of RFC 3339, with whole seconds and a closing `Z`, the order of
 the strings is the order in time, as long as the years have the same number of digits.
 */
module Timestamps {
  import opened Wrappers
  import opened Decimal

  // a < b for Go strings and for SQLite text.
  predicate Less(a: string, b: string) {
    if b == "" then false
    else if a == "" then true
    else if a[0] != b[0] then a[0] < b[0]
    else Less(a[1..], b[1..])
  }

  predicate AtMost(a: string, b: string) {
    !Less(b, a)
  }

  lemma {:induction false} LessIrreflexive(a: string)
    ensures !Less(a, a)
  {
    if a != "" {
      LessIrreflexive(a[1..]);
    }
  }

  lemma {:induction false} LessTotal(a: string, b: string)
    ensures Less(a, b) || a == b || Less(b, a)
    ensures !(Less(a, b) && Less(b, a))
  {
    if a != "" && b != "" {
      LessTotal(a[1..], b[1..]);
      if a[0] == b[0] && a[1..] == b[1..] {
        assert a == [a[0]] + a[1..];
        assert b == [b[0]] + b[1..];
      }
    }
  }

  lemma {:induction false} LessTransitive(a: string, b: string, c: string)
    requires Less(a, b) && Less(b, c)
    ensures Less(a, c)
  {
    if a != "" && a[0] == b[0] && b[0] == c[0] {
      LessTransitive(a[1..], b[1..], c[1..]);
    }
  }

  lemma AtMostTransitive(a: string, b: string, c: string)
    requires AtMost(a, b) && AtMost(b, c)
    ensures AtMost(a, c)
  {
    LessTotal(a, b);
    LessTotal(b, c);
    if Less(c, a) {
      if a == b || b == c {
      } else {
        LessTransitive(a, b, c);
        LessTotal(a, c);
      }
    }
  }

  lemma AtMostLess(a: string, b: string, c: string)
    requires AtMost(a, b) && Less(b, c)
    ensures Less(a, c)
  {
    LessTotal(a, b);
    if a != b {
      LessTransitive(a, b, c);
    }
  }

  lemma EmptyIsLeast(a: string)
    ensures AtMost("", a)
    ensures a != "" <==> Less("", a)
  {
  }

  lemma {:induction false} LessConcat(a: string, b: string, c: string, d: string)
    requires |a| == |b|
    ensures Less(a + c, b + d) <==> Less(a, b) || (a == b && Less(c, d))
  {
    if a == "" {
      assert a + c == c && b + d == d;
    } else {
      assert (a + c)[1..] == a[1..] + c && (b + d)[1..] == b[1..] + d;
      LessConcat(a[1..], b[1..], c, d);
      assert a == [a[0]] + a[1..] && b == [b[0]] + b[1..];
    }
  }

  // ---- Fixed-width numbers ----

  function Fixed(n: nat, width: nat): (s: string)
    ensures |s| == width
  {
    if width == 0 then "" else Fixed(n / 10, width - 1) + [DigitChar(n % 10)]
  }

  lemma {:induction false} FixedInjective(m: nat, n: nat, width: nat)
    requires m < Pow10(width) && n < Pow10(width)
    ensures Fixed(m, width) == Fixed(n, width) <==> m == n
  {
    if width > 0 {
      FixedInjective(m / 10, n / 10, width - 1);
      var a, b := Fixed(m, width), Fixed(n, width);
      assert a[..width - 1] == Fixed(m / 10, width - 1) && b[..width - 1] == Fixed(n / 10, width - 1);
      assert a[width - 1] == DigitChar(m % 10) && b[width - 1] == DigitChar(n % 10);
    }
  }

  lemma {:induction false} FixedOrder(m: nat, n: nat, width: nat)
    requires m < Pow10(width) && n < Pow10(width)
    ensures Less(Fixed(m, width), Fixed(n, width)) <==> m < n
  {
    if width > 0 {
      FixedOrder(m / 10, n / 10, width - 1);
      FixedInjective(m / 10, n / 10, width - 1);
      LessConcat(Fixed(m / 10, width - 1), Fixed(n / 10, width - 1), [DigitChar(m % 10)], [DigitChar(n % 10)]);
      assert Less([DigitChar(m % 10)], [DigitChar(n % 10)]) <==> m % 10 < n % 10;
    }
  }

  // A fixed-width number, then the rest, against another of the same width.
  lemma FixedThen(m: nat, n: nat, width: nat, c: string, d: string)
    requires m < Pow10(width) && n < Pow10(width)
    ensures Less(Fixed(m, width) + c, Fixed(n, width) + d) <==> m < n || (m == n && Less(c, d))
  {
    FixedOrder(m, n, width);
    FixedInjective(m, n, width);
    LessConcat(Fixed(m, width), Fixed(n, width), c, d);
  }

  lemma SameThen(x: char, c: string, d: string)
    ensures Less([x] + c, [x] + d) <==> Less(c, d)
  {
    assert ([x] + c)[1..] == c && ([x] + d)[1..] == d;
  }

  // ---- The calendar ----

  predicate IsLeap(year: int) {
    year % 4 == 0 && (year % 100 != 0 || year % 400 == 0)
  }

  function DaysInMonth(year: int, month: nat): (d: nat)
    ensures d >= 28
  {
    if month == 2 then (if IsLeap(year) then 29 else 28)
    else if month == 4 || month == 6 || month == 9 || month == 11 then 30
    else 31
  }

  function DaysBeforeMonth(year: int, month: nat): nat
    requires month >= 1
  {
    if month == 1 then 0 else DaysBeforeMonth(year, month - 1) + DaysInMonth(year, month - 1)
  }

  // Days since the first of January of the year -1.
  function DaysBeforeYear(year: int): nat
    requires year >= -1
  {
    if year == -1 then 0 else DaysBeforeYear(year - 1) + DaysBeforeMonth(year - 1, 13)
  }

  // The number of digits a year is printed with.
  function Width(year: int): (w: nat)
    ensures w >= 4
  {
    if year <= 9999 then 4
    else
      DigitsLength(year, 4);
      assert Pow10(4) == 10000;
      |Digits(year)|
  }

  // At least four digits, after a sign if there is one.
  function YearText(year: int): string
    decreases if year < 0 then 1 else 0
  {
    if year < 0 then "-" + YearText(-year)
    else if year <= 9999 then Fixed(year, 4)
    else Digits(year)
  }

  // A moment in UTC.  A date of the years 0 to 9999 with an offset can become one of the
  // year -1, and one of the year 10000.
  datatype DateTime = DateTime(year: int, month: nat, day: nat, hour: nat, minute: nat, second: nat)
  {
    predicate Valid() {
      && year >= -1 && 1 <= month <= 12 && 1 <= day <= DaysInMonth(year, month)
      && hour < 24 && minute < 60 && second < 60
    }

    // Days since the first of January of the year -1.
    function DayNumber(): nat
      requires Valid()
    {
      DaysBeforeYear(year) + DaysBeforeMonth(year, month) + day - 1
    }

    function SecondOfDay(): nat {
      (hour * 60 + minute) * 60 + second
    }

    // Seconds since then.
    function Seconds(): nat
      requires Valid()
    {
      DayNumber() * 86400 + SecondOfDay()
    }

    // `t.UTC().Format(time.RFC3339)`
    function Format(): string {
      YearText(year) + InYear()
    }

    function InYear(): string {
      "-" + (Fixed(month, 2) + ("-" + (Fixed(day, 2) + ("T" + (Fixed(hour, 2)
      + (":" + (Fixed(minute, 2) + (":" + (Fixed(second, 2) + "Z")))))))))
    }

    // Earlier, field by field.
    predicate Earlier(o: DateTime) {
      year < o.year || (year == o.year && (
        month < o.month || (month == o.month && (
          day < o.day || (day == o.day && SecondOfDay() < o.SecondOfDay())))))
    }
  }

  lemma {:induction false} MonthsGrow(year: int, a: nat, b: nat)
    requires 1 <= a < b
    ensures DaysBeforeMonth(year, a) + DaysInMonth(year, a) <= DaysBeforeMonth(year, b)
    decreases b
  {
    if a + 1 < b {
      MonthsGrow(year, a, b - 1);
    }
  }

  lemma {:induction false} YearsGrow(a: int, b: int)
    requires -1 <= a < b
    ensures DaysBeforeYear(a) + DaysBeforeMonth(a, 13) <= DaysBeforeYear(b)
    decreases b
  {
    if a + 1 < b {
      YearsGrow(a, b - 1);
    }
  }

  lemma EarlierDay(a: DateTime, b: DateTime)
    requires a.Valid() && b.Valid()
    requires a.year < b.year || (a.year == b.year && (a.month < b.month || (a.month == b.month && a.day < b.day)))
    ensures a.DayNumber() < b.DayNumber()
  {
    hide DaysInMonth, DaysBeforeMonth, DaysBeforeYear;
    if a.year < b.year {
      MonthsGrow(a.year, a.month, 13);
      YearsGrow(a.year, b.year);
    } else if a.month < b.month {
      MonthsGrow(a.year, a.month, b.month);
    }
  }

  // Field by field and by seconds is the same order.
  lemma EarlierIsFewerSeconds(a: DateTime, b: DateTime)
    requires a.Valid() && b.Valid()
    ensures a.Earlier(b) <==> a.Seconds() < b.Seconds()
  {
    if a.Earlier(b) {
      EarlierSeconds(a, b);
    } else if b.Earlier(a) {
      EarlierSeconds(b, a);
    } else {
      assert a.year == b.year && a.month == b.month && a.day == b.day;
    }
  }

  lemma EarlierSeconds(a: DateTime, b: DateTime)
    requires a.Valid() && b.Valid() && a.Earlier(b)
    ensures a.Seconds() < b.Seconds()
  {
    if a.year < b.year || a.month < b.month || a.day < b.day {
      if !(a.year == b.year && a.month == b.month && a.day == b.day) {
        EarlierDay(a, b);
      }
    }
    assert a.SecondOfDay() < 86400 && b.SecondOfDay() < 86400;
  }

  lemma Widths()
    ensures Pow10(2) == 100 && Pow10(4) == 10000
  {
  }

  lemma SixtiesOrder(a: DateTime, b: DateTime)
    requires a.Valid() && b.Valid()
    ensures a.SecondOfDay() < b.SecondOfDay()
       <==> a.hour < b.hour || (a.hour == b.hour && (a.minute < b.minute || (a.minute == b.minute && a.second < b.second)))
  {
  }

  // Within a year the rest of the string decides.
  lemma InYearLess(a: DateTime, b: DateTime)
    requires a.Valid() && b.Valid()
    ensures Less(a.InYear(), b.InYear()) <==> a.(year := b.year).Earlier(b)
  {
    hide Less, Fixed, Pow10, DaysInMonth;
    Widths();
    var (a6, b6) := (Fixed(a.second, 2) + "Z", Fixed(b.second, 2) + "Z");
    var (a5, b5) := (Fixed(a.minute, 2) + (":" + a6), Fixed(b.minute, 2) + (":" + b6));
    var (a4, b4) := (Fixed(a.hour, 2) + (":" + a5), Fixed(b.hour, 2) + (":" + b5));
    assert Less(a4, b4) <==> a.SecondOfDay() < b.SecondOfDay() by {
      FixedThen(a.hour, b.hour, 2, ":" + a5, ":" + b5);
      SameThen(':', a5, b5);
      FixedThen(a.minute, b.minute, 2, ":" + a6, ":" + b6);
      SameThen(':', a6, b6);
      FixedThen(a.second, b.second, 2, "Z", "Z");
      LessIrreflexive("Z");
      SixtiesOrder(a, b);
    }
    var (a3, b3) := (Fixed(a.day, 2) + ("T" + a4), Fixed(b.day, 2) + ("T" + b4));
    var (a2, b2) := (Fixed(a.month, 2) + ("-" + a3), Fixed(b.month, 2) + ("-" + b3));
    assert a.day < 100 && b.day < 100 by { ShortMonths(a.year, a.month); ShortMonths(b.year, b.month); }
    SameThen('-', a2, b2);
    FixedThen(a.month, b.month, 2, "-" + a3, "-" + b3);
    SameThen('-', a3, b3);
    FixedThen(a.day, b.day, 2, "T" + a4, "T" + b4);
    SameThen('T', a4, b4);
  }

  lemma ShortMonths(year: int, month: nat)
    ensures DaysInMonth(year, month) <= 31
  {
  }

  // ---- Years of different widths ----

  lemma {:induction false} DigitsFixed(n: nat)
    ensures Digits(n) == Fixed(n, |Digits(n)|)
  {
    if n < 10 {
      assert Fixed(n / 10, 0) == "";
    } else {
      DigitsFixed(n / 10);
    }
  }

  // The printed year, and that it fits its width.
  lemma YearFixed(year: nat)
    ensures YearText(year) == Fixed(year, Width(year)) && year < Pow10(Width(year))
  {
    Widths();
    if year > 9999 {
      DigitsFixed(year);
      DigitsLength(year, Width(year));
    }
  }

  // A number without its last d digits.
  function Leading(n: nat, d: nat): nat {
    if d == 0 then n else Leading(n / 10, d - 1)
  }

  lemma {:induction false} LeadingBelow(n: nat, k: nat, d: nat)
    requires n < Pow10(k + d)
    ensures Leading(n, d) < Pow10(k)
  {
    if d > 0 {
      LeadingBelow(n / 10, k, d - 1);
    }
  }

  lemma {:induction false} AtMostLeading(m: nat, n: nat, d: nat)
    ensures m <= Leading(n, d) <==> m * Pow10(d) <= n
  {
    if d > 0 {
      AtMostLeading(m, n / 10, d - 1);
      TenTimes(m, Pow10(d - 1));
    }
  }

  lemma TenTimes(m: nat, p: nat)
    ensures m * (10 * p) == 10 * (m * p)
  {
  }

  lemma FixedStep(n: nat, width: nat)
    requires width > 0
    ensures Fixed(n, width) == Fixed(n / 10, width - 1) + [DigitChar(n % 10)]
  {
  }

  lemma {:induction false} FixedSplit(n: nat, k: nat, d: nat) returns (low: string)
    ensures Fixed(n, k + d) == Fixed(Leading(n, d), k) + low && |low| == d && AllDigits(low)
  {
    hide Fixed;
    if d == 0 {
      low := "";
      assert Fixed(n, k) + "" == Fixed(n, k);
    } else {
      var init := FixedSplit(n / 10, k, d - 1);
      FixedStep(n, k + d);
      low := init + [DigitChar(n % 10)];
      var first := Fixed(Leading(n, d), k);
      assert first + init + [DigitChar(n % 10)] == first + low;
    }
  }

  // A hyphen comes before every digit, so that the shorter year comes first exactly if it
  // is no greater than the digits of the longer one it stands against.
  lemma ShorterYearLess(x: nat, y: nat, c: string, d: string)
    requires Width(x) < Width(y)
    ensures Less(YearText(x) + ("-" + c), YearText(y) + d) <==> x * Pow10(Width(y) - Width(x)) <= y
  {
    hide Width, YearText, Less, Fixed, Pow10;
    var k, m := Width(x), Width(y) - Width(x);
    YearFixed(x);
    YearFixed(y);
    var low := FixedSplit(y, k, m);
    LeadingBelow(y, k, m);
    AtMostLeading(x, y, m);
    var top := Leading(y, m);
    assert YearText(y) + d == Fixed(top, k) + (low + d);
    FixedThen(x, top, k, "-" + c, low + d);
    HyphenLess(c, low, d);
  }

  lemma HyphenLess(c: string, low: string, d: string)
    requires low != "" && AllDigits(low)
    ensures Less("-" + c, low + d)
  {
    assert (low + d)[0] == low[0] && IsDigit(low[0]);
  }

  lemma SameWidthLess(a: DateTime, b: DateTime)
    requires a.Valid() && b.Valid() && a.year >= 0 && b.year >= 0 && Width(a.year) == Width(b.year)
    ensures Less(a.Format(), b.Format()) <==> a.Earlier(b)
  {
    hide Width, YearText, Less, Fixed, Pow10, DaysInMonth;
    YearFixed(a.year);
    YearFixed(b.year);
    InYearLess(a, b);
    FixedThen(a.year, b.year, Width(a.year), a.InYear(), b.InYear());
  }

  lemma YearStartsWithDigit(year: nat)
    ensures YearText(year) != "" && IsDigit(YearText(year)[0])
  {
    if year <= 9999 {
      FirstDigit(year, 4);
    }
  }

  lemma {:induction false} FirstDigit(n: nat, width: nat)
    requires width > 0
    ensures IsDigit(Fixed(n, width)[0])
  {
    if width > 1 {
      FirstDigit(n / 10, width - 1);
    }
  }

  // A year before 0 prints with a sign, which comes before every digit.
  lemma SignedLess(a: DateTime, b: DateTime)
    requires a.Valid() && b.Valid() && a.year == -1
    ensures Less(a.Format(), b.Format()) <==> a.Earlier(b)
    ensures Less(b.Format(), a.Format()) <==> b.Earlier(a)
  {
    hide Fixed, DaysInMonth, DateTime.InYear;
    assert YearText(-1) == "-" + YearText(1);
    assert a.Format()[0] == '-';
    if b.year >= 0 {
      YearStartsWithDigit(b.year);
      assert b.Format()[0] == YearText(b.year)[0];
    } else {
      InYearLess(a, b);
      InYearLess(b, a);
      LessIrreflexive(YearText(-1));
      LessConcat(YearText(-1), YearText(-1), a.InYear(), b.InYear());
      LessConcat(YearText(-1), YearText(-1), b.InYear(), a.InYear());
    }
  }

  // The order of two printed moments, for all years.
  lemma FormatLess(a: DateTime, b: DateTime)
    requires a.Valid() && b.Valid()
    ensures Less(a.Format(), b.Format()) <==>
      if Width(a.year) == Width(b.year) then a.Earlier(b)
      else if Width(a.year) < Width(b.year) then a.year * Pow10(Width(b.year) - Width(a.year)) <= b.year
      else !(b.year * Pow10(Width(a.year) - Width(b.year)) <= a.year)
  {
    hide Less, Fixed, Pow10, DaysInMonth, DateTime.Format;
    if a.year == -1 {
      SignedLess(a, b);
      NegativeProduct(Pow10(if Width(b.year) > Width(a.year) then Width(b.year) - Width(a.year) else 0));
    } else if b.year == -1 {
      SignedLess(b, a);
      NegativeProduct(Pow10(if Width(a.year) > Width(b.year) then Width(a.year) - Width(b.year) else 0));
    } else if Width(a.year) == Width(b.year) {
      SameWidthLess(a, b);
    } else {
      OtherWidthLess(a, b);
    }
  }

  lemma NegativeProduct(p: nat)
    ensures -1 * p <= 0
  {
  }

  lemma OtherWidthLess(a: DateTime, b: DateTime)
    requires a.Valid() && b.Valid() && a.year >= 0 && b.year >= 0 && Width(a.year) != Width(b.year)
    ensures Less(a.Format(), b.Format()) <==>
      if Width(a.year) < Width(b.year) then a.year * Pow10(Width(b.year) - Width(a.year)) <= b.year
      else !(b.year * Pow10(Width(a.year) - Width(b.year)) <= a.year)
  {
    hide Less, Fixed, Pow10, DaysInMonth, YearText, Width;
    var (c, d) := (a.InYear()[1..], b.InYear()[1..]);
    assert a.InYear() == "-" + c && b.InYear() == "-" + d;
    if Width(a.year) < Width(b.year) {
      ShorterYearLess(a.year, b.year, c, b.InYear());
    } else {
      ShorterYearLess(b.year, a.year, d, a.InYear());
      LessTotal(a.Format(), b.Format());
      WidthsDiffer(a, b);
    }
  }

  // Years of different widths print differently.
  lemma WidthsDiffer(a: DateTime, b: DateTime)
    requires a.year >= 0 && b.year >= 0 && Width(a.year) != Width(b.year)
    ensures a.Format() != b.Format()
  {
    hide Fixed, Pow10, Width, YearText;
    YearFixed(a.year);
    YearFixed(b.year);
    assert |a.InYear()| == |b.InYear()|;
    assert |a.Format()| == Width(a.year) + |a.InYear()|;
    assert |b.Format()| == Width(b.year) + |b.InYear()|;
  }

  // The strings of two moments compare as the moments do.
  predicate ComparesInTime(a: DateTime, b: DateTime)
    requires a.Valid() && b.Valid()
  {
    && (Less(a.Format(), b.Format()) <==> a.Seconds() < b.Seconds())
    && (Less(b.Format(), a.Format()) <==> b.Seconds() < a.Seconds())
  }

  // The earlier of two years, if it has fewer digits, is no greater than the leading
  // digits of the later one.
  predicate YearsCompare(x: int, y: int) {
    && (Width(x) < Width(y) ==> x * Pow10(Width(y) - Width(x)) <= y)
    && (Width(y) < Width(x) ==> y * Pow10(Width(x) - Width(y)) <= x)
  }

  lemma {:induction false} WidthGrows(x: int, y: int)
    requires x <= y
    ensures Width(x) <= Width(y)
  {
    if 9999 < x {
      DigitsLength(y, Width(y));
      DigitsLength(x, Width(y));
    }
  }

  // For all moments: the strings compare in time if and only if the years do.
  lemma FormatOrderIff(a: DateTime, b: DateTime)
    requires a.Valid() && b.Valid()
    ensures ComparesInTime(a, b) <==> YearsCompare(a.year, b.year)
  {
    hide Less, Pow10, DateTime.Format, DateTime.Seconds, Width;
    FormatLess(a, b);
    FormatLess(b, a);
    EarlierIsFewerSeconds(a, b);
    EarlierIsFewerSeconds(b, a);
    if a.year <= b.year { WidthGrows(a.year, b.year); }
    if b.year <= a.year { WidthGrows(b.year, a.year); }
  }

  // The order of the strings is the order in time, for every two moments of the years
  // up to 9999.
  lemma FormatOrder(a: DateTime, b: DateTime)
    requires a.Valid() && b.Valid() && a.year <= 9999 && b.year <= 9999
    ensures Less(a.Format(), b.Format()) <==> a.Seconds() < b.Seconds()
    ensures a.Format() == b.Format() <==> a == b
  {
    hide Less, DateTime.Format, DateTime.Seconds;
    FormatOrderIff(a, b);
    LessTotal(a.Format(), b.Format());
    if a.Format() == b.Format() {
      LessIrreflexive(a.Format());
      SameSeconds(a, b);
    }
  }

  lemma SameSeconds(a: DateTime, b: DateTime)
    requires a.Valid() && b.Valid() && a.Seconds() == b.Seconds()
    ensures a == b
  {
    EarlierIsFewerSeconds(a, b);
    EarlierIsFewerSeconds(b, a);
    SixtiesOrder(a, b);
    SixtiesOrder(b, a);
  }

  // Against a year of five digits the order in time is kept by the years up to a tenth of
  // it, and by no others of up to four digits: the last second of 9999 does not come
  // before the year 10000.
  lemma FormatOrderEnds(a: DateTime, b: DateTime)
    requires a.Valid() && b.Valid() && a.year <= 9999 < b.year <= 99999
    ensures ComparesInTime(a, b) <==> a.year * 10 <= b.year
    ensures var (last, next) := (DateTime(9999, 12, 31, 23, 59, 59), DateTime(10000, 1, 1, 4, 0, 0));
      last.Valid() && next.Valid() && !ComparesInTime(last, next)
  {
    hide ComparesInTime, Digits;
    WidthOfFive(b.year);
    FormatOrderIff(a, b);
    var (last, next) := (DateTime(9999, 12, 31, 23, 59, 59), DateTime(10000, 1, 1, 4, 0, 0));
    WidthOfFive(next.year);
    FormatOrderIff(last, next);
  }

  lemma WidthOfFive(year: nat)
    requires 9999 < year <= 99999
    ensures Width(year) == 5 && Pow10(1) == 10
  {
    Widths();
    assert Pow10(5) == 100000;
    DigitsLength(year, 4);
    DigitsLength(year, 5);
  }

  // ---- The form and the calendar themselves ----

  lemma {:induction false} FixedReadsBack(n: nat, width: nat)
    requires n < Pow10(width)
    ensures AllDigits(Fixed(n, width)) && Value(Fixed(n, width)) == n
  {
    if width > 0 {
      FixedReadsBack(n / 10, width - 1);
      assert Fixed(n, width)[..width - 1] == Fixed(n / 10, width - 1);
    }
  }

  // The form of section 5.6 of RFC 3339: where each field and each fixed character stands.
  ghost predicate IsRFC3339(s: string, t: DateTime) {
    && |s| == 20
    && s[4] == '-' && s[7] == '-' && s[10] == 'T' && s[13] == ':' && s[16] == ':' && s[19] == 'Z'
    && Reads(s[..4], t.year) && Reads(s[5..7], t.month) && Reads(s[8..10], t.day)
    && Reads(s[11..13], t.hour) && Reads(s[14..16], t.minute) && Reads(s[17..19], t.second)
  }

  predicate Reads(s: string, n: int) {
    AllDigits(s) && Value(s) == n
  }

  lemma FormatIsRFC3339(t: DateTime)
    requires t.Valid() && 0 <= t.year <= 9999
    ensures IsRFC3339(t.Format(), t)
  {
    hide Fixed, Pow10, Reads, DaysInMonth;
    Widths();
    ShortMonths(t.year, t.month);
    FieldReads(t.year, 4);
    FieldReads(t.month, 2);
    FieldReads(t.day, 2);
    FieldReads(t.hour, 2);
    FieldReads(t.minute, 2);
    FieldReads(t.second, 2);
    var s := t.Format();
    assert s == Fixed(t.year, 4) + "-" + Fixed(t.month, 2) + "-" + Fixed(t.day, 2) + "T" + Fixed(t.hour, 2)
             + ":" + Fixed(t.minute, 2) + ":" + Fixed(t.second, 2) + "Z";
    assert s[4] == '-' && s[7] == '-' && s[10] == 'T' && s[13] == ':' && s[16] == ':' && s[19] == 'Z';
    assert s[..4] == Fixed(t.year, 4) && s[5..7] == Fixed(t.month, 2) && s[8..10] == Fixed(t.day, 2);
    assert s[11..13] == Fixed(t.hour, 2) && s[14..16] == Fixed(t.minute, 2) && s[17..19] == Fixed(t.second, 2);
    assert IsRFC3339(s, t);
  }

  lemma FieldReads(n: nat, width: nat)
    requires n < Pow10(width)
    ensures Reads(Fixed(n, width), n)
  {
    FixedReadsBack(n, width);
  }

  // The days before each month, and the length of a year.
  lemma MonthTable(year: int)
    ensures var d := if year % 4 == 0 && (year % 100 != 0 || year % 400 == 0) then 1 else 0;
      && DaysBeforeMonth(year, 2) == 31 && DaysBeforeMonth(year, 3) == 59 + d && DaysBeforeMonth(year, 4) == 90 + d
      && DaysBeforeMonth(year, 5) == 120 + d && DaysBeforeMonth(year, 6) == 151 + d
      && DaysBeforeMonth(year, 7) == 181 + d && DaysBeforeMonth(year, 8) == 212 + d
      && DaysBeforeMonth(year, 9) == 243 + d && DaysBeforeMonth(year, 10) == 273 + d
      && DaysBeforeMonth(year, 11) == 304 + d && DaysBeforeMonth(year, 12) == 334 + d
      && DaysBeforeMonth(year, 13) == 365 + d
  {
    assert DaysBeforeMonth(year, 1) == 0;
    assert DaysBeforeMonth(year, 2) == 31;
    assert DaysBeforeMonth(year, 3) == 31 + DaysInMonth(year, 2);
    assert DaysBeforeMonth(year, 4) == 62 + DaysInMonth(year, 2);
    assert DaysBeforeMonth(year, 5) == 92 + DaysInMonth(year, 2);
    assert DaysBeforeMonth(year, 6) == 123 + DaysInMonth(year, 2);
    assert DaysBeforeMonth(year, 7) == 153 + DaysInMonth(year, 2);
    assert DaysBeforeMonth(year, 8) == 184 + DaysInMonth(year, 2);
    assert DaysBeforeMonth(year, 9) == 215 + DaysInMonth(year, 2);
    assert DaysBeforeMonth(year, 10) == 245 + DaysInMonth(year, 2);
    assert DaysBeforeMonth(year, 11) == 276 + DaysInMonth(year, 2);
    assert DaysBeforeMonth(year, 12) == 306 + DaysInMonth(year, 2);
  }

  // The Gregorian count of days, in closed form.
  lemma {:induction false} DaysBeforeYearIs(year: nat)
    ensures DaysBeforeYear(year) == 365 * (year + 1) + (year + 3) / 4 - (year + 99) / 100 + (year + 399) / 400
  {
    hide DaysBeforeMonth, One;
    if year == 0 {
      YearZero();
    } else {
      YearLength(year - 1);
      DaysBeforeYearIs(year - 1);
      NextOf4(year - 1);
      NextOf100(year - 1);
      NextOf400(year - 1);
    }
  }

  lemma YearZero()
    ensures DaysBeforeYear(0) == 365
  {
    hide DaysBeforeMonth;
    YearLength(-1);
    assert DaysBeforeYear(-1) == 0;
  }

  function One(b: bool): int {
    if b then 1 else 0
  }

  lemma YearLength(year: int)
    ensures DaysBeforeMonth(year, 13) == 365 + One(year % 4 == 0) - One(year % 100 == 0) + One(year % 400 == 0)
  {
    MonthTable(year);
    hide DaysBeforeMonth;
  }

  lemma NextOf4(y: nat)
    ensures (y + 1 + 3) / 4 == (y + 3) / 4 + One(y % 4 == 0)
  {
  }

  lemma NextOf100(y: nat)
    ensures (y + 1 + 99) / 100 == (y + 99) / 100 + One(y % 100 == 0)
  {
  }

  lemma NextOf400(y: nat)
    ensures (y + 1 + 399) / 400 == (y + 399) / 400 + One(y % 400 == 0)
  {
  }

  // ---- Dates of feeds ----

  type reader = string -> Option<DateTime>

  // The first format that reads the date, if any.
  function FirstReading(readers: seq<reader>, date: string): Option<DateTime> {
    if readers == [] then None
    else if readers[0](date).Some? then readers[0](date)
    else FirstReading(readers[1..], date)
  }

  // Every format is tried, in order, until one reads the date.
  lemma {:induction false} FirstReadingIs(readers: seq<reader>, date: string)
    ensures FirstReading(readers, date).None? <==> forall k :: 0 <= k < |readers| ==> readers[k](date).None?
    ensures forall k :: 0 <= k < |readers| && readers[k](date).Some? && (forall j :: 0 <= j < k ==> readers[j](date).None?)
                        ==> FirstReading(readers, date) == readers[k](date)
  {
    if readers != [] {
      FirstReadingIs(readers[1..], date);
      assert forall k :: 1 <= k < |readers| ==> readers[k] == readers[1..][k - 1];
      forall k | 0 < k < |readers| && readers[k](date).Some? && (forall j :: 0 <= j < k ==> readers[j](date).None?)
        ensures FirstReading(readers, date) == readers[k](date)
      {
        assert readers[0](date).None?;
        assert forall j :: 0 <= j < k - 1 ==> readers[1..][j] == readers[j + 1];
        assert readers[1..][k - 1] == readers[k];
      }
    }
  }

  // `parseRSSDate`: UTC in the one form if some format reads the date, else the date as
  // it came.
  function RSSDate(readers: seq<reader>, trimmed: string): string {
    match FirstReading(readers, trimmed)
    case Some(t) => t.Format()
    case None => trimmed
  }

  method ParseRSSDate(readers: seq<reader>, trimmed: string) returns (date: string)
    ensures date == RSSDate(readers, trimmed)
  {
    var i := 0;
    while i < |readers|
      invariant 0 <= i <= |readers|
      invariant FirstReading(readers, trimmed) == FirstReading(readers[i..], trimmed)
    {
      var t := readers[i](trimmed);
      if t.Some? {
        return t.value.Format();
      }
      i := i + 1;
    }
    return trimmed;
  }

  // The first format that reads a date gives its form; a date that none reads stays as it came.
  lemma RSSDateIs(readers: seq<reader>, trimmed: string, k: nat)
    requires k <= |readers| && (forall j :: 0 <= j < k ==> readers[j](trimmed).None?)
    ensures k == |readers| ==> RSSDate(readers, trimmed) == trimmed
    ensures k < |readers| && readers[k](trimmed).Some? ==> RSSDate(readers, trimmed) == readers[k](trimmed).value.Format()
  {
    hide DateTime.Format;
    FirstReadingIs(readers, trimmed);
  }

  // Two dates that are recognised compare as the moments they stand for exactly when the
  // years of the moments do.
  lemma RecognisedDatesCompare(readers: seq<reader>, d: string, e: string)
    requires var (x, y) := (FirstReading(readers, d), FirstReading(readers, e));
      x.Some? && y.Some? && x.value.Valid() && y.value.Valid()
    ensures var (x, y) := (FirstReading(readers, d).value, FirstReading(readers, e).value);
      (&& (Less(RSSDate(readers, d), RSSDate(readers, e)) <==> x.Seconds() < y.Seconds())
       && (Less(RSSDate(readers, e), RSSDate(readers, d)) <==> y.Seconds() < x.Seconds()))
      <==> YearsCompare(x.year, y.year)
  {
    hide DateTime.Format, DateTime.Seconds, YearsCompare;
    FormatOrderIff(FirstReading(readers, d).value, FirstReading(readers, e).value);
  }
}
