/**
 Calendar dates of the credential protocol (src/cred_protocol.cpp): full-date texts as in
 section 5.6 of RFC 3339, and seconds since 1970-01-01 UTC.
 */
module CredDates {
  import opened Basics

  datatype Date = Date(year: int, month: int, day: int)

  const SECONDS_PER_DAY := 86400

  predicate Leap(year: int) {
    year % 4 == 0 && (year % 100 != 0 || year % 400 == 0)
  }

  function MonthDays(year: int, month: int): (n: int)
    requires 1 <= month <= 12
    ensures 28 <= n <= 31
  {
    [31, 28, 31, 30, 31, 30, 31, 31, 30, 31, 30, 31][month - 1] + if month == 2 && Leap(year) then 1 else 0
  }

  // Days before 1 January of a year, counted from year 1.
  function YearDays(year: int): int
    requires year >= 1
  {
    var y := year - 1;
    y * 365 + y / 4 - y / 100 + y / 400
  }

  // Days from 1970-01-01 to 1 January of a year.
  function DaysTo(year: int): int
    requires year >= 1
  {
    YearDays(year) - YearDays(1970)
  }

  const END_OF_RANGE := DaysTo(10000)

  // Days of the year before a month.
  function DaysBefore(year: int, month: int): int
    requires 1 <= month <= 13
    decreases month
  {
    if month == 1 then 0 else DaysBefore(year, month - 1) + MonthDays(year, month - 1)
  }

  predicate ValidDate(d: Date) {
    1970 <= d.year <= 9999 && 1 <= d.month <= 12 && 1 <= d.day <= MonthDays(d.year, d.month)
  }

  // The reference: the number of days from 1970-01-01 to a date.
  function DayNumber(d: Date): int
    requires d.year >= 1 && 1 <= d.month <= 12
  {
    DaysTo(d.year) + DaysBefore(d.year, d.month) + d.day - 1
  }

  predicate Before(a: Date, b: Date) {
    a.year < b.year || (a.year == b.year && (a.month < b.month || (a.month == b.month && a.day < b.day)))
  }

  // ---------- the calendar ----------

  lemma DivideBy4(y: nat)
    requires y >= 1
    ensures y / 4 - (y - 1) / 4 == if y % 4 == 0 then 1 else 0
  {
  }

  lemma DivideBy100(y: nat)
    requires y >= 1
    ensures y / 100 - (y - 1) / 100 == if y % 100 == 0 then 1 else 0
  {
  }

  lemma DivideBy400(y: nat)
    requires y >= 1
    ensures y / 400 - (y - 1) / 400 == if y % 400 == 0 then 1 else 0
  {
  }

  lemma MultiplesNest(y: nat)
    ensures y % 400 == 0 ==> y % 100 == 0
    ensures y % 100 == 0 ==> y % 4 == 0
  {
    if y % 400 == 0 { MultipleOf100(4 * (y / 400), y); }
    if y % 100 == 0 { MultipleOf4(25 * (y / 100), y); }
  }

  lemma MultipleOf100(q: nat, y: nat)
    requires y == 100 * q
    ensures y % 100 == 0
  {
  }

  lemma MultipleOf4(q: int, y: int)
    requires y == 4 * q
    ensures y % 4 == 0
  {
  }

  lemma YearLength(year: int)
    requires year >= 1
    ensures DaysTo(year + 1) - DaysTo(year) == if Leap(year) then 366 else 365
  {
    DivideBy4(year);
    DivideBy100(year);
    DivideBy400(year);
    MultiplesNest(year);
  }

  lemma MonthsFillYear(year: int)
    ensures DaysBefore(year, 13) == if Leap(year) then 366 else 365
  {
    assert DaysBefore(year, 4) == 90 + if Leap(year) then 1 else 0;
    assert DaysBefore(year, 7) == DaysBefore(year, 4) + 91;
    assert DaysBefore(year, 10) == DaysBefore(year, 7) + 92;
  }

  lemma {:induction false} MonthsIncrease(year: int, m: int, n: int)
    requires 1 <= m <= n <= 13
    ensures DaysBefore(year, m) + 28 * (n - m) <= DaysBefore(year, n)
    decreases n
  {
    if m < n {
      MonthsIncrease(year, m, n - 1);
    }
  }

  lemma {:induction false} YearsIncrease(a: int, b: int)
    requires 1 <= a <= b
    ensures DaysTo(a) + 365 * (b - a) <= DaysTo(b) <= DaysTo(a) + 366 * (b - a)
    decreases b
  {
    if a < b {
      YearsIncrease(a, b - 1);
      YearLength(b - 1);
    }
  }

  lemma DayOfYearBounds(d: Date)
    requires ValidDate(d)
    ensures DaysTo(d.year) <= DayNumber(d) < DaysTo(d.year + 1)
    ensures DaysBefore(d.year, d.month) <= DayNumber(d) - DaysTo(d.year) < DaysBefore(d.year, d.month + 1)
  {
    MonthsIncrease(d.year, 1, d.month);
    MonthsIncrease(d.year, d.month + 1, 13);
    MonthsFillYear(d.year);
    YearLength(d.year);
  }

  // Later dates have larger numbers.
  lemma DayNumberIncreases(a: Date, b: Date)
    requires ValidDate(a) && ValidDate(b) && Before(a, b)
    ensures DayNumber(a) < DayNumber(b)
  {
    if a.year < b.year {
      LaterYearIncreases(a, b);
    } else if a.month < b.month {
      SameYearIncreases(a, b);
    }
  }

  lemma LaterYearIncreases(a: Date, b: Date)
    requires ValidDate(a) && ValidDate(b) && a.year < b.year
    ensures DayNumber(a) < DayNumber(b)
  {
    assert DayNumber(a) < DaysTo(a.year + 1) by { DayOfYearBounds(a); }
    assert DaysTo(b.year) <= DayNumber(b) by { DayOfYearBounds(b); }
    assert DaysTo(a.year + 1) <= DaysTo(b.year) by { YearsIncrease(a.year + 1, b.year); }
  }

  lemma SameYearIncreases(a: Date, b: Date)
    requires ValidDate(a) && ValidDate(b) && a.year == b.year && a.month < b.month
    ensures DayNumber(a) < DayNumber(b)
  {
    MonthsIncrease(a.year, a.month + 1, b.month);
    assert DaysBefore(a.year, a.month + 1) == DaysBefore(a.year, a.month) + MonthDays(a.year, a.month);
  }

  lemma DayNumberInjective(a: Date, b: Date)
    requires ValidDate(a) && ValidDate(b) && DayNumber(a) == DayNumber(b)
    ensures a == b
  {
    if Before(a, b) {
      DayNumberIncreases(a, b);
    } else if Before(b, a) {
      DayNumberIncreases(b, a);
    }
  }

  lemma DayNumberRange(d: Date)
    requires ValidDate(d)
    ensures 0 <= DayNumber(d) < END_OF_RANGE
  {
    DayOfYearBounds(d);
    YearsIncrease(1970, d.year);
    YearsIncrease(d.year + 1, 10000);
  }

  // ---------- the searches of formatDate ----------

  function YearFrom(days: nat, year: int): int
    requires year >= 1970
    decreases days + 366 - DaysTo(year)
  {
    YearsIncrease(year, year + 1);
    if DaysTo(year + 1) <= days then YearFrom(days, year + 1) else year
  }

  function MonthFrom(rest: nat, year: int, month: int): int
    requires 1 <= month <= 12
    decreases 12 - month
  {
    if rest >= MonthDays(year, month) && month < 12
    then MonthFrom(rest - MonthDays(year, month), year, month + 1) else month
  }

  lemma {:induction false} YearFromIsRight(days: nat, year: int)
    requires year >= 1970 && DaysTo(year) <= days
    ensures var y := YearFrom(days, year); y >= year && DaysTo(y) <= days < DaysTo(y + 1)
    decreases days + 366 - DaysTo(year)
  {
    YearsIncrease(year, year + 1);
    if DaysTo(year + 1) <= days {
      YearFromIsRight(days, year + 1);
    }
  }

  lemma {:induction false} MonthFromIsRight(rest: nat, year: int, month: int)
    requires 1 <= month <= 12 && rest < DaysBefore(year, 13) - DaysBefore(year, month)
    ensures var m := MonthFrom(rest, year, month);
            && month <= m <= 12
            && DaysBefore(year, m) <= DaysBefore(year, month) + rest < DaysBefore(year, m + 1)
    decreases 12 - month
  {
    assert DaysBefore(year, month + 1) == DaysBefore(year, month) + MonthDays(year, month);
    if rest >= MonthDays(year, month) && month < 12 {
      MonthFromIsRight(rest - MonthDays(year, month), year, month + 1);
    }
  }

  // The year search starts no later than the year of the day.
  function FirstGuess(days: nat): int {
    1970 + days / 366
  }

  lemma GuessIsEarly(days: nat)
    ensures DaysTo(FirstGuess(days)) <= days
  {
    YearsIncrease(1970, FirstGuess(days));
  }

  // The date that formatDate arrives at.
  function DateOf(days: nat): Date {
    var year := YearFrom(days, FirstGuess(days));
    YearFromStart(days);
    var rest := days - DaysTo(year);
    var month := MonthFrom(rest, year, 1);
    Date(year, month, rest - DaysBefore(year, month) + 1)
  }

  lemma YearFromStart(days: nat)
    ensures var y := YearFrom(days, FirstGuess(days));
            && y >= 1970 && DaysTo(y) <= days < DaysTo(y + 1)
            && days - DaysTo(y) < DaysBefore(y, 13)
            && 1 <= MonthFrom(days - DaysTo(y), y, 1) <= 12
  {
    GuessIsEarly(days);
    YearFromIsRight(days, FirstGuess(days));
    var y := YearFrom(days, FirstGuess(days));
    MonthsFillYear(y);
    YearLength(y);
    MonthFromIsRight(days - DaysTo(y), y, 1);
  }

  // The searches end at the one date with that number.
  lemma DateOfIsRight(days: nat)
    requires days < END_OF_RANGE
    ensures ValidDate(DateOf(days)) && DayNumber(DateOf(days)) == days
  {
    YearFromStart(days);
    var d := DateOf(days);
    MonthFromIsRight(days - DaysTo(d.year), d.year, 1);
    assert DaysBefore(d.year, d.month + 1) == DaysBefore(d.year, d.month) + MonthDays(d.year, d.month);
    if d.year > 9999 {
      YearsIncrease(10000, d.year);
    }
  }

  lemma DateOfInvertsDayNumber(d: Date)
    requires ValidDate(d)
    ensures DayNumber(d) >= 0 && DateOf(DayNumber(d)) == d
  {
    DayNumberRange(d);
    DateOfIsRight(DayNumber(d));
    DayNumberInjective(d, DateOf(DayNumber(d)));
  }

  // ---------- texts ----------

  predicate IsDigit(c: char) {
    '0' <= c <= '9'
  }

  function Value(c: char): int {
    c as int - '0' as int
  }

  function Digit(n: int): (c: char)
    requires 0 <= n <= 9
    ensures IsDigit(c) && Value(c) == n
  {
    (n + '0' as int) as char
  }

  function DateText(d: Date): (t: string)
    requires 0 <= d.year <= 9999 && 0 <= d.month <= 99 && 0 <= d.day <= 99
    ensures |t| == 10
  {
    [Digit(d.year / 1000), Digit(d.year / 100 % 10), Digit(d.year / 10 % 10), Digit(d.year % 10), '-',
     Digit(d.month / 10), Digit(d.month % 10), '-', Digit(d.day / 10), Digit(d.day % 10)]
  }

  predicate DateShaped(t: string) {
    && |t| == 10 && t[4] == '-' && t[7] == '-'
    && forall i :: 0 <= i < 10 && i != 4 && i != 7 ==> IsDigit(t[i])
  }

  function ReadDate(t: string): Date
    requires DateShaped(t)
  {
    Date(Value(t[0]) * 1000 + Value(t[1]) * 100 + Value(t[2]) * 10 + Value(t[3]),
         Value(t[5]) * 10 + Value(t[6]), Value(t[8]) * 10 + Value(t[9]))
  }

  lemma FourDigits(n: nat)
    ensures n / 1000 * 1000 + n / 100 % 10 * 100 + n / 10 % 10 * 10 + n % 10 == n
  {
    assert n / 100 / 10 == n / 1000;
    assert n / 10 / 10 == n / 100;
  }

  lemma ReadOfText(d: Date)
    requires 0 <= d.year <= 9999 && 0 <= d.month <= 99 && 0 <= d.day <= 99
    ensures DateShaped(DateText(d)) && ReadDate(DateText(d)) == d
  {
    FourDigits(d.year);
  }

  function Unlimited(endOfDay: bool): string {
    if endOfDay then "9999-12-31" else "0001-01-01"
  }

  function Stamp(d: Date, endOfDay: bool): int
    requires d.year >= 1 && 1 <= d.month <= 12
  {
    DayNumber(d) * SECONDS_PER_DAY + if endOfDay then SECONDS_PER_DAY - 1 else 0
  }

  // What parseDate makes of a text.
  function ParseText(t: string, endOfDay: bool): Option<int> {
    if t == "" || t == Unlimited(endOfDay) then Some(0)
    else if DateShaped(t) && ValidDate(ReadDate(t)) then Some(Stamp(ReadDate(t), endOfDay))
    else None
  }

  // What formatDate makes of a time stamp.
  function FormatText(stamp: nat, endOfDay: bool): string {
    var days := stamp / SECONDS_PER_DAY;
    if stamp == 0 then Unlimited(endOfDay)
    else if days >= END_OF_RANGE then "9999-12-31"
    else DateOfIsRight(days); DateText(DateOf(days))
  }

  lemma StampDay(d: Date, endOfDay: bool)
    requires ValidDate(d)
    ensures Stamp(d, endOfDay) >= 0 && Stamp(d, endOfDay) / SECONDS_PER_DAY == DayNumber(d)
    ensures Stamp(d, endOfDay) == 0 <==> !endOfDay && d == Date(1970, 1, 1)
  {
    DayNumberRange(d);
    if DayNumber(d) == 0 {
      DayNumberInjective(d, Date(1970, 1, 1));
    }
  }

  // Round trip: a valid date comes back from its time stamp, except the start of 1970-01-01,
  // whose stamp 0 means "unlimited".
  lemma DateRoundTrip(d: Date, endOfDay: bool)
    requires ValidDate(d)
    ensures ParseText(DateText(d), endOfDay).Some? && ParseText(DateText(d), endOfDay).value >= 0
    ensures FormatText(ParseText(DateText(d), endOfDay).value, endOfDay) == DateText(d)
            <==> endOfDay || d != Date(1970, 1, 1)
  {
    ReadOfText(d);
    StampDay(d, endOfDay);
    DayNumberRange(d);
    DateOfInvertsDayNumber(d);
    UnlimitedTexts(d);
  }

  lemma ParseOfText(d: Date, endOfDay: bool)
    requires ValidDate(d)
    ensures ParseText(DateText(d), endOfDay) ==
            Some(if endOfDay && d == Date(9999, 12, 31) then 0 else Stamp(d, endOfDay))
  {
    ReadOfText(d);
    UnlimitedTexts(d);
  }

  // The other way round: a time stamp comes back as the start or the end of its day, or as "unlimited".
  lemma StampRoundTrip(stamp: nat, endOfDay: bool, date: Date)
    requires 0 < stamp && stamp / SECONDS_PER_DAY < END_OF_RANGE && date == DateOf(stamp / SECONDS_PER_DAY)
    ensures ValidDate(date) && DayNumber(date) == stamp / SECONDS_PER_DAY
    ensures ParseText(FormatText(stamp, endOfDay), endOfDay)
            == Some(if endOfDay && date == Date(9999, 12, 31) then 0 else Stamp(date, endOfDay))
  {
    DateOfIsRight(stamp / SECONDS_PER_DAY);
    FormatOfStamp(stamp, endOfDay, date);
    ParseOfText(date, endOfDay);
  }

  lemma FormatOfStamp(stamp: nat, endOfDay: bool, date: Date)
    requires 0 < stamp && stamp / SECONDS_PER_DAY < END_OF_RANGE && date == DateOf(stamp / SECONDS_PER_DAY)
    ensures ValidDate(date) && FormatText(stamp, endOfDay) == DateText(date)
  {
    DateOfIsRight(stamp / SECONDS_PER_DAY);
  }

  lemma UnlimitedTexts(d: Date)
    requires ValidDate(d)
    ensures DateText(d) == Unlimited(true) <==> d == Date(9999, 12, 31)
    ensures DateText(d) != Unlimited(false)
  {
    ReadOfText(d);
    ReadOfText(Date(9999, 12, 31));
    ReadOfText(Date(1, 1, 1));
    assert DateText(Date(9999, 12, 31)) == "9999-12-31";
    assert DateText(Date(1, 1, 1)) == "0001-01-01";
  }

  // Later dates get later time stamps.
  lemma ParseIncreases(a: Date, b: Date, endOfDay: bool)
    requires ValidDate(a) && ValidDate(b) && Before(a, b) && (endOfDay ==> b != Date(9999, 12, 31))
    ensures var (x, y) := (ParseText(DateText(a), endOfDay), ParseText(DateText(b), endOfDay));
            x.Some? && y.Some? && x.value < y.value
  {
    ReadOfText(a);
    ReadOfText(b);
    UnlimitedTexts(a);
    UnlimitedTexts(b);
    DayNumberIncreases(a, b);
  }

  // ---------- the calendar in plain numbers ----------

  predicate HasLeapDay(year: int) {
    (year % 4 == 0 && year % 100 != 0) || year % 400 == 0
  }

  // The last day of each month.
  function LastDay(year: int, month: int): int {
    if month == 2 then (if HasLeapDay(year) then 29 else 28)
    else if month in {4, 6, 9, 11} then 30 else 31
  }

  predicate IsDate(d: Date) {
    1970 <= d.year <= 9999 && 1 <= d.month <= 12 && 1 <= d.day <= LastDay(d.year, d.month)
  }

  // The day after.
  function Tomorrow(d: Date): Date {
    if d.day < LastDay(d.year, d.month) then Date(d.year, d.month, d.day + 1)
    else if d.month < 12 then Date(d.year, d.month + 1, 1)
    else Date(d.year + 1, 1, 1)
  }

  lemma MonthDaysIs(year: int, month: int)
    requires 1 <= month <= 12
    ensures MonthDays(year, month) == LastDay(year, month)
  {
    assert Leap(year) <==> HasLeapDay(year) by { if year % 400 == 0 { MultipleOf4(100 * (year / 400), year); } }
  }

  // Day numbers count the days of the calendar: 1970-01-01 is day 0, and the day after has the next number.
  lemma DayNumberCounts(d: Date)
    requires IsDate(d)
    ensures DayNumber(Date(1970, 1, 1)) == 0 && DayNumber(Tomorrow(d)) == DayNumber(d) + 1
  {
    MonthDaysIs(d.year, d.month);
    if d.month == 12 {
      YearLength(d.year);
      MonthsFillYear(d.year);
      assert DaysBefore(d.year, 13) == DaysBefore(d.year, 12) + MonthDays(d.year, 12);
    } else {
      assert DaysBefore(d.year, d.month + 1) == DaysBefore(d.year, d.month) + MonthDays(d.year, d.month);
    }
  }

  lemma ValidDateIs(d: Date)
    ensures ValidDate(d) <==> IsDate(d)
  {
    if 1 <= d.month <= 12 { MonthDaysIs(d.year, d.month); }
  }

  lemma LimitTextsRead(d: Date)
    requires 0 <= d.year <= 9999 && 0 <= d.month <= 99 && 0 <= d.day <= 99
    ensures DateText(d) == "9999-12-31" <==> d == Date(9999, 12, 31)
    ensures DateText(d) == "0001-01-01" <==> d == Date(1, 1, 1)
  {
    ReadOfText(d);
    assert DateText(Date(9999, 12, 31)) == "9999-12-31" && DateText(Date(1, 1, 1)) == "0001-01-01";
    ReadOfText(Date(9999, 12, 31));
    ReadOfText(Date(1, 1, 1));
  }

  // Exactly the dates of the calendar are accepted, as the first or the last second of their day; the largest date as
  // an end, and the date 0001-01-01 as a start, stand for no limit.
  lemma ParseRule(d: Date, endOfDay: bool)
    requires 0 <= d.year <= 9999 && 0 <= d.month <= 99 && 0 <= d.day <= 99
    ensures ParseText(DateText(d), endOfDay) ==
            if (endOfDay && d == Date(9999, 12, 31)) || (!endOfDay && d == Date(1, 1, 1)) then Some(0)
            else if IsDate(d) then Some(86400 * DayNumber(d) + if endOfDay then 86399 else 0)
            else None
  {
    LimitTextsRead(d);
    ReadOfText(d);
    ValidDateIs(d);
    ParseOfShaped(DateText(d), d, endOfDay);
  }

  lemma ParseOfShaped(t: string, d: Date, endOfDay: bool)
    requires DateShaped(t) && ReadDate(t) == d
    ensures ParseText(t, endOfDay) ==
            if t == (if endOfDay then "9999-12-31" else "0001-01-01") then Some(0)
            else if ValidDate(d) then Some(86400 * DayNumber(d) + if endOfDay then 86399 else 0)
            else None
  {
  }

  // Nothing but the empty text and texts of this form is accepted.
  lemma OtherTextIsRefused(t: string, endOfDay: bool)
    ensures ParseText("", endOfDay) == Some(0)
    ensures ParseText(t, endOfDay).Some? && t != "" ==>
              DateShaped(t) && t == DateText(ReadDate(t))
  {
    assert DateShaped("9999-12-31") && DateShaped("0001-01-01");
    if DateShaped(t) { TextOfRead(t); }
  }

  lemma TextOfRead(t: string)
    requires DateShaped(t)
    ensures DateText(ReadDate(t)) == t
  {
    var d := ReadDate(t);
    FourDigitsOf(Value(t[0]), Value(t[1]), Value(t[2]), Value(t[3]), d.year);
    TwoDigitsOf(Value(t[5]), Value(t[6]), d.month);
    TwoDigitsOf(Value(t[8]), Value(t[9]), d.day);
    SameDigits(t, DateText(d));
  }

  lemma SameDigits(t: string, u: string)
    requires DateShaped(t) && DateShaped(u)
    requires forall i :: 0 <= i < 10 && i != 4 && i != 7 ==> Value(t[i]) == Value(u[i])
    ensures t == u
  {
  }

  lemma TwoDigitsOf(a: int, b: int, n: int)
    requires 0 <= a < 10 && 0 <= b < 10 && n == a * 10 + b
    ensures n / 10 == a && n % 10 == b
  {
  }

  lemma FourDigitsOf(a: int, b: int, c: int, e: int, n: int)
    requires 0 <= a < 10 && 0 <= b < 10 && 0 <= c < 10 && 0 <= e < 10 && n == a * 1000 + b * 100 + c * 10 + e
    ensures n / 1000 == a && n / 100 % 10 == b && n / 10 % 10 == c && n % 10 == e
  {
    var q, r := a * 10 + b, c * 10 + e;
    TwoDigitsOf(a, b, q);
    Hundreds(q, r, n);
    Thousands(a, b * 100 + r, n);
    Tens(q * 10 + c, e, n);
    Tens(q, c, q * 10 + c);
  }

  lemma Hundreds(q: int, r: int, n: int)
    requires 0 <= r < 100 && n == q * 100 + r
    ensures n / 100 == q
  {
  }

  lemma Thousands(q: int, r: int, n: int)
    requires 0 <= r < 1000 && n == q * 1000 + r
    ensures n / 1000 == q
  {
  }

  lemma Tens(q: int, r: int, n: int)
    requires 0 <= r < 10 && n == q * 10 + r
    ensures n / 10 == q && n % 10 == r
  {
  }

  // A time stamp shows the date of its day...
  lemma FormatRule(stamp: nat, endOfDay: bool, d: Date)
    requires IsDate(d) && stamp > 0 && 86400 * DayNumber(d) <= stamp < 86400 * (DayNumber(d) + 1)
    ensures FormatText(stamp, endOfDay) == DateText(d)
  {
    ValidDateIs(d);
    assert stamp / 86400 == DayNumber(d);
    DayNumberRange(d);
    DateOfInvertsDayNumber(d);
  }

  // ... but 0 shows no limit, and stamps from the year 10000 on show the largest date.
  lemma FormatLimits(stamp: nat, endOfDay: bool)
    ensures FormatText(0, endOfDay) == if endOfDay then "9999-12-31" else "0001-01-01"
    ensures stamp >= 86400 * (DayNumber(Date(9999, 12, 31)) + 1) ==> FormatText(stamp, endOfDay) == "9999-12-31"
  {
    LastDayOfRange();
    if stamp >= 86400 * END_OF_RANGE { assert stamp / 86400 >= END_OF_RANGE; }
  }

  lemma LastDayOfRange()
    ensures DayNumber(Date(9999, 12, 31)) + 1 == END_OF_RANGE
  {
    MonthDaysIs(9999, 12);
    DayNumberCounts(Date(9999, 12, 31));
  }

  // ---------- the routines ----------

  method ParseDate(text: Option<string>, endOfDay: bool) returns (stamp: Option<int>)
    ensures stamp == if text.None? then None else ParseText(text.value, endOfDay)
  {
    if text.None? { return None; }
    var t := text.value;
    if t == "" || t == Unlimited(endOfDay) { return Some(0); }
    var shaped := HasDateShape(t);
    if !shaped { return None; }
    var year := Value(t[0]) * 1000 + Value(t[1]) * 100 + Value(t[2]) * 10 + Value(t[3]);
    var month := Value(t[5]) * 10 + Value(t[6]);
    var day := Value(t[8]) * 10 + Value(t[9]);
    if year < 1970 || month < 1 || month > 12 || day < 1 || day > MonthDays(year, month) { return None; }
    var days := CountDays(Date(year, month, day));
    return Some(days * SECONDS_PER_DAY + if endOfDay then SECONDS_PER_DAY - 1 else 0);
  }

  method HasDateShape(t: string) returns (ok: bool)
    ensures ok == DateShaped(t)
  {
    if |t| != 10 || t[4] != '-' || t[7] != '-' { return false; }
    for i := 0 to 10
      invariant forall j :: 0 <= j < i && j != 4 && j != 7 ==> IsDigit(t[j])
    {
      if i != 4 && i != 7 && !IsDigit(t[i]) { return false; }
    }
    return true;
  }

  method CountDays(d: Date) returns (days: int)
    requires ValidDate(d)
    ensures days == DayNumber(d)
  {
    days := YearDays(d.year) - YearDays(1970) + d.day - 1;
    for m := 1 to d.month
      invariant days == DaysTo(d.year) + d.day - 1 + DaysBefore(d.year, m)
    {
      days := days + MonthDays(d.year, m);
    }
  }

  method FindYear(days: nat) returns (year: int)
    ensures year == YearFrom(days, FirstGuess(days))
  {
    year := 1970 + days / 366;
    while YearDays(year + 1) - YearDays(1970) <= days
      invariant year >= 1970 && YearFrom(days, year) == YearFrom(days, FirstGuess(days))
      decreases days - DaysTo(year)
    {
      YearLength(year);
      year := year + 1;
    }
  }

  method FindMonth(dayOfYear: nat, year: int) returns (month: int, rest: nat)
    requires dayOfYear < DaysBefore(year, 13)
    ensures month == MonthFrom(dayOfYear, year, 1) && 1 <= month <= 12
    ensures rest == dayOfYear - DaysBefore(year, month)
  {
    month, rest := 1, dayOfYear;
    while rest >= MonthDays(year, month)
      invariant 1 <= month <= 12 && rest == dayOfYear - DaysBefore(year, month)
      invariant MonthFrom(rest, year, month) == MonthFrom(dayOfYear, year, 1)
      decreases rest
    {
      assert DaysBefore(year, month + 1) == DaysBefore(year, month) + MonthDays(year, month);
      assert month < 12;
      rest := rest - MonthDays(year, month);
      month := month + 1;
    }
  }

  method FormatDate(stamp: nat, endOfDay: bool) returns (text: string)
    ensures text == FormatText(stamp, endOfDay)
  {
    if stamp == 0 { return Unlimited(endOfDay); }
    var days := stamp / SECONDS_PER_DAY;
    if days >= YearDays(10000) - YearDays(1970) { return "9999-12-31"; }
    var date := FindDate(days);
    DateOfIsRight(days);
    return DateText(date);
  }

  method FindDate(days: nat) returns (date: Date)
    ensures date == DateOf(days)
  {
    var year := FindYear(days);
    YearFromStart(days);
    var month, rest := FindMonth(days - (YearDays(year) - YearDays(1970)), year);
    return Date(year, month, rest + 1);
  }
}
