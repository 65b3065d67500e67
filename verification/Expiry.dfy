// Expiry dates from a weekly or monthly offset (_resolve_expiry in
// src/domain/instrument_resolver.py), on the proleptic Gregorian calendar: ordinal day 1
// is 1 January of year 1, and weekday 0 is Monday.
module Expiry {
  import opened Common

  const THURSDAY := 3
  const MAX_YEAR := 9999
  const MAX_ORDINAL := 3652059

  datatype Error = DateOutOfRange | UnknownKind

  // ---- The calendar ---------------------------------------------------------------------

  predicate Leap(y: int) {
    y % 4 == 0 && (y % 100 != 0 || y % 400 == 0)
  }

  function DaysInMonth(y: int, m: int): int {
    if m == 2 then (if Leap(y) then 29 else 28)
    else if m == 4 || m == 6 || m == 9 || m == 11 then 30
    else 31
  }

  // The first day of a month, months counted from January of year 0: each month starts
  // right after the one before.
  function FirstOfMonth(index: int): int {
    if index <= 12 then 1
    else FirstOfMonth(index - 1) + DaysInMonth((index - 1) / 12, (index - 1) % 12 + 1)
  }

  datatype Date = Date(year: int, month: int, day: int) {
    predicate Valid() {
      1 <= year <= MAX_YEAR && 1 <= month <= 12 && 1 <= day <= DaysInMonth(year, month)
    }

    function MonthIndex(): int {
      year * 12 + month - 1
    }

    function Ordinal(): int {
      FirstOfMonth(MonthIndex()) + day - 1
    }
  }

  function Weekday(ordinal: int): int {
    (ordinal + 6) % 7
  }

  function DaysToThursday(ordinal: int): int {
    (THURSDAY - Weekday(ordinal)) % 7
  }

  // ---- The source's computation ---------------------------------------------------------

  function InRange(ordinal: int): Result<int, Error> {
    if 1 <= ordinal <= MAX_ORDINAL then Ok(ordinal) else Err(DateOutOfRange)
  }

  function Weekly(ref: int, offset: int): Result<int, Error> {
    var base := ref + DaysToThursday(ref);
    if base > MAX_ORDINAL then Err(DateOutOfRange) else InRange(base + 7 * offset)
  }

  // The Thursday two weeks after the first one from a day on.
  function ThirdThursdayFrom(ordinal: int): int {
    ordinal + DaysToThursday(ordinal) + 14
  }

  function ThirdThursday(index: int): int {
    ThirdThursdayFrom(FirstOfMonth(index))
  }

  // The third Thursday of a month, unless the month lies beyond the last year.
  function Settled(index: int): Result<int, Error> {
    if index >= 12 * (MAX_YEAR + 1) then Err(DateOutOfRange) else Ok(ThirdThursday(index))
  }

  // Tries the month at the offset; one that is already past gives way to the next.
  function Monthly(ref: Date, offset: int): Result<int, Error>
    requires ref.Valid()
    decreases if offset < 1 then 1 - offset else 0
  {
    var tried := Settled(ref.MonthIndex() + offset);
    if ref.month + offset < 1 then Err(DateOutOfRange)
    else if tried.Ok? && tried.value < ref.Ordinal() then
      LaterMonthsAreAhead(ref, offset);
      Monthly(ref, offset + 1)
    else tried
  }

  method ResolveExpiry(offset: int, ref: Date, kind: string) returns (r: Result<int, Error>)
    requires ref.Valid()
    ensures r == if kind == "WEEK" then Weekly(ref.Ordinal(), offset)
                 else if kind == "MONTH" then Monthly(ref, offset)
                 else Err(UnknownKind)
  {
    if kind == "WEEK" {
      r := ResolveWeekly(offset, ref.Ordinal());
    } else if kind == "MONTH" {
      r := ResolveMonthly(offset, ref);
    } else {
      r := Err(UnknownKind);
    }
  }

  method ResolveWeekly(offset: int, ref: int) returns (r: Result<int, Error>)
    ensures r == Weekly(ref, offset)
  {
    var weekday := Weekday(ref);
    var daysToThursday := (THURSDAY - weekday) % 7;
    if daysToThursday == 0 && weekday != THURSDAY {
      daysToThursday := 7;
    }
    var base := ref + daysToThursday;
    if base > MAX_ORDINAL {
      return Err(DateOutOfRange);
    }
    return InRange(base + 7 * offset);
  }

  method ResolveMonthly(offset: int, ref: Date) returns (r: Result<int, Error>)
    requires ref.Valid()
    ensures r == Monthly(ref, offset)
    decreases if offset < 1 then 1 - offset else 0
  {
    var month, year := NormalizeMonth(ref.month + offset, ref.year);
    if month < 1 {
      NoSuchMonth(ref, offset);
      return Err(DateOutOfRange);
    }
    MonthlyAt(ref, offset, year, month);
    if year > MAX_YEAR {
      return Err(DateOutOfRange);
    }
    var expiry := ThirdThursdayIn(year, month);
    if expiry < ref.Ordinal() {
      r := ResolveMonthly(offset + 1, ref);
    } else {
      r := Ok(expiry);
    }
  }

  method ThirdThursdayIn(year: int, month: int) returns (expiry: int)
    ensures expiry == ThirdThursdayFrom(Date(year, month, 1).Ordinal())
  {
    var firstDay := Date(year, month, 1).Ordinal();
    var daysToThursday := (THURSDAY - Weekday(firstDay)) % 7;
    var firstThursday := firstDay + daysToThursday;
    return firstThursday + 14;
  }

  method NormalizeMonth(targetMonth: int, targetYear: int) returns (month: int, year: int)
    ensures month <= 12 && year * 12 + month == targetYear * 12 + targetMonth
    ensures month >= 1 <==> targetMonth >= 1
  {
    month, year := targetMonth, targetYear;
    while month > 12
      invariant year * 12 + month == targetYear * 12 + targetMonth
      invariant month >= 1 <==> targetMonth >= 1
    {
      month := month - 12;
      year := year + 1;
    }
  }

  lemma NoSuchMonth(ref: Date, offset: int)
    requires ref.Valid() && ref.month + offset < 1
    ensures Monthly(ref, offset) == Err(DateOutOfRange)
  {
  }

  lemma MonthlyAt(ref: Date, offset: int, year: int, month: int)
    requires ref.Valid() && 1 <= month <= 12 && year * 12 + month == ref.year * 12 + ref.month + offset
    requires ref.month + offset >= 1
    ensures
      var expiry := ThirdThursdayFrom(Date(year, month, 1).Ordinal());
      Monthly(ref, offset) == if year > MAX_YEAR then Err(DateOutOfRange)
                              else if expiry < ref.Ordinal() then Monthly(ref, offset + 1)
                              else Ok(expiry)
    ensures ThirdThursdayFrom(Date(year, month, 1).Ordinal()) < ref.Ordinal() ==> offset < 1
  {
    LaterMonthsAreAhead(ref, offset);
    assert Date(year, month, 1).MonthIndex() == ref.MonthIndex() + offset;
  }

  lemma YearOfIndex(year: int, month: int)
    requires 1 <= month <= 12
    ensures (year * 12 + month - 1) / 12 == year
  {
  }

  // ---- Calendar facts ---------------------------------------------------------------------

  lemma MonthLength(index: int)
    requires index >= 12
    ensures FirstOfMonth(index + 1) == FirstOfMonth(index) + DaysInMonth(index / 12, index % 12 + 1)
  {
  }

  lemma {:induction false} MonthsAscend(a: int, b: int)
    requires 12 <= a <= b
    ensures FirstOfMonth(b) >= FirstOfMonth(a) + 28 * (b - a)
    decreases b - a
  {
    if a < b {
      MonthLength(b - 1);
      MonthsAscend(a, b - 1);
    }
  }

  lemma DateInItsMonth(d: Date)
    requires d.Valid()
    ensures FirstOfMonth(d.MonthIndex()) <= d.Ordinal() < FirstOfMonth(d.MonthIndex() + 1)
  {
    YearOfIndex(d.year, d.month);
    MonthLength(d.MonthIndex());
  }

  // Days of a year before its months, and after all of them.
  const BEFORE_MONTH := [0, 31, 59, 90, 120, 151, 181, 212, 243, 273, 304, 334, 365]

  function DaysBefore(y: int, m: int): int
    requires 0 <= m <= 12
  {
    BEFORE_MONTH[m] + if m >= 2 && Leap(y) then 1 else 0
  }

  lemma TableStep(y: int, m: int)
    requires 0 <= m < 12
    ensures DaysBefore(y, m + 1) == DaysBefore(y, m) + DaysInMonth(y, m + 1)
  {
  }

  lemma MonthAndYear(y: int, m: int)
    requires 0 <= m < 12
    ensures (12 * y + m) / 12 == y && (12 * y + m) % 12 == m
  {
  }

  // The months of a year follow each other by the table, a day later after a leap February.
  lemma {:induction false} MonthsOfYear(y: int, m: int)
    requires y >= 1 && 0 <= m <= 12
    ensures FirstOfMonth(12 * y + m) == FirstOfMonth(12 * y) + DaysBefore(y, m)
    decreases m
  {
    if m > 0 {
      MonthsOfYear(y, m - 1);
      TableStep(y, m - 1);
      MonthAndYear(y, m - 1);
      MonthLength(12 * y + (m - 1));
    }
  }

  lemma Quarters(y: int)
    ensures y / 4 == (y - 1) / 4 + if y % 4 == 0 then 1 else 0
  {
  }

  lemma Centuries(y: int)
    ensures y / 100 == (y - 1) / 100 + if y % 100 == 0 then 1 else 0
    ensures y % 100 == 0 ==> y % 4 == 0
  {
    assert y == 100 * (y / 100) + y % 100;
  }

  lemma FourCenturies(y: int)
    ensures y / 400 == (y - 1) / 400 + if y % 400 == 0 then 1 else 0
    ensures y % 400 == 0 ==> y % 100 == 0
  {
    assert y == 400 * (y / 400) + y % 400;
  }

  // The leap days of the years 1 to y.
  function LeapDays(y: int): int {
    y / 4 - y / 100 + y / 400
  }

  lemma LeapDaysStep(y: int)
    ensures LeapDays(y) == LeapDays(y - 1) + if Leap(y) then 1 else 0
  {
    Quarters(y);
    Centuries(y);
    FourCenturies(y);
  }

  // The ordinal of 1 January in closed form: 365 days a year, and one more for every fourth
  // year but for the centuries that 400 does not divide.
  lemma {:induction false} NewYearInClosedForm(y: int)
    requires y >= 1
    ensures FirstOfMonth(12 * y) == 1 + 365 * (y - 1) + LeapDays(y - 1)
  {
    if y > 1 {
      NewYearInClosedForm(y - 1);
      MonthsOfYear(y - 1, 12);
      LeapDaysStep(y - 1);
      assert 12 * (y - 1) + 12 == 12 * y;
    }
  }

  // The days of the years before a date, of the months before it, and its own.
  function OrdinalByRule(year: int, month: int, day: int): int
    requires 1 <= month <= 12
  {
    var past := year - 1;
    365 * past + past / 4 - past / 100 + past / 400 + DaysBefore(year, month - 1) + day
  }

  lemma OrdinalInClosedForm(d: Date)
    requires d.Valid()
    ensures d.Ordinal() == OrdinalByRule(d.year, d.month, d.day)
  {
    NewYearInClosedForm(d.year);
    MonthsOfYear(d.year, d.month - 1);
    assert d.MonthIndex() == 12 * d.year + (d.month - 1);
  }

  // The first of January 1970 was a Thursday, and the last day counted ends the year 9999.
  lemma KnownDays()
    ensures Weekday(OrdinalByRule(1970, 1, 1)) == THURSDAY
    ensures OrdinalByRule(MAX_YEAR, 12, 31) == MAX_ORDINAL
  {
  }

  lemma {:induction false} MonthOf(n: int, from: int) returns (index: int)
    requires 12 <= from && FirstOfMonth(from) <= n
    ensures index >= from && FirstOfMonth(index) <= n < FirstOfMonth(index + 1)
    decreases n - FirstOfMonth(from)
  {
    if n < FirstOfMonth(from + 1) {
      index := from;
    } else {
      MonthsAscend(from, from + 1);
      index := MonthOf(n, from + 1);
    }
  }

  // The calendar has no holes: every counted day is the day of a date.
  lemma EveryDayIsADate(n: int) returns (d: Date)
    requires 1 <= n <= MAX_ORDINAL
    ensures d.Valid() && d.Ordinal() == n
  {
    var index := MonthOf(n, 12);
    d := Date(index / 12, index % 12 + 1, n - FirstOfMonth(index) + 1);
    assert d.MonthIndex() == index;
    MonthLength(index);
    NewYearInClosedForm(MAX_YEAR + 1);
    if index >= 12 * (MAX_YEAR + 1) {
      MonthsAscend(12 * (MAX_YEAR + 1), index);
    }
  }

  // A third Thursday is a Thursday, on the 15th to the 21st of its month.
  lemma ThirdThursdaySpec(index: int)
    requires index >= 12
    ensures Weekday(ThirdThursday(index)) == THURSDAY
    ensures FirstOfMonth(index) + 14 <= ThirdThursday(index) <= FirstOfMonth(index) + 20
  {
    ThirdThursdayFromSpec(FirstOfMonth(index));
  }

  lemma ThirdThursdayInMonth(index: int)
    requires index >= 12
    ensures FirstOfMonth(index) < ThirdThursday(index) < FirstOfMonth(index + 1)
  {
    MonthsAscend(index, index + 1);
    ThirdThursdaySpec(index);
  }

  lemma ThirdThursdayFromSpec(ordinal: int)
    ensures Weekday(ThirdThursdayFrom(ordinal)) == THURSDAY
    ensures ordinal + 14 <= ThirdThursdayFrom(ordinal) <= ordinal + 20
  {
    NextThursday(ordinal);
    var d := ordinal + DaysToThursday(ordinal);
    assert Weekday(d + 14) == Weekday(d);
  }

  lemma NextThursday(ordinal: int)
    ensures Weekday(ordinal + DaysToThursday(ordinal)) == THURSDAY
    ensures 0 <= DaysToThursday(ordinal) <= 6
  {
    var w := Weekday(ordinal);
    assert (ordinal + 6 - w) % 7 == 0;
  }

  // No month after the reference's own has its third Thursday before the reference.
  lemma LaterMonthsAreAhead(ref: Date, offset: int)
    requires ref.Valid()
    ensures offset >= 1 ==> ref.Ordinal() < ThirdThursday(ref.MonthIndex() + offset)
  {
    if offset >= 1 {
      DateInItsMonth(ref);
      MonthsAscend(ref.MonthIndex() + 1, ref.MonthIndex() + offset);
      ThirdThursdayInMonth(ref.MonthIndex() + offset);
    }
  }

  // ---- Main results -----------------------------------------------------------------------

  // The weekly expiry is the only Thursday of the seven days that start `offset` weeks
  // after the reference.
  lemma WeeklyIsTheThursday(ref: int, offset: int, day: int)
    requires Weekly(ref, offset).Ok?
    ensures
      var start := ref + 7 * offset;
      start <= day < start + 7 && Weekday(day) == THURSDAY <==> day == Weekly(ref, offset).value
  {
    NextThursday(ref);
    WeeksLater(ref + DaysToThursday(ref), offset);
    OneThursdayInSevenDays(ref + 7 * offset, ref + DaysToThursday(ref) + 7 * offset, day);
  }

  // With the reference's own Thursday given, the weekly expiry fails exactly when that day
  // or the one `offset` weeks from it is no day of the calendar.
  lemma WeeklyFailsIff(ref: int, offset: int, thursday: int)
    requires ref >= 1 && ref <= thursday < ref + 7 && Weekday(thursday) == THURSDAY
    ensures Weekly(ref, offset)
         == if thursday <= 3652059 && 1 <= thursday + 7 * offset <= 3652059 then Ok(thursday + 7 * offset)
            else Err(DateOutOfRange)
  {
    NextThursday(ref);
    OneThursdayInSevenDays(ref, ref + DaysToThursday(ref), thursday);
  }

  lemma WeeksLater(ordinal: int, weeks: int)
    ensures Weekday(ordinal + 7 * weeks) == Weekday(ordinal)
  {
  }

  lemma OneThursdayInSevenDays(start: int, thursday: int, day: int)
    requires start <= thursday < start + 7 && Weekday(thursday) == THURSDAY
    ensures start <= day < start + 7 && Weekday(day) == THURSDAY <==> day == thursday
  {
  }

  lemma WeeklyRisesWithOffset(ref: int, a: int, b: int)
    requires Weekly(ref, a).Ok? && Weekly(ref, b).Ok?
    ensures Weekly(ref, b).value - Weekly(ref, a).value == 7 * (b - a)
  {
  }

  // For a positive offset the monthly expiry is the third Thursday of the month at the
  // offset, with no further step; it lies after the reference, and it fails exactly when
  // that month is beyond the last year.
  lemma MonthlyAhead(ref: Date, offset: int)
    requires ref.Valid() && offset >= 1
    ensures
      var index := 12 * ref.year + ref.month - 1 + offset;
      && Monthly(ref, offset) == Settled(index)
      && Settled(index) == if index / 12 > 9999 then Err(DateOutOfRange) else Ok(ThirdThursday(index))
    ensures Monthly(ref, offset).Ok? ==> Monthly(ref, offset).value > ref.Ordinal()
  {
    LaterMonthsAreAhead(ref, offset);
  }

  predicate IsPast(ref: Date)
    requires ref.Valid()
  {
    ThirdThursday(ref.MonthIndex()) < ref.Ordinal()
  }

  // For offset 0 it is this month's third Thursday, or next month's, one step further,
  // when this month's is past.
  lemma MonthlyNow(ref: Date)
    requires ref.Valid()
    ensures IsPast(ref) ==> Monthly(ref, 0) == Settled(ref.MonthIndex() + 1) == Monthly(ref, 1)
    ensures !IsPast(ref) ==> Monthly(ref, 0) == Ok(ThirdThursday(ref.MonthIndex())) == Settled(ref.MonthIndex())
  {
    MonthlyAhead(ref, 1);
  }

  lemma ThirdThursdaysAscend(a: int, b: int)
    requires 12 <= a < b
    ensures ThirdThursday(a) < ThirdThursday(b)
  {
    ThirdThursdayInMonth(a);
    ThirdThursdayInMonth(b);
    MonthsAscend(a + 1, b);
  }

  lemma SettledRises(a: int, b: int)
    requires 12 <= a < b
    ensures Settled(b).Ok? ==> Settled(a).Ok? && Settled(a).value < Settled(b).value
  {
    ThirdThursdaysAscend(a, b);
  }

  lemma MonthlyFromIndex(ref: Date, a: int, b: int) returns (index: int)
    requires ref.Valid() && a >= 1 && b >= 1
    ensures index >= 12 && Monthly(ref, a) == Settled(index + a) && Monthly(ref, b) == Settled(index + b)
  {
    index := ref.MonthIndex();
    MonthlyAhead(ref, a);
    MonthlyAhead(ref, b);
  }

  // Offsets from 1 on give strictly later expiries.
  lemma {:induction false} MonthlyRisesWithOffset(ref: Date, a: int, b: int)
    requires ref.Valid() && 1 <= a < b
    ensures Monthly(ref, b).Ok? ==> Monthly(ref, a).Ok? && Monthly(ref, a).value < Monthly(ref, b).value
  {
    var index := MonthlyFromIndex(ref, a, b);
    SettledRises(index + a, index + b);
  }

  // Offset 0 is never later than offset 1, and the same exactly when this month's third
  // Thursday is past.
  lemma OffsetsZeroAndOneCoincideIff(ref: Date)
    requires ref.Valid() && Monthly(ref, 1).Ok?
    ensures Monthly(ref, 0).Ok? && Monthly(ref, 0).value <= Monthly(ref, 1).value
    ensures Monthly(ref, 0) == Monthly(ref, 1) <==> IsPast(ref)
  {
    MonthlyNow(ref);
    MonthlyAhead(ref, 1);
    ThirdThursdaysAscend(ref.MonthIndex(), ref.MonthIndex() + 1);
  }

  lemma EarlierMonthsArePast(ref: Date, offset: int)
    requires ref.Valid() && offset < 0 && ref.month + offset >= 1
    ensures ThirdThursday(ref.MonthIndex() + offset) < ref.Ordinal()
  {
    var index := ref.MonthIndex();
    DateInItsMonth(ref);
    assert index + offset >= 12;
    ThirdThursdayInMonth(index + offset);
    MonthsAscend(index + offset + 1, index);
  }

  // A negative offset within the year is climbed back to offset 0; one that leaves it fails.
  lemma {:induction false} NegativeOffsetIsCurrentMonth(ref: Date, offset: int)
    requires ref.Valid() && offset <= 0
    ensures Monthly(ref, offset) == if ref.month + offset >= 1 then Monthly(ref, 0) else Err(DateOutOfRange)
    decreases -offset
  {
    if offset < 0 && ref.month + offset >= 1 {
      NegativeOffsetClimbs(ref, offset);
      NegativeOffsetIsCurrentMonth(ref, offset + 1);
    }
  }

  lemma {:induction false} NegativeOffsetClimbs(ref: Date, offset: int)
    requires ref.Valid() && offset < 0 && ref.month + offset >= 1
    ensures Monthly(ref, offset) == Monthly(ref, offset + 1)
  {
    EarlierMonthsArePast(ref, offset);
    PastGivesWay(ref, offset);
  }

  lemma PastGivesWay(ref: Date, offset: int)
    requires ref.Valid() && ref.month + offset >= 1 && offset < 0
    requires ThirdThursday(ref.MonthIndex() + offset) < ref.Ordinal()
    ensures Monthly(ref, offset) == Monthly(ref, offset + 1)
  {
  }
}
