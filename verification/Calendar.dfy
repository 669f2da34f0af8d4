/** The calendar arithmetic is the Gregorian calendar, and the texts determine the instant. */
module Calendar {
  import opened Basics
  import opened Der
  import opened DerCanonical
  import opened Time

  const LAST_YEAR: nat := 9999
  const LAST_SECOND: nat := 253_402_300_799

  function YearLength(year: nat): nat {
    337 + DaysInFeb(year)
  }

  /** Days in the years 1 up to but not including `year`. */
  function SumOfYears(year: nat): nat {
    if year <= 1 then 0 else SumOfYears(year - 1) + YearLength(year - 1)
  }

  function SumOfMonths(year: nat, month: nat): nat
    requires 1 <= month <= 13
  {
    if month == 1 then 0 else SumOfMonths(year, month - 1) + DaysInMonth(year, month - 1)
  }

  lemma QuotientStep(y: nat, k: nat)
    requires y >= 1 && k in {4, 100, 400}
    ensures y / k == (y - 1) / k + if y % k == 0 then 1 else 0
  {
    if k == 4 {
    } else if k == 100 {
    } else {
    }
  }

  lemma Hundreds(y: nat)
    ensures y % 400 == 0 ==> y % 100 == 0
    ensures y % 100 == 0 ==> y % 4 == 0
  {
    if y % 100 == 0 {
      assert y == 4 * (25 * (y / 100));
    }
    if y % 400 == 0 {
      assert y == 100 * (4 * (y / 400));
    }
  }

  lemma {:induction false} ClosedFormIsSumOfYears(year: nat)
    requires year >= 1
    ensures DaysBeforeYearAd(year) == SumOfYears(year)
  {
    if year > 1 {
      ClosedFormIsSumOfYears(year - 1);
      NextYear(year - 1);
    }
  }

  lemma NextYear(y: nat)
    requires y >= 1
    ensures DaysBeforeYearAd(y + 1) == DaysBeforeYearAd(y) + YearLength(y)
  {
    QuotientStep(y, 4);
    QuotientStep(y, 100);
    QuotientStep(y, 400);
    Hundreds(y);
  }

  lemma {:induction false} MonthTableIsSumOfMonths(year: nat, month: nat)
    requires 1 <= month <= 12
    ensures DaysBeforeMonthInYear(year, month) == SumOfMonths(year, month)
    ensures month == 12 ==> SumOfMonths(year, 13) == YearLength(year)
  {
    if month > 1 {
      MonthTableIsSumOfMonths(year, month - 1);
      hide DaysInFeb;
    }
  }

  // ----- seconds and dates

  /** A date-time of the calendar in the years the library supports. */
  predicate Valid(d: DateTime) {
    && 1970 <= d.year <= 9999
    && 1 <= d.month <= 12
    && 1 <= d.day <= DaysInMonth(d.year, d.month)
    && d.hours <= 23 && d.minutes <= 59 && d.seconds <= 59
  }

  function Seconds(d: DateTime): int
    requires Valid(d)
  {
    TimeFromYmdhmsUtc(d).value
  }

  /** Chronological order of two calendar date-times: the first differing field decides. */
  predicate Earlier(a: DateTime, b: DateTime) {
    || a.year < b.year
    || (a.year == b.year && a.month < b.month)
    || (a.year == b.year && a.month == b.month && a.day < b.day)
    || (a.year == b.year && a.month == b.month && a.day == b.day && EarlierInDay(a, b))
  }

  predicate EarlierInDay(a: DateTime, b: DateTime) {
    || a.hours < b.hours
    || (a.hours == b.hours && a.minutes < b.minutes)
    || (a.hours == b.hours && a.minutes == b.minutes && a.seconds < b.seconds)
  }

  function SecondOfDay(d: DateTime): nat {
    d.hours * 3600 + d.minutes * 60 + d.seconds
  }

  /** Days since 1970-01-01, counted by years, months and days. */
  function DayNumber(year: nat, month: nat, day: nat): int
    requires 1 <= month <= 12
  {
    SumOfYears(year) - SumOfYears(UNIX_EPOCH_YEAR) + SumOfMonths(year, month) + day - 1
  }

  lemma SecondsCount(d: DateTime)
    requires Valid(d)
    ensures Seconds(d) == DayNumber(d.year, d.month, d.day) * 86400 + SecondOfDay(d)
  {
    ClosedFormIsSumOfYears(d.year);
    ClosedFormIsSumOfYears(UNIX_EPOCH_YEAR);
    MonthTableIsSumOfMonths(d.year, d.month);
  }

  lemma {:induction false} SumOfYearsMonotone(a: nat, b: nat)
    requires 1 <= a <= b
    ensures SumOfYears(a) + 365 * (b - a) <= SumOfYears(b)
    decreases b
  {
    if a < b {
      SumOfYearsMonotone(a, b - 1);
    }
  }

  lemma {:induction false} SumOfMonthsMonotone(year: nat, a: nat, b: nat)
    requires 1 <= a <= b <= 13
    ensures SumOfMonths(year, a) <= SumOfMonths(year, b)
    decreases b
  {
    if a < b {
      SumOfMonthsMonotone(year, a, b - 1);
    }
  }

  lemma DayWithinYear(year: nat, month: nat, day: nat)
    requires 1 <= month <= 12 && 1 <= day <= DaysInMonth(year, month)
    ensures SumOfMonths(year, month) + day <= SumOfMonths(year, month + 1) <= YearLength(year)
  {
    SumOfMonthsMonotone(year, month + 1, 13);
    MonthTableIsSumOfMonths(year, 12);
  }

  lemma EarlierDay(a: DateTime, b: DateTime)
    requires Valid(a) && Valid(b)
    requires a.year < b.year || (a.year == b.year && (a.month < b.month || (a.month == b.month && a.day < b.day)))
    ensures DayNumber(a.year, a.month, a.day) < DayNumber(b.year, b.month, b.day)
  {
    hide DaysInMonth, SumOfYears, SumOfMonths;
    if a.year < b.year {
      EarlierYear(a.year, a.month, a.day, b.year, b.month, b.day);
    } else if a.month < b.month {
      DayWithinYear(a.year, a.month, a.day);
      SumOfMonthsMonotone(a.year, a.month + 1, b.month);
    }
  }

  lemma EarlierYear(year: nat, month: nat, day: nat, later: nat, laterMonth: nat, laterDay: nat)
    requires 1 <= year < later && 1 <= month <= 12 && 1 <= day <= DaysInMonth(year, month)
    requires 1 <= laterMonth <= 12 && 1 <= laterDay
    ensures DayNumber(year, month, day) < DayNumber(later, laterMonth, laterDay)
  {
    hide DaysInMonth, SumOfYears, SumOfMonths, YearLength;
    DayWithinYear(year, month, day);
    FirstMonth(later);
    SumOfMonthsMonotone(later, 1, laterMonth);
    AfterYears(year);
    SumOfYearsMonotone(year + 1, later);
  }

  lemma AfterYears(year: nat)
    requires year >= 1
    ensures SumOfYears(year + 1) == SumOfYears(year) + YearLength(year)
  {
    hide YearLength;
  }

  lemma FirstMonth(year: nat)
    ensures SumOfMonths(year, 1) == 0
  {
  }

  lemma SecondOfDayOrder(a: DateTime, b: DateTime)
    requires Valid(a) && Valid(b)
    ensures SecondOfDay(a) < 86400
    ensures SecondOfDay(a) < SecondOfDay(b) <==> EarlierInDay(a, b)
    ensures SecondOfDay(a) == SecondOfDay(b) ==> a.hours == b.hours && a.minutes == b.minutes && a.seconds == b.seconds
  {
    hide DaysInMonth;
  }

  /** Comparing seconds is comparing dates: strictly increasing, so also one-to-one. */
  lemma OrderIsChronological(a: DateTime, b: DateTime)
    requires Valid(a) && Valid(b)
    ensures Seconds(a) < Seconds(b) <==> Earlier(a, b)
    ensures Seconds(a) == Seconds(b) <==> a == b
  {
    hide Seconds, DayNumber, DaysInMonth, SecondOfDay;
    SecondsCount(a);
    SecondsCount(b);
    SecondOfDayOrder(a, b);
    SecondOfDayOrder(b, a);
    if a.year != b.year || a.month != b.month || a.day != b.day {
      if Earlier(a, b) {
        EarlierDay(a, b);
      } else {
        EarlierDay(b, a);
      }
    }
  }

  const FIRST: DateTime := DateTime(UNIX_EPOCH_YEAR, 1, 1, 0, 0, 0)
  const LAST: DateTime := DateTime(LAST_YEAR, 12, 31, 23, 59, 59)

  lemma LastDay()
    ensures DaysBeforeYearAd(LAST_YEAR) == 3_651_694
    ensures DaysBeforeMonthInYear(LAST_YEAR, 12) == 334
    ensures DaysBeforeYearAd(UNIX_EPOCH_YEAR) == 719_162
    ensures DaysBeforeMonthInYear(UNIX_EPOCH_YEAR, 1) == 0
  {
  }

  lemma SecondsOf(d: DateTime, daysBeforeYear: int, daysBeforeMonth: nat)
    requires Valid(d)
    requires daysBeforeYear == DaysBeforeYearAd(d.year) && daysBeforeMonth == DaysBeforeMonthInYear(d.year, d.month)
    ensures Seconds(d) == (daysBeforeYear - DAYS_BEFORE_UNIX_EPOCH_AD + daysBeforeMonth + d.day - 1) * 86400 + SecondOfDay(d)
  {
    hide DaysBeforeYearAd, DaysBeforeMonthInYear, DaysInMonth;
  }

  lemma NotOutside(d: DateTime)
    requires Valid(d)
    ensures !Earlier(d, FIRST) && !Earlier(LAST, d)
  {
  }

  lemma FirstSecond()
    ensures Valid(FIRST) && Seconds(FIRST) == 0
  {
    LastDay();
    hide Seconds, DaysBeforeMonthInYear, DaysBeforeYearAd;
    SecondsOf(FIRST, 719_162, 0);
  }

  lemma LastSecond()
    ensures Valid(LAST) && Seconds(LAST) == LAST_SECOND
  {
    LastDay();
    hide Seconds, DaysBeforeMonthInYear, DaysBeforeYearAd;
    SecondsOf(LAST, 3_651_694, 334);
  }

  lemma FirstAndLastSecond(d: DateTime)
    requires Valid(d)
    ensures 0 <= Seconds(d) <= LAST_SECOND
  {
    hide *;
    FirstSecond();
    LastSecond();
    NotOutside(d);
    OrderIsChronological(d, FIRST);
    OrderIsChronological(LAST, d);
  }

  /** Every second up to the end of 9999 is some date-time. */
  lemma EverySecondHasADate(t: nat) returns (d: DateTime)
    requires t <= LAST_SECOND
    ensures Valid(d) && Seconds(d) == t
  {
    var year, month, day := FindDay(t / 86400);
    var s := t % 86400;
    d := DateTime(year, month, day, s / 3600, s % 3600 / 60, s % 60);
    assert SecondOfDay(d) == s;
    SecondsCount(d);
  }

  lemma FindDay(number: nat) returns (year: nat, month: nat, day: nat)
    requires number <= LAST_SECOND / 86400
    ensures UNIX_EPOCH_YEAR <= year <= LAST_YEAR && 1 <= month <= 12 && 1 <= day <= DaysInMonth(year, month)
    ensures DayNumber(year, month, day) == number
  {
    hide DaysInMonth, DaysInFeb, SumOfYears, SumOfMonths;
    ClosedFormIsSumOfYears(UNIX_EPOCH_YEAR);
    ClosedFormIsSumOfYears(LAST_YEAR + 1);
    year := FindYear(number + SumOfYears(UNIX_EPOCH_YEAR), UNIX_EPOCH_YEAR);
    FirstMonth(year);
    MonthTableIsSumOfMonths(year, 12);
    var dayOfYear := number + SumOfYears(UNIX_EPOCH_YEAR) - SumOfYears(year);
    month := FindMonth(year, dayOfYear, 1);
    day := dayOfYear - SumOfMonths(year, month) + 1;
  }

  lemma {:induction false} FindYear(day: nat, from: nat) returns (year: nat)
    requires 1 <= from <= LAST_YEAR
    requires SumOfYears(from) <= day < SumOfYears(LAST_YEAR + 1)
    ensures from <= year <= LAST_YEAR
    ensures SumOfYears(year) <= day < SumOfYears(year) + YearLength(year)
    decreases LAST_YEAR - from
  {
    hide YearLength, SumOfYears;
    AfterYears(from);
    if day < SumOfYears(from + 1) {
      year := from;
    } else {
      year := FindYear(day, from + 1);
    }
  }

  lemma {:induction false} FindMonth(year: nat, day: nat, from: nat) returns (month: nat)
    requires 1 <= from <= 12
    requires SumOfMonths(year, from) <= day < SumOfMonths(year, 13)
    ensures from <= month <= 12
    ensures SumOfMonths(year, month) <= day < SumOfMonths(year, month) + DaysInMonth(year, month)
    decreases 12 - from
  {
    if day < SumOfMonths(year, from + 1) {
      month := from;
    } else {
      month := FindMonth(year, day, from + 1);
    }
  }

  // ----- texts

  function TwoDigits(n: nat): (text: Bytes)
    requires n < 100
    ensures |text| == 2
  {
    ['0' as int + n / 10, '0' as int + n % 10]
  }

  function TextAfterYear(d: DateTime): (text: Bytes)
    requires Valid(d)
    ensures |text| == 11
  {
    TwoDigits(d.month) + TwoDigits(d.day) + TwoDigits(d.hours) + TwoDigits(d.minutes) + TwoDigits(d.seconds)
    + ['Z' as int]
  }

  /** YYYYMMDDhhmmssZ */
  function GeneralizedText(d: DateTime): Bytes
    requires Valid(d)
  {
    TwoDigits(d.year / 100) + TwoDigits(d.year % 100) + TextAfterYear(d)
  }

  /** A UTCTime year has two digits and lies in 1950..2049; dates before 1970 are rejected. */
  predicate HasUtcText(d: DateTime) {
    Valid(d) && d.year <= 2049
  }

  /** YYMMDDhhmmssZ */
  function UtcText(d: DateTime): Bytes
    requires HasUtcText(d)
  {
    TwoDigits(d.year % 100) + TextAfterYear(d)
  }

  lemma TwoDigitsRead(v: Bytes, i: nat, n: nat)
    requires n < 100
    ensures TwoDigitsAt(v, i) == Some(n) <==> i + 2 <= |v| && v[i..i + 2] == TwoDigits(n)
  {
    if i + 2 <= |v| {
      assert v[i..i + 2] == [v[i], v[i + 1]];
    }
  }

  lemma SecondsAreDefined(d: DateTime)
    requires Valid(d)
    ensures TimeFromYmdhmsUtc(d) == Ok(Seconds(d))
  {
  }

  /** The five pairs of digits and the last byte of the text, at offset `i`. */
  lemma PartsOfText(d: DateTime, v: Bytes, i: nat)
    requires Valid(d)
    requires i + 11 <= |v| && v[i..i + 11] == TextAfterYear(d)
    ensures v[i..i + 2] == TwoDigits(d.month) && v[i + 2..i + 4] == TwoDigits(d.day)
    ensures v[i + 4..i + 6] == TwoDigits(d.hours) && v[i + 6..i + 8] == TwoDigits(d.minutes)
    ensures v[i + 8..i + 10] == TwoDigits(d.seconds) && v[i + 10] == 'Z' as int
  {
    hide TwoDigits;
    var text := TextAfterYear(d);
    assert text[0..2] == TwoDigits(d.month);
    assert text[2..4] == TwoDigits(d.day);
    assert text[4..6] == TwoDigits(d.hours);
    assert text[6..8] == TwoDigits(d.minutes);
    assert text[8..10] == TwoDigits(d.seconds);
    SliceOfSlice(v, i, i + 11, 0, 2);
    SliceOfSlice(v, i, i + 11, 2, 4);
    SliceOfSlice(v, i, i + 11, 4, 6);
    SliceOfSlice(v, i, i + 11, 6, 8);
    SliceOfSlice(v, i, i + 11, 8, 10);
    assert v[i..i + 11][10] == v[i + 10];
  }

  /** The fields behind the year are read exactly from their text. */
  lemma AfterYearExact(d: DateTime, v: Bytes, i: nat)
    requires Valid(d)
    requires i + 11 <= |v| && v[i..i + 11] == TextAfterYear(d)
    ensures AfterYear(d.year, v, i) == Step(Ok(Seconds(d)), i + 11)
  {
    hide TimeFromYmdhmsUtc, Seconds, TextAfterYear, TwoDigits, TwoDigitsAt;
    SecondsAreDefined(d);
    PartsOfText(d, v, i);
    TwoDigitsRead(v, i, d.month);
    TwoDigitsRead(v, i + 2, d.day);
    TwoDigitsRead(v, i + 4, d.hours);
    TwoDigitsRead(v, i + 6, d.minutes);
    TwoDigitsRead(v, i + 8, d.seconds);
  }

  lemma AfterYearAccepts(year: nat, v: Bytes, i: nat) returns (d: DateTime)
    requires year <= LAST_YEAR
    requires AfterYear(year, v, i).result.Ok?
    ensures d.year == year && Valid(d)
    ensures AfterYear(year, v, i) == Step(Ok(Seconds(d)), i + 11)
    ensures i + 11 <= |v| && v[i..i + 11] == TextAfterYear(d)
  {
    d := DateTime(year, TwoDigitsAt(v, i).value, TwoDigitsAt(v, i + 2).value,
                  TwoDigitsAt(v, i + 4).value, TwoDigitsAt(v, i + 6).value, TwoDigitsAt(v, i + 8).value);
    assert Valid(d);
    TwoDigitsRead(v, i, d.month);
    TwoDigitsRead(v, i + 2, d.day);
    TwoDigitsRead(v, i + 4, d.hours);
    TwoDigitsRead(v, i + 6, d.minutes);
    TwoDigitsRead(v, i + 8, d.seconds);
    assert v[i..i + 11] == v[i..i + 2] + v[i + 2..i + 4] + v[i + 4..i + 6] + v[i + 6..i + 8] + v[i + 8..i + 10] + [v[i + 10]];
  }

  /** Contents octets of a time value: the text of a date and nothing behind it. */
  lemma GeneralizedContentsExact(v: Bytes, d: DateTime)
    requires Valid(d) && v == GeneralizedText(d)
    ensures GeneralizedTimeContents(v) == Step(Ok(Seconds(d)), |v|)
  {
    hide AfterYear, Seconds, TwoDigits, TwoDigitsAt, TextAfterYear;
    TwoDigitsRead(v, 0, d.year / 100);
    TwoDigitsRead(v, 2, d.year % 100);
    assert v[0..2] == TwoDigits(d.year / 100) && v[2..4] == TwoDigits(d.year % 100);
    assert v[4..15] == TextAfterYear(d);
    AfterYearExact(d, v, 4);
  }

  lemma UtcContentsExact(v: Bytes, d: DateTime)
    requires HasUtcText(d) && v == UtcText(d)
    ensures UtcTimeContents(v) == Step(Ok(Seconds(d)), |v|)
  {
    hide AfterYear, Seconds, TwoDigits, TwoDigitsAt, TextAfterYear;
    TwoDigitsRead(v, 0, d.year % 100);
    assert v[0..2] == TwoDigits(d.year % 100);
    assert v[2..13] == TextAfterYear(d);
    AfterYearExact(d, v, 2);
  }

  /** The DER texts that denote the second `t`. */
  ghost predicate IsTextOf(tag: Byte, v: Bytes, t: int) {
    exists d: DateTime :: TextDenotes(d, tag, v) && Seconds(d) == t
  }

  ghost predicate TextDenotes(d: DateTime, tag: Byte, v: Bytes) {
    || (tag == TAG_GENERALIZED_TIME && Valid(d) && v == GeneralizedText(d))
    || (tag == TAG_UTC_TIME && HasUtcText(d) && v == UtcText(d))
  }

  lemma ReadGivesText(b: Bytes) returns (tag: Byte, v: Bytes, d: DateTime)
    requires FromDer(b).result.Ok?
    ensures TextDenotes(d, tag, v) && Seconds(d) == FromDer(b).result.value
    ensures |v| < 16 && |Encode(tag, v)| == FromDer(b).used <= |b|
    ensures b == Encode(tag, v) + b[FromDer(b).used..]
  {
    hide AfterYear, Seconds;
    tag := if b != [] && b[0] == TAG_UTC_TIME then TAG_UTC_TIME else TAG_GENERALIZED_TIME;
    v := ExpectTag(b, tag).result.value;
    ReadIsCanonical(b, TWO_BYTE_DER_SIZE);
    if tag == TAG_UTC_TIME {
      d := UtcAccepts(v);
    } else {
      d := GeneralizedAccepts(v);
    }
  }

  lemma GeneralizedAccepts(v: Bytes) returns (d: DateTime)
    requires GeneralizedTimeContents(v).result.Ok? && GeneralizedTimeContents(v).used == |v|
    ensures Valid(d) && v == GeneralizedText(d) && Seconds(d) == GeneralizedTimeContents(v).result.value
  {
    hide AfterYear, Seconds, TwoDigits, TextAfterYear;
    var hi, lo := TwoDigitsAt(v, 0).value, TwoDigitsAt(v, 2).value;
    d := AfterYearAccepts(hi * 100 + lo, v, 4);
    TwoDigitsRead(v, 0, hi);
    TwoDigitsRead(v, 2, lo);
    assert v == v[0..2] + v[2..4] + v[4..15];
  }

  lemma UtcAccepts(v: Bytes) returns (d: DateTime)
    requires UtcTimeContents(v).result.Ok? && UtcTimeContents(v).used == |v|
    ensures HasUtcText(d) && v == UtcText(d) && Seconds(d) == UtcTimeContents(v).result.value
  {
    hide AfterYear, Seconds, TwoDigits, TextAfterYear;
    var lo := TwoDigitsAt(v, 0).value;
    d := AfterYearAccepts((if lo >= 50 then 1900 else 2000) + lo, v, 2);
    TwoDigitsRead(v, 0, lo);
    assert v == v[0..2] + v[2..13];
  }

  lemma TextIsRead(b: Bytes, tag: Byte, v: Bytes, rest: Bytes, d: DateTime)
    requires TextDenotes(d, tag, v) && b == Encode(tag, v) + rest
    ensures FromDer(b) == Step(Ok(Seconds(d)), |Encode(tag, v)|)
  {
    ReadEncoded(tag, v, rest, TWO_BYTE_DER_SIZE);
    if tag == TAG_UTC_TIME {
      UtcContentsExact(v, d);
    } else {
      GeneralizedContentsExact(v, d);
    }
  }

  /** A time is read from an input exactly when the input begins with a canonical encoding of a
      text of that instant; the reader stops behind it. */
  lemma ReadExactlyTheTexts(b: Bytes, t: int, used: nat)
    ensures FromDer(b) == Step(Ok(t), used)
       <==> exists tag, v: Bytes :: |v| < 16 && IsTextOf(tag, v, t) && |Encode(tag, v)| == used && Encode(tag, v) <= b
  {
    hide FromDer, Seconds, GeneralizedText, UtcText, Encode;
    if FromDer(b) == Step(Ok(t), used) {
      var tag, v, d := ReadGivesText(b);
      assert |v| < 16 && IsTextOf(tag, v, t) && |Encode(tag, v)| == used && Encode(tag, v) <= b;
    }
    forall tag, v: Bytes | |v| < 16 && IsTextOf(tag, v, t) && |Encode(tag, v)| == used && Encode(tag, v) <= b
      ensures FromDer(b) == Step(Ok(t), used)
    {
      var d :| TextDenotes(d, tag, v) && Seconds(d) == t;
      assert b == Encode(tag, v) + b[used..];
      TextIsRead(b, tag, v, b[used..], d);
    }
  }

  /** The two notations agree: both texts of one date-time are read as the same instant. */
  lemma NotationsAgree(d: DateTime, rest: Bytes)
    requires HasUtcText(d)
    ensures FromDer(Encode(TAG_UTC_TIME, UtcText(d)) + rest).result
         == FromDer(Encode(TAG_GENERALIZED_TIME, GeneralizedText(d)) + rest).result
         == Ok(Seconds(d))
  {
    TextIsRead(Encode(TAG_UTC_TIME, UtcText(d)) + rest, TAG_UTC_TIME, UtcText(d), rest, d);
    TextIsRead(Encode(TAG_GENERALIZED_TIME, GeneralizedText(d)) + rest, TAG_GENERALIZED_TIME, GeneralizedText(d), rest, d);
  }
}
