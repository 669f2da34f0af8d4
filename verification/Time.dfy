/** Certificate times: Gregorian dates as seconds since 1970 (src/time.rs). */
module Time {
  import opened Basics
  import opened Der
  import opened Readers

  datatype DateTime = DateTime(year: nat, month: nat, day: nat, hours: nat, minutes: nat, seconds: nat)

  const UNIX_EPOCH_YEAR: nat := 1970
  const DAYS_BEFORE_UNIX_EPOCH_AD: nat := 1969 * 365 + 477

  function DaysInFeb(year: nat): nat {
    if year % 4 == 0 && (year % 100 != 0 || year % 400 == 0) then 29 else 28
  }

  function DaysInMonth(year: nat, month: nat): nat
    requires 1 <= month <= 12
  {
    if month in {1, 3, 5, 7, 8, 10, 12} then 31
    else if month in {4, 6, 9, 11} then 30
    else DaysInFeb(year)
  }

  /** The closed form: a leap day every 4 years, except every 100, except every 400. */
  function DaysBeforeYearAd(year: nat): int
    requires year >= 1
  {
    (year - 1) * 365 + (year - 1) / 4 - (year - 1) / 100 + (year - 1) / 400
  }

  function DaysBeforeYearSinceUnixEpoch(year: nat): Result<int> {
    if year < UNIX_EPOCH_YEAR then Err(BadDerTime)
    else Ok(DaysBeforeYearAd(year) - DAYS_BEFORE_UNIX_EPOCH_AD)
  }

  function DaysBeforeMonthInYear(year: nat, month: nat): nat
    requires 1 <= month <= 12
  {
    var feb := DaysInFeb(year);
    match month
    case 1 => 0
    case 2 => 31
    case 3 => 31 + feb
    case 4 => 31 + feb + 31
    case 5 => 31 + feb + 31 + 30
    case 6 => 31 + feb + 31 + 30 + 31
    case 7 => 31 + feb + 31 + 30 + 31 + 30
    case 8 => 31 + feb + 31 + 30 + 31 + 30 + 31
    case 9 => 31 + feb + 31 + 30 + 31 + 30 + 31 + 31
    case 10 => 31 + feb + 31 + 30 + 31 + 30 + 31 + 31 + 30
    case 11 => 31 + feb + 31 + 30 + 31 + 30 + 31 + 31 + 30 + 31
    case 12 => 31 + feb + 31 + 30 + 31 + 30 + 31 + 31 + 30 + 31 + 30
  }

  /** `time_from_ymdhms_utc`. */
  function TimeFromYmdhmsUtc(d: DateTime): Result<int>
    requires 1 <= d.month <= 12
  {
    var daysBeforeYear :- DaysBeforeYearSinceUnixEpoch(d.year);
    var daysBefore := daysBeforeYear + DaysBeforeMonthInYear(d.year, d.month) + d.day - 1;
    Ok(daysBefore * 24 * 60 * 60 + d.hours * 60 * 60 + d.minutes * 60 + d.seconds)
  }

  // ----- texts

  /** Two digits at `i`; `None` when they are missing or no digits. */
  function TwoDigitsAt(v: Bytes, i: nat): Option<nat> {
    if i + 2 <= |v| && IsDigit(v[i]) && IsDigit(v[i + 1])
    then Some((v[i] - '0' as int) * 10 + (v[i + 1] - '0' as int))
    else None
  }

  predicate InRange(n: Option<nat>, min: nat, max: nat) {
    n.Some? && min <= n.value <= max
  }

  /** Month to time zone, at offset `i`. */
  function AfterYear(year: nat, v: Bytes, i: nat): Step<int> {
    var month := TwoDigitsAt(v, i);
    if !InRange(month, 1, 12) then Step(Err(BadDerTime), 0) else
    var day := TwoDigitsAt(v, i + 2);
    if !InRange(day, 1, DaysInMonth(year, month.value)) then Step(Err(BadDerTime), 0) else
    var hours := TwoDigitsAt(v, i + 4);
    var minutes := TwoDigitsAt(v, i + 6);
    var seconds := TwoDigitsAt(v, i + 8);
    if !InRange(hours, 0, 23) || !InRange(minutes, 0, 59) || !InRange(seconds, 0, 59)
    then Step(Err(BadDerTime), 0)
    else if |v| <= i + 10 || v[i + 10] != 'Z' as int then Step(Err(BadDerTime), 0)
    else Step(TimeFromYmdhmsUtc(DateTime(year, month.value, day.value, hours.value, minutes.value, seconds.value)), i + 11)
  }

  function UtcTimeContents(v: Bytes): Step<int> {
    var lo := TwoDigitsAt(v, 0);
    if lo.None? then Step(Err(BadDerTime), 0)
    else AfterYear((if lo.value >= 50 then 1900 else 2000) + lo.value, v, 2)
  }

  function GeneralizedTimeContents(v: Bytes): Step<int> {
    var hi := TwoDigitsAt(v, 0);
    var lo := TwoDigitsAt(v, 2);
    if hi.None? || lo.None? then Step(Err(BadDerTime), 0)
    else AfterYear(hi.value * 100 + lo.value, v, 4)
  }

  /** `Time::from_der` as a function of the bytes in front of the reader. */
  function FromDer(b: Bytes): Step<int> {
    if b != [] && b[0] == TAG_UTC_TIME
    then Nested(b, TAG_UTC_TIME, TrailingData(DerTypeId.Time), UtcTimeContents)
    else Nested(b, TAG_GENERALIZED_TIME, TrailingData(DerTypeId.Time), GeneralizedTimeContents)
  }

  // ----- the reader that moves

  method ReadDigit(r: Reader) returns (digit: Option<nat>)
    requires r.Valid()
    modifies r
    ensures r.Valid()
    ensures digit.Some? ==>
              && old(r.pos) < |r.input| && IsDigit(r.input[old(r.pos)])
              && digit.value == r.input[old(r.pos)] - '0' as int && r.pos == old(r.pos) + 1
    ensures digit.None? ==> old(r.pos) == |r.input| || !IsDigit(r.input[old(r.pos)])
  {
    var b := r.ReadByte();
    if b.None? || !IsDigit(b.value) {
      return None;
    }
    return Some(b.value - '0' as int);
  }

  method ReadTwoDigits(r: Reader, min: nat, max: nat) returns (value: Result<nat>)
    requires r.Valid()
    modifies r
    ensures r.Valid()
    ensures InRange(TwoDigitsAt(r.input, old(r.pos)), min, max) ==>
              value == Ok(TwoDigitsAt(r.input, old(r.pos)).value) && r.pos == old(r.pos) + 2
    ensures !InRange(TwoDigitsAt(r.input, old(r.pos)), min, max) ==> value == Err(BadDerTime)
  {
    var hi := ReadDigit(r);
    if hi.None? { return Err(BadDerTime); }
    var lo := ReadDigit(r);
    if lo.None? { return Err(BadDerTime); }
    var both := hi.value * 10 + lo.value;
    if both < min || both > max { return Err(BadDerTime); }
    return Ok(both);
  }

  method ReadAfterYear(r: Reader, year: nat) returns (time: Result<int>)
    requires r.Valid()
    modifies r
    ensures r.Valid()
    ensures time == AfterYear(year, r.input, old(r.pos)).result
    ensures time.Ok? ==> r.pos == AfterYear(year, r.input, old(r.pos)).used
  {
    hide TimeFromYmdhmsUtc;
    var month :- ReadTwoDigits(r, 1, 12);
    var day :- ReadTwoDigits(r, 1, DaysInMonth(year, month));
    var hours :- ReadTwoDigits(r, 0, 23);
    var minutes :- ReadTwoDigits(r, 0, 59);
    var seconds :- ReadTwoDigits(r, 0, 59);
    var timeZone := r.ReadByte();
    if timeZone.None? || timeZone.value != 'Z' as int {
      return Err(BadDerTime);
    }
    time := TimeFromYmdhmsUtc(DateTime(year, month, day, hours, minutes, seconds));
  }

  method ReadContents(r: Reader, isUtcTime: bool) returns (time: Result<int>)
    requires r.Valid() && r.pos == 0
    modifies r
    ensures r.Valid()
    ensures
      var s := if isUtcTime then UtcTimeContents(r.input) else GeneralizedTimeContents(r.input);
      time == s.result && (time.Ok? ==> r.pos == s.used)
  {
    hide AfterYear;
    var yearHi: nat;
    var yearLo: nat;
    if isUtcTime {
      yearLo :- ReadTwoDigits(r, 0, 99);
      yearHi := if yearLo >= 50 then 19 else 20;
    } else {
      yearHi :- ReadTwoDigits(r, 0, 99);
      yearLo :- ReadTwoDigits(r, 0, 99);
    }
    time := ReadAfterYear(r, yearHi * 100 + yearLo);
  }

  /** `Time::from_der`. */
  method ReadTime(r: Reader) returns (time: Result<int>)
    requires r.Valid()
    modifies r
    ensures r.Valid() && old(r.pos) <= r.pos
    ensures Step(time, r.pos - old(r.pos)) == FromDer(old(r.Rest()))
  {
    var isUtcTime := r.Peek(TAG_UTC_TIME);
    var contents := ReadExpectedTag(r, if isUtcTime then TAG_UTC_TIME else TAG_GENERALIZED_TIME);
    if contents.Err? {
      return Err(TrailingData(DerTypeId.Time));
    }
    var inner := new Reader(contents.value);
    time := ReadContents(inner, isUtcTime);
    if time.Ok? && !inner.AtEnd() {
      return Err(TrailingData(DerTypeId.Time));
    }
  }
}
