/** Local date and clock time of the current observation: the Unix time
    `dt` (seconds, no leap seconds, as in section 4.16 of the POSIX.1-2017 Base
    Definitions) plus the location's `timezone` offset in seconds, shown as
    `%d/%m/%Y` and `%H:%M`. */
module LocalClock {
  import opened Results
  import opened Calendar
  import opened DateText

  const SecondsPerDay: int := 86400

  /** Seconds since 1970-01-01 00:00:00 of a date and time of day. */
  function EpochSeconds(t: DateTime): int
    requires IsCalendarDate(t.date)
  {
    (Ordinal(t.date) - EpochOrdinal) * SecondsPerDay + t.hour * 3600 + t.minute * 60 + t.second
  }

  /** The proleptic Gregorian date and time of day `secs` seconds after the epoch:
      whole days by floor division, so instants before 1970 fall on the day before. */
  function DateTimeAt(secs: int): (t: DateTime)
    ensures IsCalendarDate(t.date) && InDay(t)
    ensures EpochSeconds(t) == secs
  {
    var days, rest := secs / SecondsPerDay, secs % SecondsPerDay;
    var date := FromOrdinal(EpochOrdinal + days);
    var t := DateTime(date, rest / 3600, (rest % 3600) / 60, (rest % 3600) % 60);
    assert rest == t.hour * 3600 + t.minute * 60 + t.second;
    t
  }

  /** A date and time of day is determined by its epoch seconds. */
  lemma EpochSecondsInjective(a: DateTime, b: DateTime)
    requires IsCalendarDate(a.date) && InDay(a) && IsCalendarDate(b.date) && InDay(b)
    requires EpochSeconds(a) == EpochSeconds(b)
    ensures a == b
  {
    var da, db := Ordinal(a.date) - EpochOrdinal, Ordinal(b.date) - EpochOrdinal;
    var ra, rb := a.hour * 3600 + a.minute * 60 + a.second, b.hour * 3600 + b.minute * 60 + b.second;
    assert 0 <= ra < SecondsPerDay && 0 <= rb < SecondsPerDay;
    assert da * SecondsPerDay + ra == db * SecondsPerDay + rb;
    assert da == db && ra == rb;
    OrdinalInjective(a.date, b.date);
  }

  /** `datetime` holds years 1 to 9999 only; beyond them the conversion or the
      addition of the offset fails. */
  datatype TimeError = DateOutOfRange

  /** `datetime.fromtimestamp(utc, UTC) + timedelta(seconds=offset)`. */
  function LocalDateTime(utc: int, offset: int): (r: Result<DateTime, TimeError>)
    ensures r.Ok? <==> 1 <= DateTimeAt(utc).date.year <= 9999 && 1 <= DateTimeAt(utc + offset).date.year <= 9999
    ensures r.Ok? ==> IsValidDateTime(r.value) && EpochSeconds(r.value) == utc + offset
  {
    if !(1 <= DateTimeAt(utc).date.year <= 9999) then Err(DateOutOfRange)
    else
      var t := DateTimeAt(utc + offset);
      if 1 <= t.date.year <= 9999 then Ok(t) else Err(DateOutOfRange)
  }

  /** Any valid local date and time whose epoch seconds are `utc + offset` is
      the one `LocalDateTime` gives. */
  lemma LocalDateTimeUnique(utc: int, offset: int, t: DateTime)
    requires IsValidDateTime(t) && EpochSeconds(t) == utc + offset
    requires LocalDateTime(utc, offset).Ok?
    ensures LocalDateTime(utc, offset).value == t
  {
    EpochSecondsInjective(LocalDateTime(utc, offset).value, t);
  }

  /** The `Local_Date` and `Local_Time` fields of the current-weather summary. */
  datatype LocalFields = LocalFields(localDate: string, localTime: string)

  function CurrentLocalFields(utc: int, offset: int): (r: Result<LocalFields, TimeError>)
    ensures r.Ok? <==> LocalDateTime(utc, offset).Ok?
    ensures r.Ok? ==>
      var t := LocalDateTime(utc, offset).value;
      && |r.value.localDate| == 10 && r.value.localDate[2] == '/' && r.value.localDate[5] == '/'
      && Digits2(r.value.localDate, 0) && Digits2(r.value.localDate, 3) && Digits4(r.value.localDate, 6)
      && Num2(r.value.localDate, 0) == t.date.day
      && Num2(r.value.localDate, 3) == t.date.month
      && Num4(r.value.localDate, 6) == t.date.year
      && |r.value.localTime| == 5 && r.value.localTime[2] == ':'
      && Digits2(r.value.localTime, 0) && Digits2(r.value.localTime, 3)
      && Num2(r.value.localTime, 0) == t.hour && Num2(r.value.localTime, 3) == t.minute
  {
    match LocalDateTime(utc, offset)
    case Err(e) => Err(e)
    case Ok(t) =>
      FormatDateFields(t.date);
      Ok(LocalFields(FormatDate(t.date), FormatClock(t.hour, t.minute)))
  }
}
