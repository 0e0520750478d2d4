/** Text forms of dates and times used by the script: the forecast's
    `dt_txt` field, parsed with `strptime(.., '%Y-%m-%d %H:%M:%S')`, and the
    `strftime` outputs `%d/%m/%Y` (dates), `%H:%M` (clock) and `%m-%Y`
    (historical month labels). All fields are fixed-width and zero-padded. */
module DateText {
  import opened Results
  import opened Calendar

  predicate IsDigit(c: char) { '0' <= c <= '9' }

  function DigitValue(c: char): nat
    requires IsDigit(c)
  {
    (c as int) - ('0' as int)
  }

  function DigitChar(n: nat): (c: char)
    requires n < 10
    ensures IsDigit(c) && DigitValue(c) == n
  {
    (('0' as int) + n) as char
  }

  /** The two digits at `s[i..i + 2]` are decimal digits. */
  predicate Digits2(s: string, i: nat) {
    i + 2 <= |s| && IsDigit(s[i]) && IsDigit(s[i + 1])
  }

  predicate Digits4(s: string, i: nat) {
    i + 4 <= |s| && Digits2(s, i) && Digits2(s, i + 2)
  }

  /** The number written by the two digits at `s[i..i + 2]`. */
  function Num2(s: string, i: nat): (n: nat)
    requires Digits2(s, i)
    ensures n < 100
  {
    DigitValue(s[i]) * 10 + DigitValue(s[i + 1])
  }

  function Num4(s: string, i: nat): (n: nat)
    requires Digits4(s, i)
    ensures n < 10000
  {
    Num2(s, i) * 100 + Num2(s, i + 2)
  }

  /** `n` as two zero-padded digits. */
  function Pad2(n: nat): (s: string)
    requires n < 100
    ensures |s| == 2
  {
    [DigitChar(n / 10), DigitChar(n % 10)]
  }

  /** `n` as four zero-padded digits. */
  function Pad4(n: nat): (s: string)
    requires n < 10000
    ensures |s| == 4
  {
    Pad2(n / 100) + Pad2(n % 100)
  }

  /** Reading back a zero-padded number gives the number. */
  lemma Num2OfPad2(n: nat)
    requires n < 100
    ensures Digits2(Pad2(n), 0) && Num2(Pad2(n), 0) == n
  {
  }

  lemma Num4OfPad4(n: nat)
    requires n < 10000
    ensures Digits4(Pad4(n), 0) && Num4(Pad4(n), 0) == n
  {
    var s := Pad4(n);
    Num2OfPad2(n / 100);
    Num2OfPad2(n % 100);
    assert s[2..] == Pad2(n % 100);
  }

  /** A number written at offset `i` of a text reads back from there. */
  lemma Num2At(pre: string, n: nat, post: string)
    requires n < 100
    ensures Digits2(pre + Pad2(n) + post, |pre|) && Num2(pre + Pad2(n) + post, |pre|) == n
  {
    Num2OfPad2(n);
  }

  lemma Num4At(pre: string, n: nat, post: string)
    requires n < 10000
    ensures Digits4(pre + Pad4(n) + post, |pre|) && Num4(pre + Pad4(n) + post, |pre|) == n
  {
    Num4OfPad4(n);
    var s := pre + Pad4(n) + post;
    assert s[|pre|..|pre| + 4] == Pad4(n);
  }

  /** Reading two digits and writing them back gives the same text. */
  lemma Pad2OfNum2(s: string, i: nat)
    requires Digits2(s, i)
    ensures Pad2(Num2(s, i)) == s[i..i + 2]
  {
  }

  lemma Pad4OfNum4(s: string, i: nat)
    requires Digits4(s, i)
    ensures Pad4(Num4(s, i)) == s[i..i + 4]
  {
    var n := Num4(s, i);
    assert n / 100 == Num2(s, i) && n % 100 == Num2(s, i + 2);
    Pad2OfNum2(s, i);
    Pad2OfNum2(s, i + 2);
    assert s[i..i + 4] == s[i..i + 2] + s[i + 2..i + 4];
  }

  /** A date and a time of day, as `datetime` holds them (no fraction, no zone). */
  datatype DateTime = DateTime(date: Date, hour: int, minute: int, second: int)

  /** Hour, minute and second within one day. */
  predicate InDay(t: DateTime) {
    0 <= t.hour < 24 && 0 <= t.minute < 60 && 0 <= t.second < 60
  }

  predicate IsValidDateTime(t: DateTime) {
    IsValidDate(t.date) && InDay(t)
  }

  /** Why `strptime` refuses a `dt_txt`: it does not have the format's shape,
      its year is 0, its day does not exist in its month, or its second is 60 or 61
      (which the format accepts but `datetime` does not). */
  datatype DtError = FormatMismatch | YearOutOfRange | DayOutOfRange | SecondOutOfRange

  /** The canonical `YYYY-MM-DD HH:MM:SS` text of a date and time. */
  function FormatDtTxt(t: DateTime): (s: string)
    requires IsValidDateTime(t)
    ensures |s| == 19
  {
    Pad4(t.date.year) + "-" + Pad2(t.date.month) + "-" + Pad2(t.date.day) + " "
      + Pad2(t.hour) + ":" + Pad2(t.minute) + ":" + Pad2(t.second)
  }

  /** The fixed characters and digit positions of `YYYY-MM-DD HH:MM:SS`. */
  predicate HasDtTxtShape(s: string) {
    |s| == 19
    && Digits4(s, 0) && s[4] == '-' && Digits2(s, 5) && s[7] == '-' && Digits2(s, 8)
    && s[10] == ' ' && Digits2(s, 11) && s[13] == ':' && Digits2(s, 14) && s[16] == ':'
    && Digits2(s, 17)
  }

  /** `datetime.strptime(s, '%Y-%m-%d %H:%M:%S')` on zero-padded fields. The
      format's patterns admit month 01-12, day 01-31, hour 00-23, minute 00-59
      and second 00-61; building the `date` then rejects year 0 and days past the
      end of the month, and building the `datetime` rejects seconds 60 and 61. */
  function ParseDtTxt(s: string): (r: Result<DateTime, DtError>)
    ensures r.Ok? ==> IsValidDateTime(r.value)
    ensures !HasDtTxtShape(s) ==> r == Err(FormatMismatch)
  {
    if !HasDtTxtShape(s) then Err(FormatMismatch)
    else
      var year, month, day := Num4(s, 0), Num2(s, 5), Num2(s, 8);
      var hour, minute, second := Num2(s, 11), Num2(s, 14), Num2(s, 17);
      if !(1 <= month <= 12 && 1 <= day <= 31 && hour <= 23 && minute <= 59 && second <= 61) then
        Err(FormatMismatch)
      else if year == 0 then Err(YearOutOfRange)
      else if day > DaysInMonth(year, month) then Err(DayOutOfRange)
      else if second > 59 then Err(SecondOutOfRange)
      else Ok(DateTime(Date(year, month, day), hour, minute, second))
  }

  /** Only canonical text is accepted: what parses is the exact text of its result. */
  lemma FormatOfParse(s: string)
    requires ParseDtTxt(s).Ok?
    ensures FormatDtTxt(ParseDtTxt(s).value) == s
  {
    Pad4OfNum4(s, 0);
    Pad2OfNum2(s, 5);
    Pad2OfNum2(s, 8);
    Pad2OfNum2(s, 11);
    Pad2OfNum2(s, 14);
    Pad2OfNum2(s, 17);
    assert s == s[0..4] + "-" + s[5..7] + "-" + s[8..10] + " "
              + s[11..13] + ":" + s[14..16] + ":" + s[17..19];
  }

  /** Every valid date and time survives formatting and parsing unchanged. */
  lemma ParseOfFormat(t: DateTime)
    requires IsValidDateTime(t)
    ensures ParseDtTxt(FormatDtTxt(t)) == Ok(t)
  {
    var s := FormatDtTxt(t);
    assert s[0..4] == Pad4(t.date.year);
    assert s[5..7] == Pad2(t.date.month);
    assert s[8..10] == Pad2(t.date.day);
    assert s[11..13] == Pad2(t.hour);
    assert s[14..16] == Pad2(t.minute);
    assert s[17..19] == Pad2(t.second);
  }

  /** The grouping key of a forecast entry: the date part of its parsed `dt_txt`. */
  function DtTxtDate(s: string): (r: Result<Date, DtError>)
    ensures r.Ok? ==> IsValidDate(r.value)
  {
    match ParseDtTxt(s)
    case Ok(t) => Ok(t.date)
    case Err(e) => Err(e)
  }

  /** The key is accepted exactly when the whole `dt_txt` is, with the same
      error, and it is the date the text's first ten characters spell. */
  lemma DtTxtDateIsDatePart(s: string)
    ensures DtTxtDate(s).Err? <==> ParseDtTxt(s).Err?
    ensures DtTxtDate(s).Err? ==> DtTxtDate(s).error == ParseDtTxt(s).error
    ensures DtTxtDate(s).Ok? ==>
      (var d := DtTxtDate(s).value;
       |s| == 19 && Pad4(d.year) + "-" + Pad2(d.month) + "-" + Pad2(d.day) == s[..10])
  {
    if ParseDtTxt(s).Ok? {
      FormatOfParse(s);
      assert s[..10] == FormatDtTxt(ParseDtTxt(s).value)[..10];
    }
  }

  /** `strftime('%d/%m/%Y')`: zero-padded day, month and four-digit year. */
  function FormatDate(d: Date): (s: string)
    requires IsValidDate(d)
    ensures |s| == 10
  {
    Pad2(d.day) + "/" + Pad2(d.month) + "/" + Pad4(d.year)
  }

  /** The shown date reads back as the day, the month and the year. */
  lemma FormatDateFields(d: Date)
    requires IsValidDate(d)
    ensures var s := FormatDate(d);
      && s[2] == '/' && s[5] == '/'
      && Digits2(s, 0) && Digits2(s, 3) && Digits4(s, 6)
      && Num2(s, 0) == d.day && Num2(s, 3) == d.month && Num4(s, 6) == d.year
  {
    Num2At([], d.day, "/" + Pad2(d.month) + "/" + Pad4(d.year));
    Num2At(Pad2(d.day) + "/", d.month, "/" + Pad4(d.year));
    Num4At(Pad2(d.day) + "/" + Pad2(d.month) + "/", d.year, []);
    assert FormatDate(d) == [] + Pad2(d.day) + ("/" + Pad2(d.month) + "/" + Pad4(d.year));
    assert FormatDate(d) == (Pad2(d.day) + "/") + Pad2(d.month) + ("/" + Pad4(d.year));
    assert FormatDate(d) == (Pad2(d.day) + "/" + Pad2(d.month) + "/") + Pad4(d.year) + [];
  }

  /** Different dates are shown differently. */
  lemma FormatDateInjective(d1: Date, d2: Date)
    requires IsValidDate(d1) && IsValidDate(d2) && FormatDate(d1) == FormatDate(d2)
    ensures d1 == d2
  {
    FormatDateFields(d1);
    FormatDateFields(d2);
  }

  /** `strftime('%H:%M')`. */
  function FormatClock(hour: int, minute: int): (s: string)
    requires 0 <= hour < 24 && 0 <= minute < 60
    ensures |s| == 5 && s[2] == ':' && Digits2(s, 0) && Digits2(s, 3)
    ensures Num2(s, 0) == hour && Num2(s, 3) == minute
  {
    Num2At([], hour, ":" + Pad2(minute));
    Num2At(Pad2(hour) + ":", minute, []);
    var s := Pad2(hour) + ":" + Pad2(minute);
    assert s == [] + Pad2(hour) + (":" + Pad2(minute));
    assert s == (Pad2(hour) + ":") + Pad2(minute) + [];
    s
  }

  /** `strftime('%m-%Y')`: the historical month label. */
  function MonthLabel(d: Date): (s: string)
    requires IsValidDate(d)
    ensures |s| == 7 && s[2] == '-' && Digits2(s, 0) && Digits4(s, 3)
    ensures Num2(s, 0) == d.month && Num4(s, 3) == d.year
  {
    Num2At([], d.month, "-" + Pad4(d.year));
    Num4At(Pad2(d.month) + "-", d.year, []);
    var s := Pad2(d.month) + "-" + Pad4(d.year);
    assert s == [] + Pad2(d.month) + ("-" + Pad4(d.year));
    assert s == (Pad2(d.month) + "-") + Pad4(d.year) + [];
    s
  }

  /** Two dates share a month label exactly when they share month and year. */
  lemma MonthLabelSame(d1: Date, d2: Date)
    requires IsValidDate(d1) && IsValidDate(d2)
    ensures MonthLabel(d1) == MonthLabel(d2) <==> d1.month == d2.month && d1.year == d2.year
  {
  }
}
