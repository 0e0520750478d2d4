/** The 5-day forecast table: the forecast entries are bucketed by the
    calendar date of their `dt_txt` into an insertion-ordered dictionary,
    and each bucket is reduced to one row (lowest `temp_min`, highest
    `temp_max`, mean wind speed in km/h, most frequent weather label and icon). */
module Forecast {
  import opened Results
  import opened Seqs
  import opened Rounding
  import opened Calendar
  import opened DateText

  /** One element of the forecast response's `list`: `dt_txt`,
      `main.temp_min`, `main.temp_max` (Celsius), `wind.speed` (m/s),
      `weather[0].main` and `weather[0].icon`. */
  datatype Entry = Entry(dtTxt: string, tempMin: real, tempMax: real, windSpeed: real,
                         weatherMain: string, icon: string)

  /** One row of `daily_summary_metric`. */
  datatype DayRow = DayRow(date: string, tempCMin: int, tempCMax: int, windSpeedKph: int,
                           weatherType: string, icon: string)

  /** The calendar date of every entry, in order; the first entry whose
      `dt_txt` does not parse decides the error, as the loop stops there. */
  function EntryDates(entries: seq<Entry>): (r: Result<seq<Date>, DtError>)
    ensures r.Ok? ==> |r.value| == |entries|
    ensures r.Ok? ==> forall d :: d in r.value ==> IsValidDate(d)
  {
    if entries == [] then Ok([])
    else
      var p := entries[..|entries| - 1];
      var last := entries[|entries| - 1];
      var rp := EntryDates(p);
      var rd := DtTxtDate(last.dtTxt);
      if rp.Err? then Err(rp.error)
      else if rd.Err? then Err(rd.error)
      else
        Ok(rp.value + [rd.value])
  }

  /** Each entry's key is the date of its own `dt_txt`. */
  lemma {:induction false} EntryDatesAt(entries: seq<Entry>, i: nat)
    requires EntryDates(entries).Ok? && i < |entries|
    ensures DtTxtDate(entries[i].dtTxt) == Ok(EntryDates(entries).value[i])
  {
    var n := |entries| - 1;
    var p := entries[..n];
    if i < n {
      EntryDatesAt(p, i);
      assert p[i] == entries[i];
    }
  }

  /** When some `dt_txt` does not parse, the table fails with the error of the
      first such entry. */
  lemma {:induction false} EntryDatesFirstError(entries: seq<Entry>)
    requires EntryDates(entries).Err?
    ensures exists i :: 0 <= i < |entries| && DtTxtDate(entries[i].dtTxt) == Err(EntryDates(entries).error)
              && forall j :: 0 <= j < i ==> DtTxtDate(entries[j].dtTxt).Ok?
  {
    var n := |entries| - 1;
    var p := entries[..n];
    if EntryDates(p).Err? {
      EntryDatesFirstError(p);
      var i :| 0 <= i < |p| && DtTxtDate(p[i].dtTxt) == Err(EntryDates(p).error)
              && forall j :: 0 <= j < i ==> DtTxtDate(p[j].dtTxt).Ok?;
      assert forall j :: 0 <= j <= i ==> p[j] == entries[j];
    } else {
      forall j | 0 <= j < n ensures DtTxtDate(entries[j].dtTxt).Ok? {
        EntryDatesAt(p, j);
        assert p[j] == entries[j];
      }
    }
  }

  lemma EntryDatesStep(entries: seq<Entry>, i: nat)
    requires i < |entries|
    ensures EntryDates(entries[..i + 1]) ==
      var rp := EntryDates(entries[..i]);
      var rd := DtTxtDate(entries[i].dtTxt);
      if rp.Err? then Err(rp.error)
      else if rd.Err? then Err(rd.error)
      else Ok(rp.value + [rd.value])
  {
    assert entries[..i + 1][..i] == entries[..i];
  }

  /** A prefix that parses grows by the date of the next entry when that parses too. */
  lemma EntryDatesExtend(entries: seq<Entry>, i: nat, dates: seq<Date>, date: Date)
    requires i < |entries| && EntryDates(entries[..i]) == Ok(dates)
    requires DtTxtDate(entries[i].dtTxt) == Ok(date)
    ensures EntryDates(entries[..i + 1]) == Ok(dates + [date])
  {
    EntryDatesStep(entries, i);
  }

  /** The first `dt_txt` that does not parse decides the error of the whole list. */
  lemma EntryDatesFailsAt(entries: seq<Entry>, i: nat)
    requires i < |entries| && EntryDates(entries[..i]).Ok?
    requires DtTxtDate(entries[i].dtTxt).Err?
    ensures EntryDates(entries) == Err(DtTxtDate(entries[i].dtTxt).error)
  {
    EntryDatesStep(entries, i);
    EntryDatesErrPersists(entries, i + 1);
  }

  /** Once a prefix fails to parse, the whole list fails with the same error. */
  lemma {:induction false} EntryDatesErrPersists(entries: seq<Entry>, k: nat)
    requires k <= |entries| && EntryDates(entries[..k]).Err?
    ensures EntryDates(entries) == EntryDates(entries[..k])
    decreases |entries| - k
  {
    if k < |entries| {
      EntryDatesStep(entries, k);
      EntryDatesErrPersists(entries, k + 1);
    } else {
      assert entries[..k] == entries;
    }
  }

  /** The entries dated `d`, in input order: `date_list_metric[d]`. */
  function Bucket(entries: seq<Entry>, dates: seq<Date>, d: Date): (b: seq<Entry>)
    requires |dates| == |entries|
    ensures |b| == Count(dates, d)
  {
    if entries == [] then []
    else
      var n := |entries| - 1;
      Bucket(entries[..n], dates[..n], d) + (if dates[n] == d then [entries[n]] else [])
  }

  lemma BucketStep(entries: seq<Entry>, dates: seq<Date>, i: nat, date: Date, d: Date)
    requires i < |entries| && |dates| == i
    ensures Bucket(entries[..i + 1], dates + [date], d)
         == Bucket(entries[..i], dates, d) + (if date == d then [entries[i]] else [])
  {
    assert entries[..i + 1][..i] == entries[..i];
    assert (dates + [date])[..i] == dates;
  }

  /** A bucket holds exactly the entries whose date is its key. */
  lemma BucketMembers(entries: seq<Entry>, dates: seq<Date>, d: Date, x: Entry)
    requires |dates| == |entries|
    ensures x in Bucket(entries, dates, d) <==>
              exists i :: 0 <= i < |entries| && dates[i] == d && entries[i] == x
  {
    if x in Bucket(entries, dates, d) {
      var i := BucketSource(entries, dates, d, x);
    }
    if exists i :: 0 <= i < |entries| && dates[i] == d && entries[i] == x {
      var i :| 0 <= i < |entries| && dates[i] == d && entries[i] == x;
      BucketHolds(entries, dates, d, i);
    }
  }

  lemma {:induction false} BucketSource(entries: seq<Entry>, dates: seq<Date>, d: Date, x: Entry) returns (i: nat)
    requires |dates| == |entries| && x in Bucket(entries, dates, d)
    ensures i < |entries| && dates[i] == d && entries[i] == x
  {
    var n := |entries| - 1;
    var p, dp := entries[..n], dates[..n];
    if x in Bucket(p, dp, d) {
      i := BucketSource(p, dp, d, x);
      assert dp[i] == dates[i] && p[i] == entries[i];
    } else {
      i := n;
    }
  }

  lemma {:induction false} BucketHolds(entries: seq<Entry>, dates: seq<Date>, d: Date, i: nat)
    requires |dates| == |entries| && i < |entries| && dates[i] == d
    ensures entries[i] in Bucket(entries, dates, d)
  {
    var n := |entries| - 1;
    var p, dp := entries[..n], dates[..n];
    if i < n {
      assert dp[i] == dates[i] && p[i] == entries[i];
      BucketHolds(p, dp, d, i);
    }
  }

  /** Each entry beside its date: one pair per input position. */
  function Dated(entries: seq<Entry>, dates: seq<Date>): (ps: seq<(Entry, Date)>)
    requires |dates| == |entries|
    ensures |ps| == |entries| && forall i :: 0 <= i < |entries| ==> ps[i] == (entries[i], dates[i])
  {
    seq(|entries|, i requires 0 <= i < |entries| => (entries[i], dates[i]))
  }

  /** A bucket repeats an entry as often as the input holds it under the
      bucket's date, so the mean and the modes weigh every repeat. */
  lemma {:induction false} BucketCounts(entries: seq<Entry>, dates: seq<Date>, d: Date, x: Entry)
    requires |dates| == |entries|
    ensures Count(Bucket(entries, dates, d), x) == Count(Dated(entries, dates), (x, d))
  {
    if entries != [] {
      var n := |entries| - 1;
      var p, dp := entries[..n], dates[..n];
      BucketCounts(p, dp, d, x);
      DatedLast(entries, dates);
      BucketCountsStep(Bucket(p, dp, d), entries[n], dates[n], d, x);
    }
  }

  lemma DatedLast(entries: seq<Entry>, dates: seq<Date>)
    requires |dates| == |entries| > 0
    ensures var n := |entries| - 1;
      Dated(entries, dates)[..n] == Dated(entries[..n], dates[..n])
      && Dated(entries, dates)[n] == (entries[n], dates[n])
  {
  }

  lemma BucketCountsStep(b: seq<Entry>, e: Entry, de: Date, d: Date, x: Entry)
    ensures Count(b + (if de == d then [e] else []), x) == Count(b, x) + (if (e, de) == (x, d) then 1 else 0)
  {
    if de == d {
      CountAppend(b, e, x);
    } else {
      assert b + [] == b;
    }
  }

  function SumCounts(dates: seq<Date>, keys: seq<Date>): nat {
    if keys == [] then 0 else SumCounts(dates, keys[..|keys| - 1]) + Count(dates, keys[|keys| - 1])
  }

  lemma {:induction false} SumCountsAppendDate(dates: seq<Date>, x: Date, keys: seq<Date>)
    requires NoDuplicates(keys)
    ensures SumCounts(dates + [x], keys) == SumCounts(dates, keys) + (if x in keys then 1 else 0)
  {
    if keys != [] {
      var p := keys[..|keys| - 1];
      var k := keys[|keys| - 1];
      assert keys == p + [k];
      SumCountsAppendDate(dates, x, p);
      CountAppend(dates, x, k);
      assert x in keys <==> x in p || x == k;
      assert x == k ==> x !in p;
    }
  }

  lemma SumCountsAppendKey(dates: seq<Date>, keys: seq<Date>, k: Date)
    ensures SumCounts(dates, keys + [k]) == SumCounts(dates, keys) + Count(dates, k)
  {
    assert (keys + [k])[..|keys + [k]| - 1] == keys;
  }

  /** The buckets partition the entries: their sizes add up to the number of entries. */
  lemma {:induction false} BucketsPartition(dates: seq<Date>)
    ensures SumCounts(dates, Distinct(dates)) == |dates|
  {
    if dates != [] {
      var p := dates[..|dates| - 1];
      var x := dates[|dates| - 1];
      assert dates == p + [x];
      BucketsPartition(p);
      DistinctAppend(p, x);
      SumCountsAppendDate(p, x, Distinct(p));
      if x !in Distinct(p) {
        SumCountsAppendKey(dates, Distinct(p), x);
        CountAppend(p, x, x);
      }
    }
  }

  function TempMins(items: seq<Entry>): (s: seq<real>)
    ensures |s| == |items| && forall i :: 0 <= i < |items| ==> s[i] == items[i].tempMin
  {
    seq(|items|, i requires 0 <= i < |items| => items[i].tempMin)
  }

  function TempMaxs(items: seq<Entry>): (s: seq<real>)
    ensures |s| == |items| && forall i :: 0 <= i < |items| ==> s[i] == items[i].tempMax
  {
    seq(|items|, i requires 0 <= i < |items| => items[i].tempMax)
  }

  function WindSpeeds(items: seq<Entry>): (s: seq<real>)
    ensures |s| == |items| && forall i :: 0 <= i < |items| ==> s[i] == items[i].windSpeed
  {
    seq(|items|, i requires 0 <= i < |items| => items[i].windSpeed)
  }

  function WeatherLabels(items: seq<Entry>): (s: seq<string>)
    ensures |s| == |items| && forall i :: 0 <= i < |items| ==> s[i] == items[i].weatherMain
  {
    seq(|items|, i requires 0 <= i < |items| => items[i].weatherMain)
  }

  function Icons(items: seq<Entry>): (s: seq<string>)
    ensures |s| == |items| && forall i :: 0 <= i < |items| ==> s[i] == items[i].icon
  {
    seq(|items|, i requires 0 <= i < |items| => items[i].icon)
  }

  /** `int(round(mean * 3.6, 1))`: the mean speed in km/h rounded to one decimal,
      then truncated by `int`. */
  function WindKph(speeds: seq<real>): (kph: int)
    requires |speeds| > 0
    ensures Mean(speeds) >= 0.0 ==>
              0 <= kph && (kph as real) <= Mean(speeds) * 3.6 + 0.05 && Mean(speeds) * 3.6 - 0.05 < (kph as real) + 1.0
  {
    Truncate(RoundTenth(Mean(speeds) * 3.6))
  }

  /** For a non-negative speed the displayed km/h is the nearest integer or one
      below it; with 2.75 m/s (9.9 km/h) the row shows 9 where `int(round(..))`,
      used for the current wind speed, shows 10. */
  lemma WindKphAgainstNearest(speeds: seq<real>)
    requires |speeds| > 0 && Mean(speeds) >= 0.0
    ensures RoundHalfEven(Mean(speeds) * 3.6) - 1 <= WindKph(speeds) <= RoundHalfEven(Mean(speeds) * 3.6)
  {
    var x := Mean(speeds) * 3.6;
    var t := RoundTenth(x);
    var k := WindKph(speeds);
    var n := RoundHalfEven(x);
    assert (k as real) <= t < (k as real) + 1.0;
  }

  lemma WindKphTruncates()
    ensures WindKph([2.75]) == 9
    ensures RoundHalfEven(2.75 * 3.6) == 10
  {
    assert Mean([2.75]) == 2.75 by { assert Sum([2.75]) == 2.75 by { var s := [2.75]; assert s[..0] == []; } }
    assert RoundHalfEven(99.0) == 99;
  }

  lemma ExampleWind()
    ensures WindKph([2.0, 3.0, 2.5]) == 9
  {
    var winds := [2.0, 3.0, 2.5];
    assert Sum([2.0]) == 2.0 by { assert [2.0][..0] == []; }
    assert Sum([2.0, 3.0]) == 5.0 by { assert [2.0, 3.0][..1] == [2.0]; }
    assert Sum(winds) == 7.5 by { assert winds[..2] == [2.0, 3.0]; }
    assert Mean(winds) * 3.6 == 9.0;
    assert RoundTenth(9.0) == 9.0;
  }

  lemma ExampleMode<T>(a: T, b: T)
    requires a != b
    ensures Mode([a, a, b]) == a
  {
    var s := [a, a, b];
    assert s[..2] == [a, a] && s[..2][..1] == [a] && [a][..0] == [];
    assert Count(s, a) == 2;
    assert Count(s, b) == 1;
    assert LeftmostMostFrequent(s, [a, a]) == a;
  }

  /** Three readings of one day: lows 10, 12 and 9, highs 18, 20 and 19, winds
      2, 3 and 2.5 m/s, labels Rain, Rain, Clouds. The row shows 9, 20, 9 km/h and Rain. */
  lemma ReduceExampleDay()
    ensures var items := [Entry("2025-07-14 09:00:00", 10.0, 18.0, 2.0, "Rain", "10d"),
                          Entry("2025-07-14 12:00:00", 12.0, 20.0, 3.0, "Rain", "10d"),
                          Entry("2025-07-14 15:00:00", 9.0, 19.0, 2.5, "Clouds", "04d")];
      var row := Reduce(Date(2025, 7, 14), items);
      row.tempCMin == 9 && row.tempCMax == 20 && row.windSpeedKph == 9
      && row.weatherType == "Rain" && row.icon == "10d"
  {
    var items := [Entry("2025-07-14 09:00:00", 10.0, 18.0, 2.0, "Rain", "10d"),
                  Entry("2025-07-14 12:00:00", 12.0, 20.0, 3.0, "Rain", "10d"),
                  Entry("2025-07-14 15:00:00", 9.0, 19.0, 2.5, "Clouds", "04d")];
    var lows, highs := TempMins(items), TempMaxs(items);
    assert lows == [10.0, 12.0, 9.0] && highs == [18.0, 20.0, 19.0];
    assert lows[..2] == [10.0, 12.0] && lows[..2][..1] == [10.0];
    assert highs[..2] == [18.0, 20.0] && highs[..2][..1] == [18.0];
    assert Min(lows) == 9.0 && Max(highs) == 20.0;
    RoundHalfEvenUnique(9.0, 9);
    RoundHalfEvenUnique(20.0, 20);
    assert WindSpeeds(items) == [2.0, 3.0, 2.5];
    ExampleWind();
    assert WeatherLabels(items) == ["Rain", "Rain", "Clouds"];
    ExampleMode("Rain", "Clouds");
    assert Icons(items) == ["10d", "10d", "04d"];
    ExampleMode("10d", "04d");
  }

  /** One bucket reduced to its row: the body of the second loop in `Main.py` (lines 114-127). */
  function Reduce(d: Date, items: seq<Entry>): (row: DayRow)
    requires IsValidDate(d) && |items| > 0
    ensures forall j :: 0 <= j < |items| ==>
      row.tempCMin as real <= items[j].tempMin + 0.5 && items[j].tempMax - 0.5 <= row.tempCMax as real
    ensures row.weatherType in WeatherLabels(items) && row.icon in Icons(items)
  {
    assert forall j :: 0 <= j < |items| ==> TempMins(items)[j] in TempMins(items) && TempMaxs(items)[j] in TempMaxs(items);
    DayRow(FormatDate(d),
           RoundHalfEven(Min(TempMins(items))),
           RoundHalfEven(Max(TempMaxs(items))),
           WindKph(WindSpeeds(items)),
           Mode(WeatherLabels(items)),
           Mode(Icons(items)))
  }

  /** What a reduced row holds: the bucket's date, the rounded `temp_min` of
      a member no other member is below, the rounded `temp_max` of a member no
      other is above, the converted mean wind speed, and the stable modes of
      the weather labels and of the icons, each taken on its own. */
  lemma ReduceRow(d: Date, items: seq<Entry>)
    requires IsValidDate(d) && |items| > 0
    ensures var row := Reduce(d, items);
      && row.date == FormatDate(d)
      && (exists k :: 0 <= k < |items| && row.tempCMin == RoundHalfEven(items[k].tempMin)
            && forall j :: 0 <= j < |items| ==> items[k].tempMin <= items[j].tempMin)
      && (exists k :: 0 <= k < |items| && row.tempCMax == RoundHalfEven(items[k].tempMax)
            && forall j :: 0 <= j < |items| ==> items[j].tempMax <= items[k].tempMax)
      && row.windSpeedKph == WindKph(WindSpeeds(items))
      && IsStableMode(WeatherLabels(items), row.weatherType)
      && IsStableMode(Icons(items), row.icon)
  {
    var lo, hi := Min(TempMins(items)), Max(TempMaxs(items));
    var a :| 0 <= a < |TempMins(items)| && TempMins(items)[a] == lo;
    var b :| 0 <= b < |TempMaxs(items)| && TempMaxs(items)[b] == hi;
    forall j | 0 <= j < |items| ensures lo <= items[j].tempMin && items[j].tempMax <= hi {
      assert TempMins(items)[j] in TempMins(items);
      assert TempMaxs(items)[j] in TempMaxs(items);
    }
    assert items[a].tempMin == lo && items[b].tempMax == hi;
    ModeIsStable(WeatherLabels(items));
    ModeIsStable(Icons(items));
  }

  /** The rows for the given bucket keys, one per key, in key order. */
  function RowsFor(entries: seq<Entry>, dates: seq<Date>, keys: seq<Date>): (rows: seq<DayRow>)
    requires |dates| == |entries|
    requires forall d :: d in dates ==> IsValidDate(d)
    requires forall k :: k in keys ==> k in dates
  {
    seq(|keys|, i requires 0 <= i < |keys| =>
      assert keys[i] in keys;
      Reduce(keys[i], Bucket(entries, dates, keys[i])))
  }

  /** The whole forecast table, or the first `dt_txt` error. */
  function DailySummary(entries: seq<Entry>): (r: Result<seq<DayRow>, DtError>)
    ensures r.Err? <==> EntryDates(entries).Err?
    ensures r.Err? ==> r.error == EntryDates(entries).error
  {
    match EntryDates(entries)
    case Err(e) => Err(e)
    case Ok(dates) => Ok(RowsFor(entries, dates, Distinct(dates)))
  }

  /** The `Date` column of a table. */
  function DateColumn(rows: seq<DayRow>): (s: seq<string>)
    ensures |s| == |rows| && forall i :: 0 <= i < |rows| ==> s[i] == rows[i].date
  {
    seq(|rows|, i requires 0 <= i < |rows| => rows[i].date)
  }

  /** The displayed date of every entry, in input order. */
  function ShownDates(dates: seq<Date>): (s: seq<string>)
    requires forall d :: d in dates ==> IsValidDate(d)
    ensures |s| == |dates| && forall i :: 0 <= i < |dates| ==> s[i] == FormatDate(dates[i])
  {
    seq(|dates|, i requires 0 <= i < |dates| => FormatDate(dates[i]))
  }

  /** One row per distinct entry date, in the order the dates were first
      seen: the `Date` column is the first-seen de-duplication of the entries'
      displayed dates (so it has no repeats, misses no entry's date, and lists
      dates by their first entry). */
  lemma ForecastDateColumn(entries: seq<Entry>)
    requires DailySummary(entries).Ok?
    ensures DateColumn(DailySummary(entries).value) == Distinct(ShownDates(EntryDates(entries).value))
  {
    var dates := EntryDates(entries).value;
    var rows := DailySummary(entries).value;
    var shown := ShownDates(dates);
    var keys := Distinct(dates);
    forall i, j | 0 <= i < |dates| && 0 <= j < |dates|
      ensures dates[i] == dates[j] <==> shown[i] == shown[j]
    {
      assert dates[i] in dates && dates[j] in dates;
      if shown[i] == shown[j] { FormatDateInjective(dates[i], dates[j]); }
    }
    DistinctAligned(dates, shown);
    forall k | 0 <= k < |keys| ensures DateColumn(rows)[k] == Distinct(shown)[k] {
      assert keys[k] in keys;
      assert rows[k] == Reduce(keys[k], Bucket(entries, dates, keys[k]));
    }
  }

  /** Every entry lands in the bucket of its own date and in no other, as
      often as it occurs under that date. */
  lemma ForecastBuckets(entries: seq<Entry>, d: Date, x: Entry)
    requires EntryDates(entries).Ok?
    ensures var dates := EntryDates(entries).value;
      && (x in Bucket(entries, dates, d) <==> exists i :: 0 <= i < |entries| && dates[i] == d && entries[i] == x)
      && Count(Bucket(entries, dates, d), x) == Count(Dated(entries, dates), (x, d))
      && SumCounts(dates, Distinct(dates)) == |entries|
  {
    var dates := EntryDates(entries).value;
    BucketMembers(entries, dates, d, x);
    BucketCounts(entries, dates, d, x);
    BucketsPartition(dates);
  }

  /** The lowest `temp_min` of a bucket belongs to an entry of that date that no
      other entry of that date is below; likewise for the highest `temp_max`. */
  lemma BucketExtremes(entries: seq<Entry>, dates: seq<Date>, d: Date)
    requires |dates| == |entries| && d in dates
    ensures |Bucket(entries, dates, d)| > 0
    ensures exists k :: 0 <= k < |entries| && dates[k] == d && entries[k].tempMin == Min(TempMins(Bucket(entries, dates, d)))
              && forall j :: 0 <= j < |entries| && dates[j] == d ==> entries[k].tempMin <= entries[j].tempMin
    ensures exists k :: 0 <= k < |entries| && dates[k] == d && entries[k].tempMax == Max(TempMaxs(Bucket(entries, dates, d)))
              && forall j :: 0 <= j < |entries| && dates[j] == d ==> entries[j].tempMax <= entries[k].tempMax
  {
    var items := Bucket(entries, dates, d);
    var lo, hi := Min(TempMins(items)), Max(TempMaxs(items));
    var kmin :| 0 <= kmin < |items| && TempMins(items)[kmin] == lo;
    var kmax :| 0 <= kmax < |items| && TempMaxs(items)[kmax] == hi;
    BucketMembers(entries, dates, d, items[kmin]);
    BucketMembers(entries, dates, d, items[kmax]);
    var a :| 0 <= a < |entries| && dates[a] == d && entries[a] == items[kmin];
    var b :| 0 <= b < |entries| && dates[b] == d && entries[b] == items[kmax];
    forall j | 0 <= j < |entries| && dates[j] == d
      ensures entries[a].tempMin <= entries[j].tempMin && entries[j].tempMax <= entries[b].tempMax
    {
      BucketMembers(entries, dates, d, entries[j]);
      var q :| 0 <= q < |items| && items[q] == entries[j];
      assert TempMins(items)[q] in TempMins(items);
      assert TempMaxs(items)[q] in TempMaxs(items);
    }
  }

  /** Row `i` reduces the entries of one date: its minimum is the rounded lowest
      `temp_min` of an entry of that date, its maximum the rounded highest
      `temp_max`, and its weather label and icon are stable modes of the bucket. */
  lemma ForecastRow(entries: seq<Entry>, i: nat)
    requires DailySummary(entries).Ok? && i < |DailySummary(entries).value|
    ensures var dates := EntryDates(entries).value;
            var row := DailySummary(entries).value[i];
      exists d :: d in dates && IsValidDate(d) && row.date == FormatDate(d)
        && (exists k :: 0 <= k < |entries| && dates[k] == d && row.tempCMin == RoundHalfEven(entries[k].tempMin)
              && forall j :: 0 <= j < |entries| && dates[j] == d ==> entries[k].tempMin <= entries[j].tempMin)
        && (exists k :: 0 <= k < |entries| && dates[k] == d && row.tempCMax == RoundHalfEven(entries[k].tempMax)
              && forall j :: 0 <= j < |entries| && dates[j] == d ==> entries[j].tempMax <= entries[k].tempMax)
        && row.windSpeedKph == WindKph(WindSpeeds(Bucket(entries, dates, d)))
        && IsStableMode(WeatherLabels(Bucket(entries, dates, d)), row.weatherType)
        && IsStableMode(Icons(Bucket(entries, dates, d)), row.icon)
  {
    var dates := EntryDates(entries).value;
    var keys := Distinct(dates);
    var d := keys[i];
    assert d in keys;
    var items := Bucket(entries, dates, d);
    var row := DailySummary(entries).value[i];
    assert row == Reduce(d, items);
    BucketExtremes(entries, dates, d);
    ModeIsStable(WeatherLabels(items));
    ModeIsStable(Icons(items));
  }

  /** Appending entry `i` to the list of its date keeps every list equal to its bucket. */
  lemma BucketsExtend(entries: seq<Entry>, i: nat, dates: seq<Date>, date: Date,
                      lists: map<Date, seq<Entry>>, lists': map<Date, seq<Entry>>)
    requires i < |entries| && |dates| == i
    requires forall d :: d in lists <==> d in dates
    requires forall d :: d in lists ==> lists[d] == Bucket(entries[..i], dates, d)
    requires lists' == if date in lists then lists[date := lists[date] + [entries[i]]]
                       else lists[date := [entries[i]]]
    ensures forall d :: d in lists' <==> d in dates + [date]
    ensures forall d :: d in lists' ==> lists'[d] == Bucket(entries[..i + 1], dates + [date], d)
  {
    forall d | d in lists' ensures lists'[d] == Bucket(entries[..i + 1], dates + [date], d) {
      BucketStep(entries, dates, i, date, d);
    }
  }

  /** The filled `defaultdict(list)`: its key order and its lists. */
  datatype DateBuckets = DateBuckets(order: seq<Date>, lists: map<Date, seq<Entry>>)

  /** The first loop: parse each entry's `dt_txt` and append the entry to the
      list of its date, a new key going to the end of the key order. */
  method BucketByDate(entries: seq<Entry>) returns (r: Result<DateBuckets, DtError>)
    ensures r.Err? <==> EntryDates(entries).Err?
    ensures r.Err? ==> r.error == EntryDates(entries).error
    ensures r.Ok? ==>
      var dates := EntryDates(entries).value;
      && r.value.order == Distinct(dates)
      && (forall d :: d in r.value.lists <==> d in dates)
      && (forall d :: d in r.value.lists ==> r.value.lists[d] == Bucket(entries, dates, d))
  {
    var order: seq<Date> := [];
    var lists: map<Date, seq<Entry>> := map[];
    ghost var dates: seq<Date> := [];
    var i := 0;
    while i < |entries|
      invariant 0 <= i <= |entries|
      invariant EntryDates(entries[..i]) == Ok(dates)
      invariant order == Distinct(dates)
      invariant forall d :: d in lists <==> d in dates
      invariant forall d :: d in lists ==> lists[d] == Bucket(entries[..i], dates, d)
    {
      var key := DtTxtDate(entries[i].dtTxt);
      if key.Err? {
        EntryDatesFailsAt(entries, i);
        return Err(key.error);
      }
      var date := key.value;
      DistinctAppend(dates, date);
      ghost var before := lists;
      if date in lists {
        lists := lists[date := lists[date] + [entries[i]]];
      } else {
        order := order + [date];
        lists := lists[date := [entries[i]]];
      }
      BucketsExtend(entries, i, dates, date, before, lists);
      EntryDatesExtend(entries, i, dates, date);
      dates := dates + [date];
      i := i + 1;
    }
    assert entries[..i] == entries;
    return Ok(DateBuckets(order, lists));
  }

  /** The second loop: one reduced row per key, in key order. */
  method ReduceBuckets(entries: seq<Entry>, ghost dates: seq<Date>, b: DateBuckets) returns (rows: seq<DayRow>)
    requires |dates| == |entries|
    requires forall d :: d in dates ==> IsValidDate(d)
    requires forall k :: k in b.order ==> k in dates
    requires forall d :: d in dates ==> d in b.lists && b.lists[d] == Bucket(entries, dates, d)
    ensures rows == RowsFor(entries, dates, b.order)
  {
    ghost var all := RowsFor(entries, dates, b.order);
    rows := [];
    var j := 0;
    while j < |b.order|
      invariant 0 <= j <= |b.order|
      invariant rows == all[..j]
    {
      var date := b.order[j];
      assert date in b.order;
      var row := Reduce(date, b.lists[date]);
      assert all[..j + 1] == all[..j] + [row];
      rows := rows + [row];
      j := j + 1;
    }
    assert all[..j] == all;
  }

  /** `Main.py` lines 106-128: the forecast table, or the first `dt_txt` error. */
  method SummarizeForecast(entries: seq<Entry>) returns (r: Result<seq<DayRow>, DtError>)
    ensures r == DailySummary(entries)
  {
    var grouped := BucketByDate(entries);
    if grouped.Err? {
      return Err(grouped.error);
    }
    ghost var dates := EntryDates(entries).value;
    var rows := ReduceBuckets(entries, dates, grouped.value);
    return Ok(rows);
  }
}
