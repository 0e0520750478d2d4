/** The historic monthly averages: the daily records of the past year lose
    the days without an average temperature, are keyed by their `MM-YYYY`
    label, and each label gets the mean Celsius temperature and the Fahrenheit
    value of that unrounded mean, each rounded half to even. `groupby` lists
    the labels in ascending string order. */
module History {
  import opened Results
  import opened Seqs
  import opened Rounding
  import opened Calendar
  import opened DateText

  /** One daily row of the weather-station data: its day and `tavg`, which may be missing. */
  datatype DailyRecord = DailyRecord(time: Date, tavg: Option<real>)

  /** One row of `df_agg`: the month label and the two rounded averages. */
  datatype MonthRow = MonthRow(month: string, tempCAvg: int, tempFAvg: int)

  predicate ValidRecords(rs: seq<DailyRecord>) {
    forall r :: r in rs ==> IsValidDate(r.time)
  }

  predicate AllObserved(rs: seq<DailyRecord>) {
    forall r :: r in rs ==> r.tavg.Some?
  }

  /** `dropna(subset=['tavg'])`: the records that have an average, in order. */
  function Observed(rs: seq<DailyRecord>): (o: seq<DailyRecord>)
    ensures forall r :: r in o <==> r in rs && r.tavg.Some?
    ensures |o| <= |rs|
  {
    if rs == [] then []
    else
      var n := |rs| - 1;
      assert rs == rs[..n] + [rs[n]];
      Observed(rs[..n]) + (if rs[n].tavg.Some? then [rs[n]] else [])
  }

  /** Dropping keeps every repeat of a record that has an average and none of
      one that has not. */
  lemma {:induction false} ObservedCounts(rs: seq<DailyRecord>, r: DailyRecord)
    ensures Count(Observed(rs), r) == if r.tavg.Some? then Count(rs, r) else 0
  {
    if rs != [] {
      var n := |rs| - 1;
      var p := rs[..n];
      ObservedCounts(p, r);
      assert Count(rs, r) == Count(p, r) + (if rs[n] == r then 1 else 0);
      if rs[n].tavg.Some? {
        assert Observed(rs) == Observed(p) + [rs[n]];
        CountAppend(Observed(p), rs[n], r);
      } else {
        assert Observed(rs) == Observed(p) + [];
        assert Observed(rs) == Observed(p);
        assert rs[n] != r || r.tavg.None?;
      }
    }
  }

  /** The `month` column: the `MM-YYYY` label of every record. */
  function Labels(o: seq<DailyRecord>): (ls: seq<string>)
    requires ValidRecords(o)
    ensures |ls| == |o|
  {
    if o == [] then []
    else
      var n := |o| - 1;
      assert forall r :: r in o[..n] ==> r in o;
      assert o[n] in o;
      Labels(o[..n]) + [MonthLabel(o[n].time)]
  }

  lemma {:induction false} LabelsAt(o: seq<DailyRecord>, i: nat)
    requires ValidRecords(o) && i < |o|
    ensures o[i] in o && Labels(o)[i] == MonthLabel(o[i].time)
  {
    var n := |o| - 1;
    if i < n {
      assert forall r :: r in o[..n] ==> r in o;
      LabelsAt(o[..n], i);
      assert o[..n][i] == o[i];
    }
  }

  /** A label occurs exactly when some record falls in that month. */
  lemma LabelsMembers(o: seq<DailyRecord>, m: string)
    requires ValidRecords(o)
    ensures m in Labels(o) <==> exists r :: r in o && MonthLabel(r.time) == m
  {
    var ls := Labels(o);
    if m in ls {
      var i :| 0 <= i < |ls| && ls[i] == m;
      LabelsAt(o, i);
    }
    if exists r :: r in o && MonthLabel(r.time) == m {
      var r :| r in o && MonthLabel(r.time) == m;
      var i :| 0 <= i < |o| && o[i] == r;
      LabelsAt(o, i);
    }
  }

  /** The `tavg` values of the records labelled `m`, in order: the group that
      `groupby('month')` averages. */
  function ValuesFor(o: seq<DailyRecord>, m: string): (vs: seq<real>)
    requires ValidRecords(o) && AllObserved(o)
    ensures |vs| == Count(Labels(o), m)
  {
    if o == [] then []
    else
      var n := |o| - 1;
      assert forall r :: r in o[..n] ==> r in o;
      assert o[n] in o;
      assert Labels(o)[..n] == Labels(o[..n]);
      ValuesFor(o[..n], m) + (if MonthLabel(o[n].time) == m then [o[n].tavg.value] else [])
  }

  /** The averaged values are exactly the averages of the records of that month. */
  lemma {:induction false} ValuesForMembers(o: seq<DailyRecord>, m: string, x: real)
    requires ValidRecords(o) && AllObserved(o)
    ensures x in ValuesFor(o, m) <==> exists r :: r in o && MonthLabel(r.time) == m && r.tavg == Some(x)
  {
    if o != [] {
      var n := |o| - 1;
      assert forall r :: r in o[..n] ==> r in o;
      assert o[n] in o;
      assert o == o[..n] + [o[n]];
      ValuesForMembers(o[..n], m, x);
    }
  }

  /** Each record's month label beside its `tavg`: one pair per record. */
  function Keyed(o: seq<DailyRecord>): (ks: seq<(string, Option<real>)>)
    requires ValidRecords(o)
    ensures |ks| == |o| && forall i :: 0 <= i < |o| ==> o[i] in o && ks[i] == (MonthLabel(o[i].time), o[i].tavg)
  {
    seq(|o|, i requires 0 <= i < |o| => assert o[i] in o; (MonthLabel(o[i].time), o[i].tavg))
  }

  /** A month's group repeats a value as often as the records of that month
      carry it, so the mean weighs every day. */
  lemma {:induction false} ValuesForCounts(o: seq<DailyRecord>, m: string, x: real)
    requires ValidRecords(o) && AllObserved(o)
    ensures Count(ValuesFor(o, m), x) == Count(Keyed(o), (m, Some(x)))
  {
    if o != [] {
      var n := |o| - 1;
      ValuesForLast(o, m);
      ValuesForCounts(o[..n], m, x);
      KeyedLast(o);
      ValuesForCountsStep(ValuesFor(o[..n], m), MonthLabel(o[n].time), o[n].tavg.value, m, x);
    }
  }

  lemma ValuesForLast(o: seq<DailyRecord>, m: string)
    requires ValidRecords(o) && AllObserved(o) && |o| > 0
    ensures var n := |o| - 1;
      && o[n] in o && ValidRecords(o[..n]) && AllObserved(o[..n])
      && ValuesFor(o, m) == ValuesFor(o[..n], m)
           + (if MonthLabel(o[n].time) == m then [o[n].tavg.value] else [])
  {
    var n := |o| - 1;
    assert forall r :: r in o[..n] ==> r in o;
    assert o[n] in o;
  }

  lemma KeyedLast(o: seq<DailyRecord>)
    requires ValidRecords(o) && |o| > 0
    ensures var n := |o| - 1;
      o[n] in o && (forall r :: r in o[..n] ==> r in o)
      && Keyed(o)[..n] == Keyed(o[..n])
      && Keyed(o)[n] == (MonthLabel(o[n].time), o[n].tavg)
  {
  }

  lemma ValuesForCountsStep(vs: seq<real>, l: string, v: real, m: string, x: real)
    ensures Count(vs + (if l == m then [v] else []), x)
         == Count(vs, x) + (if (l, Some(v)) == (m, Some(x)) then 1 else 0)
  {
    if l == m {
      CountAppend(vs, v, x);
    } else {
      assert vs + [] == vs;
    }
  }

  /** Dropping the records without an average leaves every (label, value)
      pair of a recorded day as often as the input has it. */
  lemma {:induction false} KeyedObservedCounts(rs: seq<DailyRecord>, m: string, x: real)
    requires ValidRecords(rs)
    ensures ValidRecords(Observed(rs))
    ensures Count(Keyed(Observed(rs)), (m, Some(x))) == Count(Keyed(rs), (m, Some(x)))
  {
    ObservedValid(rs);
    if rs != [] {
      var n := |rs| - 1;
      var p, r := rs[..n], rs[n];
      assert rs == p + [r];
      assert r in rs;
      KeyedObservedCounts(p, m, x);
      var k := (MonthLabel(r.time), r.tavg);
      KeyedSnoc(p, r);
      ObservedSnocKeyed(p, r);
      var key := (m, Some(x));
      var kp, ko := Keyed(p), Keyed(Observed(p));
      CountAppend(kp, k, key);
      assert Count(Keyed(rs), key) == Count(kp, key) + (if k == key then 1 else 0);
      if r.tavg.Some? {
        CountAppend(ko, k, key);
        assert Keyed(Observed(rs)) == ko + [k];
      } else {
        assert Keyed(Observed(rs)) == ko + [];
        assert ko + [] == ko;
        assert k != key;
      }
    }
  }

  lemma ObservedSnocKeyed(p: seq<DailyRecord>, r: DailyRecord)
    requires ValidRecords(p) && IsValidDate(r.time)
    ensures ValidRecords(Observed(p)) && ValidRecords(Observed(p + [r]))
    ensures Keyed(Observed(p + [r]))
         == Keyed(Observed(p)) + (if r.tavg.Some? then [(MonthLabel(r.time), r.tavg)] else [])
  {
    assert (p + [r])[..|p|] == p;
    if r.tavg.Some? {
      assert Observed(p + [r]) == Observed(p) + [r];
      KeyedSnoc(Observed(p), r);
    } else {
      assert Observed(p + [r]) == Observed(p);
    }
  }

  lemma ObservedValid(rs: seq<DailyRecord>)
    requires ValidRecords(rs)
    ensures ValidRecords(Observed(rs))
  {
    forall r | r in Observed(rs) ensures IsValidDate(r.time) {
      assert r in rs;
    }
  }

  lemma KeyedSnoc(o: seq<DailyRecord>, r: DailyRecord)
    requires ValidRecords(o) && IsValidDate(r.time)
    ensures ValidRecords(o + [r])
    ensures Keyed(o + [r]) == Keyed(o) + [(MonthLabel(r.time), r.tavg)]
  {
    assert forall q :: q in o + [r] ==> q in o || q == r;
    var o' := o + [r];
    assert forall i :: 0 <= i < |o| ==> o'[i] == o[i];
  }

  /** `* 9/5 + 32`; converting back with `(f - 32) * 5/9` gives the Celsius value. */
  function Fahrenheit(c: real): (f: real)
    ensures (f - 32.0) * 5.0 / 9.0 == c
  {
    c * 9.0 / 5.0 + 32.0
  }

  /** The row of one label: both averages come from the same unrounded mean. */
  function MonthRowFor(o: seq<DailyRecord>, m: string): (row: MonthRow)
    requires ValidRecords(o) && AllObserved(o) && m in Labels(o)
    ensures row.month == m
    ensures |ValuesFor(o, m)| > 0
      && Min(ValuesFor(o, m)) - 0.5 <= row.tempCAvg as real <= Max(ValuesFor(o, m)) + 0.5
  {
    var vs := ValuesFor(o, m);
    MeanBetween(vs);
    var mean := Mean(vs);
    MonthRow(m, RoundHalfEven(mean), RoundHalfEven(Fahrenheit(mean)))
  }

  /** `Main.py` lines 135-140: `df_agg`, one row per month label in ascending label order. */
  function MonthlyAverages(rs: seq<DailyRecord>): (rows: seq<MonthRow>)
    requires ValidRecords(rs)
    ensures forall i :: 0 <= i < |rows| ==> rows[i].month in Labels(Observed(rs))
  {
    var o := Observed(rs);
    var keys := SortedKeys(Labels(o));
    seq(|keys|, i requires 0 <= i < |keys| => assert keys[i] in keys; MonthRowFor(o, keys[i]))
  }

  function Months(rows: seq<MonthRow>): (ms: seq<string>)
    ensures |ms| == |rows| && forall i :: 0 <= i < |rows| ==> ms[i] == rows[i].month
  {
    seq(|rows|, i requires 0 <= i < |rows| => rows[i].month)
  }

  /** One row per month that has at least one recorded average, and no other;
      the labels ascend strictly, so none repeats. */
  lemma MonthlyAveragesMonths(rs: seq<DailyRecord>)
    requires ValidRecords(rs)
    ensures var ms := Months(MonthlyAverages(rs));
      && StrictlySorted(ms)
      && NoDuplicates(ms)
      && forall m :: m in ms <==> exists r :: r in rs && r.tavg.Some? && MonthLabel(r.time) == m
  {
    var o := Observed(rs);
    var keys := SortedKeys(Labels(o));
    var ms := Months(MonthlyAverages(rs));
    assert ms == keys;
    StrictlySortedNoDuplicates(ms);
    forall m ensures m in ms <==> exists r :: r in rs && r.tavg.Some? && MonthLabel(r.time) == m {
      LabelsMembers(o, m);
    }
  }

  /** The row of a label holds the rounded mean of its values, in Celsius and
      in Fahrenheit of the unrounded mean; the group is never empty, and the
      Celsius value lies within half a degree of the group's range. */
  lemma MonthRowForMean(o: seq<DailyRecord>, m: string)
    requires ValidRecords(o) && AllObserved(o) && m in Labels(o)
    ensures var row := MonthRowFor(o, m);
      var vs := ValuesFor(o, m);
      && row.month == m
      && |vs| > 0
      && row.tempCAvg == RoundHalfEven(Mean(vs))
      && row.tempFAvg == RoundHalfEven(Fahrenheit(Mean(vs)))
      && Min(vs) - 0.5 <= row.tempCAvg as real <= Max(vs) + 0.5
  {
    MeanBetween(ValuesFor(o, m));
  }

  /** Row `i` is the row of its label, averaged over exactly the recorded
      days of that month. */
  lemma MonthlyAveragesRow(rs: seq<DailyRecord>, i: nat)
    requires ValidRecords(rs) && i < |MonthlyAverages(rs)|
    ensures var o := Observed(rs);
      var row := MonthlyAverages(rs)[i];
      && ValidRecords(o) && AllObserved(o) && row.month in Labels(o)
      && row == MonthRowFor(o, row.month)
      && (forall x :: x in ValuesFor(o, row.month) <==>
            exists r :: r in rs && MonthLabel(r.time) == row.month && r.tavg == Some(x))
      && (forall x :: Count(ValuesFor(o, row.month), x) == Count(Keyed(rs), (row.month, Some(x))))
  {
    var o := Observed(rs);
    var keys := SortedKeys(Labels(o));
    var row := MonthlyAverages(rs)[i];
    assert keys[i] in keys;
    assert row == MonthRowFor(o, keys[i]);
    forall x ensures x in ValuesFor(o, row.month) <==>
                     exists r :: r in rs && MonthLabel(r.time) == row.month && r.tavg == Some(x) {
      ValuesForMembers(o, row.month, x);
    }
    forall x ensures Count(ValuesFor(o, row.month), x) == Count(Keyed(rs), (row.month, Some(x))) {
      ValuesForCounts(o, row.month, x);
      KeyedObservedCounts(rs, row.month, x);
    }
  }

  /** The table is empty exactly when no day has an average. */
  lemma MonthlyAveragesEmpty(rs: seq<DailyRecord>)
    requires ValidRecords(rs)
    ensures MonthlyAverages(rs) == [] <==> forall r :: r in rs ==> r.tavg.None?
  {
    MonthlyAveragesMonths(rs);
    var ms := Months(MonthlyAverages(rs));
    if !(forall r :: r in rs ==> r.tavg.None?) {
      var r :| r in rs && r.tavg.Some?;
      assert MonthLabel(r.time) in ms;
    }
  }

  /** A July-2025 day of 20.4 C: the Celsius average rounds to 20 and the
      Fahrenheit one (68.72) to 69, while converting the rounded 20 would give 68. */
  lemma FahrenheitFromUnroundedMean()
    ensures var rs := [DailyRecord(Date(2025, 7, 14), Some(20.4)), DailyRecord(Date(2025, 7, 15), None)];
      MonthlyAverages(rs) == [MonthRow("07-2025", 20, 69)]
    ensures RoundHalfEven(Fahrenheit(20.0)) == 68
  {
    var rs := [DailyRecord(Date(2025, 7, 14), Some(20.4)), DailyRecord(Date(2025, 7, 15), None)];
    var o := Observed(rs);
    assert rs[..1] == [rs[0]];
    assert o == [rs[0]];
    var l := MonthLabel(Date(2025, 7, 14));
    Num2OfPad2(7);
    Num4OfPad4(2025);
    assert l == "07-2025";
    assert Labels(o) == [l];
    assert SortedKeys(Labels(o)) == [l];
    assert ValuesFor(o, l) == [20.4];
    assert Mean([20.4]) == 20.4;
    RoundHalfEvenUnique(20.4, 20);
    RoundHalfEvenUnique(Fahrenheit(20.4), 69);
    RoundHalfEvenUnique(Fahrenheit(20.0), 68);
  }

  /** December 2025 and January 2026 come out with January first:
      the label order is the string order, not the calendar order. */
  lemma LabelOrderIsNotChronological()
    ensures var rs := [DailyRecord(Date(2025, 12, 31), Some(10.0)), DailyRecord(Date(2026, 1, 1), Some(8.0))];
      Months(MonthlyAverages(rs)) == ["01-2026", "12-2025"]
  {
    var rs := [DailyRecord(Date(2025, 12, 31), Some(10.0)), DailyRecord(Date(2026, 1, 1), Some(8.0))];
    TurnOfYearLabels(rs);
    TurnOfYearSorted();
  }

  lemma TurnOfYearSorted()
    ensures SortedKeys(["12-2025", "01-2026"]) == ["01-2026", "12-2025"]
  {
    var dec, jan := "12-2025", "01-2026";
    assert [dec, jan][..1] == [dec];
    assert SortedKeys([dec]) == [dec];
    assert LexLess(jan, dec);
  }

  lemma TurnOfYearLabels(rs: seq<DailyRecord>)
    requires rs == [DailyRecord(Date(2025, 12, 31), Some(10.0)), DailyRecord(Date(2026, 1, 1), Some(8.0))]
    ensures ValidRecords(Observed(rs)) && Labels(Observed(rs)) == ["12-2025", "01-2026"]
  {
    TurnOfYearMonthLabels();
    assert rs[..1] == [rs[0]];
    assert Observed(rs[..1]) == [rs[0]];
    var o := Observed(rs);
    assert o == rs;
    assert o[..1] == [rs[0]];
  }

  lemma TurnOfYearMonthLabels()
    ensures MonthLabel(Date(2025, 12, 31)) == "12-2025"
    ensures MonthLabel(Date(2026, 1, 1)) == "01-2026"
  {
  }
}
