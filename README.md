# Weather dashboard core, modelled in Dafny

The dashboard is a single Streamlit script, `Main.py`. It picks a location,
fetches the current weather and a 5-day forecast, and shows a daily forecast
table and a table of monthly historic averages. This project models the parts
of the script that compute something:

- **Location precedence** (`Location`). A map click wins over a typed city
  name. A typed name is geocoded and the first place found is used. An empty
  geocoding answer stops with "Location Not Found". With neither a click nor a
  name, the script stops with a prompt.
- **Local date and time** (`Calendar`, `LocalClock`, `DateText`). The current
  observation's Unix time plus the location's UTC offset is shown as
  `%d/%m/%Y` and `%H:%M`. The calendar is the proleptic Gregorian day count
  that Python's `date` uses, with POSIX seconds (section 4.16 of the POSIX.1-2017
  Base Definitions: no leap seconds).
- **`dt_txt` parsing and date text** (`DateText`). `strptime` with
  `%Y-%m-%d %H:%M:%S`, each of its error cases, and the `%d/%m/%Y` and
  `%m-%Y` renderings.
- **The daily forecast table** (`Forecast`, `Seqs`, `Rounding`). The first loop
  puts each entry into the insertion-ordered `defaultdict` under the date of
  its `dt_txt`. The second loop reduces each bucket to one row:
  - the rounded lowest `temp_min` and highest `temp_max`;
  - `int(round(mean * 3.6, 1))` of the wind speeds;
  - the `Counter.most_common(1)` value of the weather labels, and separately of the icons.

  Both loops are imperative methods proved equal to a functional
  specification, `DailySummary`.
- **Historic monthly averages** (`History`). Days without `tavg` are dropped.
  Days are grouped by their `MM-YYYY` label, and groups come out in pandas'
  sorted-key order. Each group yields the mean in Celsius, and the Fahrenheit
  value of that unrounded mean. Both are rounded half to even.

Numbers are exact: temperatures and speeds are `real`. Python's `round` is
`Rounding.RoundHalfEven`, `int()` on a float is `Rounding.Truncate`, and
`round(x, 1)` is `Rounding.RoundTenth`.

`Counter.most_common(1)` lists elements with equal counts in first-insertion
order. Its result is therefore the most frequent value, and among tied values
the one seen first: `Seqs.IsStableMode`, which `Seqs.ModeIsStable` proves of
`Seqs.Mode`.

The forecast wind column follows the code, not the obvious reading "round the
km/h". `int(round(x, 1))` truncates after rounding to a tenth, so 2.75 m/s
(9.9 km/h) shows 9. The current-weather wind field uses `int(round(x))` and would
show 10; `Forecast.WindKphTruncates` states this.

## Model

| member | source | states |
|---|---|---|
| Location.ResolveLocation | Main.py:34-53 | a map click is used exactly when there is one; the prompt stop happens exactly when there is no click and no name; "not found" happens exactly when there is no click, a non-empty name and an empty geocoding answer; a located result is the click or the first geocoded place |
| Location.ClickWins | Main.py:36-39 | with a click, neither the typed name nor the geocoder changes the outcome |
| Location.GeocodeOnlyForTypedCity | Main.py:40-49 | the geocoder is consulted only for a non-empty name when there is no click |
| Location.LocatedExactly | Main.py:36-53 | the run continues exactly when there is a click, or a name the geocoder finds |
| Calendar.EpochOrdinalIsJanuaryFirst1970 | Main.py:86 | 1970-01-01 is day 719163 of the day count that starts at 0001-01-01 = 1 |
| Calendar.DaysBeforeYearCycle | Main.py:86-87 | every 400 years hold 146097 days |
| Calendar.FromOrdinal | Main.py:86-87 | every day number maps to a calendar date whose day number it is |
| Calendar.OrdinalInjective | Main.py:86-87 | distinct calendar dates have distinct day numbers |
| Calendar.FromOrdinalOfOrdinal | Main.py:86-87 | converting a date to its day number and back gives the date |
| LocalClock.DateTimeAt | Main.py:86 | every Unix time maps to a calendar date and an in-range time of day whose epoch seconds are that time |
| LocalClock.EpochSecondsInjective | Main.py:86 | a date and in-range time of day are determined by their epoch seconds |
| LocalClock.LocalDateTime | Main.py:84-87 | succeeds exactly when both the UTC and the shifted instant fall in years 1-9999; the result is a valid date-time whose epoch seconds are UTC seconds plus the offset |
| LocalClock.LocalDateTimeUnique | Main.py:84-87 | any valid date-time with epoch seconds UTC plus offset is the one returned |
| LocalClock.CurrentLocalFields | Main.py:102-103 | `Local_Date` is `DD/MM/YYYY` and `Local_Time` is `HH:MM`, and their digits spell the local day, month, year, hour and minute; it fails exactly when the conversion fails |
| DateText.ParseDtTxt | Main.py:109 | an accepted `dt_txt` yields a valid date with hour 0-23, minute 0-59 and second 0-59; text without the `YYYY-MM-DD HH:MM:SS` shape is a format error |
| DateText.FormatOfParse | Main.py:109 | only canonical text is accepted: an accepted string is the exact text of its parsed value |
| DateText.ParseOfFormat | Main.py:109 | every valid date-time survives formatting and parsing unchanged |
| DateText.DtTxtDate | Main.py:109 | the grouping key is always a valid date |
| DateText.DtTxtDateIsDatePart | Main.py:109 | the key fails exactly when the parse fails, with the same error, and otherwise its fields spell the first ten characters of the text |
| DateText.FormatDate | Main.py:121 | `strftime('%d/%m/%Y')` is ten characters; what the text spells is stated by `DateText.FormatDateFields` |
| DateText.FormatDateFields | Main.py:121 | `strftime('%d/%m/%Y')` has slashes at positions 2 and 5, and its digit fields read back as the day, month and year |
| DateText.FormatDateInjective | Main.py:121 | different dates never show the same `DD/MM/YYYY` text |
| DateText.FormatClock | Main.py:103 | `%H:%M` is five characters with a colon in the middle, and its fields read back as the hour and minute |
| DateText.MonthLabel | Main.py:136 | `%m-%Y` is seven characters with a dash at position 2, and its fields read back as the month and year |
| DateText.MonthLabelSame | Main.py:136 | two dates share a label exactly when they share month and year |
| Rounding.RoundHalfEven | Main.py:122-123 | the result is within one half of its argument, and an exact half goes to the even neighbour |
| Rounding.RoundHalfEvenUnique | Main.py:140 | only one integer meets that description |
| Rounding.Truncate | Main.py:124 | `int()` moves toward zero by less than one |
| Rounding.RoundTenth | Main.py:124 | `round(x, 1)` is a multiple of one tenth within 0.05 of `x`, and an exact tie goes to the even number of tenths |
| Rounding.RoundTenthUnique | Main.py:124 | only one multiple of one tenth meets that description |
| Rounding.RoundTenthTies | Main.py:124 | 0.25 rounds to 0.2 and 0.35 to 0.4 |
| Seqs.Distinct | Main.py:107-113 | the keys of the `defaultdict`: no repeats, exactly the input's values, ordered by first occurrence |
| Seqs.Min | Main.py:122 | `min` of a non-empty list is one of its elements and no element is below it |
| Seqs.Max | Main.py:123 | `max` of a non-empty list is one of its elements and no element is above it |
| Seqs.Mode | Main.py:125-126 | `most_common(1)[0][0]` is an element of the list whose count no element exceeds; the first-seen tie rule is stated by `Seqs.ModeIsStable` |
| Seqs.LeftmostMostFrequentIsBest | Main.py:125-126 | the chosen candidate has the highest count, and is the leftmost candidate with that count |
| Seqs.ModeIsStable | Main.py:125-126 | `most_common(1)[0][0]` is an element of the list with the highest count, seen no later than any other element with that count |
| Seqs.StableModeUnique | Main.py:125-126 | that description fixes the value |
| Seqs.Mean | Main.py:124 | `sum(..) / len(..)` of a non-empty list (also the `'mean'` aggregation of Main.py:138): the mean times the length is the sum; its range is stated by `Seqs.MeanBetween` |
| Seqs.MeanBetween | Main.py:124 | a mean lies between the smallest and the largest value |
| Seqs.SortedKeys | Main.py:138 | `groupby`'s key order: strictly ascending in string order, with exactly the labels present |
| Seqs.LexLessTotal | Main.py:138 | string order compares any two different labels |
| Forecast.EntryDates | Main.py:108-109 | one valid date per entry when every `dt_txt` parses |
| Forecast.EntryDatesFirstError | Main.py:108-109 | on failure, the error is that of the first entry whose `dt_txt` does not parse, and every earlier one parses |
| Forecast.EntryDatesAt | Main.py:109 | each entry's key is the date of its own `dt_txt` |
| Forecast.Bucket | Main.py:107-110 | a date's list holds as many entries as there are entries of that date |
| Forecast.BucketMembers | Main.py:107-110 | a date's list holds exactly the entries whose key is that date |
| Forecast.BucketCounts | Main.py:107-110 | a date's list holds each entry exactly as many times as the input holds that entry under that date, so repeated readings keep their weight in the mean and the modes |
| Forecast.BucketsPartition | Main.py:107-110 | the list sizes of all keys add up to the number of entries |
| Forecast.ForecastBuckets | Main.py:107-110 | every entry is in the list of its own date and no other, as many times as it occurs under that date; together the lists hold all the entries |
| Forecast.BucketByDate | Main.py:107-110 | the first loop fails exactly when a `dt_txt` fails, with that error; otherwise the key order is the first-seen order of the dates, the keys are exactly the dates present, and each list is that date's bucket |
| Forecast.TempMins | Main.py:114 | one `temp_min` per item of the list, in item order |
| Forecast.TempMaxs | Main.py:115 | one `temp_max` per item of the list, in item order |
| Forecast.WindSpeeds | Main.py:116 | one wind speed per item of the list, in item order |
| Forecast.WeatherLabels | Main.py:117 | one weather label per item of the list, in item order |
| Forecast.Icons | Main.py:118 | one icon per item of the list, in item order |
| Forecast.WindKph | Main.py:116-124 | a non-negative mean gives a non-negative km/h value no more than 0.05 above, and less than 1.05 below, the exact mean times 3.6 |
| Forecast.WindKphAgainstNearest | Main.py:124 | the shown wind is the nearest integer or one below it |
| Forecast.WindKphTruncates | Main.py:124 | 2.75 m/s shows 9 km/h, where rounding to an integer would show 10 |
| Forecast.Reduce | Main.py:113-127 | a row's minimum is within half a degree below every `temp_min` of its list, its maximum within half a degree above every `temp_max`, and its label and icon occur in the list; the full row is stated by `Forecast.ReduceRow` |
| Forecast.ReduceRow | Main.py:114-126 | a row holds the key's `DD/MM/YYYY`; the rounded `temp_min` of a member no other member is below; the rounded `temp_max` of a member no other member is above; the converted mean wind; and the stable modes of the labels and of the icons, each taken on its own |
| Forecast.BucketExtremes | Main.py:114-115 | the lowest `temp_min` and highest `temp_max` of a date's list belong to entries of that date that bound every other entry of that date |
| Forecast.ReduceExampleDay | Main.py:114-126 | lows 10, 12, 9, highs 18, 20, 19, winds 2, 3, 2.5 and labels Rain, Rain, Clouds give 9, 20, 9 km/h and Rain |
| Forecast.ReduceBuckets | Main.py:112-128 | the second loop builds one reduced row per key, in key order |
| Forecast.DailySummary | Main.py:106-128 | the table fails exactly when some `dt_txt` fails, with that error |
| Forecast.SummarizeForecast | Main.py:106-128 | the two loops compute exactly `DailySummary` |
| Forecast.ForecastDateColumn | Main.py:107-121 | the `Date` column is the entries' displayed dates with repeats removed, in first-seen order |
| Forecast.ForecastRow | Main.py:113-127 | each row belongs to one entry date: its minimum and maximum come from entries of that date that bound all the others, and its label and icon are stable modes of that date's list |
| History.Observed | Main.py:135 | `dropna`: the kept records are exactly the records that have a `tavg` |
| History.ObservedCounts | Main.py:135 | `dropna` keeps every repeat of a record that has a `tavg` and no copy of one that has not |
| History.Labels | Main.py:136 | the `month` column has one label per kept record |
| History.LabelsAt | Main.py:136 | each record's label, at its own position, is the `MM-YYYY` text of its own date |
| History.LabelsMembers | Main.py:136 | a month label occurs exactly when some kept record falls in that month |
| History.ValuesFor | Main.py:138 | a month's group has one value per kept record of that month |
| History.ValuesForMembers | Main.py:138 | a month's values are exactly the `tavg` values of that month's records |
| History.ValuesForCounts | Main.py:138 | a month's group holds each value as many times as the kept records of that month carry it |
| History.KeyedObservedCounts | Main.py:135-136 | dropping the days without `tavg` keeps every (month label, value) pair of a recorded day as many times as the input has it |
| History.Fahrenheit | Main.py:139 | converting the result back with `(f - 32) * 5/9` gives the Celsius input, so no precision is lost before rounding |
| History.MonthRowFor | Main.py:138-140 | a row carries its label, and its Celsius value lies within half a degree of the group's range; the rest is stated by `History.MonthRowForMean` |
| History.MonthlyAverages | Main.py:135-140 | every row's label is a label of a kept record |
| History.MonthlyAveragesMonths | Main.py:136-138 | the labels strictly ascend in string order, have no repeats, and are exactly the months that have at least one recorded `tavg` |
| History.MonthRowForMean | Main.py:138-140 | a group is never empty; its Celsius value is the rounded mean and its Fahrenheit value is the rounded Fahrenheit of the unrounded mean; the Celsius value is within half a degree of the group's range |
| History.MonthlyAveragesRow | Main.py:135-140 | each row is the row of its label; its group holds exactly the recorded `tavg` values of that month in the input, each as many times as the input has it |
| History.MonthlyAveragesEmpty | Main.py:135-138 | the table is empty exactly when no day has a `tavg` |
| History.FahrenheitFromUnroundedMean | Main.py:139-140 | a month averaging 20.4 C shows 20 C and 69 F, while converting the rounded 20 C would give 68 F |
| History.LabelOrderIsNotChronological | Main.py:136-138 | December 2025 and January 2026 are listed as "01-2026" before "12-2025" |

## Left out

- Streamlit page, text input, messages and tables, and the folium map (Main.py:19-31, 143-151): user interface only.
- HTTP requests, `raise_for_status`, status-code checks and JSON decoding (Main.py:41-44, 56-80): network I/O. Their results are arguments: the click as an `Option`, the geocoder as a function from the name to the places found, the forecast entries as a list, the observation's `dt` and `timezone` as integers.
- The forecast request itself. `forecast_metric_post` (Main.py:108) is never assigned, because no request is sent to `forecast_url` (Main.py:16). The script as written stops with a `NameError` at line 108. The model takes the parsed forecast list as an argument.
- The current-weather fields other than the local date and time (Main.py:90-101), which copy response fields, with `int(round(..))` where the rounding is `Rounding.RoundHalfEven`.
- The weather-station fetch and `datetime.now()` (Main.py:131-134): an external data source and the wall clock. The daily records are an argument, and the 365-day window is not modelled.
- A station answer with no `tavg` column, which makes `dropna` raise; and `st_folium` data without `lat`/`lng`.
- The environment-variable API key (Main.py:13).
- IEEE-754 effects in means, `* 3.6` and `* 9/5`: all arithmetic is on exact reals. A mean whose float value lands just below a rounding boundary can display differently from the exact result.
- ParseDtTxt: accepts only the canonical zero-padded form with a single space. `strptime` also accepts fields with fewer digits, such as `2025-7-4 9:00:00`, non-ASCII digits, and any run of whitespace where the format has its space, such as two spaces or a tab in `2025-07-04  09:00:00`; those inputs are rejected here.
- FormatDate: always writes a four-digit year, which matches CPython for the years 1000-9999 that forecast and station data use. How `%Y` is padded below year 1000 depends on the platform and is not modelled.
- MonthLabel: the same four-digit assumption as FormatDate.
- LocalDateTime: fails only outside years 1-9999. Platform limits of `fromtimestamp` (for example a C `time_t` range) are not modelled.
- Location.ResolveLocation: the geocoder's failure modes (HTTP errors, malformed JSON) are not modelled; only its list of places is.
