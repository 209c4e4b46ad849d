# RSAM pipeline model

A Dafny model of the computational core of `rsamtools.py`, the script that
turns seismic waveforms into RSAM (real-time seismic amplitude
measurement) series. The modelled parts are:

- **Filter-range parsing and file naming.** `--filter-ranges` is cut into
  bound pairs. Each pair is classified as no filter, low-pass, high-pass or
  band-pass by which of its two bounds is non-empty. The class fixes the
  filter and the file-name suffix of the daily files
  (`YYYY.DDD.<stream><suffix>`) and the yearly files
  (`YYYY.<stream><suffix>`). Modules `Text` and `Filters`.
- **The 10-minute reducer.** A merged trace is walked in 600 s steps from
  its start time.
  - A step whose slice holds less than 500 s of data is dropped.
  - A step holding 500 s up to 600 s is replaced by the trace's final 600 s.
  - Any other step uses its own slice.
  - Every kept slice is detrended, filtered, made absolute and averaged.
    The average is divided by 1e-9 when the instrument response was removed.
  - The values go into a 145-slot buffer and are written with a 600 s
    interval and the trace's start time.

  Modules `Timeseries` and `Reducer`.
- **Days, files and the yearly aggregate.** The run reduces
  `num_calculation_days + 1` days counted back from the run date. It writes
  one daily file per day and band. It then rebuilds the yearly file of
  daily means, with -1 standing for a day that has no file. Finally it
  gathers the daily files of the plotted days. Modules `Calendar`, `Store`,
  `Yearly` and `Run`.

Modelling conventions:

- The file tree `./rsam_files/` is a `map<string, Series>` from path to
  file contents. Writing a path replaces whatever was there.
- Time in the reducer is counted in samples from the trace start, with an
  integer number of samples per second. obspy's `Trace.slice` is taken to
  keep the samples at both ends of its interval. An empty trace's end time
  is its start time.
- obspy's filter is a parameter: any function of the band, the sampling
  rate and the samples that keeps the number of samples. The same holds
  for `'%.2f' % float(b)`, a parameter that either rejects the bound as
  `float` would or yields a non-empty string with a minus sign at most in
  front.
- Dates are proleptic Gregorian (year, day of year) pairs. A day is 86400 s,
  as in obspy's `UTCDateTime`.

Notes on the program's behaviour, each shown by a member of the model:

- **A constant signal reduces to zero.** Every window is detrended
  (rsamtools.py:183) before its absolute mean is taken (rsamtools.py:203).
  A day of constant samples therefore gives values that are all 0, not the
  constant (`Reducer.ConstantTraceZero`).
- **Missing data ends the run.** When neither waveform service delivers a
  day, the program exits (rsamtools.py:103-104) instead of skipping that
  stream and day (`Run.ChooseSource` reports `NoDataFound`).
- **One day more than the count.** `range(num_calculation_days + 1)`
  (rsamtools.py:69) reduces one day more than the count. Without
  `--calculate-plot-days` that is the run date and the day before it
  (`Run.WithoutFlagTwoDays`).
- **Band bounds are not compared.** Nothing in rsamtools.py:142-146 checks
  that the lower bound of a band is below its upper bound.
- **The plot skips the run date.** The plot reads the `plot-days - 1` days
  before the run date and never the run date itself (rsamtools.py:342-344,
  `Run.PlotSkipsRunDate`).
- **"None" bounds fail.** The `--filter-ranges` help text
  (rsamtools.py:52-56) says to set a bound to None for no filtering on that
  side. But `"None"` is a non-empty string, so it selects a filter
  (rsamtools.py:130-146), and `float("None")` then fails
  (`Filters.Classify`, error `NotANumber`).

## Model

| member | source | states |
|---|---|---|
| Text.Split | rsamtools.py:116 | `str.split`: at least one piece; the pieces joined with the separator give back the input, and no piece contains the separator |
| Text.RemoveChar | rsamtools.py:118 | `str.replace(c, '')`: the result has no `c` and every other character with its multiplicity |
| Text.RemoveCharSingle | rsamtools.py:118 | a single character is removed when it is `c` and kept otherwise |
| Text.RemoveCharAppend | rsamtools.py:118 | removal distributes over concatenation, so the kept characters stay in their order |
| Text.NatToStringRoundTrip | rsamtools.py:275 | `str(jday)` is read back to the same number |
| Text.Jday3RoundTrip | rsamtools.py:132 | the zero-padded three-digit day of year of `%j` is read back to the same number |
| Filters.Classify | rsamtools.py:130-146 | the four classes are exhaustive and disjoint: none iff both bounds are empty, low-pass iff only the first is set, high-pass iff only the second, band-pass iff both; set bounds are the formatted ones, so every band returned is well formed; failure iff a set bound is rejected by `float`, naming that bound |
| Filters.Bounds | rsamtools.py:118 | the bounds are the bracket-free range cut at commas: at least one bound, none containing a comma, and joined with commas they give back the bracket-free range |
| Filters.ParseRange | rsamtools.py:116-146 | a range with fewer than two bounds fails with `MissingBound` (the progress message indexes `frequency_bounds[1]`); otherwise its first two bounds are classified and any further bounds are ignored |
| Filters.ParseEach | rsamtools.py:117 | ranges are handled in order: success gives one result per piece, each the piece's own result; failure iff some piece fails, and the error reported is that of the first failing piece, every earlier piece succeeding |
| Filters.ParseRanges | rsamtools.py:116-146 | one band per `'],['`-separated piece, each the classification of that piece and well formed; on failure the error is that of the first piece that fails, every earlier piece parsing |
| Filters.Suffix | rsamtools.py:130-146 | every band's file-name suffix begins with a dot and ends with `.rsam` |
| Filters.SuffixRoundTrip | rsamtools.py:130-146 | the file-name suffix determines its band: the class and both formatted bounds are read back from it |
| Filters.SuffixInjective | rsamtools.py:130-146 | two different bands never share a suffix |
| Calendar.NextDay | rsamtools.py:73-75 | the following date is valid and one day later |
| Calendar.PrevDay | rsamtools.py:73-75 | stepping a time back 86400 s gives the previous valid date, undone by `NextDay` |
| Calendar.DaysBack | rsamtools.py:74 | `UTCDateTime(date) - 86400 * n` falls on the valid date `n` days earlier |
| Calendar.OrdinalInjective | rsamtools.py:132 | valid dates with the same day number are the same date |
| Text.IntToStringRoundTrip | rsamtools.py:251 | `str(date.year)` is read back to the same year, negative years included |
| Store.IntToStringInjective | rsamtools.py:251 | `str(year)` tells years apart |
| Calendar.YearJday | rsamtools.py:132 | `%Y.%j`: the year as `str` writes it, a dot and three digits; the year and the day number are read back from the name, and the year part holds no dot |
| Store.YearJdayInjective | rsamtools.py:132 | `%Y.%j` tells dates apart |
| Store.YearJdayPrefix | rsamtools.py:132 | a daily name is read up to its first dot, so it fixes its date whatever stream and band follow |
| Store.DayPath | rsamtools.py:132-148 | the daily file lies in the stream's directory and its name ends with `.<stream><suffix>` |
| Store.YearPath | rsamtools.py:251-266 | the yearly file lies in the stream's directory and its name ends with the same `.<stream><suffix>` |
| Store.DayPathDeterminesCell | rsamtools.py:130-148 | two daily files of well-formed bands share a name only for the same day and the same band |
| Store.DayPathInjective | rsamtools.py:132-148 | two different days never share a daily file |
| Store.DayPathSeparatesBands | rsamtools.py:130-148 | within one day, two bands never share a daily file |
| Store.YearPathNotDayPath | rsamtools.py:251-266 | the yearly file of a year is never one of that year's daily files |
| Store.WriteAt | rsamtools.py:217-234 | a reducer failure writes nothing; success replaces the file at the path and no other, with the trace's start, a 600 s interval, at most 145 values, all nonnegative and equal to the reference `Kept` values |
| Store.WriteDay | rsamtools.py:126-234 | the same, for the daily file named after the day's date, the stream and the band |
| Timeseries.Abs | rsamtools.py:202 | `np.absolute`: same length, every value nonnegative and equal to the sample or its negation |
| Timeseries.MeanNonNegative | rsamtools.py:202-203 | the mean of absolute values is at least zero |
| Timeseries.Detrend | rsamtools.py:183 | `detrend(type='constant')`: the detrended window is the input shifted by one constant and sums to zero, which fixes it |
| Timeseries.DetrendConstant | rsamtools.py:183 | detrending a constant window gives all zeros |
| Reducer.StepStartProduct | rsamtools.py:166-213 | after `k` steps of `t += 600` the window starts `600 k` seconds after the trace start |
| Reducer.NumWindows | rsamtools.py:166-172 | the number of passes of `while t < endtime`: after that many 600 s steps `t` is at or past `endtime`, and after one step fewer it was still before it |
| Reducer.WindowStarts | rsamtools.py:166-172 | the loop visits window `k` exactly when its start is before `endtime` |
| Reducer.DurationAtLeast | rsamtools.py:175-177 | comparing `npts * delta` with a number of seconds is comparing the sample count with that many seconds' worth of samples |
| Reducer.WindowAt | rsamtools.py:172-179 | a kept window is a non-empty range of samples inside the trace with at least 500 s of data |
| Reducer.WindowPolicy | rsamtools.py:174-179 | the window's own slice is exactly the samples in `[t, t + 600]`; under 500 s it is dropped; from 500 s up to 600 s the slice used is exactly the samples in `[endtime - 600, endtime]`; otherwise it is the window's own slice |
| Reducer.AbsMean | rsamtools.py:183-203 | the absolute mean of the detrended, filtered window is at least zero |
| Reducer.WindowMean | rsamtools.py:183-206 | the value is nonnegative; it is the absolute mean unscaled without the response flag and scaled by 10^9 with it; with no filter it is the mean absolute deviation from the window mean |
| Reducer.ConstantWindowZero | rsamtools.py:183-203 | without a filter a constant window has value 0 |
| Reducer.KeptSlices | rsamtools.py:172-211 | at most one slice per visited window, each a non-empty range inside the trace |
| Reducer.KeptPrefix | rsamtools.py:210-211 | later windows only append: the slices of the first `k` windows are a prefix of those of the first `m >= k` |
| Reducer.KeptStep | rsamtools.py:172-213 | one more pass of the loop appends the window's value when the window is kept and nothing when it is dropped |
| Reducer.ValuesOf | rsamtools.py:202-211 | one value per kept slice, in order, each nonnegative |
| Reducer.ConstantTraceZero | rsamtools.py:166-211 | without a filter a constant trace reduces to values that are all 0 |
| Reducer.FullDayKept | rsamtools.py:166-213 | a full day of samples runs the loop 144 times and keeps every window |
| Reducer.FullDayCount | rsamtools.py:126-213 | a full day reduces to 144 values, which fit the 145-slot buffer |
| Reducer.ReduceTrace | rsamtools.py:126-229 | success iff the kept windows fit 145 slots; on success the series has the trace's start time, a 600 s interval and exactly the kept windows' values in window order |
| Yearly.DailyMeans | rsamtools.py:274-301 | one entry per path: -1 when the file is absent, the mean of its values when present; fails iff a present file is empty, naming it |
| Yearly.DailyMeansLocal | rsamtools.py:274-301 | files at other paths, written or deleted, do not change the daily means |
| Yearly.FirstPresent | rsamtools.py:289-290 | the first present path and none before it; none iff no path is present |
| Yearly.AsWrittenDayPath | rsamtools.py:275 | the name the yearly reader looks for lies in the stream's directory and ends with `.<stream><suffix>` |
| Yearly.FirstPresentLocal | rsamtools.py:274-290 | files at other paths do not move the first present file |
| Yearly.YearlyAsWritten | rsamtools.py:272-329 | as written: `day-of-year + 1` entries at 86400 s, entry `j` being -1 or the mean of the file named with unpadded day number `j`; start time from the first present file; success iff some such file exists and none of them is empty; `NoDataAvailable` iff no such file exists; `EmptyDayFile` names a present, empty file |
| Yearly.AsWrittenNames | rsamtools.py:132-275 | the unpadded name of day number `j` is a daily file's name only for that very day and only when `j >= 100` |
| Yearly.AsWrittenMissesPaddedDay | rsamtools.py:132-275 | for day numbers below 100 the reader's name is never a daily file's name |
| Yearly.AsWrittenFindsLateDay | rsamtools.py:132-275 | from day 100 on the reader's name is the daily file's name |
| Yearly.AsWrittenFindsNothing | rsamtools.py:132-290 | with only the daily file of a day numbered below 100, the aggregation as written finds no file |
| Yearly.AsWrittenFindsOnlyLateDay | rsamtools.py:132-275 | with only the daily file of a day numbered 100 or more, the reader finds that day's file and no other |
| Yearly.AsWrittenLosesEarlyDays | rsamtools.py:274-301 | with only the daily file of a day numbered below 100, the aggregation as written finds nothing, while the corrected one reports the day's mean |
| Yearly.AsWrittenMisdatesEntries | rsamtools.py:274-316 | with only the daily file of a day `j >= 100`, the aggregation as written timestamps that day's mean `j` days after the day's own start |
| Yearly.Yearly | rsamtools.py:272-316 | corrected: one entry per day 1 up to the date at 86400 s from midnight on 1 January; entry `j - 1` is -1 when the file of day `j` is absent and its mean when present; success iff no daily file of the year is empty, and failure only on an empty daily file |
| Yearly.YearlyEntriesAligned | rsamtools.py:289-316 | entry `j - 1` of the corrected series is timestamped at midnight of day `j` |
| Yearly.CorrectedDatesEntries | rsamtools.py:314-316 | on the same single-file input the corrected series holds the mean at the day's own midnight |
| Yearly.SentinelExactlyWhenAbsent | rsamtools.py:294-301 | when daily files hold nonnegative values, as the reducer writes them, an entry is -1 exactly when its day has no file |
| Yearly.Replace | rsamtools.py:303-329 | `unlink` then a fresh write: the file at the path holds the new series and every other file is as it was |
| Yearly.Regenerate | rsamtools.py:303-329 | with the corrected aggregate: success iff the aggregation succeeds; the yearly file is replaced by the new aggregate and every other file is left alone |
| Yearly.YearlyLocal | rsamtools.py:303-306 | the corrected aggregate does not depend on the yearly file, whether present, replaced or removed |
| Yearly.RegenerateIgnoresOldYearly | rsamtools.py:303-306 | with the corrected aggregate, regenerating gives the same store whatever yearly file was there before, or none |
| Yearly.RegenerateIdempotent | rsamtools.py:303-329 | with the corrected aggregate, regenerating twice gives what regenerating once gave |
| Yearly.RegenerateAsWritten | rsamtools.py:272-329 | as the program does it, with the aggregate as written: when it succeeds the yearly file is replaced by it; when no daily file is found the yearly file is deleted and nothing is written; when a daily file is empty nothing changes; every other file is left alone in all cases |
| Yearly.AsWrittenNotYearPath | rsamtools.py:266-275 | a name the reader looks for is never the yearly file's name, being longer by the day number and a dot |
| Yearly.YearPathNotReadAsWritten | rsamtools.py:266-275 | the aggregation as written never reads the yearly file |
| Yearly.YearlyAsWrittenLocal | rsamtools.py:272-306 | the aggregate as written does not depend on the yearly file, whether present, replaced or removed |
| Yearly.RegenerateAsWrittenIdempotent | rsamtools.py:272-329 | running the program's yearly rewrite twice gives the files and the outcome that running it once gave, whether or not it wrote an aggregate |
| Run.CalculationDays | rsamtools.py:63-75 | `max(0, num_calculation_days + 1)` days; day `n` is the valid date `n` days before the run date and spans the 86400 s from its own midnight |
| Run.DaysTileBackwards | rsamtools.py:73-75 | each day ends where the previous one in the list starts, on the following date |
| Run.CalculationDaysDistinct | rsamtools.py:69-74 | the days of a run have distinct dates |
| Run.DaysWriteDistinctFiles | rsamtools.py:69-148 | different days of a run never write the same daily file |
| Run.WithoutFlagTwoDays | rsamtools.py:63-69 | without the flag the run reduces exactly the run date and the day before |
| Run.ChooseSource | rsamtools.py:79-106 | non-NZ streams fail; an NZ stream uses the near-real-time answer iff it starts at most 600 s after the request, and otherwise the archive if it delivers; no data iff neither applies or the stream lacks four parts |
| Run.NrtPreferred | rsamtools.py:80-92 | an accepted near-real-time answer is used whatever the archive holds; a late one counts as no answer |
| Run.PathGridCells | rsamtools.py:132-148 | the grid of daily paths covers exactly the daily files of the pass's days and bands |
| Run.PathGridAgrees | rsamtools.py:130-148 | with distinct dates and well-formed bands, two cells of the grid share a path only within one day and for the same band |
| Run.WriteRow | rsamtools.py:116-234 | one day's bands in order: files outside the grid stay untouched, every change is a daily file at a grid path, and on success the day's cells hold the series its trace reduces to under each band |
| Run.WriteGrid | rsamtools.py:69-234 | files outside the grid are untouched; every changed file is a daily file (600 s interval, at most 145 nonnegative values) at a grid path; on success the cell of row `j` and band `m` holds the series that row's trace reduces to under that band |
| Run.DailyPass | rsamtools.py:69-234 | for every day and band of one stream: other files untouched, every change a daily file of the pass; on success the daily file of day `i` and band `m` holds the trace of day `i` reduced under band `m`: its start time, a 600 s interval and the kept windows' values |
| Run.PlotDates | rsamtools.py:342-344 | `max(0, plot-days - 1)` valid dates, the `i`-th being `plot-days - 1 - i` days before the run date |
| Run.PlotDatesConsecutive | rsamtools.py:342-344 | plot dates are consecutive, oldest first, all before the run date |
| Run.PlotSkipsRunDate | rsamtools.py:342-384 | the plot never reads the run date's own file |
| Run.PlotDatesCalculated | rsamtools.py:63-69 | with the flag every plotted date is one of the run's reduced days |
| Run.PresentFiles | rsamtools.py:358-384 | the existing files among the plot paths, in order: exactly those paths present in the store |
| Run.PlotRead | rsamtools.py:357-389 | fails iff no plot path has a file; otherwise one series per existing file, each that file's contents, in date order |

## Left out

- Waveform retrieval from the FDSN services (network I/O). Only the choice between the near-real-time service, the archive and giving up is modelled, with the services' answers as parameters.
- `st.remove_sensitivity()` and `st.merge(fill_value='interpolate')` (obspy internals). The reducer receives the merged trace, and the plot read returns the gathered daily series without merging them.
- obspy's Butterworth filters (foreign code). The filter is a parameter that receives the band and the sampling rate and keeps the number of samples.
- `'%.2f' % float(b)` (floating-point formatting). It is a parameter that yields the formatted bound or rejects the input.
- miniSEED encoding, record length, station metadata and data-quality flags (file I/O). A file is its start time, interval and values.
- `os.makedirs`, `os.path.isfile` and `os.unlink`. Directory creation has no effect on the path-to-contents map, and presence is map membership.
- Argument parsing, `strptime` and `int(args.plot_days)`. The date, the day count and the flags are parameters.
- Progress printing. Its one visible effect, the `IndexError` on a range with fewer than two bounds, is modelled as `MissingBound`.
- `sys.exit`. A run that finds no data stops with `NoDataFound`; the rest of the run is not sequenced after it.
- Sub-second start times. Trace start times are whole seconds, and sample times are whole ticks of `1 / sps` seconds.
- Floating-point rounding. Values are Dafny reals.
- Python's `datetime` year range (1 to 9999) and the platform-dependent padding of `%Y` below year 1000. Years are unbounded integers written as `str` writes them.
- `Yearly.DailyMeans`: numpy's `mean()` of an empty daily file is NaN, which reals cannot express, so an empty file is an `EmptyDayFile` error instead.
- `Yearly.YearlyAsWritten`: when no daily file is found, the program builds the yearly header from a stale trace and a `None` start time, whose outcome depends on obspy. It is modelled as `NoDataAvailable`; `Yearly.RegenerateAsWritten` deletes the old yearly file first (rsamtools.py:305-306) and writes nothing.
- Yearly.RegenerateAsWritten: where the program would write NaN for an empty daily file, the model stops with `EmptyDayFile` before the deletion, leaving every file as it was.
- The iteration over several streams. `Run.DailyPass` covers one stream, with the run's days and bands. Streams write to separate directories.
- Run.DailyPass: on failure it states which files may have changed, not which windows were written before the failing one.
- Run.DailyPass: the run's days have distinct dates (`Run.CalculationDaysDistinct`) and its bands come from parsing (`Filters.ParseRanges`), so the pass requires both. A band listed twice writes the same file twice with the same contents.
- Filters.ParseRanges: the program classifies each range inside the loop over days and streams (rsamtools.py:116-146). A bad later range therefore stops the run only after the earlier bands' daily files of the first day are written. The model parses every range before the daily pass.
- Yearly.Regenerate: models the rewrite with the corrected aggregate; the program's own rewrite is `Yearly.RegenerateAsWritten`.
- Plotting: figure layout, ticks, trigger-level zones and legends in `rsamtools.py:331-505`, and all of `rsam_plot.py` (presentation only).

## Findings

| source | as written | input that shows it | evidently intended | confidence | as-written member | corrected member |
|---|---|---|---|---|---|---|
| rsamtools.py:275 | the yearly reader names day files with `str(jday)`, unpadded, while the daily writer (rsamtools.py:132) uses the zero-padded `%j` | the only daily file of 2020 is that of 14 February (`2020.045...`); the reader looks for `2020.45...` and finds no file | read the same zero-padded names the writer produces, so days 1-99 are found | not executed | Yearly.AsWrittenLosesEarlyDays | Yearly.Yearly |
| rsamtools.py:274-290 | entries run over day numbers 0 up to the date, and the series starts at the first present file's start time, so entry `j` is timestamped `j` days after that file | the only daily file of 2020 is that of day 150, starting at its midnight; its mean is entry 150, timestamped 150 days after that midnight | entry for day `j` timestamped at midnight of day `j` | not executed | Yearly.AsWrittenMisdatesEntries | Yearly.Yearly |
