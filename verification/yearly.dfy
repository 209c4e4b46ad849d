/** The yearly file of one stream and band: one daily mean per day of the
    year up to the run date, with -1 standing for a day whose daily file
    does not exist, written at a fixed 86400 s interval. Two readings are
    modelled: the aggregation as the program writes it (reading
    `YYYY.<jday>` with an unpadded day number, for day numbers 0 up to the
    date, timestamped from the first file it finds) and the corrected one
    (reading the zero-padded names the daily writer produces, for days 1 up
    to the date, timestamped from 1 January). */
module Yearly {
  import opened Wrappers
  import opened Text
  import opened Timeseries
  import opened Filters
  import opened Calendar
  import opened Store

  /** The value standing for a day without a daily file. */
  const Missing: real := -1.0

  datatype AggError =
    | NoDataAvailable             // no daily file of the year was found, so there is no start time
    | EmptyDayFile(path: string)  // a daily file holds no values, so it has no mean

  /** The daily means of the files at `paths`, in order: `Missing` for an
      absent file, the mean of its values otherwise. */
  function DailyMeans(store: Store, paths: seq<string>): (r: Result<seq<real>, AggError>)
    ensures r.Success? <==> forall i :: 0 <= i < |paths| && paths[i] in store ==> |store[paths[i]].values| > 0
    ensures r.Success? ==> |r.value| == |paths|
    ensures r.Success? ==> forall i :: 0 <= i < |paths| && paths[i] in store ==>
                             |store[paths[i]].values| > 0 && r.value[i] == Mean(store[paths[i]].values)
    ensures r.Success? ==> forall i :: 0 <= i < |paths| && paths[i] !in store ==> r.value[i] == Missing
    ensures r.Failure? ==> r.error.EmptyDayFile? && r.error.path in paths
                           && r.error.path in store && |store[r.error.path].values| == 0
  {
    if |paths| == 0 then Success([])
    else
      var p := paths[0];
      if p in store && |store[p].values| == 0 then Failure(EmptyDayFile(p))
      else
        match DailyMeans(store, paths[1..])
        case Failure(e) => Failure(e)
        case Success(rest) => Success([if p in store then Mean(store[p].values) else Missing] + rest)
  }

  /** Files other than those at `paths` do not affect the daily means. */
  lemma {:induction false} DailyMeansLocal(store: Store, paths: seq<string>, k: string, s: Series)
    requires k !in paths
    ensures DailyMeans(store[k := s], paths) == DailyMeans(store, paths)
    ensures DailyMeans(store - {k}, paths) == DailyMeans(store, paths)
  {
    if |paths| > 0 {
      DailyMeansLocal(store, paths[1..], k, s);
    }
  }

  /** The position of the first present file, if any. */
  function FirstPresent(store: Store, paths: seq<string>): (r: Option<nat>)
    ensures r.Some? ==> r.value < |paths| && paths[r.value] in store
    ensures r.Some? ==> forall j :: 0 <= j < r.value ==> paths[j] !in store
    ensures r.None? <==> forall j :: 0 <= j < |paths| ==> paths[j] !in store
  {
    if |paths| == 0 then None
    else if paths[0] in store then Some(0)
    else
      match FirstPresent(store, paths[1..])
      case None => None
      case Some(k) => Some(k + 1)
  }

  // ---------------------------------------------------------------------
  // The aggregation as written

  /** The path the aggregation looks for: the day number as `str` writes
      it, without zero padding. */
  function AsWrittenDayPath(year: int, jday: nat, stream: string, spec: FilterSpec): (r: string)
    ensures StartsWith(r, StreamDir(stream) + "/") && EndsWith(r, RsamSuffix(stream, spec))
  {
    StreamDir(stream) + "/" + (IntToString(year) + "." + NatToString(jday)) + RsamSuffix(stream, spec)
  }

  /** One path per day number 0 up to and including the date's. */
  function AsWrittenPaths(date: Date, stream: string, spec: FilterSpec): (paths: seq<string>)
    requires Valid(date)
    ensures |paths| == date.jday + 1
    ensures forall j :: 0 <= j <= date.jday ==> paths[j] == AsWrittenDayPath(date.year, j, stream, spec)
  {
    seq(date.jday + 1, j requires 0 <= j => AsWrittenDayPath(date.year, j, stream, spec))
  }

  function YearlyAsWritten(store: Store, date: Date, stream: string, spec: FilterSpec): (r: Result<Series, AggError>)
    requires Valid(date)
    ensures r.Success? ==> r.value.delta == DaySeconds && |r.value.values| == date.jday + 1
    ensures r.Success? ==> forall j :: 0 <= j <= date.jday && AsWrittenDayPath(date.year, j, stream, spec) in store ==>
                             |store[AsWrittenDayPath(date.year, j, stream, spec)].values| > 0
                             && r.value.values[j] == Mean(store[AsWrittenDayPath(date.year, j, stream, spec)].values)
    ensures r.Success? ==> forall j :: 0 <= j <= date.jday && AsWrittenDayPath(date.year, j, stream, spec) !in store ==>
                             r.value.values[j] == Missing
    ensures r.Success? ==> exists j :: 0 <= j <= date.jday && AsWrittenDayPath(date.year, j, stream, spec) in store
                             && r.value.start == store[AsWrittenDayPath(date.year, j, stream, spec)].start
                             && forall i :: 0 <= i < j ==> AsWrittenDayPath(date.year, i, stream, spec) !in store
    ensures r == Failure(NoDataAvailable) <==> forall j :: 0 <= j <= date.jday ==> AsWrittenDayPath(date.year, j, stream, spec) !in store
    ensures r.Success? <==> (exists j :: 0 <= j <= date.jday && AsWrittenDayPath(date.year, j, stream, spec) in store)
                            && forall j :: 0 <= j <= date.jday && AsWrittenDayPath(date.year, j, stream, spec) in store ==>
                                 |store[AsWrittenDayPath(date.year, j, stream, spec)].values| > 0
    ensures r.Failure? && r.error.EmptyDayFile? ==> r.error.path in store && |store[r.error.path].values| == 0
  {
    var paths := AsWrittenPaths(date, stream, spec);
    match DailyMeans(store, paths)
    case Failure(e) => Failure(e)
    case Success(means) =>
      match FirstPresent(store, paths)
      case None => Failure(NoDataAvailable)
      case Some(k) => Success(Series(store[paths[k]].start, DaySeconds, means))
  }

  /** The unpadded name of a day number below 100 is never the name of any
      daily file, whatever its date: the dot before the day number falls
      among the three digits `%j` writes. */
  lemma AsWrittenMissesPaddedDay(year: int, jday: nat, d: Date, stream: string, spec: FilterSpec)
    requires Valid(d) && jday < 100
    ensures AsWrittenDayPath(year, jday, stream, spec) != DayPath(d, stream, spec)
  {
    AsWrittenNames(year, jday, d, stream, spec);
  }

  /** From day 100 on the two names agree. */
  lemma AsWrittenFindsLateDay(d: Date, stream: string, spec: FilterSpec)
    requires Valid(d) && d.jday >= 100
    ensures AsWrittenDayPath(d.year, d.jday, stream, spec) == DayPath(d, stream, spec)
  {
  }

  /** The unpadded name of day number `jday` is the name of a daily file
      only when it is that very day and the day number has three digits. */
  lemma AsWrittenNames(year: int, jday: nat, d: Date, stream: string, spec: FilterSpec)
    requires Valid(d)
    ensures AsWrittenDayPath(year, jday, stream, spec) == DayPath(d, stream, spec) ==>
              jday >= 100 && d == Date(year, jday)
  {
    var p := StreamDir(stream) + "/";
    var a := IntToString(year) + "." + NatToString(jday);
    if p + a + RsamSuffix(stream, spec) == DayPath(d, stream, spec) {
      CancelSuffix(p + a, p + YearJday(d), RsamSuffix(stream, spec));
      CancelPrefix(p, a, YearJday(d));
      UnpaddedName(year, jday, d);
    }
  }

  lemma UnpaddedName(year: int, jday: nat, d: Date)
    requires Valid(d)
    requires IntToString(year) + "." + NatToString(jday) == YearJday(d)
    ensures jday >= 100 && d == Date(year, jday)
  {
    DotBeforeDigits(IntToString(year), NatToString(jday), IntToString(d.year), Jday3(d.jday));
    NatToStringRoundTrip(jday);
    Jday3RoundTrip(d.jday);
    IntToStringInjective(year, d.year);
  }

  /** A name ending in a dot and three digits splits there only one way. */
  lemma DotBeforeDigits(y: string, n: string, z: string, x: string)
    requires |x| == 3 && forall i :: 0 <= i < |x| ==> IsDigit(x[i])
    requires forall i :: 0 <= i < |n| ==> IsDigit(n[i])
    requires y + "." + n == z + "." + x
    ensures n == x && y == z
  {
    var a := y + "." + n;
    var b := z + "." + x;
    assert forall i :: |z| + 1 <= i < |b| ==> IsDigit(b[i]);
    assert forall i :: |y| + 1 <= i < |a| ==> IsDigit(a[i]);
    assert !IsDigit(a[|y|]) && !IsDigit(b[|z|]);
    assert |y| == |z|;
    assert |n| == 3;
    assert n == a[|y| + 1..] && x == b[|z| + 1..];
    assert y == a[..|y|] && z == b[..|z|];
  }

  // ---------------------------------------------------------------------
  // The corrected aggregation

  /** The daily files of days 1 up to and including the date's. */
  function YearDays(date: Date, stream: string, spec: FilterSpec): (paths: seq<string>)
    requires Valid(date)
    ensures |paths| == date.jday
    ensures forall j :: 1 <= j <= date.jday ==> paths[j - 1] == DayPath(Date(date.year, j), stream, spec)
  {
    seq(date.jday, i requires 0 <= i < date.jday => DayPath(Date(date.year, i + 1), stream, spec))
  }

  /** The yearly series: entry `j - 1` belongs to day `j` of the year, and
      the series starts at midnight on 1 January. */
  function Yearly(store: Store, date: Date, stream: string, spec: FilterSpec): (r: Result<Series, AggError>)
    requires Valid(date)
    ensures r.Success? <==> forall j :: 1 <= j <= date.jday && DayPath(Date(date.year, j), stream, spec) in store ==>
                              |store[DayPath(Date(date.year, j), stream, spec)].values| > 0
    ensures r.Success? ==> r.value.start == Midnight(Date(date.year, 1)) && r.value.delta == DaySeconds
    ensures r.Success? ==> |r.value.values| == date.jday
    ensures r.Success? ==> forall j :: 1 <= j <= date.jday && DayPath(Date(date.year, j), stream, spec) in store ==>
                             |store[DayPath(Date(date.year, j), stream, spec)].values| > 0
                             && r.value.values[j - 1] == Mean(store[DayPath(Date(date.year, j), stream, spec)].values)
    ensures r.Success? ==> forall j :: 1 <= j <= date.jday && DayPath(Date(date.year, j), stream, spec) !in store ==>
                             r.value.values[j - 1] == Missing
    ensures r.Failure? ==> r.error.EmptyDayFile?
  {
    var paths := YearDays(date, stream, spec);
    YearDaysMeans(store, date, stream, spec);
    match DailyMeans(store, paths)
    case Failure(e) => Failure(e)
    case Success(means) => Success(Series(Midnight(Date(date.year, 1)), DaySeconds, means))
  }

  /** The daily means of the year's files, indexed by day of year. */
  lemma YearDaysMeans(store: Store, date: Date, stream: string, spec: FilterSpec)
    requires Valid(date)
    ensures var r := DailyMeans(store, YearDays(date, stream, spec));
            (r.Success? <==> forall j :: 1 <= j <= date.jday && DayPath(Date(date.year, j), stream, spec) in store ==>
                               |store[DayPath(Date(date.year, j), stream, spec)].values| > 0)
            && (r.Success? ==> forall j :: 1 <= j <= date.jday && DayPath(Date(date.year, j), stream, spec) in store ==>
                                 |store[DayPath(Date(date.year, j), stream, spec)].values| > 0
                                 && r.value[j - 1] == Mean(store[DayPath(Date(date.year, j), stream, spec)].values))
            && (r.Success? ==> forall j :: 1 <= j <= date.jday && DayPath(Date(date.year, j), stream, spec) !in store ==>
                                 r.value[j - 1] == Missing)
  {
    YearDaysSucceed(store, date, stream, spec);
    YearDaysPresent(store, date, stream, spec);
    YearDaysAbsent(store, date, stream, spec);
  }

  lemma YearDaysSucceed(store: Store, date: Date, stream: string, spec: FilterSpec)
    requires Valid(date)
    ensures DailyMeans(store, YearDays(date, stream, spec)).Success? <==>
              forall j :: 1 <= j <= date.jday && DayPath(Date(date.year, j), stream, spec) in store ==>
                |store[DayPath(Date(date.year, j), stream, spec)].values| > 0
  {
    var paths := YearDays(date, stream, spec);
    var r := DailyMeans(store, paths);
    if r.Success? {
      forall j | 1 <= j <= date.jday && DayPath(Date(date.year, j), stream, spec) in store
        ensures |store[DayPath(Date(date.year, j), stream, spec)].values| > 0
      {
        assert paths[j - 1] == DayPath(Date(date.year, j), stream, spec);
      }
    } else {
      var i :| 0 <= i < |paths| && paths[i] == r.error.path;
      assert paths[i] == DayPath(Date(date.year, i + 1), stream, spec);
      assert 1 <= i + 1 <= date.jday;
    }
  }

  lemma YearDaysPresent(store: Store, date: Date, stream: string, spec: FilterSpec)
    requires Valid(date)
    ensures var r := DailyMeans(store, YearDays(date, stream, spec));
            r.Success? ==> forall j :: 1 <= j <= date.jday && DayPath(Date(date.year, j), stream, spec) in store ==>
                             r.value[j - 1] == Mean(store[DayPath(Date(date.year, j), stream, spec)].values)
  {
    var paths := YearDays(date, stream, spec);
    var r := DailyMeans(store, paths);
    if r.Success? {
      forall j | 1 <= j <= date.jday && DayPath(Date(date.year, j), stream, spec) in store
        ensures |store[DayPath(Date(date.year, j), stream, spec)].values| > 0
        ensures r.value[j - 1] == Mean(store[DayPath(Date(date.year, j), stream, spec)].values)
      {
        assert paths[j - 1] == DayPath(Date(date.year, j), stream, spec);
      }
    }
  }

  lemma YearDaysAbsent(store: Store, date: Date, stream: string, spec: FilterSpec)
    requires Valid(date)
    ensures var r := DailyMeans(store, YearDays(date, stream, spec));
            r.Success? ==> forall j :: 1 <= j <= date.jday && DayPath(Date(date.year, j), stream, spec) !in store ==>
                             r.value[j - 1] == Missing
  {
    var paths := YearDays(date, stream, spec);
    var r := DailyMeans(store, paths);
    if r.Success? {
      forall j | 1 <= j <= date.jday && DayPath(Date(date.year, j), stream, spec) !in store
        ensures r.value[j - 1] == Missing
      {
        assert paths[j - 1] == DayPath(Date(date.year, j), stream, spec);
      }
    }
  }

  /** Entry `j - 1` of the yearly series is timestamped at midnight of day
      `j`, the day whose file it summarises. */
  lemma YearlyEntriesAligned(store: Store, date: Date, stream: string, spec: FilterSpec)
    requires Valid(date) && Yearly(store, date, stream, spec).Success?
    ensures var s := Yearly(store, date, stream, spec).value;
            forall j :: 1 <= j <= date.jday ==> s.start + (j - 1) * s.delta == Midnight(Date(date.year, j))
  {
  }

  /** When every daily file holds nonnegative values, as the reducer
      guarantees, an entry is -1 exactly when its day has no file. */
  lemma SentinelExactlyWhenAbsent(store: Store, date: Date, stream: string, spec: FilterSpec)
    requires Valid(date) && Yearly(store, date, stream, spec).Success?
    requires forall j :: 1 <= j <= date.jday ==> NonNegativeFile(store, DayPath(Date(date.year, j), stream, spec))
    ensures var s := Yearly(store, date, stream, spec).value;
            forall j :: 1 <= j <= date.jday ==>
              (s.values[j - 1] == Missing <==> DayPath(Date(date.year, j), stream, spec) !in store)
  {
    var s := Yearly(store, date, stream, spec).value;
    forall j | 1 <= j <= date.jday
      ensures s.values[j - 1] == Missing <==> DayPath(Date(date.year, j), stream, spec) !in store
    {
      var p := DayPath(Date(date.year, j), stream, spec);
      if p in store {
        assert NonNegativeFile(store, p);
        MeanNonNegative(store[p].values);
        assert s.values[j - 1] == Mean(store[p].values);
      }
    }
  }

  // ---------------------------------------------------------------------
  // Rewriting the yearly file

  /** `unlink` followed by a fresh write: the file at `path` holds `s`
      and every other file is as it was. */
  function Replace(store: Store, path: string, s: Series): (r: Store)
    ensures r.Keys == store.Keys + {path} && r[path] == s
    ensures forall p :: p in store && p != path ==> r[p] == store[p]
  {
    (store - {path})[path := s]
  }

  /** Delete any yearly file of the date's year, then write the freshly
      aggregated one. An aggregation failure leaves the store as it was. */
  function Regenerate(store: Store, date: Date, stream: string, spec: FilterSpec): (r: Result<Store, AggError>)
    requires Valid(date)
    ensures r.Success? <==> Yearly(store, date, stream, spec).Success?
    ensures r.Success? ==> r.value.Keys == store.Keys + {YearPath(date.year, stream, spec)}
    ensures r.Success? ==> r.value[YearPath(date.year, stream, spec)] == Yearly(store, date, stream, spec).value
    ensures r.Success? ==> forall p :: p in store && p != YearPath(date.year, stream, spec) ==> r.value[p] == store[p]
  {
    match Yearly(store, date, stream, spec)
    case Failure(e) => Failure(e)
    case Success(s) => Success(Replace(store, YearPath(date.year, stream, spec), s))
  }

  lemma YearPathNotRead(date: Date, stream: string, spec: FilterSpec)
    requires Valid(date)
    ensures YearPath(date.year, stream, spec) !in YearDays(date, stream, spec)
  {
    var paths := YearDays(date, stream, spec);
    forall i | 0 <= i < |paths|
      ensures paths[i] != YearPath(date.year, stream, spec)
    {
      YearPathNotDayPath(Date(date.year, i + 1), stream, spec);
    }
  }

  /** Whatever yearly file was there before, or none, the regenerated
      store is the same. */
  lemma RegenerateIgnoresOldYearly(store: Store, date: Date, stream: string, spec: FilterSpec, prior: Series)
    requires Valid(date)
    ensures var path := YearPath(date.year, stream, spec);
            Regenerate(store[path := prior], date, stream, spec) == Regenerate(store, date, stream, spec)
            && Regenerate(store - {path}, date, stream, spec) == Regenerate(store, date, stream, spec)
  {
    RegenerateOverwrites(store, date, stream, spec, prior);
    RegenerateAfterRemoval(store, date, stream, spec);
  }

  lemma RegenerateOverwrites(store: Store, date: Date, stream: string, spec: FilterSpec, prior: Series)
    requires Valid(date)
    ensures Regenerate(store[YearPath(date.year, stream, spec) := prior], date, stream, spec)
            == Regenerate(store, date, stream, spec)
  {
    var path := YearPath(date.year, stream, spec);
    YearlyLocal(store, date, stream, spec, prior);
    WriteThenRemove(store, path, prior);
    RegenerateDependsOnRest(store[path := prior], store, date, stream, spec);
  }

  lemma RegenerateAfterRemoval(store: Store, date: Date, stream: string, spec: FilterSpec)
    requires Valid(date)
    ensures Regenerate(store - {YearPath(date.year, stream, spec)}, date, stream, spec)
            == Regenerate(store, date, stream, spec)
  {
    var path := YearPath(date.year, stream, spec);
    YearlyLocal(store, date, stream, spec, Series(0, 0, []));
    RemoveTwice(store, path);
    RegenerateDependsOnRest(store - {path}, store, date, stream, spec);
  }

  lemma WriteThenRemove(store: Store, path: string, s: Series)
    ensures store[path := s] - {path} == store - {path}
  {
  }

  lemma RemoveTwice(store: Store, path: string)
    ensures store - {path} - {path} == store - {path}
  {
  }

  /** Regeneration sees only the aggregate and the files other than the
      yearly one. */
  lemma RegenerateDependsOnRest(a: Store, b: Store, date: Date, stream: string, spec: FilterSpec)
    requires Valid(date)
    requires a - {YearPath(date.year, stream, spec)} == b - {YearPath(date.year, stream, spec)}
    requires Yearly(a, date, stream, spec) == Yearly(b, date, stream, spec)
    ensures Regenerate(a, date, stream, spec) == Regenerate(b, date, stream, spec)
  {
  }

  /** The yearly series does not read the yearly file. */
  lemma YearlyLocal(store: Store, date: Date, stream: string, spec: FilterSpec, prior: Series)
    requires Valid(date)
    ensures var path := YearPath(date.year, stream, spec);
            Yearly(store[path := prior], date, stream, spec) == Yearly(store, date, stream, spec)
            && Yearly(store - {path}, date, stream, spec) == Yearly(store, date, stream, spec)
  {
    YearPathNotRead(date, stream, spec);
    DailyMeansLocal(store, YearDays(date, stream, spec), YearPath(date.year, stream, spec), prior);
  }

  /** Regenerating twice gives what regenerating once gave. */
  lemma RegenerateIdempotent(store: Store, date: Date, stream: string, spec: FilterSpec)
    requires Valid(date) && Regenerate(store, date, stream, spec).Success?
    ensures Regenerate(Regenerate(store, date, stream, spec).value, date, stream, spec)
            == Regenerate(store, date, stream, spec)
  {
    var path := YearPath(date.year, stream, spec);
    var s := Yearly(store, date, stream, spec).value;
    assert Regenerate(store, date, stream, spec).value == (store - {path})[path := s];
    RegenerateOverwrites(store - {path}, date, stream, spec, s);
    RegenerateAfterRemoval(store, date, stream, spec);
  }

  // ---------------------------------------------------------------------
  // Rewriting the yearly file as the program does

  /** The files after a rewrite, with the aggregate written or the reason
      none was. */
  datatype Rewrite = Rewrite(store: Store, written: Result<Series, AggError>)

  /** What the program does: aggregate the daily files as written; unless
      a daily file is empty, delete any yearly file of the date's year and
      write the aggregate. When no daily file is found the deletion has
      already happened, and nothing is written. */
  function RegenerateAsWritten(store: Store, date: Date, stream: string, spec: FilterSpec): (r: Rewrite)
    requires Valid(date)
    ensures r.written == YearlyAsWritten(store, date, stream, spec)
    ensures r.written.Success? ==> r.store.Keys == store.Keys + {YearPath(date.year, stream, spec)}
                                   && r.store[YearPath(date.year, stream, spec)] == r.written.value
    ensures r.written == Failure(NoDataAvailable) ==> r.store == store - {YearPath(date.year, stream, spec)}
    ensures r.written.Failure? && r.written.error.EmptyDayFile? ==> r.store == store
    ensures forall p :: p in store && p != YearPath(date.year, stream, spec) ==> p in r.store && r.store[p] == store[p]
  {
    var path := YearPath(date.year, stream, spec);
    match YearlyAsWritten(store, date, stream, spec)
    case Success(s) => Rewrite(Replace(store, path, s), Success(s))
    case Failure(NoDataAvailable) => Rewrite(store - {path}, Failure(NoDataAvailable))
    case Failure(e) => Rewrite(store, Failure(e))
  }

  /** The unpadded name carries a day number after the year, so it is
      longer than the yearly file's name. */
  lemma AsWrittenNotYearPath(year: int, jday: nat, stream: string, spec: FilterSpec)
    ensures AsWrittenDayPath(year, jday, stream, spec) != YearPath(year, stream, spec)
  {
    assert |AsWrittenDayPath(year, jday, stream, spec)| == |YearPath(year, stream, spec)| + 1 + |NatToString(jday)|;
  }

  lemma YearPathNotReadAsWritten(date: Date, stream: string, spec: FilterSpec)
    requires Valid(date)
    ensures YearPath(date.year, stream, spec) !in AsWrittenPaths(date, stream, spec)
  {
    var paths := AsWrittenPaths(date, stream, spec);
    forall j | 0 <= j < |paths|
      ensures paths[j] != YearPath(date.year, stream, spec)
    {
      AsWrittenNotYearPath(date.year, j, stream, spec);
    }
  }

  /** Files other than those at `paths` do not move the first present one. */
  lemma {:induction false} FirstPresentLocal(store: Store, paths: seq<string>, k: string, s: Series)
    requires k !in paths
    ensures FirstPresent(store[k := s], paths) == FirstPresent(store, paths)
    ensures FirstPresent(store - {k}, paths) == FirstPresent(store, paths)
  {
    if |paths| > 0 {
      FirstPresentLocal(store, paths[1..], k, s);
    }
  }

  /** The aggregation as written does not read the yearly file either. */
  lemma YearlyAsWrittenLocal(store: Store, date: Date, stream: string, spec: FilterSpec, prior: Series)
    requires Valid(date)
    ensures var path := YearPath(date.year, stream, spec);
            YearlyAsWritten(store[path := prior], date, stream, spec) == YearlyAsWritten(store, date, stream, spec)
            && YearlyAsWritten(store - {path}, date, stream, spec) == YearlyAsWritten(store, date, stream, spec)
  {
    var paths := AsWrittenPaths(date, stream, spec);
    var path := YearPath(date.year, stream, spec);
    YearPathNotReadAsWritten(date, stream, spec);
    DailyMeansLocal(store, paths, path, prior);
    FirstPresentLocal(store, paths, path, prior);
  }

  /** Running the program's rewrite twice gives what running it once gave,
      whether it wrote an aggregate or not. */
  lemma RegenerateAsWrittenIdempotent(store: Store, date: Date, stream: string, spec: FilterSpec)
    requires Valid(date)
    ensures var once := RegenerateAsWritten(store, date, stream, spec);
            RegenerateAsWritten(once.store, date, stream, spec) == once
  {
    if YearlyAsWritten(store, date, stream, spec).Success? {
      RewriteWrittenIdempotent(store, date, stream, spec);
    } else {
      RewriteFailedIdempotent(store, date, stream, spec);
    }
  }

  lemma RewriteWrittenIdempotent(store: Store, date: Date, stream: string, spec: FilterSpec)
    requires Valid(date) && YearlyAsWritten(store, date, stream, spec).Success?
    ensures var once := RegenerateAsWritten(store, date, stream, spec);
            RegenerateAsWritten(once.store, date, stream, spec) == once
  {
    var path := YearPath(date.year, stream, spec);
    var s := YearlyAsWritten(store, date, stream, spec).value;
    assert RegenerateAsWritten(store, date, stream, spec).store == (store - {path})[path := s];
    YearlyAsWrittenLocal(store - {path}, date, stream, spec, s);
    YearlyAsWrittenLocal(store, date, stream, spec, s);
    WriteThenRemove(store - {path}, path, s);
    RemoveTwice(store, path);
  }

  lemma RewriteFailedIdempotent(store: Store, date: Date, stream: string, spec: FilterSpec)
    requires Valid(date) && YearlyAsWritten(store, date, stream, spec).Failure?
    ensures var once := RegenerateAsWritten(store, date, stream, spec);
            RegenerateAsWritten(once.store, date, stream, spec) == once
  {
    YearlyAsWrittenLocal(store, date, stream, spec, Series(0, DaySeconds, []));
    RemoveTwice(store, YearPath(date.year, stream, spec));
  }

  // ---------------------------------------------------------------------
  // Inputs that show where the aggregation as written goes wrong

  /** The store holding one daily file: that of day `d`, starting at its
      midnight, with the single value `v`. */
  function OnlyDay(d: Date, stream: string, spec: FilterSpec, v: real): Store
    requires Valid(d)
  {
    map[DayPath(d, stream, spec) := Series(Midnight(d), 600, [v])]
  }

  /** When the only daily file is that of a day numbered below 100, such
      as 14 February (day 045), the aggregation as written finds no file at
      all, while the corrected aggregation reports that day's mean. */
  lemma AsWrittenLosesEarlyDays(d: Date, stream: string, spec: FilterSpec, v: real)
    requires Valid(d) && d.jday < 100
    ensures YearlyAsWritten(OnlyDay(d, stream, spec, v), d, stream, spec) == Failure(NoDataAvailable)
    ensures Yearly(OnlyDay(d, stream, spec, v), d, stream, spec).Success?
    ensures Yearly(OnlyDay(d, stream, spec, v), d, stream, spec).value.values[d.jday - 1] == v
  {
    AsWrittenFindsNothing(d, stream, spec, v);
    CorrectedDatesEntries(d, stream, spec, v);
  }

  lemma AsWrittenFindsNothing(d: Date, stream: string, spec: FilterSpec, v: real)
    requires Valid(d) && d.jday < 100
    ensures YearlyAsWritten(OnlyDay(d, stream, spec, v), d, stream, spec) == Failure(NoDataAvailable)
  {
    var store := OnlyDay(d, stream, spec, v);
    forall j | 0 <= j <= d.jday
      ensures AsWrittenDayPath(d.year, j, stream, spec) !in store
    {
      AsWrittenMissesPaddedDay(d.year, j, d, stream, spec);
    }
  }

  /** When the only daily file is that of a day `j` numbered 100 or more,
      starting at its midnight, the aggregation as written stores its mean
      at entry `j` of a series that starts at that same midnight, so the
      entry is timestamped `j` days after the day it summarises. */
  lemma AsWrittenMisdatesEntries(d: Date, stream: string, spec: FilterSpec, v: real)
    requires Valid(d) && d.jday >= 100
    ensures var r := YearlyAsWritten(OnlyDay(d, stream, spec, v), d, stream, spec);
            r.Success? && r.value.values[d.jday] == v
            && r.value.start + d.jday * r.value.delta == Midnight(d) + d.jday * DaySeconds
  {
    var store := OnlyDay(d, stream, spec, v);
    var paths := AsWrittenPaths(d, stream, spec);
    AsWrittenFindsOnlyLateDay(d, stream, spec, v);
    var means := DailyMeans(store, paths);
    assert means.Success?;
    MeanSingleton(v);
    assert means.value[d.jday] == v;
    assert FirstPresent(store, paths) == Some(d.jday);
    assert store[paths[d.jday]].start == Midnight(d);
  }

  /** Of the unpadded names, only the day's own is present. */
  lemma AsWrittenFindsOnlyLateDay(d: Date, stream: string, spec: FilterSpec, v: real)
    requires Valid(d) && d.jday >= 100
    ensures var paths := AsWrittenPaths(d, stream, spec);
            forall j :: 0 <= j <= d.jday ==> (paths[j] in OnlyDay(d, stream, spec, v) <==> j == d.jday)
  {
    var paths := AsWrittenPaths(d, stream, spec);
    AsWrittenFindsLateDay(d, stream, spec);
    forall j | 0 <= j <= d.jday
      ensures paths[j] in OnlyDay(d, stream, spec, v) <==> j == d.jday
    {
      AsWrittenNames(d.year, j, d, stream, spec);
    }
  }

  /** On the same input the corrected series holds the mean at entry
      `j - 1`, timestamped at the day's own midnight. */
  lemma CorrectedDatesEntries(d: Date, stream: string, spec: FilterSpec, v: real)
    requires Valid(d)
    ensures var c := Yearly(OnlyDay(d, stream, spec, v), d, stream, spec);
            c.Success? && c.value.values[d.jday - 1] == v
            && c.value.start + (d.jday - 1) * c.value.delta == Midnight(d)
  {
    MeanSingleton(v);
    YearlyEntriesAligned(OnlyDay(d, stream, spec, v), d, stream, spec);
  }
}
