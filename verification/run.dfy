/** One run of the program: the days it reduces, where each day's waveforms
    come from, the daily pass that writes one file per day and band, and the
    days whose files the plot reads. */
module Run {
  import opened Wrappers
  import opened Text
  import opened Timeseries
  import opened Filters
  import opened Calendar
  import opened Store
  import opened Numbers
  import Reducer

  // ---------------------------------------------------------------------
  // Days to calculate

  /** A processed day: its date and the requested time span `[start, end)`. */
  datatype Day = Day(date: Date, start: int, end: int)

  /** `num_calculation_days`: every plotted day when the flag is given,
      otherwise 1. The count is not checked for sign. */
  function CalculationDayCount(plotDays: int, calculatePlotDays: bool): int
  {
    if calculatePlotDays then plotDays else 1
  }

  /** `for n in range(num_calculation_days + 1)`: day `n` starts `n` days
      before midnight of the run date and lasts 86400 s. */
  function CalculationDays(date: Date, plotDays: int, calculatePlotDays: bool): (r: seq<Day>)
    requires Valid(date)
    ensures |r| == Max(0, CalculationDayCount(plotDays, calculatePlotDays) + 1)
    ensures forall n :: 0 <= n < |r| ==> Valid(r[n].date) && Ordinal(r[n].date) == Ordinal(date) - n
    ensures forall n :: 0 <= n < |r| ==> r[n].start == Midnight(date) - DaySeconds * n
    ensures forall n :: 0 <= n < |r| ==> r[n].start == Midnight(r[n].date) && r[n].end == r[n].start + DaySeconds
  {
    var count := Max(0, CalculationDayCount(plotDays, calculatePlotDays) + 1);
    seq(count, n requires 0 <= n < count =>
      Day(DaysBack(date, n), Midnight(date) - DaySeconds * n, Midnight(date) - DaySeconds * n + DaySeconds))
  }

  /** The days cover a contiguous stretch of time, each ending where the
      previous one in the list starts. */
  lemma DaysTileBackwards(date: Date, plotDays: int, calculatePlotDays: bool)
    requires Valid(date)
    ensures var r := CalculationDays(date, plotDays, calculatePlotDays);
            forall n :: 0 < n < |r| ==> r[n].end == r[n - 1].start && NextDay(r[n].date) == r[n - 1].date
  {
    var r := CalculationDays(date, plotDays, calculatePlotDays);
    forall n | 0 < n < |r|
      ensures NextDay(r[n].date) == r[n - 1].date
    {
      OrdinalInjective(NextDay(r[n].date), r[n - 1].date);
    }
  }

  /** Different days of a run never write the same daily file. */
  lemma DaysWriteDistinctFiles(date: Date, plotDays: int, calculatePlotDays: bool, stream: string, spec: FilterSpec)
    requires Valid(date)
    ensures var r := CalculationDays(date, plotDays, calculatePlotDays);
            forall n, m :: 0 <= n < m < |r| ==> DayPath(r[n].date, stream, spec) != DayPath(r[m].date, stream, spec)
  {
    var r := CalculationDays(date, plotDays, calculatePlotDays);
    forall n, m | 0 <= n < m < |r|
      ensures DayPath(r[n].date, stream, spec) != DayPath(r[m].date, stream, spec)
    {
      if DayPath(r[n].date, stream, spec) == DayPath(r[m].date, stream, spec) {
        DayPathInjective(r[n].date, r[m].date, stream, spec);
      }
    }
  }

  /** The days of a run have distinct dates. */
  lemma CalculationDaysDistinct(date: Date, plotDays: int, calculatePlotDays: bool)
    requires Valid(date)
    ensures DistinctDates(CalculationDays(date, plotDays, calculatePlotDays))
  {
  }

  /** Without the flag the run reduces two days: the run date and the day
      before it. */
  lemma WithoutFlagTwoDays(date: Date, plotDays: int)
    requires Valid(date)
    ensures var r := CalculationDays(date, plotDays, false);
            |r| == 2 && r[0].date == date && r[1].date == PrevDay(date)
  {
    var r := CalculationDays(date, plotDays, false);
    OrdinalInjective(r[0].date, date);
    OrdinalInjective(r[1].date, PrevDay(date));
  }

  // ---------------------------------------------------------------------
  // Where a day's waveforms come from

  datatype Source = NearRealTime | Archive

  datatype FetchError =
    | NotNewZealand  // the network code of the stream is not NZ
    | NoDataFound    // neither service delivered the day

  /** The longest accepted delay, in seconds, between the requested start
      and the start of the first trace the near-real-time service returns. */
  const MaxNrtLag := 600

  predicate NrtAccepted(traceStart: int, requested: int)
  {
    traceStart - requested <= MaxNrtLag
  }

  /** `NETWORK.SITE.LOC.CHANNEL` has the four parts a request needs. */
  predicate Requestable(stream: string)
  {
    |Split(stream, ".")| >= 4
  }

  /** The source of a day's waveforms. `nrtStart` is the start of the
      first trace the near-real-time service returns, `None` when the
      request fails or returns no trace; `archiveDelivers` says whether the
      archive request succeeds. A stream with fewer than four parts makes
      both requests fail. */
  function ChooseSource(stream: string, requested: int, nrtStart: Option<int>, archiveDelivers: bool): (r: Result<Source, FetchError>)
    ensures r == Failure(NotNewZealand) <==> Split(stream, ".")[0] != "NZ"
    ensures r == Success(NearRealTime) <==>
              Split(stream, ".")[0] == "NZ" && Requestable(stream) && nrtStart.Some? && NrtAccepted(nrtStart.value, requested)
    ensures r == Success(Archive) <==>
              Split(stream, ".")[0] == "NZ" && Requestable(stream) && archiveDelivers
              && !(nrtStart.Some? && NrtAccepted(nrtStart.value, requested))
    ensures r == Failure(NoDataFound) <==>
              Split(stream, ".")[0] == "NZ" && (!Requestable(stream) || (!archiveDelivers
              && !(nrtStart.Some? && NrtAccepted(nrtStart.value, requested))))
  {
    var parts := Split(stream, ".");
    if parts[0] != "NZ" then Failure(NotNewZealand)
    else if |parts| < 4 then Failure(NoDataFound)
    else if nrtStart.Some? && NrtAccepted(nrtStart.value, requested) then Success(NearRealTime)
    else if archiveDelivers then Success(Archive)
    else Failure(NoDataFound)
  }

  /** An accepted near-real-time answer is used whatever the archive
      holds; a late one never is. */
  lemma NrtPreferred(stream: string, requested: int, nrtStart: int, a: bool, b: bool)
    requires Split(stream, ".")[0] == "NZ" && Requestable(stream)
    ensures NrtAccepted(nrtStart, requested) ==>
              ChooseSource(stream, requested, Some(nrtStart), a) == ChooseSource(stream, requested, Some(nrtStart), b)
    ensures !NrtAccepted(nrtStart, requested) ==>
              ChooseSource(stream, requested, Some(nrtStart), a) == ChooseSource(stream, requested, None, a)
  {
  }

  // ---------------------------------------------------------------------
  // The daily pass

  /** What the reducer writes: 600 s spacing, at most 145 values, none
      negative. */
  predicate DailyFile(s: Series)
  {
    s.delta == Reducer.WindowSeconds && |s.values| <= Reducer.BufferSlots
    && forall i :: 0 <= i < |s.values| ==> s.values[i] >= 0.0
  }

  predicate AllValid(days: seq<Day>)
  {
    forall i :: 0 <= i < |days| ==> Valid(days[i].date)
  }

  /** The daily files a pass over `days` and `specs` writes. */
  ghost function PassPaths(days: seq<Day>, stream: string, specs: seq<FilterSpec>): set<string>
    requires AllValid(days)
  {
    set i, k | 0 <= i < |days| && 0 <= k < |specs| :: DayPath(days[i].date, stream, specs[k])
  }

  /** Files outside `paths` are as they were in `store`. */
  ghost predicate Untouched(store: Store, store': Store, paths: set<string>)
  {
    forall p :: p in store && p !in paths ==> p in store' && store'[p] == store[p]
  }

  /** Every file of `store'` is as it was in `store` or is a daily file
      written at one of `paths`. */
  ghost predicate OnlyDailyWrites(store: Store, store': Store, paths: set<string>)
  {
    forall p :: p in store' ==> (p in store && store'[p] == store[p]) || (p in paths && DailyFile(store'[p]))
  }

  ghost predicate HoldsDaily(store: Store, paths: set<string>)
  {
    forall p :: p in paths ==> p in store && DailyFile(store[p])
  }

  /** One successful write keeps the pass's guarantees and adds its path. */
  lemma WriteStep(store: Store, cur: Store, next: Store, path: string, paths: set<string>, written: set<string>)
    requires path in paths && path in next && DailyFile(next[path])
    requires next.Keys == cur.Keys + {path}
    requires forall p :: p in cur && p != path ==> next[p] == cur[p]
    requires Untouched(store, cur, paths) && OnlyDailyWrites(store, cur, paths) && HoldsDaily(cur, written)
    ensures Untouched(store, next, paths) && OnlyDailyWrites(store, next, paths) && HoldsDaily(next, written + {path})
  {
  }

  /** Every path of a grid of paths. */
  ghost function Cells(names: seq<seq<string>>): set<string>
  {
    set j, m | 0 <= j < |names| && 0 <= m < |names[j]| :: names[j][m]
  }

  /** The daily file of day `j` and band `m` at `r[j][m]`. */
  function PathGrid(days: seq<Day>, stream: string, specs: seq<FilterSpec>): (r: seq<seq<string>>)
    requires AllValid(days)
    ensures |r| == |days|
    ensures forall j :: 0 <= j < |days| ==> |r[j]| == |specs|
    ensures forall j, m :: 0 <= j < |days| && 0 <= m < |specs| ==> r[j][m] == DayPath(days[j].date, stream, specs[m])
  {
    seq(|days|, j requires 0 <= j < |days| =>
      seq(|specs|, m requires 0 <= m < |specs| => DayPath(days[j].date, stream, specs[m])))
  }

  /** The grid covers exactly the daily files of the pass. */
  lemma PathGridCells(days: seq<Day>, stream: string, specs: seq<FilterSpec>)
    requires AllValid(days)
    ensures Cells(PathGrid(days, stream, specs)) == PassPaths(days, stream, specs)
  {
    PassPathsInGrid(days, stream, specs);
    GridInPassPaths(days, stream, specs);
  }

  lemma PassPathsInGrid(days: seq<Day>, stream: string, specs: seq<FilterSpec>)
    requires AllValid(days)
    ensures PassPaths(days, stream, specs) <= Cells(PathGrid(days, stream, specs))
  {
    var r := PathGrid(days, stream, specs);
    forall p | p in PassPaths(days, stream, specs)
      ensures p in Cells(r)
    {
      var j, m :| 0 <= j < |days| && 0 <= m < |specs| && p == DayPath(days[j].date, stream, specs[m]);
      assert p == r[j][m];
    }
  }

  lemma GridInPassPaths(days: seq<Day>, stream: string, specs: seq<FilterSpec>)
    requires AllValid(days)
    ensures Cells(PathGrid(days, stream, specs)) <= PassPaths(days, stream, specs)
  {
    var r := PathGrid(days, stream, specs);
    forall p | p in Cells(r)
      ensures p in PassPaths(days, stream, specs)
    {
      var j, m :| 0 <= j < |r| && 0 <= m < |r[j]| && p == r[j][m];
      assert p == DayPath(days[j].date, stream, specs[m]);
    }
  }

  predicate Rectangular(names: seq<seq<string>>, specs: seq<FilterSpec>)
  {
    forall j :: 0 <= j < |names| ==> |names[j]| == |specs|
  }

  /** Cells that share a name lie in the same row and have the same band,
      so they are written with the same series. */
  predicate SharedNamesAgree(names: seq<seq<string>>, specs: seq<FilterSpec>)
    requires Rectangular(names, specs)
  {
    forall j, m, j', n {:trigger names[j][m], names[j'][n]} ::
      (0 <= j < |names| && 0 <= m < |specs| && 0 <= j' < |names| && 0 <= n < |specs| && names[j][m] == names[j'][n])
      ==> j == j' && specs[m] == specs[n]
  }

  /** The cells of the rows before `i`, and of row `i` before band `k`,
      hold the series their row's trace reduces to under their band. */
  ghost predicate Filled(store: Store, names: seq<seq<string>>, traces: seq<Reducer.Trace>,
                         specs: seq<FilterSpec>, response: bool, filt: Reducer.Filter, i: nat, k: nat)
    requires |traces| == |names| && Rectangular(names, specs)
  {
    forall j, m :: 0 <= j < |names| && 0 <= m < |specs| && (j < i || (j == i && m < k)) ==>
      CellHolds(store, names, traces, specs, response, filt, j, m)
  }

  /** Cell `(j, m)` holds the series trace `j` reduces to under band `m`. */
  ghost predicate CellHolds(store: Store, names: seq<seq<string>>, traces: seq<Reducer.Trace>,
                            specs: seq<FilterSpec>, response: bool, filt: Reducer.Filter, j: int, m: int)
    requires |traces| == |names| && Rectangular(names, specs)
    requires 0 <= j < |names| && 0 <= m < |specs|
  {
    names[j][m] in store && store[names[j][m]] == Reducer.Reduced(traces[j], specs[m], response, filt)
  }

  /** Writing cell `(i, k)` keeps the cells filled before it: a cell of
      the same name is written with the same series. */
  lemma FillStep(cur: Store, next: Store, names: seq<seq<string>>, traces: seq<Reducer.Trace>,
                 specs: seq<FilterSpec>, response: bool, filt: Reducer.Filter, i: nat, k: nat)
    requires |traces| == |names| && Rectangular(names, specs) && SharedNamesAgree(names, specs)
    requires i < |names| && k < |specs|
    requires Filled(cur, names, traces, specs, response, filt, i, k)
    requires next.Keys == cur.Keys + {names[i][k]}
    requires next[names[i][k]] == Reducer.Reduced(traces[i], specs[k], response, filt)
    requires forall p :: p in cur && p != names[i][k] ==> next[p] == cur[p]
    ensures Filled(next, names, traces, specs, response, filt, i, k + 1)
  {
    forall j, m | 0 <= j < |names| && 0 <= m < |specs| && (j < i || (j == i && m < k + 1))
      ensures CellHolds(next, names, traces, specs, response, filt, j, m)
    {
      FillCell(cur, next, names, traces, specs, response, filt, i, k, j, m);
    }
  }

  lemma FillCell(cur: Store, next: Store, names: seq<seq<string>>, traces: seq<Reducer.Trace>,
                 specs: seq<FilterSpec>, response: bool, filt: Reducer.Filter, i: nat, k: nat, j: int, m: int)
    requires |traces| == |names| && Rectangular(names, specs) && SharedNamesAgree(names, specs)
    requires i < |names| && k < |specs|
    requires Filled(cur, names, traces, specs, response, filt, i, k)
    requires next.Keys == cur.Keys + {names[i][k]}
    requires next[names[i][k]] == Reducer.Reduced(traces[i], specs[k], response, filt)
    requires forall p :: p in cur && p != names[i][k] ==> next[p] == cur[p]
    requires 0 <= j < |names| && 0 <= m < |specs| && (j < i || (j == i && m < k + 1))
    ensures names[j][m] in next && next[names[j][m]] == Reducer.Reduced(traces[j], specs[m], response, filt)
  {
    if names[j][m] == names[i][k] {
      SameName(names, specs, j, m, i, k);
    } else {
      FilledAt(cur, names, traces, specs, response, filt, i, k, j, m);
      assert names[j][m] in cur.Keys;
    }
  }

  lemma SameName(names: seq<seq<string>>, specs: seq<FilterSpec>, j: int, m: int, j': int, n: int)
    requires Rectangular(names, specs) && SharedNamesAgree(names, specs)
    requires 0 <= j < |names| && 0 <= m < |specs| && 0 <= j' < |names| && 0 <= n < |specs|
    requires names[j][m] == names[j'][n]
    ensures j == j' && specs[m] == specs[n]
  {
  }

  lemma FilledAt(store: Store, names: seq<seq<string>>, traces: seq<Reducer.Trace>,
                 specs: seq<FilterSpec>, response: bool, filt: Reducer.Filter, i: nat, k: nat, j: int, m: int)
    requires |traces| == |names| && Rectangular(names, specs)
    requires Filled(store, names, traces, specs, response, filt, i, k)
    requires 0 <= j < |names| && 0 <= m < |specs| && (j < i || (j == i && m < k))
    ensures names[j][m] in store && store[names[j][m]] == Reducer.Reduced(traces[j], specs[m], response, filt)
  {
    assert CellHolds(store, names, traces, specs, response, filt, j, m);
  }

  /** Every row in turn, every band in turn: reduce the row's trace and
      write the result at `names[j][m]`. */
  method WriteGrid(store: Store, names: seq<seq<string>>, traces: seq<Reducer.Trace>,
                   specs: seq<FilterSpec>, response: bool, filt: Reducer.Filter)
    returns (store': Store, r: Result<(), Reducer.ReduceError>)
    requires |traces| == |names| && Rectangular(names, specs) && SharedNamesAgree(names, specs)
    ensures Untouched(store, store', Cells(names)) && OnlyDailyWrites(store, store', Cells(names))
    ensures r.Success? ==> HoldsDaily(store', Cells(names))
    ensures r.Success? ==> forall j, m :: 0 <= j < |names| && 0 <= m < |specs| ==>
                             names[j][m] in store' && store'[names[j][m]] == Reducer.Reduced(traces[j], specs[m], response, filt)
  {
    ghost var written: set<string> := {};
    store' := store;
    var i := 0;
    while i < |names|
      invariant 0 <= i <= |names|
      invariant Untouched(store, store', Cells(names)) && OnlyDailyWrites(store, store', Cells(names))
      invariant HoldsDaily(store', written)
      invariant forall j, m :: 0 <= j < i && 0 <= m < |specs| ==> names[j][m] in written
      invariant Filled(store', names, traces, specs, response, filt, i, 0)
    {
      var w;
      store', w, written := WriteRow(store, store', names, traces, specs, response, filt, i, written);
      if w.Failure? {
        return store', w;
      }
      i := i + 1;
    }
    forall j, m | 0 <= j < |names| && 0 <= m < |specs|
      ensures names[j][m] in store' && store'[names[j][m]] == Reducer.Reduced(traces[j], specs[m], response, filt)
    {
      FilledAt(store', names, traces, specs, response, filt, i, 0, j, m);
    }
    r := Success(());
  }

  /** Row `i` of the grid, band by band; `written` tracks the cells
      written so far. */
  method WriteRow(store: Store, cur: Store, names: seq<seq<string>>, traces: seq<Reducer.Trace>,
                  specs: seq<FilterSpec>, response: bool, filt: Reducer.Filter, i: nat, ghost written: set<string>)
    returns (store': Store, r: Result<(), Reducer.ReduceError>, ghost written': set<string>)
    requires |traces| == |names| && Rectangular(names, specs) && SharedNamesAgree(names, specs)
    requires i < |names|
    requires Untouched(store, cur, Cells(names)) && OnlyDailyWrites(store, cur, Cells(names))
    requires HoldsDaily(cur, written)
    requires forall j, m :: 0 <= j < i && 0 <= m < |specs| ==> names[j][m] in written
    requires Filled(cur, names, traces, specs, response, filt, i, 0)
    ensures Untouched(store, store', Cells(names)) && OnlyDailyWrites(store, store', Cells(names))
    ensures r.Success? ==> HoldsDaily(store', written')
    ensures r.Success? ==> forall j, m :: 0 <= j < i + 1 && 0 <= m < |specs| ==> names[j][m] in written'
    ensures r.Success? ==> Filled(store', names, traces, specs, response, filt, i + 1, 0)
  {
    ghost var paths := Cells(names);
    store', written' := cur, written;
    var k := 0;
    while k < |specs|
      invariant 0 <= k <= |specs|
      invariant Untouched(store, store', paths) && OnlyDailyWrites(store, store', paths) && HoldsDaily(store', written')
      invariant forall j, m :: 0 <= j < i && 0 <= m < |specs| ==> names[j][m] in written'
      invariant forall m :: 0 <= m < k ==> names[i][m] in written'
      invariant Filled(store', names, traces, specs, response, filt, i, k)
    {
      var next, w := WriteAt(store', names[i][k], specs[k], traces[i], response, filt);
      if w.Failure? {
        return next, Failure(w.error), written';
      }
      assert names[i][k] in paths;
      WriteStep(store, store', next, names[i][k], paths, written');
      FillStep(store', next, names, traces, specs, response, filt, i, k);
      store', written' := next, written' + {names[i][k]};
      k := k + 1;
    }
    r := Success(());
  }

  /** Days with distinct dates and well-formed bands never share a daily
      file, so the grid's shared names agree. */
  lemma PathGridAgrees(days: seq<Day>, stream: string, specs: seq<FilterSpec>)
    requires AllValid(days) && DistinctDates(days)
    requires forall m :: 0 <= m < |specs| ==> WellFormed(specs[m])
    ensures Rectangular(PathGrid(days, stream, specs), specs)
    ensures SharedNamesAgree(PathGrid(days, stream, specs), specs)
  {
    var r := PathGrid(days, stream, specs);
    forall j, m, j', n |
      0 <= j < |r| && 0 <= m < |specs| && 0 <= j' < |r| && 0 <= n < |specs| && r[j][m] == r[j'][n]
      ensures j == j' && specs[m] == specs[n]
    {
      assert r[j][m] == DayPath(days[j].date, stream, specs[m]);
      assert r[j'][n] == DayPath(days[j'].date, stream, specs[n]);
      DayPathDeterminesCell(days[j].date, days[j'].date, stream, specs[m], specs[n]);
    }
  }

  predicate DistinctDates(days: seq<Day>)
  {
    forall i, j :: 0 <= i < |days| && 0 <= j < |days| && i != j ==> days[i].date != days[j].date
  }

  /** Every day of one stream, every band in turn: reduce the day's merged
      trace `traces[i]` and write its daily file. The first reducer failure
      ends the run, keeping the files written before it. The days of a run
      have distinct dates, and its bands come from parsing the ranges, so
      they are well formed. */
  method DailyPass(store: Store, days: seq<Day>, traces: seq<Reducer.Trace>, stream: string,
                   specs: seq<FilterSpec>, response: bool, filt: Reducer.Filter)
    returns (store': Store, r: Result<(), Reducer.ReduceError>)
    requires AllValid(days) && |traces| == |days| && DistinctDates(days)
    requires forall m :: 0 <= m < |specs| ==> WellFormed(specs[m])
    ensures forall p :: p in store && p !in PassPaths(days, stream, specs) ==> p in store' && store'[p] == store[p]
    ensures forall p :: p in store' ==> (p in store && store'[p] == store[p]) || (p in PassPaths(days, stream, specs) && DailyFile(store'[p]))
    ensures r.Success? ==> forall p :: p in PassPaths(days, stream, specs) ==> p in store' && DailyFile(store'[p])
    ensures r.Success? ==> forall i, m :: 0 <= i < |days| && 0 <= m < |specs| ==>
                             DayPath(days[i].date, stream, specs[m]) in store'
                             && store'[DayPath(days[i].date, stream, specs[m])] == Reducer.Reduced(traces[i], specs[m], response, filt)
  {
    var names := PathGrid(days, stream, specs);
    PathGridCells(days, stream, specs);
    PathGridAgrees(days, stream, specs);
    store', r := WriteGrid(store, names, traces, specs, response, filt);
  }

  // ---------------------------------------------------------------------
  // Days the plot reads

  /** `num2date(np.arange(date2num(date - P days) + 1, date2num(date), 1))`:
      the `P - 1` days before the run date, oldest first; the run date
      itself is not among them. */
  function PlotDates(date: Date, plotDays: int): (r: seq<Date>)
    requires Valid(date)
    ensures |r| == Max(0, plotDays - 1)
    ensures forall i :: 0 <= i < |r| ==> Valid(r[i]) && Ordinal(r[i]) == Ordinal(date) - (plotDays - 1) + i
  {
    var count := Max(0, plotDays - 1);
    seq(count, i requires 0 <= i < count => DaysBack(date, plotDays - 1 - i))
  }

  /** Plot dates are consecutive, oldest first, and all before the run date. */
  lemma PlotDatesConsecutive(date: Date, plotDays: int)
    requires Valid(date)
    ensures var r := PlotDates(date, plotDays);
            (forall i :: 0 <= i < |r| ==> Ordinal(r[i]) < Ordinal(date))
            && forall i :: 0 < i < |r| ==> NextDay(r[i - 1]) == r[i]
  {
    var r := PlotDates(date, plotDays);
    forall i | 0 < i < |r|
      ensures NextDay(r[i - 1]) == r[i]
    {
      OrdinalInjective(NextDay(r[i - 1]), r[i]);
    }
  }

  /** The plot never reads the file of the run date. */
  lemma PlotSkipsRunDate(date: Date, plotDays: int, stream: string, spec: FilterSpec)
    requires Valid(date)
    ensures var r := PlotDates(date, plotDays);
            forall i :: 0 <= i < |r| ==> DayPath(r[i], stream, spec) != DayPath(date, stream, spec)
  {
    var r := PlotDates(date, plotDays);
    forall i | 0 <= i < |r|
      ensures DayPath(r[i], stream, spec) != DayPath(date, stream, spec)
    {
      if DayPath(r[i], stream, spec) == DayPath(date, stream, spec) {
        DayPathInjective(r[i], date, stream, spec);
      }
    }
  }

  /** With the flag, every plotted day was reduced in the same run. */
  lemma PlotDatesCalculated(date: Date, plotDays: int)
    requires Valid(date)
    ensures var r := PlotDates(date, plotDays);
            var days := CalculationDays(date, plotDays, true);
            forall i :: 0 <= i < |r| ==> 0 < plotDays - 1 - i < |days| && days[plotDays - 1 - i].date == r[i]
  {
    var r := PlotDates(date, plotDays);
    var days := CalculationDays(date, plotDays, true);
    forall i | 0 <= i < |r|
      ensures 0 < plotDays - 1 - i < |days| && days[plotDays - 1 - i].date == r[i]
    {
      OrdinalInjective(days[plotDays - 1 - i].date, r[i]);
    }
  }

  datatype PlotError = NothingToPlot

  /** The plot dates whose daily files exist, in order. */
  function PresentFiles(store: Store, paths: seq<string>): (r: seq<string>)
    ensures |r| <= |paths|
    ensures forall p :: p in r <==> p in paths && p in store
    ensures Subsequence(r, paths)
  {
    if |paths| == 0 then []
    else if paths[0] in store then [paths[0]] + PresentFiles(store, paths[1..])
    else PresentFiles(store, paths[1..])
  }

  /** `xs` is `ys` with some elements left out. */
  ghost predicate Subsequence<T>(xs: seq<T>, ys: seq<T>)
  {
    if |xs| == 0 then true
    else if |ys| == 0 then false
    else (xs[0] == ys[0] && Subsequence(xs[1..], ys[1..])) || Subsequence(xs, ys[1..])
  }

  /** The traces the plot gathers for one band: the file of every plot date
      that has one. With none, taking the first trace of the empty stream
      fails. */
  function PlotRead(store: Store, paths: seq<string>): (r: Result<seq<Series>, PlotError>)
    ensures r.Failure? <==> forall i :: 0 <= i < |paths| ==> paths[i] !in store
    ensures r.Success? ==> |r.value| >= 1 && |r.value| == |PresentFiles(store, paths)|
    ensures r.Success? ==> forall i :: 0 <= i < |r.value| ==>
              PresentFiles(store, paths)[i] in store && r.value[i] == store[PresentFiles(store, paths)[i]]
  {
    var files := PresentFiles(store, paths);
    if |files| == 0 then Failure(NothingToPlot)
    else
      assert files[0] in files;
      Success(seq(|files|, i requires 0 <= i < |files| => store[files[i]]))
  }
}
