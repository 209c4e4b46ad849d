/** The `./rsam_files/<stream>/` tree, modelled as a map from file path to
    the series the file holds, and the names the program gives its files:
    `YYYY.DDD.<stream><suffix>` for a day of 10-minute values and
    `YYYY.<stream><suffix>` for a year of daily means. Writing a path
    replaces whatever the path held; directory creation has no effect on
    the map. */
module Store {
  import opened Wrappers
  import opened Text
  import opened Timeseries
  import opened Filters
  import opened Calendar
  import Reducer

  type Store = map<string, Series>

  function StreamDir(stream: string): string
  {
    "./rsam_files/" + stream
  }

  /** `'.' + stream + suffix`: what follows the date in the name of a
      daily or yearly file. */
  function RsamSuffix(stream: string, spec: FilterSpec): string
  {
    "." + stream + Suffix(spec)
  }

  /** The daily file: `start.strftime("%Y.%j")`, then the stream and band. */
  function DayPath(d: Date, stream: string, spec: FilterSpec): (r: string)
    requires Valid(d)
    ensures StartsWith(r, StreamDir(stream) + "/") && EndsWith(r, RsamSuffix(stream, spec))
  {
    StreamDir(stream) + "/" + YearJday(d) + RsamSuffix(stream, spec)
  }

  /** The yearly file: `str(date.year)`, then the stream and band. */
  function YearPath(year: int, stream: string, spec: FilterSpec): (r: string)
    ensures StartsWith(r, StreamDir(stream) + "/") && EndsWith(r, RsamSuffix(stream, spec))
  {
    StreamDir(stream) + "/" + IntToString(year) + RsamSuffix(stream, spec)
  }

  lemma IntToStringInjective(a: int, b: int)
    requires IntToString(a) == IntToString(b)
    ensures a == b
  {
    IntToStringRoundTrip(a);
    IntToStringRoundTrip(b);
  }

  /** `%Y.%j` tells dates apart: distinct days get distinct names. */
  lemma YearJdayInjective(a: Date, b: Date)
    requires Valid(a) && Valid(b)
    requires YearJday(a) == YearJday(b)
    ensures a == b
  {
    SplitEqualTails(IntToString(a.year) + ".", Jday3(a.jday), IntToString(b.year) + ".", Jday3(b.jday));
    CancelSuffix(IntToString(a.year), IntToString(b.year), ".");
    Jday3RoundTrip(a.jday);
    Jday3RoundTrip(b.jday);
    IntToStringInjective(a.year, b.year);
  }

  lemma DropPrefix(p: string, x: string, r: string)
    ensures (p + x + r)[|p|..] == x + r
  {
  }

  lemma CancelPrefix(p: string, x: string, y: string)
    requires p + x == p + y
    ensures x == y
  {
    assert x == (p + x)[|p|..];
    assert y == (p + y)[|p|..];
  }

  lemma SplitEqualTails(x: string, p: string, y: string, q: string)
    requires x + p == y + q && |p| == |q|
    ensures x == y && p == q
  {
    assert x == (x + p)[..|x|];
    assert y == (y + q)[..|y|];
    assert p == (x + p)[|x|..];
    assert q == (y + q)[|y|..];
  }

  lemma CancelSuffix(x: string, y: string, q: string)
    requires x + q == y + q
    ensures x == y
  {
    assert x == (x + q)[..|x|];
    assert y == (y + q)[..|y|];
  }

  /** Two different days never share a daily file. */
  lemma DayPathInjective(a: Date, b: Date, stream: string, spec: FilterSpec)
    requires Valid(a) && Valid(b)
    requires DayPath(a, stream, spec) == DayPath(b, stream, spec)
    ensures a == b
  {
    var p := StreamDir(stream) + "/";
    CancelSuffix(p + YearJday(a), p + YearJday(b), RsamSuffix(stream, spec));
    CancelPrefix(p, YearJday(a), YearJday(b));
    YearJdayInjective(a, b);
  }

  /** `%Y.%j` is read up to the first dot, so a daily file's name fixes
      its date whatever stream and band follow. */
  lemma YearJdayPrefix(a: Date, b: Date, s: string, t: string)
    requires Valid(a) && Valid(b)
    requires YearJday(a) + s == YearJday(b) + t
    ensures a == b
  {
    var x, y := YearJday(a), YearJday(b);
    FirstDotKept(x, s, |x| - 4);
    FirstDotKept(y, t, |y| - 4);
    FirstDotUnique(x + s, |x| - 4, |y| - 4);
    SplitEqualTails(x, s, y, t);
    YearJdayInjective(a, b);
  }

  /** Appending keeps the position of the first dot. */
  lemma FirstDotKept(x: string, s: string, n: nat)
    requires n < |x| && x[n] == '.' && forall i :: 0 <= i < n ==> x[i] != '.'
    ensures (x + s)[n] == '.' && forall i :: 0 <= i < n ==> (x + s)[i] != '.'
  {
  }

  lemma FirstDotUnique(u: string, a: nat, b: nat)
    requires a < |u| && u[a] == '.' && forall i :: 0 <= i < a ==> u[i] != '.'
    requires b < |u| && u[b] == '.' && forall i :: 0 <= i < b ==> u[i] != '.'
    ensures a == b
  {
  }

  /** Two daily files of well-formed bands share a name only when they are
      the same day and the same band. */
  lemma DayPathDeterminesCell(a: Date, b: Date, stream: string, x: FilterSpec, y: FilterSpec)
    requires Valid(a) && Valid(b) && WellFormed(x) && WellFormed(y)
    requires DayPath(a, stream, x) == DayPath(b, stream, y)
    ensures a == b && x == y
  {
    var p := StreamDir(stream) + "/";
    DropPrefix(p, YearJday(a), RsamSuffix(stream, x));
    DropPrefix(p, YearJday(b), RsamSuffix(stream, y));
    YearJdayPrefix(a, b, RsamSuffix(stream, x), RsamSuffix(stream, y));
    DayPathSeparatesBands(a, stream, x, y);
  }

  /** Within one day, two well-formed bands never share a daily file. */
  lemma DayPathSeparatesBands(d: Date, stream: string, a: FilterSpec, b: FilterSpec)
    requires Valid(d) && WellFormed(a) && WellFormed(b)
    requires DayPath(d, stream, a) == DayPath(d, stream, b)
    ensures a == b
  {
    CancelPrefix(StreamDir(stream) + "/" + YearJday(d), RsamSuffix(stream, a), RsamSuffix(stream, b));
    CancelPrefix("." + stream, Suffix(a), Suffix(b));
    SuffixInjective(a, b);
  }

  /** The yearly file of a year is never one of that year's daily files, so
      rewriting it leaves the daily files alone. */
  lemma YearPathNotDayPath(d: Date, stream: string, spec: FilterSpec)
    requires Valid(d)
    ensures YearPath(d.year, stream, spec) != DayPath(d, stream, spec)
  {
    assert |DayPath(d, stream, spec)| == |YearPath(d.year, stream, spec)| + 4;
  }

  /** Every value of the file at `path`, if there is one, is at least
      zero, as the reducer guarantees for the daily files it writes. */
  predicate NonNegativeFile(store: Store, path: string)
  {
    path in store ==> forall i :: 0 <= i < |store[path].values| ==> store[path].values[i] >= 0.0
  }

  /** Reduce a merged trace and write the result at `path`, replacing any
      file already there. A reducer failure stops the program before
      anything is written. */
  method WriteAt(store: Store, path: string, spec: FilterSpec, tr: Reducer.Trace,
                 response: bool, filt: Reducer.Filter)
    returns (store': Store, r: Result<Series, Reducer.ReduceError>)
    ensures r.Failure? ==> store' == store
    ensures r.Success? ==> store'.Keys == store.Keys + {path} && store'[path] == r.value
    ensures r.Success? ==> forall p :: p in store && p != path ==> store'[p] == store[p]
    ensures r.Success? ==> r.value.start == tr.start && r.value.delta == Reducer.WindowSeconds
    ensures r.Success? ==> |r.value.values| <= Reducer.BufferSlots
    ensures r.Success? ==> forall i :: 0 <= i < |r.value.values| ==> r.value.values[i] >= 0.0
    ensures r.Success? ==> r.value.values == Reducer.Kept(tr, spec, response, filt, Reducer.NumWindows(|tr.data|, tr.sps))
  {
    r := Reducer.ReduceTrace(tr, spec, response, filt);
    if r.Success? {
      store' := store[path := r.value];
    } else {
      store' := store;
    }
  }

  /** One day of one band: the daily file of the day, named after the
      day's date, the stream and the band. */
  method WriteDay(store: Store, d: Date, stream: string, spec: FilterSpec, tr: Reducer.Trace,
                  response: bool, filt: Reducer.Filter)
    returns (store': Store, r: Result<Series, Reducer.ReduceError>)
    requires Valid(d)
    ensures r.Failure? ==> store' == store
    ensures r.Success? ==> store'.Keys == store.Keys + {DayPath(d, stream, spec)}
    ensures r.Success? ==> store'[DayPath(d, stream, spec)] == r.value
    ensures r.Success? ==> forall p :: p in store && p != DayPath(d, stream, spec) ==> store'[p] == store[p]
    ensures r.Success? ==> r.value.start == tr.start && r.value.delta == Reducer.WindowSeconds
    ensures r.Success? ==> |r.value.values| <= Reducer.BufferSlots
    ensures r.Success? ==> forall i :: 0 <= i < |r.value.values| ==> r.value.values[i] >= 0.0
    ensures r.Success? ==> r.value.values == Reducer.Kept(tr, spec, response, filt, Reducer.NumWindows(|tr.data|, tr.sps))
  {
    store', r := WriteAt(store, DayPath(d, stream, spec), spec, tr, response, filt);
  }
}
