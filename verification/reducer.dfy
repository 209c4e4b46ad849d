/** The 10-minute RSAM reducer. A merged trace is walked in 600 s steps from
    its start time; each step's slice is dropped, replaced by the trace's
    final 600 s, or used as it is, depending on how many seconds of data it
    holds; every kept slice is detrended, optionally filtered, made absolute
    and averaged into one value.

    Time is counted in samples ("ticks") from the trace start: sample `i`
    lies at `start + i / sps` seconds, a 600 s step is `600 * sps` ticks,
    and obspy's `Trace.slice(a, b)` keeps the samples whose times lie in
    `[a, b]`, both ends included. */
module Reducer {
  import opened Wrappers
  import opened Timeseries
  import opened Filters
  import opened Numbers

  const WindowSeconds: int := 600
  const MinWindowSeconds: int := 500
  /** `np.zeros(145)`: the buffer the values are written into. */
  const BufferSlots: int := 145
  /** Dividing by 1e-9 converts metres per second to nanometres per second. */
  const NanoPerUnit: real := 1000000000.0

  /** Samples per second. */
  type Rate = r: int | r >= 1 witness 1

  /** A merged trace: sample `i` was taken at `start + i / sps` seconds. */
  datatype Trace = Trace(start: int, sps: Rate, data: seq<real>)

  /** obspy's `Trace.filter`, which designs its Butterworth filter from the
      band and the trace's sampling rate: its internals are not modelled;
      all that is known is that it keeps the number of samples. */
  type Filter = f: (FilterSpec, Rate, seq<real>) -> seq<real>
    | forall spec, sps, xs :: |f(spec, sps, xs)| == |xs|
    witness (spec: FilterSpec, sps: Rate, xs: seq<real>) => xs

  datatype ReduceError = BufferOverflow   // `data[index]` with index 145: IndexError

  /** The samples a window contributes, as a half-open index range. */
  datatype Window = Dropped | Used(lo: nat, hi: nat)

  function WindowTicks(sps: Rate): (w: nat)
    ensures w >= WindowSeconds
  {
    WindowSeconds * sps
  }

  /** obspy's `endtime` as a tick offset: the last sample, or the start
      itself for an empty trace. */
  function EndOffset(n: nat): nat
  {
    if n == 0 then 0 else n - 1
  }

  /** The tick at which the loop's `t` stands after `k` steps of 600 s. */
  function StepStart(sps: Rate, k: nat): nat
  {
    if k == 0 then 0 else StepStart(sps, k - 1) + WindowTicks(sps)
  }

  lemma {:induction false} StepStartProduct(sps: Rate, k: nat)
    ensures StepStart(sps, k) == WindowTicks(sps) * k
  {
    if k > 0 {
      StepStartProduct(sps, k - 1);
      assert WindowTicks(sps) * k == WindowTicks(sps) * (k - 1) + WindowTicks(sps);
    }
  }

  /** A closed time interval `[a, b]` in ticks, as given to `Trace.slice`. */
  datatype TimeRange = TimeRange(a: int, b: int)

  /** Sample `i` of an `n`-sample trace lies in the slice over `r`. */
  predicate InSlice(n: nat, r: TimeRange, i: int)
  {
    0 <= i < n && r.a <= i <= r.b
  }

  /** The window's own range `[t, t + 600]`, `k` steps after the start. */
  function OwnRange(sps: Rate, k: nat): TimeRange
  {
    TimeRange(StepStart(sps, k), StepStart(sps, k) + WindowTicks(sps))
  }

  /** The trace's final 600 s, `[endtime - 600, endtime]`. */
  function FinalRange(n: nat, sps: Rate): TimeRange
  {
    TimeRange(EndOffset(n) - WindowTicks(sps), EndOffset(n))
  }

  /** `npts * delta`: the duration obspy reports for `npts` samples. */
  function Duration(npts: int, sps: Rate): real
  {
    (npts as real) / (sps as real)
  }

  lemma DurationAtLeast(npts: int, sps: Rate, secs: int)
    ensures Duration(npts, sps) >= secs as real <==> npts >= secs * sps
  {
    var d := Duration(npts, sps);
    var f := sps as real;
    assert d * f == npts as real;
    assert (secs * sps) as real == (secs as real) * f;
    assert d - secs as real == (npts as real - (secs * sps) as real) / f;
  }

  /** Number of samples in the window's own slice `[t, t + 600]`, where
      `t` is `k` steps after the start. */
  function OwnSamples(n: nat, sps: Rate, k: nat): int
  {
    var lo := StepStart(sps, k);
    Min(lo + WindowTicks(sps), n - 1) - lo + 1
  }

  /** The duration policy for the window `k` steps after the start. The
      program compares `npts * delta` with 500 and 600 seconds; comparing
      the sample count with `500 * sps` and `600 * sps` is the same test
      (see `WindowPolicy`). */
  function WindowAt(n: nat, sps: Rate, k: nat): (w: Window)
    requires StepStart(sps, k) < EndOffset(n)
    ensures w.Used? ==> w.lo < w.hi <= n && w.hi - w.lo >= MinWindowSeconds * sps
  {
    var W := WindowTicks(sps);
    var lo := StepStart(sps, k);
    var npts := OwnSamples(n, sps, k);
    if npts < MinWindowSeconds * sps then Dropped
    else if npts < WindowSeconds * sps then Used(Max(EndOffset(n) - W, 0), n)
    else Used(lo, lo + npts)
  }

  /** The three duration cases: `OwnSamples` counts the window's own slice;
      under 500 s it is dropped, from 500 s up to 600 s the final 600 s of
      the trace are used instead, and otherwise its own slice is used. */
  lemma WindowPolicy(n: nat, sps: Rate, k: nat)
    requires StepStart(sps, k) < EndOffset(n)
    ensures forall i :: StepStart(sps, k) <= i < StepStart(sps, k) + OwnSamples(n, sps, k) <==>
                        InSlice(n, OwnRange(sps, k), i)
    ensures var w := WindowAt(n, sps, k);
            var d := Duration(OwnSamples(n, sps, k), sps);
            && (d < MinWindowSeconds as real ==> w.Dropped?)
            && (MinWindowSeconds as real <= d < WindowSeconds as real ==>
                  w.Used? && forall i :: w.lo <= i < w.hi <==> InSlice(n, FinalRange(n, sps), i))
            && (WindowSeconds as real <= d ==>
                  w.Used? && forall i :: w.lo <= i < w.hi <==> InSlice(n, OwnRange(sps, k), i))
  {
    DurationAtLeast(OwnSamples(n, sps, k), sps, MinWindowSeconds);
    DurationAtLeast(OwnSamples(n, sps, k), sps, WindowSeconds);
  }

  /** The absolute mean of the detrended, filtered window, before any
      unit conversion. */
  function AbsMean(x: seq<real>, spec: FilterSpec, sps: Rate, filt: Filter): (m: real)
    requires |x| > 0
    ensures m >= 0.0
  {
    var y := if spec.NoFilter? then Detrend(x) else filt(spec, sps, Detrend(x));
    MeanNonNegative(Abs(y));
    Mean(Abs(y))
  }

  /** One RSAM value: `mean(|filter(detrend(x))|)`, divided by 1e-9 when
      the response was removed. */
  function WindowMean(x: seq<real>, spec: FilterSpec, sps: Rate, response: bool, filt: Filter): (r: real)
    requires |x| > 0
    ensures r >= 0.0
    ensures !response ==> r == AbsMean(x, spec, sps, filt)
    ensures response ==> r == AbsMean(x, spec, sps, filt) * NanoPerUnit
    ensures spec.NoFilter? ==> AbsMean(x, spec, sps, filt) == Mean(Abs(Detrend(x)))
  {
    var m := AbsMean(x, spec, sps, filt);
    if response then m / 0.000000001 else m
  }

  /** Without a filter, a constant window has RSAM zero, whatever the
      constant: detrending removes it. */
  lemma ConstantWindowZero(x: seq<real>, c: real, sps: Rate, response: bool, filt: Filter)
    requires |x| > 0
    requires forall i :: 0 <= i < |x| ==> x[i] == c
    ensures WindowMean(x, NoFilter, sps, response, filt) == 0.0
  {
    DetrendConstant(x, c);
    var a := Abs(Detrend(x));
    assert forall i :: 0 <= i < |a| ==> a[i] == 0.0;
    SumZeros(a);
  }

  /** How many times `while t < endtime` runs. */
  function NumWindows(n: nat, sps: Rate): (r: nat)
    ensures StepStart(sps, r) >= EndOffset(n)
    ensures r > 0 ==> StepStart(sps, r - 1) < EndOffset(n)
  {
    var e, w := EndOffset(n), WindowTicks(sps);
    var r := if e == 0 then 0 else (e - 1) / w + 1;
    StepStartProduct(sps, r);
    if r == 0 then r
    else
      StepStartProduct(sps, r - 1);
      CountBelow(w, e, r);
      CountBelow(w, e, r - 1);
      r
  }

  /** Window `k` starts at `start + 600 k` seconds, and the loop visits
      exactly the `k` whose start is before `endtime`. */
  lemma WindowStarts(n: nat, sps: Rate, k: nat)
    ensures k < NumWindows(n, sps) <==> StepStart(sps, k) < EndOffset(n)
  {
    StepStartProduct(sps, k);
    if EndOffset(n) > 0 {
      CountBelow(WindowTicks(sps), EndOffset(n), k);
    }
  }

  /** `k <= (e - 1) / w` exactly when `w * k < e`. */
  lemma CountBelow(w: int, e: int, k: nat)
    requires w > 0 && e > 0
    ensures k < (e - 1) / w + 1 <==> w * k < e
  {
    var q := (e - 1) / w;
    var r := (e - 1) % w;
    assert e - 1 == w * q + r && 0 <= r < w;
    if k <= q {
      MulMonotone(w, k, q);
    } else {
      MulMonotone(w, q + 1, k);
      assert w * (q + 1) == w * q + w;
    }
  }

  lemma MulMonotone(w: nat, a: nat, b: nat)
    requires a <= b
    ensures w * a <= w * b
  {
    assert w * b == w * a + w * (b - a);
  }

  /** The slices of windows `0 .. k-1` that are kept, in window order. */
  function KeptSlices(n: nat, sps: Rate, k: nat): (r: seq<Window>)
    requires k <= NumWindows(n, sps)
    ensures |r| <= k
    ensures forall i :: 0 <= i < |r| ==> r[i].Used? && r[i].lo < r[i].hi <= n
  {
    if k == 0 then []
    else
      WindowStarts(n, sps, k - 1);
      var w := WindowAt(n, sps, k - 1);
      KeptSlices(n, sps, k - 1) + (if w.Used? then [w] else [])
  }

  /** Later windows only append: the first `k` windows' slices are a
      prefix of the first `m` windows' slices. */
  lemma {:induction false} KeptPrefix(n: nat, sps: Rate, k: nat, m: nat)
    requires k <= m <= NumWindows(n, sps)
    ensures KeptSlices(n, sps, k) <= KeptSlices(n, sps, m)
    decreases m - k
  {
    if k < m {
      KeptPrefix(n, sps, k, m - 1);
      var a, b, c := KeptSlices(n, sps, k), KeptSlices(n, sps, m - 1), KeptSlices(n, sps, m);
      assert b <= c;
      assert forall i :: 0 <= i < |a| ==> a[i] == b[i] == c[i];
    }
  }

  /** One RSAM value per kept slice. */
  function ValuesOf(tr: Trace, slices: seq<Window>, spec: FilterSpec, response: bool, filt: Filter): (r: seq<real>)
    requires forall i :: 0 <= i < |slices| ==> slices[i].Used? && slices[i].lo < slices[i].hi <= |tr.data|
    ensures |r| == |slices|
    ensures forall i :: 0 <= i < |r| ==> r[i] >= 0.0
  {
    seq(|slices|, i requires 0 <= i < |slices| =>
      WindowMean(tr.data[slices[i].lo..slices[i].hi], spec, tr.sps, response, filt))
  }

  /** The values of windows `0 .. k-1`, in window order: the reference the
      loop is checked against. */
  function Kept(tr: Trace, spec: FilterSpec, response: bool, filt: Filter, k: nat): seq<real>
    requires k <= NumWindows(|tr.data|, tr.sps)
  {
    ValuesOf(tr, KeptSlices(|tr.data|, tr.sps, k), spec, response, filt)
  }

  /** One more window appends its value if it is kept and nothing if it
      is dropped. */
  lemma KeptStep(tr: Trace, spec: FilterSpec, response: bool, filt: Filter, k: nat)
    requires k < NumWindows(|tr.data|, tr.sps)
    ensures StepStart(tr.sps, k) < EndOffset(|tr.data|)
    ensures WindowAt(|tr.data|, tr.sps, k).Dropped? ==>
              Kept(tr, spec, response, filt, k + 1) == Kept(tr, spec, response, filt, k)
    ensures var w := WindowAt(|tr.data|, tr.sps, k);
            w.Used? ==> Kept(tr, spec, response, filt, k + 1)
                        == Kept(tr, spec, response, filt, k) + [WindowMean(tr.data[w.lo..w.hi], spec, tr.sps, response, filt)]
  {
    var n := |tr.data|;
    WindowStarts(n, tr.sps, k);
    var w := WindowAt(n, tr.sps, k);
    var a, b := KeptSlices(n, tr.sps, k), KeptSlices(n, tr.sps, k + 1);
    if w.Used? {
      assert b == a + [w];
      assert forall i :: 0 <= i < |a| ==> b[i] == a[i];
    } else {
      assert b == a;
    }
  }

  /** A kept window that finds the buffer full means the whole trace has
      more values than the buffer holds. */
  lemma KeptOverflow(tr: Trace, spec: FilterSpec, response: bool, filt: Filter, k: nat)
    requires k < NumWindows(|tr.data|, tr.sps)
    requires StepStart(tr.sps, k) < EndOffset(|tr.data|) && WindowAt(|tr.data|, tr.sps, k).Used?
    requires |Kept(tr, spec, response, filt, k)| == BufferSlots
    ensures |Kept(tr, spec, response, filt, NumWindows(|tr.data|, tr.sps))| > BufferSlots
  {
    var n := |tr.data|;
    KeptStep(tr, spec, response, filt, k);
    KeptPrefix(n, tr.sps, k + 1, NumWindows(n, tr.sps));
  }

  /** Without a filter, a trace whose samples are all equal reduces to
      values that are all zero. */
  lemma ConstantTraceZero(tr: Trace, c: real, response: bool, filt: Filter, k: nat)
    requires k <= NumWindows(|tr.data|, tr.sps)
    requires forall i :: 0 <= i < |tr.data| ==> tr.data[i] == c
    ensures forall i :: 0 <= i < |Kept(tr, NoFilter, response, filt, k)| ==> Kept(tr, NoFilter, response, filt, k)[i] == 0.0
  {
    var slices := KeptSlices(|tr.data|, tr.sps, k);
    forall i | 0 <= i < |slices|
      ensures WindowMean(tr.data[slices[i].lo..slices[i].hi], NoFilter, tr.sps, response, filt) == 0.0
    {
      ConstantWindowZero(tr.data[slices[i].lo..slices[i].hi], c, tr.sps, response, filt);
    }
  }

  /** A full day fetched from midnight to midnight (86400 s, with or without
      the closing sample) runs the loop 144 times. */
  predicate FullDayLength(n: nat, sps: Rate)
  {
    n == 144 * WindowTicks(sps) || n == 144 * WindowTicks(sps) + 1
  }

  lemma FullDayWindowCount(n: nat, sps: Rate)
    requires FullDayLength(n, sps)
    ensures NumWindows(n, sps) == 144
  {
    DivBetween(EndOffset(n) - 1, WindowTicks(sps), 143);
  }

  /** In a full day, window `k` is neither dropped nor shifted. */
  lemma FullDayWindow(n: nat, sps: Rate, k: nat)
    requires FullDayLength(n, sps) && k < 144
    ensures StepStart(sps, k) < EndOffset(n)
    ensures WindowAt(n, sps, k).Used? && WindowAt(n, sps, k).lo == StepStart(sps, k)
  {
    StepStartProduct(sps, k);
    MulMonotone(WindowTicks(sps), k, 143);
  }

  /** Every one of a full day's windows contributes a slice. */
  lemma {:induction false} FullDayKept(n: nat, sps: Rate, k: nat)
    requires FullDayLength(n, sps) && k <= 144
    ensures NumWindows(n, sps) == 144
    ensures |KeptSlices(n, sps, k)| == k
  {
    FullDayWindowCount(n, sps);
    if k > 0 {
      FullDayKept(n, sps, k - 1);
      FullDayWindow(n, sps, k - 1);
    }
  }

  lemma DivBetween(x: int, w: int, q: int)
    requires w > 0 && w * q <= x < w * q + w
    ensures x / w == q
  {
    var d := x / w;
    assert x == w * d + x % w;
    assert w * (d - q) == w * d - w * q;
    MulAwayFromZero(w, d - q);
  }

  lemma MulAwayFromZero(w: int, z: int)
    requires w > 0
    ensures z >= 1 ==> w * z >= w
    ensures z <= -1 ==> w * z <= -w
  {
    if z >= 1 {
      MulMonotoneInt(w, 1, z);
    }
    if z <= -1 {
      MulMonotoneInt(w, z, -1);
    }
  }

  lemma MulMonotoneInt(w: nat, a: int, b: int)
    requires a <= b
    ensures w * a <= w * b
  {
    assert w * b == w * a + w * (b - a);
  }

  /** A full day reduces to 144 values, which fit the 145-slot buffer. */
  lemma FullDayCount(tr: Trace, spec: FilterSpec, response: bool, filt: Filter)
    requires FullDayLength(|tr.data|, tr.sps)
    ensures |Kept(tr, spec, response, filt, NumWindows(|tr.data|, tr.sps))| == 144 <= BufferSlots
  {
    FullDayKept(|tr.data|, tr.sps, 144);
  }

  /** The series of a trace whose values fit the buffer: one value per
      kept window, from the trace's start at 600 s spacing. */
  function Reduced(tr: Trace, spec: FilterSpec, response: bool, filt: Filter): Series
  {
    Series(tr.start, WindowSeconds, Kept(tr, spec, response, filt, NumWindows(|tr.data|, tr.sps)))
  }

  /** Reduces one merged trace to its 10-minute series. The program writes
      into a 145-slot buffer at `index`; the buffer is modelled by the
      values written so far, and writing past its end fails. */
  method ReduceTrace(tr: Trace, spec: FilterSpec, response: bool, filt: Filter)
    returns (r: Result<Series, ReduceError>)
    ensures var all := Kept(tr, spec, response, filt, NumWindows(|tr.data|, tr.sps));
            && (r.Success? <==> |all| <= BufferSlots)
            && (r.Success? ==> r.value == Series(tr.start, WindowSeconds, all))
  {
    var n := |tr.data|;
    var endOffset := EndOffset(n);
    var data: seq<real> := [];
    var t := 0;
    var k := 0;
    while t < endOffset
      invariant t == StepStart(tr.sps, k)
      invariant k <= NumWindows(n, tr.sps)
      invariant data == Kept(tr, spec, response, filt, k)
      invariant |data| <= BufferSlots
      decreases endOffset - t
    {
      WindowStarts(n, tr.sps, k);
      KeptStep(tr, spec, response, filt, k);
      match WindowAt(n, tr.sps, k) {
        case Dropped =>
        case Used(lo, hi) =>
          var mean := WindowMean(tr.data[lo..hi], spec, tr.sps, response, filt);
          if |data| == BufferSlots {
            KeptOverflow(tr, spec, response, filt, k);
            return Failure(BufferOverflow);
          }
          data := data + [mean];
      }
      t := t + WindowTicks(tr.sps);
      k := k + 1;
    }
    WindowStarts(n, tr.sps, k);
    r := Success(Series(tr.start, WindowSeconds, data));
  }
}
