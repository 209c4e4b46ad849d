/** The numeric vocabulary of RSAM: sums and means of sample sequences, the
    constant detrend obspy applies, element-wise absolute value, and the
    equally spaced series the program writes to miniSEED files. */
module Timeseries {

  /** An equally spaced series: `values[i]` belongs to time `start + i * delta`
      (seconds since the epoch). Station metadata is not carried. */
  datatype Series = Series(start: int, delta: int, values: seq<real>)

  function Sum(xs: seq<real>): real
  {
    if |xs| == 0 then 0.0 else xs[0] + Sum(xs[1..])
  }

  /** numpy's `mean()`, defined only for a non-empty array. */
  function Mean(xs: seq<real>): real
    requires |xs| > 0
  {
    Sum(xs) / (|xs| as real)
  }

  /** The mean of a single value is that value. */
  lemma MeanSingleton(v: real)
    ensures Mean([v]) == v
  {
    assert [v][1..] == [];
    assert Sum([v]) == v + Sum([]);
  }

  function AbsValue(x: real): real
  {
    if x < 0.0 then -x else x
  }

  /** numpy's `np.absolute`, element by element. */
  function Abs(xs: seq<real>): (r: seq<real>)
    ensures |r| == |xs|
    ensures forall i :: 0 <= i < |xs| ==> r[i] >= 0.0 && (r[i] == xs[i] || r[i] == -xs[i])
  {
    seq(|xs|, i requires 0 <= i < |xs| => AbsValue(xs[i]))
  }

  /** obspy's `detrend(type='constant')`: the one shift of the samples
      that leaves them summing to zero. */
  function Detrend(xs: seq<real>): (r: seq<real>)
    requires |xs| > 0
    ensures |r| == |xs|
    ensures forall i :: 0 <= i < |r| ==> r[i] - r[0] == xs[i] - xs[0]
    ensures Sum(r) == 0.0
  {
    var r := seq(|xs|, i requires 0 <= i < |xs| => xs[i] - Mean(xs));
    SumShift(xs, r, Mean(xs));
    r
  }

  lemma {:induction false} SumNonNegative(xs: seq<real>)
    requires forall i :: 0 <= i < |xs| ==> xs[i] >= 0.0
    ensures Sum(xs) >= 0.0
  {
    if |xs| > 0 {
      assert forall i :: 0 <= i < |xs[1..]| ==> xs[1..][i] == xs[i + 1];
      SumNonNegative(xs[1..]);
    }
  }

  /** The mean of values that are all at least zero is at least zero. */
  lemma MeanNonNegative(xs: seq<real>)
    requires |xs| > 0
    requires forall i :: 0 <= i < |xs| ==> xs[i] >= 0.0
    ensures Mean(xs) >= 0.0
  {
    SumNonNegative(xs);
  }

  /** Shifting every element by `c` shifts the sum by `|xs| * c`. */
  lemma {:induction false} SumShift(xs: seq<real>, ys: seq<real>, c: real)
    requires |ys| == |xs|
    requires forall i :: 0 <= i < |xs| ==> ys[i] == xs[i] - c
    ensures Sum(ys) == Sum(xs) - (|xs| as real) * c
  {
    if |xs| > 0 {
      SumShift(xs[1..], ys[1..], c);
    }
  }

  lemma {:induction false} SumZeros(xs: seq<real>)
    requires forall i :: 0 <= i < |xs| ==> xs[i] == 0.0
    ensures Sum(xs) == 0.0
  {
    if |xs| > 0 {
      SumZeros(xs[1..]);
    }
  }

  /** A constant window detrends to all zeros, whatever the constant. */
  lemma DetrendConstant(xs: seq<real>, c: real)
    requires |xs| > 0
    requires forall i :: 0 <= i < |xs| ==> xs[i] == c
    ensures forall i :: 0 <= i < |xs| ==> Detrend(xs)[i] == 0.0
  {
    var zs := seq(|xs|, _ => 0.0);
    SumShift(xs, zs, c);
    SumZeros(zs);
    var n := |xs| as real;
    assert Sum(xs) == n * c;
    assert Mean(xs) == c;
  }
}
