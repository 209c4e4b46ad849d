/** The `--filter-ranges` argument: a list such as `[0,5],[5,],[,2]` is cut
    into bound pairs, each pair is classified by which of its two bounds is
    non-empty, and the class fixes both the filter applied and the
    file-name suffix under which the results are stored. */
module Filters {
  import opened Wrappers
  import opened Text

  /** One frequency band. Bounds are kept as the two-decimal strings the
      program builds with `'%.2f' % float(b)`; the filter is later called
      with the float value of exactly these strings. */
  datatype FilterSpec =
    | NoFilter
    | LowPass(lower: string)
    | HighPass(upper: string)
    | BandPass(lower: string, upper: string)

  datatype ParseError =
    | MissingBound(range: string)   // fewer than two comma-separated bounds: IndexError
    | NotANumber(bound: string)     // `float(bound)` raises ValueError

  /** `'%.2f' % float(b)`: `None` when `float` rejects `b`. Floating-point
      parsing and formatting are not modelled, so this is a parameter; all
      that is known of it is that what it produces is a formatted bound. */
  type Formatter = f: string -> Option<string>
    | forall b :: f(b).Some? ==> FormattedBound(f(b).value)
    witness (b: string) => None

  /** The four-way `if/elif` chain on the truthiness of the two bounds. */
  function Classify(b0: string, b1: string, fmt: Formatter): (r: Result<FilterSpec, ParseError>)
    ensures r.Success? ==> (r.value.NoFilter? <==> b0 == "" && b1 == "")
    ensures r.Success? ==> (r.value.LowPass? <==> b0 != "" && b1 == "")
    ensures r.Success? ==> (r.value.HighPass? <==> b0 == "" && b1 != "")
    ensures r.Success? ==> (r.value.BandPass? <==> b0 != "" && b1 != "")
    ensures r.Success? && (r.value.LowPass? || r.value.BandPass?) ==> fmt(b0) == Some(r.value.lower)
    ensures r.Success? && (r.value.HighPass? || r.value.BandPass?) ==> fmt(b1) == Some(r.value.upper)
    ensures r.Failure? <==> (b0 != "" && fmt(b0).None?) || (b1 != "" && fmt(b1).None?)
    ensures r.Failure? ==> r.error == NotANumber(if b0 != "" && fmt(b0).None? then b0 else b1)
    ensures r.Success? ==> WellFormed(r.value)
  {
    if b0 == "" && b1 == "" then
      Success(NoFilter)
    else if b0 != "" && b1 == "" then
      match fmt(b0)
      case None => Failure(NotANumber(b0))
      case Some(lo) => Success(LowPass(lo))
    else if b1 != "" && b0 == "" then
      match fmt(b1)
      case None => Failure(NotANumber(b1))
      case Some(hi) => Success(HighPass(hi))
    else
      match fmt(b0)
      case None => Failure(NotANumber(b0))
      case Some(lo) =>
        match fmt(b1)
        case None => Failure(NotANumber(b1))
        case Some(hi) => Success(BandPass(lo, hi))
  }

  /** `range.replace('[', '').replace(']', '').split(',')`. */
  function Bounds(range: string): (bounds: seq<string>)
    ensures |bounds| >= 1
    ensures Join(bounds, ",") == RemoveChar(RemoveChar(range, '['), ']')
    ensures forall i :: 0 <= i < |bounds| ==> ',' !in bounds[i]
  {
    var parts := Split(RemoveChar(RemoveChar(range, '['), ']'), ",");
    CharFreeParts(parts, ',');
    parts
  }

  /** One range: only the first two bounds are looked at; fewer than two is
      the IndexError the progress message raises. */
  function ParseRange(range: string, fmt: Formatter): (r: Result<FilterSpec, ParseError>)
    ensures |Bounds(range)| < 2 <==> r == Failure(MissingBound(range))
    ensures |Bounds(range)| >= 2 ==> r == Classify(Bounds(range)[0], Bounds(range)[1], fmt)
  {
    var b := Bounds(range);
    if |b| < 2 then Failure(MissingBound(range)) else Classify(b[0], b[1], fmt)
  }

  /** Applies `parse` to every piece in order, stopping at the first failure,
      as the program's loop over the ranges stops at the first exception. */
  function ParseEach<A, B, E>(pieces: seq<A>, parse: A -> Result<B, E>): (r: Result<seq<B>, E>)
    ensures r.Success? ==> |r.value| == |pieces|
    ensures r.Success? ==> forall i :: 0 <= i < |pieces| ==> parse(pieces[i]) == Success(r.value[i])
    ensures r.Failure? <==> exists i :: 0 <= i < |pieces| && parse(pieces[i]).Failure?
    ensures r.Failure? ==> exists i :: 0 <= i < |pieces| && parse(pieces[i]) == Failure(r.error)
                                       && forall j :: 0 <= j < i ==> parse(pieces[j]).Success?
  {
    if |pieces| == 0 then Success([])
    else
      match parse(pieces[0])
      case Failure(e) => Failure(e)
      case Success(b) =>
        match ParseEach(pieces[1..], parse)
        case Failure(e) =>
          ghost var i :| 0 <= i < |pieces[1..]| && parse(pieces[1..][i]) == Failure(e)
                         && forall j :: 0 <= j < i ==> parse(pieces[1..][j]).Success?;
          assert parse(pieces[i + 1]) == Failure(e);
          assert forall j :: 1 <= j < i + 1 ==> pieces[j] == pieces[1..][j - 1];
          Failure(e)
        case Success(rest) =>
          assert forall i :: 1 <= i < |pieces| ==> pieces[i] == pieces[1..][i - 1];
          Success([b] + rest)
  }

  /** `args.filter_ranges.split('],[')`, each piece parsed. */
  function ParseRanges(arg: string, fmt: Formatter): (r: Result<seq<FilterSpec>, ParseError>)
    ensures r.Success? ==> |r.value| == |Split(arg, "],[")|
    ensures r.Success? ==> forall i :: 0 <= i < |r.value| ==> ParseRange(Split(arg, "],[")[i], fmt) == Success(r.value[i])
    ensures r.Success? ==> forall i :: 0 <= i < |r.value| ==> WellFormed(r.value[i])
    ensures r.Failure? ==> exists i :: 0 <= i < |Split(arg, "],[")| && ParseRange(Split(arg, "],[")[i], fmt) == Failure(r.error)
                                       && forall j :: 0 <= j < i ==> ParseRange(Split(arg, "],[")[j], fmt).Success?
  {
    var pieces := Split(arg, "],[");
    var parse := (range: string) => ParseRange(range, fmt);
    var r := ParseEach(pieces, parse);
    assert forall i :: 0 <= i < |pieces| ==> parse(pieces[i]) == ParseRange(pieces[i], fmt);
    r
  }

  /** The file-name discriminator shared by the daily and yearly files:
      every band's suffix begins with a dot and ends with `.rsam`. */
  function Suffix(spec: FilterSpec): (r: string)
    ensures StartsWith(r, ".") && EndsWith(r, ".rsam")
  {
    match spec
    case NoFilter => ".rsam"
    case LowPass(lo) => ".low_pass_" + lo + ".rsam"
    case HighPass(hi) => ".high_pass_" + hi + ".rsam"
    case BandPass(lo, hi) => ".band_pass_" + lo + "-" + hi + ".rsam"
  }

  /** What `'%.2f'` can produce: non-empty, with a minus sign at most in front. */
  predicate FormattedBound(b: string)
  {
    |b| >= 1 && forall i :: 1 <= i < |b| ==> b[i] != '-'
  }

  predicate WellFormed(spec: FilterSpec)
  {
    spec.BandPass? ==> FormattedBound(spec.lower)
  }

  predicate StartsWith(s: string, p: string)
  {
    |p| <= |s| && s[..|p|] == p
  }

  predicate EndsWith(s: string, p: string)
  {
    |p| <= |s| && s[|s| - |p|..] == p
  }

  /** Reads a suffix back into the band it names. */
  function ParseSuffix(s: string): Option<FilterSpec>
  {
    if s == ".rsam" then Some(NoFilter)
    else if |s| < 5 || s[|s| - 5..] != ".rsam" then None
    else
      var body := s[..|s| - 5];
      if StartsWith(body, ".low_pass_") then Some(LowPass(body[10..]))
      else if StartsWith(body, ".high_pass_") then Some(HighPass(body[11..]))
      else if StartsWith(body, ".band_pass_") then
        var mid := body[11..];
        match FindFrom(mid, "-", 1)
        case None => None
        case Some(k) => Some(BandPass(mid[..k], mid[k + 1..]))
      else None
  }

  /** The suffix names its band unambiguously: the class and both bounds
      can be read back from it. */
  lemma SuffixRoundTrip(spec: FilterSpec)
    requires WellFormed(spec)
    ensures ParseSuffix(Suffix(spec)) == Some(spec)
  {
    match spec
    case NoFilter =>
    case LowPass(lo) => LowPassRoundTrip(lo);
    case HighPass(hi) => HighPassRoundTrip(hi);
    case BandPass(lo, hi) => BandPassRoundTrip(lo, hi);
  }

  lemma LowPassRoundTrip(lo: string)
    ensures ParseSuffix(Suffix(LowPass(lo))) == Some(LowPass(lo))
  {
    var s := Suffix(LowPass(lo));
    assert s[|s| - 5..] == ".rsam";
    assert s[..|s| - 5] == ".low_pass_" + lo;
  }

  lemma HighPassRoundTrip(hi: string)
    ensures ParseSuffix(Suffix(HighPass(hi))) == Some(HighPass(hi))
  {
    var s := Suffix(HighPass(hi));
    var body := ".high_pass_" + hi;
    assert s[|s| - 5..] == ".rsam";
    assert s[..|s| - 5] == body;
    assert !StartsWith(body, ".low_pass_") by { assert body[1] == 'h'; }
  }

  lemma BandPassRoundTrip(lo: string, hi: string)
    requires FormattedBound(lo)
    ensures ParseSuffix(Suffix(BandPass(lo, hi))) == Some(BandPass(lo, hi))
  {
    var s := Suffix(BandPass(lo, hi));
    var body := ".band_pass_" + lo + "-" + hi;
    assert s[|s| - 5..] == ".rsam";
    assert s[..|s| - 5] == body;
    assert !StartsWith(body, ".low_pass_") by { assert body[1] == 'b'; }
    assert !StartsWith(body, ".high_pass_") by { assert body[1] == 'b'; }
    var mid := lo + "-" + hi;
    assert body[11..] == mid;
    FirstDash(lo, hi);
  }

  /** In `lo + "-" + hi`, searching for a dash from position 1 stops at the
      one between the bounds. */
  lemma FirstDash(lo: string, hi: string)
    requires FormattedBound(lo)
    ensures var mid := lo + "-" + hi;
            FindFrom(mid, "-", 1) == Some(|lo|) && mid[..|lo|] == lo && mid[|lo| + 1..] == hi
  {
    var mid := lo + "-" + hi;
    assert OccursAt(mid, "-", |lo|) by { assert mid[|lo|..|lo| + 1] == "-"; }
    forall j | 1 <= j < |lo| ensures !OccursAt(mid, "-", j) {
      assert mid[j..j + 1] == [lo[j]];
    }
    assert FindFrom(mid, "-", 1).value == |lo|;
  }

  /** Two well-formed bands never share a file name suffix. */
  lemma SuffixInjective(a: FilterSpec, b: FilterSpec)
    requires WellFormed(a) && WellFormed(b)
    requires Suffix(a) == Suffix(b)
    ensures a == b
  {
    SuffixRoundTrip(a);
    SuffixRoundTrip(b);
  }
}
