/** Proleptic Gregorian calendar days as `strftime("%Y.%j")` sees them: a
    year and a 1-based day of the year. A UTC day is always 86400 s long
    (obspy's UTCDateTime has no leap seconds), so stepping a time back by
    86400 s steps its date back by one day. */
module Calendar {
  import opened Text

  predicate IsLeap(y: int)
  {
    y % 4 == 0 && (y % 100 != 0 || y % 400 == 0)
  }

  function DaysInYear(y: int): int
  {
    if IsLeap(y) then 366 else 365
  }

  datatype Date = Date(year: int, jday: int)

  predicate Valid(d: Date)
  {
    1 <= d.jday <= DaysInYear(d.year)
  }

  /** Days from 1 January of year 1 to 1 January of year `y`. */
  function DaysBeforeYear(y: int): int
  {
    var p := y - 1;
    365 * p + p / 4 - p / 100 + p / 400
  }

  /** Day number counted from 1 January of year 1 (which is day 0). */
  function Ordinal(d: Date): int
  {
    DaysBeforeYear(d.year) + d.jday - 1
  }

  /** Integer division by 4, 100 and 400 steps up exactly at multiples. */
  lemma DivSteps(y: int)
    ensures y / 4 - (y - 1) / 4 == (if y % 4 == 0 then 1 else 0)
    ensures y / 100 - (y - 1) / 100 == (if y % 100 == 0 then 1 else 0)
    ensures y / 400 - (y - 1) / 400 == (if y % 400 == 0 then 1 else 0)
    ensures y % 100 == 0 ==> y % 4 == 0
    ensures y % 400 == 0 ==> y % 100 == 0
  {
  }

  lemma YearLength(y: int)
    ensures DaysBeforeYear(y + 1) == DaysBeforeYear(y) + DaysInYear(y)
  {
    DivSteps(y);
  }

  function NextDay(d: Date): (n: Date)
    requires Valid(d)
    ensures Valid(n)
    ensures Ordinal(n) == Ordinal(d) + 1
  {
    YearLength(d.year);
    if d.jday < DaysInYear(d.year) then Date(d.year, d.jday + 1) else Date(d.year + 1, 1)
  }

  /** The date of a time 86400 s earlier. */
  function PrevDay(d: Date): (p: Date)
    requires Valid(d)
    ensures Valid(p)
    ensures Ordinal(p) == Ordinal(d) - 1
    ensures NextDay(p) == d
  {
    YearLength(d.year - 1);
    if d.jday > 1 then Date(d.year, d.jday - 1) else Date(d.year - 1, DaysInYear(d.year - 1))
  }

  /** The date `n` days before `d`. */
  function DaysBack(d: Date, n: nat): (r: Date)
    requires Valid(d)
    ensures Valid(r)
    ensures Ordinal(r) == Ordinal(d) - n
  {
    if n == 0 then d else PrevDay(DaysBack(d, n - 1))
  }

  /** Valid dates are told apart by their day number. */
  lemma OrdinalInjective(a: Date, b: Date)
    requires Valid(a) && Valid(b)
    requires Ordinal(a) == Ordinal(b)
    ensures a == b
  {
    YearLength(a.year);
    YearLength(b.year);
    if a.year < b.year {
      DaysBeforeYearMonotone(a.year + 1, b.year);
    } else if b.year < a.year {
      DaysBeforeYearMonotone(b.year + 1, a.year);
    }
  }

  lemma DaysBeforeYearMonotone(x: int, y: int)
    requires x <= y
    ensures DaysBeforeYear(x) <= DaysBeforeYear(y)
    decreases y - x
  {
    if x < y {
      YearLength(x);
      DaysBeforeYearMonotone(x + 1, y);
    }
  }

  const DaySeconds := 86400

  /** The POSIX time of the first second of a date, as `UTCDateTime(date)`
      gives it for a date parsed without a time of day. */
  function Midnight(d: Date): int
  {
    DaySeconds * (Ordinal(d) - Ordinal(Date(1970, 1)))
  }

  /** `strftime("%Y.%j")`: the year as `str` writes it, a dot, and the
      zero-padded three-digit day of the year. */
  function YearJday(d: Date): (r: string)
    requires Valid(d)
    ensures |r| == |IntToString(d.year)| + 4 && r[|r| - 4] == '.'
    ensures forall i :: 0 <= i < |r| - 4 ==> r[i] != '.'
    ensures SignedDigits(r[..|r| - 4]) && ParseInt(r[..|r| - 4]) == d.year
    ensures forall i :: |r| - 3 <= i < |r| ==> IsDigit(r[i])
    ensures ParseNat(r[|r| - 3..]) == d.jday
  {
    var y, j := IntToString(d.year), Jday3(d.jday);
    IntToStringRoundTrip(d.year);
    Jday3RoundTrip(d.jday);
    DotJoinParts(y, j);
    DigitsDotFree(y);
    y + "." + j
  }

  /** `y + "." + j` with a three-character `j` splits back into its parts. */
  lemma DotJoinParts(y: string, j: string)
    requires |j| == 3
    ensures var r := y + "." + j;
            |r| == |y| + 4 && r[|r| - 4] == '.' && r[..|r| - 4] == y && r[|r| - 3..] == j
  {
    var r := y + "." + j;
    assert r[..|r| - 4] == y;
    assert r[|r| - 3..] == j;
  }
}
