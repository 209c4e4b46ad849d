/** The handful of Python string operations the program relies on:
    `str.split(sep)`, `str.replace(c, '')` and `str(n)`, plus the
    zero padding that `strftime("%j")` applies to day-of-year numbers. */
module Text {
  import opened Wrappers

  /** `sep` occurs in `s` starting at index `j`. */
  predicate OccursAt(s: string, sep: string, j: int)
  {
    0 <= j && j + |sep| <= |s| && s[j..j + |sep|] == sep
  }

  /** `s` holds no occurrence of `sep` at all. */
  ghost predicate Free(s: string, sep: string)
  {
    forall j :: !OccursAt(s, sep, j)
  }

  /** Leftmost occurrence of `sep` at or after index `i` (Python's `str.find`). */
  function FindFrom(s: string, sep: string, i: nat): (r: Option<nat>)
    requires |sep| > 0
    ensures r.Some? ==> i <= r.value && OccursAt(s, sep, r.value)
    ensures r.Some? ==> forall j :: i <= j < r.value ==> !OccursAt(s, sep, j)
    ensures r.None? ==> forall j :: i <= j ==> !OccursAt(s, sep, j)
    decreases |s| - i
  {
    if i + |sep| > |s| then None
    else if s[i..i + |sep|] == sep then Some(i)
    else FindFrom(s, sep, i + 1)
  }

  /** Joins the parts with `sep` between neighbours (Python's `sep.join`). */
  function Join(parts: seq<string>, sep: string): string
    requires |parts| >= 1
  {
    if |parts| == 1 then parts[0] else parts[0] + sep + Join(parts[1..], sep)
  }

  /** Python's `s.split(sep)` for a non-empty separator: cuts at every
      leftmost non-overlapping occurrence, always giving at least one part. */
  function Split(s: string, sep: string): (parts: seq<string>)
    requires |sep| > 0
    ensures |parts| >= 1
    ensures Join(parts, sep) == s
    ensures forall i :: 0 <= i < |parts| ==> Free(parts[i], sep)
    decreases |s|
  {
    match FindFrom(s, sep, 0)
    case None => [s]
    case Some(k) =>
      var rest := Split(s[k + |sep|..], sep);
      CutAt(s, sep, k);
      assert ([s[..k]] + rest)[1..] == rest;
      [s[..k]] + rest
  }

  /** Cutting at the leftmost occurrence `k` leaves a head free of `sep`
      that, with `sep` and the tail, gives back `s`. */
  lemma CutAt(s: string, sep: string, k: nat)
    requires |sep| > 0 && OccursAt(s, sep, k)
    requires forall j :: 0 <= j < k ==> !OccursAt(s, sep, j)
    ensures s[..k] + sep + s[k + |sep|..] == s
    ensures Free(s[..k], sep)
  {
    assert s == s[..k] + s[k..k + |sep|] + s[k + |sep|..];
    var head := s[..k];
    forall j ensures !OccursAt(head, sep, j) {
      if OccursAt(head, sep, j) {
        assert s[j..j + |sep|] == head[j..j + |sep|];
        assert OccursAt(s, sep, j);
      }
    }
  }

  /** Parts free of a one-character separator do not contain that character. */
  lemma CharFreeParts(parts: seq<string>, c: char)
    requires forall i :: 0 <= i < |parts| ==> Free(parts[i], [c])
    ensures forall i :: 0 <= i < |parts| ==> c !in parts[i]
  {
    forall i, j | 0 <= i < |parts| && 0 <= j < |parts[i]|
      ensures parts[i][j] != c
    {
      assert !OccursAt(parts[i], [c], j);
      assert parts[i][j..j + 1] == [parts[i][j]];
    }
  }

  /** Python's `s.replace(c, '')` for a single character `c`. */
  function RemoveChar(s: string, c: char): (r: string)
    ensures c !in r
    ensures multiset(r) == multiset(s)[c := 0]
  {
    if |s| == 0 then ""
    else
      assert s == [s[0]] + s[1..];
      if s[0] == c then RemoveChar(s[1..], c)
      else [s[0]] + RemoveChar(s[1..], c)
  }

  /** A one-character string loses the character if it is `c` and is kept
      as it is otherwise. */
  lemma RemoveCharSingle(x: char, c: char)
    ensures RemoveChar([x], c) == if x == c then "" else [x]
  {
    assert [x][1..] == "";
  }

  /** Removal works piece by piece: the kept characters stay in their
      order, so together with `RemoveCharSingle` this fixes the result. */
  lemma {:induction false} RemoveCharAppend(a: string, b: string, c: char)
    ensures RemoveChar(a + b, c) == RemoveChar(a, c) + RemoveChar(b, c)
  {
    if |a| == 0 {
      assert a + b == b;
    } else {
      assert (a + b)[1..] == a[1..] + b;
      assert (a + b)[0] == a[0];
      RemoveCharAppend(a[1..], b, c);
    }
  }

  predicate IsDigit(ch: char)
  {
    '0' <= ch <= '9'
  }

  function DigitChar(d: nat): (ch: char)
    requires d < 10
    ensures IsDigit(ch)
  {
    "0123456789"[d]
  }

  function DigitValue(ch: char): nat
    requires IsDigit(ch)
  {
    (ch - '0') as nat
  }

  /** Python's `str(n)` for a natural number: decimal, no leading zeros. */
  function NatToString(n: nat): (r: string)
    ensures |r| >= 1
    ensures forall i :: 0 <= i < |r| ==> IsDigit(r[i])
    ensures |r| <= 2 <==> n < 100
    ensures |r| <= 3 <==> n < 1000
    ensures n >= 10 ==> r[0] != '0'
  {
    if n < 10 then [DigitChar(n)] else NatToString(n / 10) + [DigitChar(n % 10)]
  }

  /** Reads a string of decimal digits back as a number. */
  function ParseNat(s: string): nat
    requires forall i :: 0 <= i < |s| ==> IsDigit(s[i])
  {
    if |s| == 0 then 0 else ParseNat(s[..|s| - 1]) * 10 + DigitValue(s[|s| - 1])
  }

  /** `str(n)` is read back as `n`. */
  lemma {:induction false} NatToStringRoundTrip(n: nat)
    ensures ParseNat(NatToString(n)) == n
  {
    if n >= 10 {
      var s := NatToString(n);
      assert s[..|s| - 1] == NatToString(n / 10);
      NatToStringRoundTrip(n / 10);
      assert DigitValue(DigitChar(n % 10)) == n % 10;
    } else {
      assert DigitValue(DigitChar(n)) == n;
    }
  }

  /** Python's `str(n)` for any integer. */
  function IntToString(n: int): (r: string)
    ensures n >= 0 ==> r == NatToString(n)
    ensures n < 0 ==> r == "-" + NatToString(-n)
  {
    if n < 0 then "-" + NatToString(-n) else NatToString(n)
  }

  /** An optional minus sign followed by at least one decimal digit. */
  predicate SignedDigits(s: string)
  {
    var k := if |s| >= 1 && s[0] == '-' then 1 else 0;
    |s| > k && forall i :: k <= i < |s| ==> IsDigit(s[i])
  }

  /** Reads an optionally signed decimal back as an integer. */
  function ParseInt(s: string): int
    requires SignedDigits(s)
  {
    if s[0] == '-' then
      assert forall i :: 0 <= i < |s| - 1 ==> s[1..][i] == s[i + 1];
      -(ParseNat(s[1..]) as int)
    else ParseNat(s)
  }

  /** Signed digits hold no dot. */
  lemma DigitsDotFree(s: string)
    requires SignedDigits(s)
    ensures forall i :: 0 <= i < |s| ==> s[i] != '.'
  {
  }

  /** `str(n)` is read back as `n`, for negative numbers too. */
  lemma IntToStringRoundTrip(n: int)
    ensures SignedDigits(IntToString(n))
    ensures ParseInt(IntToString(n)) == n
  {
    if n < 0 {
      NegativeRoundTrip(n);
    } else {
      UnsignedRoundTrip(n);
    }
  }

  lemma NegativeRoundTrip(n: int)
    requires n < 0
    ensures SignedDigits(IntToString(n)) && ParseInt(IntToString(n)) == n
  {
    NatToStringRoundTrip(-n);
    ParseNegative(IntToString(n), NatToString(-n));
  }

  lemma UnsignedRoundTrip(n: nat)
    ensures SignedDigits(IntToString(n)) && ParseInt(IntToString(n)) == n
  {
    ParseUnsigned(NatToString(n));
    NatToStringRoundTrip(n);
  }

  lemma ParseNegative(s: string, t: string)
    requires s == "-" + t
    requires |t| >= 1 && forall i :: 0 <= i < |t| ==> IsDigit(t[i])
    ensures SignedDigits(s) && ParseInt(s) == -(ParseNat(t) as int)
  {
    assert forall i :: 1 <= i < |s| ==> s[i] == t[i - 1];
    assert s[1..] == t;
  }

  lemma ParseUnsigned(t: string)
    requires |t| >= 1 && forall i :: 0 <= i < |t| ==> IsDigit(t[i])
    ensures SignedDigits(t) && ParseInt(t) == ParseNat(t)
  {
    assert IsDigit(t[0]);
  }

  /** A day-of-year number as `strftime("%j")` writes it: at least three
      digits, padded on the left with zeros. */
  function Jday3(j: nat): (r: string)
    ensures j < 1000 ==> |r| == 3
    ensures forall i :: 0 <= i < |r| ==> IsDigit(r[i])
    ensures |r| >= |NatToString(j)|
    ensures r[|r| - |NatToString(j)|..] == NatToString(j)
    ensures forall i :: 0 <= i < |r| - |NatToString(j)| ==> r[i] == '0'
    ensures j >= 100 ==> r == NatToString(j)
  {
    var s := NatToString(j);
    if |s| >= 3 then s
    else
      var r := seq(3 - |s|, _ => '0') + s;
      assert r[|r| - |s|..] == s;
      r
  }

  /** The zero padding does not change the number the digits spell. */
  lemma {:induction false} LeadingZerosVanish(s: string, z: nat)
    requires forall i :: 0 <= i < |s| ==> IsDigit(s[i])
    ensures var t := seq(z, _ => '0') + s;
            (forall i :: 0 <= i < |t| ==> IsDigit(t[i])) && ParseNat(t) == ParseNat(s)
    decreases |s|
  {
    var t := seq(z, _ => '0') + s;
    assert forall i :: 0 <= i < |t| ==> IsDigit(t[i]);
    if |s| == 0 {
      ZerosParseToZero(z);
      assert t == seq(z, _ => '0');
    } else {
      var s' := s[..|s| - 1];
      LeadingZerosVanish(s', z);
      assert t[..|t| - 1] == seq(z, _ => '0') + s';
    }
  }

  lemma {:induction false} ZerosParseToZero(z: nat)
    ensures ParseNat(seq(z, _ => '0')) == 0
  {
    if z > 0 {
      var t := seq(z, _ => '0');
      assert t[..|t| - 1] == seq(z - 1, _ => '0');
      ZerosParseToZero(z - 1);
    }
  }

  /** `%j` is read back as the day number it encodes. */
  lemma Jday3RoundTrip(j: nat)
    ensures ParseNat(Jday3(j)) == j
  {
    var s := NatToString(j);
    NatToStringRoundTrip(j);
    if |s| < 3 {
      LeadingZerosVanish(s, 3 - |s|);
    }
  }
}
