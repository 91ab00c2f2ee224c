/** The pieces of the Java platform the service relies on, on whole numbers
    and character sequences: `Long.parseLong`, `String.contains`, the floor
    of `Math.sqrt` and the calendar year of an instant. */
module JavaLib {
  import opened Entity

  const MinLong := -0x8000_0000_0000_0000
  const MaxLong := 0x7FFF_FFFF_FFFF_FFFF

  // ---------------------------------------------------------------------
  // Long.parseLong, restricted to ASCII digits

  predicate IsDigit(ch: char) { '0' <= ch <= '9' }

  predicate AllDigits(s: string) {
    forall i :: 0 <= i < |s| ==> IsDigit(s[i])
  }

  function DigitValue(ch: char): (d: nat)
    requires IsDigit(ch)
    ensures d < 10
  {
    ch as int - '0' as int
  }

  function DigitChar(d: nat): (ch: char)
    requires d < 10
    ensures IsDigit(ch) && DigitValue(ch) == d
  {
    ('0' as int + d) as char
  }

  /** The value of a string of decimal digits, most significant first. */
  function DigitsValue(s: string): nat
    requires AllDigits(s)
  {
    if s == [] then 0 else DigitsValue(s[..|s| - 1]) * 10 + DigitValue(s[|s| - 1])
  }

  /** The shortest decimal spelling of a natural number. */
  function DecimalString(n: nat): (s: string)
    ensures |s| >= 1 && AllDigits(s)
  {
    if n < 10 then [DigitChar(n)] else DecimalString(n / 10) + [DigitChar(n % 10)]
  }

  /** The spellings `Long.parseLong` reads: one or more digits, optionally
      after one `-` or `+`. */
  predicate LongSyntax(s: string) {
    || (|s| >= 1 && AllDigits(s))
    || (|s| >= 2 && (s[0] == '-' || s[0] == '+') && AllDigits(s[1..]))
  }

  /** The integer a well-formed spelling denotes, before any range check. */
  function SignedValue(s: string): int
    requires LongSyntax(s)
  {
    if s[0] == '-' then -(DigitsValue(s[1..]) as int)
    else if s[0] == '+' then DigitsValue(s[1..])
    else DigitsValue(s)
  }

  /** `Long.parseLong(s)`: an optional sign, then one or more digits, whose
      value lies in the range of a Java `long`; `None` for a
      NumberFormatException. */
  function ParseLong(s: string): (r: Option<int>)
    ensures r.Some? <==> LongSyntax(s) && MinLong <= SignedValue(s) <= MaxLong
    ensures r.Some? ==> r.value == SignedValue(s)
    ensures r.Some? ==> MinLong <= r.value <= MaxLong
    ensures r.Some? ==> |s| >= 1 && (r.value > 0 ==> s[0] != '-')
  {
    if |s| == 0 then None
    else if s[0] == '-' || s[0] == '+' then
      if |s| == 1 || !AllDigits(s[1..]) then None
      else
        var v: int := if s[0] == '-' then -(DigitsValue(s[1..]) as int) else DigitsValue(s[1..]);
        if MinLong <= v <= MaxLong then Some(v) else None
    else if AllDigits(s) && DigitsValue(s) <= MaxLong then Some(DigitsValue(s))
    else None
  }

  lemma {:induction false} DecimalStringValue(n: nat)
    ensures DigitsValue(DecimalString(n)) == n
  {
    if n >= 10 {
      var s := DecimalString(n);
      assert s[..|s| - 1] == DecimalString(n / 10);
      DecimalStringValue(n / 10);
    }
  }

  /** Spelling a long in decimal and parsing it back gives it again. */
  lemma ParseLongDecimal(n: nat)
    requires n <= MaxLong
    ensures ParseLong(DecimalString(n)) == Some(n)
  {
    DecimalStringValue(n);
    assert IsDigit(DecimalString(n)[0]);
  }

  /** A minus sign before the decimal spelling gives the negative value,
      down to the least long. */
  lemma ParseLongNegative(n: nat)
    requires 1 <= n <= -MinLong
    ensures ParseLong("-" + DecimalString(n)) == Some(-(n as int))
  {
    var s := "-" + DecimalString(n);
    assert s[1..] == DecimalString(n);
    DecimalStringValue(n);
  }

  /** A plus sign before the decimal spelling changes nothing. */
  lemma ParseLongPlus(n: nat)
    requires n <= MaxLong
    ensures ParseLong("+" + DecimalString(n)) == Some(n)
  {
    var s := "+" + DecimalString(n);
    assert s[1..] == DecimalString(n);
    DecimalStringValue(n);
  }

  /** A spelling of a value past the greatest long is rejected. */
  lemma ParseLongOverflow(n: nat)
    requires n > MaxLong
    ensures ParseLong(DecimalString(n)) == None
  {
    DecimalStringValue(n);
    assert IsDigit(DecimalString(n)[0]);
  }

  /** A leading zero does not change the value of a digit string. */
  lemma {:induction false} LeadingZero(t: string)
    requires AllDigits(t)
    ensures AllDigits("0" + t) && DigitsValue("0" + t) == DigitsValue(t)
  {
    var s := "0" + t;
    assert AllDigits(s) by {
      forall i | 0 <= i < |s| ensures IsDigit(s[i]) {
        if i > 0 { assert s[i] == t[i - 1]; }
      }
    }
    if t == [] {
      assert s[..0] == [];
    } else {
      var u := t[..|t| - 1];
      assert s[..|s| - 1] == "0" + u;
      assert s[|s| - 1] == t[|t| - 1];
      LeadingZero(u);
    }
  }

  /** A zero-padded spelling parses as the unpadded one. */
  lemma ParseLongZeroPadded(t: string)
    requires |t| >= 1 && AllDigits(t)
    ensures ParseLong("0" + t) == ParseLong(t)
  {
    LeadingZero(t);
    assert ("0" + t)[0] == '0';
  }

  // ---------------------------------------------------------------------
  // String.contains

  /** `hay.contains(needle)`: `needle` occurs in `hay` as a contiguous,
      case-sensitive run of characters. */
  predicate Contains(hay: string, needle: string)
    decreases |hay|
  {
    needle <= hay || (hay != [] && Contains(hay[1..], needle))
  }

  /** `needle` occurs in `hay` starting at index `i`. */
  predicate OccursAt(hay: string, needle: string, i: int) {
    0 <= i <= |hay| - |needle| && hay[i..i + |needle|] == needle
  }

  lemma {:induction false} OccurrenceIsFound(hay: string, needle: string, i: int)
    requires OccursAt(hay, needle, i)
    ensures Contains(hay, needle)
    decreases i
  {
    if i == 0 {
      assert needle == hay[..|needle|];
    } else {
      assert hay[1..][i - 1..i - 1 + |needle|] == hay[i..i + |needle|];
      OccurrenceIsFound(hay[1..], needle, i - 1);
    }
  }

  lemma {:induction false} FoundIsOccurrence(hay: string, needle: string)
    requires Contains(hay, needle)
    ensures exists i :: OccursAt(hay, needle, i)
    decreases |hay|
  {
    if needle <= hay {
      assert OccursAt(hay, needle, 0);
    } else {
      FoundIsOccurrence(hay[1..], needle);
      var i :| OccursAt(hay[1..], needle, i);
      assert hay[1..][i..i + |needle|] == hay[i + 1..i + 1 + |needle|];
      assert OccursAt(hay, needle, i + 1);
    }
  }

  /** `Contains` is substring containment: it holds exactly when `needle`
      occurs at some index of `hay`. */
  lemma ContainsIsSubstring(hay: string, needle: string)
    ensures Contains(hay, needle) <==> exists i :: OccursAt(hay, needle, i)
  {
    if Contains(hay, needle) {
      FoundIsOccurrence(hay, needle);
    }
    if exists i :: OccursAt(hay, needle, i) {
      var i :| OccursAt(hay, needle, i);
      OccurrenceIsFound(hay, needle, i);
    }
  }

  // ---------------------------------------------------------------------
  // The floor of Math.sqrt

  /** Doubling the root of `n / 4` brackets the root of `n` within one. */
  lemma {:induction false} RootOfQuarter(n: nat, q: nat)
    requires q * q <= n / 4 < (q + 1) * (q + 1)
    ensures (2 * q) * (2 * q) <= n < (2 * q + 2) * (2 * q + 2)
  {
    assert (2 * q) * (2 * q) == 4 * (q * q);
    assert (2 * q + 2) * (2 * q + 2) == 4 * ((q + 1) * (q + 1));
    assert n / 4 + 1 <= (q + 1) * (q + 1);
  }

  /** The integer square root: the floor of the square root of `n`. */
  function FloorSqrt(n: nat): (r: nat)
    ensures r * r <= n < (r + 1) * (r + 1)
  {
    if n == 0 then 0
    else
      var q := FloorSqrt(n / 4);
      RootOfQuarter(n, q);
      if (2 * q + 1) * (2 * q + 1) <= n then 2 * q + 1 else 2 * q
  }

  // ---------------------------------------------------------------------
  // The Gregorian year of an instant, in UTC

  const MillisPerDay := 86_400_000

  predicate IsLeapYear(y: int) {
    y % 4 == 0 && (y % 100 != 0 || y % 400 == 0)
  }

  /** The number of leap years from year 1 up to, but excluding, year `y`. */
  function LeapYearsBefore(y: int): int {
    (y - 1) / 4 - (y - 1) / 100 + (y - 1) / 400
  }

  /** The first millisecond of year `y` in UTC, counted from 1970-01-01. */
  function YearStart(y: int): int {
    (365 * (y - 1970) + LeapYearsBefore(y) - LeapYearsBefore(1970)) * MillisPerDay
  }

  lemma NextMultiple(y: int, d: int)
    requires d == 4 || d == 100 || d == 400
    ensures y / d - (y - 1) / d == if y % d == 0 then 1 else 0
  {
    var q, r := (y - 1) / d, (y - 1) % d;
    assert y - 1 == d * q + r && 0 <= r < d;
    if r == d - 1 {
      assert y == d * (q + 1) + 0;
    } else {
      assert y == d * q + (r + 1);
    }
  }

  lemma CenturyDividesByFour(y: int)
    requires y % 100 == 0
    ensures y % 4 == 0
  {
    var q := y / 100;
    assert y == 100 * q;
    assert y == 4 * (25 * q) + 0;
  }

  lemma QuadricentennialIsCentury(y: int)
    requires y % 400 == 0
    ensures y % 100 == 0
  {
    var q := y / 400;
    assert y == 400 * q;
    assert y == 100 * (4 * q) + 0;
  }

  lemma LeapStep(y: int)
    ensures LeapYearsBefore(y + 1) - LeapYearsBefore(y) == if IsLeapYear(y) then 1 else 0
  {
    NextMultiple(y, 4);
    NextMultiple(y, 100);
    NextMultiple(y, 400);
    if y % 100 == 0 { CenturyDividesByFour(y); }
    if y % 400 == 0 { QuadricentennialIsCentury(y); }
  }

  lemma YearLength(y: int)
    ensures YearStart(y + 1) - YearStart(y) == (if IsLeapYear(y) then 366 else 365) * MillisPerDay
  {
    LeapStep(y);
  }

  lemma {:induction false} YearStartMonotone(y: int, z: int)
    requires y <= z
    ensures YearStart(y) <= YearStart(z)
    ensures y < z ==> YearStart(y) < YearStart(z)
    decreases z - y
  {
    if y < z {
      YearLength(y);
      YearStartMonotone(y + 1, z);
    }
  }

  function YearFrom(ms: int, y: int): (r: int)
    requires YearStart(y) <= ms
    ensures r >= y && YearStart(r) <= ms < YearStart(r + 1)
    decreases ms - YearStart(y)
  {
    YearLength(y);
    if ms < YearStart(y + 1) then y else YearFrom(ms, y + 1)
  }

  /** `GregorianCalendar.get(YEAR)` of a non-negative instant, taking the
      calendar in UTC: the year whose span contains `ms`. */
  function YearOfUtc(ms: int): (y: int)
    requires ms >= 0
    ensures y >= 1970 && YearStart(y) <= ms < YearStart(y + 1)
  {
    YearFrom(ms, 1970)
  }

  lemma YearAtLeast(ms: int, lo: int)
    requires ms >= 0
    ensures lo <= YearOfUtc(ms) <==> YearStart(lo) <= ms
  {
    var y := YearOfUtc(ms);
    if lo <= y { YearStartMonotone(lo, y); } else { YearStartMonotone(y + 1, lo); }
  }

  lemma YearAtMost(ms: int, hi: int)
    requires ms >= 0
    ensures YearOfUtc(ms) <= hi <==> ms < YearStart(hi + 1)
  {
    var y := YearOfUtc(ms);
    if y <= hi { YearStartMonotone(y + 1, hi + 1); } else { YearStartMonotone(hi + 1, y); }
  }

  /** The year of an instant lies in [lo, hi] exactly when the instant lies
      between the first millisecond of `lo` and the first of `hi + 1`. */
  lemma YearInRange(ms: int, lo: int, hi: int)
    requires ms >= 0
    ensures lo <= YearOfUtc(ms) <= hi <==> YearStart(lo) <= ms < YearStart(hi + 1)
  {
    YearAtLeast(ms, lo);
    YearAtMost(ms, hi);
  }
}
