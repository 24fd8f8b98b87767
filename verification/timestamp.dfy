/** The timestamp extractor of docker_registry_purger/timestamp.py: `as_timestamp`
    reads a whole 15-character `YYYYMMDDThhmmss` string through
    `datetime.strptime(s.upper(), '%Y%m%dT%H%M%S').date()`, and `find_timestamp`
    searches a tag for the first boundary-delimited timestamp-shaped window. */
module Timestamp {
  import opened Wrappers
  import opened Text
  import opened Calendar

  const TimestampLength: nat := 15

  /** The literal `T` of the format; `re.IGNORECASE` also accepts `t`. */
  predicate IsTimeSeparator(c: char) {
    c == 'T' || c == 't'
  }

  datatype DateTime = DateTime(date: ValidDate, hour: nat, minute: nat, second: nat)

  // ---------------------------------------------------------------------------
  // as_timestamp

  /** strptime's `%Y`: four digits. */
  function YearField(u: string): Option<nat>
    requires |u| >= 4
  {
    if IsDigit(u[0]) && IsDigit(u[1]) && IsDigit(u[2]) && IsDigit(u[3])
    then Some(DigitValue(u[0]) * 1000 + DigitValue(u[1]) * 100 + DigitValue(u[2]) * 10 + DigitValue(u[3]))
    else None
  }

  /** A digits-only two-character field starting at `i`. */
  function TwoDigits(u: string, i: nat): Option<nat>
    requires i + 2 <= |u|
  {
    if IsDigit(u[i]) && IsDigit(u[i + 1]) then Some(DigitValue(u[i]) * 10 + DigitValue(u[i + 1])) else None
  }

  /** strptime's `%d` in its two-character forms: `3[01]`, `[12]\d`, `0[1-9]` or a blank
      followed by `[1-9]`. */
  function DayField(u: string): Option<nat>
    requires |u| >= 8
  {
    if u[6] == ' ' && '1' <= u[7] <= '9' then Some(DigitValue(u[7]))
    else match TwoDigits(u, 6)
      case Some(d) => if 1 <= d <= 31 then Some(d) else None
      case None => None
  }

  /** strptime with format `%Y%m%dT%H%M%S` on a 15-character string. Each directive's
      pattern is at most two characters wide (`%Y` four), which adds up to exactly 15, so
      the input is consumed only when every directive takes a widest alternative:
      `%m` 01..12, `%d` as in `DayField`, `%H` 00..23, `%M` 00..59, `%S` 00..61.
      Constructing the datetime then rejects seconds 60 and 61 and impossible dates. */
  function Strptime(u: string): Option<DateTime>
    requires |u| == TimestampLength
  {
    if !IsTimeSeparator(u[8]) then None
    else
      match (YearField(u), TwoDigits(u, 4), DayField(u), TwoDigits(u, 9), TwoDigits(u, 11), TwoDigits(u, 13))
      case (Some(year), Some(month), Some(day), Some(hour), Some(minute), Some(second)) =>
        var fieldsMatch := 1 <= month <= 12 && hour <= 23 && minute <= 59 && second <= 61;
        var date := Date(year, month, day);
        if fieldsMatch && second <= 59 && IsValidDate(date)
        then Some(DateTime(date, hour, minute, second))
        else None
      case _ => None
  }

  /** `as_timestamp(s)`: a date for a well-formed 15-character timestamp, None otherwise;
      it never fails. */
  function AsTimestamp(s: string): (r: Option<ValidDate>)
    ensures |s| != TimestampLength ==> r == None
  {
    if |s| != TimestampLength then None
    else
      match Strptime(Upper(s))
      case Some(dt) => Some(dt.date)
      case None => None
  }

  /** Whatever `as_timestamp` accepts is fourteen digits around a `T` (either case), except
      that the day may be a blank and a digit. */
  lemma AsTimestampShape(s: string)
    requires AsTimestamp(s).Some?
    ensures |s| == TimestampLength && IsTimeSeparator(s[8])
    ensures forall k | 0 <= k < TimestampLength && k != 6 && k != 8 :: IsDigit(s[k])
    ensures IsDigit(s[6]) || s[6] == ' '
  {
    var u := Upper(s);
    assert Strptime(u).Some?;
    assert IsDigit(u[0]) && IsDigit(u[1]) && IsDigit(u[2]) && IsDigit(u[3]);
    assert IsDigit(u[4]) && IsDigit(u[5]) && IsDigit(u[7]);
    assert IsDigit(u[9]) && IsDigit(u[10]) && IsDigit(u[11]) && IsDigit(u[12]) && IsDigit(u[13]) && IsDigit(u[14]);
    assert IsDigit(u[6]) || u[6] == ' ';
  }

  /** The documented shape: eight digits, `T` (either case), six digits. */
  predicate IsStampShape(s: string) {
    |s| == TimestampLength && IsTimeSeparator(s[8])
    && forall k | 0 <= k < TimestampLength && k != 8 :: IsDigit(s[k])
  }

  /** The date a shaped stamp spells, reading its digit groups as decimal numbers. */
  function StampDate(s: string): Date
    requires IsStampShape(s)
  {
    Date(DecimalValue(s[..4]), DecimalValue(s[4..6]), DecimalValue(s[6..8]))
  }

  /** A shaped stamp denotes a real calendar date and a time of day. */
  predicate IsValidStamp(s: string)
    requires IsStampShape(s)
  {
    && IsValidDate(StampDate(s))
    && DecimalValue(s[9..11]) < 24 && DecimalValue(s[11..13]) < 60 && DecimalValue(s[13..15]) < 60
  }

  /** The two-digit group at `i`, as `int()` reads it. */
  lemma DecimalValueOfTwo(s: string, i: nat)
    requires i + 2 <= |s| && IsDigit(s[i]) && IsDigit(s[i + 1])
    ensures AllDigits(s[i..i + 2])
    ensures DecimalValue(s[i..i + 2]) == DigitValue(s[i]) * 10 + DigitValue(s[i + 1])
  {
    var w := s[i..i + 2];
    var p := w[..1];
    assert p == [s[i]];
    assert p[..0] == [];
    assert DecimalValue(p) == DigitValue(s[i]);
    assert w[..|w| - 1] == p && w[|w| - 1] == s[i + 1];
  }

  /** The four-digit group at the start, as `int()` reads it. */
  lemma DecimalValueOfFour(s: string)
    requires |s| >= 4 && IsDigit(s[0]) && IsDigit(s[1]) && IsDigit(s[2]) && IsDigit(s[3])
    ensures AllDigits(s[..4])
    ensures DecimalValue(s[..4]) == DigitValue(s[0]) * 1000 + DigitValue(s[1]) * 100 + DigitValue(s[2]) * 10 + DigitValue(s[3])
  {
    var w, p3, p2, p1 := s[..4], s[..3], s[..2], s[..1];
    assert p1[..0] == [];
    assert DecimalValue(p1) == DigitValue(s[0]);
    assert p2[..1] == p1;
    assert DecimalValue(p2) == DigitValue(s[0]) * 10 + DigitValue(s[1]);
    assert p3[..2] == p2;
    assert DecimalValue(p3) == DigitValue(s[0]) * 100 + DigitValue(s[1]) * 10 + DigitValue(s[2]);
    assert w[..3] == p3;
  }

  /** On the documented shape, `as_timestamp` returns the stamp's date exactly when the
      stamp is a valid date and time (month 13, Feb 30, hour 24 or year 0000 give None). */
  lemma AsTimestampOfStamp(s: string)
    requires IsStampShape(s)
    ensures AsTimestamp(s) == (if IsValidStamp(s) then Some(StampDate(s)) else None)
  {
    var u := Upper(s);
    assert IsDigit(s[0]) && IsDigit(s[1]) && IsDigit(s[2]) && IsDigit(s[3]) && IsDigit(s[4]) && IsDigit(s[5]) && IsDigit(s[6]) && IsDigit(s[7]);
    assert IsDigit(s[9]) && IsDigit(s[10]) && IsDigit(s[11]) && IsDigit(s[12]) && IsDigit(s[13]) && IsDigit(s[14]);
    DecimalValueOfFour(s);
    DecimalValueOfTwo(s, 4);
    DecimalValueOfTwo(s, 6);
    DecimalValueOfTwo(s, 9);
    DecimalValueOfTwo(s, 11);
    DecimalValueOfTwo(s, 13);
    assert YearField(u) == Some(DecimalValue(s[..4]));
    assert TwoDigits(u, 4) == Some(DecimalValue(s[4..6]));
    assert TwoDigits(u, 6) == Some(DecimalValue(s[6..8]));
    assert TwoDigits(u, 9) == Some(DecimalValue(s[9..11]));
    assert TwoDigits(u, 11) == Some(DecimalValue(s[11..13]));
    assert TwoDigits(u, 13) == Some(DecimalValue(s[13..15]));
  }

  /** A shaped stamp's fields, read digit by digit. */
  lemma StampFields(s: string)
    requires IsStampShape(s)
    ensures StampDate(s).year == DigitValue(s[0]) * 1000 + DigitValue(s[1]) * 100 + DigitValue(s[2]) * 10 + DigitValue(s[3])
    ensures StampDate(s).month == DigitValue(s[4]) * 10 + DigitValue(s[5])
    ensures StampDate(s).day == DigitValue(s[6]) * 10 + DigitValue(s[7])
    ensures DecimalValue(s[9..11]) == DigitValue(s[9]) * 10 + DigitValue(s[10])
    ensures DecimalValue(s[11..13]) == DigitValue(s[11]) * 10 + DigitValue(s[12])
    ensures DecimalValue(s[13..15]) == DigitValue(s[13]) * 10 + DigitValue(s[14])
  {
    assert IsDigit(s[0]) && IsDigit(s[1]) && IsDigit(s[2]) && IsDigit(s[3]) && IsDigit(s[4]) && IsDigit(s[5]) && IsDigit(s[6]) && IsDigit(s[7]);
    assert IsDigit(s[9]) && IsDigit(s[10]) && IsDigit(s[11]) && IsDigit(s[12]) && IsDigit(s[13]) && IsDigit(s[14]);
    DecimalValueOfFour(s);
    DecimalValueOfTwo(s, 4);
    DecimalValueOfTwo(s, 6);
    DecimalValueOfTwo(s, 9);
    DecimalValueOfTwo(s, 11);
    DecimalValueOfTwo(s, 13);
  }

  // ---------------------------------------------------------------------------
  // find_timestamp: TIMESTAMP_SUBSTRING_REGEX = (?:\b|_)(\d{8}T\d{6})(?:\b|_), searched

  /** The 15 characters at `q` have the shape `\d{8}T\d{6}`. */
  predicate Shape(s: string, q: int) {
    0 <= q && q + TimestampLength <= |s| && IsTimeSeparator(s[q + 8])
    && forall k | q <= k < q + TimestampLength && k != q + 8 :: IsDigit(s[k])
  }

  /** The closing group `(?:\b|_)` at position `e`. */
  predicate Closes(s: string, e: int)
    requires 0 <= e <= |s|
  {
    WordBoundary(s, e) || (e < |s| && s[e] == '_')
  }

  /** One attempt of the regex at start `p`: the opening `\b` first, then the opening `_`.
      On success, the start of the captured timestamp. */
  function MatchAt(s: string, p: int): (g: Option<nat>)
    requires 0 <= p <= |s|
    ensures g.Some? ==> Shape(s, g.value) && (g.value == p || g.value == p + 1)
  {
    if WordBoundary(s, p) && Shape(s, p) && Closes(s, p + 15) then Some(p)
    else if p < |s| && s[p] == '_' && Shape(s, p + 1) && Closes(s, p + 16) then Some(p + 1)
    else None
  }

  /** `re.search` from position `p`: the first start at which an attempt succeeds. */
  function FirstMatchStart(s: string, p: nat): (r: Option<nat>)
    requires p <= |s|
    ensures r.Some? ==> p <= r.value <= |s| && MatchAt(s, r.value).Some?
    ensures r.Some? ==> forall j | p <= j < r.value :: MatchAt(s, j).None?
    ensures r.None? ==> forall j | p <= j <= |s| :: MatchAt(s, j).None?
    decreases |s| - p
  {
    if MatchAt(s, p).Some? then Some(p)
    else if p == |s| then None
    else FirstMatchStart(s, p + 1)
  }

  /** `find_timestamp(s)`: the first match's group, read by `as_timestamp`. */
  function FindTimestamp(s: string): (r: Option<ValidDate>)
    ensures r.Some? ==> exists q | 0 <= q :: Qualifies(s, q) && AsTimestamp(s[q..q + 15]) == r
  {
    match FirstMatchStart(s, 0)
    case None => None
    case Some(start) =>
      var g := MatchAt(s, start).value;
      MatchAtQualifies(s, start);
      var d := AsTimestamp(s[g..g + 15]);
      assert Qualifies(s, g) && AsTimestamp(s[g..g + 15]) == d;
      d
  }

  /** Neighbour `i` of a window lets it through: absent, a non-word character, or `_`. */
  predicate NeighbourOk(s: string, i: int) {
    i < 0 || i >= |s| || !IsWordChar(s[i]) || s[i] == '_'
  }

  /** A timestamp-shaped window whose two neighbours let it through. */
  predicate Qualifies(s: string, q: int) {
    Shape(s, q) && NeighbourOk(s, q - 1) && NeighbourOk(s, q + 15)
  }

  lemma MatchAtQualifies(s: string, p: int)
    requires 0 <= p <= |s| && MatchAt(s, p).Some?
    ensures Qualifies(s, MatchAt(s, p).value)
  {
    var g := MatchAt(s, p).value;
    assert IsDigit(s[g]) && IsDigit(s[g + 14]);
  }

  lemma QualifiesMatches(s: string, q: int)
    requires Qualifies(s, q)
    ensures MatchAt(s, q) == Some(q) || (q >= 1 && MatchAt(s, q - 1) == Some(q))
  {
    assert IsDigit(s[q]) && IsDigit(s[q + 14]);
    if q >= 1 && s[q - 1] == '_' {
      assert !IsDigit(s[q - 1]);
    }
  }

  /** Only the leftmost qualifying window is read, even when it is not a valid date and a
      later window would be. */
  lemma FindTimestampLeftmost(s: string, q: int)
    requires Qualifies(s, q)
    requires forall j | 0 <= j < q :: !Qualifies(s, j)
    ensures FindTimestamp(s) == AsTimestamp(s[q..q + 15])
  {
    QualifiesMatches(s, q);
    var st := if MatchAt(s, q) == Some(q) then q else q - 1;
    assert MatchAt(s, st).Some?;
    var first := FirstMatchStart(s, 0);
    assert first.Some?;
    var start := first.value;
    var g := MatchAt(s, start).value;
    MatchAtQualifies(s, start);
    assert start <= st;
    assert g >= q;
    assert g == start || g == start + 1;
    if start == st {
      assert MatchAt(s, st) == Some(q);
      assert g == q;
    } else {
      assert start + 1 <= q;
    }
    assert g == q;
  }

  /** No qualifying window, no timestamp. */
  lemma FindTimestampNoWindow(s: string)
    requires forall q | 0 <= q <= |s| :: !Qualifies(s, q)
    ensures FindTimestamp(s) == None
  {
    forall j | 0 <= j <= |s|
      ensures MatchAt(s, j).None?
    {
      if MatchAt(s, j).Some? {
        MatchAtQualifies(s, j);
      }
    }
  }

  /** A tag that is itself a shaped stamp is found whole: `find_timestamp` agrees with
      `as_timestamp` on it. */
  lemma FindTimestampOfStamp(s: string)
    requires IsStampShape(s)
    ensures FindTimestamp(s) == AsTimestamp(s)
  {
    assert s[0..15] == s;
    FindTimestampLeftmost(s, 0);
  }

  // ---------------------------------------------------------------------------
  // Worked examples

  lemma ExampleUnderscoreDelimited()
    ensures FindTimestamp("v1_20181128T161823_rc1") == Some(Date(2018, 11, 28))
  {
    var s := "v1_20181128T161823_rc1";
    UnderscoreWindow(s);
    UnderscoreNothingEarlier(s);
    FindTimestampLeftmost(s, 3);
    ExampleDate20181128(s[3..18]);
  }

  lemma UnderscoreWindow(s: string)
    requires s == "v1_20181128T161823_rc1"
    ensures Qualifies(s, 3) && s[3..18] == "20181128T161823"
  {
    assert s == "v1_" + "20181128T161823" + "_rc1";
  }

  lemma UnderscoreNothingEarlier(s: string)
    requires s == "v1_20181128T161823_rc1"
    ensures forall j | 0 <= j < 3 :: !Qualifies(s, j)
  {
    assert !IsDigit(s[0]) && !IsDigit(s[2]);
  }

  lemma ExampleDate20181128(w: string)
    requires w == "20181128T161823"
    ensures AsTimestamp(w) == Some(Date(2018, 11, 28))
  {
    assert IsStampShape(w);
    StampFields(w);
    AsTimestampOfStamp(w);
  }

  lemma ExampleGlued()
    ensures FindTimestamp("x20181128T1618234") == None
  {
    var s := "x20181128T1618234";
    assert !Shape(s, 0) by { assert !IsDigit(s[0]); }
    assert !NeighbourOk(s, 0);
    assert !Shape(s, 2) by { assert !IsTimeSeparator(s[10]); }
    FindTimestampNoWindow(s);
  }

  /** strptime's `%d` also takes a blank-padded day, so `as_timestamp` accepts a string
      that TIMESTAMP_REGEX would not. */
  lemma ExampleBlankPaddedDay()
    ensures AsTimestamp("201811 1T161823") == Some(Date(2018, 11, 1))
  {
    var s := "201811 1T161823";
    var u := Upper(s);
    assert u == s;
    assert YearField(u) == Some(2018);
    assert TwoDigits(u, 4) == Some(11);
    assert DayField(u) == Some(1);
    assert TwoDigits(u, 9) == Some(16) && TwoDigits(u, 11) == Some(18) && TwoDigits(u, 13) == Some(23);
  }

  /** The leftmost window decides: an impossible date there hides a valid one further on. */
  lemma ExampleLeftmostInvalid()
    ensures FindTimestamp("20181399T000000_20181128T161823") == None
  {
    var s := "20181399T000000_20181128T161823";
    LeadingWindow(s);
    FindTimestampLeftmost(s, 0);
    ExampleMonth13(s[0..15]);
  }

  lemma LeadingWindow(s: string)
    requires s == "20181399T000000_20181128T161823"
    ensures Qualifies(s, 0) && s[0..15] == "20181399T000000"
  {
    assert s == "20181399T000000" + "_20181128T161823";
  }

  /** Out-of-range fields give None rather than an error: month 13, ... */
  lemma ExampleMonth13(w: string)
    requires w == "20181399T000000"
    ensures AsTimestamp(w) == None
  {
    assert IsStampShape(w);
    StampFields(w);
    AsTimestampOfStamp(w);
  }

  /** ... hour 24, ... */
  lemma ExampleHour24()
    ensures AsTimestamp("20181128T240000") == None
  {
    var a := "20181128T240000";
    assert IsStampShape(a);
    StampFields(a);
    AsTimestampOfStamp(a);
  }

  /** ... February 30, ... */
  lemma ExampleFebruary30()
    ensures AsTimestamp("20180230T120000") == None
  {
    var b := "20180230T120000";
    assert IsStampShape(b);
    StampFields(b);
    AsTimestampOfStamp(b);
  }

  /** ... and year 0000. */
  lemma ExampleYearZero()
    ensures AsTimestamp("00001128T161823") == None
  {
    var c := "00001128T161823";
    assert IsStampShape(c);
    StampFields(c);
    AsTimestampOfStamp(c);
  }
}
