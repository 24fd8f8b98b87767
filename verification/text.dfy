/** ASCII text primitives behind the Python string operations the purger uses:
    character classes of `re` (`\d`, `\w`, `\b`), `str.strip`, `str.split`,
    `str.upper`/`lower` and `int()` / `str()` on decimal numerals. */
module Text {

  predicate IsDigit(c: char) {
    '0' <= c <= '9'
  }

  predicate IsLetter(c: char) {
    'A' <= c <= 'Z' || 'a' <= c <= 'z'
  }

  /** `\w` */
  predicate IsWordChar(c: char) {
    IsLetter(c) || IsDigit(c) || c == '_'
  }

  /** The characters `str.isspace()` accepts: tab to carriage return, the four
      separators 0x1C..0x1F, and the blank. */
  predicate IsSpace(c: char) {
    c == ' ' || '\t' <= c <= '\r' || '\U{1C}' <= c <= '\U{1F}'
  }

  predicate AllDigits(s: string) {
    forall i | 0 <= i < |s| :: IsDigit(s[i])
  }

  function ToUpper(c: char): char {
    if 'a' <= c <= 'z' then (c as int - 32) as char else c
  }

  function ToLower(c: char): char {
    if 'A' <= c <= 'Z' then (c as int + 32) as char else c
  }

  function Upper(s: string): (u: string)
    ensures |u| == |s|
    ensures forall i | 0 <= i < |s| :: u[i] == ToUpper(s[i])
  {
    seq(|s|, i requires 0 <= i < |s| => ToUpper(s[i]))
  }

  /** `\b` at position `i`: exactly one of the two neighbours is a word character. */
  predicate WordBoundary(s: string, i: int)
    requires 0 <= i <= |s|
  {
    (0 < i && IsWordChar(s[i - 1])) != (i < |s| && IsWordChar(s[i]))
  }

  // ---------------------------------------------------------------------------
  // str.strip()

  /** Index of the first non-space character at or after `i`, or `|s|`. */
  function SkipSpaces(s: string, i: nat): (j: nat)
    requires i <= |s|
    ensures i <= j <= |s|
    decreases |s| - i
  {
    if i < |s| && IsSpace(s[i]) then SkipSpaces(s, i + 1) else i
  }

  /** Index just after the last non-space character before `j` and at or after `lo`, or `lo`. */
  function SkipSpacesBack(s: string, lo: nat, j: nat): (e: nat)
    requires lo <= j <= |s|
    ensures lo <= e <= j
    decreases j
  {
    if lo < j && IsSpace(s[j - 1]) then SkipSpacesBack(s, lo, j - 1) else j
  }

  lemma {:induction false} SkipSpacesSpec(s: string, i: nat)
    requires i <= |s|
    ensures var j := SkipSpaces(s, i);
      (forall k | i <= k < j :: IsSpace(s[k])) && (j < |s| ==> !IsSpace(s[j]))
    decreases |s| - i
  {
    if i < |s| && IsSpace(s[i]) {
      SkipSpacesSpec(s, i + 1);
    }
  }

  lemma {:induction false} SkipSpacesBackSpec(s: string, lo: nat, j: nat)
    requires lo <= j <= |s|
    ensures var e := SkipSpacesBack(s, lo, j);
      (forall k | e <= k < j :: IsSpace(s[k])) && (lo < e ==> !IsSpace(s[e - 1]))
    decreases j
  {
    if lo < j && IsSpace(s[j - 1]) {
      SkipSpacesBackSpec(s, lo, j - 1);
    }
  }

  /** The bounds `s.strip()` keeps. */
  function StripBounds(s: string): (b: (nat, nat))
    ensures b.0 <= b.1 <= |s|
  {
    var i := SkipSpaces(s, 0);
    (i, SkipSpacesBack(s, i, |s|))
  }

  /** `s.strip()` */
  function Strip(s: string): string {
    var b := StripBounds(s);
    s[b.0..b.1]
  }

  /** `s.strip()` removes white space, and only white space, from both ends. */
  lemma StripSpec(s: string)
    ensures var (i, e) := StripBounds(s);
      && Strip(s) == s[i..e]
      && s == s[..i] + Strip(s) + s[e..]
      && (forall k | 0 <= k < i :: IsSpace(s[k]))
      && (forall k | e <= k < |s| :: IsSpace(s[k]))
      && (Strip(s) != [] ==> !IsSpace(Strip(s)[0]) && !IsSpace(Strip(s)[|Strip(s)| - 1]))
  {
    var (i, e) := StripBounds(s);
    SkipSpacesSpec(s, 0);
    SkipSpacesBackSpec(s, i, |s|);
    assert s == s[..i] + s[i..e] + s[e..];
  }

  /** Text without white space is left alone. */
  lemma StripOfNoSpace(s: string)
    requires forall k | 0 <= k < |s| :: !IsSpace(s[k])
    ensures Strip(s) == s
  {
    StripSpec(s);
  }

  // ---------------------------------------------------------------------------
  // Counting, cutting and splitting on a separator character

  function CountChar(s: string, c: char): nat {
    if s == [] then 0 else (if s[0] == c then 1 else 0) + CountChar(s[1..], c)
  }

  lemma {:induction false} CountCharAppend(a: string, b: string, c: char)
    ensures CountChar(a + b, c) == CountChar(a, c) + CountChar(b, c)
  {
    if a == [] {
      assert a + b == b;
    } else {
      assert (a + b)[1..] == a[1..] + b;
      CountCharAppend(a[1..], b, c);
    }
  }

  lemma {:induction false} CountCharAbsent(s: string, c: char)
    requires c !in s
    ensures CountChar(s, c) == 0
  {
    if s != [] {
      assert s[0] in s;
      CountCharAbsent(s[1..], c);
    }
  }

  /** `s.split(c, 1)[0]`: everything before the first `c`, or all of `s`. */
  function BeforeFirst(s: string, c: char): (r: string)
    ensures r <= s
    ensures c !in r
    ensures |r| < |s| ==> s[|r|] == c
  {
    if s == [] || s[0] == c then [] else [s[0]] + BeforeFirst(s[1..], c)
  }

  /** Joins parts with the separator between consecutive parts. */
  function Join(parts: seq<string>, sep: char): string
    requires |parts| > 0
  {
    if |parts| == 1 then parts[0] else parts[0] + [sep] + Join(parts[1..], sep)
  }

  /** `s.split(sep)`: the maximal separator-free pieces, one more than there are separators. */
  function SplitOn(s: string, sep: char): (parts: seq<string>)
    ensures |parts| == CountChar(s, sep) + 1
    ensures forall k | 0 <= k < |parts| :: sep !in parts[k]
    ensures Join(parts, sep) == s
  {
    if s == [] then
      [[]]
    else
      var rest := SplitOn(s[1..], sep);
      if s[0] == sep then
        assert Join([[]] + rest, sep) == [sep] + Join(rest, sep);
        [[]] + rest
      else
        var parts := [[s[0]] + rest[0]] + rest[1..];
        assert parts[1..] == rest[1..];
        assert |rest| > 1 ==> Join(rest, sep) == rest[0] + [sep] + Join(rest[1..], sep);
        parts
  }

  /** When a split yields exactly two pieces, they are the text either side of the one separator. */
  lemma SplitOnTwo(s: string, sep: char)
    requires CountChar(s, sep) == 1
    ensures var k := |BeforeFirst(s, sep)|;
      k < |s| && SplitOn(s, sep) == [s[..k], s[k + 1..]]
  {
    var parts := SplitOn(s, sep);
    assert Join(parts, sep) == parts[0] + [sep] + parts[1];
    var k := |parts[0]|;
    assert s[..k] == parts[0];
    assert s[k] == sep;
    assert s[k + 1..] == parts[1];
    BeforeFirstAt(s, sep, k);
  }

  /** The prefix before the first separator is determined by the position of that separator. */
  lemma {:induction false} BeforeFirstAt(s: string, c: char, k: nat)
    requires k < |s| && s[k] == c && c !in s[..k]
    ensures BeforeFirst(s, c) == s[..k]
  {
  }

  // ---------------------------------------------------------------------------
  // Decimal numerals: Python's int() on `\d+` and str() on a non-negative int

  function DigitValue(c: char): nat
    requires IsDigit(c)
  {
    c as int - '0' as int
  }

  function DigitChar(d: nat): (c: char)
    requires d < 10
    ensures IsDigit(c) && DigitValue(c) == d
  {
    ('0' as int + d) as char
  }

  function DecimalValue(s: string): nat
    requires AllDigits(s)
  {
    if s == [] then 0 else DecimalValue(s[..|s| - 1]) * 10 + DigitValue(s[|s| - 1])
  }

  /** A numeral `str()` could have printed: no leading zero unless it is "0". */
  predicate IsCanonicalNumeral(s: string) {
    |s| >= 1 && AllDigits(s) && (|s| == 1 || s[0] != '0')
  }

  function NatToDecimal(n: nat): (s: string)
    ensures IsCanonicalNumeral(s)
  {
    if n < 10 then [DigitChar(n)] else NatToDecimal(n / 10) + [DigitChar(n % 10)]
  }

  /** `int(str(n)) == n` */
  lemma {:induction false} DecimalOfNatToDecimal(n: nat)
    ensures DecimalValue(NatToDecimal(n)) == n
  {
    if n >= 10 {
      var s := NatToDecimal(n);
      assert s[..|s| - 1] == NatToDecimal(n / 10);
      DecimalOfNatToDecimal(n / 10);
    }
  }

  lemma {:induction false} DecimalValuePositive(s: string)
    requires |s| >= 1 && AllDigits(s) && s[0] != '0'
    ensures DecimalValue(s) >= 1
  {
    if |s| > 1 {
      DecimalValuePositive(s[..|s| - 1]);
    }
  }

  /** `str(int(s)) == s` for numerals without a leading zero. */
  lemma {:induction false} NatToDecimalOfDecimal(s: string)
    requires IsCanonicalNumeral(s)
    ensures NatToDecimal(DecimalValue(s)) == s
  {
    var n := DecimalValue(s);
    if |s| == 1 {
      assert s[..0] == [];
    } else {
      var p := s[..|s| - 1];
      DecimalValuePositive(p);
      assert n / 10 == DecimalValue(p);
      assert n % 10 == DigitValue(s[|s| - 1]);
      NatToDecimalOfDecimal(p);
      assert s == p + [s[|s| - 1]];
    }
  }
}
