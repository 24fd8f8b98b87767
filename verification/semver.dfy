/** The semver parser of docker_registry_purger/semver.py: SEMVER_REGEX
    `^(\d+)\.(\d+)\.(\d+)(?:-(.+))?$` matched from the start of a tag, `int()` on the
    three numbers, and a timestamp looked up in the prerelease part. */
module SemanticVersion {
  import opened Wrappers
  import opened Text
  import opened Calendar
  import opened Timestamp
  import opened SemverSyntax

  datatype Semver = Semver(
    major: nat, minor: nat, patch: nat,
    prerelease: Option<string>,
    timestamp: Option<ValidDate>)

  /** `Semver.__init__`: the timestamp is searched for in a non-empty prerelease only. */
  function NewSemver(major: nat, minor: nat, patch: nat, prerelease: Option<string>): (v: Semver)
    ensures v.timestamp.Some? ==> prerelease.Some? && prerelease.value != []
  {
    var timestamp := if prerelease.Some? && prerelease.value != [] then FindTimestamp(prerelease.value) else None;
    Semver(major, minor, patch, prerelease, timestamp)
  }

  /** `Semver.parse(tag)`: None for a missing or empty tag and for a non-matching one. */
  function Parse(tag: Option<string>): (r: Option<Semver>)
    ensures (tag.None? || tag == Some("")) ==> r == None
    ensures r.Some? <==> tag.Some? && SplitSemver(tag.value).Some?
    ensures r.Some? && r.value.prerelease.Some? ==> r.value.prerelease.value != [] && '\n' !in r.value.prerelease.value
    ensures r.Some? ==> r.value.timestamp == (if r.value.prerelease.Some? then FindTimestamp(r.value.prerelease.value) else None)
  {
    if tag.None? || tag.value == [] then None
    else
      SplitSemverSound(tag.value);
      match SplitSemver(tag.value)
      case None => None
      case Some(parts) =>
        Some(NewSemver(DecimalValue(parts.major), DecimalValue(parts.minor), DecimalValue(parts.patch), parts.prerelease))
  }

  /** `parse_semver`: a version exactly for a match, with the three numbers `int()` of their
      groups and the prerelease its group. */
  function ParseSemver(tag: Option<string>): (r: Option<Semver>)
    ensures r.Some? <==> tag.Some? && SplitSemver(tag.value).Some?
    ensures r.Some? ==> exists parts :: (
      && IsSemverSplit(tag.value, parts)
      && r.value.major == DecimalValue(parts.major) && r.value.minor == DecimalValue(parts.minor)
      && r.value.patch == DecimalValue(parts.patch) && r.value.prerelease == parts.prerelease)
  {
    if tag.Some? && SplitSemver(tag.value).Some? then
      SplitSemverSound(tag.value);
      ParseOfMatch(tag.value, SplitSemver(tag.value).value);
      Parse(tag)
    else
      Parse(tag)
  }

  /** Whatever way the pattern matches a tag, `Semver.parse` returns the version whose numbers
      are `int()` of the digit groups and whose prerelease is the last group. */
  lemma ParseOfMatch(t: string, parts: SemverText)
    requires IsSemverSplit(t, parts)
    ensures Parse(Some(t)) == Some(NewSemver(DecimalValue(parts.major), DecimalValue(parts.minor), DecimalValue(parts.patch), parts.prerelease))
  {
    SplitSemverComplete(t, parts);
  }

  /** `Semver.__str__` */
  function Show(v: Semver): string {
    var pre := if v.prerelease.Some? && v.prerelease.value != [] then "-" + v.prerelease.value else "";
    NatToDecimal(v.major) + "." + NatToDecimal(v.minor) + "." + NatToDecimal(v.patch) + pre
  }

  // ---------------------------------------------------------------------------
  // Properties

  /** `str(parse(t)) == t` when the numbers have no leading zeros and `t` does not end in
      the newline `$` lets through. */
  lemma ShowParse(t: string, parts: SemverText)
    requires IsSemverSplit(t, parts)
    requires IsCanonicalNumeral(parts.major) && IsCanonicalNumeral(parts.minor) && IsCanonicalNumeral(parts.patch)
    requires t[|t| - 1] != '\n'
    ensures Parse(Some(t)).Some? && Show(Parse(Some(t)).value) == t
  {
    SplitSemverComplete(t, parts);
    NatToDecimalOfDecimal(parts.major);
    NatToDecimalOfDecimal(parts.minor);
    NatToDecimalOfDecimal(parts.patch);
    var v := NewSemver(DecimalValue(parts.major), DecimalValue(parts.minor), DecimalValue(parts.patch), parts.prerelease);
    assert Parse(Some(t)) == Some(v);
    ShowText(v, parts);
    WithoutFinalNewline(t, parts);
  }

  /** Printing a version prints its groups. */
  lemma ShowText(v: Semver, parts: SemverText)
    requires NatToDecimal(v.major) == parts.major && NatToDecimal(v.minor) == parts.minor && NatToDecimal(v.patch) == parts.patch
    requires v.prerelease == parts.prerelease
    requires parts.prerelease.Some? ==> parts.prerelease.value != []
    ensures Show(v) == parts.major + "." + parts.minor + "." + parts.patch + Suffix(parts.prerelease)
  {
  }

  /** A matched text not ending in a newline is exactly its groups. */
  lemma WithoutFinalNewline(t: string, parts: SemverText)
    requires IsSemverSplit(t, parts) && t[|t| - 1] != '\n'
    ensures t == parts.major + "." + parts.minor + "." + parts.patch + Suffix(parts.prerelease)
  {
  }

  /** `parse(str(v)) == v` for every version whose prerelease could have come from a match. */
  lemma ParseShow(major: nat, minor: nat, patch: nat, prerelease: Option<string>)
    requires prerelease.Some? ==> prerelease.value != [] && '\n' !in prerelease.value
    ensures Parse(Some(Show(NewSemver(major, minor, patch, prerelease)))) == Some(NewSemver(major, minor, patch, prerelease))
  {
    var v := NewSemver(major, minor, patch, prerelease);
    var parts := SemverText(NatToDecimal(major), NatToDecimal(minor), NatToDecimal(patch), prerelease);
    assert Show(v) == parts.major + "." + parts.minor + "." + parts.patch + Suffix(prerelease);
    SplitSemverComplete(Show(v), parts);
    DecimalOfNatToDecimal(major);
    DecimalOfNatToDecimal(minor);
    DecimalOfNatToDecimal(patch);
  }

  /** A version without a prerelease never carries a timestamp. */
  lemma NoPrereleaseNoTimestamp(tag: Option<string>)
    requires Parse(tag).Some? && Parse(tag).value.prerelease.None?
    ensures Parse(tag).value.timestamp.None?
  {
  }

  // ---------------------------------------------------------------------------
  // Worked examples

  /** `int()` drops leading zeros: `01.02.003` parses as 1.2.3. */
  lemma ExampleLeadingZeros()
    ensures Parse(Some("01.02.003")) == Some(NewSemver(1, 2, 3, None))
  {
    var t := "01.02.003";
    var parts := SemverText("01", "02", "003", None);
    assert t == parts.major + "." + parts.minor + "." + parts.patch + Suffix(parts.prerelease);
    assert DecimalValue("0") == 0 by { assert "0"[..0] == []; }
    assert DecimalValue("00") == 0 by { assert "00"[..1] == "0"; }
    assert DecimalValue("01") == 1 by { assert "01"[..1] == "0"; }
    assert DecimalValue("02") == 2 by { assert "02"[..1] == "0"; }
    assert DecimalValue("003") == 3 by { assert "003"[..2] == "00"; }
    ParseOfMatch(t, parts);
  }

  /** `$` also matches before a final newline: `1.2.3\n` parses as 1.2.3. */
  lemma ExampleFinalNewline()
    ensures Parse(Some("1.2.3\n")) == Parse(Some("1.2.3"))
    ensures Parse(Some("1.2.3\n")).Some?
  {
    var parts := SemverText("1", "2", "3", None);
    assert "1.2.3" == parts.major + "." + parts.minor + "." + parts.patch + Suffix(parts.prerelease);
    assert "1.2.3\n" == "1.2.3" + "\n";
    ParseOfMatch("1.2.3", parts);
    ParseOfMatch("1.2.3\n", parts);
  }

  lemma ExamplePlainRelease()
    ensures Parse(Some("1.2.3")) == Some(Semver(1, 2, 3, None, None))
  {
    ParseShow(1, 2, 3, None);
    assert Show(NewSemver(1, 2, 3, None)) == "1.2.3";
  }

  /** A leading `v` is not part of the pattern. */
  lemma ExampleRejectedPrefix()
    ensures Parse(Some("v1.2.3")) == None
  {
    assert DigitRunEnd("v1.2.3", 0) == 0;
  }

  /** Two numbers are not enough. */
  lemma ExampleRejectedShort()
    ensures Parse(Some("1.2")) == None
  {
    var s := "1.2";
    assert DigitRunEnd(s, 0) == 1;
    assert DigitRunEnd(s, 2) == 3;
  }

  /** A fourth number is left over for `$`. */
  lemma ExampleRejectedLong()
    ensures Parse(Some("1.2.3.4")) == None
  {
    var t := "1.2.3.4";
    assert DigitRunEnd(t, 0) == 1 && DigitRunEnd(t, 2) == 3 && DigitRunEnd(t, 4) == 5;
    assert t[5..] == ".4";
  }

  /** The prerelease group needs at least one character. */
  lemma ExampleRejectedEmptyPrerelease()
    ensures Parse(Some("1.2.3-")) == None
  {
    var u := "1.2.3-";
    assert DigitRunEnd(u, 0) == 1 && DigitRunEnd(u, 2) == 3 && DigitRunEnd(u, 4) == 5;
    assert u[5..] == "-";
    assert ReadSuffix("-") == None by {
      assert "-"[1..] == [];
    }
  }

  /** The prerelease is all of the rest, dashes and dots included, and a timestamp inside it
      is found. */
  lemma ExampleTimestampedPrerelease(pre: string)
    requires pre == "build.20181128T161823"
    ensures Parse(Some("1.2.3-" + pre)) == Some(Semver(1, 2, 3, Some(pre), Some(Date(2018, 11, 28))))
  {
    assert pre[0] == 'b';
    assert '\n' !in pre;
    ExampleVersion123(pre);
    ExampleBuildStamp(pre);
  }

  /** Any prerelease behind `1.2.3-` is taken whole. */
  lemma ExampleVersion123(pre: string)
    requires pre != [] && '\n' !in pre
    ensures Parse(Some("1.2.3-" + pre)) == Some(NewSemver(1, 2, 3, Some(pre)))
  {
    Show123(pre);
    ParseShow(1, 2, 3, Some(pre));
  }

  /** `str()` of version 1.2.3 with a prerelease. */
  lemma Show123(pre: string)
    requires pre != []
    ensures Show(NewSemver(1, 2, 3, Some(pre))) == "1.2.3-" + pre
  {
    assert NatToDecimal(1) == "1" && NatToDecimal(2) == "2" && NatToDecimal(3) == "3";
    assert "1" + "." + "2" + "." + "3" + ("-" + pre) == "1.2.3-" + pre;
  }

  lemma ExampleBuildStamp(pre: string)
    requires pre == "build.20181128T161823"
    ensures FindTimestamp(pre) == Some(Date(2018, 11, 28))
  {
    var w := pre[6..21];
    assert w == "20181128T161823";
    assert Qualifies(pre, 6);
    assert pre[5] == '.';
    FindTimestampLeftmost(pre, 6);
    ExampleDate20181128(w);
  }
}
