/** SEMVER_REGEX `^(\d+)\.(\d+)\.(\d+)(?:-(.+))?$` of docker_registry_purger/semver.py,
    as `re.match` applies it: anchored at the start of the tag, `$` accepting one final
    newline, `.` any character but a newline. */
module SemverSyntax {
  import opened Wrappers
  import opened Text

  /** The text of a match, cut at its groups. */
  datatype SemverText = SemverText(major: string, minor: string, patch: string, prerelease: Option<string>)

  /** `-prerelease` or nothing. */
  function Suffix(prerelease: Option<string>): string {
    if prerelease.Some? then "-" + prerelease.value else ""
  }

  /** The strings SEMVER_REGEX accepts, cut at their groups: three non-empty digit runs
      separated by dots, then optionally `-` and a prerelease of at least one character other
      than a newline; `$` also accepts one final newline. */
  predicate IsSemverSplit(t: string, parts: SemverText) {
    GroupsOk(parts) && Assembles(t, parts)
  }

  /** Each group has the shape its part of the pattern demands. */
  predicate GroupsOk(parts: SemverText) {
    && |parts.major| > 0 && AllDigits(parts.major)
    && |parts.minor| > 0 && AllDigits(parts.minor)
    && |parts.patch| > 0 && AllDigits(parts.patch)
    && (parts.prerelease.Some? ==> parts.prerelease.value != [] && '\n' !in parts.prerelease.value)
  }

  /** The groups put back together, with the separators, give the text. */
  predicate Assembles(t: string, parts: SemverText) {
    var body := parts.major + "." + parts.minor + "." + parts.patch + Suffix(parts.prerelease);
    t == body || t == body + "\n"
  }

  /** End of the maximal digit run starting at `i` (`\d+` is greedy, and backing off can
      never help: the character after a shorter run is a digit, not `.`, `-` or the end). */
  function DigitRunEnd(s: string, i: nat): (j: nat)
    requires i <= |s|
    ensures i <= j <= |s|
    decreases |s| - i
  {
    if i < |s| && IsDigit(s[i]) then DigitRunEnd(s, i + 1) else i
  }

  /** The run found is all digits and cannot be extended. */
  lemma {:induction false} DigitRunEndMaximal(s: string, i: nat)
    requires i <= |s|
    ensures var j := DigitRunEnd(s, i);
      AllDigits(s[i..j]) && (j < |s| ==> !IsDigit(s[j]))
    decreases |s| - i
  {
    if i < |s| && IsDigit(s[i]) {
      var j := DigitRunEnd(s, i + 1);
      DigitRunEndMaximal(s, i + 1);
      assert s[i..j] == [s[i]] + s[i + 1..j];
    }
  }

  /** The optional group and `$` on what follows the patch number: `None` when they do not
      match, `Some(prerelease)` when they do. */
  function ReadSuffix(rest: string): Option<Option<string>> {
    if rest == [] || rest == "\n" then Some(None)
    else if rest[0] == '-' then
      var body := rest[1..];
      var pre := if body != [] && body[|body| - 1] == '\n' then body[..|body| - 1] else body;
      if pre != [] && '\n' !in pre then Some(Some(pre)) else None
    else None
  }

  lemma ReadSuffixSound(rest: string)
    ensures var r := ReadSuffix(rest);
      r.Some? ==>
        (r.value.Some? ==> r.value.value != [] && '\n' !in r.value.value)
        && (rest == Suffix(r.value) || rest == Suffix(r.value) + "\n")
  {
    if rest != [] && rest != "\n" && rest[0] == '-' {
      var body := rest[1..];
      assert rest == "-" + body;
      if body != [] && body[|body| - 1] == '\n' {
        assert body == body[..|body| - 1] + "\n";
      }
    }
  }

  /** SEMVER_REGEX.match(t), cut at its groups. */
  function SplitSemver(t: string): Option<SemverText> {
    AfterMajor(t, DigitRunEnd(t, 0))
  }

  /** The major group ends at `i`: a dot must follow. */
  function AfterMajor(t: string, i: nat): Option<SemverText>
    requires i <= |t|
  {
    if i == 0 || i == |t| || t[i] != '.' then None
    else AfterMinor(t, i, DigitRunEnd(t, i + 1))
  }

  /** The minor group ends at `j`: a dot must follow. */
  function AfterMinor(t: string, i: nat, j: nat): Option<SemverText>
    requires i < j <= |t|
  {
    if j == i + 1 || j == |t| || t[j] != '.' then None
    else AfterPatch(t, i, j, DigitRunEnd(t, j + 1))
  }

  /** The patch group ends at `k`: the optional prerelease and `$` must match the rest. */
  function AfterPatch(t: string, i: nat, j: nat, k: nat): Option<SemverText>
    requires i < j < k <= |t|
  {
    if k == j + 1 then None
    else
      match ReadSuffix(t[k..])
      case None => None
      case Some(pre) => Some(SemverText(t[..i], t[i + 1..j], t[j + 1..k], pre))
  }

  /** Every split `SplitSemver` reports is one SEMVER_REGEX admits. */
  lemma SplitSemverSound(t: string)
    ensures SplitSemver(t).Some? ==> IsSemverSplit(t, SplitSemver(t).value)
  {
    var i := DigitRunEnd(t, 0);
    if SplitSemver(t).Some? {
      MajorSome(t, i);
      var j := DigitRunEnd(t, i + 1);
      MinorSome(t, i, j);
      var k := DigitRunEnd(t, j + 1);
      PatchSome(t, i, j, k);
      SoundAt(t, i, j, k, ReadSuffix(t[k..]).value);
    }
  }

  /** A match past the major group: it is followed by a dot, and the minor group is next. */
  lemma MajorSome(t: string, i: nat)
    requires i <= |t| && AfterMajor(t, i).Some?
    ensures 0 < i < |t| && t[i] == '.' && AfterMajor(t, i) == AfterMinor(t, i, DigitRunEnd(t, i + 1))
  {
  }

  /** A match past the minor group: it is followed by a dot, and the patch group is next. */
  lemma MinorSome(t: string, i: nat, j: nat)
    requires i < j <= |t| && AfterMinor(t, i, j).Some?
    ensures i + 1 < j < |t| && t[j] == '.' && AfterMinor(t, i, j) == AfterPatch(t, i, j, DigitRunEnd(t, j + 1))
  {
  }

  /** A match past the patch group: the rest reads as a suffix, and the groups are cut there. */
  lemma PatchSome(t: string, i: nat, j: nat, k: nat)
    requires i < j < k <= |t| && AfterPatch(t, i, j, k).Some?
    ensures j + 1 < k && ReadSuffix(t[k..]).Some?
    ensures AfterPatch(t, i, j, k) == Some(SemverText(t[..i], t[i + 1..j], t[j + 1..k], ReadSuffix(t[k..]).value))
  {
  }

  /** The run ending at `j` is all digits. */
  lemma RunOf(t: string, i: nat, j: nat)
    requires i <= j <= |t| && DigitRunEnd(t, i) == j
    ensures AllDigits(t[i..j])
  {
    DigitRunEndMaximal(t, i);
  }

  /** The three runs the splitter reads are all digits. */
  lemma Runs(t: string, i: nat, j: nat, k: nat)
    requires i < j < k <= |t|
    requires DigitRunEnd(t, 0) == i && DigitRunEnd(t, i + 1) == j && DigitRunEnd(t, j + 1) == k
    ensures AllDigits(t[0..i]) && AllDigits(t[i + 1..j]) && AllDigits(t[j + 1..k])
  {
    RunOf(t, 0, i);
    RunOf(t, i + 1, j);
    RunOf(t, j + 1, k);
  }

  /** The runs and the suffix the splitter reads form an admitted split. */
  lemma SoundAt(t: string, i: nat, j: nat, k: nat, pre: Option<string>)
    requires 0 < i < j < k <= |t| && t[i] == '.' && t[j] == '.' && i + 1 < j && j + 1 < k
    requires DigitRunEnd(t, 0) == i && DigitRunEnd(t, i + 1) == j && DigitRunEnd(t, j + 1) == k
    requires ReadSuffix(t[k..]) == Some(pre)
    ensures IsSemverSplit(t, SemverText(t[..i], t[i + 1..j], t[j + 1..k], pre))
  {
    Runs(t, i, j, k);
    SoundFrom(t, i, j, k, pre);
  }

  /** Three digit runs between the dots and a suffix the splitter reads form an admitted
      split. */
  lemma SoundFrom(t: string, i: nat, j: nat, k: nat, pre: Option<string>)
    requires 0 < i < j < k <= |t| && t[i] == '.' && t[j] == '.' && i + 1 < j && j + 1 < k
    requires AllDigits(t[0..i]) && AllDigits(t[i + 1..j]) && AllDigits(t[j + 1..k])
    requires ReadSuffix(t[k..]) == Some(pre)
    ensures IsSemverSplit(t, SemverText(t[..i], t[i + 1..j], t[j + 1..k], pre))
  {
    ReadSuffixSound(t[k..]);
    SplitAt(t, i, j, k, pre);
  }

  /** Cutting a text at two dots and a suffix yields an admitted split when the pieces
      have the right shape. */
  lemma SplitAt(t: string, i: nat, j: nat, k: nat, pre: Option<string>)
    requires 0 < i < j < k <= |t| && t[i] == '.' && t[j] == '.' && i + 1 < j && j + 1 < k
    requires AllDigits(t[0..i]) && AllDigits(t[i + 1..j]) && AllDigits(t[j + 1..k])
    requires pre.Some? ==> pre.value != [] && '\n' !in pre.value
    requires t[k..] == Suffix(pre) || t[k..] == Suffix(pre) + "\n"
    ensures IsSemverSplit(t, SemverText(t[..i], t[i + 1..j], t[j + 1..k], pre))
  {
    assert t[..i] == t[0..i];
    JoinGroups(t, i, j, k);
  }

  lemma JoinGroups(t: string, i: nat, j: nat, k: nat)
    requires 0 < i < j < k <= |t| && t[i] == '.' && t[j] == '.'
    ensures t == t[..i] + "." + t[i + 1..j] + "." + t[j + 1..k] + t[k..]
  {
    assert t[..k] == t[..j] + [t[j]] + t[j + 1..k];
    assert t[..j] == t[..i] + [t[i]] + t[i + 1..j];
    assert t == t[..k] + t[k..];
  }

  // ---------------------------------------------------------------------------
  // The match is unique

  lemma {:induction false} DigitRunEndAt(s: string, i: nat, j: nat)
    requires i <= j <= |s| && AllDigits(s[i..j]) && (j < |s| ==> !IsDigit(s[j]))
    ensures DigitRunEnd(s, i) == j
    decreases j - i
  {
    if i < j {
      assert s[i..j][0] == s[i];
      assert s[i + 1..j] == s[i..j][1..];
      DigitRunEndAt(s, i + 1, j);
    }
  }

  /** Every split SEMVER_REGEX admits is the one `SplitSemver` finds: the match is unique. */
  lemma SplitSemverComplete(t: string, parts: SemverText)
    requires IsSemverSplit(t, parts)
    ensures SplitSemver(t) == Some(parts)
  {
    GroupsAt(t, parts);
    FindGroups(t, parts);
  }

  /** `SplitSemver` finds groups wherever they sit. */
  lemma FindGroups(t: string, parts: SemverText)
    requires parts.prerelease.Some? ==> parts.prerelease.value != [] && '\n' !in parts.prerelease.value
    requires var i, j, k := |parts.major|, |parts.major| + 1 + |parts.minor|, |parts.major| + |parts.minor| + |parts.patch| + 2;
      && 0 < i && i + 1 < j && j + 1 < k <= |t| && t[i] == '.' && t[j] == '.'
      && t[..i] == parts.major && t[i + 1..j] == parts.minor && t[j + 1..k] == parts.patch
      && AllDigits(t[0..i]) && AllDigits(t[i + 1..j]) && AllDigits(t[j + 1..k])
      && (k < |t| ==> !IsDigit(t[k]))
      && (t[k..] == Suffix(parts.prerelease) || t[k..] == Suffix(parts.prerelease) + "\n")
    ensures SplitSemver(t) == Some(parts)
  {
    var i, j, k := |parts.major|, |parts.major| + 1 + |parts.minor|, |parts.major| + |parts.minor| + |parts.patch| + 2;
    RunsAt(t, i, j, k);
    ReadSuffixComplete(t[k..], parts.prerelease);
    SplitSemverAt(t, i, j, k, parts.prerelease);
  }

  /** The groups of an admitted split, located in the text. */
  lemma GroupsAt(t: string, parts: SemverText)
    requires IsSemverSplit(t, parts)
    ensures var i, j, k := |parts.major|, |parts.major| + 1 + |parts.minor|, |parts.major| + |parts.minor| + |parts.patch| + 2;
      && 0 < i && i + 1 < j && j + 1 < k <= |t| && t[i] == '.' && t[j] == '.'
      && t[..i] == parts.major && t[i + 1..j] == parts.minor && t[j + 1..k] == parts.patch
      && AllDigits(t[0..i]) && AllDigits(t[i + 1..j]) && AllDigits(t[j + 1..k])
      && (k < |t| ==> !IsDigit(t[k]))
      && (t[k..] == Suffix(parts.prerelease) || t[k..] == Suffix(parts.prerelease) + "\n")
  {
    PiecesAt(t, parts);
    var i, j, k := |parts.major|, |parts.major| + 1 + |parts.minor|, |parts.major| + |parts.minor| + |parts.patch| + 2;
    assert AllDigits(t[0..i]) && AllDigits(t[i + 1..j]) && AllDigits(t[j + 1..k]);
    SuffixHead(t[k..], parts.prerelease);
    assert k < |t| ==> t[k] == t[k..][0];
  }

  /** Where the pieces of an assembled text sit. */
  lemma PiecesAt(t: string, parts: SemverText)
    requires Assembles(t, parts)
    ensures var i, j, k := |parts.major|, |parts.major| + 1 + |parts.minor|, |parts.major| + |parts.minor| + |parts.patch| + 2;
      && k <= |t| && t[i] == '.' && t[j] == '.'
      && t[..i] == t[0..i] == parts.major && t[i + 1..j] == parts.minor && t[j + 1..k] == parts.patch
      && (t[k..] == Suffix(parts.prerelease) || t[k..] == Suffix(parts.prerelease) + "\n")
  {
    var a, b, c := parts.major, parts.minor, parts.patch;
    var rest := if t == a + "." + b + "." + c + Suffix(parts.prerelease) then Suffix(parts.prerelease) else Suffix(parts.prerelease) + "\n";
    SplitPositions(t, a, b, c, rest);
    assert t[..|a|] == t[0..|a|];
  }

  /** What follows the patch number starts with `-` or a newline, never a digit. */
  lemma SuffixHead(rest: string, pre: Option<string>)
    requires rest == Suffix(pre) || rest == Suffix(pre) + "\n"
    ensures rest != [] ==> !IsDigit(rest[0])
  {
  }

  /** The three digit runs end at the two dots and at the suffix. */
  lemma RunsAt(t: string, i: nat, j: nat, k: nat)
    requires 0 < i < j < k <= |t| && t[i] == '.' && t[j] == '.'
    requires AllDigits(t[0..i]) && AllDigits(t[i + 1..j]) && AllDigits(t[j + 1..k])
    requires k < |t| ==> !IsDigit(t[k])
    ensures DigitRunEnd(t, 0) == i && DigitRunEnd(t, i + 1) == j && DigitRunEnd(t, j + 1) == k
  {
    DigitRunEndAt(t, 0, i);
    DigitRunEndAt(t, i + 1, j);
    DigitRunEndAt(t, j + 1, k);
  }

  /** `SplitSemver` read off the three digit runs and the suffix behind them. */
  lemma SplitSemverAt(t: string, i: nat, j: nat, k: nat, pre: Option<string>)
    requires 0 < i < j < k <= |t| && t[i] == '.' && t[j] == '.' && i + 1 < j && j + 1 < k
    requires DigitRunEnd(t, 0) == i && DigitRunEnd(t, i + 1) == j && DigitRunEnd(t, j + 1) == k
    requires ReadSuffix(t[k..]) == Some(pre)
    ensures SplitSemver(t) == Some(SemverText(t[..i], t[i + 1..j], t[j + 1..k], pre))
  {
  }

  /** Where the groups of a split sit in the matched text. */
  lemma SplitPositions(t: string, a: string, b: string, c: string, rest: string)
    requires t == a + "." + b + "." + c + rest
    ensures var i, j, k := |a|, |a| + 1 + |b|, |a| + |b| + |c| + 2;
      && k <= |t| && t[i] == '.' && t[j] == '.'
      && t[0..i] == a && t[i + 1..j] == b && t[j + 1..k] == c && t[k..] == rest
  {
    var i, j, k := |a|, |a| + 1 + |b|, |a| + |b| + |c| + 2;
    assert t[..k] == a + "." + b + "." + c;
    assert t[..j] == a + "." + b;
  }

  lemma ReadSuffixComplete(rest: string, pre: Option<string>)
    requires pre.Some? ==> pre.value != [] && '\n' !in pre.value
    requires rest == Suffix(pre) || rest == Suffix(pre) + "\n"
    ensures ReadSuffix(rest) == Some(pre)
  {
    if pre.Some? {
      var p := pre.value;
      assert p[|p| - 1] in p;
      if rest == "-" + p + "\n" {
        assert rest[1..] == p + "\n";
        assert (p + "\n")[..|p|] == p;
      } else {
        assert rest[1..] == p;
      }
    }
  }
}
