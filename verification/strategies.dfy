/** The decision tables of docker_registry_purger/strategies.py: `SemverStrategy`,
    `TimestampTagStrategy`, and a common entry point that also dispatches to
    `WhitelistStrategy`. A strategy hands back a verdict and the item with whatever it
    learned written into it; the registry's `get_age` is a function parameter, and the
    result records whether it was consulted. */
module Strategies {
  import opened Wrappers
  import opened Calendar
  import opened Timestamp
  import opened SemanticVersion
  import opened Items
  import Whitelisting

  /** `SemverStrategy(max_age_major, max_age_minor, max_age_patch, max_age_prerelease,
      trust_timestamp_tags, require_semver)`; a threshold of `None` is unset. */
  datatype SemverConfig = SemverConfig(
    maxAgeMajor: Option<int>,
    maxAgeMinor: Option<int>,
    maxAgePatch: Option<int>,
    maxAgePrerelease: Option<int>,
    trustTimestampTags: bool,
    requireSemver: bool)

  /** The constructor defaults. */
  const DefaultSemverConfig: SemverConfig := SemverConfig(None, None, None, Some(90), true, false)

  /** `TimestampTagStrategy(max_age, whole_tag_only)` */
  datatype TimestampTagConfig = TimestampTagConfig(maxAge: Option<int>, wholeTagOnly: bool)

  const DefaultTimestampTagConfig: TimestampTagConfig := TimestampTagConfig(Some(90), false)

  datatype Strategy =
    | WhitelistStrategy(whitelist: Whitelisting.Whitelist)
    | SemverStrategy(semverConfig: SemverConfig)
    | TimestampTagStrategy(timestampConfig: TimestampTagConfig)

  /** What the registry's `get_age(repository, tag)` answers: an age in days when the
      manifest has a history, and the content digest when the registry sent one. */
  datatype AgeInfo = AgeInfo(age: Option<int>, digest: Option<string>)

  /** A strategy's answer, the item as the strategy left it, and whether `get_age` was called. */
  datatype Outcome = Outcome(verdict: Verdict, item: Item, fetched: bool)

  /** Python's `a < b` on values that may be `None`: comparing with `None` raises TypeError. */
  function LessThan(a: Option<int>, b: Option<int>): (r: Result<bool, Exception>)
    ensures r.Failure? <==> a.None? || b.None?
    ensures r.Failure? ==> r.error == NoneComparison
    ensures r.Success? ==> (r.value <==> a.value < b.value)
  {
    if a.None? || b.None? then Failure(NoneComparison) else Success(a.value < b.value)
  }

  // ---------------------------------------------------------------------------
  // SemverStrategy.should_keep

  /** Whether the untrusted path asks the registry: a prerelease with a truthy prerelease
      threshold, or any truthy major/minor/patch threshold. */
  predicate NeedsMetadata(c: SemverConfig, v: Semver) {
    || (v.prerelease.Some? && v.prerelease.value != [] && TruthyInt(c.maxAgePrerelease))
    || TruthyInt(c.maxAgeMajor) || TruthyInt(c.maxAgeMinor) || TruthyInt(c.maxAgePatch)
  }

  /** Whether the age is read from the timestamp inside the version. */
  predicate TrustsTimestamp(c: SemverConfig, v: Semver) {
    c.trustTimestampTags && v.timestamp.Some?
  }

  /** What `Semver.__init__` guarantees of every parsed version: a timestamp only with a
      non-empty prerelease. */
  predicate Coherent(v: Semver) {
    v.timestamp.Some? ==> v.prerelease.Some? && v.prerelease.value != []
  }

  /** `SemverStrategy.should_keep`: parses the tag, then decides. */
  function SemverShouldKeep(c: SemverConfig, item: Item, today: ValidDate, getAge: (string, Option<string>) -> AgeInfo): (r: Result<Outcome, Exception>)
    ensures r.Success? && r.value.fetched ==> Parse(item.tag).Some? && !TrustsTimestamp(c, Parse(item.tag).value)
  {
    SemverDecide(c, item, Parse(item.tag), today, getAge)
  }

  /** The decision table of `SemverStrategy.should_keep`, given what `Semver.parse` made of
      the tag. */
  function SemverDecide(c: SemverConfig, item: Item, parsed: Option<Semver>, today: ValidDate, getAge: (string, Option<string>) -> AgeInfo): (r: Result<Outcome, Exception>)
    ensures r.Success? && r.value.fetched ==> parsed.Some? && !TrustsTimestamp(c, parsed.value)
  {
    match parsed
    case None =>
      var verdict := if c.requireSemver then Verdict(Some(false), "not a semver") else Undecided;
      Success(Outcome(verdict, item, false))
    case Some(v) =>
      var item := item.(semver := Some(v));
      if TrustsTimestamp(c, v) then
        var age := DaysBetween(today, v.timestamp.value);
        var keep :- LessThan(Some(age), c.maxAgePrerelease);
        Success(Outcome(Verdict(Some(keep), "age based on timestamp in semver tag"), item.(age := Some(age)), false))
      else if NeedsMetadata(c, v) then
        var info := getAge(item.repo, item.tag);
        var item := if TruthyInt(info.age) then item.(age := info.age) else item;
        var item := if Truthy(info.digest) then item.(digest := info.digest) else item;
        if v.prerelease.Some? && v.prerelease.value != [] then
          var keep :- LessThan(info.age, c.maxAgePrerelease);
          Success(Outcome(Verdict(Some(keep), "age based on metadata"), item, true))
        else
          Success(Outcome(Verdict(Some(true), "keep semver non-prerelease by default"), item, true))
      else
        Success(Outcome(Verdict(Some(true), "keep semver non-prerelease by default"), item, false))
  }

  /** Every version `Semver.parse` returns is coherent. */
  lemma ParseCoherent(tag: Option<string>)
    requires Parse(tag).Some?
    ensures Coherent(Parse(tag).value)
  {
  }

  /** A tag that is not a version is rejected exactly when versions are required, and is
      otherwise left undecided; the item is untouched and the registry is not asked. */
  lemma SemverNonSemver(c: SemverConfig, item: Item, today: ValidDate, getAge: (string, Option<string>) -> AgeInfo)
    requires Parse(item.tag).None?
    ensures var r := SemverShouldKeep(c, item, today, getAge);
      && r.Success? && r.value.item == item && !r.value.fetched
      && (r.value.verdict.keep == Some(false) <==> c.requireSemver)
      && (!c.requireSemver ==> r.value.verdict == Undecided)
  {
  }

  /** A release without a prerelease is always kept, whatever the thresholds and the
      registry say. */
  lemma SemverReleaseKept(c: SemverConfig, item: Item, today: ValidDate, getAge: (string, Option<string>) -> AgeInfo)
    requires Parse(item.tag).Some? && Parse(item.tag).value.prerelease.None?
    ensures var r := SemverShouldKeep(c, item, today, getAge);
      r.Success? && r.value.verdict.keep == Some(true) && r.value.item.semver == Parse(item.tag)
  {
    ParseCoherent(item.tag);
    ReleaseKept(c, item, Parse(item.tag).value, today, getAge);
  }

  lemma ReleaseKept(c: SemverConfig, item: Item, v: Semver, today: ValidDate, getAge: (string, Option<string>) -> AgeInfo)
    requires Coherent(v) && v.prerelease.None?
    ensures var r := SemverDecide(c, item, Some(v), today, getAge);
      r.Success? && r.value.verdict.keep == Some(true) && r.value.item.semver == Some(v)
  {
  }

  /** A trusted timestamp decides by its own age: kept iff younger than the prerelease
      threshold, the age is recorded, and the registry is not asked. Without a threshold
      the comparison raises. */
  lemma SemverTrustedTimestamp(c: SemverConfig, item: Item, v: Semver, today: ValidDate, getAge: (string, Option<string>) -> AgeInfo)
    requires TrustsTimestamp(c, v)
    ensures var r := SemverDecide(c, item, Some(v), today, getAge);
      var age := DaysBetween(today, v.timestamp.value);
      && (r.Failure? <==> c.maxAgePrerelease.None?)
      && (r.Success? ==>
        && !r.value.fetched
        && r.value.item.age == Some(age)
        && (r.value.verdict.keep == Some(true) <==> age < c.maxAgePrerelease.value)
        && (r.value.verdict.keep == Some(false) <==> age >= c.maxAgePrerelease.value))
  {
  }

  /** The registry is asked exactly when the timestamp is not trusted and the thresholds
      call for metadata. */
  lemma SemverFetchesIff(c: SemverConfig, item: Item, v: Semver, today: ValidDate, getAge: (string, Option<string>) -> AgeInfo)
    requires SemverDecide(c, item, Some(v), today, getAge).Success?
    ensures SemverDecide(c, item, Some(v), today, getAge).value.fetched <==> !TrustsTimestamp(c, v) && NeedsMetadata(c, v)
  {
  }

  /** A prerelease whose age the registry cannot tell raises at the comparison. */
  lemma SemverUnknownAgeRaises(c: SemverConfig, item: Item, v: Semver, today: ValidDate, getAge: (string, Option<string>) -> AgeInfo)
    requires v.prerelease.Some? && v.prerelease.value != []
    requires !TrustsTimestamp(c, v) && NeedsMetadata(c, v)
    requires getAge(item.repo, item.tag).age.None?
    ensures SemverDecide(c, item, Some(v), today, getAge) == Failure(NoneComparison)
  {
  }

  /** An untrusted prerelease. When metadata is fetched, the verdict is whether the
      registry's age is below the prerelease threshold, and a missing threshold raises.
      When nothing calls for metadata, the tag is kept by default and only its version is
      recorded. */
  lemma SemverUntrustedPrerelease(c: SemverConfig, item: Item, v: Semver, today: ValidDate, getAge: (string, Option<string>) -> AgeInfo)
    requires v.prerelease.Some? && v.prerelease.value != [] && !TrustsTimestamp(c, v)
    ensures var r := SemverDecide(c, item, Some(v), today, getAge);
      var info := getAge(item.repo, item.tag);
      && (NeedsMetadata(c, v) && info.age.Some? && c.maxAgePrerelease.Some? ==>
            r.Success? && r.value.fetched
            && r.value.verdict == Verdict(Some(info.age.value < c.maxAgePrerelease.value), "age based on metadata"))
      && (NeedsMetadata(c, v) && c.maxAgePrerelease.None? ==> r == Failure(NoneComparison))
      && (!NeedsMetadata(c, v) ==>
            r == Success(Outcome(Verdict(Some(true), "keep semver non-prerelease by default"), item.(semver := Some(v)), false)))
  {
  }

  /** With a prerelease threshold of 0 or None, a major, minor or patch threshold does take
      part: without one an untrusted prerelease is kept by default; with one the registry
      is asked and `age < 0` deletes it (any age the registry reports is at least 0), or
      `age < None` raises. */
  lemma SemverThresholdDecidesWhenPrereleaseFalsy(c: SemverConfig, major: int, item: Item, v: Semver, today: ValidDate, getAge: (string, Option<string>) -> AgeInfo)
    requires v.prerelease.Some? && v.prerelease.value != [] && !TrustsTimestamp(c, v)
    requires !TruthyInt(c.maxAgePrerelease)
    requires !TruthyInt(c.maxAgeMajor) && !TruthyInt(c.maxAgeMinor) && !TruthyInt(c.maxAgePatch)
    requires major != 0
    ensures SemverDecide(c, item, Some(v), today, getAge).Success?
    ensures SemverDecide(c, item, Some(v), today, getAge).value.verdict.keep == Some(true)
    ensures var r' := SemverDecide(c.(maxAgeMajor := Some(major)), item, Some(v), today, getAge);
      var age := getAge(item.repo, item.tag).age;
      && (c.maxAgePrerelease.None? ==> r' == Failure(NoneComparison))
      && (c.maxAgePrerelease == Some(0) && age.Some? && age.value >= 0 ==>
            r'.Success? && r'.value.fetched && r'.value.verdict.keep == Some(false))
  {
  }

  /** The major, minor and patch thresholds never decide: with a truthy prerelease threshold,
      changing them leaves the verdict as it was. */
  lemma SemverThresholdsNeverDecide(c: SemverConfig, major: Option<int>, minor: Option<int>, patch: Option<int>,
                                    item: Item, v: Semver, today: ValidDate, getAge: (string, Option<string>) -> AgeInfo)
    requires TruthyInt(c.maxAgePrerelease)
    ensures var c' := c.(maxAgeMajor := major, maxAgeMinor := minor, maxAgePatch := patch);
      var r, r' := SemverDecide(c, item, Some(v), today, getAge), SemverDecide(c', item, Some(v), today, getAge);
      r.Success? == r'.Success? && (r.Success? ==> r.value.verdict == r'.value.verdict)
  {
  }

  /** A learned age or digest is written into the item only when it is truthy. */
  lemma SemverRecordsMetadata(c: SemverConfig, item: Item, v: Semver, today: ValidDate, getAge: (string, Option<string>) -> AgeInfo)
    requires SemverDecide(c, item, Some(v), today, getAge).Success?
    requires SemverDecide(c, item, Some(v), today, getAge).value.fetched
    ensures var info := getAge(item.repo, item.tag);
      var out := SemverDecide(c, item, Some(v), today, getAge).value.item;
      && out.age == (if TruthyInt(info.age) then info.age else item.age)
      && out.digest == (if Truthy(info.digest) then info.digest else item.digest)
      && out.repo == item.repo && out.tag == item.tag && out.keep == item.keep && out.semver == Some(v)
  {
    assert !TrustsTimestamp(c, v) && NeedsMetadata(c, v);
  }

  // ---------------------------------------------------------------------------
  // TimestampTagStrategy.should_keep

  /** `as_timestamp(tag)` or `find_timestamp(tag)` */
  function TagTimestamp(c: TimestampTagConfig, tag: string): Option<ValidDate> {
    if c.wholeTagOnly then AsTimestamp(tag) else FindTimestamp(tag)
  }

  /** Both lookups raise TypeError on a missing tag. */
  function TimestampTagShouldKeep(c: TimestampTagConfig, item: Item, today: ValidDate): (r: Result<Outcome, Exception>)
    ensures r.Failure? ==> item.tag.None? || c.maxAge.None?
    ensures r.Success? ==> !r.value.fetched
    ensures r.Success? && r.value.verdict.keep.None? ==> r.value == Outcome(Undecided, item, false)
  {
    if item.tag.None? then Failure(NoneTag)
    else
      match TagTimestamp(c, item.tag.value)
      case None => Success(Outcome(Undecided, item, false))
      case Some(ts) =>
        var age := DaysBetween(today, ts);
        var keep :- LessThan(Some(age), c.maxAge);
        Success(Outcome(Verdict(Some(keep), "age based on timestamp in tag"), item.(timestamp := Some(ts), age := Some(age)), false))
  }

  /** A found timestamp is recorded with its age, and the item is kept iff that age is below
      the threshold: an age equal to the threshold means delete. */
  lemma TimestampTagDecides(c: TimestampTagConfig, item: Item, today: ValidDate)
    requires item.tag.Some? && TagTimestamp(c, item.tag.value).Some? && c.maxAge.Some?
    ensures var ts := TagTimestamp(c, item.tag.value).value;
      var r := TimestampTagShouldKeep(c, item, today);
      && r.Success?
      && r.value.item.timestamp == Some(ts)
      && r.value.item.age == Some(DaysBetween(today, ts))
      && (r.value.verdict.keep == Some(true) <==> DaysBetween(today, ts) < c.maxAge.value)
      && (DaysBetween(today, ts) == c.maxAge.value ==> r.value.verdict.keep == Some(false))
  {
  }

  /** No timestamp in the tag: undecided, nothing learned. */
  lemma TimestampTagUndecided(c: TimestampTagConfig, item: Item, today: ValidDate)
    requires item.tag.Some? && TagTimestamp(c, item.tag.value).None?
    ensures TimestampTagShouldKeep(c, item, today) == Success(Outcome(Undecided, item, false))
  {
  }

  /** With `whole_tag_only`, only a tag that is entirely a timestamp counts. */
  lemma WholeTagOnlyNeedsLength(c: TimestampTagConfig, item: Item, today: ValidDate)
    requires c.wholeTagOnly && item.tag.Some? && |item.tag.value| != TimestampLength
    ensures TimestampTagShouldKeep(c, item, today) == Success(Outcome(Undecided, item, false))
  {
  }

  // ---------------------------------------------------------------------------
  // Any strategy

  /** `strategy.should_keep(item, purger)` */
  function Consult(s: Strategy, item: Item, today: ValidDate, getAge: (string, Option<string>) -> AgeInfo): (r: Result<Outcome, Exception>)
    ensures s.WhitelistStrategy? ==> r.Success? && r.value.item == item && !r.value.fetched
    ensures r.Success? && r.value.fetched ==> s.SemverStrategy?
  {
    match s
    case WhitelistStrategy(w) => Success(Outcome(Whitelisting.ShouldKeep(w, item), item, false))
    case SemverStrategy(c) => SemverShouldKeep(c, item, today, getAge)
    case TimestampTagStrategy(c) => TimestampTagShouldKeep(c, item, today)
  }

  /** An undecided answer leaves the item as it was, and the registry was not asked for it. */
  lemma UndecidedLearnsNothing(s: Strategy, item: Item, today: ValidDate, getAge: (string, Option<string>) -> AgeInfo)
    requires Consult(s, item, today, getAge).Success?
    requires Consult(s, item, today, getAge).value.verdict.keep.None?
    ensures Consult(s, item, today, getAge).value.item == item
    ensures !Consult(s, item, today, getAge).value.fetched
  {
    if s.SemverStrategy? {
      DecideUndecided(s.semverConfig, item, Parse(item.tag), today, getAge);
    }
  }

  lemma DecideUndecided(c: SemverConfig, item: Item, parsed: Option<Semver>, today: ValidDate, getAge: (string, Option<string>) -> AgeInfo)
    requires SemverDecide(c, item, parsed, today, getAge).Success?
    requires SemverDecide(c, item, parsed, today, getAge).value.verdict.keep.None?
    ensures SemverDecide(c, item, parsed, today, getAge).value == Outcome(Undecided, item, false)
  {
  }

  /** Whatever a strategy does, it never changes the item's repository, tag or keep. */
  lemma ConsultKeepsIdentity(s: Strategy, item: Item, today: ValidDate, getAge: (string, Option<string>) -> AgeInfo)
    requires Consult(s, item, today, getAge).Success?
    ensures var out := Consult(s, item, today, getAge).value.item;
      out.repo == item.repo && out.tag == item.tag && out.keep == item.keep
  {
    if s.SemverStrategy? {
      DecideKeepsIdentity(s.semverConfig, item, Parse(item.tag), today, getAge);
    }
  }

  lemma DecideKeepsIdentity(c: SemverConfig, item: Item, parsed: Option<Semver>, today: ValidDate, getAge: (string, Option<string>) -> AgeInfo)
    requires SemverDecide(c, item, parsed, today, getAge).Success?
    ensures var out := SemverDecide(c, item, parsed, today, getAge).value.item;
      out.repo == item.repo && out.tag == item.tag && out.keep == item.keep
  {
  }
}
