/** The record a purge run works on, docker_registry_purger/purger.py `Item`, and the
    `(keep, reason)` pair every strategy hands back. */
module Items {
  import opened Wrappers
  import opened Calendar
  import opened SemanticVersion

  /** A strategy's answer: keep (`Some(true)`), delete (`Some(false)`) or cannot decide
      (`None`), with a reason. */
  datatype Verdict = Verdict(keep: Option<bool>, reason: string)

  /** `UNDECIDED = (None, 'undecided')` */
  const Undecided: Verdict := Verdict(None, "undecided")

  /** What `item.keep` can hold: Python's `None`, a bool, or a whole `(keep, reason)` pair. */
  datatype KeepValue = Unset | Flag(flag: bool) | Pair(verdict: Verdict)

  /** `item.keep == True`: only a bool compares equal to `True`; a tuple never does. */
  predicate IsKeepTrue(k: KeepValue) {
    k == Flag(true)
  }

  /** `item.keep == False` */
  predicate IsKeepFalse(k: KeepValue) {
    k == Flag(false)
  }

  /** `item.keep is None` */
  predicate IsKeepNone(k: KeepValue) {
    k == Unset
  }

  /** An item: one tag (or digest) of one repository, with what the strategies learned about
      it (`semver`, `timestamp`, `age`, `digest` are filled in as a side effect). */
  datatype Item = Item(
    repo: string,
    tag: Option<string>,
    digest: Option<string>,
    age: Option<int>,
    keep: KeepValue,
    semver: Option<Semver>,
    timestamp: Option<ValidDate>)

  /** Python truthiness of an optional string: present and non-empty. */
  predicate Truthy(s: Option<string>) {
    s.Some? && s.value != []
  }

  /** Python truthiness of an optional integer: present and non-zero. */
  predicate TruthyInt(n: Option<int>) {
    n.Some? && n.value != 0
  }

  /** `Item(repo, tag, digest, age, keep)`: a ValueError when neither a tag nor a digest is
      given (None and the empty string both count as missing). */
  function NewItem(repo: string, tag: Option<string>, digest: Option<string>, age: Option<int>, keep: KeepValue): (r: Result<Item, Exception>)
    ensures r.Failure? <==> !Truthy(tag) && !Truthy(digest)
    ensures r.Failure? ==> r.error == MissingTagAndDigest
    ensures r.Success? ==>
      && r.value.repo == repo && r.value.tag == tag && r.value.digest == digest
      && r.value.age == age && r.value.keep == keep
      && r.value.semver.None? && r.value.timestamp.None?
  {
    if !Truthy(tag) && !Truthy(digest) then Failure(MissingTagAndDigest)
    else Success(Item(repo, tag, digest, age, keep, None, None))
  }
}
