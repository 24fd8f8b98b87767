/** The older command-line purger in src/docker_registry_purger/__init__.py: tags are
    classified as dev, rc or prod by two regular expressions, and each repository's tags are
    walked in order, deleting old dev and rc tags and old prod tags beyond the first
    `min_keep`. The registry's tag listing and `tag_info` are replaced by a list of
    `(tag, digest, age)` triples already in `natsorted` order. */
module LegacyRetention {
  import opened Wrappers
  import opened Text

  // ---------------------------------------------------------------------------
  // DEV_REGEX, RC_REGEX: `(?:\b|\d|_)marker(?:\b|\d|_)`, case-insensitive

  /** A lower-case word of letters. */
  predicate IsMarker(m: string) {
    |m| > 0 && forall k | 0 <= k < |m| :: 'a' <= m[k] <= 'z'
  }

  /** The marker `m` (lower case) at `q`, ignoring case. */
  predicate WordAt(s: string, m: string, q: int) {
    0 <= q && q + |m| <= |s| && forall k | 0 <= k < |m| :: ToLower(s[q + k]) == m[k]
  }

  /** The closing group at `e`: `\b`, or a digit or `_` consumed. */
  predicate RightOk(s: string, e: int)
    requires 0 <= e <= |s|
  {
    WordBoundary(s, e) || (e < |s| && (IsDigit(s[e]) || s[e] == '_'))
  }

  /** One attempt of the pattern at start `p`: the opening `\b` (nothing consumed), or an
      opening digit or `_` (one character consumed), then the marker and the closing group. */
  predicate MarkerMatchAt(s: string, m: string, p: int)
    requires 0 <= p <= |s|
  {
    || (WordBoundary(s, p) && WordAt(s, m, p) && RightOk(s, p + |m|))
    || (p < |s| && (IsDigit(s[p]) || s[p] == '_') && WordAt(s, m, p + 1) && RightOk(s, p + 1 + |m|))
  }

  /** `regex.search(s) is not None`, scanning the starts from `p` on. */
  function SearchFrom(s: string, m: string, p: nat): (found: bool)
    requires p <= |s|
    ensures found <==> exists q | p <= q <= |s| :: MarkerMatchAt(s, m, q)
    decreases |s| - p
  {
    if MarkerMatchAt(s, m, p) then true
    else if p == |s| then false
    else
      var rest := SearchFrom(s, m, p + 1);
      assert (exists q | p <= q <= |s| :: MarkerMatchAt(s, m, q)) ==> exists q | p + 1 <= q <= |s| :: MarkerMatchAt(s, m, q);
      rest
  }

  /** The marker, in any case, with no letter directly before or after it. */
  predicate Delimited(s: string, m: string, q: int) {
    && WordAt(s, m, q)
    && (q == 0 || !IsLetter(s[q - 1]))
    && (q + |m| == |s| || !IsLetter(s[q + |m|]))
  }

  /** A character that lowers to a lower-case letter is a letter. */
  lemma LowersToLetter(c: char)
    requires 'a' <= ToLower(c) <= 'z'
    ensures IsLetter(c)
  {
  }

  /** An attempt at `p` finds a delimited marker at `p` or `p + 1`. */
  lemma MatchIsDelimited(s: string, m: string, p: int)
    requires IsMarker(m) && 0 <= p <= |s| && MarkerMatchAt(s, m, p)
    ensures Delimited(s, m, p) || Delimited(s, m, p + 1)
  {
    if WordBoundary(s, p) && WordAt(s, m, p) && RightOk(s, p + |m|) {
      assert ToLower(s[p]) == m[0];
      assert ToLower(s[p + |m| - 1]) == m[|m| - 1];
      LowersToLetter(s[p]);
      LowersToLetter(s[p + |m| - 1]);
    } else {
      assert ToLower(s[p + 1]) == m[0];
      assert ToLower(s[p + |m|]) == m[|m| - 1];
      LowersToLetter(s[p + 1]);
      LowersToLetter(s[p + |m|]);
    }
  }

  /** A delimited marker is found by the attempt at its start or one before it. */
  lemma DelimitedIsMatched(s: string, m: string, q: int)
    requires IsMarker(m) && Delimited(s, m, q)
    ensures MarkerMatchAt(s, m, q) || (q > 0 && MarkerMatchAt(s, m, q - 1))
  {
    assert ToLower(s[q]) == m[0];
    assert ToLower(s[q + |m| - 1]) == m[|m| - 1];
    LowersToLetter(s[q]);
    LowersToLetter(s[q + |m| - 1]);
    assert RightOk(s, q + |m|);
  }

  /** The pattern matches somewhere exactly when the marker occurs with no letter directly
      before or after it. */
  lemma SearchIffDelimited(s: string, m: string)
    requires IsMarker(m)
    ensures SearchFrom(s, m, 0) <==> exists q :: Delimited(s, m, q)
  {
    if SearchFrom(s, m, 0) {
      var p :| 0 <= p <= |s| && MarkerMatchAt(s, m, p);
      MatchIsDelimited(s, m, p);
    }
    if exists q :: Delimited(s, m, q) {
      var q :| Delimited(s, m, q);
      DelimitedIsMatched(s, m, q);
    }
  }

  /** `is_dev(tag)` */
  function IsDev(tag: string): (r: bool)
    ensures r <==> exists q :: Delimited(tag, "dev", q)
  {
    SearchIffDelimited(tag, "dev");
    SearchFrom(tag, "dev", 0)
  }

  /** `is_rc(tag)` */
  function IsRc(tag: string): (r: bool)
    ensures r <==> exists q :: Delimited(tag, "rc", q)
  {
    SearchIffDelimited(tag, "rc");
    SearchFrom(tag, "rc", 0)
  }

  datatype ReleaseType = Dev | Rc | Prod

  /** `get_release_type(tag)`: dev wins over rc, rc over prod. */
  function GetReleaseType(tag: string): (r: ReleaseType)
    ensures r == Dev <==> IsDev(tag)
    ensures r == Rc <==> !IsDev(tag) && IsRc(tag)
    ensures r == Prod <==> !IsDev(tag) && !IsRc(tag)
  {
    if IsDev(tag) then Dev else if IsRc(tag) then Rc else Prod
  }

  lemma ExampleDevSuffix(s: string)
    requires s == "1.0-dev"
    ensures IsDev(s)
  {
    assert Delimited(s, "dev", 4);
  }

  lemma ExampleDevDigitAfter(s: string)
    requires s == "dev3"
    ensures IsDev(s)
  {
    assert Delimited(s, "dev", 0);
  }

  lemma ExampleDevUnderscore(s: string)
    requires s == "my_dev"
    ensures IsDev(s)
  {
    assert Delimited(s, "dev", 3);
  }

  lemma ExampleDevUpperCase(s: string)
    requires s == "DEV"
    ensures IsDev(s)
  {
    assert Delimited(s, "dev", 0);
  }

  /** A letter right after the marker hides it. */
  lemma ExampleDevel(s: string)
    requires s == "devel"
    ensures !IsDev(s)
  {
    forall q ensures !Delimited(s, "dev", q) {
      if q == 0 {
        assert IsLetter(s[3]);
      } else if q == 1 {
        assert ToLower(s[1]) == 'e';
      } else if q == 2 {
        assert ToLower(s[2]) == 'v';
      }
    }
  }

  /** A letter right before the marker hides it. */
  lemma ExampleMydev(s: string)
    requires s == "mydev"
    ensures !IsDev(s)
  {
    forall q ensures !Delimited(s, "dev", q) {
      if q == 0 {
        assert ToLower(s[0]) == 'm';
      } else if q == 1 {
        assert ToLower(s[1]) == 'y';
      } else if q == 2 {
        assert IsLetter(s[1]);
      }
    }
  }

  lemma ExampleRcDotted(s: string)
    requires s == "1.0.0-rc.1"
    ensures IsRc(s)
  {
    assert Delimited(s, "rc", 6);
  }

  lemma ExampleRcUpperCase(s: string)
    requires s == "RC2"
    ensures IsRc(s)
  {
    assert Delimited(s, "rc", 0);
  }

  lemma ExampleSrc(s: string)
    requires s == "src"
    ensures !IsRc(s)
  {
    forall q ensures !Delimited(s, "rc", q) {
      if q == 0 {
        assert ToLower(s[0]) == 's';
      } else if q == 1 {
        assert IsLetter(s[0]);
      }
    }
  }

  // ---------------------------------------------------------------------------
  // execute

  /** `execute(dry_run, fct)`: calls `fct` (and returns its result) only when not a dry run. */
  function Execute<R>(dryRun: bool, fct: () -> R): (r: Option<R>)
    ensures r.Some? <==> !dryRun
    ensures r.Some? ==> r.value == fct()
  {
    if dryRun then None else Some(fct())
  }

  // ---------------------------------------------------------------------------
  // The per-repository loop of `main`

  /** `(tag, digest, age)` as `tag_info` returns it. */
  datatype TagInfo = TagInfo(tag: string, digest: Option<string>, age: int)

  /** `--min-keep`, `--max-age`, `--max-dev-age`, `--max-rc-age`. */
  datatype RetentionConfig = RetentionConfig(minKeep: int, maxAge: int, maxDevAge: int, maxRcAge: int)

  /** The command-line defaults: 7 tags, 180, 30 and 90 days. */
  const DefaultRetention: RetentionConfig := RetentionConfig(7, 6 * 30, 1 * 30, 3 * 30)

  /** What the loop does with one tag. */
  datatype TagAction = AlreadyDeleted | Kept | Deleted(digest: string)

  predicate HasDigest(t: TagInfo) {
    t.digest.Some? && t.digest.value != []
  }

  /** A tag that takes one of the `min_keep` slots: a prod tag that still has a digest. */
  predicate TakesSlot(t: TagInfo) {
    HasDigest(t) && GetReleaseType(t.tag) == Prod
  }

  /** `count_prod` after the given tags. */
  function ProdCount(tags: seq<TagInfo>): (n: nat)
    ensures n <= |tags|
  {
    if tags == [] then 0
    else ProdCount(tags[..|tags| - 1]) + (if TakesSlot(tags[|tags| - 1]) then 1 else 0)
  }

  /** The age past which a tag of the given release type may go. */
  function AgeLimit(cfg: RetentionConfig, releaseType: ReleaseType): int {
    match releaseType
    case Dev => cfg.maxDevAge
    case Rc => cfg.maxRcAge
    case Prod => cfg.maxAge
  }

  /** The action for `tags[i]`, stated without the loop: its digest, its release type, its age,
      and for prod tags how many slots the tags up to and including it take. */
  function ActionAt(cfg: RetentionConfig, tags: seq<TagInfo>, i: nat): (a: TagAction)
    requires i < |tags|
    ensures a == AlreadyDeleted <==> !HasDigest(tags[i])
    ensures a.Deleted? ==> a.digest == tags[i].digest.value && tags[i].age > AgeLimit(cfg, GetReleaseType(tags[i].tag))
  {
    var t := tags[i];
    if !HasDigest(t) then AlreadyDeleted
    else
      match GetReleaseType(t.tag)
      case Dev => if t.age > cfg.maxDevAge then Deleted(t.digest.value) else Kept
      case Rc => if t.age > cfg.maxRcAge then Deleted(t.digest.value) else Kept
      case Prod =>
        if ProdCount(tags[..i + 1]) <= cfg.minKeep then Kept
        else if t.age > cfg.maxAge then Deleted(t.digest.value)
        else Kept
  }

  /** The loop of `main` over one repository's tags. */
  method RetentionLoop(cfg: RetentionConfig, tags: seq<TagInfo>) returns (actions: seq<TagAction>)
    ensures |actions| == |tags|
    ensures forall i | 0 <= i < |tags| :: actions[i] == ActionAt(cfg, tags, i)
  {
    actions := [];
    var countProd := 0;
    var i := 0;
    while i < |tags|
      invariant 0 <= i <= |tags|
      invariant |actions| == i
      invariant countProd == ProdCount(tags[..i])
      invariant forall k | 0 <= k < i :: actions[k] == ActionAt(cfg, tags, k)
    {
      var t := tags[i];
      assert tags[..i + 1][..i] == tags[..i];
      var action;
      if !HasDigest(t) {
        action := AlreadyDeleted;
      } else {
        var releaseType := GetReleaseType(t.tag);
        if releaseType == Dev {
          action := if t.age > cfg.maxDevAge then Deleted(t.digest.value) else Kept;
        } else if releaseType == Rc {
          action := if t.age > cfg.maxRcAge then Deleted(t.digest.value) else Kept;
        } else {
          countProd := countProd + 1;
          if countProd <= cfg.minKeep {
            action := Kept;
          } else if t.age > cfg.maxAge {
            action := Deleted(t.digest.value);
          } else {
            action := Kept;
          }
        }
      }
      if !TakesSlot(t) {
        assert countProd == ProdCount(tags[..i + 1]);
      }
      actions := actions + [action];
      i := i + 1;
    }
  }

  /** The digests the loop asks the registry to delete: none on a dry run. */
  function DeletedDigests(actions: seq<TagAction>, dryRun: bool): (digests: seq<string>)
    ensures dryRun ==> digests == []
    ensures !dryRun ==> forall d | d in digests :: Deleted(d) in actions
    ensures !dryRun ==> forall a | a in actions && a.Deleted? :: a.digest in digests
  {
    if actions == [] then []
    else
      var call := if actions[0].Deleted? then Execute(dryRun, () => actions[0].digest) else None;
      (if call.Some? then [call.value] else []) + DeletedDigests(actions[1..], dryRun)
  }

  // ---------------------------------------------------------------------------
  // Properties of the loop

  /** The positions of the tags that take a slot. */
  function SlotsTaken(tags: seq<TagInfo>): set<nat> {
    set i: nat | i < |tags| && TakesSlot(tags[i])
  }

  /** The prod count is the number of tags that take a slot. */
  lemma {:induction false} ProdCountIsSlotCount(tags: seq<TagInfo>)
    ensures ProdCount(tags) == |SlotsTaken(tags)|
  {
    if tags != [] {
      var n := |tags| - 1;
      var init := tags[..n];
      ProdCountIsSlotCount(init);
      assert forall i | 0 <= i < n :: init[i] == tags[i];
      assert SlotsTaken(init) == SlotsTaken(tags) - {n};
      if TakesSlot(tags[n]) {
        assert SlotsTaken(tags) == SlotsTaken(init) + {n};
      } else {
        assert SlotsTaken(tags) == SlotsTaken(init);
      }
    }
  }

  /** A tag without a digest is never deleted and takes no slot. */
  lemma NoDigestSkipped(cfg: RetentionConfig, tags: seq<TagInfo>, i: nat)
    requires i < |tags| && !HasDigest(tags[i])
    ensures ActionAt(cfg, tags, i) == AlreadyDeleted
    ensures ProdCount(tags[..i + 1]) == ProdCount(tags[..i])
  {
    assert tags[..i + 1][..i] == tags[..i];
  }

  /** Dev and rc tags are deleted exactly when strictly older than their limit. */
  lemma DevRcStrict(cfg: RetentionConfig, tags: seq<TagInfo>, i: nat)
    requires i < |tags| && HasDigest(tags[i])
    ensures GetReleaseType(tags[i].tag) == Dev ==> (ActionAt(cfg, tags, i).Deleted? <==> tags[i].age > cfg.maxDevAge)
    ensures GetReleaseType(tags[i].tag) == Rc ==> (ActionAt(cfg, tags, i).Deleted? <==> tags[i].age > cfg.maxRcAge)
    ensures ActionAt(cfg, tags, i).Deleted? ==> ActionAt(cfg, tags, i).digest == tags[i].digest.value
  {
  }

  /** The first `min_keep` prod tags with a digest are kept whatever their age; a later one
      is deleted exactly when strictly older than `max_age`. */
  lemma ProdKeepsFirst(cfg: RetentionConfig, tags: seq<TagInfo>, i: nat)
    requires i < |tags| && TakesSlot(tags[i])
    ensures ProdCount(tags[..i + 1]) <= cfg.minKeep ==> ActionAt(cfg, tags, i) == Kept
    ensures ProdCount(tags[..i + 1]) > cfg.minKeep ==> (ActionAt(cfg, tags, i).Deleted? <==> tags[i].age > cfg.maxAge)
  {
  }

  /** How many of the first `n` tags are prod tags the loop deletes. */
  function ProdDeleted(cfg: RetentionConfig, tags: seq<TagInfo>, n: nat): nat
    requires n <= |tags|
  {
    if n == 0 then 0
    else ProdDeleted(cfg, tags, n - 1) + (if TakesSlot(tags[n - 1]) && ActionAt(cfg, tags, n - 1).Deleted? then 1 else 0)
  }

  function Max(a: int, b: int): int {
    if a < b then b else a
  }

  /** At most `#prod - min_keep` prod tags are deleted (none when there are no more prod
      tags than slots). */
  lemma {:induction false} ProdDeletionsBounded(cfg: RetentionConfig, tags: seq<TagInfo>, n: nat)
    requires n <= |tags|
    ensures ProdDeleted(cfg, tags, n) <= Max(0, ProdCount(tags[..n]) - cfg.minKeep)
  {
    if n > 0 {
      var i := n - 1;
      ProdDeletionsBounded(cfg, tags, i);
      assert tags[..n][..i] == tags[..i];
      if TakesSlot(tags[i]) && ActionAt(cfg, tags, i).Deleted? {
        DeletedProdBeyondSlots(cfg, tags, i);
      }
    }
  }

  /** A prod tag is deleted only once the slots are used up. */
  lemma DeletedProdBeyondSlots(cfg: RetentionConfig, tags: seq<TagInfo>, i: nat)
    requires i < |tags| && TakesSlot(tags[i]) && ActionAt(cfg, tags, i).Deleted?
    ensures ProdCount(tags[..i + 1]) > cfg.minKeep
  {
  }

  /** On the defaults, a prod tag beyond the seventh that is 181 days old goes. */
  lemma ExampleDefaults(tags: seq<TagInfo>, i: nat)
    requires i < |tags| && TakesSlot(tags[i]) && ProdCount(tags[..i + 1]) == 8 && tags[i].age == 181
    ensures ActionAt(DefaultRetention, tags, i) == Deleted(tags[i].digest.value)
  {
  }
}
