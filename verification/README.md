# docker-registry-purger: the retention decisions, in Dafny

docker-registry-purger deletes old images from a Docker registry. It lists the tags of
each repository and asks a chain of *strategies* whether each tag should be kept. Then it
reports the counts and, once confirmed, deletes the items marked for deletion.

This project models the part of the program that makes those decisions:

- the `Item` record and the `(keep, reason)` verdict a strategy returns (`Items`);
- the whitelist grammar and `WhitelistStrategy` (`Whitelisting`);
- the timestamp-in-tag recogniser `find_timestamp` / `as_timestamp`, on top of a
  proleptic Gregorian calendar (`Timestamp`, `Calendar`);
- the version parser `Semver.parse`, as a regular-expression split plus a parsed record
  (`SemverSyntax`, `SemanticVersion`);
- `SemverStrategy` and `TimestampTagStrategy` (`Strategies`);
- the purger itself: `add_strategy`, `gather_items`, `mark_item`, `run`, and
  `delete_marked_item` (`Purging`);
- the older single-file tool under `src/`: its `dev` / `rc` / `prod` classifier and its
  per-repository retention loop (`LegacyRetention`).

Python string helpers (`str.strip`, `str.split`, digit conversion) are in `Text`.
`Option` and `Result`, and the exceptions the code raises, are in `Wrappers`.

The modules are pure. Wherever the program reads something from outside, the model takes
it as a parameter:

- today's date is `today`;
- the registry's `get_age(repo, tag)` is `getAge`;
- the tag listing of a repository is `tagsOf`;
- the answer to the confirmation prompt is `answer`.

A strategy returns the item with whatever it learned written into it: the parsed version,
the timestamp, the age or the digest. The model threads that item to the next strategy,
just as the program mutates one shared object.

Python semantics that matter to the decisions are written out:

- truthiness: `None`, `0` and `""` are false;
- `int < None` raises a `TypeError` (`NoneComparison`);
- `find_timestamp(None)` raises (`NoneTag`);
- a tuple is never `None` and never equal to `True` or `False`;
- `datetime.strptime` accepts a blank in place of a day's leading zero;
- Python's `\b` and `\d`, restricted to ASCII.

## Model

| member | source | states |
|---|---|---|
| Items.NewItem | docker_registry_purger/purger.py:13-22 | `Item(...)` fails with the ValueError exactly when neither tag nor digest is truthy (None and "" both count as missing); otherwise it holds the given fields and has learned nothing yet |
| Text.StripSpec | docker_registry_purger/strategies.py:93 | `strip()` removes exactly the leading and trailing whitespace: the result is the slice between the first and last non-space characters |
| Text.BeforeFirst | docker_registry_purger/strategies.py:88-91 | dropping the comment keeps the prefix before the first `#`, contains no `#`, and is the whole line when there is none |
| Text.SplitOn | docker_registry_purger/strategies.py:96 | `line.split(':')` yields one more piece than there are colons, no piece holds a colon, and joining the pieces with `:` gives the line back |
| Text.DecimalOfNatToDecimal | docker_registry_purger/semver.py:40-42 | printing a number in decimal and reading it back gives the number |
| Text.NatToDecimalOfDecimal | docker_registry_purger/semver.py:27-38 | a canonical numeral (no leading zero) is printed back exactly as it was read |
| Calendar.OrdinalMonotone | docker_registry_purger/strategies.py:197 | the day count behind `(today - timestamp).days` grows strictly with the date |
| Calendar.OrdinalInjective | docker_registry_purger/strategies.py:197 | two valid dates with the same day count are the same date, so an age of 0 days means the same day |
| Calendar.OrdinalWithinYear | docker_registry_purger/strategies.py:197 | a date's day count lies inside its own year's range |
| Timestamp.AsTimestamp | docker_registry_purger/timestamp.py:21-23 | `as_timestamp` of a string that is not 15 characters long is None |
| Timestamp.AsTimestampShape | docker_registry_purger/timestamp.py:21-29 | whatever `as_timestamp` accepts is 15 characters: eight date digits (a blank may stand for the day's first digit), a `T` or `t`, then six time digits |
| Timestamp.AsTimestampOfStamp | docker_registry_purger/timestamp.py:21-29 | on a string of the digits-T-digits shape, `as_timestamp` returns the date exactly when year, month, day, hour, minute and second are in range, and None otherwise |
| Timestamp.FindTimestamp | docker_registry_purger/timestamp.py:9-19 | a timestamp `find_timestamp` returns is `as_timestamp` of a 15-character window that the substring pattern delimits |
| Timestamp.FindTimestampLeftmost | docker_registry_purger/timestamp.py:10-19 | `find_timestamp` converts the leftmost window that the substring pattern delimits; when that window is no valid date the answer is None, even if a later window is valid |
| Timestamp.FindTimestampNoWindow | docker_registry_purger/timestamp.py:10-19 | with no delimited window, `find_timestamp` returns None |
| Timestamp.FindTimestampOfStamp | docker_registry_purger/timestamp.py:9-19 | on a string that is exactly one timestamp, `find_timestamp` and `as_timestamp` agree |
| Timestamp.QualifiesMatches | docker_registry_purger/timestamp.py:10 | every delimited window is found by the search, starting at its first digit or at the `_` before it |
| Timestamp.ExampleUnderscoreDelimited | docker_registry_purger/timestamp.py:10 | `_` counts as a delimiter, so `v1_20181128T161823_rc1` yields 28 November 2018 |
| Timestamp.ExampleGlued | docker_registry_purger/timestamp.py:10 | a timestamp glued to a letter before it and a digit after it is not found |
| Timestamp.ExampleBlankPaddedDay | docker_registry_purger/timestamp.py:27 | `strptime` reads `201811 1T161823` as 1 November 2018 |
| Timestamp.ExampleLeftmostInvalid | docker_registry_purger/timestamp.py:14-17 | an invalid leftmost window hides a valid later one |
| Timestamp.ExampleMonth13 | docker_registry_purger/timestamp.py:27-29 | month 13 is rejected |
| Timestamp.ExampleHour24 | docker_registry_purger/timestamp.py:27-29 | hour 24 is rejected |
| Timestamp.ExampleFebruary30 | docker_registry_purger/timestamp.py:27-29 | 30 February is rejected |
| Timestamp.ExampleYearZero | docker_registry_purger/timestamp.py:27-29 | year 0 is rejected |
| SemverSyntax.SplitSemverSound | docker_registry_purger/semver.py:10 | what the splitter returns is a match of `^\d+\.\d+\.\d+(?:-.+)?$`: three digit groups, an optional non-empty prerelease, and at most one final newline |
| SemverSyntax.SplitSemverComplete | docker_registry_purger/semver.py:10 | every way the pattern matches a tag is the split the splitter returns, so the match is unique |
| SemverSyntax.DigitRunEndMaximal | docker_registry_purger/semver.py:10 | a `\d+` group runs to the last consecutive digit |
| SemanticVersion.Parse | docker_registry_purger/semver.py:13-38 | `Semver.parse` of None or "" is None; it returns a version exactly when the pattern matches the tag; its prerelease is non-empty and has no newline; its timestamp is `find_timestamp(prerelease)` when there is a prerelease and None otherwise |
| SemanticVersion.ParseOfMatch | docker_registry_purger/semver.py:27-38 | on a match, the version holds `int()` of each digit group and the prerelease group |
| SemanticVersion.ParseSemver | docker_registry_purger/semver.py:45-46 | `parse_semver` returns a version exactly when the pattern matches, and then its numbers are `int()` of the groups of a match and its prerelease is the prerelease group |
| SemanticVersion.NewSemver | docker_registry_purger/semver.py:13-25 | a timestamp is looked for only in a non-empty prerelease |
| SemanticVersion.ParseShow | docker_registry_purger/semver.py:27-46 | printing a version with `str()` and parsing the text gives the same version back |
| SemanticVersion.ShowParse | docker_registry_purger/semver.py:27-46 | a version tag with canonical numbers and no final newline is printed back exactly as it was parsed |
| SemanticVersion.NoPrereleaseNoTimestamp | docker_registry_purger/semver.py:19-25 | a release without a prerelease carries no timestamp |
| SemanticVersion.ExamplePlainRelease | docker_registry_purger/semver.py:27-38 | `1.2.3` parses to 1, 2, 3 with no prerelease |
| SemanticVersion.ExampleLeadingZeros | docker_registry_purger/semver.py:30-34 | `01.02.003` is accepted, and `int()` reads it as 1, 2, 3 |
| SemanticVersion.ExampleFinalNewline | docker_registry_purger/semver.py:10 | `$` lets one final newline through: `1.2.3\n` parses, to the same version as `1.2.3` |
| SemanticVersion.ExampleRejectedPrefix | docker_registry_purger/semver.py:10 | `v1.2.3` is not a version |
| SemanticVersion.ExampleRejectedShort | docker_registry_purger/semver.py:10 | `1.2` is not a version |
| SemanticVersion.ExampleRejectedLong | docker_registry_purger/semver.py:10 | `1.2.3.4` is not a version |
| SemanticVersion.ExampleRejectedEmptyPrerelease | docker_registry_purger/semver.py:10 | `1.2.3-` is not a version |
| SemanticVersion.ExampleTimestampedPrerelease | docker_registry_purger/semver.py:13-25 | `1.2.3-build.20181128T161823` carries the timestamp 28 November 2018 |
| Whitelisting.ParseLine | docker_registry_purger/strategies.py:86-95 | a line yields no rule exactly when it is blank once the comment is dropped and whitespace stripped |
| Whitelisting.ParseLineSpec | docker_registry_purger/strategies.py:96-117 | a non-blank line without exactly one colon is a parse error naming the raw line; with one colon, the stripped sides are routed |
| Whitelisting.Route | docker_registry_purger/strategies.py:101-117 | routing succeeds exactly when both sides are non-empty and not both `*`; the rule keeps the sides it names, and is a repository-tag pair exactly when neither side is `*` |
| Whitelisting.RouteOutcomes | docker_registry_purger/strategies.py:101-117 | routing the two sides yields a well-formed rule or one of the errors for an empty repository, an empty tag, or `*:*` |
| Whitelisting.ParseLineOutcomes | docker_registry_purger/strategies.py:86-117 | every error names the raw line and is one of the four the parser raises; every rule has non-empty sides and at most one `*` |
| Whitelisting.StripKeepsColons | docker_registry_purger/strategies.py:93-98 | stripping whitespace never changes how many colons a line has |
| Whitelisting.DigestLineRejected | docker_registry_purger/strategies.py:96-99 | a line with two colons, such as `repo:sha256:...`, is a parse error, though the docstring says digests may be used |
| Whitelisting.WildcardWildcardRejected | docker_registry_purger/strategies.py:109-111 | `*:*` is rejected, though the docstring lists it as "keep everything" |
| Whitelisting.ParseFromCollects | docker_registry_purger/strategies.py:83-119 | when every line parses, the result is the repository wildcards, tag wildcards and pairs of the lines, each in line order |
| Whitelisting.ParseFromFirstError | docker_registry_purger/strategies.py:86-119 | the first bad line's error is the one raised |
| Whitelisting.ParseFromSucceeds | docker_registry_purger/strategies.py:86-119 | parsing succeeds exactly when every line parses |
| Whitelisting.ParseWhitelist | docker_registry_purger/strategies.py:83-119 | `parse_whitelist` succeeds exactly when every line parses |
| Whitelisting.LoadLines | docker_registry_purger/strategies.py:49-58 | `load_string` fails exactly when parsing fails, and otherwise appends the parsed entries to the existing lists |
| Whitelisting.LoadLinesIsParseFrom | docker_registry_purger/strategies.py:49-58 | loading lines that all parse appends their rules in order |
| Whitelisting.CharLines | docker_registry_purger/strategies.py:37-38 | iterating a `str` yields its characters, one "line" each |
| Whitelisting.OneCharLine | docker_registry_purger/strategies.py:86-111 | a one-character line either is an error or yields nothing |
| Whitelisting.LoadStringAddsNothing | docker_registry_purger/strategies.py:37-58 | a whitelist given as a string adds no entry when it loads |
| Whitelisting.NewWhitelist | docker_registry_purger/strategies.py:26-38 | construction raises exactly when the file or the non-empty string fails to parse; `latest` is the first tag wildcard when `keep_latest` is set; with no file and no string the lists hold only that; with a file and no string it is `load_file` onto that seed |
| Whitelisting.NewWhitelistFromFile | docker_registry_purger/strategies.py:26-47 | with a file whose every line parses, the lists are the seed followed by the file's entries in line order, and a string adds nothing to them |
| Whitelisting.NewWhitelistFileError | docker_registry_purger/strategies.py:26-47 | a bad line in the file makes construction raise the first bad line's error |
| Whitelisting.FindPair | docker_registry_purger/strategies.py:127-129 | the pair loop finds a match exactly when some pair names the item's repository and its tag or digest |
| Whitelisting.ShouldKeep | docker_registry_purger/strategies.py:121-131 | the whitelist never votes for deletion; it keeps exactly the listed items, with the reason of the first rule kind that matches, and leaves the rest undecided |
| Strategies.LessThan | docker_registry_purger/strategies.py:169-170 | `age < threshold` raises when either side is None, and otherwise is the integer comparison |
| Strategies.SemverDecide | docker_registry_purger/strategies.py:146-179 | the registry is asked only for a parsed version whose timestamp is not trusted |
| Strategies.SemverNonSemver | docker_registry_purger/strategies.py:175-179 | a tag that is not a version is deleted exactly when `require_semver` is set and is otherwise undecided; the item is untouched and the registry is not asked |
| Strategies.SemverReleaseKept | docker_registry_purger/strategies.py:147-173 | a release without a prerelease is always kept, whatever the thresholds and the registry say, and the parsed version is recorded |
| Strategies.SemverTrustedTimestamp | docker_registry_purger/strategies.py:154-158 | a trusted timestamp decides: kept iff its age is below the prerelease threshold, the age is recorded, the registry is not asked, and a missing threshold raises |
| Strategies.SemverFetchesIff | docker_registry_purger/strategies.py:154-166 | the registry is asked exactly when the timestamp is not trusted and some threshold calls for metadata |
| Strategies.SemverUntrustedPrerelease | docker_registry_purger/strategies.py:160-173 | a prerelease whose timestamp is not trusted is kept iff its fetched age is below `max_age_prerelease`, raises when that limit is None, and is kept by default when no threshold calls for metadata |
| Strategies.SemverUnknownAgeRaises | docker_registry_purger/strategies.py:162-170 | a prerelease whose age the registry cannot tell raises at the comparison |
| Strategies.SemverThresholdsNeverDecide | docker_registry_purger/strategies.py:160-173 | when `max_age_prerelease` is truthy, the major, minor and patch thresholds never change whether the strategy raises, nor its verdict |
| Strategies.SemverThresholdDecidesWhenPrereleaseFalsy | docker_registry_purger/strategies.py:160-173 | when `max_age_prerelease` is 0 or None, a truthy major threshold turns the default keep of an untrusted prerelease into a fetch: a comparison with None that raises, or a delete when the limit is 0 |
| Strategies.SemverRecordsMetadata | docker_registry_purger/strategies.py:162-166 | a fetched age or digest is written into the item only when it is truthy; repository, tag and keep are untouched |
| Strategies.SemverShouldKeep | docker_registry_purger/strategies.py:146-166 | the registry is only asked for a version whose timestamp is not trusted |
| Strategies.TimestampTagShouldKeep | docker_registry_purger/strategies.py:189-202 | the timestamp strategy never asks the registry; an undecided answer leaves the item as it was; it raises only on a missing tag or a missing threshold |
| Strategies.TimestampTagDecides | docker_registry_purger/strategies.py:195-200 | a found timestamp is recorded with its age, and the item is kept iff that age is below `max_age`; an age equal to `max_age` means delete |
| Strategies.TimestampTagUndecided | docker_registry_purger/strategies.py:195-202 | no timestamp in the tag: undecided, and nothing is learned |
| Strategies.WholeTagOnlyNeedsLength | docker_registry_purger/strategies.py:190-191 | with `whole_tag_only`, only a 15-character tag can be decided |
| Strategies.Consult | docker_registry_purger/strategies.py:15-22 | the whitelist always answers and changes nothing; only the version strategy asks the registry |
| Strategies.UndecidedLearnsNothing | docker_registry_purger/strategies.py:121-202 | every strategy that answers "undecided" returns the item unchanged and did not ask the registry |
| Strategies.ConsultKeepsIdentity | docker_registry_purger/strategies.py:146-200 | no strategy changes the item's repository, tag or keep |
| Strategies.ParseCoherent | docker_registry_purger/semver.py:19-25 | a parsed version has a timestamp only when it has a non-empty prerelease |
| Purging.NewPurger | docker_registry_purger/purger.py:26-30 | a new purger has no strategies and the given `proceed` and `dry_run` |
| Purging.AddStrategy | docker_registry_purger/purger.py:32-33 | `add_strategy` appends the strategy at the end and changes nothing else |
| Purging.MarkFrom | docker_registry_purger/purger.py:73-87 | the loop consults strategies in order; a decision stops it, otherwise every strategy is consulted |
| Purging.MarkItemAsWritten | docker_registry_purger/purger.py:73-87 | as written, no strategies leave the item as it was; otherwise the first strategy answers, decides, and its whole pair is stored as `keep` |
| Purging.MarkItemUnpacked | docker_registry_purger/purger.py:73-87 | unpacking the pair, a decision stores a bool, and when none decides every strategy was consulted and the item is unchanged |
| Purging.MarkEmptyChain | docker_registry_purger/purger.py:73-87 | with no strategies, the item is left as it was |
| Purging.AsWrittenFirstOnly | docker_registry_purger/purger.py:74-78 | as written, the first strategy always ends the loop, and what it stores is the whole pair, which is neither `True`, `False` nor `None` |
| Purging.UnpackedFirstDecisive | docker_registry_purger/purger.py:73-87 | unpacking the pair, the first strategy with a `True`/`False` answer decides and stores that bool, every earlier one was undecided, and an all-undecided chain leaves the item unchanged |
| Purging.AppendKeepsDecision | docker_registry_purger/purger.py:73-87 | appending a strategy never overrides an earlier decision; it is consulted only when no earlier strategy decided |
| Purging.ConsultUndecidedUnchanged | docker_registry_purger/strategies.py:121-202 | every strategy leaves an undecided item as it was |
| Purging.ConsultKeepUntouched | docker_registry_purger/purger.py:73-78 | no strategy writes `keep`; only `mark_item` does |
| Purging.CliChainStopsAtWhitelist | docker_registry_purger/__init__.py:90-92 | with the command line's chain (whitelist, then timestamp tags, then versions), the whitelist's pair ends every item's loop as written |
| Purging.FreshItems | docker_registry_purger/purger.py:64 | one fresh item per listed tag, in order |
| Purging.GatherItems | docker_registry_purger/purger.py:61-67 | gathering fails with the ValueError exactly when the registry lists an empty tag, and otherwise yields one fresh item per tag |
| Purging.GatherAll | docker_registry_purger/purger.py:38-67 | gathering every repository fails exactly when some repository lists an empty tag, and every item belongs to one of the repositories |
| Purging.GatherPermutation | docker_registry_purger/purger.py:64-65 | sorting the tags first changes neither whether gathering succeeds nor which items it yields |
| Purging.FreshItemsPermutation | docker_registry_purger/purger.py:64-65 | permuting the tags permutes the items |
| Purging.Dedup | docker_registry_purger/purger.py:38 | the dict comprehension keeps each repository once, and keeps them all |
| Purging.DedupFrom | docker_registry_purger/purger.py:38 | the result starts with the repositories already seen and holds each repository of either list exactly once |
| Purging.DedupFromOne | docker_registry_purger/purger.py:38 | a repository is appended when it is first seen, and a repeat changes nothing |
| Purging.DedupFromAppend | docker_registry_purger/purger.py:38 | the repositories are taken one after another, so with `DedupFromOne` the keys stay in first-occurrence order |
| Purging.MarkAll | docker_registry_purger/purger.py:69-71 | marking keeps one item per gathered item |
| Purging.DeleteMarked | docker_registry_purger/purger.py:89-97 | there is at most one deletion call per item, and none on a dry run |
| Purging.DeleteMarkedSpec | docker_registry_purger/purger.py:89-97 | every call names an item whose keep is `False`; unless it is a dry run every such item gets its call and there are as many calls as such items; a dry run calls nothing |
| Purging.DeleteMarkedOne | docker_registry_purger/purger.py:93-97 | one item yields the call `delete_digest_or_tag(repo, digest, tag)` exactly when its keep is `False` and it is not a dry run |
| Purging.DeleteMarkedAppend | docker_registry_purger/purger.py:89-91 | the items are handled one after another, so with `DeleteMarkedOne` the calls come in item order, one per item marked `False` |
| Purging.RunGate | docker_registry_purger/purger.py:54-59 | `proceed=False` never deletes, `proceed=True` deletes without asking, no value defers to the prompt, and the deletions requested number the "Deleting" count |
| Purging.Run | docker_registry_purger/purger.py:35-59 | the prompt is shown exactly when `proceed` is None, and `proceed=False` or a dry run requests no deletion |
| Purging.RunAsWrittenDeletesNothing | docker_registry_purger/purger.py:42-59 | as written, a run with at least one strategy counts zero kept, zero deleted and zero undecided, and deletes nothing |
| Purging.RunUnpackedCountsAll | docker_registry_purger/purger.py:38-51 | unpacking the pair, the kept, deleted and undecided counts add up to the number of items gathered |
| Purging.MarkAllAsWrittenPairs | docker_registry_purger/purger.py:69-78 | as written, every marked item holds a pair |
| Purging.PairsCountZero | docker_registry_purger/purger.py:49-51 | items holding pairs are counted by none of the three reports |
| Purging.MarkAllUnpackedFlags | docker_registry_purger/purger.py:69-78 | unpacking the pair, no marked item holds a pair |
| Purging.FlagsPartition | docker_registry_purger/purger.py:49-51 | items holding `True`, `False` or `None` are each counted by exactly one report |
| Purging.GatherAllFresh | docker_registry_purger/purger.py:38-64 | gathered items start with keep `None` |
| LegacyRetention.SearchFrom | src/docker_registry_purger/__init__.py:16-17 | the regex search from a position succeeds exactly when the marker, with a boundary, digit or `_` on each side, matches at or after it |
| LegacyRetention.SearchIffDelimited | src/docker_registry_purger/__init__.py:16-17 | the search succeeds exactly when the marker occurs, in any case, with no letter glued to either side |
| LegacyRetention.IsDev | src/docker_registry_purger/__init__.py:84-85 | `is_dev` holds exactly when `dev` occurs with no letter glued to either side |
| LegacyRetention.IsRc | src/docker_registry_purger/__init__.py:87-88 | `is_rc` holds exactly when `rc` occurs with no letter glued to either side |
| LegacyRetention.GetReleaseType | src/docker_registry_purger/__init__.py:90-96 | `dev` wins over `rc`; `prod` is whatever is neither |
| LegacyRetention.ExampleDevSuffix | src/docker_registry_purger/__init__.py:16 | `1.0-dev` is a dev tag |
| LegacyRetention.ExampleDevDigitAfter | src/docker_registry_purger/__init__.py:16 | `dev3` is a dev tag |
| LegacyRetention.ExampleDevUnderscore | src/docker_registry_purger/__init__.py:16 | `my_dev` is a dev tag |
| LegacyRetention.ExampleDevUpperCase | src/docker_registry_purger/__init__.py:16 | `DEV` is a dev tag |
| LegacyRetention.ExampleDevel | src/docker_registry_purger/__init__.py:16 | `devel` is not a dev tag |
| LegacyRetention.ExampleMydev | src/docker_registry_purger/__init__.py:16 | `mydev` is not a dev tag |
| LegacyRetention.ExampleRcDotted | src/docker_registry_purger/__init__.py:17 | `1.0.0-rc.1` is an rc tag |
| LegacyRetention.ExampleRcUpperCase | src/docker_registry_purger/__init__.py:17 | `RC2` is an rc tag |
| LegacyRetention.ExampleSrc | src/docker_registry_purger/__init__.py:17 | `src` is not an rc tag |
| LegacyRetention.Execute | src/docker_registry_purger/__init__.py:78-81 | `execute` calls the function exactly when it is not a dry run, and returns its result |
| LegacyRetention.RetentionLoop | src/docker_registry_purger/__init__.py:157-185 | the loop over one repository's sorted tags takes, for each tag, the action the per-tag rule gives |
| LegacyRetention.ActionAt | src/docker_registry_purger/__init__.py:164-185 | a tag is skipped exactly when it has no digest, and a deletion names the tag's own digest and happens only when it is strictly older than its type's limit |
| LegacyRetention.NoDigestSkipped | src/docker_registry_purger/__init__.py:164-166 | a tag without a digest is skipped and takes no production slot |
| LegacyRetention.ProdCountIsSlotCount | src/docker_registry_purger/__init__.py:157-179 | the production count after a prefix of tags is the number of production tags with a digest in it |
| LegacyRetention.DevRcStrict | src/docker_registry_purger/__init__.py:168-176 | a dev or rc tag is deleted exactly when it is strictly older than its limit, and the call names its own digest |
| LegacyRetention.ProdKeepsFirst | src/docker_registry_purger/__init__.py:178-185 | the first `min_keep` production tags are kept whatever their age; later ones are deleted exactly when strictly older than `max_age` |
| LegacyRetention.ProdDeletionsBounded | src/docker_registry_purger/__init__.py:178-185 | at most the production tags beyond the first `min_keep` are deleted |
| LegacyRetention.ExampleDefaults | src/docker_registry_purger/__init__.py:116-131 | with the defaults (7, 180, 30, 90), the eighth production tag at 181 days is deleted |
| LegacyRetention.DeletedDigests | src/docker_registry_purger/__init__.py:78-81 | a dry run deletes no digest; otherwise the digests deleted are exactly those of the deletion actions |

## Left out

- The registry client (HTTP, authentication, manifests, `list_tags`, `delete_digest_or_tag`, `delete_tag`). `get_age` is the parameter `getAge`, the tag listing is `tagsOf`, and deletions are a list of requested calls. How `get_age` works out an age from a manifest's history, and the older tool's `tag_info`, are left out because they are network I/O and ISO date parsing.
- The clock: `datetime.date.today()` is the parameter `today`.
- `query_yes_no`: its reply is the parameter `answer`.
- Reading a whitelist file: `load_file` is given the file's lines (`fileLines`). Opening the file and its I/O errors are left out.
- `natsorted`: the model takes the tags in whatever order they come. `Purging.GatherPermutation` shows that the order changes neither whether gathering succeeds nor which items result. At gather time every age is None, so the sort key is just the lower-cased tag.
- Logging (`daiquiri`), `setup_logging`, the command-line options, and the repository regex filter: these are I/O and argument handling.
- Side effects left behind when a strategy raises midway: the model returns `Failure` and drops the half-updated item. The program keeps that item, but the exception ends the run anyway.
- `Purger(strategies=[])` shares one default list between instances in Python. The model gives each purger its own list.
- Dates are proleptic Gregorian from year 1. Years past 9999, which `datetime` rejects, cannot come from four digits anyway.
- Strings are sequences of characters. Case folding and `\b` / `\d` / `\s` follow their ASCII meaning; Unicode digits, letters and whitespace are not modelled.
- The older tool's `main`: the repository loop resets the production count per repository. `LegacyRetention.RetentionLoop` models one repository's loop; the outer loop, `tag_info` and the click options are left out.
- `Strategies.SemverShouldKeep`: its own contract only says when the registry is asked. The verdicts are stated by the lemmas about it (`SemverNonSemver`, `SemverReleaseKept`, `SemverTrustedTimestamp`, `SemverUntrustedPrerelease`).
- `Strategies.TimestampTagShouldKeep`: its own contract states only the error, fetch and undecided cases. The decision is stated by `Strategies.TimestampTagDecides`.
- `Strategies.SemverDecide`: its own contract only says when the registry is asked. Its verdicts are stated by `SemverReleaseKept`, `SemverTrustedTimestamp` and `SemverUntrustedPrerelease`.
- `Purging.DeleteMarked`: its own contract states only the bound and the dry run. Which calls are made, and in which order, is stated by `Purging.DeleteMarkedSpec`, `Purging.DeleteMarkedOne` and `Purging.DeleteMarkedAppend`.
- `Purging.Run`: its own contract states only the prompt and the cases that delete nothing. The counts and the deletions are stated by `Purging.RunGate`, `Purging.RunAsWrittenDeletesNothing` and `Purging.RunUnpackedCountsAll`.
- `Purging.MarkAll`: its own contract states only the length. What it stores is stated by `Purging.MarkAllAsWrittenPairs` and `Purging.MarkAllUnpackedFlags`.
- `Timestamp.AsTimestamp`: its own contract states only the length check. The rest is stated by `Timestamp.AsTimestampShape` and `Timestamp.AsTimestampOfStamp`.

## Where the code and its documentation part ways

The model follows the code in each of these cases:

- The docstring of `parse_whitelist` lists `*:*` as "keep everything", but the code raises for it (`Whitelisting.WildcardWildcardRejected`).
- The docstring says a digest can stand wherever a tag can. A `repo:sha256:…` line has two colons, however, so it does not split into two parts and is rejected (`Whitelisting.DigestLineRejected`).
- `load_string` is also handed the constructor's `string` argument directly. Iterating a `str` gives characters, so every "line" is one character. Such a line holds no colon, so it is either blank or an error: a string argument never adds an entry (`Whitelisting.LoadStringAddsNothing`).
- `SemverStrategy`'s major, minor and patch thresholds only trigger a metadata fetch. When `max_age_prerelease` is truthy they never take part in a decision (`Strategies.SemverThresholdsNeverDecide`). When it is 0 or None, though, the fetch they trigger does matter: the untrusted prerelease that would be kept by default is instead compared with the limit, which raises for None and deletes for 0 (`Strategies.SemverThresholdDecidesWhenPrereleaseFalsy`).

## Findings

| source | as written | input that shows it | evidently intended | confidence | as-written member | corrected member |
|---|---|---|---|---|---|---|
| docker_registry_purger/purger.py:75-78 | `keep = strategy.should_keep(...)` receives the whole `(keep, reason)` pair. A tuple is never `None`, so the first strategy always ends the loop, even with `UNDECIDED`, and `item.keep` holds a tuple. `item.keep == True`, `== False` and `is None` are then all false, so the counts are 0, 0, 0 and nothing is deleted | any run with at least one strategy, e.g. the command line's chain `[Whitelist, TimestampTag(90), Semver]` and a tag `1.0.0-rc1` | unpack `keep, reason = strategy.should_keep(...)`, test `keep is not None`, and store `keep`, as `BaseStrategy.should_keep`'s docstring (strategies.py:17-20) describes | not executed | Purging.MarkItemAsWritten (shown by Purging.AsWrittenFirstOnly, Purging.CliChainStopsAtWhitelist and Purging.RunAsWrittenDeletesNothing) | Purging.MarkItemUnpacked (proved by Purging.UnpackedFirstDecisive and Purging.RunUnpackedCountsAll) |
