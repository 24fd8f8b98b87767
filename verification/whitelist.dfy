/** `WhitelistStrategy` of docker_registry_purger/strategies.py: the line grammar of a
    whitelist, loading it into three lists, and the keep decision it makes. */
module Whitelisting {
  import opened Wrappers
  import opened Text
  import opened Items

  /** Repository wildcards (`repo:*`), tag wildcards (`*:tag`) and exact pairs (`repo:tag`),
      each in the order the lines were read. */
  datatype Whitelist = Whitelist(repos: seq<string>, tags: seq<string>, repotags: seq<(string, string)>)

  const Empty: Whitelist := Whitelist([], [], [])

  /** What one line of a whitelist says. */
  datatype Rule =
    | Blank                                // empty or comment-only line
    | RepoWildcard(repo: string)           // `repo:*`
    | TagWildcard(tag: string)             // `*:tag`
    | RepoTag(repo: string, tag: string)   // `repo:tag`

  // ---------------------------------------------------------------------------
  // parse_whitelist, one line

  /** The line with its comment (from the first `#`) and surrounding white space removed. */
  function CleanLine(raw: string): string {
    Strip(BeforeFirst(raw, '#'))
  }

  /** The routing at the end of one iteration of `parse_whitelist`, given the stripped text
      either side of the colon: empty sides and `*:*` raise, a `*` side makes a wildcard. */
  function Route(raw: string, repo: string, tag: string): (r: Result<Rule, Exception>)
    ensures r.Success? <==> repo != [] && tag != [] && !(repo == "*" && tag == "*")
    ensures r.Success? ==> r.value != Blank
    ensures r.Success? && (r.value.RepoWildcard? || r.value.RepoTag?) ==> r.value.repo == repo
    ensures r.Success? && (r.value.TagWildcard? || r.value.RepoTag?) ==> r.value.tag == tag
    ensures r.Success? ==> (r.value.RepoTag? <==> repo != "*" && tag != "*")
  {
    if repo == [] then Failure(InvalidRepository(raw))
    else if tag == [] then Failure(InvalidTagOrDigest(raw))
    else if repo == "*" then
      if tag == "*" then Failure(InvalidWildcard(raw)) else Success(TagWildcard(tag))
    else if tag == "*" then Success(RepoWildcard(repo))
    else Success(RepoTag(repo, tag))
  }

  /** One iteration of the loop in `parse_whitelist`. */
  function ParseLine(raw: string): (r: Result<Rule, Exception>)
    ensures r == Success(Blank) <==> CleanLine(raw) == []
  {
    var line := CleanLine(raw);
    if line == [] then Success(Blank)
    else
      var parts := SplitOn(line, ':');
      if |parts| != 2 then Failure(MalformedLine(raw))
      else Route(raw, Strip(parts[0]), Strip(parts[1]))
  }

  /** The two sides of a line with one colon, stripped: the text before the colon and the
      text after it. */
  function Sides(line: string): (string, string) {
    var before := BeforeFirst(line, ':');
    var after := if |before| < |line| then line[|before| + 1..] else [];
    (Strip(before), Strip(after))
  }

  /** A non-blank line must hold exactly one colon; the sides either side of it are routed. */
  lemma ParseLineSpec(raw: string)
    ensures CleanLine(raw) != [] && CountChar(CleanLine(raw), ':') != 1 ==> ParseLine(raw) == Failure(MalformedLine(raw))
    ensures CleanLine(raw) != [] && CountChar(CleanLine(raw), ':') == 1 ==>
      ParseLine(raw) == Route(raw, Sides(CleanLine(raw)).0, Sides(CleanLine(raw)).1)
  {
    var line := CleanLine(raw);
    if line != [] && CountChar(line, ':') == 1 {
      SidesOfSplit(line);
      ParseLineOfSplit(raw, line);
    }
  }

  /** With one colon, the two pieces of the split are the two sides. */
  lemma SidesOfSplit(line: string)
    requires CountChar(line, ':') == 1
    ensures |SplitOn(line, ':')| == 2 && Sides(line) == (Strip(SplitOn(line, ':')[0]), Strip(SplitOn(line, ':')[1]))
  {
    SplitAtColon(line);
  }

  lemma SplitAtColon(line: string)
    requires CountChar(line, ':') == 1
    ensures |BeforeFirst(line, ':')| < |line|
    ensures SplitOn(line, ':') == [BeforeFirst(line, ':'), line[|BeforeFirst(line, ':')| + 1..]]
  {
    SplitOnTwo(line, ':');
  }

  lemma ParseLineOfSplit(raw: string, line: string)
    requires line == CleanLine(raw) && line != [] && |SplitOn(line, ':')| == 2
    ensures ParseLine(raw) == Route(raw, Strip(SplitOn(line, ':')[0]), Strip(SplitOn(line, ':')[1]))
  {
  }

  /** Every rule a line yields is well formed: non-empty sides, and at most one of them `*`;
      every error names the line. */
  lemma ParseLineOutcomes(raw: string)
    ensures ParseLine(raw).Failure? ==>
      ParseLine(raw).error in {MalformedLine(raw), InvalidRepository(raw), InvalidTagOrDigest(raw), InvalidWildcard(raw)}
    ensures ParseLine(raw).Success? ==> WellFormed(ParseLine(raw).value)
  {
    var line := CleanLine(raw);
    if line != [] {
      var parts := SplitOn(line, ':');
      if |parts| == 2 {
        ParseLineOfSplit(raw, line);
        RouteOutcomes(raw, Strip(parts[0]), Strip(parts[1]));
      }
    }
  }

  /** A rule as the grammar allows it: non-empty sides, at most one of them `*`. */
  predicate WellFormed(rule: Rule) {
    match rule
    case Blank => true
    case RepoWildcard(repo) => repo != [] && repo != "*"
    case TagWildcard(tag) => tag != [] && tag != "*"
    case RepoTag(repo, tag) => repo != [] && tag != [] && repo != "*" && tag != "*"
  }

  lemma RouteOutcomes(raw: string, repo: string, tag: string)
    ensures Route(raw, repo, tag).Failure? ==>
      Route(raw, repo, tag).error in {InvalidRepository(raw), InvalidTagOrDigest(raw), InvalidWildcard(raw)}
    ensures Route(raw, repo, tag).Success? ==> WellFormed(Route(raw, repo, tag).value)
  {
  }

  /** Stripping white space never removes a colon. */
  lemma StripKeepsColons(s: string)
    ensures CountChar(Strip(s), ':') == CountChar(s, ':')
  {
    StripSpec(s);
    var (i, e) := StripBounds(s);
    assert ':' !in s[..i] by {
      forall k | 0 <= k < i ensures s[..i][k] != ':' {
        assert IsSpace(s[k]);
      }
    }
    assert ':' !in s[e..] by {
      forall k | 0 <= k < |s| - e ensures s[e..][k] != ':' {
        assert IsSpace(s[e + k]);
      }
    }
    CountCharAppend(s[..i] + Strip(s), s[e..], ':');
    CountCharAppend(s[..i], Strip(s), ':');
    CountCharAbsent(s[..i], ':');
    CountCharAbsent(s[e..], ':');
  }

  /** A digest rule `repo:sha256:...` has two colons before any comment, so it is rejected:
      there is no way to whitelist by digest through a repository-specific line. */
  lemma DigestLineRejected(raw: string)
    requires CountChar(BeforeFirst(raw, '#'), ':') >= 2
    ensures ParseLine(raw) == Failure(MalformedLine(raw))
  {
    StripKeepsColons(BeforeFirst(raw, '#'));
    ParseLineSpec(raw);
  }

  /** `*:*` is rejected, although the docstring of `parse_whitelist` lists it as valid. */
  lemma WildcardWildcardRejected(raw: string)
    requires raw == "*:*"
    ensures ParseLine(raw) == Failure(InvalidWildcard(raw))
  {
    assert CleanLine(raw) == raw by {
      BeforeFirstAbsent(raw, '#');
      StripOfNoSpace(raw);
    }
    assert CountChar(raw, ':') == 1 by {
      assert raw[1..][1..] == raw[2..] == "*";
      CountCharAbsent(raw[2..], ':');
      assert CountChar(raw[1..], ':') == 1;
    }
    assert Sides(raw) == ("*", "*") by {
      BeforeFirstAt(raw, ':', 1);
      assert raw[..1] == "*" && raw[2..] == "*";
      StripOfNoSpace("*");
    }
    BothWildcards(raw);
  }

  /** A line whose two sides are both `*` is rejected. */
  lemma BothWildcards(raw: string)
    requires CleanLine(raw) != [] && CountChar(CleanLine(raw), ':') == 1
    requires Sides(CleanLine(raw)) == ("*", "*")
    ensures ParseLine(raw) == Failure(InvalidWildcard(raw))
  {
    ParseLineSpec(raw);
  }

  /** Without the character, `BeforeFirst` keeps everything. */
  lemma {:induction false} BeforeFirstAbsent(s: string, c: char)
    requires c !in s
    ensures BeforeFirst(s, c) == s
  {
    if s != [] {
      assert s[0] in s;
      assert s[1..] == s[1..];
      assert forall k | 0 <= k < |s[1..]| :: s[1..][k] == s[k + 1];
      BeforeFirstAbsent(s[1..], c);
    }
  }

  // ---------------------------------------------------------------------------
  // parse_whitelist, all lines

  /** Appends a rule's entry to the list it belongs in. */
  function AddRule(w: Whitelist, rule: Rule): Whitelist {
    match rule
    case Blank => w
    case RepoWildcard(repo) => w.(repos := w.repos + [repo])
    case TagWildcard(tag) => w.(tags := w.tags + [tag])
    case RepoTag(repo, tag) => w.(repotags := w.repotags + [(repo, tag)])
  }

  /** The loop of `parse_whitelist` from accumulated lists `acc`: the first bad line raises. */
  function ParseFrom(acc: Whitelist, lines: seq<string>): Result<Whitelist, Exception>
    decreases |lines|
  {
    if lines == [] then Success(acc)
    else
      var rule :- ParseLine(lines[0]);
      ParseFrom(AddRule(acc, rule), lines[1..])
  }

  /** `parse_whitelist(lines)` */
  function ParseWhitelist(lines: seq<string>): (r: Result<Whitelist, Exception>)
    ensures r.Success? <==> forall i | 0 <= i < |lines| :: ParseLine(lines[i]).Success?
  {
    ParseFromSucceeds(Empty, lines);
    ParseFrom(Empty, lines)
  }

  /** The entry of each kind a single rule contributes. */
  function RepoOf(rule: Rule): seq<string> {
    if rule.RepoWildcard? then [rule.repo] else []
  }

  function TagOf(rule: Rule): seq<string> {
    if rule.TagWildcard? then [rule.tag] else []
  }

  function PairOf(rule: Rule): seq<(string, string)> {
    if rule.RepoTag? then [(rule.repo, rule.tag)] else []
  }

  /** The entries of each kind in a sequence of rules, in order. */
  function ReposIn(rules: seq<Rule>): seq<string> {
    if rules == [] then [] else RepoOf(rules[0]) + ReposIn(rules[1..])
  }

  function TagsIn(rules: seq<Rule>): seq<string> {
    if rules == [] then [] else TagOf(rules[0]) + TagsIn(rules[1..])
  }

  function PairsIn(rules: seq<Rule>): seq<(string, string)> {
    if rules == [] then [] else PairOf(rules[0]) + PairsIn(rules[1..])
  }

  /** The lists gained from `rules`, appended to `acc`. */
  function Collect(acc: Whitelist, rules: seq<Rule>): Whitelist {
    Whitelist(acc.repos + ReposIn(rules), acc.tags + TagsIn(rules), acc.repotags + PairsIn(rules))
  }

  /** When every line parses, the three lists gain the routed entries in input order. */
  lemma {:induction false} ParseFromCollects(acc: Whitelist, lines: seq<string>, rules: seq<Rule>)
    requires |rules| == |lines|
    requires forall i | 0 <= i < |lines| :: ParseLine(lines[i]) == Success(rules[i])
    ensures ParseFrom(acc, lines) == Success(Collect(acc, rules))
    decreases |lines|
  {
    if lines != [] {
      assert ParseLine(lines[0]) == Success(rules[0]);
      forall i | 0 <= i < |lines[1..]| ensures ParseLine(lines[1..][i]) == Success(rules[1..][i]) {
        assert lines[1..][i] == lines[i + 1];
      }
      ParseFromCollects(AddRule(acc, rules[0]), lines[1..], rules[1..]);
      ParseFromStep(acc, lines, rules[0]);
      CollectStep(acc, rules);
    } else {
      CollectNone(acc, rules);
    }
  }

  lemma CollectNone(acc: Whitelist, rules: seq<Rule>)
    requires rules == []
    ensures Collect(acc, rules) == acc
  {
    assert acc.repos + [] == acc.repos && acc.tags + [] == acc.tags && acc.repotags + [] == acc.repotags;
  }

  /** One step of the loop, for a line that parses. */
  lemma ParseFromStep(acc: Whitelist, lines: seq<string>, rule: Rule)
    requires lines != [] && ParseLine(lines[0]) == Success(rule)
    ensures ParseFrom(acc, lines) == ParseFrom(AddRule(acc, rule), lines[1..])
  {
  }

  lemma CollectStep(acc: Whitelist, rules: seq<Rule>)
    requires rules != []
    ensures Collect(acc, rules) == Collect(AddRule(acc, rules[0]), rules[1..])
  {
    var rule, rest := rules[0], rules[1..];
    AddRuleGains(acc, rule);
    Regroup(acc.repos, RepoOf(rule), ReposIn(rest));
    Regroup(acc.tags, TagOf(rule), TagsIn(rest));
    Regroup(acc.repotags, PairOf(rule), PairsIn(rest));
  }

  /** A rule appends its own entry, if any, to the matching list. */
  lemma AddRuleGains(w: Whitelist, rule: Rule)
    ensures AddRule(w, rule) == Whitelist(w.repos + RepoOf(rule), w.tags + TagOf(rule), w.repotags + PairOf(rule))
  {
    assert w.repos + [] == w.repos && w.tags + [] == w.tags && w.repotags + [] == w.repotags;
  }

  lemma Regroup<T>(a: seq<T>, b: seq<T>, c: seq<T>)
    ensures a + (b + c) == (a + b) + c
  {
  }

  /** A bad line makes the whole parse fail with the error of the first bad line. */
  lemma {:induction false} ParseFromFirstError(acc: Whitelist, lines: seq<string>, i: nat)
    requires i < |lines| && ParseLine(lines[i]).Failure?
    requires forall j | 0 <= j < i :: ParseLine(lines[j]).Success?
    ensures ParseFrom(acc, lines) == Failure(ParseLine(lines[i]).error)
    decreases i
  {
    if i > 0 {
      ParseFromFirstError(AddRule(acc, ParseLine(lines[0]).value), lines[1..], i - 1);
    }
  }

  /** Parsing succeeds exactly when every line does. */
  lemma {:induction false} ParseFromSucceeds(acc: Whitelist, lines: seq<string>)
    ensures ParseFrom(acc, lines).Success? <==> forall i | 0 <= i < |lines| :: ParseLine(lines[i]).Success?
    decreases |lines|
  {
    if lines != [] {
      if ParseLine(lines[0]).Success? {
        ParseFromSucceeds(AddRule(acc, ParseLine(lines[0]).value), lines[1..]);
        assert forall i | 1 <= i < |lines| :: lines[i] == lines[1..][i - 1];
      }
    }
  }

  // ---------------------------------------------------------------------------
  // load_string, __init__

  /** The lists of `w` extended by those of `more`. */
  function Extend(w: Whitelist, more: Whitelist): Whitelist {
    Whitelist(w.repos + more.repos, w.tags + more.tags, w.repotags + more.repotags)
  }

  /** `load_string(lines)`: all-or-nothing; the lists change only when every line parses. */
  function LoadLines(w: Whitelist, lines: seq<string>): (r: Result<Whitelist, Exception>)
    ensures r.Failure? <==> ParseWhitelist(lines).Failure?
    ensures r.Success? ==> r.value == Extend(w, ParseWhitelist(lines).value)
  {
    var parsed :- ParseWhitelist(lines);
    Success(Extend(w, parsed))
  }

  /** Loading from existing lists is parsing onto them. */
  lemma LoadLinesIsParseFrom(w: Whitelist, lines: seq<string>, rules: seq<Rule>)
    requires |rules| == |lines|
    requires forall i | 0 <= i < |lines| :: ParseLine(lines[i]) == Success(rules[i])
    ensures LoadLines(w, lines) == Success(Collect(w, rules))
  {
    ParseFromCollects(Empty, lines, rules);
    ParseFromCollects(w, lines, rules);
    assert Empty.repos + ReposIn(rules) == ReposIn(rules);
    assert Empty.tags + TagsIn(rules) == TagsIn(rules);
    assert Empty.repotags + PairsIn(rules) == PairsIn(rules);
  }

  /** Python iterates a `str` argument one character at a time. */
  function CharLines(s: string): (lines: seq<string>)
    ensures |lines| == |s| && forall i | 0 <= i < |s| :: lines[i] == [s[i]]
  {
    seq(|s|, i requires 0 <= i < |s| => [s[i]])
  }

  /** A one-character line is blank (a space or `#`) or fails: a single character has no
      colon or is a bare colon with empty sides. */
  lemma OneCharLine(c: char)
    ensures ParseLine([c]).Success? ==> ParseLine([c]) == Success(Blank)
  {
    var raw := [c];
    if c != '#' {
      BeforeFirstAbsent(raw, '#');
    }
    var line := CleanLine(raw);
    if line != [] && CountChar(line, ':') == 1 {
      StripSpec(BeforeFirst(raw, '#'));
      assert line == raw;
      CountOfOne(c, ':');
      assert c == ':';
      ParseLineSpec(raw);
      assert BeforeFirst(raw, ':') == [];
      StripSpec([]);
    }
  }

  lemma CountOfOne(c: char, d: char)
    ensures CountChar([c], d) == (if c == d then 1 else 0)
  {
    assert [c][1..] == [];
  }

  /** Handing `__init__` a string (rather than a list of lines) never adds an entry: it
      either fails or leaves the lists as they were. */
  lemma LoadStringAddsNothing(w: Whitelist, s: string)
    ensures LoadLines(w, CharLines(s)).Success? ==> LoadLines(w, CharLines(s)) == Success(w)
  {
    var lines := CharLines(s);
    if LoadLines(w, lines).Success? {
      ParseFromSucceeds(Empty, lines);
      var rules := seq(|lines|, i requires 0 <= i < |lines| => Blank);
      forall i | 0 <= i < |lines| ensures ParseLine(lines[i]) == Success(rules[i]) {
        OneCharLine(s[i]);
      }
      LoadLinesIsParseFrom(w, lines, rules);
      NoEntriesFromBlanks(rules);
      assert Collect(w, rules) == w;
    }
  }

  lemma {:induction false} NoEntriesFromBlanks(rules: seq<Rule>)
    requires forall i | 0 <= i < |rules| :: rules[i] == Blank
    ensures ReposIn(rules) == [] && TagsIn(rules) == [] && PairsIn(rules) == []
  {
    if rules != [] {
      NoEntriesFromBlanks(rules[1..]);
    }
  }

  /** The lists `__init__` starts from: `["latest"]` as the tag wildcards when asked to. */
  function Seeded(keepLatest: bool): Whitelist {
    if keepLatest then Whitelist([], ["latest"], []) else Empty
  }

  /** `WhitelistStrategy(keep_latest, filename, string)`: `latest` first, then the file's
      lines, then the string (iterated character by character). A missing or empty file
      name or string is skipped. */
  function NewWhitelist(keepLatest: bool, fileLines: Option<seq<string>>, text: Option<string>): (r: Result<Whitelist, Exception>)
    ensures r.Failure? <==>
      || (fileLines.Some? && ParseWhitelist(fileLines.value).Failure?)
      || (text.Some? && text.value != [] && ParseWhitelist(CharLines(text.value)).Failure?)
    ensures r.Success? && keepLatest ==> |r.value.tags| > 0 && r.value.tags[0] == "latest"
    ensures r.Success? && fileLines.None? && (text.None? || text == Some([])) ==>
      r.value == Whitelist([], if keepLatest then ["latest"] else [], [])
    ensures fileLines.Some? && (text.None? || text == Some([])) ==>
      r == LoadLines(Whitelist([], if keepLatest then ["latest"] else [], []), fileLines.value)
  {
    var fromFile :- if fileLines.Some? then LoadLines(Seeded(keepLatest), fileLines.value) else Success(Seeded(keepLatest));
    if text.Some? && text.value != [] then LoadLines(fromFile, CharLines(text.value)) else Success(fromFile)
  }

  /** With a file whose every line parses, the whitelist holds the seed followed by the
      file's entries in line order; a string never adds to that. */
  lemma NewWhitelistFromFile(keepLatest: bool, lines: seq<string>, rules: seq<Rule>, text: Option<string>)
    requires |rules| == |lines|
    requires forall i | 0 <= i < |lines| :: ParseLine(lines[i]) == Success(rules[i])
    ensures NewWhitelist(keepLatest, Some(lines), text).Success? ==>
      NewWhitelist(keepLatest, Some(lines), text).value == Collect(Seeded(keepLatest), rules)
    ensures text.None? || text == Some([]) ==> NewWhitelist(keepLatest, Some(lines), text) == Success(Collect(Seeded(keepLatest), rules))
  {
    LoadLinesIsParseFrom(Seeded(keepLatest), lines, rules);
    if text.Some? && text.value != [] {
      LoadStringAddsNothing(Collect(Seeded(keepLatest), rules), text.value);
    }
  }

  /** A bad line in the file makes construction raise the error of the first bad line. */
  lemma NewWhitelistFileError(keepLatest: bool, lines: seq<string>, i: nat, text: Option<string>)
    requires i < |lines| && ParseLine(lines[i]).Failure?
    requires forall j | 0 <= j < i :: ParseLine(lines[j]).Success?
    ensures NewWhitelist(keepLatest, Some(lines), text) == Failure(ParseLine(lines[i]).error)
  {
    ParseFromFirstError(Empty, lines, i);
  }

  // ---------------------------------------------------------------------------
  // should_keep

  /** `item.tag == t or item.digest == t` */
  predicate TagOrDigestIs(item: Item, t: string) {
    item.tag == Some(t) || item.digest == Some(t)
  }

  /** Some exact pair names the item's repository and its tag or digest. */
  predicate PairListed(pairs: seq<(string, string)>, item: Item) {
    exists k | 0 <= k < |pairs| :: pairs[k].0 == item.repo && TagOrDigestIs(item, pairs[k].1)
  }

  /** The `for repo, tag in self.repotags` loop. */
  function FindPair(pairs: seq<(string, string)>, item: Item): (found: bool)
    ensures found <==> PairListed(pairs, item)
  {
    if pairs == [] then false
    else if pairs[0].0 == item.repo && TagOrDigestIs(item, pairs[0].1) then true
    else
      var rest := FindPair(pairs[1..], item);
      assert PairListed(pairs, item) ==> (pairs[0].0 == item.repo && TagOrDigestIs(item, pairs[0].1)) || PairListed(pairs[1..], item) by {
        if PairListed(pairs, item) {
          var k :| 0 <= k < |pairs| && pairs[k].0 == item.repo && TagOrDigestIs(item, pairs[k].1);
          if k > 0 {
            assert pairs[1..][k - 1] == pairs[k];
          }
        }
      }
      assert PairListed(pairs[1..], item) ==> PairListed(pairs, item) by {
        if PairListed(pairs[1..], item) {
          var k :| 0 <= k < |pairs[1..]| && pairs[1..][k].0 == item.repo && TagOrDigestIs(item, pairs[1..][k].1);
          assert pairs[k + 1] == pairs[1..][k];
        }
      }
      rest
  }

  /** The whitelist names the item in any of its three ways. */
  predicate Listed(w: Whitelist, item: Item) {
    || item.repo in w.repos
    || (item.tag.Some? && item.tag.value in w.tags)
    || (item.digest.Some? && item.digest.value in w.tags)
    || PairListed(w.repotags, item)
  }

  /** `WhitelistStrategy.should_keep`: never votes for deletion; keeps exactly the listed
      items, with the reason of the first rule kind that matches. */
  function ShouldKeep(w: Whitelist, item: Item): (v: Verdict)
    ensures v.keep != Some(false)
    ensures v.keep == Some(true) <==> Listed(w, item)
    ensures !Listed(w, item) ==> v == Undecided
    ensures item.repo in w.repos ==> v.reason == "whitelisted by repository wildcard"
    ensures item.repo !in w.repos && ((item.tag.Some? && item.tag.value in w.tags) || (item.digest.Some? && item.digest.value in w.tags))
      ==> v.reason == "whitelisted by tag wildcard"
    ensures (&& item.repo !in w.repos
             && !((item.tag.Some? && item.tag.value in w.tags) || (item.digest.Some? && item.digest.value in w.tags))
             && PairListed(w.repotags, item))
      ==> v.reason == "whitelisted"
  {
    if item.repo in w.repos then Verdict(Some(true), "whitelisted by repository wildcard")
    else if (item.tag.Some? && item.tag.value in w.tags) || (item.digest.Some? && item.digest.value in w.tags) then
      Verdict(Some(true), "whitelisted by tag wildcard")
    else if FindPair(w.repotags, item) then Verdict(Some(true), "whitelisted")
    else Undecided
  }
}
