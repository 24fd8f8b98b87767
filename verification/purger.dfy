/** `Purger` of docker_registry_purger/purger.py: items gathered per repository, each item
    marked by an ordered chain of strategies, outcomes counted, and deletion gated behind
    `proceed` and `dry_run`.

    `mark_item` tests `keep is not None` on what `should_keep` returns, which is always a
    `(keep, reason)` pair; the pair itself is never `None`. `Protocol` selects between that
    behaviour as written and the evidently intended one that unpacks the pair. */
module Purging {
  import opened Wrappers
  import opened Calendar
  import opened Items
  import opened Strategies

  /** `Purger(registry, strategies, proceed, dry_run)`; the registry is passed to the
      operations that use it. */
  datatype Purger = Purger(strategies: seq<Strategy>, proceed: Option<bool>, dryRun: bool)

  /** A purger with its own empty chain. */
  function NewPurger(proceed: Option<bool>, dryRun: bool): (p: Purger)
    ensures p.strategies == [] && p.proceed == proceed && p.dryRun == dryRun
  {
    Purger([], proceed, dryRun)
  }

  /** `add_strategy`: the new strategy is consulted after all earlier ones. */
  function AddStrategy(p: Purger, s: Strategy): (q: Purger)
    ensures |q.strategies| == |p.strategies| + 1 && q.strategies[|p.strategies|] == s
    ensures q.strategies[..|p.strategies|] == p.strategies
    ensures q.proceed == p.proceed && q.dryRun == p.dryRun
  {
    p.(strategies := p.strategies + [s])
  }

  // ---------------------------------------------------------------------------
  // mark_item

  /** `AsWritten`: `keep is not None` evaluated on the returned pair, and the pair stored.
      `Unpacked`: the pair unpacked, its `keep` compared with None and stored. */
  datatype Protocol = AsWritten | Unpacked

  /** Whether a strategy's answer ends the chain. */
  predicate Decisive(protocol: Protocol, v: Verdict) {
    match protocol
    case AsWritten => true
    case Unpacked => v.keep.Some?
  }

  /** What lands in `item.keep` when the chain ends. */
  function Stored(protocol: Protocol, v: Verdict): KeepValue
    requires Decisive(protocol, v)
  {
    match protocol
    case AsWritten => Pair(v)
    case Unpacked => Flag(v.keep.value)
  }

  /** How one strategy answers for one item (its `should_keep`). */
  type Ask = (Strategy, Item) -> Result<Outcome, Exception>

  /** The item after `mark_item`, how many strategies were consulted, and whether one of
      them ended the loop. */
  datatype Marked = Marked(item: Item, consulted: nat, decided: bool)

  /** The loop of `mark_item` from strategy `i` on: each strategy sees the item as the
      previous one left it; the first decisive answer is stored and ends the loop. */
  function MarkFrom(protocol: Protocol, strategies: seq<Strategy>, i: nat, item: Item, ask: Ask): (r: Result<Marked, Exception>)
    requires i <= |strategies|
    ensures r.Success? ==> i <= r.value.consulted <= |strategies|
    ensures r.Success? && !r.value.decided ==> r.value.consulted == |strategies|
    ensures r.Success? && r.value.decided ==> r.value.consulted > i
    decreases |strategies| - i
  {
    if i == |strategies| then Success(Marked(item, i, false))
    else
      var out :- ask(strategies[i], item);
      if Decisive(protocol, out.verdict) then
        Success(Marked(out.item.(keep := Stored(protocol, out.verdict)), i + 1, true))
      else
        MarkFrom(protocol, strategies, i + 1, out.item, ask)
  }

  /** `mark_item(item)` with the real strategies. */
  function MarkItem(protocol: Protocol, strategies: seq<Strategy>, item: Item, today: ValidDate, getAge: (string, Option<string>) -> AgeInfo): Result<Marked, Exception> {
    MarkFrom(protocol, strategies, 0, item, (s, it) => Consult(s, it, today, getAge))
  }

  /** `mark_item` as written. */
  function MarkItemAsWritten(strategies: seq<Strategy>, item: Item, today: ValidDate, getAge: (string, Option<string>) -> AgeInfo): (r: Result<Marked, Exception>)
    ensures strategies == [] ==> r == Success(Marked(item, 0, false))
    ensures strategies != [] && r.Success? ==>
      && r.value.decided && r.value.consulted == 1
      && Consult(strategies[0], item, today, getAge).Success?
      && r.value.item.keep == Pair(Consult(strategies[0], item, today, getAge).value.verdict)
  {
    if strategies == [] then MarkItem(AsWritten, strategies, item, today, getAge)
    else
      AsWrittenFirstOnly(strategies, item, (s, it) => Consult(s, it, today, getAge));
      MarkItem(AsWritten, strategies, item, today, getAge)
  }

  /** `mark_item` unpacking the pair, as the docstring of `BaseStrategy.should_keep` intends. */
  function MarkItemUnpacked(strategies: seq<Strategy>, item: Item, today: ValidDate, getAge: (string, Option<string>) -> AgeInfo): (r: Result<Marked, Exception>)
    ensures r.Success? && r.value.decided ==> r.value.item.keep.Flag?
    ensures r.Success? && !r.value.decided ==> r.value.item == item && r.value.consulted == |strategies|
  {
    var r := MarkItem(Unpacked, strategies, item, today, getAge);
    if r.Failure? then r
    else
      ConsultUndecidedUnchanged(today, getAge);
      UnpackedFirstDecisive(strategies, 0, item, (s, it) => Consult(s, it, today, getAge));
      r
  }

  /** With no strategies the item is left exactly as it was. */
  lemma MarkEmptyChain(protocol: Protocol, item: Item, ask: Ask)
    ensures MarkFrom(protocol, [], 0, item, ask) == Success(Marked(item, 0, false))
  {
  }

  /** As written, the first strategy always ends the chain, and what it stores is the whole
      pair: never the `True` or `False` that counting and deletion look for. */
  lemma {:induction false} AsWrittenFirstOnly(strategies: seq<Strategy>, item: Item, ask: Ask)
    requires |strategies| > 0
    ensures var r := MarkFrom(AsWritten, strategies, 0, item, ask);
      && (r.Failure? <==> ask(strategies[0], item).Failure?)
      && (r.Success? ==>
        && r.value.consulted == 1
        && r.value.item == ask(strategies[0], item).value.item.(keep := Pair(ask(strategies[0], item).value.verdict))
        && !IsKeepTrue(r.value.item.keep) && !IsKeepFalse(r.value.item.keep) && !IsKeepNone(r.value.item.keep))
  {
  }

  /** `ask` never changes an item it cannot decide on (true of every strategy). */
  ghost predicate UndecidedUnchanged(ask: Ask) {
    forall s, it :: ask(s, it).Success? && ask(s, it).value.verdict.keep.None? ==> ask(s, it).value.item == it
  }

  /** `ask` never touches `keep` (true of every strategy). */
  ghost predicate KeepUntouched(ask: Ask) {
    forall s, it :: ask(s, it).Success? ==> ask(s, it).value.item.keep == it.keep
  }

  /** Strategy `j` answers for `item` without deciding. */
  predicate UndecidedAt(strategies: seq<Strategy>, j: nat, item: Item, ask: Ask)
    requires j < |strategies|
  {
    ask(strategies[j], item).Success? && ask(strategies[j], item).value.verdict.keep.None?
  }

  /** Intended protocol: when some strategy decides, it is the first one that does, every
      strategy before it was undecided, and its answer and what it learned are stored; when
      none decides, all were consulted and the item is unchanged. */
  lemma {:induction false} UnpackedFirstDecisive(strategies: seq<Strategy>, i: nat, item: Item, ask: Ask)
    requires i <= |strategies| && UndecidedUnchanged(ask)
    requires MarkFrom(Unpacked, strategies, i, item, ask).Success?
    ensures var m := MarkFrom(Unpacked, strategies, i, item, ask).value;
      && (m.decided ==>
        && i < m.consulted
        && (forall j | i <= j < m.consulted - 1 :: UndecidedAt(strategies, j, item, ask))
        && var out := ask(strategies[m.consulted - 1], item);
           out.Success? && out.value.verdict.keep.Some?
           && m.item == out.value.item.(keep := Flag(out.value.verdict.keep.value)))
      && (!m.decided ==>
        && m.consulted == |strategies| && m.item == item
        && forall j | i <= j < |strategies| :: UndecidedAt(strategies, j, item, ask))
    decreases |strategies| - i
  {
    if i < |strategies| {
      var out := ask(strategies[i], item).value;
      if out.verdict.keep.None? {
        assert out.item == item;
        UnpackedFirstDecisive(strategies, i + 1, item, ask);
      }
    }
  }

  /** Appending a strategy never overrides a decision an earlier one made, and is consulted
      only when none did. */
  lemma {:induction false} AppendKeepsDecision(protocol: Protocol, strategies: seq<Strategy>, s: Strategy, i: nat, item: Item, ask: Ask)
    requires i <= |strategies|
    requires MarkFrom(protocol, strategies, i, item, ask).Success?
    ensures var m := MarkFrom(protocol, strategies, i, item, ask).value;
      m.decided ==> MarkFrom(protocol, strategies + [s], i, item, ask) == Success(m)
    ensures var m := MarkFrom(protocol, strategies, i, item, ask).value;
      !m.decided ==> MarkFrom(protocol, strategies + [s], i, item, ask) == MarkFrom(protocol, strategies + [s], |strategies|, m.item, ask)
    decreases |strategies| - i
  {
    var ext := strategies + [s];
    if i < |strategies| {
      assert ext[i] == strategies[i];
      var out := ask(strategies[i], item).value;
      if !Decisive(protocol, out.verdict) {
        AppendKeepsDecision(protocol, strategies, s, i + 1, out.item, ask);
      }
    }
  }

  /** Every strategy of the library leaves an undecided item as it was. */
  lemma ConsultUndecidedUnchanged(today: ValidDate, getAge: (string, Option<string>) -> AgeInfo)
    ensures UndecidedUnchanged((s, it) => Consult(s, it, today, getAge))
  {
    forall s, it | Consult(s, it, today, getAge).Success? && Consult(s, it, today, getAge).value.verdict.keep.None?
      ensures Consult(s, it, today, getAge).value.item == it
    {
      UndecidedLearnsNothing(s, it, today, getAge);
    }
  }

  /** The chain the command-line entry point builds (whitelist, then timestamp tags, then
      versions) ends at the whitelist as written: the other two are never consulted. */
  lemma CliChainStopsAtWhitelist(w: Whitelisting.Whitelist, item: Item, today: ValidDate, getAge: (string, Option<string>) -> AgeInfo)
    ensures var chain := [WhitelistStrategy(w), TimestampTagStrategy(TimestampTagConfig(Some(90), false)), SemverStrategy(DefaultSemverConfig)];
      MarkItemAsWritten(chain, item, today, getAge) == Success(Marked(item.(keep := Pair(Whitelisting.ShouldKeep(w, item))), 1, true))
  {
    var chain := [WhitelistStrategy(w), TimestampTagStrategy(TimestampTagConfig(Some(90), false)), SemverStrategy(DefaultSemverConfig)];
    AsWrittenFirstOnly(chain, item, (s, it) => Consult(s, it, today, getAge));
  }

  // ---------------------------------------------------------------------------
  // gather_items

  /** `Item(repo=repo, tag=tag)` as listed: undecided, no age, no digest. */
  function Fresh(repo: string, tag: string): Item {
    Item(repo, Some(tag), None, None, Unset, None, None)
  }

  function FreshItems(repo: string, tags: seq<string>): (items: seq<Item>)
    ensures |items| == |tags| && forall i | 0 <= i < |tags| :: items[i] == Fresh(repo, tags[i])
  {
    seq(|tags|, i requires 0 <= i < |tags| => Fresh(repo, tags[i]))
  }

  /** `gather_items(repo)` given the tags `natsorted` put in order: one fresh item per tag;
      an empty tag (no tag and no digest) raises. */
  function GatherItems(repo: string, tags: seq<string>): (r: Result<seq<Item>, Exception>)
    ensures r.Failure? <==> [] in tags
    ensures r.Failure? ==> r.error == MissingTagAndDigest
    ensures r.Success? ==> r.value == FreshItems(repo, tags)
  {
    if [] in tags then Failure(MissingTagAndDigest) else Success(FreshItems(repo, tags))
  }

  /** Sorting the listing first changes only the order of the items: the same items, each
      as often as its tag is listed. */
  lemma GatherPermutation(repo: string, listed: seq<string>, sorted: seq<string>)
    requires multiset(sorted) == multiset(listed)
    ensures GatherItems(repo, sorted).Success? <==> GatherItems(repo, listed).Success?
    ensures GatherItems(repo, sorted).Success? ==>
      multiset(GatherItems(repo, sorted).value) == multiset(GatherItems(repo, listed).value)
  {
    assert [] in sorted <==> [] in multiset(sorted);
    assert [] in listed <==> [] in multiset(listed);
    FreshItemsPermutation(repo, sorted, listed);
  }

  lemma {:induction false} FreshItemsPermutation(repo: string, a: seq<string>, b: seq<string>)
    requires multiset(a) == multiset(b)
    ensures multiset(FreshItems(repo, a)) == multiset(FreshItems(repo, b))
    decreases |a|
  {
    if a == [] {
      assert |multiset(b)| == 0;
      assert b == [];
    } else {
      var x := a[0];
      assert x in multiset(a);
      assert x in b;
      var j :| 0 <= j < |b| && b[j] == x;
      var b' := b[..j] + b[j + 1..];
      RemoveAt(a, b, j);
      FreshItemsPermutation(repo, a[1..], b');
      FreshItemsCons(repo, a);
      FreshItemsSplit(repo, b, j);
      FreshItemsConcat(repo, b[..j], b[j + 1..]);
      MultisetInsert(Fresh(repo, x), FreshItems(repo, a[1..]), FreshItems(repo, b[..j]), FreshItems(repo, b[j + 1..]));
    }
  }

  /** Taking the first element of `a` out of `b` at one of its positions keeps the two
      multisets equal. */
  lemma RemoveAt(a: seq<string>, b: seq<string>, j: nat)
    requires multiset(a) == multiset(b) && a != [] && j < |b| && b[j] == a[0]
    ensures multiset(a[1..]) == multiset(b[..j] + b[j + 1..])
  {
    assert a == [a[0]] + a[1..];
    assert b == b[..j] + [b[j]] + b[j + 1..];
    assert multiset(a) == multiset{a[0]} + multiset(a[1..]);
    assert multiset(b) == multiset(b[..j]) + multiset{b[j]} + multiset(b[j + 1..]);
    assert multiset(b[..j] + b[j + 1..]) == multiset(b[..j]) + multiset(b[j + 1..]);
    calc {
      multiset(a[1..]);
      multiset(a) - multiset{a[0]};
      multiset(b) - multiset{b[j]};
      multiset(b[..j]) + multiset(b[j + 1..]);
    }
  }

  lemma MultisetInsert(x: Item, rest: seq<Item>, l: seq<Item>, r: seq<Item>)
    requires multiset(rest) == multiset(l + r)
    ensures multiset([x] + rest) == multiset(l + [x] + r)
  {
    assert multiset(l + [x] + r) == multiset(l) + multiset{x} + multiset(r);
    assert multiset(l + r) == multiset(l) + multiset(r);
  }

  lemma FreshItemsSplit(repo: string, tags: seq<string>, j: nat)
    requires j < |tags|
    ensures FreshItems(repo, tags) == FreshItems(repo, tags[..j]) + [Fresh(repo, tags[j])] + FreshItems(repo, tags[j + 1..])
  {
  }

  lemma FreshItemsCons(repo: string, tags: seq<string>)
    requires tags != []
    ensures FreshItems(repo, tags) == [Fresh(repo, tags[0])] + FreshItems(repo, tags[1..])
  {
  }

  lemma FreshItemsConcat(repo: string, a: seq<string>, b: seq<string>)
    ensures FreshItems(repo, a + b) == FreshItems(repo, a) + FreshItems(repo, b)
  {
  }

  // ---------------------------------------------------------------------------
  // run

  /** The keys of `{repo: ... for repo in repos}`, in first-occurrence order. */
  function Dedup(repos: seq<string>): (u: seq<string>)
    ensures forall r :: r in u <==> r in repos
    ensures forall i, j | 0 <= i < j < |u| :: u[i] != u[j]
  {
    DedupFrom([], repos)
  }

  function DedupFrom(seen: seq<string>, rest: seq<string>): (u: seq<string>)
    requires forall i, j | 0 <= i < j < |seen| :: seen[i] != seen[j]
    ensures forall r :: r in u <==> r in seen || r in rest
    ensures forall i, j | 0 <= i < j < |u| :: u[i] != u[j]
    ensures |seen| <= |u| && u[..|seen|] == seen
    decreases |rest|
  {
    if rest == [] then seen
    else if rest[0] in seen then DedupFrom(seen, rest[1..])
    else DedupFrom(seen + [rest[0]], rest[1..])
  }

  /** The repositories are taken left to right: those of `a` first, then the new ones of
      `b`. */
  lemma {:induction false} DedupFromAppend(seen: seq<string>, a: seq<string>, b: seq<string>)
    requires forall i, j | 0 <= i < j < |seen| :: seen[i] != seen[j]
    ensures DedupFrom(seen, a + b) == DedupFrom(DedupFrom(seen, a), b)
    decreases |a|
  {
    if a == [] {
      assert a + b == b;
    } else {
      assert (a + b)[0] == a[0] && (a + b)[1..] == a[1..] + b;
      if a[0] in seen {
        DedupFromAppend(seen, a[1..], b);
      } else {
        DedupFromAppend(seen + [a[0]], a[1..], b);
      }
    }
  }

  /** One more repository is appended exactly when it has not been seen. */
  lemma DedupFromOne(seen: seq<string>, x: string)
    requires forall i, j | 0 <= i < j < |seen| :: seen[i] != seen[j]
    ensures DedupFrom(seen, [x]) == if x in seen then seen else seen + [x]
  {
    assert [x][1..] == [];
  }

  /** Phase 1 for every repository, flattened in repository order. */
  function GatherAll(repos: seq<string>, tagsOf: string -> seq<string>): (r: Result<seq<Item>, Exception>)
    ensures r.Failure? <==> exists j | 0 <= j < |repos| :: [] in tagsOf(repos[j])
    ensures r.Success? ==> forall k | 0 <= k < |r.value| :: r.value[k].repo in repos
  {
    if repos == [] then Success([])
    else
      var first :- GatherItems(repos[0], tagsOf(repos[0]));
      var rest :- GatherAll(repos[1..], tagsOf);
      Success(first + rest)
  }

  /** Phase 2: `mark_items` over all items in order; the first failure propagates. */
  function MarkAll(protocol: Protocol, strategies: seq<Strategy>, items: seq<Item>, today: ValidDate, getAge: (string, Option<string>) -> AgeInfo): (r: Result<seq<Item>, Exception>)
    ensures r.Success? ==> |r.value| == |items|
  {
    if items == [] then Success([])
    else
      var first :- MarkItem(protocol, strategies, items[0], today, getAge);
      var rest :- MarkAll(protocol, strategies, items[1..], today, getAge);
      Success([first.item] + rest)
  }

  /** How many items satisfy `p` on their `keep`. */
  function CountKeep(items: seq<Item>, p: KeepValue -> bool): nat {
    if items == [] then 0 else (if p(items[0].keep) then 1 else 0) + CountKeep(items[1..], p)
  }

  /** `registry.delete_digest_or_tag(repo, digest, tag)` */
  datatype DeleteCall = DeleteCall(repo: string, digest: Option<string>, tag: Option<string>)

  /** The call `delete_marked_item` makes for an item. */
  function CallFor(item: Item): DeleteCall {
    DeleteCall(item.repo, item.digest, item.tag)
  }

  /** `delete_marked_item` over the items: only `keep == False`, and nothing on a dry run. */
  function DeleteMarked(items: seq<Item>, dryRun: bool): (calls: seq<DeleteCall>)
    ensures |calls| <= |items|
    ensures dryRun ==> calls == []
  {
    if items == [] then []
    else
      var call := if IsKeepFalse(items[0].keep) && !dryRun then [CallFor(items[0])] else [];
      call + DeleteMarked(items[1..], dryRun)
  }

  /** The deletions requested are the items marked `False`, one call for each and no other,
      unless it is a dry run, when there are none. */
  lemma {:induction false} DeleteMarkedSpec(items: seq<Item>, dryRun: bool)
    ensures dryRun ==> DeleteMarked(items, dryRun) == []
    ensures !dryRun ==> |DeleteMarked(items, dryRun)| == CountKeep(items, IsKeepFalse)
    ensures forall c | c in DeleteMarked(items, dryRun) ::
      exists i | 0 <= i < |items| :: IsKeepFalse(items[i].keep) && c == CallFor(items[i])
    ensures !dryRun ==> forall i | 0 <= i < |items| && IsKeepFalse(items[i].keep) :: CallFor(items[i]) in DeleteMarked(items, dryRun)
  {
    if items != [] {
      DeleteMarkedSpec(items[1..], dryRun);
      forall c | c in DeleteMarked(items[1..], dryRun)
        ensures exists i | 0 <= i < |items| :: IsKeepFalse(items[i].keep) && c == CallFor(items[i])
      {
        var i :| 0 <= i < |items[1..]| && IsKeepFalse(items[1..][i].keep) && c == CallFor(items[1..][i]);
        assert items[1..][i] == items[i + 1];
      }
      forall i | 1 <= i < |items| && IsKeepFalse(items[i].keep) && !dryRun
        ensures CallFor(items[i]) in DeleteMarked(items, dryRun)
      {
        assert items[i] == items[1..][i - 1];
      }
    }
  }

  /** Deletion goes through the items in order: the calls for `a + b` are those for `a`,
      then those for `b`. */
  lemma {:induction false} DeleteMarkedAppend(a: seq<Item>, b: seq<Item>, dryRun: bool)
    ensures DeleteMarked(a + b, dryRun) == DeleteMarked(a, dryRun) + DeleteMarked(b, dryRun)
    decreases |a|
  {
    if a != [] {
      assert (a + b)[0] == a[0] && (a + b)[1..] == a[1..] + b;
      DeleteMarkedAppend(a[1..], b, dryRun);
    } else {
      assert a + b == b;
    }
  }

  /** One item: a call exactly when it is marked `False` and this is no dry run. */
  lemma DeleteMarkedOne(item: Item, dryRun: bool)
    ensures DeleteMarked([item], dryRun) == if IsKeepFalse(item.keep) && !dryRun then [CallFor(item)] else []
  {
    assert [item][1..] == [];
  }

  /** What a run reports and does. */
  datatype Report = Report(kept: nat, deleted: nat, undecided: nat, prompted: bool, deletePhase: bool, calls: seq<DeleteCall>)

  /** `run(repos)`: `tagsOf` is the registry's tag listing in `natsorted` order, `answer`
      the reply to the confirmation prompt. */
  function Run(protocol: Protocol, p: Purger, repos: seq<string>, tagsOf: string -> seq<string>,
               today: ValidDate, getAge: (string, Option<string>) -> AgeInfo, answer: bool): (r: Result<Report, Exception>)
    ensures r.Success? ==> (r.value.prompted <==> p.proceed.None?)
    ensures r.Success? && (p.proceed == Some(false) || p.dryRun) ==> r.value.calls == []
  {
    var gathered :- GatherAll(Dedup(repos), tagsOf);
    var items :- MarkAll(protocol, p.strategies, gathered, today, getAge);
    var deletePhase := p.proceed == Some(true) || (p.proceed.None? && answer);
    Success(Report(
      CountKeep(items, IsKeepTrue), CountKeep(items, IsKeepFalse), CountKeep(items, IsKeepNone),
      p.proceed.None?, deletePhase,
      if deletePhase then DeleteMarked(items, p.dryRun) else []))
  }

  /** `proceed=False` never deletes, `proceed=True` deletes without asking, and no value
      defers to the answer to the prompt; a dry run requests no deletion either way. */
  lemma RunGate(protocol: Protocol, p: Purger, repos: seq<string>, tagsOf: string -> seq<string>,
                today: ValidDate, getAge: (string, Option<string>) -> AgeInfo, answer: bool)
    requires Run(protocol, p, repos, tagsOf, today, getAge, answer).Success?
    ensures var rep := Run(protocol, p, repos, tagsOf, today, getAge, answer).value;
      && (rep.prompted <==> p.proceed.None?)
      && (rep.deletePhase <==> p.proceed == Some(true) || (p.proceed.None? && answer))
      && (!rep.deletePhase || p.dryRun ==> rep.calls == [])
      && (rep.deletePhase && !p.dryRun ==> |rep.calls| == rep.deleted)
  {
    var gathered := GatherAll(Dedup(repos), tagsOf).value;
    var items := MarkAll(protocol, p.strategies, gathered, today, getAge).value;
    DeleteMarkedSpec(items, p.dryRun);
  }

  /** As written, a run with at least one strategy marks nothing `True` or `False` and
      leaves nothing `None`: every count is zero and nothing is deleted. */
  lemma RunAsWrittenDeletesNothing(p: Purger, repos: seq<string>, tagsOf: string -> seq<string>,
                                   today: ValidDate, getAge: (string, Option<string>) -> AgeInfo, answer: bool)
    requires |p.strategies| > 0
    requires Run(AsWritten, p, repos, tagsOf, today, getAge, answer).Success?
    ensures var rep := Run(AsWritten, p, repos, tagsOf, today, getAge, answer).value;
      rep.kept == 0 && rep.deleted == 0 && rep.undecided == 0 && rep.calls == []
  {
    var gathered := GatherAll(Dedup(repos), tagsOf).value;
    var items := MarkAll(AsWritten, p.strategies, gathered, today, getAge).value;
    MarkAllAsWrittenPairs(p.strategies, gathered, today, getAge);
    PairsCountZero(items);
    DeleteMarkedSpec(items, p.dryRun);
  }

  /** As written, every marked item holds a pair. */
  lemma {:induction false} MarkAllAsWrittenPairs(strategies: seq<Strategy>, items: seq<Item>, today: ValidDate, getAge: (string, Option<string>) -> AgeInfo)
    requires |strategies| > 0
    requires MarkAll(AsWritten, strategies, items, today, getAge).Success?
    ensures forall k | 0 <= k < |items| :: MarkAll(AsWritten, strategies, items, today, getAge).value[k].keep.Pair?
  {
    if items != [] {
      AsWrittenFirstOnly(strategies, items[0], (s, it) => Consult(s, it, today, getAge));
      MarkAllAsWrittenPairs(strategies, items[1..], today, getAge);
    }
  }

  lemma {:induction false} PairsCountZero(items: seq<Item>)
    requires forall k | 0 <= k < |items| :: items[k].keep.Pair?
    ensures CountKeep(items, IsKeepTrue) == 0 && CountKeep(items, IsKeepFalse) == 0 && CountKeep(items, IsKeepNone) == 0
  {
    if items != [] {
      PairsCountZero(items[1..]);
    }
  }

  /** Intended protocol: every item ends up kept, deleted or undecided, so the three counts
      add up to the number of items gathered. */
  lemma RunUnpackedCountsAll(p: Purger, repos: seq<string>, tagsOf: string -> seq<string>,
                             today: ValidDate, getAge: (string, Option<string>) -> AgeInfo, answer: bool)
    requires Run(Unpacked, p, repos, tagsOf, today, getAge, answer).Success?
    ensures var rep := Run(Unpacked, p, repos, tagsOf, today, getAge, answer).value;
      rep.kept + rep.deleted + rep.undecided == |GatherAll(Dedup(repos), tagsOf).value|
  {
    var gathered := GatherAll(Dedup(repos), tagsOf).value;
    GatherAllFresh(Dedup(repos), tagsOf);
    MarkAllUnpackedFlags(p.strategies, gathered, today, getAge);
    FlagsPartition(MarkAll(Unpacked, p.strategies, gathered, today, getAge).value);
  }

  /** Gathered items are fresh. */
  lemma {:induction false} GatherAllFresh(repos: seq<string>, tagsOf: string -> seq<string>)
    requires GatherAll(repos, tagsOf).Success?
    ensures forall k | 0 <= k < |GatherAll(repos, tagsOf).value| :: GatherAll(repos, tagsOf).value[k].keep == Unset
  {
    if repos != [] {
      GatherAllFresh(repos[1..], tagsOf);
      var first := GatherItems(repos[0], tagsOf(repos[0])).value;
      var rest := GatherAll(repos[1..], tagsOf).value;
      assert GatherAll(repos, tagsOf).value == first + rest;
    }
  }

  /** With the intended protocol, a fresh item ends up with a flag or stays unset. */
  lemma {:induction false} MarkAllUnpackedFlags(strategies: seq<Strategy>, items: seq<Item>, today: ValidDate, getAge: (string, Option<string>) -> AgeInfo)
    requires forall k | 0 <= k < |items| :: items[k].keep == Unset
    requires MarkAll(Unpacked, strategies, items, today, getAge).Success?
    ensures forall k | 0 <= k < |items| :: !MarkAll(Unpacked, strategies, items, today, getAge).value[k].keep.Pair?
  {
    if items != [] {
      ConsultKeepUntouched(today, getAge);
      UnpackedStoresFlags(strategies, 0, items[0], (s, it) => Consult(s, it, today, getAge));
      MarkAllUnpackedFlags(strategies, items[1..], today, getAge);
    }
  }

  /** The intended protocol stores a flag or leaves `keep` as it was. */
  lemma {:induction false} UnpackedStoresFlags(strategies: seq<Strategy>, i: nat, item: Item, ask: Ask)
    requires i <= |strategies| && KeepUntouched(ask)
    requires MarkFrom(Unpacked, strategies, i, item, ask).Success?
    ensures var m := MarkFrom(Unpacked, strategies, i, item, ask).value;
      if m.decided then m.item.keep.Flag? else m.item.keep == item.keep
    decreases |strategies| - i
  {
    if i < |strategies| {
      var out := ask(strategies[i], item).value;
      if out.verdict.keep.None? {
        UnpackedStoresFlags(strategies, i + 1, out.item, ask);
      }
    }
  }

  /** Every strategy of the library leaves `keep` alone. */
  lemma ConsultKeepUntouched(today: ValidDate, getAge: (string, Option<string>) -> AgeInfo)
    ensures KeepUntouched((s, it) => Consult(s, it, today, getAge))
  {
    forall s, it | Consult(s, it, today, getAge).Success?
      ensures Consult(s, it, today, getAge).value.item.keep == it.keep
    {
      ConsultKeepsIdentity(s, it, today, getAge);
    }
  }

  lemma {:induction false} FlagsPartition(items: seq<Item>)
    requires forall k | 0 <= k < |items| :: !items[k].keep.Pair?
    ensures CountKeep(items, IsKeepTrue) + CountKeep(items, IsKeepFalse) + CountKeep(items, IsKeepNone) == |items|
  {
    if items != [] {
      FlagsPartition(items[1..]);
    }
  }
}
