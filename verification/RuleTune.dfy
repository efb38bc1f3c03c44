/** Searching for filters that block false positives and spare true positives (`crates/rsigma-eval/src/rule_tune.rs`). */
module RuleTune {
  import opened Results
  import opened CandidateSets
  import Partitions

  datatype Config = Config(
    minFields: nat,
    maxFields: nat,
    minSupport: nat,
    maxClusters: nat,
    allowPartial: bool,
    maxValues: nat,
    minToken: nat)
  {
    predicate Valid() {
      0 < minFields <= maxFields && minSupport > 0 && maxClusters > 0 && maxValues > 0 && minToken > 0
    }
  }

  /**
    The exemplars and what profiling finds in them: the usable value forms of a group of false
    positives in rank order, and the exemplars each form matches.
   */
  datatype World = World(
    fpTotal: nat,
    tpTotal: nat,
    ranked: seq<nat> -> seq<nat>,
    matchesFp: (nat, nat) -> bool,
    matchesTp: (nat, nat) -> bool)

  datatype Proposal = Proposal(entries: seq<nat>, indexes: seq<nat>)

  // ----- What a filter blocks -----

  predicate MatchesAll(entries: seq<nat>, matches: (nat, nat) -> bool, e: nat) {
    forall k | 0 <= k < |entries| :: matches(entries[k], e)
  }

  /** `missing_indexes`: the indexes below `n` that are not present. */
  function MissingIndexes(n: nat, present: seq<nat>): (r: seq<nat>)
    ensures StrictlyAscending(r) && forall i: nat :: i in r <==> i < n && i !in present
  {
    if n == 0 then []
    else
      var before := MissingIndexes(n - 1, present);
      assert forall i | 0 <= i < |before| :: before[i] in before;
      if n - 1 in present then before else before + [n - 1]
  }

  /** True positives below `n` that still fire with a filter of one selection. */
  function FiringTp(w: World, entries: seq<nat>, n: nat): (r: seq<nat>)
    ensures forall t: nat :: t in r <==> t < n && !MatchesAll(entries, w.matchesTp, t)
  {
    if n == 0 then []
    else if MatchesAll(entries, w.matchesTp, n - 1) then FiringTp(w, entries, n - 1)
    else FiringTp(w, entries, n - 1) + [n - 1]
  }

  function Blocked(w: World, entries: seq<nat>): (r: seq<nat>)
    ensures StrictlyAscending(r) && forall t: nat :: t in r <==> t < w.tpTotal && MatchesAll(entries, w.matchesTp, t)
  {
    MissingIndexes(w.tpTotal, FiringTp(w, entries, w.tpTotal))
  }

  /** Another field never blocks more true positives. */
  lemma MoreFieldsBlockLess(w: World, entries: seq<nat>, extra: nat)
    ensures forall t | t in Blocked(w, entries + [extra]) :: t in Blocked(w, entries)
    ensures |Blocked(w, entries + [extra])| <= |Blocked(w, entries)|
  {
    forall t | t in Blocked(w, entries + [extra]) ensures t in Blocked(w, entries) {
      assert forall k | 0 <= k < |entries| :: (entries + [extra])[k] == entries[k];
    }
    var a, b := Blocked(w, entries + [extra]), Blocked(w, entries);
    AscendingSize(a);
    AscendingSize(b);
    SubsetSize(SetOf(a), SetOf(b));
  }

  lemma {:induction false} SubsetSize(a: set<nat>, b: set<nat>)
    requires a <= b
    ensures |a| <= |b|
  {
    if x :| x in a {
      SubsetSize(a - {x}, b - {x});
    }
  }

  // ----- The greedy search -----

  function Entries(ranked: seq<nat>, picks: seq<nat>): (r: seq<nat>)
    requires forall i | 0 <= i < |picks| :: picks[i] < |ranked|
    ensures |r| == |picks| && forall i | 0 <= i < |r| :: r[i] == ranked[picks[i]]
  {
    seq(|picks|, i requires 0 <= i < |picks| => ranked[picks[i]])
  }

  predicate PicksOf(ranked: seq<nat>, picks: seq<nat>) {
    && (forall i | 0 <= i < |picks| :: picks[i] < |ranked|)
    && (forall i, j | 0 <= i < j < |picks| :: picks[i] != picks[j])
  }

  function BlockedWith(w: World, ranked: seq<nat>, picks: seq<nat>, index: nat): seq<nat>
    requires PicksOf(ranked, picks) && index < |ranked|
  {
    Blocked(w, Entries(ranked, picks) + [ranked[index]])
  }

  /** The first of the fields below `n` not picked yet that blocks the fewest true positives. */
  ghost predicate IsBest(w: World, ranked: seq<nat>, picks: seq<nat>, n: nat, index: nat)
    requires PicksOf(ranked, picks) && n <= |ranked|
  {
    && index < n && index !in picks
    && (forall i | 0 <= i < n && i !in picks ::
          |BlockedWith(w, ranked, picks, index)| <= |BlockedWith(w, ranked, picks, i)|)
    && (forall i | 0 <= i < index && i !in picks ::
          |BlockedWith(w, ranked, picks, index)| < |BlockedWith(w, ranked, picks, i)|)
  }

  /** Each pick is best after the ones before it. */
  ghost predicate Greedy(w: World, ranked: seq<nat>, picks: seq<nat>)
    requires PicksOf(ranked, picks)
  {
    forall j | 0 <= j < |picks| :: IsBest(w, ranked, picks[..j], |ranked|, picks[j])
  }

  method BestField(w: World, ranked: seq<nat>, picks: seq<nat>) returns (best: Option<(nat, seq<nat>)>)
    requires PicksOf(ranked, picks)
    ensures best.None? <==> forall i: nat | i < |ranked| :: i in picks
    ensures best.Some? ==> IsBest(w, ranked, picks, |ranked|, best.value.0)
                           && best.value.1 == BlockedWith(w, ranked, picks, best.value.0)
  {
    best := None;
    for i := 0 to |ranked|
      invariant best.None? <==> forall k: nat | k < i :: k in picks
      invariant best.Some? ==> IsBest(w, ranked, picks, i, best.value.0)
                               && best.value.1 == BlockedWith(w, ranked, picks, best.value.0)
    {
      if i in picks { continue; }
      var blocked := BlockedWith(w, ranked, picks, i);
      if best.None? || |blocked| < |best.value.1| {
        best := Some((i, blocked));
      }
    }
  }

  lemma Distinct(picks: seq<nat>, n: nat)
    requires forall i | 0 <= i < |picks| :: picks[i] < n
    requires forall i, j | 0 <= i < j < |picks| :: picks[i] != picks[j]
    requires forall i: nat | i < n :: i in picks
    ensures |picks| == n
  {
    SortKeepsLength(picks);
    AscendingUnique(SortDedup(picks), MissingIndexes(n, []));
    NothingMissing(n);
  }

  lemma {:induction false} NothingMissing(n: nat)
    ensures |MissingIndexes(n, [])| == n
  {
    if n > 0 { NothingMissing(n - 1); }
  }

  function AllTp(w: World): seq<nat> {
    MissingIndexes(w.tpTotal, [])
  }

  /**
    The fields of one filter selection: added greedily until no true positive is blocked, the
    minimum is reached, and no further than the maximum.
   */
  ghost predicate Proposes(w: World, ranked: seq<nat>, config: Config, picks: seq<nat>) {
    && PicksOf(ranked, picks) && Greedy(w, ranked, picks) && |picks| <= config.maxFields && |picks| <= |ranked|
    && (|picks| == config.maxFields || |picks| == |ranked|
        || (|picks| >= config.minFields && Blocked(w, Entries(ranked, picks)) == []))
    && (forall j | config.minFields <= j < |picks| :: Blocked(w, Entries(ranked, picks[..j])) != [])
  }

  /** One more pick: the blocked set is that of the longer list, and the shorter ones stay prefixes. */
  lemma PickStep(w: World, ranked: seq<nat>, picks: seq<nat>, index: nat, minFields: nat)
    requires PicksOf(ranked, picks) && Greedy(w, ranked, picks) && IsBest(w, ranked, picks, |ranked|, index)
    requires forall j | minFields <= j < |picks| :: Blocked(w, Entries(ranked, picks[..j])) != []
    requires |picks| >= minFields ==> Blocked(w, Entries(ranked, picks)) != []
    ensures PicksOf(ranked, picks + [index]) && Greedy(w, ranked, picks + [index])
    ensures BlockedWith(w, ranked, picks, index) == Blocked(w, Entries(ranked, picks + [index]))
    ensures forall j | minFields <= j < |picks + [index]| :: Blocked(w, Entries(ranked, (picks + [index])[..j])) != []
  {
    var more := picks + [index];
    assert Entries(ranked, more) == Entries(ranked, picks) + [ranked[index]];
    assert forall j | 0 <= j <= |picks| :: more[..j] == picks[..j];
    assert picks[..|picks|] == picks;
  }

  method ProposeGroup(w: World, ranked: seq<nat>, config: Config) returns (picks: seq<nat>, blocking: seq<nat>)
    requires config.Valid()
    ensures Proposes(w, ranked, config, picks)
    ensures blocking == if |picks| < config.minFields then AllTp(w) else Blocked(w, Entries(ranked, picks))
  {
    picks := [];
    blocking := AllTp(w);
    AscendingUnique(Blocked(w, Entries(ranked, [])), AllTp(w));
    while |picks| < config.maxFields && |picks| < |ranked|
      invariant PicksOf(ranked, picks) && Greedy(w, ranked, picks)
      invariant |picks| <= config.maxFields && |picks| <= |ranked|
      invariant blocking == Blocked(w, Entries(ranked, picks))
      invariant forall j | config.minFields <= j < |picks| :: Blocked(w, Entries(ranked, picks[..j])) != []
      invariant |picks| >= config.minFields ==> blocking != []
      decreases config.maxFields - |picks|
    {
      var best := BestField(w, ranked, picks);
      if best.None? {
        Distinct(picks, |ranked|);
        break;
      }
      PickStep(w, ranked, picks, best.value.0, config.minFields);
      picks := picks + [best.value.0];
      blocking := best.value.1;
      if blocking == [] && |picks| >= config.minFields {
        break;
      }
    }
    if |picks| < config.minFields {
      blocking := AllTp(w);
    }
  }

  // ----- The search has one result -----

  lemma BestUnique(w: World, ranked: seq<nat>, picks: seq<nat>, i: nat, j: nat)
    requires PicksOf(ranked, picks) && IsBest(w, ranked, picks, |ranked|, i) && IsBest(w, ranked, picks, |ranked|, j)
    ensures i == j
  {
  }

  lemma SameNextPick(w: World, ranked: seq<nat>, a: seq<nat>, b: seq<nat>, n: nat)
    requires PicksOf(ranked, a) && PicksOf(ranked, b) && Greedy(w, ranked, a) && Greedy(w, ranked, b)
    requires n < |a| && n < |b| && a[..n] == b[..n]
    ensures a[n] == b[n]
  {
    GreedyAt(w, ranked, a, n);
    GreedyAt(w, ranked, b, n);
    BestUnique(w, ranked, a[..n], a[n], b[n]);
  }

  lemma PrefixGrows(a: seq<nat>, n: nat)
    requires n < |a|
    ensures a[..n + 1] == a[..n] + [a[n]]
  {
  }

  lemma {:induction false} SamePicks(w: World, ranked: seq<nat>, a: seq<nat>, b: seq<nat>, n: nat)
    requires PicksOf(ranked, a) && PicksOf(ranked, b) && Greedy(w, ranked, a) && Greedy(w, ranked, b)
    requires n <= |a| && n <= |b|
    ensures a[..n] == b[..n]
  {
    if n > 0 {
      var last: nat := n - 1;
      SamePicks(w, ranked, a, b, last);
      SameNextPick(w, ranked, a, b, last);
      PrefixGrows(a, last);
      PrefixGrows(b, last);
    }
  }

  lemma GreedyAt(w: World, ranked: seq<nat>, picks: seq<nat>, j: nat)
    requires PicksOf(ranked, picks) && Greedy(w, ranked, picks) && j < |picks|
    ensures PicksOf(ranked, picks[..j]) && IsBest(w, ranked, picks[..j], |ranked|, picks[j])
  {
  }

  lemma OneProposal(w: World, ranked: seq<nat>, config: Config, a: seq<nat>, b: seq<nat>)
    requires Proposes(w, ranked, config, a) && Proposes(w, ranked, config, b)
    ensures a == b
  {
    if |a| <= |b| { PrefixEnds(w, ranked, config, a, b); } else { PrefixEnds(w, ranked, config, b, a); }
  }

  lemma PrefixEnds(w: World, ranked: seq<nat>, config: Config, a: seq<nat>, b: seq<nat>)
    requires Proposes(w, ranked, config, a) && Proposes(w, ranked, config, b) && |a| <= |b|
    ensures a == b
  {
    SamePicks(w, ranked, a, b, |a|);
    assert a[..|a|] == a && b[..|b|] == b;
    assert b[..|a|] == a;
  }

  // ----- Clusters -----

  /** The search separates the group from every true positive with enough fields. */
  ghost predicate Clean(w: World, indexes: seq<nat>, config: Config) {
    exists picks :: Proposes(w, w.ranked(indexes), config, picks) && Separates(w, indexes, config, picks)
  }

  ghost predicate Separates(w: World, indexes: seq<nat>, config: Config, picks: seq<nat>) {
    PicksOf(w.ranked(indexes), picks) && |picks| >= config.minFields && Blocked(w, Entries(w.ranked(indexes), picks)) == []
  }

  /** A proposal found by the search for its own indexes. */
  ghost predicate Sound(w: World, p: Proposal, config: Config) {
    exists picks :: Proposes(w, w.ranked(p.indexes), config, picks) && Separates(w, p.indexes, config, picks)
                    && p.entries == Entries(w.ranked(p.indexes), picks)
  }

  /** The true positives the search for these indexes reports as blocked: all of them if it ran out of fields. */
  ghost predicate Blocks(w: World, indexes: seq<nat>, config: Config, blocking: seq<nat>) {
    exists picks :: Proposes(w, w.ranked(indexes), config, picks)
                    && blocking == if |picks| < config.minFields then AllTp(w) else Blocked(w, Entries(w.ranked(indexes), picks))
  }

  method ProposeFor(w: World, indexes: seq<nat>, config: Config) returns (p: Option<Proposal>, blocking: seq<nat>)
    requires config.Valid() && w.tpTotal > 0
    ensures p.Some? <==> Clean(w, indexes, config)
    ensures Blocks(w, indexes, config, blocking)
    ensures p.Some? ==> p.value.indexes == indexes && Sound(w, p.value, config)
  {
    var ranked := w.ranked(indexes);
    var picks;
    picks, blocking := ProposeGroup(w, ranked, config);
    NothingMissing(w.tpTotal);
    if other :| Proposes(w, ranked, config, other) && Separates(w, indexes, config, other) {
      OneProposal(w, ranked, config, picks, other);
    }
    if ranked == [] || blocking != [] { return None, blocking; }
    p := Some(Proposal(Entries(ranked, picks), indexes));
  }

  type Partition = seq<seq<nat>>

  predicate Eligible(groups: Partition, config: Config) {
    2 <= |groups| <= config.maxClusters && forall g | 0 <= g < |groups| :: |groups[g]| >= config.minSupport
  }

  ghost function CleanGroups(w: World, groups: Partition, config: Config, n: nat): seq<seq<nat>>
    requires n <= |groups|
  {
    if n == 0 then []
    else CleanGroups(w, groups, config, n - 1) + (if Clean(w, groups[n - 1], config) then [groups[n - 1]] else [])
  }

  ghost function UncoveredIn(w: World, groups: Partition, config: Config, n: nat): seq<nat>
    requires n <= |groups|
  {
    if n == 0 then []
    else UncoveredIn(w, groups, config, n - 1) + (if Clean(w, groups[n - 1], config) then [] else groups[n - 1])
  }

  function Size(groups: Partition, n: nat): nat
    requires n <= |groups|
  {
    if n == 0 then 0 else Size(groups, n - 1) + |groups[n - 1]|
  }

  ghost predicate FoundFor(w: World, p: Proposal, config: Config, indexes: seq<nat>) {
    p.indexes == indexes && Sound(w, p, config)
  }

  /** The proposals and the uncovered false positives a partition gives. */
  ghost predicate Answers(w: World, groups: Partition, n: nat, config: Config, proposals: seq<Proposal>, uncovered: seq<nat>)
    requires n <= |groups|
  {
    && |proposals| == |CleanGroups(w, groups, config, n)|
    && (forall i | 0 <= i < |proposals| :: FoundFor(w, proposals[i], config, CleanGroups(w, groups, config, n)[i]))
    && uncovered == UncoveredIn(w, groups, config, n)
  }

  lemma AnswersStep(w: World, groups: Partition, n: nat, config: Config, proposals: seq<Proposal>, uncovered: seq<nat>, p: Option<Proposal>)
    requires n < |groups| && Answers(w, groups, n, config, proposals, uncovered)
    requires p.Some? <==> Clean(w, groups[n], config)
    requires p.Some? ==> p.value.indexes == groups[n] && Sound(w, p.value, config)
    ensures if p.Some? then Answers(w, groups, n + 1, config, proposals + [p.value], uncovered)
            else Answers(w, groups, n + 1, config, proposals, uncovered + groups[n])
  {
    var before, after := CleanGroups(w, groups, config, n), CleanGroups(w, groups, config, n + 1);
    if p.Some? {
      assert FoundFor(w, p.value, config, groups[n]);
      assert after == before + [groups[n]];
    } else {
      assert after == before;
    }
  }

  method ProposeForGroups(w: World, groups: Partition, config: Config) returns (proposals: seq<Proposal>, uncovered: seq<nat>)
    requires config.Valid() && w.tpTotal > 0
    ensures Answers(w, groups, |groups|, config, proposals, uncovered)
    ensures |uncovered| <= Size(groups, |groups|)
  {
    proposals, uncovered := [], [];
    for g := 0 to |groups|
      invariant Answers(w, groups, g, config, proposals, uncovered)
      invariant |uncovered| <= Size(groups, g)
    {
      var p, _ := ProposeFor(w, groups[g], config);
      AnswersStep(w, groups, g, config, proposals, uncovered, p);
      if p.Some? {
        proposals := proposals + [p.value];
      } else {
        uncovered := uncovered + groups[g];
      }
    }
  }

  ghost predicate Full(w: World, groups: Partition, config: Config) {
    Eligible(groups, config) && UncoveredIn(w, groups, config, |groups|) == []
  }

  ghost predicate Partial(w: World, groups: Partition, config: Config) {
    Eligible(groups, config) && UncoveredIn(w, groups, config, |groups|) != [] && CleanGroups(w, groups, config, |groups|) != []
  }

  /** The fewest clusters among the first `n` partitions that separate every false positive. */
  ghost predicate BestFull(w: World, partitions: seq<Partition>, n: nat, config: Config, best: Option<seq<Proposal>>)
    requires n <= |partitions|
  {
    match best
    case None => forall q | 0 <= q < n :: !Full(w, partitions[q], config)
    case Some(proposals) =>
      && (exists p | 0 <= p < n :: Full(w, partitions[p], config) && Answers(w, partitions[p], |partitions[p]|, config, proposals, []))
      && (forall q | 0 <= q < n && Full(w, partitions[q], config) ::
            |proposals| <= |CleanGroups(w, partitions[q], config, |partitions[q]|)|)
  }

  /** The fewest uncovered false positives among the first `n` partitions that separate only some. */
  ghost predicate BestPartial(w: World, partitions: seq<Partition>, n: nat, config: Config, best: Option<(seq<Proposal>, seq<nat>)>)
    requires n <= |partitions|
  {
    match best
    case None => config.allowPartial ==> forall q | 0 <= q < n :: !Partial(w, partitions[q], config)
    case Some((proposals, uncovered)) =>
      && config.allowPartial
      && FromPartition(w, partitions, n, config, proposals, uncovered)
      && NoneLeavesFewer(w, partitions, n, config, |uncovered|)
  }

  ghost predicate NoneLeavesFewer(w: World, partitions: seq<Partition>, n: nat, config: Config, count: nat)
    requires n <= |partitions|
  {
    forall q | 0 <= q < n && Partial(w, partitions[q], config) :: count <= |UncoveredIn(w, partitions[q], config, |partitions[q]|)|
  }

  lemma FullStep(w: World, partitions: seq<Partition>, n: nat, config: Config, best: Option<seq<Proposal>>, proposals: seq<Proposal>)
    requires n < |partitions| && BestFull(w, partitions, n, config, best) && Full(w, partitions[n], config)
    requires Answers(w, partitions[n], |partitions[n]|, config, proposals, [])
    ensures BestFull(w, partitions, n + 1, config, if best.None? || |proposals| < |best.value| then Some(proposals) else best)
  {
  }

  lemma NotFullStep(w: World, partitions: seq<Partition>, n: nat, config: Config, best: Option<seq<Proposal>>)
    requires n < |partitions| && BestFull(w, partitions, n, config, best) && !Full(w, partitions[n], config)
    ensures BestFull(w, partitions, n + 1, config, best)
  {
  }

  lemma FromLast(w: World, partitions: seq<Partition>, n: nat, config: Config, proposals: seq<Proposal>, uncovered: seq<nat>)
    requires 0 < n <= |partitions| && PartialOf(w, partitions[n - 1], config, proposals, uncovered)
    ensures FromPartition(w, partitions, n, config, proposals, uncovered)
  {
  }

  lemma LeavesFewer(w: World, partitions: seq<Partition>, n: nat, config: Config, best: Option<(seq<Proposal>, seq<nat>)>, count: nat)
    requires n < |partitions| && BestPartial(w, partitions, n, config, best) && config.allowPartial
    requires count == |UncoveredIn(w, partitions[n], config, |partitions[n]|)| && (best.None? || count < |best.value.1|)
    ensures NoneLeavesFewer(w, partitions, n + 1, config, count)
  {
  }

  lemma PartialReplaced(w: World, partitions: seq<Partition>, n: nat, config: Config, best: Option<(seq<Proposal>, seq<nat>)>,
                        proposals: seq<Proposal>, uncovered: seq<nat>)
    requires n < |partitions| && BestPartial(w, partitions, n, config, best) && config.allowPartial
    requires PartialOf(w, partitions[n], config, proposals, uncovered)
    requires |uncovered| == |UncoveredIn(w, partitions[n], config, |partitions[n]|)|
    requires best.None? || |uncovered| < |best.value.1|
    ensures BestPartial(w, partitions, n + 1, config, Some((proposals, uncovered)))
  {
    FromLast(w, partitions, n + 1, config, proposals, uncovered);
    LeavesFewer(w, partitions, n, config, best, |uncovered|);
  }

  lemma PartialKept(w: World, partitions: seq<Partition>, n: nat, config: Config, best: (seq<Proposal>, seq<nat>))
    requires n < |partitions| && BestPartial(w, partitions, n, config, Some(best))
    requires |best.1| <= |UncoveredIn(w, partitions[n], config, |partitions[n]|)|
    ensures BestPartial(w, partitions, n + 1, config, Some(best))
  {
    FromEarlier(w, partitions, n, config, best.0, best.1);
  }

  lemma FromEarlier(w: World, partitions: seq<Partition>, n: nat, config: Config, proposals: seq<Proposal>, uncovered: seq<nat>)
    requires n < |partitions| && FromPartition(w, partitions, n, config, proposals, uncovered)
    ensures FromPartition(w, partitions, n + 1, config, proposals, uncovered)
  {
  }

  /** The best partial answer comes from one of the partitions. */
  ghost predicate FromPartition(w: World, partitions: seq<Partition>, n: nat, config: Config, proposals: seq<Proposal>, uncovered: seq<nat>)
    requires n <= |partitions|
  {
    exists p | 0 <= p < n :: PartialOf(w, partitions[p], config, proposals, uncovered)
  }

  ghost predicate PartialOf(w: World, groups: Partition, config: Config, proposals: seq<Proposal>, uncovered: seq<nat>) {
    var left := UncoveredIn(w, groups, config, |groups|);
    Partial(w, groups, config) && Answers(w, groups, |groups|, config, proposals, left) && uncovered == Sort(left)
  }

  lemma NotPartialStep(w: World, partitions: seq<Partition>, n: nat, config: Config, best: Option<(seq<Proposal>, seq<nat>)>)
    requires n < |partitions| && BestPartial(w, partitions, n, config, best)
    requires !config.allowPartial || !Partial(w, partitions[n], config)
    ensures BestPartial(w, partitions, n + 1, config, best)
  {
  }

  /** A clean split of all false positives if there is one, otherwise, if allowed, the best partial split. */
  method ProposeClusters(w: World, partitions: seq<Partition>, config: Config)
    returns (full: Option<seq<Proposal>>, partial: Option<(seq<Proposal>, seq<nat>)>)
    requires config.Valid() && w.tpTotal > 0
    requires forall p | 0 <= p < |partitions| :: Size(partitions[p], |partitions[p]|) == w.fpTotal
    ensures BestFull(w, partitions, |partitions|, config, full)
    ensures BestPartial(w, partitions, |partitions|, config, partial)
  {
    full, partial := None, None;
    for q := 0 to |partitions|
      invariant BestFull(w, partitions, q, config, full)
      invariant BestPartial(w, partitions, q, config, partial)
      invariant partial.Some? ==> |partial.value.1| <= w.fpTotal
    {
      full, partial := Consider(w, partitions, q, config, full, partial);
    }
  }

  /** One partition against the best so far. */
  method Consider(w: World, partitions: seq<Partition>, q: nat, config: Config,
                  full: Option<seq<Proposal>>, partial: Option<(seq<Proposal>, seq<nat>)>)
    returns (full': Option<seq<Proposal>>, partial': Option<(seq<Proposal>, seq<nat>)>)
    requires config.Valid() && w.tpTotal > 0 && q < |partitions|
    requires Size(partitions[q], |partitions[q]|) == w.fpTotal
    requires BestFull(w, partitions, q, config, full) && BestPartial(w, partitions, q, config, partial)
    requires partial.Some? ==> |partial.value.1| <= w.fpTotal
    ensures BestFull(w, partitions, q + 1, config, full') && BestPartial(w, partitions, q + 1, config, partial')
    ensures partial'.Some? ==> |partial'.value.1| <= w.fpTotal
  {
    full', partial' := full, partial;
    var groups := partitions[q];
    if !Eligible(groups, config) {
      NotFullStep(w, partitions, q, config, full);
      NotPartialStep(w, partitions, q, config, partial);
      return;
    }
    var proposals, unsorted := ProposeForGroups(w, groups, config);
    SortMembers(unsorted);
    var uncovered := Sort(unsorted);
    if uncovered == [] {
      FullStep(w, partitions, q, config, full, proposals);
      NotPartialStep(w, partitions, q, config, partial);
      if full.None? || |proposals| < |full.value| {
        full' := Some(proposals);
      }
      return;
    }
    NotFullStep(w, partitions, q, config, full);
    if config.allowPartial && proposals != [] {
      assert PartialOf(w, groups, config, proposals, uncovered);
      var covered: nat := w.fpTotal - |uncovered|;
      if partial.None? || covered > w.fpTotal - |partial.value.1| {
        PartialReplaced(w, partitions, q, config, partial, proposals, uncovered);
        partial' := Some((proposals, uncovered));
      } else {
        PartialKept(w, partitions, q, config, partial.value);
      }
    } else {
      NotPartialStep(w, partitions, q, config, partial);
    }
  }

  // ----- The whole run -----

  datatype Outcome =
    | InvalidConfig
    | NoFalsePositives
    | NoTruePositives
    | NoCandidateFields
    | NoCleanSeparator(closest: seq<nat>, blocking: seq<nat>, uncovered: seq<nat>)
    | VerifyFailed
    | Filter(proposals: seq<Proposal>, uncovered: seq<nat>)

  /** Some selection of the filter matches the exemplar, so the rule no longer fires on it. */
  predicate Suppressed(proposals: seq<Proposal>, matches: (nat, nat) -> bool, e: nat) {
    exists p | 0 <= p < |proposals| :: MatchesAll(proposals[p].entries, matches, e)
  }

  /** Exemplars below `n` on which the filtered rule still fires. */
  function FiringAfter(proposals: seq<Proposal>, matches: (nat, nat) -> bool, n: nat): (r: seq<nat>)
    ensures StrictlyAscending(r) && forall e: nat :: e in r <==> e < n && !Suppressed(proposals, matches, e)
  {
    if n == 0 then []
    else
      var before := FiringAfter(proposals, matches, n - 1);
      assert forall i | 0 <= i < |before| :: before[i] in before;
      if Suppressed(proposals, matches, n - 1) then before else before + [n - 1]
  }

  /** The inferred form of each field matches every false positive of the group it was inferred from. */
  ghost predicate FormsMatch(w: World) {
    forall indexes, k, i | 0 <= k < |w.ranked(indexes)| && i in indexes :: w.matchesFp(w.ranked(indexes)[k], i)
  }

  predicate InSome(groups: Partition, i: nat) {
    exists g | 0 <= g < |groups| :: i in groups[g]
  }

  predicate CoversAll(groups: Partition, n: nat) {
    forall i: nat :: i < n ==> InSome(groups, i)
  }

  lemma SoundSpares(w: World, p: Proposal, config: Config)
    requires Sound(w, p, config)
    ensures config.minFields <= |p.entries| <= config.maxFields
    ensures forall t | 0 <= t < w.tpTotal :: !MatchesAll(p.entries, w.matchesTp, t)
  {
    var picks :| Proposes(w, w.ranked(p.indexes), config, picks) && Separates(w, p.indexes, config, picks)
                 && p.entries == Entries(w.ranked(p.indexes), picks);
    forall t | 0 <= t < w.tpTotal ensures !MatchesAll(p.entries, w.matchesTp, t) {
      assert t !in Blocked(w, p.entries);
    }
  }

  lemma SoundSize(w: World, p: Proposal, config: Config)
    requires Sound(w, p, config)
    ensures config.minFields <= |p.entries| <= config.maxFields
  {
    SoundSpares(w, p, config);
  }

  lemma SoundSuppresses(w: World, p: Proposal, config: Config, i: nat)
    requires FormsMatch(w) && Sound(w, p, config) && i in p.indexes
    ensures MatchesAll(p.entries, w.matchesFp, i)
  {
  }

  /** Every false positive of a partition is suppressed or left in a group without a clean filter. */
  lemma {:induction false} GroupsAccounted(w: World, groups: Partition, n: nat, config: Config, proposals: seq<Proposal>, uncovered: seq<nat>, g: nat, i: nat)
    requires g < n <= |groups| && FormsMatch(w) && Answers(w, groups, n, config, proposals, uncovered) && i in groups[g]
    ensures Suppressed(proposals, w.matchesFp, i) || i in uncovered
  {
    if Clean(w, groups[g], config) {
      var c := CleanAt(w, groups, config, n, g);
      assert FoundFor(w, proposals[c], config, groups[g]);
      SoundSuppresses(w, proposals[c], config, i);
    } else {
      UncoveredAt(w, groups, config, n, g, i);
    }
  }

  lemma {:induction false} CleanAt(w: World, groups: Partition, config: Config, n: nat, g: nat) returns (c: nat)
    requires g < n <= |groups| && Clean(w, groups[g], config)
    ensures c < |CleanGroups(w, groups, config, n)| && CleanGroups(w, groups, config, n)[c] == groups[g]
  {
    if g == n - 1 { c := |CleanGroups(w, groups, config, n - 1)|; } else { c := CleanAt(w, groups, config, n - 1, g); }
  }

  lemma {:induction false} UncoveredAt(w: World, groups: Partition, config: Config, n: nat, g: nat, i: nat)
    requires g < n <= |groups| && !Clean(w, groups[g], config) && i in groups[g]
    ensures i in UncoveredIn(w, groups, config, n)
  {
    if g < n - 1 { UncoveredAt(w, groups, config, n - 1, g, i); }
  }

  /** What verification demands of proposals and the false positives they claim to leave. */
  predicate Verified(w: World, proposals: seq<Proposal>, uncovered: seq<nat>) {
    FiringAfter(proposals, w.matchesTp, w.tpTotal) == AllTp(w)
    && forall i | i in FiringAfter(proposals, w.matchesFp, w.fpTotal) :: i in uncovered
  }

  /** Sound proposals spare every true positive. */
  lemma TruePositivesFire(w: World, proposals: seq<Proposal>, config: Config)
    requires forall p | 0 <= p < |proposals| :: Sound(w, proposals[p], config)
    ensures FiringAfter(proposals, w.matchesTp, w.tpTotal) == AllTp(w)
  {
    forall t: nat | t < w.tpTotal ensures !Suppressed(proposals, w.matchesTp, t) {
      forall p | 0 <= p < |proposals| ensures !MatchesAll(proposals[p].entries, w.matchesTp, t) {
        SoundSpares(w, proposals[p], config);
      }
    }
    AscendingUnique(FiringAfter(proposals, w.matchesTp, w.tpTotal), AllTp(w));
  }

  /** Proposals for a partition that covers all false positives pass verification. */
  lemma PartitionVerifies(w: World, groups: Partition, config: Config, proposals: seq<Proposal>, uncovered: seq<nat>)
    requires FormsMatch(w) && CoversAll(groups, w.fpTotal)
    requires Answers(w, groups, |groups|, config, proposals, uncovered)
    ensures Verified(w, proposals, Sort(uncovered))
  {
    assert forall p | 0 <= p < |proposals| :: FoundFor(w, proposals[p], config, CleanGroups(w, groups, config, |groups|)[p]);
    TruePositivesFire(w, proposals, config);
    SortMembers(uncovered);
    forall i | i in FiringAfter(proposals, w.matchesFp, w.fpTotal) ensures i in uncovered {
      assert InSome(groups, i);
      var g :| 0 <= g < |groups| && i in groups[g];
      GroupsAccounted(w, groups, |groups|, config, proposals, uncovered, g, i);
    }
  }

  ghost predicate AllSound(w: World, proposals: seq<Proposal>, config: Config) {
    forall p | 0 <= p < |proposals| :: Sound(w, proposals[p], config)
  }

  lemma AnswersSound(w: World, groups: Partition, config: Config, proposals: seq<Proposal>, uncovered: seq<nat>)
    requires Answers(w, groups, |groups|, config, proposals, uncovered)
    ensures AllSound(w, proposals, config)
  {
    assert forall p | 0 <= p < |proposals| :: FoundFor(w, proposals[p], config, CleanGroups(w, groups, config, |groups|)[p]);
  }

  lemma WholeVerifies(w: World, p: Proposal, config: Config)
    requires Sound(w, p, config) && p.indexes == MissingIndexes(w.fpTotal, [])
    ensures FormsMatch(w) ==> Verified(w, [p], [])
  {
    TruePositivesFire(w, [p], config);
    if FormsMatch(w) {
      forall i: nat | i < w.fpTotal ensures Suppressed([p], w.matchesFp, i) {
        SoundSuppresses(w, p, config, i);
        assert MatchesAll([p][0].entries, w.matchesFp, i);
      }
    }
  }

  /** Every partition that clusters are taken from has every false positive in some group. */
  predicate Covered(w: World, partitions: seq<Partition>, config: Config) {
    forall p | 0 <= p < |partitions| && Eligible(partitions[p], config) :: CoversAll(partitions[p], w.fpTotal)
  }

  lemma FullVerifies(w: World, partitions: seq<Partition>, config: Config, proposals: seq<Proposal>)
    requires BestFull(w, partitions, |partitions|, config, Some(proposals))
    ensures AllSound(w, proposals, config)
    ensures FormsMatch(w) && Covered(w, partitions, config) ==> Verified(w, proposals, [])
  {
    var p :| 0 <= p < |partitions| && Full(w, partitions[p], config)
             && Answers(w, partitions[p], |partitions[p]|, config, proposals, []);
    AnswersSound(w, partitions[p], config, proposals, []);
    if FormsMatch(w) && Covered(w, partitions, config) { PartitionVerifies(w, partitions[p], config, proposals, []); }
  }

  lemma PartialVerifies(w: World, partitions: seq<Partition>, config: Config, proposals: seq<Proposal>, uncovered: seq<nat>)
    requires BestPartial(w, partitions, |partitions|, config, Some((proposals, uncovered)))
    ensures config.allowPartial && AllSound(w, proposals, config)
    ensures FormsMatch(w) && Covered(w, partitions, config) ==> Verified(w, proposals, uncovered)
  {
    var p :| 0 <= p < |partitions| && PartialOf(w, partitions[p], config, proposals, uncovered);
    var left := UncoveredIn(w, partitions[p], config, |partitions[p]|);
    AnswersSound(w, partitions[p], config, proposals, left);
    if FormsMatch(w) && Covered(w, partitions, config) { PartitionVerifies(w, partitions[p], config, proposals, left); }
  }

  /** Some partition separates every false positive. */
  ghost predicate AnyFull(w: World, partitions: seq<Partition>, config: Config) {
    exists q | 0 <= q < |partitions| :: Full(w, partitions[q], config)
  }

  /** What the search may find: one selection for everything, full clusters, or partial ones, in this order. */
  ghost predicate Searched(w: World, partitions: seq<Partition>, config: Config, found: Option<(seq<Proposal>, seq<nat>)>) {
    var all := MissingIndexes(w.fpTotal, []);
    if Clean(w, all, config) then
      found.Some? && found.value.1 == [] && |found.value.0| == 1 && FoundFor(w, found.value.0[0], config, all)
    else if AnyFull(w, partitions, config) then
      found.Some? && found.value.1 == [] && BestFull(w, partitions, |partitions|, config, Some(found.value.0))
    else BestPartial(w, partitions, |partitions|, config, found)
  }

  /** One selection for all false positives, or clusters if it blocks a true positive. */
  method Search(w: World, partitions: seq<Partition>, config: Config)
    returns (found: Option<(seq<Proposal>, seq<nat>)>, blocking: seq<nat>)
    requires config.Valid() && w.tpTotal > 0
    requires forall p | 0 <= p < |partitions| :: Size(partitions[p], |partitions[p]|) == w.fpTotal
    ensures Searched(w, partitions, config, found)
    ensures found.None? ==> Blocks(w, MissingIndexes(w.fpTotal, []), config, blocking)
  {
    var all := MissingIndexes(w.fpTotal, []);
    var whole;
    whole, blocking := ProposeFor(w, all, config);
    if whole.Some? {
      return Some(([whole.value], [])), [];
    }
    var full, partial := ProposeClusters(w, partitions, config);
    if full.Some? {
      return Some((full.value, [])), [];
    }
    found := partial;
  }

  lemma SearchedVerifies(w: World, partitions: seq<Partition>, config: Config, proposals: seq<Proposal>, left: seq<nat>)
    requires FormsMatch(w) && Searched(w, partitions, config, Some((proposals, left)))
    requires Covered(w, partitions, config)
    ensures Verified(w, proposals, left)
  {
    if Clean(w, MissingIndexes(w.fpTotal, []), config) {
      WholeVerifies(w, proposals[0], config);
      assert proposals == [proposals[0]];
    } else if AnyFull(w, partitions, config) {
      FullVerifies(w, partitions, config, proposals);
    } else {
      PartialVerifies(w, partitions, config, proposals, left);
    }
  }

  lemma CoveredVerifies(w: World, partitions: seq<Partition>, config: Config, proposals: seq<Proposal>, left: seq<nat>)
    requires Searched(w, partitions, config, Some((proposals, left)))
    ensures FormsMatch(w) && Covered(w, partitions, config) ==> Verified(w, proposals, left)
  {
    if FormsMatch(w) && Covered(w, partitions, config) { SearchedVerifies(w, partitions, config, proposals, left); }
  }

  lemma OneSound(w: World, p: Proposal, config: Config)
    requires Sound(w, p, config)
    ensures AllSound(w, [p], config)
  {
  }

  /** Everything the search finds is sound, and it leaves nothing out unless that is allowed. */
  lemma SearchedSound(w: World, partitions: seq<Partition>, config: Config, proposals: seq<Proposal>, left: seq<nat>)
    requires Searched(w, partitions, config, Some((proposals, left)))
    ensures AllSound(w, proposals, config) && (!config.allowPartial ==> left == [])
  {
    if Clean(w, MissingIndexes(w.fpTotal, []), config) {
      OneSound(w, proposals[0], config);
      assert proposals == [proposals[0]];
    } else if AnyFull(w, partitions, config) {
      FullVerifies(w, partitions, config, proposals);
    } else {
      PartialVerifies(w, partitions, config, proposals, left);
    }
  }

  /** The fields a failed search names: the best ranked, as many as a selection may have. */
  function Closest(ranked: seq<nat>, config: Config): (r: seq<nat>)
    ensures r <= ranked && |r| <= config.maxFields && (|r| < config.maxFields ==> r == ranked)
  {
    if |ranked| <= config.maxFields then ranked else ranked[..config.maxFields]
  }

  /** How a run ends once there are candidate fields; verification fails exactly on what the search found. */
  ghost predicate Concludes(w: World, partitions: seq<Partition>, config: Config, r: Outcome) {
    match r
    case VerifyFailed => exists ps, left :: Searched(w, partitions, config, Some((ps, left))) && !Verified(w, ps, left)
    case Filter(ps, uncovered) =>
      uncovered == FiringAfter(ps, w.matchesFp, w.fpTotal)
      && exists left :: Searched(w, partitions, config, Some((ps, left))) && Verified(w, ps, left)
    case NoCleanSeparator(closest, blocking, uncovered) =>
      var all := MissingIndexes(w.fpTotal, []);
      && Searched(w, partitions, config, None) && Blocks(w, all, config, blocking)
      && closest == Closest(w.ranked(all), config)
      && uncovered == if config.allowPartial then all else []
    case _ => false
  }

  /** Each selection has an allowed number of fields and enough false positives behind it. */
  predicate WithinLimits(proposals: seq<Proposal>, config: Config) {
    forall p | 0 <= p < |proposals| ::
      config.minFields <= |proposals[p].entries| <= config.maxFields && |proposals[p].indexes| >= config.minSupport
  }

  lemma {:induction false} CleanGroupCount(w: World, groups: Partition, config: Config, n: nat)
    requires n <= |groups| && Eligible(groups, config)
    ensures |CleanGroups(w, groups, config, n)| <= n
    ensures forall c | 0 <= c < |CleanGroups(w, groups, config, n)| :: |CleanGroups(w, groups, config, n)[c]| >= config.minSupport
  {
    if n > 0 { CleanGroupCount(w, groups, config, n - 1); }
  }

  /** What a partition proposes keeps to the configured limits. */
  lemma AnswersWithin(w: World, groups: Partition, config: Config, proposals: seq<Proposal>, uncovered: seq<nat>)
    requires Eligible(groups, config) && Answers(w, groups, |groups|, config, proposals, uncovered)
    ensures |proposals| <= config.maxClusters && WithinLimits(proposals, config)
  {
    CleanGroupCount(w, groups, config, |groups|);
    forall p | 0 <= p < |proposals|
      ensures config.minFields <= |proposals[p].entries| <= config.maxFields && |proposals[p].indexes| >= config.minSupport
    {
      assert FoundFor(w, proposals[p], config, CleanGroups(w, groups, config, |groups|)[p]);
      SoundSize(w, proposals[p], config);
    }
  }

  lemma {:induction false} NothingLeft(w: World, groups: Partition, config: Config, n: nat)
    requires n <= |groups| && UncoveredIn(w, groups, config, n) == []
    requires forall g | 0 <= g < |groups| :: |groups[g]| > 0
    ensures |CleanGroups(w, groups, config, n)| == n
  {
    if n > 0 { NothingLeft(w, groups, config, n - 1); }
  }

  lemma OneWithin(w: World, config: Config, p: Proposal)
    requires Sound(w, p, config) && |p.indexes| >= config.minSupport
    ensures WithinLimits([p], config)
  {
    SoundSize(w, p, config);
  }

  lemma FullWithin(w: World, partitions: seq<Partition>, config: Config, proposals: seq<Proposal>)
    requires config.Valid() && BestFull(w, partitions, |partitions|, config, Some(proposals))
    ensures 1 <= |proposals| <= config.maxClusters && WithinLimits(proposals, config)
  {
    var p :| 0 <= p < |partitions| && Full(w, partitions[p], config)
             && Answers(w, partitions[p], |partitions[p]|, config, proposals, []);
    AnswersWithin(w, partitions[p], config, proposals, []);
    NothingLeft(w, partitions[p], config, |partitions[p]|);
  }

  lemma PartialWithin(w: World, partitions: seq<Partition>, config: Config, proposals: seq<Proposal>, left: seq<nat>)
    requires config.Valid() && BestPartial(w, partitions, |partitions|, config, Some((proposals, left)))
    ensures 1 <= |proposals| <= config.maxClusters && WithinLimits(proposals, config)
  {
    var p :| 0 <= p < |partitions| && PartialOf(w, partitions[p], config, proposals, left);
    AnswersWithin(w, partitions[p], config, proposals, UncoveredIn(w, partitions[p], config, |partitions[p]|));
  }

  /** Whatever the search finds has at least one selection and keeps to the configured limits. */
  lemma SearchedWithin(w: World, partitions: seq<Partition>, config: Config, proposals: seq<Proposal>, left: seq<nat>)
    requires config.Valid() && w.fpTotal >= config.minSupport
    requires Searched(w, partitions, config, Some((proposals, left)))
    ensures 1 <= |proposals| <= config.maxClusters && WithinLimits(proposals, config)
  {
    if Clean(w, MissingIndexes(w.fpTotal, []), config) {
      NothingMissing(w.fpTotal);
      OneWithin(w, config, proposals[0]);
      assert proposals == [proposals[0]];
    } else if AnyFull(w, partitions, config) {
      FullWithin(w, partitions, config, proposals);
    } else {
      PartialWithin(w, partitions, config, proposals, left);
    }
  }

  /** Where no clean separator is found, every split within the limits has a group that blocks a true positive. */
  lemma NoSeparatorMeans(w: World, partitions: seq<Partition>, config: Config, p: nat)
    requires config.Valid() && Searched(w, partitions, config, None) && p < |partitions|
    requires 2 <= |partitions[p]| <= config.maxClusters
    requires forall g | 0 <= g < |partitions[p]| :: |partitions[p][g]| >= config.minSupport
    ensures exists g | 0 <= g < |partitions[p]| :: !Clean(w, partitions[p][g], config)
    ensures config.allowPartial ==> forall g | 0 <= g < |partitions[p]| :: !Clean(w, partitions[p][g], config)
  {
    var groups := partitions[p];
    assert !Full(w, groups, config);
    if forall g | 0 <= g < |groups| :: Clean(w, groups[g], config) {
      AllCleanLeavesNone(w, groups, config, |groups|);
    }
    if config.allowPartial {
      forall g | 0 <= g < |groups| ensures !Clean(w, groups[g], config) {
        if Clean(w, groups[g], config) { var c := CleanAt(w, groups, config, |groups|, g); }
      }
    }
  }

  lemma {:induction false} AllCleanLeavesNone(w: World, groups: Partition, config: Config, n: nat)
    requires n <= |groups| && forall g | 0 <= g < |groups| :: Clean(w, groups[g], config)
    ensures UncoveredIn(w, groups, config, n) == []
  {
    if n > 0 { AllCleanLeavesNone(w, groups, config, n - 1); }
  }

  /** The outcomes of a run, case by case. */
  ghost predicate Tunes(w: World, partitions: seq<Partition>, config: Config, r: Outcome) {
    if !config.Valid() then r == InvalidConfig
    else if w.fpTotal == 0 then r == NoFalsePositives
    else if w.tpTotal == 0 then r == NoTruePositives
    else if w.fpTotal < config.minSupport then r == NoCleanSeparator([], [], MissingIndexes(w.fpTotal, []))
    else if w.ranked(MissingIndexes(w.fpTotal, [])) == [] then r == NoCandidateFields
    else Concludes(w, partitions, config, r)
  }

  method Tune(w: World, partitions: seq<Partition>, config: Config) returns (r: Outcome)
    requires forall p | 0 <= p < |partitions| :: Size(partitions[p], |partitions[p]|) == w.fpTotal
    ensures Tunes(w, partitions, config, r)
    ensures r.InvalidConfig? <==> config.minFields == 0 || config.maxFields == 0 || config.maxValues == 0 || config.minToken == 0
                                  || config.minSupport == 0 || config.maxClusters == 0 || config.minFields > config.maxFields
    ensures r.Filter? ==> 1 <= |r.proposals| <= config.maxClusters && WithinLimits(r.proposals, config)
    ensures r.Filter? ==> AllSound(w, r.proposals, config)
    ensures r.Filter? ==> FiringAfter(r.proposals, w.matchesTp, w.tpTotal) == AllTp(w)
    ensures r.Filter? ==> r.uncovered == FiringAfter(r.proposals, w.matchesFp, w.fpTotal)
    ensures r.Filter? && !config.allowPartial ==> r.uncovered == []
    ensures FormsMatch(w) && Covered(w, partitions, config) ==> !r.VerifyFailed?
  {
    if !config.Valid() { return InvalidConfig; }
    if w.fpTotal == 0 { return NoFalsePositives; }
    if w.tpTotal == 0 { return NoTruePositives; }
    var all := MissingIndexes(w.fpTotal, []);
    if w.fpTotal < config.minSupport { return NoCleanSeparator([], [], all); }
    if w.ranked(all) == [] { return NoCandidateFields; }
    var found, blocking := Search(w, partitions, config);
    if found.None? { return NoCleanSeparator(Closest(w.ranked(all), config), blocking, if config.allowPartial then all else []); }
    SearchedSound(w, partitions, config, found.value.0, found.value.1);
    if !Verified(w, found.value.0, found.value.1) {
      CoveredVerifies(w, partitions, config, found.value.0, found.value.1);
      return VerifyFailed;
    }
    SearchedWithin(w, partitions, config, found.value.0, found.value.1);
    var firing := FiringAfter(found.value.0, w.matchesFp, w.fpTotal);
    if !config.allowPartial && firing != [] { assert firing[0] in firing; }
    r := Filter(found.value.0, firing);
  }

  // ----- When verification can fail -----

  /**
    Form 0 matches every false positive but one and no true positive; form 1 matches everything. The
    groups that lack the odd one are profiled to form 0, the others to form 1.
   */
  function MissingWorld(n: nat, miss: nat, config: Config): World {
    World(n, 1, indexes => if miss in indexes then [1] else seq(config.minFields, _ => 0),
          (form, i) => form == 1 || i != miss, (form, t) => form == 1)
  }

  lemma MissingFormsMatch(n: nat, miss: nat, config: Config)
    ensures FormsMatch(MissingWorld(n, miss, config))
  {
    var w := MissingWorld(n, miss, config);
    forall indexes, k, i | 0 <= k < |w.ranked(indexes)| && i in indexes
      ensures w.matchesFp(w.ranked(indexes)[k], i)
    {
      assert w.ranked(indexes)[k] == if miss in indexes then 1 else 0;
    }
  }

  lemma NothingBlocked(w: World, entries: seq<nat>)
    requires w.tpTotal == 1 && !w.matchesTp(0, 0) && 0 in entries
    ensures Blocked(w, entries) == []
  {
    assert !MatchesAll(entries, w.matchesTp, 0) by {
      var k :| 0 <= k < |entries| && entries[k] == 0;
    }
    AscendingUnique(Blocked(w, entries), []);
  }

  /** Without the odd one a group is separated; with it, it is not. */
  lemma MissingClean(n: nat, miss: nat, config: Config, indexes: seq<nat>)
    requires config.Valid()
    ensures Clean(MissingWorld(n, miss, config), indexes, config) <==> miss !in indexes
  {
    var w := MissingWorld(n, miss, config);
    var ranked := w.ranked(indexes);
    if miss in indexes {
      forall picks | Proposes(w, ranked, config, picks) && |picks| >= config.minFields
        ensures Blocked(w, Entries(ranked, picks)) != []
      {
        assert MatchesAll(Entries(ranked, picks), w.matchesTp, 0);
        assert 0 in Blocked(w, Entries(ranked, picks));
      }
    } else {
      var picks := seq(config.minFields, i => i);
      forall j | 0 <= j < |picks| ensures IsBest(w, ranked, picks[..j], |ranked|, picks[j]) {
        forall i: nat | i < |ranked| ensures BlockedWith(w, ranked, picks[..j], i) == [] {
          var entries := Entries(ranked, picks[..j]) + [ranked[i]];
          assert entries[|entries| - 1] == 0;
          NothingBlocked(w, entries);
        }
        forall i: nat | i < j ensures i in picks[..j] { assert picks[..j][i] == i; }
      }
      assert Entries(ranked, picks)[0] == 0;
      NothingBlocked(w, Entries(ranked, picks));
      assert Proposes(w, ranked, config, picks) && Separates(w, indexes, config, picks);
    }
  }

  lemma {:induction false} MissingLeavesNone(n: nat, miss: nat, config: Config, groups: Partition, k: nat)
    requires config.Valid() && k <= |groups| && !InSome(groups, miss)
    ensures UncoveredIn(MissingWorld(n, miss, config), groups, config, k) == []
  {
    if k > 0 {
      MissingLeavesNone(n, miss, config, groups, k - 1);
      MissingClean(n, miss, config, groups[k - 1]);
    }
  }

  lemma {:induction false} SomeUncovered(w: World, groups: Partition, config: Config, k: nat, g: nat, i: nat)
    requires g < k <= |groups| && !Clean(w, groups[g], config) && i in groups[g]
    ensures UncoveredIn(w, groups, config, k) != []
  {
    if g < k - 1 { SomeUncovered(w, groups, config, k - 1, g, i); }
  }

  /** In that world exactly the partitions that leave the odd one out separate everything else. */
  lemma MissingFull(n: nat, miss: nat, config: Config, groups: Partition)
    requires config.Valid()
    ensures Full(MissingWorld(n, miss, config), groups, config) <==> Eligible(groups, config) && !InSome(groups, miss)
  {
    if InSome(groups, miss) {
      var g :| 0 <= g < |groups| && miss in groups[g];
      MissingClean(n, miss, config, groups[g]);
      SomeUncovered(MissingWorld(n, miss, config), groups, config, |groups|, g, miss);
    } else {
      MissingLeavesNone(n, miss, config, groups, |groups|);
    }
  }

  lemma {:induction false} CleanGroupIn(w: World, groups: Partition, config: Config, n: nat, c: nat) returns (g: nat)
    requires n <= |groups| && c < |CleanGroups(w, groups, config, n)|
    ensures g < n && CleanGroups(w, groups, config, n)[c] == groups[g]
  {
    if c < |CleanGroups(w, groups, config, n - 1)| { g := CleanGroupIn(w, groups, config, n - 1, c); } else { g := n - 1; }
  }

  /** Whatever is proposed for groups without the odd one still fires on it. */
  lemma MissingUnverified(n: nat, miss: nat, config: Config, groups: Partition, proposals: seq<Proposal>, uncovered: seq<nat>)
    requires config.Valid() && miss < n && !InSome(groups, miss) && miss !in uncovered
    requires Answers(MissingWorld(n, miss, config), groups, |groups|, config, proposals, [])
    ensures !Verified(MissingWorld(n, miss, config), proposals, uncovered)
  {
    var w := MissingWorld(n, miss, config);
    forall p | 0 <= p < |proposals| ensures !MatchesAll(proposals[p].entries, w.matchesFp, miss) {
      var g := CleanGroupIn(w, groups, config, |groups|, p);
      assert FoundFor(w, proposals[p], config, groups[g]);
      SoundSpares(w, proposals[p], config);
      assert w.ranked(groups[g]) == seq(config.minFields, _ => 0);
      assert proposals[p].entries[0] == 0;
    }
    assert miss in FiringAfter(proposals, w.matchesFp, w.fpTotal);
  }

  // ----- The search always has an answer -----

  lemma CleanProposal(w: World, indexes: seq<nat>, config: Config) returns (p: Proposal)
    requires Clean(w, indexes, config)
    ensures p.indexes == indexes && Sound(w, p, config)
  {
    var picks :| Proposes(w, w.ranked(indexes), config, picks) && Separates(w, indexes, config, picks);
    p := Proposal(Entries(w.ranked(indexes), picks), indexes);
  }

  lemma NoAnswers(w: World, groups: Partition, config: Config)
    ensures Answers(w, groups, 0, config, [], UncoveredIn(w, groups, config, 0))
  {
  }

  lemma AnswerNext(w: World, groups: Partition, n: nat, config: Config, proposals: seq<Proposal>) returns (more: seq<Proposal>)
    requires n < |groups| && Answers(w, groups, n, config, proposals, UncoveredIn(w, groups, config, n))
    ensures Answers(w, groups, n + 1, config, more, UncoveredIn(w, groups, config, n + 1))
  {
    var uncovered := UncoveredIn(w, groups, config, n);
    if Clean(w, groups[n], config) {
      var p := CleanProposal(w, groups[n], config);
      AnswersStep(w, groups, n, config, proposals, uncovered, Some(p));
      more := proposals + [p];
    } else {
      AnswersStep(w, groups, n, config, proposals, uncovered, None);
      more := proposals;
    }
  }

  lemma {:induction false} AnswersExist(w: World, groups: Partition, n: nat, config: Config) returns (proposals: seq<Proposal>)
    requires n <= |groups|
    ensures Answers(w, groups, n, config, proposals, UncoveredIn(w, groups, config, n))
  {
    if n == 0 {
      proposals := [];
      NoAnswers(w, groups, config);
    } else {
      var last: nat := n - 1;
      var before := AnswersExist(w, groups, last, config);
      proposals := AnswerNext(w, groups, last, config, before);
    }
  }

  lemma {:induction false} BestFullExists(w: World, partitions: seq<Partition>, n: nat, config: Config) returns (best: Option<seq<Proposal>>)
    requires n <= |partitions|
    ensures BestFull(w, partitions, n, config, best)
  {
    if n == 0 {
      best := None;
    } else {
      best := BestFullExists(w, partitions, n - 1, config);
      if Full(w, partitions[n - 1], config) {
        var proposals := AnswersExist(w, partitions[n - 1], |partitions[n - 1]|, config);
        FullStep(w, partitions, n - 1, config, best, proposals);
        best := if best.None? || |proposals| < |best.value| then Some(proposals) else best;
      } else {
        NotFullStep(w, partitions, n - 1, config, best);
      }
    }
  }

  // ----- The exact condition -----

  /** Proposals for these groups pass verification whatever the exemplars hold and the forms match. */
  ghost predicate AlwaysVerifies(groups: Partition, n: nat, config: Config) {
    forall w: World, proposals, uncovered ::
      w.fpTotal == n && FormsMatch(w) && Answers(w, groups, |groups|, config, proposals, uncovered)
      ==> Verified(w, proposals, Sort(uncovered))
  }

  /** They do exactly when no false positive is missing from the groups. */
  lemma AlwaysVerifiesIffCovered(groups: Partition, n: nat, config: Config)
    requires config.Valid()
    ensures AlwaysVerifies(groups, n, config) <==> CoversAll(groups, n)
  {
    if CoversAll(groups, n) {
      forall w: World, proposals, uncovered | w.fpTotal == n && FormsMatch(w) && Answers(w, groups, |groups|, config, proposals, uncovered)
        ensures Verified(w, proposals, Sort(uncovered))
      {
        PartitionVerifies(w, groups, config, proposals, uncovered);
      }
    } else {
      var miss: nat :| miss < n && !InSome(groups, miss);
      var w := MissingWorld(n, miss, config);
      MissingFormsMatch(n, miss, config);
      MissingLeavesNone(n, miss, config, groups, |groups|);
      var proposals := AnswersExist(w, groups, |groups|, config);
      SortMembers([]);
      MissingUnverified(n, miss, config, groups, proposals, Sort([]));
    }
  }

  /** In the world of a false positive that an eligible partition leaves out, the search finds clusters. */
  lemma MissedSearched(partitions: seq<Partition>, n: nat, config: Config, p: nat, miss: nat)
    requires config.Valid() && miss < n
    requires p < |partitions| && Eligible(partitions[p], config) && !InSome(partitions[p], miss)
    ensures !Clean(MissingWorld(n, miss, config), MissingIndexes(n, []), config)
    ensures AnyFull(MissingWorld(n, miss, config), partitions, config)
  {
    MissingClean(n, miss, config, MissingIndexes(n, []));
    MissingFull(n, miss, config, partitions[p]);
  }

  lemma MissedFullFails(partitions: seq<Partition>, n: nat, config: Config, miss: nat, proposals: seq<Proposal>)
    requires config.Valid() && miss < n
    requires BestFull(MissingWorld(n, miss, config), partitions, |partitions|, config, Some(proposals))
    ensures !Verified(MissingWorld(n, miss, config), proposals, [])
  {
    var w := MissingWorld(n, miss, config);
    var q :| 0 <= q < |partitions| && Full(w, partitions[q], config)
             && Answers(w, partitions[q], |partitions[q]|, config, proposals, []);
    MissingFull(n, miss, config, partitions[q]);
    MissingUnverified(n, miss, config, partitions[q], proposals, []);
  }

  /** What it finds never passes verification, and there is such a find. */
  lemma MissedFails(partitions: seq<Partition>, n: nat, config: Config, p: nat, miss: nat)
    requires config.Valid() && miss < n
    requires p < |partitions| && Eligible(partitions[p], config) && !InSome(partitions[p], miss)
    ensures var w := MissingWorld(n, miss, config);
            && (forall found | Searched(w, partitions, config, found) :: found.Some? && !Verified(w, found.value.0, found.value.1))
            && (exists ps :: Searched(w, partitions, config, Some((ps, []))))
  {
    var w := MissingWorld(n, miss, config);
    MissedSearched(partitions, n, config, p, miss);
    forall found | Searched(w, partitions, config, found) ensures found.Some? && !Verified(w, found.value.0, found.value.1) {
      MissedFullFails(partitions, n, config, miss, found.value.0);
    }
    var best := BestFullExists(w, partitions, |partitions|, config);
    assert Searched(w, partitions, config, Some((best.value, [])));
  }

  lemma ConcludesFailed(w: World, partitions: seq<Partition>, config: Config, r: Outcome)
    requires forall found | Searched(w, partitions, config, found) :: found.Some? && !Verified(w, found.value.0, found.value.1)
    requires exists ps :: Searched(w, partitions, config, Some((ps, [])))
    ensures Concludes(w, partitions, config, r) <==> r.VerifyFailed?
  {
    var ps :| Searched(w, partitions, config, Some((ps, [])));
    assert !Verified(w, ps, []);
  }

  /** So every run there ends in the verification error. */
  lemma MissedAlwaysFails(partitions: seq<Partition>, n: nat, config: Config, p: nat, miss: nat, r: Outcome)
    requires config.Valid() && config.minSupport <= n && miss < n
    requires p < |partitions| && Eligible(partitions[p], config) && !InSome(partitions[p], miss)
    ensures Tunes(MissingWorld(n, miss, config), partitions, config, r) <==> r.VerifyFailed?
  {
    var w := MissingWorld(n, miss, config);
    MissedFails(partitions, n, config, p, miss);
    ConcludesFailed(w, partitions, config, r);
    assert w.ranked(MissingIndexes(n, [])) == [1];
  }

  /** Verification fails on some exemplars for which these are the partitions. */
  ghost predicate CanFail(partitions: seq<Partition>, n: nat, config: Config) {
    exists w: World :: w.fpTotal == n && FormsMatch(w) && Tunes(w, partitions, config, VerifyFailed)
  }

  lemma UncoveredFails(partitions: seq<Partition>, n: nat, config: Config, p: nat)
    requires config.Valid() && config.minSupport <= n
    requires p < |partitions| && Eligible(partitions[p], config) && !CoversAll(partitions[p], n)
    ensures CanFail(partitions, n, config)
  {
    var miss: nat :| miss < n && !InSome(partitions[p], miss);
    MissingFormsMatch(n, miss, config);
    MissedAlwaysFails(partitions, n, config, p, miss, VerifyFailed);
  }

  lemma CoveredNeverFails(partitions: seq<Partition>, n: nat, config: Config)
    requires config.Valid() && forall p | 0 <= p < |partitions| && Eligible(partitions[p], config) :: CoversAll(partitions[p], n)
    ensures !CanFail(partitions, n, config)
  {
    forall w: World | w.fpTotal == n && FormsMatch(w) ensures !Tunes(w, partitions, config, VerifyFailed) {
      forall ps, left | Searched(w, partitions, config, Some((ps, left))) ensures Verified(w, ps, left) {
        SearchedVerifies(w, partitions, config, ps, left);
      }
    }
  }

  /** The verification error is reachable exactly when an eligible partition leaves a false positive out. */
  lemma CanFailIffUncovered(partitions: seq<Partition>, n: nat, config: Config)
    requires config.Valid() && config.minSupport <= n
    ensures CanFail(partitions, n, config)
            <==> exists p | 0 <= p < |partitions| :: Eligible(partitions[p], config) && !CoversAll(partitions[p], n)
  {
    if p :| 0 <= p < |partitions| && Eligible(partitions[p], config) && !CoversAll(partitions[p], n) {
      UncoveredFails(partitions, n, config, p);
    } else {
      CoveredNeverFails(partitions, n, config);
    }
  }

  // ----- In terms of the exemplars -----

  /** The groups of a field listed one after another, in the order of some keys. */
  predicate Lays(groups: Partitions.Groups, keys: seq<string>, listed: Partition) {
    && |listed| == |keys| == |groups|
    && (forall v | v in groups :: v in keys) && (forall v | v in keys :: v in groups)
    && (forall i | 0 <= i < |keys| :: listed[i] == groups[keys[i]])
  }

  lemma LaidCovers(groups: Partitions.Groups, keys: seq<string>, listed: Partition, n: nat)
    requires Lays(groups, keys, listed)
    ensures CoversAll(listed, n) <==> Partitions.AllInGroups(groups, n)
  {
    forall i: nat ensures InSome(listed, i) <==> Partitions.InSomeGroup(groups, i) {
      if InSome(listed, i) {
        var g :| 0 <= g < |listed| && i in listed[g];
        assert keys[g] in groups;
      }
      if Partitions.InSomeGroup(groups, i) {
        var v :| v in groups && i in groups[v];
        var g :| 0 <= g < |keys| && keys[g] == v;
        assert i in listed[g];
      }
    }
  }

  /** A partition the code takes from exemplars: the groups of one retained field. */
  ghost predicate RetainedFrom(events: seq<Partitions.Exemplar>, field: string, listed: Partition) {
    Partitions.Listings(events, field, |events|, 0) == |events|
    && exists groups, keys :: Partitions.Gathered(events, groups, field, |events|, 0) && Lays(groups, keys, listed)
  }

  /** Every false positive is in some group exactly when none lists the field twice. */
  lemma RetainedCovers(events: seq<Partitions.Exemplar>, field: string, listed: Partition)
    requires RetainedFrom(events, field, listed)
    ensures CoversAll(listed, |events|) <==> Partitions.OnceEach(events, field)
  {
    var groups, keys :| Partitions.Gathered(events, groups, field, |events|, 0) && Lays(groups, keys, listed);
    LaidCovers(groups, keys, listed, |events|);
    Partitions.RetainedPartition(events, groups, field);
  }

  /**
    Main result: over the partitions of the exemplars' retained fields, the verification error is
    reachable exactly when an exemplar lists an eligible field twice.
   */
  lemma VerifyFailsExactly(events: seq<Partitions.Exemplar>, fields: seq<string>, partitions: seq<Partition>, config: Config)
    requires config.Valid() && config.minSupport <= |events|
    requires |fields| == |partitions| && forall p | 0 <= p < |fields| :: RetainedFrom(events, fields[p], partitions[p])
    ensures CanFail(partitions, |events|, config)
            <==> exists p | 0 <= p < |fields| :: Eligible(partitions[p], config) && !Partitions.OnceEach(events, fields[p])
  {
    forall p | 0 <= p < |fields|
      ensures CoversAll(partitions[p], |events|) <==> Partitions.OnceEach(events, fields[p])
    {
      RetainedCovers(events, fields[p], partitions[p]);
    }
    CanFailIffUncovered(partitions, |events|, config);
  }

  /** What the retained fields of the doubled exemplars lay out. */
  lemma DoubledLays(ab: Partitions.Groups, u: Partitions.Groups)
    requires Partitions.Gathered(Partitions.DoubledExemplars(), ab, "a.b", 3, 0)
    requires Partitions.Gathered(Partitions.DoubledExemplars(), u, "u", 3, 0)
    ensures Lays(ab, ["x", "y"], [[0, 0], [1]]) && Lays(u, ["k"], [[0, 1, 2]])
  {
    Partitions.DoubleListingRetained(ab);
    Partitions.SingleListingRetained(u);
    LaysTwo("x", "y", [0, 0], [1]);
    assert u.Keys == {"k"};
  }

  lemma LaysTwo(x: string, y: string, a: seq<nat>, b: seq<nat>)
    requires x != y
    ensures Lays(map[x := a, y := b], [x, y], [a, b])
  {
    assert map[x := a, y := b].Keys == {x, y};
  }

  /**
    A failing input: the first of three exemplars stands twice in the groups of `a.b` and the last
    not at all; no run over the two retained fields gets past verification.
   */
  lemma DoubledExemplarFails(ab: Partition, u: Partition, config: Config, r: Outcome)
    requires ab == [[0, 0], [1]] && u == [[0, 1, 2]] && config == Config(1, 1, 1, 2, false, 1, 1)
    ensures FormsMatch(MissingWorld(3, 2, config)) && !Clean(MissingWorld(3, 2, config), [0, 1, 2], config)
    ensures Tunes(MissingWorld(3, 2, config), [ab, u], config, r) <==> r == VerifyFailed
  {
    MissingFormsMatch(3, 2, config);
    MissingClean(3, 2, config, [0, 1, 2]);
    var partitions := [ab, u];
    assert Eligible(partitions[0], config) && !InSome(partitions[0], 2);
    MissedAlwaysFails(partitions, 3, config, 0, 2, r);
  }
}
