/**
  Which rules the candidate index can gate, and by what (`crates/rsigma-eval/src/witness.rs`):
  stated on the rule's own shape.
 */
module Gating {
  import opened Results
  import opened Folding
  import opened Evaluation
  import opened Witnesses
  import SigmaIr
  import RegexLiterals

  // ----- Values -----

  /** A literal that can be compared in folded form. */
  predicate Foldable(value: string, ci: bool) {
    value != [] && (ci || IsAscii(value))
  }

  /** Every match of the regex has one of some foldable literals of at least two bytes. */
  predicate RegexBound(re: RegexLiterals.Regex) {
    && RegexLiterals.MandatoryLiterals(re).Some?
    && forall l | l in RegexLiterals.MandatoryLiterals(re).value :: IsAscii(l)
  }

  predicate RegexGated(re: RegexLiterals.Regex) {
    RegexBound(re) && RegexLiterals.MandatoryLiterals(re).value != []
  }

  /** Every alternative of the matcher has a literal; there may be no alternative. */
  predicate MatcherBound(m: CompiledMatcher)
    decreases m, 1
  {
    match m
    case NeedleSet(needles, ci) => forall i | 0 <= i < |needles| :: Foldable(needles[i], ci)
    case RegexMatch(re) => RegexBound(re)
    case RegexSet(rs, GroupAny) => forall i | 0 <= i < |rs| :: RegexBound(rs[i])
    case AnyOf(cs) => forall i | 0 <= i < |cs| :: MatcherBound(cs[i])
    case CaseInsensitiveGroup(cs, GroupAny) => forall i | 0 <= i < |cs| :: MatcherBound(cs[i])
    case _ => MatcherGated(m)
  }

  /** And there is one: a disjunction needs all its members bound, a conjunction one gated. */
  predicate MatcherGated(m: CompiledMatcher)
    decreases m, 0
  {
    match m
    case StrMatch(_, value, ci) => Foldable(value, ci)
    case NeedleSet(needles, ci) => needles != [] && forall i | 0 <= i < |needles| :: Foldable(needles[i], ci)
    case RegexMatch(re) => RegexGated(re)
    case RegexSet(rs, GroupAny) =>
      (forall i | 0 <= i < |rs| :: RegexBound(rs[i])) && exists i | 0 <= i < |rs| :: RegexGated(rs[i])
    case RegexSet(rs, GroupAll) => exists i | 0 <= i < |rs| :: RegexGated(rs[i])
    case AnyOf(cs) =>
      (forall i | 0 <= i < |cs| :: MatcherBound(cs[i])) && exists i | 0 <= i < |cs| :: MatcherGated(cs[i])
    case CaseInsensitiveGroup(cs, GroupAny) =>
      (forall i | 0 <= i < |cs| :: MatcherBound(cs[i])) && exists i | 0 <= i < |cs| :: MatcherGated(cs[i])
    case AllOf(cs) => exists i | 0 <= i < |cs| :: MatcherGated(cs[i])
    case CaseInsensitiveGroup(cs, GroupAll) => exists i | 0 <= i < |cs| :: MatcherGated(cs[i])
    case _ => false
  }

  // ----- Items, detections, conditions, rules -----

  /** Without a field the value decides; with one the field must be present. */
  predicate ItemGated(item: Item) {
    if item.field.None? then MatcherGated(item.matcher)
    else item.presence == Some(true) || (item.presence.None? && !MatchesAbsent(item.matcher))
  }

  predicate DetectionBound(d: CompiledDetection)
    decreases d, 1
  {
    match d
    case AnyDetection(dets) => dets != [] && forall i | 0 <= i < |dets| :: DetectionBound(dets[i])
    case Keywords(m) => MatcherBound(m)
    case _ => DetectionGated(d)
  }

  predicate DetectionGated(d: CompiledDetection)
    decreases d, 0
  {
    match d
    case AllItems(items) => exists i | 0 <= i < |items| :: ItemGated(items[i])
    case AnyDetection(dets) =>
      (forall i | 0 <= i < |dets| :: DetectionBound(dets[i])) && exists i | 0 <= i < |dets| :: DetectionGated(dets[i])
    case AndDetection(dets) => exists i | 0 <= i < |dets| :: DetectionGated(dets[i])
    case Keywords(m) => MatcherGated(m)
    case ArrayMatch(_, q, _) => q == SigmaIr.ArrayAny || q == SigmaIr.ArrayAll
    case Conditional(_) => false
  }

  predicate SelectedBound(pattern: SigmaIr.SelectorPattern, named: seq<NamedDetection>) {
    forall i | 0 <= i < |named| :: Selects(pattern, named, i) ==> DetectionBound(named[i].det)
  }

  predicate SelectedGated(pattern: SigmaIr.SelectorPattern, named: seq<NamedDetection>) {
    exists i | 0 <= i < |named| :: Selects(pattern, named, i) && DetectionGated(named[i].det)
  }

  predicate ConditionBound(c: SigmaIr.Condition, named: seq<NamedDetection>)
    decreases c, 1
  {
    match c
    case Named(name) => Lookup(named, name).Some? && DetectionBound(named[Lookup(named, name).value].det)
    case CondOr(cs) => forall i | 0 <= i < |cs| :: ConditionBound(cs[i], named)
    case Selector(q, pattern) => if q == SigmaIr.QAll then SelectedGated(pattern, named) else SelectedBound(pattern, named)
    case _ => ConditionGated(c, named)
  }

  predicate ConditionGated(c: SigmaIr.Condition, named: seq<NamedDetection>)
    decreases c, 0
  {
    match c
    case Named(name) => Lookup(named, name).Some? && DetectionGated(named[Lookup(named, name).value].det)
    case CondAnd(cs) => exists i | 0 <= i < |cs| :: ConditionGated(cs[i], named)
    case CondOr(cs) =>
      (forall i | 0 <= i < |cs| :: ConditionBound(cs[i], named)) && exists i | 0 <= i < |cs| :: ConditionGated(cs[i], named)
    case CondNot(_) => false
    case Selector(q, pattern) => SelectedGated(pattern, named) && (q != SigmaIr.QAll ==> SelectedBound(pattern, named))
  }

  predicate RuleGated(r: Rule) {
    && (forall i | 0 <= i < |r.conditions| :: ConditionBound(r.conditions[i], r.detections))
    && exists i | 0 <= i < |r.conditions| :: ConditionGated(r.conditions[i], r.detections)
  }

  // ----- The analysis finds witnesses exactly for those -----

  /** What an analysis knows: whether it is not open, and whether it has a witness. */
  predicate Finds(a: Analysis, bound: bool, gated: bool) {
    (a.Known? <==> bound) && (a.Known? && a.ws != [] <==> gated)
  }

  predicate AllKnown(parts: seq<Analysis>) {
    forall k | 0 <= k < |parts| :: parts[k].Known?
  }

  predicate Offers(a: Analysis) {
    a.Known? && a.ws != []
  }

  predicate AnyOffers(parts: seq<Analysis>) {
    exists k | 0 <= k < |parts| :: Offers(parts[k])
  }

  lemma OneMore(parts: seq<Analysis>, a: Analysis)
    ensures AllKnown(parts + [a]) <==> AllKnown(parts) && a.Known?
    ensures AnyOffers(parts + [a]) <==> AnyOffers(parts) || Offers(a)
  {
    var more := parts + [a];
    assert more[|parts|] == a && forall k | 0 <= k < |parts| :: more[k] == parts[k];
    if AllKnown(more) {
      forall k | 0 <= k < |parts| ensures parts[k].Known? { assert more[k].Known?; }
    }
    if k :| 0 <= k < |parts| && Offers(parts[k]) { assert Offers(more[k]); }
  }

  lemma {:induction false} FirstFind(parts: seq<Analysis>, n: nat)
    requires n <= |parts|
    ensures Finds(OrCombine(parts, n), AllKnown(parts[..n]), AllKnown(parts[..n]) && AnyOffers(parts[..n]))
    ensures Finds(AndCombine(parts, n), AnyOffers(parts[..n]), AnyOffers(parts[..n]))
  {
    if n > 0 {
      FirstFind(parts, n - 1);
      OneMore(parts[..n - 1], parts[n - 1]);
      assert parts[..n] == parts[..n - 1] + [parts[n - 1]];
    }
  }

  lemma CombinationsFind(parts: seq<Analysis>)
    ensures Finds(OrCombine(parts, |parts|), AllKnown(parts), AllKnown(parts) && AnyOffers(parts))
    ensures Finds(AndCombine(parts, |parts|), AnyOffers(parts), AnyOffers(parts))
  {
    FirstFind(parts, |parts|);
    assert parts[..|parts|] == parts;
  }

  lemma LiteralsFind(values: seq<string>, ci: bool, field: Option<string>)
    ensures var all := forall i | 0 <= i < |values| :: Foldable(values[i], ci);
            Finds(OrCombine(LiteralWitnesses(values, ci, field), |values|), all, all && values != [])
  {
    var parts := LiteralWitnesses(values, ci, field);
    assert forall i | 0 <= i < |values| :: parts[i].Known? <==> Foldable(values[i], ci);
    CombinationsFind(parts);
    if values != [] { assert parts[0].Known? ==> parts[0].ws != []; }
  }

  lemma RegexFinds(re: RegexLiterals.Regex, field: Option<string>)
    ensures Finds(RegexWitness(re, field), RegexBound(re), RegexGated(re))
  {
    if RegexLiterals.MandatoryLiterals(re).Some? {
      var ls := RegexLiterals.MandatoryLiterals(re).value;
      LiteralsFind(ls, false, field);
      assert forall i | 0 <= i < |ls| :: ls[i] in ls && RegexLiterals.ByteLen(ls[i]) >= 2 && ls[i] != [];
    }
  }

  predicate AllTrue(bs: seq<bool>) {
    forall i | 0 <= i < |bs| :: bs[i]
  }

  predicate AnyTrue(bs: seq<bool>) {
    exists i | 0 <= i < |bs| :: bs[i]
  }

  /** A combination of parts that find what is said of them. */
  lemma CombineFinds(mode: GroupMode, parts: seq<Analysis>, bound: seq<bool>, gated: seq<bool>)
    requires |bound| == |gated| == |parts|
    requires forall i | 0 <= i < |parts| :: Finds(parts[i], bound[i], gated[i])
    ensures if mode == GroupAny then Finds(Combine(mode, parts), AllTrue(bound), AllTrue(bound) && AnyTrue(gated))
            else Finds(Combine(mode, parts), AnyTrue(gated), AnyTrue(gated))
  {
    CombinationsFind(parts);
    if i :| 0 <= i < |gated| && gated[i] { assert Offers(parts[i]); }
    if i :| 0 <= i < |parts| && Offers(parts[i]) { assert gated[i]; }
    assert AllKnown(parts) <==> AllTrue(bound);
  }

  function RegexBounds(rs: seq<RegexLiterals.Regex>): (r: seq<bool>)
    ensures |r| == |rs| && forall i | 0 <= i < |rs| :: r[i] == RegexBound(rs[i])
  {
    seq(|rs|, i requires 0 <= i < |rs| => RegexBound(rs[i]))
  }

  function RegexGates(rs: seq<RegexLiterals.Regex>): (r: seq<bool>)
    ensures |r| == |rs| && forall i | 0 <= i < |rs| :: r[i] == RegexGated(rs[i])
  {
    seq(|rs|, i requires 0 <= i < |rs| => RegexGated(rs[i]))
  }

  lemma RegexesAre(rs: seq<RegexLiterals.Regex>)
    ensures AllTrue(RegexBounds(rs)) <==> forall i | 0 <= i < |rs| :: RegexBound(rs[i])
    ensures AnyTrue(RegexGates(rs)) <==> exists i | 0 <= i < |rs| :: RegexGated(rs[i])
  {
    if i :| 0 <= i < |rs| && RegexGated(rs[i]) { assert RegexGates(rs)[i]; }
    if AllTrue(RegexBounds(rs)) {
      forall i | 0 <= i < |rs| ensures RegexBound(rs[i]) { assert RegexBounds(rs)[i]; }
    }
  }

  lemma RegexesFind(rs: seq<RegexLiterals.Regex>, mode: GroupMode, field: Option<string>)
    ensures Finds(AnalyzeMatcher(RegexSet(rs, mode), field), MatcherBound(RegexSet(rs, mode)), MatcherGated(RegexSet(rs, mode)))
  {
    var parts := seq(|rs|, i requires 0 <= i < |rs| => RegexWitness(rs[i], field));
    forall i | 0 <= i < |rs| ensures Finds(parts[i], RegexBounds(rs)[i], RegexGates(rs)[i]) { RegexFinds(rs[i], field); }
    CombineFinds(mode, parts, RegexBounds(rs), RegexGates(rs));
    RegexesAre(rs);
    assert AnalyzeMatcher(RegexSet(rs, mode), field) == Combine(mode, parts);
    if mode == GroupAny {
      assert MatcherBound(RegexSet(rs, mode)) == AllTrue(RegexBounds(rs));
    } else {
      assert MatcherBound(RegexSet(rs, mode)) == MatcherGated(RegexSet(rs, mode)) == AnyTrue(RegexGates(rs));
    }
  }

  function Bounds(cs: seq<CompiledMatcher>): (r: seq<bool>)
    ensures |r| == |cs| && forall i | 0 <= i < |cs| :: r[i] == MatcherBound(cs[i])
  {
    seq(|cs|, i requires 0 <= i < |cs| => MatcherBound(cs[i]))
  }

  function Gates(cs: seq<CompiledMatcher>): (r: seq<bool>)
    ensures |r| == |cs| && forall i | 0 <= i < |cs| :: r[i] == MatcherGated(cs[i])
  {
    seq(|cs|, i requires 0 <= i < |cs| => MatcherGated(cs[i]))
  }

  lemma ChildrenAre(cs: seq<CompiledMatcher>)
    ensures AllTrue(Bounds(cs)) <==> forall i | 0 <= i < |cs| :: MatcherBound(cs[i])
    ensures AnyTrue(Gates(cs)) <==> exists i | 0 <= i < |cs| :: MatcherGated(cs[i])
  {
    if i :| 0 <= i < |cs| && MatcherGated(cs[i]) { assert Gates(cs)[i]; }
    if AllTrue(Bounds(cs)) {
      forall i | 0 <= i < |cs| ensures MatcherBound(cs[i]) { assert Bounds(cs)[i]; }
    }
  }

  function Parts(cs: seq<CompiledMatcher>, field: Option<string>): (r: seq<Analysis>)
    ensures |r| == |cs| && forall i | 0 <= i < |cs| :: r[i] == AnalyzeMatcher(cs[i], field)
  {
    seq(|cs|, i requires 0 <= i < |cs| => AnalyzeMatcher(cs[i], field))
  }

  lemma {:induction false} ChildrenFind(m: CompiledMatcher, cs: seq<CompiledMatcher>, mode: GroupMode, field: Option<string>)
    requires forall i | 0 <= i < |cs| :: cs[i] < m
    ensures if mode == GroupAny then Finds(Combine(mode, Parts(cs, field)), AllTrue(Bounds(cs)), AllTrue(Bounds(cs)) && AnyTrue(Gates(cs)))
            else Finds(Combine(mode, Parts(cs, field)), AnyTrue(Gates(cs)), AnyTrue(Gates(cs)))
    decreases m, 0
  {
    forall i | 0 <= i < |cs| ensures Finds(Parts(cs, field)[i], Bounds(cs)[i], Gates(cs)[i]) { MatcherFinds(cs[i], field); }
    CombineFinds(mode, Parts(cs, field), Bounds(cs), Gates(cs));
  }

  /** Groups are bound and gated as their members are combined. */
  lemma GroupIs(m: CompiledMatcher, field: Option<string>)
    requires m.AnyOf? || m.AllOf? || m.CaseInsensitiveGroup?
    ensures var any := m.AnyOf? || (m.CaseInsensitiveGroup? && m.mode == GroupAny);
            var cs := m.children;
            && AnalyzeMatcher(m, field) == Combine(if any then GroupAny else GroupAll, Parts(cs, field))
            && MatcherGated(m) == (AnyTrue(Gates(cs)) && (any ==> AllTrue(Bounds(cs))))
            && MatcherBound(m) == if any then AllTrue(Bounds(cs)) else AnyTrue(Gates(cs))
  {
    ChildrenAre(m.children);
    GroupAnalyzed(m, field);
  }

  lemma GroupAnalyzed(m: CompiledMatcher, field: Option<string>)
    requires m.AnyOf? || m.AllOf? || m.CaseInsensitiveGroup?
    ensures var any := m.AnyOf? || (m.CaseInsensitiveGroup? && m.mode == GroupAny);
            AnalyzeMatcher(m, field) == Combine(if any then GroupAny else GroupAll, Parts(m.children, field))
  {
  }

  lemma {:induction false} MatcherFinds(m: CompiledMatcher, field: Option<string>)
    ensures Finds(AnalyzeMatcher(m, field), MatcherBound(m), MatcherGated(m))
    decreases m
  {
    match m
    case NeedleSet(needles, ci) => LiteralsFind(needles, ci, field);
    case RegexMatch(re) => RegexFinds(re, field);
    case RegexSet(rs, mode) => RegexesFind(rs, mode, field);
    case AnyOf(cs) =>
      GroupIs(m, field);
      ChildrenFind(m, cs, GroupAny, field);
    case AllOf(cs) =>
      GroupIs(m, field);
      ChildrenFind(m, cs, GroupAll, field);
    case CaseInsensitiveGroup(cs, mode) =>
      GroupIs(m, field);
      ChildrenFind(m, cs, mode, field);
    case _ => PlainFinds(m, field);
  }

  lemma PlainFinds(m: CompiledMatcher, field: Option<string>)
    requires m.StrMatch? || m.Verdict? || m.Exists? || m.Null? || m.TimestampPart? || m.Not?
    ensures Finds(AnalyzeMatcher(m, field), MatcherBound(m), MatcherGated(m))
  {
  }

  predicate ItemBound(item: Item) {
    if item.field.None? then MatcherBound(item.matcher) else ItemGated(item)
  }

  lemma ItemFinds(item: Item)
    ensures Finds(AnalyzeItem(item), ItemBound(item), ItemGated(item))
  {
    MatcherFinds(item.matcher, item.field);
    if item.presence.Some? {
      if item.presence.value { assert item.presence == Some(true); } else { assert item.presence == Some(false); }
    }
  }

  // ----- Detections, conditions and rules -----

  lemma AllItemsFind(items: seq<Item>)
    ensures Finds(AnalyzeDetection(AllItems(items)), DetectionBound(AllItems(items)), DetectionGated(AllItems(items)))
  {
    var parts := seq(|items|, i requires 0 <= i < |items| => AnalyzeItem(items[i]));
    var bound := seq(|items|, i requires 0 <= i < |items| => ItemBound(items[i]));
    var gated := seq(|items|, i requires 0 <= i < |items| => ItemGated(items[i]));
    forall i | 0 <= i < |items| ensures Finds(parts[i], bound[i], gated[i]) { ItemFinds(items[i]); }
    CombineFinds(GroupAll, parts, bound, gated);
    assert AnyTrue(gated) <==> exists i | 0 <= i < |items| :: ItemGated(items[i]) by {
      if i :| 0 <= i < |items| && ItemGated(items[i]) { assert gated[i]; }
    }
    if items == [] { assert parts == []; }
  }

  function DetectionBounds(dets: seq<CompiledDetection>): (r: seq<bool>)
    ensures |r| == |dets| && forall i | 0 <= i < |dets| :: r[i] == DetectionBound(dets[i])
  {
    seq(|dets|, i requires 0 <= i < |dets| => DetectionBound(dets[i]))
  }

  function DetectionGates(dets: seq<CompiledDetection>): (r: seq<bool>)
    ensures |r| == |dets| && forall i | 0 <= i < |dets| :: r[i] == DetectionGated(dets[i])
  {
    seq(|dets|, i requires 0 <= i < |dets| => DetectionGated(dets[i]))
  }

  function DetectionParts(dets: seq<CompiledDetection>): (r: seq<Analysis>)
    ensures |r| == |dets| && forall i | 0 <= i < |dets| :: r[i] == AnalyzeDetection(dets[i])
  {
    seq(|dets|, i requires 0 <= i < |dets| => AnalyzeDetection(dets[i]))
  }

  lemma DetectionsAre(dets: seq<CompiledDetection>)
    ensures AllTrue(DetectionBounds(dets)) <==> forall i | 0 <= i < |dets| :: DetectionBound(dets[i])
    ensures AnyTrue(DetectionGates(dets)) <==> exists i | 0 <= i < |dets| :: DetectionGated(dets[i])
  {
    if i :| 0 <= i < |dets| && DetectionGated(dets[i]) { assert DetectionGates(dets)[i]; }
    if AllTrue(DetectionBounds(dets)) {
      forall i | 0 <= i < |dets| ensures DetectionBound(dets[i]) { assert DetectionBounds(dets)[i]; }
    }
  }

  lemma DetectionListIs(d: CompiledDetection)
    requires d.AnyDetection? || d.AndDetection?
    ensures var any, dets := d.AnyDetection?, d.dets;
            && (dets != [] ==> AnalyzeDetection(d) == Combine(if any then GroupAny else GroupAll, DetectionParts(dets)))
            && (dets == [] ==> AnalyzeDetection(d).Open?)
            && DetectionGated(d) == (AnyTrue(DetectionGates(dets)) && (any ==> AllTrue(DetectionBounds(dets))))
            && DetectionBound(d) == if any then dets != [] && AllTrue(DetectionBounds(dets)) else AnyTrue(DetectionGates(dets))
  {
    DetectionsAre(d.dets);
  }

  lemma {:induction false} DetectionFinds(d: CompiledDetection)
    ensures Finds(AnalyzeDetection(d), DetectionBound(d), DetectionGated(d))
    decreases d
  {
    match d
    case AllItems(items) => AllItemsFind(items);
    case Keywords(m) => MatcherFinds(m, None);
    case ArrayMatch(_, _, _) =>
    case Conditional(_) =>
    case _ =>
      var dets := d.dets;
      forall i | 0 <= i < |dets|
        ensures Finds(DetectionParts(dets)[i], DetectionBounds(dets)[i], DetectionGates(dets)[i])
      {
        DetectionFinds(dets[i]);
      }
      CombineFinds(if d.AnyDetection? then GroupAny else GroupAll, DetectionParts(dets), DetectionBounds(dets), DetectionGates(dets));
      DetectionListIs(d);
  }

  /** What is known of the selected detections among the first `n`. */
  lemma {:induction false} SelectedFind(named: seq<NamedDetection>, pattern: SigmaIr.SelectorPattern, n: nat)
    requires n <= |named|
    ensures AllKnown(AnalyzeSelected(named, pattern, n))
            <==> forall i | 0 <= i < n :: Selects(pattern, named, i) ==> DetectionBound(named[i].det)
    ensures AnyOffers(AnalyzeSelected(named, pattern, n))
            <==> exists i | 0 <= i < n :: Selects(pattern, named, i) && DetectionGated(named[i].det)
  {
    if n > 0 {
      SelectedFind(named, pattern, n - 1);
      DetectionFinds(named[n - 1].det);
      OneMore(AnalyzeSelected(named, pattern, n - 1), AnalyzeDetection(named[n - 1].det));
    }
  }

  lemma SelectorFinds(q: SigmaIr.Quantifier, pattern: SigmaIr.SelectorPattern, named: seq<NamedDetection>)
    ensures var c := SigmaIr.Selector(q, pattern);
            Finds(AnalyzeCondition(c, named), ConditionBound(c, named), ConditionGated(c, named))
  {
    var parts := AnalyzeSelected(named, pattern, |named|);
    SelectedFind(named, pattern, |named|);
    CombinationsFind(parts);
  }

  function ConditionBounds(cs: seq<SigmaIr.Condition>, named: seq<NamedDetection>): (r: seq<bool>)
    ensures |r| == |cs| && forall i | 0 <= i < |cs| :: r[i] == ConditionBound(cs[i], named)
  {
    seq(|cs|, i requires 0 <= i < |cs| => ConditionBound(cs[i], named))
  }

  function ConditionGates(cs: seq<SigmaIr.Condition>, named: seq<NamedDetection>): (r: seq<bool>)
    ensures |r| == |cs| && forall i | 0 <= i < |cs| :: r[i] == ConditionGated(cs[i], named)
  {
    seq(|cs|, i requires 0 <= i < |cs| => ConditionGated(cs[i], named))
  }

  function ConditionParts(cs: seq<SigmaIr.Condition>, named: seq<NamedDetection>): (r: seq<Analysis>)
    ensures |r| == |cs| && forall i | 0 <= i < |cs| :: r[i] == AnalyzeCondition(cs[i], named)
  {
    seq(|cs|, i requires 0 <= i < |cs| => AnalyzeCondition(cs[i], named))
  }

  lemma ConditionsAre(cs: seq<SigmaIr.Condition>, named: seq<NamedDetection>)
    ensures AllTrue(ConditionBounds(cs, named)) <==> forall i | 0 <= i < |cs| :: ConditionBound(cs[i], named)
    ensures AnyTrue(ConditionGates(cs, named)) <==> exists i | 0 <= i < |cs| :: ConditionGated(cs[i], named)
  {
    if i :| 0 <= i < |cs| && ConditionGated(cs[i], named) { assert ConditionGates(cs, named)[i]; }
    if AllTrue(ConditionBounds(cs, named)) {
      forall i | 0 <= i < |cs| ensures ConditionBound(cs[i], named) { assert ConditionBounds(cs, named)[i]; }
    }
  }

  lemma {:induction false} ConditionFinds(c: SigmaIr.Condition, named: seq<NamedDetection>)
    ensures Finds(AnalyzeCondition(c, named), ConditionBound(c, named), ConditionGated(c, named))
    decreases c
  {
    match c
    case Named(name) => if Lookup(named, name).Some? { DetectionFinds(named[Lookup(named, name).value].det); }
    case CondAnd(cs) => ConditionListFinds(c, cs, GroupAll, named);
    case CondOr(cs) => ConditionListFinds(c, cs, GroupAny, named);
    case CondNot(_) =>
    case Selector(q, pattern) => SelectorFinds(q, pattern, named);
  }

  lemma {:induction false} ConditionListFinds(c: SigmaIr.Condition, cs: seq<SigmaIr.Condition>, mode: GroupMode, named: seq<NamedDetection>)
    requires c == if mode == GroupAny then SigmaIr.CondOr(cs) else SigmaIr.CondAnd(cs)
    ensures Finds(AnalyzeCondition(c, named), ConditionBound(c, named), ConditionGated(c, named))
    decreases c, 0
  {
    forall i | 0 <= i < |cs|
      ensures Finds(ConditionParts(cs, named)[i], ConditionBounds(cs, named)[i], ConditionGates(cs, named)[i])
    {
      ConditionFinds(cs[i], named);
    }
    CombineFinds(mode, ConditionParts(cs, named), ConditionBounds(cs, named), ConditionGates(cs, named));
    ConditionsAre(cs, named);
    ConditionListIs(c, cs, mode, named);
  }

  lemma ConditionListIs(c: SigmaIr.Condition, cs: seq<SigmaIr.Condition>, mode: GroupMode, named: seq<NamedDetection>)
    requires c == if mode == GroupAny then SigmaIr.CondOr(cs) else SigmaIr.CondAnd(cs)
    ensures AnalyzeCondition(c, named) == Combine(mode, ConditionParts(cs, named))
  {
  }

  lemma ConditionsFind(cs: seq<SigmaIr.Condition>, named: seq<NamedDetection>)
    ensures Finds(Combine(GroupAny, ConditionParts(cs, named)), AllTrue(ConditionBounds(cs, named)),
                  AllTrue(ConditionBounds(cs, named)) && AnyTrue(ConditionGates(cs, named)))
  {
    forall i | 0 <= i < |cs|
      ensures Finds(ConditionParts(cs, named)[i], ConditionBounds(cs, named)[i], ConditionGates(cs, named)[i])
    {
      ConditionFinds(cs[i], named);
    }
    CombineFinds(GroupAny, ConditionParts(cs, named), ConditionBounds(cs, named), ConditionGates(cs, named));
  }

  lemma RuleIs(r: Rule)
    ensures var a := Combine(GroupAny, ConditionParts(r.conditions, r.detections));
            AnalyzeRule(r) == if r.conditions == [] || a.Open? || a.ws == [] then Open else Known(Dedup(a.ws))
  {
    var parts := seq(|r.conditions|, i requires 0 <= i < |r.conditions| => AnalyzeCondition(r.conditions[i], r.detections));
    assert ConditionParts(r.conditions, r.detections) == parts;
  }

  /** Main result: a rule has a gate exactly when its shape says so. */
  lemma RuleGatedExactly(r: Rule)
    ensures AnalyzeRule(r).Known? <==> RuleGated(r)
    ensures AnalyzeRule(r).Known? ==> AnalyzeRule(r).ws != []
  {
    RuleIs(r);
    ConditionsFind(r.conditions, r.detections);
    ConditionsAre(r.conditions, r.detections);
    var a := Combine(GroupAny, ConditionParts(r.conditions, r.detections));
    if a.Known? && a.ws != [] { assert a.ws[0] in Dedup(a.ws); }
  }

  // ----- Which witnesses gate it -----

  /** An OR has the witnesses of all its branches. */
  lemma {:induction false} OrWitnesses(parts: seq<Analysis>, n: nat, w: Witness)
    requires n <= |parts| && OrCombine(parts, n).Known?
    ensures w in OrCombine(parts, n).ws <==> exists k | 0 <= k < n :: parts[k].Known? && w in parts[k].ws
  {
    if n > 0 { OrWitnesses(parts, n - 1, w); }
  }

  /** An AND has those of the first of its most selective branches. */
  predicate Chosen(parts: seq<Analysis>, n: nat, k: nat)
    requires n <= |parts|
  {
    && k < n && Offers(parts[k])
    && (forall j | 0 <= j < n && Offers(parts[j]) :: !Better(parts[j].ws, parts[k].ws))
    && (forall j | 0 <= j < k && Offers(parts[j]) :: Better(parts[k].ws, parts[j].ws))
  }

  lemma {:induction false} AndChooses(parts: seq<Analysis>, n: nat) returns (k: nat)
    requires n <= |parts| && AndCombine(parts, n).Known?
    ensures Chosen(parts, n, k) && AndCombine(parts, n) == parts[k]
  {
    var last := parts[n - 1];
    if AndCombine(parts, n - 1).Open? {
      k := n - 1;
      FirstFind(parts, n - 1);
      assert forall j | 0 <= j < n - 1 :: parts[..n - 1][j] == parts[j] && !Offers(parts[..n - 1][j]);
    } else {
      k := AndChooses(parts, n - 1);
      if Offers(last) && Better(last.ws, parts[k].ws) {
        k := n - 1;
      }
    }
  }

  /** A conjunction is gated by its first most selective conjunct. */
  lemma ConjunctionKeepsBest(cs: seq<SigmaIr.Condition>, named: seq<NamedDetection>)
    requires ConditionGated(SigmaIr.CondAnd(cs), named)
    ensures exists k: nat :: Chosen(ConditionParts(cs, named), |cs|, k) && AnalyzeCondition(SigmaIr.CondAnd(cs), named) == AnalyzeCondition(cs[k], named)
  {
    ConditionFinds(SigmaIr.CondAnd(cs), named);
    ConditionListIs(SigmaIr.CondAnd(cs), cs, GroupAll, named);
    var k := AndChooses(ConditionParts(cs, named), |cs|);
  }

  /** A disjunction is gated by the witnesses of all its branches. */
  lemma DisjunctionKeepsAll(cs: seq<SigmaIr.Condition>, named: seq<NamedDetection>, w: Witness)
    requires ConditionGated(SigmaIr.CondOr(cs), named)
    ensures AnalyzeCondition(SigmaIr.CondOr(cs), named).Known? && forall k | 0 <= k < |cs| :: AnalyzeCondition(cs[k], named).Known?
    ensures w in AnalyzeCondition(SigmaIr.CondOr(cs), named).ws <==> exists k | 0 <= k < |cs| :: w in AnalyzeCondition(cs[k], named).ws
  {
    ConditionFinds(SigmaIr.CondOr(cs), named);
    ConditionListIs(SigmaIr.CondOr(cs), cs, GroupAny, named);
    CombinationsFind(ConditionParts(cs, named));
    OrWitnesses(ConditionParts(cs, named), |cs|, w);
    assert forall k | 0 <= k < |cs| :: ConditionParts(cs, named)[k] == AnalyzeCondition(cs[k], named);
  }

  /** A detection of several items is gated by its first most selective item. */
  lemma ItemsKeepBest(items: seq<Item>)
    requires DetectionGated(AllItems(items))
    ensures var parts := seq(|items|, i requires 0 <= i < |items| => AnalyzeItem(items[i]));
            exists k: nat :: Chosen(parts, |items|, k) && AnalyzeDetection(AllItems(items)) == AnalyzeItem(items[k])
  {
    var parts := seq(|items|, i requires 0 <= i < |items| => AnalyzeItem(items[i]));
    AllItemsFind(items);
    var k := AndChooses(parts, |items|);
  }

  /** A conjunction of detections by its first most selective one, and a list of alternatives by all. */
  lemma DetectionsKeep(d: CompiledDetection, w: Witness)
    requires (d.AnyDetection? || d.AndDetection?) && DetectionGated(d)
    ensures d.AndDetection? ==> exists k: nat :: Chosen(DetectionParts(d.dets), |d.dets|, k) && AnalyzeDetection(d) == AnalyzeDetection(d.dets[k])
    ensures d.AnyDetection? ==> AnalyzeDetection(d).Known? && (w in AnalyzeDetection(d).ws
                                 <==> exists k | 0 <= k < |d.dets| :: AnalyzeDetection(d.dets[k]).Known? && w in AnalyzeDetection(d.dets[k]).ws)
  {
    var parts := DetectionParts(d.dets);
    DetectionFinds(d);
    DetectionListIs(d);
    if d.AndDetection? {
      var k := AndChooses(parts, |parts|);
    } else {
      OrWitnesses(parts, |parts|, w);
      assert forall k | 0 <= k < |parts| :: parts[k] == AnalyzeDetection(d.dets[k]);
    }
  }

  /** The order of selectivity, best first, and that a set is as good as its worst member. */
  lemma SelectivityOrder(f: string, v: string, long: string, short: string)
    requires RegexLiterals.ByteLen(long) >= 8 > RegexLiterals.ByteLen(short)
    ensures Rank(ExactIs(f, v)) < Rank(Substring(f, long)) < Rank(Substring(f, short))
            < Rank(Keyword(long)) < Rank(Keyword(short)) < Rank(Presence(f))
  {
  }

  lemma {:induction false} WorstIs(ws: seq<Witness>)
    requires ws != []
    ensures forall w | w in ws :: Rank(w) <= WorstRank(ws)
    ensures exists w | w in ws :: Rank(w) == WorstRank(ws)
  {
    if |ws| > 1 {
      WorstIs(ws[1..]);
      assert ws == [ws[0]] + ws[1..];
      var w :| w in ws[1..] && Rank(w) == WorstRank(ws[1..]);
      assert ws[0] in ws && w in ws;
    } else {
      assert ws[0] in ws;
    }
  }

  /** The witness of one text comparison: equality or a substring of the field, or a keyword, in folded form. */
  lemma LeafWitness(op: SigmaIr.StrOp, value: string, ci: bool, f: string)
    requires Foldable(value, ci)
    ensures var folded := if ci then value else AsciiLower(value);
            && AnalyzeItem(Item(Some(f), StrMatch(op, value, ci), None))
               == Known([if op == SigmaIr.Exact then ExactIs(f, folded) else Substring(f, folded)])
            && AnalyzeItem(Item(None, StrMatch(op, value, ci), None)) == Known([Keyword(folded)])
  {
  }

  /** An item that gives no literal, or only asks for it, is gated on its field being present. */
  lemma PresenceWitness(f: string, m: CompiledMatcher, presence: Option<bool>)
    requires ItemGated(Item(Some(f), m, presence)) && (presence.Some? || !MatcherGated(m))
    ensures AnalyzeItem(Item(Some(f), m, presence)) == Known([Presence(f)])
  {
    MatcherFinds(m, Some(f));
    if presence.Some? && presence.value { assert presence == Some(true); }
  }

  /** A field item that gives literals is gated by them. */
  lemma ValueWitness(f: string, m: CompiledMatcher)
    requires MatcherGated(m) && !MatchesAbsent(m)
    ensures AnalyzeItem(Item(Some(f), m, None)) == AnalyzeMatcher(m, Some(f))
  {
    MatcherFinds(m, Some(f));
  }
}
