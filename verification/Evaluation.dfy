/**
  Evaluation of compiled rules against JSON events (`crates/rsigma-eval/src/matcher/matching.rs`,
  `crates/rsigma-eval/src/compiler/mod.rs`).
 */
module Evaluation {
  import opened Results
  import opened FieldPaths
  import opened Folding
  import SigmaIr
  import Quantifiers
  import RegexLiterals

  datatype GroupMode = GroupAny | GroupAll

  datatype CompiledMatcher =
    | StrMatch(op: SigmaIr.StrOp, value: string, caseInsensitive: bool)
    | NeedleSet(needles: seq<string>, caseInsensitive: bool)
    | RegexMatch(re: RegexLiterals.Regex)
    | RegexSet(patterns: seq<RegexLiterals.Regex>, mode: GroupMode)
    /** Numeric, network, boolean, field-reference and template comparisons. */
    | Verdict(id: nat)
    | Exists(present: bool)
    | Null
    | TimestampPart(part: nat, inner: CompiledMatcher)
    | Not(inner: CompiledMatcher)
    | AnyOf(children: seq<CompiledMatcher>)
    | AllOf(children: seq<CompiledMatcher>)
    | CaseInsensitiveGroup(children: seq<CompiledMatcher>, mode: GroupMode)

  datatype Item = Item(field: Option<string>, matcher: CompiledMatcher, presence: Option<bool>)

  datatype CompiledDetection =
    | AllItems(items: seq<Item>)
    | AnyDetection(dets: seq<CompiledDetection>)
    | AndDetection(dets: seq<CompiledDetection>)
    | Keywords(matcher: CompiledMatcher)
    | ArrayMatch(field: string, quantifier: SigmaIr.ArrayQuantifier, body: nat)
    | Conditional(block: nat)

  datatype NamedDetection = NamedDetection(name: string, det: CompiledDetection)

  datatype Rule = Rule(detections: seq<NamedDetection>, conditions: seq<SigmaIr.Condition>, product: Option<string>)

  /**
    An event and the library behaviour evaluation calls on: case folding, regex internals, the
    comparisons outside this model, time components, and array and block bodies.
   */
  datatype Event = Event(
    root: Json,
    fold: string -> string,
    regex: RegexLiterals.Oracle,
    verdict: (nat, Json) -> bool,
    component: (nat, Json) -> Option<Json>,
    memberHolds: (nat, Json) -> bool,
    blockHolds: nat -> bool)

  // ----- Strings of a value and of an event -----

  /** The string forms a matcher compares against: scalars as text, arrays member by member. */
  function Projections(v: Json): seq<string>
    decreases v, 0
  {
    match v
    case JStr(s) => [s]
    case JNum(t, _) => [t]
    case JBool(b) => [if b then "true" else "false"]
    case JArr(items) => ProjectionsOf(items, |items|)
    case _ => []
  }

  function ProjectionsOf(items: seq<Json>, n: nat): seq<string>
    requires n <= |items|
    decreases items, n
  {
    if n == 0 then [] else ProjectionsOf(items, n - 1) + Projections(items[n - 1])
  }

  /** Every string of an event, numbers as their JSON text, down to `depth` levels. */
  function StringsOf(v: Json, depth: nat): seq<string>
    decreases depth, v, 0
  {
    if depth == 0 then []
    else match v
      case JStr(s) => [s]
      case JNum(_, t) => [t]
      case JObj(entries) => EntryStrings(entries, |entries|, depth - 1)
      case JArr(items) => ItemStrings(items, |items|, depth - 1)
      case _ => []
  }

  function EntryStrings(entries: seq<Entry>, n: nat, depth: nat): seq<string>
    requires n <= |entries|
    decreases depth, entries, n
  {
    if n == 0 then [] else EntryStrings(entries, n - 1, depth) + StringsOf(entries[n - 1].value, depth)
  }

  function ItemStrings(items: seq<Json>, n: nat, depth: nat): seq<string>
    requires n <= |items|
    decreases depth, items, n
  {
    if n == 0 then [] else ItemStrings(items, n - 1, depth) + StringsOf(items[n - 1], depth)
  }

  const MAX_NESTING_DEPTH := 64

  function StringValues(e: Event): seq<string> {
    StringsOf(e.root, MAX_NESTING_DEPTH)
  }

  // ----- Matchers -----

  ghost predicate Compare(op: SigmaIr.StrOp, s: string, value: string) {
    match op
    case Exact => s == value
    case Contains => Infix(value, s)
    case StartsWith => value <= s
    case EndsWith => SigmaIr.HasSuffix(s, value)
  }

  ghost predicate RegexSetHolds(rs: seq<RegexLiterals.Regex>, mode: GroupMode, s: string, e: Event) {
    if mode == GroupAny then exists i | 0 <= i < |rs| :: RegexLiterals.IsMatch(rs[i], s, e.regex)
    else forall i | 0 <= i < |rs| :: RegexLiterals.IsMatch(rs[i], s, e.regex)
  }

  /** A group matches text that was folded once for all its children. */
  ghost predicate MatchesLowered(m: CompiledMatcher, s: string, e: Event)
    decreases m
  {
    match m
    case StrMatch(op, value, ci) => ci && Compare(op, s, value)
    case NeedleSet(needles, ci) => ci && exists i | 0 <= i < |needles| :: Infix(needles[i], s)
    case RegexMatch(re) => RegexLiterals.IsMatch(re, s, e.regex)
    case RegexSet(rs, mode) => RegexSetHolds(rs, mode, s, e)
    case Not(inner) => !MatchesLowered(inner, s, e)
    case AnyOf(cs) => exists i | 0 <= i < |cs| :: MatchesLowered(cs[i], s, e)
    case AllOf(cs) => forall i | 0 <= i < |cs| :: MatchesLowered(cs[i], s, e)
    case CaseInsensitiveGroup(cs, mode) =>
      if mode == GroupAny then exists i | 0 <= i < |cs| :: MatchesLowered(cs[i], s, e)
      else forall i | 0 <= i < |cs| :: MatchesLowered(cs[i], s, e)
    case _ => false
  }

  /** One string of a value or of the event; comparisons on whole values never hold here. */
  ghost predicate MatchesStr(m: CompiledMatcher, s: string, e: Event)
    decreases m
  {
    match m
    case StrMatch(op, value, ci) => Compare(op, if ci then e.fold(s) else s, value)
    case NeedleSet(needles, ci) => exists i | 0 <= i < |needles| :: Infix(needles[i], if ci then e.fold(s) else s)
    case RegexMatch(re) => RegexLiterals.IsMatch(re, s, e.regex)
    case RegexSet(rs, mode) => RegexSetHolds(rs, mode, s, e)
    case Not(inner) => !MatchesStr(inner, s, e)
    case AnyOf(cs) => exists i | 0 <= i < |cs| :: MatchesStr(cs[i], s, e)
    case AllOf(cs) => forall i | 0 <= i < |cs| :: MatchesStr(cs[i], s, e)
    case CaseInsensitiveGroup(_, _) => MatchesLowered(m, e.fold(s), e)
    case _ => false
  }

  ghost predicate SomeProjection(m: CompiledMatcher, v: Json, e: Event) {
    exists i | 0 <= i < |Projections(v)| :: MatchesStr(m, Projections(v)[i], e)
  }

  ghost predicate Matches(m: CompiledMatcher, v: Json, e: Event)
    decreases m, v
  {
    match m
    case Verdict(id) => e.verdict(id, v)
    case Exists(present) => present
    case Null => v.JNull?
    case TimestampPart(part, inner) =>
      if v.JArr? then exists i | 0 <= i < |v.items| :: Matches(m, v.items[i], e)
      else (match e.component(part, v)
            case Some(n) => Matches(inner, n, e)
            case None => false)
    case Not(inner) => !Matches(inner, v, e)
    case AnyOf(cs) => exists i | 0 <= i < |cs| :: Matches(cs[i], v, e)
    case AllOf(cs) => forall i | 0 <= i < |cs| :: Matches(cs[i], v, e)
    case _ => SomeProjection(m, v, e)
  }

  /** Whether the matcher holds for a field the event does not have. */
  predicate MatchesAbsent(m: CompiledMatcher)
    decreases m
  {
    match m
    case Null => true
    case Exists(present) => !present
    case Not(inner) => !MatchesAbsent(inner)
    case AnyOf(cs) => exists i | 0 <= i < |cs| :: MatchesAbsent(cs[i])
    case AllOf(cs) => forall i | 0 <= i < |cs| :: MatchesAbsent(cs[i])
    case _ => false
  }

  /** `all` needs each child somewhere in the event, not all in one string. */
  ghost predicate MatchesKeyword(m: CompiledMatcher, e: Event)
    decreases m
  {
    if m.AllOf? || (m.CaseInsensitiveGroup? && m.mode == GroupAll) then
      forall i | 0 <= i < |m.children| :: MatchesKeyword(m.children[i], e)
    else if m.Not? then !MatchesKeyword(m.inner, e)
    else exists i | 0 <= i < |StringValues(e)| :: MatchesStr(m, StringValues(e)[i], e)
  }

  // ----- Detections and conditions -----

  ghost predicate ItemHolds(item: Item, e: Event) {
    match item.presence
    case Some(wanted) =>
      (match item.field
       case Some(f) => GetField(e.root, f).Some? == wanted
       case None => !wanted)
    case None =>
      (match item.field
       case Some(f) =>
         (match GetField(e.root, f)
          case Some(v) => Matches(item.matcher, v, e)
          case None => MatchesAbsent(item.matcher))
       case None => MatchesKeyword(item.matcher, e))
  }

  /** Members of a resolved array field; a scalar counts as one member and null as none. */
  function MembersOf(v: Option<Json>): seq<Json> {
    match v
    case None => []
    case Some(JNull) => []
    case Some(JArr(items)) => items
    case Some(single) => [single]
  }

  predicate QuantifierHolds(q: SigmaIr.ArrayQuantifier, body: nat, members: seq<Json>, e: Event) {
    match q
    case ArrayAny => exists i | 0 <= i < |members| :: e.memberHolds(body, members[i])
    case ArrayAll => |members| > 0 && forall i | 0 <= i < |members| :: e.memberHolds(body, members[i])
    case ArrayAllOrEmpty => forall i | 0 <= i < |members| :: e.memberHolds(body, members[i])
    case ArrayNone => !exists i | 0 <= i < |members| :: e.memberHolds(body, members[i])
  }

  ghost predicate DetectionHolds(d: CompiledDetection, e: Event)
    decreases d
  {
    match d
    case AllItems(items) => forall i | 0 <= i < |items| :: ItemHolds(items[i], e)
    case AnyDetection(dets) => exists i | 0 <= i < |dets| :: DetectionHolds(dets[i], e)
    case AndDetection(dets) => forall i | 0 <= i < |dets| :: DetectionHolds(dets[i], e)
    case Keywords(m) => MatchesKeyword(m, e)
    case ArrayMatch(f, q, body) => QuantifierHolds(q, body, MembersOf(GetField(e.root, f)), e)
    case Conditional(block) => e.blockHolds(block)
  }

  function Lookup(named: seq<NamedDetection>, name: string): (r: Option<nat>)
    ensures r.Some? ==> r.value < |named| && named[r.value].name == name
    ensures r.None? ==> forall i | 0 <= i < |named| :: named[i].name != name
  {
    if |named| == 0 then None
    else if named[|named| - 1].name == name then Some(|named| - 1)
    else Lookup(named[..|named| - 1], name)
  }

  predicate Selects(pattern: SigmaIr.SelectorPattern, named: seq<NamedDetection>, i: nat)
    requires i < |named|
  {
    SigmaIr.MatchesDetectionName(pattern, named[i].name)
  }

  /** Number of selected detections among the first `n` that hold. */
  ghost function CountHolding(named: seq<NamedDetection>, pattern: SigmaIr.SelectorPattern, e: Event, n: nat): nat
    requires n <= |named|
  {
    if n == 0 then 0
    else CountHolding(named, pattern, e, n - 1)
         + (if Selects(pattern, named, n - 1) && DetectionHolds(named[n - 1].det, e) then 1 else 0)
  }

  ghost function Holding(named: seq<NamedDetection>, pattern: SigmaIr.SelectorPattern, e: Event, n: nat): set<nat>
    requires n <= |named|
  {
    set i: nat | i < n && Selects(pattern, named, i) && DetectionHolds(named[i].det, e)
  }

  lemma HoldingNext(named: seq<NamedDetection>, pattern: SigmaIr.SelectorPattern, e: Event, n: nat)
    requires n < |named|
    ensures Holding(named, pattern, e, n + 1)
            == Holding(named, pattern, e, n) + (if Selects(pattern, named, n) && DetectionHolds(named[n].det, e) then {n} else {})
  {
  }

  /** The count is that of the selected detections that hold, each once. */
  lemma {:induction false} CountIs(named: seq<NamedDetection>, pattern: SigmaIr.SelectorPattern, e: Event, n: nat)
    requires n <= |named|
    ensures CountHolding(named, pattern, e, n) == |Holding(named, pattern, e, n)|
  {
    if n > 0 {
      var last: nat := n - 1;
      CountIs(named, pattern, e, last);
      HoldingNext(named, pattern, e, last);
    }
  }

  ghost predicate ConditionHolds(c: SigmaIr.Condition, named: seq<NamedDetection>, e: Event)
    decreases c
  {
    match c
    case Named(name) => Lookup(named, name).Some? && DetectionHolds(named[Lookup(named, name).value].det, e)
    case CondAnd(cs) => forall i | 0 <= i < |cs| :: ConditionHolds(cs[i], named, e)
    case CondOr(cs) => exists i | 0 <= i < |cs| :: ConditionHolds(cs[i], named, e)
    case CondNot(inner) => !ConditionHolds(inner, named, e)
    case Selector(q, pattern) =>
      (match q
       case QAny => exists i | 0 <= i < |named| :: Selects(pattern, named, i) && DetectionHolds(named[i].det, e)
       case QAll => forall i | 0 <= i < |named| :: Selects(pattern, named, i) ==> DetectionHolds(named[i].det, e)
       case QCount(n) => CountHolding(named, pattern, e, |named|) >= n)
  }

  ghost predicate RuleHolds(r: Rule, e: Event) {
    exists i | 0 <= i < |r.conditions| :: ConditionHolds(r.conditions[i], r.detections, e)
  }

  // ----- What the cases mean together -----

  /** Array quantifiers count the members that hold; of none, only `all_or_empty` and `none` hold. */
  lemma QuantifiersCount(q: SigmaIr.ArrayQuantifier, body: nat, members: seq<Json>, e: Event)
    ensures var bits := seq(|members|, i requires 0 <= i < |members| => e.memberHolds(body, members[i]));
            var hits := Quantifiers.Hits(bits);
            QuantifierHolds(q, body, members, e) <==> match q
              case ArrayAny => hits > 0
              case ArrayAll => hits == |members| > 0
              case ArrayAllOrEmpty => hits == |members|
              case ArrayNone => hits == 0
  {
    var bits := seq(|members|, i requires 0 <= i < |members| => e.memberHolds(body, members[i]));
    Quantifiers.HitsAre(bits);
    assert forall i | 0 <= i < |members| :: bits[i] == e.memberHolds(body, members[i]);
  }

  /** A negated matcher holds exactly where the matcher does not, on fields that are there or not and on events. */
  lemma NegatedItem(field: Option<string>, m: CompiledMatcher, e: Event)
    ensures ItemHolds(Item(field, Not(m), None), e) <==> !ItemHolds(Item(field, m, None), e)
  {
  }

  /** A null value and a missing field are the same to a null check. */
  lemma NullItem(f: string, e: Event)
    ensures ItemHolds(Item(Some(f), Null, None), e) <==> GetField(e.root, f) in [None, Some(JNull)]
  {
  }

  /** A rule with more conditions holds wherever it held, and where one of the new ones does. */
  lemma MoreConditions(r: Rule, more: seq<SigmaIr.Condition>, e: Event)
    ensures RuleHolds(r.(conditions := r.conditions + more), e) <==> RuleHolds(r, e) || RuleHolds(r.(conditions := more), e)
  {
    var all := r.conditions + more;
    assert forall i | 0 <= i < |r.conditions| :: all[i] == r.conditions[i];
    assert forall i | 0 <= i < |more| :: all[|r.conditions| + i] == more[i];
  }
}
