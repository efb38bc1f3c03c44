/**
  Necessary conditions for a rule to match (`crates/rsigma-eval/src/witness.rs`): whenever a rule
  matches an event, one of its witnesses holds on that event.
 */
module Witnesses {
  import opened Results
  import opened FieldPaths
  import opened Folding
  import opened Evaluation
  import SigmaIr
  import RegexLiterals
  import Unicode

  datatype Witness =
    | ExactIs(field: string, value: string)
    | Substring(field: string, needle: string)
    | Keyword(needle: string)
    | Presence(field: string)

  const LONG_LITERAL := 8

  function Rank(w: Witness): nat {
    match w
    case ExactIs(_, _) => 0
    case Substring(_, needle) => if RegexLiterals.ByteLen(needle) >= LONG_LITERAL then 1 else 2
    case Keyword(needle) => if RegexLiterals.ByteLen(needle) >= LONG_LITERAL then 3 else 4
    case Presence(_) => 5
  }

  datatype Analysis = Open | Known(ws: seq<Witness>)

  // ----- Combinators -----

  /** OR over the first `n` parts: one open branch opens the disjunction. */
  function OrCombine(parts: seq<Analysis>, n: nat): Analysis
    requires n <= |parts|
  {
    if n == 0 then Known([])
    else
      var before := OrCombine(parts, n - 1);
      if before.Open? || parts[n - 1].Open? then Open else Known(before.ws + parts[n - 1].ws)
  }

  function WorstRank(ws: seq<Witness>): nat {
    if |ws| == 0 then 255
    else if |ws| == 1 then Rank(ws[0])
    else
      var rest := WorstRank(ws[1..]);
      if Rank(ws[0]) > rest then Rank(ws[0]) else rest
  }

  predicate Better(a: seq<Witness>, b: seq<Witness>) {
    WorstRank(a) < WorstRank(b) || (WorstRank(a) == WorstRank(b) && |a| < |b|)
  }

  /** AND over the first `n` parts: the most selective non-empty witness set. */
  function AndCombine(parts: seq<Analysis>, n: nat): Analysis
    requires n <= |parts|
  {
    if n == 0 then Open
    else
      var best, part := AndCombine(parts, n - 1), parts[n - 1];
      if part.Open? || part.ws == [] then best
      else if best.Open? || Better(part.ws, best.ws) then part
      else best
  }

  method OrCombineLoop(parts: seq<Analysis>) returns (r: Analysis)
    ensures r == OrCombine(parts, |parts|)
  {
    var union: seq<Witness> := [];
    for i := 0 to |parts|
      invariant OrCombine(parts, i) == Known(union)
    {
      if parts[i].Open? {
        OpenStays(parts, i + 1, |parts|);
        return Open;
      }
      union := union + parts[i].ws;
    }
    return Known(union);
  }

  lemma {:induction false} OpenStays(parts: seq<Analysis>, k: nat, n: nat)
    requires k <= n <= |parts| && OrCombine(parts, k).Open?
    ensures OrCombine(parts, n).Open?
  {
    if k < n { OpenStays(parts, k, n - 1); }
  }

  method AndCombineLoop(parts: seq<Analysis>) returns (r: Analysis)
    ensures r == AndCombine(parts, |parts|)
  {
    var best := Open;
    for i := 0 to |parts|
      invariant best == AndCombine(parts, i)
    {
      if parts[i].Known? && parts[i].ws != [] {
        if best.Open? || Better(parts[i].ws, best.ws) {
          best := parts[i];
        }
      }
    }
    return best;
  }

  // ----- Matchers -----

  /** A literal in the index's folded form, when it can be folded faithfully. */
  function FoldLiteral(value: string, ci: bool): Option<string> {
    if value == [] then None
    else if ci then Some(value)
    else if IsAscii(value) then Some(AsciiLower(value))
    else None
  }

  function SubstringWitness(value: string, ci: bool, field: Option<string>): Analysis {
    match FoldLiteral(value, ci)
    case Some(needle) => Known([if field.Some? then Substring(field.value, needle) else Keyword(needle)])
    case None => Open
  }

  function LiteralWitnesses(values: seq<string>, ci: bool, field: Option<string>): (r: seq<Analysis>)
    ensures |r| == |values|
  {
    seq(|values|, i requires 0 <= i < |values| => SubstringWitness(values[i], ci, field))
  }

  function RegexWitness(re: RegexLiterals.Regex, field: Option<string>): Analysis {
    match RegexLiterals.MandatoryLiterals(re)
    case Some(ls) => OrCombine(LiteralWitnesses(ls, false, field), |ls|)
    case None => Open
  }

  function Combine(mode: GroupMode, parts: seq<Analysis>): Analysis {
    if mode == GroupAny then OrCombine(parts, |parts|) else AndCombine(parts, |parts|)
  }

  function AnalyzeMatcher(m: CompiledMatcher, field: Option<string>): Analysis
    decreases m
  {
    match m
    case StrMatch(op, value, ci) =>
      if op == SigmaIr.Exact && field.Some? then
        (match FoldLiteral(value, ci)
         case Some(v) => Known([ExactIs(field.value, v)])
         case None => Open)
      else SubstringWitness(value, ci, field)
    case NeedleSet(needles, ci) => OrCombine(LiteralWitnesses(needles, ci, field), |needles|)
    case RegexMatch(re) => RegexWitness(re, field)
    case RegexSet(rs, mode) => Combine(mode, seq(|rs|, i requires 0 <= i < |rs| => RegexWitness(rs[i], field)))
    case AnyOf(cs) => Combine(GroupAny, seq(|cs|, i requires 0 <= i < |cs| => AnalyzeMatcher(cs[i], field)))
    case AllOf(cs) => Combine(GroupAll, seq(|cs|, i requires 0 <= i < |cs| => AnalyzeMatcher(cs[i], field)))
    case CaseInsensitiveGroup(cs, mode) => Combine(mode, seq(|cs|, i requires 0 <= i < |cs| => AnalyzeMatcher(cs[i], field)))
    case _ => Open
  }

  // ----- Items, detections, conditions, rules -----

  function AnalyzeItem(item: Item): Analysis {
    match item.field
    case None => AnalyzeMatcher(item.matcher, None)
    case Some(f) =>
      if item.presence == Some(false) then Open
      else if item.presence == Some(true) then Known([Presence(f)])
      else if MatchesAbsent(item.matcher) then Open
      else
        var a := AnalyzeMatcher(item.matcher, item.field);
        if a.Known? && a.ws != [] then a else Known([Presence(f)])
  }

  function AnalyzeDetection(d: CompiledDetection): Analysis
    decreases d
  {
    match d
    case AllItems(items) =>
      if items == [] then Open
      else AndCombine(seq(|items|, i requires 0 <= i < |items| => AnalyzeItem(items[i])), |items|)
    case AnyDetection(dets) =>
      if dets == [] then Open
      else OrCombine(seq(|dets|, i requires 0 <= i < |dets| => AnalyzeDetection(dets[i])), |dets|)
    case AndDetection(dets) =>
      if dets == [] then Open
      else AndCombine(seq(|dets|, i requires 0 <= i < |dets| => AnalyzeDetection(dets[i])), |dets|)
    case Keywords(m) => AnalyzeMatcher(m, None)
    case ArrayMatch(f, q, _) => if q == SigmaIr.ArrayAny || q == SigmaIr.ArrayAll then Known([Presence(f)]) else Open
    case Conditional(_) => Open
  }

  /** Analyses of the selected detections among the first `n`. */
  function AnalyzeSelected(named: seq<NamedDetection>, pattern: SigmaIr.SelectorPattern, n: nat): seq<Analysis>
    requires n <= |named|
  {
    if n == 0 then []
    else if Selects(pattern, named, n - 1) then
      AnalyzeSelected(named, pattern, n - 1) + [AnalyzeDetection(named[n - 1].det)]
    else AnalyzeSelected(named, pattern, n - 1)
  }

  function AnalyzeCondition(c: SigmaIr.Condition, named: seq<NamedDetection>): Analysis
    decreases c
  {
    match c
    case Named(name) =>
      (match Lookup(named, name)
       case Some(i) => AnalyzeDetection(named[i].det)
       case None => Open)
    case CondAnd(cs) => AndCombine(seq(|cs|, i requires 0 <= i < |cs| => AnalyzeCondition(cs[i], named)), |cs|)
    case CondOr(cs) => OrCombine(seq(|cs|, i requires 0 <= i < |cs| => AnalyzeCondition(cs[i], named)), |cs|)
    case CondNot(_) => Open
    case Selector(q, pattern) =>
      var parts := AnalyzeSelected(named, pattern, |named|);
      if q == SigmaIr.QAll then AndCombine(parts, |parts|) else OrCombine(parts, |parts|)
  }

  /** Each witness once. */
  function Dedup(ws: seq<Witness>): (r: seq<Witness>)
    ensures forall w :: w in r <==> w in ws
    ensures forall i, j | 0 <= i < j < |r| :: r[i] != r[j]
  {
    if ws == [] then []
    else
      var before, last := Dedup(ws[..|ws| - 1]), ws[|ws| - 1];
      assert forall w :: w in ws <==> w in ws[..|ws| - 1] || w == last;
      if last in before then before else before + [last]
  }

  /** Open, or the witnesses of which one holds whenever the rule matches. */
  function AnalyzeRule(r: Rule): Analysis {
    if r.conditions == [] then Open
    else
      var a := OrCombine(seq(|r.conditions|, i requires 0 <= i < |r.conditions| => AnalyzeCondition(r.conditions[i], r.detections)), |r.conditions|);
      if a.Open? || a.ws == [] then Open else Known(Dedup(a.ws))
  }

  // ----- Soundness -----

  /** A literal witness holds on one folded string. */
  ghost predicate Caught(w: Witness, folded: string) {
    match w
    case ExactIs(_, value) => folded == value
    case Substring(_, needle) => Infix(needle, folded)
    case Keyword(needle) => Infix(needle, folded)
    case Presence(_) => false
  }

  ghost predicate WitnessHolds(w: Witness, e: Event) {
    match w
    case Presence(f) => GetField(e.root, f).Some?
    case Keyword(_) => exists i | 0 <= i < |StringValues(e)| :: Caught(w, e.fold(StringValues(e)[i]))
    case _ =>
      GetField(e.root, w.field).Some?
      && var ps := Projections(GetField(e.root, w.field).value);
         exists i | 0 <= i < |ps| :: Caught(w, e.fold(ps[i]))
  }

  ghost predicate SomeHolds(ws: seq<Witness>, e: Event) {
    exists i | 0 <= i < |ws| :: WitnessHolds(ws[i], e)
  }

  ghost predicate SomeCaught(ws: seq<Witness>, folded: string) {
    exists i | 0 <= i < |ws| :: Caught(ws[i], folded)
  }

  /** Literal witnesses of a field name that field; without one they are keywords. */
  predicate InScope(w: Witness, field: Option<string>) {
    match w
    case ExactIs(f, _) => field == Some(f)
    case Substring(f, _) => field == Some(f)
    case Keyword(_) => field == None
    case Presence(_) => false
  }

  lemma {:induction false} OrIncludes(parts: seq<Analysis>, n: nat, k: nat)
    requires k < n <= |parts| && OrCombine(parts, n).Known?
    ensures parts[k].Known? && forall w | w in parts[k].ws :: w in OrCombine(parts, n).ws
  {
    if k < n - 1 { OrIncludes(parts, n - 1, k); }
  }

  lemma {:induction false} AndPicks(parts: seq<Analysis>, n: nat) returns (k: nat)
    requires n <= |parts| && AndCombine(parts, n).Known?
    ensures k < n && parts[k] == AndCombine(parts, n) && parts[k].ws != []
  {
    if AndCombine(parts, n) == parts[n - 1] && parts[n - 1].Known? && parts[n - 1].ws != [] {
      k := n - 1;
    } else {
      k := AndPicks(parts, n - 1);
    }
  }

  lemma {:induction false} OrScope(parts: seq<Analysis>, n: nat, field: Option<string>)
    requires n <= |parts| && forall i | 0 <= i < |parts| && parts[i].Known? :: forall w | w in parts[i].ws :: InScope(w, field)
    ensures OrCombine(parts, n).Known? ==> forall w | w in OrCombine(parts, n).ws :: InScope(w, field)
  {
    if n > 0 { OrScope(parts, n - 1, field); }
  }

  lemma CombineScope(mode: GroupMode, parts: seq<Analysis>, field: Option<string>)
    requires forall i | 0 <= i < |parts| && parts[i].Known? :: forall w | w in parts[i].ws :: InScope(w, field)
    ensures Combine(mode, parts).Known? ==> forall w | w in Combine(mode, parts).ws :: InScope(w, field)
  {
    OrScope(parts, |parts|, field);
    if AndCombine(parts, |parts|).Known? {
      var k := AndPicks(parts, |parts|);
    }
  }

  lemma RegexScope(re: RegexLiterals.Regex, field: Option<string>)
    ensures RegexWitness(re, field).Known? ==> forall w | w in RegexWitness(re, field).ws :: InScope(w, field)
  {
    var ls := RegexLiterals.MandatoryLiterals(re);
    if ls.Some? { OrScope(LiteralWitnesses(ls.value, false, field), |ls.value|, field); }
  }

  lemma {:induction false} MatcherScope(m: CompiledMatcher, field: Option<string>)
    ensures AnalyzeMatcher(m, field).Known? ==> forall w | w in AnalyzeMatcher(m, field).ws :: InScope(w, field)
    decreases m
  {
    match m
    case NeedleSet(needles, ci) => OrScope(LiteralWitnesses(needles, ci, field), |needles|, field);
    case RegexMatch(re) => RegexScope(re, field);
    case RegexSet(rs, mode) =>
      forall i | 0 <= i < |rs| { RegexScope(rs[i], field); }
      CombineScope(mode, seq(|rs|, i requires 0 <= i < |rs| => RegexWitness(rs[i], field)), field);
    case AnyOf(cs) =>
      forall i | 0 <= i < |cs| { MatcherScope(cs[i], field); }
      CombineScope(GroupAny, seq(|cs|, i requires 0 <= i < |cs| => AnalyzeMatcher(cs[i], field)), field);
    case AllOf(cs) =>
      forall i | 0 <= i < |cs| { MatcherScope(cs[i], field); }
      CombineScope(GroupAll, seq(|cs|, i requires 0 <= i < |cs| => AnalyzeMatcher(cs[i], field)), field);
    case CaseInsensitiveGroup(cs, mode) =>
      forall i | 0 <= i < |cs| { MatcherScope(cs[i], field); }
      CombineScope(mode, seq(|cs|, i requires 0 <= i < |cs| => AnalyzeMatcher(cs[i], field)), field);
    case _ =>
  }

  /** If some (any) or every (all) part catches a string, so does the combination. */
  lemma CombineCatches(mode: GroupMode, parts: seq<Analysis>, folded: string)
    requires Combine(mode, parts).Known?
    requires if mode == GroupAny
             then exists i | 0 <= i < |parts| :: parts[i].Known? ==> SomeCaught(parts[i].ws, folded)
             else forall i | 0 <= i < |parts| && parts[i].Known? :: SomeCaught(parts[i].ws, folded)
    ensures SomeCaught(Combine(mode, parts).ws, folded)
  {
    if mode == GroupAny {
      var k :| 0 <= k < |parts| && (parts[k].Known? ==> SomeCaught(parts[k].ws, folded));
      OrIncludes(parts, |parts|, k);
      var i :| 0 <= i < |parts[k].ws| && Caught(parts[k].ws[i], folded);
      assert parts[k].ws[i] in Combine(mode, parts).ws;
    } else {
      var k := AndPicks(parts, |parts|);
    }
  }

  lemma LiteralCaught(value: string, ci: bool, field: Option<string>, op: SigmaIr.StrOp, s: string, fold: string -> string)
    requires IsFold(fold) && Compare(op, if ci then fold(s) else s, value)
    ensures SubstringWitness(value, ci, field).Known? ==> SomeCaught(SubstringWitness(value, ci, field).ws, fold(s))
    ensures op == SigmaIr.Exact && FoldLiteral(value, ci).Some? ==> FoldLiteral(value, ci).value == fold(s)
  {
    CompareInfix(op, if ci then fold(s) else s, value);
    var a := SubstringWitness(value, ci, field);
    if a.Known? {
      assert Caught(a.ws[0], fold(s));
    }
  }

  lemma CompareInfix(op: SigmaIr.StrOp, s: string, value: string)
    requires Compare(op, s, value)
    ensures Infix(value, s)
  {
    match op
    case Exact => assert StandsAt(value, s, 0);
    case Contains =>
    case StartsWith => assert StandsAt(value, s, 0);
    case EndsWith => assert StandsAt(value, s, |s| - |value|);
  }

  lemma NeedleCaught(needles: seq<string>, ci: bool, field: Option<string>, s: string, fold: string -> string)
    requires IsFold(fold) && OrCombine(LiteralWitnesses(needles, ci, field), |needles|).Known?
    requires exists i | 0 <= i < |needles| :: Infix(needles[i], if ci then fold(s) else s)
    ensures SomeCaught(OrCombine(LiteralWitnesses(needles, ci, field), |needles|).ws, fold(s))
  {
    var k :| 0 <= k < |needles| && Infix(needles[k], if ci then fold(s) else s);
    var parts := LiteralWitnesses(needles, ci, field);
    OrIncludes(parts, |needles|, k);
    LiteralCaught(needles[k], ci, field, SigmaIr.Contains, s, fold);
    CombineCatches(GroupAny, parts, fold(s));
  }

  /** A regex match, on the text itself or on its folded form, leaves a literal in the folded form. */
  lemma RegexCaught(re: RegexLiterals.Regex, field: Option<string>, s: string, lowered: bool, o: RegexLiterals.Oracle, fold: string -> string)
    requires IsFold(fold) && RegexWitness(re, field).Known?
    requires RegexLiterals.IsMatch(re, if lowered then fold(s) else s, o)
    ensures SomeCaught(RegexWitness(re, field).ws, fold(s))
  {
    var h := if lowered then fold(s) else s;
    var ls := RegexLiterals.MandatoryLiterals(re).value;
    RegexLiterals.HaystackContainsLiteral(re, h, o);
    var k :| 0 <= k < |ls| && Infix(ls[k], h);
    var parts := LiteralWitnesses(ls, false, field);
    OrIncludes(parts, |ls|, k);
    assert IsAscii(ls[k]);
    if lowered {
      LowerInfix(ls[k], fold(s));
    }
    assert Caught(parts[k].ws[0], fold(s));
    CombineCatches(GroupAny, parts, fold(s));
  }

  lemma RegexSetCaught(rs: seq<RegexLiterals.Regex>, mode: GroupMode, field: Option<string>, s: string, lowered: bool, e: Event)
    requires IsFold(e.fold) && RegexSetHolds(rs, mode, if lowered then e.fold(s) else s, e)
    requires AnalyzeMatcher(RegexSet(rs, mode), field).Known?
    ensures SomeCaught(AnalyzeMatcher(RegexSet(rs, mode), field).ws, e.fold(s))
  {
    var parts := seq(|rs|, i requires 0 <= i < |rs| => RegexWitness(rs[i], field));
    var h := if lowered then e.fold(s) else s;
    forall i | 0 <= i < |rs| && parts[i].Known? && RegexLiterals.IsMatch(rs[i], h, e.regex)
      ensures SomeCaught(parts[i].ws, e.fold(s))
    {
      RegexCaught(rs[i], field, s, lowered, e.regex, e.fold);
    }
    if mode == GroupAny {
      var k :| 0 <= k < |rs| && RegexLiterals.IsMatch(rs[k], h, e.regex);
      assert parts[k].Known? ==> SomeCaught(parts[k].ws, e.fold(s));
    }
    CombineCatches(mode, parts, e.fold(s));
  }

  ghost predicate MatchesText(m: CompiledMatcher, s: string, lowered: bool, e: Event) {
    if lowered then MatchesLowered(m, e.fold(s), e) else MatchesStr(m, s, e)
  }

  /** A matcher that holds on one string leaves one of its witnesses in the folded string. */
  lemma {:induction false} TextSound(m: CompiledMatcher, field: Option<string>, s: string, lowered: bool, e: Event)
    requires IsFold(e.fold) && AnalyzeMatcher(m, field).Known? && MatchesText(m, s, lowered, e)
    ensures SomeCaught(AnalyzeMatcher(m, field).ws, e.fold(s))
    decreases m
  {
    match m
    case StrMatch(op, value, ci) =>
      LiteralCaught(value, ci, field, op, s, e.fold);
      var ws := AnalyzeMatcher(m, field).ws;
      if op == SigmaIr.Exact && field.Some? { assert Caught(ws[0], e.fold(s)); }
    case NeedleSet(needles, ci) => NeedleCaught(needles, ci, field, s, e.fold);
    case RegexMatch(re) => RegexCaught(re, field, s, lowered, e.regex, e.fold);
    case RegexSet(rs, mode) => RegexSetCaught(rs, mode, field, s, lowered, e);
    case AnyOf(cs) => GroupSound(m, cs, GroupAny, field, s, lowered, e);
    case AllOf(cs) => GroupSound(m, cs, GroupAll, field, s, lowered, e);
    case CaseInsensitiveGroup(cs, mode) => GroupSound(m, cs, mode, field, s, true, e);
    case _ =>
  }

  lemma {:induction false} GroupSound(m: CompiledMatcher, cs: seq<CompiledMatcher>, mode: GroupMode, field: Option<string>, s: string, lowered: bool, e: Event)
    requires IsFold(e.fold)
    requires forall i | 0 <= i < |cs| :: cs[i] < m
    requires if mode == GroupAny then exists i | 0 <= i < |cs| :: MatchesText(cs[i], s, lowered, e)
             else forall i | 0 <= i < |cs| :: MatchesText(cs[i], s, lowered, e)
    ensures var a := Combine(mode, seq(|cs|, i requires 0 <= i < |cs| => AnalyzeMatcher(cs[i], field)));
            a.Known? ==> SomeCaught(a.ws, e.fold(s))
    decreases m, 0
  {
    var parts := seq(|cs|, i requires 0 <= i < |cs| => AnalyzeMatcher(cs[i], field));
    forall i | 0 <= i < |cs| && parts[i].Known? && MatchesText(cs[i], s, lowered, e)
      ensures SomeCaught(parts[i].ws, e.fold(s))
    {
      TextSound(cs[i], field, s, lowered, e);
    }
    if mode == GroupAny {
      var k :| 0 <= k < |cs| && MatchesText(cs[k], s, lowered, e);
      assert parts[k].Known? ==> SomeCaught(parts[k].ws, e.fold(s));
    }
    if Combine(mode, parts).Known? {
      CombineCatches(mode, parts, e.fold(s));
    }
  }

  // ----- Soundness on events -----

  lemma CombineHolds(mode: GroupMode, parts: seq<Analysis>, e: Event)
    requires Combine(mode, parts).Known?
    requires if mode == GroupAny
             then exists i | 0 <= i < |parts| :: parts[i].Known? ==> SomeHolds(parts[i].ws, e)
             else forall i | 0 <= i < |parts| && parts[i].Known? :: SomeHolds(parts[i].ws, e)
    ensures SomeHolds(Combine(mode, parts).ws, e)
  {
    if mode == GroupAny {
      var k :| 0 <= k < |parts| && (parts[k].Known? ==> SomeHolds(parts[k].ws, e));
      OrIncludes(parts, |parts|, k);
      var i :| 0 <= i < |parts[k].ws| && WitnessHolds(parts[k].ws[i], e);
      assert parts[k].ws[i] in Combine(mode, parts).ws;
    } else {
      var k := AndPicks(parts, |parts|);
    }
  }

  /** A matcher that holds on the value of a field leaves a witness on that field. */
  lemma {:induction false} ValueSound(m: CompiledMatcher, f: string, v: Json, e: Event)
    requires IsFold(e.fold) && GetField(e.root, f) == Some(v)
    requires AnalyzeMatcher(m, Some(f)).Known? && Matches(m, v, e)
    ensures SomeHolds(AnalyzeMatcher(m, Some(f)).ws, e)
    decreases m
  {
    match m
    case AnyOf(cs) => ValueGroup(m, cs, GroupAny, f, v, e);
    case AllOf(cs) => ValueGroup(m, cs, GroupAll, f, v, e);
    case Verdict(_) =>
    case Exists(_) =>
    case Null =>
    case TimestampPart(_, _) =>
    case Not(_) =>
    case _ =>
      var ps := Projections(v);
      var i :| 0 <= i < |ps| && MatchesStr(m, ps[i], e);
      TextSound(m, Some(f), ps[i], false, e);
      MatcherScope(m, Some(f));
      var ws := AnalyzeMatcher(m, Some(f)).ws;
      var k :| 0 <= k < |ws| && Caught(ws[k], e.fold(ps[i]));
      assert InScope(ws[k], Some(f));
      assert WitnessHolds(ws[k], e);
  }

  lemma {:induction false} ValueGroup(m: CompiledMatcher, cs: seq<CompiledMatcher>, mode: GroupMode, f: string, v: Json, e: Event)
    requires IsFold(e.fold) && GetField(e.root, f) == Some(v)
    requires forall i | 0 <= i < |cs| :: cs[i] < m
    requires if mode == GroupAny then exists i | 0 <= i < |cs| :: Matches(cs[i], v, e)
             else forall i | 0 <= i < |cs| :: Matches(cs[i], v, e)
    ensures var a := Combine(mode, seq(|cs|, i requires 0 <= i < |cs| => AnalyzeMatcher(cs[i], Some(f))));
            a.Known? ==> SomeHolds(a.ws, e)
    decreases m, 0
  {
    var parts := seq(|cs|, i requires 0 <= i < |cs| => AnalyzeMatcher(cs[i], Some(f)));
    forall i | 0 <= i < |cs| && parts[i].Known? && Matches(cs[i], v, e)
      ensures SomeHolds(parts[i].ws, e)
    {
      ValueSound(cs[i], f, v, e);
    }
    if mode == GroupAny {
      var k :| 0 <= k < |cs| && Matches(cs[k], v, e);
      assert parts[k].Known? ==> SomeHolds(parts[k].ws, e);
    }
    if Combine(mode, parts).Known? {
      CombineHolds(mode, parts, e);
    }
  }

  /** A keyword matcher that holds leaves a keyword witness somewhere in the event. */
  lemma {:induction false} KeywordSound(m: CompiledMatcher, e: Event)
    requires IsFold(e.fold) && AnalyzeMatcher(m, None).Known? && MatchesKeyword(m, e)
    ensures SomeHolds(AnalyzeMatcher(m, None).ws, e)
    decreases m
  {
    if m.AllOf? || (m.CaseInsensitiveGroup? && m.mode == GroupAll) {
      var cs := m.children;
      var parts := seq(|cs|, i requires 0 <= i < |cs| => AnalyzeMatcher(cs[i], None));
      forall i | 0 <= i < |cs| && parts[i].Known?
        ensures SomeHolds(parts[i].ws, e)
      {
        KeywordSound(cs[i], e);
      }
      CombineHolds(GroupAll, parts, e);
    } else if !m.Not? {
      var ss := StringValues(e);
      var i :| 0 <= i < |ss| && MatchesStr(m, ss[i], e);
      TextSound(m, None, ss[i], false, e);
      MatcherScope(m, None);
      var ws := AnalyzeMatcher(m, None).ws;
      var k :| 0 <= k < |ws| && Caught(ws[k], e.fold(ss[i]));
      assert InScope(ws[k], None);
      assert WitnessHolds(ws[k], e);
    }
  }

  /** An `exists` flag belongs to a named field. */
  predicate ItemFormed(item: Item) {
    item.field.None? ==> item.presence.None?
  }

  predicate DetectionFormed(d: CompiledDetection)
    decreases d
  {
    match d
    case AllItems(items) => forall i | 0 <= i < |items| :: ItemFormed(items[i])
    case AnyDetection(dets) => forall i | 0 <= i < |dets| :: DetectionFormed(dets[i])
    case AndDetection(dets) => forall i | 0 <= i < |dets| :: DetectionFormed(dets[i])
    case _ => true
  }

  /** A count selector asks for at least one detection. */
  predicate ConditionFormed(c: SigmaIr.Condition)
    decreases c
  {
    match c
    case CondAnd(cs) => forall i | 0 <= i < |cs| :: ConditionFormed(cs[i])
    case CondOr(cs) => forall i | 0 <= i < |cs| :: ConditionFormed(cs[i])
    case CondNot(inner) => ConditionFormed(inner)
    case Selector(q, _) => q.QCount? ==> q.count > 0
    case _ => true
  }

  predicate RuleFormed(r: Rule) {
    && (forall i | 0 <= i < |r.detections| :: DetectionFormed(r.detections[i].det))
    && (forall i | 0 <= i < |r.conditions| :: ConditionFormed(r.conditions[i]))
  }

  lemma ItemSound(item: Item, e: Event)
    requires IsFold(e.fold) && ItemFormed(item) && ItemHolds(item, e) && AnalyzeItem(item).Known?
    ensures SomeHolds(AnalyzeItem(item).ws, e)
  {
    match item.field
    case None => KeywordSound(item.matcher, e);
    case Some(f) =>
      if AnalyzeItem(item) == Known([Presence(f)]) {
        assert WitnessHolds(Presence(f), e);
        assert WitnessHolds([Presence(f)][0], e);
      } else {
        ValueSound(item.matcher, f, GetField(e.root, f).value, e);
      }
  }

  lemma {:induction false} DetectionSound(d: CompiledDetection, e: Event)
    requires IsFold(e.fold) && DetectionFormed(d) && DetectionHolds(d, e) && AnalyzeDetection(d).Known?
    ensures SomeHolds(AnalyzeDetection(d).ws, e)
    decreases d
  {
    match d
    case AllItems(items) =>
      var parts := seq(|items|, i requires 0 <= i < |items| => AnalyzeItem(items[i]));
      forall i | 0 <= i < |items| && parts[i].Known? ensures SomeHolds(parts[i].ws, e) { ItemSound(items[i], e); }
      CombineHolds(GroupAll, parts, e);
    case AnyDetection(dets) =>
      var parts := seq(|dets|, i requires 0 <= i < |dets| => AnalyzeDetection(dets[i]));
      var k :| 0 <= k < |dets| && DetectionHolds(dets[k], e);
      if parts[k].Known? { DetectionSound(dets[k], e); }
      CombineHolds(GroupAny, parts, e);
    case AndDetection(dets) =>
      var parts := seq(|dets|, i requires 0 <= i < |dets| => AnalyzeDetection(dets[i]));
      forall i | 0 <= i < |dets| && parts[i].Known? ensures SomeHolds(parts[i].ws, e) { DetectionSound(dets[i], e); }
      CombineHolds(GroupAll, parts, e);
    case Keywords(m) => KeywordSound(m, e);
    case ArrayMatch(f, _, _) => assert WitnessHolds([Presence(f)][0], e);
    case _ =>
  }

  lemma {:induction false} SelectedCovers(named: seq<NamedDetection>, pattern: SigmaIr.SelectorPattern, n: nat, i: nat)
    requires i < n <= |named| && Selects(pattern, named, i)
    ensures AnalyzeDetection(named[i].det) in AnalyzeSelected(named, pattern, n)
  {
    if i < n - 1 { SelectedCovers(named, pattern, n - 1, i); }
  }

  lemma {:induction false} SelectedOnly(named: seq<NamedDetection>, pattern: SigmaIr.SelectorPattern, n: nat, part: Analysis)
    requires n <= |named| && part in AnalyzeSelected(named, pattern, n)
    ensures exists i | 0 <= i < n :: Selects(pattern, named, i) && part == AnalyzeDetection(named[i].det)
  {
    if Selects(pattern, named, n - 1) && part == AnalyzeDetection(named[n - 1].det) {
    } else {
      SelectedOnly(named, pattern, n - 1, part);
    }
  }

  lemma {:induction false} CountedHolds(named: seq<NamedDetection>, pattern: SigmaIr.SelectorPattern, e: Event, n: nat)
    requires n <= |named| && CountHolding(named, pattern, e, n) > 0
    ensures exists i | 0 <= i < n :: Selects(pattern, named, i) && DetectionHolds(named[i].det, e)
  {
    if Selects(pattern, named, n - 1) && DetectionHolds(named[n - 1].det, e) {
    } else {
      CountedHolds(named, pattern, e, n - 1);
    }
  }

  lemma AllSelectedSound(pattern: SigmaIr.SelectorPattern, named: seq<NamedDetection>, e: Event)
    requires IsFold(e.fold) && forall i | 0 <= i < |named| :: DetectionFormed(named[i].det)
    requires forall i | 0 <= i < |named| :: Selects(pattern, named, i) ==> DetectionHolds(named[i].det, e)
    ensures var parts := AnalyzeSelected(named, pattern, |named|);
            AndCombine(parts, |parts|).Known? ==> SomeHolds(AndCombine(parts, |parts|).ws, e)
  {
    var parts := AnalyzeSelected(named, pattern, |named|);
    if AndCombine(parts, |parts|).Known? {
      var k := AndPicks(parts, |parts|);
      SelectedOnly(named, pattern, |named|, parts[k]);
      var i :| 0 <= i < |named| && Selects(pattern, named, i) && parts[k] == AnalyzeDetection(named[i].det);
      DetectionSound(named[i].det, e);
    }
  }

  lemma OneSelectedSound(pattern: SigmaIr.SelectorPattern, named: seq<NamedDetection>, i: nat, e: Event)
    requires IsFold(e.fold) && i < |named| && DetectionFormed(named[i].det)
    requires Selects(pattern, named, i) && DetectionHolds(named[i].det, e)
    ensures var parts := AnalyzeSelected(named, pattern, |named|);
            OrCombine(parts, |parts|).Known? ==> SomeHolds(OrCombine(parts, |parts|).ws, e)
  {
    var parts := AnalyzeSelected(named, pattern, |named|);
    SelectedCovers(named, pattern, |named|, i);
    var k :| 0 <= k < |parts| && parts[k] == AnalyzeDetection(named[i].det);
    if OrCombine(parts, |parts|).Known? {
      OrIncludes(parts, |parts|, k);
      DetectionSound(named[i].det, e);
      CombineHolds(GroupAny, parts, e);
    }
  }

  lemma {:induction false} ConditionSound(c: SigmaIr.Condition, named: seq<NamedDetection>, e: Event)
    requires IsFold(e.fold) && ConditionFormed(c) && forall i | 0 <= i < |named| :: DetectionFormed(named[i].det)
    requires ConditionHolds(c, named, e) && AnalyzeCondition(c, named).Known?
    ensures SomeHolds(AnalyzeCondition(c, named).ws, e)
    decreases c
  {
    match c
    case Named(name) => DetectionSound(named[Lookup(named, name).value].det, e);
    case CondAnd(cs) =>
      var parts := seq(|cs|, i requires 0 <= i < |cs| => AnalyzeCondition(cs[i], named));
      forall i | 0 <= i < |cs| && parts[i].Known? ensures SomeHolds(parts[i].ws, e) { ConditionSound(cs[i], named, e); }
      CombineHolds(GroupAll, parts, e);
    case CondOr(cs) =>
      var parts := seq(|cs|, i requires 0 <= i < |cs| => AnalyzeCondition(cs[i], named));
      var k :| 0 <= k < |cs| && ConditionHolds(cs[k], named, e);
      if parts[k].Known? { ConditionSound(cs[k], named, e); }
      CombineHolds(GroupAny, parts, e);
    case CondNot(_) =>
    case Selector(q, pattern) =>
      if q == SigmaIr.QAll {
        AllSelectedSound(pattern, named, e);
      } else {
        if q.QCount? { CountedHolds(named, pattern, e, |named|); }
        var i :| 0 <= i < |named| && Selects(pattern, named, i) && DetectionHolds(named[i].det, e);
        OneSelectedSound(pattern, named, i, e);
      }
  }

  /** Main result: a rule that matches an event is open or has a witness that holds on the event. */
  lemma RuleSound(r: Rule, e: Event)
    requires IsFold(e.fold) && RuleFormed(r) && RuleHolds(r, e)
    ensures AnalyzeRule(r).Known? ==> SomeHolds(AnalyzeRule(r).ws, e)
  {
    if AnalyzeRule(r).Known? {
      var parts := seq(|r.conditions|, i requires 0 <= i < |r.conditions| => AnalyzeCondition(r.conditions[i], r.detections));
      var k :| 0 <= k < |r.conditions| && ConditionHolds(r.conditions[k], r.detections, e);
      if parts[k].Known? { ConditionSound(r.conditions[k], r.detections, e); }
      CombineHolds(GroupAny, parts, e);
      var all := OrCombine(parts, |parts|).ws;
      var i :| 0 <= i < |all| && WitnessHolds(all[i], e);
      assert all[i] in Dedup(all);
    }
  }

  /** Unions grow with their parts: what the analysis of an OR promises, every branch promises. */
  lemma OrNeedsAll(parts: seq<Analysis>)
    ensures OrCombine(parts, |parts|).Known? <==> forall k | 0 <= k < |parts| :: parts[k].Known?
  {
    OrKnown(parts, |parts|);
  }

  lemma {:induction false} OrKnown(parts: seq<Analysis>, n: nat)
    requires n <= |parts|
    ensures OrCombine(parts, n).Known? <==> forall k | 0 <= k < n :: parts[k].Known?
  {
    if n > 0 { OrKnown(parts, n - 1); }
  }

  /** What an AND keeps is no less selective than any witness set on offer. */
  lemma {:induction false} AndKeepsBest(parts: seq<Analysis>, n: nat, k: nat)
    requires k < n <= |parts| && parts[k].Known? && parts[k].ws != []
    ensures AndCombine(parts, n).Known? && !Better(parts[k].ws, AndCombine(parts, n).ws)
  {
    if k < n - 1 { AndKeepsBest(parts, n - 1, k); }
  }
}
