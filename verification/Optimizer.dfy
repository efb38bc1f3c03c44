/**
  Batching the alternatives of a value list (`crates/rsigma-eval/src/compiler/optimizer.rs`): needles
  into one automaton, regexes into one set, and text matchers into a group that folds the text once.
 */
module Optimizer {
  import opened Results
  import opened FieldPaths
  import opened Folding
  import opened Evaluation
  import SigmaIr
  import RegexLiterals

  const AHO_CORASICK_THRESHOLD := 8
  const CI_GROUP_THRESHOLD := 2
  const REGEX_SET_THRESHOLD := 3

  /** Which needle and regex sets the libraries take, and which regexes ignore case throughout. */
  datatype Libraries = Libraries(
    automaton: seq<string> -> bool,
    regexSet: seq<RegexLiterals.Regex> -> bool,
    ignoresCase: RegexLiterals.Regex -> bool)

  /** A matcher of text alone that can be given text folded before. */
  predicate PreLowerable(m: CompiledMatcher, lib: Libraries)
    decreases m
  {
    match m
    case StrMatch(_, _, ci) => ci
    case NeedleSet(_, ci) => ci
    case RegexMatch(re) => lib.ignoresCase(re)
    case RegexSet(rs, _) => forall i | 0 <= i < |rs| :: lib.ignoresCase(rs[i])
    case Not(inner) => PreLowerable(inner, lib)
    case AnyOf(cs) => forall i | 0 <= i < |cs| :: PreLowerable(cs[i], lib)
    case AllOf(cs) => forall i | 0 <= i < |cs| :: PreLowerable(cs[i], lib)
    case CaseInsensitiveGroup(cs, _) => forall i | 0 <= i < |cs| :: PreLowerable(cs[i], lib)
    case _ => false
  }

  // ----- The rewriting -----

  predicate IsContains(m: CompiledMatcher, ci: bool) {
    m.StrMatch? && m.op == SigmaIr.Contains && m.caseInsensitive == ci
  }

  /** The needles of the plain `contains` matchers among the first `n`. */
  function Needles(ms: seq<CompiledMatcher>, n: nat, ci: bool): seq<string>
    requires n <= |ms|
  {
    if n == 0 then []
    else Needles(ms, n - 1, ci) + (if IsContains(ms[n - 1], ci) then [ms[n - 1].value] else [])
  }

  function Regexes(ms: seq<CompiledMatcher>, n: nat): seq<RegexLiterals.Regex>
    requires n <= |ms|
  {
    if n == 0 then [] else Regexes(ms, n - 1) + (if ms[n - 1].RegexMatch? then [ms[n - 1].re] else [])
  }

  predicate Batched(m: CompiledMatcher) {
    IsContains(m, true) || IsContains(m, false) || m.RegexMatch?
  }

  function Others(ms: seq<CompiledMatcher>, n: nat): seq<CompiledMatcher>
    requires n <= |ms|
  {
    if n == 0 then [] else Others(ms, n - 1) + (if Batched(ms[n - 1]) then [] else [ms[n - 1]])
  }

  function Contained(needles: seq<string>, ci: bool): seq<CompiledMatcher> {
    seq(|needles|, i requires 0 <= i < |needles| => StrMatch(SigmaIr.Contains, needles[i], ci))
  }

  function Matching(rs: seq<RegexLiterals.Regex>): seq<CompiledMatcher> {
    seq(|rs|, i requires 0 <= i < |rs| => RegexMatch(rs[i]))
  }

  function NeedleBatch(needles: seq<string>, ci: bool, lib: Libraries): seq<CompiledMatcher> {
    if |needles| >= AHO_CORASICK_THRESHOLD && lib.automaton(needles) then [NeedleSet(needles, ci)] else Contained(needles, ci)
  }

  function RegexBatch(rs: seq<RegexLiterals.Regex>, lib: Libraries): seq<CompiledMatcher> {
    if |rs| >= REGEX_SET_THRESHOLD && lib.regexSet(rs) then [RegexSet(rs, GroupAny)] else Matching(rs)
  }

  function Batches(ms: seq<CompiledMatcher>, lib: Libraries): seq<CompiledMatcher> {
    NeedleBatch(Needles(ms, |ms|, true), true, lib) + NeedleBatch(Needles(ms, |ms|, false), false, lib)
    + RegexBatch(Regexes(ms, |ms|), lib) + Others(ms, |ms|)
  }

  function Wrapped(ms: seq<CompiledMatcher>, lib: Libraries): CompiledMatcher {
    if |ms| >= CI_GROUP_THRESHOLD && forall i | 0 <= i < |ms| :: PreLowerable(ms[i], lib)
    then CaseInsensitiveGroup(ms, GroupAny) else AnyOf(ms)
  }

  function Optimized(ms: seq<CompiledMatcher>, lib: Libraries): CompiledMatcher {
    if |ms| == 0 then AnyOf([])
    else if |ms| == 1 then ms[0]
    else if |ms| < REGEX_SET_THRESHOLD then Wrapped(ms, lib)
    else
      var batches := Batches(ms, lib);
      if |batches| == 1 then batches[0] else Wrapped(batches, lib)
  }

  method ConsumeContains(result: seq<CompiledMatcher>, needles: seq<string>, ci: bool, lib: Libraries) returns (r: seq<CompiledMatcher>)
    ensures r == result + NeedleBatch(needles, ci, lib)
  {
    r := result;
    if |needles| >= AHO_CORASICK_THRESHOLD && lib.automaton(needles) {
      return result + [NeedleSet(needles, ci)];
    }
    for i := 0 to |needles|
      invariant r == result + Contained(needles, ci)[..i]
    {
      r := r + [StrMatch(SigmaIr.Contains, needles[i], ci)];
    }
  }

  method ConsumeRegexes(result: seq<CompiledMatcher>, rs: seq<RegexLiterals.Regex>, lib: Libraries) returns (r: seq<CompiledMatcher>)
    ensures r == result + RegexBatch(rs, lib)
  {
    r := result;
    if |rs| >= REGEX_SET_THRESHOLD && lib.regexSet(rs) {
      return result + [RegexSet(rs, GroupAny)];
    }
    for i := 0 to |rs|
      invariant r == result + Matching(rs)[..i]
    {
      r := r + [RegexMatch(rs[i])];
    }
  }

  method OptimizeAnyOf(ms: seq<CompiledMatcher>, lib: Libraries) returns (r: CompiledMatcher)
    ensures r == Optimized(ms, lib)
  {
    if |ms| == 0 { return AnyOf([]); }
    if |ms| == 1 { return ms[0]; }
    if |ms| < REGEX_SET_THRESHOLD { return Wrapped(ms, lib); }
    var insensitive, sensitive, regexes, others := [], [], [], [];
    for i := 0 to |ms|
      invariant insensitive == Needles(ms, i, true) && sensitive == Needles(ms, i, false)
      invariant regexes == Regexes(ms, i) && others == Others(ms, i)
    {
      match ms[i] {
        case StrMatch(Contains, value, true) => insensitive := insensitive + [value];
        case StrMatch(Contains, value, false) => sensitive := sensitive + [value];
        case RegexMatch(re) => regexes := regexes + [re];
        case other => others := others + [other];
      }
    }
    var result := ConsumeContains([], insensitive, true, lib);
    result := ConsumeContains(result, sensitive, false, lib);
    result := ConsumeRegexes(result, regexes, lib);
    result := result + others;
    assert result == Batches(ms, lib);
    r := if |result| == 1 then result[0] else Wrapped(result, lib);
  }

  // ----- Batching keeps the disjunction -----

  /** Some reading of matchers: on a text, on a value, or on a missing field. */
  type Reading = CompiledMatcher -> bool

  ghost predicate SomeReads(ms: seq<CompiledMatcher>, holds: Reading) {
    exists i | 0 <= i < |ms| :: holds(ms[i])
  }

  /** A set of needles or of regexes reads as the disjunction of its members. */
  ghost predicate ReadsSets(holds: Reading) {
    && (forall needles, ci :: holds(NeedleSet(needles, ci)) <==> SomeReads(Contained(needles, ci), holds))
    && (forall rs :: holds(RegexSet(rs, GroupAny)) <==> SomeReads(Matching(rs), holds))
  }

  lemma ReadsEither(a: seq<CompiledMatcher>, b: seq<CompiledMatcher>, holds: Reading)
    ensures SomeReads(a + b, holds) <==> SomeReads(a, holds) || SomeReads(b, holds)
  {
    if i :| 0 <= i < |a| && holds(a[i]) { assert (a + b)[i] == a[i]; }
    if i :| 0 <= i < |b| && holds(b[i]) { assert (a + b)[|a| + i] == b[i]; }
  }

  lemma ReadsOne(m: CompiledMatcher, holds: Reading)
    ensures SomeReads([m], holds) <==> holds(m)
  {
    assert [m][0] == m;
  }

  ghost predicate SomeSorted(ms: seq<CompiledMatcher>, n: nat, holds: Reading)
    requires n <= |ms|
  {
    || SomeReads(Contained(Needles(ms, n, true), true), holds) || SomeReads(Contained(Needles(ms, n, false), false), holds)
    || SomeReads(Matching(Regexes(ms, n)), holds) || SomeReads(Others(ms, n), holds)
  }

  lemma ContainedMore(needles: seq<string>, more: seq<string>, ci: bool)
    ensures Contained(needles + more, ci) == Contained(needles, ci) + Contained(more, ci)
  {
  }

  lemma MatchingMore(rs: seq<RegexLiterals.Regex>, more: seq<RegexLiterals.Regex>)
    ensures Matching(rs + more) == Matching(rs) + Matching(more)
  {
  }

  /** Sorting the matchers into buckets loses none and adds none. */
  lemma {:induction false} SortedReads(ms: seq<CompiledMatcher>, n: nat, holds: Reading)
    requires n <= |ms|
    ensures SomeReads(ms[..n], holds) <==> SomeSorted(ms, n, holds)
  {
    if n > 0 {
      SortedReads(ms, n - 1, holds);
      assert ms[..n] == ms[..n - 1] + [ms[n - 1]];
      ReadsEither(ms[..n - 1], [ms[n - 1]], holds);
      SortedNext(ms, n, holds);
    }
  }

  lemma SortedNext(ms: seq<CompiledMatcher>, n: nat, holds: Reading)
    requires 0 < n <= |ms|
    ensures SomeSorted(ms, n, holds) <==> SomeSorted(ms, n - 1, holds) || SomeReads([ms[n - 1]], holds)
  {
    var m := ms[n - 1];
    NeedlesNext(ms, n, true, holds);
    NeedlesNext(ms, n, false, holds);
    var regexes := if m.RegexMatch? then [m.re] else [];
    MatchingMore(Regexes(ms, n - 1), regexes);
    ReadsEither(Matching(Regexes(ms, n - 1)), Matching(regexes), holds);
    ReadsEither(Others(ms, n - 1), if Batched(m) then [] else [m], holds);
    if m.RegexMatch? { assert Matching(regexes) == [m]; }
  }

  lemma NeedlesNext(ms: seq<CompiledMatcher>, n: nat, ci: bool, holds: Reading)
    requires 0 < n <= |ms|
    ensures SomeReads(Contained(Needles(ms, n, ci), ci), holds)
            <==> SomeReads(Contained(Needles(ms, n - 1, ci), ci), holds) || (IsContains(ms[n - 1], ci) && SomeReads([ms[n - 1]], holds))
  {
    var m := ms[n - 1];
    var more := if IsContains(m, ci) then [m.value] else [];
    ContainedMore(Needles(ms, n - 1, ci), more, ci);
    ReadsEither(Contained(Needles(ms, n - 1, ci), ci), Contained(more, ci), holds);
    if IsContains(m, ci) { assert Contained(more, ci) == [m]; }
  }

  lemma NeedleBatchReads(needles: seq<string>, ci: bool, lib: Libraries, holds: Reading)
    requires ReadsSets(holds)
    ensures SomeReads(NeedleBatch(needles, ci, lib), holds) <==> SomeReads(Contained(needles, ci), holds)
  {
    ReadsOne(NeedleSet(needles, ci), holds);
  }

  lemma RegexBatchReads(rs: seq<RegexLiterals.Regex>, lib: Libraries, holds: Reading)
    requires ReadsSets(holds)
    ensures SomeReads(RegexBatch(rs, lib), holds) <==> SomeReads(Matching(rs), holds)
  {
    ReadsOne(RegexSet(rs, GroupAny), holds);
  }

  /** Batches read as the disjunction they were made from. */
  lemma BatchesRead(ms: seq<CompiledMatcher>, lib: Libraries, holds: Reading)
    requires ReadsSets(holds)
    ensures SomeReads(Batches(ms, lib), holds) <==> SomeReads(ms, holds)
  {
    var a := NeedleBatch(Needles(ms, |ms|, true), true, lib);
    var b := NeedleBatch(Needles(ms, |ms|, false), false, lib);
    var c, d := RegexBatch(Regexes(ms, |ms|), lib), Others(ms, |ms|);
    NeedleBatchReads(Needles(ms, |ms|, true), true, lib, holds);
    NeedleBatchReads(Needles(ms, |ms|, false), false, lib, holds);
    RegexBatchReads(Regexes(ms, |ms|), lib, holds);
    ReadsEither(a, b, holds);
    ReadsEither(a + b, c, holds);
    ReadsEither(a + b + c, d, holds);
    SortedReads(ms, |ms|, holds);
    assert ms[..|ms|] == ms;
  }

  ghost predicate ReadsWrapped(ms: seq<CompiledMatcher>, lib: Libraries, holds: Reading) {
    holds(Wrapped(ms, lib)) <==> SomeReads(ms, holds)
  }

  /** The whole rewriting keeps a reading by which sets and the groups it makes are disjunctions. */
  lemma OptimizedReads(ms: seq<CompiledMatcher>, lib: Libraries, holds: Reading)
    requires ReadsSets(holds)
    requires ReadsWrapped(ms, lib, holds) && ReadsWrapped(Batches(ms, lib), lib, holds)
    ensures holds(Optimized(ms, lib)) <==> SomeReads(ms, holds)
  {
    if |ms| == 0 {
      assert Wrapped([], lib) == AnyOf([]);
    } else if |ms| == 1 {
      ReadsOne(ms[0], holds);
      assert ms == [ms[0]];
    } else if |ms| >= REGEX_SET_THRESHOLD {
      BatchesRead(ms, lib, holds);
      var batches := Batches(ms, lib);
      if |batches| == 1 {
        ReadsOne(batches[0], holds);
        assert batches == [batches[0]];
      }
    }
  }

  // ----- On a text -----

  /** What an event's libraries promise of a regex that ignores case. */
  ghost predicate FoldSafe(e: Event, lib: Libraries) {
    forall re, s :: lib.ignoresCase(re) ==> (RegexLiterals.IsMatch(re, s, e.regex) <==> RegexLiterals.IsMatch(re, e.fold(s), e.regex))
  }

  /** Folding the text before is folding it in each matcher. */
  lemma {:induction false} LoweredText(m: CompiledMatcher, s: string, e: Event, lib: Libraries)
    requires FoldSafe(e, lib) && PreLowerable(m, lib)
    ensures MatchesStr(m, s, e) <==> MatchesLowered(m, e.fold(s), e)
    decreases m
  {
    match m
    case Not(inner) => LoweredText(inner, s, e, lib);
    case AnyOf(cs) => forall i | 0 <= i < |cs| { LoweredText(cs[i], s, e, lib); }
    case AllOf(cs) => forall i | 0 <= i < |cs| { LoweredText(cs[i], s, e, lib); }
    case _ =>
  }

  lemma GroupText(ms: seq<CompiledMatcher>, s: string, e: Event, lib: Libraries)
    requires FoldSafe(e, lib) && forall i | 0 <= i < |ms| :: PreLowerable(ms[i], lib)
    ensures MatchesStr(CaseInsensitiveGroup(ms, GroupAny), s, e) <==> exists i | 0 <= i < |ms| :: MatchesStr(ms[i], s, e)
  {
    forall i | 0 <= i < |ms| { LoweredText(ms[i], s, e, lib); }
  }

  lemma TextReadsSets(s: string, e: Event)
    ensures ReadsSets(m => MatchesStr(m, s, e))
  {
    var holds: Reading := m => MatchesStr(m, s, e);
    forall needles, ci ensures holds(NeedleSet(needles, ci)) <==> SomeReads(Contained(needles, ci), holds) {
      assert forall i | 0 <= i < |needles| :: holds(Contained(needles, ci)[i]) <==> Infix(needles[i], if ci then e.fold(s) else s);
    }
    forall rs ensures holds(RegexSet(rs, GroupAny)) <==> SomeReads(Matching(rs), holds) {
      assert forall i | 0 <= i < |rs| :: holds(Matching(rs)[i]) <==> RegexLiterals.IsMatch(rs[i], s, e.regex);
    }
  }

  lemma TextReadsWrapped(ms: seq<CompiledMatcher>, s: string, e: Event, lib: Libraries)
    requires FoldSafe(e, lib)
    ensures ReadsWrapped(ms, lib, m => MatchesStr(m, s, e))
  {
    if Wrapped(ms, lib).CaseInsensitiveGroup? { GroupText(ms, s, e, lib); }
  }

  /** Main result on text: the optimized matcher holds on a text exactly when one of the alternatives does. */
  lemma OptimizedText(ms: seq<CompiledMatcher>, s: string, e: Event, lib: Libraries)
    requires FoldSafe(e, lib)
    ensures MatchesStr(Optimized(ms, lib), s, e) <==> MatchesStr(AnyOf(ms), s, e)
  {
    var holds: Reading := m => MatchesStr(m, s, e);
    TextReadsSets(s, e);
    TextReadsWrapped(ms, s, e, lib);
    TextReadsWrapped(Batches(ms, lib), s, e, lib);
    OptimizedReads(ms, lib, holds);
  }

  // ----- On a field, and on a whole event -----

  /** Alternatives only, down to the leaves: what a value list compiles to. */
  predicate Disjunctive(m: CompiledMatcher)
    decreases m
  {
    match m
    case Not(_) => false
    case AllOf(_) => false
    case RegexSet(_, mode) => mode == GroupAny
    case AnyOf(cs) => forall i | 0 <= i < |cs| :: Disjunctive(cs[i])
    case CaseInsensitiveGroup(_, mode) => mode == GroupAny
    case _ => true
  }

  predicate AllDisjunctive(ms: seq<CompiledMatcher>) {
    forall i | 0 <= i < |ms| :: Disjunctive(ms[i])
  }

  /** Such a matcher of text holds on a value exactly when it holds on one of its texts. */
  lemma {:induction false} TextOfValue(m: CompiledMatcher, v: Json, e: Event, lib: Libraries)
    requires PreLowerable(m, lib) && Disjunctive(m)
    ensures Matches(m, v, e) <==> SomeProjection(m, v, e)
    decreases m
  {
    if m.AnyOf? {
      forall i | 0 <= i < |m.children| { TextOfValue(m.children[i], v, e, lib); }
      assert SomeProjection(m, v, e) <==> exists i | 0 <= i < |m.children| :: SomeProjection(m.children[i], v, e);
    }
  }

  lemma {:induction false} NeverAbsent(m: CompiledMatcher, lib: Libraries)
    requires PreLowerable(m, lib) && Disjunctive(m)
    ensures !MatchesAbsent(m)
    decreases m
  {
    if m.AnyOf? {
      forall i | 0 <= i < |m.children| ensures !MatchesAbsent(m.children[i]) { NeverAbsent(m.children[i], lib); }
    }
  }

  lemma ValueReadsSets(v: Json, e: Event)
    ensures ReadsSets(m => Matches(m, v, e))
  {
    var holds: Reading := m => Matches(m, v, e);
    forall needles, ci ensures holds(NeedleSet(needles, ci)) <==> SomeReads(Contained(needles, ci), holds) {
      SetOnValue(NeedleSet(needles, ci), Contained(needles, ci), v, e);
    }
    forall rs ensures holds(RegexSet(rs, GroupAny)) <==> SomeReads(Matching(rs), holds) {
      SetOnValue(RegexSet(rs, GroupAny), Matching(rs), v, e);
    }
  }

  lemma SetOnValue(batch: CompiledMatcher, members: seq<CompiledMatcher>, v: Json, e: Event)
    requires (batch.NeedleSet? && members == Contained(batch.needles, batch.caseInsensitive))
             || (batch.RegexSet? && batch.mode == GroupAny && members == Matching(batch.patterns))
    ensures Matches(batch, v, e) <==> exists i | 0 <= i < |members| :: Matches(members[i], v, e)
  {
    assert forall i | 0 <= i < |members| :: Matches(members[i], v, e) <==> SomeProjection(members[i], v, e);
    forall s: string { SetOnText(batch, members, s, e); }
  }

  lemma SetOnText(batch: CompiledMatcher, members: seq<CompiledMatcher>, s: string, e: Event)
    requires (batch.NeedleSet? && members == Contained(batch.needles, batch.caseInsensitive))
             || (batch.RegexSet? && batch.mode == GroupAny && members == Matching(batch.patterns))
    ensures MatchesStr(batch, s, e) <==> exists i | 0 <= i < |members| :: MatchesStr(members[i], s, e)
  {
    var holds: Reading := m => MatchesStr(m, s, e);
    TextReadsSets(s, e);
    assert holds(batch) <==> SomeReads(members, holds);
  }

  /** A group of alternatives holds on a value exactly when one of them does. */
  lemma GroupValue(ms: seq<CompiledMatcher>, v: Json, e: Event, lib: Libraries)
    requires FoldSafe(e, lib) && AllDisjunctive(ms) && forall i | 0 <= i < |ms| :: PreLowerable(ms[i], lib)
    ensures Matches(CaseInsensitiveGroup(ms, GroupAny), v, e) <==> exists i | 0 <= i < |ms| :: Matches(ms[i], v, e)
  {
    forall i | 0 <= i < |ms| { TextOfValue(ms[i], v, e, lib); }
    forall s: string { GroupText(ms, s, e, lib); }
  }

  lemma {:induction false} OthersDisjunctive(ms: seq<CompiledMatcher>, n: nat)
    requires n <= |ms| && AllDisjunctive(ms)
    ensures AllDisjunctive(Others(ms, n))
  {
    if n > 0 { OthersDisjunctive(ms, n - 1); }
  }

  lemma BatchesDisjunctive(ms: seq<CompiledMatcher>, lib: Libraries)
    requires AllDisjunctive(ms)
    ensures AllDisjunctive(Batches(ms, lib))
  {
    OthersDisjunctive(ms, |ms|);
  }

  lemma OptimizedDisjunctive(ms: seq<CompiledMatcher>, lib: Libraries)
    requires AllDisjunctive(ms)
    ensures Disjunctive(Optimized(ms, lib))
  {
    BatchesDisjunctive(ms, lib);
  }

  /** On a value, for alternatives that are disjunctions themselves. */
  lemma OptimizedValue(ms: seq<CompiledMatcher>, v: Json, e: Event, lib: Libraries)
    requires FoldSafe(e, lib) && AllDisjunctive(ms)
    ensures Matches(Optimized(ms, lib), v, e) <==> Matches(AnyOf(ms), v, e)
  {
    var holds: Reading := m => Matches(m, v, e);
    ValueReadsSets(v, e);
    BatchesDisjunctive(ms, lib);
    ValueReadsWrapped(ms, v, e, lib);
    ValueReadsWrapped(Batches(ms, lib), v, e, lib);
    OptimizedReads(ms, lib, holds);
  }

  lemma ValueReadsWrapped(ms: seq<CompiledMatcher>, v: Json, e: Event, lib: Libraries)
    requires FoldSafe(e, lib) && AllDisjunctive(ms)
    ensures ReadsWrapped(ms, lib, m => Matches(m, v, e))
  {
    if Wrapped(ms, lib).CaseInsensitiveGroup? { GroupValue(ms, v, e, lib); }
  }

  /** On a field the event does not have. */
  lemma OptimizedAbsent(ms: seq<CompiledMatcher>, lib: Libraries)
    requires AllDisjunctive(ms)
    ensures MatchesAbsent(Optimized(ms, lib)) <==> MatchesAbsent(AnyOf(ms))
  {
    var holds: Reading := m => MatchesAbsent(m);
    BatchesDisjunctive(ms, lib);
    AbsentReadsWrapped(ms, lib);
    AbsentReadsWrapped(Batches(ms, lib), lib);
    assert ReadsSets(holds);
    OptimizedReads(ms, lib, holds);
  }

  lemma AbsentReadsWrapped(ms: seq<CompiledMatcher>, lib: Libraries)
    requires AllDisjunctive(ms)
    ensures ReadsWrapped(ms, lib, m => MatchesAbsent(m))
  {
    if Wrapped(ms, lib).CaseInsensitiveGroup? {
      forall i | 0 <= i < |ms| ensures !MatchesAbsent(ms[i]) { NeverAbsent(ms[i], lib); }
    }
  }

  /** Main result: an item over alternatives holds on the same events before and after optimization. */
  lemma OptimizedItem(ms: seq<CompiledMatcher>, field: Option<string>, presence: Option<bool>, e: Event, lib: Libraries)
    requires FoldSafe(e, lib) && AllDisjunctive(ms)
    ensures ItemHolds(Item(field, Optimized(ms, lib), presence), e) <==> ItemHolds(Item(field, AnyOf(ms), presence), e)
  {
    if field.Some? {
      OptimizedAbsent(ms, lib);
      if GetField(e.root, field.value).Some? { OptimizedValue(ms, GetField(e.root, field.value).value, e, lib); }
    } else {
      OptimizedDisjunctive(ms, lib);
      forall s: string { OptimizedText(ms, s, e, lib); }
    }
  }

  // ----- Where a group differs -----

  /** A value whose texts all fold to one. */
  predicate OneText(v: Json, e: Event) {
    && Projections(v) != []
    && forall i, j | 0 <= i < |Projections(v)| && 0 <= j < |Projections(v)| :: e.fold(Projections(v)[i]) == e.fold(Projections(v)[j])
  }

  lemma {:induction false} OneTextMatches(m: CompiledMatcher, v: Json, e: Event, lib: Libraries)
    requires FoldSafe(e, lib) && PreLowerable(m, lib) && OneText(v, e)
    ensures Matches(m, v, e) <==> MatchesLowered(m, e.fold(Projections(v)[0]), e)
    decreases m
  {
    if m.Not? {
      OneTextMatches(m.inner, v, e, lib);
    } else if m.AnyOf? || m.AllOf? {
      forall i | 0 <= i < |m.children| { OneTextMatches(m.children[i], v, e, lib); }
    } else {
      SameOnAllTexts(m, v, e, lib);
    }
  }

  lemma SameOnAllTexts(m: CompiledMatcher, v: Json, e: Event, lib: Libraries)
    requires FoldSafe(e, lib) && PreLowerable(m, lib) && OneText(v, e)
    ensures SomeProjection(m, v, e) <==> MatchesLowered(m, e.fold(Projections(v)[0]), e)
  {
    forall i | 0 <= i < |Projections(v)| { LoweredText(m, Projections(v)[i], e, lib); }
  }

  ghost predicate GroupAgrees(ms: seq<CompiledMatcher>, v: Json, e: Event) {
    Matches(CaseInsensitiveGroup(ms, GroupAny), v, e) <==> Matches(AnyOf(ms), v, e)
  }

  /** Every list that is grouped reads on this value as it does ungrouped. */
  ghost predicate GroupsAgree(v: Json, e: Event, lib: Libraries) {
    forall ms: seq<CompiledMatcher> | |ms| >= 2 && forall i | 0 <= i < |ms| :: PreLowerable(ms[i], lib) :: GroupAgrees(ms, v, e)
  }

  /** Nothing equals two texts at once: a nested conjunction sees them apart and a group together. */
  lemma TwoTextsDiffer(v: Json, e: Event, i: nat, j: nat)
    requires i < |Projections(v)| && j < |Projections(v)| && e.fold(Projections(v)[i]) != e.fold(Projections(v)[j])
    ensures var a := StrMatch(SigmaIr.Exact, e.fold(Projections(v)[i]), true);
            var b := StrMatch(SigmaIr.Exact, e.fold(Projections(v)[j]), true);
            !GroupAgrees([AllOf([a, b]), AnyOf([])], v, e)
  {
    var a := StrMatch(SigmaIr.Exact, e.fold(Projections(v)[i]), true);
    var b := StrMatch(SigmaIr.Exact, e.fold(Projections(v)[j]), true);
    var both, ms := AllOf([a, b]), [AllOf([a, b]), AnyOf([])];
    assert MatchesStr(a, Projections(v)[i], e) && MatchesStr(b, Projections(v)[j], e);
    assert Matches(ms[0], v, e) by {
      forall k | 0 <= k < 2 ensures Matches(both.children[k], v, e) { assert both.children[k] in [a, b]; }
    }
    forall s: string { NotBothLowered(a, b, s, e); }
  }

  lemma NotBothLowered(a: CompiledMatcher, b: CompiledMatcher, s: string, e: Event)
    requires a.StrMatch? && b.StrMatch? && a.op == b.op == SigmaIr.Exact && a.value != b.value
    ensures !MatchesLowered(CaseInsensitiveGroup([AllOf([a, b]), AnyOf([])], GroupAny), s, e)
  {
    var both, none := AllOf([a, b]), AnyOf([]);
    assert both.children[0] == a && both.children[1] == b;
    assert !MatchesLowered(both, s, e);
    assert none.children == [] && !MatchesLowered(none, s, e);
    forall i | 0 <= i < 2 ensures !MatchesLowered([both, none][i], s, e) {
      assert [both, none][i] in [both, none];
    }
  }

  /** An empty conjunction holds on a value without text, and no group does. */
  lemma NoTextDiffers(v: Json, e: Event)
    requires Projections(v) == []
    ensures !GroupAgrees([AllOf([]), AnyOf([])], v, e)
  {
    assert Matches([AllOf([]), AnyOf([])][0], v, e);
  }

  /**
    Whatever alternatives are grouped, negations and conjunctions included, the group agrees with the
    list on a value exactly when the value has a text and all its texts fold to one.
   */
  lemma GroupsAgreeExactly(v: Json, e: Event, lib: Libraries)
    requires FoldSafe(e, lib)
    ensures GroupsAgree(v, e, lib) <==> OneText(v, e)
  {
    if OneText(v, e) {
      OneTextAgrees(v, e, lib);
    } else {
      SomeGroupDiffers(v, e, lib);
    }
  }

  lemma SomeGroupDiffers(v: Json, e: Event, lib: Libraries)
    requires !OneText(v, e)
    ensures !GroupsAgree(v, e, lib)
  {
    if Projections(v) == [] {
      NoTextDiffers(v, e);
      NotAllAgree([AllOf([]), AnyOf([])], v, e, lib);
    } else {
      var i: nat, j: nat :| i < |Projections(v)| && j < |Projections(v)| && e.fold(Projections(v)[i]) != e.fold(Projections(v)[j]);
      TwoTextsDiffer(v, e, i, j);
      var a := StrMatch(SigmaIr.Exact, e.fold(Projections(v)[i]), true);
      var b := StrMatch(SigmaIr.Exact, e.fold(Projections(v)[j]), true);
      assert PreLowerable(AllOf([a, b]), lib);
      NotAllAgree([AllOf([a, b]), AnyOf([])], v, e, lib);
    }
  }

  lemma NotAllAgree(ms: seq<CompiledMatcher>, v: Json, e: Event, lib: Libraries)
    requires |ms| == 2 && PreLowerable(ms[0], lib) && PreLowerable(ms[1], lib) && !GroupAgrees(ms, v, e)
    ensures !GroupsAgree(v, e, lib)
  {
    assert forall i | 0 <= i < |ms| :: PreLowerable(ms[i], lib);
  }

  lemma OneTextAgrees(v: Json, e: Event, lib: Libraries)
    requires FoldSafe(e, lib) && OneText(v, e)
    ensures GroupsAgree(v, e, lib)
  {
    forall ms: seq<CompiledMatcher> | |ms| >= 2 && forall i | 0 <= i < |ms| :: PreLowerable(ms[i], lib)
      ensures GroupAgrees(ms, v, e)
    {
      OneTextMatches(AnyOf(ms), v, e, lib);
      SameOnAllTexts(CaseInsensitiveGroup(ms, GroupAny), v, e, lib);
    }
  }
}
