/**
  What the candidate index answers, stated on rules and events alone
  (`crates/rsigma-eval/src/candidate_index.rs`).
 */
module IndexSpec {
  import opened Results
  import opened FieldPaths
  import opened Folding
  import opened Evaluation
  import opened Witnesses
  import SigmaIr

  const MAX_NEEDLES := 65536

  /** Whether the automaton library accepts a set of needles. */
  type Library = set<string> -> bool

  /** What the index knows of a rule: its witnesses and its lowercased product. */
  datatype Gate = Gate(analysis: Analysis, product: Option<string>)

  function LowerProduct(product: Option<string>, lower: string -> string): Option<string> {
    match product
    case Some(p) => Some(lower(p))
    case None => None
  }

  function GateOf(r: Rule, lower: string -> string): Gate {
    Gate(AnalyzeRule(r), LowerProduct(r.product, lower))
  }

  function GatesOf(rules: seq<Rule>, lower: string -> string): (g: seq<Gate>)
    ensures |g| == |rules| && forall i | 0 <= i < |g| :: g[i] == GateOf(rules[i], lower)
  {
    seq(|rules|, i requires 0 <= i < |rules| => GateOf(rules[i], lower))
  }

  function WitnessesOf(g: Gate): seq<Witness> {
    if g.analysis.Open? then [] else g.analysis.ws
  }

  /** Witnesses that live in an automaton. */
  predicate IsText(w: Witness) {
    w.Substring? || w.Keyword?
  }

  /** The automaton of a text witness: one per field, and one for keywords. */
  function Automaton(w: Witness): Option<string>
    requires IsText(w)
  {
    if w.Substring? then Some(w.field) else None
  }

  function TextWitness(automaton: Option<string>, needle: string): (w: Witness)
    ensures IsText(w) && Automaton(w) == automaton && w.needle == needle
  {
    if automaton.Some? then Substring(automaton.value, needle) else Keyword(needle)
  }

  ghost function NeedlesIn(ws: seq<Witness>, automaton: Option<string>): (r: set<string>)
    ensures forall x :: x in r <==> TextWitness(automaton, x) in ws
  {
    set w | w in ws && IsText(w) && Automaton(w) == automaton :: w.needle
  }

  /** Needles the first `n` rules put into an automaton. */
  ghost function NeedlesFor(gates: seq<Gate>, n: nat, automaton: Option<string>): set<string>
    requires n <= |gates|
  {
    if n == 0 then {} else NeedlesFor(gates, n - 1, automaton) + NeedlesIn(WitnessesOf(gates[n - 1]), automaton)
  }

  lemma {:induction false} NeedleCounted(gates: seq<Gate>, n: nat, i: nat, w: Witness)
    requires i < n <= |gates| && w in WitnessesOf(gates[i]) && IsText(w)
    ensures w.needle in NeedlesFor(gates, n, Automaton(w))
  {
    if i == n - 1 {
      assert TextWitness(Automaton(w), w.needle) == w;
    } else {
      NeedleCounted(gates, n - 1, i, w);
    }
  }

  lemma {:induction false} NeedlesStay(gates: seq<Gate>, g: Gate, n: nat, automaton: Option<string>)
    requires n <= |gates|
    ensures NeedlesFor(gates + [g], n, automaton) == NeedlesFor(gates, n, automaton)
  {
    if n > 0 { NeedlesStay(gates, g, n - 1, automaton); }
  }

  predicate Indexable(needles: set<string>, library: Library) {
    needles != {} && |needles| <= MAX_NEEDLES && library(needles)
  }

  /** Rule `i` relies on a needle of an automaton that could not be built over the first `base` rules. */
  ghost predicate Orphan(gates: seq<Gate>, base: nat, i: nat, library: Library)
    requires base <= |gates|
  {
    i < base && exists w | w in WitnessesOf(gates[i]) ::
      IsText(w) && !Indexable(NeedlesFor(gates, base, Automaton(w)), library)
  }

  predicate HasText(g: Gate) {
    exists w | w in WitnessesOf(g) :: IsText(w)
  }

  /** Rule `i` came after the last build and has a witness no built automaton can absorb. */
  predicate Held(gates: seq<Gate>, base: nat, i: nat) {
    base <= i < |gates| && HasText(gates[i])
  }

  /** Evaluated against every event until the next build, and open to the product filter. */
  ghost predicate Always(gates: seq<Gate>, base: nat, i: nat, library: Library)
    requires base <= |gates|
  {
    i < |gates| && (gates[i].analysis.Open? || Orphan(gates, base, i, library))
  }

  /** Rule `i` is filed under witness `w`. */
  ghost predicate Filed(gates: seq<Gate>, base: nat, i: nat, w: Witness, library: Library)
    requires base <= |gates|
  {
    && i < |gates| && w in WitnessesOf(gates[i]) && !Held(gates, base, i)
    && (IsText(w) ==> i < base && Indexable(NeedlesFor(gates, base, Automaton(w)), library))
  }

  /** An automaton finds a needle ignoring ASCII case. */
  predicate Occurs(needle: string, haystack: string) {
    exists k: nat | k <= |haystack| :: StandsAt(AsciiLower(needle), AsciiLower(haystack), k)
  }

  lemma OccursIsInfix(needle: string, haystack: string)
    ensures Occurs(needle, haystack) <==> Infix(AsciiLower(needle), AsciiLower(haystack))
  {
    if Infix(AsciiLower(needle), AsciiLower(haystack)) {
      var k: nat :| StandsAt(AsciiLower(needle), AsciiLower(haystack), k);
      assert k <= |haystack|;
    }
  }

  /** Searching an ASCII haystack in place finds what searching its folded copy finds. */
  lemma InPlaceSearch(needle: string, haystack: string, fold: string -> string)
    requires IsFold(fold)
    ensures IsAscii(haystack) ==> (Occurs(needle, haystack) <==> Occurs(needle, fold(haystack)))
    ensures Occurs(needle, fold(haystack)) <==> Infix(AsciiLower(needle), fold(haystack))
  {
    OccursIsInfix(needle, haystack);
    OccursIsInfix(needle, fold(haystack));
    LowerTwice(haystack);
  }

  // ----- Hits -----

  predicate ValueFires(w: Witness, v: Json, fold: string -> string) {
    match w
    case Presence(_) => true
    case ExactIs(_, value) => exists i | 0 <= i < |Projections(v)| :: fold(Projections(v)[i]) == value
    case Substring(_, needle) => exists i | 0 <= i < |Projections(v)| :: Occurs(needle, fold(Projections(v)[i]))
    case Keyword(_) => false
  }

  predicate KeywordFires(needle: string, e: Event) {
    exists i | 0 <= i < |StringValues(e)| :: Occurs(needle, e.fold(StringValues(e)[i]))
  }

  /** The witness selects its rules on this event when all fields are visited. */
  predicate Fires(w: Witness, e: Event) {
    match w
    case Keyword(needle) => KeywordFires(needle, e)
    case _ => GetField(e.root, w.field).Some? && ValueFires(w, GetField(e.root, w.field).value, e.fold)
  }

  /** And when fields are visited by the event's own top-level keys. */
  predicate FiresSparsely(w: Witness, e: Event) {
    Fires(w, e) && (!w.Keyword? ==> Probed(e.root, w.field))
  }

  /** What testing every indexed field would answer. */
  ghost predicate ScanCandidate(gates: seq<Gate>, base: nat, i: nat, e: Event, library: Library)
    requires base <= |gates|
  {
    i < |gates|
    && (Always(gates, base, i, library) || Held(gates, base, i)
        || exists w | w in WitnessesOf(gates[i]) :: Fires(w, e))
  }

  /** The answer: open rules, orphans, held rules and rules with a witness that fires. */
  ghost predicate Candidate(gates: seq<Gate>, base: nat, i: nat, e: Event, library: Library)
    requires base <= |gates|
  {
    i < |gates|
    && (Always(gates, base, i, library) || Held(gates, base, i)
        || exists w | w in WitnessesOf(gates[i]) :: FiresSparsely(w, e))
  }

  // ----- Nothing that matches is left out -----

  lemma HoldingFires(w: Witness, e: Event)
    requires IsFold(e.fold) && WitnessHolds(w, e)
    ensures Fires(w, e)
  {
    if w.Substring? {
      var ps := Projections(GetField(e.root, w.field).value);
      var i :| 0 <= i < |ps| && Caught(w, e.fold(ps[i]));
      LowerInfix(w.needle, e.fold(ps[i]));
      OccursIsInfix(w.needle, e.fold(ps[i]));
    } else if w.Keyword? {
      var ss := StringValues(e);
      var i :| 0 <= i < |ss| && Caught(w, e.fold(ss[i]));
      LowerInfix(w.needle, e.fold(ss[i]));
      OccursIsInfix(w.needle, e.fold(ss[i]));
    }
  }

  /** Every present field of a rule's witnesses is registered under a key of the event. */
  ghost predicate FieldsProbed(g: Gate, e: Event) {
    forall w | w in WitnessesOf(g) && !w.Keyword? :: GetField(e.root, w.field).Some? ==> Probed(e.root, w.field)
  }

  /** Main result: a rule that matches the event is among the candidates. */
  lemma MatchIsCandidate(rules: seq<Rule>, base: nat, i: nat, e: Event, lower: string -> string, library: Library)
    requires base <= |rules| && i < |rules| && IsFold(e.fold) && RuleFormed(rules[i])
    requires FieldsProbed(GateOf(rules[i], lower), e)
    requires RuleHolds(rules[i], e)
    ensures Candidate(GatesOf(rules, lower), base, i, e, library)
  {
    var g := GatesOf(rules, lower)[i];
    if g.analysis.Known? {
      RuleSound(rules[i], e);
      var k :| 0 <= k < |g.analysis.ws| && WitnessHolds(g.analysis.ws[k], e);
      var w := g.analysis.ws[k];
      HoldingFires(w, e);
      assert w in WitnessesOf(g) && FiresSparsely(w, e);
    }
  }

  // ----- Probing against visiting every field -----

  /** Read off the fields of a rule's witnesses, before any event. */
  predicate FieldsProbeable(g: Gate) {
    forall w | w in WitnessesOf(g) && !w.Keyword? :: Probeable(w.field)
  }

  lemma ProbeableFieldsProbed(g: Gate, e: Event)
    requires FieldsProbeable(g)
    ensures FieldsProbed(g, e)
  {
    forall w | w in WitnessesOf(g) && !w.Keyword? && GetField(e.root, w.field).Some?
      ensures Probed(e.root, w.field)
    {
      ProbedOnEveryEvent(w.field);
    }
  }

  /** Main result: on every event, probing by the event's own keys answers what visiting every field would. */
  lemma SparseIsFull(gates: seq<Gate>, base: nat, i: nat, e: Event, library: Library)
    requires base <= |gates| && (i < |gates| ==> FieldsProbeable(gates[i]))
    ensures Candidate(gates, base, i, e, library) <==> ScanCandidate(gates, base, i, e, library)
  {
    if i < |gates| {
      ProbeableFieldsProbed(gates[i], e);
      forall w | w in WitnessesOf(gates[i]) ensures FiresSparsely(w, e) <==> Fires(w, e) {}
    }
  }

  /** A rule of one item, and its analysis. */
  function SingleRule(item: Item): Rule {
    Rule([NamedDetection("s", AllItems([item]))], [SigmaIr.Named("s")], None)
  }

  lemma SingleRuleAnalysis(item: Item, w: Witness)
    requires AnalyzeItem(item) == Known([w])
    ensures AnalyzeRule(SingleRule(item)) == Known([w])
  {
    var r, a := SingleRule(item), Known([w]);
    var items := r.detections[0].det.items;
    assert Lookup(r.detections, "s") == Some(0);
    assert AnalyzeDetection(r.detections[0].det) == a by {
      var parts := seq(|items|, i requires 0 <= i < |items| => AnalyzeItem(items[i]));
      assert AndCombine(parts, 0) == Open;
      assert AndCombine(parts, 1) == a;
    }
    var parts := seq(|r.conditions|, i requires 0 <= i < |r.conditions| => AnalyzeCondition(r.conditions[i], r.detections));
    assert OrCombine(parts, 0) == Known([]) && parts[0] == a;
    assert OrCombine(parts, 1) == a;
    assert [w][..0] == [] && Dedup([]) == [];
    assert Dedup([w]) == [w];
  }

  lemma SingleRuleHolds(item: Item, e: Event)
    ensures RuleHolds(SingleRule(item), e) <==> ItemHolds(item, e)
  {
    var r := SingleRule(item);
    assert Lookup(r.detections, "s") == Some(0);
    assert DetectionHolds(r.detections[0].det, e) <==> ItemHolds([item][0], e);
    assert ConditionHolds(r.conditions[0], r.detections, e) <==> ItemHolds(item, e);
  }

  /** A rule that asks for the presence of a field. */
  function PresenceRule(field: string): Rule {
    SingleRule(Item(Some(field), Null, Some(true)))
  }

  lemma PresenceMissed(field: string, gates: seq<Gate>, e: Event, library: Library)
    requires |gates| == 1 && gates[0].analysis == Known([Presence(field)]) && !Probed(e.root, field)
    ensures !Candidate(gates, 1, 0, e, library)
  {
    assert WitnessesOf(gates[0]) == [Presence(field)];
  }

  lemma PresenceScanned(field: string, gates: seq<Gate>, e: Event, library: Library)
    requires |gates| == 1 && gates[0].analysis == Known([Presence(field)]) && GetField(e.root, field).Some?
    ensures ScanCandidate(gates, 1, 0, e, library)
  {
    assert Presence(field) in WitnessesOf(gates[0]) && Fires(Presence(field), e);
  }

  /** An event that has a field no probe visits. */
  lemma UnprobedEvent(field: string, any: Event) returns (e: Event)
    requires !Probeable(field)
    ensures GetField(e.root, field).Some? && !Probed(e.root, field)
  {
    ProbedOnEveryEvent(field);
    var root :| GetField(root, field).Some? && !Probed(root, field);
    e := any.(root := root);
  }

  /** A field that is not probeable loses rules: a rule that asks for it matches some event without being a candidate. */
  lemma UnprobedFieldLost(field: string, any: Event, library: Library)
    requires !Probeable(field)
    ensures RuleFormed(PresenceRule(field))
    ensures exists e :: RuleHolds(PresenceRule(field), e) && !Candidate(GatesOf([PresenceRule(field)], x => x), 1, 0, e, library)
  {
    var e := UnprobedEvent(field, any);
    var item := Item(Some(field), Null, Some(true));
    SingleRuleHolds(item, e);
    SingleRuleAnalysis(item, Presence(field));
    PresenceMissed(field, GatesOf([PresenceRule(field)], x => x), e, library);
  }

  /** A rule gated on the presence of a field is answered in full on every event exactly when the field is probeable. */
  lemma SparseIsFullExactly(field: string, any: Event, library: Library)
    ensures (forall e :: Candidate([Gate(Known([Presence(field)]), None)], 1, 0, e, library)
                         <==> ScanCandidate([Gate(Known([Presence(field)]), None)], 1, 0, e, library))
            <==> Probeable(field)
  {
    var g := Gate(Known([Presence(field)]), None);
    if Probeable(field) {
      forall e { SparseIsFull([g], 1, 0, e, library); }
    } else {
      var e := UnprobedEvent(field, any);
      PresenceMissed(field, [g], e, library);
      PresenceScanned(field, [g], e, library);
    }
  }

  // ----- Incremental and batched builds -----

  /** An event without fields or strings. */
  function SilentEvent(e: Event): (s: Event)
    ensures forall w :: !Fires(w, s)
  {
    e.(root := JNull)
  }

  ghost predicate Covers(gates: seq<Gate>, base: nat, library: Library)
    requires base <= |gates|
  {
    forall i: nat, e: Event :: Candidate(gates, |gates|, i, e, library) ==> Candidate(gates, base, i, e, library)
  }

  /**
    Appending after a build over `base` rules answers a superset of the batched build, on every
    event, exactly when no indexed rule of the build would be orphaned by the batched one.
   */
  lemma IncrementalCovers(gates: seq<Gate>, base: nat, library: Library, any: Event)
    requires base <= |gates|
    ensures Covers(gates, base, library)
            <==> forall i: nat | i < base :: Orphan(gates, |gates|, i, library) ==> Orphan(gates, base, i, library)
  {
    if forall i: nat | i < base :: Orphan(gates, |gates|, i, library) ==> Orphan(gates, base, i, library) {
      forall i: nat, e: Event | Candidate(gates, |gates|, i, e, library)
        ensures Candidate(gates, base, i, e, library)
      {
        if i >= base && Orphan(gates, |gates|, i, library) { assert Held(gates, base, i); }
      }
    }
    if Covers(gates, base, library) {
      forall i: nat | i < base && Orphan(gates, |gates|, i, library)
        ensures Orphan(gates, base, i, library)
      {
        assert Candidate(gates, |gates|, i, SilentEvent(any), library);
        assert Candidate(gates, base, i, SilentEvent(any), library);
      }
    }
  }

  /** With automata that never overflow, appending always covers. */
  lemma RoomyAutomataCover(gates: seq<Gate>, base: nat, library: Library, any: Event)
    requires base <= |gates|
    requires forall w | IsText(w) && NeedlesFor(gates, |gates|, Automaton(w)) != {} ::
               Indexable(NeedlesFor(gates, |gates|, Automaton(w)), library)
    ensures Covers(gates, base, library)
  {
    forall i: nat, w | i < |gates| && w in WitnessesOf(gates[i]) && IsText(w)
      ensures Indexable(NeedlesFor(gates, |gates|, Automaton(w)), library)
    {
      NeedleCounted(gates, |gates|, i, w);
    }
    IncrementalCovers(gates, base, library, any);
  }

  // ----- Outgrowing an automaton -----

  /** A rule that asks for a text in the field `f`. */
  function NeedleRule(text: string): Rule {
    SingleRule(Item(Some("f"), StrMatch(SigmaIr.Contains, text, true), None))
  }

  function Tally(n: nat): (s: string)
    ensures |s| == n
  {
    seq(n, _ => 'a')
  }

  /** Rules over texts of different lengths, one more than an automaton takes. */
  function TallyRules(): (rules: seq<Rule>)
    ensures |rules| == MAX_NEEDLES + 1 && forall i | 0 <= i < |rules| :: rules[i] == NeedleRule(Tally(i + 1))
  {
    seq(MAX_NEEDLES + 1, i requires 0 <= i < MAX_NEEDLES + 1 => NeedleRule(Tally(i + 1)))
  }

  /** Rule `i` is gated on one text. */
  ghost predicate Tallied(gates: seq<Gate>, i: nat) {
    i < |gates| && WitnessesOf(gates[i]) == [Substring("f", Tally(i + 1))]
  }

  lemma TallyGate(gates: seq<Gate>, lower: string -> string, i: nat)
    requires gates == GatesOf(TallyRules(), lower) && i < |gates|
    ensures Tallied(gates, i)
  {
    SingleRuleAnalysis(Item(Some("f"), StrMatch(SigmaIr.Contains, Tally(i + 1), true), None), Substring("f", Tally(i + 1)));
    assert gates[i] == GateOf(TallyRules()[i], lower);
  }

  lemma TallyStep(gates: seq<Gate>, n: nat)
    requires n < |gates| && Tallied(gates, n)
    ensures NeedlesFor(gates, n + 1, Some("f")) == NeedlesFor(gates, n, Some("f")) + {Tally(n + 1)}
  {
    assert TextWitness(Some("f"), Tally(n + 1)) in WitnessesOf(gates[n]);
    assert NeedlesIn(WitnessesOf(gates[n]), Some("f")) == {Tally(n + 1)};
  }

  /** `n` texts, none longer than `n`. */
  predicate UpTo(needles: set<string>, n: nat) {
    |needles| == n && forall needle | needle in needles :: |needle| <= n
  }

  lemma UpToNext(needles: set<string>, text: string, n: nat, more: set<string>)
    requires 0 < n == |text| && UpTo(needles, n - 1) && more == needles + {text}
    ensures UpTo(more, n)
  {
    assert text !in needles;
  }

  /** The first `n` of them put `n` needles into the automaton of the field. */
  lemma {:induction false} TallyNeedles(gates: seq<Gate>, n: nat)
    requires n <= |gates| && forall i: nat | i < n :: Tallied(gates, i)
    ensures UpTo(NeedlesFor(gates, n, Some("f")), n)
  {
    if n == 0 {
      assert NeedlesFor(gates, 0, Some("f")) == {};
    } else {
      var before, all := NeedlesFor(gates, n - 1, Some("f")), NeedlesFor(gates, n, Some("f"));
      TallyNeedles(gates, n - 1);
      TallyStep(gates, n - 1);
      UpToNext(before, Tally(n), n, all);
      assert UpTo(all, n);
    }
  }

  /** A needle set at the cap is indexed, and one past it is not. */
  lemma OnlyBatchedOverflows(gates: seq<Gate>, base: nat, w: Witness, library: Library)
    requires 0 < base && |gates| == base + 1 && WitnessesOf(gates[0]) == [w] && IsText(w)
    requires forall needles :: library(needles)
    requires |NeedlesFor(gates, base, Automaton(w))| == base == MAX_NEEDLES
    requires |NeedlesFor(gates, base + 1, Automaton(w))| == base + 1
    ensures Orphan(gates, base + 1, 0, library) && !Orphan(gates, base, 0, library)
  {
    assert w in WitnessesOf(gates[0]);
  }

  lemma OrphanUncovers(gates: seq<Gate>, base: nat, i: nat, library: Library, any: Event)
    requires i < base <= |gates| && Orphan(gates, |gates|, i, library) && !Orphan(gates, base, i, library)
    ensures !Covers(gates, base, library)
  {
    IncrementalCovers(gates, base, library, any);
  }

  /**
    Appending does not always cover: with a library that takes every set, the rule after a full
    automaton overflows it, and the batched build frees rules the built index still gates.
   */
  lemma OverfullNotCovered(lower: string -> string, library: Library, any: Event)
    requires forall needles :: library(needles)
    ensures !Covers(GatesOf(TallyRules(), lower), MAX_NEEDLES, library)
  {
    var gates := GatesOf(TallyRules(), lower);
    forall i: nat | i < |gates| ensures Tallied(gates, i) { TallyGate(gates, lower, i); }
    TallyNeedles(gates, MAX_NEEDLES);
    TallyNeedles(gates, MAX_NEEDLES + 1);
    assert Tallied(gates, 0);
    OnlyBatchedOverflows(gates, MAX_NEEDLES, Substring("f", Tally(1)), library);
    OrphanUncovers(gates, MAX_NEEDLES, 0, library, any);
  }

  // ----- The product filter -----

  /** A product conflicts with the event's when both are given and differ. */
  predicate Conflicts(g: Gate, product: string) {
    g.product.Some? && g.product.value != product
  }

  /** The answer for an event of a known product. */
  ghost predicate Routed(gates: seq<Gate>, base: nat, i: nat, e: Event, product: string, library: Library)
    requires base <= |gates|
  {
    i < |gates|
    && ((Always(gates, base, i, library) && !Conflicts(gates[i], product)) || Held(gates, base, i)
        || exists w | w in WitnessesOf(gates[i]) :: Filed(gates, base, i, w, library) && FiresSparsely(w, e))
  }

  /** Routing only leaves out rules of the always-evaluated set whose product conflicts. */
  lemma RoutingDropsConflicts(gates: seq<Gate>, base: nat, i: nat, e: Event, product: string, library: Library)
    requires base <= |gates|
    ensures Routed(gates, base, i, e, product, library) ==> Candidate(gates, base, i, e, library)
    ensures Candidate(gates, base, i, e, library) && !Routed(gates, base, i, e, product, library)
            ==> Always(gates, base, i, library) && Conflicts(gates[i], product)
  {
    if Candidate(gates, base, i, e, library) && !Always(gates, base, i, library) && !Held(gates, base, i) {
      var w :| w in WitnessesOf(gates[i]) && FiresSparsely(w, e);
      if IsText(w) { assert i < base; }
      assert Filed(gates, base, i, w, library);
    }
  }

  /** A rule without a product, or with that of the event in any case, is routed exactly when it is a candidate. */
  lemma RoutingKeepsCompatible(rules: seq<Rule>, base: nat, i: nat, e: Event, product: string, lower: string -> string, library: Library)
    requires base <= |rules| && i < |rules|
    requires rules[i].product.Some? ==> lower(rules[i].product.value) == lower(product)
    ensures Routed(GatesOf(rules, lower), base, i, e, lower(product), library) <==> Candidate(GatesOf(rules, lower), base, i, e, library)
  {
    RoutingDropsConflicts(GatesOf(rules, lower), base, i, e, lower(product), library);
  }

  /** Any other rule is routed exactly when it is held or a witness it is filed under fires. */
  lemma RoutingSkipsOthers(rules: seq<Rule>, base: nat, i: nat, e: Event, product: string, lower: string -> string, library: Library)
    requires base <= |rules| && i < |rules|
    requires rules[i].product.Some? && lower(rules[i].product.value) != lower(product)
    ensures var gates := GatesOf(rules, lower);
            Routed(gates, base, i, e, lower(product), library)
            <==> Held(gates, base, i) || exists w | w in WitnessesOf(gates[i]) :: Filed(gates, base, i, w, library) && FiresSparsely(w, e)
  {
  }

  /** A candidate that is not always evaluated and not held is filed under a witness that fires. */
  lemma CandidateIsFiled(gates: seq<Gate>, base: nat, i: nat, e: Event, library: Library)
    requires base <= |gates|
    ensures Candidate(gates, base, i, e, library)
            <==> Always(gates, base, i, library) || Held(gates, base, i)
                 || exists w | w in WitnessesOfAll(gates, i) :: Filed(gates, base, i, w, library) && FiresSparsely(w, e)
  {
    if Candidate(gates, base, i, e, library) && !Always(gates, base, i, library) && !Held(gates, base, i) {
      var w :| w in WitnessesOf(gates[i]) && FiresSparsely(w, e);
      if IsText(w) { assert i < base; }
      assert w in WitnessesOfAll(gates, i) && Filed(gates, base, i, w, library);
    }
  }

  function WitnessesOfAll(gates: seq<Gate>, i: nat): seq<Witness> {
    if i < |gates| then WitnessesOf(gates[i]) else []
  }
}
