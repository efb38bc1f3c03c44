/** What a gate does for a rule: it is a candidate only where one of its witnesses fires. */
module GatedRules {
  import opened Results
  import opened FieldPaths
  import opened Folding
  import opened Evaluation
  import opened Witnesses
  import opened IndexSpec
  import opened Gating
  import SigmaIr
  import EventStrings

  /** A gated rule that is neither held nor orphaned is a candidate exactly where a witness fires. */
  lemma GatedExactly(rules: seq<Rule>, base: nat, i: nat, e: Event, lower: string -> string, library: Library)
    requires base <= |rules| && i < |rules| && RuleGated(rules[i])
    requires !Held(GatesOf(rules, lower), base, i) && !Orphan(GatesOf(rules, lower), base, i, library)
    ensures AnalyzeRule(rules[i]).Known?
    ensures Candidate(GatesOf(rules, lower), base, i, e, library)
            <==> exists w | w in AnalyzeRule(rules[i]).ws :: FiresSparsely(w, e)
  {
    RuleGatedExactly(rules[i]);
    assert WitnessesOf(GatesOf(rules, lower)[i]) == AnalyzeRule(rules[i]).ws;
  }

  /** An ungated rule is a candidate for every event. */
  lemma UngatedAlways(rules: seq<Rule>, base: nat, i: nat, e: Event, lower: string -> string, library: Library)
    requires base <= |rules| && i < |rules| && !RuleGated(rules[i])
    ensures Candidate(GatesOf(rules, lower), base, i, e, library)
  {
    RuleGatedExactly(rules[i]);
  }

  /** Rules gated by equality or presence alone are never held or orphaned. */
  lemma NoTextNotFreed(gates: seq<Gate>, base: nat, i: nat, library: Library)
    requires base <= |gates| && i < |gates| && forall w | w in WitnessesOf(gates[i]) :: !IsText(w)
    ensures !Held(gates, base, i) && !Orphan(gates, base, i, library)
  {
  }

  // ----- A selection and a negated filter -----

  function SelectionRule(selection: Item, filter: CompiledDetection): Rule {
    Rule([NamedDetection("filter", filter), NamedDetection("selection", AllItems([selection]))],
         [SigmaIr.CondAnd([SigmaIr.Named("selection"), SigmaIr.CondNot(SigmaIr.Named("filter"))])], None)
  }

  /** The negation gives nothing, so the witnesses are those of the selection. */
  lemma SelectionGates(selection: Item, filter: CompiledDetection, w: Witness)
    requires AnalyzeItem(selection) == Known([w])
    ensures RuleGated(SelectionRule(selection, filter)) && AnalyzeRule(SelectionRule(selection, filter)) == Known([w])
  {
    var r := SelectionRule(selection, filter);
    var named, c := r.detections, r.conditions[0];
    assert named[..1][..0] == [] && named[..2] == named;
    assert Lookup(named, "selection") == Some(1);
    ItemFinds(selection);
    assert ItemGated([selection][0]) && DetectionGated(AllItems([selection]));
    assert ConditionGated(c.conds[0], named);
    ItemsKeepBest([selection]);
    ConjunctionKeepsBest(c.conds, named);
    var k: nat :| Chosen(ConditionParts(c.conds, named), 2, k) && AnalyzeCondition(c, named) == AnalyzeCondition(c.conds[k], named);
    assert k == 0;
    assert AnalyzeCondition(c, named) == Known([w]);
    OneCondition(r, w);
  }

  lemma OneCondition(r: Rule, w: Witness)
    requires |r.conditions| == 1 && AnalyzeCondition(r.conditions[0], r.detections) == Known([w])
    ensures RuleGated(r) && AnalyzeRule(r) == Known([w])
  {
    RuleIs(r);
    var parts := ConditionParts(r.conditions, r.detections);
    assert OrCombine(parts, 0) == Known([]) && parts[0] == Known([w]);
    assert OrCombine(parts, 1) == Known([w]);
    assert [w][..0] == [] && Dedup([]) == [];
    assert Dedup([w]) == [w];
    RuleGatedExactly(r);
  }

  function EventIs4688(): Item {
    Item(Some("EventID"), StrMatch(SigmaIr.Exact, "4688", true), None)
  }

  function IdEvent(any: Event): Event {
    any.(root := JObj([Entry("EventID", JStr("1"))]))
  }

  lemma OtherIdSilent(any: Event)
    requires |any.fold("1")| == 1
    ensures !Fires(ExactIs("EventID", "4688"), IdEvent(any))
  {
    var root := IdEvent(any).root;
    assert root.entries[0].key == "EventID" && GetField(root, "EventID") == Some(JStr("1"));
    assert Projections(JStr("1")) == ["1"];
  }

  lemma FoldsOne(fold: string -> string)
    requires IsFold(fold)
    ensures |fold("1")| == 1
  {
    assert IsAscii("1");
  }

  /** An event with another identifier does not make the rule a candidate. */
  lemma OtherEventSkipped(filter: CompiledDetection, any: Event, lower: string -> string, library: Library)
    requires IsFold(any.fold)
    ensures !Candidate(GatesOf([SelectionRule(EventIs4688(), filter)], lower), 1, 0, IdEvent(any), library)
  {
    var rules := [SelectionRule(EventIs4688(), filter)];
    var w := ExactIs("EventID", "4688");
    LeafWitness(SigmaIr.Exact, "4688", true, "EventID");
    SelectionGates(EventIs4688(), filter, w);
    FoldsOne(any.fold);
    OtherIdSilent(any);
    OneWitnessSkipped(rules, w, IdEvent(any), lower, library);
  }

  lemma OneWitnessSkipped(rules: seq<Rule>, w: Witness, e: Event, lower: string -> string, library: Library)
    requires |rules| == 1 && RuleGated(rules[0]) && AnalyzeRule(rules[0]) == Known([w]) && !IsText(w) && !Fires(w, e)
    ensures !Candidate(GatesOf(rules, lower), 1, 0, e, library)
  {
    NoTextNotFreed(GatesOf(rules, lower), 1, 0, library);
    GatedExactly(rules, 1, 0, e, lower, library);
  }

  // ----- When a witness fires -----

  /** On a field: it is there, and one of its texts, folded, is the value or contains the needle. */
  lemma FieldFires(w: Witness, e: Event)
    requires IsFold(e.fold) && !w.Keyword?
    ensures Fires(w, e) ==> GetField(e.root, w.field).Some?
    ensures GetField(e.root, w.field).Some? ==>
              var v := GetField(e.root, w.field).value;
              Fires(w, e) <==> match w
                case Presence(_) => true
                case ExactIs(_, value) => exists s: string :: EventStrings.HasText(v, s) && e.fold(s) == value
                case Substring(_, needle) => exists s: string :: EventStrings.HasText(v, s) && Infix(AsciiLower(needle), e.fold(s))
                case Keyword(_) => false
  {
    if GetField(e.root, w.field).Some? {
      var v := GetField(e.root, w.field).value;
      forall s: string ensures s in Projections(v) <==> EventStrings.HasText(v, s) { EventStrings.ProjectionsAre(v, s); }
      if w.Substring? {
        forall s: string ensures Occurs(w.needle, e.fold(s)) <==> Infix(AsciiLower(w.needle), e.fold(s)) {
          InPlaceSearch(w.needle, s, e.fold);
        }
      }
    }
  }

  /** A keyword: some text of the event, fewer than 64 steps in, contains it when folded. */
  lemma KeywordFiresExactly(needle: string, e: Event)
    requires IsFold(e.fold)
    ensures Fires(Keyword(needle), e)
            <==> exists s: string :: EventStrings.ReachesText(e.root, 64, s) && Infix(AsciiLower(needle), e.fold(s))
  {
    forall s: string ensures s in StringValues(e) <==> EventStrings.ReachesText(e.root, 64, s) { EventStrings.StringsAre(e.root, 64, s); }
    forall s: string ensures Occurs(needle, e.fold(s)) <==> Infix(AsciiLower(needle), e.fold(s)) { InPlaceSearch(needle, s, e.fold); }
  }
}
