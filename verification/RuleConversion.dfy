/**
  Converting a lowered rule: encodings are expanded, then the condition is rendered over the
  expanded detections (`crates/rsigma-convert/src/condition_ir.rs`).
 */
module RuleConversion {
  import opened Results
  import opened SigmaIr
  import opened QueryText
  import opened IrConvert
  import opened OperatorTags
  import opened Meaning
  import opened Expansion
  import opened QueryCorrect
  import opened QueryComplete
  import Base64
  import Encodings
  import QueryGrammar

  /** The detections that conversion renders. */
  predicate Expanded(named: seq<NamedDetection>, named': seq<NamedDetection>) {
    ExpandNamed(named, |named|) == Ok(named')
  }

  // ----- Expansion adds no negation -----

  lemma {:induction false} ExpandedNegatesWhole(m: Matcher)
    requires NegatesWhole(m) && ExpandMatcher(m).Ok?
    ensures NegatesWhole(ExpandMatcher(m).value) && (ExpandMatcher(m).value.Not? <==> m.Not?)
    decreases m
  {
    match m
    case Encoded(es, op, p, ci) =>
      var vs := Encodings.ExpandEncoded(es, op, p).value;
      if |vs| != 1 {
        var ms := PlainMatches(vs, ci).ms;
        assert forall i | 0 <= i < |ms| :: ms[i].Str?;
      }
    case Not(inner) => ExpandedNegatesWhole(inner);
    case AnyOf(ms) => ExpandedListNegatesWhole(ms, |ms|);
    case AllOf(ms) => ExpandedListNegatesWhole(ms, |ms|);
    case _ =>
  }

  lemma {:induction false} ExpandedListNegatesWhole(ms: seq<Matcher>, n: nat)
    requires n <= |ms| && ExpandMatchers(ms, n).Ok? && forall i | 0 <= i < |ms| :: !ms[i].Not? && NegatesWhole(ms[i])
    ensures forall i | 0 <= i < n :: !ExpandMatchers(ms, n).value[i].Not? && NegatesWhole(ExpandMatchers(ms, n).value[i])
    decreases ms, n
  {
    if n > 0 {
      ExpandedListNegatesWhole(ms, n - 1);
      ExpandedNegatesWhole(ms[n - 1]);
    }
  }

  lemma {:induction false} ExpandedItemsNegateWhole(items: seq<DetectionItem>, n: nat)
    requires n <= |items| && ExpandItems(items, n).Ok? && forall i | 0 <= i < |items| :: NegatesWhole(items[i].matcher)
    ensures forall i | 0 <= i < n :: NegatesWhole(ExpandItems(items, n).value[i].matcher)
  {
    if n > 0 {
      ExpandedItemsNegateWhole(items, n - 1);
      ExpandedNegatesWhole(items[n - 1].matcher);
    }
  }

  lemma {:induction false} ExpandedDetectionNegatesWhole(d: Detection)
    requires DetectionNegatesWhole(d) && ExpandDetection(d).Ok?
    ensures DetectionNegatesWhole(ExpandDetection(d).value)
    decreases d
  {
    match d
    case AllItems(items) => ExpandedItemsNegateWhole(items, |items|);
    case AnyDetection(dets) => ExpandedDetectionsNegateWhole(dets, |dets|);
    case AndDetection(dets) => ExpandedDetectionsNegateWhole(dets, |dets|);
    case Keywords(m) => ExpandedNegatesWhole(m);
    case ArrayMatch(_, _, body) => ExpandedDetectionNegatesWhole(body);
    case Conditional(named, _) => ExpandedNamedNegateWhole(named, |named|);
  }

  lemma {:induction false} ExpandedDetectionsNegateWhole(dets: seq<Detection>, n: nat)
    requires n <= |dets| && ExpandDetections(dets, n).Ok? && forall i | 0 <= i < |dets| :: DetectionNegatesWhole(dets[i])
    ensures forall i | 0 <= i < n :: DetectionNegatesWhole(ExpandDetections(dets, n).value[i])
    decreases dets, n
  {
    if n > 0 {
      ExpandedDetectionsNegateWhole(dets, n - 1);
      ExpandedDetectionNegatesWhole(dets[n - 1]);
    }
  }

  lemma {:induction false} ExpandedNamedNegateWhole(named: seq<NamedDetection>, n: nat)
    requires n <= |named| && ExpandNamed(named, n).Ok? && forall i | 0 <= i < |named| :: DetectionNegatesWhole(named[i].det)
    ensures forall i | 0 <= i < n :: DetectionNegatesWhole(ExpandNamed(named, n).value[i].det)
    decreases named, n
  {
    if n > 0 {
      ExpandedNamedNegateWhole(named, n - 1);
      ExpandedDetectionNegatesWhole(named[n - 1].det);
    }
  }

  // ----- The whole pipeline -----

  /** Expand, render and read back: the truth of the condition over the encodings themselves. */
  lemma QueryMeansRule(b: Backend, c: Condition, named: seq<NamedDetection>, named': seq<NamedDetection>, view: View)
    requires b.precedence.Valid() && NoBlank(b) && Expanded(named, named') && ConditionFull(c, named')
    requires RenderCondition(b, TopLevel, c, named').Ok? && RenderCondition(b, TopLevel, c, named').value.deferred == []
    ensures var parsed := Parse(b.precedence, RenderCondition(b, TopLevel, c, named').value.text);
            parsed.Some? && Eval(parsed.value, view.leaf) == ConditionHolds(c, named, view)
  {
    ExpandRule(named, c);
    QueryMeansCondition(b, c, named', view);
  }

  /**
    Main result for rules as they are lowered, with a negation only around a whole value list: the
    query can be read exactly when expansion leaves no list empty, and then means what the rule does.
   */
  lemma ConvertsExactly(b: Backend, c: Condition, named: seq<NamedDetection>, named': seq<NamedDetection>, view: View)
    requires b.precedence.Valid() && NoBlank(b) && Expanded(named, named')
    requires forall i | 0 <= i < |named| :: DetectionNegatesWhole(named[i].det)
    requires RenderCondition(b, TopLevel, c, named').Ok? && RenderCondition(b, TopLevel, c, named').value.deferred == []
    ensures var parsed := Parse(b.precedence, RenderCondition(b, TopLevel, c, named').value.text);
            && (parsed.Some? <==> ConditionFull(c, named'))
            && (parsed.Some? ==> Eval(parsed.value, view.leaf) == ConditionHolds(c, named, view))
  {
    ExpandedNamedNegateWhole(named, |named|);
    ExpandRule(named, c);
    ParsesIffFull(b, c, named', view);
  }

  // ----- A value that expands to nothing -----

  /** A `base64offset` value of no bytes has no match at any alignment. */
  lemma EmptyOffsetValue(op: StrOp, p: Pattern)
    requires Encodings.AsPlain(p.parts) == Some("")
    ensures Encodings.ExpandEncoded([Base64Offset], op, p) == Ok([])
  {
    var es := [Base64Offset];
    assert es[1..] == [];
    assert Encodings.FindEncoding(es, Encodings.IsUtf16) == None;
    assert Encodings.FindEncoding(es, Encodings.IsBase64) == Some(Base64Offset);
    var bytes := Encodings.EncodedBytes(None, "");
    assert bytes == [];
    forall offset: nat | offset < 3 { Base64.EmittedIff(bytes, offset); }
    assert Base64.OffsetPatterns(bytes, 0) == [];
    assert Base64.OffsetPatterns(bytes, 1) == [];
    assert Base64.OffsetPatterns(bytes, 2) == [];
    assert Base64.OffsetPatterns(bytes, 3) == [];
    assert Encodings.AllContain([]) == [];
    var rs := Encodings.EncodeEach(None, Some(Base64Offset), op, [p]);
    assert rs[0] == Ok([]);
    assert Encodings.Gather(rs, 0) == Ok([]);
  }

  /** `f|base64offset|neq: ''` beside another item. */
  function NeqEmptyItems(op: StrOp, p: Pattern, ci: bool, x: Matcher): Detection {
    AllItems([DetectionItem(Some("f"), Not(Encoded([Base64Offset], op, p, ci))), DetectionItem(Some("g"), x)])
  }

  function NeqNothingItems(x: Matcher): Detection {
    AllItems([DetectionItem(Some("f"), Not(AnyOf([]))), DetectionItem(Some("g"), x)])
  }

  lemma NeqEmptyExpands(op: StrOp, p: Pattern, ci: bool, x: Matcher)
    requires Encodings.AsPlain(p.parts) == Some("") && x.Exists?
    ensures ExpandDetection(NeqEmptyItems(op, p, ci, x)) == Ok(NeqNothingItems(x))
  {
    EmptyOffsetValue(op, p);
    assert PlainMatches([], ci) == AnyOf([]);
    var encoded := Encoded([Base64Offset], op, p, ci);
    assert ExpandMatcher(encoded) == Ok(AnyOf([]));
    TwoItemsExpand(DetectionItem(Some("f"), Not(encoded)), DetectionItem(Some("g"), x), encoded, AnyOf([]));
  }

  lemma ExpandNext(items: seq<DetectionItem>, n: nat, before: seq<DetectionItem>, m: Matcher)
    requires n < |items| && ExpandItems(items, n) == Ok(before) && ExpandMatcher(items[n].matcher) == Ok(m)
    ensures ExpandItems(items, n + 1) == Ok(before + [items[n].(matcher := m)])
  {
  }

  lemma TwoItemsExpand(first: DetectionItem, second: DetectionItem, inner: Matcher, m: Matcher)
    requires first.matcher == Not(inner) && second.matcher.Exists? && ExpandMatcher(inner) == Ok(m)
    ensures ExpandDetection(AllItems([first, second])) == Ok(AllItems([first.(matcher := Not(m)), second]))
  {
    var items := [first, second];
    assert ExpandMatcher(Not(inner)) == Ok(Not(m));
    ExpandNext(items, 0, [], Not(m));
    assert [] + [first.(matcher := Not(m))] == [first.(matcher := Not(m))];
    ExpandNext(items, 1, [first.(matcher := Not(m))], second.matcher);
    assert second.(matcher := second.matcher) == second;
    assert [first.(matcher := Not(m))] + [second] == [first.(matcher := Not(m)), second];
  }

  lemma RenderNext(b: Backend, items: seq<DetectionItem>, n: nat, before: seq<Operand>, text: Text)
    requires n < |items| && RenderItems(b, items, n) == Ok(Pieces(before, [])) && RenderItem(b, items[n]) == Ok(Query(text, []))
    ensures RenderItems(b, items, n + 1) == Ok(Pieces(before + [Operand(text, MatcherOp(items[n].matcher))], []))
  {
    var none: seq<Deferred> := [];
    assert none + none == none;
  }

  lemma NeqNothingRenders(b: Backend, x: Matcher)
    requires x.Exists? && !b.refusesIndex("f") && !b.refusesIndex("g") && b.render(Leaf(Some("g"), x)).Ok?
    ensures RenderDetection(b, NeqNothingItems(x)) == Ok(Query([OpToken(AND), Atom(Leaf(Some("g"), x))], []))
  {
    var items, atom := NeqNothingItems(x).items, [Atom(Leaf(Some("g"), x))];
    assert RenderLeaf(b, "f", Not(AnyOf([]))) == Ok(Piece(None, []));
    assert RenderLeaf(b, "g", x) == RenderComparison(b, Leaf(Some("g"), x));
    RenderNext(b, items, 0, [], []);
    assert [] + [Operand([], Some(NOT))] == [Operand([], Some(NOT))];
    RenderNext(b, items, 1, [Operand([], Some(NOT))], atom);
    var os := [Operand([], Some(NOT))] + [Operand(atom, None)];
    assert Grouped(b.precedence, AND, os) == [[], atom];
    JoinTwo([], atom);
    assert Join(b.precedence, true, os) == [OpToken(AND), Atom(Leaf(Some("g"), x))];
  }

  lemma JoinTwo(t: Text, u: Text)
    ensures JoinText(AND, [t, u]) == t + [OpToken(AND)] + u
  {
    assert [t, u][1..] == [u];
  }

  /**
    The negated empty value holds on every event, so the detection means its other item; what it
    converts to is an AND without its first operand.
   */
  lemma NegatedEmptyValueUnreadable(b: Backend, op: StrOp, p: Pattern, ci: bool, x: Matcher, view: View)
    requires b.precedence.Valid() && Encodings.AsPlain(p.parts) == Some("")
    requires x.Exists? && !b.refusesIndex("f") && !b.refusesIndex("g") && b.render(Leaf(Some("g"), x)).Ok?
    ensures ExpandDetection(NeqEmptyItems(op, p, ci, x)) == Ok(NeqNothingItems(x))
    ensures DetectionHolds(NeqNothingItems(x), view) == view.leaf(Leaf(Some("g"), x))
    ensures RenderDetection(b, NeqNothingItems(x)).Ok? && Parse(b.precedence, RenderDetection(b, NeqNothingItems(x)).value.text).None?
  {
    NeqEmptyExpands(op, p, ci, x);
    NeqNothingRenders(b, x);
    NeqNothingMeans(x, view);
    LeadingAndUnreadable(b.precedence, [OpToken(AND), Atom(Leaf(Some("g"), x))]);
  }

  lemma NeqNothingMeans(x: Matcher, view: View)
    requires x.Exists?
    ensures DetectionHolds(NeqNothingItems(x), view) == view.leaf(Leaf(Some("g"), x))
  {
    var items := NeqNothingItems(x).items;
    assert MatcherHolds(items[0].matcher, Some("f"), view);
    assert MatcherHolds(items[1].matcher, Some("g"), view) == view.leaf(Leaf(Some("g"), x));
  }

  lemma LeadingAndUnreadable(p: Precedence, ts: Text)
    requires p.Valid()
    requires ts != [] && ts[0] == OpToken(AND)
    ensures Parse(p, ts).None?
  {
    if Parse(p, ts).Some? { QueryGrammar.ParseScans(p, 3, ts, None); }
  }
}
