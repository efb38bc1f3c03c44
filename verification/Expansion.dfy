/** Rewriting encoded matchers into plain string matches throughout a detection tree. */
module Expansion {
  import opened Results
  import opened SigmaIr
  import opened Windash
  import opened Meaning
  import opened OperatorTags
  import Encodings
  import QueryText

  /** One plain match, or an any-of when there are several variants. */
  function PlainMatches(vs: seq<Encodings.StrVariant>, ci: bool): Matcher {
    if |vs| == 1 then Str(vs[0].0, vs[0].1, ci)
    else AnyOf(seq(|vs|, i requires 0 <= i < |vs| => Str(vs[i].0, vs[i].1, ci)))
  }

  function ExpandMatcher(m: Matcher): Result<Matcher, IrError>
    decreases m
  {
    match m
    case Encoded(es, op, p, ci) =>
      var vs :- Encodings.ExpandEncoded(es, op, p);
      Ok(PlainMatches(vs, ci))
    case Not(inner) =>
      var inner' :- ExpandMatcher(inner);
      Ok(Not(inner'))
    case TimestampPart(part, inner) =>
      var inner' :- ExpandMatcher(inner);
      Ok(TimestampPart(part, inner'))
    case AnyOf(ms) =>
      var ms' :- ExpandMatchers(ms, |ms|);
      Ok(AnyOf(ms'))
    case AllOf(ms) =>
      var ms' :- ExpandMatchers(ms, |ms|);
      Ok(AllOf(ms'))
    case _ => Ok(m)
  }

  function ExpandMatchers(ms: seq<Matcher>, n: nat): (r: Result<seq<Matcher>, IrError>)
    requires n <= |ms|
    ensures r.Ok? ==> |r.value| == n
    decreases ms, n
  {
    if n == 0 then Ok([])
    else
      var before :- ExpandMatchers(ms, n - 1);
      var last :- ExpandMatcher(ms[n - 1]);
      Ok(before + [last])
  }

  function ExpandItems(items: seq<DetectionItem>, n: nat): (r: Result<seq<DetectionItem>, IrError>)
    requires n <= |items|
    ensures r.Ok? ==> |r.value| == n
    decreases items, n
  {
    if n == 0 then Ok([])
    else
      var before :- ExpandItems(items, n - 1);
      var m :- ExpandMatcher(items[n - 1].matcher);
      Ok(before + [items[n - 1].(matcher := m)])
  }

  function ExpandDetection(d: Detection): Result<Detection, IrError>
    decreases d
  {
    match d
    case AllItems(items) =>
      var items' :- ExpandItems(items, |items|);
      Ok(AllItems(items'))
    case AnyDetection(dets) =>
      var dets' :- ExpandDetections(dets, |dets|);
      Ok(AnyDetection(dets'))
    case AndDetection(dets) =>
      var dets' :- ExpandDetections(dets, |dets|);
      Ok(AndDetection(dets'))
    case Keywords(m) =>
      var m' :- ExpandMatcher(m);
      Ok(Keywords(m'))
    case ArrayMatch(field, q, body) =>
      var body' :- ExpandDetection(body);
      Ok(ArrayMatch(field, q, body'))
    case Conditional(named, c) =>
      var named' :- ExpandNamed(named, |named|);
      Ok(Conditional(named', c))
  }

  function ExpandDetections(dets: seq<Detection>, n: nat): (r: Result<seq<Detection>, IrError>)
    requires n <= |dets|
    ensures r.Ok? ==> |r.value| == n
    decreases dets, n
  {
    if n == 0 then Ok([])
    else
      var before :- ExpandDetections(dets, n - 1);
      var last :- ExpandDetection(dets[n - 1]);
      Ok(before + [last])
  }

  /** `expand_encoded_detections`: every detection of a map. */
  function ExpandNamed(named: seq<NamedDetection>, n: nat): (r: Result<seq<NamedDetection>, IrError>)
    requires n <= |named|
    ensures r.Ok? ==> |r.value| == n
    decreases named, n
  {
    if n == 0 then Ok([])
    else
      var before :- ExpandNamed(named, n - 1);
      var det :- ExpandDetection(named[n - 1].det);
      Ok(before + [NamedDetection(named[n - 1].name, det)])
  }

  // ----- No encoded matcher is left -----

  predicate MatcherPlain(m: Matcher)
    decreases m
  {
    match m
    case Encoded(_, _, _, _) => false
    case Not(inner) => MatcherPlain(inner)
    case TimestampPart(_, inner) => MatcherPlain(inner)
    case AnyOf(ms) => forall i | 0 <= i < |ms| :: MatcherPlain(ms[i])
    case AllOf(ms) => forall i | 0 <= i < |ms| :: MatcherPlain(ms[i])
    case _ => true
  }

  predicate DetectionPlain(d: Detection)
    decreases d
  {
    match d
    case AllItems(items) => forall i | 0 <= i < |items| :: MatcherPlain(items[i].matcher)
    case AnyDetection(dets) => forall i | 0 <= i < |dets| :: DetectionPlain(dets[i])
    case AndDetection(dets) => forall i | 0 <= i < |dets| :: DetectionPlain(dets[i])
    case Keywords(m) => MatcherPlain(m)
    case ArrayMatch(_, _, body) => DetectionPlain(body)
    case Conditional(named, _) => forall i | 0 <= i < |named| :: DetectionPlain(named[i].det)
  }

  /** What expansion promises of one matcher: plain, same tag, same truth everywhere. */
  ghost predicate MatcherAgrees(m: Matcher, m': Matcher) {
    && MatcherPlain(m')
    && MatcherOp(m') == MatcherOp(m)
    && forall field, view :: MatcherHolds(m', field, view) == MatcherHolds(m, field, view)
  }

  /** Some of the plain matches holds. */
  predicate SomeVariantHolds(vs: seq<Encodings.StrVariant>, ci: bool, field: Option<string>, view: View) {
    exists i | 0 <= i < |vs| :: view.leaf(Leaf(field, Str(vs[i].0, vs[i].1, ci)))
  }

  lemma PlainMatchesHold(vs: seq<Encodings.StrVariant>, ci: bool, field: Option<string>, view: View)
    ensures MatcherHolds(PlainMatches(vs, ci), field, view) == SomeVariantHolds(vs, ci, field, view)
  {
    var m := PlainMatches(vs, ci);
    if |vs| == 1 {
      assert MatcherHolds(m, field, view) == view.leaf(Leaf(field, Str(vs[0].0, vs[0].1, ci)));
    } else {
      assert forall i | 0 <= i < |vs| :: MatcherHolds(m.ms[i], field, view) == view.leaf(Leaf(field, Str(vs[i].0, vs[i].1, ci)));
    }
  }

  lemma EncodedHolds(es: seq<Encoding>, op: StrOp, p: Pattern, ci: bool, field: Option<string>, view: View)
    requires Encodings.ExpandEncoded(es, op, p).Ok?
    ensures MatcherHolds(Encoded(es, op, p, ci), field, view)
            == SomeVariantHolds(Encodings.ExpandEncoded(es, op, p).value, ci, field, view)
  {
  }

  lemma PlainMatchesTag(vs: seq<Encodings.StrVariant>, ci: bool)
    ensures MatcherPlain(PlainMatches(vs, ci)) && MatcherOp(PlainMatches(vs, ci)) == if |vs| > 1 then Some(QueryText.OR) else None
  {
    if |vs| != 1 {
      var ms := PlainMatches(vs, ci).ms;
      assert forall i | 0 <= i < |ms| :: ms[i].Str?;
    }
  }

  lemma PlainMatchesAgree(es: seq<Encoding>, op: StrOp, p: Pattern, ci: bool)
    requires Encodings.ExpandEncoded(es, op, p).Ok?
    ensures MatcherAgrees(Encoded(es, op, p, ci), PlainMatches(Encodings.ExpandEncoded(es, op, p).value, ci))
  {
    PlainMatchesTag(Encodings.ExpandEncoded(es, op, p).value, ci);
    var vs := Encodings.ExpandEncoded(es, op, p).value;
    forall field, view: View
      ensures MatcherHolds(PlainMatches(vs, ci), field, view) == MatcherHolds(Encoded(es, op, p, ci), field, view)
    {
      PlainMatchesHold(vs, ci, field, view);
      EncodedHolds(es, op, p, ci, field, view);
    }
  }

  /** Expanding a matcher removes every encoding and changes neither its truth nor its tag. */
  lemma {:induction false} ExpandMatcherAgrees(m: Matcher)
    requires ExpandMatcher(m).Ok?
    ensures MatcherAgrees(m, ExpandMatcher(m).value)
    decreases m
  {
    match m
    case Encoded(es, op, p, ci) => PlainMatchesAgree(es, op, p, ci);
    case Not(inner) => ExpandMatcherAgrees(inner);
    case TimestampPart(_, inner) => ExpandMatcherAgrees(inner);
    case AnyOf(ms) => ExpandMatchersAgree(ms, |ms|);
    case AllOf(ms) => ExpandMatchersAgree(ms, |ms|);
    case _ =>
  }

  lemma {:induction false} ExpandMatchersAgree(ms: seq<Matcher>, n: nat)
    requires n <= |ms| && ExpandMatchers(ms, n).Ok?
    ensures forall i | 0 <= i < n :: MatcherAgrees(ms[i], ExpandMatchers(ms, n).value[i])
    decreases ms, n
  {
    if n > 0 {
      ExpandMatchersAgree(ms, n - 1);
      ExpandMatcherAgrees(ms[n - 1]);
    }
  }

  lemma {:induction false} ExpandItemsAgree(items: seq<DetectionItem>, n: nat)
    requires n <= |items| && ExpandItems(items, n).Ok?
    ensures forall i | 0 <= i < n ::
              && ExpandItems(items, n).value[i].field == items[i].field
              && MatcherAgrees(items[i].matcher, ExpandItems(items, n).value[i].matcher)
  {
    if n > 0 {
      ExpandItemsAgree(items, n - 1);
      ExpandMatcherAgrees(items[n - 1].matcher);
    }
  }

  ghost predicate DetectionAgrees(d: Detection, d': Detection) {
    && DetectionPlain(d')
    && DetectionOp(d') == DetectionOp(d)
    && forall view :: DetectionHolds(d', view) == DetectionHolds(d, view)
  }

  ghost predicate NamedAgree(named: seq<NamedDetection>, named': seq<NamedDetection>) {
    && |named'| == |named|
    && forall i | 0 <= i < |named| :: named'[i].name == named[i].name && DetectionAgrees(named[i].det, named'[i].det)
  }

  lemma {:induction false} LookupAgrees(named: seq<NamedDetection>, named': seq<NamedDetection>, name: string)
    requires |named'| == |named| && forall i | 0 <= i < |named| :: named'[i].name == named[i].name
    ensures Lookup(named', name) == Lookup(named, name)
  {
    if |named| > 0 {
      LookupAgrees(named[..|named| - 1], named'[..|named'| - 1], name);
    }
  }

  lemma {:induction false} SelectedAgree(named: seq<NamedDetection>, named': seq<NamedDetection>, pattern: SelectorPattern, n: nat)
    requires NamedAgree(named, named') && n <= |named|
    ensures SelectedOps(named', pattern, n) == SelectedOps(named, pattern, n)
    ensures forall view :: CountHolding(named', pattern, view, n) == CountHolding(named, pattern, view, n)
  {
    if n > 0 {
      SelectedAgree(named, named', pattern, n - 1);
      var last: nat := n - 1;
      assert forall view :: NameHolds(named', last, view) == NameHolds(named, last, view);
      assert NamedOp(named', last) == NamedOp(named, last);
    }
  }

  /** A condition over expanded detections keeps its tag and its truth. */
  lemma {:induction false} ConditionAgrees(c: Condition, named: seq<NamedDetection>, named': seq<NamedDetection>)
    requires NamedAgree(named, named')
    ensures ConditionOp(c, named') == ConditionOp(c, named)
    ensures forall view :: ConditionHolds(c, named', view) == ConditionHolds(c, named, view)
    decreases c
  {
    match c
    case Named(name) =>
      LookupAgrees(named, named', name);
      if Lookup(named, name).Some? {
        var i := Lookup(named, name).value;
        assert NamedOp(named', i) == NamedOp(named, i);
        assert forall view :: NameHolds(named', i, view) == NameHolds(named, i, view);
      }
    case CondAnd(cs) =>
      forall i | 0 <= i < |cs| { ConditionAgrees(cs[i], named, named'); }
    case CondOr(cs) =>
      forall i | 0 <= i < |cs| { ConditionAgrees(cs[i], named, named'); }
    case CondNot(inner) => ConditionAgrees(inner, named, named');
    case Selector(q, pattern) =>
      SelectedAgree(named, named', pattern, |named|);
      forall i: nat, view | i < |named|
        ensures NameHolds(named', i, view) == NameHolds(named, i, view)
      {
      }
  }

  lemma ArrayAgrees(field: string, q: ArrayQuantifier, body: Detection, body': Detection)
    requires DetectionAgrees(body, body')
    ensures DetectionAgrees(ArrayMatch(field, q, body), ArrayMatch(field, q, body'))
  {
    forall view: View
      ensures DetectionHolds(ArrayMatch(field, q, body'), view) == DetectionHolds(ArrayMatch(field, q, body), view)
    {
      var vs := view.Members(field);
      assert seq(|vs|, i requires 0 <= i < |vs| => DetectionHolds(body', vs[i]))
          == seq(|vs|, i requires 0 <= i < |vs| => DetectionHolds(body, vs[i]));
    }
  }

  /** Expanding a detection removes every encoding at any depth, and keeps its truth and its tag. */
  lemma {:induction false} ExpandDetectionAgrees(d: Detection)
    requires ExpandDetection(d).Ok?
    ensures DetectionAgrees(d, ExpandDetection(d).value)
    decreases d
  {
    match d
    case AllItems(items) => ExpandItemsAgree(items, |items|);
    case AnyDetection(dets) => ExpandDetectionsAgree(dets, |dets|);
    case AndDetection(dets) => ExpandDetectionsAgree(dets, |dets|);
    case Keywords(m) => ExpandMatcherAgrees(m);
    case ArrayMatch(field, q, body) =>
      ExpandDetectionAgrees(body);
      ArrayAgrees(field, q, body, ExpandDetection(body).value);
    case Conditional(named, c) =>
      ExpandNamedAgrees(named, |named|);
      var named' := ExpandNamed(named, |named|).value;
      assert named[..|named|] == named;
      ConditionAgrees(c, named, named');
  }

  lemma {:induction false} ExpandDetectionsAgree(dets: seq<Detection>, n: nat)
    requires n <= |dets| && ExpandDetections(dets, n).Ok?
    ensures forall i | 0 <= i < n :: DetectionAgrees(dets[i], ExpandDetections(dets, n).value[i])
    decreases dets, n
  {
    if n > 0 {
      ExpandDetectionsAgree(dets, n - 1);
      ExpandDetectionAgrees(dets[n - 1]);
    }
  }

  lemma {:induction false} ExpandNamedAgrees(named: seq<NamedDetection>, n: nat)
    requires n <= |named| && ExpandNamed(named, n).Ok?
    ensures NamedAgree(named[..n], ExpandNamed(named, n).value)
    decreases named, n
  {
    if n > 0 {
      ExpandNamedAgrees(named, n - 1);
      ExpandDetectionAgrees(named[n - 1].det);
      assert forall i | 0 <= i < n - 1 :: named[..n][i] == named[..n - 1][i];
    }
  }

  // ----- Expanding twice is expanding once -----

  lemma {:induction false} PlainMatcherStays(m: Matcher)
    requires MatcherPlain(m)
    ensures ExpandMatcher(m) == Ok(m)
    decreases m
  {
    match m
    case Not(inner) => PlainMatcherStays(inner);
    case TimestampPart(_, inner) => PlainMatcherStays(inner);
    case AnyOf(ms) => PlainMatchersStay(ms, |ms|); assert ms[..|ms|] == ms;
    case AllOf(ms) => PlainMatchersStay(ms, |ms|); assert ms[..|ms|] == ms;
    case _ =>
  }

  lemma {:induction false} PlainMatchersStay(ms: seq<Matcher>, n: nat)
    requires n <= |ms| && forall i | 0 <= i < |ms| :: MatcherPlain(ms[i])
    ensures ExpandMatchers(ms, n) == Ok(ms[..n])
    decreases ms, n
  {
    if n > 0 {
      PlainMatchersStay(ms, n - 1);
      PlainMatcherStays(ms[n - 1]);
      assert ms[..n] == ms[..n - 1] + [ms[n - 1]];
    }
  }

  lemma {:induction false} PlainItemsStay(items: seq<DetectionItem>, n: nat)
    requires n <= |items| && forall i | 0 <= i < |items| :: MatcherPlain(items[i].matcher)
    ensures ExpandItems(items, n) == Ok(items[..n])
  {
    if n > 0 {
      PlainItemsStay(items, n - 1);
      PlainMatcherStays(items[n - 1].matcher);
      assert items[..n] == items[..n - 1] + [items[n - 1]];
    }
  }

  lemma {:induction false} PlainDetectionStays(d: Detection)
    requires DetectionPlain(d)
    ensures ExpandDetection(d) == Ok(d)
    decreases d
  {
    match d
    case AllItems(items) => PlainItemsStay(items, |items|); assert items[..|items|] == items;
    case AnyDetection(dets) => PlainDetectionsStay(dets, |dets|); assert dets[..|dets|] == dets;
    case AndDetection(dets) => PlainDetectionsStay(dets, |dets|); assert dets[..|dets|] == dets;
    case Keywords(m) => PlainMatcherStays(m);
    case ArrayMatch(_, _, body) => PlainDetectionStays(body);
    case Conditional(named, _) => PlainNamedStay(named, |named|); assert named[..|named|] == named;
  }

  lemma {:induction false} PlainDetectionsStay(dets: seq<Detection>, n: nat)
    requires n <= |dets| && forall i | 0 <= i < |dets| :: DetectionPlain(dets[i])
    ensures ExpandDetections(dets, n) == Ok(dets[..n])
    decreases dets, n
  {
    if n > 0 {
      PlainDetectionsStay(dets, n - 1);
      PlainDetectionStays(dets[n - 1]);
      assert dets[..n] == dets[..n - 1] + [dets[n - 1]];
    }
  }

  lemma {:induction false} PlainNamedStay(named: seq<NamedDetection>, n: nat)
    requires n <= |named| && forall i | 0 <= i < |named| :: DetectionPlain(named[i].det)
    ensures ExpandNamed(named, n) == Ok(named[..n])
    decreases named, n
  {
    if n > 0 {
      PlainNamedStay(named, n - 1);
      PlainDetectionStays(named[n - 1].det);
      assert named[..n] == named[..n - 1] + [named[n - 1]];
    }
  }

  /** The whole pass over a rule's detections: plain, meaning kept under any condition, idempotent. */
  lemma ExpandRule(named: seq<NamedDetection>, c: Condition)
    requires ExpandNamed(named, |named|).Ok?
    ensures var named' := ExpandNamed(named, |named|).value;
            && (forall i | 0 <= i < |named'| :: DetectionPlain(named'[i].det))
            && ConditionOp(c, named') == ConditionOp(c, named)
            && (forall view :: ConditionHolds(c, named', view) == ConditionHolds(c, named, view))
            && ExpandNamed(named', |named'|) == Ok(named')
  {
    var named' := ExpandNamed(named, |named|).value;
    ExpandNamedAgrees(named, |named|);
    assert named[..|named|] == named;
    ConditionAgrees(c, named, named');
    PlainNamedStay(named', |named'|);
    assert named'[..|named'|] == named';
  }
}
