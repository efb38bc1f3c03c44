/** Exactly which rules convert at all (`crates/rsigma-convert/src/ir_convert.rs`, `condition_ir.rs`). */
module Convertible {
  import opened Results
  import opened SigmaIr
  import opened IrConvert
  import opened Meaning
  import opened QueryLeaves
  import OperatorTags

  /** The backend accepts the comparison, which names no unresolved source. */
  predicate ComparisonConverts(b: Backend, leaf: Leaf) {
    !Unresolved(leaf.matcher) && b.render(leaf).Ok?
  }

  /** Whether a value leaves query text: a list always does, a negation if what it negates does. */
  predicate LeavesText(b: Backend, field: string, m: Matcher)
    decreases m
  {
    match m
    case AnyOf(_) => true
    case AllOf(_) => true
    case Not(AnyOf(ms)) => exists i | 0 <= i < |ms| :: LeavesText(b, field, ms[i])
    case Not(AllOf(ms)) => exists i | 0 <= i < |ms| :: LeavesText(b, field, ms[i])
    case Not(inner) => LeavesText(b, field, inner)
    case _ => IsAtom(b, Leaf(Some(field), m))
  }

  /** Deferred comparisons of a value. */
  function QueuedCount(b: Backend, field: string, m: Matcher): nat {
    |Queued(b, Leaves(Some(field), m, false))|
  }

  /** A value without encodings, templates or time parts; no negation mixes text and deferred parts, or negates several at once under `all`. */
  predicate ValueConverts(b: Backend, field: string, m: Matcher)
    decreases m
  {
    match m
    case Encoded(_, _, _, _) => false
    case Expand(_, _, _) => false
    case TimestampPart(_, _) => false
    case AnyOf(ms) => forall i | 0 <= i < |ms| :: ValueConverts(b, field, ms[i])
    case AllOf(ms) => forall i | 0 <= i < |ms| :: ValueConverts(b, field, ms[i])
    case Not(inner) =>
      && ValueConverts(b, field, inner)
      && (QueuedCount(b, field, inner) > 0 ==> !LeavesText(b, field, m) && (inner.AllOf? ==> QueuedCount(b, field, inner) == 1))
    case _ => ComparisonConverts(b, Leaf(Some(field), m))
  }

  /** Only exact and containing text and numbers are keywords. */
  predicate KeywordConverts(b: Backend, m: Matcher) {
    ((m.Str? && (m.op == Exact || m.op == Contains)) || m.NumericEq?) && ComparisonConverts(b, Leaf(None, m))
  }

  predicate KeywordItemConverts(b: Backend, m: Matcher)
    decreases m
  {
    match m
    case AnyOf(ms) => forall i | 0 <= i < |ms| :: KeywordItemConverts(b, ms[i])
    case AllOf(ms) => forall i | 0 <= i < |ms| :: KeywordItemConverts(b, ms[i])
    case Not(inner) => KeywordItemConverts(b, inner)
    case _ => KeywordConverts(b, m)
  }

  predicate ItemConverts(b: Backend, item: DetectionItem) {
    if item.field.None? then KeywordItemConverts(b, item.matcher)
    else !b.refusesIndex(item.field.value) && ValueConverts(b, item.field.value, item.matcher)
  }

  predicate DetectionConverts(b: Backend, d: Detection)
    decreases d
  {
    match d
    case AllItems(items) => forall i | 0 <= i < |items| :: ItemConverts(b, items[i])
    case AnyDetection(dets) => forall i | 0 <= i < |dets| :: DetectionConverts(b, dets[i])
    case AndDetection(dets) => forall i | 0 <= i < |dets| :: DetectionConverts(b, dets[i])
    case Keywords(m) => if m.AnyOf? then forall i | 0 <= i < |m.ms| :: KeywordConverts(b, m.ms[i]) else KeywordConverts(b, m)
    case ArrayMatch(_, _, _) => false
    case Conditional(named, c) => ConditionConverts(b, InBlock, c, named)
  }

  predicate NamedConverts(b: Backend, named: seq<NamedDetection>, i: nat)
    requires i < |named|
    decreases named, 0
  {
    DetectionConverts(b, named[i].det)
  }

  /** `any`, `all` and, at the top, `1 of`, which must select something there. */
  predicate SelectorConverts(scope: Scope, q: Quantifier, pattern: SelectorPattern, named: seq<NamedDetection>) {
    && (scope == TopLevel ==> exists i | 0 <= i < |named| :: MatchesDetectionName(pattern, named[i].name))
    && (q == QAny || q == QAll || (scope == TopLevel && q == QCount(1)))
  }

  predicate ConditionConverts(b: Backend, scope: Scope, c: Condition, named: seq<NamedDetection>)
    decreases named, 1, c
  {
    match c
    case Named(name) => Lookup(named, name).Some? && NamedConverts(b, named, Lookup(named, name).value)
    case CondAnd(cs) => forall i | 0 <= i < |cs| :: ConditionConverts(b, scope, cs[i], named)
    case CondOr(cs) => forall i | 0 <= i < |cs| :: ConditionConverts(b, scope, cs[i], named)
    case CondNot(inner) => ConditionConverts(b, scope, inner, named)
    case Selector(q, pattern) =>
      && SelectorConverts(scope, q, pattern, named)
      && forall i | 0 <= i < |named| :: MatchesDetectionName(pattern, named[i].name) ==> NamedConverts(b, named, i)
  }

  // ----- Values -----

  lemma {:induction false} ValueExactly(b: Backend, field: string, m: Matcher)
    ensures RenderLeaf(b, field, m).Ok? <==> ValueConverts(b, field, m)
    ensures RenderLeaf(b, field, m).Ok? ==> (RenderLeaf(b, field, m).value.text.Some? <==> LeavesText(b, field, m))
    decreases m, 0
  {
    match m
    case AnyOf(ms) => ValuesExactly(b, field, ms, |ms|);
    case AllOf(ms) => ValuesExactly(b, field, ms, |ms|);
    case Not(inner) => NegationExactly(b, field, inner);
    case _ =>
  }

  lemma {:induction false} ValuesExactly(b: Backend, field: string, ms: seq<Matcher>, n: nat)
    requires n <= |ms|
    ensures RenderList(b, field, ms, n).Ok? <==> forall i | 0 <= i < n :: ValueConverts(b, field, ms[i])
    ensures RenderList(b, field, ms, n).Ok? ==>
              (RenderList(b, field, ms, n).value.operands != [] <==> exists i | 0 <= i < n :: LeavesText(b, field, ms[i]))
    decreases ms, n
  {
    if n > 0 {
      ValuesExactly(b, field, ms, n - 1);
      ValueExactly(b, field, ms[n - 1]);
    }
  }

  lemma {:induction false} InnerExactly(b: Backend, field: string, inner: Matcher)
    ensures RenderInner(b, field, inner).Ok? <==> ValueConverts(b, field, inner)
    ensures RenderInner(b, field, inner).Ok? ==>
              (RenderInner(b, field, inner).value.0.Some? <==> LeavesText(b, field, Not(inner)))
    decreases inner, 1
  {
    if inner.AnyOf? || inner.AllOf? { ValuesExactly(b, field, inner.ms, |inner.ms|); } else { ValueExactly(b, field, inner); }
  }

  lemma {:induction false} NegationExactly(b: Backend, field: string, inner: Matcher)
    ensures RenderNot(b, field, inner).Ok? <==> ValueConverts(b, field, Not(inner))
    ensures RenderNot(b, field, inner).Ok? ==> (RenderNot(b, field, inner).value.text.Some? <==> LeavesText(b, field, Not(inner)))
    decreases inner, 2
  {
    InnerExactly(b, field, inner);
    if RenderInner(b, field, inner).Ok? { InnerAccounts(b, field, inner); }
  }

  // ----- Keywords -----

  lemma {:induction false} KeywordItemExactly(b: Backend, m: Matcher)
    ensures RenderKeywordItem(b, m).Ok? <==> KeywordItemConverts(b, m)
    decreases m
  {
    match m
    case AnyOf(ms) => KeywordItemsExactly(b, ms, |ms|);
    case AllOf(ms) => KeywordItemsExactly(b, ms, |ms|);
    case Not(inner) => KeywordItemExactly(b, inner);
    case _ =>
  }

  lemma {:induction false} KeywordItemsExactly(b: Backend, ms: seq<Matcher>, n: nat)
    requires n <= |ms|
    ensures RenderKeywordItems(b, ms, n).Ok? <==> forall i | 0 <= i < n :: KeywordItemConverts(b, ms[i])
    decreases ms, n
  {
    if n > 0 {
      KeywordItemsExactly(b, ms, n - 1);
      KeywordItemExactly(b, ms[n - 1]);
    }
  }

  lemma {:induction false} KeywordTextsExactly(b: Backend, ms: seq<Matcher>, n: nat)
    requires n <= |ms|
    ensures RenderKeywordTexts(b, ms, n).Ok? <==> forall i | 0 <= i < n :: KeywordConverts(b, ms[i])
  {
    if n > 0 { KeywordTextsExactly(b, ms, n - 1); }
  }

  // ----- Detections and conditions -----

  lemma {:induction false} ItemsExactly(b: Backend, items: seq<DetectionItem>, n: nat)
    requires n <= |items|
    ensures RenderItems(b, items, n).Ok? <==> forall i | 0 <= i < n :: ItemConverts(b, items[i])
  {
    if n > 0 {
      ItemsExactly(b, items, n - 1);
      ItemExactly(b, items[n - 1]);
    }
  }

  lemma ItemExactly(b: Backend, item: DetectionItem)
    ensures RenderItem(b, item).Ok? <==> ItemConverts(b, item)
  {
    if item.field.None? { KeywordItemExactly(b, item.matcher); } else { ValueExactly(b, item.field.value, item.matcher); }
  }

  lemma {:induction false} DetectionExactly(b: Backend, d: Detection)
    ensures RenderDetection(b, d).Ok? <==> DetectionConverts(b, d)
    decreases d
  {
    match d
    case AllItems(items) => ItemsExactly(b, items, |items|);
    case AnyDetection(dets) => DetectionsExactly(b, dets, |dets|);
    case AndDetection(dets) => DetectionsExactly(b, dets, |dets|);
    case Keywords(m) =>
      var ms := if m.AnyOf? then m.ms else [m];
      KeywordTextsExactly(b, ms, |ms|);
      if !m.AnyOf? { assert ms[0] == m; }
    case Conditional(named, c) => ConditionExactly(b, InBlock, c, named);
    case ArrayMatch(_, _, _) =>
  }

  lemma {:induction false} DetectionsExactly(b: Backend, dets: seq<Detection>, n: nat)
    requires n <= |dets|
    ensures RenderDetections(b, dets, n).Ok? <==> forall i | 0 <= i < n :: DetectionConverts(b, dets[i])
    decreases dets, n
  {
    if n > 0 {
      DetectionsExactly(b, dets, n - 1);
      DetectionExactly(b, dets[n - 1]);
    }
  }

  lemma {:induction false} SelectedExactly(b: Backend, named: seq<NamedDetection>, pattern: SelectorPattern, n: nat)
    requires n <= |named|
    ensures RenderSelected(b, named, pattern, n).Ok?
            <==> forall i | 0 <= i < n :: MatchesDetectionName(pattern, named[i].name) ==> NamedConverts(b, named, i)
    decreases named, 0, n
  {
    if n > 0 {
      SelectedExactly(b, named, pattern, n - 1);
      var last: nat := n - 1;
      DetectionExactly(b, named[last].det);
      assert NamedConverts(b, named, last) == DetectionConverts(b, named[last].det);
    }
  }

  lemma {:induction false} SelectedSome(named: seq<NamedDetection>, pattern: SelectorPattern, n: nat)
    requires n <= |named|
    ensures |OperatorTags.SelectedOps(named, pattern, n)| > 0 <==> exists i | 0 <= i < n :: MatchesDetectionName(pattern, named[i].name)
  {
    if n > 0 { SelectedSome(named, pattern, n - 1); }
  }

  /** Main result: a condition converts exactly when the rule says so. */
  lemma {:induction false} ConditionExactly(b: Backend, scope: Scope, c: Condition, named: seq<NamedDetection>)
    ensures RenderCondition(b, scope, c, named).Ok? <==> ConditionConverts(b, scope, c, named)
    decreases named, 1, c
  {
    match c
    case Named(name) => if Lookup(named, name).Some? { DetectionExactly(b, named[Lookup(named, name).value].det); }
    case CondAnd(cs) => ConditionsExactly(b, scope, cs, named, |cs|);
    case CondOr(cs) => ConditionsExactly(b, scope, cs, named, |cs|);
    case CondNot(inner) => ConditionExactly(b, scope, inner, named);
    case Selector(q, pattern) =>
      SelectedSome(named, pattern, |named|);
      SelectedExactly(b, named, pattern, |named|);
  }

  lemma {:induction false} ConditionsExactly(b: Backend, scope: Scope, cs: seq<Condition>, named: seq<NamedDetection>, n: nat)
    requires n <= |cs|
    ensures RenderConditions(b, scope, cs, named, n).Ok? <==> forall i | 0 <= i < n :: ConditionConverts(b, scope, cs[i], named)
    decreases named, 1, cs, n
  {
    if n > 0 {
      ConditionsExactly(b, scope, cs, named, n - 1);
      ConditionExactly(b, scope, cs[n - 1], named);
    }
  }
}
