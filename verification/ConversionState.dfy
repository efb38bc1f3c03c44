/**
  The renderers as they run: they return query text and push deferred parts onto the state of
  the condition being converted (`crates/rsigma-convert/src/state.rs`, `ir_convert.rs`).
 */
module ConversionStates {
  import opened Results
  import opened SigmaIr
  import opened QueryText
  import opened OperatorTags
  import opened IrConvert
  import Meaning

  class ConversionState {
    var deferred: seq<Deferred>

    constructor ()
      ensures deferred == []
    {
      deferred := [];
    }

    method AddDeferred(d: Deferred)
      modifies this
      ensures deferred == old(deferred) + [d]
    {
      deferred := deferred + [d];
    }

    /** Negates in place every part queued since `start`. */
    method NegateFrom(start: nat)
      requires start <= |deferred|
      modifies this
      ensures deferred == old(deferred)[..start] + NegateAll(old(deferred)[start..])
    {
      var i := start;
      while i < |deferred|
        invariant start <= i <= |deferred| == |old(deferred)|
        invariant forall k | 0 <= k < |deferred| ::
                    deferred[k] == if start <= k < i then old(deferred)[k].Negate() else old(deferred)[k]
      {
        deferred := deferred[i := deferred[i].Negate()];
        i := i + 1;
      }
    }

    /** The parts converted so far, and what they deferred on top of what was there. */
    ghost predicate Converted(done: Result<Pieces, ConvertError>, parts: seq<Operand>, start: seq<Deferred>)
      reads this
    {
      done.Ok? && done.value.operands == parts && deferred == start + done.value.deferred
    }

    method ConvertComparison(b: Backend, leaf: Leaf) returns (r: Result<Option<Text>, ConvertError>)
      modifies this
      ensures r.Err? ==> deferred == old(deferred)
      ensures match RenderComparison(b, leaf)
              case Ok(piece) => r == Ok(piece.text) && deferred == old(deferred) + piece.deferred
              case Err(e) => r == Err(e)
    {
      if Unresolved(leaf.matcher) {
        return Err(DynamicSource(leaf.matcher.number.sourceId));
      }
      var rendering := b.render(leaf);
      if rendering.Err? {
        return Err(rendering.error);
      }
      if rendering.value == Inline || !Deferrable(leaf.matcher) {
        return Ok(Some([Atom(leaf)]));
      }
      if rendering.value == Defer {
        AddDeferred(Deferred(leaf, false));
      }
      return Ok(None);
    }

    /** Converts one matcher of a field; parts queued before the call keep their place and sign. */
    method ConvertLeaf(b: Backend, field: string, m: Matcher) returns (r: Result<Option<Text>, ConvertError>)
      modifies this
      ensures old(deferred) <= deferred
      ensures match RenderLeaf(b, field, m)
              case Ok(piece) => r == Ok(piece.text) && deferred == old(deferred) + piece.deferred
              case Err(e) => r == Err(e)
      decreases m, 0
    {
      match m {
        case Encoded(_, _, _, _) => return Err(Unexpanded);
        case Expand(_, _, _) => return Err(UnsupportedModifier);
        case TimestampPart(_, _) => return Err(UnsupportedModifier);
        case Not(inner) => r := ConvertNot(b, field, inner);
        case AnyOf(ms) =>
          var parts :- ConvertMatcherList(b, field, ms);
          return Ok(Some(Join(b.precedence, false, parts)));
        case AllOf(ms) =>
          var parts :- ConvertMatcherList(b, field, ms);
          return Ok(Some(Join(b.precedence, true, parts)));
        case _ => r := ConvertComparison(b, Leaf(Some(field), m));
      }
    }

    method AddMatcher(b: Backend, field: string, ms: seq<Matcher>, i: nat, parts: seq<Operand>, ghost start: seq<Deferred>)
      returns (r: Result<seq<Operand>, ConvertError>)
      requires i < |ms| && Converted(RenderList(b, field, ms, i), parts, start)
      modifies this
      ensures old(deferred) <= deferred
      ensures r.Ok? ==> Converted(RenderList(b, field, ms, i + 1), r.value, start)
      ensures r.Err? ==> RenderList(b, field, ms, |ms|) == Err(r.error)
      decreases ms, i
    {
      ListStep(b, field, ms, i);
      var q :- ConvertLeaf(b, field, ms[i]);
      return Ok(if q.Some? then parts + [Operand(q.value, MatcherOp(ms[i]))] else parts);
    }

    method ConvertMatcherList(b: Backend, field: string, ms: seq<Matcher>) returns (r: Result<seq<Operand>, ConvertError>)
      modifies this
      ensures old(deferred) <= deferred
      ensures match RenderList(b, field, ms, |ms|)
              case Ok(parts) => r.Ok? && r.value == parts.operands && deferred == old(deferred) + parts.deferred
              case Err(e) => r == Err(e)
      decreases ms, |ms|
    {
      var parts: seq<Operand> := [];
      for i := 0 to |ms|
        invariant Converted(RenderList(b, field, ms, i), parts, old(deferred))
      {
        parts :- AddMatcher(b, field, ms, i, parts, old(deferred));
      }
      return Ok(parts);
    }

    /** `|neq`: negates the text, or in place the parts that rendering the values just queued. */
    method ConvertNot(b: Backend, field: string, inner: Matcher) returns (r: Result<Option<Text>, ConvertError>)
      modifies this
      ensures old(deferred) <= deferred
      ensures match RenderNot(b, field, inner)
              case Ok(piece) => r == Ok(piece.text) && deferred == old(deferred) + piece.deferred
              case Err(e) => r == Err(e)
      decreases inner, 2
    {
      var before := |deferred|;
      var operand: Option<Operand> := None;
      if inner.AnyOf? || inner.AllOf? {
        var parts :- ConvertMatcherList(b, field, inner.ms);
        if parts != [] {
          var op := if |parts| == 1 then parts[0].op else MatcherOp(inner);
          operand := Some(Operand(Join(b.precedence, inner.AllOf?, parts), op));
        }
      } else {
        var q :- ConvertLeaf(b, field, inner);
        if q.Some? {
          operand := Some(Operand(q.value, MatcherOp(inner)));
        }
      }
      assert RenderInner(b, field, inner) == Ok((operand, deferred[before..]));
      if before < |deferred| {
        if operand.Some? {
          return Err(NeqMixesDeferred);
        }
        if |deferred| - before > 1 && inner.AllOf? {
          return Err(NeqOverAllDeferred);
        }
        NegateFrom(before);
        return Ok(None);
      }
      if operand.None? {
        return Ok(None);
      }
      return Ok(Some(NegateOperand(b.precedence, operand.value)));
    }

    method ConvertItem(b: Backend, item: DetectionItem) returns (r: Result<Text, ConvertError>)
      modifies this
      ensures old(deferred) <= deferred
      ensures match RenderItem(b, item)
              case Ok(q) => r == Ok(q.text) && deferred == old(deferred) + q.deferred
              case Err(e) => r == Err(e)
    {
      if item.field.None? {
        return RenderKeywordItem(b, item.matcher);
      }
      if b.refusesIndex(item.field.value) {
        return Err(UnsupportedArrayMatching);
      }
      var q :- ConvertLeaf(b, item.field.value, item.matcher);
      return Ok(if q.Some? then q.value else []);
    }

    method AddItem(b: Backend, items: seq<DetectionItem>, i: nat, parts: seq<Operand>, ghost start: seq<Deferred>)
      returns (r: Result<seq<Operand>, ConvertError>)
      requires i < |items| && Converted(RenderItems(b, items, i), parts, start)
      modifies this
      ensures old(deferred) <= deferred
      ensures r.Ok? ==> Converted(RenderItems(b, items, i + 1), r.value, start)
      ensures r.Err? ==> RenderItems(b, items, |items|) == Err(r.error)
    {
      ItemStep(b, items, i);
      var expr :- ConvertItem(b, items[i]);
      return Ok(parts + [Operand(expr, MatcherOp(items[i].matcher))]);
    }

    method ConvertItems(b: Backend, items: seq<DetectionItem>) returns (r: Result<seq<Operand>, ConvertError>)
      modifies this
      ensures old(deferred) <= deferred
      ensures match RenderItems(b, items, |items|)
              case Ok(parts) => r.Ok? && r.value == parts.operands && deferred == old(deferred) + parts.deferred
              case Err(e) => r == Err(e)
    {
      var parts: seq<Operand> := [];
      for i := 0 to |items|
        invariant Converted(RenderItems(b, items, i), parts, old(deferred))
      {
        parts :- AddItem(b, items, i, parts, old(deferred));
      }
      return Ok(parts);
    }

    method ConvertDetection(b: Backend, d: Detection) returns (r: Result<Text, ConvertError>)
      modifies this
      ensures old(deferred) <= deferred
      ensures match RenderDetection(b, d)
              case Ok(q) => r == Ok(q.text) && deferred == old(deferred) + q.deferred
              case Err(e) => r == Err(e)
      decreases d
    {
      match d {
        case AllItems(items) =>
          var parts :- ConvertItems(b, items);
          return Ok(Join(b.precedence, true, parts));
        case AnyDetection(dets) =>
          var parts :- ConvertDetections(b, dets);
          return Ok(Join(b.precedence, false, parts));
        case AndDetection(dets) =>
          var parts :- ConvertDetections(b, dets);
          return Ok(Join(b.precedence, true, parts));
        case Keywords(m) =>
          var ms := if m.AnyOf? then m.ms else [m];
          var texts :- RenderKeywordTexts(b, ms, |ms|);
          return Ok(JoinText(OR, texts));
        case ArrayMatch(_, _, _) => return Err(UnsupportedArrayMatching);
        case Conditional(named, c) => r := ConvertCondition(b, InBlock, c, named);
      }
    }

    method AddDetection(b: Backend, dets: seq<Detection>, i: nat, parts: seq<Operand>, ghost start: seq<Deferred>)
      returns (r: Result<seq<Operand>, ConvertError>)
      requires i < |dets| && Converted(RenderDetections(b, dets, i), parts, start)
      modifies this
      ensures old(deferred) <= deferred
      ensures r.Ok? ==> Converted(RenderDetections(b, dets, i + 1), r.value, start)
      ensures r.Err? ==> RenderDetections(b, dets, |dets|) == Err(r.error)
      decreases dets, i
    {
      DetectionStep(b, dets, i);
      var expr :- ConvertDetection(b, dets[i]);
      return Ok(parts + [Operand(expr, DetectionOp(dets[i]))]);
    }

    method ConvertDetections(b: Backend, dets: seq<Detection>) returns (r: Result<seq<Operand>, ConvertError>)
      modifies this
      ensures old(deferred) <= deferred
      ensures match RenderDetections(b, dets, |dets|)
              case Ok(parts) => r.Ok? && r.value == parts.operands && deferred == old(deferred) + parts.deferred
              case Err(e) => r == Err(e)
      decreases dets, |dets|
    {
      var parts: seq<Operand> := [];
      for i := 0 to |dets|
        invariant Converted(RenderDetections(b, dets, i), parts, old(deferred))
      {
        parts :- AddDetection(b, dets, i, parts, old(deferred));
      }
      return Ok(parts);
    }

    /** The walker of a rule's condition, and of an array block's condition. */
    method ConvertCondition(b: Backend, scope: Scope, c: Condition, named: seq<NamedDetection>) returns (r: Result<Text, ConvertError>)
      modifies this
      ensures old(deferred) <= deferred
      ensures match RenderCondition(b, scope, c, named)
              case Ok(q) => r == Ok(q.text) && deferred == old(deferred) + q.deferred
              case Err(e) => r == Err(e)
      decreases named, 2, c
    {
      match c {
        case Named(name) =>
          var i := Meaning.Lookup(named, name);
          if i.None? {
            return Err(UnknownDetection(name));
          }
          r := ConvertDetection(b, named[i.value].det);
        case CondAnd(cs) =>
          var parts :- ConvertConditions(b, scope, cs, named);
          return Ok(Join(b.precedence, true, parts));
        case CondOr(cs) =>
          var parts :- ConvertConditions(b, scope, cs, named);
          return Ok(Join(b.precedence, false, parts));
        case CondNot(inner) =>
          var part :- ConvertCondition(b, scope, inner, named);
          return Ok(NegateOperand(b.precedence, Operand(part, ConditionOp(inner, named))));
        case Selector(q, pattern) =>
          var all :- SelectorConnective(scope, q, |SelectedOps(named, pattern, |named|)|);
          var parts :- ConvertSelected(b, named, pattern);
          return Ok(Join(b.precedence, all, parts));
      }
    }

    method AddCondition(b: Backend, scope: Scope, cs: seq<Condition>, named: seq<NamedDetection>, i: nat, parts: seq<Operand>, ghost start: seq<Deferred>)
      returns (r: Result<seq<Operand>, ConvertError>)
      requires i < |cs| && Converted(RenderConditions(b, scope, cs, named, i), parts, start)
      modifies this
      ensures old(deferred) <= deferred
      ensures r.Ok? ==> Converted(RenderConditions(b, scope, cs, named, i + 1), r.value, start)
      ensures r.Err? ==> RenderConditions(b, scope, cs, named, |cs|) == Err(r.error)
      decreases named, 2, cs, i
    {
      ConditionStep(b, scope, cs, named, i);
      var part :- ConvertCondition(b, scope, cs[i], named);
      return Ok(parts + [Operand(part, ConditionOp(cs[i], named))]);
    }

    method ConvertConditions(b: Backend, scope: Scope, cs: seq<Condition>, named: seq<NamedDetection>) returns (r: Result<seq<Operand>, ConvertError>)
      modifies this
      ensures old(deferred) <= deferred
      ensures match RenderConditions(b, scope, cs, named, |cs|)
              case Ok(parts) => r.Ok? && r.value == parts.operands && deferred == old(deferred) + parts.deferred
              case Err(e) => r == Err(e)
      decreases named, 2, cs, |cs|
    {
      var parts: seq<Operand> := [];
      for i := 0 to |cs|
        invariant Converted(RenderConditions(b, scope, cs, named, i), parts, old(deferred))
      {
        parts :- AddCondition(b, scope, cs, named, i, parts, old(deferred));
      }
      return Ok(parts);
    }

    method AddSelected(b: Backend, named: seq<NamedDetection>, pattern: SelectorPattern, i: nat, parts: seq<Operand>, ghost start: seq<Deferred>)
      returns (r: Result<seq<Operand>, ConvertError>)
      requires i < |named| && Converted(RenderSelected(b, named, pattern, i), parts, start)
      modifies this
      ensures old(deferred) <= deferred
      ensures r.Ok? ==> Converted(RenderSelected(b, named, pattern, i + 1), r.value, start)
      ensures r.Err? ==> RenderSelected(b, named, pattern, |named|) == Err(r.error)
      decreases named, 1, i
    {
      if !MatchesDetectionName(pattern, named[i].name) {
        return Ok(parts);
      }
      var part := ConvertDetection(b, named[i].det);
      if part.Err? {
        SelectedFails(b, named, pattern, i);
        return Err(part.error);
      }
      SelectedAdds(b, named, pattern, i);
      return Ok(parts + [Operand(part.value, NamedOp(named, i))]);
    }

    method ConvertSelected(b: Backend, named: seq<NamedDetection>, pattern: SelectorPattern) returns (r: Result<seq<Operand>, ConvertError>)
      modifies this
      ensures old(deferred) <= deferred
      ensures match RenderSelected(b, named, pattern, |named|)
              case Ok(parts) => r.Ok? && r.value == parts.operands && deferred == old(deferred) + parts.deferred
              case Err(e) => r == Err(e)
      decreases named, 1, |named|
    {
      var parts: seq<Operand> := [];
      for i := 0 to |named|
        invariant Converted(RenderSelected(b, named, pattern, i), parts, old(deferred))
      {
        parts :- AddSelected(b, named, pattern, i, parts, old(deferred));
      }
      return Ok(parts);
    }
  }

  // ----- One more member of a list; the first error ends it -----

  lemma {:induction false} ListErrorStays(b: Backend, field: string, ms: seq<Matcher>, k: nat, n: nat)
    requires k <= n <= |ms|
    ensures RenderList(b, field, ms, k).Err? ==> RenderList(b, field, ms, n).Err? && RenderList(b, field, ms, n).error == RenderList(b, field, ms, k).error
  {
    if k < n { ListErrorStays(b, field, ms, k, n - 1); }
  }

  lemma ListStep(b: Backend, field: string, ms: seq<Matcher>, i: nat)
    requires i < |ms| && RenderList(b, field, ms, i).Ok?
    ensures match RenderLeaf(b, field, ms[i])
            case Err(e) => RenderList(b, field, ms, |ms|) == Err(e)
            case Ok(q) =>
              var before := RenderList(b, field, ms, i).value;
              RenderList(b, field, ms, i + 1)
              == Ok(Pieces(before.operands + (if q.text.Some? then [Operand(q.text.value, MatcherOp(ms[i]))] else []), before.deferred + q.deferred))
  {
    ListErrorStays(b, field, ms, i + 1, |ms|);
  }

  lemma ItemStep(b: Backend, items: seq<DetectionItem>, i: nat)
    requires i < |items| && RenderItems(b, items, i).Ok?
    ensures match RenderItem(b, items[i])
            case Err(e) => RenderItems(b, items, |items|) == Err(e)
            case Ok(q) =>
              var before := RenderItems(b, items, i).value;
              RenderItems(b, items, i + 1) == Ok(Pieces(before.operands + [Operand(q.text, MatcherOp(items[i].matcher))], before.deferred + q.deferred))
  {
    ItemErrorStays(b, items, i + 1, |items|);
  }

  lemma {:induction false} ItemErrorStays(b: Backend, items: seq<DetectionItem>, k: nat, n: nat)
    requires k <= n <= |items|
    ensures RenderItems(b, items, k).Err? ==> RenderItems(b, items, n).Err? && RenderItems(b, items, n).error == RenderItems(b, items, k).error
  {
    if k < n { ItemErrorStays(b, items, k, n - 1); }
  }

  lemma DetectionStep(b: Backend, dets: seq<Detection>, i: nat)
    requires i < |dets| && RenderDetections(b, dets, i).Ok?
    ensures match RenderDetection(b, dets[i])
            case Err(e) => RenderDetections(b, dets, |dets|) == Err(e)
            case Ok(q) =>
              var before := RenderDetections(b, dets, i).value;
              RenderDetections(b, dets, i + 1) == Ok(Pieces(before.operands + [Operand(q.text, DetectionOp(dets[i]))], before.deferred + q.deferred))
  {
    DetectionErrorStays(b, dets, i + 1, |dets|);
  }

  lemma ConditionStep(b: Backend, scope: Scope, cs: seq<Condition>, named: seq<NamedDetection>, i: nat)
    requires i < |cs| && RenderConditions(b, scope, cs, named, i).Ok?
    ensures match RenderCondition(b, scope, cs[i], named)
            case Err(e) => RenderConditions(b, scope, cs, named, |cs|) == Err(e)
            case Ok(q) =>
              var before := RenderConditions(b, scope, cs, named, i).value;
              RenderConditions(b, scope, cs, named, i + 1)
              == Ok(Pieces(before.operands + [Operand(q.text, ConditionOp(cs[i], named))], before.deferred + q.deferred))
  {
    ConditionErrorStays(b, scope, cs, named, i + 1, |cs|);
  }

  lemma SelectedAdds(b: Backend, named: seq<NamedDetection>, pattern: SelectorPattern, i: nat)
    requires i < |named| && RenderSelected(b, named, pattern, i).Ok? && MatchesDetectionName(pattern, named[i].name)
    requires RenderDetection(b, named[i].det).Ok?
    ensures var before, q := RenderSelected(b, named, pattern, i).value, RenderDetection(b, named[i].det).value;
            RenderSelected(b, named, pattern, i + 1) == Ok(Pieces(before.operands + [Operand(q.text, NamedOp(named, i))], before.deferred + q.deferred))
  {
    assert RenderNamed(b, named, i) == RenderDetection(b, named[i].det);
  }

  lemma SelectedFails(b: Backend, named: seq<NamedDetection>, pattern: SelectorPattern, i: nat)
    requires i < |named| && RenderSelected(b, named, pattern, i).Ok? && MatchesDetectionName(pattern, named[i].name)
    requires RenderDetection(b, named[i].det).Err?
    ensures RenderSelected(b, named, pattern, |named|) == Err(RenderDetection(b, named[i].det).error)
  {
    assert RenderNamed(b, named, i) == RenderDetection(b, named[i].det);
    SelectedErrorStays(b, named, pattern, i + 1, |named|);
  }

  lemma {:induction false} DetectionErrorStays(b: Backend, dets: seq<Detection>, k: nat, n: nat)
    requires k <= n <= |dets|
    ensures RenderDetections(b, dets, k).Err? ==> RenderDetections(b, dets, n).Err? && RenderDetections(b, dets, n).error == RenderDetections(b, dets, k).error
  {
    if k < n { DetectionErrorStays(b, dets, k, n - 1); }
  }

  lemma {:induction false} ConditionErrorStays(b: Backend, scope: Scope, cs: seq<Condition>, named: seq<NamedDetection>, k: nat, n: nat)
    requires k <= n <= |cs|
    ensures RenderConditions(b, scope, cs, named, k).Err? ==>
              RenderConditions(b, scope, cs, named, n).Err? && RenderConditions(b, scope, cs, named, n).error == RenderConditions(b, scope, cs, named, k).error
  {
    if k < n { ConditionErrorStays(b, scope, cs, named, k, n - 1); }
  }

  lemma {:induction false} SelectedErrorStays(b: Backend, named: seq<NamedDetection>, pattern: SelectorPattern, k: nat, n: nat)
    requires k <= n <= |named|
    ensures RenderSelected(b, named, pattern, k).Err? ==>
              RenderSelected(b, named, pattern, n).Err? && RenderSelected(b, named, pattern, n).error == RenderSelected(b, named, pattern, k).error
  {
    if k < n { SelectedErrorStays(b, named, pattern, k, n - 1); }
  }
}
