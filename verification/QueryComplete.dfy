/**
  Exactly which rules convert to readable text, for every rule and every precedence order: the
  rendered text of each node is as its shape says.
 */
module QueryComplete {
  import opened Results
  import opened SigmaIr
  import opened QueryText
  import opened QueryGrammar
  import opened QueryShape
  import opened OperatorTags
  import opened IrConvert
  import opened Meaning
  import opened QueryCorrect

  /** A text with balanced parentheses that reads, and starts with NOT, as the shape says. */
  predicate Fits(p: Precedence, t: Text, s: Shape) {
    && Balanced(t)
    && (Good(p, t) <==> s.sound)
    && (s.sound ==> (Leads(t) <==> s.negated))
  }

  predicate OperandFits(p: Precedence, o: Operand, s: Shape) {
    o.op == s.op && Fits(p, o.expr, s)
  }

  predicate AllFit(p: Precedence, os: seq<Operand>, ss: seq<Shape>) {
    |os| == |ss| && forall i | 0 <= i < |os| :: OperandFits(p, os[i], ss[i])
  }

  // ----- Combinators -----

  lemma GroupFits(p: Precedence, outer: TokenType, o: Operand, s: Shape)
    requires OperandFits(p, o, s)
    ensures var g := GroupOperand(p, outer, o);
            && Balanced(g) && (Good(p, g) <==> s.sound)
            && (s.sound ==> g != [] && (Leads(g) <==> s.negated && !Wraps(p, outer, s.op)))
  {
    ParenGood(p, o.expr);
  }

  lemma JoinFits(p: Precedence, all: bool, os: seq<Operand>, ss: seq<Shape>, tag: Tag)
    requires AllFit(p, os, ss)
    ensures Fits(p, Join(p, all, os), JoinShape(p, Connective(all), ss, tag))
  {
    var op := Connective(all);
    if |os| == 1 {
      assert OperandFits(p, os[0], ss[0]);
      assert JoinText(op, [os[0].expr]) == os[0].expr;
    } else {
      var texts := Grouped(p, op, os);
      forall i | 0 <= i < |os|
        ensures texts[i] == GroupOperand(p, op, os[i]) && Balanced(texts[i]) && (Good(p, texts[i]) <==> ss[i].sound)
        ensures ss[i].sound ==> texts[i] != [] && (Leads(texts[i]) <==> ss[i].negated && !Wraps(p, op, ss[i].op))
      {
        assert OperandFits(p, os[i], ss[i]);
        GroupFits(p, op, os[i], ss[i]);
      }
      JoinTextGood(p, op, texts);
      JoinableShape(p, op, texts, ss);
    }
  }

  lemma JoinableShape(p: Precedence, op: TokenType, texts: seq<Text>, ss: seq<Shape>)
    requires |texts| == |ss|
    requires forall i | 0 <= i < |ss| ::
               (Good(p, texts[i]) <==> ss[i].sound)
               && (ss[i].sound ==> (Leads(texts[i]) <==> ss[i].negated && !Wraps(p, op, ss[i].op)))
    ensures forall tag :: Joinable(p, op, texts) <==> JoinShape(p, op, ss, tag).sound
  {
  }

  lemma NegateFits(p: Precedence, o: Operand, s: Shape)
    requires Fits(p, o.expr, s)
    ensures Fits(p, NegateOperand(p, o), NotShape(s))
  {
    ParenGood(p, o.expr);
    NotGood(p, GroupOperand(p, NOT, o));
  }

  lemma AtomFits(p: Precedence, leaf: Leaf)
    ensures Fits(p, [Atom(leaf)], AtomShape)
  {
    var t := [Atom(leaf)];
    assert t[1..] == [];
    assert Close(t, 0) == Close(t[1..], 0) && Scan(p, t, Want(None)) == Scan(p, t[1..], Have);
  }

  // ----- Values -----

  lemma {:induction false} LeafFits(b: Backend, field: string, m: Matcher)
    requires NoBlank(b) && RenderLeaf(b, field, m).Ok? && RenderLeaf(b, field, m).value.deferred == []
    ensures match MatcherShape(b.precedence, m)
            case None => RenderLeaf(b, field, m).value.text.None?
            case Some(s) => RenderLeaf(b, field, m).value.text.Some? && s.op == MatcherOp(m)
                            && Fits(b.precedence, RenderLeaf(b, field, m).value.text.value, s)
    decreases m, 0
  {
    match m
    case AnyOf(ms) =>
      ListFits(b, field, ms, |ms|);
      JoinFits(b.precedence, false, RenderList(b, field, ms, |ms|).value.operands, ListShapes(b.precedence, ms, |ms|), MatcherOp(m));
    case AllOf(ms) =>
      ListFits(b, field, ms, |ms|);
      JoinFits(b.precedence, true, RenderList(b, field, ms, |ms|).value.operands, ListShapes(b.precedence, ms, |ms|), MatcherOp(m));
    case Not(inner) =>
      InnerFits(b, field, inner);
      if InnerShape(b.precedence, inner).Some? {
        NegateFits(b.precedence, RenderInner(b, field, inner).value.0.value, InnerShape(b.precedence, inner).value);
      }
    case _ => AtomFits(b.precedence, Leaf(Some(field), m));
  }

  lemma {:induction false} InnerFits(b: Backend, field: string, inner: Matcher)
    requires NoBlank(b) && RenderInner(b, field, inner).Ok? && RenderInner(b, field, inner).value.1 == []
    ensures match InnerShape(b.precedence, inner)
            case None => RenderInner(b, field, inner).value.0.None?
            case Some(s) => RenderInner(b, field, inner).value.0.Some?
                            && Fits(b.precedence, RenderInner(b, field, inner).value.0.value.expr, s)
    decreases inner, 1
  {
    if inner.AnyOf? || inner.AllOf? {
      var ms := inner.ms;
      ListFits(b, field, ms, |ms|);
      var os, ss := RenderList(b, field, ms, |ms|).value.operands, ListShapes(b.precedence, ms, |ms|);
      JoinFits(b.precedence, inner.AllOf?, os, ss, MatcherOp(inner));
      assert os == [] <==> ss == [];
      assert MatcherShape(b.precedence, inner)
          == Some(JoinShape(b.precedence, if inner.AllOf? then AND else OR, ss, MatcherOp(inner)));
    } else {
      LeafFits(b, field, inner);
    }
  }

  /** The operands of a list are the values that do not vanish. */
  lemma {:induction false} ListFits(b: Backend, field: string, ms: seq<Matcher>, n: nat)
    requires NoBlank(b) && n <= |ms| && RenderList(b, field, ms, n).Ok? && RenderList(b, field, ms, n).value.deferred == []
    ensures AllFit(b.precedence, RenderList(b, field, ms, n).value.operands, ListShapes(b.precedence, ms, n))
    decreases ms, n
  {
    if n > 0 {
      ListStep(b, field, ms, n);
      ListFits(b, field, ms, n - 1);
      LeafFits(b, field, ms[n - 1]);
    }
  }

  // ----- Keywords -----

  lemma {:induction false} KeywordItemFits(b: Backend, m: Matcher)
    requires RenderKeywordItem(b, m).Ok?
    ensures Fits(b.precedence, RenderKeywordItem(b, m).value, KeywordShape(b.precedence, m)) && KeywordShape(b.precedence, m).op == MatcherOp(m)
    decreases m
  {
    var p := b.precedence;
    match m
    case AnyOf(ms) =>
      forall i | 0 <= i < |ms| { KeywordItemsFit(b, ms, |ms|, i); }
      JoinFits(p, false, RenderKeywordItems(b, ms, |ms|).value, seq(|ms|, i requires 0 <= i < |ms| => KeywordShape(p, ms[i])), MatcherOp(m));
    case AllOf(ms) =>
      forall i | 0 <= i < |ms| { KeywordItemsFit(b, ms, |ms|, i); }
      JoinFits(p, true, RenderKeywordItems(b, ms, |ms|).value, seq(|ms|, i requires 0 <= i < |ms| => KeywordShape(p, ms[i])), MatcherOp(m));
    case Not(inner) =>
      KeywordItemFits(b, inner);
      NegateFits(p, Operand(RenderKeywordItem(b, inner).value, MatcherOp(inner)), KeywordShape(p, inner));
    case _ => AtomFits(p, Leaf(None, m));
  }

  lemma {:induction false} KeywordItemsFit(b: Backend, ms: seq<Matcher>, n: nat, i: nat)
    requires i < n <= |ms| && RenderKeywordItems(b, ms, n).Ok?
    ensures OperandFits(b.precedence, RenderKeywordItems(b, ms, n).value[i], KeywordShape(b.precedence, ms[i]))
    decreases ms, n
  {
    if i < n - 1 { KeywordItemsFit(b, ms, n - 1, i); } else { KeywordItemFits(b, ms[i]); }
  }

  lemma KeywordTextsFit(b: Backend, ms: seq<Matcher>)
    requires RenderKeywordTexts(b, ms, |ms|).Ok?
    ensures Fits(b.precedence, JoinText(OR, RenderKeywordTexts(b, ms, |ms|).value), Shape(None, false, ms != []))
  {
    var texts := RenderKeywordTexts(b, ms, |ms|).value;
    KeywordTextsRead(b, ms, |ms|);
    forall i | 0 <= i < |ms|
      ensures Balanced(texts[i]) && Good(b.precedence, texts[i]) && !Leads(texts[i])
    {
      AtomFits(b.precedence, Leaf(None, ms[i]));
    }
    JoinTextGood(b.precedence, OR, texts);
  }

  // ----- Detections and conditions -----

  lemma ItemFits(b: Backend, item: DetectionItem)
    requires NoBlank(b) && RenderItem(b, item).Ok? && RenderItem(b, item).value.deferred == []
    ensures OperandFits(b.precedence, Operand(RenderItem(b, item).value.text, MatcherOp(item.matcher)), ItemShape(b.precedence, item))
  {
    if item.field.None? { KeywordItemFits(b, item.matcher); } else { LeafFits(b, item.field.value, item.matcher); }
  }

  lemma {:induction false} ItemsFit(b: Backend, items: seq<DetectionItem>, n: nat, i: nat)
    requires NoBlank(b) && i < n <= |items|
    requires RenderItems(b, items, n).Ok? && RenderItems(b, items, n).value.deferred == []
    ensures OperandFits(b.precedence, RenderItems(b, items, n).value.operands[i], ItemShape(b.precedence, items[i]))
  {
    ItemsStep(b, items, n);
    if i < n - 1 { ItemsFit(b, items, n - 1, i); } else { ItemFits(b, items[i]); }
  }

  lemma {:induction false} DetectionFits(b: Backend, d: Detection)
    requires NoBlank(b) && RenderDetection(b, d).Ok? && RenderDetection(b, d).value.deferred == []
    ensures OperandFits(b.precedence, Operand(RenderDetection(b, d).value.text, DetectionOp(d)), DetectionShape(b.precedence, d))
    decreases d
  {
    var p := b.precedence;
    match d
    case AllItems(items) =>
      forall i | 0 <= i < |items| { ItemsFit(b, items, |items|, i); }
      JoinFits(p, true, RenderItems(b, items, |items|).value.operands,
               seq(|items|, i requires 0 <= i < |items| => ItemShape(p, items[i])), DetectionOp(d));
    case AnyDetection(dets) =>
      forall i | 0 <= i < |dets| { DetectionsFit(b, dets, |dets|, i); }
      JoinFits(p, false, RenderDetections(b, dets, |dets|).value.operands,
               seq(|dets|, i requires 0 <= i < |dets| => DetectionShape(p, dets[i])), DetectionOp(d));
    case AndDetection(dets) =>
      forall i | 0 <= i < |dets| { DetectionsFit(b, dets, |dets|, i); }
      JoinFits(p, true, RenderDetections(b, dets, |dets|).value.operands,
               seq(|dets|, i requires 0 <= i < |dets| => DetectionShape(p, dets[i])), DetectionOp(d));
    case Keywords(m) => KeywordTextsFit(b, if m.AnyOf? then m.ms else [m]);
    case Conditional(named, c) => ConditionFits(b, InBlock, c, named);
    case ArrayMatch(_, _, _) =>
  }

  lemma {:induction false} DetectionsFit(b: Backend, dets: seq<Detection>, n: nat, i: nat)
    requires NoBlank(b) && i < n <= |dets|
    requires RenderDetections(b, dets, n).Ok? && RenderDetections(b, dets, n).value.deferred == []
    ensures OperandFits(b.precedence, RenderDetections(b, dets, n).value.operands[i], DetectionShape(b.precedence, dets[i]))
    decreases dets, n
  {
    DetectionsStep(b, dets, n);
    if i < n - 1 { DetectionsFit(b, dets, n - 1, i); } else { DetectionFits(b, dets[i]); }
  }

  lemma {:induction false} SelectedFit(b: Backend, named: seq<NamedDetection>, pattern: SelectorPattern, n: nat)
    requires NoBlank(b) && n <= |named|
    requires RenderSelected(b, named, pattern, n).Ok? && RenderSelected(b, named, pattern, n).value.deferred == []
    ensures AllFit(b.precedence, RenderSelected(b, named, pattern, n).value.operands, SelectedShapes(b.precedence, named, pattern, n))
    decreases named, 0, n
  {
    if n > 0 {
      SelectedFit(b, named, pattern, n - 1);
      if MatchesDetectionName(pattern, named[n - 1].name) {
        DetectionFits(b, named[n - 1].det);
      }
    }
  }

  lemma {:induction false} ConditionFits(b: Backend, scope: Scope, c: Condition, named: seq<NamedDetection>)
    requires NoBlank(b) && RenderCondition(b, scope, c, named).Ok? && RenderCondition(b, scope, c, named).value.deferred == []
    ensures OperandFits(b.precedence, Operand(RenderCondition(b, scope, c, named).value.text, ConditionOp(c, named)),
                        ConditionShape(b.precedence, c, named))
    decreases named, 1, c
  {
    var p := b.precedence;
    match c
    case Named(name) => DetectionFits(b, named[Lookup(named, name).value].det);
    case CondAnd(cs) =>
      forall i | 0 <= i < |cs| { ConditionsFit(b, scope, cs, named, |cs|, i); }
      JoinFits(p, true, RenderConditions(b, scope, cs, named, |cs|).value.operands,
               seq(|cs|, i requires 0 <= i < |cs| => ConditionShape(p, cs[i], named)), ConditionOp(c, named));
    case CondOr(cs) =>
      forall i | 0 <= i < |cs| { ConditionsFit(b, scope, cs, named, |cs|, i); }
      JoinFits(p, false, RenderConditions(b, scope, cs, named, |cs|).value.operands,
               seq(|cs|, i requires 0 <= i < |cs| => ConditionShape(p, cs[i], named)), ConditionOp(c, named));
    case CondNot(inner) =>
      ConditionFits(b, scope, inner, named);
      NegateFits(p, Operand(RenderCondition(b, scope, inner, named).value.text, ConditionOp(inner, named)), ConditionShape(p, inner, named));
    case Selector(q, pattern) =>
      SelectedFit(b, named, pattern, |named|);
      JoinFits(p, q == QAll, RenderSelected(b, named, pattern, |named|).value.operands,
               SelectedShapes(p, named, pattern, |named|), ConditionOp(c, named));
  }

  lemma {:induction false} ConditionsFit(b: Backend, scope: Scope, cs: seq<Condition>, named: seq<NamedDetection>, n: nat, i: nat)
    requires NoBlank(b) && i < n <= |cs|
    requires RenderConditions(b, scope, cs, named, n).Ok? && RenderConditions(b, scope, cs, named, n).value.deferred == []
    ensures OperandFits(b.precedence, RenderConditions(b, scope, cs, named, n).value.operands[i], ConditionShape(b.precedence, cs[i], named))
    decreases named, 1, cs, n
  {
    ConditionsStep(b, scope, cs, named, n);
    if i < n - 1 { ConditionsFit(b, scope, cs, named, n - 1, i); } else { ConditionFits(b, scope, cs[i], named); }
  }

  /** Main result: for every rule, the emitted text is a query exactly when the shape of the condition is sound. */
  lemma ParsesIffSound(b: Backend, c: Condition, named: seq<NamedDetection>)
    requires b.precedence.Valid() && NoBlank(b)
    requires RenderCondition(b, TopLevel, c, named).Ok? && RenderCondition(b, TopLevel, c, named).value.deferred == []
    ensures Parse(b.precedence, RenderCondition(b, TopLevel, c, named).value.text).Some?
            <==> ConditionShape(b.precedence, c, named).sound
  {
    ConditionFits(b, TopLevel, c, named);
    ParsesIffGood(b.precedence, RenderCondition(b, TopLevel, c, named).value.text);
  }

  // ----- Values as the parser of rules lowers them: a negation stands around a whole list -----

  predicate NegatesWhole(m: Matcher)
    decreases m
  {
    match m
    case AnyOf(ms) => forall i | 0 <= i < |ms| :: !ms[i].Not? && NegatesWhole(ms[i])
    case AllOf(ms) => forall i | 0 <= i < |ms| :: !ms[i].Not? && NegatesWhole(ms[i])
    case Not(inner) => NegatesWhole(inner)
    case _ => true
  }

  predicate DetectionNegatesWhole(d: Detection)
    decreases d
  {
    match d
    case AllItems(items) => forall i | 0 <= i < |items| :: NegatesWhole(items[i].matcher)
    case AnyDetection(dets) => forall i | 0 <= i < |dets| :: DetectionNegatesWhole(dets[i])
    case AndDetection(dets) => forall i | 0 <= i < |dets| :: DetectionNegatesWhole(dets[i])
    case Keywords(m) => NegatesWhole(m)
    case ArrayMatch(_, _, body) => DetectionNegatesWhole(body)
    case Conditional(named, _) => forall i | 0 <= i < |named| :: DetectionNegatesWhole(named[i].det)
  }

  /** Nothing vanishes from a list without negations. */
  lemma {:induction false} ListKept(p: Precedence, ms: seq<Matcher>, n: nat)
    requires n <= |ms| && forall i | 0 <= i < |ms| :: !ms[i].Not?
    ensures |ListShapes(p, ms, n)| == n && forall i | 0 <= i < n :: MatcherShape(p, ms[i]) == Some(ListShapes(p, ms, n)[i])
  {
    if n > 0 { ListKept(p, ms, n - 1); }
  }

  lemma {:induction false} SoundMatcherFull(p: Precedence, m: Matcher)
    requires NegatesWhole(m) && MatcherShape(p, m).Some? && MatcherShape(p, m).value.sound
    ensures MatcherFull(m)
    decreases m
  {
    match m
    case AnyOf(ms) =>
      ListKept(p, ms, |ms|);
      forall i | 0 <= i < |ms| ensures MatcherFull(ms[i]) { SoundMatcherFull(p, ms[i]); }
    case AllOf(ms) =>
      ListKept(p, ms, |ms|);
      forall i | 0 <= i < |ms| ensures MatcherFull(ms[i]) { SoundMatcherFull(p, ms[i]); }
    case Not(inner) => SoundMatcherFull(p, inner);
    case _ =>
  }

  lemma {:induction false} SoundKeywordFull(p: Precedence, m: Matcher)
    requires KeywordShape(p, m).sound
    ensures MatcherFull(m)
    decreases m
  {
    match m
    case AnyOf(ms) =>
      var ss := seq(|ms|, i requires 0 <= i < |ms| => KeywordShape(p, ms[i]));
      forall i | 0 <= i < |ms| ensures MatcherFull(ms[i]) { assert ss[i].sound; SoundKeywordFull(p, ms[i]); }
    case AllOf(ms) =>
      var ss := seq(|ms|, i requires 0 <= i < |ms| => KeywordShape(p, ms[i]));
      forall i | 0 <= i < |ms| ensures MatcherFull(ms[i]) { assert ss[i].sound; SoundKeywordFull(p, ms[i]); }
    case Not(inner) => SoundKeywordFull(p, inner);
    case _ =>
  }

  lemma SoundItemFull(p: Precedence, item: DetectionItem)
    requires NegatesWhole(item.matcher) && ItemShape(p, item).sound
    ensures MatcherFull(item.matcher)
  {
    if item.field.None? { SoundKeywordFull(p, item.matcher); } else { SoundMatcherFull(p, item.matcher); }
  }

  lemma {:induction false} DetectionRendered(b: Backend, dets: seq<Detection>, n: nat, i: nat)
    requires i < n <= |dets| && RenderDetections(b, dets, n).Ok?
    ensures RenderDetection(b, dets[i]).Ok?
  {
    if i < n - 1 { DetectionRendered(b, dets, n - 1, i); }
  }

  lemma {:induction false} ConditionRendered(b: Backend, scope: Scope, cs: seq<Condition>, named: seq<NamedDetection>, n: nat, i: nat)
    requires i < n <= |cs| && RenderConditions(b, scope, cs, named, n).Ok?
    ensures RenderCondition(b, scope, cs[i], named).Ok?
  {
    if i < n - 1 { ConditionRendered(b, scope, cs, named, n - 1, i); }
  }

  lemma {:induction false} SoundDetectionFull(b: Backend, d: Detection)
    requires DetectionNegatesWhole(d) && DetectionShape(b.precedence, d).sound && RenderDetection(b, d).Ok?
    ensures DetectionFull(d)
    decreases d
  {
    var p := b.precedence;
    match d
    case AllItems(items) =>
      var ss := seq(|items|, i requires 0 <= i < |items| => ItemShape(p, items[i]));
      forall i | 0 <= i < |items| ensures MatcherFull(items[i].matcher) {
        assert ss[i].sound;
        SoundItemFull(p, items[i]);
      }
    case AnyDetection(dets) =>
      var ss := seq(|dets|, i requires 0 <= i < |dets| => DetectionShape(p, dets[i]));
      forall i | 0 <= i < |dets| ensures DetectionFull(dets[i]) {
        assert ss[i].sound;
        DetectionRendered(b, dets, |dets|, i);
        SoundDetectionFull(b, dets[i]);
      }
    case AndDetection(dets) =>
      var ss := seq(|dets|, i requires 0 <= i < |dets| => DetectionShape(p, dets[i]));
      forall i | 0 <= i < |dets| ensures DetectionFull(dets[i]) {
        assert ss[i].sound;
        DetectionRendered(b, dets, |dets|, i);
        SoundDetectionFull(b, dets[i]);
      }
    case Keywords(m) =>
      var ms := if m.AnyOf? then m.ms else [m];
      KeywordTextsRead(b, ms, |ms|);
      if !m.AnyOf? { assert ms[0] == m; }
    case Conditional(named, c) => SoundConditionFull(b, InBlock, c, named);
    case ArrayMatch(_, _, _) =>
  }

  lemma {:induction false} SoundSelectedFull(b: Backend, named: seq<NamedDetection>, pattern: SelectorPattern, n: nat)
    requires n <= |named| && RenderSelected(b, named, pattern, n).Ok?
    requires forall i | 0 <= i < |named| :: DetectionNegatesWhole(named[i].det)
    requires forall i | 0 <= i < |SelectedShapes(b.precedence, named, pattern, n)| :: SelectedShapes(b.precedence, named, pattern, n)[i].sound
    ensures SelectedShapes(b.precedence, named, pattern, n) != [] ==> exists i | 0 <= i < n :: MatchesDetectionName(pattern, named[i].name)
    ensures forall i | 0 <= i < n :: MatchesDetectionName(pattern, named[i].name) ==> NamedFull(named, i)
    decreases named, 0, n
  {
    if n > 0 {
      var before, all := SelectedShapes(b.precedence, named, pattern, n - 1), SelectedShapes(b.precedence, named, pattern, n);
      assert forall i | 0 <= i < |before| :: before[i] == all[i];
      SoundSelectedFull(b, named, pattern, n - 1);
      if MatchesDetectionName(pattern, named[n - 1].name) {
        var last: nat := n - 1;
        assert all == before + [NamedShape(b.precedence, named, last)] && all[|before|].sound;
        assert NamedShape(b.precedence, named, last) == DetectionShape(b.precedence, named[last].det);
        SoundDetectionFull(b, named[n - 1].det);
      }
    }
  }

  lemma SoundMembers(p: Precedence, op: TokenType, cs: seq<Condition>, named: seq<NamedDetection>, tag: Tag)
    requires JoinShape(p, op, seq(|cs|, i requires 0 <= i < |cs| => ConditionShape(p, cs[i], named)), tag).sound
    ensures |cs| > 0 && forall i | 0 <= i < |cs| :: ConditionShape(p, cs[i], named).sound
  {
    var ss := seq(|cs|, i requires 0 <= i < |cs| => ConditionShape(p, cs[i], named));
    assert forall i | 0 <= i < |cs| :: ss[i] == ConditionShape(p, cs[i], named);
  }

  lemma {:induction false} SoundConditionFull(b: Backend, scope: Scope, c: Condition, named: seq<NamedDetection>)
    requires (forall i | 0 <= i < |named| :: DetectionNegatesWhole(named[i].det)) && RenderCondition(b, scope, c, named).Ok?
    requires ConditionShape(b.precedence, c, named).sound
    ensures ConditionFull(c, named)
    decreases named, 1, c
  {
    match c
    case Named(name) => SoundDetectionFull(b, named[Lookup(named, name).value].det);
    case CondAnd(cs) =>
      SoundMembers(b.precedence, AND, cs, named, ConditionOp(c, named));
      forall i | 0 <= i < |cs| ensures ConditionFull(cs[i], named) {
        ConditionRendered(b, scope, cs, named, |cs|, i);
        SoundConditionFull(b, scope, cs[i], named);
      }
    case CondOr(cs) =>
      SoundMembers(b.precedence, OR, cs, named, ConditionOp(c, named));
      forall i | 0 <= i < |cs| ensures ConditionFull(cs[i], named) {
        ConditionRendered(b, scope, cs, named, |cs|, i);
        SoundConditionFull(b, scope, cs[i], named);
      }
    case CondNot(inner) => SoundConditionFull(b, scope, inner, named);
    case Selector(_, pattern) => SoundSelectedFull(b, named, pattern, |named|);
  }

  /**
    For the values rules lower to, the text is a query exactly when no list is empty, and then it
    has the truth of the condition.
   */
  lemma ParsesIffFull(b: Backend, c: Condition, named: seq<NamedDetection>, view: View)
    requires b.precedence.Valid() && NoBlank(b) && forall i | 0 <= i < |named| :: DetectionNegatesWhole(named[i].det)
    requires RenderCondition(b, TopLevel, c, named).Ok? && RenderCondition(b, TopLevel, c, named).value.deferred == []
    ensures var parsed := Parse(b.precedence, RenderCondition(b, TopLevel, c, named).value.text);
            && (parsed.Some? <==> ConditionFull(c, named))
            && (parsed.Some? ==> Eval(parsed.value, view.leaf) == ConditionHolds(c, named, view))
  {
    ParsesIffSound(b, c, named);
    if ConditionShape(b.precedence, c, named).sound {
      SoundConditionFull(b, TopLevel, c, named);
    }
    if ConditionFull(c, named) {
      QueryMeansCondition(b, c, named, view);
    }
  }
}
