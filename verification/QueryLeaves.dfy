/**
  Conversion loses nothing: each comparison of a rule becomes one atom of the query or one deferred
  part, in reading order, unless its backend renders it to nothing.
 */
module QueryLeaves {
  import opened Results
  import opened SigmaIr
  import opened QueryText
  import opened OperatorTags
  import opened IrConvert
  import opened Meaning
  import opened QueryCorrect

  // ----- What a rule compares, in reading order -----

  /** The comparisons of a value, each with the parity of the negations around it. */
  function Leaves(field: Option<string>, m: Matcher, negated: bool): seq<Deferred>
    decreases m
  {
    match m
    case AnyOf(ms) => ListLeaves(field, ms, negated, |ms|)
    case AllOf(ms) => ListLeaves(field, ms, negated, |ms|)
    case Not(inner) => Leaves(field, inner, !negated)
    case _ => [Deferred(Leaf(field, m), negated)]
  }

  function ListLeaves(field: Option<string>, ms: seq<Matcher>, negated: bool, n: nat): seq<Deferred>
    requires n <= |ms|
    decreases ms, n
  {
    if n == 0 then [] else ListLeaves(field, ms, negated, n - 1) + Leaves(field, ms[n - 1], negated)
  }

  function ItemLeaves(items: seq<DetectionItem>, n: nat): seq<Deferred>
    requires n <= |items|
  {
    if n == 0 then [] else ItemLeaves(items, n - 1) + Leaves(items[n - 1].field, items[n - 1].matcher, false)
  }

  function DetectionLeaves(d: Detection): seq<Deferred>
    decreases d
  {
    match d
    case AllItems(items) => ItemLeaves(items, |items|)
    case AnyDetection(dets) => DetectionsLeaves(dets, |dets|)
    case AndDetection(dets) => DetectionsLeaves(dets, |dets|)
    case Keywords(m) => Leaves(None, m, false)
    case ArrayMatch(_, _, body) => DetectionLeaves(body)
    case Conditional(named, c) => ConditionLeaves(c, named)
  }

  function DetectionsLeaves(dets: seq<Detection>, n: nat): seq<Deferred>
    requires n <= |dets|
    decreases dets, n
  {
    if n == 0 then [] else DetectionsLeaves(dets, n - 1) + DetectionLeaves(dets[n - 1])
  }

  function NamedLeaves(named: seq<NamedDetection>, i: nat): seq<Deferred>
    requires i < |named|
    decreases named, 0
  {
    DetectionLeaves(named[i].det)
  }

  function SelectedLeaves(named: seq<NamedDetection>, pattern: SelectorPattern, n: nat): seq<Deferred>
    requires n <= |named|
    decreases named, 1, n
  {
    if n == 0 then []
    else SelectedLeaves(named, pattern, n - 1)
         + (if MatchesDetectionName(pattern, named[n - 1].name) then NamedLeaves(named, n - 1) else [])
  }

  /** A negation of the condition does not reach deferred parts, so it leaves the parity. */
  function ConditionLeaves(c: Condition, named: seq<NamedDetection>): seq<Deferred>
    decreases named, 2, c
  {
    match c
    case Named(name) => (match Lookup(named, name) case Some(i) => NamedLeaves(named, i) case None => [])
    case CondAnd(cs) => ConditionsLeaves(cs, named, |cs|)
    case CondOr(cs) => ConditionsLeaves(cs, named, |cs|)
    case CondNot(inner) => ConditionLeaves(inner, named)
    case Selector(_, pattern) => SelectedLeaves(named, pattern, |named|)
  }

  function ConditionsLeaves(cs: seq<Condition>, named: seq<NamedDetection>, n: nat): seq<Deferred>
    requires n <= |cs|
    decreases named, 2, cs, n
  {
    if n == 0 then [] else ConditionsLeaves(cs, named, n - 1) + ConditionLeaves(cs[n - 1], named)
  }

  // ----- What becomes of them -----

  /** A keyword, and a comparison a backend cannot defer, is always query text. */
  predicate IsAtom(b: Backend, leaf: Leaf) {
    leaf.field.None? || !Deferrable(leaf.matcher) || b.render(leaf) == Ok(Inline)
  }

  predicate IsQueued(b: Backend, leaf: Leaf) {
    !IsAtom(b, leaf) && b.render(leaf) == Ok(Defer)
  }

  function Kept(b: Backend, ls: seq<Deferred>): seq<Leaf> {
    if ls == [] then []
    else Kept(b, ls[..|ls| - 1]) + (if IsAtom(b, ls[|ls| - 1].leaf) then [ls[|ls| - 1].leaf] else [])
  }

  function Queued(b: Backend, ls: seq<Deferred>): seq<Deferred> {
    if ls == [] then []
    else Queued(b, ls[..|ls| - 1]) + (if IsQueued(b, ls[|ls| - 1].leaf) then [ls[|ls| - 1]] else [])
  }

  /** The comparisons in a text, in order. */
  function Atoms(ts: Text): seq<Leaf> {
    if ts == [] then []
    else Atoms(ts[..|ts| - 1]) + (if ts[|ts| - 1].Atom? then [ts[|ts| - 1].leaf] else [])
  }

  lemma {:induction false} KeptConcat(b: Backend, a: seq<Deferred>, c: seq<Deferred>)
    ensures Kept(b, a + c) == Kept(b, a) + Kept(b, c) && Queued(b, a + c) == Queued(b, a) + Queued(b, c)
  {
    if c == [] {
      assert a + c == a;
    } else {
      KeptConcat(b, a, c[..|c| - 1]);
      assert (a + c)[..|a + c| - 1] == a + c[..|c| - 1];
    }
  }

  lemma {:induction false} AtomsConcat(a: Text, c: Text)
    ensures Atoms(a + c) == Atoms(a) + Atoms(c)
  {
    if c == [] {
      assert a + c == a;
    } else {
      AtomsConcat(a, c[..|c| - 1]);
      assert (a + c)[..|a + c| - 1] == a + c[..|c| - 1];
    }
  }

  lemma SingleAtoms(t: Token)
    ensures Atoms([t]) == if t.Atom? then [t.leaf] else []
  {
    assert [t][..0] == [];
  }

  // ----- Combinators add no comparison and lose none -----

  function TextAtoms(texts: seq<Text>, n: nat): seq<Leaf>
    requires n <= |texts|
  {
    if n == 0 then [] else TextAtoms(texts, n - 1) + Atoms(texts[n - 1])
  }

  lemma {:induction false} TextAtomsCons(texts: seq<Text>, n: nat)
    requires 0 < n <= |texts|
    ensures TextAtoms(texts, n) == Atoms(texts[0]) + TextAtoms(texts[1..], n - 1)
  {
    if n > 1 {
      TextAtomsCons(texts, n - 1);
      assert texts[1..][n - 2] == texts[n - 1];
    }
  }

  lemma JoinedAtoms(op: TokenType, a: Text, c: Text)
    ensures Atoms(a + [OpToken(op)] + c) == Atoms(a) + Atoms(c)
  {
    AtomsConcat(a + [OpToken(op)], c);
    AtomsConcat(a, [OpToken(op)]);
    SingleAtoms(OpToken(op));
  }

  lemma {:induction false} JoinTextAtoms(op: TokenType, texts: seq<Text>)
    ensures Atoms(JoinText(op, texts)) == TextAtoms(texts, |texts|)
  {
    if |texts| == 1 {
      assert TextAtoms(texts, 0) == [];
    } else if |texts| > 1 {
      JoinTextAtoms(op, texts[1..]);
      TextAtomsCons(texts, |texts|);
      JoinedAtoms(op, texts[0], JoinText(op, texts[1..]));
    }
  }

  lemma GroupAtoms(p: Precedence, outer: TokenType, o: Operand)
    ensures Atoms(GroupOperand(p, outer, o)) == Atoms(o.expr)
  {
    AtomsConcat([LParen] + o.expr, [RParen]);
    AtomsConcat([LParen], o.expr);
    SingleAtoms(LParen);
    SingleAtoms(RParen);
  }

  function OperandAtoms(os: seq<Operand>, n: nat): seq<Leaf>
    requires n <= |os|
  {
    if n == 0 then [] else OperandAtoms(os, n - 1) + Atoms(os[n - 1].expr)
  }

  lemma {:induction false} SameAtoms(texts: seq<Text>, os: seq<Operand>, n: nat)
    requires n <= |texts| == |os| && forall i | 0 <= i < |os| :: Atoms(texts[i]) == Atoms(os[i].expr)
    ensures TextAtoms(texts, n) == OperandAtoms(os, n)
  {
    if n > 0 { SameAtoms(texts, os, n - 1); }
  }

  lemma {:induction false} OperandAtomsSnoc(os: seq<Operand>, o: Operand, n: nat)
    requires n <= |os|
    ensures OperandAtoms(os + [o], n) == OperandAtoms(os, n)
    ensures OperandAtoms(os + [o], |os| + 1) == OperandAtoms(os + [o], |os|) + Atoms(o.expr)
  {
    if n > 0 { OperandAtomsSnoc(os, o, n - 1); }
  }

  lemma JoinAtoms(p: Precedence, all: bool, os: seq<Operand>)
    ensures Atoms(Join(p, all, os)) == OperandAtoms(os, |os|)
  {
    var texts := if |os| == 1 then [os[0].expr] else Grouped(p, Connective(all), os);
    forall i | 0 <= i < |os| ensures Atoms(texts[i]) == Atoms(os[i].expr) { GroupAtoms(p, Connective(all), os[i]); }
    JoinTextAtoms(Connective(all), texts);
    SameAtoms(texts, os, |os|);
  }

  lemma NegateAtoms(p: Precedence, o: Operand)
    ensures Atoms(NegateOperand(p, o)) == Atoms(o.expr)
  {
    GroupAtoms(p, NOT, o);
    AtomsConcat([OpToken(NOT)], GroupOperand(p, NOT, o));
    SingleAtoms(OpToken(NOT));
  }

  /** Operands and deferred parts account for some comparisons. */
  predicate Accounts(b: Backend, parts: Pieces, ls: seq<Deferred>) {
    OperandAtoms(parts.operands, |parts.operands|) == Kept(b, ls) && parts.deferred == Queued(b, ls)
  }

  predicate QueryAccounts(b: Backend, q: Query, ls: seq<Deferred>) {
    Atoms(q.text) == Kept(b, ls) && q.deferred == Queued(b, ls)
  }

  lemma AccountsNext(b: Backend, before: Pieces, ls: seq<Deferred>, text: Text, op: Tag, deferred: seq<Deferred>, more: seq<Deferred>)
    requires Accounts(b, before, ls) && QueryAccounts(b, Query(text, deferred), more)
    ensures Accounts(b, Pieces(before.operands + [Operand(text, op)], before.deferred + deferred), ls + more)
  {
    KeptConcat(b, ls, more);
    OperandAtomsSnoc(before.operands, Operand(text, op), |before.operands|);
  }

  lemma JoinAccounts(b: Backend, all: bool, parts: Pieces, ls: seq<Deferred>)
    requires Accounts(b, parts, ls)
    ensures QueryAccounts(b, JoinPieces(b, all, parts), ls)
  {
    JoinAtoms(b.precedence, all, parts.operands);
  }

  // ----- Negating flips the parity -----

  lemma {:induction false} LeavesFlip(field: Option<string>, m: Matcher, negated: bool)
    ensures Leaves(field, m, !negated) == NegateAll(Leaves(field, m, negated))
    decreases m
  {
    match m
    case AnyOf(ms) => ListLeavesFlip(field, ms, negated, |ms|);
    case AllOf(ms) => ListLeavesFlip(field, ms, negated, |ms|);
    case Not(inner) => LeavesFlip(field, inner, !negated); NegateTwice(Leaves(field, inner, !negated));
    case _ =>
  }

  lemma NegateTwice(ls: seq<Deferred>)
    ensures NegateAll(NegateAll(ls)) == ls
  {
  }

  lemma {:induction false} ListLeavesFlip(field: Option<string>, ms: seq<Matcher>, negated: bool, n: nat)
    requires n <= |ms|
    ensures ListLeaves(field, ms, !negated, n) == NegateAll(ListLeaves(field, ms, negated, n))
    decreases ms, n
  {
    if n > 0 {
      ListLeavesFlip(field, ms, negated, n - 1);
      LeavesFlip(field, ms[n - 1], negated);
    }
  }

  lemma {:induction false} FlippedAccounts(b: Backend, ls: seq<Deferred>)
    ensures Kept(b, NegateAll(ls)) == Kept(b, ls) && Queued(b, NegateAll(ls)) == NegateAll(Queued(b, ls))
  {
    if ls != [] {
      var init, flipped := ls[..|ls| - 1], NegateAll(ls);
      FlippedAccounts(b, init);
      assert flipped[..|flipped| - 1] == NegateAll(init);
      assert flipped[|flipped| - 1] == ls[|ls| - 1].Negate();
    }
  }

  // ----- Values -----

  function PieceText(piece: Piece): Text {
    if piece.text.Some? then piece.text.value else []
  }

  lemma LeafAccounts(b: Backend, leaf: Leaf)
    requires RenderComparison(b, leaf).Ok? && leaf.field.Some?
    ensures var piece := RenderComparison(b, leaf).value;
            QueryAccounts(b, Query(PieceText(piece), piece.deferred), [Deferred(leaf, false)])
  {
    var ls := [Deferred(leaf, false)];
    assert ls[..0] == [];
    SingleAtoms(Atom(leaf));
  }

  lemma {:induction false} ValueAccounts(b: Backend, field: string, m: Matcher)
    requires RenderLeaf(b, field, m).Ok?
    ensures var piece := RenderLeaf(b, field, m).value;
            QueryAccounts(b, Query(PieceText(piece), piece.deferred), Leaves(Some(field), m, false))
    decreases m, 0
  {
    match m
    case AnyOf(ms) =>
      ValuesAccount(b, field, ms, |ms|);
      JoinAccounts(b, false, RenderList(b, field, ms, |ms|).value, Leaves(Some(field), m, false));
    case AllOf(ms) =>
      ValuesAccount(b, field, ms, |ms|);
      JoinAccounts(b, true, RenderList(b, field, ms, |ms|).value, Leaves(Some(field), m, false));
    case Not(inner) => NegationAccounts(b, field, inner);
    case _ => LeafAccounts(b, Leaf(Some(field), m));
  }

  lemma {:induction false} ValuesAccount(b: Backend, field: string, ms: seq<Matcher>, n: nat)
    requires n <= |ms| && RenderList(b, field, ms, n).Ok?
    ensures Accounts(b, RenderList(b, field, ms, n).value, ListLeaves(Some(field), ms, false, n))
    decreases ms, n
  {
    if n > 0 {
      ValuesAccount(b, field, ms, n - 1);
      ValueAccounts(b, field, ms[n - 1]);
      var before, last := RenderList(b, field, ms, n - 1).value, RenderLeaf(b, field, ms[n - 1]).value;
      var ls, more := ListLeaves(Some(field), ms, false, n - 1), Leaves(Some(field), ms[n - 1], false);
      AccountsNext(b, before, ls, PieceText(last), MatcherOp(ms[n - 1]), last.deferred, more);
      KeptConcat(b, ls, more);
      if last.text.None? { assert before.operands + [] == before.operands; }
    }
  }

  /** What a negation renders, before it negates. */
  lemma {:induction false} InnerAccounts(b: Backend, field: string, inner: Matcher)
    requires RenderInner(b, field, inner).Ok?
    ensures var (operand, deferred) := RenderInner(b, field, inner).value;
            QueryAccounts(b, Query(if operand.Some? then operand.value.expr else [], deferred), Leaves(Some(field), inner, false))
    decreases inner, 1
  {
    if inner.AnyOf? || inner.AllOf? {
      ValuesAccount(b, field, inner.ms, |inner.ms|);
      JoinAccounts(b, inner.AllOf?, RenderList(b, field, inner.ms, |inner.ms|).value, Leaves(Some(field), inner, false));
    } else {
      ValueAccounts(b, field, inner);
    }
  }

  lemma {:induction false} NegationAccounts(b: Backend, field: string, inner: Matcher)
    requires RenderNot(b, field, inner).Ok?
    ensures var piece := RenderNot(b, field, inner).value;
            QueryAccounts(b, Query(PieceText(piece), piece.deferred), Leaves(Some(field), inner, true))
    decreases inner, 2
  {
    var ls := Leaves(Some(field), inner, false);
    var operand := RenderInner(b, field, inner).value.0;
    InnerAccounts(b, field, inner);
    LeavesFlip(Some(field), inner, false);
    FlippedAccounts(b, ls);
    if operand.Some? { NegateAtoms(b.precedence, operand.value); }
  }

  // ----- Keywords -----

  lemma KeywordAccounts(b: Backend, m: Matcher)
    requires RenderKeyword(b, m).Ok?
    ensures Leaves(None, m, false) == [Deferred(Leaf(None, m), false)]
    ensures QueryAccounts(b, Query(RenderKeyword(b, m).value, []), Leaves(None, m, false))
  {
    var ls := Leaves(None, m, false);
    assert ls[..0] == [];
    SingleAtoms(Atom(Leaf(None, m)));
  }

  /** Keywords are always text, whatever is negated. */
  lemma {:induction false} KeywordsKept(b: Backend, m: Matcher, negated: bool)
    ensures Queued(b, Leaves(None, m, negated)) == []
    decreases m
  {
    match m
    case AnyOf(ms) => KeywordListKept(b, ms, negated, |ms|);
    case AllOf(ms) => KeywordListKept(b, ms, negated, |ms|);
    case Not(inner) => KeywordsKept(b, inner, !negated);
    case _ => assert Leaves(None, m, negated)[..0] == [];
  }

  lemma {:induction false} KeywordListKept(b: Backend, ms: seq<Matcher>, negated: bool, n: nat)
    requires n <= |ms|
    ensures Queued(b, ListLeaves(None, ms, negated, n)) == []
    decreases ms, n
  {
    if n > 0 {
      KeywordListKept(b, ms, negated, n - 1);
      KeywordsKept(b, ms[n - 1], negated);
      KeptConcat(b, ListLeaves(None, ms, negated, n - 1), Leaves(None, ms[n - 1], negated));
    }
  }

  lemma {:induction false} KeywordItemAccounts(b: Backend, m: Matcher)
    requires RenderKeywordItem(b, m).Ok?
    ensures QueryAccounts(b, Query(RenderKeywordItem(b, m).value, []), Leaves(None, m, false))
    decreases m
  {
    KeywordsKept(b, m, false);
    match m
    case AnyOf(ms) =>
      KeywordItemsAccount(b, ms, |ms|);
      JoinAtoms(b.precedence, false, RenderKeywordItems(b, ms, |ms|).value);
    case AllOf(ms) =>
      KeywordItemsAccount(b, ms, |ms|);
      JoinAtoms(b.precedence, true, RenderKeywordItems(b, ms, |ms|).value);
    case Not(inner) =>
      KeywordItemAccounts(b, inner);
      NegateAtoms(b.precedence, Operand(RenderKeywordItem(b, inner).value, MatcherOp(inner)));
      LeavesFlip(None, inner, false);
      FlippedAccounts(b, Leaves(None, inner, false));
    case _ => KeywordAccounts(b, m);
  }

  lemma {:induction false} KeywordItemsAccount(b: Backend, ms: seq<Matcher>, n: nat)
    requires n <= |ms| && RenderKeywordItems(b, ms, n).Ok?
    ensures OperandAtoms(RenderKeywordItems(b, ms, n).value, n) == Kept(b, ListLeaves(None, ms, false, n))
    decreases ms, n
  {
    if n > 0 {
      KeywordItemsAccount(b, ms, n - 1);
      KeywordItemAccounts(b, ms[n - 1]);
      OperandAtomsSnoc(RenderKeywordItems(b, ms, n - 1).value,
                       Operand(RenderKeywordItem(b, ms[n - 1]).value, MatcherOp(ms[n - 1])), n - 1);
      KeptConcat(b, ListLeaves(None, ms, false, n - 1), Leaves(None, ms[n - 1], false));
    }
  }

  lemma {:induction false} KeywordTextsAccount(b: Backend, ms: seq<Matcher>, n: nat)
    requires n <= |ms| && RenderKeywordTexts(b, ms, n).Ok?
    ensures |RenderKeywordTexts(b, ms, n).value| == n
    ensures TextAtoms(RenderKeywordTexts(b, ms, n).value, n) == Kept(b, ListLeaves(None, ms, false, n))
  {
    if n > 0 {
      KeywordTextsAccount(b, ms, n - 1);
      KeywordAccounts(b, ms[n - 1]);
      TextAtomsSnoc(RenderKeywordTexts(b, ms, n - 1).value, RenderKeyword(b, ms[n - 1]).value, n - 1);
      KeptConcat(b, ListLeaves(None, ms, false, n - 1), Leaves(None, ms[n - 1], false));
    }
  }

  lemma {:induction false} TextAtomsSnoc(texts: seq<Text>, t: Text, n: nat)
    requires n <= |texts|
    ensures TextAtoms(texts + [t], n) == TextAtoms(texts, n)
    ensures TextAtoms(texts + [t], |texts| + 1) == TextAtoms(texts + [t], |texts|) + Atoms(t)
  {
    if n > 0 { TextAtomsSnoc(texts, t, n - 1); }
  }

  lemma KeywordDetectionAccounts(b: Backend, m: Matcher)
    requires RenderDetection(b, Keywords(m)).Ok?
    ensures QueryAccounts(b, RenderDetection(b, Keywords(m)).value, Leaves(None, m, false))
  {
    var ms := if m.AnyOf? then m.ms else [m];
    var texts := RenderKeywordTexts(b, ms, |ms|).value;
    KeywordTextsAccount(b, ms, |ms|);
    JoinTextAtoms(OR, texts);
    KeywordsKept(b, m, false);
    if !m.AnyOf? {
      assert ms[0] == m && ListLeaves(None, ms, false, 0) == [];
      assert ListLeaves(None, ms, false, 1) == [] + Leaves(None, m, false);
    }
  }

  // ----- Detections and conditions -----

  lemma ItemAccounts(b: Backend, item: DetectionItem)
    requires RenderItem(b, item).Ok?
    ensures QueryAccounts(b, RenderItem(b, item).value, Leaves(item.field, item.matcher, false))
  {
    if item.field.None? { KeywordItemAccounts(b, item.matcher); } else { ValueAccounts(b, item.field.value, item.matcher); }
  }

  lemma {:induction false} ItemsAccount(b: Backend, items: seq<DetectionItem>, n: nat)
    requires n <= |items| && RenderItems(b, items, n).Ok?
    ensures Accounts(b, RenderItems(b, items, n).value, ItemLeaves(items, n))
  {
    if n > 0 {
      ItemsAccount(b, items, n - 1);
      ItemAccounts(b, items[n - 1]);
      var last := RenderItem(b, items[n - 1]).value;
      AccountsNext(b, RenderItems(b, items, n - 1).value, ItemLeaves(items, n - 1), last.text, MatcherOp(items[n - 1].matcher),
                   last.deferred, Leaves(items[n - 1].field, items[n - 1].matcher, false));
    }
  }

  lemma {:induction false} DetectionAccounts(b: Backend, d: Detection)
    requires RenderDetection(b, d).Ok?
    ensures QueryAccounts(b, RenderDetection(b, d).value, DetectionLeaves(d))
    decreases d
  {
    match d
    case AllItems(items) =>
      ItemsAccount(b, items, |items|);
      JoinAccounts(b, true, RenderItems(b, items, |items|).value, ItemLeaves(items, |items|));
    case AnyDetection(dets) =>
      DetectionsAccount(b, dets, |dets|);
      JoinAccounts(b, false, RenderDetections(b, dets, |dets|).value, DetectionsLeaves(dets, |dets|));
    case AndDetection(dets) =>
      DetectionsAccount(b, dets, |dets|);
      JoinAccounts(b, true, RenderDetections(b, dets, |dets|).value, DetectionsLeaves(dets, |dets|));
    case Keywords(m) => KeywordDetectionAccounts(b, m);
    case Conditional(named, c) => ConditionAccounts(b, InBlock, c, named);
    case ArrayMatch(_, _, _) =>
  }

  lemma {:induction false} DetectionsAccount(b: Backend, dets: seq<Detection>, n: nat)
    requires n <= |dets| && RenderDetections(b, dets, n).Ok?
    ensures Accounts(b, RenderDetections(b, dets, n).value, DetectionsLeaves(dets, n))
    decreases dets, n
  {
    if n > 0 {
      DetectionsAccount(b, dets, n - 1);
      DetectionAccounts(b, dets[n - 1]);
      var last := RenderDetection(b, dets[n - 1]).value;
      AccountsNext(b, RenderDetections(b, dets, n - 1).value, DetectionsLeaves(dets, n - 1), last.text, DetectionOp(dets[n - 1]),
                   last.deferred, DetectionLeaves(dets[n - 1]));
    }
  }

  lemma {:induction false} SelectedAccount(b: Backend, named: seq<NamedDetection>, pattern: SelectorPattern, n: nat)
    requires n <= |named| && RenderSelected(b, named, pattern, n).Ok?
    ensures Accounts(b, RenderSelected(b, named, pattern, n).value, SelectedLeaves(named, pattern, n))
    decreases named, 0, n
  {
    if n > 0 {
      SelectedAccount(b, named, pattern, n - 1);
      if MatchesDetectionName(pattern, named[n - 1].name) {
        var last := RenderNamed(b, named, n - 1).value;
        DetectionAccounts(b, named[n - 1].det);
        AccountsNext(b, RenderSelected(b, named, pattern, n - 1).value, SelectedLeaves(named, pattern, n - 1), last.text,
                     NamedOp(named, n - 1), last.deferred, NamedLeaves(named, n - 1));
      } else {
        assert SelectedLeaves(named, pattern, n - 1) + [] == SelectedLeaves(named, pattern, n - 1);
      }
    }
  }

  lemma SelectorAccounts(b: Backend, scope: Scope, q: Quantifier, pattern: SelectorPattern, named: seq<NamedDetection>)
    requires RenderCondition(b, scope, Selector(q, pattern), named).Ok?
    ensures QueryAccounts(b, RenderCondition(b, scope, Selector(q, pattern), named).value, SelectedLeaves(named, pattern, |named|))
    decreases named, 0, |named| + 1
  {
    SelectedAccount(b, named, pattern, |named|);
    JoinAccounts(b, q == QAll, RenderSelected(b, named, pattern, |named|).value, SelectedLeaves(named, pattern, |named|));
  }

  /**
    Main result: the atoms of a converted condition are its comparisons that are not deferred, and its
    deferred parts the others, each in reading order, negated as often as negations stand around the
    value.
   */
  lemma {:induction false} ConditionAccounts(b: Backend, scope: Scope, c: Condition, named: seq<NamedDetection>)
    requires RenderCondition(b, scope, c, named).Ok?
    ensures QueryAccounts(b, RenderCondition(b, scope, c, named).value, ConditionLeaves(c, named))
    decreases named, 1, c
  {
    match c
    case Named(name) => DetectionAccounts(b, named[Lookup(named, name).value].det);
    case CondAnd(cs) =>
      ConditionsAccount(b, scope, cs, named, |cs|);
      JoinAccounts(b, true, RenderConditions(b, scope, cs, named, |cs|).value, ConditionsLeaves(cs, named, |cs|));
    case CondOr(cs) =>
      ConditionsAccount(b, scope, cs, named, |cs|);
      JoinAccounts(b, false, RenderConditions(b, scope, cs, named, |cs|).value, ConditionsLeaves(cs, named, |cs|));
    case CondNot(inner) =>
      ConditionAccounts(b, scope, inner, named);
      NegateAtoms(b.precedence, Operand(RenderCondition(b, scope, inner, named).value.text, ConditionOp(inner, named)));
    case Selector(q, pattern) => SelectorAccounts(b, scope, q, pattern, named);
  }

  lemma {:induction false} ConditionsAccount(b: Backend, scope: Scope, cs: seq<Condition>, named: seq<NamedDetection>, n: nat)
    requires n <= |cs| && RenderConditions(b, scope, cs, named, n).Ok?
    ensures Accounts(b, RenderConditions(b, scope, cs, named, n).value, ConditionsLeaves(cs, named, n))
    decreases named, 1, cs, n
  {
    if n > 0 {
      ConditionsAccount(b, scope, cs, named, n - 1);
      ConditionAccounts(b, scope, cs[n - 1], named);
      var last := RenderCondition(b, scope, cs[n - 1], named).value;
      AccountsNext(b, RenderConditions(b, scope, cs, named, n - 1).value, ConditionsLeaves(cs, named, n - 1), last.text,
                   ConditionOp(cs[n - 1], named), last.deferred, ConditionLeaves(cs[n - 1], named));
    }
  }
}
