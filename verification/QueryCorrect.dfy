/**
  The emitted query means what the rule means, under every precedence order: parsing the text
  gives back a formula with the rule's truth value, and it parses exactly when no list is empty.
 */
module QueryCorrect {
  import opened Results
  import opened SigmaIr
  import opened QueryText
  import opened OperatorTags
  import opened IrConvert
  import opened Meaning

  /** The loosest level at which text with this tag is one phrase. */
  function Level(p: Precedence, op: Tag): (k: nat)
    ensures k <= 3
  {
    if op.None? then 0 else p.Rank(op.value) + 1
  }

  /** `t` reads as one phrase of its tag's level, with truth value `val`. */
  predicate Reads(p: Precedence, v: Valuation, t: Text, op: Tag, val: bool) {
    match ParseAt(p, Level(p, op), t)
    case Some((f, rest)) => rest == [] && Eval(f, v) == val
    case None => false
  }

  // ----- Combinators -----

  lemma ReadsWhole(p: Precedence, v: Valuation, t: Text, op: Tag, val: bool)
    requires p.Valid() && Reads(p, v, t, op, val)
    ensures Parse(p, t).Some? && Eval(Parse(p, t).value, v) == val && t != []
  {
    ParseLift(p, Level(p, op), 3, t);
  }

  /** A grouped operand reads at the level just below its parent, or at the parent's own level for the same operator. */
  lemma GroupedReads(p: Precedence, v: Valuation, outer: TokenType, o: Operand, val: bool)
    requires p.Valid() && Reads(p, v, o.expr, o.op, val)
    ensures var g := GroupOperand(p, outer, o);
            var level := if o.op == Some(outer) && outer != NOT then p.Rank(outer) + 1 else p.Rank(outer);
            ParseAt(p, level, g).Some? && ParseAt(p, level, g).value.1 == [] && Eval(ParseAt(p, level, g).value.0, v) == val
  {
    ReadsWhole(p, v, o.expr, o.op, val);
    var g := GroupOperand(p, outer, o);
    if o.op.Some? && p.NeedsGrouping(outer, o.op.value) {
      ParseLift(p, Level(p, o.op), 3, o.expr);
      ParenReads(p, o.expr);
      ParseLift(p, 0, p.Rank(outer), g);
    } else if o.op != Some(outer) {
      RanksDiffer(p, outer, o.op);
      ParseLift(p, Level(p, o.op), p.Rank(outer), g);
    }
  }

  lemma RanksDiffer(p: Precedence, outer: TokenType, op: Tag)
    requires p.Valid() && op != Some(outer)
    ensures op.Some? ==> p.Rank(op.value) != p.Rank(outer)
  {
    AtRank(p, outer);
    if op.Some? { AtRank(p, op.value); }
  }

  /** The operands one grouped text contributes to a chain of `op`. */
  lemma OperandChain(p: Precedence, v: Valuation, op: TokenType, o: Operand, val: bool)
    requires p.Valid() && op != NOT && Reads(p, v, o.expr, o.op, val)
    ensures var c := ParseChain(p, p.Rank(op) + 1, GroupOperand(p, op, o));
            c.Some? && c.value.1 == [] && EvalAll(op, c.value.0, v) == val
  {
    GroupedReads(p, v, op, o, val);
    AtRank(p, op);
    var g := GroupOperand(p, op, o);
    if o.op != Some(op) {
      var f := ParseAt(p, p.Rank(op), g).value.0;
      assert ParseChain(p, p.Rank(op) + 1, g) == Some(([f], []));
      assert EvalAll(op, [f], v) == Eval([f][0], v);
    } else {
      var fs := ParseChain(p, p.Rank(op) + 1, g).value.0;
      assert EvalAll(op, fs, v) == Eval(Wrap(op, fs), v);
    }
  }

  predicate Combined(op: TokenType, vals: seq<bool>) {
    if op == AND then forall i | 0 <= i < |vals| :: vals[i] else exists i | 0 <= i < |vals| :: vals[i]
  }

  lemma EvalAllConcat(op: TokenType, fs: seq<Formula>, gs: seq<Formula>, v: Valuation)
    requires op != NOT
    ensures EvalAll(op, fs + gs, v) == if op == AND then EvalAll(op, fs, v) && EvalAll(op, gs, v) else EvalAll(op, fs, v) || EvalAll(op, gs, v)
  {
    var hs := fs + gs;
    forall i | 0 <= i < |fs| ensures hs[i] == fs[i] {}
    forall i | 0 <= i < |gs| ensures hs[|fs| + i] == gs[i] {}
    if op == AND {
      if EvalAll(op, hs, v) {
        forall i | 0 <= i < |gs| ensures Eval(gs[i], v) { assert Eval(hs[|fs| + i], v); }
        forall i | 0 <= i < |fs| ensures Eval(fs[i], v) { assert Eval(hs[i], v); }
      }
    } else {
      if i :| 0 <= i < |fs| && Eval(fs[i], v) { assert Eval(hs[i], v); }
      if i :| 0 <= i < |gs| && Eval(gs[i], v) { assert Eval(hs[|fs| + i], v); }
    }
  }

  lemma CombinedCons(op: TokenType, vals: seq<bool>)
    requires op != NOT && |vals| > 0
    ensures Combined(op, vals) == if op == AND then vals[0] && Combined(op, vals[1..]) else vals[0] || Combined(op, vals[1..])
  {
    var rest := vals[1..];
    assert forall i | 0 <= i < |rest| :: rest[i] == vals[i + 1];
    if op == AND {
      if vals[0] && Combined(op, rest) {
        forall i | 0 <= i < |vals| ensures vals[i] { if i > 0 { assert rest[i - 1]; } }
      }
    } else if Combined(op, vals) {
      var i :| 0 <= i < |vals| && vals[i];
      if i > 0 { assert rest[i - 1]; }
    }
  }

  ghost predicate AllRead(p: Precedence, v: Valuation, os: seq<Operand>, vals: seq<bool>) {
    |vals| == |os| && forall i | 0 <= i < |os| :: Reads(p, v, os[i].expr, os[i].op, vals[i])
  }

  lemma {:induction false} JoinChain(p: Precedence, v: Valuation, op: TokenType, os: seq<Operand>, vals: seq<bool>)
    requires p.Valid() && op != NOT && |os| > 0 && AllRead(p, v, os, vals)
    ensures var c := ParseChain(p, p.Rank(op) + 1, JoinText(op, Grouped(p, op, os)));
            c.Some? && c.value.1 == [] && EvalAll(op, c.value.0, v) == Combined(op, vals)
    decreases |os|
  {
    var texts := Grouped(p, op, os);
    OperandChain(p, v, op, os[0], vals[0]);
    CombinedCons(op, vals);
    if |os| > 1 {
      JoinChain(p, v, op, os[1..], vals[1..]);
      assert texts[1..] == Grouped(p, op, os[1..]);
      AtRank(p, op);
      ChainJoin(p, p.Rank(op) + 1, texts[0], JoinText(op, texts[1..]));
      EvalAllConcat(op, ParseChain(p, p.Rank(op) + 1, texts[0]).value.0,
                    ParseChain(p, p.Rank(op) + 1, JoinText(op, texts[1..])).value.0, v);
    }
  }

  function Tags(os: seq<Operand>): (r: seq<Tag>)
    ensures |r| == |os|
  {
    seq(|os|, i requires 0 <= i < |os| => os[i].op)
  }

  /** Joined operands read with the tag of the list and the truth of the connective. */
  lemma JoinReads(p: Precedence, v: Valuation, all: bool, os: seq<Operand>, vals: seq<bool>)
    requires p.Valid() && |os| > 0 && AllRead(p, v, os, vals)
    ensures Reads(p, v, Join(p, all, os), ListOp(Tags(os), Connective(all)), Combined(Connective(all), vals))
  {
    var op := Connective(all);
    if |os| == 1 {
      CombinedCons(op, vals);
    } else {
      JoinChain(p, v, op, os, vals);
      AtRank(p, op);
      var fs := ParseChain(p, p.Rank(op) + 1, JoinText(op, Grouped(p, op, os))).value.0;
      assert EvalAll(op, fs, v) == Eval(Wrap(op, fs), v);
    }
  }

  lemma NegateReads(p: Precedence, v: Valuation, o: Operand, val: bool)
    requires p.Valid() && Reads(p, v, o.expr, o.op, val)
    ensures Reads(p, v, NegateOperand(p, o), Some(NOT), !val)
  {
    GroupedReads(p, v, NOT, o, val);
    AtRank(p, NOT);
    var g := GroupOperand(p, NOT, o);
    ParseLift(p, p.Rank(NOT), p.Rank(NOT) + 1, g);
    assert NotText(g)[1..] == g;
  }

  lemma AtomReads(p: Precedence, v: Valuation, leaf: Leaf)
    ensures Reads(p, v, [Atom(leaf)], None, v(leaf))
  {
  }

  // ----- Renderers -----

  /** An operand with the given tag that reads with the given truth. */
  predicate OperandFor(p: Precedence, v: Valuation, o: Operand, tag: Tag, val: bool) {
    o.op == tag && Reads(p, v, o.expr, tag, val)
  }

  /** Every comparison is rendered as query text, deferred, or refused; never as empty text. */
  ghost predicate NoBlank(b: Backend) {
    forall leaf :: b.render(leaf) != Ok(Blank)
  }

  predicate MatcherFull(m: Matcher)
    decreases m
  {
    match m
    case AnyOf(ms) => |ms| > 0 && forall i | 0 <= i < |ms| :: MatcherFull(ms[i])
    case AllOf(ms) => |ms| > 0 && forall i | 0 <= i < |ms| :: MatcherFull(ms[i])
    case Not(inner) => MatcherFull(inner)
    case _ => true
  }

  function MatcherTruths(ms: seq<Matcher>, field: Option<string>, view: View): (r: seq<bool>)
    ensures |r| == |ms|
  {
    seq(|ms|, i requires 0 <= i < |ms| => MatcherHolds(ms[i], field, view))
  }

  function ListMatcher(all: bool, ms: seq<Matcher>): Matcher {
    if all then AllOf(ms) else AnyOf(ms)
  }

  /** A list of matchers has the truth and the tag its members have together. */
  lemma MatcherListMeans(ms: seq<Matcher>, field: Option<string>, all: bool, os: seq<Operand>, view: View)
    requires |os| == |ms| && forall i | 0 <= i < |ms| :: os[i].op == MatcherOp(ms[i])
    ensures ListOp(Tags(os), Connective(all)) == MatcherOp(ListMatcher(all, ms))
    ensures Combined(Connective(all), MatcherTruths(ms, field, view)) == MatcherHolds(ListMatcher(all, ms), field, view)
  {
    assert Tags(os) == seq(|ms|, i requires 0 <= i < |ms| => MatcherOp(ms[i]));
    var truths := MatcherTruths(ms, field, view);
    assert forall i | 0 <= i < |ms| :: truths[i] == MatcherHolds(ms[i], field, view);
    var m := ListMatcher(all, ms);
    if all {
      assert m == AllOf(ms);
    } else {
      assert m == AnyOf(ms);
    }
  }

  lemma {:induction false} LeafReads(b: Backend, field: string, m: Matcher, view: View)
    requires b.precedence.Valid() && NoBlank(b) && MatcherFull(m)
    requires RenderLeaf(b, field, m).Ok? && RenderLeaf(b, field, m).value.deferred == []
    ensures var piece := RenderLeaf(b, field, m).value;
            && piece.text.Some?
            && Reads(b.precedence, view.leaf, piece.text.value, MatcherOp(m), MatcherHolds(m, Some(field), view))
    decreases m, 0
  {
    match m
    case AnyOf(ms) => MatcherListReads(b, field, ms, false, view);
    case AllOf(ms) => MatcherListReads(b, field, ms, true, view);
    case Not(inner) =>
      InnerReads(b, field, inner, view);
      NegateReads(b.precedence, view.leaf, RenderInner(b, field, inner).value.0.value, MatcherHolds(inner, Some(field), view));
    case _ => AtomReads(b.precedence, view.leaf, Leaf(Some(field), m));
  }

  lemma {:induction false} MatcherListReads(b: Backend, field: string, ms: seq<Matcher>, all: bool, view: View)
    requires b.precedence.Valid() && NoBlank(b) && |ms| > 0 && forall i | 0 <= i < |ms| :: MatcherFull(ms[i])
    requires RenderList(b, field, ms, |ms|).Ok? && RenderList(b, field, ms, |ms|).value.deferred == []
    ensures var os := RenderList(b, field, ms, |ms|).value.operands;
            && |os| == |ms| && (|os| == 1 ==> os[0].op == MatcherOp(ListMatcher(all, ms)))
            && Reads(b.precedence, view.leaf, Join(b.precedence, all, os), MatcherOp(ListMatcher(all, ms)),
                     MatcherHolds(ListMatcher(all, ms), Some(field), view))
    decreases ms, |ms| + 1
  {
    var os := RenderList(b, field, ms, |ms|).value.operands;
    ListCount(b, field, ms, |ms|, view);
    forall i | 0 <= i < |ms|
      ensures OperandFor(b.precedence, view.leaf, os[i], MatcherOp(ms[i]), MatcherTruths(ms, Some(field), view)[i])
    {
      ListReads(b, field, ms, |ms|, i, view);
    }
    MatcherListMeans(ms, Some(field), all, os, view);
    JoinReads(b.precedence, view.leaf, all, os, MatcherTruths(ms, Some(field), view));
  }

  lemma {:induction false} InnerReads(b: Backend, field: string, inner: Matcher, view: View)
    requires b.precedence.Valid() && NoBlank(b) && MatcherFull(inner)
    requires RenderInner(b, field, inner).Ok? && RenderInner(b, field, inner).value.1 == []
    ensures var o := RenderInner(b, field, inner).value.0;
            && o.Some? && o.value.op == MatcherOp(inner)
            && Reads(b.precedence, view.leaf, o.value.expr, o.value.op, MatcherHolds(inner, Some(field), view))
    decreases inner, 1
  {
    if inner.AnyOf? || inner.AllOf? {
      MatcherListReads(b, field, inner.ms, inner.AllOf?, view);
    } else {
      LeafReads(b, field, inner, view);
    }
  }

  lemma ListStep(b: Backend, field: string, ms: seq<Matcher>, n: nat)
    requires 0 < n <= |ms| && RenderList(b, field, ms, n).Ok? && RenderList(b, field, ms, n).value.deferred == []
    ensures RenderList(b, field, ms, n - 1).Ok? && RenderLeaf(b, field, ms[n - 1]).Ok?
    ensures var before, last := RenderList(b, field, ms, n - 1).value, RenderLeaf(b, field, ms[n - 1]).value;
            && before.deferred == [] && last.deferred == []
            && RenderList(b, field, ms, n).value.operands
               == before.operands + (if last.text.Some? then [Operand(last.text.value, MatcherOp(ms[n - 1]))] else [])
  {
  }

  /** Without blanks and deferrals every full matcher contributes an operand. */
  lemma {:induction false} ListCount(b: Backend, field: string, ms: seq<Matcher>, n: nat, view: View)
    requires b.precedence.Valid() && NoBlank(b) && n <= |ms| && forall i | 0 <= i < n :: MatcherFull(ms[i])
    requires RenderList(b, field, ms, n).Ok? && RenderList(b, field, ms, n).value.deferred == []
    ensures |RenderList(b, field, ms, n).value.operands| == n
    decreases ms, n
  {
    if n > 0 {
      ListStep(b, field, ms, n);
      ListCount(b, field, ms, n - 1, view);
      LeafReads(b, field, ms[n - 1], view);
    }
  }

  /** Operand `i` reads as matcher `i` means. */
  lemma {:induction false} ListReads(b: Backend, field: string, ms: seq<Matcher>, n: nat, i: nat, view: View)
    requires b.precedence.Valid() && NoBlank(b) && i < n <= |ms| && MatcherFull(ms[i])
    requires RenderList(b, field, ms, n).Ok? && RenderList(b, field, ms, n).value.deferred == []
    requires |RenderList(b, field, ms, n).value.operands| == n
    ensures OperandFor(b.precedence, view.leaf, RenderList(b, field, ms, n).value.operands[i], MatcherOp(ms[i]),
                       MatcherHolds(ms[i], Some(field), view))
    decreases ms, n
  {
    ListStep(b, field, ms, n);
    if i < n - 1 {
      ListReads(b, field, ms, n - 1, i, view);
    } else {
      LeafReads(b, field, ms[i], view);
    }
  }

  lemma {:induction false} KeywordItemReads(b: Backend, m: Matcher, view: View)
    requires b.precedence.Valid() && MatcherFull(m) && RenderKeywordItem(b, m).Ok?
    ensures Reads(b.precedence, view.leaf, RenderKeywordItem(b, m).value, MatcherOp(m), MatcherHolds(m, None, view))
    decreases m
  {
    match m
    case AnyOf(ms) => KeywordListReads(b, ms, false, view);
    case AllOf(ms) => KeywordListReads(b, ms, true, view);
    case Not(inner) =>
      KeywordItemReads(b, inner, view);
      NegateReads(b.precedence, view.leaf, Operand(RenderKeywordItem(b, inner).value, MatcherOp(inner)), MatcherHolds(inner, None, view));
    case _ => AtomReads(b.precedence, view.leaf, Leaf(None, m));
  }

  lemma {:induction false} KeywordListReads(b: Backend, ms: seq<Matcher>, all: bool, view: View)
    requires b.precedence.Valid() && |ms| > 0 && (forall i | 0 <= i < |ms| :: MatcherFull(ms[i])) && RenderKeywordItems(b, ms, |ms|).Ok?
    ensures Reads(b.precedence, view.leaf, Join(b.precedence, all, RenderKeywordItems(b, ms, |ms|).value), MatcherOp(ListMatcher(all, ms)),
                  MatcherHolds(ListMatcher(all, ms), None, view))
    decreases ms, |ms| + 1
  {
    var os := RenderKeywordItems(b, ms, |ms|).value;
    forall i | 0 <= i < |ms|
      ensures OperandFor(b.precedence, view.leaf, os[i], MatcherOp(ms[i]), MatcherTruths(ms, None, view)[i])
    {
      KeywordItemsRead(b, ms, |ms|, i, view);
    }
    MatcherListMeans(ms, None, all, os, view);
    JoinReads(b.precedence, view.leaf, all, os, MatcherTruths(ms, None, view));
  }

  lemma {:induction false} KeywordItemsRead(b: Backend, ms: seq<Matcher>, n: nat, i: nat, view: View)
    requires b.precedence.Valid() && i < n <= |ms| && MatcherFull(ms[i]) && RenderKeywordItems(b, ms, n).Ok?
    ensures OperandFor(b.precedence, view.leaf, RenderKeywordItems(b, ms, n).value[i], MatcherOp(ms[i]), MatcherHolds(ms[i], None, view))
    decreases ms, n
  {
    if i < n - 1 {
      KeywordItemsRead(b, ms, n - 1, i, view);
    } else {
      KeywordItemReads(b, ms[i], view);
    }
  }

  lemma {:induction false} KeywordTextsRead(b: Backend, ms: seq<Matcher>, n: nat)
    requires n <= |ms| && RenderKeywordTexts(b, ms, n).Ok?
    ensures |RenderKeywordTexts(b, ms, n).value| == n
    ensures forall i | 0 <= i < n ::
              && RenderKeywordTexts(b, ms, n).value[i] == [Atom(Leaf(None, ms[i]))]
              && (ms[i].Str? || ms[i].NumericEq?)
  {
    if n > 0 {
      KeywordTextsRead(b, ms, n - 1);
    }
  }

  /** Keyword texts are joined without grouping; they are atoms, so that is the same text. */
  lemma AtomsJoin(p: Precedence, texts: seq<Text>, os: seq<Operand>)
    requires |texts| == |os| > 0 && forall i | 0 <= i < |os| :: os[i] == Operand(texts[i], None)
    ensures JoinText(OR, texts) == Join(p, false, os)
  {
    if |os| == 1 {
      assert texts == [os[0].expr];
    } else {
      assert Grouped(p, OR, os) == texts;
    }
  }

  lemma KeywordTextsMean(b: Backend, ms: seq<Matcher>, view: View)
    requires b.precedence.Valid() && |ms| > 0 && RenderKeywordTexts(b, ms, |ms|).Ok?
    ensures Reads(b.precedence, view.leaf, JoinText(OR, RenderKeywordTexts(b, ms, |ms|).value), MatcherOp(AnyOf(ms)),
                  MatcherHolds(AnyOf(ms), None, view))
  {
    var texts := RenderKeywordTexts(b, ms, |ms|).value;
    KeywordTextsRead(b, ms, |ms|);
    var os := seq(|ms|, i requires 0 <= i < |ms| => Operand(texts[i], None));
    forall i | 0 <= i < |ms|
      ensures OperandFor(b.precedence, view.leaf, os[i], MatcherOp(ms[i]), MatcherTruths(ms, None, view)[i])
    {
      AtomReads(b.precedence, view.leaf, Leaf(None, ms[i]));
    }
    MatcherListMeans(ms, None, false, os, view);
    JoinReads(b.precedence, view.leaf, false, os, MatcherTruths(ms, None, view));
    AtomsJoin(b.precedence, texts, os);
  }

  lemma KeywordsRead(b: Backend, m: Matcher, view: View)
    requires b.precedence.Valid() && MatcherFull(m) && RenderDetection(b, Keywords(m)).Ok?
    ensures Reads(b.precedence, view.leaf, RenderDetection(b, Keywords(m)).value.text, MatcherOp(m), MatcherHolds(m, None, view))
  {
    if m.AnyOf? {
      KeywordTextsMean(b, m.ms, view);
    } else {
      KeywordTextsMean(b, [m], view);
      assert MatcherHolds(AnyOf([m]), None, view) == MatcherHolds([m][0], None, view);
    }
  }

  // ----- Detections and conditions -----

  predicate DetectionFull(d: Detection)
    decreases d
  {
    match d
    case AllItems(items) => |items| > 0 && forall i | 0 <= i < |items| :: MatcherFull(items[i].matcher)
    case AnyDetection(dets) => |dets| > 0 && forall i | 0 <= i < |dets| :: DetectionFull(dets[i])
    case AndDetection(dets) => |dets| > 0 && forall i | 0 <= i < |dets| :: DetectionFull(dets[i])
    case Keywords(m) => MatcherFull(m)
    case ArrayMatch(_, _, body) => DetectionFull(body)
    case Conditional(named, c) => ConditionFull(c, named)
  }

  predicate NamedFull(named: seq<NamedDetection>, i: nat)
    requires i < |named|
    decreases named, 0
  {
    DetectionFull(named[i].det)
  }

  /** No list the condition reaches is empty, and every selector selects something. */
  predicate ConditionFull(c: Condition, named: seq<NamedDetection>)
    decreases named, 1, c
  {
    match c
    case Named(name) => Lookup(named, name).Some? ==> NamedFull(named, Lookup(named, name).value)
    case CondAnd(cs) => |cs| > 0 && forall i | 0 <= i < |cs| :: ConditionFull(cs[i], named)
    case CondOr(cs) => |cs| > 0 && forall i | 0 <= i < |cs| :: ConditionFull(cs[i], named)
    case CondNot(inner) => ConditionFull(inner, named)
    case Selector(_, pattern) =>
      && (exists i | 0 <= i < |named| :: MatchesDetectionName(pattern, named[i].name))
      && forall i | 0 <= i < |named| :: MatchesDetectionName(pattern, named[i].name) ==> NamedFull(named, i)
  }

  lemma ItemReads(b: Backend, item: DetectionItem, view: View)
    requires b.precedence.Valid() && NoBlank(b) && MatcherFull(item.matcher)
    requires RenderItem(b, item).Ok? && RenderItem(b, item).value.deferred == []
    ensures Reads(b.precedence, view.leaf, RenderItem(b, item).value.text, MatcherOp(item.matcher), MatcherHolds(item.matcher, item.field, view))
  {
    if item.field.None? {
      KeywordItemReads(b, item.matcher, view);
    } else {
      LeafReads(b, item.field.value, item.matcher, view);
    }
  }

  lemma ItemsStep(b: Backend, items: seq<DetectionItem>, n: nat)
    requires 0 < n <= |items| && RenderItems(b, items, n).Ok?
    ensures RenderItems(b, items, n - 1).Ok? && RenderItem(b, items[n - 1]).Ok?
    ensures var before, last := RenderItems(b, items, n - 1).value, RenderItem(b, items[n - 1]).value;
            && RenderItems(b, items, n).value.operands == before.operands + [Operand(last.text, MatcherOp(items[n - 1].matcher))]
            && (RenderItems(b, items, n).value.deferred == [] ==> before.deferred == [] && last.deferred == [])
  {
  }

  /** Operand `i` reads as item `i` means. */
  lemma {:induction false} ItemsRead(b: Backend, items: seq<DetectionItem>, n: nat, i: nat, view: View)
    requires b.precedence.Valid() && NoBlank(b) && i < n <= |items| && MatcherFull(items[i].matcher)
    requires RenderItems(b, items, n).Ok? && RenderItems(b, items, n).value.deferred == []
    ensures OperandFor(b.precedence, view.leaf, RenderItems(b, items, n).value.operands[i],
                       MatcherOp(items[i].matcher), MatcherHolds(items[i].matcher, items[i].field, view))
  {
    ItemsStep(b, items, n);
    if i < n - 1 {
      ItemsRead(b, items, n - 1, i, view);
    } else {
      ItemReads(b, items[i], view);
    }
  }

  lemma ItemListReads(b: Backend, items: seq<DetectionItem>, view: View)
    requires b.precedence.Valid() && NoBlank(b) && |items| > 0 && forall i | 0 <= i < |items| :: MatcherFull(items[i].matcher)
    requires RenderItems(b, items, |items|).Ok? && RenderItems(b, items, |items|).value.deferred == []
    ensures Reads(b.precedence, view.leaf, Join(b.precedence, true, RenderItems(b, items, |items|).value.operands),
                  DetectionOp(AllItems(items)), DetectionHolds(AllItems(items), view))
  {
    var os := RenderItems(b, items, |items|).value.operands;
    var truths := seq(|items|, i requires 0 <= i < |items| => MatcherHolds(items[i].matcher, items[i].field, view));
    forall i | 0 <= i < |items|
      ensures OperandFor(b.precedence, view.leaf, os[i], MatcherOp(items[i].matcher), truths[i])
    {
      ItemsRead(b, items, |items|, i, view);
    }
    JoinReads(b.precedence, view.leaf, true, os, truths);
    assert Tags(os) == seq(|items|, i requires 0 <= i < |items| => MatcherOp(items[i].matcher));
  }

  lemma {:induction false} DetectionReads(b: Backend, d: Detection, view: View)
    requires b.precedence.Valid() && NoBlank(b) && DetectionFull(d)
    requires RenderDetection(b, d).Ok? && RenderDetection(b, d).value.deferred == []
    ensures Reads(b.precedence, view.leaf, RenderDetection(b, d).value.text, DetectionOp(d), DetectionHolds(d, view))
    decreases d
  {
    match d
    case AllItems(items) =>
      ItemListReads(b, items, view);
    case AnyDetection(dets) =>
      DetectionListReads(b, dets, false, view);
    case AndDetection(dets) =>
      DetectionListReads(b, dets, true, view);
    case Keywords(m) => KeywordsRead(b, m, view);
    case Conditional(named, c) => ConditionReads(b, InBlock, c, named, view);
    case ArrayMatch(_, _, _) =>
  }

  /** A list of detections has the truth and the tag its members have together. */
  lemma DetectionListMeans(dets: seq<Detection>, all: bool, truths: seq<bool>, os: seq<Operand>, view: View)
    requires |truths| == |os| == |dets|
    requires forall i | 0 <= i < |dets| :: truths[i] == DetectionHolds(dets[i], view) && os[i].op == DetectionOp(dets[i])
    ensures var d := if all then AndDetection(dets) else AnyDetection(dets);
            Combined(Connective(all), truths) == DetectionHolds(d, view) && ListOp(Tags(os), Connective(all)) == DetectionOp(d)
  {
    assert Tags(os) == seq(|dets|, i requires 0 <= i < |dets| => DetectionOp(dets[i]));
  }

  lemma {:induction false} DetectionListReads(b: Backend, dets: seq<Detection>, all: bool, view: View)
    requires b.precedence.Valid() && NoBlank(b) && |dets| > 0 && forall i | 0 <= i < |dets| :: DetectionFull(dets[i])
    requires RenderDetections(b, dets, |dets|).Ok? && RenderDetections(b, dets, |dets|).value.deferred == []
    ensures var d := if all then AndDetection(dets) else AnyDetection(dets);
            Reads(b.precedence, view.leaf, Join(b.precedence, all, RenderDetections(b, dets, |dets|).value.operands), DetectionOp(d), DetectionHolds(d, view))
    decreases dets, |dets| + 1
  {
    var os := RenderDetections(b, dets, |dets|).value.operands;
    var truths := seq(|dets|, i requires 0 <= i < |dets| => DetectionHolds(dets[i], view));
    forall i | 0 <= i < |dets|
      ensures OperandFor(b.precedence, view.leaf, os[i], DetectionOp(dets[i]), truths[i])
    {
      DetectionsRead(b, dets, |dets|, i, view);
    }
    JoinReads(b.precedence, view.leaf, all, os, truths);
    DetectionListMeans(dets, all, truths, os, view);
  }

  lemma DetectionsStep(b: Backend, dets: seq<Detection>, n: nat)
    requires 0 < n <= |dets| && RenderDetections(b, dets, n).Ok?
    ensures RenderDetections(b, dets, n - 1).Ok? && RenderDetection(b, dets[n - 1]).Ok?
    ensures var before, last := RenderDetections(b, dets, n - 1).value, RenderDetection(b, dets[n - 1]).value;
            && RenderDetections(b, dets, n).value.operands == before.operands + [Operand(last.text, DetectionOp(dets[n - 1]))]
            && (RenderDetections(b, dets, n).value.deferred == [] ==> before.deferred == [] && last.deferred == [])
  {
  }

  /** Operand `i` reads as detection `i` means. */
  lemma {:induction false} DetectionsRead(b: Backend, dets: seq<Detection>, n: nat, i: nat, view: View)
    requires b.precedence.Valid() && NoBlank(b) && i < n <= |dets| && DetectionFull(dets[i])
    requires RenderDetections(b, dets, n).Ok? && RenderDetections(b, dets, n).value.deferred == []
    ensures OperandFor(b.precedence, view.leaf, RenderDetections(b, dets, n).value.operands[i], DetectionOp(dets[i]), DetectionHolds(dets[i], view))
    decreases dets, n
  {
    DetectionsStep(b, dets, n);
    if i < n - 1 {
      DetectionsRead(b, dets, n - 1, i, view);
    } else {
      DetectionReads(b, dets[i], view);
    }
  }

  /** Truth of the selected detections among the first `n`. */
  function SelectedTruths(named: seq<NamedDetection>, pattern: SelectorPattern, view: View, n: nat): seq<bool>
    requires n <= |named|
  {
    if n == 0 then []
    else if MatchesDetectionName(pattern, named[n - 1].name) then
      SelectedTruths(named, pattern, view, n - 1) + [NameHolds(named, n - 1, view)]
    else SelectedTruths(named, pattern, view, n - 1)
  }

  lemma {:induction false} SelectedMeaning(named: seq<NamedDetection>, pattern: SelectorPattern, view: View, n: nat)
    requires n <= |named|
    ensures Combined(AND, SelectedTruths(named, pattern, view, n))
            <==> forall i | 0 <= i < n :: MatchesDetectionName(pattern, named[i].name) ==> NameHolds(named, i, view)
    ensures Combined(OR, SelectedTruths(named, pattern, view, n))
            <==> exists i | 0 <= i < n :: MatchesDetectionName(pattern, named[i].name) && NameHolds(named, i, view)
    ensures CountHolding(named, pattern, view, n) >= 1 <==> Combined(OR, SelectedTruths(named, pattern, view, n))
  {
    if n > 0 {
      SelectedMeaning(named, pattern, view, n - 1);
      var before, now := SelectedTruths(named, pattern, view, n - 1), SelectedTruths(named, pattern, view, n);
      if MatchesDetectionName(pattern, named[n - 1].name) {
        CombinedSnoc(AND, before, NameHolds(named, n - 1, view));
        CombinedSnoc(OR, before, NameHolds(named, n - 1, view));
      }
    }
  }

  lemma CombinedSnoc(op: TokenType, vals: seq<bool>, last: bool)
    requires op != NOT
    ensures Combined(op, vals + [last]) == if op == AND then Combined(op, vals) && last else Combined(op, vals) || last
  {
    var all := vals + [last];
    assert all[|vals|] == last && forall i | 0 <= i < |vals| :: all[i] == vals[i];
    if op == AND && Combined(op, all) {
      forall i | 0 <= i < |vals| ensures vals[i] { assert all[i]; }
    }
    if op == OR && Combined(op, vals) {
      var i :| 0 <= i < |vals| && vals[i];
      assert all[i];
    }
  }

  lemma {:induction false} SelectedReads(b: Backend, named: seq<NamedDetection>, pattern: SelectorPattern, n: nat, view: View)
    requires b.precedence.Valid() && NoBlank(b) && n <= |named|
    requires forall i | 0 <= i < |named| :: MatchesDetectionName(pattern, named[i].name) ==> NamedFull(named, i)
    requires RenderSelected(b, named, pattern, n).Ok? && RenderSelected(b, named, pattern, n).value.deferred == []
    ensures var os := RenderSelected(b, named, pattern, n).value.operands;
            && Tags(os) == SelectedOps(named, pattern, n)
            && AllRead(b.precedence, view.leaf, os, SelectedTruths(named, pattern, view, n))
    ensures |SelectedOps(named, pattern, n)| > 0 <==> exists i | 0 <= i < n :: MatchesDetectionName(pattern, named[i].name)
    decreases named, 0, n
  {
    if n > 0 {
      SelectedReads(b, named, pattern, n - 1, view);
      if MatchesDetectionName(pattern, named[n - 1].name) {
        NamedReads(b, named, n - 1, view);
      }
    }
  }

  lemma {:induction false} ConditionReads(b: Backend, scope: Scope, c: Condition, named: seq<NamedDetection>, view: View)
    requires b.precedence.Valid() && NoBlank(b) && ConditionFull(c, named)
    requires RenderCondition(b, scope, c, named).Ok? && RenderCondition(b, scope, c, named).value.deferred == []
    ensures Reads(b.precedence, view.leaf, RenderCondition(b, scope, c, named).value.text, ConditionOp(c, named), ConditionHolds(c, named, view))
    decreases named, 1, c
  {
    match c
    case Named(name) => NamedReads(b, named, Lookup(named, name).value, view);
    case CondAnd(cs) => ConditionListReads(b, scope, cs, named, true, view);
    case CondOr(cs) => ConditionListReads(b, scope, cs, named, false, view);
    case CondNot(inner) =>
      ConditionReads(b, scope, inner, named, view);
      NegateReads(b.precedence, view.leaf, Operand(RenderCondition(b, scope, inner, named).value.text, ConditionOp(inner, named)),
                  ConditionHolds(inner, named, view));
    case Selector(q, pattern) => SelectorReads(b, scope, q, pattern, named, view);
  }

  lemma {:induction false} NamedReads(b: Backend, named: seq<NamedDetection>, i: nat, view: View)
    requires b.precedence.Valid() && NoBlank(b) && i < |named| && NamedFull(named, i)
    requires RenderNamed(b, named, i).Ok? && RenderNamed(b, named, i).value.deferred == []
    ensures Reads(b.precedence, view.leaf, RenderNamed(b, named, i).value.text, NamedOp(named, i), NameHolds(named, i, view))
    decreases named, 0, 0
  {
    DetectionReads(b, named[i].det, view);
  }

  lemma {:induction false} SelectorReads(b: Backend, scope: Scope, q: Quantifier, pattern: SelectorPattern, named: seq<NamedDetection>, view: View)
    requires b.precedence.Valid() && NoBlank(b) && ConditionFull(Selector(q, pattern), named)
    requires RenderCondition(b, scope, Selector(q, pattern), named).Ok? && RenderCondition(b, scope, Selector(q, pattern), named).value.deferred == []
    ensures Reads(b.precedence, view.leaf, RenderCondition(b, scope, Selector(q, pattern), named).value.text,
                  ConditionOp(Selector(q, pattern), named), ConditionHolds(Selector(q, pattern), named, view))
    decreases named, 0, |named| + 1
  {
    SelectedReads(b, named, pattern, |named|, view);
    JoinReads(b.precedence, view.leaf, q == QAll, RenderSelected(b, named, pattern, |named|).value.operands,
              SelectedTruths(named, pattern, view, |named|));
    SelectorMeans(scope, q, pattern, named, view);
  }

  /** The quantifiers the walkers accept combine the selected truths with their connective. */
  lemma SelectorMeans(scope: Scope, q: Quantifier, pattern: SelectorPattern, named: seq<NamedDetection>, view: View)
    requires SelectorConnective(scope, q, |SelectedOps(named, pattern, |named|)|).Ok?
    ensures SelectorConnective(scope, q, |SelectedOps(named, pattern, |named|)|).value == (q == QAll)
    ensures ConditionHolds(Selector(q, pattern), named, view)
            == Combined(Connective(q == QAll), SelectedTruths(named, pattern, view, |named|))
  {
    SelectedMeaning(named, pattern, view, |named|);
  }

  lemma ConditionListMeans(cs: seq<Condition>, named: seq<NamedDetection>, all: bool, truths: seq<bool>, os: seq<Operand>, view: View)
    requires |truths| == |os| == |cs|
    requires forall i | 0 <= i < |cs| :: truths[i] == ConditionHolds(cs[i], named, view) && os[i].op == ConditionOp(cs[i], named)
    ensures var c := if all then CondAnd(cs) else CondOr(cs);
            Combined(Connective(all), truths) == ConditionHolds(c, named, view) && ListOp(Tags(os), Connective(all)) == ConditionOp(c, named)
  {
    assert Tags(os) == seq(|cs|, i requires 0 <= i < |cs| => ConditionOp(cs[i], named));
  }

  lemma {:induction false} ConditionListReads(b: Backend, scope: Scope, cs: seq<Condition>, named: seq<NamedDetection>, all: bool, view: View)
    requires b.precedence.Valid() && NoBlank(b) && |cs| > 0 && forall i | 0 <= i < |cs| :: ConditionFull(cs[i], named)
    requires RenderConditions(b, scope, cs, named, |cs|).Ok? && RenderConditions(b, scope, cs, named, |cs|).value.deferred == []
    ensures var c := if all then CondAnd(cs) else CondOr(cs);
            Reads(b.precedence, view.leaf, Join(b.precedence, all, RenderConditions(b, scope, cs, named, |cs|).value.operands),
                  ConditionOp(c, named), ConditionHolds(c, named, view))
    decreases named, 1, cs, |cs| + 1
  {
    var os := RenderConditions(b, scope, cs, named, |cs|).value.operands;
    var truths := seq(|cs|, i requires 0 <= i < |cs| => ConditionHolds(cs[i], named, view));
    forall i | 0 <= i < |cs|
      ensures OperandFor(b.precedence, view.leaf, os[i], ConditionOp(cs[i], named), truths[i])
    {
      ConditionsRead(b, scope, cs, named, |cs|, i, view);
    }
    JoinReads(b.precedence, view.leaf, all, os, truths);
    ConditionListMeans(cs, named, all, truths, os, view);
  }

  lemma ConditionsStep(b: Backend, scope: Scope, cs: seq<Condition>, named: seq<NamedDetection>, n: nat)
    requires 0 < n <= |cs| && RenderConditions(b, scope, cs, named, n).Ok?
    ensures RenderConditions(b, scope, cs, named, n - 1).Ok? && RenderCondition(b, scope, cs[n - 1], named).Ok?
    ensures var before, last := RenderConditions(b, scope, cs, named, n - 1).value, RenderCondition(b, scope, cs[n - 1], named).value;
            && RenderConditions(b, scope, cs, named, n).value.operands == before.operands + [Operand(last.text, ConditionOp(cs[n - 1], named))]
            && (RenderConditions(b, scope, cs, named, n).value.deferred == [] ==> before.deferred == [] && last.deferred == [])
  {
  }

  /** Operand `i` reads as condition `i` means. */
  lemma {:induction false} ConditionsRead(b: Backend, scope: Scope, cs: seq<Condition>, named: seq<NamedDetection>, n: nat, i: nat, view: View)
    requires b.precedence.Valid() && NoBlank(b) && i < n <= |cs| && ConditionFull(cs[i], named)
    requires RenderConditions(b, scope, cs, named, n).Ok? && RenderConditions(b, scope, cs, named, n).value.deferred == []
    ensures OperandFor(b.precedence, view.leaf, RenderConditions(b, scope, cs, named, n).value.operands[i],
                       ConditionOp(cs[i], named), ConditionHolds(cs[i], named, view))
    decreases named, 1, cs, n
  {
    ConditionsStep(b, scope, cs, named, n);
    if i < n - 1 {
      ConditionsRead(b, scope, cs, named, n - 1, i, view);
    } else {
      ConditionReads(b, scope, cs[i], named, view);
    }
  }

  /** Compiler correctness: the query of a condition, parsed, has the condition's truth on every event. */
  lemma QueryMeansCondition(b: Backend, c: Condition, named: seq<NamedDetection>, view: View)
    requires b.precedence.Valid() && NoBlank(b) && ConditionFull(c, named)
    requires RenderCondition(b, TopLevel, c, named).Ok? && RenderCondition(b, TopLevel, c, named).value.deferred == []
    ensures var parsed := Parse(b.precedence, RenderCondition(b, TopLevel, c, named).value.text);
            parsed.Some? && Eval(parsed.value, view.leaf) == ConditionHolds(c, named, view)
  {
    ConditionReads(b, TopLevel, c, named, view);
    ReadsWhole(b.precedence, view.leaf, RenderCondition(b, TopLevel, c, named).value.text, ConditionOp(c, named), ConditionHolds(c, named, view));
  }
}
