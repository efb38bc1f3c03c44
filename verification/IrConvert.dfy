/**
  The query a backend renders for a detection rule, and the deferred parts it queues,
  as functions of the rule (`crates/rsigma-convert/src/ir_convert.rs`, `condition_ir.rs`).
 */
module IrConvert {
  import opened Results
  import opened SigmaIr
  import opened QueryText
  import opened OperatorTags
  import Meaning

  datatype ConvertError =
    | BackendError(reason: string)
    | UnsupportedKeyword
    | UnsupportedArrayMatching
    | DynamicSource(sourceId: string)
    | Unexpanded
    | UnsupportedModifier
    | NeqMixesDeferred
    | NeqOverAllDeferred
    | UnknownDetection(name: string)
    | EmptySelector
    | UnsupportedCount

  /** What a backend does with one comparison: query text, no text at all, or a deferred part. */
  datatype Rendering = Inline | Blank | Defer

  datatype Backend = Backend(
    precedence: Precedence,
    render: Leaf -> Result<Rendering, ConvertError>,
    refusesIndex: string -> bool)

  datatype Deferred = Deferred(leaf: Leaf, negated: bool) {
    function Negate(): Deferred {
      this.(negated := !negated)
    }
  }

  function NegateAll(ds: seq<Deferred>): (r: seq<Deferred>)
    ensures |r| == |ds|
  {
    seq(|ds|, i requires 0 <= i < |ds| => ds[i].Negate())
  }

  /** A converted operand and the operator at its top level. */
  datatype Operand = Operand(expr: Text, op: Tag)

  datatype Piece = Piece(text: Option<Text>, deferred: seq<Deferred>)

  datatype Pieces = Pieces(operands: seq<Operand>, deferred: seq<Deferred>)

  datatype Query = Query(text: Text, deferred: seq<Deferred>)

  // ----- Combinators -----

  function GroupOperand(p: Precedence, outer: TokenType, o: Operand): Text {
    if o.op.Some? && o.expr != [] then Group(p, o.expr, outer, o.op.value) else o.expr
  }

  function Grouped(p: Precedence, outer: TokenType, os: seq<Operand>): (r: seq<Text>)
    ensures |r| == |os|
  {
    seq(|os|, i requires 0 <= i < |os| => GroupOperand(p, outer, os[i]))
  }

  function Connective(all: bool): TokenType {
    if all then AND else OR
  }

  /** A single operand is passed through ungrouped. */
  function Join(p: Precedence, all: bool, os: seq<Operand>): Text {
    JoinText(Connective(all), if |os| == 1 then [os[0].expr] else Grouped(p, Connective(all), os))
  }

  function NegateOperand(p: Precedence, o: Operand): Text {
    NotText(GroupOperand(p, NOT, o))
  }

  // ----- Matchers of a field -----

  predicate Unresolved(m: Matcher) {
    (m.NumericEq? || m.NumericCmp?) && m.number.DynamicSourceRef?
  }

  /** A comparison whose backend call may answer with a deferred part. */
  predicate Deferrable(m: Matcher) {
    m.Str? || m.Regex? || m.Cidr? || m.FieldRef?
  }

  function RenderComparison(b: Backend, leaf: Leaf): Result<Piece, ConvertError> {
    if Unresolved(leaf.matcher) then Err(DynamicSource(leaf.matcher.number.sourceId))
    else
      var r :- b.render(leaf);
      if r == Inline || !Deferrable(leaf.matcher) then Ok(Piece(Some([Atom(leaf)]), []))
      else if r == Blank then Ok(Piece(None, []))
      else Ok(Piece(None, [Deferred(leaf, false)]))
  }

  function RenderLeaf(b: Backend, field: string, m: Matcher): Result<Piece, ConvertError>
    decreases m, 0
  {
    match m
    case Encoded(_, _, _, _) => Err(Unexpanded)
    case Expand(_, _, _) => Err(UnsupportedModifier)
    case TimestampPart(_, _) => Err(UnsupportedModifier)
    case Not(inner) => RenderNot(b, field, inner)
    case AnyOf(ms) =>
      var parts :- RenderList(b, field, ms, |ms|);
      Ok(Piece(Some(Join(b.precedence, false, parts.operands)), parts.deferred))
    case AllOf(ms) =>
      var parts :- RenderList(b, field, ms, |ms|);
      Ok(Piece(Some(Join(b.precedence, true, parts.operands)), parts.deferred))
    case _ => RenderComparison(b, Leaf(Some(field), m))
  }

  /** The first `n` matchers of a list; one that only deferred contributes no operand. */
  function RenderList(b: Backend, field: string, ms: seq<Matcher>, n: nat): (r: Result<Pieces, ConvertError>)
    requires n <= |ms|
    ensures r.Ok? ==> |r.value.operands| <= n
    decreases ms, n
  {
    if n == 0 then Ok(Pieces([], []))
    else
      var before :- RenderList(b, field, ms, n - 1);
      var last :- RenderLeaf(b, field, ms[n - 1]);
      Ok(Pieces(
        before.operands + (if last.text.Some? then [Operand(last.text.value, MatcherOp(ms[n - 1]))] else []),
        before.deferred + last.deferred))
  }

  /** The operand `|neq` negates, if there is any query text to negate, and what was deferred. */
  function RenderInner(b: Backend, field: string, inner: Matcher): Result<(Option<Operand>, seq<Deferred>), ConvertError>
    decreases inner, 1
  {
    if inner.AnyOf? || inner.AllOf? then
      var parts :- RenderList(b, field, inner.ms, |inner.ms|);
      var op := if |parts.operands| == 1 then parts.operands[0].op else MatcherOp(inner);
      Ok((if parts.operands == [] then None
          else Some(Operand(Join(b.precedence, inner.AllOf?, parts.operands), op)), parts.deferred))
    else
      var piece :- RenderLeaf(b, field, inner);
      Ok((if piece.text.None? then None else Some(Operand(piece.text.value, MatcherOp(inner))), piece.deferred))
  }

  function RenderNot(b: Backend, field: string, inner: Matcher): Result<Piece, ConvertError>
    decreases inner, 2
  {
    var (operand, deferred) :- RenderInner(b, field, inner);
    if deferred != [] then
      if operand.Some? then Err(NeqMixesDeferred)
      else if |deferred| > 1 && inner.AllOf? then Err(NeqOverAllDeferred)
      else Ok(Piece(None, NegateAll(deferred)))
    else if operand.None? then Ok(Piece(None, []))
    else Ok(Piece(Some(NegateOperand(b.precedence, operand.value)), []))
  }

  // ----- Keywords -----

  /** Only a value without an operator, with `contains`, or a number has a full-text rendering. */
  function RenderKeyword(b: Backend, m: Matcher): Result<Text, ConvertError> {
    if (m.Str? && (m.op == Exact || m.op == Contains)) || m.NumericEq? then
      if Unresolved(m) then Err(DynamicSource(m.number.sourceId))
      else
        var _ :- b.render(Leaf(None, m));
        Ok([Atom(Leaf(None, m))])
    else Err(UnsupportedKeyword)
  }

  function RenderKeywordItem(b: Backend, m: Matcher): Result<Text, ConvertError>
    decreases m
  {
    match m
    case AnyOf(ms) =>
      var parts :- RenderKeywordItems(b, ms, |ms|);
      Ok(Join(b.precedence, false, parts))
    case AllOf(ms) =>
      var parts :- RenderKeywordItems(b, ms, |ms|);
      Ok(Join(b.precedence, true, parts))
    case Not(inner) =>
      var expr :- RenderKeywordItem(b, inner);
      Ok(NegateOperand(b.precedence, Operand(expr, MatcherOp(inner))))
    case _ => RenderKeyword(b, m)
  }

  function RenderKeywordItems(b: Backend, ms: seq<Matcher>, n: nat): (r: Result<seq<Operand>, ConvertError>)
    requires n <= |ms|
    ensures r.Ok? ==> |r.value| == n
    decreases ms, n
  {
    if n == 0 then Ok([])
    else
      var before :- RenderKeywordItems(b, ms, n - 1);
      var last :- RenderKeywordItem(b, ms[n - 1]);
      Ok(before + [Operand(last, MatcherOp(ms[n - 1]))])
  }

  function RenderKeywordTexts(b: Backend, ms: seq<Matcher>, n: nat): Result<seq<Text>, ConvertError>
    requires n <= |ms|
  {
    if n == 0 then Ok([])
    else
      var before :- RenderKeywordTexts(b, ms, n - 1);
      var last :- RenderKeyword(b, ms[n - 1]);
      Ok(before + [last])
  }

  // ----- Detections -----

  function RenderItem(b: Backend, item: DetectionItem): Result<Query, ConvertError> {
    if item.field.None? then
      var text :- RenderKeywordItem(b, item.matcher);
      Ok(Query(text, []))
    else if b.refusesIndex(item.field.value) then Err(UnsupportedArrayMatching)
    else
      var piece :- RenderLeaf(b, item.field.value, item.matcher);
      Ok(Query(if piece.text.Some? then piece.text.value else [], piece.deferred))
  }

  function RenderItems(b: Backend, items: seq<DetectionItem>, n: nat): (r: Result<Pieces, ConvertError>)
    requires n <= |items|
    ensures r.Ok? ==> |r.value.operands| == n
  {
    if n == 0 then Ok(Pieces([], []))
    else
      var before :- RenderItems(b, items, n - 1);
      var last :- RenderItem(b, items[n - 1]);
      Ok(Pieces(before.operands + [Operand(last.text, MatcherOp(items[n - 1].matcher))],
                before.deferred + last.deferred))
  }

  function JoinPieces(b: Backend, all: bool, parts: Pieces): Query {
    Query(Join(b.precedence, all, parts.operands), parts.deferred)
  }

  function RenderDetection(b: Backend, d: Detection): Result<Query, ConvertError>
    decreases d
  {
    match d
    case AllItems(items) =>
      var parts :- RenderItems(b, items, |items|);
      Ok(JoinPieces(b, true, parts))
    case AnyDetection(dets) =>
      var parts :- RenderDetections(b, dets, |dets|);
      Ok(JoinPieces(b, false, parts))
    case AndDetection(dets) =>
      var parts :- RenderDetections(b, dets, |dets|);
      Ok(JoinPieces(b, true, parts))
    case Keywords(m) =>
      var ms := if m.AnyOf? then m.ms else [m];
      var texts :- RenderKeywordTexts(b, ms, |ms|);
      Ok(Query(JoinText(OR, texts), []))
    case ArrayMatch(_, _, _) => Err(UnsupportedArrayMatching)
    case Conditional(named, c) => RenderCondition(b, InBlock, c, named)
  }

  function RenderDetections(b: Backend, dets: seq<Detection>, n: nat): (r: Result<Pieces, ConvertError>)
    requires n <= |dets|
    ensures r.Ok? ==> |r.value.operands| == n
    decreases dets, n
  {
    if n == 0 then Ok(Pieces([], []))
    else
      var before :- RenderDetections(b, dets, n - 1);
      var last :- RenderDetection(b, dets[n - 1]);
      Ok(Pieces(before.operands + [Operand(last.text, DetectionOp(dets[n - 1]))], before.deferred + last.deferred))
  }

  // ----- Conditions -----

  /** A rule's own condition, or the condition of an array block body. */
  datatype Scope = TopLevel | InBlock

  /** Whether a selector joins with AND; the two walkers refuse different quantifiers. */
  function SelectorConnective(scope: Scope, q: Quantifier, selected: nat): Result<bool, ConvertError> {
    if scope == TopLevel && selected == 0 then Err(EmptySelector)
    else match q
      case QAny => Ok(false)
      case QAll => Ok(true)
      case QCount(n) => if scope == TopLevel && n == 1 then Ok(false) else Err(UnsupportedCount)
  }

  function RenderNamed(b: Backend, named: seq<NamedDetection>, i: nat): Result<Query, ConvertError>
    requires i < |named|
    decreases named, 0
  {
    RenderDetection(b, named[i].det)
  }

  function RenderSelected(b: Backend, named: seq<NamedDetection>, pattern: SelectorPattern, n: nat): Result<Pieces, ConvertError>
    requires n <= |named|
    decreases named, 1, n
  {
    if n == 0 then Ok(Pieces([], []))
    else
      var before :- RenderSelected(b, named, pattern, n - 1);
      if MatchesDetectionName(pattern, named[n - 1].name) then
        var last :- RenderNamed(b, named, n - 1);
        Ok(Pieces(before.operands + [Operand(last.text, NamedOp(named, n - 1))], before.deferred + last.deferred))
      else Ok(before)
  }

  function RenderCondition(b: Backend, scope: Scope, c: Condition, named: seq<NamedDetection>): Result<Query, ConvertError>
    decreases named, 2, c
  {
    match c
    case Named(name) =>
      (match Meaning.Lookup(named, name)
       case Some(i) => RenderNamed(b, named, i)
       case None => Err(UnknownDetection(name)))
    case CondAnd(cs) =>
      var parts :- RenderConditions(b, scope, cs, named, |cs|);
      Ok(JoinPieces(b, true, parts))
    case CondOr(cs) =>
      var parts :- RenderConditions(b, scope, cs, named, |cs|);
      Ok(JoinPieces(b, false, parts))
    case CondNot(inner) =>
      var q :- RenderCondition(b, scope, inner, named);
      Ok(Query(NegateOperand(b.precedence, Operand(q.text, ConditionOp(inner, named))), q.deferred))
    case Selector(q, pattern) =>
      var all :- SelectorConnective(scope, q, |SelectedOps(named, pattern, |named|)|);
      var parts :- RenderSelected(b, named, pattern, |named|);
      Ok(JoinPieces(b, all, parts))
  }

  function RenderConditions(b: Backend, scope: Scope, cs: seq<Condition>, named: seq<NamedDetection>, n: nat): (r: Result<Pieces, ConvertError>)
    requires n <= |cs|
    ensures r.Ok? ==> |r.value.operands| == n
    decreases named, 2, cs, n
  {
    if n == 0 then Ok(Pieces([], []))
    else
      var before :- RenderConditions(b, scope, cs, named, n - 1);
      var last :- RenderCondition(b, scope, cs[n - 1], named);
      Ok(Pieces(before.operands + [Operand(last.text, ConditionOp(cs[n - 1], named))], before.deferred + last.deferred))
  }
}
