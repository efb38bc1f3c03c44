/**
  What can be told of a rule's query before rendering it: an empty list leaves an operator without
  its operand, a negated list without values leaves nothing, and a tag that no longer matches what
  is left of a list can strand a NOT.
 */
module QueryShape {
  import opened Results
  import opened SigmaIr
  import opened QueryText
  import opened QueryGrammar
  import opened OperatorTags
  import Meaning

  /** The tag of a node, whether its text starts with NOT, and whether its text reads. */
  datatype Shape = Shape(op: Tag, negated: bool, sound: bool)

  const AtomShape := Shape(None, false, true)

  predicate Wraps(p: Precedence, outer: TokenType, op: Tag) {
    op.Some? && p.NeedsGrouping(outer, op.value)
  }

  /** A list reads when it has a member, all its members read, and its connective strands no NOT. */
  function JoinShape(p: Precedence, op: TokenType, ss: seq<Shape>, tag: Tag): Shape {
    Shape(tag,
          |ss| > 0 && ss[0].negated && (|ss| == 1 || !Wraps(p, op, ss[0].op)),
          && |ss| > 0 && (forall i | 0 <= i < |ss| :: ss[i].sound)
          && (forall i | 0 < i < |ss| :: ss[i].negated && !Wraps(p, op, ss[i].op) ==> !Strands(p, Some(op))))
  }

  function NotShape(s: Shape): Shape {
    Shape(Some(NOT), true, s.sound)
  }

  /** `None` for a value that vanishes: a negation of which nothing is left to negate. */
  function MatcherShape(p: Precedence, m: Matcher): Option<Shape>
    decreases m, 0
  {
    match m
    case AnyOf(ms) => Some(JoinShape(p, OR, ListShapes(p, ms, |ms|), MatcherOp(m)))
    case AllOf(ms) => Some(JoinShape(p, AND, ListShapes(p, ms, |ms|), MatcherOp(m)))
    case Not(inner) => (match InnerShape(p, inner) case Some(s) => Some(NotShape(s)) case None => None)
    case _ => Some(AtomShape)
  }

  function InnerShape(p: Precedence, inner: Matcher): Option<Shape>
    decreases inner, 1
  {
    if (inner.AnyOf? || inner.AllOf?) && ListShapes(p, inner.ms, |inner.ms|) == [] then None
    else MatcherShape(p, inner)
  }

  /** The values of a list that do not vanish. */
  function ListShapes(p: Precedence, ms: seq<Matcher>, n: nat): seq<Shape>
    requires n <= |ms|
    decreases ms, n
  {
    if n == 0 then []
    else ListShapes(p, ms, n - 1) + (match MatcherShape(p, ms[n - 1]) case Some(s) => [s] case None => [])
  }

  /** Keywords keep every value, an empty negation included. */
  function KeywordShape(p: Precedence, m: Matcher): Shape
    decreases m
  {
    match m
    case AnyOf(ms) => JoinShape(p, OR, seq(|ms|, i requires 0 <= i < |ms| => KeywordShape(p, ms[i])), MatcherOp(m))
    case AllOf(ms) => JoinShape(p, AND, seq(|ms|, i requires 0 <= i < |ms| => KeywordShape(p, ms[i])), MatcherOp(m))
    case Not(inner) => NotShape(KeywordShape(p, inner))
    case _ => AtomShape
  }

  /** An item whose value vanishes leaves an empty operand. */
  function ItemShape(p: Precedence, item: DetectionItem): Shape {
    if item.field.None? then KeywordShape(p, item.matcher)
    else match MatcherShape(p, item.matcher)
      case Some(s) => s
      case None => Shape(MatcherOp(item.matcher), false, false)
  }

  function DetectionShape(p: Precedence, d: Detection): Shape
    decreases d
  {
    match d
    case AllItems(items) => JoinShape(p, AND, seq(|items|, i requires 0 <= i < |items| => ItemShape(p, items[i])), DetectionOp(d))
    case AnyDetection(dets) => JoinShape(p, OR, seq(|dets|, i requires 0 <= i < |dets| => DetectionShape(p, dets[i])), DetectionOp(d))
    case AndDetection(dets) => JoinShape(p, AND, seq(|dets|, i requires 0 <= i < |dets| => DetectionShape(p, dets[i])), DetectionOp(d))
    case Keywords(m) => Shape(MatcherOp(m), false, m.AnyOf? ==> m.ms != [])
    case ArrayMatch(_, _, _) => AtomShape
    case Conditional(named, c) => ConditionShape(p, c, named)
  }

  function NamedShape(p: Precedence, named: seq<NamedDetection>, i: nat): Shape
    requires i < |named|
    decreases named, 0
  {
    DetectionShape(p, named[i].det)
  }

  function SelectedShapes(p: Precedence, named: seq<NamedDetection>, pattern: SelectorPattern, n: nat): seq<Shape>
    requires n <= |named|
    decreases named, 1, n
  {
    if n == 0 then []
    else SelectedShapes(p, named, pattern, n - 1)
         + (if MatchesDetectionName(pattern, named[n - 1].name) then [NamedShape(p, named, n - 1)] else [])
  }

  function ConditionShape(p: Precedence, c: Condition, named: seq<NamedDetection>): Shape
    decreases named, 2, c
  {
    match c
    case Named(name) =>
      (match Meaning.Lookup(named, name)
       case Some(i) => NamedShape(p, named, i)
       case None => AtomShape)
    case CondAnd(cs) => JoinShape(p, AND, seq(|cs|, i requires 0 <= i < |cs| => ConditionShape(p, cs[i], named)), ConditionOp(c, named))
    case CondOr(cs) => JoinShape(p, OR, seq(|cs|, i requires 0 <= i < |cs| => ConditionShape(p, cs[i], named)), ConditionOp(c, named))
    case CondNot(inner) => NotShape(ConditionShape(p, inner, named))
    case Selector(q, pattern) =>
      JoinShape(p, if q == QAll then AND else OR, SelectedShapes(p, named, pattern, |named|), ConditionOp(c, named))
  }
}
