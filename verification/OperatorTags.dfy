/** The operator at the top of a converted node, computed from the node's shape alone. */
module OperatorTags {
  import opened Results
  import opened SigmaIr
  import opened QueryText
  import Encodings
  import Meaning

  type Tag = Option<TokenType>

  function ListOp(tags: seq<Tag>, op: TokenType): Tag {
    if |tags| == 0 then None
    else if |tags| == 1 then tags[0]
    else Some(op)
  }

  function MatcherOp(m: Matcher): Tag
    decreases m
  {
    match m
    case AnyOf(ms) => ListOp(seq(|ms|, i requires 0 <= i < |ms| => MatcherOp(ms[i])), OR)
    case AllOf(ms) => ListOp(seq(|ms|, i requires 0 <= i < |ms| => MatcherOp(ms[i])), AND)
    case Not(_) => Some(NOT)
    case Encoded(es, op, p, _) =>
      (match Encodings.ExpandEncoded(es, op, p)
       case Ok(vs) => if |vs| > 1 then Some(OR) else None
       case Err(_) => None)
    case _ => None
  }

  function DetectionOp(d: Detection): Tag
    decreases d
  {
    match d
    case AllItems(items) => ListOp(seq(|items|, i requires 0 <= i < |items| => MatcherOp(items[i].matcher)), AND)
    case AnyDetection(dets) => ListOp(seq(|dets|, i requires 0 <= i < |dets| => DetectionOp(dets[i])), OR)
    case AndDetection(dets) => ListOp(seq(|dets|, i requires 0 <= i < |dets| => DetectionOp(dets[i])), AND)
    case Keywords(m) => MatcherOp(m)
    case ArrayMatch(_, _, _) => None
    case Conditional(named, c) => ConditionOp(c, named)
  }

  function NamedOp(named: seq<NamedDetection>, i: nat): Tag
    requires i < |named|
    decreases named, 0
  {
    DetectionOp(named[i].det)
  }

  /** Tags of the selected detections among the first `n`. */
  function SelectedOps(named: seq<NamedDetection>, pattern: SelectorPattern, n: nat): seq<Tag>
    requires n <= |named|
    decreases named, 1, n
  {
    if n == 0 then []
    else if MatchesDetectionName(pattern, named[n - 1].name) then
      SelectedOps(named, pattern, n - 1) + [NamedOp(named, n - 1)]
    else SelectedOps(named, pattern, n - 1)
  }

  function ConditionOp(c: Condition, named: seq<NamedDetection>): Tag
    decreases named, 2, c
  {
    match c
    case Named(name) =>
      (match Meaning.Lookup(named, name)
       case Some(i) => NamedOp(named, i)
       case None => None)
    case CondAnd(cs) => ListOp(seq(|cs|, i requires 0 <= i < |cs| => ConditionOp(cs[i], named)), AND)
    case CondOr(cs) => ListOp(seq(|cs|, i requires 0 <= i < |cs| => ConditionOp(cs[i], named)), OR)
    case CondNot(_) => Some(NOT)
    case Selector(q, pattern) =>
      ListOp(SelectedOps(named, pattern, |named|), if q == QAll then AND else OR)
  }
}
