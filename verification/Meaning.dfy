/** What a rule's detections and conditions mean on an event. */
module Meaning {
  import opened Results
  import opened SigmaIr
  import Encodings
  import Quantifiers

  /**
    One event as a rule sees it: the truth of every value comparison, the members of each array
    field, and the values a time component of a field takes.
   */
  datatype View = View(
    leaf: Leaf -> bool,
    members: map<string, seq<View>>,
    stamps: map<(Option<string>, string), seq<View>>)
  {
    function Members(field: string): seq<View> {
      if field in members then members[field] else []
    }

    function Stamps(field: Option<string>, part: string): seq<View> {
      if (field, part) in stamps then stamps[(field, part)] else []
    }
  }

  predicate MatcherHolds(m: Matcher, field: Option<string>, view: View)
    decreases m
  {
    match m
    case Not(inner) => !MatcherHolds(inner, field, view)
    case AnyOf(ms) => exists i | 0 <= i < |ms| :: MatcherHolds(ms[i], field, view)
    case AllOf(ms) => forall i | 0 <= i < |ms| :: MatcherHolds(ms[i], field, view)
    case TimestampPart(part, inner) =>
      var vs := view.Stamps(field, part);
      exists i | 0 <= i < |vs| :: MatcherHolds(inner, field, vs[i])
    case Encoded(es, op, p, ci) =>
      (match Encodings.ExpandEncoded(es, op, p)
       case Ok(vs) => exists i | 0 <= i < |vs| :: view.leaf(Leaf(field, Str(vs[i].0, vs[i].1, ci)))
       case Err(_) => false)
    case _ => view.leaf(Leaf(field, m))
  }

  predicate QuantifierHolds(q: ArrayQuantifier, bits: seq<bool>) {
    match q
    case ArrayAny => exists i | 0 <= i < |bits| :: bits[i]
    case ArrayAll => |bits| > 0 && forall i | 0 <= i < |bits| :: bits[i]
    case ArrayAllOrEmpty => forall i | 0 <= i < |bits| :: bits[i]
    case ArrayNone => !exists i | 0 <= i < |bits| :: bits[i]
  }

  predicate DetectionHolds(d: Detection, view: View)
    decreases d
  {
    match d
    case AllItems(items) => forall i | 0 <= i < |items| :: MatcherHolds(items[i].matcher, items[i].field, view)
    case AnyDetection(dets) => exists i | 0 <= i < |dets| :: DetectionHolds(dets[i], view)
    case AndDetection(dets) => forall i | 0 <= i < |dets| :: DetectionHolds(dets[i], view)
    case Keywords(m) => MatcherHolds(m, None, view)
    case ArrayMatch(field, q, body) =>
      var vs := view.Members(field);
      QuantifierHolds(q, seq(|vs|, i requires 0 <= i < |vs| => DetectionHolds(body, vs[i])))
    case Conditional(named, c) => ConditionHolds(c, named, view)
  }

  predicate NameHolds(named: seq<NamedDetection>, i: nat, view: View)
    requires i < |named|
    decreases named, 0
  {
    DetectionHolds(named[i].det, view)
  }

  function Lookup(named: seq<NamedDetection>, name: string): (r: Option<nat>)
    ensures r.Some? ==> r.value < |named| && named[r.value].name == name
    ensures r.None? ==> forall i | 0 <= i < |named| :: named[i].name != name
  {
    if |named| == 0 then None
    else if named[|named| - 1].name == name then Some(|named| - 1)
    else Lookup(named[..|named| - 1], name)
  }

  /** Number of selected detections among the first `n` that hold. */
  function CountHolding(named: seq<NamedDetection>, pattern: SelectorPattern, view: View, n: nat): nat
    requires n <= |named|
    decreases named, 1, n
  {
    if n == 0 then 0
    else CountHolding(named, pattern, view, n - 1)
         + (if MatchesDetectionName(pattern, named[n - 1].name) && NameHolds(named, n - 1, view) then 1 else 0)
  }

  predicate ConditionHolds(c: Condition, named: seq<NamedDetection>, view: View)
    decreases named, 2, c
  {
    match c
    case Named(name) =>
      (match Lookup(named, name)
       case Some(i) => NameHolds(named, i, view)
       case None => false)
    case CondAnd(cs) => forall i | 0 <= i < |cs| :: ConditionHolds(cs[i], named, view)
    case CondOr(cs) => exists i | 0 <= i < |cs| :: ConditionHolds(cs[i], named, view)
    case CondNot(inner) => !ConditionHolds(inner, named, view)
    case Selector(q, pattern) =>
      (match q
       case QAny => exists i | 0 <= i < |named| :: MatchesDetectionName(pattern, named[i].name) && NameHolds(named, i, view)
       case QAll => forall i | 0 <= i < |named| :: MatchesDetectionName(pattern, named[i].name) ==> NameHolds(named, i, view)
       case QCount(n) => CountHolding(named, pattern, view, |named|) >= n)
  }

  function Holding(named: seq<NamedDetection>, pattern: SelectorPattern, view: View, n: nat): set<nat>
    requires n <= |named|
  {
    set i: nat | i < n && MatchesDetectionName(pattern, named[i].name) && NameHolds(named, i, view)
  }

  lemma HoldingNext(named: seq<NamedDetection>, pattern: SelectorPattern, view: View, n: nat)
    requires n < |named|
    ensures Holding(named, pattern, view, n + 1)
            == Holding(named, pattern, view, n) + (if MatchesDetectionName(pattern, named[n].name) && NameHolds(named, n, view) then {n} else {})
  {
  }

  /** The count is that of the selected detections that hold, each once. */
  lemma {:induction false} CountIs(named: seq<NamedDetection>, pattern: SelectorPattern, view: View, n: nat)
    requires n <= |named|
    ensures CountHolding(named, pattern, view, n) == |Holding(named, pattern, view, n)|
  {
    if n > 0 {
      var last: nat := n - 1;
      CountIs(named, pattern, view, last);
      HoldingNext(named, pattern, view, last);
    }
  }

  /** Array quantifiers count the members that hold; of none, only `all_or_empty` and `none` hold. */
  lemma QuantifiersCount(q: ArrayQuantifier, bits: seq<bool>)
    ensures var hits := Quantifiers.Hits(bits);
            QuantifierHolds(q, bits) <==> match q
              case ArrayAny => hits > 0
              case ArrayAll => hits == |bits| > 0
              case ArrayAllOrEmpty => hits == |bits|
              case ArrayNone => hits == 0
  {
    Quantifiers.HitsAre(bits);
  }
}
