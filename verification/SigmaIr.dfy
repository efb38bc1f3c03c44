/** The intermediate representation of a Sigma rule (`crates/rsigma-ir/src/hir.rs`). */
module SigmaIr {
  import opened Results

  datatype StrOp = Exact | Contains | StartsWith | EndsWith

  datatype PatternPart = Literal(text: string) | WildcardMulti | WildcardSingle

  datatype Pattern = Pattern(parts: seq<PatternPart>)

  datatype Encoding = Wide | Utf16 | Utf16Be | Base64 | Base64Offset | Windash

  datatype Number = IntLiteral(n: int) | FloatLiteral(x: real) | DynamicSourceRef(sourceId: string)

  datatype CompareOp = Gt | Gte | Lt | Lte

  datatype Matcher =
    | Str(op: StrOp, pattern: Pattern, caseInsensitive: bool)
    | Encoded(encodings: seq<Encoding>, op: StrOp, pattern: Pattern, caseInsensitive: bool)
    | Regex(source: string, caseInsensitive: bool, multiline: bool, dotall: bool, cased: bool)
    | Cidr(network: string)
    | NumericEq(number: Number)
    | NumericCmp(cmp: CompareOp, number: Number)
    | Exists(present: bool)
    | FieldRef(other: string, op: StrOp, caseInsensitive: bool)
    | Null
    | BoolEq(value: bool)
    | Expand(template: string, op: StrOp, caseInsensitive: bool)
    | TimestampPart(part: string, inner: Matcher)
    | Not(inner: Matcher)
    | AnyOf(ms: seq<Matcher>)
    | AllOf(ms: seq<Matcher>)

  datatype DetectionItem = DetectionItem(field: Option<string>, matcher: Matcher)

  datatype ArrayQuantifier = ArrayAny | ArrayAll | ArrayAllOrEmpty | ArrayNone

  datatype Detection =
    | AllItems(items: seq<DetectionItem>)
    | AnyDetection(dets: seq<Detection>)
    | Keywords(matcher: Matcher)
    | ArrayMatch(field: string, quantifier: ArrayQuantifier, body: Detection)
    | AndDetection(dets: seq<Detection>)
    | Conditional(named: seq<NamedDetection>, condition: Condition)

  /** One entry of a detection map; a map is the sequence of its entries in name order. */
  datatype NamedDetection = NamedDetection(name: string, det: Detection)

  datatype Quantifier = QAny | QAll | QCount(count: nat)

  datatype SelectorPattern = Them | Glob(glob: string)

  datatype Condition =
    | Named(name: string)
    | CondAnd(conds: seq<Condition>)
    | CondOr(conds: seq<Condition>)
    | CondNot(cond: Condition)
    | Selector(quantifier: Quantifier, pattern: SelectorPattern)

  /** One value comparison: the field it reads (none for a keyword) and its matcher. */
  datatype Leaf = Leaf(field: Option<string>, matcher: Matcher)

  // ----- Selector patterns (`crates/rsigma-parser/src/selector.rs`) -----

  predicate HasSuffix(s: string, suffix: string) {
    |suffix| <= |s| && s[|s| - |suffix|..] == suffix
  }

  function FirstStar(s: string): (k: nat)
    ensures k <= |s|
    ensures k < |s| ==> s[k] == '*'
    ensures forall i | 0 <= i < k :: s[i] != '*'
  {
    if s == [] || s[0] == '*' then 0 else 1 + FirstStar(s[1..])
  }

  predicate DetectionNameMatches(glob: string, name: string) {
    if glob == "*" then true
    else if glob != [] && glob[|glob| - 1] == '*' then glob[..|glob| - 1] <= name
    else if glob != [] && glob[0] == '*' then HasSuffix(name, glob[1..])
    else if FirstStar(glob) < |glob| then
      var prefix, suffix := glob[..FirstStar(glob)], glob[FirstStar(glob) + 1..];
      |name| >= |prefix| + |suffix| && prefix <= name && HasSuffix(name, suffix)
    else glob == name
  }

  predicate StartsHidden(s: string) {
    s != [] && s[0] == '_'
  }

  predicate MatchesDetectionName(pattern: SelectorPattern, name: string) {
    match pattern
    case Them => !StartsHidden(name)
    case Glob(glob) => (StartsHidden(glob) || !StartsHidden(name)) && DetectionNameMatches(glob, name)
  }
}
