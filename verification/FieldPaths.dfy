/** Field paths, JSON events, and the keys under which the index probes a field. */
module FieldPaths {
  import opened Results

  // ----- Escaped brackets (`crates/rsigma-parser/src/fieldpath.rs`) -----

  /** Turns `\[` and `\]` into literal brackets; any other backslash stays. */
  function UnescapeBrackets(s: string): string {
    if s == [] then []
    else if |s| > 1 && s[0] == '\\' && (s[1] == '[' || s[1] == ']') then [s[1]] + UnescapeBrackets(s[2..])
    else [s[0]] + UnescapeBrackets(s[1..])
  }

  /** First index from `i` on where `ch` stands without a backslash right before it. */
  function FirstUnescapedFrom(s: string, ch: char, i: nat): (r: Option<nat>)
    requires i <= |s|
    ensures r.Some? ==> i <= r.value < |s| && s[r.value] == ch
    decreases |s| - i
  {
    if i == |s| then None
    else if s[i] == ch && (i == 0 || s[i - 1] != '\\') then Some(i)
    else FirstUnescapedFrom(s, ch, i + 1)
  }

  function FirstUnescaped(s: string, ch: char): (r: Option<nat>)
    ensures r.Some? ==> r.value < |s| && s[r.value] == ch
  {
    FirstUnescapedFrom(s, ch, 0)
  }

  // ----- JSON values -----

  /** A number keeps its text as a field value and its text as a keyword. */
  datatype Json =
    | JNull
    | JBool(value: bool)
    | JNum(fieldText: string, keywordText: string)
    | JStr(text: string)
    | JArr(items: seq<Json>)
    | JObj(entries: seq<Entry>)

  datatype Entry = Entry(key: string, value: Json)

  function Get(entries: seq<Entry>, key: string): (r: Option<Json>)
    ensures r.Some? <==> exists i | 0 <= i < |entries| :: entries[i].key == key
  {
    if entries == [] then None
    else if entries[0].key == key then Some(entries[0].value)
    else
      assert forall i | 1 <= i < |entries| :: entries[1..][i - 1] == entries[i];
      Get(entries[1..], key)
  }

  predicate HasKey(v: Json, key: string) {
    v.JObj? && exists i | 0 <= i < |v.entries| :: v.entries[i].key == key
  }

  // ----- Path lookup (`crates/rsigma-eval/src/event/json.rs`) -----

  datatype PathOp = Key(name: string) | Index(n: int)

  function SplitDots(s: string): (r: seq<string>)
    ensures |r| > 0
  {
    if s == [] then [""]
    else if s[0] == '.' then [""] + SplitDots(s[1..])
    else
      var rest := SplitDots(s[1..]);
      [[s[0]] + rest[0]] + rest[1..]
  }

  predicate Digits(s: string) {
    s != [] && forall i | 0 <= i < |s| :: '0' <= s[i] <= '9'
  }

  function Decimal(s: string): nat
    requires forall i | 0 <= i < |s| :: '0' <= s[i] <= '9'
  {
    if s == [] then 0
    else 10 * Decimal(s[..|s| - 1]) + (s[|s| - 1] as int - '0' as int)
  }

  /** `str::parse::<i64>`. */
  function ParseI64(s: string): Option<int> {
    var digits := if s != [] && (s[0] == '-' || s[0] == '+') then s[1..] else s;
    if !Digits(digits) then None
    else
      var n: int := if s[0] == '-' then 0 - Decimal(digits) else Decimal(digits);
      if -0x8000_0000_0000_0000 <= n < 0x8000_0000_0000_0000 then Some(n) else None
  }

  function Find(s: string, ch: char): (r: Option<nat>)
    ensures r.Some? ==> r.value < |s|
  {
    if s == [] then None
    else if s[0] == ch then Some(0)
    else match Find(s[1..], ch)
      case Some(k) => Some(k + 1)
      case None => None
  }

  /** `[N]` or `[N][M]...`; `None` when a group is malformed. */
  function ParseIndexGroups(s: string): Option<seq<PathOp>> {
    if s == [] then Some([])
    else if s[0] != '[' then None
    else match Find(s[1..], ']')
      case None => None
      case Some(close) =>
        match ParseI64(s[1..][..close])
        case None => None
        case Some(n) =>
          match ParseIndexGroups(s[1..][close + 1..])
          case None => None
          case Some(rest) => Some([Index(n)] + rest)
  }

  function SegmentOps(part: string): seq<PathOp> {
    match FirstUnescaped(part, '[')
    case Some(b) =>
      (match ParseIndexGroups(part[b..])
       case Some(indexes) => (if b > 0 then [Key(UnescapeBrackets(part[..b]))] else []) + indexes
       case None => [Key(UnescapeBrackets(part))])
    case None => [Key(UnescapeBrackets(part))]
  }

  function OpsOf(parts: seq<string>): seq<PathOp> {
    if parts == [] then [] else SegmentOps(parts[0]) + OpsOf(parts[1..])
  }

  /** Negative indices count from the end. */
  function ResolveIndex(n: int, len: nat): (r: Option<nat>)
    ensures r.Some? ==> r.value < len
  {
    if 0 <= n < len then Some(n) else if n < 0 <= len + n then Some(len + n) else None
  }

  /** Terminal values of a path; a key distributes over the members of an array. */
  function Collect(v: Json, ops: seq<PathOp>): seq<Json>
    decreases |ops|, v
  {
    if ops == [] then [v]
    else match ops[0]
      case Key(name) =>
        (match v
         case JObj(entries) =>
           (match Get(entries, name)
            case Some(next) => Collect(next, ops[1..])
            case None => [])
         case JArr(items) => CollectEach(items, ops, |items|)
         case _ => [])
      case Index(n) =>
        if v.JArr? && ResolveIndex(n, |v.items|).Some? then Collect(v.items[ResolveIndex(n, |v.items|).value], ops[1..])
        else []
  }

  function CollectEach(items: seq<Json>, ops: seq<PathOp>, n: nat): seq<Json>
    requires n <= |items|
    decreases |ops|, items, n
  {
    if n == 0 then [] else CollectEach(items, ops, n - 1) + Collect(items[n - 1], ops)
  }

  predicate IsPath(s: string) {
    '.' in s || '[' in s || '\\' in s
  }

  /** First object key a path must pass through; none for a leading dot or index. */
  function PathRootKey(path: string): Option<string> {
    var dot := FirstUnescaped(path, '.');
    if dot == Some(0) then None
    else
      var segment := if dot.Some? then path[..dot.value] else path;
      if segment == [] then None
      else match FirstUnescaped(segment, '[')
        case Some(b) => if b == 0 then None else Some(UnescapeBrackets(segment[..b]))
        case None => Some(UnescapeBrackets(segment))
  }

  function Hits(found: seq<Json>): Option<Json> {
    if |found| == 0 then None else if |found| == 1 then Some(found[0]) else Some(JArr(found))
  }

  /** A flat key first, then the dotted path. */
  function GetField(root: Json, path: string): Option<Json> {
    if root.JObj? && HasKey(root, path) then Get(root.entries, path)
    else if !IsPath(path) then None
    else if root.JObj? && PathRootKey(path).Some? && !HasKey(root, PathRootKey(path).value) then None
    else Hits(Collect(root, OpsOf(SplitDots(path))))
  }

  // ----- Probe keys (`crates/rsigma-eval/src/candidate_index.rs`) -----

  function NestedRootKey(field: string): Option<string> {
    match FirstUnescaped(field, '.')
    case Some(pos) =>
      if pos == 0 then None
      else
        var segment := field[..pos];
        var name := match FirstUnescaped(segment, '[')
                    case Some(b) => if b > 0 then segment[..b] else segment
                    case None => segment;
        Some(UnescapeBrackets(name))
    case None => None
  }

  function PositionalRootKey(field: string): Option<string> {
    if FirstUnescaped(field, '.').Some? then None
    else match FirstUnescaped(field, '[')
      case Some(pos) => if pos > 0 then Some(UnescapeBrackets(field[..pos])) else None
      case None => None
  }

  /** The top-level event keys under which a field is registered. */
  function ProbeKeys(field: string): (r: seq<string>)
    ensures |r| <= 2
  {
    [UnescapeBrackets(field)]
    + (match NestedRootKey(field)
       case Some(root) => [root]
       case None => (match PositionalRootKey(field) case Some(root) => [root] case None => []))
  }

  /** Whether probing by the event's own keys visits the field. */
  predicate Probed(root: Json, field: string) {
    root.JObj? ==> exists i | 0 <= i < |root.entries| :: root.entries[i].key in ProbeKeys(field)
  }

  /** The key the lookup insists on is one the field is registered under. */
  lemma RootKeyRegistered(field: string)
    requires PathRootKey(field).Some?
    ensures PathRootKey(field).value in ProbeKeys(field)
  {
  }

  /**
    For a field with a root key, probing misses a present field only when the event spells an
    escaped bracket of the field literally and has none of the field's registered keys.
   */
  lemma ProbeMisses(root: Json, field: string)
    requires PathRootKey(field).Some?
    ensures GetField(root, field).Some? && !Probed(root, field)
            <==> HasKey(root, field) && !Probed(root, field)
  {
    RootKeyRegistered(field);
    if root.JObj? && GetField(root, field).Some? && !HasKey(root, field) {
      assert HasKey(root, PathRootKey(field).value);
    }
  }

  /** A path without escaped brackets is found by probing whenever it is found at all. */
  lemma ProbeComplete(root: Json, field: string)
    requires PathRootKey(field).Some? && UnescapeBrackets(field) == field
    ensures GetField(root, field).Some? ==> Probed(root, field)
  {
    ProbeMisses(root, field);
  }

  lemma {:induction false} UnescapeShrinks(s: string)
    ensures |UnescapeBrackets(s)| <= |s|
  {
    if s == [] {
    } else if |s| > 1 && s[0] == '\\' && (s[1] == '[' || s[1] == ']') {
      UnescapeShrinks(s[2..]);
    } else {
      UnescapeShrinks(s[1..]);
    }
  }

  // ----- Which fields are probed on every event that has them -----

  /** A value on which some operations find something. */
  function Reached(ops: seq<PathOp>): Json {
    if ops == [] then JNull
    else match ops[0]
      case Key(name) => JObj([Entry(name, Reached(ops[1..]))])
      case Index(n) => JArr(seq(if n < 0 then -n else n + 1, _ => Reached(ops[1..])))
  }

  lemma {:induction false} ReachedCollects(ops: seq<PathOp>)
    ensures Collect(Reached(ops), ops) != []
  {
    if ops != [] {
      ReachedCollects(ops[1..]);
      if ops[0].Key? {
        assert Reached(ops).entries[0].key == ops[0].name;
      }
    }
  }

  /** The text before the first dot, escaped or not. */
  function FirstPart(field: string): string {
    match Find(field, '.')
    case Some(dot) => field[..dot]
    case None => field
  }

  lemma {:induction false} SplitsAtFirstDot(field: string)
    ensures SplitDots(field)[0] == FirstPart(field) && '.' !in FirstPart(field)
    ensures Find(field, '.').Some? ==> field[Find(field, '.').value] == '.'
    ensures Find(field, '.').None? ==> '.' !in field
  {
    if field != [] && field[0] != '.' {
      SplitsAtFirstDot(field[1..]);
      assert field == [field[0]] + field[1..];
      var rest := Find(field[1..], '.');
      if rest.Some? { assert field[..rest.value + 1] == [field[0]] + field[1..][..rest.value]; }
    }
  }

  lemma {:induction false} UnescapeKeepsDots(s: string)
    ensures '.' in UnescapeBrackets(s) <==> '.' in s
  {
    if s == [] {
    } else if |s| > 1 && s[0] == '\\' && (s[1] == '[' || s[1] == ']') {
      UnescapeKeepsDots(s[2..]);
      assert s == [s[0], s[1]] + s[2..];
    } else {
      UnescapeKeepsDots(s[1..]);
      assert s == [s[0]] + s[1..];
    }
  }

  ghost predicate AlwaysProbed(field: string) {
    forall root :: GetField(root, field).Some? ==> Probed(root, field)
  }

  /**
    The lookup splits at every dot, the index at unescaped ones: they disagree on a field whose
    first part is a malformed index before an escaped dot.
   */
  predicate SplitsEarly(field: string) {
    && field != [] && field[0] == '[' && ParseIndexGroups(FirstPart(field)).None?
    && Find(field, '.').Some? && FirstUnescaped(field, '.') != Find(field, '.')
  }

  /** No leading dot, no escaped bracket, and one reading of the first part. */
  predicate Probeable(field: string) {
    && UnescapeBrackets(field) == field
    && (field != [] ==> field[0] != '.')
    && !SplitsEarly(field)
  }

  /** An event that spells an escaped bracket literally is not probed for the field. */
  lemma EscapedMissed(field: string)
    requires UnescapeBrackets(field) != field
    ensures !AlwaysProbed(field)
  {
    var root := JObj([Entry(field, JNull)]);
    assert root.entries[0].key == field;
    if NestedRootKey(field).Some? {
      var segment := field[..FirstUnescaped(field, '.').value];
      UnescapeShrinks(segment);
      if FirstUnescaped(segment, '[').Some? { UnescapeShrinks(segment[..FirstUnescaped(segment, '[').value]); }
    } else if PositionalRootKey(field).Some? {
      UnescapeShrinks(field[..FirstUnescaped(field, '[').value]);
    }
    assert field !in ProbeKeys(field);
    assert GetField(root, field).Some? && !Probed(root, field);
  }

  /** A one-key object reached through the first key of the path has the field. */
  lemma FirstKeyHas(field: string, name: string)
    requires PathRootKey(field).None? && '.' in field && '.' !in name
    requires OpsOf(SplitDots(field))[..1] == [Key(name)]
    ensures exists v :: GetField(JObj([Entry(name, v)]), field).Some?
  {
    var ops := OpsOf(SplitDots(field));
    ReachedCollects(ops);
    assert ops[0] == ops[..1][0];
    var v := Reached(ops[1..]);
    OneKeyFound(field, name, v);
  }

  lemma OneKeyFound(field: string, name: string, v: Json)
    requires PathRootKey(field).None? && '.' in field && '.' !in name
    requires Collect(JObj([Entry(name, v)]), OpsOf(SplitDots(field))) != []
    ensures GetField(JObj([Entry(name, v)]), field).Some?
  {
    assert name != field;
    assert !HasKey(JObj([Entry(name, v)]), field);
  }

  /** A field with a leading dot is looked up under an empty key, which it is not registered under. */
  lemma LeadingDotMissed(field: string)
    requires field != [] && field[0] == '.'
    ensures exists v :: GetField(JObj([Entry("", v)]), field).Some? && !Probed(JObj([Entry("", v)]), field)
  {
    assert FirstUnescaped(field, '.') == Some(0);
    SplitsAtFirstDot(field);
    assert SegmentOps("") == [Key("")] by { assert FirstUnescapedFrom("", '[', 0) == None; }
    FirstKeyHas(field, "");
    var v :| GetField(JObj([Entry("", v)]), field).Some?;
    UnescapeKeepsDots(field);
    assert ProbeKeys(field) == [UnescapeBrackets(field)];
    assert !Probed(JObj([Entry("", v)]), field);
  }

  lemma {:induction false} NotAfterFirst(field: string, k: nat)
    requires k < |field| && field[k] == '.'
    ensures Find(field, '.').Some? && Find(field, '.').value <= k
  {
    if k > 0 && field[0] != '.' { NotAfterFirst(field[1..], k - 1); }
  }

  lemma LeadingBracketKeys(field: string)
    requires field != [] && field[0] == '['
    ensures ProbeKeys(field) == [UnescapeBrackets(field)]
                                + match FirstUnescaped(field, '.')
                                  case Some(pos) => [UnescapeBrackets(field[..pos])]
                                  case None => []
  {
    var pos := FirstUnescaped(field, '.');
    if pos.Some? {
      assert FirstUnescaped(field[..pos.value], '[') == Some(0);
    } else {
      assert FirstUnescaped(field, '[') == Some(0);
    }
  }

  /** Every key a field split early is registered under has a dot. */
  lemma EarlySplitKeys(field: string)
    requires field != [] && field[0] == '[' && Find(field, '.').Some? && FirstUnescaped(field, '.') != Find(field, '.')
    ensures forall key | key in ProbeKeys(field) :: '.' in key
  {
    LeadingBracketKeys(field);
    SplitsAtFirstDot(field);
    UnescapeKeepsDots(field);
    if FirstUnescaped(field, '.').Some? {
      var pos := FirstUnescaped(field, '.').value;
      NotAfterFirst(field, pos);
      UnescapeKeepsDots(field[..pos]);
      assert field[..pos][Find(field, '.').value] == '.';
    }
  }

  /** It is looked up under a key without one. */
  lemma EarlySplitMissed(field: string)
    requires SplitsEarly(field)
    ensures !AlwaysProbed(field)
  {
    SplitsAtFirstDot(field);
    var name := UnescapeBrackets(FirstPart(field));
    UnescapeKeepsDots(FirstPart(field));
    assert FirstUnescaped(FirstPart(field), '[') == Some(0) && FirstPart(field)[0..] == FirstPart(field);
    UnrootedLeadingBracket(field);
    FirstKeyHas(field, name);
    var v :| GetField(JObj([Entry(name, v)]), field).Some?;
    EarlySplitKeys(field);
    assert !Probed(JObj([Entry(name, v)]), field);
  }

  lemma UnrootedLeadingBracket(field: string)
    requires field != [] && field[0] == '['
    ensures PathRootKey(field).None?
  {
    var dot := FirstUnescaped(field, '.');
    var segment := if dot.Some? then field[..dot.value] else field;
    assert dot != Some(0);
    assert FirstUnescaped(segment, '[') == Some(0);
  }

  /** A leading array index finds nothing in an object. */
  lemma LeadingIndexFlat(root: Json, field: string)
    requires root.JObj? && field != [] && field[0] == '[' && ParseIndexGroups(FirstPart(field)).Some?
    ensures GetField(root, field).Some? ==> HasKey(root, field)
  {
    SplitsAtFirstDot(field);
    var first, ops := FirstPart(field), OpsOf(SplitDots(field));
    assert FirstUnescaped(first, '[') == Some(0) && first[0..] == first;
    assert ops[0].Index?;
    assert Collect(root, ops) == [];
  }

  /** A leading bracket that is no index is looked up under a key the field is registered under. */
  lemma LeadingKeyProbed(root: Json, field: string)
    requires field != [] && field[0] == '[' && Probeable(field) && ParseIndexGroups(FirstPart(field)).None?
    requires root.JObj? && !HasKey(root, field) && GetField(root, field).Some?
    ensures Probed(root, field)
  {
    SplitsAtFirstDot(field);
    var first, ops := FirstPart(field), OpsOf(SplitDots(field));
    UnrootedLeadingBracket(field);
    assert FirstUnescaped(first, '[') == Some(0) && first[0..] == first;
    assert Collect(root, ops) != [];
    assert ops[0] == Key(UnescapeBrackets(first));
    assert HasKey(root, UnescapeBrackets(first));
    if Find(field, '.').Some? {
      assert FirstUnescaped(field, '.') == Find(field, '.');
      assert NestedRootKey(field) == Some(UnescapeBrackets(first));
    }
  }

  lemma LeadingBracketProbed(root: Json, field: string)
    requires field != [] && field[0] == '[' && Probeable(field) && GetField(root, field).Some?
    ensures Probed(root, field)
  {
    if root.JObj? {
      if ParseIndexGroups(FirstPart(field)).Some? {
        LeadingIndexFlat(root, field);
      } else if !HasKey(root, field) {
        LeadingKeyProbed(root, field);
      }
    }
  }

  /** Main result: which fields probing finds on every event that has them, for every field text. */
  lemma ProbedOnEveryEvent(field: string)
    ensures AlwaysProbed(field) <==> Probeable(field)
  {
    if UnescapeBrackets(field) != field {
      EscapedMissed(field);
    } else if field != [] && field[0] == '.' {
      LeadingDotMissed(field);
    } else if SplitsEarly(field) {
      EarlySplitMissed(field);
    } else {
      forall root | GetField(root, field).Some? ensures Probed(root, field) {
        if PathRootKey(field).Some? {
          ProbeComplete(root, field);
        } else if field != [] {
          LeadingBracketProbed(root, field);
        }
      }
    }
  }

  /** In particular a field with a root key and no escaped bracket. */
  lemma RootedProbeable(field: string)
    requires PathRootKey(field).Some?
    ensures Probeable(field) <==> UnescapeBrackets(field) == field
  {
    if field != [] && field[0] == '[' { UnrootedLeadingBracket(field); }
  }
}
