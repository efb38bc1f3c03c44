/** The text of a field path, and reading it back (`crates/rsigma-parser/src/fieldpath.rs`, `crates/rsigma-eval/src/event/json.rs`). */
module PathTexts {
  import opened Results
  import opened FieldPaths

  // ----- Integers -----

  function Digit(d: nat): char
    requires d < 10
  {
    ('0' as int + d) as char
  }

  function ShowNat(n: nat): (s: string)
    ensures s != [] && forall i | 0 <= i < |s| :: '0' <= s[i] <= '9'
  {
    if n < 10 then [Digit(n)] else ShowNat(n / 10) + [Digit(n % 10)]
  }

  function ShowInt(n: int): string {
    if n < 0 then "-" + ShowNat(-n) else ShowNat(n)
  }

  lemma {:induction false} NatReadsBack(n: nat)
    ensures Decimal(ShowNat(n)) == n
  {
    var s := ShowNat(n);
    if n < 10 {
      assert s[..|s| - 1] == [];
    } else {
      NatReadsBack(n / 10);
      assert s[..|s| - 1] == ShowNat(n / 10);
    }
  }

  predicate IsI64(n: int) {
    -0x8000_0000_0000_0000 <= n < 0x8000_0000_0000_0000
  }

  /** Every 64-bit integer is read back from its decimal text. */
  lemma IntReadsBack(n: int)
    ensures ParseI64(ShowInt(n)) == if IsI64(n) then Some(n) else None
  {
    NatReadsBack(if n < 0 then -n else n);
    if n < 0 { assert ShowInt(n)[1..] == ShowNat(-n); }
  }

  // ----- Escaped names -----

  /** `escape_brackets` on a name without backslashes. */
  function EscapeBrackets(s: string): string {
    if s == [] then []
    else (if s[0] == '[' || s[0] == ']' then ['\\', s[0]] else [s[0]]) + EscapeBrackets(s[1..])
  }

  /** Unescaping gives an escaped name back. */
  lemma {:induction false} UnescapeEscaped(s: string)
    requires '\\' !in s
    ensures UnescapeBrackets(EscapeBrackets(s)) == s
  {
    if s != [] {
      var rest := EscapeBrackets(s[1..]);
      assert forall c | c in s[1..] :: c in s;
      UnescapeEscaped(s[1..]);
      if s[0] == '[' || s[0] == ']' {
        assert EscapeBrackets(s)[2..] == rest;
      } else {
        assert s[0] in s && EscapeBrackets(s)[1..] == rest;
      }
    }
  }

  /** No bracket of an escaped name opens an index, wherever the name starts. */
  predicate Closed(s: string) {
    && (forall i | 0 <= i < |s| && s[i] == '[' :: i > 0 && s[i - 1] == '\\')
    && (s != [] ==> s[|s| - 1] != '\\')
  }

  lemma {:induction false} EscapedCloses(s: string)
    requires '\\' !in s
    ensures Closed(EscapeBrackets(s)) && ('.' in EscapeBrackets(s) <==> '.' in s)
  {
    if s != [] {
      assert forall c | c in s[1..] :: c in s;
      EscapedCloses(s[1..]);
      assert s[0] in s && s == [s[0]] + s[1..];
      var head := if s[0] == '[' || s[0] == ']' then ['\\', s[0]] else [s[0]];
      ClosedConcat(head, EscapeBrackets(s[1..]));
      if '.' in s && s[0] != '.' { assert '.' in s[1..]; }
    }
  }

  lemma ClosedConcat(a: string, b: string)
    requires Closed(a) && Closed(b)
    ensures Closed(a + b)
  {
    var s := a + b;
    forall i | 0 <= i < |s| && s[i] == '[' ensures i > 0 && s[i - 1] == '\\' {
      if i >= |a| { assert b[i - |a|] == '['; }
    }
  }

  // ----- Segments -----

  /** A key with the array positions behind it. */
  datatype Segment = Segment(name: string, indexes: seq<int>)

  function IndexText(ns: seq<int>): string {
    if ns == [] then [] else "[" + ShowInt(ns[0]) + "]" + IndexText(ns[1..])
  }

  function SegmentText(seg: Segment): string {
    EscapeBrackets(seg.name) + IndexText(seg.indexes)
  }

  function IndexOps(ns: seq<int>): seq<PathOp> {
    if ns == [] then [] else [Index(ns[0])] + IndexOps(ns[1..])
  }

  predicate Writable(seg: Segment) {
    seg.name != [] && '.' !in seg.name && '\\' !in seg.name && forall i | 0 <= i < |seg.indexes| :: IsI64(seg.indexes[i])
  }

  lemma {:induction false} FindFirst(a: string, ch: char, b: string)
    requires ch !in a
    ensures Find(a + [ch] + b, ch) == Some(|a|)
  {
    if a == [] {
      assert a + [ch] + b == [ch] + b;
    } else {
      assert (a + [ch] + b)[1..] == a[1..] + [ch] + b;
      assert a[0] in a && forall c | c in a[1..] :: c in a;
      FindFirst(a[1..], ch, b);
    }
  }

  lemma ShowIntPlain(n: int)
    ensures ']' !in ShowInt(n) && '.' !in ShowInt(n)
  {
    assert forall i | 0 <= i < |ShowInt(n)| :: ShowInt(n)[i] == '-' || '0' <= ShowInt(n)[i] <= '9';
  }

  lemma GroupParses(s: string, close: nat, n: int, rest: seq<PathOp>)
    requires s != [] && s[0] == '[' && close < |s[1..]| && Find(s[1..], ']') == Some(close)
    requires ParseI64(s[1..][..close]) == Some(n) && ParseIndexGroups(s[1..][close + 1..]) == Some(rest)
    ensures ParseIndexGroups(s) == Some([Index(n)] + rest)
  {
  }

  lemma GroupText(digits: string, rest: string)
    ensures var s := "[" + digits + "]" + rest;
            && s[0] == '[' && s[1..] == digits + [']'] + rest
            && s[1..][..|digits|] == digits && s[1..][|digits| + 1..] == rest
  {
    assert ("[" + digits + "]" + rest)[1..] == digits + [']'] + rest;
  }

  lemma OneIndexReadsBack(n: int, rest: string)
    requires IsI64(n) && ParseIndexGroups(rest).Some?
    ensures ParseIndexGroups("[" + ShowInt(n) + "]" + rest) == Some([Index(n)] + ParseIndexGroups(rest).value)
  {
    var digits := ShowInt(n);
    GroupText(digits, rest);
    ShowIntPlain(n);
    IntReadsBack(n);
    FindFirst(digits, ']', rest);
    GroupParses("[" + digits + "]" + rest, |digits|, n, ParseIndexGroups(rest).value);
  }

  lemma {:induction false} IndexesReadBack(ns: seq<int>)
    requires forall i | 0 <= i < |ns| :: IsI64(ns[i])
    ensures ParseIndexGroups(IndexText(ns)) == Some(IndexOps(ns)) && '.' !in IndexText(ns)
  {
    if ns != [] {
      assert forall i | 0 <= i < |ns[1..]| :: ns[1..][i] == ns[i + 1];
      IndexesReadBack(ns[1..]);
      OneIndexReadsBack(ns[0], IndexText(ns[1..]));
      ShowIntPlain(ns[0]);
    }
  }

  lemma {:induction false} NoneOpens(a: string, b: string, i: nat)
    requires Closed(a) && i <= |a| && (b == [] || (b[0] == '[' && a != []))
    ensures FirstUnescapedFrom(a + b, '[', i) == if b == [] then None else Some(|a|)
    decreases |a| - i
  {
    if i < |a| {
      assert (a + b)[i] == a[i] && (i > 0 ==> (a + b)[i - 1] == a[i - 1]);
      NoneOpens(a, b, i + 1);
    } else if b != [] {
      assert (a + b)[i] == '[' && (a + b)[i - 1] == a[i - 1];
    }
  }

  lemma SegmentReadsBack(seg: Segment)
    requires Writable(seg)
    ensures SegmentOps(SegmentText(seg)) == [Key(seg.name)] + IndexOps(seg.indexes)
    ensures SegmentText(seg) != [] && '.' !in SegmentText(seg)
  {
    var name, groups := EscapeBrackets(seg.name), IndexText(seg.indexes);
    EscapedCloses(seg.name);
    UnescapeEscaped(seg.name);
    IndexesReadBack(seg.indexes);
    NoneOpens(name, groups, 0);
    if seg.indexes == [] {
      assert name + groups == name;
    } else {
      assert (name + groups)[..|name|] == name && (name + groups)[|name|..] == groups;
    }
  }

  // ----- Paths -----

  function PathText(segs: seq<Segment>): string
    requires segs != []
  {
    if |segs| == 1 then SegmentText(segs[0]) else SegmentText(segs[0]) + "." + PathText(segs[1..])
  }

  function PathOps(segs: seq<Segment>): seq<PathOp> {
    if segs == [] then [] else [Key(segs[0].name)] + IndexOps(segs[0].indexes) + PathOps(segs[1..])
  }

  lemma {:induction false} SplitFirst(a: string, b: string)
    requires '.' !in a
    ensures SplitDots(a) == [a] && SplitDots(a + "." + b) == [a] + SplitDots(b)
  {
    if a == [] {
      assert a + "." + b == "." + b;
    } else {
      assert a[0] in a && forall c | c in a[1..] :: c in a;
      SplitFirst(a[1..], b);
      assert (a + "." + b)[1..] == a[1..] + "." + b;
      assert [a[0]] + a[1..] == a;
    }
  }

  /** Main result: the text of a path is read back as its keys and indexes in order. */
  lemma {:induction false} PathReadsBack(segs: seq<Segment>)
    requires segs != [] && forall i | 0 <= i < |segs| :: Writable(segs[i])
    ensures OpsOf(SplitDots(PathText(segs))) == PathOps(segs)
  {
    var first := SegmentText(segs[0]);
    SegmentReadsBack(segs[0]);
    if |segs| == 1 {
      SplitFirst(first, []);
      assert [first][1..] == [] && OpsOf([]) == [] && segs[1..] == [];
    } else {
      assert forall i | 0 <= i < |segs[1..]| :: segs[1..][i] == segs[i + 1];
      PathReadsBack(segs[1..]);
      SplitFirst(first, PathText(segs[1..]));
      var rest := SplitDots(PathText(segs[1..]));
      assert ([first] + rest)[1..] == rest;
    }
  }
}
