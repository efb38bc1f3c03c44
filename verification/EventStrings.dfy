/**
  The strings of an event and of a field value, by the routes that lead to them
  (`crates/rsigma-eval/src/event/json.rs`, `crates/rsigma-eval/src/matcher/matching.rs`), and what
  comparing with them means.
 */
module EventStrings {
  import opened Results
  import opened FieldPaths
  import opened FieldLookup
  import opened Folding
  import opened Evaluation
  import SigmaIr
  import Unicode

  // ----- Strings of an event, for keywords -----

  /** The keyword text of a value: strings as they are, numbers as their JSON text. */
  predicate KeywordText(v: Json, s: string) {
    v == JStr(s) || (v.JNum? && v.keywordText == s)
  }

  ghost predicate ReachesText(v: Json, depth: nat, s: string) {
    exists route: Route, x: Json :: |route| < depth && Follow(v, route) == Some(x) && KeywordText(x, s)
  }

  lemma Arrives(v: Json, depth: nat, s: string, route: Route, x: Json)
    requires |route| < depth && Follow(v, route) == Some(x) && KeywordText(x, s)
    ensures ReachesText(v, depth, s)
  {
  }

  /** One step further in. */
  lemma ReachesInner(v: Json, depth: nat, s: string, step: Step, next: Json)
    requires depth > 0 && Follow(v, [step]) == Some(next)
    ensures ReachesText(next, depth - 1, s) ==> ReachesText(v, depth, s)
  {
    if ReachesText(next, depth - 1, s) {
      var route: Route, x: Json :| |route| < depth - 1 && Follow(next, route) == Some(x) && KeywordText(x, s);
      assert ([step] + route)[1..] == route;
      Arrives(v, depth, s, [step] + route, x);
    }
  }

  /** The strings of an event are the texts at the end of every route shorter than the depth. */
  lemma {:induction false} StringsAre(v: Json, depth: nat, s: string)
    ensures s in StringsOf(v, depth) <==> ReachesText(v, depth, s)
    decreases depth, v, 1
  {
    if depth > 0 {
      if v.JObj? {
        EntryStringsAre(v.entries, |v.entries|, depth - 1, s);
        ObjectReaches(v, depth, s);
      } else if v.JArr? {
        ItemStringsAre(v.items, |v.items|, depth - 1, s);
        ArrayReaches(v, depth, s);
      } else {
        if KeywordText(v, s) { Arrives(v, depth, s, [], v); }
      }
    }
  }

  lemma {:induction false} EntryStringsAre(entries: seq<Entry>, n: nat, depth: nat, s: string)
    requires n <= |entries|
    ensures s in EntryStrings(entries, n, depth) <==> exists i | 0 <= i < n :: ReachesText(entries[i].value, depth, s)
    decreases depth, entries, n
  {
    if n > 0 {
      EntryStringsAre(entries, n - 1, depth, s);
      StringsAre(entries[n - 1].value, depth, s);
    }
  }

  lemma {:induction false} ItemStringsAre(items: seq<Json>, n: nat, depth: nat, s: string)
    requires n <= |items|
    ensures s in ItemStrings(items, n, depth) <==> exists i | 0 <= i < n :: ReachesText(items[i], depth, s)
    decreases depth, items, n
  {
    if n > 0 {
      ItemStringsAre(items, n - 1, depth, s);
      StringsAre(items[n - 1], depth, s);
    }
  }

  lemma ObjectReaches(v: Json, depth: nat, s: string)
    requires v.JObj? && depth > 0
    ensures ReachesText(v, depth, s) <==> exists i | 0 <= i < |v.entries| :: ReachesText(v.entries[i].value, depth - 1, s)
  {
    if ReachesText(v, depth, s) {
      var route: Route, x: Json :| |route| < depth && Follow(v, route) == Some(x) && KeywordText(x, s);
      Arrives(v.entries[route[0].i].value, depth - 1, s, route[1..], x);
    }
    forall i: nat | i < |v.entries| { ReachesInner(v, depth, s, Enter(i), v.entries[i].value); }
  }

  lemma ArrayReaches(v: Json, depth: nat, s: string)
    requires v.JArr? && depth > 0
    ensures ReachesText(v, depth, s) <==> exists i | 0 <= i < |v.items| :: ReachesText(v.items[i], depth - 1, s)
  {
    if ReachesText(v, depth, s) {
      var route: Route, x: Json :| |route| < depth && Follow(v, route) == Some(x) && KeywordText(x, s);
      Arrives(v.items[route[0].i], depth - 1, s, route[1..], x);
    }
    forall i: nat | i < |v.items| { ReachesInner(v, depth, s, Member(i), v.items[i]); }
  }

  /** Main result: a string is searched for keywords exactly when it ends a route of fewer than 64 steps. */
  lemma StringValuesAre(e: Event, s: string)
    ensures s in StringValues(e) <==> exists route: Route, x: Json :: |route| < 64 && Follow(e.root, route) == Some(x) && KeywordText(x, s)
  {
    StringsAre(e.root, 64, s);
  }

  // ----- Strings of a field value -----

  /** The text a scalar is compared as. */
  predicate FieldText(v: Json, s: string) {
    v == JStr(s) || (v.JNum? && v.fieldText == s) || (v.JBool? && s == if v.value then "true" else "false")
  }

  predicate OnlyMembers(route: Route) {
    forall k | 0 <= k < |route| :: route[k].Member?
  }

  ghost predicate HasText(v: Json, s: string) {
    exists route: Route, x: Json :: OnlyMembers(route) && Follow(v, route) == Some(x) && FieldText(x, s)
  }

  /** The strings a matcher sees of a value are those of its scalar or of the scalars in its arrays. */
  lemma {:induction false} ProjectionsAre(v: Json, s: string)
    ensures s in Projections(v) <==> HasText(v, s)
    decreases v, 1
  {
    if v.JArr? {
      ItemProjectionsAre(v.items, |v.items|, s);
      ArrayHasText(v, s);
    } else {
      if FieldText(v, s) { PlaceHasText(v, s, [], v); }
      forall route: Route | OnlyMembers(route) { OutsideArray(v, route); }
    }
  }

  /** Nothing but an array has members. */
  lemma OutsideArray(v: Json, route: Route)
    requires !v.JArr? && OnlyMembers(route)
    ensures Follow(v, route).Some? ==> route == []
  {
    if route != [] { assert route[0].Member?; }
  }

  lemma PlaceHasText(v: Json, s: string, route: Route, x: Json)
    requires OnlyMembers(route) && Follow(v, route) == Some(x) && FieldText(x, s)
    ensures HasText(v, s)
  {
  }

  lemma {:induction false} ItemProjectionsAre(items: seq<Json>, n: nat, s: string)
    requires n <= |items|
    ensures s in ProjectionsOf(items, n) <==> exists i | 0 <= i < n :: HasText(items[i], s)
    decreases items, n
  {
    if n > 0 {
      ItemProjectionsAre(items, n - 1, s);
      ProjectionsAre(items[n - 1], s);
    }
  }

  lemma ArrayHasText(v: Json, s: string)
    requires v.JArr?
    ensures HasText(v, s) <==> exists i | 0 <= i < |v.items| :: HasText(v.items[i], s)
  {
    if HasText(v, s) {
      var route: Route, x: Json :| OnlyMembers(route) && Follow(v, route) == Some(x) && FieldText(x, s);
      assert route != [] && route[0].Member?;
      assert forall k | 0 <= k < |route[1..]| :: route[1..][k] == route[k + 1];
      PlaceHasText(v.items[route[0].i], s, route[1..], x);
    }
    forall i: nat | i < |v.items| && HasText(v.items[i], s) ensures HasText(v, s) {
      var route: Route, x: Json :| OnlyMembers(route) && Follow(v.items[i], route) == Some(x) && FieldText(x, s);
      assert ([Member(i)] + route)[1..] == route;
      PlaceHasText(v, s, [Member(i)] + route, x);
    }
  }

  // ----- Comparing and folding -----

  /** What the four operators ask of a text. */
  lemma EqualsAs(s: string, value: string)
    ensures Compare(SigmaIr.Exact, s, value) <==> s == value
  {
  }

  lemma StartsAs(s: string, value: string)
    ensures Compare(SigmaIr.StartsWith, s, value) <==> exists rest: string :: s == value + rest
  {
    if value <= s { assert s == value + s[|value|..]; }
  }

  lemma EndsAs(s: string, value: string)
    ensures Compare(SigmaIr.EndsWith, s, value) <==> exists before: string :: s == before + value
  {
    if SigmaIr.HasSuffix(s, value) { assert s == s[..|s| - |value|] + value; }
    forall before: string | s == before + value ensures SigmaIr.HasSuffix(s, value) {
      assert s[|s| - |value|..] == value;
    }
  }

  lemma ContainsAs(s: string, value: string)
    ensures Compare(SigmaIr.Contains, s, value) <==> exists before: string, rest: string :: s == before + value + rest
  {
    if Infix(value, s) {
      var k: nat :| StandsAt(value, s, k);
      assert s == s[..k] + value + s[k + |value|..];
    }
    forall before: string, rest: string | s == before + value + rest { Surrounded(s, value, before, rest); }
  }

  lemma Surrounded(s: string, value: string, before: string, rest: string)
    requires s == before + value + rest
    ensures Infix(value, s)
  {
    assert s[|before|..|before| + |value|] == value;
    assert StandsAt(value, s, |before|);
  }

  /** The texts an item looks at: those of its field, or those of the event. */
  ghost predicate Sees(field: Option<string>, e: Event, s: string) {
    match field
    case Some(f) => GetField(e.root, f).Some? && HasText(GetField(e.root, f).value, s)
    case None => ReachesText(e.root, MAX_NESTING_DEPTH, s)
  }

  lemma ValueMatches(op: SigmaIr.StrOp, value: string, ci: bool, v: Json, e: Event)
    ensures Matches(StrMatch(op, value, ci), v, e)
            <==> exists s: string :: HasText(v, s) && Compare(op, if ci then e.fold(s) else s, value)
  {
    var m := StrMatch(op, value, ci);
    if i :| 0 <= i < |Projections(v)| && MatchesStr(m, Projections(v)[i], e) { ProjectionsAre(v, Projections(v)[i]); }
    if s: string :| HasText(v, s) && Compare(op, if ci then e.fold(s) else s, value) {
      ProjectionsAre(v, s);
      var i :| 0 <= i < |Projections(v)| && Projections(v)[i] == s;
      assert MatchesStr(m, Projections(v)[i], e);
    }
  }

  lemma EventMatches(op: SigmaIr.StrOp, value: string, ci: bool, e: Event)
    ensures MatchesKeyword(StrMatch(op, value, ci), e)
            <==> exists s: string :: ReachesText(e.root, MAX_NESTING_DEPTH, s) && Compare(op, if ci then e.fold(s) else s, value)
  {
    var m := StrMatch(op, value, ci);
    if i :| 0 <= i < |StringValues(e)| && MatchesStr(m, StringValues(e)[i], e) {
      StringsAre(e.root, MAX_NESTING_DEPTH, StringValues(e)[i]);
    }
    if s: string :| ReachesText(e.root, MAX_NESTING_DEPTH, s) && Compare(op, if ci then e.fold(s) else s, value) {
      StringsAre(e.root, MAX_NESTING_DEPTH, s);
      var i :| 0 <= i < |StringValues(e)| && StringValues(e)[i] == s;
      assert MatchesStr(m, StringValues(e)[i], e);
    }
  }

  /** A comparison holds on an event exactly when one of those texts, folded if it ignores case, compares. */
  lemma TextItemHolds(field: Option<string>, op: SigmaIr.StrOp, value: string, ci: bool, e: Event)
    ensures ItemHolds(Item(field, StrMatch(op, value, ci), None), e)
            <==> exists s: string :: Sees(field, e, s) && Compare(op, if ci then e.fold(s) else s, value)
  {
    if field.None? {
      EventMatches(op, value, ci, e);
      assert forall s: string :: ReachesText(e.root, MAX_NESTING_DEPTH, s) <==> Sees(field, e, s);
    } else if GetField(e.root, field.value).Some? {
      var v := GetField(e.root, field.value).value;
      ValueMatches(op, value, ci, v, e);
      assert forall s: string :: HasText(v, s) <==> Sees(field, e, s);
    }
  }

  const UPPER := "ABCDEFGHIJKLMNOPQRSTUVWXYZ"
  const LOWER := "abcdefghijklmnopqrstuvwxyz"

  /** ASCII folding sends each capital letter to its small one and leaves every other character. */
  lemma LettersFold(c: char)
    ensures forall i | 0 <= i < 26 :: LowerChar(UPPER[i]) == LOWER[i]
    ensures c !in UPPER ==> LowerChar(c) == c
  {
    forall i | 0 <= i < 26 ensures UPPER[i] as int == 65 + i && LOWER[i] as int == 97 + i {}
    if 'A' <= c <= 'Z' {
      var i := c as int - 65;
      assert UPPER[i] as int == c as int;
      assert UPPER[i] in UPPER;
    }
  }

  /** ASCII text is the text that takes one byte a character. */
  lemma {:induction false} AsciiExactly(s: string)
    ensures IsAscii(s) <==> |Unicode.Utf8(s)| == |s|
  {
    if s != [] {
      AsciiExactly(s[1..]);
      Unicode.Utf8Grows(s[1..]);
      assert IsAscii(s) <==> s[0] as int < 128 && IsAscii(s[1..]) by {
        assert forall i | 0 < i < |s| :: s[1..][i - 1] == s[i];
      }
      Unicode.Utf8Form(s[0]);
    }
  }
}
