/**
  What a field lookup returns (`crates/rsigma-eval/src/event/json.rs`): the values at the end of
  every route through the event that the path allows, in document order.
 */
module FieldLookup {
  import opened Results
  import opened FieldPaths

  /** One step into a value: an entry of an object, or a member of an array. */
  datatype Step = Enter(i: nat) | Member(i: nat)

  type Route = seq<Step>

  /** Where a route ends. */
  function Follow(v: Json, route: Route): Option<Json> {
    if route == [] then Some(v)
    else match route[0]
      case Enter(i) => if v.JObj? && i < |v.entries| then Follow(v.entries[i].value, route[1..]) else None
      case Member(i) => if v.JArr? && i < |v.items| then Follow(v.items[i], route[1..]) else None
  }

  /** The entry an object lookup finds. */
  predicate FirstAt(entries: seq<Entry>, key: string, i: nat) {
    i < |entries| && entries[i].key == key && forall j | 0 <= j < i :: entries[j].key != key
  }

  /**
    The route a path allows: a key enters its entry, after any number of array members; an index
    enters the one member it counts, from the end when negative.
   */
  predicate Serves(v: Json, ops: seq<PathOp>, route: Route)
    decreases |route|
  {
    if ops == [] then route == []
    else if route == [] then false
    else match ops[0]
      case Key(name) =>
        (match route[0]
         case Enter(i) => v.JObj? && FirstAt(v.entries, name, i) && Serves(v.entries[i].value, ops[1..], route[1..])
         case Member(i) => v.JArr? && i < |v.items| && Serves(v.items[i], ops, route[1..]))
      case Index(n) =>
        (match route[0]
         case Enter(_) => false
         case Member(i) => v.JArr? && i < |v.items| && (i == n || i == n + |v.items|) && Serves(v.items[i], ops[1..], route[1..]))
  }

  /** Document order: the first member where two routes part decides. */
  predicate Earlier(a: Route, b: Route) {
    a != [] && b != []
    && if a[0] == b[0] then Earlier(a[1..], b[1..]) else a[0].Member? && b[0].Member? && a[0].i < b[0].i
  }

  // ----- Lists of routes with the values they lead to -----

  predicate Lead(v: Json, ops: seq<PathOp>, hits: seq<Json>, routes: seq<Route>) {
    |routes| == |hits| && forall k | 0 <= k < |routes| :: Serves(v, ops, routes[k]) && Follow(v, routes[k]) == Some(hits[k])
  }

  predicate Ordered(routes: seq<Route>) {
    forall j, k | 0 <= j < k < |routes| :: Earlier(routes[j], routes[k])
  }

  ghost predicate Exhaust(v: Json, ops: seq<PathOp>, routes: seq<Route>) {
    forall route: Route | Serves(v, ops, route) :: route in routes
  }

  function Prepend(step: Step, routes: seq<Route>): (r: seq<Route>)
    ensures |r| == |routes| && forall k | 0 <= k < |r| :: r[k] == [step] + routes[k]
  {
    seq(|routes|, k requires 0 <= k < |routes| => [step] + routes[k])
  }

  lemma PrependOrdered(step: Step, routes: seq<Route>)
    requires Ordered(routes)
    ensures Ordered(Prepend(step, routes))
  {
    var longer := Prepend(step, routes);
    forall j, k | 0 <= j < k < |routes| ensures Earlier(longer[j], longer[k]) {
      assert longer[j][1..] == routes[j] && longer[k][1..] == routes[k];
    }
  }

  lemma PrependLeads(v: Json, ops: seq<PathOp>, step: Step, next: Json, rest: seq<PathOp>, hits: seq<Json>, routes: seq<Route>)
    requires Lead(next, rest, hits, routes)
    requires forall route: Route :: Serves(next, rest, route) ==> Serves(v, ops, [step] + route)
    requires forall route: Route :: Follow(v, [step] + route) == Follow(next, route)
    ensures Lead(v, ops, hits, Prepend(step, routes))
  {
    var longer := Prepend(step, routes);
    forall k | 0 <= k < |routes| ensures Serves(v, ops, longer[k]) && Follow(v, longer[k]) == Some(hits[k]) {
      assert longer[k] == [step] + routes[k];
    }
  }

  lemma PrependIncludes(step: Step, routes: seq<Route>, route: Route)
    requires route != [] && route[0] == step && route[1..] in routes
    ensures route in Prepend(step, routes)
  {
    var k :| 0 <= k < |routes| && routes[k] == route[1..];
    assert Prepend(step, routes)[k] == route;
  }

  // ----- The lookup collects along all of them -----

  lemma {:induction false} FirstFound(entries: seq<Entry>, key: string, i: nat)
    requires FirstAt(entries, key, i)
    ensures Get(entries, key) == Some(entries[i].value)
  {
    if i > 0 { FirstFound(entries[1..], key, i - 1); }
  }

  lemma {:induction false} FoundFirst(entries: seq<Entry>, key: string) returns (i: nat)
    requires Get(entries, key).Some?
    ensures FirstAt(entries, key, i)
  {
    if entries[0].key == key {
      i := 0;
    } else {
      i := FoundFirst(entries[1..], key);
      i := i + 1;
    }
  }

  lemma EnterLeads(v: Json, ops: seq<PathOp>, i: nat, hits: seq<Json>, routes: seq<Route>)
    requires v.JObj? && ops != [] && ops[0].Key? && FirstAt(v.entries, ops[0].name, i)
    requires Lead(v.entries[i].value, ops[1..], hits, routes) && Exhaust(v.entries[i].value, ops[1..], routes)
    ensures Lead(v, ops, hits, Prepend(Enter(i), routes)) && Exhaust(v, ops, Prepend(Enter(i), routes))
  {
    var next := v.entries[i].value;
    forall route: Route ensures Follow(v, [Enter(i)] + route) == Follow(next, route)
                 ensures Serves(next, ops[1..], route) ==> Serves(v, ops, [Enter(i)] + route)
    {
      assert ([Enter(i)] + route)[1..] == route;
    }
    PrependLeads(v, ops, Enter(i), next, ops[1..], hits, routes);
    forall route: Route | Serves(v, ops, route) ensures route in Prepend(Enter(i), routes) {
      assert route[0] == Enter(i);
      PrependIncludes(Enter(i), routes, route);
    }
  }

  lemma MemberLeads(v: Json, ops: seq<PathOp>, i: nat, rest: seq<PathOp>, hits: seq<Json>, routes: seq<Route>)
    requires v.JArr? && i < |v.items| && ops != []
    requires if ops[0].Key? then rest == ops else rest == ops[1..] && (i == ops[0].n || i == ops[0].n + |v.items|)
    requires Lead(v.items[i], rest, hits, routes) && Exhaust(v.items[i], rest, routes)
    ensures Lead(v, ops, hits, Prepend(Member(i), routes))
    ensures forall route: Route | Serves(v, ops, route) && route[0] == Member(i) :: route in Prepend(Member(i), routes)
  {
    var next := v.items[i];
    forall route: Route ensures Follow(v, [Member(i)] + route) == Follow(next, route)
                 ensures Serves(next, rest, route) ==> Serves(v, ops, [Member(i)] + route)
    {
      assert ([Member(i)] + route)[1..] == route;
    }
    PrependLeads(v, ops, Member(i), next, rest, hits, routes);
    forall route: Route | Serves(v, ops, route) && route[0] == Member(i) ensures route in Prepend(Member(i), routes) {
      PrependIncludes(Member(i), routes, route);
    }
  }

  /** The hits of a lookup, in order, with the routes to them; there are no other routes. */
  lemma {:induction false} HitsInOrder(v: Json, ops: seq<PathOp>) returns (routes: seq<Route>)
    ensures Lead(v, ops, Collect(v, ops), routes) && Ordered(routes) && Exhaust(v, ops, routes)
    decreases |ops|, v
  {
    routes := [];
    if ops == [] {
      routes := [[]];
      assert forall route: Route | Serves(v, ops, route) :: route == [];
    } else if ops[0].Key? && v.JObj? {
      if Get(v.entries, ops[0].name).Some? {
        var i := FoundFirst(v.entries, ops[0].name);
        FirstFound(v.entries, ops[0].name, i);
        var inner := HitsInOrder(v.entries[i].value, ops[1..]);
        EnterLeads(v, ops, i, Collect(v.entries[i].value, ops[1..]), inner);
        PrependOrdered(Enter(i), inner);
        routes := Prepend(Enter(i), inner);
      } else {
        NoEntry(v, ops);
      }
    } else if ops[0].Key? && v.JArr? {
      routes := EachInOrder(v, ops, |v.items|);
    } else if ops[0].Index? && v.JArr? && ResolveIndex(ops[0].n, |v.items|).Some? {
      var i := ResolveIndex(ops[0].n, |v.items|).value;
      var inner := HitsInOrder(v.items[i], ops[1..]);
      MemberLeads(v, ops, i, ops[1..], Collect(v.items[i], ops[1..]), inner);
      PrependOrdered(Member(i), inner);
      routes := Prepend(Member(i), inner);
    }
  }

  lemma NoEntry(v: Json, ops: seq<PathOp>)
    requires v.JObj? && ops != [] && ops[0].Key? && Get(v.entries, ops[0].name).None?
    ensures Exhaust(v, ops, [])
  {
    forall route: Route | Serves(v, ops, route) ensures false {
      FirstFound(v.entries, ops[0].name, route[0].i);
    }
  }

  /** The first `n` members of an array, a key still pending. */
  lemma {:induction false} EachInOrder(v: Json, ops: seq<PathOp>, n: nat) returns (routes: seq<Route>)
    requires v.JArr? && n <= |v.items| && ops != [] && ops[0].Key?
    ensures Lead(v, ops, CollectEach(v.items, ops, n), routes) && Ordered(routes)
    ensures forall k | 0 <= k < |routes| :: routes[k] != [] && routes[k][0].Member? && routes[k][0].i < n
    ensures forall route: Route | Serves(v, ops, route) && route[0].Member? && route[0].i < n :: route in routes
    decreases |ops|, v, n
  {
    if n == 0 {
      routes := [];
    } else {
      var before := EachInOrder(v, ops, n - 1);
      var inner := HitsInOrder(v.items[n - 1], ops);
      MemberLeads(v, ops, n - 1, ops, Collect(v.items[n - 1], ops), inner);
      PrependOrdered(Member(n - 1), inner);
      var last := Prepend(Member(n - 1), inner);
      routes := before + last;
      LeadConcat(v, ops, CollectEach(v.items, ops, n - 1), before, Collect(v.items[n - 1], ops), last);
      assert forall j, k | 0 <= j < |before| && 0 <= k < |last| :: Earlier(before[j], last[k]);
    }
  }

  lemma LeadConcat(v: Json, ops: seq<PathOp>, hits: seq<Json>, routes: seq<Route>, more: seq<Json>, longer: seq<Route>)
    requires Lead(v, ops, hits, routes) && Lead(v, ops, more, longer)
    ensures Lead(v, ops, hits + more, routes + longer)
  {
  }

  lemma RouteHits(v: Json, ops: seq<PathOp>, hits: seq<Json>, routes: seq<Route>, route: Route, x: Json)
    requires Lead(v, ops, hits, routes) && route in routes && Follow(v, route) == Some(x)
    ensures x in hits
  {
    var k :| 0 <= k < |routes| && routes[k] == route;
    assert Follow(v, routes[k]) == Some(hits[k]);
  }

  /** Main result: a value is collected exactly when an allowed route leads to it. */
  lemma CollectsExactly(v: Json, ops: seq<PathOp>, x: Json)
    ensures x in Collect(v, ops) <==> exists route: Route :: Serves(v, ops, route) && Follow(v, route) == Some(x)
  {
    var routes := HitsInOrder(v, ops);
    var hits := Collect(v, ops);
    if x in hits {
      var k :| 0 <= k < |routes| && hits[k] == x;
      assert Serves(v, ops, routes[k]) && Follow(v, routes[k]) == Some(x);
    }
    if route: Route :| Serves(v, ops, route) && Follow(v, route) == Some(x) {
      RouteHits(v, ops, hits, routes, route, x);
    }
  }

  // ----- The field itself -----

  /** A flat key comes first; otherwise none, one or several values on a path are nothing, the value, or an array of them. */
  lemma FieldIs(root: Json, path: string)
    ensures root.JObj? ==> forall i: nat | FirstAt(root.entries, path, i) :: GetField(root, path) == Some(root.entries[i].value)
    ensures !HasKey(root, path) && '.' !in path && '[' !in path && '\\' !in path ==> GetField(root, path) == None
    ensures !HasKey(root, path) && ('.' in path || '[' in path || '\\' in path) && !ShortCut(root, path) ==>
              var hits := Collect(root, OpsOf(SplitDots(path)));
              && (|hits| == 0 ==> GetField(root, path) == None)
              && (|hits| == 1 ==> GetField(root, path) == Some(hits[0]))
              && (|hits| > 1 ==> GetField(root, path) == Some(JArr(hits)))
  {
    if root.JObj? {
      forall i: nat | FirstAt(root.entries, path, i) ensures GetField(root, path) == Some(root.entries[i].value) {
        FirstFound(root.entries, path, i);
      }
    }
  }

  /** The lookup gives up on an object without the first key of the path. */
  predicate ShortCut(root: Json, path: string) {
    root.JObj? && PathRootKey(path).Some? && !HasKey(root, PathRootKey(path).value)
  }

  /** The path gives nothing on any object the lookup gives up on. */
  ghost predicate ShortCutHarmless(path: string) {
    forall root | ShortCut(root, path) && !HasKey(root, path) :: Collect(root, OpsOf(SplitDots(path))) == []
  }

  lemma FirstOpIsKey(path: string)
    requires PathRootKey(path).Some?
    ensures OpsOf(SplitDots(path)) != [] && OpsOf(SplitDots(path))[0].Key?
  {
    SplitsAtFirstDot(path);
    var first := FirstPart(path);
    if path[0] == '[' { UnrootedLeadingBracket(path); }
    assert path[0] != '[' && path[0] != '.';
    assert first != [] && first[0] == path[0];
    assert FirstUnescaped(first, '[') != Some(0);
  }

  /** That loses nothing exactly when the first key the path enters is the one checked, or the whole path. */
  lemma ShortCutExact(path: string)
    requires PathRootKey(path).Some? && IsPath(path)
    ensures OpsOf(SplitDots(path)) != []
    ensures ShortCutHarmless(path)
            <==> OpsOf(SplitDots(path))[0] in [Key(PathRootKey(path).value), Key(path)]
  {
    var ops := OpsOf(SplitDots(path));
    FirstOpIsKey(path);
    var name := ops[0].name;
    if name == path || name == PathRootKey(path).value {
      forall root | ShortCut(root, path) && !HasKey(root, path) ensures Collect(root, ops) == [] {
        assert !HasKey(root, name);
      }
    } else {
      var root := Reached(ops);
      ReachedCollects(ops);
      assert root.entries == [Entry(name, Reached(ops[1..]))];
      assert ShortCut(root, path) && !HasKey(root, path);
    }
  }
}
