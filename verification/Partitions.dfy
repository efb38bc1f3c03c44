/** Grouping exemplars by scalar field values (`crates/rsigma-eval/src/rule_tune.rs`). */
module Partitions {
  import opened Results
  import FieldCounts
  import opened CandidateSets

  /** The leaf paths an event lists, possibly more than once, and the text of those that are scalars. */
  datatype Exemplar = Exemplar(keys: seq<string>, scalars: map<string, string>)

  type Groups = map<string, seq<nat>>

  function At(groups: Groups, value: string): seq<nat> {
    if value in groups then groups[value] else []
  }

  function GroupsOf(fields: map<string, Groups>, field: string): Groups {
    if field in fields then fields[field] else map[]
  }

  // ----- Specification -----

  /** Position `k` of an exemplar lists a scalar field. */
  predicate Lists(e: Exemplar, k: nat, field: string)
    requires k < |e.keys|
  {
    e.keys[k] == field && field in e.scalars
  }

  /** A place in the exemplars: the first `i` and `k` keys of the next. */
  predicate Place(events: seq<Exemplar>, i: nat, k: nat) {
    i <= |events| && k <= if i < |events| then |events[i].keys| else 0
  }

  /** Indexes with a value of a field up to a place, once per listing. */
  function Group(events: seq<Exemplar>, field: string, value: string, i: nat, k: nat): seq<nat>
    requires Place(events, i, k)
  {
    if k > 0 then
      Group(events, field, value, i, k - 1)
      + (if Lists(events[i], k - 1, field) && events[i].scalars[field] == value then [i] else [])
    else if i > 0 then Group(events, field, value, i - 1, |events[i - 1].keys|)
    else []
  }

  function Listings(events: seq<Exemplar>, field: string, i: nat, k: nat): nat
    requires Place(events, i, k)
  {
    if k > 0 then Listings(events, field, i, k - 1) + (if Lists(events[i], k - 1, field) then 1 else 0)
    else if i > 0 then Listings(events, field, i - 1, |events[i - 1].keys|)
    else 0
  }

  function Sizes(groups: Groups): FieldCounts.Counts {
    map v | v in groups :: |groups[v]|
  }

  ghost function Total(groups: Groups): nat {
    FieldCounts.Sum(Sizes(groups))
  }

  // ----- Gathering -----

  function Pushed(groups: Groups, value: string, i: nat): Groups {
    groups[value := At(groups, value) + [i]]
  }

  lemma PushTotal(groups: Groups, value: string, i: nat)
    ensures Total(Pushed(groups, value, i)) == Total(groups) + 1
  {
    assert Sizes(Pushed(groups, value, i)) == Sizes(groups)[value := |At(groups, value)| + 1];
    FieldCounts.SumSet(Sizes(groups), value, |At(groups, value)| + 1);
    if value in groups {
      FieldCounts.SumPick(Sizes(groups), value);
    } else {
      assert Sizes(groups) - {value} == Sizes(groups);
    }
  }

  /** The groups of one field up to a place. */
  ghost predicate Gathered(events: seq<Exemplar>, groups: Groups, field: string, i: nat, k: nat)
    requires Place(events, i, k)
  {
    && (forall v :: At(groups, v) == Group(events, field, v, i, k))
    && Total(groups) == Listings(events, field, i, k)
    && (forall v | v in groups :: groups[v] != [])
  }

  lemma KeyGathered(events: seq<Exemplar>, groups: Groups, field: string, i: nat, k: nat)
    requires i < |events| && k < |events[i].keys| && Gathered(events, groups, field, i, k)
    ensures if Lists(events[i], k, field) then Gathered(events, Pushed(groups, events[i].scalars[field], i), field, i, k + 1)
            else Gathered(events, groups, field, i, k + 1)
  {
    if Lists(events[i], k, field) {
      var value := events[i].scalars[field];
      PushTotal(groups, value, i);
      forall v ensures At(Pushed(groups, value, i), v) == Group(events, field, v, i, k + 1) {}
      assert Pushed(groups, value, i)[value] == At(groups, value) + [i];
    }
  }

  method GatherScalars(events: seq<Exemplar>) returns (fields: map<string, Groups>)
    ensures forall f :: Gathered(events, GroupsOf(fields, f), f, |events|, 0)
  {
    fields := map[];
    assert Sizes(map[]) == map[];
    for i := 0 to |events|
      invariant forall f :: Gathered(events, GroupsOf(fields, f), f, i, 0)
    {
      var e := events[i];
      for k := 0 to |e.keys|
        invariant forall f :: Gathered(events, GroupsOf(fields, f), f, i, k)
      {
        var key := e.keys[k];
        forall f { KeyGathered(events, GroupsOf(fields, f), f, i, k); }
        if key in e.scalars {
          fields := fields[key := Pushed(GroupsOf(fields, key), e.scalars[key], i)];
        }
      }
    }
  }

  method TotalOf(groups: Groups) returns (total: nat)
    ensures total == Total(groups)
  {
    total := 0;
    var rest := Sizes(groups);
    while rest != map[]
      invariant total + FieldCounts.Sum(rest) == Total(groups)
      decreases |rest|
    {
      var v :| v in rest;
      FieldCounts.SumPick(rest, v);
      total := total + rest[v];
      rest := rest - {v};
    }
  }

  /** Fields listed as often as there are exemplars, with the exemplars of each value. */
  method ScalarPartitions(events: seq<Exemplar>) returns (fields: map<string, Groups>)
    ensures forall f | f in fields :: Gathered(events, fields[f], f, |events|, 0)
    ensures forall f :: f in fields ==> Listings(events, f, |events|, 0) == |events|
    ensures forall f :: f !in fields ==> events == [] || Listings(events, f, |events|, 0) != |events|
  {
    var all := GatherScalars(events);
    var todo := all.Keys;
    fields := map[];
    while todo != {}
      invariant todo <= all.Keys
      invariant forall f :: f in fields <==> f in all && f !in todo && Total(all[f]) == |events|
      invariant forall f | f in fields :: fields[f] == all[f]
    {
      var f :| f in todo;
      var total := TotalOf(all[f]);
      if total == |events| {
        fields := fields[f := all[f]];
      }
      todo := todo - {f};
    }
    assert Sizes(map[]) == map[] && Total(map[]) == 0;
    forall f
      ensures if f in all then Gathered(events, all[f], f, |events|, 0) else Listings(events, f, |events|, 0) == 0
    {
      assert Gathered(events, GroupsOf(all, f), f, |events|, 0);
    }
  }

  // ----- When the groups partition the exemplars -----

  predicate InSomeGroup(groups: Groups, i: nat) {
    exists v | v in groups :: i in groups[v]
  }

  /** Every exemplar is in exactly one group, and there once. */
  ghost predicate Partition(groups: Groups, n: nat) {
    && (forall v | v in groups :: StrictlyAscending(groups[v]) && forall i: nat | i in groups[v] :: i < n)
    && (forall i: nat :: i < n ==> InSomeGroup(groups, i))
    && (forall v, w, i: nat | v in groups && w in groups && i in groups[v] && i in groups[w] :: v == w)
  }

  /** No exemplar lists the field twice. */
  ghost predicate OnceEach(events: seq<Exemplar>, field: string) {
    forall i, j, k | 0 <= i < |events| && 0 <= j < k < |events[i].keys| && Lists(events[i], k, field) :: !Lists(events[i], j, field)
  }

  ghost predicate HasListing(events: seq<Exemplar>, field: string, x: nat, i: nat, k: nat)
    requires Place(events, i, k)
  {
    x < |events| && exists j | 0 <= j < (if x < i then |events[x].keys| else if x == i then k else 0) :: Lists(events[x], j, field)
  }

  lemma {:induction false} GroupMembers(events: seq<Exemplar>, field: string, value: string, i: nat, k: nat, x: nat)
    requires Place(events, i, k)
    ensures x in Group(events, field, value, i, k)
            <==> HasListing(events, field, x, i, k) && events[x].scalars[field] == value
    decreases i, k
  {
    if k > 0 {
      GroupMembers(events, field, value, i, k - 1, x);
    } else if i > 0 {
      GroupMembers(events, field, value, i - 1, |events[i - 1].keys|, x);
    }
  }

  lemma {:induction false} GroupAscends(events: seq<Exemplar>, field: string, value: string, i: nat, k: nat)
    requires Place(events, i, k) && OnceEach(events, field)
    ensures StrictlyAscending(Group(events, field, value, i, k))
    decreases i, k
  {
    if k > 0 {
      var before := Group(events, field, value, i, k - 1);
      GroupAscends(events, field, value, i, k - 1);
      if Lists(events[i], k - 1, field) {
        forall y | y in before ensures y < i {
          GroupMembers(events, field, value, i, k - 1, y);
        }
        ExtendAscending(before, i);
      }
    } else if i > 0 {
      GroupAscends(events, field, value, i - 1, |events[i - 1].keys|);
    }
  }

  /** The exemplars up to a place that could list the field, the last one only if it does. */
  function Bound(events: seq<Exemplar>, field: string, i: nat, k: nat): nat
    requires Place(events, i, k)
  {
    i + (if exists j | 0 <= j < k :: Lists(events[i], j, field) then 1 else 0)
  }

  /** Without double listings there is at most one listing per exemplar, and fewer if one has none. */
  lemma {:induction false} ListingsBound(events: seq<Exemplar>, field: string, i: nat, k: nat, x: nat)
    requires Place(events, i, k) && OnceEach(events, field)
    ensures Listings(events, field, i, k) <= Bound(events, field, i, k)
    ensures x < i && !HasListing(events, field, x, |events|, 0) ==> Listings(events, field, i, k) < Bound(events, field, i, k)
    decreases i, k
  {
    if k > 0 {
      ListingsBound(events, field, i, k - 1, x);
    } else if i > 0 {
      ListingsBound(events, field, i - 1, |events[i - 1].keys|, x);
    }
  }

  /** With a listing in every exemplar there is at least one each, and one more if some exemplar has two. */
  lemma {:induction false} ListingsAtLeast(events: seq<Exemplar>, field: string, i: nat, k: nat, x: nat, a: nat, b: nat)
    requires Place(events, i, k) && x < |events| && a < b < |events[x].keys|
    requires Lists(events[x], a, field) && Lists(events[x], b, field)
    requires forall y: nat | y < |events| :: HasListing(events, field, y, |events|, 0)
    ensures Listings(events, field, i, k) >= Bound(events, field, i, k) + if x < i || (x == i && b < k) then 1 else 0
    decreases i, k
  {
    if k > 0 {
      ListingsAtLeast(events, field, i, k - 1, x, a, b);
    } else if i > 0 {
      ListingsAtLeast(events, field, i - 1, |events[i - 1].keys|, x, a, b);
      assert HasListing(events, field, i - 1, |events|, 0);
    }
  }

  predicate AllInGroups(groups: Groups, n: nat) {
    forall i: nat :: i < n ==> InSomeGroup(groups, i)
  }

  lemma InGroupIffListed(events: seq<Exemplar>, groups: Groups, field: string, x: nat)
    requires Gathered(events, groups, field, |events|, 0) && x < |events|
    ensures InSomeGroup(groups, x) <==> HasListing(events, field, x, |events|, 0)
  {
    if HasListing(events, field, x, |events|, 0) {
      var value := events[x].scalars[field];
      GroupMembers(events, field, value, |events|, 0, x);
      assert At(groups, value) == Group(events, field, value, |events|, 0);
    }
    if InSomeGroup(groups, x) {
      var v :| v in groups && x in groups[v];
      assert At(groups, v) == Group(events, field, v, |events|, 0);
      GroupMembers(events, field, v, |events|, 0, x);
    }
  }

  /**
    The groups of a retained field partition the exemplars exactly when none lists the field twice;
    if one does, another exemplar is in no group at all.
   */
  lemma RetainedPartition(events: seq<Exemplar>, groups: Groups, field: string)
    requires Gathered(events, groups, field, |events|, 0) && Listings(events, field, |events|, 0) == |events|
    ensures Partition(groups, |events|) <==> OnceEach(events, field)
    ensures AllInGroups(groups, |events|) <==> OnceEach(events, field)
  {
    var n := |events|;
    forall x: nat | x < n { InGroupIffListed(events, groups, field, x); }
    if OnceEach(events, field) {
      MembersOnce(events, groups, field);
      forall i: nat | i < n ensures InSomeGroup(groups, i) {
        ListingsBound(events, field, n, 0, i);
      }
    } else {
      var x, a, b :| 0 <= x < n && 0 <= a < b < |events[x].keys| && Lists(events[x], b, field) && Lists(events[x], a, field);
      if AllInGroups(groups, n) {
        forall y: nat | y < n ensures HasListing(events, field, y, n, 0) { assert InSomeGroup(groups, y); }
        ListingsAtLeast(events, field, n, 0, x, a, b);
        assert false;
      }
    }
  }

  predicate HasValue(events: seq<Exemplar>, field: string, v: string, i: nat) {
    i < |events| && field in events[i].scalars && events[i].scalars[field] == v
  }

  lemma MembersOnce(events: seq<Exemplar>, groups: Groups, field: string)
    requires Gathered(events, groups, field, |events|, 0) && OnceEach(events, field)
    ensures forall v | v in groups :: StrictlyAscending(groups[v])
    ensures forall v | v in groups :: forall i: nat | i in groups[v] :: HasValue(events, field, v, i)
  {
    forall v | v in groups
      ensures StrictlyAscending(groups[v])
      ensures forall i: nat | i in groups[v] :: HasValue(events, field, v, i)
    {
      assert At(groups, v) == groups[v];
      GroupAscends(events, field, v, |events|, 0);
      forall i: nat | i in groups[v] ensures HasValue(events, field, v, i) {
        GroupMembers(events, field, v, |events|, 0, i);
      }
    }
  }

  /**
    Three exemplars on which a rule over `u` fires; the first spells `a.b` both as a flat key and as
    a nested one, the last lacks it.
   */
  function DoubledExemplars(): seq<Exemplar> {
    [Exemplar(["a.b", "a.b", "u"], map["a.b" := "x", "u" := "k"]),
     Exemplar(["a.b", "u"], map["a.b" := "y", "u" := "k"]),
     Exemplar(["u"], map["u" := "k"])]
  }

  /** The double listing keeps `a.b`, with the first exemplar twice in a group and the last in none. */
  lemma DoubleListingRetained(groups: Groups)
    requires Gathered(DoubledExemplars(), groups, "a.b", 3, 0)
    ensures Listings(DoubledExemplars(), "a.b", 3, 0) == 3 && groups == map["x" := [0, 0], "y" := [1]]
  {
    var events := DoubledExemplars();
    ListedOver(events, "a.b");
    forall v ensures At(groups, v) == if v == "x" then [0, 0] else if v == "y" then [1] else [] {
      GroupOver(events, "a.b", v);
    }
    SameGroups(groups, map["x" := [0, 0], "y" := [1]]);
  }

  lemma SingleListingRetained(groups: Groups)
    requires Gathered(DoubledExemplars(), groups, "u", 3, 0)
    ensures Listings(DoubledExemplars(), "u", 3, 0) == 3 && groups == map["k" := [0, 1, 2]]
  {
    var events := DoubledExemplars();
    ListedOver(events, "u");
    forall v ensures At(groups, v) == if v == "k" then [0, 1, 2] else [] {
      GroupOver(events, "u", v);
    }
    SameGroups(groups, map["k" := [0, 1, 2]]);
  }

  lemma SameGroups(a: Groups, b: Groups)
    requires forall v :: At(a, v) == At(b, v)
    requires (forall v | v in a :: a[v] != []) && (forall v | v in b :: b[v] != [])
    ensures a == b
  {
    forall v ensures v in a <==> v in b { assert At(a, v) == At(b, v); }
    forall v | v in a ensures a[v] == b[v] { assert At(a, v) == At(b, v); }
  }

  lemma ListedOver(events: seq<Exemplar>, field: string)
    requires events == DoubledExemplars() && field in {"a.b", "u"}
    ensures Listings(events, field, 3, 0) == 3
  {
    assert Listings(events, field, 1, 0) == Listings(events, field, 0, 3) == if field == "u" then 1 else 2;
    assert Listings(events, field, 2, 0) == Listings(events, field, 1, 2) == if field == "u" then 2 else 3;
  }

  lemma GroupOver(events: seq<Exemplar>, field: string, v: string)
    requires events == DoubledExemplars() && field in {"a.b", "u"}
    ensures Group(events, field, v, 3, 0)
            == if field == "u" then (if v == "k" then [0, 1, 2] else [])
               else if v == "x" then [0, 0] else if v == "y" then [1] else []
  {
    FirstGroup(events, field, v);
    assert Group(events, field, v, 2, 0) == Group(events, field, v, 1, 2)
        == if field == "u" then (if v == "k" then [0, 1] else []) else if v == "x" then [0, 0] else if v == "y" then [1] else [];
    assert Group(events, field, v, 3, 0) == Group(events, field, v, 2, 1);
  }

  lemma FirstGroup(events: seq<Exemplar>, field: string, v: string)
    requires events == DoubledExemplars() && field in {"a.b", "u"}
    ensures Group(events, field, v, 1, 0)
            == if field == "u" then (if v == "k" then [0] else []) else if v == "x" then [0, 0] else []
  {
    assert Group(events, field, v, 0, 0) == [];
    assert Group(events, field, v, 0, 1) == if field == "a.b" && v == "x" then [0] else [];
    assert Group(events, field, v, 0, 2) == if field == "a.b" && v == "x" then [0, 0] else [];
    assert Group(events, field, v, 1, 0) == Group(events, field, v, 0, 3);
  }
}
