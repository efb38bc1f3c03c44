/** The observer's operations, one at a time (`crates/rsigma-eval/src/field_observer.rs`). */
module FieldObservers {
  import opened FieldCounts

  datatype Entry = Entry(field: string, count: nat)

  datatype RuleField = RuleField(name: string, origin: string)

  // ----- The order of snapshot entries -----

  predicate Less(a: string, b: string) {
    b != [] && (a == [] || a[0] < b[0] || (a[0] == b[0] && Less(a[1..], b[1..])))
  }

  lemma {:induction false} LessTotal(a: string, b: string)
    ensures a == b || Less(a, b) || Less(b, a)
  {
    if a != [] && b != [] && a[0] == b[0] {
      LessTotal(a[1..], b[1..]);
      assert a == [a[0]] + a[1..] && b == [b[0]] + b[1..];
    }
  }

  lemma {:induction false} LessTransitive(a: string, b: string, c: string)
    requires Less(a, b) && Less(b, c)
    ensures Less(a, c)
  {
    if a != [] && a[0] == b[0] == c[0] { LessTransitive(a[1..], b[1..], c[1..]); }
  }

  /** Higher counts first, names breaking ties. */
  predicate Precedes(a: Entry, b: Entry) {
    a.count > b.count || (a.count == b.count && Less(a.field, b.field))
  }

  predicate Ordered(s: seq<Entry>) {
    forall i, j | 0 <= i < j < |s| :: Precedes(s[i], s[j])
  }

  lemma PrecedesTransitive(a: Entry, b: Entry, c: Entry)
    requires Precedes(a, b) && Precedes(b, c)
    ensures Precedes(a, c)
  {
    if a.count == b.count == c.count { LessTransitive(a.field, b.field, c.field); }
  }

  function InsertEntry(s: seq<Entry>, e: Entry): (r: seq<Entry>)
    requires Ordered(s) && forall x | x in s :: x.field != e.field
    ensures Ordered(r) && |r| == |s| + 1
    ensures forall x :: x in r <==> x in s || x == e
  {
    if s == [] then [e]
    else
      var init, last := s[..|s| - 1], s[|s| - 1];
      assert s == init + [last];
      if Precedes(last, e) then
        BeforeAll(s, e);
        s + [e]
      else
        LessTotal(e.field, last.field);
        var before := InsertEntry(init, e);
        assert forall x | x in init :: Precedes(x, last);
        assert forall x | x in before :: Precedes(x, last);
        before + [last]
  }

  lemma BeforeAll(s: seq<Entry>, e: Entry)
    requires Ordered(s) && s != [] && Precedes(s[|s| - 1], e)
    ensures forall i | 0 <= i < |s| :: Precedes(s[i], e)
  {
    forall i | 0 <= i < |s| - 1 ensures Precedes(s[i], e) {
      PrecedesTransitive(s[i], s[|s| - 1], e);
    }
  }

  datatype Observation = Observation(
    entries: seq<Entry>,
    events: nat,
    overflow: nat,
    lifeEvents: nat,
    lifeOverflow: nat)

  /** The first `n` keys of an event counted one by one. */
  function CountKeys(counts: Counts, cap: nat, keys: seq<string>, n: nat): Counts
    requires n <= |keys|
  {
    if n == 0 then counts else CountKey(CountKeys(counts, cap, keys, n - 1), cap, keys[n - 1])
  }

  function DroppedKeys(counts: Counts, cap: nat, keys: seq<string>, n: nat): nat
    requires n <= |keys|
  {
    if n == 0 then 0
    else DroppedKeys(counts, cap, keys, n - 1)
         + (if Drops(CountKeys(counts, cap, keys, n - 1), cap, keys[n - 1]) then 1 else 0)
  }

  ghost function SeenAfter(seen: multiset<string>, keys: seq<string>, n: nat): multiset<string>
    requires n <= |keys|
  {
    if n == 0 then seen else SeenAfter(seen, keys, n - 1) + multiset{keys[n - 1]}
  }

  lemma {:induction false} SeenAfterIs(seen: multiset<string>, keys: seq<string>, n: nat)
    requires n <= |keys|
    ensures SeenAfter(seen, keys, n) == seen + multiset(keys[..n])
  {
    if n > 0 {
      SeenAfterIs(seen, keys, n - 1);
      assert keys[..n] == keys[..n - 1] + [keys[n - 1]];
    }
  }

  /** Counting an event's keys keeps the exact occurrences and loses no key. */
  lemma {:induction false} KeysCounted(counts: Counts, cap: nat, seen: multiset<string>, keys: seq<string>, n: nat)
    requires Faithful(counts, cap, seen) && n <= |keys|
    ensures Faithful(CountKeys(counts, cap, keys, n), cap, SeenAfter(seen, keys, n))
    ensures Sum(CountKeys(counts, cap, keys, n)) + DroppedKeys(counts, cap, keys, n) == Sum(counts) + n
  {
    if n > 0 {
      KeysCounted(counts, cap, seen, keys, n - 1);
      var before := CountKeys(counts, cap, keys, n - 1);
      KeyCounted(before, cap, SeenAfter(seen, keys, n - 1), keys[n - 1]);
      assert CountKeys(counts, cap, keys, n) == CountKey(before, cap, keys[n - 1]);
      assert SeenAfter(seen, keys, n) == SeenAfter(seen, keys, n - 1) + multiset{keys[n - 1]};
    }
  }

  lemma KeysObserved(counts: Counts, cap: nat, seen: multiset<string>, keys: seq<string>)
    requires Faithful(counts, cap, seen)
    ensures Faithful(CountKeys(counts, cap, keys, |keys|), cap, seen + multiset(keys))
    ensures Sum(CountKeys(counts, cap, keys, |keys|)) + DroppedKeys(counts, cap, keys, |keys|) == Sum(counts) + |keys|
  {
    KeysCounted(counts, cap, seen, keys, |keys|);
    SeenAfterIs(seen, keys, |keys|);
    assert keys[..|keys|] == keys;
  }

  class FieldObserver {
    const maxKeys: nat
    var counts: Counts
    var overflow: nat
    var events: nat
    var lifeEvents: nat
    var lifeOverflow: nat
    /** Keys observed since the last reset. */
    ghost var seen: multiset<string>

    ghost predicate Valid()
      reads this
    {
      && Faithful(counts, maxKeys, seen)
      && Sum(counts) + overflow == |seen|
      && events <= lifeEvents && overflow <= lifeOverflow
    }

    constructor (maxKeys: nat)
      ensures Valid() && this.maxKeys == maxKeys && seen == multiset{} && events == 0 && lifeEvents == 0 && lifeOverflow == 0
    {
      this.maxKeys := maxKeys;
      counts, overflow, events, lifeEvents, lifeOverflow := map[], 0, 0, 0, 0;
      seen := multiset{};
    }

    /** Walks the keys of an event; keys that find the table full are dropped. */
    method CountAll(keys: seq<string>) returns (dropped: nat)
      modifies this`counts
      ensures counts == CountKeys(old(counts), maxKeys, keys, |keys|)
      ensures dropped == DroppedKeys(old(counts), maxKeys, keys, |keys|)
    {
      dropped := 0;
      for i := 0 to |keys|
        invariant counts == CountKeys(old(counts), maxKeys, keys, i)
        invariant dropped == DroppedKeys(old(counts), maxKeys, keys, i)
      {
        if keys[i] in counts {
          counts := counts[keys[i] := counts[keys[i]] + 1];
        } else if |counts| < maxKeys {
          counts := counts[keys[i] := 1];
        } else {
          dropped := dropped + 1;
        }
      }
    }

    method Observe(keys: seq<string>)
      requires Valid()
      modifies this
      ensures Valid() && seen == old(seen) + multiset(keys)
      ensures counts == CountKeys(old(counts), maxKeys, keys, |keys|)
      ensures events == old(events) + 1 && lifeEvents == old(lifeEvents) + 1
      ensures overflow - old(overflow) == lifeOverflow - old(lifeOverflow) == DroppedKeys(old(counts), maxKeys, keys, |keys|)
    {
      KeysObserved(counts, maxKeys, seen, keys);
      seen := seen + multiset(keys);
      if keys == [] {
        events := events + 1;
        lifeEvents := lifeEvents + 1;
        return;
      }
      var dropped := CountAll(keys);
      if dropped > 0 {
        overflow := overflow + dropped;
        lifeOverflow := lifeOverflow + dropped;
      }
      events := events + 1;
      lifeEvents := lifeEvents + 1;
    }

    /** The counters at this moment, entries by descending count and then by name. */
    method Snapshot() returns (o: Observation)
      requires Valid()
      ensures Ordered(o.entries) && |o.entries| == |counts|
      ensures forall x :: x in o.entries <==> x.field in counts && counts[x.field] == x.count
      ensures o.events == events && o.overflow == overflow && o.lifeEvents == lifeEvents && o.lifeOverflow == lifeOverflow
      ensures forall x | x in o.entries :: x.count == seen[x.field]
      ensures Sum(counts) + o.overflow == |seen|
    {
      var entries: seq<Entry> := [];
      var todo := counts.Keys;
      while todo != {}
        invariant todo <= counts.Keys && Ordered(entries)
        invariant |entries| + |todo| == |counts.Keys|
        invariant forall x :: x in entries <==> x.field in counts && x.field !in todo && counts[x.field] == x.count
      {
        var k :| k in todo;
        entries := InsertEntry(entries, Entry(k, counts[k]));
        todo := todo - {k};
      }
      o := Observation(entries, events, overflow, lifeEvents, lifeOverflow);
    }

    /** Clears what was counted since the last reset; lifetime counters stay. */
    method Reset() returns (keys: nat, previous: nat)
      requires Valid()
      modifies this
      ensures Valid() && seen == multiset{} && counts == map[] && overflow == 0 && events == 0
      ensures lifeEvents == old(lifeEvents) && lifeOverflow == old(lifeOverflow)
      ensures keys == |old(counts)| && previous == old(events)
    {
      keys := |counts|;
      counts := map[];
      previous := events;
      events := 0;
      overflow := 0;
      seen := multiset{};
    }
  }

  // ----- Coverage -----

  /** Names among the first `n` entries. */
  function NamesOf(entries: seq<Entry>, n: nat): set<string>
    requires n <= |entries|
  {
    if n == 0 then {} else NamesOf(entries, n - 1) + {entries[n - 1].field}
  }

  function RuleNames(fields: seq<RuleField>, n: nat): set<string>
    requires n <= |fields|
  {
    if n == 0 then {} else RuleNames(fields, n - 1) + {fields[n - 1].name}
  }

  /** Entries of the first `n` that no rule refers to. */
  function UnknownIn(entries: seq<Entry>, names: set<string>, n: nat): seq<Entry>
    requires n <= |entries|
  {
    if n == 0 then []
    else if entries[n - 1].field in names then UnknownIn(entries, names, n - 1)
    else UnknownIn(entries, names, n - 1) + [entries[n - 1]]
  }

  function MissingIn(fields: seq<RuleField>, seen: set<string>, n: nat): seq<RuleField>
    requires n <= |fields|
  {
    if n == 0 then []
    else if fields[n - 1].name in seen then MissingIn(fields, seen, n - 1)
    else MissingIn(fields, seen, n - 1) + [fields[n - 1]]
  }

  /** The unknown entries are those of the first `n` whose field no rule names; the missing ones likewise. */
  lemma {:induction false} UnknownAre(entries: seq<Entry>, names: set<string>, n: nat, e: Entry)
    requires n <= |entries|
    ensures e in UnknownIn(entries, names, n) <==> e in entries[..n] && e.field !in names
  {
    if n > 0 {
      UnknownAre(entries, names, n - 1, e);
      assert entries[..n] == entries[..n - 1] + [entries[n - 1]];
    }
  }

  lemma {:induction false} MissingAre(fields: seq<RuleField>, seen: set<string>, n: nat, f: RuleField)
    requires n <= |fields|
    ensures f in MissingIn(fields, seen, n) <==> f in fields[..n] && f.name !in seen
  {
    if n > 0 {
      MissingAre(fields, seen, n - 1, f);
      assert fields[..n] == fields[..n - 1] + [fields[n - 1]];
    }
  }

  lemma {:induction false} NamesAre(entries: seq<Entry>, n: nat, name: string)
    requires n <= |entries|
    ensures name in NamesOf(entries, n) <==> exists i | 0 <= i < n :: entries[i].field == name
  {
    if n > 0 { NamesAre(entries, n - 1, name); }
  }

  lemma {:induction false} RuleNamesAre(fields: seq<RuleField>, n: nat, name: string)
    requires n <= |fields|
    ensures name in RuleNames(fields, n) <==> exists i | 0 <= i < n :: fields[i].name == name
  {
    if n > 0 { RuleNamesAre(fields, n - 1, name); }
  }

  /** `part` is `all` without some of its elements. */
  predicate InOrder<T(==)>(part: seq<T>, all: seq<T>) {
    part == []
    || (all != []
        && ((part[|part| - 1] == all[|all| - 1] && InOrder(part[..|part| - 1], all[..|all| - 1]))
            || InOrder(part, all[..|all| - 1])))
  }

  lemma InOrderStep<T>(part: seq<T>, all: seq<T>, n: nat)
    requires n < |all| && InOrder(part, all[..n])
    ensures InOrder(part, all[..n + 1]) && InOrder(part + [all[n]], all[..n + 1])
  {
    assert all[..n + 1][..n] == all[..n] && all[..n + 1][n] == all[n];
    assert (part + [all[n]])[..|part|] == part;
  }

  lemma {:induction false} MissingInOrder(fields: seq<RuleField>, seen: set<string>, n: nat)
    requires n <= |fields|
    ensures InOrder(MissingIn(fields, seen, n), fields[..n])
  {
    if n > 0 {
      MissingInOrder(fields, seen, n - 1);
      InOrderStep(MissingIn(fields, seen, n - 1), fields, n - 1);
    }
  }

  lemma {:induction false} UnknownInOrder(entries: seq<Entry>, names: set<string>, n: nat)
    requires n <= |entries|
    ensures InOrder(UnknownIn(entries, names, n), entries[..n])
  {
    if n > 0 {
      UnknownInOrder(entries, names, n - 1);
      InOrderStep(UnknownIn(entries, names, n - 1), entries, n - 1);
    }
  }

  predicate Observed(entries: seq<Entry>, name: string) {
    exists i | 0 <= i < |entries| :: entries[i].field == name
  }

  predicate Named(fields: seq<RuleField>, name: string) {
    exists i | 0 <= i < |fields| :: fields[i].name == name
  }

  /** The missing fields are exactly those no entry observed, in their order. */
  lemma MissingExact(entries: seq<Entry>, fields: seq<RuleField>, f: RuleField)
    ensures var missing := MissingIn(fields, NamesOf(entries, |entries|), |fields|);
            InOrder(missing, fields) && (f in missing <==> f in fields && !Observed(entries, f.name))
  {
    assert fields[..|fields|] == fields;
    MissingInOrder(fields, NamesOf(entries, |entries|), |fields|);
    MissingAre(fields, NamesOf(entries, |entries|), |fields|, f);
    NamesAre(entries, |entries|, f.name);
  }

  /** The unknown entries are exactly those of fields no rule names, in their order. */
  lemma UnknownExact(entries: seq<Entry>, fields: seq<RuleField>, e: Entry)
    ensures var unknown := UnknownIn(entries, RuleNames(fields, |fields|), |entries|);
            InOrder(unknown, entries) && (e in unknown <==> e in entries && !Named(fields, e.field))
  {
    assert entries[..|entries|] == entries;
    UnknownInOrder(entries, RuleNames(fields, |fields|), |entries|);
    UnknownAre(entries, RuleNames(fields, |fields|), |entries|, e);
    RuleNamesAre(fields, |fields|, e.field);
  }

  predicate DistinctEntries(entries: seq<Entry>) {
    forall i, j | 0 <= i < j < |entries| :: entries[i].field != entries[j].field
  }

  predicate DistinctFields(fields: seq<RuleField>) {
    forall i, j | 0 <= i < j < |fields| :: fields[i].name != fields[j].name
  }

  lemma {:induction false} NewName(entries: seq<Entry>, n: nat, i: nat)
    requires DistinctEntries(entries) && n <= i < |entries|
    ensures entries[i].field !in NamesOf(entries, n)
  {
    if n > 0 { NewName(entries, n - 1, i); }
  }

  lemma {:induction false} NewField(fields: seq<RuleField>, n: nat, i: nat)
    requires DistinctFields(fields) && n <= i < |fields|
    ensures fields[i].name !in RuleNames(fields, n)
  {
    if n > 0 { NewField(fields, n - 1, i); }
  }

  /** One more element of a set, counted if it lies in another set. */
  lemma CountShared(a: set<string>, b: set<string>, x: string)
    requires x !in a
    ensures |(a + {x}) * b| == |a * b| + (if x in b then 1 else 0)
  {
    assert (a + {x}) * b == if x in b then a * b + {x} else a * b;
  }

  lemma {:induction false} UnknownCounted(entries: seq<Entry>, names: set<string>, n: nat)
    requires n <= |entries| && DistinctEntries(entries)
    ensures |UnknownIn(entries, names, n)| + |NamesOf(entries, n) * names| == n
  {
    if n > 0 {
      UnknownCounted(entries, names, n - 1);
      NewName(entries, n - 1, n - 1);
      CountShared(NamesOf(entries, n - 1), names, entries[n - 1].field);
    }
  }

  lemma {:induction false} MissingCounted(fields: seq<RuleField>, seen: set<string>, n: nat)
    requires n <= |fields| && DistinctFields(fields)
    ensures |MissingIn(fields, seen, n)| + |RuleNames(fields, n) * seen| == n
  {
    if n > 0 {
      MissingCounted(fields, seen, n - 1);
      NewField(fields, n - 1, n - 1);
      CountShared(RuleNames(fields, n - 1), seen, fields[n - 1].name);
    }
  }

  /** Partitions the observed fields by the rules, and the rules' fields by the observations. */
  method Cover(entries: seq<Entry>, fields: seq<RuleField>)
    returns (unknown: seq<Entry>, intersection: nat, missing: seq<RuleField>)
    requires DistinctEntries(entries) && DistinctFields(fields)
    ensures unknown == UnknownIn(entries, RuleNames(fields, |fields|), |entries|)
    ensures missing == MissingIn(fields, NamesOf(entries, |entries|), |fields|)
    ensures InOrder(unknown, entries) && InOrder(missing, fields)
    ensures forall e :: e in unknown <==> e in entries && !Named(fields, e.field)
    ensures forall f :: f in missing <==> f in fields && !Observed(entries, f.name)
    ensures intersection + |unknown| == |entries|
    ensures intersection + |missing| == |fields|
  {
    var rules := RuleNames(fields, |fields|);
    var names: set<string> := {};
    unknown, intersection, missing := [], 0, [];
    for i := 0 to |entries|
      invariant names == NamesOf(entries, i)
      invariant unknown == UnknownIn(entries, rules, i)
      invariant intersection + |unknown| == i
    {
      names := names + {entries[i].field};
      if entries[i].field in rules {
        intersection := intersection + 1;
      } else {
        unknown := unknown + [entries[i]];
      }
    }
    for i := 0 to |fields|
      invariant missing == MissingIn(fields, names, i)
    {
      if fields[i].name !in names {
        missing := missing + [fields[i]];
      }
    }
    assert InOrder(unknown, entries) && InOrder(missing, fields) by {
      UnknownInOrder(entries, rules, |entries|);
      MissingInOrder(fields, names, |fields|);
      assert entries[..|entries|] == entries && fields[..|fields|] == fields;
    }
    forall e ensures e in unknown <==> e in entries && !Named(fields, e.field) { UnknownExact(entries, fields, e); }
    forall f ensures f in missing <==> f in fields && !Observed(entries, f.name) { MissingExact(entries, fields, f); }
    UnknownCounted(entries, rules, |entries|);
    MissingCounted(fields, names, |fields|);
    assert names * rules == rules * names;
  }
}
