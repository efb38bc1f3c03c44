/** Ordered rule lists and the deduplicating accumulator of candidate rules. */
module CandidateSets {

  predicate StrictlyAscending(s: seq<nat>) {
    forall i, j | 0 <= i < j < |s| :: s[i] < s[j]
  }

  ghost function SetOf(s: seq<nat>): set<nat> {
    set i | i in s
  }

  // ----- `sort_unstable` followed by `dedup` -----

  function InsertNew(s: seq<nat>, x: nat): (r: seq<nat>)
    requires StrictlyAscending(s)
    ensures StrictlyAscending(r)
    ensures forall y :: y in r <==> y in s || y == x
    ensures |r| == if x in s then |s| else |s| + 1
  {
    if s == [] || s[|s| - 1] < x then s + [x]
    else if s[|s| - 1] == x then s
    else
      var init, last := s[..|s| - 1], s[|s| - 1];
      assert s == init + [last];
      var before := InsertNew(init, x);
      assert forall i | 0 <= i < |before| :: before[i] in before && before[i] < last;
      before + [last]
  }

  function SortDedup(s: seq<nat>): (r: seq<nat>)
    ensures StrictlyAscending(r)
    ensures forall x :: x in r <==> x in s
  {
    if s == [] then []
    else
      assert s == s[..|s| - 1] + [s[|s| - 1]];
      InsertNew(SortDedup(s[..|s| - 1]), s[|s| - 1])
  }

  /** Sorting keeps every copy when there are no duplicates to drop. */
  lemma {:induction false} SortKeepsLength(s: seq<nat>)
    requires forall i, j | 0 <= i < j < |s| :: s[i] != s[j]
    ensures |SortDedup(s)| == |s|
  {
    if s != [] {
      SortKeepsLength(s[..|s| - 1]);
    }
  }

  lemma SplitLast(s: seq<nat>) returns (init: seq<nat>, last: nat)
    requires StrictlyAscending(s) && s != []
    ensures s == init + [last] && StrictlyAscending(init) && last in s && last !in init
    ensures forall y | y in s :: y <= last
    ensures forall y :: y in s <==> y in init || y == last
  {
    init, last := s[..|s| - 1], s[|s| - 1];
  }

  lemma ExtendAscending(s: seq<nat>, x: nat)
    requires StrictlyAscending(s) && forall y | y in s :: y < x
    ensures StrictlyAscending(s + [x])
  {
    assert forall i | 0 <= i < |s| :: s[i] in s;
  }

  function Insert(s: seq<nat>, x: nat): (r: seq<nat>)
    ensures multiset(r) == multiset(s) + multiset{x}
  {
    if s == [] || s[|s| - 1] <= x then s + [x]
    else
      assert s == s[..|s| - 1] + [s[|s| - 1]];
      Insert(s[..|s| - 1], x) + [s[|s| - 1]]
  }

  /** `sort_unstable`, keeping duplicates. */
  function Sort(s: seq<nat>): (r: seq<nat>)
    ensures multiset(r) == multiset(s)
  {
    if s == [] then []
    else
      assert s == s[..|s| - 1] + [s[|s| - 1]];
      Insert(Sort(s[..|s| - 1]), s[|s| - 1])
  }

  lemma SortMembers(s: seq<nat>)
    ensures |Sort(s)| == |s| && forall x :: x in Sort(s) <==> x in s
  {
    forall x ensures x in Sort(s) <==> x in s {
      assert x in Sort(s) <==> x in multiset(Sort(s));
    }
    assert |Sort(s)| == |multiset(Sort(s))|;
  }

  /** An ascending list is determined by its members. */
  lemma {:induction false} AscendingUnique(a: seq<nat>, b: seq<nat>)
    requires StrictlyAscending(a) && StrictlyAscending(b)
    requires forall x :: x in a <==> x in b
    ensures a == b
    decreases |a|
  {
    if a != [] { assert a[0] in b; }
    if b != [] { assert b[0] in a; }
    if a != [] && b != [] {
      var a', x := SplitLast(a);
      var b', y := SplitLast(b);
      assert x in b && y in a;
      AscendingUnique(a', b');
    }
  }

  lemma {:induction false} AscendingSize(s: seq<nat>)
    requires StrictlyAscending(s)
    ensures |SetOf(s)| == |s|
    decreases |s|
  {
    if s != [] {
      var init, last := SplitLast(s);
      AscendingSize(init);
      assert SetOf(s) == SetOf(init) + {last};
    }
  }

  lemma AscendingInRange(s: seq<nat>, lo: nat, hi: nat)
    requires StrictlyAscending(s) && lo <= hi && forall i | i in s :: lo <= i < hi
    ensures |s| <= hi - lo
    decreases |s|
  {
    if s != [] {
      var init, last := SplitLast(s);
      AscendingInRange(init, lo, last);
    }
  }

  /** Sizes add up when a list splits into two others and a set of the rest. */
  lemma SplitSizes(all: seq<nat>, a: seq<nat>, b: seq<nat>, rest: set<nat>)
    requires StrictlyAscending(all) && StrictlyAscending(a) && StrictlyAscending(b)
    requires forall i :: i in all <==> i in a || i in b || i in rest
    requires forall i | i in a :: i !in b && i !in rest
    requires forall i | i in b :: i !in rest
    ensures |all| == |a| + |b| + |rest|
  {
    AscendingSize(all);
    AscendingSize(a);
    AscendingSize(b);
    assert SetOf(a) !! SetOf(b) && (SetOf(a) + SetOf(b)) !! rest;
    assert SetOf(all) == SetOf(a) + SetOf(b) + rest;
  }

  // ----- The accumulator -----

  class CandidateSet {
    const seen: array<bool>
    var out: seq<nat>

    ghost predicate Valid()
      reads this, seen
    {
      && (forall i: nat | i < seen.Length :: seen[i] <==> i in out)
      && (forall i | 0 <= i < |out| :: out[i] < seen.Length)
      && (forall i, j | 0 <= i < j < |out| :: out[i] != out[j])
    }

    constructor (ruleCount: nat)
      ensures Valid() && fresh(seen) && seen.Length == ruleCount && out == []
    {
      seen := new bool[ruleCount](_ => false);
      out := [];
    }

    /** Adds the rules within range that are not in yet, in the order given. */
    method Extend(rules: seq<nat>)
      requires Valid()
      modifies this, seen
      ensures Valid() && old(out) <= out
      ensures forall i: nat :: i in out <==> i in old(out) || (i < seen.Length && i in rules)
    {
      for k := 0 to |rules|
        invariant Valid() && old(out) <= out
        invariant forall i: nat :: i in out <==> i in old(out) || (i < seen.Length && i in rules[..k])
      {
        assert rules[..k + 1] == rules[..k] + [rules[k]];
        if rules[k] < seen.Length && !seen[rules[k]] {
          seen[rules[k]] := true;
          out := out + [rules[k]];
        }
      }
      assert rules[..|rules|] == rules;
    }

    method Finish() returns (r: seq<nat>)
      requires Valid()
      ensures StrictlyAscending(r) && multiset(r) == multiset(out)
    {
      r := SortDedup(out);
      SortedPermutation(out);
    }
  }

  /** Without duplicates, sorting is a permutation. */
  lemma SortedPermutation(s: seq<nat>)
    requires forall i, j | 0 <= i < j < |s| :: s[i] != s[j]
    ensures multiset(SortDedup(s)) == multiset(s)
  {
    var r := SortDedup(s);
    CountsOne(s);
    CountsOne(r);
    forall x ensures multiset(r)[x] == multiset(s)[x] {
      assert x in multiset(r) <==> x in r;
      assert x in multiset(s) <==> x in s;
    }
  }

  lemma {:induction false} CountsOne(s: seq<nat>)
    requires forall i, j | 0 <= i < j < |s| :: s[i] != s[j]
    ensures forall x | x in s :: multiset(s)[x] == 1
  {
    if s != [] {
      var init, last := s[..|s| - 1], s[|s| - 1];
      assert s == init + [last];
      CountsOne(init);
      assert last !in init;
    }
  }
}
