/** Counting field names under a cap (`crates/rsigma-eval/src/field_observer.rs`). */
module FieldCounts {

  type Counts = map<string, nat>

  ghost function Sum(m: Counts): nat {
    if m == map[] then 0
    else
      var k :| k in m;
      m[k] + Sum(m - {k})
  }

  lemma {:induction false} SumPick(m: Counts, k: string)
    requires k in m
    ensures Sum(m) == m[k] + Sum(m - {k})
    decreases |m|
  {
    var p :| p in m && Sum(m) == m[p] + Sum(m - {p});
    if p != k {
      SumPick(m - {p}, k);
      assert m - {p} - {k} == m - {k} - {p};
      SumPick(m - {k}, p);
    }
  }

  lemma SumSet(m: Counts, k: string, v: nat)
    ensures Sum(m[k := v]) == v + Sum(m - {k})
  {
    SumPick(m[k := v], k);
    assert m[k := v] - {k} == m - {k};
  }

  /** One key of an event: count it, start tracking it, or drop it at capacity. */
  function CountKey(counts: Counts, cap: nat, key: string): Counts {
    if key in counts then counts[key := counts[key] + 1]
    else if |counts| < cap then counts[key := 1]
    else counts
  }

  predicate Drops(counts: Counts, cap: nat, key: string) {
    key !in counts && |counts| >= cap
  }

  /**
    What the counters know of the keys seen since the last reset: a tracked key has its exact number
    of occurrences, and a key is untracked only once the table is full.
   */
  ghost predicate Faithful(counts: Counts, cap: nat, seen: multiset<string>) {
    && |counts| <= cap
    && (forall k | k in counts :: 0 < counts[k] == seen[k])
    && (forall k | k in seen :: k !in counts ==> |counts| == cap)
  }

  lemma KeyCounted(counts: Counts, cap: nat, seen: multiset<string>, key: string)
    requires Faithful(counts, cap, seen)
    ensures Faithful(CountKey(counts, cap, key), cap, seen + multiset{key})
    ensures Sum(CountKey(counts, cap, key)) + (if Drops(counts, cap, key) then 1 else 0) == Sum(counts) + 1
  {
    if key in counts {
      SumPick(counts, key);
      SumSet(counts, key, counts[key] + 1);
    } else if |counts| < cap {
      SumSet(counts, key, 1);
      assert counts - {key} == counts;
    }
  }
}
