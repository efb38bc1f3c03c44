/**
  When the index is rebuilt while rules are added one at a time
  (`crates/rsigma-eval/src/candidate_index.rs`, `crates/rsigma-eval/src/engine/mod.rs`).
 */
module IndexRebuild {
  import opened Results
  import opened Evaluation
  import opened IndexSpec
  import opened CandidateIndexes
  import CandidateSets
  import Folding
  import Witnesses

  const USIZE_MAX := 0xFFFF_FFFF_FFFF_FFFF
  const REBUILD_FLOOR := 64

  /** The doubling watermark; the product saturates at the machine word. */
  function Threshold(baseline: nat): nat {
    var doubled := if 2 * baseline <= USIZE_MAX then 2 * baseline else USIZE_MAX;
    if doubled < REBUILD_FLOOR then REBUILD_FLOOR else doubled
  }

  /** The watermark without the machine word: twice the baseline, and at least 64. */
  function Watermark(baseline: nat): (r: nat)
    ensures r >= 64 && r >= 2 * baseline && (r == 64 || r == 2 * baseline)
  {
    if baseline <= 32 then 64 else 2 * baseline
  }

  predicate ShouldRebuild(baseline: nat, count: nat) {
    count >= Threshold(baseline) && count > baseline
  }

  /** As long as the rules fit the machine word, a rebuild is due exactly at the watermark. */
  lemma DueAtWatermark(baseline: nat, count: nat)
    requires count < USIZE_MAX
    ensures ShouldRebuild(baseline, count) <==> count >= 64 && count >= 2 * baseline
  {
  }

  // ----- Cost of a run -----

  /** Rules held, rules at the last build, and rules gone over by all rebuilds so far. */
  datatype Progress = Progress(count: nat, baseline: nat, rebuilt: nat)

  function AddOne(p: Progress): Progress {
    var n := p.count + 1;
    if ShouldRebuild(p.baseline, n) then Progress(n, n, p.rebuilt + n) else p.(count := n)
  }

  function After(start: Progress, appends: nat): Progress {
    if appends == 0 then start else AddOne(After(start, appends - 1))
  }

  /** Rebuilding costs at most two visits per appended rule, whatever was built first. */
  lemma {:induction false} RebuildsAmortize(built: nat, appends: nat)
    requires built + appends < USIZE_MAX
    ensures var p := After(Progress(built, built, 0), appends);
            && p.count == built + appends && built <= p.baseline <= p.count < Watermark(p.baseline)
            && p.rebuilt <= 2 * (p.baseline - built)
  {
    if appends > 0 {
      RebuildsAmortize(built, appends - 1);
    }
  }

  /** From an empty engine, all rebuilds over `n` rules together go over fewer than `2 * n` rules. */
  lemma {:induction false} RebuildsUnderTwice(n: nat)
    requires 0 < n < USIZE_MAX
    ensures After(Progress(0, 0, 0), n).rebuilt < 2 * n
  {
    RebuildsAmortize(0, n);
    if After(Progress(0, 0, 0), n).baseline > 0 {
      StrictAfterFirst(n);
    }
  }

  lemma {:induction false} StrictAfterFirst(n: nat)
    requires n < USIZE_MAX && After(Progress(0, 0, 0), n).baseline > 0
    ensures After(Progress(0, 0, 0), n).rebuilt < 2 * After(Progress(0, 0, 0), n).baseline
  {
    RebuildsAmortize(0, n);
    if n > 0 {
      RebuildsAmortize(0, n - 1);
      if After(Progress(0, 0, 0), n - 1).baseline > 0 { StrictAfterFirst(n - 1); }
    }
  }

  // ----- The engine's rule list and index -----

  class RuleEngine {
    const lower: string -> string
    const library: Library
    var rules: seq<Rule>
    var index: CandidateIndex
    ghost var progress: Progress

    ghost predicate Valid()
      reads this, index
    {
      && index.Valid() && index.lower == lower && index.library == library
      && index.gates == GatesOf(rules, lower)
      && progress.count == |rules| && progress.baseline == index.baseline
      && |rules| < Threshold(index.baseline)
    }

    constructor (lower: string -> string, library: Library)
      ensures Valid() && fresh(index) && rules == [] && progress == Progress(0, 0, 0)
      ensures this.lower == lower && this.library == library
    {
      this.lower, this.library := lower, library;
      rules := [];
      index := new CandidateIndex.Build([], lower, library);
      progress := Progress(0, 0, 0);
    }

    /** Adds a rule, folds it into the index, and rebuilds at the watermark. */
    method AddRule(rule: Rule)
      requires Valid() && |rules| + 1 < USIZE_MAX
      modifies this, index
      ensures Valid() && (index == old(index) || fresh(index))
      ensures rules == old(rules) + [rule]
      ensures progress == AddOne(old(progress))
      ensures index.baseline == if |rules| >= 64 && |rules| >= 2 * old(index.baseline) then |rules| else old(index.baseline)
    {
      index.AppendRule(|rules|, rule);
      rules := rules + [rule];
      assert index.gates == GatesOf(rules, lower);
      progress := AddOne(progress);
      if ShouldRebuild(index.baseline, |rules|) {
        index := new CandidateIndex.Build(rules, lower, library);
      }
    }

    /** Rules waiting for a rebuild stay below the distance to the watermark. */
    lemma PendingBounded()
      requires Valid()
      ensures |index.pending| < Watermark(index.baseline) - index.baseline
    {
      assert forall i | i in index.pending :: index.baseline <= i < |rules|;
      CandidateSets.AscendingInRange(index.pending, index.baseline, |rules|);
    }

    /** An event's candidates are what visiting every field would give, and include every rule that matches it. */
    method Evaluate(e: Event) returns (r: seq<nat>)
      requires Valid() && Folding.IsFold(e.fold)
      ensures CandidateSets.StrictlyAscending(r)
      ensures forall i: nat | i < |rules| && RuleHolds(rules[i], e) && Witnesses.RuleFormed(rules[i])
                              && FieldsProbeable(GateOf(rules[i], lower)) :: i in r
      ensures forall i: nat | i < |rules| && FieldsProbeable(GateOf(rules[i], lower)) ::
                i in r <==> ScanCandidate(index.gates, index.baseline, i, e, library)
    {
      r := index.Candidates(e);
      forall i: nat | i < |rules| && RuleHolds(rules[i], e) && Witnesses.RuleFormed(rules[i])
                      && FieldsProbeable(GateOf(rules[i], lower))
        ensures i in r
      {
        ProbeableFieldsProbed(GateOf(rules[i], lower), e);
        MatchIsCandidate(rules, index.baseline, i, e, lower, library);
      }
      forall i: nat | i < |rules| && FieldsProbeable(GateOf(rules[i], lower))
        ensures i in r <==> ScanCandidate(index.gates, index.baseline, i, e, library)
      {
        SparseIsFull(index.gates, index.baseline, i, e, library);
      }
    }
  }
}
