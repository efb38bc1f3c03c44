/** Relaxing a drafted rule until it matches every exemplar (`crates/rsigma-eval/src/rule_draft.rs`). */
module RuleDraft {
  import opened Results

  /** A profiled field: whether the user insists on it, and which exemplars carry it. */
  datatype Profile = Profile(field: string, forced: bool, present: seq<bool>)

  datatype Outcome =
    | Drafted
    | ForcedFieldMismatch(fields: seq<string>, failing: seq<nat>)
    | CannotMatchExemplars(matched: nat, total: nat, floor: nat, failing: seq<nat>)

  /** Whether the rule emitted for a selection, listed in rank order, fires on an exemplar. */
  type Engine = (seq<nat>, nat) -> bool

  /** Exemplars among the first `n` on which the rule does not fire. */
  function Failing(engine: Engine, selected: seq<nat>, n: nat): (r: seq<nat>)
    ensures forall e: nat :: e in r <==> e < n && !engine(selected, e)
    ensures |r| <= n
  {
    if n == 0 then []
    else if engine(selected, n - 1) then Failing(engine, selected, n - 1)
    else Failing(engine, selected, n - 1) + [n - 1]
  }

  predicate Ascending(s: seq<nat>) {
    forall i, j | 0 <= i < j < |s| :: s[i] < s[j]
  }

  lemma AscendingSnoc(s: seq<nat>, x: nat)
    requires Ascending(s) && forall y | y in s :: y < x
    ensures Ascending(s + [x])
  {
    assert forall i | 0 <= i < |s| :: s[i] in s;
  }

  /** They are listed in order, so their number is that of the exemplars missed. */
  lemma {:induction false} FailingAscends(engine: Engine, selected: seq<nat>, n: nat)
    ensures Ascending(Failing(engine, selected, n))
  {
    if n > 0 {
      FailingAscends(engine, selected, n - 1);
      AscendingSnoc(Failing(engine, selected, n - 1), n - 1);
    }
  }

  predicate AbsentIn(p: Profile, failing: seq<nat>) {
    exists e | e in failing :: e < |p.present| && !p.present[e]
  }

  predicate Indexes(profiles: seq<Profile>, selected: seq<nat>) {
    forall j | 0 <= j < |selected| :: selected[j] < |profiles|
  }

  function ForcedCulprits(profiles: seq<Profile>, selected: seq<nat>, failing: seq<nat>): (r: seq<string>)
    requires Indexes(profiles, selected)
    ensures r == [] <==> forall k | k in selected :: !(profiles[k].forced && AbsentIn(profiles[k], failing))
  {
    if selected == [] then []
    else
      var init, last := selected[..|selected| - 1], selected[|selected| - 1];
      assert selected == init + [last];
      ForcedCulprits(profiles, init, failing)
      + (if profiles[last].forced && AbsentIn(profiles[last], failing) then [profiles[last].field] else [])
  }

  /** Last position below `n` of a field that may go; with `failing`, of one absent from a failing exemplar. */
  function LastDroppable(profiles: seq<Profile>, selected: seq<nat>, failing: Option<seq<nat>>, n: nat): (r: Option<nat>)
    requires Indexes(profiles, selected) && n <= |selected|
    ensures r.Some? ==> r.value < n && Droppable(profiles[selected[r.value]], failing)
    ensures r.Some? ==> forall j | r.value < j < n :: !Droppable(profiles[selected[j]], failing)
    ensures r.None? ==> forall j | 0 <= j < n :: !Droppable(profiles[selected[j]], failing)
  {
    if n == 0 then None
    else if Droppable(profiles[selected[n - 1]], failing) then Some(n - 1)
    else LastDroppable(profiles, selected, failing, n - 1)
  }

  predicate Droppable(p: Profile, failing: Option<seq<nat>>) {
    !p.forced && (failing.Some? ==> AbsentIn(p, failing.value))
  }

  /** A culprit if there is one, otherwise the lowest-ranked field that is not forced. */
  function DropPosition(profiles: seq<Profile>, selected: seq<nat>, failing: Option<seq<nat>>): (r: Option<nat>)
    requires Indexes(profiles, selected)
    ensures r.Some? ==> r.value < |selected| && !profiles[selected[r.value]].forced
  {
    var culprit := if failing.Some? then LastDroppable(profiles, selected, failing, |selected|) else None;
    if culprit.Some? then culprit else LastDroppable(profiles, selected, None, |selected|)
  }

  function Without(selected: seq<nat>, position: nat): (r: seq<nat>)
    requires position < |selected|
    ensures |r| == |selected| - 1 && forall k | k in r :: k in selected
    ensures forall k | k in selected :: k in r || k == selected[position]
  {
    assert selected == selected[..position] + [selected[position]] + selected[position + 1..];
    selected[..position] + selected[position + 1..]
  }

  /** What drafting ends with: the outcome and the selection at that point. */
  function Relax(profiles: seq<Profile>, selected: seq<nat>, floor: nat, total: nat, engine: Engine): (Outcome, seq<nat>)
    requires Indexes(profiles, selected)
    decreases |selected|
  {
    var failing := Failing(engine, selected, total);
    if failing == [] then (Drafted, selected)
    else
      var culprits := ForcedCulprits(profiles, selected, failing);
      var cannot := CannotMatchExemplars(total - |failing|, total, floor, failing);
      if culprits != [] then (ForcedFieldMismatch(culprits, failing), selected)
      else if |selected| <= floor then (cannot, selected)
      else match DropPosition(profiles, selected, Some(failing))
        case None => (cannot, selected)
        case Some(position) => Relax(profiles, Without(selected, position), floor, total, engine)
  }

  function Floor(minFields: nat, selected: seq<nat>): nat {
    var floor := if minFields < |selected| then minFields else |selected|;
    if floor < 1 then 1 else floor
  }

  // ----- Whatever the engine says -----

  /** Forced fields stay, nothing is added, the floor holds, and success means every exemplar matches. */
  lemma {:induction false} RelaxKeeps(profiles: seq<Profile>, selected: seq<nat>, floor: nat, total: nat, engine: Engine)
    requires Indexes(profiles, selected)
    ensures var (outcome, final) := Relax(profiles, selected, floor, total, engine);
            && (forall k | k in final :: k in selected)
            && (forall k | k in selected && profiles[k].forced :: k in final)
            && |final| >= (if floor < |selected| then floor else |selected|)
            && (outcome.Drafted? <==> Failing(engine, final, total) == [])
    decreases |selected|
  {
    var failing := Failing(engine, selected, total);
    if failing != [] && ForcedCulprits(profiles, selected, failing) == [] && |selected| > floor {
      var position := DropPosition(profiles, selected, Some(failing));
      if position.Some? {
        RelaxKeeps(profiles, Without(selected, position.value), floor, total, engine);
      }
    }
  }

  // ----- With one selection whose forms match what carries the field -----

  /** The rule fires on exactly the exemplars that carry every selected field. */
  ghost predicate FiresOnCarriers(engine: Engine, profiles: seq<Profile>, total: nat) {
    && (forall k | 0 <= k < |profiles| :: |profiles[k].present| == total)
    && (forall selected: seq<nat>, e: nat | Indexes(profiles, selected) && selected != [] && e < total ::
          engine(selected, e) <==> CarriesAll(profiles, selected, e))
  }

  predicate CarriesAll(profiles: seq<Profile>, selected: seq<nat>, e: nat)
    requires Indexes(profiles, selected) && forall k | 0 <= k < |profiles| :: e < |profiles[k].present|
  {
    forall k | k in selected :: profiles[k].present[e]
  }

  predicate Everywhere(p: Profile) {
    forall e | 0 <= e < |p.present| :: p.present[e]
  }

  /** The selected fields among the first `n` that every exemplar carries, in rank order. */
  function Complete(profiles: seq<Profile>, selected: seq<nat>, n: nat): (r: seq<nat>)
    requires Indexes(profiles, selected) && n <= |selected|
    ensures |r| <= n
  {
    if n == 0 then []
    else Complete(profiles, selected, n - 1) + (if Everywhere(profiles[selected[n - 1]]) then [selected[n - 1]] else [])
  }

  lemma {:induction false} AllComplete(profiles: seq<Profile>, selected: seq<nat>, n: nat)
    requires Indexes(profiles, selected) && n <= |selected|
    ensures |Complete(profiles, selected, n)| == n <==> forall j | 0 <= j < n :: Everywhere(profiles[selected[j]])
    ensures |Complete(profiles, selected, n)| == n ==> Complete(profiles, selected, n) == selected[..n]
  {
    if n > 0 { AllComplete(profiles, selected, n - 1); }
  }

  lemma {:induction false} CompleteWithout(profiles: seq<Profile>, selected: seq<nat>, position: nat, n: nat)
    requires Indexes(profiles, selected) && position < n <= |selected| && !Everywhere(profiles[selected[position]])
    ensures Complete(profiles, Without(selected, position), n - 1) == Complete(profiles, selected, n)
  {
    var rest := Without(selected, position);
    if n - 1 == position {
      SamePrefix(profiles, selected, rest, n - 1);
    } else {
      CompleteWithout(profiles, selected, position, n - 1);
      assert rest[n - 2] == selected[n - 1];
    }
  }

  lemma {:induction false} SamePrefix(profiles: seq<Profile>, a: seq<nat>, b: seq<nat>, n: nat)
    requires Indexes(profiles, a) && Indexes(profiles, b) && n <= |a| && n <= |b| && a[..n] == b[..n]
    ensures Complete(profiles, a, n) == Complete(profiles, b, n)
  {
    if n > 0 {
      assert a[..n - 1] == a[..n][..n - 1] && b[..n - 1] == b[..n][..n - 1];
      assert a[n - 1] == a[..n][n - 1] && b[n - 1] == b[..n][n - 1];
      SamePrefix(profiles, a, b, n - 1);
    }
  }

  ghost predicate ForcedPartial(profiles: seq<Profile>, selected: seq<nat>)
    requires Indexes(profiles, selected)
  {
    exists k | k in selected :: profiles[k].forced && !Everywhere(profiles[k])
  }

  /** The failing exemplars blame exactly the selected fields that some exemplar lacks. */
  ghost predicate Blames(profiles: seq<Profile>, selected: seq<nat>, failing: seq<nat>)
    requires Indexes(profiles, selected)
  {
    && (failing == [] <==> forall j | 0 <= j < |selected| :: Everywhere(profiles[selected[j]]))
    && (forall j | 0 <= j < |selected| :: AbsentIn(profiles[selected[j]], failing) <==> !Everywhere(profiles[selected[j]]))
  }

  lemma FailingBlames(profiles: seq<Profile>, selected: seq<nat>, total: nat, engine: Engine)
    requires Indexes(profiles, selected) && selected != [] && FiresOnCarriers(engine, profiles, total)
    ensures Blames(profiles, selected, Failing(engine, selected, total))
  {
    var failing := Failing(engine, selected, total);
    forall j | 0 <= j < |selected|
      ensures AbsentIn(profiles[selected[j]], failing) <==> !Everywhere(profiles[selected[j]])
    {
      if !Everywhere(profiles[selected[j]]) {
        var e :| 0 <= e < total && !profiles[selected[j]].present[e];
        assert selected[j] in selected;
        assert e in failing;
      }
    }
    if failing != [] {
      assert failing[0] in failing;
    }
  }

  lemma WithoutKeeps(profiles: seq<Profile>, selected: seq<nat>, position: nat)
    requires Indexes(profiles, selected) && position < |selected| && !ForcedPartial(profiles, selected)
    ensures Indexes(profiles, Without(selected, position)) && !ForcedPartial(profiles, Without(selected, position))
  {
    var rest := Without(selected, position);
    assert forall j | 0 <= j < |rest| :: rest[j] in rest && rest[j] in selected;
  }

  /** A partial field that is not forced may go, so the last culprit is one. */
  lemma PartialDroppable(profiles: seq<Profile>, selected: seq<nat>, failing: seq<nat>) returns (position: nat)
    requires Indexes(profiles, selected) && Blames(profiles, selected, failing) && failing != []
    requires !ForcedPartial(profiles, selected)
    ensures DropPosition(profiles, selected, Some(failing)) == Some(position)
    ensures position < |selected| && !Everywhere(profiles[selected[position]])
  {
    var j :| 0 <= j < |selected| && !Everywhere(profiles[selected[j]]);
    assert selected[j] in selected;
    assert Droppable(profiles[selected[j]], Some(failing));
    position := LastDroppable(profiles, selected, Some(failing), |selected|).value;
  }

  /** A step drops a field some exemplar lacks, keeping the others in order. */
  lemma DropsPartial(profiles: seq<Profile>, selected: seq<nat>, failing: seq<nat>) returns (position: nat)
    requires Indexes(profiles, selected) && Blames(profiles, selected, failing) && failing != []
    requires !ForcedPartial(profiles, selected)
    ensures DropPosition(profiles, selected, Some(failing)) == Some(position)
    ensures position < |selected| && !Everywhere(profiles[selected[position]])
    ensures Indexes(profiles, Without(selected, position)) && !ForcedPartial(profiles, Without(selected, position))
    ensures Complete(profiles, Without(selected, position), |selected| - 1) == Complete(profiles, selected, |selected|)
  {
    position := PartialDroppable(profiles, selected, failing);
    WithoutKeeps(profiles, selected, position);
    CompleteWithout(profiles, selected, position, |selected|);
  }

  lemma NoCulprits(profiles: seq<Profile>, selected: seq<nat>, failing: seq<nat>)
    requires Indexes(profiles, selected) && Blames(profiles, selected, failing)
    ensures ForcedCulprits(profiles, selected, failing) == [] <==> !ForcedPartial(profiles, selected)
  {
    if k :| k in selected && profiles[k].forced && !Everywhere(profiles[k]) {
      var j :| 0 <= j < |selected| && selected[j] == k;
      assert AbsentIn(profiles[selected[j]], failing);
    }
  }

  /** Success exactly when no forced field is partial and enough are complete, with those as the result. */
  ghost predicate Exact(profiles: seq<Profile>, selected: seq<nat>, floor: nat, outcome: Outcome, final: seq<nat>)
    requires Indexes(profiles, selected)
  {
    && (outcome.Drafted? <==> !ForcedPartial(profiles, selected) && |Complete(profiles, selected, |selected|)| >= floor)
    && (outcome.Drafted? ==> final == Complete(profiles, selected, |selected|))
  }

  lemma NothingFails(profiles: seq<Profile>, selected: seq<nat>, floor: nat)
    requires Indexes(profiles, selected) && floor <= |selected| && Blames(profiles, selected, [])
    ensures Exact(profiles, selected, floor, Drafted, selected)
  {
    CompleteOrNot(profiles, selected);
  }

  lemma SomethingFails(profiles: seq<Profile>, selected: seq<nat>, floor: nat, failing: seq<nat>, outcome: Outcome, final: seq<nat>)
    requires Indexes(profiles, selected) && Blames(profiles, selected, failing) && failing != []
    requires !outcome.Drafted? && (ForcedPartial(profiles, selected) || |selected| <= floor)
    ensures Exact(profiles, selected, floor, outcome, final)
  {
    CompleteOrNot(profiles, selected);
  }

  /**
    Drafting succeeds exactly when no forced selected field is missing from an exemplar and at least
    `floor` selected fields are in all of them; it then keeps exactly those, in rank order.
   */
  lemma {:induction false} DraftsExactly(profiles: seq<Profile>, selected: seq<nat>, floor: nat, total: nat, engine: Engine)
    requires Indexes(profiles, selected) && 1 <= floor <= |selected| && FiresOnCarriers(engine, profiles, total)
    ensures var (outcome, final) := Relax(profiles, selected, floor, total, engine);
            Exact(profiles, selected, floor, outcome, final)
    decreases |selected|
  {
    var failing := Failing(engine, selected, total);
    var (outcome, final) := Relax(profiles, selected, floor, total, engine);
    FailingBlames(profiles, selected, total, engine);
    if failing == [] {
      NothingFails(profiles, selected, floor);
    } else {
      NoCulprits(profiles, selected, failing);
      if ForcedPartial(profiles, selected) || |selected| <= floor {
        RelaxStops(profiles, selected, floor, total, engine);
        SomethingFails(profiles, selected, floor, failing, outcome, final);
      } else {
        var position := DropsPartial(profiles, selected, failing);
        RelaxGoesOn(profiles, selected, floor, total, engine, position);
        DraftsExactly(profiles, Without(selected, position), floor, total, engine);
      }
    }
  }

  lemma RelaxStops(profiles: seq<Profile>, selected: seq<nat>, floor: nat, total: nat, engine: Engine)
    requires Indexes(profiles, selected) && Failing(engine, selected, total) != []
    requires ForcedCulprits(profiles, selected, Failing(engine, selected, total)) != [] || |selected| <= floor
    ensures !Relax(profiles, selected, floor, total, engine).0.Drafted?
  {
  }

  lemma RelaxGoesOn(profiles: seq<Profile>, selected: seq<nat>, floor: nat, total: nat, engine: Engine, position: nat)
    requires Indexes(profiles, selected) && Failing(engine, selected, total) != [] && |selected| > floor
    requires ForcedCulprits(profiles, selected, Failing(engine, selected, total)) == []
    requires DropPosition(profiles, selected, Some(Failing(engine, selected, total))) == Some(position)
    ensures Relax(profiles, selected, floor, total, engine) == Relax(profiles, Without(selected, position), floor, total, engine)
  {
  }

  lemma CompleteOrNot(profiles: seq<Profile>, selected: seq<nat>)
    requires Indexes(profiles, selected)
    ensures var complete := Complete(profiles, selected, |selected|);
            if forall j | 0 <= j < |selected| :: Everywhere(profiles[selected[j]]) then complete == selected
            else |complete| < |selected|
  {
    AllComplete(profiles, selected, |selected|);
    assert selected[..|selected|] == selected;
  }

  /** The exact result of drafting, with the configured minimum in place of the floor. */
  lemma DraftEnds(profiles: seq<Profile>, selected: seq<nat>, minFields: nat, total: nat, engine: Engine)
    requires Indexes(profiles, selected)
    ensures var (outcome, final) := Relax(profiles, selected, Floor(minFields, selected), total, engine);
            && (outcome.Drafted? ==> |final| >= minFields || final == selected)
            && (selected != [] && FiresOnCarriers(engine, profiles, total) ==> Ends(profiles, selected, minFields, outcome, final))
  {
    var floor := Floor(minFields, selected);
    RelaxKeeps(profiles, selected, floor, total, engine);
    RelaxKeepsAll(profiles, selected, floor, total, engine);
    if selected != [] && FiresOnCarriers(engine, profiles, total) {
      DraftsExactly(profiles, selected, floor, total, engine);
      MismatchExactly(profiles, selected, floor, total, engine);
    }
  }

  lemma {:induction false} RelaxKeepsAll(profiles: seq<Profile>, selected: seq<nat>, floor: nat, total: nat, engine: Engine)
    requires Indexes(profiles, selected)
    ensures var (_, final) := Relax(profiles, selected, floor, total, engine);
            |final| == |selected| ==> final == selected
    decreases |selected|
  {
    var failing := Failing(engine, selected, total);
    if failing != [] && ForcedCulprits(profiles, selected, failing) == [] && |selected| > floor {
      var position := DropPosition(profiles, selected, Some(failing));
      if position.Some? {
        RelaxShrinks(profiles, Without(selected, position.value), floor, total, engine);
      }
    }
  }

  lemma {:induction false} RelaxShrinks(profiles: seq<Profile>, selected: seq<nat>, floor: nat, total: nat, engine: Engine)
    requires Indexes(profiles, selected)
    ensures |Relax(profiles, selected, floor, total, engine).1| <= |selected|
    decreases |selected|
  {
    var failing := Failing(engine, selected, total);
    if failing != [] && ForcedCulprits(profiles, selected, failing) == [] && |selected| > floor {
      var position := DropPosition(profiles, selected, Some(failing));
      if position.Some? {
        RelaxShrinks(profiles, Without(selected, position.value), floor, total, engine);
      }
    }
  }

  /** The run ends on a forced field exactly when one is partial. */
  lemma {:induction false} MismatchExactly(profiles: seq<Profile>, selected: seq<nat>, floor: nat, total: nat, engine: Engine)
    requires Indexes(profiles, selected) && 1 <= floor <= |selected| && FiresOnCarriers(engine, profiles, total)
    ensures Relax(profiles, selected, floor, total, engine).0.ForcedFieldMismatch? <==> ForcedPartial(profiles, selected)
    decreases |selected|
  {
    var failing := Failing(engine, selected, total);
    FailingBlames(profiles, selected, total, engine);
    NoCulprits(profiles, selected, failing);
    if failing == [] {
      NoneMissing(profiles, selected, failing);
    } else if !ForcedPartial(profiles, selected) && |selected| > floor {
      var position := DropsPartial(profiles, selected, failing);
      RelaxGoesOn(profiles, selected, floor, total, engine, position);
      MismatchExactly(profiles, Without(selected, position), floor, total, engine);
    }
  }

  lemma NoneMissing(profiles: seq<Profile>, selected: seq<nat>, failing: seq<nat>)
    requires Indexes(profiles, selected) && Blames(profiles, selected, failing) && failing == []
    ensures !ForcedPartial(profiles, selected)
  {
    forall k | k in selected ensures Everywhere(profiles[k]) {
      var j :| 0 <= j < |selected| && selected[j] == k;
    }
  }

  /** How many of the selected fields every exemplar carries. */
  function CompleteCount(profiles: seq<Profile>, selected: seq<nat>): nat
    requires Indexes(profiles, selected)
  {
    |Complete(profiles, selected, |selected|)|
  }

  /**
    Success exactly when no forced field is partial and the complete fields reach the configured
    minimum, which counts as at least one and at most all that were selected.
   */
  ghost predicate Ends(profiles: seq<Profile>, selected: seq<nat>, minFields: nat, outcome: Outcome, final: seq<nat>)
    requires Indexes(profiles, selected)
  {
    var enough := CompleteCount(profiles, selected) >= 1
                  && (CompleteCount(profiles, selected) >= minFields || CompleteCount(profiles, selected) == |selected|);
    && (outcome.Drafted? <==> !ForcedPartial(profiles, selected) && enough)
    && (outcome.Drafted? ==> final == Complete(profiles, selected, |selected|))
    && (outcome.ForcedFieldMismatch? <==> ForcedPartial(profiles, selected))
  }

  lemma {:induction false} FloorReported(profiles: seq<Profile>, selected: seq<nat>, floor: nat, total: nat, engine: Engine)
    requires Indexes(profiles, selected)
    ensures var outcome := Relax(profiles, selected, floor, total, engine).0;
            outcome.CannotMatchExemplars? ==> outcome.floor == floor && outcome.total == total && outcome.matched + |outcome.failing| == total
    decreases |selected|
  {
    var failing := Failing(engine, selected, total);
    if failing != [] && ForcedCulprits(profiles, selected, failing) == [] && |selected| > floor {
      var position := DropPosition(profiles, selected, Some(failing));
      if position.Some? {
        FloorReported(profiles, Without(selected, position.value), floor, total, engine);
      }
    }
  }

  /** The names a mismatch reports: of the forced fields that some failing exemplar lacks, in rank order. */
  lemma {:induction false} CulpritsAre(profiles: seq<Profile>, selected: seq<nat>, failing: seq<nat>, name: string)
    requires Indexes(profiles, selected)
    ensures name in ForcedCulprits(profiles, selected, failing)
            <==> exists k | k in selected :: profiles[k].forced && AbsentIn(profiles[k], failing) && profiles[k].field == name
  {
    if selected != [] {
      CulpritsAre(profiles, selected[..|selected| - 1], failing, name);
      assert selected == selected[..|selected| - 1] + [selected[|selected| - 1]];
    }
  }

  // ----- The loop -----

  class DraftCandidate {
    const profiles: seq<Profile>
    var selected: seq<nat>

    predicate Valid()
      reads this
    {
      Indexes(profiles, selected)
    }

    constructor (profiles: seq<Profile>, selected: seq<nat>)
      requires Indexes(profiles, selected)
      ensures Valid() && this.profiles == profiles && this.selected == selected
    {
      this.profiles, this.selected := profiles, selected;
    }

    method DropLowestEligible(failing: Option<seq<nat>>) returns (dropped: Option<nat>)
      requires Valid()
      modifies this`selected
      ensures Valid()
      ensures match DropPosition(profiles, old(selected), failing)
              case Some(k) => selected == Without(old(selected), k) && dropped == Some(old(selected)[k])
              case None => selected == old(selected) && dropped == None
    {
      var position := DropPosition(profiles, selected, failing);
      if position.None? { return None; }
      dropped := Some(selected[position.value]);
      selected := Without(selected, position.value);
    }

    method Draft(minFields: nat, total: nat, engine: Engine) returns (outcome: Outcome)
      requires Valid()
      modifies this`selected
      ensures Valid()
      ensures (outcome, selected) == Relax(profiles, old(selected), Floor(minFields, old(selected)), total, engine)
      ensures outcome.Drafted? ==> |selected| >= (if minFields < |old(selected)| then minFields else |old(selected)|)
      ensures outcome.CannotMatchExemplars? ==>
                outcome.floor == if minFields < |old(selected)| then (if minFields < 1 then 1 else minFields)
                                 else if |old(selected)| < 1 then 1 else |old(selected)|
      ensures old(selected) != [] && FiresOnCarriers(engine, profiles, total) ==>
                Ends(profiles, old(selected), minFields, outcome, selected)
    {
      DraftEnds(profiles, selected, minFields, total, engine);
      FloorReported(profiles, selected, Floor(minFields, selected), total, engine);
      var floor := Floor(minFields, selected);
      while true
        invariant Valid()
        invariant Relax(profiles, selected, floor, total, engine) == Relax(profiles, old(selected), floor, total, engine)
        decreases |selected|
      {
        var failing := Failing(engine, selected, total);
        if failing == [] { return Drafted; }
        var culprits := ForcedCulprits(profiles, selected, failing);
        if culprits != [] { return ForcedFieldMismatch(culprits, failing); }
        if |selected| <= floor { return CannotMatchExemplars(total - |failing|, total, floor, failing); }
        var dropped := DropLowestEligible(Some(failing));
        if dropped.None? { return CannotMatchExemplars(total - |failing|, total, floor, failing); }
      }
    }
  }
}
