/**
  Concurrent use of the field observer (`crates/rsigma-eval/src/field_observer.rs`): one thread at a
  time holds the map lock and takes one atomic action per step, while events without keys bump the
  counters outside the lock.
 */
module ObserverRuns {
  import opened Results
  import opened FieldCounts

  datatype View = View(entries: Counts, events: nat, overflow: nat, lifeEvents: nat, lifeOverflow: nat)

  /** What the lock holder does next. */
  datatype Job =
    | Free
    /** Walking the keys of an event. */
    | Counting(keys: seq<string>, next: nat, dropped: nat)
    /** 0: add overflow, 1: add lifetime overflow, 2: bump events, 3: bump lifetime events, 4: unlock. */
    | Tallying(keys: seq<string>, dropped: nat, phase: nat)
    /**
      0: copy entries, 1-4: load events, overflow, lifetime events, lifetime overflow, 5: unlock;
      `bumps` and `finished` are the key-less events counted in each when the events and the lifetime
      events were loaded.
     */
    | Snapping(view: View, phase: nat, bumps: nat, finished: nat)
    /** 0: clear, 1: swap events, 2: store overflow, 3: unlock. */
    | Resetting(phase: nat)

  /** A finished snapshot beside the keys and events recorded by then, since the last reset and ever. */
  datatype Taken = Taken(view: View, seen: multiset<string>, whole: nat, bumps: nat, ever: nat, finished: nat, cleared: nat)

  /**
    `seen` and `whole` count what fully recorded events brought since the last reset, and `bumps` the
    first additions of key-less events since the counter was last swapped; `returned` and `cleared`
    sum what resets took away; `ever` and `finished` count the fully recorded events and the second
    additions of key-less events over the whole run.
   */
  datatype History = History(
    seen: multiset<string>,
    whole: nat,
    bumps: nat,
    returned: nat,
    cleared: nat,
    ever: nat,
    finished: nat,
    taken: seq<Taken>)

  datatype State = State(
    cap: nat,
    counts: Counts,
    overflow: nat,
    events: nat,
    lifeEvents: nat,
    lifeOverflow: nat,
    job: Job,
    /** Key-less observers between their two atomic additions. */
    keyless: nat,
    past: History)

  datatype Step = KeylessFirst | KeylessSecond | Observe(keys: seq<string>) | Snapshot | Reset | Advance

  function Init(cap: nat): State {
    State(cap, map[], 0, 0, 0, 0, Free, 0, History(multiset{}, 0, 0, 0, 0, 0, 0, []))
  }

  predicate Enabled(s: State, step: Step) {
    match step
    case KeylessFirst => true
    case KeylessSecond => s.keyless > 0
    case Observe(keys) => s.job.Free? && keys != []
    case Snapshot => s.job.Free?
    case Reset => s.job.Free?
    case Advance => !s.job.Free?
  }

  function Do(s: State, step: Step): State
    requires Enabled(s, step)
  {
    match step
    case KeylessFirst => s.(events := s.events + 1, keyless := s.keyless + 1, past := s.past.(bumps := s.past.bumps + 1))
    case KeylessSecond => s.(lifeEvents := s.lifeEvents + 1, keyless := s.keyless - 1, past := s.past.(finished := s.past.finished + 1))
    case Observe(keys) => s.(job := Counting(keys, 0, 0))
    case Snapshot => s.(job := Snapping(View(map[], 0, 0, 0, 0), 0, 0, 0))
    case Reset => s.(job := Resetting(0))
    case Advance =>
      match s.job
      case Counting(keys, next, dropped) => CountStep(s, keys, next, dropped)
      case Tallying(keys, dropped, phase) => TallyStep(s, keys, dropped, phase)
      case Snapping(view, phase, bumps, finished) => SnapStep(s, view, phase, bumps, finished)
      case Resetting(phase) => ResetStep(s, phase)
  }

  function CountStep(s: State, keys: seq<string>, next: nat, dropped: nat): State {
    if next < |keys| then
      s.(counts := CountKey(s.counts, s.cap, keys[next]),
         job := Counting(keys, next + 1, if Drops(s.counts, s.cap, keys[next]) then dropped + 1 else dropped))
    else s.(job := Tallying(keys, dropped, if dropped > 0 then 0 else 2))
  }

  function TallyStep(s: State, keys: seq<string>, dropped: nat, phase: nat): State {
    match phase
    case 0 => s.(overflow := s.overflow + dropped, job := Tallying(keys, dropped, 1))
    case 1 => s.(lifeOverflow := s.lifeOverflow + dropped, job := Tallying(keys, dropped, 2))
    case 2 => s.(events := s.events + 1, job := Tallying(keys, dropped, 3))
    case 3 => s.(lifeEvents := s.lifeEvents + 1, job := Tallying(keys, dropped, 4))
    case _ => s.(job := Free, past := s.past.(seen := s.past.seen + multiset(keys), whole := s.past.whole + 1, ever := s.past.ever + 1))
  }

  function SnapStep(s: State, view: View, phase: nat, bumps: nat, finished: nat): State {
    match phase
    case 0 => s.(job := Snapping(view.(entries := s.counts), 1, bumps, finished))
    case 1 => s.(job := Snapping(view.(events := s.events), 2, s.past.bumps, finished))
    case 2 => s.(job := Snapping(view.(overflow := s.overflow), 3, bumps, finished))
    case 3 => s.(job := Snapping(view.(lifeEvents := s.lifeEvents), 4, bumps, s.past.finished))
    case 4 => s.(job := Snapping(view.(lifeOverflow := s.lifeOverflow), 5, bumps, finished))
    case _ => s.(job := Free, past := s.past.(taken := s.past.taken + [Took(s, view, bumps, finished)]))
  }

  function Took(s: State, view: View, bumps: nat, finished: nat): Taken {
    Taken(view, s.past.seen, s.past.whole, bumps, s.past.ever, finished, s.past.cleared)
  }

  function ResetStep(s: State, phase: nat): State {
    match phase
    case 0 => s.(counts := map[], job := Resetting(1), past := s.past.(seen := multiset{}, whole := 0))
    case 1 => s.(events := 0, job := Resetting(2), past := s.past.(bumps := 0, returned := s.past.returned + s.events))
    case 2 => s.(overflow := 0, job := Resetting(3), past := s.past.(cleared := s.past.cleared + s.overflow))
    case _ => s.(job := Free)
  }

  /** A run takes enabled steps one after another. */
  function Run(cap: nat, steps: seq<Step>): Option<State> {
    if steps == [] then Some(Init(cap))
    else
      match Run(cap, steps[..|steps| - 1])
      case None => None
      case Some(s) => if Enabled(s, steps[|steps| - 1]) then Some(Do(s, steps[|steps| - 1])) else None
  }

  // ----- Invariants -----

  /** A snapshot accounts for every key of the events recorded since the last reset, and for every event. */
  ghost predicate Accounts(t: Taken, cap: nat) {
    && Faithful(t.view.entries, cap, t.seen)
    && Sum(t.view.entries) + t.view.overflow == |t.seen|
    && t.view.events == t.whole + t.bumps
    && t.view.lifeEvents == t.ever + t.finished
    && t.view.lifeOverflow == t.cleared + t.view.overflow
  }

  /** The keys seen so far, by whole events and by the one being counted. */
  ghost predicate KeysKept(s: State) {
    match s.job
    case Counting(keys, next, dropped) =>
      && next <= |keys|
      && Faithful(s.counts, s.cap, s.past.seen + multiset(keys[..next]))
      && Sum(s.counts) + s.overflow + dropped == |s.past.seen| + next
    case Tallying(keys, dropped, phase) =>
      && Faithful(s.counts, s.cap, s.past.seen + multiset(keys))
      && Sum(s.counts) + s.overflow + (if phase == 0 then dropped else 0) == |s.past.seen| + |keys|
    case Resetting(phase) =>
      && Faithful(s.counts, s.cap, s.past.seen)
      && (phase == 0 || phase >= 3 ==> Sum(s.counts) + s.overflow == |s.past.seen|)
      && (phase > 0 ==> s.counts == map[] && s.past.seen == multiset{})
    case _ =>
      Faithful(s.counts, s.cap, s.past.seen) && Sum(s.counts) + s.overflow == |s.past.seen|
  }

  /** Counters and lifetime counters differ by what resets took and what is in flight. */
  predicate LifetimeKept(s: State) {
    && s.events + s.past.returned == s.lifeEvents + s.keyless + (if s.job.Tallying? && s.job.phase == 3 then 1 else 0)
    && s.overflow + s.past.cleared == s.lifeOverflow + (if s.job.Tallying? && s.job.phase == 1 then s.job.dropped else 0)
  }

  predicate EventsKept(s: State) {
    && (s.job == Resetting(1) || s.events == s.past.whole + s.past.bumps + (if s.job.Tallying? && s.job.phase >= 3 then 1 else 0))
    && (s.job.Resetting? && s.job.phase > 0 ==> s.past.whole == 0)
    && s.lifeEvents == s.past.ever + s.past.finished + (if s.job.Tallying? && s.job.phase >= 4 then 1 else 0)
  }

  ghost predicate SnapshotsKept(s: State) {
    && (s.job.Snapping? ==>
          && (s.job.phase >= 1 ==> s.job.view.entries == s.counts)
          && (s.job.phase >= 2 ==> s.job.view.events == s.past.whole + s.job.bumps)
          && (s.job.phase >= 3 ==> s.job.view.overflow == s.overflow)
          && (s.job.phase >= 4 ==> s.job.view.lifeEvents == s.past.ever + s.job.finished)
          && (s.job.phase >= 5 ==> s.job.view.lifeOverflow == s.past.cleared + s.overflow))
    && (forall i | 0 <= i < |s.past.taken| :: Accounts(s.past.taken[i], s.cap))
  }

  ghost predicate Kept(s: State) {
    KeysKept(s) && LifetimeKept(s) && EventsKept(s) && SnapshotsKept(s)
  }

  lemma KeyStepKeeps(s: State)
    requires KeysKept(s) && s.job.Counting?
    ensures KeysKept(CountStep(s, s.job.keys, s.job.next, s.job.dropped))
  {
    var keys, next, seen := s.job.keys, s.job.next, s.past.seen;
    if next < |keys| {
      assert keys[..next + 1] == keys[..next] + [keys[next]];
      assert seen + multiset(keys[..next + 1]) == seen + multiset(keys[..next]) + multiset{keys[next]};
      KeyCounted(s.counts, s.cap, seen + multiset(keys[..next]), keys[next]);
    } else {
      assert keys[..next] == keys;
    }
  }

  lemma TallyStepKeeps(s: State)
    requires KeysKept(s) && s.job.Tallying?
    ensures KeysKept(TallyStep(s, s.job.keys, s.job.dropped, s.job.phase))
  {
  }

  lemma SnapStepKeeps(s: State)
    requires KeysKept(s) && s.job.Snapping?
    ensures KeysKept(SnapStep(s, s.job.view, s.job.phase, s.job.bumps, s.job.finished))
  {
    assert SnapStep(s, s.job.view, s.job.phase, s.job.bumps, s.job.finished).counts == s.counts;
  }

  lemma ResetStepKeeps(s: State)
    requires KeysKept(s) && s.job.Resetting?
    ensures KeysKept(ResetStep(s, s.job.phase))
  {
    assert Sum(map[]) == 0;
  }

  lemma KeysKeptByStep(s: State, step: Step)
    requires KeysKept(s) && Enabled(s, step)
    ensures KeysKept(Do(s, step))
  {
    if step.Advance? {
      match s.job
      case Counting(_, _, _) => KeyStepKeeps(s);
      case Tallying(_, _, _) => TallyStepKeeps(s);
      case Snapping(_, _, _, _) => SnapStepKeeps(s);
      case Resetting(_) => ResetStepKeeps(s);
    } else if step.Observe? {
      assert s.past.seen + multiset(step.keys[..0]) == s.past.seen;
    }
  }

  lemma CountersKeptByStep(s: State, step: Step)
    requires LifetimeKept(s) && EventsKept(s) && Enabled(s, step)
    ensures LifetimeKept(Do(s, step)) && EventsKept(Do(s, step))
  {
  }

  lemma SnapshotsKeptByStep(s: State, step: Step)
    requires Kept(s) && Enabled(s, step)
    ensures SnapshotsKept(Do(s, step))
  {
    if step.Advance? && s.job.Snapping? && s.job.phase >= 5 {
      var t := Took(s, s.job.view, s.job.bumps, s.job.finished);
      assert Accounts(t, s.cap);
      assert Do(s, step).past.taken == s.past.taken + [t];
    } else {
      assert Do(s, step).past.taken == s.past.taken && Do(s, step).cap == s.cap;
    }
  }

  /** Every step of every run keeps the invariants. */
  lemma {:induction false} RunKeeps(cap: nat, steps: seq<Step>)
    ensures Run(cap, steps).Some? ==> Kept(Run(cap, steps).value) && Run(cap, steps).value.cap == cap
  {
    if steps != [] {
      var before, step := steps[..|steps| - 1], steps[|steps| - 1];
      RunKeeps(cap, before);
      if Run(cap, before).Some? && Enabled(Run(cap, before).value, step) {
        KeysKeptByStep(Run(cap, before).value, step);
        CountersKeptByStep(Run(cap, before).value, step);
        SnapshotsKeptByStep(Run(cap, before).value, step);
      }
    }
  }

  // ----- Main results -----

  /**
    In every run, each snapshot has the exact number of occurrences of every key it tracks; its
    counts and its overflow add up to the keys of the events recorded since the last reset, and its
    event counter is exactly those events and the key-less ones that had bumped it when it was read.
    Its lifetime counters are the same over the whole run.
   */
  lemma SnapshotsAccount(cap: nat, steps: seq<Step>, i: nat)
    requires Run(cap, steps).Some? && i < |Run(cap, steps).value.past.taken|
    ensures Accounts(Run(cap, steps).value.past.taken[i], cap)
  {
    RunKeeps(cap, steps);
  }

  /** When no observer is under way, lifetime counters are what resets took plus what is there. */
  lemma QuiescentTotals(cap: nat, steps: seq<Step>)
    requires Run(cap, steps).Some? && Run(cap, steps).value.job.Free? && Run(cap, steps).value.keyless == 0
    ensures var s := Run(cap, steps).value;
            && s.lifeEvents == s.past.returned + s.events == s.past.ever + s.past.finished
            && s.lifeOverflow == s.past.cleared + s.overflow
            && s.events == s.past.whole + s.past.bumps
            && Sum(s.counts) + s.overflow == |s.past.seen|
            && |s.counts| <= cap
  {
    RunKeeps(cap, steps);
  }

  // ----- The lock is given back -----

  function Advances(s: State, n: nat): State
    decreases n
  {
    if n == 0 then s
    else if s.job.Free? then s
    else Advances(Do(s, Advance), n - 1)
  }

  /** How many actions the holder of the lock has left. */
  function Left(job: Job): nat {
    match job
    case Free => 0
    case Counting(keys, next, dropped) => (if next < |keys| then |keys| - next else 0) + 6
    case Tallying(_, _, phase) => if phase <= 4 then 5 - phase else 1
    case Snapping(_, phase, _, _) => if phase <= 5 then 6 - phase else 1
    case Resetting(phase) => if phase <= 3 then 4 - phase else 1
  }

  /** Whoever holds the lock gives it back after finitely many actions, whatever state the run has reached. */
  lemma {:induction false} LockReleased(s: State)
    ensures Advances(s, Left(s.job)).job.Free?
    decreases Left(s.job)
  {
    if !s.job.Free? {
      var next := Do(s, Advance);
      assert Left(next.job) < Left(s.job);
      LockReleased(next);
      AdvancesEnd(next, Left(next.job), Left(s.job) - 1);
    }
  }

  lemma {:induction false} AdvancesEnd(s: State, n: nat, m: nat)
    requires n <= m && Advances(s, n).job.Free?
    ensures Advances(s, m) == Advances(s, n)
    decreases n
  {
    if !s.job.Free? && n > 0 { AdvancesEnd(Do(s, Advance), n - 1, m - 1); }
  }

  /** Before that they may disagree: a key-less event, which waits for no lock, in the middle of a snapshot. */
  lemma KeylessInFlight()
    ensures var steps := [Snapshot, KeylessFirst, Advance, Advance, Advance, Advance, Advance, Advance];
            && Run(0, steps).Some? && |Run(0, steps).value.past.taken| == 1
            && var view := Run(0, steps).value.past.taken[0].view;
               view.events == 1 && view.lifeEvents == 0
  {
    var a := [Snapshot];
    var b := a + [KeylessFirst];
    var c := b + [Advance];
    var d := c + [Advance];
    var e := d + [Advance];
    var f := e + [Advance];
    var g := f + [Advance];
    var h := g + [Advance];
    assert Run(0, []) == Some(Init(0));
    assert a[..0] == [] && Run(0, a) == Some(Do(Init(0), Snapshot));
    assert b[..1] == a && c[..2] == b && d[..3] == c && e[..4] == d && f[..5] == e && g[..6] == f && h[..7] == g;
    assert Run(0, b).Some? && Run(0, b).value.job.Snapping? && Run(0, b).value.events == 1 && Run(0, b).value.lifeEvents == 0;
    assert Run(0, c).Some? && Run(0, c).value.job.phase == 1;
    assert Run(0, d).Some? && Run(0, d).value.job.phase == 2 && Run(0, d).value.job.view.events == 1;
    assert Run(0, e).Some? && Run(0, e).value.job.phase == 3;
    assert Run(0, f).Some? && Run(0, f).value.job.phase == 4 && Run(0, f).value.job.view.lifeEvents == 0;
    assert Run(0, g).Some? && Run(0, g).value.job.phase == 5 && Run(0, g).value.past.taken == [];
    assert h == [Snapshot, KeylessFirst, Advance, Advance, Advance, Advance, Advance, Advance];
  }
}
