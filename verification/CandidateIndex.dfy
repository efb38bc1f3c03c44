/** The witness-based inverted index (`crates/rsigma-eval/src/candidate_index.rs`). */
module CandidateIndexes {
  import opened Results
  import opened FieldPaths
  import opened Folding
  import opened Evaluation
  import opened Witnesses
  import opened CandidateSets
  import opened IndexSpec

  /** Each needle of an automaton with the rules that require it. */
  datatype NeedleTable = NeedleTable(rules: map<string, seq<nat>>)

  datatype FieldEntry = FieldEntry(presence: seq<nat>, exact: map<string, seq<nat>>, needles: Option<NeedleTable>)

  type Fields = map<string, FieldEntry>

  function At<K>(m: map<K, seq<nat>>, key: K): seq<nat> {
    if key in m then m[key] else []
  }

  function EntryAt(fields: Fields, f: string): FieldEntry {
    if f in fields then fields[f] else FieldEntry([], map[], None)
  }

  function NeedleRules(needles: Option<NeedleTable>, needle: string): seq<nat> {
    match needles
    case Some(built) => At(built.rules, needle)
    case None => []
  }

  /** The rules filed under a witness. */
  function RulesUnder(fields: Fields, keyword: Option<NeedleTable>, w: Witness): seq<nat> {
    match w
    case Presence(f) => EntryAt(fields, f).presence
    case ExactIs(f, value) => At(EntryAt(fields, f).exact, value)
    case Substring(f, needle) => NeedleRules(EntryAt(fields, f).needles, needle)
    case Keyword(needle) => NeedleRules(keyword, needle)
  }

  /** Needles gathered before any automaton is built, by automaton. */
  type Gathered = map<Option<string>, map<string, seq<nat>>>

  function GatheredAt(text: Gathered, a: Option<string>): map<string, seq<nat>> {
    if a in text then text[a] else map[]
  }

  /** While gathering, text witnesses are filed in `text`. */
  function RulesGathered(fields: Fields, text: Gathered, w: Witness): seq<nat> {
    if IsText(w) then At(GatheredAt(text, Automaton(w)), w.needle) else RulesUnder(fields, None, w)
  }

  ghost function RuleSet(needles: map<string, seq<nat>>): set<nat> {
    set x, i | x in needles && i in needles[x] :: i
  }

  predicate UnderWitness(fields: Fields, keyword: Option<NeedleTable>, w: Witness, i: nat) {
    i in RulesUnder(fields, keyword, w)
  }

  predicate GatheredUnder(fields: Fields, text: Gathered, w: Witness, i: nat) {
    i in RulesGathered(fields, text, w)
  }

  /** `rules_of`: every rule of a needle map. */
  method RulesOf(needles: map<string, seq<nat>>) returns (r: seq<nat>)
    ensures StrictlyAscending(r) && forall i: nat :: i in r <==> i in RuleSet(needles)
  {
    var out: seq<nat> := [];
    var todo := needles.Keys;
    while todo != {}
      invariant todo <= needles.Keys
      invariant forall i: nat :: i in out <==> exists x :: x in needles && x !in todo && i in needles[x]
    {
      var x :| x in todo;
      out := out + needles[x];
      todo := todo - {x};
    }
    r := SortDedup(out);
  }

  function SortAll<K>(m: map<K, seq<nat>>): map<K, seq<nat>> {
    map k | k in m :: SortDedup(m[k])
  }

  lemma SortAllAt<K>(m: map<K, seq<nat>>, key: K)
    ensures At(SortAll(m), key) == SortDedup(At(m, key))
  {
  }

  function SortFields(fields: Fields): Fields {
    map f | f in fields :: fields[f].(presence := SortDedup(fields[f].presence), exact := SortAll(fields[f].exact))
  }

  lemma SortedFields(fields: Fields, keyword: Option<NeedleTable>)
    ensures forall w, i: nat :: UnderWitness(SortFields(fields), keyword, w, i) <==> UnderWitness(fields, keyword, w, i)
  {
    forall w, i: nat
      ensures UnderWitness(SortFields(fields), keyword, w, i) <==> UnderWitness(fields, keyword, w, i)
    {
      if w.ExactIs? { SortAllAt(EntryAt(fields, w.field).exact, w.value); }
    }
  }

  ghost predicate NoNeedles(fields: Fields) {
    forall f :: EntryAt(fields, f).needles.None?
  }

  predicate Registered(probes: map<string, seq<string>>, key: string, f: string) {
    key in probes && f in probes[key]
  }

  /** Fields are probed under exactly their registered keys. */
  ghost predicate ProbesFields(probes: map<string, seq<string>>, fields: Fields) {
    forall key, f :: Registered(probes, key, f) <==> f in fields && key in ProbeKeys(f)
  }

  function PushProbe(probes: map<string, seq<string>>, key: string, f: string): (r: map<string, seq<string>>)
    ensures forall key', f' :: Registered(r, key', f') <==> Registered(probes, key', f') || (key' == key && f' == f)
  {
    var bucket := if key in probes then probes[key] else [];
    if f in bucket then probes else probes[key := bucket + [f]]
  }

  lemma ProbeKeyCases(f: string)
    ensures forall key :: key in ProbeKeys(f) <==>
              key == UnescapeBrackets(f)
              || (if NestedRootKey(f).Some? then key == NestedRootKey(f).value
                  else PositionalRootKey(f).Some? && key == PositionalRootKey(f).value)
  {
  }

  /** Filing after the automata of `done` were built. */
  ghost predicate Built(gathered: Fields, text: Gathered, done: set<Option<string>>, w: Witness, i: nat, library: Library) {
    if IsText(w) then
      Automaton(w) in done && Indexable(GatheredAt(text, Automaton(w)).Keys, library)
      && i in At(GatheredAt(text, Automaton(w)), w.needle)
    else GatheredUnder(gathered, text, w, i)
  }

  /** Rule `i` needs one of the automata of `done` that could not be built. */
  ghost predicate LeftOut(text: Gathered, done: set<Option<string>>, i: nat, library: Library) {
    exists a | a in done :: !Indexable(GatheredAt(text, a).Keys, library) && i in RuleSet(GatheredAt(text, a))
  }

  /** The first `n` rules are gathered under exactly their witnesses. */
  ghost predicate Gathers(gates: seq<Gate>, n: nat, gathered: Fields, text: Gathered)
    requires n <= |gates|
  {
    && (forall w, j: nat :: GatheredUnder(gathered, text, w, j) <==> j < n && w in WitnessesOf(gates[j]))
    && (forall a :: GatheredAt(text, a).Keys == NeedlesFor(gates, n, a))
  }

  lemma NothingGathered(gates: seq<Gate>)
    ensures Gathers(gates, 0, map[], map[]) && NoNeedles(map[])
  {
    assert forall w :: RulesGathered(map[], map[], w) == [];
  }

  lemma GatherStep(gates: seq<Gate>, n: nat, gathered: Fields, text: Gathered, gathered': Fields, text': Gathered)
    requires n < |gates| && Gathers(gates, n, gathered, text)
    requires forall w, j: nat :: GatheredUnder(gathered', text', w, j)
                                 <==> GatheredUnder(gathered, text, w, j) || (j == n && w in WitnessesOf(gates[n]))
    requires forall a :: GatheredAt(text', a).Keys == GatheredAt(text, a).Keys + NeedlesIn(WitnessesOf(gates[n]), a)
    ensures Gathers(gates, n + 1, gathered', text')
  {
  }

  /** A full build files each rule under each of its witnesses whose automaton exists. */
  lemma BuiltIsFiled(gates: seq<Gate>, gathered: Fields, text: Gathered, library: Library)
    requires Gathers(gates, |gates|, gathered, text)
    ensures forall w, i: nat :: Built(gathered, text, text.Keys, w, i, library) <==> Filed(gates, |gates|, i, w, library)
  {
    forall w, i: nat
      ensures Built(gathered, text, text.Keys, w, i, library) <==> Filed(gates, |gates|, i, w, library)
    {
      assert GatheredUnder(gathered, text, w, i) <==> i < |gates| && w in WitnessesOf(gates[i]);
    }
  }

  lemma LeftOutIsOrphaned(gates: seq<Gate>, gathered: Fields, text: Gathered, i: nat, library: Library)
    requires Gathers(gates, |gates|, gathered, text) && LeftOut(text, text.Keys, i, library)
    ensures Orphan(gates, |gates|, i, library)
  {
    var a :| a in text.Keys && !Indexable(GatheredAt(text, a).Keys, library) && i in RuleSet(GatheredAt(text, a));
    var x :| x in GatheredAt(text, a) && i in GatheredAt(text, a)[x];
    var w := TextWitness(a, x);
    assert GatheredUnder(gathered, text, w, i);
    assert GatheredAt(text, a).Keys == NeedlesFor(gates, |gates|, Automaton(w));
  }

  lemma OrphanIsLeftOut(gates: seq<Gate>, gathered: Fields, text: Gathered, i: nat, library: Library)
    requires Gathers(gates, |gates|, gathered, text) && Orphan(gates, |gates|, i, library)
    ensures LeftOut(text, text.Keys, i, library)
  {
    var w :| w in WitnessesOf(gates[i]) && IsText(w) && !Indexable(NeedlesFor(gates, |gates|, Automaton(w)), library);
    assert GatheredUnder(gathered, text, w, i);
    assert w.needle in GatheredAt(text, Automaton(w));
    assert i in RuleSet(GatheredAt(text, Automaton(w)));
    assert GatheredAt(text, Automaton(w)).Keys == NeedlesFor(gates, |gates|, Automaton(w));
  }

  /** And leaves to full evaluation exactly the orphans. */
  lemma LeftOutIsOrphan(gates: seq<Gate>, gathered: Fields, text: Gathered, library: Library)
    requires Gathers(gates, |gates|, gathered, text)
    ensures forall i: nat :: (i < |gates| && LeftOut(text, text.Keys, i, library)) <==> Orphan(gates, |gates|, i, library)
  {
    forall i: nat
      ensures (i < |gates| && LeftOut(text, text.Keys, i, library)) <==> Orphan(gates, |gates|, i, library)
    {
      if LeftOut(text, text.Keys, i, library) { LeftOutIsOrphaned(gates, gathered, text, i, library); }
      if Orphan(gates, |gates|, i, library) { OrphanIsLeftOut(gates, gathered, text, i, library); }
    }
  }

  /** Building one more automaton. */
  lemma BuiltStep(gathered: Fields, text: Gathered, done: set<Option<string>>, a: Option<string>, library: Library,
                  fields: Fields, keyword: Option<NeedleTable>, fields': Fields, keyword': Option<NeedleTable>)
    requires a in text && a !in done
    requires forall w, i: nat :: UnderWitness(fields, keyword, w, i) <==> Built(gathered, text, done, w, i, library)
    requires forall w :: RulesUnder(fields', keyword', w)
                         == if IsText(w) && Automaton(w) == a && Indexable(text[a].Keys, library) then At(SortAll(text[a]), w.needle)
                            else RulesUnder(fields, keyword, w)
    ensures forall w, i: nat :: UnderWitness(fields', keyword', w, i) <==> Built(gathered, text, done + {a}, w, i, library)
  {
    forall w, i: nat
      ensures UnderWitness(fields', keyword', w, i) <==> Built(gathered, text, done + {a}, w, i, library)
    {
      assert UnderWitness(fields, keyword, w, i) <==> Built(gathered, text, done, w, i, library);
      if IsText(w) { SortAllAt(text[a], w.needle); }
    }
  }

  lemma LeftOutStep(text: Gathered, done: set<Option<string>>, a: Option<string>, i: nat, library: Library)
    requires a in text
    ensures LeftOut(text, done + {a}, i, library)
            <==> LeftOut(text, done, i, library) || (!Indexable(text[a].Keys, library) && i in RuleSet(text[a]))
  {
  }

  /** What one more rule changes of the specification. */
  lemma AppendedRule(gates: seq<Gate>, base: nat, g: Gate, library: Library)
    requires base <= |gates|
    ensures forall w, i: nat :: Filed(gates + [g], base, i, w, library)
                                <==> Filed(gates, base, i, w, library) || (i == |gates| && w in WitnessesOf(g) && !HasText(g))
    ensures forall i: nat :: Always(gates + [g], base, i, library)
                             <==> Always(gates, base, i, library) || (i == |gates| && g.analysis.Open?)
    ensures forall i: nat :: Held(gates + [g], base, i) <==> Held(gates, base, i) || (i == |gates| && HasText(g))
  {
    forall a ensures NeedlesFor(gates + [g], base, a) == NeedlesFor(gates, base, a) {
      NeedlesStay(gates, g, base, a);
    }
    assert forall i: nat | i < |gates| :: (gates + [g])[i] == gates[i];
  }

  /** Recording witnesses that need no automaton leaves the automata as they were. */
  lemma RecordedWithoutText(before: Fields, after: Fields, text: Gathered, keyword: Option<NeedleTable>, i: nat, ws: seq<Witness>)
    requires forall w | w in ws :: !IsText(w)
    requires forall w, j: nat :: GatheredUnder(after, text, w, j) <==> GatheredUnder(before, map[], w, j) || (j == i && w in ws)
    requires forall f :: EntryAt(after, f).needles == EntryAt(before, f).needles
    ensures forall w, j: nat :: UnderWitness(after, keyword, w, j) <==> UnderWitness(before, keyword, w, j) || (j == i && w in ws)
  {
    forall w, j: nat
      ensures UnderWitness(after, keyword, w, j) <==> UnderWitness(before, keyword, w, j) || (j == i && w in ws)
    {
      assert GatheredUnder(after, text, w, j) <==> GatheredUnder(before, map[], w, j) || (j == i && w in ws);
    }
  }

  // ----- What a lookup selects -----

  ghost predicate NeedleSelects(needles: Option<NeedleTable>, haystack: string, i: nat) {
    needles.Some? && exists x :: x in needles.value.rules && Occurs(x, haystack) && i in needles.value.rules[x]
  }

  ghost predicate ProjectionSelects(entry: FieldEntry, folded: string, i: nat) {
    i in At(entry.exact, folded) || NeedleSelects(entry.needles, folded, i)
  }

  ghost predicate SomeSelects(entry: FieldEntry, ps: seq<string>, k: nat, fold: string -> string, i: nat)
    requires k <= |ps|
  {
    k > 0 && (SomeSelects(entry, ps, k - 1, fold, i) || ProjectionSelects(entry, fold(ps[k - 1]), i))
  }

  lemma {:induction false} NothingSelects(entry: FieldEntry, ps: seq<string>, k: nat, fold: string -> string)
    requires k <= |ps| && entry.exact == map[] && entry.needles.None?
    ensures forall i: nat :: !SomeSelects(entry, ps, k, fold, i)
  {
    if k > 0 { NothingSelects(entry, ps, k - 1, fold); }
  }

  ghost predicate FieldSelects(entry: FieldEntry, f: string, e: Event, i: nat) {
    GetField(e.root, f).Some?
    && var ps := Projections(GetField(e.root, f).value);
       (i in entry.presence || SomeSelects(entry, ps, |ps|, e.fold, i))
  }

  lemma UnknownFieldSelectsNothing(f: string, e: Event)
    ensures forall i: nat :: !FieldSelects(FieldEntry([], map[], None), f, e, i)
  {
    if GetField(e.root, f).Some? {
      var ps := Projections(GetField(e.root, f).value);
      NothingSelects(FieldEntry([], map[], None), ps, |ps|, e.fold);
    }
  }

  ghost function SetOfNames(names: seq<string>): set<string> {
    set f | f in names
  }

  /** A key's bucket holds the fields registered under it. */
  lemma KeyVisits(probes: map<string, seq<string>>, fields: Fields, key: string)
    requires ProbesFields(probes, fields)
    ensures forall f :: (if key in probes then f in SetOfNames(probes[key]) else false) <==> f in fields && key in ProbeKeys(f)
  {
    assert forall f :: Registered(probes, key, f) <==> f in fields && key in ProbeKeys(f);
  }

  ghost predicate AnySelects(fields: Fields, visited: set<string>, e: Event, i: nat) {
    exists f :: f in visited && FieldSelects(EntryAt(fields, f), f, e, i)
  }

  ghost function ProbedFields(fields: Fields, e: Event): set<string> {
    set f | f in fields && Probed(e.root, f)
  }

  ghost predicate TextSelects(keyword: Option<NeedleTable>, ss: seq<string>, k: nat, fold: string -> string, i: nat)
    requires k <= |ss|
  {
    k > 0 && (TextSelects(keyword, ss, k - 1, fold, i) || NeedleSelects(keyword, fold(ss[k - 1]), i))
  }

  lemma {:induction false} NoTextSelects(ss: seq<string>, k: nat, fold: string -> string)
    requires k <= |ss|
    ensures forall i: nat :: !TextSelects(None, ss, k, fold, i)
  {
    if k > 0 { NoTextSelects(ss, k - 1, fold); }
  }

  // ----- Lookups select what is filed -----

  predicate OnField(w: Witness, f: string) {
    !w.Keyword? && w.field == f
  }

  lemma {:induction false} SomeSelectsMeans(entry: FieldEntry, ps: seq<string>, k: nat, fold: string -> string, i: nat)
    requires k <= |ps|
    ensures SomeSelects(entry, ps, k, fold, i) <==> exists j | 0 <= j < k :: ProjectionSelects(entry, fold(ps[j]), i)
  {
    if k > 0 { SomeSelectsMeans(entry, ps, k - 1, fold, i); }
  }

  lemma {:induction false} TextSelectsMeans(keyword: Option<NeedleTable>, ss: seq<string>, k: nat, fold: string -> string, i: nat)
    requires k <= |ss|
    ensures TextSelects(keyword, ss, k, fold, i) <==> exists j | 0 <= j < k :: NeedleSelects(keyword, fold(ss[j]), i)
  {
    if k > 0 { TextSelectsMeans(keyword, ss, k - 1, fold, i); }
  }

  lemma FieldWitness(fields: Fields, keyword: Option<NeedleTable>, f: string, e: Event, i: nat) returns (w: Witness)
    requires FieldSelects(EntryAt(fields, f), f, e, i)
    ensures OnField(w, f) && UnderWitness(fields, keyword, w, i) && Fires(w, e)
  {
    var entry, ps := EntryAt(fields, f), Projections(GetField(e.root, f).value);
    if i in entry.presence {
      w := Presence(f);
    } else {
      SomeSelectsMeans(entry, ps, |ps|, e.fold, i);
      var j :| 0 <= j < |ps| && ProjectionSelects(entry, e.fold(ps[j]), i);
      if i in At(entry.exact, e.fold(ps[j])) {
        w := ExactIs(f, e.fold(ps[j]));
      } else {
        var x :| x in entry.needles.value.rules && Occurs(x, e.fold(ps[j])) && i in entry.needles.value.rules[x];
        w := Substring(f, x);
      }
    }
  }

  lemma FiledIsSelected(fields: Fields, keyword: Option<NeedleTable>, w: Witness, e: Event, i: nat)
    requires !w.Keyword? && UnderWitness(fields, keyword, w, i) && Fires(w, e)
    ensures w.field in fields && FieldSelects(EntryAt(fields, w.field), w.field, e, i)
  {
    var entry, ps := EntryAt(fields, w.field), Projections(GetField(e.root, w.field).value);
    SomeSelectsMeans(entry, ps, |ps|, e.fold, i);
    if w.ExactIs? {
      var j :| 0 <= j < |ps| && e.fold(ps[j]) == w.value;
      assert ProjectionSelects(entry, e.fold(ps[j]), i);
    } else if w.Substring? {
      var j :| 0 <= j < |ps| && Occurs(w.needle, e.fold(ps[j]));
      assert NeedleSelects(entry.needles, e.fold(ps[j]), i);
      assert ProjectionSelects(entry, e.fold(ps[j]), i);
    }
  }

  lemma KeywordSelectsFiled(fields: Fields, keyword: Option<NeedleTable>, e: Event, i: nat)
    ensures var ss := StringValues(e);
            TextSelects(keyword, ss, |ss|, e.fold, i) <==> exists x :: UnderWitness(fields, keyword, Keyword(x), i) && KeywordFires(x, e)
  {
    var ss := StringValues(e);
    TextSelectsMeans(keyword, ss, |ss|, e.fold, i);
    if TextSelects(keyword, ss, |ss|, e.fold, i) {
      var j :| 0 <= j < |ss| && NeedleSelects(keyword, e.fold(ss[j]), i);
      var x :| x in keyword.value.rules && Occurs(x, e.fold(ss[j])) && i in keyword.value.rules[x];
      assert UnderWitness(fields, keyword, Keyword(x), i) && KeywordFires(x, e);
    }
    if x :| UnderWitness(fields, keyword, Keyword(x), i) && KeywordFires(x, e) {
      var j :| 0 <= j < |ss| && Occurs(x, e.fold(ss[j]));
      assert NeedleSelects(keyword, e.fold(ss[j]), i);
    }
  }

  ghost predicate Looked(fields: Fields, keyword: Option<NeedleTable>, e: Event, i: nat) {
    AnySelects(fields, ProbedFields(fields, e), e, i) || TextSelects(keyword, StringValues(e), |StringValues(e)|, e.fold, i)
  }

  /** Looking an event up selects the rules filed under a witness that fires. */
  lemma LookedIsFiled(fields: Fields, keyword: Option<NeedleTable>, e: Event, i: nat)
    ensures Looked(fields, keyword, e, i) <==> exists w :: UnderWitness(fields, keyword, w, i) && FiresSparsely(w, e)
  {
    KeywordSelectsFiled(fields, keyword, e, i);
    if AnySelects(fields, ProbedFields(fields, e), e, i) {
      var f :| f in ProbedFields(fields, e) && FieldSelects(EntryAt(fields, f), f, e, i);
      var w := FieldWitness(fields, keyword, f, e, i);
      assert FiresSparsely(w, e);
    }
    if x :| UnderWitness(fields, keyword, Keyword(x), i) && KeywordFires(x, e) {
      assert FiresSparsely(Keyword(x), e);
    }
    if w :| UnderWitness(fields, keyword, w, i) && FiresSparsely(w, e) {
      if w.Keyword? {
        assert KeywordFires(w.needle, e) && w == Keyword(w.needle);
      } else {
        FiledIsSelected(fields, keyword, w, e, i);
        assert w.field in ProbedFields(fields, e);
      }
    }
  }

  // ----- Product buckets -----

  type Buckets = map<Option<string>, seq<nat>>

  predicate Belongs(always: seq<nat>, gates: seq<Gate>, p: Option<string>, i: nat) {
    i in always && i < |gates| && gates[i].product == p
  }

  predicate InBucket(buckets: Buckets, p: Option<string>, i: nat) {
    i in At(buckets, p)
  }

  /** Each always-evaluated rule is in the bucket of its product and in no other. */
  ghost predicate Partition(always: seq<nat>, buckets: Buckets, gates: seq<Gate>) {
    forall p, i: nat :: InBucket(buckets, p, i) <==> Belongs(always, gates, p, i)
  }

  function Grown(buckets: Buckets, product: Option<string>, i: nat): Buckets {
    buckets[product := At(buckets, product) + [i]]
  }

  lemma GrownAt(buckets: Buckets, product: Option<string>, i: nat, p: Option<string>)
    ensures At(Grown(buckets, product, i), p) == if p == product then At(buckets, p) + [i] else At(buckets, p)
  {
  }

  lemma PartitionGrows(always: seq<nat>, buckets: Buckets, gates: seq<Gate>, i: nat)
    requires Partition(always, buckets, gates) && i < |gates|
    ensures Partition(always + [i], Grown(buckets, gates[i].product, i), gates)
  {
    var product := gates[i].product;
    forall p, j: nat
      ensures InBucket(Grown(buckets, product, i), p, j) <==> Belongs(always + [i], gates, p, j)
    {
      GrownAt(buckets, product, i, p);
      assert InBucket(buckets, p, j) <==> Belongs(always, gates, p, j);
    }
  }

  lemma PartitionKept(always: seq<nat>, buckets: Buckets, gates: seq<Gate>, g: Gate)
    requires Partition(always, buckets, gates) && forall i | i in always :: i < |gates|
    ensures Partition(always, buckets, gates + [g])
  {
    forall p, i: nat ensures InBucket(buckets, p, i) <==> Belongs(always, gates + [g], p, i) {
      assert InBucket(buckets, p, i) <==> Belongs(always, gates, p, i);
    }
  }

  predicate BucketsAscend(buckets: Buckets) {
    forall p | p in buckets :: StrictlyAscending(buckets[p])
  }

  /** A new last rule keeps the buckets ascending. */
  lemma BucketsGrow(always: seq<nat>, buckets: Buckets, gates: seq<Gate>, product: Option<string>)
    requires Partition(always, buckets, gates) && BucketsAscend(buckets)
    ensures BucketsAscend(Grown(buckets, product, |gates|))
  {
    forall i: nat | i in At(buckets, product) ensures i < |gates| {
      assert InBucket(buckets, product, i);
    }
    ExtendAscending(At(buckets, product), |gates|);
  }

  lemma PartitionSorts(always: seq<nat>, buckets: Buckets, gates: seq<Gate>)
    requires Partition(always, buckets, gates)
    ensures Partition(SortDedup(always), SortAll(buckets), gates) && BucketsAscend(SortAll(buckets))
  {
    forall p, i: nat
      ensures InBucket(SortAll(buckets), p, i) <==> Belongs(SortDedup(always), gates, p, i)
    {
      SortAllAt(buckets, p);
      assert InBucket(buckets, p, i) <==> Belongs(always, gates, p, i);
    }
  }

  // ----- Filing one witness -----

  lemma PresenceFiled(fields: Fields, text: Gathered, f: string, i: nat)
    ensures var entry := EntryAt(fields, f);
            var fields' := fields[f := entry.(presence := entry.presence + [i])];
            && (forall w :: RulesGathered(fields', text, w) == RulesGathered(fields, text, w) + (if w == Presence(f) then [i] else []))
            && (forall g :: EntryAt(fields', g).needles == EntryAt(fields, g).needles)
  {
  }

  lemma ExactFiled(fields: Fields, text: Gathered, f: string, value: string, i: nat)
    ensures var entry := EntryAt(fields, f);
            var fields' := fields[f := entry.(exact := entry.exact[value := At(entry.exact, value) + [i]])];
            && (forall w :: RulesGathered(fields', text, w) == RulesGathered(fields, text, w) + (if w == ExactIs(f, value) then [i] else []))
            && (forall g :: EntryAt(fields', g).needles == EntryAt(fields, g).needles)
  {
  }

  function Pushed(text: Gathered, w: Witness, i: nat): Gathered
    requires IsText(w)
  {
    var needles := GatheredAt(text, Automaton(w));
    text[Automaton(w) := needles[w.needle := At(needles, w.needle) + [i]]]
  }

  lemma NeedleFiled(fields: Fields, text: Gathered, w: Witness, i: nat)
    requires IsText(w)
    ensures forall w' :: RulesGathered(fields, Pushed(text, w, i), w') == RulesGathered(fields, text, w') + (if w' == w then [i] else [])
    ensures forall a :: GatheredAt(Pushed(text, w, i), a).Keys == GatheredAt(text, a).Keys + NeedlesIn([w], a)
  {
    assert TextWitness(Automaton(w), w.needle) == w;
  }

  lemma NoNeedleIn(w: Witness)
    requires !IsText(w)
    ensures forall a :: NeedlesIn([w], a) == {}
  {
    assert forall a, x :: TextWitness(a, x) !in [w];
  }

  lemma AutomatonFiled(fields: Fields, keyword: Option<NeedleTable>, f: string, table: NeedleTable)
    ensures var fields' := fields[f := EntryAt(fields, f).(needles := Some(table))];
            forall w :: RulesUnder(fields', keyword, w)
                        == if w.Substring? && w.field == f then At(table.rules, w.needle) else RulesUnder(fields, keyword, w)
  {
  }

  class CandidateIndex {
    const lower: string -> string
    const library: Library
    var fields: Fields
    var probes: map<string, seq<string>>
    var keyword: Option<NeedleTable>
    var always: seq<nat>
    var alwaysByProduct: map<Option<string>, seq<nat>>
    var pending: seq<nat>
    var ruleCount: nat
    var baseline: nat
    ghost var gates: seq<Gate>

    ghost predicate FilesWitnesses()
      reads this
    {
      baseline <= |gates|
      && forall w, i: nat :: UnderWitness(fields, keyword, w, i) <==> Filed(gates, baseline, i, w, library)
    }

    /** The product buckets partition the always-evaluated rules. */
    ghost predicate Partitions()
      reads this
    {
      Partition(always, alwaysByProduct, gates)
    }

    ghost predicate Valid()
      reads this
    {
      && baseline <= |gates| == ruleCount
      && FilesWitnesses()
      && ProbesFields(probes, fields)
      && Partitions()
      && StrictlyAscending(always)
      && BucketsAscend(alwaysByProduct)
      && (forall i: nat :: i in always <==> Always(gates, baseline, i, library))
      && StrictlyAscending(pending)
      && (forall i: nat :: i in pending <==> Held(gates, baseline, i))
    }

    // ----- Building -----

    /** The entry of a field, created and registered for probing when it is new. */
    method Entry(f: string)
      requires ProbesFields(probes, fields)
      modifies this`fields, this`probes
      ensures ProbesFields(probes, fields)
      ensures fields == old(fields)[f := EntryAt(old(fields), f)]
    {
      probes := PushProbe(probes, UnescapeBrackets(f), f);
      if NestedRootKey(f).Some? {
        probes := PushProbe(probes, NestedRootKey(f).value, f);
      } else if PositionalRootKey(f).Some? {
        probes := PushProbe(probes, PositionalRootKey(f).value, f);
      }
      ProbeKeyCases(f);
      assert forall key, f' :: Registered(probes, key, f') <==> Registered(old(probes), key, f') || (f' == f && key in ProbeKeys(f));
      fields := fields[f := EntryAt(fields, f)];
    }

    method MarkAlways(i: nat, product: Option<string>)
      requires Partitions() && i < |gates| && gates[i].product == product
      modifies this`always, this`alwaysByProduct
      ensures Partitions() && always == old(always) + [i]
      ensures alwaysByProduct == Grown(old(alwaysByProduct), product, i)
    {
      PartitionGrows(always, alwaysByProduct, gates, i);
      always := always + [i];
      alwaysByProduct := alwaysByProduct[product := At(alwaysByProduct, product) + [i]];
    }

    method MarkAllAlways(indices: seq<nat>, rules: seq<Rule>)
      requires Partitions() && gates == GatesOf(rules, lower)
      modifies this`always, this`alwaysByProduct
      ensures Partitions()
      ensures forall i: nat :: i in always <==> i in old(always) || (i in indices && i < |rules|)
    {
      for k := 0 to |indices|
        invariant Partitions()
        invariant forall i: nat :: i in always <==> i in old(always) || (i in indices[..k] && i < |rules|)
      {
        assert indices[..k + 1] == indices[..k] + [indices[k]];
        if indices[k] < |rules| {
          MarkAlways(indices[k], LowerProduct(rules[indices[k]].product, lower));
        }
      }
      assert indices[..|indices|] == indices;
    }

    /** Files one witness of rule `i`; text witnesses wait for their automaton. */
    method Record(i: nat, w: Witness, text: Gathered) returns (text': Gathered)
      requires ProbesFields(probes, fields)
      modifies this`fields, this`probes
      ensures ProbesFields(probes, fields)
      ensures forall w' :: RulesGathered(fields, text', w')
                           == RulesGathered(old(fields), text, w') + (if w' == w then [i] else [])
      ensures forall f :: EntryAt(fields, f).needles == EntryAt(old(fields), f).needles
      ensures forall a :: GatheredAt(text', a).Keys == GatheredAt(text, a).Keys + NeedlesIn([w], a)
    {
      text' := text;
      match w
      case Presence(f) =>
        PresenceFiled(fields, text, f, i);
        NoNeedleIn(w);
        Entry(f);
        fields := fields[f := fields[f].(presence := fields[f].presence + [i])];
      case ExactIs(f, value) =>
        ExactFiled(fields, text, f, value, i);
        NoNeedleIn(w);
        Entry(f);
        fields := fields[f := fields[f].(exact := fields[f].exact[value := At(fields[f].exact, value) + [i]])];
      case _ =>
        NeedleFiled(fields, text, w, i);
        text' := Pushed(text, w, i);
    }

    method RecordAll(i: nat, ws: seq<Witness>, text: Gathered) returns (text': Gathered)
      requires ProbesFields(probes, fields)
      modifies this`fields, this`probes
      ensures ProbesFields(probes, fields)
      ensures forall w, j: nat :: GatheredUnder(fields, text', w, j)
                                  <==> GatheredUnder(old(fields), text, w, j) || (j == i && w in ws)
      ensures forall f :: EntryAt(fields, f).needles == EntryAt(old(fields), f).needles
      ensures forall a :: GatheredAt(text', a).Keys == GatheredAt(text, a).Keys + NeedlesIn(ws, a)
    {
      text' := text;
      for k := 0 to |ws|
        invariant ProbesFields(probes, fields)
        invariant forall w, j: nat :: GatheredUnder(fields, text', w, j)
                                      <==> GatheredUnder(old(fields), text, w, j) || (j == i && w in ws[..k])
        invariant forall f :: EntryAt(fields, f).needles == EntryAt(old(fields), f).needles
        invariant forall a :: GatheredAt(text', a).Keys == GatheredAt(text, a).Keys + NeedlesIn(ws[..k], a)
      {
        assert ws[..k + 1] == ws[..k] + [ws[k]];
        text' := Record(i, ws[k], text');
      }
      assert ws[..|ws|] == ws;
    }

    /** The first `n` rules are filed. */
    ghost predicate GatheredFirst(n: nat, text: Gathered)
      reads this
    {
      && n <= |gates| && ProbesFields(probes, fields) && Partitions() && NoNeedles(fields)
      && Gathers(gates, n, fields, text)
      && forall j: nat :: j in always <==> j < n && gates[j].analysis.Open?
    }

    lemma StartsEmpty()
      requires fields == map[] && probes == map[] && always == [] && alwaysByProduct == map[]
      ensures GatheredFirst(0, map[])
    {
      NothingGathered(gates);
      assert forall p, i: nat :: !InBucket(map[], p, i) && !Belongs([], gates, p, i);
    }

    /** Files rule `i`: an open one as always-evaluated, another under its witnesses. */
    method GatherRule(i: nat, rule: Rule, text: Gathered) returns (text': Gathered)
      requires GatheredFirst(i, text) && i < |gates| && gates[i] == GateOf(rule, lower)
      modifies this`fields, this`probes, this`always, this`alwaysByProduct
      ensures GatheredFirst(i + 1, text')
    {
      var g := GateOf(rule, lower);
      ghost var before := fields;
      text' := text;
      if g.analysis.Open? {
        MarkAlways(i, g.product);
      } else {
        text' := RecordAll(i, g.analysis.ws, text);
      }
      GatherStep(gates, i, before, text, fields, text');
    }

    method Gather(rules: seq<Rule>) returns (text: Gathered)
      requires fields == map[] && probes == map[] && always == [] && alwaysByProduct == map[]
      requires gates == GatesOf(rules, lower)
      modifies this`fields, this`probes, this`always, this`alwaysByProduct
      ensures GatheredFirst(|gates|, text)
    {
      text := map[];
      StartsEmpty();
      for i := 0 to |rules|
        invariant GatheredFirst(i, text)
      {
        text := GatherRule(i, rules[i], text);
      }
    }

    /** Builds one automaton, or marks the rules that needed it as always-evaluated. */
    method BuildAutomaton(a: Option<string>, needles: map<string, seq<nat>>, rules: seq<Rule>)
      requires ProbesFields(probes, fields) && Partitions() && gates == GatesOf(rules, lower)
      modifies this`fields, this`probes, this`keyword, this`always, this`alwaysByProduct
      ensures ProbesFields(probes, fields) && Partitions()
      ensures forall w :: RulesUnder(fields, keyword, w)
                          == if IsText(w) && Automaton(w) == a && Indexable(needles.Keys, library) then At(SortAll(needles), w.needle)
                             else RulesUnder(old(fields), old(keyword), w)
      ensures forall i: nat :: i in always <==>
                (i in old(always) || (!Indexable(needles.Keys, library) && i in RuleSet(needles) && i < |rules|))
    {
      var orphans := RulesOf(needles);
      if Indexable(needles.Keys, library) {
        if a.Some? {
          AutomatonFiled(fields, keyword, a.value, NeedleTable(SortAll(needles)));
          Entry(a.value);
          fields := fields[a.value := fields[a.value].(needles := Some(NeedleTable(SortAll(needles))))];
        } else {
          keyword := Some(NeedleTable(SortAll(needles)));
        }
      } else {
        MarkAllAlways(orphans, rules);
      }
    }

    method BuildAutomata(text: Gathered, rules: seq<Rule>)
      requires ProbesFields(probes, fields) && Partitions() && gates == GatesOf(rules, lower)
      requires NoNeedles(fields) && keyword == None
      modifies this`fields, this`probes, this`keyword, this`always, this`alwaysByProduct
      ensures ProbesFields(probes, fields) && Partitions()
      ensures forall w, i: nat :: UnderWitness(fields, keyword, w, i)
                                  <==> Built(old(fields), text, text.Keys, w, i, library)
      ensures forall i: nat :: i in always <==> i in old(always) || (i < |rules| && LeftOut(text, text.Keys, i, library))
    {
      var todo := text.Keys;
      while todo != {}
        invariant todo <= text.Keys
        invariant ProbesFields(probes, fields) && Partitions()
        invariant forall w, i: nat :: UnderWitness(fields, keyword, w, i)
                                      <==> Built(old(fields), text, text.Keys - todo, w, i, library)
        invariant forall i: nat :: i in always
                                   <==> i in old(always) || (i < |rules| && LeftOut(text, text.Keys - todo, i, library))
      {
        var a :| a in todo;
        ghost var done, fields', keyword' := text.Keys - todo, fields, keyword;
        BuildAutomaton(a, text[a], rules);
        BuiltStep(old(fields), text, done, a, library, fields', keyword', fields, keyword);
        forall i: nat { LeftOutStep(text, done, a, i, library); }
        todo := todo - {a};
        assert text.Keys - todo == done + {a};
      }
      assert text.Keys - todo == text.Keys;
    }

    /** Sorts every list, dropping duplicates. */
    method SortBuckets()
      requires ProbesFields(probes, fields) && Partitions()
      modifies this`fields, this`always, this`alwaysByProduct
      ensures ProbesFields(probes, fields) && Partitions()
      ensures forall w, i: nat :: UnderWitness(fields, keyword, w, i) <==> UnderWitness(old(fields), keyword, w, i)
      ensures StrictlyAscending(always) && forall i: nat :: i in always <==> i in old(always)
      ensures BucketsAscend(alwaysByProduct)
    {
      SortedFields(fields, keyword);
      PartitionSorts(always, alwaysByProduct, gates);
      fields := SortFields(fields);
      always := SortDedup(always);
      alwaysByProduct := SortAll(alwaysByProduct);
    }

    constructor Build(rules: seq<Rule>, lower: string -> string, library: Library)
      ensures Valid() && this.lower == lower && this.library == library
      ensures gates == GatesOf(rules, lower) && baseline == |rules|
    {
      this.lower, this.library := lower, library;
      fields, probes, keyword := map[], map[], None;
      always, alwaysByProduct, pending := [], map[], [];
      ruleCount, baseline := |rules|, |rules|;
      gates := GatesOf(rules, lower);
      new;
      var text := Gather(rules);
      ghost var gathered := fields;
      BuildAutomata(text, rules);
      SortBuckets();
      BuiltIsFiled(gates, gathered, text, library);
      LeftOutIsOrphan(gates, gathered, text, library);
    }

    // ----- Appending -----

    method AppendOpen(ruleIdx: nat, g: Gate)
      requires Valid() && ruleIdx == ruleCount && g.analysis.Open?
      modifies this
      ensures Valid() && baseline == old(baseline) && gates == old(gates) + [g]
    {
      AppendedRule(gates, baseline, g, library);
      assert forall i: nat | i in always :: i < |gates|;
      PartitionKept(always, alwaysByProduct, gates, g);
      BucketsGrow(always, alwaysByProduct, gates, g.product);
      ExtendAscending(always, ruleIdx);
      ruleCount := ruleIdx + 1;
      gates := gates + [g];
      MarkAlways(ruleIdx, g.product);
    }

    method AppendHeld(ruleIdx: nat, g: Gate)
      requires Valid() && ruleIdx == ruleCount && HasText(g)
      modifies this
      ensures Valid() && baseline == old(baseline) && gates == old(gates) + [g]
    {
      AppendedRule(gates, baseline, g, library);
      assert forall i: nat | i in always :: i < |gates|;
      ExtendAscending(pending, ruleIdx);
      PartitionKept(always, alwaysByProduct, gates, g);
      ruleCount := ruleIdx + 1;
      gates := gates + [g];
      pending := pending + [ruleIdx];
    }

    method AppendIndexed(ruleIdx: nat, g: Gate)
      requires Valid() && ruleIdx == ruleCount && g.analysis.Known? && !HasText(g)
      modifies this
      ensures Valid() && baseline == old(baseline) && gates == old(gates) + [g]
    {
      AppendedRule(gates, baseline, g, library);
      assert forall i: nat | i in always :: i < |gates|;
      PartitionKept(always, alwaysByProduct, gates, g);
      ruleCount := ruleIdx + 1;
      gates := gates + [g];
      var text := RecordAll(ruleIdx, g.analysis.ws, map[]);
      RecordedWithoutText(old(fields), fields, text, keyword, ruleIdx, g.analysis.ws);
    }

    /** Adds the next rule; one with text witnesses is a candidate for every event until the next build. */
    method AppendRule(ruleIdx: nat, rule: Rule)
      requires Valid() && ruleIdx == ruleCount
      modifies this
      ensures Valid() && baseline == old(baseline)
      ensures gates == old(gates) + [GateOf(rule, lower)]
    {
      var g := GateOf(rule, lower);
      if g.analysis.Open? {
        AppendOpen(ruleIdx, g);
      } else if HasText(g) {
        AppendHeld(ruleIdx, g);
      } else {
        AppendIndexed(ruleIdx, g);
      }
    }

    // ----- Candidates -----

    /** Every needle that occurs selects its rules, whatever order the automaton reports them in. */
    method MarkHaystack(needles: NeedleTable, haystack: string, found: CandidateSet)
      requires found.Valid()
      modifies found, found.seen
      ensures found.Valid()
      ensures forall i: nat :: i in found.out
                               <==> i in old(found.out) || (i < found.seen.Length && NeedleSelects(Some(needles), haystack, i))
    {
      var todo := needles.rules.Keys;
      while todo != {}
        invariant found.Valid() && todo <= needles.rules.Keys
        invariant forall i: nat :: i in found.out <==>
                    (i in old(found.out)
                     || (i < found.seen.Length
                         && exists x :: x in needles.rules && x !in todo && Occurs(x, haystack) && i in needles.rules[x]))
      {
        var x :| x in todo;
        if Occurs(x, haystack) {
          found.Extend(needles.rules[x]);
        }
        todo := todo - {x};
      }
    }

    /** An ASCII haystack is searched in place, another one folded. */
    method Mark(needles: NeedleTable, haystack: string, fold: string -> string, found: CandidateSet)
      requires found.Valid() && IsFold(fold)
      modifies found, found.seen
      ensures found.Valid()
      ensures forall i: nat :: i in found.out
                               <==> i in old(found.out) || (i < found.seen.Length && NeedleSelects(Some(needles), fold(haystack), i))
    {
      forall x ensures IsAscii(haystack) ==> (Occurs(x, haystack) <==> Occurs(x, fold(haystack))) {
        InPlaceSearch(x, haystack, fold);
      }
      if IsAscii(haystack) {
        MarkHaystack(needles, haystack, found);
      } else {
        MarkHaystack(needles, fold(haystack), found);
      }
    }

    method MarkProjection(entry: FieldEntry, projection: string, fold: string -> string, found: CandidateSet)
      requires found.Valid() && IsFold(fold)
      modifies found, found.seen
      ensures found.Valid()
      ensures forall i: nat :: i in found.out
                               <==> i in old(found.out) || (i < found.seen.Length && ProjectionSelects(entry, fold(projection), i))
    {
      if entry.exact != map[] {
        var folded := fold(projection);
        if folded in entry.exact {
          found.Extend(entry.exact[folded]);
        }
        if entry.needles.Some? {
          MarkHaystack(entry.needles.value, folded, found);
        }
      } else if entry.needles.Some? {
        Mark(entry.needles.value, projection, fold, found);
      }
    }

    method MarkProjections(entry: FieldEntry, ps: seq<string>, fold: string -> string, found: CandidateSet)
      requires found.Valid() && IsFold(fold)
      modifies found, found.seen
      ensures found.Valid()
      ensures forall i: nat :: i in found.out
                               <==> i in old(found.out) || (i < found.seen.Length && SomeSelects(entry, ps, |ps|, fold, i))
    {
      for k := 0 to |ps|
        invariant found.Valid()
        invariant forall i: nat :: i in found.out
                                   <==> i in old(found.out) || (i < found.seen.Length && SomeSelects(entry, ps, k, fold, i))
      {
        MarkProjection(entry, ps[k], fold, found);
      }
    }

    method ApplyFieldHit(e: Event, f: string, entry: FieldEntry, found: CandidateSet)
      requires found.Valid() && IsFold(e.fold)
      modifies found, found.seen
      ensures found.Valid()
      ensures forall i: nat :: i in found.out <==> i in old(found.out) || (i < found.seen.Length && FieldSelects(entry, f, e, i))
    {
      var value := GetField(e.root, f);
      if value.None? { return; }
      found.Extend(entry.presence);
      if entry.exact == map[] && entry.needles.None? {
        NothingSelects(entry, Projections(value.value), |Projections(value.value)|, e.fold);
        return;
      }
      MarkProjections(entry, Projections(value.value), e.fold, found);
    }

    method VisitFields(names: seq<string>, e: Event, found: CandidateSet)
      requires found.Valid() && IsFold(e.fold)
      modifies found, found.seen
      ensures found.Valid()
      ensures forall i: nat :: i in found.out
                               <==> i in old(found.out) || (i < found.seen.Length && AnySelects(fields, SetOfNames(names), e, i))
    {
      for k := 0 to |names|
        invariant found.Valid()
        invariant forall i: nat :: i in found.out
                                   <==> i in old(found.out) || (i < found.seen.Length && AnySelects(fields, SetOfNames(names[..k]), e, i))
      {
        assert SetOfNames(names[..k + 1]) == SetOfNames(names[..k]) + {names[k]};
        if names[k] in fields {
          ApplyFieldHit(e, names[k], fields[names[k]], found);
        } else {
          UnknownFieldSelectsNothing(names[k], e);
        }
      }
      assert names[..|names|] == names;
    }

    /** Fields registered under the event's own keys. */
    method VisitKeys(entries: seq<Entry>, e: Event, found: CandidateSet) returns (ghost visited: set<string>)
      requires found.Valid() && IsFold(e.fold) && ProbesFields(probes, fields)
      modifies found, found.seen
      ensures found.Valid()
      ensures forall f :: f in visited <==> f in fields && exists j | 0 <= j < |entries| :: entries[j].key in ProbeKeys(f)
      ensures forall i: nat :: i in found.out
                               <==> i in old(found.out) || (i < found.seen.Length && AnySelects(fields, visited, e, i))
    {
      visited := {};
      for k := 0 to |entries|
        invariant found.Valid()
        invariant forall f :: f in visited <==> f in fields && exists j | 0 <= j < k :: entries[j].key in ProbeKeys(f)
        invariant forall i: nat :: i in found.out
                                   <==> i in old(found.out) || (i < found.seen.Length && AnySelects(fields, visited, e, i))
      {
        var key := entries[k].key;
        KeyVisits(probes, fields, key);
        if key in probes {
          VisitFields(probes[key], e, found);
          visited := visited + SetOfNames(probes[key]);
        }
      }
    }

    method VisitAll(e: Event, found: CandidateSet)
      requires found.Valid() && IsFold(e.fold)
      modifies found, found.seen
      ensures found.Valid()
      ensures forall i: nat :: i in found.out
                               <==> i in old(found.out) || (i < found.seen.Length && AnySelects(fields, fields.Keys, e, i))
    {
      ghost var visited: set<string> := {};
      var todo := fields.Keys;
      while todo != {}
        invariant found.Valid() && todo + visited == fields.Keys
        invariant forall i: nat :: i in found.out
                                   <==> i in old(found.out) || (i < found.seen.Length && AnySelects(fields, visited, e, i))
      {
        var f :| f in todo;
        ApplyFieldHit(e, f, fields[f], found);
        todo := todo - {f};
        visited := visited + {f};
      }
      assert visited == fields.Keys;
    }

    /** Fields under the event's own keys, or every field when the event has no keys to name. */
    method CollectFieldHits(e: Event, found: CandidateSet)
      requires found.Valid() && IsFold(e.fold) && ProbesFields(probes, fields)
      modifies found, found.seen
      ensures found.Valid()
      ensures forall i: nat :: i in found.out
                               <==> i in old(found.out) || (i < found.seen.Length && AnySelects(fields, ProbedFields(fields, e), e, i))
    {
      if e.root.JObj? {
        ghost var visited := VisitKeys(e.root.entries, e, found);
        assert visited == ProbedFields(fields, e);
      } else {
        VisitAll(e, found);
        assert fields.Keys == ProbedFields(fields, e);
      }
    }

    method CollectKeywordHits(e: Event, found: CandidateSet)
      requires found.Valid() && IsFold(e.fold)
      modifies found, found.seen
      ensures found.Valid()
      ensures forall i: nat :: i in found.out
                               <==> i in old(found.out)
                                    || (i < found.seen.Length && TextSelects(keyword, StringValues(e), |StringValues(e)|, e.fold, i))
    {
      var ss := StringValues(e);
      if keyword.None? {
        NoTextSelects(ss, |ss|, e.fold);
        return;
      }
      for k := 0 to |ss|
        invariant found.Valid()
        invariant forall i: nat :: i in found.out
                                   <==> i in old(found.out) || (i < found.seen.Length && TextSelects(keyword, ss, k, e.fold, i))
      {
        Mark(keyword.value, ss[k], e.fold, found);
      }
    }

    /** The candidate rules of an event: exactly those the specification names, in ascending order. */
    method Candidates(e: Event) returns (r: seq<nat>)
      requires Valid() && IsFold(e.fold)
      ensures StrictlyAscending(r) && forall i: nat :: i in r <==> Candidate(gates, baseline, i, e, library)
    {
      var found := new CandidateSet(ruleCount);
      found.Extend(always);
      found.Extend(pending);
      CollectFieldHits(e, found);
      CollectKeywordHits(e, found);
      r := found.Finish();
      forall i: nat ensures i in r <==> Candidate(gates, baseline, i, e, library) {
        assert i in r <==> i in multiset(found.out);
        LookedIsFiled(fields, keyword, e, i);
        CandidateIsFiled(gates, baseline, i, e, library);
      }
    }

    /** Given the event's product, always-evaluated rules of another product are left out. */
    method CandidatesWithLogsource(e: Event, product: Option<string>) returns (r: seq<nat>)
      requires Valid() && IsFold(e.fold)
      ensures StrictlyAscending(r)
      ensures product.None? ==> forall i: nat :: i in r <==> Candidate(gates, baseline, i, e, library)
      ensures product.Some? ==> forall i: nat :: i in r <==> Routed(gates, baseline, i, e, lower(product.value), library)
    {
      if product.None? {
        r := Candidates(e);
        return;
      }
      var p := lower(product.value);
      var found := new CandidateSet(ruleCount);
      found.Extend(At(alwaysByProduct, None));
      found.Extend(At(alwaysByProduct, Some(p)));
      found.Extend(pending);
      CollectFieldHits(e, found);
      CollectKeywordHits(e, found);
      r := found.Finish();
      forall i: nat ensures i in r <==> Routed(gates, baseline, i, e, p, library) {
        assert InBucket(alwaysByProduct, None, i) <==> Belongs(always, gates, None, i);
        assert InBucket(alwaysByProduct, Some(p), i) <==> Belongs(always, gates, Some(p), i);
        assert i in r <==> i in multiset(found.out);
        LookedIsFiled(fields, keyword, e, i);
      }
    }

    /** Rules the product filter may leave out. */
    ghost function ConflictingRules(product: string): set<nat>
      requires Valid()
      reads this
    {
      set i | i in always && Conflicts(gates[i], product)
    }

    /** How many always-evaluated rules an event of a product skips; the subtraction never underflows. */
    function ConflictingUnindexableCount(product: Option<string>): (n: nat)
      requires Valid()
      reads this
      ensures product.None? ==> n == 0
      ensures product.Some? ==> n == |ConflictingRules(lower(product.value))|
    {
      if product.None? then 0
      else
        var p := lower(product.value);
        PartitionSizes(p);
        |always| - |At(alwaysByProduct, None)| - |At(alwaysByProduct, Some(p))|
    }

    /** The conflicting rules are what the two compatible buckets leave of the always-evaluated set. */
    lemma PartitionSizes(product: string)
      requires Valid()
      ensures |always| == |At(alwaysByProduct, None)| + |At(alwaysByProduct, Some(product))| + |ConflictingRules(product)|
    {
      var none, same := At(alwaysByProduct, None), At(alwaysByProduct, Some(product));
      forall i: nat
        ensures i in always <==> i in none || i in same || i in ConflictingRules(product)
        ensures i in none ==> i !in same && i !in ConflictingRules(product)
        ensures i in same ==> i !in ConflictingRules(product)
      {
        assert InBucket(alwaysByProduct, None, i) <==> Belongs(always, gates, None, i);
        assert InBucket(alwaysByProduct, Some(product), i) <==> Belongs(always, gates, Some(product), i);
      }
      SplitSizes(always, none, same, ConflictingRules(product));
    }
  }
}
