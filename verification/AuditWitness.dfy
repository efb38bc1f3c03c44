/** Moving the witnesses of an array member's body to the whole event (`crates/rsigma-eval/examples/witness_audit.rs`). */
module AuditWitness {
  import opened Results
  import opened Folding

  /** A literal in a field of the member or anywhere in it, or a field of the member. */
  datatype Witness = Literal(field: Option<string>, text: string) | Presence(name: string)

  /** An array member: the strings of each of its fields, folded. */
  type Member = map<string, seq<string>>

  ghost predicate SomeContains(strings: seq<string>, text: string) {
    exists i | 0 <= i < |strings| :: Infix(text, strings[i])
  }

  ghost predicate HoldsOn(w: Witness, m: Member) {
    match w
    case Literal(Some(f), text) => f in m && SomeContains(m[f], text)
    case Literal(None, text) => exists f | f in m :: SomeContains(m[f], text)
    case Presence(f) => f in m
  }

  /** `keywordize`: the literals, to be looked for anywhere; nothing when there are none. */
  function Keywordize(ws: seq<Witness>): Option<seq<string>> {
    var texts := Texts(ws, |ws|);
    if texts == [] then None else Some(texts)
  }

  function Texts(ws: seq<Witness>, n: nat): (r: seq<string>)
    requires n <= |ws|
    ensures forall t :: t in r <==> exists i | 0 <= i < n :: ws[i].Literal? && ws[i].text == t
    ensures r == [] <==> forall i | 0 <= i < n :: !ws[i].Literal?
  {
    if n == 0 then [] else Texts(ws, n - 1) + (if ws[n - 1].Literal? then [ws[n - 1].text] else [])
  }

  /** The strings of an event include those of its members. */
  ghost predicate Includes(strings: seq<string>, m: Member) {
    forall f, i | f in m && 0 <= i < |m[f]| :: m[f][i] in strings
  }

  /** Whenever a witness holds on a member, a keyword is in the event, or none are asked for. */
  ghost predicate SoundFor(ws: seq<Witness>, m: Member, strings: seq<string>) {
    (exists i | 0 <= i < |ws| :: HoldsOn(ws[i], m)) ==>
      Keywordize(ws).None? || exists t | t in Keywordize(ws).value :: SomeContains(strings, t)
  }

  /** Dropping presence witnesses is sound exactly when the set is all literals or has none. */
  lemma KeywordizeSound(ws: seq<Witness>)
    ensures (forall m: Member, strings: seq<string> | Includes(strings, m) :: SoundFor(ws, m, strings))
            <==> (forall i | 0 <= i < |ws| :: ws[i].Literal?) || (forall i | 0 <= i < |ws| :: ws[i].Presence?)
  {
    if forall i | 0 <= i < |ws| :: ws[i].Literal? {
      forall m: Member, strings: seq<string> | Includes(strings, m) ensures SoundFor(ws, m, strings) {
        LiteralsSound(ws, m, strings);
      }
    } else if exists i | 0 <= i < |ws| :: ws[i].Literal? {
      var p :| 0 <= p < |ws| && ws[p].Presence?;
      var l :| 0 <= l < |ws| && ws[l].Literal?;
      assert ws[l].text in Texts(ws, |ws|);
      var m: Member := map[ws[p].name := []];
      assert HoldsOn(ws[p], m) && Includes([], m) && !SoundFor(ws, m, []);
    } else {
      assert Keywordize(ws).None?;
    }
  }

  lemma LiteralsSound(ws: seq<Witness>, m: Member, strings: seq<string>)
    requires Includes(strings, m) && forall i | 0 <= i < |ws| :: ws[i].Literal?
    ensures SoundFor(ws, m, strings)
  {
    if k :| 0 <= k < |ws| && HoldsOn(ws[k], m) {
      var f :| f in m && SomeContains(m[f], ws[k].text);
      var of := m[f];
      assert SomeContains(of, ws[k].text);
      var i :| 0 <= i < |of| && Infix(ws[k].text, of[i]);
      assert m[f][i] in strings;
      var j :| 0 <= j < |strings| && strings[j] == of[i];
      assert ws[k].text in Texts(ws, |ws|);
    }
  }
}
