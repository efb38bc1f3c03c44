/** Literals that every match of a regex must contain (`crates/rsigma-eval/src/witness.rs`). */
module RegexLiterals {
  import opened Results
  import opened Folding
  import opened Unicode

  /** A parsed regex; classes, assertions, empty and undecodable literals are `Opaque`. */
  datatype Regex =
    | Literal(text: string)
    | Concat(parts: seq<Regex>)
    | Alternation(branches: seq<Regex>)
    | Repetition(min: nat, max: Option<nat>, sub: Regex)
    | Capture(sub: Regex)
    | Opaque(id: nat)

  /** Where opaque nodes match: node, haystack, start, end. */
  type Oracle = (nat, string, nat, nat) -> bool

  /** `re` matches `h[i..j]` in place. */
  ghost predicate MatchAt(re: Regex, h: string, i: nat, j: nat, o: Oracle)
    requires i <= j <= |h|
    decreases re, 0
  {
    match re
    case Literal(text) => h[i..j] == text
    case Concat(parts) => MatchParts(parts, 0, h, i, j, o)
    case Alternation(branches) => exists k | 0 <= k < |branches| :: MatchAt(branches[k], h, i, j, o)
    case Repetition(min, max, sub) =>
      exists n: nat :: n >= min && (max.Some? ==> n <= max.value) && MatchTimes(sub, n, h, i, j, o)
    case Capture(sub) => MatchAt(sub, h, i, j, o)
    case Opaque(id) => o(id, h, i, j)
  }

  /** The parts from `k` on match one after another. */
  ghost predicate MatchParts(parts: seq<Regex>, k: nat, h: string, i: nat, j: nat, o: Oracle)
    requires i <= j <= |h| && k <= |parts|
    decreases parts, |parts| - k
  {
    if k == |parts| then i == j
    else exists m: nat | i <= m <= j :: MatchAt(parts[k], h, i, m, o) && MatchParts(parts, k + 1, h, m, j, o)
  }

  ghost predicate MatchTimes(sub: Regex, n: nat, h: string, i: nat, j: nat, o: Oracle)
    requires i <= j <= |h|
    decreases sub, n + 1
  {
    if n == 0 then i == j
    else exists m: nat | i <= m <= j :: MatchAt(sub, h, i, m, o) && MatchTimes(sub, n - 1, h, m, j, o)
  }

  ghost predicate IsMatch(re: Regex, h: string, o: Oracle) {
    exists i: nat, j: nat | i <= j <= |h| :: MatchAt(re, h, i, j, o)
  }

  // ----- Regexes as languages -----

  /** No node is left to the oracle. */
  predicate Transparent(re: Regex)
    decreases re
  {
    match re
    case Literal(_) => true
    case Concat(parts) => forall k | 0 <= k < |parts| :: Transparent(parts[k])
    case Alternation(branches) => forall k | 0 <= k < |branches| :: Transparent(branches[k])
    case Repetition(_, _, sub) => Transparent(sub)
    case Capture(sub) => Transparent(sub)
    case Opaque(_) => false
  }

  function Joined(words: seq<string>): string {
    if words == [] then [] else words[0] + Joined(words[1..])
  }

  /** `s` is a word of the regex: of a concatenation, words of its parts joined; of a repetition, words of its body. */
  ghost predicate Word(re: Regex, s: string)
    decreases re
  {
    match re
    case Literal(text) => s == text
    case Concat(parts) =>
      exists words: seq<string> :: |words| == |parts| && Joined(words) == s
                                   && forall k | 0 <= k < |parts| :: Word(parts[k], words[k])
    case Alternation(branches) => exists k | 0 <= k < |branches| :: Word(branches[k], s)
    case Repetition(min, max, sub) =>
      exists words: seq<string> :: |words| >= min && (max.Some? ==> |words| <= max.value) && Joined(words) == s
                                   && forall k | 0 <= k < |words| :: Word(sub, words[k])
    case Capture(sub) => Word(sub, s)
    case Opaque(_) => false
  }

  ghost predicate Words(parts: seq<Regex>, k: nat, words: seq<string>)
    requires k <= |parts|
  {
    |words| == |parts| - k && forall i | k <= i < |parts| :: Word(parts[i], words[i - k])
  }

  /** A regex without opaque nodes matches a stretch exactly when the stretch is one of its words. */
  lemma {:induction false} MatchesWords(re: Regex, h: string, i: nat, j: nat, o: Oracle)
    requires i <= j <= |h| && Transparent(re)
    ensures MatchAt(re, h, i, j, o) <==> Word(re, h[i..j])
    decreases re, 0
  {
    match re
    case Concat(parts) =>
      if MatchAt(re, h, i, j, o) {
        var words := PartWords(parts, 0, h, i, j, o);
        assert |words| == |parts| && forall k | 0 <= k < |parts| :: Word(parts[k], words[k]);
      }
      forall words: seq<string> | Words(parts, 0, words) && Joined(words) == h[i..j] ensures MatchAt(re, h, i, j, o) {
        WordParts(parts, 0, h, i, j, o, words);
      }
      assert forall words: seq<string> | |words| == |parts| && forall k | 0 <= k < |parts| :: Word(parts[k], words[k]) :: Words(parts, 0, words);
    case Alternation(branches) =>
      forall k | 0 <= k < |branches| ensures MatchAt(branches[k], h, i, j, o) <==> Word(branches[k], h[i..j]) {
        MatchesWords(branches[k], h, i, j, o);
      }
    case Repetition(min, max, sub) =>
      if n: nat :| n >= min && (max.Some? ==> n <= max.value) && MatchTimes(sub, n, h, i, j, o) {
        var words := TimesWords(sub, n, h, i, j, o);
      }
      forall words: seq<string> | Joined(words) == h[i..j] && forall k | 0 <= k < |words| :: Word(sub, words[k])
        ensures MatchTimes(sub, |words|, h, i, j, o)
      {
        WordTimes(sub, h, i, j, o, words);
      }
    case Capture(sub) => MatchesWords(sub, h, i, j, o);
    case _ =>
  }

  lemma JoinedCons(h: string, i: nat, m: nat, j: nat, rest: seq<string>)
    requires i <= m <= j <= |h| && Joined(rest) == h[m..j]
    ensures Joined([h[i..m]] + rest) == h[i..j]
  {
    assert ([h[i..m]] + rest)[1..] == rest && h[i..m] + h[m..j] == h[i..j];
  }

  lemma {:induction false} PartWords(parts: seq<Regex>, k: nat, h: string, i: nat, j: nat, o: Oracle) returns (words: seq<string>)
    requires i <= j <= |h| && k <= |parts| && MatchParts(parts, k, h, i, j, o)
    requires forall p | 0 <= p < |parts| :: Transparent(parts[p])
    ensures Words(parts, k, words) && Joined(words) == h[i..j]
    decreases parts, |parts| - k
  {
    if k == |parts| {
      words := [];
    } else {
      var m: nat :| i <= m <= j && MatchAt(parts[k], h, i, m, o) && MatchParts(parts, k + 1, h, m, j, o);
      MatchesWords(parts[k], h, i, m, o);
      var rest := PartWords(parts, k + 1, h, m, j, o);
      words := [h[i..m]] + rest;
      JoinedCons(h, i, m, j, rest);
    }
  }

  /** The first word ends where the rest begins. */
  lemma SplitAt(h: string, i: nat, j: nat, first: string, rest: string) returns (m: nat)
    requires i <= j <= |h| && h[i..j] == first + rest
    ensures i <= m <= j && h[i..m] == first && h[m..j] == rest
  {
    m := i + |first|;
    assert h[i..j][..|first|] == first && h[i..j][|first|..] == rest;
  }

  lemma {:induction false} WordParts(parts: seq<Regex>, k: nat, h: string, i: nat, j: nat, o: Oracle, words: seq<string>)
    requires i <= j <= |h| && k <= |parts| && Words(parts, k, words) && Joined(words) == h[i..j]
    requires forall p | 0 <= p < |parts| :: Transparent(parts[p])
    ensures MatchParts(parts, k, h, i, j, o)
    decreases parts, |parts| - k
  {
    if k < |parts| {
      var m := SplitAt(h, i, j, words[0], Joined(words[1..]));
      MatchesWords(parts[k], h, i, m, o);
      WordParts(parts, k + 1, h, m, j, o, words[1..]);
    }
  }

  lemma {:induction false} TimesWords(sub: Regex, n: nat, h: string, i: nat, j: nat, o: Oracle) returns (words: seq<string>)
    requires i <= j <= |h| && MatchTimes(sub, n, h, i, j, o) && Transparent(sub)
    ensures |words| == n && Joined(words) == h[i..j] && forall k | 0 <= k < n :: Word(sub, words[k])
    decreases sub, n + 1
  {
    if n == 0 {
      words := [];
    } else {
      var m: nat :| i <= m <= j && MatchAt(sub, h, i, m, o) && MatchTimes(sub, n - 1, h, m, j, o);
      MatchesWords(sub, h, i, m, o);
      var rest := TimesWords(sub, n - 1, h, m, j, o);
      words := [h[i..m]] + rest;
      JoinedCons(h, i, m, j, rest);
    }
  }

  lemma {:induction false} WordTimes(sub: Regex, h: string, i: nat, j: nat, o: Oracle, words: seq<string>)
    requires i <= j <= |h| && Joined(words) == h[i..j] && Transparent(sub)
    requires forall k | 0 <= k < |words| :: Word(sub, words[k])
    ensures MatchTimes(sub, |words|, h, i, j, o)
    decreases sub, |words| + 1
  {
    if words != [] {
      var m := SplitAt(h, i, j, words[0], Joined(words[1..]));
      MatchesWords(sub, h, i, m, o);
      WordTimes(sub, h, m, j, o, words[1..]);
    }
  }

  /** It matches a haystack exactly when one of its words stands in it. */
  lemma MatchesAnywhere(re: Regex, h: string, o: Oracle)
    requires Transparent(re)
    ensures IsMatch(re, h, o) <==> exists word: string :: Word(re, word) && Infix(word, h)
  {
    forall i: nat, j: nat | i <= j <= |h| ensures MatchAt(re, h, i, j, o) <==> Word(re, h[i..j]) {
      MatchesWords(re, h, i, j, o);
    }
    if i: nat, j: nat :| i <= j <= |h| && MatchAt(re, h, i, j, o) {
      assert StandsAt(h[i..j], h, i);
    }
    if word: string :| Word(re, word) && Infix(word, h) {
      var k: nat :| StandsAt(word, h, k);
      assert h[k..k + |word|] == word && MatchAt(re, h, k, k + |word|, o);
    }
  }

  // ----- Extraction -----

  function ByteLen(s: string): nat { |Utf8(s)| }

  function MinLen(ls: seq<string>): nat {
    if |ls| == 0 then 0
    else if |ls| == 1 then ByteLen(ls[0])
    else
      var rest := MinLen(ls[1..]);
      if ByteLen(ls[0]) < rest then ByteLen(ls[0]) else rest
  }

  /** The weakest literal decides; a tie goes to the smaller set. */
  predicate AtLeast(a: seq<string>, b: seq<string>) {
    MinLen(a) > MinLen(b) || (MinLen(a) == MinLen(b) && |a| <= |b|)
  }

  function Literals(re: Regex): Option<seq<string>>
    decreases re
  {
    match re
    case Literal(text) => if text == [] then None else Some([text])
    case Concat(parts) => BestPart(parts, |parts|)
    case Alternation(branches) => AllBranches(branches, |branches|)
    case Repetition(min, _, sub) => if min >= 1 then Literals(sub) else None
    case Capture(sub) => Literals(sub)
    case Opaque(_) => None
  }

  /** The last best literal set among the first `n` parts, as `max_by_key`. */
  function BestPart(parts: seq<Regex>, n: nat): Option<seq<string>>
    requires n <= |parts|
    decreases parts, n
  {
    if n == 0 then None
    else
      var before, last := BestPart(parts, n - 1), Literals(parts[n - 1]);
      if last.None? then before
      else if before.None? || AtLeast(last.value, before.value) then last
      else before
  }

  /** Every branch must contribute. */
  function AllBranches(branches: seq<Regex>, n: nat): Option<seq<string>>
    requires n <= |branches|
    decreases branches, n
  {
    if n == 0 then Some([])
    else
      var before, last := AllBranches(branches, n - 1), Literals(branches[n - 1]);
      if before.None? || last.None? then None else Some(before.value + last.value)
  }

  /** Single-byte literals select nothing useful. */
  function MandatoryLiterals(re: Regex): Option<seq<string>> {
    match Literals(re)
    case Some(ls) => if exists i | 0 <= i < |ls| :: ByteLen(ls[i]) < 2 then None else Some(ls)
    case None => None
  }

  // ----- When extraction succeeds, and with what -----

  /** Some text stands in every match: one part of a concatenation has it, all branches of an alternation. */
  predicate HasLiterals(re: Regex)
    decreases re
  {
    match re
    case Literal(text) => text != []
    case Concat(parts) => exists k | 0 <= k < |parts| :: HasLiterals(parts[k])
    case Alternation(branches) => forall k | 0 <= k < |branches| :: HasLiterals(branches[k])
    case Repetition(min, _, sub) => min >= 1 && HasLiterals(sub)
    case Capture(sub) => HasLiterals(sub)
    case Opaque(_) => false
  }

  lemma {:induction false} LiteralsExactly(re: Regex)
    ensures Literals(re).Some? <==> HasLiterals(re)
    decreases re
  {
    match re
    case Concat(parts) =>
      forall k | 0 <= k < |parts| { LiteralsExactly(parts[k]); }
      PartsExactly(parts, |parts|);
    case Alternation(branches) =>
      forall k | 0 <= k < |branches| { LiteralsExactly(branches[k]); }
      BranchesExactly(branches, |branches|);
    case Repetition(_, _, sub) => LiteralsExactly(sub);
    case Capture(sub) => LiteralsExactly(sub);
    case _ =>
  }

  lemma {:induction false} PartsExactly(parts: seq<Regex>, n: nat)
    requires n <= |parts|
    ensures BestPart(parts, n).Some? <==> exists k | 0 <= k < n :: Literals(parts[k]).Some?
  {
    if n > 0 { PartsExactly(parts, n - 1); }
  }

  lemma {:induction false} BranchesExactly(branches: seq<Regex>, n: nat)
    requires n <= |branches|
    ensures AllBranches(branches, n).Some? <==> forall k | 0 <= k < n :: Literals(branches[k]).Some?
    ensures AllBranches(branches, n).Some? ==>
              forall l :: l in AllBranches(branches, n).value <==> exists k | 0 <= k < n :: l in Literals(branches[k]).value
  {
    if n > 0 { BranchesExactly(branches, n - 1); }
  }

  /** `ls` has a shorter shortest literal than `best`, or as short a one and more literals, or ties with it. */
  predicate Yields(ls: seq<string>, best: seq<string>, tie: bool) {
    MinLen(ls) < MinLen(best) || (MinLen(ls) == MinLen(best) && (|best| < |ls| || (|best| == |ls| && tie)))
  }

  predicate AllYield(parts: seq<Regex>, n: nat, k: nat, best: seq<string>)
    requires n <= |parts|
  {
    forall i | 0 <= i < n && Literals(parts[i]).Some? :: Yields(Literals(parts[i]).value, best, i <= k)
  }

  /** A concatenation keeps the literals of one part: all others yield to it, and of equals it is the last. */
  lemma {:induction false} BestPartIs(parts: seq<Regex>, n: nat) returns (k: nat)
    requires n <= |parts| && BestPart(parts, n).Some?
    ensures k < n && Literals(parts[k]) == BestPart(parts, n)
    ensures AllYield(parts, n, k, BestPart(parts, n).value)
  {
    if n == 1 {
      k := 0;
    } else if BestPart(parts, n - 1).None? {
      PartsExactly(parts, n - 1);
      k := n - 1;
    } else {
      var before := BestPartIs(parts, n - 1);
      k := if Literals(parts[n - 1]).Some? && AtLeast(Literals(parts[n - 1]).value, BestPart(parts, n - 1).value) then n - 1 else before;
      YieldOn(parts, n, before, k);
    }
  }

  lemma YieldOn(parts: seq<Regex>, n: nat, before: nat, k: nat)
    requires 0 < n <= |parts| && before < n - 1 && BestPart(parts, n - 1).Some?
    requires AllYield(parts, n - 1, before, BestPart(parts, n - 1).value)
    requires k == if Literals(parts[n - 1]).Some? && AtLeast(Literals(parts[n - 1]).value, BestPart(parts, n - 1).value) then n - 1 else before
    ensures AllYield(parts, n, k, BestPart(parts, n).value)
  {
    var old', new' := BestPart(parts, n - 1).value, BestPart(parts, n).value;
    forall i | 0 <= i < n && Literals(parts[i]).Some? ensures Yields(Literals(parts[i]).value, new', i <= k) {
      if i < n - 1 { assert Yields(Literals(parts[i]).value, old', i <= before); }
    }
  }

  lemma {:induction false} MinLenIs(ls: seq<string>)
    ensures forall i | 0 <= i < |ls| :: MinLen(ls) <= ByteLen(ls[i])
    ensures ls != [] ==> exists i | 0 <= i < |ls| :: MinLen(ls) == ByteLen(ls[i])
  {
    if |ls| > 1 {
      var rest := ls[1..];
      MinLenIs(rest);
      var i :| 0 <= i < |rest| && MinLen(rest) == ByteLen(rest[i]);
      assert rest[i] == ls[i + 1];
      forall j | 0 < j < |ls| ensures MinLen(rest) <= ByteLen(ls[j]) { assert rest[j - 1] == ls[j]; }
    }
  }

  /** They are used exactly when none of them is a single byte. */
  lemma MandatoryExactly(re: Regex)
    ensures HasLiterals(re) ==> Literals(re).Some?
    ensures MandatoryLiterals(re).Some?
            <==> HasLiterals(re) && forall l | l in Literals(re).value :: ByteLen(l) >= 2
    ensures MandatoryLiterals(re).Some? ==> MandatoryLiterals(re) == Literals(re)
  {
    LiteralsExactly(re);
    if MandatoryLiterals(re).None? && Literals(re).Some? {
      var ls := Literals(re).value;
      var i :| 0 <= i < |ls| && ByteLen(ls[i]) < 2;
      assert ls[i] in ls;
    }
  }

  // ----- Every match contains one of them -----

  ghost predicate SomeIn(ls: seq<string>, h: string) {
    exists k | 0 <= k < |ls| :: Infix(ls[k], h)
  }

  lemma SomeInSlice(ls: seq<string>, h: string, i: nat, j: nat, i': nat, j': nat)
    requires i <= i' <= j' <= j <= |h| && SomeIn(ls, h[i'..j'])
    ensures SomeIn(ls, h[i..j])
  {
    var k :| 0 <= k < |ls| && Infix(ls[k], h[i'..j']);
    InfixOfInner(ls[k], h, i, j, i', j');
  }

  lemma {:induction false} MatchContainsLiteral(re: Regex, h: string, i: nat, j: nat, o: Oracle)
    requires i <= j <= |h| && MatchAt(re, h, i, j, o) && Literals(re).Some?
    ensures SomeIn(Literals(re).value, h[i..j])
    decreases re, 0
  {
    match re
    case Literal(text) =>
      assert StandsAt(text, h[i..j], 0);
      assert Infix([text][0], h[i..j]);
    case Concat(parts) =>
      var k := BestPartIs(parts, |parts|);
      var i', j' := PartMatched(parts, 0, k, h, i, j, o);
      MatchContainsLiteral(parts[k], h, i', j', o);
      SomeInSlice(Literals(parts[k]).value, h, i, j, i', j');
    case Alternation(branches) =>
      var k :| 0 <= k < |branches| && MatchAt(branches[k], h, i, j, o);
      BranchIncluded(branches, |branches|, k);
      MatchContainsLiteral(branches[k], h, i, j, o);
      var ls, all := Literals(branches[k]).value, Literals(re).value;
      var l :| 0 <= l < |ls| && Infix(ls[l], h[i..j]);
      assert ls[l] in all;
    case Repetition(min, max, sub) =>
      var n: nat :| n >= min && (max.Some? ==> n <= max.value) && MatchTimes(sub, n, h, i, j, o);
      var m := FirstTime(sub, n, h, i, j, o);
      MatchContainsLiteral(sub, h, i, m, o);
      SomeInSlice(Literals(sub).value, h, i, j, i, m);
    case Capture(sub) => MatchContainsLiteral(sub, h, i, j, o);
    case Opaque(_) =>
  }

  lemma FirstTime(sub: Regex, n: nat, h: string, i: nat, j: nat, o: Oracle) returns (m: nat)
    requires i <= j <= |h| && n > 0 && MatchTimes(sub, n, h, i, j, o)
    ensures i <= m <= j && MatchAt(sub, h, i, m, o)
  {
    m :| i <= m <= j && MatchAt(sub, h, i, m, o) && MatchTimes(sub, n - 1, h, m, j, o);
  }

  /** Part `k` of a matched concatenation matches somewhere inside. */
  lemma {:induction false} PartMatched(parts: seq<Regex>, from: nat, k: nat, h: string, i: nat, j: nat, o: Oracle)
    returns (i': nat, j': nat)
    requires from <= k < |parts| && i <= j <= |h| && MatchParts(parts, from, h, i, j, o)
    ensures i <= i' <= j' <= j && MatchAt(parts[k], h, i', j', o)
    decreases k - from
  {
    var m: nat :| i <= m <= j && MatchAt(parts[from], h, i, m, o) && MatchParts(parts, from + 1, h, m, j, o);
    if from == k {
      return i, m;
    }
    i', j' := PartMatched(parts, from + 1, k, h, m, j, o);
  }

  lemma {:induction false} BranchIncluded(branches: seq<Regex>, n: nat, k: nat)
    requires k < n <= |branches| && AllBranches(branches, n).Some?
    ensures Literals(branches[k]).Some? && forall l | l in Literals(branches[k]).value :: l in AllBranches(branches, n).value
  {
    if k < n - 1 {
      BranchIncluded(branches, n - 1, k);
    }
  }

  /** Any haystack with a match contains a mandatory literal. */
  lemma HaystackContainsLiteral(re: Regex, h: string, o: Oracle)
    requires IsMatch(re, h, o) && MandatoryLiterals(re).Some?
    ensures SomeIn(MandatoryLiterals(re).value, h)
  {
    var i: nat, j: nat :| i <= j <= |h| && MatchAt(re, h, i, j, o);
    MatchContainsLiteral(re, h, i, j, o);
    assert h[0..|h|] == h;
    SomeInSlice(Literals(re).value, h, 0, |h|, i, j);
  }

  /** And still does once both are folded, as long as the literals are ASCII. */
  lemma FoldedHaystackContainsLiteral(re: Regex, h: string, o: Oracle, fold: string -> string)
    requires IsFold(fold) && IsMatch(re, h, o) && MandatoryLiterals(re).Some?
    requires forall l | l in MandatoryLiterals(re).value :: IsAscii(l)
    ensures exists l | l in MandatoryLiterals(re).value :: Infix(AsciiLower(l), fold(h))
  {
    HaystackContainsLiteral(re, h, o);
    var ls := MandatoryLiterals(re).value;
    var k :| 0 <= k < |ls| && Infix(ls[k], h);
    assert ls[k] in ls;
  }
}
