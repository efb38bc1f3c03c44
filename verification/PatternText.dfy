/** Printing string patterns with escapes and quotes, and reading them back (`crates/rsigma-convert/src/backend.rs`). */
module PatternText {
  import opened SigmaIr

  /** The single-character tokens of a text configuration and its rule for quoting wildcard-free text. */
  datatype Tokens = Tokens(
    quote: char,
    escape: char,
    multi: char,
    single: char,
    addEscaped: seq<char>,
    filtered: seq<char>,
    quotes: string -> bool)

  predicate Escapes(t: Tokens, c: char) {
    c == t.escape || c == t.quote || c in t.addEscaped
  }

  // ----- Printing -----

  function EscapeChar(t: Tokens, c: char): string {
    if c in t.filtered then [] else if Escapes(t, c) then [t.escape, c] else [c]
  }

  /** The first `n` characters of a literal, filtered and escaped. */
  function EscapeText(t: Tokens, s: string, n: nat): string
    requires n <= |s|
  {
    if n == 0 then [] else EscapeText(t, s, n - 1) + EscapeChar(t, s[n - 1])
  }

  function PartText(t: Tokens, part: PatternPart): string {
    match part
    case Literal(s) => EscapeText(t, s, |s|)
    case WildcardMulti => [t.multi]
    case WildcardSingle => [t.single]
  }

  function PartsText(t: Tokens, parts: seq<PatternPart>, n: nat): string
    requires n <= |parts|
  {
    if n == 0 then [] else PartsText(t, parts, n - 1) + PartText(t, parts[n - 1])
  }

  predicate HasWildcards(parts: seq<PatternPart>, n: nat)
    requires n <= |parts|
  {
    n > 0 && (HasWildcards(parts, n - 1) || !parts[n - 1].Literal?)
  }

  function PatternString(t: Tokens, p: Pattern): string {
    var body := PartsText(t, p.parts, |p.parts|);
    if !HasWildcards(p.parts, |p.parts|) && t.quotes(body) then [t.quote] + body + [t.quote] else body
  }

  method EscapeLiteral(t: Tokens, s: string) returns (escaped: string)
    ensures escaped == EscapeText(t, s, |s|)
  {
    escaped := "";
    for k := 0 to |s|
      invariant escaped == EscapeText(t, s, k)
    {
      if s[k] in t.filtered { continue; }
      if Escapes(t, s[k]) {
        escaped := escaped + [t.escape];
      }
      escaped := escaped + [s[k]];
    }
  }

  method ConvertPattern(t: Tokens, p: Pattern) returns (text: string)
    ensures text == PatternString(t, p)
  {
    text := "";
    var hasWildcards := false;
    for i := 0 to |p.parts|
      invariant text == PartsText(t, p.parts, i)
      invariant hasWildcards == HasWildcards(p.parts, i)
    {
      var part := p.parts[i];
      if part.Literal? {
        var escaped := EscapeLiteral(t, part.text);
        text := text + escaped;
      } else {
        text := text + (if part.WildcardMulti? then [t.multi] else [t.single]);
        hasWildcards := true;
      }
      assert text == PartsText(t, p.parts, i) + PartText(t, part);
    }
    if !hasWildcards && t.quotes(text) {
      text := [t.quote] + text + [t.quote];
    }
  }

  // ----- Reading -----

  datatype Symbol = Char(c: char) | Multi | Single

  /** A backend's view of unquoted text: an escape takes the next character literally. */
  function ReadBody(t: Tokens, s: string): seq<Symbol> {
    if s == [] then []
    else if s[0] == t.escape && |s| > 1 then [Char(s[1])] + ReadBody(t, s[2..])
    else [if s[0] == t.multi then Multi else if s[0] == t.single then Single else Char(s[0])] + ReadBody(t, s[1..])
  }

  /** Text that opens with a bare quote is read up to its last character. */
  function ReadText(t: Tokens, s: string): seq<Symbol> {
    if |s| > 1 && s[0] == t.quote then ReadBody(t, s[1..|s| - 1]) else ReadBody(t, s)
  }

  /** Whether a quote stands in a body without an escape before it. */
  predicate BareQuote(t: Tokens, s: string) {
    if s == [] then false
    else if s[0] == t.escape && |s| > 1 then BareQuote(t, s[2..])
    else s[0] == t.quote || BareQuote(t, s[1..])
  }

  // ----- What a pattern stands for: its symbols, literals merged and filtered -----

  function LiteralSymbols(t: Tokens, s: string, n: nat): seq<Symbol>
    requires n <= |s|
  {
    if n == 0 then []
    else LiteralSymbols(t, s, n - 1) + (if s[n - 1] in t.filtered then [] else [Char(s[n - 1])])
  }

  function PartSymbols(t: Tokens, part: PatternPart): seq<Symbol> {
    match part
    case Literal(s) => LiteralSymbols(t, s, |s|)
    case WildcardMulti => [Multi]
    case WildcardSingle => [Single]
  }

  function Symbols(t: Tokens, parts: seq<PatternPart>, n: nat): seq<Symbol>
    requires n <= |parts|
  {
    if n == 0 then [] else Symbols(t, parts, n - 1) + PartSymbols(t, parts[n - 1])
  }

  predicate Distinct(t: Tokens) {
    t.quote != t.escape && t.quote != t.multi && t.quote != t.single
    && t.escape != t.multi && t.escape != t.single && t.multi != t.single
  }

  /** A wildcard character never gets into the text of a literal unescaped. */
  predicate Guarded(t: Tokens) {
    (t.multi in t.addEscaped || t.multi in t.filtered) && (t.single in t.addEscaped || t.single in t.filtered)
  }

  // ----- The round trip -----

  /** Complete text, without an escape left open, read as `symbols` and free of bare quotes. */
  ghost predicate Reads(t: Tokens, s: string, symbols: seq<Symbol>) {
    forall rest :: ReadBody(t, s + rest) == symbols + ReadBody(t, rest) && BareQuote(t, s + rest) == BareQuote(t, rest)
  }

  lemma ReadsConcat(t: Tokens, a: string, x: seq<Symbol>, b: string, y: seq<Symbol>)
    requires Reads(t, a, x) && Reads(t, b, y)
    ensures Reads(t, a + b, x + y)
  {
    forall rest
      ensures ReadBody(t, a + b + rest) == x + y + ReadBody(t, rest) && BareQuote(t, a + b + rest) == BareQuote(t, rest)
    {
      assert a + b + rest == a + (b + rest);
      assert x + y + ReadBody(t, rest) == x + (y + ReadBody(t, rest));
    }
  }

  lemma CharReads(t: Tokens, c: char)
    requires Distinct(t) && Guarded(t)
    ensures Reads(t, EscapeChar(t, c), if c in t.filtered then [] else [Char(c)])
  {
    forall rest
      ensures var s := EscapeChar(t, c) + rest;
              && ReadBody(t, s) == (if c in t.filtered then [] else [Char(c)]) + ReadBody(t, rest)
              && BareQuote(t, s) == BareQuote(t, rest)
    {
      var s := EscapeChar(t, c) + rest;
      if c in t.filtered {
        assert s == rest;
      } else if Escapes(t, c) {
        assert s[2..] == rest;
      } else {
        assert s[1..] == rest;
      }
    }
  }

  lemma {:induction false} LiteralReads(t: Tokens, s: string, n: nat)
    requires Distinct(t) && Guarded(t) && n <= |s|
    ensures Reads(t, EscapeText(t, s, n), LiteralSymbols(t, s, n))
  {
    if n == 0 {
      NothingReads(t);
    } else {
      LiteralReads(t, s, n - 1);
      CharReads(t, s[n - 1]);
      ReadsConcat(t, EscapeText(t, s, n - 1), LiteralSymbols(t, s, n - 1), EscapeChar(t, s[n - 1]),
                  if s[n - 1] in t.filtered then [] else [Char(s[n - 1])]);
    }
  }

  lemma NothingReads(t: Tokens)
    ensures Reads(t, [], [])
  {
    forall rest ensures ReadBody(t, [] + rest) == [] + ReadBody(t, rest) && BareQuote(t, [] + rest) == BareQuote(t, rest) {
      assert [] + rest == rest;
    }
  }

  lemma WildcardReads(t: Tokens, c: char, symbol: Symbol)
    requires Distinct(t) && ((c == t.multi && symbol == Multi) || (c == t.single && symbol == Single))
    ensures Reads(t, [c], [symbol])
  {
    forall rest ensures ReadBody(t, [c] + rest) == [symbol] + ReadBody(t, rest) && BareQuote(t, [c] + rest) == BareQuote(t, rest) {
      assert ([c] + rest)[1..] == rest;
    }
  }

  lemma PartReads(t: Tokens, part: PatternPart)
    requires Distinct(t) && Guarded(t)
    ensures Reads(t, PartText(t, part), PartSymbols(t, part))
  {
    match part
    case Literal(s) => LiteralReads(t, s, |s|);
    case WildcardMulti => WildcardReads(t, t.multi, Multi);
    case WildcardSingle => WildcardReads(t, t.single, Single);
  }

  lemma {:induction false} PartsRead(t: Tokens, parts: seq<PatternPart>, n: nat)
    requires Distinct(t) && Guarded(t) && n <= |parts|
    ensures Reads(t, PartsText(t, parts, n), Symbols(t, parts, n))
  {
    if n == 0 {
      NothingReads(t);
    } else {
      PartsRead(t, parts, n - 1);
      PartReads(t, parts[n - 1]);
      ReadsConcat(t, PartsText(t, parts, n - 1), Symbols(t, parts, n - 1), PartText(t, parts[n - 1]), PartSymbols(t, parts[n - 1]));
    }
  }

  /** Printed text reads back as the pattern, and no bare quote stands inside the quotes. */
  lemma PatternRoundTrip(t: Tokens, p: Pattern)
    requires Distinct(t) && Guarded(t)
    ensures ReadText(t, PatternString(t, p)) == Symbols(t, p.parts, |p.parts|)
    ensures !BareQuote(t, PartsText(t, p.parts, |p.parts|))
  {
    var body := PartsText(t, p.parts, |p.parts|);
    PartsRead(t, p.parts, |p.parts|);
    assert body + [] == body;
    assert ReadBody(t, body + []) == Symbols(t, p.parts, |p.parts|) + ReadBody(t, []);
    assert BareQuote(t, body + []) == BareQuote(t, []);
    if !HasWildcards(p.parts, |p.parts|) && t.quotes(body) {
      assert ([t.quote] + body + [t.quote])[1..|body| + 1] == body;
    }
  }

  lemma {:induction false} WildcardsAre(parts: seq<PatternPart>, n: nat)
    requires n <= |parts|
    ensures HasWildcards(parts, n) <==> exists i | 0 <= i < n :: !parts[i].Literal?
  {
    if n > 0 { WildcardsAre(parts, n - 1); }
  }

  /** A bare quote is printed, as first and last character, exactly around wildcard-free text the rule asks to quote. */
  lemma QuotedExactly(t: Tokens, p: Pattern)
    requires Distinct(t) && Guarded(t)
    ensures var text, body := PatternString(t, p), PartsText(t, p.parts, |p.parts|);
            && (BareQuote(t, text) <==> (forall i | 0 <= i < |p.parts| :: p.parts[i].Literal?) && t.quotes(body))
            && (BareQuote(t, text) ==> |text| == |body| + 2 && text[0] == t.quote && text[|text| - 1] == t.quote)
            && (!BareQuote(t, text) ==> text == body)
  {
    PatternRoundTrip(t, p);
    WildcardsAre(p.parts, |p.parts|);
  }

  function Kept(t: Tokens, s: string, n: nat): set<nat>
    requires n <= |s|
  {
    set k: nat | k < n && s[k] !in t.filtered
  }

  function Marked(t: Tokens, s: string, n: nat): set<nat>
    requires n <= |s|
  {
    set k: nat | k < n && s[k] !in t.filtered && (s[k] == t.escape || s[k] == t.quote || s[k] in t.addEscaped)
  }

  lemma KeptNext(t: Tokens, s: string, n: nat)
    requires n < |s|
    ensures |Kept(t, s, n + 1)| == |Kept(t, s, n)| + (if s[n] in t.filtered then 0 else 1)
  {
    assert Kept(t, s, n + 1) == Kept(t, s, n) + (if s[n] in t.filtered then {} else {n});
  }

  lemma MarkedNext(t: Tokens, s: string, n: nat)
    requires n < |s|
    ensures |Marked(t, s, n + 1)| == |Marked(t, s, n)| + (if n in Marked(t, s, n + 1) then 1 else 0)
  {
    assert Marked(t, s, n + 1) == Marked(t, s, n) + (if n in Marked(t, s, n + 1) then {n} else {});
  }

  /** Escapes are printed for the escape, the quote and the characters the backend adds, and for nothing else. */
  lemma {:induction false} EscapedExactly(t: Tokens, s: string, n: nat)
    requires n <= |s|
    ensures |EscapeText(t, s, n)| == |Kept(t, s, n)| + |Marked(t, s, n)|
  {
    if n > 0 {
      var last: nat := n - 1;
      EscapedExactly(t, s, last);
      KeptNext(t, s, last);
      MarkedNext(t, s, last);
    }
  }

  /** Every pattern survives printing exactly when literals cannot show a bare wildcard. */
  lemma RoundTripsIffGuarded(t: Tokens)
    requires Distinct(t)
    ensures (forall p: Pattern :: ReadText(t, PatternString(t, p)) == Symbols(t, p.parts, |p.parts|)) <==> Guarded(t)
  {
    if Guarded(t) {
      forall p: Pattern ensures ReadText(t, PatternString(t, p)) == Symbols(t, p.parts, |p.parts|) {
        PatternRoundTrip(t, p);
      }
    } else {
      var c := if t.multi in t.addEscaped || t.multi in t.filtered then t.single else t.multi;
      LoneWildcardMisread(t, c);
    }
  }

  lemma LoneWildcardMisread(t: Tokens, c: char)
    requires Distinct(t) && c in [t.multi, t.single] && c !in t.addEscaped && c !in t.filtered
    ensures var p := Pattern([Literal([c])]); ReadText(t, PatternString(t, p)) != Symbols(t, p.parts, 1)
  {
    var parts := [Literal([c])];
    assert EscapeText(t, [c], 0) == [] && EscapeText(t, [c], 1) == [c];
    assert PartsText(t, parts, 0) == [] && PartsText(t, parts, 1) == [c];
    assert LiteralSymbols(t, [c], 0) == [] && LiteralSymbols(t, [c], 1) == [Char(c)];
    assert Symbols(t, parts, 0) == [] && Symbols(t, parts, 1) == [Char(c)];
    assert ReadBody(t, [c]) == [if c == t.multi then Multi else Single] by { assert [c][1..] == []; }
    assert ([t.quote] + [c] + [t.quote])[1..2] == [c];
    assert PatternString(t, Pattern(parts)) in [[c], [t.quote] + [c] + [t.quote]];
  }
}
