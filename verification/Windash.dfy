/**
  The `windash` modifier: every dash or slash of a pattern stands for any of five
  characters. Variants are spelled by replacing bytes in place, although the
  replacements are one or three bytes wide.
 */
module Windash {
  import opened Results
  import opened SigmaIr
  import opened Unicode

  const MAX_WINDASH_DASHES := 8

  datatype IrError = TooManyDashes(n: nat) | WildcardsInBase64

  function DashChar(i: nat): char
    requires i < 5
  {
    if i == 0 then '-' else if i == 1 then '/' else if i == 2 then '\U{2013}'
    else if i == 3 then '\U{2014}' else '\U{2015}'
  }

  predicate IsDash(c: char) {
    c == '-' || c == '/' || c == '\U{2013}' || c == '\U{2014}' || c == '\U{2015}'
  }

  function DashIndex(c: char): (i: nat)
    requires IsDash(c)
    ensures i < 5 && DashChar(i) == c
  {
    if c == '-' then 0 else if c == '/' then 1 else if c == '\U{2013}' then 2
    else if c == '\U{2014}' then 3 else 4
  }

  function Pow5(n: nat): (r: nat)
    ensures r > 0
  {
    if n == 0 then 1 else 5 * Pow5(n - 1)
  }

  type Parts = seq<PatternPart>

  /** A character of a pattern: the part it is in and its index there. */
  datatype Position = Position(part: nat, index: nat)

  predicate InPattern(parts: Parts, at: Position) {
    at.part < |parts| && parts[at.part].Literal? && at.index < |parts[at.part].text|
  }

  function CharAt(parts: Parts, at: Position): char
    requires InPattern(parts, at)
  {
    parts[at.part].text[at.index]
  }

  predicate SameShape(p: Parts, q: Parts) {
    && |p| == |q|
    && forall i | 0 <= i < |p| ::
         if p[i].Literal? then q[i].Literal? && |q[i].text| == |p[i].text| else q[i] == p[i]
  }

  /** Dash positions among the first `k` characters of part `part`. */
  function TextDashes(text: string, part: nat, k: nat): (ps: seq<Position>)
    requires k <= |text|
    ensures forall i | 0 <= i < |ps| :: ps[i].part == part && ps[i].index < k && IsDash(text[ps[i].index])
    ensures forall i, j | 0 <= i < j < |ps| :: ps[i].index < ps[j].index
    ensures forall c: nat | c < k && IsDash(text[c]) :: Position(part, c) in ps
  {
    if k == 0 then []
    else if IsDash(text[k - 1]) then TextDashes(text, part, k - 1) + [Position(part, k - 1)]
    else TextDashes(text, part, k - 1)
  }

  predicate Before(a: Position, b: Position) {
    a.part < b.part || (a.part == b.part && a.index < b.index)
  }

  predicate Ascending(ps: seq<Position>) {
    forall i, j | 0 <= i < j < |ps| :: Before(ps[i], ps[j])
  }

  /** Dash positions in the literals of the first `n` parts, in reading order. */
  function Dashes(parts: Parts, n: nat): (ps: seq<Position>)
    requires n <= |parts|
    ensures forall i | 0 <= i < |ps| :: ps[i].part < n && InPattern(parts, ps[i]) && IsDash(CharAt(parts, ps[i]))
    ensures Ascending(ps)
    ensures forall at | InPattern(parts, at) && at.part < n && IsDash(CharAt(parts, at)) :: at in ps
  {
    if n == 0 then []
    else if parts[n - 1].Literal? then
      Dashes(parts, n - 1) + TextDashes(parts[n - 1].text, n - 1, |parts[n - 1].text|)
    else Dashes(parts, n - 1)
  }

  function SetChar(parts: Parts, at: Position, c: char): (r: Parts)
    requires InPattern(parts, at)
    ensures SameShape(parts, r)
  {
    parts[at.part := Literal(parts[at.part].text[at.index := c])]
  }

  predicate AllIn(parts: Parts, ps: seq<Position>) {
    forall i | 0 <= i < |ps| :: InPattern(parts, ps[i])
  }

  /** The base-5 digits of `idx`, least significant at the last position, choose the characters. */
  function Spell(parts: Parts, ps: seq<Position>, idx: nat): (r: Parts)
    requires AllIn(parts, ps)
    ensures SameShape(parts, r)
    decreases |ps|
  {
    if ps == [] then parts
    else Spell(SetChar(parts, ps[|ps| - 1], DashChar(idx % 5)), ps[..|ps| - 1], idx / 5)
  }

  function AllDashes(p: Pattern): (ps: seq<Position>)
    ensures AllIn(p.parts, ps) && Ascending(ps)
  {
    Dashes(p.parts, |p.parts|)
  }

  function Variant(p: Pattern, idx: nat): Pattern {
    Pattern(Spell(p.parts, AllDashes(p), idx))
  }

  function Variants(p: Pattern): Result<seq<Pattern>, IrError> {
    var n := |AllDashes(p)|;
    if n == 0 then Ok([p])
    else if n > MAX_WINDASH_DASHES then Err(TooManyDashes(n))
    else Ok(seq(Pow5(n), idx requires 0 <= idx < Pow5(n) => Variant(p, idx)))
  }

  // ----- The variants are exactly the respellings -----

  predicate RespellsChar(c: char, d: char) {
    c == d || (IsDash(c) && IsDash(d))
  }

  /** `q` differs from `p` at most in which dash stands at each dash position. */
  ghost predicate Respelling(p: Parts, q: Parts) {
    && SameShape(p, q)
    && forall at | InPattern(p, at) :: RespellsChar(CharAt(p, at), CharAt(q, at))
  }

  lemma SameText(p: Parts, q: Parts)
    requires SameShape(p, q)
    requires forall at | InPattern(p, at) :: CharAt(p, at) == CharAt(q, at)
    ensures p == q
  {
    forall i | 0 <= i < |p| && p[i].Literal?
      ensures p[i] == q[i]
    {
      forall k | 0 <= k < |p[i].text|
        ensures p[i].text[k] == q[i].text[k]
      {
        assert InPattern(p, Position(i, k)) && CharAt(p, Position(i, k)) == CharAt(q, Position(i, k));
      }
      assert p[i].text == q[i].text;
    }
  }

  lemma {:induction false} SpellKeeps(parts: Parts, ps: seq<Position>, idx: nat, at: Position)
    requires AllIn(parts, ps) && InPattern(parts, at) && at !in ps
    ensures CharAt(Spell(parts, ps, idx), at) == CharAt(parts, at)
    decreases |ps|
  {
    if ps != [] {
      SpellKeeps(SetChar(parts, ps[|ps| - 1], DashChar(idx % 5)), ps[..|ps| - 1], idx / 5, at);
    }
  }

  lemma SpellLast(parts: Parts, ps: seq<Position>, idx: nat)
    requires AllIn(parts, ps) && Ascending(ps) && ps != []
    ensures CharAt(Spell(parts, ps, idx), ps[|ps| - 1]) == DashChar(idx % 5)
  {
    SpellKeeps(SetChar(parts, ps[|ps| - 1], DashChar(idx % 5)), ps[..|ps| - 1], idx / 5, ps[|ps| - 1]);
  }

  lemma {:induction false} SpellRespells(base: Parts, parts: Parts, ps: seq<Position>, idx: nat)
    requires Respelling(base, parts) && AllIn(base, ps)
    requires forall i | 0 <= i < |ps| :: IsDash(CharAt(base, ps[i]))
    ensures Respelling(base, Spell(parts, ps, idx))
    decreases |ps|
  {
    if ps != [] {
      var parts' := SetChar(parts, ps[|ps| - 1], DashChar(idx % 5));
      assert Respelling(base, parts');
      SpellRespells(base, parts', ps[..|ps| - 1], idx / 5);
    }
  }

  lemma {:induction false} SpellInjective(parts: Parts, ps: seq<Position>, a: nat, b: nat)
    requires AllIn(parts, ps) && Ascending(ps)
    requires a < Pow5(|ps|) && b < Pow5(|ps|) && a != b
    ensures Spell(parts, ps, a) != Spell(parts, ps, b)
    decreases |ps|
  {
    SpellLast(parts, ps, a);
    SpellLast(parts, ps, b);
    if a % 5 == b % 5 {
      SpellInjective(SetChar(parts, ps[|ps| - 1], DashChar(a % 5)), ps[..|ps| - 1], a / 5, b / 5);
    }
  }

  /** The index whose digits spell `q` at positions `ps`. */
  function Code(q: Parts, ps: seq<Position>): (idx: nat)
    requires AllIn(q, ps) && forall i | 0 <= i < |ps| :: IsDash(CharAt(q, ps[i]))
    ensures idx < Pow5(|ps|)
    decreases |ps|
  {
    if ps == [] then 0
    else DashIndex(CharAt(q, ps[|ps| - 1])) + 5 * Code(q, ps[..|ps| - 1])
  }

  lemma {:induction false} SpellCode(parts: Parts, q: Parts, ps: seq<Position>)
    requires SameShape(parts, q) && AllIn(parts, ps) && AllIn(q, ps)
    requires forall i | 0 <= i < |ps| :: IsDash(CharAt(q, ps[i]))
    requires forall at | InPattern(parts, at) && at !in ps :: CharAt(parts, at) == CharAt(q, at)
    ensures Spell(parts, ps, Code(q, ps)) == q
    decreases |ps|
  {
    if ps == [] {
      SameText(parts, q);
    } else {
      var last, rest := ps[|ps| - 1], ps[..|ps| - 1];
      var d := DashIndex(CharAt(q, last));
      var parts' := SetChar(parts, last, DashChar(d));
      var idx := Code(q, ps);
      assert idx % 5 == d && idx / 5 == Code(q, rest);
      forall at | InPattern(parts', at) && at !in rest
        ensures CharAt(parts', at) == CharAt(q, at)
      {
        if at != last {
          assert at !in ps;
        }
      }
      SpellCode(parts', q, rest);
    }
  }

  /** The variants are the respellings of the pattern, all of them and nothing else. */
  lemma VariantsExact(p: Pattern, q: Pattern)
    requires Variants(p).Ok?
    ensures q in Variants(p).value <==> Respelling(p.parts, q.parts)
  {
    var ps := AllDashes(p);
    assert Respelling(p.parts, p.parts);
    if q in Variants(p).value && |ps| > 0 {
      var idx :| 0 <= idx < Pow5(|ps|) && q == Variant(p, idx);
      SpellRespells(p.parts, p.parts, ps, idx);
    }
    if Respelling(p.parts, q.parts) {
      forall i | 0 <= i < |ps|
        ensures InPattern(q.parts, ps[i]) && IsDash(CharAt(q.parts, ps[i]))
      {
        assert RespellsChar(CharAt(p.parts, ps[i]), CharAt(q.parts, ps[i]));
      }
      SpellCode(p.parts, q.parts, ps);
      var idx := Code(q.parts, ps);
      assert q == Variant(p, idx);
      if |ps| > 0 {
        assert Variants(p).value[idx] == q;
      } else {
        assert Variants(p).value[0] == q;
      }
    }
  }

  /** Each variant is listed once, and there are five to the number of dashes. */
  lemma VariantsDistinct(p: Pattern)
    requires Variants(p).Ok?
    ensures |Variants(p).value| == Pow5(|AllDashes(p)|)
    ensures forall a, b | 0 <= a < b < |Variants(p).value| :: Variants(p).value[a] != Variants(p).value[b]
  {
    forall a, b | 0 <= a < b < |Variants(p).value|
      ensures Variants(p).value[a] != Variants(p).value[b]
    {
      SpellInjective(p.parts, AllDashes(p), a, b);
    }
  }

  lemma {:induction false} SameDashes(p: Parts, q: Parts, n: nat)
    requires Respelling(p, q) && n <= |p|
    ensures Dashes(p, n) == Dashes(q, n)
  {
    if n > 0 {
      SameDashes(p, q, n - 1);
      if p[n - 1].Literal? {
        var s, t := p[n - 1].text, q[n - 1].text;
        forall k | 0 <= k < |s|
          ensures IsDash(s[k]) == IsDash(t[k])
        {
          assert InPattern(p, Position(n - 1, k));
        }
        SameTextDashes(s, t, n - 1, |s|);
      }
    }
  }

  lemma {:induction false} SameTextDashes(s: string, t: string, part: nat, k: nat)
    requires |s| == |t| && k <= |s|
    requires forall i | 0 <= i < |s| :: IsDash(s[i]) == IsDash(t[i])
    ensures TextDashes(s, part, k) == TextDashes(t, part, k)
  {
    if k > 0 {
      SameTextDashes(s, t, part, k - 1);
    }
  }

  /** Expanding a variant again yields the same variants. */
  lemma VariantsClosed(p: Pattern, q: Pattern, r: Pattern)
    requires Variants(p).Ok? && q in Variants(p).value
    ensures Variants(q).Ok? && (r in Variants(q).value <==> r in Variants(p).value)
  {
    VariantsExact(p, q);
    SameDashes(p.parts, q.parts, |p.parts|);
    VariantsExact(q, r);
    VariantsExact(p, r);
    if Respelling(q.parts, r.parts) {
      forall at | InPattern(p.parts, at)
        ensures RespellsChar(CharAt(p.parts, at), CharAt(r.parts, at))
      {
        assert InPattern(q.parts, at);
        assert RespellsChar(CharAt(q.parts, at), CharAt(r.parts, at));
      }
    }
    if Respelling(p.parts, r.parts) {
      forall at | InPattern(q.parts, at)
        ensures RespellsChar(CharAt(q.parts, at), CharAt(r.parts, at))
      {
        assert InPattern(p.parts, at);
        assert RespellsChar(CharAt(p.parts, at), CharAt(r.parts, at));
      }
    }
  }

  // ----- The in-place byte edits -----

  datatype BytePart = Bytes(bs: seq<byte>) | Wildcard(multi: bool)

  function PartBytes(part: PatternPart): BytePart {
    match part
    case Literal(text) => Bytes(Utf8(text))
    case WildcardMulti => Wildcard(true)
    case WildcardSingle => Wildcard(false)
  }

  function ToBytes(parts: Parts): (r: seq<BytePart>)
    ensures |r| == |parts|
  {
    seq(|parts|, i requires 0 <= i < |parts| => PartBytes(parts[i]))
  }

  /** Part index and byte offset of a character. */
  function Offset(parts: Parts, at: Position): (nat, nat)
    requires InPattern(parts, at)
  {
    (at.part, |Utf8(parts[at.part].text[..at.index])|)
  }

  function Offsets(parts: Parts, ps: seq<Position>): (r: seq<(nat, nat)>)
    requires AllIn(parts, ps)
    ensures |r| == |ps|
  {
    seq(|ps|, i requires 0 <= i < |ps| => Offset(parts, ps[i]))
  }

  lemma OffsetsAppend(parts: Parts, ps: seq<Position>, qs: seq<Position>)
    requires AllIn(parts, ps) && AllIn(parts, qs)
    ensures AllIn(parts, ps + qs) && Offsets(parts, ps + qs) == Offsets(parts, ps) + Offsets(parts, qs)
  {
  }

  /** `char_indices` of one literal part, filtered to the dashes. */
  method TextOffsets(parts: Parts, part: nat) returns (positions: seq<(nat, nat)>)
    requires part < |parts| && parts[part].Literal?
    ensures AllIn(parts, TextDashes(parts[part].text, part, |parts[part].text|))
    ensures positions == Offsets(parts, TextDashes(parts[part].text, part, |parts[part].text|))
  {
    positions := [];
    var text := parts[part].text;
    var lo := 0;
    for k := 0 to |text|
      invariant lo == |Utf8(text[..k])|
      invariant AllIn(parts, TextDashes(text, part, k)) && positions == Offsets(parts, TextDashes(text, part, k))
    {
      if IsDash(text[k]) {
        positions := positions + [(part, lo)];
        OffsetsAppend(parts, TextDashes(text, part, k), [Position(part, k)]);
      }
      assert text[..k + 1] == text[..k] + [text[k]];
      Utf8Concat(text[..k], [text[k]]);
      assert Utf8([text[k]]) == Utf8Char(text[k]);
      lo := lo + |Utf8Char(text[k])|;
    }
  }

  /** Byte positions of every dash of the pattern. */
  method DashOffsets(p: Pattern) returns (positions: seq<(nat, nat)>)
    ensures positions == Offsets(p.parts, AllDashes(p))
  {
    positions := [];
    for i := 0 to |p.parts|
      invariant positions == Offsets(p.parts, Dashes(p.parts, i))
    {
      if p.parts[i].Literal? {
        var more := TextOffsets(p.parts, i);
        OffsetsAppend(p.parts, Dashes(p.parts, i), TextDashes(p.parts[i].text, i, |p.parts[i].text|));
        positions := positions + more;
      }
    }
  }

  /** `text.replace_range(byte..byte + width, replacement)`. */
  function ReplaceChar(bs: seq<byte>, lo: nat, c: char): seq<byte>
    requires lo < |bs| && lo + LeadWidth(bs[lo]) <= |bs|
  {
    bs[..lo] + Utf8Char(c) + bs[lo + LeadWidth(bs[lo])..]
  }

  /** Replacing the bytes of one character is replacing that character. */
  lemma ReplaceRange(parts: Parts, at: Position, c: char)
    requires InPattern(parts, at)
    ensures var bs := Utf8(parts[at.part].text);
            var lo := Offset(parts, at).1;
            && lo < |bs| && lo + LeadWidth(bs[lo]) <= |bs|
            && ToBytes(parts)[at.part := Bytes(ReplaceChar(bs, lo, c))] == ToBytes(SetChar(parts, at, c))
  {
    var text := parts[at.part].text;
    var text' := text[at.index := c];
    Utf8At(text, at.index);
    Utf8At(text', at.index);
    assert text'[..at.index] == text[..at.index] && text'[at.index + 1..] == text[at.index + 1..];
    var lo := |Utf8(text[..at.index])|;
    assert Utf8(text)[lo] == Utf8Char(text[at.index])[0];
    assert Utf8(text)[lo + |Utf8Char(text[at.index])|..] == Utf8(text[at.index + 1..]);
    assert Utf8(text)[..lo] == Utf8(text[..at.index]);
  }

  /** Replacing a character moves no character before it. */
  lemma EarlierOffset(parts: Parts, at: Position, c: char, earlier: Position)
    requires InPattern(parts, at) && InPattern(parts, earlier) && Before(earlier, at)
    ensures Offset(SetChar(parts, at, c), earlier) == Offset(parts, earlier)
  {
    assert SetChar(parts, at, c)[earlier.part].text[..earlier.index] == parts[earlier.part].text[..earlier.index];
  }

  /** One replacement of the loop below: the text, the shape and the offsets still to come. */
  lemma SpellStep(was: Parts, ps: seq<Position>, j: nat, c: char)
    requires j < |ps| && AllIn(was, ps) && forall i | 0 <= i < j :: Before(ps[i], ps[j])
    ensures var now := SetChar(was, ps[j], c);
            AllIn(now, ps) && forall i | 0 <= i < j :: Offset(now, ps[i]) == Offset(was, ps[i])
  {
    forall i | 0 <= i < j
      ensures InPattern(SetChar(was, ps[j], c), ps[i]) && Offset(SetChar(was, ps[j], c), ps[i]) == Offset(was, ps[i])
    {
      EarlierOffset(was, ps[j], c, ps[i]);
    }
  }

  lemma SpellUnfolds(was: Parts, ps: seq<Position>, j: nat, idx: nat)
    requires j < |ps| && AllIn(was, ps)
    ensures AllIn(was, ps[..j + 1]) && AllIn(SetChar(was, ps[j], DashChar(idx % 5)), ps[..j])
    ensures Spell(was, ps[..j + 1], idx) == Spell(SetChar(was, ps[j], DashChar(idx % 5)), ps[..j], idx / 5)
  {
    assert ps[..j + 1][..j] == ps[..j] && ps[..j + 1][j] == ps[j];
  }

  /** Spells one variant, from the last position to the first so that earlier offsets stay valid. */
  method SpellVariant(p: Pattern, positions: seq<(nat, nat)>, combo: nat) returns (parts: seq<BytePart>)
    requires positions == Offsets(p.parts, AllDashes(p))
    ensures parts == ToBytes(Variant(p, combo).parts)
  {
    parts := ToBytes(p.parts);
    var idx := combo;
    ghost var ps := AllDashes(p);
    ghost var spelled := p.parts;
    var j := |positions|;
    assert ps[..j] == ps;
    while j > 0
      invariant 0 <= j <= |ps| == |positions|
      invariant SameShape(p.parts, spelled) && parts == ToBytes(spelled)
      invariant AllIn(spelled, ps)
      invariant forall i | 0 <= i < j :: Offset(spelled, ps[i]) == positions[i]
      invariant Spell(spelled, ps[..j], idx) == Spell(p.parts, ps, combo)
    {
      j := j - 1;
      var part, lo := positions[j].0, positions[j].1;
      ghost var was := spelled;
      var c := DashChar(idx % 5);
      ReplaceRange(was, ps[j], c);
      assert parts[part] == Bytes(Utf8(was[part].text));
      parts := parts[part := Bytes(ReplaceChar(parts[part].bs, lo, c))];
      SpellStep(was, ps, j, c);
      SpellUnfolds(was, ps, j, idx);
      spelled := SetChar(was, ps[j], c);
      idx := idx / 5;
    }
  }

  method WindashVariants(p: Pattern) returns (r: Result<seq<seq<BytePart>>, IrError>)
    ensures r.Ok? == Variants(p).Ok? && (r.Err? ==> r.error == Variants(p).error)
    ensures r.Ok? ==> |r.value| == |Variants(p).value|
    ensures r.Ok? ==> forall i | 0 <= i < |r.value| :: r.value[i] == ToBytes(Variants(p).value[i].parts)
  {
    var positions := DashOffsets(p);
    if positions == [] {
      return Ok([ToBytes(p.parts)]);
    }
    var n := |positions|;
    if n > MAX_WINDASH_DASHES {
      return Err(TooManyDashes(n));
    }
    var total := Pow5(n);
    var variants := [];
    for combo := 0 to total
      invariant |variants| == combo
      invariant forall i | 0 <= i < combo :: variants[i] == ToBytes(Variant(p, i).parts)
    {
      var parts := SpellVariant(p, positions, combo);
      variants := variants + [parts];
    }
    return Ok(variants);
  }
}
