/** What the encodings of a value are, read back by independent decoders (`crates/rsigma-ir/src/encoding.rs`). */
module EncodingResults {
  import opened Results
  import opened SigmaIr
  import opened Unicode
  import opened Windash
  import opened Encodings
  import Base64
  import Base64Text

  // ----- Character encodings -----

  /** Bytes with a byte order mark are read in the order it gives. */
  function ReadMarked(bs: seq<byte>): Option<seq<int>> {
    if |bs| < 2 || |bs| % 2 != 0 then None
    else if bs[..2] == [0xFF, 0xFE] then Some(DecodeUtf16(UnitsOfLe(bs[2..])))
    else if bs[..2] == [0xFE, 0xFF] then Some(DecodeUtf16(UnitsOfBe(bs[2..])))
    else None
  }

  /** The characters of encoded bytes. */
  function ReadBytes(utf16: Option<Encoding>, bs: seq<byte>): Option<seq<int>> {
    match utf16
    case Some(Wide) => if |bs| % 2 == 0 then Some(DecodeUtf16(UnitsOfLe(bs))) else None
    case Some(Utf16Be) => if |bs| % 2 == 0 then Some(DecodeUtf16(UnitsOfBe(bs))) else None
    case Some(Utf16) => ReadMarked(bs)
    case _ => DecodeUtf8(bs)
  }

  lemma MarkedReadsBack(plain: string)
    ensures ReadMarked(EncodedBytes(Some(Utf16), plain)) == Some(Scalars(plain))
  {
    var bs, units := EncodedBytes(Some(Utf16), plain), Unicode.Utf16(plain);
    assert bs[..2] == [0xFF, 0xFE] && bs[2..] == LeBytes(units);
    LeRoundTrip(units);
    Utf16RoundTrip(plain);
  }

  /** The bytes of a value decode to the value. */
  lemma BytesReadBack(utf16: Option<Encoding>, plain: string)
    requires utf16.Some? ==> IsUtf16(utf16.value)
    ensures ReadBytes(utf16, EncodedBytes(utf16, plain)) == Some(Scalars(plain))
  {
    match utf16
    case None => Utf8RoundTrip(plain);
    case Some(e) =>
      Utf16RoundTrip(plain);
      if e == Wide {
        LeRoundTrip(Unicode.Utf16(plain));
      } else if e == Utf16Be {
        BeRoundTrip(Unicode.Utf16(plain));
      } else {
        MarkedReadsBack(plain);
      }
  }

  // ----- Which matches a value expands to -----

  lemma {:induction false} GatheredAre(rs: seq<Result<seq<StrVariant>, IrError>>, n: nat, v: StrVariant)
    requires n <= |rs| && Gather(rs, n).Ok?
    ensures v in Gather(rs, n).value <==> exists i | 0 <= i < n :: rs[i].Ok? && v in rs[i].value
  {
    if n > 0 { GatheredAre(rs, n - 1, v); }
  }

  lemma {:induction false} GatherFails(rs: seq<Result<seq<StrVariant>, IrError>>, n: nat)
    requires n <= |rs|
    ensures Gather(rs, n).Err? <==> exists i | 0 <= i < n :: rs[i].Err?
  {
    if n > 0 { GatherFails(rs, n - 1); }
  }

  predicate HasWildcard(p: Pattern) {
    exists i | 0 <= i < |p.parts| :: !p.parts[i].Literal?
  }

  lemma {:induction false} PlainWithoutWildcards(parts: seq<PatternPart>)
    ensures AsPlain(parts).None? <==> HasWildcard(Pattern(parts))
  {
    if parts != [] {
      var rest := parts[1..];
      PlainWithoutWildcards(rest);
      assert forall i | 0 <= i < |rest| :: rest[i] == parts[i + 1];
      if HasWildcard(Pattern(parts)) && parts[0].Literal? {
        var i :| 0 <= i < |parts| && !parts[i].Literal?;
        assert !rest[i - 1].Literal?;
      }
    }
  }

  /** The spellings a value is encoded in. */
  ghost predicate Spelling(es: seq<Encoding>, p: Pattern, q: Pattern) {
    q == p || (Encoding.Windash in es && Respelling(p.parts, q.parts))
  }

  lemma SpellingsAre(es: seq<Encoding>, p: Pattern, q: Pattern)
    requires Spellings(es, p).Ok?
    ensures q in Spellings(es, p).value <==> Spelling(es, p, q)
  {
    if Encoding.Windash in es {
      VariantsExact(p, q);
      assert Respelling(p.parts, p.parts);
    }
  }

  /** Expansion fails exactly on too many dashes, and on wildcards under base64. */
  lemma ExpandFails(es: seq<Encoding>, op: StrOp, p: Pattern)
    ensures ExpandEncoded(es, op, p).Err?
            <==> (Encoding.Windash in es && |AllDashes(p)| > 8)
                 || ((Encoding.Base64 in es || Base64Offset in es) && HasWildcard(p))
  {
    var utf16, base64 := FindEncoding(es, IsUtf16), FindEncoding(es, IsBase64);
    assert base64.Some? <==> Encoding.Base64 in es || Base64Offset in es;
    if Spellings(es, p).Ok? {
      var qs := Spellings(es, p).value;
      var rs := EncodeEach(utf16, base64, op, qs);
      GatherFails(rs, |qs|);
      forall i | 0 <= i < |qs| ensures rs[i].Err? <==> base64.Some? && HasWildcard(p) {
        SpellingsAre(es, p, qs[i]);
        SpellingWildcards(es, p, qs[i]);
        PlainWithoutWildcards(qs[i].parts);
      }
      SpellingsAre(es, p, p);
      assert p in qs;
    }
  }

  lemma SpellingWildcards(es: seq<Encoding>, p: Pattern, q: Pattern)
    requires Spelling(es, p, q)
    ensures HasWildcard(q) <==> HasWildcard(p)
  {
    if HasWildcard(p) {
      var i :| 0 <= i < |p.parts| && !p.parts[i].Literal?;
      assert q == p || q.parts[i] == p.parts[i];
    }
    if HasWildcard(q) && q != p {
      var i :| 0 <= i < |q.parts| && !q.parts[i].Literal?;
      assert !p.parts[i].Literal?;
    }
  }

  /** A match is produced exactly when some spelling is encoded to it. */
  lemma ExpandedAre(es: seq<Encoding>, op: StrOp, p: Pattern, v: StrVariant)
    requires ExpandEncoded(es, op, p).Ok?
    ensures v in ExpandEncoded(es, op, p).value
            <==> exists q :: Spelling(es, p, q) && EncodedTo(es, op, q, v)
  {
    var qs := Spellings(es, p).value;
    var rs := EncodeEach(FindEncoding(es, IsUtf16), FindEncoding(es, IsBase64), op, qs);
    GatheredAre(rs, |qs|, v);
    GatherFails(rs, |qs|);
    if v in ExpandEncoded(es, op, p).value {
      var i :| 0 <= i < |qs| && rs[i].Ok? && v in rs[i].value;
      SpellingsAre(es, p, qs[i]);
      assert EncodedTo(es, op, qs[i], v);
    }
    if q :| Spelling(es, p, q) && EncodedTo(es, op, q, v) {
      SpellingsAre(es, p, q);
      var i :| 0 <= i < |qs| && qs[i] == q;
      assert v in rs[i].value;
    }
  }

  ghost predicate EncodedTo(es: seq<Encoding>, op: StrOp, q: Pattern, v: StrVariant) {
    var r := EncodeVariant(FindEncoding(es, IsUtf16), FindEncoding(es, IsBase64), op, q);
    r.Ok? && v in r.value
  }

  /** Under `base64` a spelling becomes the one text that decodes to its bytes, with the operator kept. */
  lemma Base64ValueIs(es: seq<Encoding>, op: StrOp, q: Pattern, v: StrVariant)
    requires FindEncoding(es, IsBase64) == Some(Encoding.Base64) && !HasWildcard(q)
    ensures AsPlain(q.parts).Some?
    ensures var bytes := EncodedBytes(FindEncoding(es, IsUtf16), AsPlain(q.parts).value);
            EncodedTo(es, op, q, v) <==> v == (op, LiteralPattern(Base64.Encode(bytes)))
    ensures EncodedTo(es, op, q, v) ==>
              Base64Text.Decode(v.1.parts[0].text) == Some(EncodedBytes(FindEncoding(es, IsUtf16), AsPlain(q.parts).value))
  {
    PlainWithoutWildcards(q.parts);
    var bytes := EncodedBytes(FindEncoding(es, IsUtf16), AsPlain(q.parts).value);
    Base64Text.Base64RoundTrip(bytes);
  }

  /** The pattern of one of the first `n` alignments. */
  predicate OffsetText(value: seq<byte>, n: nat, text: string)
    requires n <= 3
  {
    exists o: nat | o < n :: Base64.Emitted(value, o) && text == Base64.OffsetPattern(value, o)
  }

  /** Under `base64offset` it becomes the pattern of each alignment that has one, to be contained. */
  lemma OffsetValueIs(es: seq<Encoding>, op: StrOp, q: Pattern, v: StrVariant)
    requires FindEncoding(es, IsBase64) == Some(Base64Offset) && !HasWildcard(q)
    ensures AsPlain(q.parts).Some?
    ensures var bytes := EncodedBytes(FindEncoding(es, IsUtf16), AsPlain(q.parts).value);
            EncodedTo(es, op, q, v)
            <==> v.0 == Contains && exists text :: OffsetText(bytes, 3, text) && v.1 == LiteralPattern(text)
  {
    PlainWithoutWildcards(q.parts);
    var bytes := EncodedBytes(FindEncoding(es, IsUtf16), AsPlain(q.parts).value);
    AllContainAre(Base64.OffsetPatterns(bytes, 3), v);
    forall text { OffsetPatternsAre(bytes, 3, text); }
  }

  lemma AllContainAre(texts: seq<string>, v: StrVariant)
    ensures v in AllContain(texts) <==> v.0 == Contains && exists text | text in texts :: v.1 == LiteralPattern(text)
  {
    if v in AllContain(texts) {
      var i :| 0 <= i < |texts| && AllContain(texts)[i] == v;
      assert texts[i] in texts;
    }
    if text :| text in texts && v == (Contains, LiteralPattern(text)) {
      var i :| 0 <= i < |texts| && texts[i] == text;
      assert AllContain(texts)[i] == v;
    }
  }

  lemma {:induction false} OffsetPatternsAre(value: seq<byte>, n: nat, text: string)
    requires n <= 3
    ensures text in Base64.OffsetPatterns(value, n) <==> OffsetText(value, n, text)
  {
    if n > 0 { OffsetPatternsAre(value, n - 1, text); }
  }

  /** Without base64 the operator and the wildcards stay, and literals are widened in place. */
  lemma WideValueIs(es: seq<Encoding>, op: StrOp, q: Pattern, v: StrVariant)
    requires FindEncoding(es, IsBase64).None?
    ensures FindEncoding(es, IsUtf16).None? ==> (EncodedTo(es, op, q, v) <==> v == (op, q))
    ensures EncodedTo(es, op, q, v) ==> v.0 == op
    ensures EncodedTo(es, op, q, v) && FindEncoding(es, IsUtf16).Some? ==>
              var mark := if FindEncoding(es, IsUtf16) == Some(Utf16) then 1 else 0;
              && |v.1.parts| == |q.parts| + mark
              && (mark == 1 ==> v.1.parts[0] == Literal("\U{FEFF}"))
              && forall i | 0 <= i < |q.parts| ::
                   if q.parts[i].Literal? then WidenedTo(FindEncoding(es, IsUtf16).value, q.parts[i].text, v.1.parts[mark + i])
                   else v.1.parts[mark + i] == q.parts[i]
  {
    var utf16 := FindEncoding(es, IsUtf16);
    if utf16.Some? {
      forall i | 0 <= i < |q.parts| && q.parts[i].Literal? { WidenedIs(utf16.value, q.parts[i].text); }
    }
  }

  /** Each character beside a NUL, on the side the byte order puts the high byte. */
  predicate WidenedTo(encoding: Encoding, text: string, part: PatternPart) {
    && part.Literal? && |part.text| == 2 * |text|
    && forall i | 0 <= i < |text| ::
         if encoding == Utf16Be then part.text[2 * i] == '\0' && part.text[2 * i + 1] == text[i]
         else part.text[2 * i] == text[i] && part.text[2 * i + 1] == '\0'
  }

  lemma {:induction false} WidenedAt(encoding: Encoding, text: string, i: nat)
    requires i < |text|
    ensures |WideText(encoding, text)| == 2 * |text|
    ensures WideText(encoding, text)[2 * i] == WideChar(encoding, text[i])[0]
    ensures WideText(encoding, text)[2 * i + 1] == WideChar(encoding, text[i])[1]
  {
    if |text| > 1 {
      var k := if i > 0 then i - 1 else 0;
      WidenedAt(encoding, text[1..], k);
      var rest := WideText(encoding, text[1..]);
      WidenedShift(WideChar(encoding, text[0]), rest, k);
      assert text[1..][k] == text[k + 1];
    } else {
      assert text[1..] == [] && WideText(encoding, text[1..]) == [];
    }
  }

  lemma WidenedShift(first: string, rest: string, k: nat)
    requires |first| == 2 && 2 * k + 1 < |rest|
    ensures (first + rest)[2 * (k + 1)] == rest[2 * k] && (first + rest)[2 * (k + 1) + 1] == rest[2 * k + 1]
  {
  }

  lemma WidenedIs(encoding: Encoding, text: string)
    ensures WidenedTo(encoding, text, Literal(WideText(encoding, text)))
  {
    forall i: nat | i < |text| { WidenedAt(encoding, text, i); }
    if text == [] { assert WideText(encoding, text) == []; } else { WidenedAt(encoding, text, 0); }
  }
}
