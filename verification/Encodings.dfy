/** Expansion of one encoded value into the plain string matches it stands for. */
module Encodings {
  import opened Results
  import opened SigmaIr
  import opened Unicode
  import opened Windash
  import Base64

  type StrVariant = (StrOp, Pattern)

  predicate IsUtf16(e: Encoding) {
    e == Wide || e == Utf16 || e == Utf16Be
  }

  predicate IsBase64(e: Encoding) {
    e == Encoding.Base64 || e == Base64Offset
  }

  /** The first encoding of a kind, as `iter().find`. */
  function FindEncoding(es: seq<Encoding>, kind: Encoding -> bool): (r: Option<Encoding>)
    ensures r.Some? ==> r.value in es && kind(r.value)
    ensures r.None? ==> forall e | e in es :: !kind(e)
  {
    if es == [] then None
    else if kind(es[0]) then Some(es[0])
    else FindEncoding(es[1..], kind)
  }

  /** The text of a pattern without wildcards. */
  function AsPlain(parts: seq<PatternPart>): Option<string> {
    if parts == [] then Some("")
    else if !parts[0].Literal? then None
    else match AsPlain(parts[1..])
      case None => None
      case Some(rest) => Some(parts[0].text + rest)
  }

  function LiteralPattern(text: string): Pattern {
    Pattern([Literal(text)])
  }

  /** Bytes of a plain value under its character encoding. */
  function EncodedBytes(utf16: Option<Encoding>, plain: string): seq<byte> {
    match utf16
    case Some(Wide) => LeBytes(Unicode.Utf16(plain))
    case Some(Utf16Be) => BeBytes(Unicode.Utf16(plain))
    case Some(Utf16) => [0xFF, 0xFE] + LeBytes(Unicode.Utf16(plain))
    case _ => Utf8(plain)
  }

  function WideChar(encoding: Encoding, c: char): string {
    if encoding == Utf16Be then ['\0', c] else [c, '\0']
  }

  /** Each character next to a NUL, in the byte order of the encoding. */
  function WideText(encoding: Encoding, text: string): string {
    if text == [] then []
    else WideChar(encoding, text[0]) + WideText(encoding, text[1..])
  }

  function Utf16Pattern(encoding: Encoding, p: Pattern): Pattern {
    var parts := seq(|p.parts|, i requires 0 <= i < |p.parts| =>
      if p.parts[i].Literal? then Literal(WideText(encoding, p.parts[i].text)) else p.parts[i]);
    Pattern((if encoding == Utf16 then [Literal("\U{FEFF}")] else []) + parts)
  }

  function AllContain(texts: seq<string>): seq<StrVariant> {
    seq(|texts|, i requires 0 <= i < |texts| => (Contains, LiteralPattern(texts[i])))
  }

  /** The matches of one spelling of the value. */
  function EncodeVariant(utf16: Option<Encoding>, base64: Option<Encoding>, op: StrOp, p: Pattern): Result<seq<StrVariant>, IrError> {
    if base64.None? then
      Ok([(op, if utf16.Some? then Utf16Pattern(utf16.value, p) else p)])
    else match AsPlain(p.parts)
      case None => Err(WildcardsInBase64)
      case Some(plain) =>
        var bytes := EncodedBytes(utf16, plain);
        if base64.value == Encoding.Base64 then Ok([(op, LiteralPattern(Base64.Encode(bytes)))])
        else Ok(AllContain(Base64.OffsetPatterns(bytes, 3)))
  }

  function Spellings(es: seq<Encoding>, p: Pattern): Result<seq<Pattern>, IrError> {
    if Encoding.Windash in es then Variants(p) else Ok([p])
  }

  function EncodeEach(utf16: Option<Encoding>, base64: Option<Encoding>, op: StrOp, ps: seq<Pattern>): (r: seq<Result<seq<StrVariant>, IrError>>)
    ensures |r| == |ps|
  {
    seq(|ps|, i requires 0 <= i < |ps| => EncodeVariant(utf16, base64, op, ps[i]))
  }

  /** The first `n` results one after another, or the first error. */
  function Gather(rs: seq<Result<seq<StrVariant>, IrError>>, n: nat): Result<seq<StrVariant>, IrError>
    requires n <= |rs|
  {
    if n == 0 then Ok([])
    else
      var before :- Gather(rs, n - 1);
      var these :- rs[n - 1];
      Ok(before + these)
  }

  function ExpandEncoded(es: seq<Encoding>, op: StrOp, p: Pattern): Result<seq<StrVariant>, IrError> {
    var spellings :- Spellings(es, p);
    Gather(EncodeEach(FindEncoding(es, IsUtf16), FindEncoding(es, IsBase64), op, spellings), |spellings|)
  }

  method EncodeSpelling(utf16: Option<Encoding>, base64: Option<Encoding>, op: StrOp, variant: Pattern)
    returns (r: Result<seq<StrVariant>, IrError>)
    ensures r == EncodeVariant(utf16, base64, op, variant)
  {
    if base64.None? {
      return Ok([(op, if utf16.Some? then Utf16Pattern(utf16.value, variant) else variant)]);
    }
    var plain := AsPlain(variant.parts);
    if plain.None? {
      return Err(WildcardsInBase64);
    }
    var bytes := EncodedBytes(utf16, plain.value);
    if base64.value == Encoding.Base64 {
      return Ok([(op, LiteralPattern(Base64.Encode(bytes)))]);
    }
    var patterns := Base64.Base64OffsetPatterns(bytes);
    return Ok(AllContain(patterns));
  }

  /** Collects the matches of each spelling, stopping at the first one that cannot be encoded. */
  method EncodeSpellings(utf16: Option<Encoding>, base64: Option<Encoding>, op: StrOp, ps: seq<Pattern>)
    returns (r: Result<seq<StrVariant>, IrError>)
    ensures r == Gather(EncodeEach(utf16, base64, op, ps), |ps|)
  {
    var out := [];
    ghost var rs := EncodeEach(utf16, base64, op, ps);
    for i := 0 to |ps|
      invariant Gather(rs, i) == Ok(out)
    {
      var these := EncodeSpelling(utf16, base64, op, ps[i]);
      assert rs[i] == these;
      match these {
        case Err(e) =>
          ErrorStays(rs, i + 1, |ps|);
          return Err(e);
        case Ok(more) => out := out + more;
      }
    }
    return Ok(out);
  }

  lemma {:induction false} ErrorStays(rs: seq<Result<seq<StrVariant>, IrError>>, k: nat, n: nat)
    requires k <= n <= |rs| && Gather(rs, k).Err?
    ensures Gather(rs, n) == Gather(rs, k)
  {
    if k < n {
      ErrorStays(rs, k, n - 1);
    }
  }

  lemma {:induction false} ResultIncluded(rs: seq<Result<seq<StrVariant>, IrError>>, n: nat, i: nat, v: StrVariant)
    requires i < n <= |rs| && Gather(rs, n).Ok?
    ensures rs[i].Ok? && (v in rs[i].value ==> v in Gather(rs, n).value)
  {
    if i < n - 1 {
      ResultIncluded(rs, n - 1, i, v);
    }
  }

  // ----- What expansion catches -----

  lemma {:induction false} OffsetPatternListed(value: seq<byte>, offset: nat, n: nat)
    requires offset < n <= 3 && Base64.Emitted(value, offset)
    ensures Base64.OffsetPattern(value, offset) in Base64.OffsetPatterns(value, n)
  {
    if offset < n - 1 {
      OffsetPatternListed(value, offset, n - 1);
    }
  }

  ghost predicate Occurs(needle: string, haystack: string) {
    exists at: nat :: Base64.FoundAt(haystack, needle, at)
  }

  /**
    A `base64offset` value is caught however it is spelled and wherever it stands: the base64
    text of any bytes around the encoded value contains one of the emitted literals.
   */
  lemma CaughtAnywhere(es: seq<Encoding>, op: StrOp, p: Pattern, q: Pattern, pre: seq<byte>, post: seq<byte>)
    requires FindEncoding(es, IsBase64) == Some(Base64Offset)
    requires ExpandEncoded(es, op, p).Ok?
    requires q == p || (Encoding.Windash in es && Respelling(p.parts, q.parts))
    ensures AsPlain(q.parts).Some?
    ensures var value := EncodedBytes(FindEncoding(es, IsUtf16), AsPlain(q.parts).value);
            Base64.Emitted(value, |pre| % 3) ==>
              exists text :: (Contains, LiteralPattern(text)) in ExpandEncoded(es, op, p).value
                             && Occurs(text, Base64.Encode(pre + value + post))
  {
    var utf16, base64 := FindEncoding(es, IsUtf16), FindEncoding(es, IsBase64);
    var spellings := Spellings(es, p).value;
    if Encoding.Windash in es {
      assert Respelling(p.parts, p.parts);
      VariantsExact(p, q);
      VariantsExact(p, p);
    }
    assert q in spellings;
    var rs := EncodeEach(utf16, base64, op, spellings);
    var i :| 0 <= i < |spellings| && spellings[i] == q;
    ResultIncluded(rs, |spellings|, i, (op, q));
    var value := EncodedBytes(utf16, AsPlain(q.parts).value);
    var o := |pre| % 3;
    if Base64.Emitted(value, o) {
      var text := Base64.OffsetPattern(value, o);
      var texts := Base64.OffsetPatterns(value, 3);
      OffsetPatternListed(value, o, 3);
      var k :| 0 <= k < |texts| && texts[k] == text;
      assert AllContain(texts)[k] == (Contains, LiteralPattern(text));
      ResultIncluded(rs, |spellings|, i, (Contains, LiteralPattern(text)));
      Base64.OffsetPatternFound(pre, value, post);
    }
  }

  /** Any value of two characters, or of one in UTF-16, is caught at every alignment. */
  lemma LongEnough(utf16: Option<Encoding>, plain: string, offset: nat)
    requires offset < 3 && (|plain| >= 2 || (|plain| == 1 && utf16.Some? && IsUtf16(utf16.value)))
    ensures Base64.Emitted(EncodedBytes(utf16, plain), offset)
  {
    Utf8Grows(plain);
    Utf16Grows(plain);
    Base64.EmittedIff(EncodedBytes(utf16, plain), offset);
  }

  // ----- UTF-16 text -----

  predicate Ascii(text: string) {
    forall i | 0 <= i < |text| :: text[i] as int < 0x80
  }

  lemma WideCharBytes(encoding: Encoding, c: char)
    requires encoding == Wide || encoding == Utf16Be
    ensures c as int < 0x80 ==> Utf8(WideChar(encoding, c)) == EncodedBytes(Some(encoding), [c])
    ensures c as int >= 0x80 ==> |Utf8(WideChar(encoding, c))| > |EncodedBytes(Some(encoding), [c])|
  {
    var w := WideChar(encoding, c);
    assert w == [w[0]] + [w[1]];
    Utf8Concat([w[0]], [w[1]]);
    assert Utf8([w[0]]) == Utf8Char(w[0]) && Utf8([w[1]]) == Utf8Char(w[1]);
    assert Unicode.Utf16([c]) == Utf16Units(c);
  }

  /** A UTF-16 pattern spells the bytes of the encoded value exactly when the value is ASCII. */
  lemma {:induction false} WideTextBytes(encoding: Encoding, text: string)
    requires encoding == Wide || encoding == Utf16Be
    ensures |Utf8(WideText(encoding, text))| >= |EncodedBytes(Some(encoding), text)|
    ensures Utf8(WideText(encoding, text)) == EncodedBytes(Some(encoding), text) <==> Ascii(text)
  {
    if text != [] {
      var c, rest := text[0], text[1..];
      WideTextBytes(encoding, rest);
      WideCharBytes(encoding, c);
      Utf8Concat(WideChar(encoding, c), WideText(encoding, rest));
      EncodedConcat(encoding, c, rest);
      assert text == [c] + rest;
      assert Ascii(text) <==> c as int < 0x80 && Ascii(rest);
      if c as int < 0x80 {
        SplitEqual(Utf8(WideChar(encoding, c)), Utf8(WideText(encoding, rest)),
                   EncodedBytes(Some(encoding), [c]), EncodedBytes(Some(encoding), rest));
      }
    }
  }

  /** The text a UTF-16 pattern spells for a value without wildcards. */
  lemma SpelledText(encoding: Encoding, text: string)
    ensures AsPlain(Utf16Pattern(encoding, LiteralPattern(text)).parts)
            == Some((if encoding == Utf16 then "\U{FEFF}" else "") + WideText(encoding, text))
  {
    var parts := Utf16Pattern(encoding, LiteralPattern(text)).parts;
    var wide := Literal(WideText(encoding, text));
    assert parts == if encoding == Utf16 then [Literal("\U{FEFF}"), wide] else [wide];
    assert [wide][1..] == [] && [Literal("\U{FEFF}"), wide][1..] == [wide];
    assert AsPlain([wide]) == Some(wide.text + "");
    assert wide.text + "" == wide.text && "" + wide.text == wide.text;
  }

  /** With a byte order mark it never spells the bytes; without, exactly for ASCII values. */
  lemma Utf16PatternBytes(encoding: Encoding, text: string)
    requires IsUtf16(encoding)
    ensures var spelled := AsPlain(Utf16Pattern(encoding, LiteralPattern(text)).parts);
            spelled.Some? && (Utf8(spelled.value) == EncodedBytes(Some(encoding), text) <==> encoding != Utf16 && Ascii(text))
  {
    SpelledText(encoding, text);
    if encoding == Utf16 {
      Utf8Concat("\U{FEFF}", WideText(encoding, text));
      assert Utf8("\U{FEFF}") == Utf8Char('\U{FEFF}') && Utf8Char('\U{FEFF}')[0] == 0xEF;
      assert Utf8("\U{FEFF}" + WideText(encoding, text))[0] == 0xEF;
    } else {
      WideTextBytes(encoding, text);
      assert "" + WideText(encoding, text) == WideText(encoding, text);
    }
  }

  lemma SplitEqual(a: seq<byte>, b: seq<byte>, c: seq<byte>, d: seq<byte>)
    requires |a| == |c|
    ensures a + b == c + d <==> a == c && b == d
  {
    if a + b == c + d {
      assert a == (a + b)[..|a|] && c == (c + d)[..|a|];
      assert b == (a + b)[|a|..] && d == (c + d)[|a|..];
    }
  }

  lemma EncodedConcat(encoding: Encoding, c: char, rest: string)
    requires encoding == Wide || encoding == Utf16Be
    ensures EncodedBytes(Some(encoding), [c] + rest)
         == EncodedBytes(Some(encoding), [c]) + EncodedBytes(Some(encoding), rest)
  {
    assert ([c] + rest)[1..] == rest;
    assert Unicode.Utf16([c]) == Utf16Units(c);
    LeConcat(Utf16Units(c), Unicode.Utf16(rest));
    BeConcat(Utf16Units(c), Unicode.Utf16(rest));
  }

  lemma {:induction false} LeConcat(us: seq<u16>, vs: seq<u16>)
    ensures LeBytes(us + vs) == LeBytes(us) + LeBytes(vs)
  {
    if us == [] {
      assert us + vs == vs;
    } else {
      assert (us + vs)[1..] == us[1..] + vs;
      LeConcat(us[1..], vs);
    }
  }

  lemma {:induction false} BeConcat(us: seq<u16>, vs: seq<u16>)
    ensures BeBytes(us + vs) == BeBytes(us) + BeBytes(vs)
  {
    if us == [] {
      assert us + vs == vs;
    } else {
      assert (us + vs)[1..] == us[1..] + vs;
      BeConcat(us[1..], vs);
    }
  }
}
