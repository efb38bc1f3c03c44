/**
  Base64 (RFC 4648 section 4) and the patterns that find a value inside the base64
  text of any larger byte string, whatever surrounds it.
 */
module Base64 {
  import opened Unicode

  /** The base64 alphabet: `A-Z`, `a-z`, `0-9`, `+`, `/`. */
  function Digit(i: int): char
    requires 0 <= i < 64
  {
    if i < 26 then (65 + i) as char
    else if i < 52 then (71 + i) as char
    else if i < 62 then (i - 4) as char
    else if i == 62 then '+' else '/'
  }

  /** Characters of the padded encoding that depend on the bytes before the value. */
  function Start(offset: nat): nat
    requires offset < 3
  {
    if offset == 0 then 0 else if offset == 1 then 2 else 3
  }

  /** Characters of the padded encoding that depend on the bytes after the value. */
  function EndTrim(remainder: nat): nat
    requires remainder < 3
  {
    if remainder == 0 then 0 else if remainder == 1 then 3 else 2
  }

  /** Encodes one group of three bytes at a time; the last group is padded with `=`. */
  function Encode(b: seq<byte>): string {
    if |b| == 0 then ""
    else if |b| == 1 then [Digit(b[0] / 4), Digit(b[0] % 4 * 16), '=', '=']
    else if |b| == 2 then
      [Digit(b[0] / 4), Digit(b[0] % 4 * 16 + b[1] / 16), Digit(b[1] % 16 * 4), '=']
    else
      [Digit(b[0] / 4), Digit(b[0] % 4 * 16 + b[1] / 16), Digit(b[1] % 16 * 4 + b[2] / 64), Digit(b[2] % 64)]
      + Encode(b[3..])
  }

  // ----- Which bytes a character depends on -----

  function ByteAt(b: seq<byte>, i: nat): byte {
    if i < |b| then b[i] else 0
  }

  /** Character `j` of the group of three bytes that starts at byte `i`. */
  function GroupChar(b: seq<byte>, i: nat, j: nat): char
    requires j < 4
  {
    if j == 0 then Digit(ByteAt(b, i) / 4)
    else if j == 1 then Digit(ByteAt(b, i) % 4 * 16 + ByteAt(b, i + 1) / 16)
    else if j == 2 then if i + 1 < |b| then Digit(ByteAt(b, i + 1) % 16 * 4 + ByteAt(b, i + 2) / 64) else '='
    else if i + 2 < |b| then Digit(ByteAt(b, i + 2) % 64) else '='
  }

  lemma ThirdsStep(n: nat)
    requires n >= 3
    ensures (n + 2) / 3 == (n - 1) / 3 + 1
  {
  }

  lemma {:induction false} EncodedLength(b: seq<byte>)
    ensures |Encode(b)| == (|b| + 2) / 3 * 4
  {
    if |b| >= 3 {
      EncodedLength(b[3..]);
      ThirdsStep(|b|);
      assert |Encode(b)| == 4 + |Encode(b[3..])|;
    } else if |b| > 0 {
      assert |Encode(b)| == 4;
    }
  }

  lemma {:induction false} EncodedChar(b: seq<byte>, g: nat, j: nat)
    requires j < 4 && 3 * g < |b|
    ensures 4 * g + j < |Encode(b)| && Encode(b)[4 * g + j] == GroupChar(b, 3 * g, j)
  {
    EncodedLength(b);
    if g > 0 {
      EncodedChar(b[3..], g - 1, j);
      assert Encode(b)[4 * g + j] == Encode(b[3..])[4 * (g - 1) + j];
    }
  }

  lemma DigitsDiffer(i: int, j: int)
    requires 0 <= i < 64 && 0 <= j < 64 && i != j
    ensures Digit(i) != Digit(j) && Digit(i) != '='
  {
    assert Digit(i) as int != Digit(j) as int;
  }

  // ----- Offset patterns -----

  function Zeros(n: nat): (r: seq<byte>)
    ensures |r| == n
  {
    seq(n, i => 0)
  }

  function Padded(value: seq<byte>, offset: nat): seq<byte> {
    Zeros(offset) + value
  }

  /** One past the last character of the padded encoding that does not depend on what follows. */
  function PatternEnd(value: seq<byte>, offset: nat): (end: nat)
    requires offset < 3
  {
    EncodedLength(Padded(value, offset));
    |Encode(Padded(value, offset))| - EndTrim((|value| + offset) % 3)
  }

  predicate Emitted(value: seq<byte>, offset: nat)
    requires offset < 3
  {
    Start(offset) < PatternEnd(value, offset)
  }

  function OffsetPattern(value: seq<byte>, offset: nat): string
    requires offset < 3 && Emitted(value, offset)
  {
    Encode(Padded(value, offset))[Start(offset)..PatternEnd(value, offset)]
  }

  /** The patterns of the first `n` alignments. */
  function OffsetPatterns(value: seq<byte>, n: nat): seq<string>
    requires n <= 3
  {
    if n == 0 then []
    else if Emitted(value, n - 1) then OffsetPatterns(value, n - 1) + [OffsetPattern(value, n - 1)]
    else OffsetPatterns(value, n - 1)
  }

  method Base64OffsetPatterns(value: seq<byte>) returns (patterns: seq<string>)
    ensures patterns == OffsetPatterns(value, 3)
  {
    patterns := [];
    for offset := 0 to 3
      invariant patterns == OffsetPatterns(value, offset)
    {
      var padded: seq<byte> := Zeros(offset);
      padded := padded + value;
      var encoded := Encode(padded);
      EncodedLength(padded);
      var end := |encoded| - EndTrim((|value| + offset) % 3);
      if Start(offset) < end {
        patterns := patterns + [encoded[Start(offset)..end]];
      }
    }
  }

  /** An alignment is dropped only for a value too short to have a stable character there. */
  lemma EmittedIff(value: seq<byte>, offset: nat)
    requires offset < 3
    ensures Emitted(value, offset) <==> |value| >= (if offset == 1 then 2 else 1)
  {
    EncodedLength(Padded(value, offset));
    var m := |value| + offset;
    assert |Padded(value, offset)| == m;
    assert m == m / 3 * 3 + m % 3;
    assert (m + 2) / 3 == m / 3 + (if m % 3 == 0 then 0 else 1);
  }

  /** Where the pattern of an alignment sits in the encoding of `pre + value + post`. */
  predicate FoundAt(haystack: string, needle: string, at: nat) {
    at + |needle| <= |haystack| && haystack[at..at + |needle|] == needle
  }

  /** First and last byte of its group that character `j` depends on. */
  function FirstByte(j: nat): nat { if j <= 1 then 0 else j - 1 }

  function LastByte(j: nat): nat { if j <= 1 then j else 2 }

  lemma GroupCharSame(b: seq<byte>, c: seq<byte>, i: nat, i': nat, j: nat)
    requires j < 4 && i + LastByte(j) < |b| && i' + LastByte(j) < |c|
    requires b[i + FirstByte(j)] == c[i' + FirstByte(j)] && b[i + LastByte(j)] == c[i' + LastByte(j)]
    ensures GroupChar(b, i, j) == GroupChar(c, i', j)
  {
  }

  lemma PatternEndIs(value: seq<byte>, offset: nat)
    requires offset < 3
    ensures var m := |value| + offset;
            PatternEnd(value, offset) == m / 3 * 4 + m % 3 <= |Encode(Padded(value, offset))|
  {
    EncodedLength(Padded(value, offset));
    assert |Padded(value, offset)| == |value| + offset;
  }

  lemma StableGroupChar(pre: seq<byte>, value: seq<byte>, post: seq<byte>, q: nat, o: nat, a: nat, r: nat, g: nat, j: nat)
    requires o < 3 && j < 4 && |pre| == 3 * q + o && |value| + o == 3 * a + r && r < 3
    requires Start(o) <= 4 * g + j < 4 * a + r
    ensures 3 * g < |value| + o
    ensures GroupChar(pre + value + post, 3 * (q + g), j) == GroupChar(Padded(value, o), 3 * g, j)
  {
    var s, z := pre + value + post, Padded(value, o);
    assert 3 * g + LastByte(j) < |value| + o;
    assert o <= 3 * g + FirstByte(j);
    var first, last := 3 * g + FirstByte(j) - o, 3 * g + LastByte(j) - o;
    assert z[o + first] == value[first] == s[|pre| + first];
    assert z[o + last] == value[last] == s[|pre| + last];
    GroupCharSame(s, z, 3 * (q + g), 3 * g, j);
  }

  lemma StableCharAt(pre: seq<byte>, value: seq<byte>, post: seq<byte>, q: nat, o: nat, a: nat, r: nat, g: nat, j: nat)
    requires o < 3 && j < 4 && |pre| == 3 * q + o && |value| + o == 3 * a + r && r < 3
    requires Start(o) <= 4 * g + j < 4 * a + r
    ensures var s, z := Encode(pre + value + post), Encode(Padded(value, o));
            4 * g + j < |z| && 4 * (q + g) + j < |s| && s[4 * (q + g) + j] == z[4 * g + j]
  {
    StableGroupChar(pre, value, post, q, o, a, r, g, j);
    EncodedChar(Padded(value, o), g, j);
    EncodedChar(pre + value + post, q + g, j);
  }

  lemma StableChar(pre: seq<byte>, value: seq<byte>, post: seq<byte>, k: nat)
    requires Start(|pre| % 3) <= k < PatternEnd(value, |pre| % 3)
    ensures var s := Encode(pre + value + post);
            var z := Encode(Padded(value, |pre| % 3));
            k < |z| && |pre| / 3 * 4 + k < |s| && s[|pre| / 3 * 4 + k] == z[k]
  {
    PatternEndIs(value, |pre| % 3);
    var m := |value| + |pre| % 3;
    StableCharAt(pre, value, post, |pre| / 3, |pre| % 3, m / 3, m % 3, k / 4, k % 4);
  }

  lemma SliceFound(s: string, z: string, base: nat, lo: nat, hi: nat)
    requires lo < hi <= |z| && base + hi <= |s|
    requires forall k | lo <= k < hi :: s[base + k] == z[k]
    ensures FoundAt(s, z[lo..hi], base + lo)
  {
    var found := s[base + lo..base + hi];
    forall i | 0 <= i < hi - lo
      ensures found[i] == z[lo..hi][i]
    {
      var k := lo + i;
      assert z[k] == s[base + k];
    }
  }

  /** The pattern for the alignment of `pre` occurs in the encoding of any surrounding text. */
  lemma OffsetPatternFound(pre: seq<byte>, value: seq<byte>, post: seq<byte>)
    requires Emitted(value, |pre| % 3)
    ensures var o := |pre| % 3;
            FoundAt(Encode(pre + value + post), OffsetPattern(value, o), |pre| / 3 * 4 + Start(o))
  {
    var o, base := |pre| % 3, |pre| / 3 * 4;
    PatternEndIs(value, o);
    StableChar(pre, value, post, PatternEnd(value, o) - 1);
    forall k | Start(o) <= k < PatternEnd(value, o)
      ensures Encode(pre + value + post)[base + k] == Encode(Padded(value, o))[k]
    {
      StableChar(pre, value, post, k);
    }
    SliceFound(Encode(pre + value + post), Encode(Padded(value, o)), base, Start(o), PatternEnd(value, o));
  }

  // ----- The patterns are as long as they can be -----

  /** Two byte strings whose encodings differ in character `k`. */
  predicate DifferAt(a: seq<byte>, b: seq<byte>, k: nat) {
    k < |Encode(a)| && k < |Encode(b)| && Encode(a)[k] != Encode(b)[k]
  }

  function Ones(n: nat): (r: seq<byte>)
    ensures |r| == n
  {
    seq(n, i => 255)
  }

  lemma LeadingGroupDiffers(a: seq<byte>, b: seq<byte>, o: nat, j: nat)
    requires 0 < o < 3 && j < Start(o) && |a| == |b| >= o
    requires forall x: nat | x < o :: a[x] == 0 && b[x] == 255
    requires forall x: nat | o <= x < |a| :: a[x] == b[x]
    ensures GroupChar(a, 0, j) != GroupChar(b, 0, j)
  {
    assert a[0] == 0 && b[0] == 255;
    if j == 0 {
      DigitsDiffer(0, 63);
    } else if o == 1 {
      var y := ByteAt(a, 1) / 16;
      assert ByteAt(b, 1) == ByteAt(a, 1);
      DigitsDiffer(y, 48 + y);
    } else {
      assert a[1] == 0 && b[1] == 255;
      var z := ByteAt(a, 2) / 64;
      assert ByteAt(b, 2) == ByteAt(a, 2);
      if j == 1 { DigitsDiffer(0, 63); } else { DigitsDiffer(z, 60 + z); }
    }
  }

  /** Each character before the pattern changes with the bytes before the value. */
  lemma LeadingCharDepends(value: seq<byte>, post: seq<byte>, offset: nat, k: nat)
    requires offset < 3 && k < Start(offset)
    ensures DifferAt(Zeros(offset) + value + post, Ones(offset) + value + post, k)
  {
    var a, b := Zeros(offset) + value + post, Ones(offset) + value + post;
    LeadingGroupDiffers(a, b, offset, k);
    EncodedChar(a, 0, k);
    EncodedChar(b, 0, k);
  }

  lemma TrailingGroupDiffers(a: seq<byte>, b: seq<byte>, i: nat, r: nat, j: nat)
    requires 0 < r < 3 && r <= j < 4 && |a| == |b| == i + r + 3
    requires forall x: nat | x < i + r :: a[x] == b[x]
    requires forall x: nat | i + r <= x < |a| :: a[x] == 0 && b[x] == 255
    ensures GroupChar(a, i, j) != GroupChar(b, i, j)
  {
    assert a[i] == b[i] && a[i + 2] == 0 && b[i + 2] == 255;
    if j == 3 {
      DigitsDiffer(0, 63);
    } else if r == 1 {
      assert a[i + 1] == 0 && b[i + 1] == 255;
      var x := a[i] % 4 * 16;
      if j == 1 { DigitsDiffer(x, x + 15); } else { DigitsDiffer(0, 63); }
    } else {
      assert a[i + 1] == b[i + 1];
      var x := a[i + 1] % 16 * 4;
      DigitsDiffer(x, x + 3);
    }
  }

  lemma TrimmedIndex(m: nat, k: nat)
    requires m / 3 * 4 + m % 3 <= k < (m + 2) / 3 * 4
    ensures k / 4 == m / 3 && m % 3 != 0 && k % 4 >= m % 3
  {
  }

  lemma TrailingAt(pre: seq<byte>, value: seq<byte>, q: nat, o: nat, g: nat, r: nat, j: nat)
    requires |pre| == 3 * q + o && |value| + o == 3 * g + r && 0 < r < 3 && r <= j < 4
    ensures DifferAt(pre + value + Zeros(3), pre + value + Ones(3), 4 * (q + g) + j)
  {
    var a, b := pre + value + Zeros(3), pre + value + Ones(3);
    TrailingGroupDiffers(a, b, 3 * (q + g), r, j);
    EncodedChar(a, q + g, j);
    EncodedChar(b, q + g, j);
  }

  /** Each character after the pattern changes with the bytes after the value. */
  lemma TrailingCharDepends(pre: seq<byte>, value: seq<byte>, k: nat)
    requires PatternEnd(value, |pre| % 3) <= k < |Encode(Padded(value, |pre| % 3))|
    ensures DifferAt(pre + value + Zeros(3), pre + value + Ones(3), |pre| / 3 * 4 + k)
  {
    var o, m := |pre| % 3, |value| + |pre| % 3;
    PatternEndIs(value, o);
    EncodedLength(Padded(value, o));
    TrimmedIndex(m, k);
    TrailingAt(pre, value, |pre| / 3, o, m / 3, m % 3, k % 4);
  }
}
