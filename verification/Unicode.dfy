/** Byte encodings of text: UTF-8 (RFC 3629 section 3) and UTF-16 (RFC 2781 section 2.1). */
module Unicode {
  import opened Results

  type byte = x: int | 0 <= x < 256
  type u16 = x: int | 0 <= x < 0x1_0000

  // ----- UTF-8 -----

  function Scalars(s: string): seq<int> {
    seq(|s|, i requires 0 <= i < |s| => s[i] as int)
  }

  function Utf8Char(c: char): (r: seq<byte>)
    ensures 1 <= |r| <= 4
  {
    var n := c as int;
    if n < 0x80 then [n]
    else if n < 0x800 then [0xC0 + n / 0x40, 0x80 + n % 0x40]
    else if n < 0x1_0000 then [0xE0 + n / 0x1000, 0x80 + n / 0x40 % 0x40, 0x80 + n % 0x40]
    else [0xF0 + n / 0x4_0000, 0x80 + n / 0x1000 % 0x40, 0x80 + n / 0x40 % 0x40, 0x80 + n % 0x40]
  }

  /** Only bytes after the first are continuations, and the form is the shortest one. */
  lemma Utf8Form(c: char)
    ensures var bs := Utf8Char(c);
            && !(0x80 <= bs[0] < 0xC0) && (forall i | 1 <= i < |bs| :: 0x80 <= bs[i] < 0xC0)
            && |bs| == (if c as int < 0x80 then 1 else if c as int < 0x800 then 2 else if c as int < 0x1_0000 then 3 else 4)
  {
  }

  function Utf8(s: string): seq<byte> {
    if s == [] then [] else Utf8Char(s[0]) + Utf8(s[1..])
  }

  /** Width of the character whose encoding starts with `lead`. */
  function LeadWidth(lead: byte): nat {
    if lead < 0xC0 then 1 else if lead < 0xE0 then 2 else if lead < 0xF0 then 3 else 4
  }

  lemma {:induction false} Utf8Concat(s: string, t: string)
    ensures Utf8(s + t) == Utf8(s) + Utf8(t)
  {
    if s == [] {
      assert s + t == t;
    } else {
      assert (s + t)[1..] == s[1..] + t;
      Utf8Concat(s[1..], t);
    }
  }

  predicate Continues(b: byte) {
    0x80 <= b < 0xC0
  }

  /** The low bits of octets, six bits off each continuation. */
  function Bits(bs: seq<byte>, mark: int, width: nat): int
    requires 0 < width <= |bs|
  {
    if width == 1 then bs[0] as int - mark
    else Bits(bs, mark, width - 1) * 0x40 + (bs[width - 1] as int - 0x80)
  }

  /** One character: its number and width; the width and its mark are read off the first octet. */
  function DecodeUtf8Char(bs: seq<byte>): (r: Option<(int, nat)>)
    ensures r.Some? ==> 0 < r.value.1 <= |bs|
  {
    if bs == [] then None
    else if bs[0] < 0x80 then Some((Bits(bs, 0, 1), 1))
    else if 0xC0 <= bs[0] < 0xE0 && |bs| > 1 && Continues(bs[1]) then Some((Bits(bs, 0xC0, 2), 2))
    else if 0xE0 <= bs[0] < 0xF0 && |bs| > 2 && Continues(bs[1]) && Continues(bs[2]) then Some((Bits(bs, 0xE0, 3), 3))
    else if 0xF0 <= bs[0] < 0xF8 && |bs| > 3 && Continues(bs[1]) && Continues(bs[2]) && Continues(bs[3]) then
      Some((Bits(bs, 0xF0, 4), 4))
    else None
  }

  /** The scalar values of a byte string, if it is UTF-8. */
  function DecodeUtf8(bs: seq<byte>): Option<seq<int>> {
    if bs == [] then Some([])
    else match DecodeUtf8Char(bs)
      case None => None
      case Some((n, width)) =>
        match DecodeUtf8(bs[width..])
        case None => None
        case Some(rest) => Some([n] + rest)
  }

  lemma SixBits(n: nat)
    ensures n == n / 0x40 * 0x40 + n % 0x40
    ensures n / 0x40 == n / 0x1000 * 0x40 + n / 0x40 % 0x40
    ensures n / 0x1000 == n / 0x4_0000 * 0x40 + n / 0x1000 % 0x40
  {
  }

  lemma CharDecodes(c: char, rest: seq<byte>)
    ensures DecodeUtf8Char(Utf8Char(c) + rest) == Some((c as int, |Utf8Char(c)|))
  {
    var bs, n, width := Utf8Char(c) + rest, c as int, |Utf8Char(c)|;
    SixBits(n);
    Utf8Form(c);
    assert forall i | 0 <= i < width :: bs[i] == Utf8Char(c)[i];
    var mark := if width == 1 then 0 else if width == 2 then 0xC0 else if width == 3 then 0xE0 else 0xF0;
    assert Bits(bs, mark, 1) == bs[0] as int - mark;
    if width > 1 { assert Bits(bs, mark, 2) == Bits(bs, mark, 1) * 0x40 + (bs[1] as int - 0x80); }
    if width > 2 { assert Bits(bs, mark, 3) == Bits(bs, mark, 2) * 0x40 + (bs[2] as int - 0x80); }
    if width > 3 { assert Bits(bs, mark, 4) == Bits(bs, mark, 3) * 0x40 + (bs[3] as int - 0x80); }
  }

  lemma DecodeNext(first: seq<byte>, rest: seq<byte>, n: int)
    requires first != [] && DecodeUtf8Char(first + rest) == Some((n, |first|)) && DecodeUtf8(rest).Some?
    ensures DecodeUtf8(first + rest) == Some([n] + DecodeUtf8(rest).value)
  {
    assert (first + rest)[|first|..] == rest;
  }

  /** Decoding UTF-8 text gives back its characters. */
  lemma {:induction false} Utf8RoundTrip(s: string)
    ensures DecodeUtf8(Utf8(s)) == Some(Scalars(s))
  {
    if s == [] {
      assert Scalars(s) == [];
    } else {
      Utf8RoundTrip(s[1..]);
      CharDecodes(s[0], Utf8(s[1..]));
      DecodeNext(Utf8Char(s[0]), Utf8(s[1..]), s[0] as int);
      assert Scalars(s) == [s[0] as int] + Scalars(s[1..]);
    }
  }

  /** A text splits at character `k` into the bytes before, of, and after it. */
  lemma Utf8At(s: string, k: nat)
    requires k < |s|
    ensures Utf8(s) == Utf8(s[..k]) + Utf8Char(s[k]) + Utf8(s[k + 1..])
    ensures LeadWidth(Utf8Char(s[k])[0]) == |Utf8Char(s[k])|
  {
    assert s == s[..k] + s[k..];
    Utf8Concat(s[..k], s[k..]);
    assert s[k..][1..] == s[k + 1..];
  }

  lemma {:induction false} Utf8Ascii(s: string)
    requires forall c | c in s :: c as int < 0x80
    ensures |Utf8(s)| == |s| && forall i | 0 <= i < |s| :: Utf8(s)[i] == s[i] as int
  {
    if s != [] {
      assert s[0] in s && forall c | c in s[1..] :: c in s;
      Utf8Ascii(s[1..]);
    }
  }

  lemma {:induction false} Utf8Grows(s: string)
    ensures |Utf8(s)| >= |s|
  {
    if s != [] {
      Utf8Grows(s[1..]);
    }
  }

  // ----- UTF-16 -----

  function Utf16Units(c: char): seq<u16> {
    var n := c as int;
    if n < 0x1_0000 then [n]
    else [0xD800 + (n - 0x1_0000) / 0x400, 0xDC00 + (n - 0x1_0000) % 0x400]
  }

  function LeBytes(us: seq<u16>): (r: seq<byte>)
    ensures |r| == 2 * |us|
  {
    if us == [] then [] else [us[0] % 0x100, us[0] / 0x100] + LeBytes(us[1..])
  }

  function BeBytes(us: seq<u16>): (r: seq<byte>)
    ensures |r| == 2 * |us|
  {
    if us == [] then [] else [us[0] / 0x100, us[0] % 0x100] + BeBytes(us[1..])
  }

  function Utf16(s: string): seq<u16> {
    if s == [] then [] else Utf16Units(s[0]) + Utf16(s[1..])
  }

  /** Read code units back: a leading surrogate takes the next unit with it. */
  function DecodeUtf16(us: seq<u16>): seq<int> {
    if us == [] then []
    else if 0xD800 <= us[0] < 0xDC00 && |us| > 1 then
      [0x1_0000 + (us[0] - 0xD800) * 0x400 + (us[1] - 0xDC00)] + DecodeUtf16(us[2..])
    else [us[0]] + DecodeUtf16(us[1..])
  }

  function UnitsOfLe(bs: seq<byte>): seq<u16>
    requires |bs| % 2 == 0
  {
    if bs == [] then [] else [bs[0] as int + 0x100 * (bs[1] as int)] + UnitsOfLe(bs[2..])
  }

  function UnitsOfBe(bs: seq<byte>): seq<u16>
    requires |bs| % 2 == 0
  {
    if bs == [] then [] else [0x100 * (bs[0] as int) + bs[1] as int] + UnitsOfBe(bs[2..])
  }

  lemma {:induction false} Utf16RoundTrip(s: string)
    ensures DecodeUtf16(Utf16(s)) == Scalars(s)
  {
    if s != [] {
      Utf16RoundTrip(s[1..]);
      var us := Utf16(s);
      var head := Utf16Units(s[0]);
      assert us[|head|..] == Utf16(s[1..]);
      assert Scalars(s) == [s[0] as int] + Scalars(s[1..]);
    }
  }

  lemma {:induction false} LeRoundTrip(us: seq<u16>)
    ensures UnitsOfLe(LeBytes(us)) == us
  {
    if us != [] {
      LeRoundTrip(us[1..]);
      assert LeBytes(us)[2..] == LeBytes(us[1..]);
    }
  }

  lemma {:induction false} BeRoundTrip(us: seq<u16>)
    ensures UnitsOfBe(BeBytes(us)) == us
  {
    if us != [] {
      BeRoundTrip(us[1..]);
      assert BeBytes(us)[2..] == BeBytes(us[1..]);
    }
  }

  lemma {:induction false} Utf16Grows(s: string)
    ensures |Utf16(s)| >= |s|
  {
    if s != [] {
      Utf16Grows(s[1..]);
    }
  }
}
