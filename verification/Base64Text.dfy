/** Reading base64 text back, by the alphabet of RFC 4648 section 4. */
module Base64Text {
  import opened Results
  import opened Unicode
  import opened Base64

  const UPPER := "ABCDEFGHIJKLMNOPQRSTUVWXYZ"
  const LOWER := "abcdefghijklmnopqrstuvwxyz"
  const DECIMAL := "0123456789"
  const ALPHABET := UPPER + LOWER + DECIMAL + "+/"

  lemma Letters(i: nat)
    requires i < 26
    ensures UPPER[i] as int == 65 + i && LOWER[i] as int == 97 + i
  {
  }

  /** The digits are the characters of the alphabet in order. */
  lemma DigitIs(i: nat)
    requires i < 64
    ensures |ALPHABET| == 64 && Digit(i) == ALPHABET[i]
  {
    if i < 52 { Letters(i % 26); }
  }

  /** The value of a character: its place in the alphabet from `i` on. */
  function PlaceFrom(c: char, i: nat): (r: Option<nat>)
    requires i <= 64
    ensures r.Some? ==> i <= r.value < 64
    decreases 64 - i
  {
    if i == 64 then None
    else
      DigitIs(i);
      if ALPHABET[i] == c then Some(i) else PlaceFrom(c, i + 1)
  }

  function ValueOf(c: char): (r: Option<nat>)
    ensures r.Some? ==> r.value < 64
  {
    PlaceFrom(c, 0)
  }

  lemma {:induction false} PlaceFound(i: nat, k: nat)
    requires k <= i < 64
    ensures PlaceFrom(Digit(i), k) == Some(i)
    decreases i - k
  {
    DigitIs(k);
    if k < i {
      DigitsDiffer(k, i);
      PlaceFound(i, k + 1);
    }
  }

  /** Bytes of 24 bits. */
  function Octets(n: nat): (r: seq<byte>)
    requires n < 0x100_0000
    ensures |r| == 3
  {
    [n / 0x1_0000, n / 0x100 % 0x100, n % 0x100]
  }

  function PadOf(s: string): (pad: nat)
    requires |s| >= 4
    ensures pad < 3
  {
    if |s| > 4 || s[3] != '=' then 0 else if s[2] == '=' then 2 else 1
  }

  /** The 24 bits of four characters; a pad character counts as zero. */
  function GroupBits(s: string, pad: nat): (r: Option<nat>)
    requires |s| >= 4
    ensures r.Some? ==> r.value < 0x100_0000
  {
    var v0, v1 := ValueOf(s[0]), ValueOf(s[1]);
    var v2, v3 := if pad == 2 then Some(0) else ValueOf(s[2]), if pad > 0 then Some(0) else ValueOf(s[3]);
    if v0.None? || v1.None? || v2.None? || v3.None? then None
    else Some(((v0.value * 0x40 + v1.value) * 0x40 + v2.value) * 0x40 + v3.value)
  }

  /** Reads groups of four characters as three bytes; one or two pad characters drop as many bytes at the end. */
  function Decode(s: string): Option<seq<byte>> {
    if s == [] then Some([])
    else if |s| < 4 then None
    else
      match GroupBits(s, PadOf(s))
      case None => None
      case Some(n) =>
        match Decode(s[4..])
        case None => None
        case Some(rest) => Some(Octets(n)[..3 - PadOf(s)] + rest)
  }

  lemma DigitValue(i: nat)
    requires i < 64
    ensures ValueOf(Digit(i)) == Some(i) && Digit(i) != '='
  {
    PlaceFound(i, 0);
    DigitsDiffer(i, if i == 0 then 1 else 0);
  }

  lemma {:induction false} PadFrom(i: nat)
    requires i <= 64
    ensures PlaceFrom('=', i) == None
    decreases 64 - i
  {
    if i < 64 {
      DigitIs(i);
      DigitsDiffer(i, if i == 0 then 1 else 0);
      PadFrom(i + 1);
    }
  }

  /** Six bits of three bytes. */
  function Sextet(b: seq<byte>, j: nat): (v: nat)
    requires |b| == 3 && j < 4
    ensures v < 64
  {
    if j == 0 then b[0] / 4
    else if j == 1 then b[0] % 4 * 16 + b[1] / 16
    else if j == 2 then b[1] % 16 * 4 + b[2] / 64
    else b[2] % 64
  }

  function FirstGroup(b: seq<byte>): (r: seq<byte>)
    ensures |r| == 3
  {
    [ByteAt(b, 0), ByteAt(b, 1), ByteAt(b, 2)]
  }

  /** The first four characters have the values of three bytes, the last `pad` of which are missing. */
  predicate IsGroup(s: string, b: seq<byte>, pad: nat) {
    && pad < 3 && |b| == 3 && |s| >= 4
    && (forall j | 0 <= j < 4 - pad :: ValueOf(s[j]) == Some(Sextet(b, j)))
    && (forall j | 4 - pad <= j < 4 :: s[j] == '=' && Sextet(b, j) == 0)
    && (pad > 0 ==> |s| == 4)
  }

  function Joined(v0: nat, v1: nat, v2: nat, v3: nat): nat {
    ((v0 * 0x40 + v1) * 0x40 + v2) * 0x40 + v3
  }

  lemma SextetsJoin(b: seq<byte>)
    requires |b| == 3
    ensures var n := Joined(Sextet(b, 0), Sextet(b, 1), Sextet(b, 2), Sextet(b, 3));
            n < 0x100_0000 && Octets(n) == b
  {
    var n := b[0] as int * 0x1_0000 + b[1] as int * 0x100 + b[2] as int;
    assert Joined(Sextet(b, 0), Sextet(b, 1), Sextet(b, 2), Sextet(b, 3)) == n;
    assert n / 0x1_0000 == b[0] && n / 0x100 == b[0] as int * 0x100 + b[1] as int;
    assert b == [b[0], b[1], b[2]];
  }

  lemma GroupReads(s: string, b: seq<byte>, pad: nat)
    requires IsGroup(s, b, pad)
    ensures PadOf(s) == pad
    ensures GroupBits(s, pad) == Some(Joined(Sextet(b, 0), Sextet(b, 1), Sextet(b, 2), Sextet(b, 3)))
  {
    PadFrom(0);
  }

  lemma GroupDecodes(s: string, b: seq<byte>, pad: nat, rest: seq<byte>)
    requires IsGroup(s, b, pad) && Decode(s[4..]) == Some(rest)
    ensures Decode(s) == Some(b[..3 - pad] + rest)
  {
    GroupReads(s, b, pad);
    SextetsJoin(b);
  }

  lemma EncodedValue(b: seq<byte>, j: nat)
    requires b != [] && j < 4
    ensures j < |Encode(b)|
    ensures if j <= |b| then ValueOf(Encode(b)[j]) == Some(Sextet(FirstGroup(b), j))
            else Encode(b)[j] == '=' && Sextet(FirstGroup(b), j) == 0
  {
    EncodedChar(b, 0, j);
    DigitValue(Sextet(FirstGroup(b), j));
  }

  /** Bytes missing from the first group. */
  function Missing(b: seq<byte>): (pad: nat)
    requires b != []
    ensures pad < 3
  {
    if |b| >= 3 then 0 else 3 - |b|
  }

  lemma EncodedGroup(b: seq<byte>)
    requires b != []
    ensures IsGroup(Encode(b), FirstGroup(b), Missing(b))
  {
    forall j: nat | j < 4 { EncodedValue(b, j); }
    EncodedLength(b);
  }

  function Rest(b: seq<byte>): seq<byte> {
    if |b| >= 3 then b[3..] else []
  }

  lemma EncodedRest(b: seq<byte>)
    requires b != []
    ensures |Encode(b)| >= 4 && Encode(b)[4..] == Encode(Rest(b))
  {
    EncodedLength(b);
    if |b| >= 3 {
      var tail := Encode(b[3..]);
      assert Encode(b) == Encode(b)[..4] + tail;
    }
  }

  lemma FirstThenRest(b: seq<byte>)
    requires b != []
    ensures FirstGroup(b)[..3 - Missing(b)] + Rest(b) == b
  {
  }

  lemma TextDecodes(s: string, b: seq<byte>)
    requires b != [] && IsGroup(s, FirstGroup(b), Missing(b)) && Decode(s[4..]) == Some(Rest(b))
    ensures Decode(s) == Some(b)
  {
    GroupDecodes(s, FirstGroup(b), Missing(b), Rest(b));
    FirstThenRest(b);
  }

  /** Decoding encoded bytes gives them back. */
  lemma {:induction false} Base64RoundTrip(b: seq<byte>)
    ensures Decode(Encode(b)) == Some(b)
    decreases |b|
  {
    if b != [] {
      EncodedRest(b);
      EncodedGroup(b);
      Base64RoundTrip(Rest(b));
      TextDecodes(Encode(b), b);
    }
  }
}
