/** Unpadded base64url (section 5 of RFC 4648), as base64.RawURLEncoding writes it.  The source only
    encodes; the decoder here is the lenient one of the same Go type, which skips line breaks and
    ignores left-over bits, so that several texts can stand for the same bytes. */
module Base64Url {
  import opened Wrappers
  import opened Wire

  type sextet = n: int | 0 <= n < 64 witness 0

  /** Table 2 of RFC 4648. */
  function Letter(n: sextet): char {
    if n < 26 then (n + 'A' as int) as char
    else if n < 52 then (n - 26 + 'a' as int) as char
    else if n < 62 then (n - 52 + '0' as int) as char
    else if n == 62 then '-'
    else '_'
  }

  function LetterValue(c: char): Option<sextet> {
    if 'A' <= c <= 'Z' then Some(c as int - 'A' as int)
    else if 'a' <= c <= 'z' then Some(c as int - 'a' as int + 26)
    else if '0' <= c <= '9' then Some(c as int - '0' as int + 52)
    else if c == '-' then Some(62)
    else if c == '_' then Some(63)
    else None
  }

  predicate IsBreak(c: char) {
    c == '\n' || c == '\r'
  }

  lemma LetterRoundTrip(n: sextet)
    ensures LetterValue(Letter(n)) == Some(n) && Letter(n) != '.' && !IsBreak(Letter(n))
  {}

  // ----- bytes as six-bit groups, the last one filled up with zeros

  function Sextets(bytes: seq<byte>): seq<sextet> {
    if bytes == [] then []
    else if |bytes| == 1 then [bytes[0] / 4, bytes[0] % 4 * 16]
    else if |bytes| == 2 then [bytes[0] / 4, bytes[0] % 4 * 16 + bytes[1] / 16, bytes[1] % 16 * 4]
    else
      [bytes[0] / 4, bytes[0] % 4 * 16 + bytes[1] / 16, bytes[1] % 16 * 4 + bytes[2] / 64, bytes[2] % 64]
      + Sextets(bytes[3..])
  }

  // The three bytes of four groups.

  function Byte1(a: int, b: int): byte
    requires 0 <= a < 64 && 0 <= b < 64
  {
    a * 4 + b / 16
  }

  function Byte2(b: int, c: int): byte
    requires 0 <= b < 64 && 0 <= c < 64
  {
    b % 16 * 16 + c / 4
  }

  function Byte3(c: int, d: int): byte
    requires 0 <= c < 64 && 0 <= d < 64
  {
    c % 4 * 64 + d
  }

  /** The bytes of the groups; left-over bits are ignored, and a single left-over group is no encoding. */
  function Unsextets(groups: seq<sextet>): Option<seq<byte>> {
    if groups == [] then Some([])
    else if |groups| == 1 then None
    else if |groups| == 2 then Some([Byte1(groups[0], groups[1])])
    else if |groups| == 3 then Some([Byte1(groups[0], groups[1]), Byte2(groups[1], groups[2])])
    else
      match Unsextets(groups[4..])
      case None => None
      case Some(rest) =>
        Some([Byte1(groups[0], groups[1]), Byte2(groups[1], groups[2]), Byte3(groups[2], groups[3])] + rest)
  }

  /** The groups with the left-over bits of the last one set to zero. */
  function Cleared(groups: seq<sextet>): (r: seq<sextet>)
    ensures |r| == |groups|
  {
    if |groups| < 2 then groups
    else if |groups| == 2 then [groups[0], groups[1] - groups[1] % 16]
    else if |groups| == 3 then [groups[0], groups[1], groups[2] - groups[2] % 4]
    else groups[..4] + Cleared(groups[4..])
  }

  lemma SextetsOfThree(x: byte, y: byte, z: byte)
    ensures
      var (a, b, c, d) := (x / 4, x % 4 * 16 + y / 16, y % 16 * 4 + z / 64, z % 64);
      Byte1(a, b) == x && Byte2(b, c) == y && Byte3(c, d) == z
  {}

  lemma SextetsOfTwo(x: byte, y: byte)
    ensures
      var (a, b, c) := (x / 4, x % 4 * 16 + y / 16, y % 16 * 4);
      Byte1(a, b) == x && Byte2(b, c) == y
  {}

  lemma SextetsOfOne(x: byte)
    ensures Byte1(x / 4, x % 4 * 16) == x
  {}

  lemma {:induction false} SextetsRoundTrip(bytes: seq<byte>)
    ensures Unsextets(Sextets(bytes)) == Some(bytes)
  {
    hide Byte1, Byte2, Byte3;
    if |bytes| >= 3 {
      SextetsRoundTrip(bytes[3..]);
      SextetsOfThree(bytes[0], bytes[1], bytes[2]);
      assert Sextets(bytes)[4..] == Sextets(bytes[3..]);
      assert bytes == [bytes[0], bytes[1], bytes[2]] + bytes[3..];
    } else if |bytes| == 1 {
      SextetsOfOne(bytes[0]);
      assert bytes == [bytes[0]];
    } else if |bytes| == 2 {
      SextetsOfTwo(bytes[0], bytes[1]);
      assert bytes == [bytes[0], bytes[1]];
    }
  }

  lemma BytesOfFour(a: sextet, b: sextet, c: sextet, d: sextet)
    ensures
      var (x, y, z) := (Byte1(a, b), Byte2(b, c), Byte3(c, d));
      x / 4 == a && x % 4 * 16 + y / 16 == b && y % 16 * 4 + z / 64 == c && z % 64 == d
  {}

  lemma BytesOfThree(a: sextet, b: sextet, c: sextet)
    ensures
      var (x, y) := (Byte1(a, b), Byte2(b, c));
      x / 4 == a && x % 4 * 16 + y / 16 == b && y % 16 * 4 == c - c % 4
  {}

  lemma BytesOfTwo(a: sextet, b: sextet)
    ensures Byte1(a, b) / 4 == a && Byte1(a, b) % 4 * 16 == b - b % 16
  {}

  lemma {:induction false} UnsextetsCanonical(groups: seq<sextet>)
    requires Unsextets(groups).Some?
    ensures Sextets(Unsextets(groups).value) == Cleared(groups)
  {
    hide Byte1, Byte2, Byte3;
    if |groups| >= 4 {
      UnsextetsCanonical(groups[4..]);
      BytesOfFour(groups[0], groups[1], groups[2], groups[3]);
      var bytes := Unsextets(groups).value;
      assert bytes[3..] == Unsextets(groups[4..]).value;
      assert groups[..4] == [groups[0], groups[1], groups[2], groups[3]];
    } else if |groups| == 2 {
      BytesOfTwo(groups[0], groups[1]);
      assert groups == [groups[0], groups[1]];
    } else if |groups| == 3 {
      BytesOfThree(groups[0], groups[1], groups[2]);
      assert groups == [groups[0], groups[1], groups[2]];
    }
  }

  lemma {:induction false} SextetsLength(bytes: seq<byte>)
    ensures |Sextets(bytes)| == (4 * |bytes| + 2) / 3
  {
    if |bytes| >= 3 { SextetsLength(bytes[3..]); }
  }

  // ----- text

  function Letters(groups: seq<sextet>): (text: string)
    ensures |text| == |groups| && forall i | 0 <= i < |groups| :: text[i] == Letter(groups[i])
  {
    if groups == [] then "" else [Letter(groups[0])] + Letters(groups[1..])
  }

  function LetterValues(text: string): (r: Option<seq<sextet>>)
    ensures r.Some? ==> |r.value| == |text|
  {
    if text == "" then Some([])
    else
      var v, rest := LetterValue(text[0]), LetterValues(text[1..]);
      if v.Some? && rest.Some? then Some([v.value] + rest.value) else None
  }

  lemma {:induction false} LettersRoundTrip(groups: seq<sextet>)
    ensures LetterValues(Letters(groups)) == Some(groups)
  {
    hide Letter, LetterValue;
    if groups != [] {
      LettersRoundTrip(groups[1..]);
      LetterRoundTrip(groups[0]);
      assert Letters(groups)[1..] == Letters(groups[1..]);
      assert groups == [groups[0]] + groups[1..];
    }
  }

  /** encodeBase64URL. */
  function Encode(bytes: seq<byte>): string {
    Letters(Sextets(bytes))
  }

  function WithoutBreaks(text: string): string {
    if text == "" then "" else (if IsBreak(text[0]) then "" else [text[0]]) + WithoutBreaks(text[1..])
  }

  function Decode(text: string): Option<seq<byte>> {
    match LetterValues(WithoutBreaks(text))
    case None => None
    case Some(groups) => Unsextets(groups)
  }

  /** The text without line breaks and without left-over bits. */
  function Canonical(text: string): string {
    match LetterValues(WithoutBreaks(text))
    case None => text
    case Some(groups) => Letters(Cleared(groups))
  }

  lemma {:induction false} LettersUnbroken(groups: seq<sextet>)
    ensures WithoutBreaks(Letters(groups)) == Letters(groups)
  {
    hide Letter, IsBreak;
    if groups != [] {
      LetterRoundTrip(groups[0]);
      LettersUnbroken(groups[1..]);
      assert Letters(groups)[1..] == Letters(groups[1..]);
    }
  }

  /** For every byte string: decoding gives it back, the text has the length of section 5 without
      padding, and no character of it is a dot. */
  lemma EncodeRoundTrip(bytes: seq<byte>)
    ensures Decode(Encode(bytes)) == Some(bytes)
    ensures |Encode(bytes)| == (4 * |bytes| + 2) / 3
    ensures '.' !in Encode(bytes)
  {
    var groups := Sextets(bytes);
    LettersRoundTrip(groups);
    LettersUnbroken(groups);
    SextetsRoundTrip(bytes);
    SextetsLength(bytes);
    forall i | 0 <= i < |groups| ensures Encode(bytes)[i] != '.' {
      LetterRoundTrip(groups[i]);
    }
  }

  /** A text that decodes is the encoding of its bytes up to line breaks and left-over bits. */
  lemma DecodeCanonical(text: string)
    requires Decode(text).Some?
    ensures Encode(Decode(text).value) == Canonical(text)
  {
    UnsextetsCanonical(LetterValues(WithoutBreaks(text)).value);
  }

  /** Exactly which texts stand for the same bytes. */
  lemma SameBytesIff(a: string, b: string)
    requires Decode(a).Some? && Decode(b).Some?
    ensures Decode(a) == Decode(b) <==> Canonical(a) == Canonical(b)
  {
    hide Encode, Decode, Canonical;
    DecodeCanonical(a);
    DecodeCanonical(b);
    EncodeRoundTrip(Decode(a).value);
    EncodeRoundTrip(Decode(b).value);
  }
}
