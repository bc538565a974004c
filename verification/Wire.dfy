/** Bytes, hexadecimal text and the fixed-width scalar encoding that DKG shares travel in. */
module Wire {
  import opened Wrappers
  import opened Zq

  type uint16 = n: int | 0 <= n < 0x1_0000 witness 0

  type byte = b: int | 0 <= b < 256 witness 0

  // ----- hexadecimal text (encoding/hex)

  function HexDigit(n: int): char
    requires 0 <= n < 16
  {
    "0123456789abcdef"[n]
  }

  function HexValue(c: char): Option<int> {
    if '0' <= c <= '9' then Some(c as int - '0' as int)
    else if 'a' <= c <= 'f' then Some(c as int - 'a' as int + 10)
    else if 'A' <= c <= 'F' then Some(c as int - 'A' as int + 10)
    else None
  }

  function HexPair(b: byte): (text: string)
    ensures |text| == 2
  {
    [HexDigit(b / 16), HexDigit(b % 16)]
  }

  function PairValue(high: char, low: char): Option<byte> {
    if HexValue(high).Some? && HexValue(low).Some?
    then Some(16 * HexValue(high).value + HexValue(low).value)
    else None
  }

  function EncodeHex(bytes: seq<byte>): string {
    if bytes == [] then "" else HexPair(bytes[0]) + EncodeHex(bytes[1..])
  }

  /** Fails on a character that is no hexadecimal digit and on odd length. */
  function DecodeHex(text: string): Option<seq<byte>> {
    if text == "" then Some([])
    else if |text| == 1 then None
    else
      var b, rest := PairValue(text[0], text[1]), DecodeHex(text[2..]);
      if b.Some? && rest.Some? then Some([b.value] + rest.value) else None
  }

  lemma HexDigitValue(n: int)
    requires 0 <= n < 16
    ensures HexValue(HexDigit(n)) == Some(n)
  {}

  lemma PairRoundTrip(b: byte)
    ensures PairValue(HexPair(b)[0], HexPair(b)[1]) == Some(b)
  {
    HexDigitValue(b / 16);
    HexDigitValue(b % 16);
  }

  lemma {:induction false} HexRoundTrip(bytes: seq<byte>)
    ensures DecodeHex(EncodeHex(bytes)) == Some(bytes)
  {
    if bytes != [] {
      HexRoundTrip(bytes[1..]);
      PairRoundTrip(bytes[0]);
      assert EncodeHex(bytes)[2..] == EncodeHex(bytes[1..]);
      assert [bytes[0]] + bytes[1..] == bytes;
    }
  }

  function LowerDigit(c: char): char {
    if c == 'A' then 'a' else if c == 'B' then 'b' else if c == 'C' then 'c'
    else if c == 'D' then 'd' else if c == 'E' then 'e' else if c == 'F' then 'f' else c
  }

  function Lower(text: string): (r: string)
    ensures |r| == |text|
  {
    if text == "" then "" else [LowerDigit(text[0])] + Lower(text[1..])
  }

  lemma DigitCanonical(c: char)
    requires HexValue(c).Some?
    ensures HexDigit(HexValue(c).value) == LowerDigit(c)
  {}

  lemma SplitByte(h: int, l: int)
    requires 0 <= h < 16 && 0 <= l < 16
    ensures (16 * h + l) / 16 == h && (16 * h + l) % 16 == l
  {}

  lemma PairCanonical(high: char, low: char)
    requires PairValue(high, low).Some?
    ensures HexPair(PairValue(high, low).value) == [LowerDigit(high), LowerDigit(low)]
  {
    hide HexDigit, LowerDigit;
    DigitCanonical(high);
    DigitCanonical(low);
    SplitByte(HexValue(high).value, HexValue(low).value);
  }

  lemma LowerPair(text: string)
    requires |text| >= 2
    ensures Lower(text) == [LowerDigit(text[0]), LowerDigit(text[1])] + Lower(text[2..])
  {
    hide LowerDigit;
    assert text[1..][1..] == text[2..];
  }

  /** What decodes is the encoding of its bytes, up to the case of the letters. */
  lemma {:induction false} HexCanonical(text: string)
    requires DecodeHex(text).Some?
    ensures EncodeHex(DecodeHex(text).value) == Lower(text)
  {
    if text != "" {
      HexCanonical(text[2..]);
      PairCanonical(text[0], text[1]);
      LowerPair(text);
      assert DecodeHex(text).value[1..] == DecodeHex(text[2..]).value;
    }
  }

  lemma LowerValue(c: char)
    ensures HexValue(LowerDigit(c)) == HexValue(c)
  {}

  /** The case of the letters does not matter. */
  lemma {:induction false} DecodeLower(text: string)
    ensures DecodeHex(Lower(text)) == DecodeHex(text)
  {
    if |text| >= 2 {
      hide LowerDigit, HexValue;
      DecodeLower(text[2..]);
      LowerPair(text);
      LowerValue(text[0]);
      LowerValue(text[1]);
      assert Lower(text)[2..] == Lower(text[2..]);
    }
  }

  /** Which texts decode: those of even length with nothing but hexadecimal digits, of either case. */
  lemma {:induction false} HexReadableIff(text: string)
    ensures DecodeHex(text).Some? <==> |text| % 2 == 0 && forall c <- text :: c in "0123456789abcdefABCDEF"
  {
    if |text| >= 2 {
      HexReadableIff(text[2..]);
      DigitIff(text[0]);
      DigitIff(text[1]);
      assert text == [text[0], text[1]] + text[2..];
    } else if |text| == 1 {
      assert DecodeHex(text).None?;
    }
  }

  lemma DigitIff(c: char)
    ensures HexValue(c).Some? <==> c in "0123456789abcdefABCDEF"
  {
    var digits := "0123456789abcdefABCDEF";
    if '0' <= c <= '9' { assert digits[c as int - '0' as int] == c; }
    if 'a' <= c <= 'f' { assert digits[c as int - 'a' as int + 10] == c; }
    if 'A' <= c <= 'F' { assert digits[c as int - 'A' as int + 16] == c; }
  }

  /** The text of bytes: two lower-case digits each, the upper half first. */
  lemma {:induction false} HexDigits(bytes: seq<byte>, k: nat)
    requires k < |bytes|
    ensures |EncodeHex(bytes)| == 2 * |bytes|
    ensures EncodeHex(bytes)[2 * k] == "0123456789abcdef"[bytes[k] / 16]
    ensures EncodeHex(bytes)[2 * k + 1] == "0123456789abcdef"[bytes[k] % 16]
  {
    var rest := EncodeHex(bytes[1..]);
    assert EncodeHex(bytes)[2..] == rest;
    if |bytes| == 1 {
      assert rest == "";
    } else {
      HexDigits(bytes[1..], if k == 0 then 0 else k - 1);
      if k > 0 {
        assert EncodeHex(bytes)[2 * k] == rest[2 * (k - 1)] && EncodeHex(bytes)[2 * k + 1] == rest[2 * (k - 1) + 1];
      }
    }
  }

  // ----- little-endian scalars of fixed width

  function Pow256(w: nat): (p: int)
    ensures p > 0
  {
    if w == 0 then 1 else 256 * Pow256(w - 1)
  }

  lemma {:induction false} Pow256Grows(w: nat)
    ensures Pow256(w) > w
  {
    if w > 0 { Pow256Grows(w - 1); }
  }

  /** The least number of bytes, from `w` up, that hold every scalar. */
  function WidthFrom(w: nat): (r: nat)
    ensures w <= r && Q <= Pow256(r)
    ensures forall v: nat | w <= v < r :: Pow256(v) < Q
    decreases Q - w
  {
    if Q <= Pow256(w) then w
    else
      Pow256Grows(w);
      WidthFrom(w + 1)
  }

  const SCALAR_BYTES: nat := WidthFrom(0)

  lemma {:induction false} Pow256Monotone(v: nat, w: nat)
    requires v <= w
    ensures Pow256(v) <= Pow256(w)
  {
    if v < w { Pow256Monotone(v, w - 1); }
  }

  /** So many bytes or more hold every scalar, and fewer do not. */
  lemma ScalarBytesLeast(w: nat)
    ensures Q <= Pow256(w) <==> w >= SCALAR_BYTES
  {
    if w >= SCALAR_BYTES { Pow256Monotone(SCALAR_BYTES, w); }
  }

  function LittleEndian(v: int, w: nat): (bytes: seq<byte>)
    requires 0 <= v < Pow256(w)
    ensures |bytes| == w
  {
    if w == 0 then [] else [v % 256] + LittleEndian(v / 256, w - 1)
  }

  function FromLittleEndian(bytes: seq<byte>): (v: int)
    ensures 0 <= v < Pow256(|bytes|)
  {
    if bytes == [] then 0 else bytes[0] + 256 * FromLittleEndian(bytes[1..])
  }

  lemma {:induction false} LittleEndianRoundTrip(v: int, w: nat)
    requires 0 <= v < Pow256(w)
    ensures FromLittleEndian(LittleEndian(v, w)) == v
  {
    if w > 0 {
      LittleEndianRoundTrip(v / 256, w - 1);
      assert LittleEndian(v, w)[1..] == LittleEndian(v / 256, w - 1);
    }
  }

  lemma {:induction false} LittleEndianCanonical(bytes: seq<byte>)
    ensures LittleEndian(FromLittleEndian(bytes), |bytes|) == bytes
  {
    if bytes != [] {
      var v, r := FromLittleEndian(bytes), FromLittleEndian(bytes[1..]);
      LittleEndianCanonical(bytes[1..]);
      assert v % 256 == bytes[0] && v / 256 == r;
    }
  }

  lemma DivideTwice(v: int, p: int)
    requires v >= 0 && p > 0
    ensures v / 256 / p == v / (256 * p)
  {
    var q := v / 256;
    var a, b := q / p, q % p;
    assert 256 * (p * a) == 256 * p * a;
    assert v == 256 * (p * a + b) + v % 256;
    assert 0 <= 256 * b + v % 256 < 256 * p;
    QuotientUnique(256 * p, v, a, 256 * b + v % 256);
  }

  lemma QuotientUnique(d: int, v: int, a: int, r: int)
    requires d > 0 && v == d * a + r && 0 <= r < d
    ensures v / d == a
  {
    assert v == a * d + r;
    RemainderUnique(d, v, a, r);
    assert d * (v / d) == d * a;
    assert d * (v / d - a) == 0;
  }

  /** Byte k is the k-th digit to the base 256, the least first. */
  lemma {:induction false} LittleEndianDigit(v: int, w: nat, k: nat)
    requires 0 <= v < Pow256(w) && k < w
    ensures LittleEndian(v, w)[k] == v / Pow256(k) % 256
  {
    if k == 0 {
      assert v / 1 == v;
    } else {
      LittleEndianDigit(v / 256, w - 1, k - 1);
      DivideTwice(v, Pow256(k - 1));
    }
  }

  function EncodeScalar(s: Scalar): seq<byte> {
    LittleEndian(s, SCALAR_BYTES)
  }

  /** Rejects a wrong length and a value that is not reduced. */
  function DecodeScalar(bytes: seq<byte>): Option<Scalar> {
    if |bytes| != SCALAR_BYTES || FromLittleEndian(bytes) >= Q then None else Some(FromLittleEndian(bytes))
  }

  lemma ScalarRoundTrip(s: Scalar)
    ensures DecodeScalar(EncodeScalar(s)) == Some(s)
  {
    LittleEndianRoundTrip(s, SCALAR_BYTES);
  }

  // ----- a share on the wire

  function ShareText(s: Scalar): string {
    EncodeHex(EncodeScalar(s))
  }

  function ParseShare(text: string): Option<Scalar> {
    match DecodeHex(text)
    case Some(bytes) => DecodeScalar(bytes)
    case None => None
  }

  lemma ShareRoundTrip(s: Scalar)
    ensures ParseShare(ShareText(s)) == Some(s)
  {
    HexRoundTrip(EncodeScalar(s));
    ScalarRoundTrip(s);
  }

  /** The text of a share, digit by digit. */
  lemma ShareTextDigits(s: Scalar, k: nat)
    requires k < SCALAR_BYTES
    ensures |ShareText(s)| == 2 * SCALAR_BYTES
    ensures ShareText(s)[2 * k] == "0123456789abcdef"[s / Pow256(k) % 256 / 16]
    ensures ShareText(s)[2 * k + 1] == "0123456789abcdef"[s / Pow256(k) % 256 % 16]
  {
    hide EncodeHex, LittleEndian, Pow256;
    HexDigits(EncodeScalar(s), k);
    LittleEndianDigit(s, SCALAR_BYTES, k);
  }

  /** One scalar has one text, up to the case of the letters. */
  lemma ShareCanonical(text: string)
    requires ParseShare(text).Some?
    ensures Lower(text) == ShareText(ParseShare(text).value)
  {
    HexCanonical(text);
    LittleEndianCanonical(DecodeHex(text).value);
  }

  /** Exactly which texts stand for a scalar. */
  lemma ParseShareIff(text: string, s: Scalar)
    ensures ParseShare(text) == Some(s) <==> Lower(text) == ShareText(s)
  {
    hide DecodeHex, EncodeHex, EncodeScalar, DecodeScalar, Lower;
    if ParseShare(text) == Some(s) { ShareCanonical(text); }
    if Lower(text) == ShareText(s) {
      DecodeLower(text);
      ShareRoundTrip(s);
    }
  }
}
