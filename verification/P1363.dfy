/** The fixed-width signature encoding of SignES256 (internal/signing/ecdsa.go): the two integers of
    an ECDSA signature, big-endian, padded on the left to the size of the curve (section 3.4 of
    RFC 7518). */
module P1363 {
  import opened Wrappers
  import opened Wire
  import Base64Url

  const CURVE_SIZE: nat := 32

  // ----- big-endian integers

  /** The bytes of a big.Int: none for 0, no leading zero. */
  function MinimalBytes(v: nat): seq<byte> {
    if v == 0 then [] else MinimalBytes(v / 256) + [v % 256]
  }

  function FromBytes(bytes: seq<byte>): nat {
    if bytes == [] then 0 else 256 * FromBytes(bytes[..|bytes| - 1]) + bytes[|bytes| - 1]
  }

  lemma {:induction false} MinimalRoundTrip(v: nat)
    ensures FromBytes(MinimalBytes(v)) == v
  {
    if v > 0 {
      MinimalRoundTrip(v / 256);
      var b := MinimalBytes(v);
      assert b[..|b| - 1] == MinimalBytes(v / 256);
    }
  }

  lemma {:induction false} MinimalLength(v: nat, w: nat)
    requires v < Pow256(w)
    ensures |MinimalBytes(v)| <= w
  {
    if v > 0 { MinimalLength(v / 256, w - 1); }
  }

  function Zeros(n: nat): (r: seq<byte>)
    ensures |r| == n && forall i | 0 <= i < n :: r[i] == 0
  {
    seq(n, _ => 0)
  }

  lemma {:induction false} LeadingZeros(n: nat, bytes: seq<byte>)
    ensures FromBytes(Zeros(n) + bytes) == FromBytes(bytes)
    decreases n + |bytes|
  {
    var all := Zeros(n) + bytes;
    if bytes != [] {
      LeadingZeros(n, bytes[..|bytes| - 1]);
      assert all[..|all| - 1] == Zeros(n) + bytes[..|bytes| - 1];
    } else if n > 0 {
      LeadingZeros(n - 1, []);
      assert all[..|all| - 1] == Zeros(n - 1) + [];
    }
  }

  // ----- padding

  function Padded(b: seq<byte>, size: nat): seq<byte> {
    if |b| >= size then b else Zeros(size - |b|) + b
  }

  /** padLeft: a buffer of zeros with the bytes copied to its end. */
  method PadLeft(b: seq<byte>, size: nat) returns (r: seq<byte>)
    ensures r == Padded(b, size)
    ensures |b| >= size ==> r == b
    ensures |b| < size ==> |r| == size && r[size - |b|..] == b && forall k | 0 <= k < size - |b| :: r[k] == 0
  {
    if |b| >= size {
      return b;
    }
    var padded := new byte[size](_ => 0);
    var offset := size - |b|;
    for i := 0 to |b|
      invariant forall k | 0 <= k < offset :: padded[k] == 0
      invariant forall k | 0 <= k < i :: padded[offset + k] == b[k]
    {
      padded[offset + i] := b[i];
    }
    r := padded[..];
  }

  lemma PaddedValue(v: nat, size: nat)
    requires v < Pow256(size)
    ensures |Padded(MinimalBytes(v), size)| == size && FromBytes(Padded(MinimalBytes(v), size)) == v
  {
    MinimalLength(v, size);
    MinimalRoundTrip(v);
    LeadingZeros(size - |MinimalBytes(v)|, MinimalBytes(v));
    assert |MinimalBytes(v)| == size ==> Zeros(0) + MinimalBytes(v) == MinimalBytes(v);
  }

  /** Byte k of the padded bytes is the digit of 256^(size - 1 - k): the most significant comes first. */
  lemma {:induction false} BigEndianDigit(v: nat, size: nat, k: nat)
    requires v < Pow256(size) && k < size
    ensures |Padded(MinimalBytes(v), size)| == size
    ensures Padded(MinimalBytes(v), size)[k] == v / Pow256(size - 1 - k) % 256
    decreases size
  {
    hide Pow256;
    MinimalLength(v, size);
    PaddedStep(v, size);
    var rest := Padded(MinimalBytes(v / 256), size - 1);
    if k == size - 1 {
      PowZero();
      assert v / 1 == v;
    } else {
      PowStep(size - 1);
      PowStep(size - 2 - k);
      assert v / 256 < Pow256(size - 1);
      BigEndianDigit(v / 256, size - 1, k);
      DivideTwice(v, Pow256(size - 2 - k));
    }
  }

  lemma PowZero()
    ensures Pow256(0) == 1
  {}

  lemma PowStep(w: nat)
    ensures Pow256(w + 1) == 256 * Pow256(w)
  {}

  lemma PaddedStep(v: nat, size: nat)
    requires size > 0 && |MinimalBytes(v)| <= size && |MinimalBytes(v / 256)| <= size - 1
    ensures Padded(MinimalBytes(v), size) == Padded(MinimalBytes(v / 256), size - 1) + [v % 256]
  {
    if v == 0 {
      assert Padded(MinimalBytes(v), size) == Zeros(size);
      assert Zeros(size - 1) + [] + [0] == Zeros(size);
    } else {
      assert MinimalBytes(v) == MinimalBytes(v / 256) + [v % 256];
      PaddedSnoc(MinimalBytes(v / 256), v % 256, size);
    }
  }

  lemma PaddedSnoc(b: seq<byte>, last: byte, size: nat)
    requires |b| < size
    ensures Padded(b + [last], size) == Padded(b, size - 1) + [last]
  {
    var zeros := Zeros(size - 1 - |b|);
    assert zeros + (b + [last]) == (zeros + b) + [last];
    if |b| == size - 1 { assert zeros + b == b; }
  }

  // ----- the signature

  function SignatureBytes(r: nat, s: nat): seq<byte> {
    Padded(MinimalBytes(r), CURVE_SIZE) + Padded(MinimalBytes(s), CURVE_SIZE)
  }

  /** SignES256 after the ECDSA signature itself, which yields `r` and `s`. */
  method EncodeSignature(r: nat, s: nat) returns (text: string)
    ensures text == Base64Url.Encode(SignatureBytes(r, s))
  {
    var rBytes := PadLeft(MinimalBytes(r), CURVE_SIZE);
    var sBytes := PadLeft(MinimalBytes(s), CURVE_SIZE);
    var sig := rBytes + sBytes;
    text := Base64Url.Encode(sig);
  }

  /** Splits the bytes in the middle. */
  function ParseSignature(bytes: seq<byte>): Option<(nat, nat)> {
    if |bytes| != 2 * CURVE_SIZE then None
    else Some((FromBytes(bytes[..CURVE_SIZE]), FromBytes(bytes[CURVE_SIZE..])))
  }

  /** For all 0 <= r, s < 2^256: the bytes are 64, and splitting them gives r and s back. */
  lemma SignatureRoundTrip(r: nat, s: nat)
    requires r < Pow256(CURVE_SIZE) && s < Pow256(CURVE_SIZE)
    ensures |SignatureBytes(r, s)| == 64
    ensures FromBytes(SignatureBytes(r, s)[..32]) == r && FromBytes(SignatureBytes(r, s)[32..]) == s
    ensures ParseSignature(SignatureBytes(r, s)) == Some((r, s))
  {
    hide MinimalBytes, FromBytes, Padded;
    PaddedValue(r, CURVE_SIZE);
    PaddedValue(s, CURVE_SIZE);
    var a, b := Padded(MinimalBytes(r), CURVE_SIZE), Padded(MinimalBytes(s), CURVE_SIZE);
    assert (a + b)[..CURVE_SIZE] == a && (a + b)[CURVE_SIZE..] == b;
  }

  /** The 64 bytes, one by one: the digits of R and then those of S, each the most significant first. */
  lemma SignatureDigits(r: nat, s: nat, k: nat)
    requires r < Pow256(32) && s < Pow256(32) && k < 32
    ensures |SignatureBytes(r, s)| == 64
    ensures SignatureBytes(r, s)[k] == r / Pow256(31 - k) % 256
    ensures SignatureBytes(r, s)[32 + k] == s / Pow256(31 - k) % 256
  {
    hide MinimalBytes, Padded, Pow256;
    BigEndianDigit(r, 32, k);
    BigEndianDigit(s, 32, k);
  }

  /** Different signatures have different bytes. */
  lemma SignatureInjective(r: nat, s: nat, r': nat, s': nat)
    requires r < Pow256(CURVE_SIZE) && s < Pow256(CURVE_SIZE) && r' < Pow256(CURVE_SIZE) && s' < Pow256(CURVE_SIZE)
    requires SignatureBytes(r, s) == SignatureBytes(r', s')
    ensures r == r' && s == s'
  {
    hide SignatureBytes, ParseSignature, Pow256;
    SignatureRoundTrip(r, s);
    SignatureRoundTrip(r', s');
  }

  /** The text of a signature has 86 characters and decodes to it. */
  lemma SignatureText(r: nat, s: nat)
    requires r < Pow256(CURVE_SIZE) && s < Pow256(CURVE_SIZE)
    ensures |Base64Url.Encode(SignatureBytes(r, s))| == 86
    ensures Base64Url.Decode(Base64Url.Encode(SignatureBytes(r, s))) == Some(SignatureBytes(r, s))
  {
    hide SignatureBytes, ParseSignature, Pow256;
    SignatureRoundTrip(r, s);
    Base64Url.EncodeRoundTrip(SignatureBytes(r, s));
  }
}
