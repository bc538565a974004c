/** The unpadded base64url encoding bit by bit. */
module Base64Bits {
  import opened Wire
  import opened Base64Url

  const UPPER: string := "ABCDEFGHIJKLMNOPQRSTUVWXYZ"
  const LOWER: string := "abcdefghijklmnopqrstuvwxyz"
  const ALPHABET: string := UPPER + LOWER + "0123456789-_"

  lemma AlphabetLetter(n: sextet)
    ensures |ALPHABET| == 64 && ALPHABET[n] == Letter(n)
  {
    if n < 26 {
      assert ALPHABET[n] == UPPER[n];
    } else if n < 52 {
      assert ALPHABET[n] == LOWER[n - 26];
    } else {
      assert ALPHABET[n] == "0123456789-_"[n - 52];
    }
  }

  /** The byte at `j`, or 0 after the last one. */
  function ByteAt(bytes: seq<byte>, j: nat): byte {
    if j < |bytes| then bytes[j] else 0
  }

  /** What a shift to the right has to drop so that bits 6i to 6i + 5 of a byte string come last in the
      16 bits that start with the byte of bit 6i. */
  function Drop(i: nat): nat {
    if i % 4 == 0 then 1024 else if i % 4 == 1 then 16 else if i % 4 == 2 then 64 else 256
  }

  lemma SixBits(n: int, q: int, r: int)
    requires n == 64 * q + r && 0 <= r < 64
    ensures n % 64 == r
  {}

  lemma HighBits(x: byte, y: byte)
    ensures (256 * x + y) / 1024 % 64 == x / 4
  {
    QuotientUnique(1024, 256 * x + y, x / 4, 256 * (x % 4) + y);
    SixBits(x / 4, 0, x / 4);
  }

  lemma UpperBits(x: byte, y: byte)
    ensures (256 * x + y) / 16 % 64 == x % 4 * 16 + y / 16
  {
    QuotientUnique(16, 256 * x + y, 16 * x + y / 16, y % 16);
    SixBits(16 * x + y / 16, x / 4, x % 4 * 16 + y / 16);
  }

  lemma LowerBits(x: byte, y: byte)
    ensures (256 * x + y) / 64 % 64 == x % 16 * 4 + y / 64
  {
    QuotientUnique(64, 256 * x + y, 4 * x + y / 64, y % 64);
    SixBits(4 * x + y / 64, x / 16, x % 16 * 4 + y / 64);
  }

  lemma LowBits(x: byte, y: byte)
    ensures (256 * x + y) / 256 % 64 == x % 64
  {
    QuotientUnique(256, 256 * x + y, x, y);
  }

  lemma FirstBits(i: nat)
    requires i < 4
    ensures 6 * i / 8 == if i == 0 then 0 else i - 1
    ensures Drop(i) == if i == 0 then 1024 else if i == 1 then 16 else if i == 2 then 64 else 256
  {}

  lemma NextGroup(i: nat)
    requires i >= 4
    ensures 6 * (i - 4) / 8 == 6 * i / 8 - 3 && Drop(i - 4) == Drop(i)
  {}

  lemma LaterSextet(bytes: seq<byte>, i: nat)
    requires |bytes| >= 3 && 4 <= i < |Sextets(bytes)|
    ensures i - 4 < |Sextets(bytes[3..])| && Sextets(bytes)[i] == Sextets(bytes[3..])[i - 4]
  {}

  lemma FirstSextets(bytes: seq<byte>, i: nat)
    requires i < |Sextets(bytes)| && (|bytes| < 3 || i < 4)
    ensures i < 4
    ensures
      var x, y, z := ByteAt(bytes, 0), ByteAt(bytes, 1), ByteAt(bytes, 2);
      Sextets(bytes)[i]
      == if i == 0 then x / 4
         else if i == 1 then x % 4 * 16 + y / 16
         else if i == 2 then y % 16 * 4 + z / 64
         else z % 64
  {}

  lemma FirstSextetBits(bytes: seq<byte>, i: nat)
    requires i < |Sextets(bytes)| && (|bytes| < 3 || i < 4)
    ensures Sextets(bytes)[i]
            == (256 * ByteAt(bytes, 6 * i / 8) + ByteAt(bytes, 6 * i / 8 + 1)) / Drop(i) % 64
  {
    hide Drop, ByteAt, Sextets;
    FirstSextets(bytes, i);
    FirstBits(i);
    if i == 0 {
      HighBits(ByteAt(bytes, 0), ByteAt(bytes, 1));
    } else if i == 1 {
      UpperBits(ByteAt(bytes, 0), ByteAt(bytes, 1));
    } else if i == 2 {
      LowerBits(ByteAt(bytes, 1), ByteAt(bytes, 2));
    } else {
      LowBits(ByteAt(bytes, 2), ByteAt(bytes, 3));
    }
  }

  /** Group i holds bits 6i to 6i + 5, with zeros after the last byte. */
  lemma {:induction false} SextetBits(bytes: seq<byte>, i: nat)
    requires i < |Sextets(bytes)|
    ensures Sextets(bytes)[i]
            == (256 * ByteAt(bytes, 6 * i / 8) + ByteAt(bytes, 6 * i / 8 + 1)) / Drop(i) % 64
  {
    if |bytes| >= 3 && i >= 4 {
      SextetBits(bytes[3..], i - 4);
      NextGroup(i);
      hide Drop, Sextets;
      assert Sextets(bytes)[i] == Sextets(bytes[3..])[i - 4] by { LaterSextet(bytes, i); }
    } else {
      FirstSextetBits(bytes, i);
    }
  }

  /** Every character of an encoding: the letter of table 2 for the next six bits. */
  lemma EncodeBits(bytes: seq<byte>, i: nat)
    requires i < |Encode(bytes)|
    ensures |ALPHABET| == 64
    ensures Encode(bytes)[i]
            == ALPHABET[(256 * ByteAt(bytes, 6 * i / 8) + ByteAt(bytes, 6 * i / 8 + 1)) / Drop(i) % 64]
  {
    hide Sextets, Drop, ByteAt;
    SextetBits(bytes, i);
    AlphabetLetter(Sextets(bytes)[i]);
  }
}
