/** The compact form of a token (section 7.1 of RFC 7515), as the coordinator and the proxy build it. */
module Token {
  import opened Wrappers
  import opened Wire
  import opened Base64Url

  /** The texts between the dots. */
  function SplitDots(text: string): (parts: seq<string>)
    ensures |parts| >= 1
    ensures |parts| == Dots(text) + 1
  {
    if text == "" then [""]
    else
      var rest := SplitDots(text[1..]);
      if text[0] == '.' then [""] + rest else [[text[0]] + rest[0]] + rest[1..]
  }

  function Dots(text: string): nat {
    if text == "" then 0 else (if text[0] == '.' then 1 else 0) + Dots(text[1..])
  }

  lemma {:induction false} SplitPlain(text: string)
    requires '.' !in text
    ensures SplitDots(text) == [text]
  {
    if text != "" {
      SplitPlain(text[1..]);
      assert text == [text[0]] + text[1..];
    }
  }

  lemma {:induction false} SplitAtDot(text: string, rest: string)
    requires '.' !in text
    ensures SplitDots(text + "." + rest) == [text] + SplitDots(rest)
  {
    var all := text + "." + rest;
    if text == "" {
      assert all[1..] == rest;
    } else {
      SplitAtDot(text[1..], rest);
      assert all[1..] == text[1..] + "." + rest;
      assert text == [text[0]] + text[1..];
    }
  }

  function SigningInput(header: seq<byte>, payload: seq<byte>): string {
    Encode(header) + "." + Encode(payload)
  }

  function Compact(header: seq<byte>, payload: seq<byte>, signature: seq<byte>): string {
    SigningInput(header, payload) + "." + Encode(signature)
  }

  /** Splits a token at its dots and decodes the three parts. */
  function Parse(token: string): Option<(seq<byte>, seq<byte>, seq<byte>)> {
    var parts := SplitDots(token);
    if |parts| != 3 then None
    else
      var h, p, s := Decode(parts[0]), Decode(parts[1]), Decode(parts[2]);
      if h.Some? && p.Some? && s.Some? then Some((h.value, p.value, s.value)) else None
  }

  /** For every header, payload and signature the token has exactly two dots and parses back. */
  lemma TokenRoundTrip(header: seq<byte>, payload: seq<byte>, signature: seq<byte>)
    ensures Dots(Compact(header, payload, signature)) == 2
    ensures Parse(Compact(header, payload, signature)) == Some((header, payload, signature))
  {
    hide Encode, Decode;
    EncodeRoundTrip(header);
    EncodeRoundTrip(payload);
    EncodeRoundTrip(signature);
    var h, p, s := Encode(header), Encode(payload), Encode(signature);
    SplitAtDot(h, p + "." + s);
    SplitAtDot(p, s);
    SplitPlain(s);
    assert Compact(header, payload, signature) == h + "." + (p + "." + s);
  }
}
