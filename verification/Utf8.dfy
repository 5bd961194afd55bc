/**
 UTF-8 (section 3 of RFC 3629): the encoder, a decoder that skips what it cannot decode, and the byte-exact cut
 of a text built from the two. A Dafny `char` is a Unicode scalar value.
 */
module Utf8 {
  type byte = b: int | 0 <= b < 256

  function EncodeChar(c: char): seq<byte> {
    var n := c as int;
    if n < 0x80 then [n]
    else if n < 0x800 then [0xC0 + n / 64, 0x80 + n % 64]
    else if n < 0x10000 then [0xE0 + n / 4096, 0x80 + n / 64 % 64, 0x80 + n % 64]
    else [0xF0 + n / 262144, 0x80 + n / 4096 % 64, 0x80 + n / 64 % 64, 0x80 + n % 64]
  }

  function Encode(text: string): seq<byte> {
    if text == [] then [] else EncodeChar(text[0]) + Encode(text[1..])
  }

  function Size(text: string): nat {
    |Encode(text)|
  }

  predicate Continuation(b: byte) {
    0x80 <= b < 0xC0
  }

  /** How long a sequence its first byte announces; 0 for a byte no sequence starts with. */
  function Announced(lead: byte): nat {
    if lead < 0x80 then 1
    else if 0xC2 <= lead < 0xE0 then 2
    else if 0xE0 <= lead < 0xF0 then 3
    else if 0xF0 <= lead < 0xF5 then 4
    else 0
  }

  /** The second byte is where overlong forms, surrogates and values above U+10FFFF are excluded. */
  predicate Second(lead: byte, b: byte) {
    && Continuation(b)
    && (lead == 0xE0 ==> b >= 0xA0) && (lead == 0xED ==> b < 0xA0)
    && (lead == 0xF0 ==> b >= 0x90) && (lead == 0xF4 ==> b < 0x90)
  }

  /** The length of the longest prefix of `bytes` that starts a well-formed sequence, at most `Announced`. */
  function Matched(bytes: seq<byte>): (n: nat)
    ensures n <= |bytes| && (bytes != [] ==> n <= Announced(bytes[0]))
  {
    if bytes == [] then 0
    else
      var want := Announced(bytes[0]);
      if want <= 1 then want
      else if |bytes| < 2 || !Second(bytes[0], bytes[1]) then 1
      else if want == 2 || |bytes| < 3 || !Continuation(bytes[2]) then 2
      else if want == 3 || |bytes| < 4 || !Continuation(bytes[3]) then 3
      else 4
  }

  function DecodeOne(bytes: seq<byte>): char
    requires bytes != [] && Announced(bytes[0]) > 0 && Matched(bytes) == Announced(bytes[0])
  {
    var n := Announced(bytes[0]);
    var lead: int := bytes[0];
    if n == 1 then lead as char
    else
      var second: int := bytes[1] % 64;
      if n == 2 then (lead % 32 * 64 + second) as char
      else
        var third: int := bytes[2] % 64;
        if n == 3 then (lead % 16 * 4096 + second * 64 + third) as char
        else (lead % 8 * 262144 + second * 4096 + third * 64 + bytes[3] % 64) as char
  }

  /** `bytes.decode("utf-8", "ignore")`: an ill-formed stretch is skipped up to its first unexpected byte. */
  function DecodeIgnore(bytes: seq<byte>): string
    decreases |bytes|
  {
    if bytes == [] then []
    else
      var n := Matched(bytes);
      if n > 0 && n == Announced(bytes[0]) then [DecodeOne(bytes)] + DecodeIgnore(bytes[n..])
      else DecodeIgnore(bytes[if n == 0 then 1 else n..])
  }

  /** Cut a text to at most `limit` bytes. */
  function CutBytes(text: string, limit: nat): string {
    var raw := Encode(text);
    if |raw| <= limit then text else DecodeIgnore(raw[..limit])
  }

  // ----- One character -----

  /** The first byte announces the length, and all of the sequence matches, whatever follows. */
  lemma CharMatches(c: char, rest: seq<byte>)
    ensures var bytes := EncodeChar(c) + rest;
            && 1 <= |EncodeChar(c)| <= 4
            && Announced(bytes[0]) == |EncodeChar(c)| == Matched(bytes)
  {
    var n := c as int;
    if n >= 0x10000 {
      FourBytesMatch(c, rest);
    } else if n >= 0x800 {
      ThreeBytesMatch(c, rest);
    }
  }

  lemma ThreeBytesMatch(c: char, rest: seq<byte>)
    requires 0x800 <= c as int < 0x10000
    ensures |EncodeChar(c)| == 3
    ensures var bytes := EncodeChar(c) + rest; Announced(bytes[0]) == 3 == Matched(bytes)
  {
    var n := c as int;
    var bytes := EncodeChar(c) + rest;
    assert bytes[0] == 0xE0 + n / 4096 && bytes[1] == 0x80 + n / 64 % 64 && bytes[2] == 0x80 + n % 64;
  }

  lemma FourBytesMatch(c: char, rest: seq<byte>)
    requires c as int >= 0x10000
    ensures |EncodeChar(c)| == 4
    ensures var bytes := EncodeChar(c) + rest; Announced(bytes[0]) == 4 == Matched(bytes)
  {
    var n := c as int;
    var bytes := EncodeChar(c) + rest;
    assert 0xF0 + n / 262144 < 0xF5;
    assert bytes[0] == 0xF0 + n / 262144 && bytes[1] == 0x80 + n / 4096 % 64;
    assert bytes[2] == 0x80 + n / 64 % 64 && bytes[3] == 0x80 + n % 64;
  }

  lemma SixBits(n: nat)
    ensures (0x80 + n % 64) % 64 == n % 64 && n == n / 64 * 64 + n % 64
  {
  }

  lemma FourBytesDecode(c: char, rest: seq<byte>)
    requires c as int >= 0x10000
    requires var bytes := EncodeChar(c) + rest; Announced(bytes[0]) == |EncodeChar(c)| == Matched(bytes)
    ensures DecodeOne(EncodeChar(c) + rest) == c
  {
    var n := c as int;
    SixBits(n);
    SixBits(n / 64);
    SixBits(n / 4096);
    assert n / 64 / 64 == n / 4096 && n / 4096 / 64 == n / 262144;
    hide Matched;
    var bytes := EncodeChar(c) + rest;
    assert bytes[0] % 8 == n / 262144;
    assert bytes[1] % 64 == n / 4096 % 64 && bytes[2] % 64 == n / 64 % 64 && bytes[3] % 64 == n % 64;
  }

  lemma CharDecodes(c: char, rest: seq<byte>)
    requires var bytes := EncodeChar(c) + rest; Announced(bytes[0]) == |EncodeChar(c)| == Matched(bytes)
    ensures DecodeOne(EncodeChar(c) + rest) == c
  {
    var n := c as int;
    SixBits(n);
    SixBits(n / 64);
    assert n / 64 / 64 == n / 4096;
    hide Matched;
    var bytes := EncodeChar(c) + rest;
    if n >= 0x10000 {
      FourBytesDecode(c, rest);
    } else if n >= 0x800 {
      assert bytes[0] % 16 == n / 4096;
      assert bytes[1] % 64 == n / 64 % 64 && bytes[2] % 64 == n % 64;
    } else if n >= 0x80 {
      assert bytes[0] % 32 == n / 64;
      assert bytes[1] % 64 == n % 64;
    }
  }

  lemma DecodeHead(c: char, rest: seq<byte>)
    ensures DecodeIgnore(EncodeChar(c) + rest) == [c] + DecodeIgnore(rest)
  {
    CharMatches(c, rest);
    CharDecodes(c, rest);
    hide EncodeChar, Matched, Announced, DecodeOne;
    assert (EncodeChar(c) + rest)[|EncodeChar(c)|..] == rest;
  }

  /** A sequence cut short decodes to nothing: all of it is one ill-formed stretch. */
  lemma DecodeCutChar(c: char, k: nat)
    requires k < |EncodeChar(c)|
    ensures DecodeIgnore(EncodeChar(c)[..k]) == []
  {
    if k > 0 {
      var cut := EncodeChar(c)[..k];
      CharMatches(c, []);
      assert EncodeChar(c) + [] == EncodeChar(c);
      assert Matched(cut) == k && k < Announced(cut[0]);
      assert cut[k..] == [];
    }
  }

  // ----- Texts -----

  /** Decoding undoes encoding. */
  lemma {:induction false} DecodeEncode(text: string)
    ensures DecodeIgnore(Encode(text)) == text
  {
    if text != [] {
      DecodeEncode(text[1..]);
      DecodeHead(text[0], Encode(text[1..]));
    }
  }

  lemma {:induction false} EncodeAppend(a: string, b: string)
    ensures Encode(a + b) == Encode(a) + Encode(b)
  {
    hide EncodeChar;
    if a == [] {
      assert a + b == b;
    } else {
      EncodeAppend(a[1..], b);
      assert (a + b)[1..] == a[1..] + b && (a + b)[0] == a[0];
      assert Encode(a + b) == EncodeChar(a[0]) + (Encode(a[1..]) + Encode(b));
    }
  }

  lemma {:induction false} SizeBound(text: string)
    ensures Size(text) <= 4 * |text|
  {
    if text != [] {
      SizeBound(text[1..]);
      CharMatches(text[0], []);
    }
  }

  /** `r` is what fits: a prefix of the text that does, within three bytes of the limit, and with its next
      character it would not. */
  predicate Fits(text: string, r: string, limit: nat) {
    r <= text && |r| < |text| && limit - 3 <= Size(r) <= limit < Size(r + [text[|r|]])
  }

  /** Decoding a cut encoding leaves what fits. */
  lemma {:induction false} DecodeCut(text: string, limit: nat)
    requires limit < Size(text)
    ensures Fits(text, DecodeIgnore(Encode(text)[..limit]), limit)
  {
    assert text != [];
    hide EncodeChar, DecodeIgnore, Encode, Fits;
    var c, rest := text[0], text[1..];
    EncodeCons(c, rest);
    assert text == [c] + rest;
    if limit < |EncodeChar(c)| {
      assert Encode(text)[..limit] == EncodeChar(c)[..limit];
      CutWithinFirst(c, rest, limit);
    } else {
      var n := limit - |EncodeChar(c)|;
      DecodeCut(rest, n);
      assert Encode(text)[..limit] == EncodeChar(c) + Encode(rest)[..n];
      DecodeHead(c, Encode(rest)[..n]);
      FitsAfter(c, rest, DecodeIgnore(Encode(rest)[..n]), n);
    }
  }

  lemma CutWithinFirst(c: char, rest: string, limit: nat)
    requires limit < |EncodeChar(c)|
    ensures Fits([c] + rest, DecodeIgnore(EncodeChar(c)[..limit]), limit)
  {
    DecodeCutChar(c, limit);
    CharMatches(c, []);
    EncodeNothing();
    EncodeCons(c, []);
    hide EncodeChar, DecodeIgnore, Encode;
    assert [] + [c] == [c] == [c] + [];
  }

  lemma FitsAfter(c: char, rest: string, r: string, n: nat)
    requires Fits(rest, r, n)
    ensures Fits([c] + rest, [c] + r, n + |EncodeChar(c)|)
  {
    hide EncodeChar, Encode;
    EncodeCons(c, r);
    EncodeCons(c, r + [rest[|r|]]);
    assert [c] + r + [rest[|r|]] == [c] + (r + [rest[|r|]]);
  }

  lemma EncodeNothing()
    ensures Encode([]) == []
  {
  }

  lemma EncodeCons(c: char, text: string)
    ensures Encode([c] + text) == EncodeChar(c) + Encode(text)
  {
    assert ([c] + text)[1..] == text;
  }

  /** `_cut_bytes` keeps the longest prefix of whole characters that fits the limit; when it cuts, no more
      than three bytes of the limit stay unused. */
  lemma CutBytesLongestPrefix(text: string, limit: nat)
    ensures var r := CutBytes(text, limit);
            && r <= text && Size(r) <= limit
            && (forall p | p <= text && Size(p) <= limit :: |p| <= |r|)
            && (Size(text) <= limit <==> r == text)
            && (r != text ==> limit - 3 <= Size(r))
  {
    var r := CutBytes(text, limit);
    if Size(text) > limit {
      DecodeCut(text, limit);
      forall p | p <= text && Size(p) <= limit
        ensures |p| <= |r|
      {
        if |p| > |r| {
          var longer := r + [text[|r|]];
          assert p == longer + p[|longer|..];
          EncodeAppend(longer, p[|longer|..]);
        }
      }
    }
  }

  /** A text that fits is left alone, so cutting twice is cutting once. */
  lemma CutBytesTwice(text: string, limit: nat)
    ensures CutBytes(CutBytes(text, limit), limit) == CutBytes(text, limit)
  {
    CutBytesLongestPrefix(text, limit);
  }
}
