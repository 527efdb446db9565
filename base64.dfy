/**
 * Base64 of section 4 of RFC 4648, as the browser's `btoa` produces it and `atob` reads it (the
 * forgiving-base64 decode of the WHATWG Infra standard), and `base64urlToBase64`, which turns the
 * base64url text of a JWK (section 5 of RFC 4648) into input for `atob`.
 */
module Base64 {
  import opened Bytes
  import opened Wrappers

  predicate IsAlphabetChar(c: char)
  {
    'A' <= c <= 'Z' || 'a' <= c <= 'z' || '0' <= c <= '9' || c == '+' || c == '/'
  }

  predicate AllAlphabet(s: string)
  {
    forall i :: 0 <= i < |s| ==> IsAlphabetChar(s[i])
  }

  /** The character of the base64 alphabet for a 6-bit value. */
  function CharOf(v: nat): (c: char)
    requires v < 64
    ensures IsAlphabetChar(c)
  {
    if v < 26 then ('A' as int + v) as char
    else if v < 52 then ('a' as int + v - 26) as char
    else if v < 62 then ('0' as int + v - 52) as char
    else if v == 62 then '+'
    else '/'
  }

  /** The 6-bit value of a character of the base64 alphabet. */
  function ValueOf(c: char): (v: nat)
    requires IsAlphabetChar(c)
    ensures v < 64 && CharOf(v) == c
  {
    if 'A' <= c <= 'Z' then c as int - 'A' as int
    else if 'a' <= c <= 'z' then c as int - 'a' as int + 26
    else if '0' <= c <= '9' then c as int - '0' as int + 52
    else if c == '+' then 62
    else 63
  }

  lemma ValueOfCharOf(v: nat)
    requires v < 64
    ensures ValueOf(CharOf(v)) == v
  {
  }

  // ---------------------------------------------------------------------------------------------
  // Encoding: btoa

  /** Three octets as four characters. */
  function EncodeGroup(x: Byte, y: Byte, z: Byte): (s: string)
    ensures |s| == 4 && AllAlphabet(s)
  {
    [CharOf(x / 4), CharOf(x % 4 * 16 + y / 16), CharOf(y % 16 * 4 + z / 64), CharOf(z % 64)]
  }

  /** The last one or two octets as two or three characters, the unused low bits zero. */
  function EncodeTail(b: seq<Byte>): (s: string)
    requires 1 <= |b| <= 2
    ensures |s| == |b| + 1 && AllAlphabet(s)
  {
    if |b| == 1 then [CharOf(b[0] / 4), CharOf(b[0] % 4 * 16)]
    else [CharOf(b[0] / 4), CharOf(b[0] % 4 * 16 + b[1] / 16), CharOf(b[1] % 16 * 4)]
  }

  /** The alphabet characters for b, three octets to four characters, without padding. */
  function EncodeUnpadded(b: seq<Byte>): (s: string)
    ensures AllAlphabet(s)
    decreases |b|
  {
    if |b| == 0 then []
    else if |b| < 3 then EncodeTail(b)
    else EncodeGroup(b[0], b[1], b[2]) + EncodeUnpadded(b[3..])
  }

  lemma {:induction false} EncodeUnpaddedLength(b: seq<Byte>)
    ensures |EncodeUnpadded(b)| == (4 * |b| + 2) / 3
    decreases |b|
  {
    if |b| >= 3 {
      EncodeUnpaddedLength(b[3..]);
    }
  }

  /** Encoded lengths: the unpadded length never leaves a remainder of 1, and the padding completes a group of four. */
  lemma EncodedLengthArithmetic(n: nat)
    ensures (4 * n + 2) / 3 % 4 != 1
    ensures (4 * n + 2) / 3 + |Padding(n)| == 4 * ((n + 2) / 3)
    ensures PadCount((4 * n + 2) / 3) == |Padding(n)|
  {
    var k, r := n / 3, n % 3;
    assert n == 3 * k + r;
    if r == 0 {
      assert (4 * n + 2) / 3 == 4 * k;
      assert (n + 2) / 3 == k;
      assert PadCount(4 * k) == 0;
    } else if r == 1 {
      assert (4 * n + 2) / 3 == 4 * k + 2;
      assert (n + 2) / 3 == k + 1;
      assert PadCount(4 * k + 2) == 2;
    } else {
      assert (4 * n + 2) / 3 == 4 * k + 3;
      assert (n + 2) / 3 == k + 1;
      assert PadCount(4 * k + 3) == 1;
    }
  }

  /** The `=` characters that complete the last group of four. */
  function Padding(n: nat): string
  {
    if n % 3 == 1 then "==" else if n % 3 == 2 then "=" else ""
  }

  /** Base64 of b, with padding. */
  function Encode(b: seq<Byte>): string
  {
    EncodeUnpadded(b) + Padding(|b|)
  }

  /** Four characters for every started group of three octets: a multiple of four, empty only for no octets. */
  lemma EncodeLength(b: seq<Byte>)
    ensures |Encode(b)| == 4 * ((|b| + 2) / 3)
    ensures |Encode(b)| % 4 == 0 && (|Encode(b)| == 0 <==> |b| == 0)
  {
    EncodeUnpaddedLength(b);
    EncodedLengthArithmetic(|b|);
  }

  /** A binary string: one character per octet, as `String.fromCharCode` makes it. */
  function Latin1(b: seq<Byte>): (s: string)
    ensures |s| == |b| && forall i :: 0 <= i < |b| ==> s[i] as int == b[i]
  {
    seq(|b|, i requires 0 <= i < |b| => b[i] as char)
  }

  predicate IsBinary(s: string)
  {
    forall i :: 0 <= i < |s| ==> s[i] as int < 256
  }

  /** `charCodeAt` over a binary string. */
  function Codes(s: string): (b: seq<Byte>)
    requires IsBinary(s)
    ensures |b| == |s| && forall i :: 0 <= i < |s| ==> b[i] == s[i] as int
  {
    seq(|s|, i requires 0 <= i < |s| => s[i] as int)
  }

  /** `btoa`, on the binary strings the converter gives it. */
  function Btoa(binary: string): string
    requires IsBinary(binary)
  {
    Encode(Codes(binary))
  }

  /** `bytesToBase64`: builds a binary string one `String.fromCharCode` at a time, then calls `btoa`. */
  method BytesToBase64(bytes: seq<Byte>) returns (s: string)
    ensures s == Encode(bytes)
    ensures |s| % 4 == 0 && (|s| == 0 <==> |bytes| == 0)
  {
    EncodeLength(bytes);
    var binary: string := "";
    for i := 0 to |bytes|
      invariant binary == Latin1(bytes[..i])
    {
      binary := binary + [bytes[i] as char];
    }
    assert bytes[..|bytes|] == bytes;
    assert Codes(binary) == bytes;
    s := Btoa(binary);
  }

  // ---------------------------------------------------------------------------------------------
  // Decoding: atob

  /** ASCII whitespace of the WHATWG Infra standard: TAB, LF, FF, CR and SPACE. */
  predicate IsAsciiWhitespace(c: char)
  {
    c == '\t' || c == '\n' || c as int == 0x0C || c == '\r' || c == ' '
  }

  function RemoveAsciiWhitespace(s: string): (r: string)
    ensures |r| <= |s|
  {
    if s == [] then []
    else (if IsAsciiWhitespace(s[0]) then [] else [s[0]]) + RemoveAsciiWhitespace(s[1..])
  }

  /** When the length is a multiple of four, one or two trailing `=` are dropped. */
  function StripPadding(t: string): (u: string)
    ensures |u| <= |t|
  {
    if |t| % 4 == 0 && |t| >= 2 && t[|t| - 2] == '=' && t[|t| - 1] == '=' then t[..|t| - 2]
    else if |t| % 4 == 0 && |t| >= 1 && t[|t| - 1] == '=' then t[..|t| - 1]
    else t
  }

  /** Four characters as three octets. */
  function DecodeGroup(s: string): (b: seq<Byte>)
    requires |s| == 4 && AllAlphabet(s)
    ensures |b| == 3
  {
    [ValueOf(s[0]) * 4 + ValueOf(s[1]) / 16, ValueOf(s[1]) % 16 * 16 + ValueOf(s[2]) / 4, ValueOf(s[2]) % 4 * 64 + ValueOf(s[3])]
  }

  /** A last group of two or three characters as one or two octets; the leftover bits are dropped. */
  function DecodeTail(s: string): (b: seq<Byte>)
    requires 2 <= |s| <= 3 && AllAlphabet(s)
    ensures |b| == |s| - 1
  {
    if |s| == 2 then [ValueOf(s[0]) * 4 + ValueOf(s[1]) / 16]
    else [ValueOf(s[0]) * 4 + ValueOf(s[1]) / 16, ValueOf(s[1]) % 16 * 16 + ValueOf(s[2]) / 4]
  }

  /** Groups of four characters to octets, with a shorter last group. */
  function DecodeSextets(s: string): (b: seq<Byte>)
    requires AllAlphabet(s) && |s| % 4 != 1
    ensures |b| <= |s|
    decreases |s|
  {
    if |s| == 0 then []
    else if |s| < 4 then DecodeTail(s)
    else DecodeGroup(s[..4]) + DecodeSextets(s[4..])
  }

  /** The octets `atob` decodes s to, or None where it throws. */
  function ForgivingDecode(s: string): (r: Option<seq<Byte>>)
    ensures r.Some? ==> |r.value| <= |s|
  {
    var t := StripPadding(RemoveAsciiWhitespace(s));
    if |t| % 4 == 1 || !AllAlphabet(t) then None else Some(DecodeSextets(t))
  }

  /** `atob`. */
  function Atob(s: string): (r: Option<string>)
    ensures r.Some? ==> IsBinary(r.value)
  {
    var b :- ForgivingDecode(s);
    Some(Latin1(b))
  }

  /** `base64ToBytes`: `atob`, then the binary string copied into a `Uint8Array` one `charCodeAt` at a time. */
  method Base64ToBytes(base64: string) returns (r: Option<seq<Byte>>)
    ensures r == ForgivingDecode(base64)
  {
    var binary := Atob(base64);
    if binary.None? {
      return None;
    }
    var text := binary.value;
    var bytes := new Byte[|text|](_ => 0);
    for i := 0 to |text|
      invariant forall k :: 0 <= k < i ==> bytes[k] == text[k] as int
    {
      bytes[i] := text[i] as int;
    }
    assert bytes[..] == ForgivingDecode(base64).value;
    r := Some(bytes[..]);
  }

  // ---------------------------------------------------------------------------------------------
  // Round trip

  /** The sextets of one, two or three octets give the octets back. */
  lemma SplitOctets(b0: Byte, b1: Byte, b2: Byte)
    ensures b0 / 4 * 4 + (b0 % 4 * 16 + b1 / 16) / 16 == b0
    ensures (b0 % 4 * 16 + b1 / 16) % 16 * 16 + (b1 % 16 * 4 + b2 / 64) / 4 == b1
    ensures (b1 % 16 * 4 + b2 / 64) % 4 * 64 + b2 % 64 == b2
    ensures b0 / 4 * 4 + b0 % 4 * 16 / 16 == b0
    ensures (b0 % 4 * 16 + b1 / 16) % 16 * 16 + b1 % 16 * 4 / 4 == b1
  {
    var h0, h1 := b0 % 4, b1 / 16;
    assert (h0 * 16 + h1) / 16 == h0 && (h0 * 16 + h1) % 16 == h1;
    var l1, h2 := b1 % 16, b2 / 64;
    assert (l1 * 4 + h2) / 4 == l1 && (l1 * 4 + h2) % 4 == h2;
  }

  lemma GroupRoundTrip(x: Byte, y: Byte, z: Byte)
    ensures DecodeGroup(EncodeGroup(x, y, z)) == [x, y, z]
  {
    var s := EncodeGroup(x, y, z);
    ValueOfCharOf(x / 4);
    ValueOfCharOf(x % 4 * 16 + y / 16);
    ValueOfCharOf(y % 16 * 4 + z / 64);
    ValueOfCharOf(z % 64);
    SplitOctets(x, y, z);
  }

  lemma TailRoundTrip(b: seq<Byte>)
    requires 1 <= |b| <= 2
    ensures DecodeTail(EncodeTail(b)) == b
  {
    if |b| == 1 {
      ValueOfCharOf(b[0] / 4);
      ValueOfCharOf(b[0] % 4 * 16);
      SplitOctets(b[0], 0, 0);
    } else {
      ValueOfCharOf(b[0] / 4);
      ValueOfCharOf(b[0] % 4 * 16 + b[1] / 16);
      ValueOfCharOf(b[1] % 16 * 4);
      SplitOctets(b[0], b[1], 0);
    }
  }

  /** Unpadded base64 never ends in a lone character, so it always decodes. */
  lemma EncodeUnpaddedDecodable(b: seq<Byte>)
    ensures |EncodeUnpadded(b)| % 4 != 1
  {
    EncodeUnpaddedLength(b);
    EncodedLengthArithmetic(|b|);
  }

  lemma {:induction false} DecodeEncodeUnpadded(b: seq<Byte>)
    ensures |EncodeUnpadded(b)| % 4 != 1
    ensures DecodeSextets(EncodeUnpadded(b)) == b
    decreases |b|
  {
    EncodeUnpaddedDecodable(b);
    if 1 <= |b| < 3 {
      TailRoundTrip(b);
    } else if |b| >= 3 {
      var g := EncodeGroup(b[0], b[1], b[2]);
      var rest := EncodeUnpadded(b[3..]);
      DecodeEncodeUnpadded(b[3..]);
      assert (g + rest)[..4] == g && (g + rest)[4..] == rest;
      assert DecodeSextets(g + rest) == DecodeGroup(g) + DecodeSextets(rest);
      GroupRoundTrip(b[0], b[1], b[2]);
      assert b == [b[0], b[1], b[2]] + b[3..];
    }
  }

  lemma {:induction false} RemoveAsciiWhitespaceAppend(a: string, b: string)
    ensures RemoveAsciiWhitespace(a + b) == RemoveAsciiWhitespace(a) + RemoveAsciiWhitespace(b)
    decreases |a|
  {
    if a == [] {
      assert a + b == b;
    } else {
      assert (a + b)[0] == a[0];
      assert (a + b)[1..] == a[1..] + b;
      RemoveAsciiWhitespaceAppend(a[1..], b);
    }
  }

  /** Text without ASCII whitespace is left as it is. */
  lemma {:induction false} RemoveAsciiWhitespaceNone(s: string)
    requires forall i :: 0 <= i < |s| ==> !IsAsciiWhitespace(s[i])
    ensures RemoveAsciiWhitespace(s) == s
    decreases |s|
  {
    if s != [] {
      RemoveAsciiWhitespaceNone(s[1..]);
    }
  }

  /** Base64 text has no ASCII whitespace for `atob` to remove. */
  lemma EncodeKeptByAtob(b: seq<Byte>)
    ensures RemoveAsciiWhitespace(Encode(b)) == Encode(b)
  {
    var u := EncodeUnpadded(b);
    var s := Encode(b);
    forall i | 0 <= i < |s| ensures !IsAsciiWhitespace(s[i]) {
      if i < |u| {
        assert IsAlphabetChar(u[i]);
      }
    }
    RemoveAsciiWhitespaceNone(s);
  }

  /** `atob` drops exactly the padding `btoa` added. */
  lemma StripPaddingOfEncode(b: seq<Byte>)
    ensures StripPadding(Encode(b)) == EncodeUnpadded(b)
  {
    var u := EncodeUnpadded(b);
    var s := Encode(b);
    EncodeLength(b);
    if |b| % 3 == 0 {
      assert s == u;
      assert |u| > 0 ==> IsAlphabetChar(u[|u| - 1]);
    } else if |b| % 3 == 2 {
      assert IsAlphabetChar(u[|u| - 1]);
      assert s[..|s| - 1] == u;
    } else {
      assert s[..|s| - 2] == u;
    }
  }

  /** `atob(btoa(b))` gives back b. */
  lemma AtobOfBtoa(b: seq<Byte>)
    ensures ForgivingDecode(Encode(b)) == Some(b)
  {
    EncodeKeptByAtob(b);
    StripPaddingOfEncode(b);
    DecodeEncodeUnpadded(b);
  }

  // ---------------------------------------------------------------------------------------------
  // base64url

  /** `\s` of a JavaScript regular expression: the ECMAScript WhiteSpace and LineTerminator characters. */
  predicate IsJsWhitespace(c: char)
  {
    var k := c as int;
    k == 0x09 || k == 0x0A || k == 0x0B || k == 0x0C || k == 0x0D || k == 0x20 || k == 0xA0 || k == 0x1680
    || (0x2000 <= k <= 0x200A) || k == 0x2028 || k == 0x2029 || k == 0x202F || k == 0x205F || k == 0x3000
    || k == 0xFEFF
  }

  /** `str.replace(/\s/g, '')`: every non-whitespace character kept as often as it occurs, and no whitespace left. */
  function StripWhitespace(s: string): (r: string)
    ensures |r| <= |s|
  {
    if s == [] then []
    else
      var rest := StripWhitespace(s[1..]);
      if IsJsWhitespace(s[0]) then rest else [s[0]] + rest
  }

  /** What `replace(/\s/g, '')` promises: no whitespace is left and every other character is kept as often as it occurs. */
  lemma {:induction false} StripWhitespaceSpec(s: string)
    ensures forall i :: 0 <= i < |StripWhitespace(s)| ==> !IsJsWhitespace(StripWhitespace(s)[i])
    ensures forall c :: !IsJsWhitespace(c) ==> multiset(StripWhitespace(s))[c] == multiset(s)[c]
    decreases |s|
  {
    if s != [] {
      StripWhitespaceSpec(s[1..]);
      assert s == [s[0]] + s[1..];
    }
  }

  /** `replace(/\s/g, '')` works left to right: the text is kept in order, a whitespace character dropped and any other kept. */
  lemma {:induction false} StripWhitespaceAppend(a: string, b: string)
    ensures StripWhitespace(a + b) == StripWhitespace(a) + StripWhitespace(b)
    decreases |a|
  {
    if a == [] {
      assert a + b == b;
    } else {
      assert (a + b)[0] == a[0];
      assert (a + b)[1..] == a[1..] + b;
      StripWhitespaceAppend(a[1..], b);
    }
  }

  /** `str.replace(/from/g, to)` for a single character. */
  function ReplaceChar(s: string, from: char, to: char): (r: string)
    ensures |r| == |s|
  {
    seq(|s|, i requires 0 <= i < |s| => if s[i] == from then to else s[i])
  }

  /** `(4 - (str.length % 4)) % 4`: the fewest characters that make the length a multiple of four. */
  function PadCount(k: nat): (p: nat)
    ensures p <= 3 && (k + p) % 4 == 0
  {
    (4 - k % 4) % 4
  }

  /** `'='.repeat(n)`. */
  function PadChars(n: nat): (r: string)
    ensures |r| == n
  {
    seq(n, _ => '=')
  }

  /** The standard-alphabet character for a base64url character. */
  function UrlToStandard(c: char): char
  {
    if c == '-' then '+' else if c == '_' then '/' else c
  }

  /**
   * `base64urlToBase64`: whitespace removed, `=` appended up to a multiple of four characters,
   * `-` and `_` mapped to `+` and `/`.
   */
  function Base64UrlToBase64(s: string): (r: string)
    ensures |r| == |StripWhitespace(s)| + PadCount(|StripWhitespace(s)|)
  {
    var t := StripWhitespace(s);
    var padded := t + PadChars(PadCount(|t|));
    ReplaceChar(ReplaceChar(padded, '-', '+'), '_', '/')
  }

  /**
   * The text `base64urlToBase64` produces: a multiple of four characters, the non-whitespace
   * characters of the input in order with `-` and `_` mapped to `+` and `/`, then `=` to the end;
   * no whitespace, `-` or `_` is left.
   */
  lemma Base64UrlToBase64Spec(s: string)
    ensures var r, t := Base64UrlToBase64(s), StripWhitespace(s);
      && |r| % 4 == 0
      && (forall i :: 0 <= i < |t| ==> r[i] == UrlToStandard(t[i]))
      && (forall i :: |t| <= i < |r| ==> r[i] == '=')
      && (forall i :: 0 <= i < |r| ==> !IsJsWhitespace(r[i]) && r[i] != '-' && r[i] != '_')
  {
    StripWhitespaceSpec(s);
    var t := StripWhitespace(s);
    var padded := t + PadChars(PadCount(|t|));
    var r := Base64UrlToBase64(s);
    forall i | 0 <= i < |r|
      ensures r[i] == UrlToStandard(padded[i])
      ensures i < |t| ==> padded[i] == t[i]
      ensures |t| <= i ==> padded[i] == '='
    {
    }
  }

  /** The base64url character for a standard-alphabet character. */
  function StandardToUrl(c: char): char
  {
    if c == '+' then '-' else if c == '/' then '_' else c
  }

  /** Base64url without padding, the form JWK parameters take (section 2 of RFC 7515). */
  function Base64UrlEncode(b: seq<Byte>): (s: string)
    ensures |s| == (4 * |b| + 2) / 3
  {
    var u := EncodeUnpadded(b);
    EncodeUnpaddedLength(b);
    seq(|u|, i requires 0 <= i < |u| => StandardToUrl(u[i]))
  }

  /** Text without `\s` characters passes StripWhitespace unchanged. */
  lemma {:induction false} StripWhitespaceNone(s: string)
    requires forall i :: 0 <= i < |s| ==> !IsJsWhitespace(s[i])
    ensures StripWhitespace(s) == s
    decreases |s|
  {
    if s != [] {
      StripWhitespaceNone(s[1..]);
    }
  }

  /** Base64url text has no whitespace for `base64urlToBase64` to remove. */
  lemma UrlEncodingHasNoWhitespace(b: seq<Byte>)
    ensures StripWhitespace(Base64UrlEncode(b)) == Base64UrlEncode(b)
  {
    var u := EncodeUnpadded(b);
    var url := Base64UrlEncode(b);
    forall i | 0 <= i < |url| ensures !IsJsWhitespace(url[i]) {
      assert IsAlphabetChar(u[i]);
    }
    StripWhitespaceNone(url);
  }

  lemma UrlToStandardLength(b: seq<Byte>)
    ensures |Base64UrlToBase64(Base64UrlEncode(b))| == |Encode(b)|
  {
    var url := Base64UrlEncode(b);
    UrlEncodingHasNoWhitespace(b);
    assert |Base64UrlToBase64(url)| == |url| + PadCount(|url|);
    EncodeUnpaddedLength(b);
    EncodedLengthArithmetic(|b|);
  }

  lemma UrlToStandardAt(b: seq<Byte>, i: nat)
    requires i < |Encode(b)| && i < |Base64UrlToBase64(Base64UrlEncode(b))|
    ensures Base64UrlToBase64(Base64UrlEncode(b))[i] == Encode(b)[i]
  {
    var u := EncodeUnpadded(b);
    var url := Base64UrlEncode(b);
    UrlEncodingHasNoWhitespace(b);
    Base64UrlToBase64Spec(url);
    if i < |u| {
      assert IsAlphabetChar(u[i]);
      assert Base64UrlToBase64(url)[i] == UrlToStandard(url[i]);
    } else {
      assert Encode(b)[i] == Padding(|b|)[i - |u|] == '=';
    }
  }

  lemma UrlToStandardOfEncode(b: seq<Byte>)
    ensures Base64UrlToBase64(Base64UrlEncode(b)) == Encode(b)
  {
    UrlToStandardLength(b);
    forall i | 0 <= i < |Encode(b)| ensures Base64UrlToBase64(Base64UrlEncode(b))[i] == Encode(b)[i] {
      UrlToStandardAt(b, i);
    }
  }

  /** A JWK parameter written as base64url without padding decodes, through `base64urlToBase64` and `atob`, to its octets. */
  lemma Base64UrlRoundTrip(b: seq<Byte>)
    ensures ForgivingDecode(Base64UrlToBase64(Base64UrlEncode(b))) == Some(b)
  {
    UrlToStandardOfEncode(b);
    AtobOfBtoa(b);
  }
}
