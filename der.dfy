/**
 * DER primitives of ITU-T X.690: length octets (section 8.1.3), INTEGER (8.3), BIT STRING (8.6)
 * and SEQUENCE (8.9), as `JWKSConverter` builds them, plus a reader for tag-length-value
 * elements that serves as their inverse.
 */
module Der {
  import opened Bytes
  import opened Wrappers

  /** JavaScript's `>>=` shifts a 32-bit signed integer: every length below this bound survives it unchanged. */
  const LengthBound: nat := 0x8000_0000

  const IntegerTag: Byte := 0x02
  const BitStringTag: Byte := 0x03
  const SequenceTag: Byte := 0x30

  /** The length octets for a content of n octets: short form below 0x80, long form otherwise. */
  function DerLength(n: nat): (r: seq<Byte>)
    requires n < LengthBound
    ensures 1 <= |r| <= 5
  {
    if n < 0x80 then [n]
    else
      MinimalBytesLength(n, 4);
      var m := MinimalBytes(n);
      [0x80 + |m|] + m
  }

  /** A complete element: tag, length octets, content. */
  function Element(tag: Byte, content: seq<Byte>): seq<Byte>
    requires |content| < LengthBound
  {
    [tag] + DerLength(|content|) + content
  }

  /** `bytes[0] & 0x80`; on an empty input `bytes[0]` is undefined and the test is false. */
  predicate NeedsLeadingZero(bytes: seq<Byte>)
  {
    |bytes| > 0 && bytes[0] >= 0x80
  }

  function IntegerContent(bytes: seq<Byte>): seq<Byte>
  {
    if NeedsLeadingZero(bytes) then [0] + bytes else bytes
  }

  function DerInteger(bytes: seq<Byte>): seq<Byte>
    requires |bytes| + 1 < LengthBound
  {
    Element(IntegerTag, IntegerContent(bytes))
  }

  function DerBitString(bytes: seq<Byte>): seq<Byte>
    requires |bytes| + 1 < LengthBound
  {
    Element(BitStringTag, [0] + bytes)
  }

  function DerSequence(elements: seq<seq<Byte>>): seq<Byte>
    requires TotalLength(elements) < LengthBound
  {
    Element(SequenceTag, Concat(elements))
  }

  /** `a.set(src, offset)` on a `Uint8Array`. */
  method SetBytes(a: array<Byte>, src: seq<Byte>, offset: nat)
    requires offset + |src| <= a.Length
    modifies a
    ensures a[..offset + |src|] == old(a[..offset]) + src
    ensures a[offset + |src|..] == old(a[offset + |src|..])
  {
    forall i | 0 <= i < |src| {
      a[offset + i] := src[i];
    }
    assert a[..offset + |src|] == old(a[..offset]) + src by {
      assert forall k | 0 <= k < offset + |src| :: a[..offset + |src|][k] == (old(a[..offset]) + src)[k];
    }
  }

  /** `a[i] = v` on a `Uint8Array`, stated as the prefix it extends. */
  method SetByte(a: array<Byte>, i: nat, v: Byte)
    requires i < a.Length
    modifies a
    ensures a[..i + 1] == old(a[..i]) + [v]
    ensures a[i + 1..] == old(a[i + 1..])
  {
    a[i] := v;
    assert a[..i + 1] == old(a[..i]) + [v] by {
      assert forall k | 0 <= k <= i :: a[..i + 1][k] == (old(a[..i]) + [v])[k];
    }
  }

  /**
   * `new Uint8Array(1 + following.length + room)`, then `result[0] = first` and
   * `result.set(following, 1)`: the start every builder shares.
   */
  method NewBuffer(first: Byte, following: seq<Byte>, room: nat) returns (result: array<Byte>)
    ensures fresh(result) && result.Length == 1 + |following| + room
    ensures result[..1 + |following|] == [first] + following
  {
    result := new Byte[1 + |following| + room];
    SetByte(result, 0, first);
    SetBytes(result, following, 1);
  }

  /** `encodeDERLength`: the short form below 0x80; otherwise 0x80 plus the count of big-endian octets, then those octets. */
  method EncodeDERLength(length: nat) returns (r: seq<Byte>)
    requires length < LengthBound
    ensures r == DerLength(length)
  {
    if length < 0x80 {
      var short := new Byte[1];
      short[0] := length;
      return short[..];
    }
    var lengthBytes: seq<Byte> := [];
    var temp := length;
    while temp > 0
      invariant MinimalBytes(temp) + lengthBytes == MinimalBytes(length)
    {
      lengthBytes := [temp % 256] + lengthBytes;
      temp := temp / 256;
    }
    MinimalBytesLength(length, 4);
    var result := NewBuffer(0x80 + |lengthBytes|, lengthBytes, 0);
    assert result[..] == result[..1 + |lengthBytes|];
    r := result[..];
  }

  /**
   * The two forms of section 8.1.3 of ITU-T X.690: one octet holding a length below 0x80, or
   * 0x80 plus the count of the octets that follow, which hold the length big-endian with no
   * leading zero octet.
   */
  lemma DerLengthForm(n: nat)
    requires n < LengthBound
    ensures n < 0x80 ==> DerLength(n) == [n]
    ensures n >= 0x80 ==>
      var r := DerLength(n);
      2 <= |r| <= 5 && r[0] == 0x80 + (|r| - 1) && r[1] != 0 && Unsigned(r[1..]) == n
  {
    if n >= 0x80 {
      MinimalBytesLength(n, 4);
      MinimalBytesLeadingOctet(n);
      UnsignedOfMinimalBytes(n);
      assert DerLength(n)[1..] == MinimalBytes(n);
    }
  }

  /** `buildDERInteger`: tag 0x02, then the length octets, then a 0x00 octet when the first input octet has its high bit set, then the input. */
  method BuildDERInteger(bytes: seq<Byte>) returns (r: seq<Byte>)
    requires |bytes| + 1 < LengthBound
    ensures r == DerInteger(bytes)
  {
    var needsLeadingZero := |bytes| > 0 && bytes[0] >= 0x80;
    var contentLength := |bytes| + (if needsLeadingZero then 1 else 0);
    assert IntegerContent(bytes) == (if needsLeadingZero then [0] + bytes else bytes);
    var lengthBytes := EncodeDERLength(contentLength);
    r := WriteInteger(lengthBytes, bytes, needsLeadingZero);
  }

  /** The octets `buildDERInteger` writes after computing the length octets. */
  method WriteInteger(lengthBytes: seq<Byte>, bytes: seq<Byte>, needsLeadingZero: bool) returns (r: seq<Byte>)
    ensures r == [IntegerTag] + lengthBytes + (if needsLeadingZero then [0] + bytes else bytes)
  {
    var result := NewBuffer(IntegerTag, lengthBytes, |bytes| + (if needsLeadingZero then 1 else 0));
    var offset := 1 + |lengthBytes|;
    if needsLeadingZero {
      SetByte(result, offset, 0x00);
      offset := offset + 1;
    }
    SetBytes(result, bytes, offset);
    assert result[..] == result[..offset + |bytes|];
    r := result[..];
  }

  /** `buildDERBitString`: tag 0x03, the length octets of |bytes| + 1, the unused-bits octet 0x00, then the input. */
  method BuildDERBitString(bytes: seq<Byte>) returns (r: seq<Byte>)
    requires |bytes| + 1 < LengthBound
    ensures r == DerBitString(bytes)
  {
    var lengthBytes := EncodeDERLength(|bytes| + 1);
    r := WriteBitString(lengthBytes, bytes);
  }

  method WriteBitString(lengthBytes: seq<Byte>, bytes: seq<Byte>) returns (r: seq<Byte>)
    ensures r == [BitStringTag] + lengthBytes + ([0] + bytes)
  {
    var result := NewBuffer(BitStringTag, lengthBytes, |bytes| + 1);
    SetByte(result, 1 + |lengthBytes|, 0x00);
    SetBytes(result, bytes, 2 + |lengthBytes|);
    assert result[..] == result[..2 + |lengthBytes| + |bytes|];
    r := result[..];
  }

  /** `buildDERSequence`: tag 0x30, the length octets of the summed child lengths, then the children unchanged and in order. */
  method BuildDERSequence(elements: seq<seq<Byte>>) returns (r: seq<Byte>)
    requires TotalLength(elements) < LengthBound
    ensures r == DerSequence(elements)
  {
    var lengthBytes := EncodeDERLength(TotalLength(elements));
    r := WriteSequence(lengthBytes, elements);
  }

  /** The octets `buildDERSequence` writes once it has the length octets: each child at the running offset. */
  method WriteSequence(lengthBytes: seq<Byte>, elements: seq<seq<Byte>>) returns (r: seq<Byte>)
    ensures r == [SequenceTag] + lengthBytes + Concat(elements)
  {
    var result := NewBuffer(SequenceTag, lengthBytes, TotalLength(elements));
    var offset := 1 + |lengthBytes|;
    for i := 0 to |elements|
      invariant offset == 1 + |lengthBytes| + |Concat(elements[..i])| <= result.Length
      invariant result[..offset] == [SequenceTag] + lengthBytes + Concat(elements[..i])
    {
      ConcatSnoc(elements, i);
      ConcatPrefixLength(elements, i + 1);
      SetBytes(result, elements[i], offset);
      offset := offset + |elements[i]|;
    }
    assert elements[..|elements|] == elements;
    assert result[..] == result[..offset];
    r := result[..];
  }

  /** Child i of a SEQUENCE starts right after the length octets and the children before it, unchanged. */
  lemma SequenceChildAt(elements: seq<seq<Byte>>, i: nat)
    requires TotalLength(elements) < LengthBound && i < |elements|
    ensures var start := 1 + |DerLength(TotalLength(elements))| + TotalLength(elements[..i]);
      start + |elements[i]| <= |DerSequence(elements)| &&
      DerSequence(elements)[start..start + |elements[i]|] == elements[i]
  {
    ConcatSlice(elements, i);
    var a := |Concat(elements[..i])|;
    SliceAfter([SequenceTag] + DerLength(TotalLength(elements)), Concat(elements), a, a + |elements[i]|);
  }

  // ---------------------------------------------------------------------------------------------
  // Reading elements back: the inverse the builders are proved against.

  datatype Parsed = Parsed(tag: Byte, content: seq<Byte>, rest: seq<Byte>)

  /**
   * Definite-form length octets at the start of s, with the DER rules of section 10.1 of ITU-T X.690:
   * the long form only for lengths of 0x80 and more and without leading zero octets.
   * Gives the length and the number of octets read.
   */
  function ParseLength(s: seq<Byte>): Option<(nat, nat)>
  {
    if s == [] then None
    else if s[0] < 0x80 then Some((s[0], 1))
    else
      var k := s[0] - 0x80;
      if k == 0 || |s| < 1 + k || s[1] == 0 || Unsigned(s[1..1 + k]) < 0x80 then None
      else Some((Unsigned(s[1..1 + k]), 1 + k))
  }

  /** Splits one element off the front of s. */
  function ParseElement(s: seq<Byte>): Option<Parsed>
  {
    if s == [] then None
    else
      var (len, used) :- ParseLength(s[1..]);
      if |s| < 1 + used + len then None
      else Some(Parsed(s[0], s[1 + used..1 + used + len], s[1 + used + len..]))
  }

  /** The length octets read back as the length they encode, and they are DER-minimal. */
  lemma LengthOctetsRoundTrip(n: nat, tail: seq<Byte>)
    requires n < LengthBound
    ensures ParseLength(DerLength(n) + tail) == Some((n, |DerLength(n)|))
  {
    if n >= 0x80 {
      var m := MinimalBytes(n);
      UnsignedOfMinimalBytes(n);
      MinimalBytesLeadingOctet(n);
      MinimalBytesLength(n, 4);
      var s := DerLength(n) + tail;
      assert s[1..1 + |m|] == m;
    }
  }

  /** Reading an element gives back its tag and content, and leaves what follows it. */
  lemma ElementRoundTrip(tag: Byte, content: seq<Byte>, rest: seq<Byte>)
    requires |content| < LengthBound
    ensures ParseElement(Element(tag, content) + rest) == Some(Parsed(tag, content, rest))
  {
    var l := DerLength(|content|);
    var s := Element(tag, content) + rest;
    assert s[1..] == l + (content + rest);
    LengthOctetsRoundTrip(|content|, content + rest);
    assert s[1 + |l|..1 + |l| + |content|] == content;
    assert s[1 + |l| + |content|..] == rest;
  }

  /** An INTEGER built from an unsigned big-endian magnitude is non-negative and denotes that magnitude. */
  lemma IntegerDenotesUnsigned(bytes: seq<Byte>)
    ensures IntegerContent(bytes) == [] || IntegerContent(bytes)[0] < 0x80
    ensures Signed(IntegerContent(bytes)) == Unsigned(bytes)
    ensures NeedsLeadingZero(bytes) <==> |IntegerContent(bytes)| == |bytes| + 1
  {
    if NeedsLeadingZero(bytes) {
      UnsignedLeadingZero(bytes);
    }
  }
}
