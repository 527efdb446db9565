/**
 * SubjectPublicKeyInfo assembly (section 4.1.2.7 of RFC 5280) for RSA keys (RFC 8017 appendix A.1.1,
 * RFC 3279 section 2.3.1) and EC keys on named curves (RFC 5480 sections 2.1.1 and 2.2), and a reader
 * that takes the structures apart again.
 */
module Spki {
  import opened Bytes
  import opened Wrappers
  import opened Der

  /** rsaEncryption, 1.2.840.113549.1.1.1, as a complete OBJECT IDENTIFIER element. */
  const RsaEncryptionOid: seq<Byte> := [0x06, 0x09, 0x2a, 0x86, 0x48, 0x86, 0xf7, 0x0d, 0x01, 0x01, 0x01]
  /** The NULL element that rsaEncryption takes as its parameters. */
  const NullParameters: seq<Byte> := [0x05, 0x00]
  /** id-ecPublicKey, 1.2.840.10045.2.1. */
  const EcPublicKeyOid: seq<Byte> := [0x06, 0x07, 0x2a, 0x86, 0x48, 0xce, 0x3d, 0x02, 0x01]
  /** secp256r1, 1.2.840.10045.3.1.7. */
  const Secp256r1Oid: seq<Byte> := [0x06, 0x08, 0x2a, 0x86, 0x48, 0xce, 0x3d, 0x03, 0x01, 0x07]
  /** secp384r1, 1.3.132.0.34. */
  const Secp384r1Oid: seq<Byte> := [0x06, 0x05, 0x2b, 0x81, 0x04, 0x00, 0x22]
  /** secp521r1, 1.3.132.0.35. */
  const Secp521r1Oid: seq<Byte> := [0x06, 0x05, 0x2b, 0x81, 0x04, 0x00, 0x23]

  /** Bound on the key material an assembler takes, so that every element it builds stays below LengthBound. */
  const KeyBound: nat := 0x4000_0000

  /** `getCurveOID`: the three named curves the converter knows. */
  function CurveOid(curve: string): (r: Option<seq<Byte>>)
    ensures r.Some? ==> 2 <= |r.value| < 0x40
  {
    if curve == "P-256" then Some(Secp256r1Oid)
    else if curve == "P-384" then Some(Secp384r1Oid)
    else if curve == "P-521" then Some(Secp521r1Oid)
    else None
  }

  /** Exactly P-256, P-384 and P-521 are registered, each to its own OBJECT IDENTIFIER. */
  lemma CurveRegistry(curve: string, other: string)
    ensures CurveOid(curve).Some? <==> curve in {"P-256", "P-384", "P-521"}
    ensures CurveOid(curve).Some? && CurveOid(other).Some? && curve != other ==>
      CurveOid(curve).value != CurveOid(other).value
  {
    if CurveOid(curve).Some? && CurveOid(other).Some? && curve != other {
      var a, b := CurveOid(curve).value, CurveOid(other).value;
      assert a[|a| - 1] != b[|b| - 1] || |a| != |b|;
    }
  }

  /** Every registered curve maps to one complete OBJECT IDENTIFIER element. */
  lemma CurveOidIsElement(curve: string)
    requires CurveOid(curve).Some?
    ensures ParseElement(CurveOid(curve).value) == Some(Parsed(0x06, CurveOid(curve).value[2..], []))
  {
    var oid := CurveOid(curve).value;
    assert Element(0x06, oid[2..]) + [] == oid;
    ElementRoundTrip(0x06, oid[2..], []);
  }

  /**
   * The members every object literal inherits from `Object.prototype`, each with the number of
   * octets `new Uint8Array(member)` holds: a function gives its `length` (its parameter count), and
   * `__proto__` gives `Object.prototype` itself, which has no `length`.
   */
  function InheritedMemberLength(name: string): (r: Option<nat>)
    ensures r.Some? ==> r.value <= 2
  {
    if name in {"constructor", "hasOwnProperty", "isPrototypeOf", "propertyIsEnumerable", "__lookupGetter__", "__lookupSetter__"} then Some(1)
    else if name in {"__defineGetter__", "__defineSetter__"} then Some(2)
    else if name in {"toString", "toLocaleString", "valueOf", "__proto__"} then Some(0)
    else None
  }

  /**
   * `getCurveOID` as written: `curveOIDs[curve]` is a property read on an object literal, so a
   * curve name that names an inherited member reads that member, which is truthy and passes the
   * `!curveOid` test; `new Uint8Array(member)` then makes that many zero octets of it.
   */
  function CurveOidAsWritten(curve: string): (r: Option<seq<Byte>>)
    ensures CurveOid(curve).Some? ==> r == CurveOid(curve)
  {
    if CurveOid(curve).Some? then CurveOid(curve)
    else
      match InheritedMemberLength(curve)
      case Some(k) => Some(seq(k, _ => 0))
      case None => None
  }

  /**
   * The lookup as written accepts "toString" and "constructor" as curves and gives them a curve
   * parameter that is no OBJECT IDENTIFIER at all, where the registry rejects both names.
   */
  lemma InheritedNamesPassAsCurves()
    ensures CurveOidAsWritten("toString") == Some([]) && CurveOid("toString") == None
    ensures CurveOidAsWritten("constructor") == Some([0]) && CurveOid("constructor") == None
    ensures ParseElement([]) == None && ParseElement([0]) == None
  {
    assert CurveOid("toString") == None by {
      assert |"toString"| == 8 != |"P-256"| == |"P-384"| == |"P-521"|;
    }
    assert InheritedMemberLength("toString") == Some(0) by {
      assert |"toString"| == 8;
    }
    var zeros: seq<Byte> := seq(0, _ => 0);
    assert |zeros| == 0;
    assert CurveOidAsWritten("toString") == Some(zeros);
    assert CurveOid("constructor") == None by {
      assert |"constructor"| == 11 != |"P-256"| == |"P-384"| == |"P-521"|;
    }
    assert InheritedMemberLength("constructor") == Some(1);
    assert seq(1, _ => 0) == [0];
  }

  // ---------------------------------------------------------------------------------------------
  // The layouts

  /** AlgorithmIdentifier: SEQUENCE of the algorithm OID and its parameters. */
  function AlgorithmIdentifier(oid: seq<Byte>, parameters: seq<Byte>): (r: seq<Byte>)
    requires |oid| + |parameters| < 0x80
    ensures |r| == 2 + |oid| + |parameters|
  {
    ConcatPair(oid, parameters);
    DerSequence([oid, parameters])
  }

  /** SubjectPublicKeyInfo: SEQUENCE of the AlgorithmIdentifier and the key as a BIT STRING. */
  function SubjectPublicKeyInfo(algorithm: seq<Byte>, subjectPublicKey: seq<Byte>): (r: seq<Byte>)
    requires |algorithm| < 0x100 && |subjectPublicKey| < KeyBound + 0x100
    ensures |r| > 0 && r[0] == SequenceTag
  {
    ConcatPair(algorithm, DerBitString(subjectPublicKey));
    DerSequence([algorithm, DerBitString(subjectPublicKey)])
  }

  /** RSAPublicKey: SEQUENCE of the modulus and exponent INTEGERs. */
  function RsaPublicKey(n: seq<Byte>, e: seq<Byte>): (r: seq<Byte>)
    requires |n| + |e| < KeyBound
    ensures |r| < |n| + |e| + 0x20
  {
    ConcatPair(DerInteger(n), DerInteger(e));
    DerSequence([DerInteger(n), DerInteger(e)])
  }

  function RsaSpki(n: seq<Byte>, e: seq<Byte>): seq<Byte>
    requires |n| + |e| < KeyBound
  {
    SubjectPublicKeyInfo(AlgorithmIdentifier(RsaEncryptionOid, NullParameters), RsaPublicKey(n, e))
  }

  /** The uncompressed ECPoint of section 2.2 of RFC 5480. */
  function UncompressedPoint(x: seq<Byte>, y: seq<Byte>): seq<Byte>
  {
    [0x04] + x + y
  }

  function EcSpki(point: seq<Byte>, curveOid: seq<Byte>): seq<Byte>
    requires |point| < KeyBound && |curveOid| < 0x40
  {
    SubjectPublicKeyInfo(AlgorithmIdentifier(EcPublicKeyOid, curveOid), point)
  }

  // ---------------------------------------------------------------------------------------------
  // The assemblers, built from the DER builder methods

  /** `buildRSAPublicKeyInfo`. */
  method BuildRSAPublicKeyInfo(nBytes: seq<Byte>, eBytes: seq<Byte>) returns (r: seq<Byte>)
    requires |nBytes| + |eBytes| < KeyBound
    ensures r == RsaSpki(nBytes, eBytes)
  {
    var nInteger := BuildDERInteger(nBytes);
    var eInteger := BuildDERInteger(eBytes);
    ConcatPair(nInteger, eInteger);
    var rsaPublicKey := BuildDERSequence([nInteger, eInteger]);
    ConcatPair(RsaEncryptionOid, NullParameters);
    var algorithmId := BuildDERSequence([RsaEncryptionOid, NullParameters]);
    var publicKeyBitString := BuildDERBitString(rsaPublicKey);
    ConcatPair(algorithmId, publicKeyBitString);
    r := BuildDERSequence([algorithmId, publicKeyBitString]);
  }

  /** `buildECPublicKeyInfo`. */
  method BuildECPublicKeyInfo(publicKey: seq<Byte>, curveOid: seq<Byte>) returns (r: seq<Byte>)
    requires |publicKey| < KeyBound && |curveOid| < 0x40
    ensures r == EcSpki(publicKey, curveOid)
  {
    ConcatPair(EcPublicKeyOid, curveOid);
    var algorithmId := BuildDERSequence([EcPublicKeyOid, curveOid]);
    var publicKeyBitString := BuildDERBitString(publicKey);
    ConcatPair(algorithmId, publicKeyBitString);
    r := BuildDERSequence([algorithmId, publicKeyBitString]);
  }

  /** The point of `ecJwkToPem`: 0x04 at index 0, x from index 1, y from index 1 + |x|. */
  method BuildUncompressedPoint(x: seq<Byte>, y: seq<Byte>) returns (p: seq<Byte>)
    ensures |p| == 1 + |x| + |y| && p[0] == 0x04
    ensures p[1..1 + |x|] == x && p[1 + |x|..] == y
    ensures p == UncompressedPoint(x, y)
  {
    var publicKey := NewBuffer(0x04, x, |y|);
    SetBytes(publicKey, y, 1 + |x|);
    assert publicKey[..] == publicKey[..1 + |x| + |y|];
    p := publicKey[..];
  }

  // ---------------------------------------------------------------------------------------------
  // Reading the structures back, as an X.509 parser does

  /** One element with the given tag off the front of s: its content and what follows it. */
  function Expect(s: seq<Byte>, tag: Byte): Option<(seq<Byte>, seq<Byte>)>
  {
    var p :- ParseElement(s);
    if p.tag == tag then Some((p.content, p.rest)) else None
  }

  /** A SubjectPublicKeyInfo: the content of its AlgorithmIdentifier and the key bits of its BIT STRING (no unused bits). */
  function ParseSpki(der: seq<Byte>): Option<(seq<Byte>, seq<Byte>)>
  {
    var spki :- Expect(der, SequenceTag);
    if spki.1 != [] then None
    else
      var algorithm :- Expect(spki.0, SequenceTag);
      var bits :- Expect(algorithm.1, BitStringTag);
      if bits.1 != [] || bits.0 == [] || bits.0[0] != 0 then None
      else Some((algorithm.0, bits.0[1..]))
  }

  /** An rsaEncryption SubjectPublicKeyInfo: the contents of its modulus and exponent INTEGERs. */
  function ParseRsaSpki(der: seq<Byte>): Option<(seq<Byte>, seq<Byte>)>
  {
    var info :- ParseSpki(der);
    if info.0 != RsaEncryptionOid + NullParameters then None
    else
      var rsaKey :- Expect(info.1, SequenceTag);
      if rsaKey.1 != [] then None
      else
        var modulus :- Expect(rsaKey.0, IntegerTag);
        var exponent :- Expect(modulus.1, IntegerTag);
        if exponent.1 != [] then None else Some((modulus.0, exponent.0))
  }

  /** An id-ecPublicKey SubjectPublicKeyInfo: the curve parameter that follows the OID, and the ECPoint. */
  function ParseEcSpki(der: seq<Byte>): Option<(seq<Byte>, seq<Byte>)>
  {
    var info :- ParseSpki(der);
    if |info.0| < |EcPublicKeyOid| || info.0[..|EcPublicKeyOid|] != EcPublicKeyOid then None
    else Some((info.0[|EcPublicKeyOid|..], info.1))
  }

  lemma SpkiRoundTrip(oid: seq<Byte>, parameters: seq<Byte>, subjectPublicKey: seq<Byte>)
    requires |oid| + |parameters| < 0x80 && |subjectPublicKey| < KeyBound + 0x100
    ensures ParseSpki(SubjectPublicKeyInfo(AlgorithmIdentifier(oid, parameters), subjectPublicKey))
         == Some((oid + parameters, subjectPublicKey))
  {
    var algorithm := AlgorithmIdentifier(oid, parameters);
    ConcatPair(oid, parameters);
    var bits := DerBitString(subjectPublicKey);
    ConcatPair(algorithm, bits);
    var der := SubjectPublicKeyInfo(algorithm, subjectPublicKey);
    assert der == Element(SequenceTag, algorithm + bits);
    ElementRoundTrip(SequenceTag, algorithm + bits, []);
    assert der + [] == der;
    assert algorithm == Element(SequenceTag, oid + parameters);
    ElementRoundTrip(SequenceTag, oid + parameters, bits);
    ElementRoundTrip(BitStringTag, [0] + subjectPublicKey, []);
    assert bits + [] == bits;
    assert ([0] + subjectPublicKey)[1..] == subjectPublicKey;
  }

  /** The RSA layout reads back as the two INTEGERs, which denote the unsigned modulus and exponent. */
  lemma RsaSpkiRoundTrip(n: seq<Byte>, e: seq<Byte>)
    requires |n| + |e| < KeyBound
    ensures ParseRsaSpki(RsaSpki(n, e)) == Some((IntegerContent(n), IntegerContent(e)))
    ensures Signed(IntegerContent(n)) == Unsigned(n) && Signed(IntegerContent(e)) == Unsigned(e)
  {
    SpkiRoundTrip(RsaEncryptionOid, NullParameters, RsaPublicKey(n, e));
    var a, b := DerInteger(n), DerInteger(e);
    ConcatPair(a, b);
    ElementRoundTrip(SequenceTag, a + b, []);
    assert RsaPublicKey(n, e) + [] == RsaPublicKey(n, e);
    ElementRoundTrip(IntegerTag, IntegerContent(n), b);
    ElementRoundTrip(IntegerTag, IntegerContent(e), []);
    assert b + [] == b;
    IntegerDenotesUnsigned(n);
    IntegerDenotesUnsigned(e);
  }

  /** The EC layout reads back as the curve's OID and the point 0x04 ‖ x ‖ y. */
  lemma EcSpkiRoundTrip(x: seq<Byte>, y: seq<Byte>, curveOid: seq<Byte>)
    requires 1 + |x| + |y| < KeyBound && |curveOid| < 0x40
    ensures ParseEcSpki(EcSpki(UncompressedPoint(x, y), curveOid)) == Some((curveOid, [0x04] + x + y))
  {
    SpkiRoundTrip(EcPublicKeyOid, curveOid, UncompressedPoint(x, y));
    assert (EcPublicKeyOid + curveOid)[..|EcPublicKeyOid|] == EcPublicKeyOid;
    assert (EcPublicKeyOid + curveOid)[|EcPublicKeyOid|..] == curveOid;
  }
}
