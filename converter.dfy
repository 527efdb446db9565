/**
 * The conversion itself: key selection from a parsed JWK or JWKS document, dispatch on `kty`,
 * the required-parameter checks, decoding of the base64url parameters, SubjectPublicKeyInfo
 * assembly and PEM framing (`convertJWKS`, `jwkToPem`, `rsaJwkToPem`, `ecJwkToPem`).
 */
module Converter {
  import opened Bytes
  import opened Wrappers
  import opened Der
  import opened Spki
  import opened Base64
  import opened Pem

  /** The members of a JWK the converter consults (RFC 7518 sections 6.2.1 and 6.3.1), each absent or a string. */
  datatype Jwk = Jwk(
    kty: Option<string>,
    n: Option<string>,
    e: Option<string>,
    crv: Option<string>,
    x: Option<string>,
    y: Option<string>)

  /** The key value picked from the document: an object (arrays included, which have no members) or anything else. */
  datatype Value = Object(jwk: Jwk) | NonObject

  /**
   * The parsed input, split the way `jwkData.keys ? jwkData.keys[0] : jwkData` splits it.
   * KeySet: `jwkData.keys` is truthy, whatever its type; `keys` starts with the value of
   * `jwkData.keys[0]` and is empty when that is undefined. This includes a JSON array
   * document, whose inherited `keys` method is truthy and has no element 0, and a `keys`
   * object with a member "0". Single: `jwkData.keys` is undefined or falsy, and the
   * document itself is the key.
   */
  datatype Document = KeySet(keys: seq<Value>) | Single(value: Value)

  /** The failures the converter reports, one per `throw` in the source. */
  datatype Error =
    | InvalidKey
    | UnsupportedKeyType(kty: Option<string>)
    | MissingRsaParameters
    | MissingEcParameters
    | UnsupportedCurve(crv: string)
    | InvalidBase64

  /** A member for which `!jwk.m` is false: present and not the empty string. */
  predicate Present(member: Option<string>)
  {
    member.Some? && member.value != ""
  }

  /** Bound on the length of the base64url members, so that every DER length stays below LengthBound. */
  const MemberBound: nat := 0x1000_0000

  predicate Bounded(member: Option<string>)
  {
    member.None? || |member.value| < MemberBound
  }

  predicate WithinBounds(jwk: Jwk)
  {
    Bounded(jwk.n) && Bounded(jwk.e) && Bounded(jwk.x) && Bounded(jwk.y)
  }

  /** `base64ToBytes(base64urlToBase64(text))`; None where `atob` throws. */
  function DecodeParameter(text: string): (r: Option<seq<Byte>>)
    ensures r.Some? ==> |r.value| <= |text| + 3
  {
    ForgivingDecode(Base64UrlToBase64(text))
  }

  /** The PEM text of a DER octet string: its base64 cut by `match(/.{1,64}/g)` and framed. */
  function PemOf(der: seq<Byte>): string
    requires der != []
  {
    MatchLinesOfBase64(der);
    FramePem(MatchLines(Encode(der)).value)
  }

  function RsaJwkPem(jwk: Jwk): Result<string, Error>
    requires WithinBounds(jwk)
  {
    if !Present(jwk.n) || !Present(jwk.e) then Err(MissingRsaParameters)
    else
      var nBytes := DecodeParameter(jwk.n.value);
      var eBytes := DecodeParameter(jwk.e.value);
      if nBytes.None? || eBytes.None? then Err(InvalidBase64)
      else Ok(PemOf(RsaSpki(nBytes.value, eBytes.value)))
  }

  function EcJwkPem(jwk: Jwk): Result<string, Error>
    requires WithinBounds(jwk)
  {
    if !Present(jwk.x) || !Present(jwk.y) || !Present(jwk.crv) then Err(MissingEcParameters)
    else
      var curveOid := CurveOid(jwk.crv.value);
      if curveOid.None? then Err(UnsupportedCurve(jwk.crv.value))
      else
        var x := DecodeParameter(jwk.x.value);
        var y := DecodeParameter(jwk.y.value);
        if x.None? || y.None? then Err(InvalidBase64)
        else Ok(PemOf(EcSpki(UncompressedPoint(x.value, y.value), curveOid.value)))
  }

  function JwkPem(jwk: Jwk): Result<string, Error>
    requires WithinBounds(jwk)
  {
    if jwk.kty == Some("RSA") then RsaJwkPem(jwk)
    else if jwk.kty == Some("EC") then EcJwkPem(jwk)
    else Err(UnsupportedKeyType(jwk.kty))
  }

  /** `jwkData.keys ? jwkData.keys[0] : jwkData`, then the object check. */
  function SelectKey(doc: Document): Result<Jwk, Error>
  {
    var key := match doc
      case KeySet(keys) => if keys == [] then NonObject else keys[0]
      case Single(value) => value;
    if key.NonObject? then Err(InvalidKey) else Ok(key.jwk)
  }

  predicate DocumentWithinBounds(doc: Document)
  {
    SelectKey(doc).Ok? ==> WithinBounds(SelectKey(doc).value)
  }

  function Convert(doc: Document): Result<string, Error>
    requires DocumentWithinBounds(doc)
  {
    var jwk :- SelectKey(doc);
    JwkPem(jwk)
  }

  // ---------------------------------------------------------------------------------------------
  // The operations

  /** `this.base64ToBytes(this.base64urlToBase64(text))`, the decoding both key types apply to each member. */
  method DecodeMember(text: string) returns (r: Option<seq<Byte>>)
    ensures r == DecodeParameter(text)
  {
    var base64 := Base64UrlToBase64(text);
    r := Base64ToBytes(base64);
  }

  /** The tail both key types share: `bytesToBase64`, `match(/.{1,64}/g)` and the framing lines. */
  method ToPem(der: seq<Byte>) returns (pem: string)
    requires der != []
    ensures pem == PemOf(der)
  {
    var base64Key := BytesToBase64(der);
    MatchLinesOfBase64(der);
    var pemLines := MatchLines(base64Key);
    pem := FramePem(pemLines.value);
  }

  /** `rsaJwkToPem`. */
  method RsaJwkToPem(jwk: Jwk) returns (r: Result<string, Error>)
    requires WithinBounds(jwk)
    ensures r == RsaJwkPem(jwk)
  {
    if !Present(jwk.n) || !Present(jwk.e) {
      return Err(MissingRsaParameters);
    }
    var nBytes := DecodeMember(jwk.n.value);
    if nBytes.None? {
      return Err(InvalidBase64);
    }
    var eBytes := DecodeMember(jwk.e.value);
    if eBytes.None? {
      return Err(InvalidBase64);
    }
    var publicKeyInfo := BuildRSAPublicKeyInfo(nBytes.value, eBytes.value);
    var pem := ToPem(publicKeyInfo);
    r := Ok(pem);
  }

  /** `ecJwkToPem`. */
  method EcJwkToPem(jwk: Jwk) returns (r: Result<string, Error>)
    requires WithinBounds(jwk)
    ensures r == EcJwkPem(jwk)
  {
    if !Present(jwk.x) || !Present(jwk.y) || !Present(jwk.crv) {
      return Err(MissingEcParameters);
    }
    var curve := jwk.crv.value;
    var curveOid := CurveOid(curve);
    if curveOid.None? {
      return Err(UnsupportedCurve(curve));
    }
    var x := DecodeMember(jwk.x.value);
    if x.None? {
      return Err(InvalidBase64);
    }
    var y := DecodeMember(jwk.y.value);
    if y.None? {
      return Err(InvalidBase64);
    }
    var publicKey := BuildUncompressedPoint(x.value, y.value);
    var publicKeyInfo := BuildECPublicKeyInfo(publicKey, curveOid.value);
    var pem := ToPem(publicKeyInfo);
    r := Ok(pem);
  }

  /** `jwkToPem`: dispatch on `kty`. */
  method JwkToPem(jwk: Jwk) returns (r: Result<string, Error>)
    requires WithinBounds(jwk)
    ensures r == JwkPem(jwk)
    ensures r.Err? && r.error.UnsupportedKeyType? <==> jwk.kty != Some("RSA") && jwk.kty != Some("EC")
    ensures r.Err? && r.error.MissingRsaParameters? <==> jwk.kty == Some("RSA") && (!Present(jwk.n) || !Present(jwk.e))
    ensures r.Err? && r.error.MissingEcParameters? <==>
      jwk.kty == Some("EC") && (!Present(jwk.x) || !Present(jwk.y) || !Present(jwk.crv))
    ensures r.Err? && r.error.UnsupportedCurve? <==>
      jwk.kty == Some("EC") && Present(jwk.x) && Present(jwk.y) && Present(jwk.crv) && CurveOid(jwk.crv.value).None?
  {
    if jwk.kty == Some("RSA") {
      r := RsaJwkToPem(jwk);
    } else if jwk.kty == Some("EC") {
      r := EcJwkToPem(jwk);
    } else {
      r := Err(UnsupportedKeyType(jwk.kty));
    }
  }

  /** The conversion step of `convertJWKS`, from the parsed document to the PEM text or the error. */
  method ConvertJwks(doc: Document) returns (r: Result<string, Error>)
    requires DocumentWithinBounds(doc)
    ensures r == Convert(doc)
  {
    var key := SelectKey(doc);
    if key.Err? {
      return Err(key.error);
    }
    r := JwkToPem(key.value);
  }

  // ---------------------------------------------------------------------------------------------
  // What a conversion promises

  /** Only the first key of a key set is converted; an empty key set is an invalid key. */
  lemma FirstKeyOnly(first: Jwk, others: seq<Value>)
    requires WithinBounds(first)
    ensures Convert(KeySet([Object(first)] + others)) == Convert(Single(Object(first))) == JwkPem(first)
    ensures Convert(KeySet([])) == Err(InvalidKey)
    ensures Convert(KeySet([NonObject] + others)) == Err(InvalidKey)
  {
  }

  /** A member holding the unpadded base64url of a non-empty octet string is present and decodes to that octet string. */
  lemma DecodeParameterOfEncode(b: seq<Byte>)
    requires b != []
    ensures Present(Some(Base64UrlEncode(b)))
    ensures DecodeParameter(Base64UrlEncode(b)) == Some(b)
  {
    Base64UrlRoundTrip(b);
  }

  /** The PEM text of a DER octet string reads back as that octet string. */
  lemma PemOfRoundTrip(der: seq<Byte>)
    requires der != []
    ensures DecodePem(PemOf(der)) == Some(der)
  {
    PemRoundTrip(der);
  }

  /** An RSA JWK whose `n` and `e` hold the unpadded base64url of two non-empty octet strings converts to the PEM text of their SubjectPublicKeyInfo. */
  lemma RsaConversion(jwk: Jwk, modulus: seq<Byte>, exponent: seq<Byte>)
    requires WithinBounds(jwk) && jwk.kty == Some("RSA")
    requires modulus != [] && exponent != []
    requires jwk.n == Some(Base64UrlEncode(modulus)) && jwk.e == Some(Base64UrlEncode(exponent))
    ensures DecodeParameter(jwk.n.value) == Some(modulus) && DecodeParameter(jwk.e.value) == Some(exponent)
    ensures JwkPem(jwk) == Ok(PemOf(RsaSpki(modulus, exponent)))
  {
    DecodeParameterOfEncode(modulus);
    DecodeParameterOfEncode(exponent);
  }

  /**
   * The same conversion read back: the PEM text holds an rsaEncryption SubjectPublicKeyInfo whose
   * INTEGERs denote the two octet strings as unsigned big-endian numbers.
   */
  lemma RsaRoundTrip(jwk: Jwk, modulus: seq<Byte>, exponent: seq<Byte>)
    requires WithinBounds(jwk) && jwk.kty == Some("RSA")
    requires modulus != [] && exponent != []
    requires jwk.n == Some(Base64UrlEncode(modulus)) && jwk.e == Some(Base64UrlEncode(exponent))
    ensures JwkPem(jwk).Ok? && |modulus| + |exponent| < KeyBound
    ensures DecodePem(JwkPem(jwk).value) == Some(RsaSpki(modulus, exponent))
    ensures ParseRsaSpki(RsaSpki(modulus, exponent)) == Some((IntegerContent(modulus), IntegerContent(exponent)))
    ensures Signed(IntegerContent(modulus)) == Unsigned(modulus) && Signed(IntegerContent(exponent)) == Unsigned(exponent)
  {
    RsaConversion(jwk, modulus, exponent);
    PemOfRoundTrip(RsaSpki(modulus, exponent));
    RsaSpkiRoundTrip(modulus, exponent);
  }

  /** An EC JWK on a registered curve whose `x` and `y` hold the unpadded base64url of two non-empty octet strings converts to the PEM text of its SubjectPublicKeyInfo. */
  lemma EcConversion(jwk: Jwk, x: seq<Byte>, y: seq<Byte>)
    requires WithinBounds(jwk) && jwk.kty == Some("EC")
    requires jwk.crv.Some? && CurveOid(jwk.crv.value).Some?
    requires x != [] && y != []
    requires jwk.x == Some(Base64UrlEncode(x)) && jwk.y == Some(Base64UrlEncode(y))
    ensures DecodeParameter(jwk.x.value) == Some(x) && DecodeParameter(jwk.y.value) == Some(y)
    ensures JwkPem(jwk) == Ok(PemOf(EcSpki(UncompressedPoint(x, y), CurveOid(jwk.crv.value).value)))
  {
    DecodeParameterOfEncode(x);
    DecodeParameterOfEncode(y);
    assert Present(jwk.crv);
    assert JwkPem(jwk) == EcJwkPem(jwk);
  }

  /**
   * The same conversion read back: the PEM text holds an id-ecPublicKey SubjectPublicKeyInfo naming
   * the curve, with the point 0x04 ‖ x ‖ y.
   */
  lemma EcRoundTrip(jwk: Jwk, x: seq<Byte>, y: seq<Byte>)
    requires WithinBounds(jwk) && jwk.kty == Some("EC")
    requires jwk.crv.Some? && CurveOid(jwk.crv.value).Some?
    requires x != [] && y != []
    requires jwk.x == Some(Base64UrlEncode(x)) && jwk.y == Some(Base64UrlEncode(y))
    ensures JwkPem(jwk).Ok? && |UncompressedPoint(x, y)| < KeyBound
    ensures DecodePem(JwkPem(jwk).value) == Some(EcSpki(UncompressedPoint(x, y), CurveOid(jwk.crv.value).value))
    ensures ParseEcSpki(EcSpki(UncompressedPoint(x, y), CurveOid(jwk.crv.value).value))
         == Some((CurveOid(jwk.crv.value).value, [0x04] + x + y))
  {
    EcConversion(jwk, x, y);
    var der := EcSpki(UncompressedPoint(x, y), CurveOid(jwk.crv.value).value);
    PemOfRoundTrip(der);
    EcSpkiRoundTrip(x, y, CurveOid(jwk.crv.value).value);
  }
}
