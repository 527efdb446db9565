# JWK to PEM conversion, modelled in Dafny

This project models the transcoding core of the JWKS-to-PEM converter, `main.js`, class `JWKSConverter`. The converter does the following:

- It takes a JSON Web Key, or the first key of a JSON Web Key Set.
- It dispatches on `kty`, checks the required members and decodes the base64url parameters.
- It assembles an X.509 SubjectPublicKeyInfo in DER, for an RSA key or for an EC key on P-256, P-384 or P-521.
- It frames the result as a `PUBLIC KEY` PEM document with 64-character lines.

The modules follow that pipeline:

- `bytes.dfy` (`Bytes`): octets, unsigned and two's-complement big-endian values, the concatenation of octet strings.
- `wrappers.dfy` (`Wrappers`): `Option` and `Result`.
- `der.dfy` (`Der`): the DER builders `encodeDERLength`, `buildDERInteger`, `buildDERBitString` and `buildDERSequence`.
  - Each is a method that fills a fresh array the way the source fills its `Uint8Array`.
  - Each is proved equal to a specification function.
  - A tag-length-value reader (`ParseElement`) is the inverse the builders are proved against.
- `spki.dfy` (`Spki`): the curve registry `getCurveOID`, the assemblers `buildRSAPublicKeyInfo` and `buildECPublicKeyInfo`, and the uncompressed point.
  - The SPKI layouts follow section 4.1.2.7 of RFC 5280, appendix A.1.1 of RFC 8017, section 2.3.1 of RFC 3279 and sections 2.1.1 and 2.2 of RFC 5480.
  - A reader takes each layout apart again.
- `base64.dfy` (`Base64`): `btoa` as the base64 of section 4 of RFC 4648, and `atob` as the forgiving-base64 decode of the WHATWG Infra standard.
  - It also holds `bytesToBase64`, `base64ToBytes` (index loops), `base64urlToBase64`, and the unpadded base64url encoding JWK members use.
- `pem.dfy` (`Pem`): `match(/.{1,64}/g)`, `join('\n')`, the `BEGIN`/`END PUBLIC KEY` lines, and a PEM reader.
- `converter.dfy` (`Converter`): the JWK and document datatypes, key selection in `convertJWKS`, `jwkToPem`, `rsaJwkToPem` and `ecJwkToPem`, and the end-to-end round trips.

Numbers and encodings:

- Octets are integers 0..255.
- `b & 0x80` is read as `b >= 0x80`. `0x80 | k` is read as `0x80 + k`, since k is at most 4.
- `temp >>= 8` is a signed 32-bit shift, so DER lengths are taken below 2^31 (`Der.LengthBound`).
- That bound is met by bounding each base64url member of a JWK below 2^28 characters (`Converter.MemberBound`).

Two edge cases:

- Section 8.3.1 of ITU-T X.690 asks for at least one content octet in an INTEGER. `buildDERInteger` reads `bytes[0] & 0x80` as false for no octets and emits `02 00`, and so does `Der.BuildDERInteger`.
- The curve lookup of `getCurveOID` also accepts the names of members every object inherits (see Findings). `Spki.CurveOidAsWritten` models that lookup as written. The conversion uses the corrected three-curve registry `Spki.CurveOid` (see "## Left out").

## Model

| member | source | states |
|---|---|---|
| Der.EncodeDERLength | main.js:302-320 | the length octets equal DerLength(length): the loop that unshifts `temp & 0xff` and shifts `temp` right by 8 builds exactly the minimal big-endian octets of the length |
| Der.DerLengthForm | main.js:302-320 | below 0x80 the length is the single octet n; otherwise the first octet is 0x80 plus the count of octets that follow (1 to 4), the next octet is nonzero, and the following octets read big-endian give n |
| Der.LengthOctetsRoundTrip | main.js:302-320 | a DER length reader (definite form, minimal long form) reads the length octets back as n and consumes exactly them, whatever follows |
| Der.BuildDERInteger | main.js:251-269 | the output is tag 0x02, the length octets of the content length, then 0x00 followed by the input when its first octet has the high bit set, else the input unchanged |
| Der.IntegerDenotesUnsigned | main.js:251-269 | the INTEGER content never starts with a high bit set, its two's-complement value is the unsigned value of the input, and the leading zero is added exactly when the input needs it |
| Der.BuildDERBitString | main.js:271-283 | the output is tag 0x03, the length octets of input length + 1, the unused-bits octet 0x00, then the input |
| Der.BuildDERSequence | main.js:285-300 | the output is tag 0x30, the length octets of the summed child lengths, then the children concatenated in order |
| Der.WriteSequence | main.js:289-297 | the `for…of` loop that copies each child at the running offset leaves the buffer holding the tag, the length octets and the children's concatenation |
| Der.SequenceChildAt | main.js:293-297 | child i of a SEQUENCE appears unchanged at offset 1 + (length octets) + (lengths of the children before it) |
| Der.ElementRoundTrip | main.js:251-300 | reading an element the builders produce gives back its tag and content and leaves what follows it untouched |
| Spki.CurveOid | main.js:216-223 | a curve the registry knows has an OID of 2 to 63 octets; that the OID is one OBJECT IDENTIFIER element is CurveOidIsElement |
| Spki.CurveOidAsWritten | main.js:216-223 | the object-literal lookup as written: it agrees with the registry on every registered curve, and otherwise yields the zero octets `new Uint8Array(member)` makes of an inherited member, or nothing |
| Spki.CurveRegistry | main.js:216-223 | a curve is registered if and only if it is P-256, P-384 or P-521, and distinct curves map to distinct OIDs |
| Spki.CurveOidIsElement | main.js:218-220 | each registered OID is one complete OBJECT IDENTIFIER element (tag 0x06) with nothing after it |
| Spki.BuildRSAPublicKeyInfo | main.js:225-239 | the output is SEQUENCE(SEQUENCE(rsaEncryption OID, NULL), BIT STRING(SEQUENCE(INTEGER n, INTEGER e))) |
| Spki.BuildECPublicKeyInfo | main.js:241-249 | the output is SEQUENCE(SEQUENCE(id-ecPublicKey OID, curve OID), BIT STRING(point)) |
| Spki.BuildUncompressedPoint | main.js:198-202 | the point has length 1 + \|x\| + \|y\|, holds 0x04 at index 0, x from index 1 and y from index 1 + \|x\| |
| Spki.SpkiRoundTrip | main.js:236-238 | an SPKI reader gives back the AlgorithmIdentifier content and the key bits of the BIT STRING (no unused bits) |
| Spki.RsaSpkiRoundTrip | main.js:225-239 | the RSA layout reads back as an rsaEncryption SPKI whose two INTEGERs denote the unsigned modulus and exponent |
| Spki.EcSpkiRoundTrip | main.js:198-205 | the EC layout reads back as an id-ecPublicKey SPKI naming the curve OID, with the point 0x04 followed by x and y |
| Spki.InheritedNamesPassAsCurves | main.js:216-223 | the lookup as written accepts "toString" and "constructor" as curves with parameters that are not OBJECT IDENTIFIER elements, while the registry rejects both names |
| Base64.BytesToBase64 | main.js:355-361 | the loop that appends `String.fromCharCode` of each octet, followed by `btoa`, gives the base64 of the octets; its length is a multiple of 4 and is zero only for no octets |
| Base64.EncodeLength | main.js:355-361 | base64 text has four characters for every started group of three octets |
| Base64.Base64ToBytes | main.js:342-353 | the loop that copies `charCodeAt` of `atob`'s output gives exactly the octets `atob` decodes, and nothing where `atob` throws |
| Base64.AtobOfBtoa | main.js:342-361 | decoding the base64 of any octet string gives the octet string back |
| Base64.StripWhitespaceSpec | main.js:331-332 | `replace(/\s/g, '')` leaves no whitespace and keeps every other character as often as it occurs |
| Base64.StripWhitespaceAppend | main.js:331-332 | `replace(/\s/g, '')` works left to right: stripping a concatenation is stripping each part, so the kept characters stay in their order |
| Base64.Base64UrlToBase64Spec | main.js:330-340 | the result has a length that is a multiple of 4 and is the whitespace-free input with `-` and `_` mapped to `+` and `/`, followed only by `=`; no whitespace, `-` or `_` remains |
| Base64.Base64UrlToBase64 | main.js:334-336 | the result is as long as the whitespace-free input plus the 0 to 3 `=` that complete a group of four; its content is stated by Base64UrlToBase64Spec |
| Base64.UrlToStandardOfEncode | main.js:330-340 | converting the unpadded base64url of an octet string gives exactly its padded standard base64 |
| Base64.Base64UrlRoundTrip | main.js:163-168 | a member holding the unpadded base64url of an octet string decodes, through `base64urlToBase64` and `atob`, to that octet string |
| Pem.MatchesOfPlainText | main.js:175 | on text with no line terminators the matches of `/.{1,64}/g` concatenate back to the text; every line holds 1 to 64 characters and every line but the last exactly 64; there is one line per started block of 64 |
| Pem.MatchLinesOfBase64 | main.js:174-175 | `match` on the base64 of a non-empty DER never returns null, and its lines concatenate to that base64 |
| Pem.JoinedLinesDecodeAsOne | main.js:177-179 | the line feeds that `join('\n')` puts between lines are removed by the decoder |
| Pem.PemRoundTrip | main.js:174-179 | reading the framed PEM text of a DER octet string gives the octet string back |
| Converter.DecodeMember | main.js:163-168 | `base64ToBytes(base64urlToBase64(text))` as a method, equal to DecodeParameter, which decodes to at most \|text\| + 3 octets |
| Converter.ToPem | main.js:174-179 | `bytesToBase64`, the 64-character `match` and the framing lines give PemOf(der) |
| Converter.RsaJwkToPem | main.js:157-180 | missing or empty `n` or `e` is MissingRsaParameters; an undecodable member is InvalidBase64; otherwise the PEM text of the RSA SubjectPublicKeyInfo |
| Converter.EcJwkToPem | main.js:182-214 | missing or empty `x`, `y` or `crv` is MissingEcParameters; an unknown curve is UnsupportedCurve, checked before decoding; an undecodable member is InvalidBase64; otherwise the PEM text of the EC SubjectPublicKeyInfo |
| Converter.JwkToPem | main.js:146-155 | equals JwkPem and characterizes four of the errors in both directions: UnsupportedKeyType exactly when `kty` is neither "RSA" nor "EC", MissingRsaParameters and MissingEcParameters exactly on missing members of the declared type, UnsupportedCurve exactly on an unregistered curve |
| Converter.ConvertJwks | main.js:126-133 | the key is `keys[0]` when the document has `keys` and the document itself otherwise; a missing or non-object key is InvalidKey; an object key goes to jwkToPem |
| Converter.FirstKeyOnly | main.js:126-130 | a key set converts as its first key alone; an empty key set, or one whose first entry is not an object, is InvalidKey |
| Converter.DecodeParameterOfEncode | main.js:158-168 | the unpadded base64url of a non-empty octet string passes the presence check and decodes to that octet string |
| Converter.PemOfRoundTrip | main.js:174-179 | the PEM text of any non-empty DER reads back as that DER |
| Converter.RsaConversion | main.js:157-180 | an RSA JWK whose `n` and `e` encode two non-empty octet strings converts to the PEM text of their SubjectPublicKeyInfo |
| Converter.RsaRoundTrip | main.js:157-180 | the PEM text of that conversion reads back as the rsaEncryption SPKI whose INTEGERs denote the modulus and exponent as unsigned numbers |
| Converter.EcConversion | main.js:182-214 | an EC JWK on a registered curve whose `x` and `y` encode two non-empty octet strings converts to the PEM text of its SubjectPublicKeyInfo |
| Converter.EcRoundTrip | main.js:182-214 | the PEM text of that conversion reads back as the id-ecPublicKey SPKI naming the curve, with the point 0x04 followed by x and y |

## Left out

- The DOM and UI glue: event listeners and their debounce timers, `clearAll`, `copyPem`, `fallbackCopyToClipboard`, `downloadPem`, `showToast` and the `output.innerHTML` writes. These are I/O with no stateable logic.
- `JSON.parse` and the empty-input check before it. The parsed input is a `Converter.Document`:
  - `KeySet` is a document whose `keys` member is truthy, whatever its type. Its sequence starts with the value of `keys[0]` and is empty when that is undefined. A JSON array document belongs here: its inherited `keys` method is truthy and has no element 0, so it gives InvalidKey. A `keys` object with a member "0" also belongs here, with that member as its first entry;
  - `Single` is a document whose `keys` member is undefined or falsy. The document itself is the key;
  - a key that is not an object, or is `null`, is a `NonObject` value.
- A document that is `null`, where `jwkData.keys` throws a `TypeError`, is left out.
- JWK members that are not strings: numbers, booleans and nested objects. Each member is either absent or a string.
- `getKeyTypeDisplay`: it is display-only and never called by the conversion.
- The wording of error messages. Errors are the `Converter.Error` enumeration; `atob`'s own messages are folded into `InvalidBase64`.
- Der.EncodeDERLength: lengths of 2^31 and more are excluded by a precondition. There, `>>=` works on a signed 32-bit value and the source's loop misbehaves.
- Converter.JwkToPem: the base64url members `n`, `e`, `x` and `y` are bounded below 2^28 characters (`WithinBounds`), so every DER length stays below 2^31.
- Spki.BuildRSAPublicKeyInfo: key material is bounded below 2^30 octets (`KeyBound`) for the same reason.
- Spki.BuildECPublicKeyInfo: the point is bounded below 2^30 octets (`KeyBound`) for the same reason. The curve parameter is bounded below 64 octets; the source passes it only a registered OID of at most 10 octets, or 0 to 2 octets from the lookup as written.
- Der.BuildDERInteger, Der.BuildDERBitString and Der.BuildDERSequence: their contents are bounded below 2^31 octets (`LengthBound`), the limit of `encodeDERLength`. Every value the conversion passes them meets it, because the members of a JWK are bounded below 2^28 characters.
- Converter.EcJwkToPem: a `crv` that names a member every object inherits ("toString", "constructor", "__proto__" and the others of `Spki.InheritedMemberLength`) gives UnsupportedCurve in the model. The source passes its `!curveOid` test with it (main.js:190) and builds a PEM whose curve parameter is `new Uint8Array(member)` (main.js:244). The model uses the corrected registry `Spki.CurveOid`, and `Spki.CurveOidAsWritten` with `Spki.InheritedNamesPassAsCurves` records the code as written.
- Converter.JwkToPem: its UnsupportedCurve if-and-only-if is stated for the corrected registry `Spki.CurveOid`, not for the lookup as written.
- Base64.Base64UrlToBase64: strings are sequences of Unicode code points, while JavaScript's `str.length` (main.js:335) and the regular expression `.` (main.js:175) count UTF-16 code units. This changes the `=` padding, and the cutting of `Pem.Matches` into lines, only for text holding characters beyond U+FFFF. `atob` rejects such text, and base64 text never contains it.
- Any cryptographic validation, such as coordinate length against the curve. The source performs none.
- Pem.MatchesOfPlainText: the full `/.{1,64}/g` on text with line terminators is modelled by `Matches`. The properties are proved only for text without them, which is all that base64 text can be.
- Updates of the `Uint8Array` in place are modelled on local fresh arrays, so there is no aliasing to capture. Each builder returns the filled array's contents.

## Findings

| source | as written | input that shows it | evidently intended | confidence | as-written member | corrected member |
|---|---|---|---|---|---|---|
| main.js:216-223 | `curveOIDs[curve]` reads a property of an object literal, so a curve name that names a member inherited from `Object.prototype` returns that member. The member is truthy (a function, or `Object.prototype` for `__proto__`), so it passes the `!curveOid` test, and `new Uint8Array(member)` makes `member.length` zero octets of it | an EC JWK with `"crv": "toString"` gives an empty curve parameter; `"crv": "constructor"` gives the single octet 00; neither is an OBJECT IDENTIFIER element, and a PEM is produced instead of an unsupported-curve error | only P-256, P-384 and P-521 are accepted, each with its OID; any other name is an unsupported curve | medium, not executed | Spki.CurveOidAsWritten, Spki.InheritedNamesPassAsCurves | Spki.CurveOid, Spki.CurveRegistry |
