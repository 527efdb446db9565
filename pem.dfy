/**
 * PEM framing of a SubjectPublicKeyInfo (sections 2 and 13 of RFC 7468): the base64 text cut into
 * lines of 64 characters by `match(/.{1,64}/g)`, joined with line feeds and put between the
 * `BEGIN PUBLIC KEY` and `END PUBLIC KEY` lines.
 */
module Pem {
  import opened Bytes
  import opened Wrappers
  import opened Base64

  const Header: string := "-----BEGIN PUBLIC KEY-----"
  const Footer: string := "-----END PUBLIC KEY-----"
  const LineWidth: nat := 64

  /** The characters `.` does not match in a JavaScript regular expression. */
  predicate IsLineTerminator(c: char)
  {
    c == '\n' || c == '\r' || c as int == 0x2028 || c as int == 0x2029
  }

  predicate NoLineTerminator(s: string)
  {
    forall i :: 0 <= i < |s| ==> !IsLineTerminator(s[i])
  }

  /** How many characters `.{1,limit}` takes at the start of s: the run of non-terminators, at most limit. */
  function RunLength(s: string, limit: nat): (k: nat)
    ensures k <= limit && k <= |s|
    ensures NoLineTerminator(s[..k])
    ensures NoLineTerminator(s) ==> k == if |s| < limit then |s| else limit
  {
    if limit == 0 || s == [] || IsLineTerminator(s[0]) then 0
    else
      assert s[1..][..RunLength(s[1..], limit - 1)] == s[1..1 + RunLength(s[1..], limit - 1)];
      1 + RunLength(s[1..], limit - 1)
  }

  /** The matches of the global regular expression `/.{1,64}/g` in s, left to right. */
  function Matches(s: string): seq<string>
    decreases |s|
  {
    if s == [] then []
    else if IsLineTerminator(s[0]) then Matches(s[1..])
    else
      var k := RunLength(s, LineWidth);
      [s[..k]] + Matches(s[k..])
  }

  /** `s.match(/.{1,64}/g)`, which is null when nothing matches. */
  function MatchLines(s: string): Option<seq<string>>
  {
    var m := Matches(s);
    if m == [] then None else Some(m)
  }

  /** The lines one after the other. */
  function Flatten(lines: seq<string>): string
  {
    if lines == [] then "" else lines[0] + Flatten(lines[1..])
  }

  /** `lines.join(sep)`. */
  function Join(lines: seq<string>, sep: string): string
  {
    if lines == [] then ""
    else if |lines| == 1 then lines[0]
    else lines[0] + sep + Join(lines[1..], sep)
  }

  /** The PEM text of `rsaJwkToPem` and `ecJwkToPem`. */
  function FramePem(lines: seq<string>): string
  {
    Header + "\n" + Join(lines, "\n") + "\n" + Footer
  }

  /**
   * On text without line terminators the matches are the text cut into lines: every line holds 64
   * characters except the last, which holds 1 to 64, and there are as many lines as started blocks of 64.
   */
  lemma {:induction false} MatchesOfPlainText(s: string)
    requires NoLineTerminator(s)
    ensures Flatten(Matches(s)) == s
    ensures |Matches(s)| == (|s| + LineWidth - 1) / LineWidth
    ensures forall j :: 0 <= j < |Matches(s)| ==> 1 <= |Matches(s)[j]| <= LineWidth
    ensures forall j :: 0 <= j < |Matches(s)| - 1 ==> |Matches(s)[j]| == LineWidth
    decreases |s|
  {
    if s != [] {
      var k := RunLength(s, LineWidth);
      var rest := s[k..];
      assert NoLineTerminator(rest);
      MatchesOfPlainText(rest);
      var m := Matches(s);
      assert m == [s[..k]] + Matches(rest);
      assert m[1..] == Matches(rest);
      assert s == s[..k] + rest;
      if |s| > LineWidth {
        assert |rest| == |s| - LineWidth;
        assert (|s| + LineWidth - 1) / LineWidth == (|rest| + LineWidth - 1) / LineWidth + 1;
      } else {
        assert rest == [];
      }
    }
  }

  /** A base64 text that is not empty matches at least once, so `match` does not return null. */
  lemma MatchLinesOfBase64(der: seq<Byte>)
    requires der != []
    ensures MatchLines(Encode(der)).Some?
    ensures Flatten(MatchLines(Encode(der)).value) == Encode(der)
  {
    var s := Encode(der);
    EncodeLength(der);
    EncodeHasNoLineTerminator(der);
    MatchesOfPlainText(s);
  }

  /** Base64 text holds alphabet characters and `=` only, so `.` matches every one of them. */
  lemma EncodeHasNoLineTerminator(der: seq<Byte>)
    ensures NoLineTerminator(Encode(der))
  {
    var u := EncodeUnpadded(der);
    var s := Encode(der);
    forall i | 0 <= i < |s| ensures !IsLineTerminator(s[i]) {
      if i < |u| {
        assert IsAlphabetChar(u[i]);
      } else {
        assert s[i] == Padding(|der|)[i - |u|];
      }
    }
  }

  // ---------------------------------------------------------------------------------------------
  // Reading a PEM document back

  /** The octets of a PEM public key: the text between the header and footer lines, decoded as `atob` does. */
  function DecodePem(pem: string): Option<seq<Byte>>
  {
    var head := Header + "\n";
    var tail := "\n" + Footer;
    if |pem| < |head| + |tail| || pem[..|head|] != head || pem[|pem| - |tail|..] != tail then None
    else ForgivingDecode(pem[|head|..|pem| - |tail|])
  }

  /** The line feeds that join the lines are whitespace to the decoder. */
  lemma {:induction false} JoinedLinesDecodeAsOne(lines: seq<string>)
    ensures RemoveAsciiWhitespace(Join(lines, "\n")) == RemoveAsciiWhitespace(Flatten(lines))
    decreases |lines|
  {
    if |lines| == 1 {
      assert Flatten(lines) == lines[0] + Flatten(lines[1..]);
      assert lines[0] + "" == lines[0];
    } else if |lines| > 1 {
      JoinedLinesDecodeAsOne(lines[1..]);
      var j := Join(lines[1..], "\n");
      RemoveAsciiWhitespaceAppend(lines[0] + "\n", j);
      RemoveAsciiWhitespaceAppend(lines[0], "\n");
      RemoveAsciiWhitespaceAppend(lines[0], Flatten(lines[1..]));
      assert RemoveAsciiWhitespace("\n") == [];
    }
  }

  /** The reader finds the header and footer lines of framed text and decodes what lies between. */
  lemma DecodeFramed(lines: seq<string>)
    ensures DecodePem(FramePem(lines)) == ForgivingDecode(Join(lines, "\n"))
  {
    var body := Join(lines, "\n");
    var pem := FramePem(lines);
    var head := Header + "\n";
    var tail := "\n" + Footer;
    assert pem == head + body + tail;
    assert pem[..|head|] == head;
    assert pem[|pem| - |tail|..] == tail;
    assert pem[|head|..|pem| - |tail|] == body;
  }

  /** Reading the PEM text of a DER octet string gives the octets back. */
  lemma PemRoundTrip(der: seq<Byte>)
    requires der != []
    ensures DecodePem(FramePem(MatchLines(Encode(der)).value)) == Some(der)
  {
    MatchLinesOfBase64(der);
    var lines := MatchLines(Encode(der)).value;
    DecodeFramed(lines);
    JoinedLinesDecodeAsOne(lines);
    EncodeKeptByAtob(der);
    assert ForgivingDecode(Join(lines, "\n")) == ForgivingDecode(Encode(der));
    AtobOfBtoa(der);
  }
}
