/** Concrete inputs and what the codec does with them. */
module CoderScenarios {
  import opened JsText
  import opened Utf16
  import Uri
  import B = ForgivingBase64
  import opened Base64Coder

  /** The code units of a string literal whose characters are all below
      U+0080 (for those, this is the UTF-16 encoding of the literal). */
  function Text(s: string): (r: JsString)
    requires forall i :: 0 <= i < |s| ==> s[i] as int < 0x80
    ensures |r| == |s| && IsAsciiString(r)
  {
    seq(|s|, i requires 0 <= i < |s| => s[i] as int)
  }

  /** Incomplete padding: three characters, the last one `=`. */
  lemma DecodeRejectsShortPadding()
    ensures Decode(Text("QQ=")) == None
  {
    var s := Text("QQ=");
    assert B.RemoveAsciiWhitespace(s) == s;
    assert B.IsMisplacedPad(s, 2);
    DecodeNullIff(s);
  }

  /** Characters outside the alphabet (`!`). */
  lemma DecodeRejectsForeignCharacters()
    ensures Decode(Text("not base64!!")) == None
  {
    var s := Text("not base64!!");
    assert s[10] == 0x21;
    B.DecodeRejectsForeignCharacter(s, 10);
  }

  /** An unpaired leading surrogate makes encode throw a URIError. */
  lemma EncodeRejectsLoneSurrogate()
    ensures Encode([0xD800]) == Throw(URIError)
  {
    EncodeThrowsIff([0xD800]);
    assert !IsWellFormed([0xD800]);
  }

  /** encode percent-encodes before it base64-encodes: the space of "a b"
      becomes "%20", and the base64 is that of "a%20b". */
  lemma EncodeEscapesSpace()
    ensures Encode(Text("a b")) == Normal(Text("YSUyMGI="))
  {
    EscapeSpace();
    BtoaEscapedSpace();
  }

  lemma EscapeSpace()
    ensures Uri.EncodeURIComponent(Text("a b")) == Normal(Text("a%20b"))
  {
    EscapeSpaceTail();
    Uri.EncodeAsciiFront(0x61, [0x20, 0x62]);
    assert [0x61] + [0x20, 0x62] == [0x61, 0x20, 0x62];
    assert [0x61] + [0x25, 0x32, 0x30, 0x62] == [0x61, 0x25, 0x32, 0x30, 0x62];
    SpaceLiterals();
  }

  lemma SpaceLiterals()
    ensures Text("a b") == [0x61, 0x20, 0x62]
    ensures Text("a%20b") == [0x61, 0x25, 0x32, 0x30, 0x62]
  {
  }

  lemma EscapeSpaceTail()
    ensures Uri.EncodeURIComponent([0x20, 0x62]) == Normal([0x25, 0x32, 0x30, 0x62])
  {
    Uri.EncodeAsciiFront(0x62, []);
    assert [0x62] + [] == [0x62];
    Uri.EncodeAsciiFront(0x20, [0x62]);
    assert !Uri.IsAlwaysUnescaped(0x20);
    assert Uri.PercentEscape(0x20) == [0x25, 0x32, 0x30];
    assert [0x20] + [0x62] == [0x20, 0x62];
    assert [0x25, 0x32, 0x30] + [0x62] == [0x25, 0x32, 0x30, 0x62];
  }

  lemma BtoaEscapedSpace()
    ensures B.Btoa(Text("a%20b")) == Normal(Text("YSUyMGI="))
  {
    assert B.IsomorphicEncode(Text("a%20b")) == [0x61, 0x25, 0x32, 0x30, 0x62];
    EncodeEscapedSpaceOctets();
  }

  lemma EncodeEscapedSpaceOctets()
    ensures B.Encode([0x61, 0x25, 0x32, 0x30, 0x62]) == Text("YSUyMGI=")
  {
    B.EncodeAppend([0x61, 0x25, 0x32], [0x30, 0x62]);
    assert [0x61, 0x25, 0x32] + [0x30, 0x62] == [0x61, 0x25, 0x32, 0x30, 0x62];
    EncodeEscapedSpaceGroups();
  }

  lemma EncodeEscapedSpaceGroups()
    ensures B.Encode([0x61, 0x25, 0x32]) + B.Encode([0x30, 0x62]) == Text("YSUyMGI=")
  {
    EncodeEscapedSpaceHead();
    assert B.Encode([0x30, 0x62]) == [0x4D, 0x47, 0x49, 0x3D];
    assert Text("YSUyMGI=") == [0x59, 0x53, 0x55, 0x79, 0x4D, 0x47, 0x49, 0x3D];
  }

  lemma EncodeEscapedSpaceHead()
    ensures B.Encode([0x61, 0x25, 0x32]) == [0x59, 0x53, 0x55, 0x79]
  {
  }

  /** ... and decode turns that base64 back into "a b". */
  lemma DecodeUnescapesSpace()
    ensures Decode(Text("YSUyMGI=")) == Some(Text("a b"))
  {
    EncodeEscapesSpace();
    AsciiIsWellFormed(Text("a b"));
    RoundTrip(Text("a b"));
  }

  lemma AsciiIsWellFormed(s: JsString)
    requires IsAsciiString(s)
    ensures IsWellFormed(s)
  {
    assert forall i :: 0 <= i < |s| ==> !IsLeadingSurrogate(s[i]) && !IsTrailingSurrogate(s[i]);
  }

  /** The plain base64 of the UTF-8 of "100%" is not something encode
      produces: its payload "100%" ends in a `%` without two hex digits, so
      decode returns null. */
  lemma DecodeRejectsBarePercent()
    ensures Decode(Text("MTAwJQ==")) == None
  {
    AtobBarePercent();
    BarePercentThrows();
  }

  lemma BarePercentThrows()
    ensures Uri.DecodeURIComponent([0x31, 0x30, 0x30, 0x25]).Throw?
  {
    assert Uri.IsBadEscapeAt([0x31, 0x30, 0x30, 0x25], 3);
    Uri.DecodeBadEscapeThrows([0x31, 0x30, 0x30, 0x25], 3);
  }

  lemma AtobBarePercent()
    ensures B.Atob(Text("MTAwJQ==")) == Normal([0x31, 0x30, 0x30, 0x25])
  {
    BtoaBarePercent();
    B.AtobBtoa([0x31, 0x30, 0x30, 0x25]);
  }

  lemma BtoaBarePercent()
    ensures B.Btoa([0x31, 0x30, 0x30, 0x25]) == Normal(Text("MTAwJQ=="))
  {
    assert B.IsomorphicEncode([0x31, 0x30, 0x30, 0x25]) == [0x31, 0x30, 0x30, 0x25];
    EncodeBarePercentOctets();
  }

  lemma EncodeBarePercentOctets()
    ensures B.Encode([0x31, 0x30, 0x30, 0x25]) == Text("MTAwJQ==")
  {
    assert B.Encode([0x31, 0x30, 0x30, 0x25]) == [0x4D, 0x54, 0x41, 0x77, 0x4A, 0x51, 0x3D, 0x3D];
    assert Text("MTAwJQ==") == [0x4D, 0x54, 0x41, 0x77, 0x4A, 0x51, 0x3D, 0x3D];
  }

  /** The octets FF FE are not UTF-8, yet decode does not return null: with
      no `%` in the payload, each octet comes back as the Latin-1 character
      of the same value. */
  lemma DecodePassesLatin1Through()
    ensures Decode(Text("//4=")) == Some([0xFF, 0xFE])
  {
    AtobLatin1();
    Uri.DecodeWithoutEscapes([0xFF, 0xFE]);
  }

  lemma AtobLatin1()
    ensures B.Atob(Text("//4=")) == Normal([0xFF, 0xFE])
  {
    BtoaLatin1();
    B.AtobBtoa([0xFF, 0xFE]);
  }

  lemma BtoaLatin1()
    ensures B.Btoa([0xFF, 0xFE]) == Normal(Text("//4="))
  {
    assert B.IsomorphicEncode([0xFF, 0xFE]) == [0xFF, 0xFE];
    assert B.Encode([0xFF, 0xFE]) == [0x2F, 0x2F, 0x34, 0x3D];
    assert Text("//4=") == [0x2F, 0x2F, 0x34, 0x3D];
  }

  /** "Hello, World!", its percent-encoded form and its base64 code. */
  const HelloText: JsString := Text("Hello, World!")
  const HelloEscapedText: JsString := Text("Hello%2C%20World!")
  const HelloCode: JsString := Text("SGVsbG8lMkMlMjBXb3JsZCE=")

  lemma HelloLiterals()
    ensures HelloText == [0x48, 0x65, 0x6C, 0x6C, 0x6F] + [0x2C] + [0x20] + [0x57, 0x6F, 0x72, 0x6C, 0x64, 0x21]
    ensures HelloEscapedText == [0x48, 0x65, 0x6C, 0x6C, 0x6F] + [0x25, 0x32, 0x43] + [0x25, 0x32, 0x30] + [0x57, 0x6F, 0x72, 0x6C, 0x64, 0x21]
  {
  }

  lemma HelloPlainParts()
    ensures Uri.EscapeAscii([0x48, 0x65, 0x6C, 0x6C, 0x6F]) == [0x48, 0x65, 0x6C, 0x6C, 0x6F]
    ensures Uri.EscapeAscii([0x57, 0x6F, 0x72, 0x6C, 0x64, 0x21]) == [0x57, 0x6F, 0x72, 0x6C, 0x64, 0x21]
  {
    Uri.EscapeAsciiUnescaped([0x48, 0x65, 0x6C, 0x6C, 0x6F]);
    Uri.EscapeAsciiUnescaped([0x57, 0x6F, 0x72, 0x6C, 0x64, 0x21]);
  }

  lemma HelloEscapedParts()
    ensures Uri.EscapeAscii([0x2C]) == [0x25, 0x32, 0x43]
    ensures Uri.EscapeAscii([0x20]) == [0x25, 0x32, 0x30]
  {
    assert Uri.EscapeAscii([0x2C]) == Uri.PercentEscape(0x2C) + Uri.EscapeAscii([]);
    assert Uri.EscapeAscii([0x20]) == Uri.PercentEscape(0x20) + Uri.EscapeAscii([]);
  }

  lemma HelloEscaped()
    ensures Uri.EscapeAscii(HelloText) == HelloEscapedText
  {
    HelloLiterals();
    var a, c, sp, w : JsString := [0x48, 0x65, 0x6C, 0x6C, 0x6F], [0x2C], [0x20], [0x57, 0x6F, 0x72, 0x6C, 0x64, 0x21];
    var ac := a + c;
    var acs := ac + sp;
    HelloPlainParts();
    HelloEscapedParts();
    Uri.EscapeAsciiAppend(a, c);
    Uri.EscapeAsciiAppend(ac, sp);
    Uri.EscapeAsciiAppend(acs, w);
  }

  lemma HelloOctets()
    ensures B.IsomorphicEncode(HelloEscapedText)
            == [0x48, 0x65, 0x6C] + ([0x6C, 0x6F, 0x25] + ([0x32, 0x43, 0x25] + ([0x32, 0x30, 0x57] + ([0x6F, 0x72, 0x6C] + [0x64, 0x21]))))
  {
    HelloLiterals();
  }

  lemma HelloGroup1()
    ensures B.Encode([0x48, 0x65, 0x6C]) == [0x53, 0x47, 0x56, 0x73]
  {
  }

  lemma HelloGroup2()
    ensures B.Encode([0x6C, 0x6F, 0x25]) == [0x62, 0x47, 0x38, 0x6C]
  {
  }

  lemma HelloGroup3()
    ensures B.Encode([0x32, 0x43, 0x25]) == [0x4D, 0x6B, 0x4D, 0x6C]
  {
  }

  lemma HelloGroup4()
    ensures B.Encode([0x32, 0x30, 0x57]) == [0x4D, 0x6A, 0x42, 0x58]
  {
  }

  lemma HelloGroup5()
    ensures B.Encode([0x6F, 0x72, 0x6C]) == [0x62, 0x33, 0x4A, 0x73]
  {
  }

  lemma HelloGroup6()
    ensures B.Encode([0x64, 0x21]) == [0x5A, 0x43, 0x45, 0x3D]
  {
  }

  lemma HelloBase64Literal()
    ensures HelloCode == [0x53, 0x47, 0x56, 0x73] + ([0x62, 0x47, 0x38, 0x6C] + ([0x4D, 0x6B, 0x4D, 0x6C] + ([0x4D, 0x6A, 0x42, 0x58] + ([0x62, 0x33, 0x4A, 0x73] + [0x5A, 0x43, 0x45, 0x3D]))))
  {
  }

  /** The last three groups of "Hello%2C%20World!": "%20World!". */
  lemma HelloBase64Back()
    ensures B.Encode([0x32, 0x30, 0x57] + ([0x6F, 0x72, 0x6C] + [0x64, 0x21]))
            == [0x4D, 0x6A, 0x42, 0x58] + ([0x62, 0x33, 0x4A, 0x73] + [0x5A, 0x43, 0x45, 0x3D])
  {
    HelloGroup4();
    HelloGroup5();
    HelloGroup6();
    var g4, g5, t: seq<Byte> := [0x32, 0x30, 0x57], [0x6F, 0x72, 0x6C], [0x64, 0x21];
    var r5 := g5 + t;
    B.EncodeAppend(g5, t);
    B.EncodeAppend(g4, r5);
  }

  lemma HelloBase64Groups()
    ensures B.Encode([0x48, 0x65, 0x6C] + ([0x6C, 0x6F, 0x25] + ([0x32, 0x43, 0x25] + ([0x32, 0x30, 0x57] + ([0x6F, 0x72, 0x6C] + [0x64, 0x21])))))
            == [0x53, 0x47, 0x56, 0x73] + ([0x62, 0x47, 0x38, 0x6C] + ([0x4D, 0x6B, 0x4D, 0x6C] + ([0x4D, 0x6A, 0x42, 0x58] + ([0x62, 0x33, 0x4A, 0x73] + [0x5A, 0x43, 0x45, 0x3D]))))
  {
    HelloGroup1();
    HelloGroup2();
    HelloGroup3();
    var g1, g2, g3: seq<Byte> := [0x48, 0x65, 0x6C], [0x6C, 0x6F, 0x25], [0x32, 0x43, 0x25];
    var r4: seq<Byte> := [0x32, 0x30, 0x57] + ([0x6F, 0x72, 0x6C] + [0x64, 0x21]);
    HelloBase64Back();
    var r3 := g3 + r4;
    var r2 := g2 + r3;
    B.EncodeAppend(g3, r4);
    B.EncodeAppend(g2, r3);
    B.EncodeAppend(g1, r2);
  }

  lemma HelloBase64()
    ensures B.Encode(B.IsomorphicEncode(HelloEscapedText)) == HelloCode
  {
    HelloOctets();
    HelloBase64Literal();
    HelloBase64Groups();
  }

  lemma HelloEncode()
    ensures Encode(HelloText) == Normal(HelloCode)
  {
    var text, escaped := HelloText, HelloEscapedText;
    Uri.EncodeAsciiString(text);
    HelloEscaped();
    assert Uri.EncodeURIComponent(text) == Normal(escaped);
    assert B.IsLatin1(escaped);
    HelloBase64();
    assert B.Btoa(escaped) == Normal(HelloCode);
  }

  /** encode("Hello, World!") is the base64 of "Hello%2C%20World!", since
      the comma and the space are escaped first, and decode gives the text
      back. */
  lemma HelloWorld()
    ensures Encode(HelloText) == Normal(HelloCode)
    ensures Decode(HelloCode) == Some(HelloText)
  {
    HelloEncode();
    AsciiIsWellFormed(HelloText);
    RoundTrip(HelloText);
  }

  /** decodeURIComponent accepts lower-case hex: "%c3%a9", the UTF-8 of
      U+00E9 written in lower case, decodes to that one character. */
  lemma DecodeLowerCaseEscapes()
    ensures Uri.DecodeURIComponent([0x25, 0x63, 0x33, 0x25, 0x61, 0x39]) == Normal([0xE9])
  {
    var e: JsString := [0x25, 0x63, 0x33, 0x25, 0x61, 0x39];
    assert e[3..] == [0x25, 0x61, 0x39] && e[3..][3..] == [];
    assert Uri.IsEscapeRun(e);
    assert Uri.EscapeRunOctets(e) == [0xC3, 0xA9];
    assert Utf8.EncodeScalar(0xE9) == [0xC3, 0xA9];
    Uri.DecodeEscapeRunScalar(e, 0xE9, []);
    assert e + [] == e;
    assert Uri.DecodeURIComponent([]) == Normal([]);
    assert EncodeCodePoint(0xE9) + [] == [0xE9];
  }

  /** "a%C3%28b" and its base64 code. */
  const BadUtf8Payload: JsString := [0x61, 0x25, 0x43, 0x33, 0x25, 0x32, 0x38, 0x62]
  const BadUtf8Code: JsString := Text("YSVDMyUyOGI=")

  lemma BadUtf8CodeLiteral()
    ensures BadUtf8Code == [0x59, 0x53, 0x56, 0x44] + [0x4D, 0x79, 0x55, 0x79] + [0x4F, 0x47, 0x49, 0x3D]
  {
  }

  lemma BadUtf8Group1()
    ensures B.Encode([0x61, 0x25, 0x43]) == [0x59, 0x53, 0x56, 0x44]
  {
  }

  lemma BadUtf8Group2()
    ensures B.Encode([0x33, 0x25, 0x32]) == [0x4D, 0x79, 0x55, 0x79]
  {
  }

  lemma BadUtf8Group3()
    ensures B.Encode([0x38, 0x62]) == [0x4F, 0x47, 0x49, 0x3D]
  {
  }

  lemma BadUtf8Octets()
    ensures B.IsLatin1(BadUtf8Payload)
    ensures B.IsomorphicEncode(BadUtf8Payload) == [0x61, 0x25, 0x43] + ([0x33, 0x25, 0x32] + [0x38, 0x62])
  {
  }

  lemma BadUtf8Base64()
    ensures B.Encode(B.IsomorphicEncode(BadUtf8Payload)) == BadUtf8Code
  {
    BadUtf8Octets();
    BadUtf8Group1();
    BadUtf8Group2();
    BadUtf8Group3();
    BadUtf8CodeLiteral();
    var g1, g2, t: seq<Byte> := [0x61, 0x25, 0x43], [0x33, 0x25, 0x32], [0x38, 0x62];
    var r2 := g2 + t;
    B.EncodeAppend(g2, t);
    B.EncodeAppend(g1, r2);
  }

  lemma BtoaBadUtf8()
    ensures B.Btoa(BadUtf8Payload) == Normal(BadUtf8Code)
  {
    BadUtf8Octets();
    BadUtf8Base64();
  }

  /** The payload splits into "a", the escapes of the octets C3 28 and
      "b", and C3 28 is not UTF-8. */
  lemma BadUtf8Split()
    ensures var p, e, q: JsString := [0x61], [0x25, 0x43, 0x33, 0x25, 0x32, 0x38], [0x62];
            && BadUtf8Payload == p + e + q
            && Uri.IsEscapeRun(e)
            && !Utf8.IsValidUtf8(Uri.EscapeRunOctets(e))
  {
    var e: JsString := [0x25, 0x43, 0x33, 0x25, 0x32, 0x38];
    assert e[3..] == [0x25, 0x32, 0x38] && e[3..][3..] == [];
    assert Uri.IsEscapeRun(e);
    assert Uri.EscapeRunOctets(e) == [0xC3, 0x28];
    Utf8.ValidUtf8Unfold([0xC3, 0x28]);
    assert [0xC3, 0x28][..2] == [0xC3, 0x28];
  }

  /** decode("YSVDMyUyOGI=") is null: its payload "a%C3%28b" holds the
      escapes C3 28, and 0x28 is not a continuation octet, so they are not
      UTF-8, although the payload is not made of escapes alone. */
  lemma DecodeRejectsBadUtf8InText()
    ensures Decode(BadUtf8Code) == None
  {
    BtoaBadUtf8();
    B.AtobBtoa(BadUtf8Payload);
    BadUtf8Split();
    DecodeEscapedOctets(BadUtf8Code, [0x61], [0x25, 0x43, 0x33, 0x25, 0x32, 0x38], [0x62]);
  }
}
