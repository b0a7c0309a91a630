/** btoa and atob: the forgiving-base64 encode and decode algorithms of the
    "Forgiving base64" section of the WHATWG Infra standard, over the
    standard alphabet of section 4 of RFC 4648, with the isomorphic conversions between strings
    whose code units are below 0x100 and byte sequences. */
module ForgivingBase64 {
  import opened JsText

  /** The 64 characters of the alphabet (RFC 4648, Table 1). */
  predicate IsBase64Char(u: CodeUnit) {
    IsAsciiAlphanumeric(u) || u == 0x2B || u == 0x2F
  }

  /** The character for a six-bit value. */
  function Base64Char(v: int): (u: CodeUnit)
    requires 0 <= v < 64
    ensures IsBase64Char(u)
  {
    if v < 26 then 0x41 + v
    else if v < 52 then 0x61 + (v - 26)
    else if v < 62 then 0x30 + (v - 52)
    else if v == 62 then 0x2B
    else 0x2F
  }

  /** The six-bit value of an alphabet character; inverse of Base64Char. */
  function Base64Value(u: CodeUnit): (v: int)
    requires IsBase64Char(u)
    ensures 0 <= v < 64 && Base64Char(v) == u
  {
    if IsAsciiUpper(u) then u - 0x41
    else if IsAsciiLower(u) then u - 0x61 + 26
    else if IsAsciiDigit(u) then u - 0x30 + 52
    else if u == 0x2B then 62
    else 63
  }

  lemma Base64ValueOfChar(v: int)
    requires 0 <= v < 64
    ensures Base64Value(Base64Char(v)) == v
  {
  }

  /** Alphabet characters and `=` only, a length that is a multiple of 4,
      and every `=` one of at most two padding characters that end the
      string. */
  predicate IsPaddedBase64(r: JsString) {
    |r| % 4 == 0 && forall i :: 0 <= i < |r| ==> IsCharOrFinalPad(r, i)
  }

  predicate IsCharOrFinalPad(r: JsString, i: nat)
    requires i < |r|
  {
    || IsBase64Char(r[i])
    || (r[i] == PadChar && |r| - 2 <= i && (i + 1 < |r| ==> r[i + 1] == PadChar))
  }

  /** The four characters for three octets. */
  function EncodeGroup(b0: Byte, b1: Byte, b2: Byte): (r: JsString)
    ensures |r| == 4 && forall i :: 0 <= i < 4 ==> IsBase64Char(r[i])
  {
    [Base64Char(b0 / 4), Base64Char((b0 % 4) * 16 + b1 / 16), Base64Char((b1 % 16) * 4 + b2 / 64), Base64Char(b2 % 64)]
  }

  /** forgiving-base64 encode: RFC 4648 base64 with `=` padding. */
  function Encode(b: seq<Byte>): (r: JsString) {
    if |b| == 0 then []
    else if |b| == 1 then
      [Base64Char(b[0] / 4), Base64Char((b[0] % 4) * 16), PadChar, PadChar]
    else if |b| == 2 then
      [Base64Char(b[0] / 4), Base64Char((b[0] % 4) * 16 + b[1] / 16), Base64Char((b[1] % 16) * 4), PadChar]
    else
      var head := EncodeGroup(b[0], b[1], b[2]);
      head + Encode(b[3..])
  }

  /** Four characters for every three octets or fewer. */
  lemma {:induction false} EncodeLength(b: seq<Byte>)
    ensures |Encode(b)| == 4 * ((|b| + 2) / 3)
    decreases |b|
  {
    if |b| >= 3 {
      EncodeLength(b[3..]);
    }
  }

  /** What Encode returns is padded base64. */
  lemma {:induction false} EncodeIsPadded(b: seq<Byte>)
    ensures IsPaddedBase64(Encode(b))
    decreases |b|
  {
    if |b| >= 3 {
      EncodeIsPadded(b[3..]);
      PaddedAfterGroup(EncodeGroup(b[0], b[1], b[2]), Encode(b[3..]));
    }
  }

  lemma PaddedAfterGroup(head: JsString, tail: JsString)
    requires |head| == 4 && forall i :: 0 <= i < 4 ==> IsBase64Char(head[i])
    requires IsPaddedBase64(tail)
    ensures IsPaddedBase64(head + tail)
  {
    var r := head + tail;
    forall i | 0 <= i < |r| ensures IsCharOrFinalPad(r, i) {
      if i < 4 {
        assert r[i] == head[i];
      } else {
        var j := i - 4;
        assert r[i] == tail[j];
        assert j + 1 < |tail| ==> r[i + 1] == tail[j + 1];
        assert IsCharOrFinalPad(tail, j);
      }
    }
  }

  /** TAB, LF, FF, CR and SPACE. */
  predicate IsAsciiWhitespace(u: CodeUnit) {
    u == 0x09 || u == 0x0A || u == 0x0C || u == 0x0D || u == 0x20
  }

  /** Step 1 of forgiving-base64 decode: drop every ASCII whitespace. */
  function RemoveAsciiWhitespace(s: JsString): (r: JsString)
    ensures forall i :: 0 <= i < |r| ==> !IsAsciiWhitespace(r[i])
    ensures (forall i :: 0 <= i < |s| ==> !IsAsciiWhitespace(s[i])) ==> r == s
  {
    if s == [] then []
    else if IsAsciiWhitespace(s[0]) then RemoveAsciiWhitespace(s[1..])
    else [s[0]] + RemoveAsciiWhitespace(s[1..])
  }

  /** Step 2: on a length that is a multiple of 4, drop one or two trailing
      `=`. */
  function StripPadding(d: JsString): (r: JsString) {
    if |d| % 4 == 0 && |d| >= 2 && d[|d| - 1] == PadChar && d[|d| - 2] == PadChar then d[..|d| - 2]
    else if |d| % 4 == 0 && |d| >= 1 && d[|d| - 1] == PadChar then d[..|d| - 1]
    else d
  }

  /** Steps 5 to 9: each character adds six bits to a buffer; every 24 bits
      (four characters) give three octets, and what is left at the end, 12
      or 18 bits, gives one or two octets after dropping the last 4 or 2
      bits. */
  function DecodeSextets(d: JsString): (r: seq<Byte>)
    requires |d| % 4 != 1
    requires forall i :: 0 <= i < |d| ==> IsBase64Char(d[i])
  {
    if |d| == 0 then []
    else if |d| == 2 then
      [Base64Value(d[0]) * 4 + Base64Value(d[1]) / 16]
    else if |d| == 3 then
      var v1 := Base64Value(d[1]);
      [Base64Value(d[0]) * 4 + v1 / 16, (v1 % 16) * 16 + Base64Value(d[2]) / 4]
    else
      var head := OctetsOfGroup(Base64Value(d[0]), Base64Value(d[1]), Base64Value(d[2]), Base64Value(d[3]));
      var tail := DecodeSextets(d[4..]);
      head + tail
  }

  /** The three octets held by the 24 bits of four sextets. */
  function OctetsOfGroup(v0: int, v1: int, v2: int, v3: int): (r: seq<Byte>)
    requires 0 <= v0 < 64 && 0 <= v1 < 64 && 0 <= v2 < 64 && 0 <= v3 < 64
    ensures |r| == 3
  {
    [v0 * 4 + v1 / 16, (v1 % 16) * 16 + v2 / 4, (v2 % 4) * 64 + v3]
  }

  /** forgiving-base64 decode: None stands for failure. */
  function Decode(data: JsString): (r: Option<seq<Byte>>)
  {
    var d := StripPadding(RemoveAsciiWhitespace(data));
    if |d| % 4 == 1 then None
    else if exists i :: 0 <= i < |d| && !IsBase64Char(d[i]) then None
    else Some(DecodeSextets(d))
  }

  /** A string whose code units are all below 0x100. */
  predicate IsLatin1(s: JsString) {
    forall i :: 0 <= i < |s| ==> s[i] < 0x100
  }

  /** Isomorphic encode: each code unit as the octet of the same value. */
  function IsomorphicEncode(s: JsString): (b: seq<Byte>)
    requires IsLatin1(s)
    ensures |b| == |s| && forall i :: 0 <= i < |s| ==> b[i] == s[i]
  {
    seq(|s|, i requires 0 <= i < |s| => s[i] as Byte)
  }

  /** Isomorphic decode: each octet as the code unit of the same value. */
  function IsomorphicDecode(b: seq<Byte>): (s: JsString)
    ensures |s| == |b| && forall i :: 0 <= i < |b| ==> s[i] == b[i]
    ensures IsLatin1(s)
  {
    seq(|b|, i requires 0 <= i < |b| => b[i] as CodeUnit)
  }

  /** btoa(s): an InvalidCharacterError for a code unit above 0xFF,
      otherwise the base64 of the octets, which is padded base64 of four
      characters for every three octets or part of three. */
  function Btoa(s: JsString): (r: Completion<JsString>)
    ensures r.Normal? <==> IsLatin1(s)
    ensures r.Throw? ==> r.error == InvalidCharacterError
    ensures r.Normal? ==> IsPaddedBase64(r.value) && |r.value| == 4 * ((|s| + 2) / 3)
  {
    if !IsLatin1(s) then Throw(InvalidCharacterError)
    else
      var b := IsomorphicEncode(s);
      EncodeIsPadded(b);
      EncodeLength(b);
      Normal(Encode(b))
  }

  /** atob(s): an InvalidCharacterError when forgiving-base64 decode
      fails, which is exactly on the rejection conditions, otherwise the
      octets as a string of code units below 0x100. */
  function Atob(s: JsString): (r: Completion<JsString>)
    ensures r.Throw? <==> IsRejected(RemoveAsciiWhitespace(s))
    ensures r.Throw? ==> r.error == InvalidCharacterError
    ensures r.Normal? ==> IsLatin1(r.value)
  {
    DecodeFailsIff(s);
    match Decode(s)
    case None => Throw(InvalidCharacterError)
    case Some(b) => Normal(IsomorphicDecode(b))
  }

  /** The sextets of three octets give the octets back. */
  lemma GroupArithmetic(b0: Byte, b1: Byte, b2: Byte)
    ensures var v0, v1, v2, v3 := b0 / 4, (b0 % 4) * 16 + b1 / 16, (b1 % 16) * 4 + b2 / 64, b2 % 64;
            && v0 * 4 + v1 / 16 == b0
            && (v1 % 16) * 16 + v2 / 4 == b1
            && (v2 % 4) * 64 + v3 == b2
  {
    var v1, v2 := (b0 % 4) * 16 + b1 / 16, (b1 % 16) * 4 + b2 / 64;
    assert v1 / 16 == b0 % 4 && v1 % 16 == b1 / 16;
    assert v2 / 4 == b1 % 16 && v2 % 4 == b2 / 64;
  }

  /** Four alphabet characters decode to the three octets they encode, and
      decoding goes on with what follows. */
  lemma DecodeAfterGroup(b0: Byte, b1: Byte, b2: Byte, rest: JsString)
    requires |rest| % 4 != 1 && forall i :: 0 <= i < |rest| ==> IsBase64Char(rest[i])
    ensures var d := EncodeGroup(b0, b1, b2) + rest;
            && |d| % 4 != 1 && (forall i :: 0 <= i < |d| ==> IsBase64Char(d[i]))
            && DecodeSextets(d) == [b0, b1, b2] + DecodeSextets(rest)
  {
    var g := EncodeGroup(b0, b1, b2);
    var o := OctetsOfGroup(Base64Value(g[0]), Base64Value(g[1]), Base64Value(g[2]), Base64Value(g[3]));
    AlphabetConcat(g, rest);
    DecodeGroup(b0, b1, b2);
    assert o == [b0, b1, b2];
    DecodeGroupThenRest(g, rest);
    LengthAfterGroup(|rest|);
  }

  lemma LengthAfterGroup(n: nat)
    ensures (4 + n) % 4 == n % 4
  {
  }

  lemma DecodeGroupThenRest(g: JsString, rest: JsString)
    requires |g| == 4 && forall i :: 0 <= i < 4 ==> IsBase64Char(g[i])
    requires |rest| % 4 != 1 && forall i :: 0 <= i < |rest| ==> IsBase64Char(rest[i])
    requires forall i :: 0 <= i < |g + rest| ==> IsBase64Char((g + rest)[i])
    ensures DecodeSextets(g + rest)
            == OctetsOfGroup(Base64Value(g[0]), Base64Value(g[1]), Base64Value(g[2]), Base64Value(g[3])) + DecodeSextets(rest)
  {
    var d := g + rest;
    assert d[0] == g[0] && d[1] == g[1] && d[2] == g[2] && d[3] == g[3];
    assert d[4..] == rest;
    DecodeFront(d);
  }

  lemma DecodeFront(d: JsString)
    requires |d| >= 4 && |d| % 4 != 1 && forall i :: 0 <= i < |d| ==> IsBase64Char(d[i])
    ensures DecodeSextets(d)
            == OctetsOfGroup(Base64Value(d[0]), Base64Value(d[1]), Base64Value(d[2]), Base64Value(d[3])) + DecodeSextets(d[4..])
  {
    var o := OctetsOfGroup(Base64Value(d[0]), Base64Value(d[1]), Base64Value(d[2]), Base64Value(d[3]));
    assert DecodeSextets(d) == o + DecodeSextets(d[4..]);
  }

  /** The values of the four characters of a group give its octets back. */
  lemma DecodeGroup(b0: Byte, b1: Byte, b2: Byte)
    ensures var g := EncodeGroup(b0, b1, b2);
            OctetsOfGroup(Base64Value(g[0]), Base64Value(g[1]), Base64Value(g[2]), Base64Value(g[3])) == [b0, b1, b2]
  {
    Base64ValueOfChar(b0 / 4);
    Base64ValueOfChar((b0 % 4) * 16 + b1 / 16);
    Base64ValueOfChar((b1 % 16) * 4 + b2 / 64);
    Base64ValueOfChar(b2 % 64);
    GroupArithmetic(b0, b1, b2);
  }

  lemma AlphabetConcat(a: JsString, b: JsString)
    requires forall i :: 0 <= i < |a| ==> IsBase64Char(a[i])
    requires forall i :: 0 <= i < |b| ==> IsBase64Char(b[i])
    ensures forall i :: 0 <= i < |a + b| ==> IsBase64Char((a + b)[i])
  {
    forall i | 0 <= i < |a + b| ensures IsBase64Char((a + b)[i]) {
      if i < |a| { assert (a + b)[i] == a[i]; } else { assert (a + b)[i] == b[i - |a|]; }
    }
  }

  /** Stripping the padding from the code of b leaves alphabet characters
      only, on a length that is not 1 modulo 4, and they decode to b. */
  lemma {:induction false} StripPaddingOfEncode(b: seq<Byte>)
    ensures var u := StripPadding(Encode(b));
            && |u| % 4 != 1 && (forall i :: 0 <= i < |u| ==> IsBase64Char(u[i]))
            && DecodeSextets(u) == b
    decreases |b|
  {
    if |b| == 1 {
      StripPaddingOfShortEncode(b);
    } else if |b| == 2 {
      StripPaddingOfShortEncode(b);
    } else if |b| >= 3 {
      var g := EncodeGroup(b[0], b[1], b[2]);
      var tail := Encode(b[3..]);
      StripPaddingOfEncode(b[3..]);
      EncodeIsPadded(b[3..]);
      StripPaddingAfterGroup(g, tail);
      DecodeAfterGroup(b[0], b[1], b[2], StripPadding(tail));
      assert [b[0], b[1], b[2]] + b[3..] == b;
    }
  }

  lemma StripPaddingOfShortEncode(b: seq<Byte>)
    requires 1 <= |b| <= 2
    ensures var u := StripPadding(Encode(b));
            && |u| % 4 != 1 && (forall i :: 0 <= i < |u| ==> IsBase64Char(u[i]))
            && DecodeSextets(u) == b
  {
    var e := Encode(b);
    Base64ValueOfChar(b[0] / 4);
    if |b| == 1 {
      assert StripPadding(e) == e[..2];
      Base64ValueOfChar((b[0] % 4) * 16);
    } else {
      assert StripPadding(e) == e[..3];
      Base64ValueOfChar((b[0] % 4) * 16 + b[1] / 16);
      Base64ValueOfChar((b[1] % 16) * 4);
      GroupArithmetic(b[0], b[1], 0);
    }
  }

  /** Padding sits only in the last group, so stripping it from a group
      followed by a code strips it from that code. */
  lemma StripPaddingAfterGroup(g: JsString, tail: JsString)
    requires |g| == 4 && forall i :: 0 <= i < 4 ==> IsBase64Char(g[i])
    requires IsPaddedBase64(tail)
    ensures StripPadding(g + tail) == g + StripPadding(tail)
  {
    var e := g + tail;
    if tail == [] {
      assert e == g;
      assert e[3] != PadChar;
    } else {
      var n, m := |e|, |tail|;
      assert m % 4 == 0 && m >= 4 && n == m + 4 && n % 4 == 0;
      assert e[n - 1] == tail[m - 1] && e[n - 2] == tail[m - 2];
      if tail[m - 1] == PadChar && tail[m - 2] == PadChar {
        assert e[..n - 2] == g + tail[..m - 2];
      } else if tail[m - 1] == PadChar {
        assert e[..n - 1] == g + tail[..m - 1];
      }
    }
  }

  /** Decoding the code of b gives b back. */
  lemma DecodeEncode(b: seq<Byte>)
    ensures Decode(Encode(b)) == Some(b)
  {
    var e := Encode(b);
    EncodeIsPadded(b);
    forall i | 0 <= i < |e| ensures !IsAsciiWhitespace(e[i]) {
      assert IsCharOrFinalPad(e, i);
    }
    assert RemoveAsciiWhitespace(e) == e;
    StripPaddingOfEncode(b);
    var u := StripPadding(e);
    assert !exists i :: 0 <= i < |u| && !IsBase64Char(u[i]);
  }

  /** Decoding tolerates missing padding: the code of b without its `=`
      decodes to b as well. */
  lemma DecodeUnpadded(b: seq<Byte>)
    ensures Decode(StripPadding(Encode(b))) == Some(b)
  {
    var u := StripPadding(Encode(b));
    StripPaddingOfEncode(b);
    DecodeAlphabetOnly(u);
  }

  /** Alphabet characters alone, on a length that is not 1 modulo 4, decode
      to their sextets' octets. */
  lemma DecodeAlphabetOnly(u: JsString)
    requires |u| % 4 != 1 && forall i :: 0 <= i < |u| ==> IsBase64Char(u[i])
    ensures Decode(u) == Some(DecodeSextets(u))
  {
    AlphabetIsNotWhitespace(u);
    if |u| > 0 {
      AlphabetIsNotPad(u[|u| - 1]);
    }
    assert StripPadding(u) == u;
  }

  lemma AlphabetIsNotWhitespace(u: JsString)
    requires forall i :: 0 <= i < |u| ==> IsBase64Char(u[i])
    ensures RemoveAsciiWhitespace(u) == u
  {
    forall i | 0 <= i < |u| ensures !IsAsciiWhitespace(u[i]) {
      AlphabetIsNotPad(u[i]);
    }
  }

  lemma AlphabetIsNotPad(c: CodeUnit)
    requires IsBase64Char(c)
    ensures c != PadChar && !IsAsciiWhitespace(c)
  {
  }

  lemma {:induction false} RemoveWhitespaceConcat(a: JsString, b: JsString)
    ensures RemoveAsciiWhitespace(a + b) == RemoveAsciiWhitespace(a) + RemoveAsciiWhitespace(b)
    decreases |a|
  {
    if a != [] {
      assert (a + b)[0] == a[0];
      assert (a + b)[1..] == a[1..] + b;
      RemoveWhitespaceConcat(a[1..], b);
      AppendAssociative([a[0]], RemoveAsciiWhitespace(a[1..]), RemoveAsciiWhitespace(b));
    } else {
      assert a + b == b;
    }
  }

  /** Decoding ignores ASCII whitespace wherever it is inserted. */
  lemma DecodeIgnoresWhitespace(a: JsString, w: CodeUnit, b: JsString)
    requires IsAsciiWhitespace(w)
    ensures Decode(a + [w] + b) == Decode(a + b)
  {
    RemoveWhitespaceConcat(a + [w], b);
    RemoveWhitespaceConcat(a, [w]);
    RemoveWhitespaceConcat(a, b);
    assert RemoveAsciiWhitespace([w]) == [];
    assert RemoveAsciiWhitespace(a + [w] + b) == RemoveAsciiWhitespace(a + b);
  }

  /** Position i of d holds a `=` that is not one of at most two padding
      characters that end a string whose length is a multiple of 4. */
  predicate IsMisplacedPad(d: JsString, i: nat) {
    i < |d| && d[i] == PadChar && !(|d| % 4 == 0 && |d| - 2 <= i && (i + 1 < |d| ==> d[i + 1] == PadChar))
  }

  /** The three rejection conditions of forgiving-base64 decode, stated on
      the input after whitespace removal: a length of 1 modulo 4, a
      character outside the alphabet and `=`, or a misplaced `=`. */
  predicate IsRejected(d: JsString) {
    || |d| % 4 == 1
    || (exists i :: 0 <= i < |d| && !IsBase64Char(d[i]) && d[i] != PadChar)
    || (exists i :: 0 <= i < |d| && IsMisplacedPad(d, i))
  }

  /** forgiving-base64 decode fails exactly on the rejection conditions. */
  lemma DecodeFailsIff(s: JsString)
    ensures Decode(s).None? <==> IsRejected(RemoveAsciiWhitespace(s))
  {
    var d := RemoveAsciiWhitespace(s);
    var u := StripPadding(d);
    assert Decode(s).None? <==> |u| % 4 == 1 || exists i :: 0 <= i < |u| && !IsBase64Char(u[i]);
    StrippedRejectedIff(d);
  }

  /** The checks of steps 3 and 4 on the stripped string are the rejection
      conditions on the string before stripping. */
  lemma StrippedRejectedIff(d: JsString)
    ensures var u := StripPadding(d);
            (|u| % 4 == 1 || exists i :: 0 <= i < |u| && !IsBase64Char(u[i])) <==> IsRejected(d)
  {
    var n := |d|;
    if n % 4 == 0 && n >= 2 && d[n - 1] == PadChar && d[n - 2] == PadChar {
      RejectedWhenStripped(d, n - 2);
    } else if n % 4 == 0 && n >= 1 && d[n - 1] == PadChar {
      RejectedWhenStripped(d, n - 1);
    } else {
      RejectedWhenUnpadded(d);
    }
  }

  /** Whitespace removal keeps every other character. */
  lemma {:induction false} KeptByWhitespaceRemoval(s: JsString, i: nat)
    requires i < |s| && !IsAsciiWhitespace(s[i])
    ensures exists j :: 0 <= j < |RemoveAsciiWhitespace(s)| && RemoveAsciiWhitespace(s)[j] == s[i]
    decreases |s|
  {
    var r := RemoveAsciiWhitespace(s);
    if i == 0 {
      assert r[0] == s[0];
    } else {
      KeptByWhitespaceRemoval(s[1..], i - 1);
      var t := RemoveAsciiWhitespace(s[1..]);
      var j :| 0 <= j < |t| && t[j] == s[1..][i - 1];
      if IsAsciiWhitespace(s[0]) {
        assert r == t;
      } else {
        assert r == [s[0]] + t && r[j + 1] == t[j];
      }
    }
  }

  /** A character that is not whitespace, `=` or in the alphabet makes
      decoding fail wherever it stands. */
  lemma DecodeRejectsForeignCharacter(s: JsString, i: nat)
    requires i < |s| && !IsAsciiWhitespace(s[i]) && !IsBase64Char(s[i]) && s[i] != PadChar
    ensures Decode(s) == None
  {
    KeptByWhitespaceRemoval(s, i);
    DecodeFailsIff(s);
  }

  /** When step 2 strips nothing, every `=` is misplaced. */
  lemma RejectedWhenUnpadded(d: JsString)
    requires !(|d| % 4 == 0 && |d| >= 1 && d[|d| - 1] == PadChar)
    ensures IsRejected(d) <==> |d| % 4 == 1 || exists i :: 0 <= i < |d| && !IsBase64Char(d[i])
  {
    if exists i :: 0 <= i < |d| && !IsBase64Char(d[i]) {
      var i :| 0 <= i < |d| && !IsBase64Char(d[i]);
      if d[i] == PadChar {
        assert IsMisplacedPad(d, i);
      }
    }
  }

  /** When step 2 strips the padding of d down to its first k characters,
      d is rejected exactly when a stripped character is outside the
      alphabet. */
  lemma RejectedWhenStripped(d: JsString, k: nat)
    requires |d| % 4 == 0 && |d| - 2 <= k < |d|
    requires forall j :: k <= j < |d| ==> d[j] == PadChar
    requires k == |d| - 1 ==> d[k - 1] != PadChar
    ensures IsRejected(d) <==> exists i :: 0 <= i < k && !IsBase64Char(d[..k][i])
  {
    if exists i :: 0 <= i < k && !IsBase64Char(d[..k][i]) {
      var i :| 0 <= i < k && !IsBase64Char(d[..k][i]);
      assert d[..k][i] == d[i];
      if d[i] == PadChar {
        assert IsMisplacedPad(d, i);
      }
    } else {
      forall i | 0 <= i < |d| ensures IsBase64Char(d[i]) || (d[i] == PadChar && !IsMisplacedPad(d, i)) {
        if i < k { assert d[..k][i] == d[i]; }
      }
    }
  }

  /** Encoding works three octets at a time: the code of a + b is the code
      of a followed by the code of b when a has a whole number of groups. */
  lemma {:induction false} EncodeAppend(a: seq<Byte>, b: seq<Byte>)
    requires |a| % 3 == 0
    ensures Encode(a + b) == Encode(a) + Encode(b)
    decreases |a|
  {
    if a != [] {
      EncodeAppend(a[3..], b);
      var ab := a + b;
      assert ab[0] == a[0] && ab[1] == a[1] && ab[2] == a[2];
      assert ab[3..] == a[3..] + b;
      EncodeFront(ab);
      EncodeFront(a);
      AppendAssociative(EncodeGroup(a[0], a[1], a[2]), Encode(a[3..]), Encode(b));
    } else {
      assert a + b == b;
    }
  }

  lemma EncodeFront(b: seq<Byte>)
    requires |b| >= 3
    ensures Encode(b) == EncodeGroup(b[0], b[1], b[2]) + Encode(b[3..])
  {
    var g := EncodeGroup(b[0], b[1], b[2]);
    assert Encode(b) == g + Encode(b[3..]);
  }

  /** atob undoes btoa on every string btoa accepts. */
  lemma AtobBtoa(s: JsString)
    requires IsLatin1(s)
    ensures Btoa(s).Normal? && Atob(Btoa(s).value) == Normal(s)
  {
    var b := IsomorphicEncode(s);
    DecodeEncode(b);
    assert Atob(Encode(b)) == Normal(IsomorphicDecode(b));
    assert IsomorphicDecode(b) == s;
  }
}
