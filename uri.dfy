/** encodeURIComponent and decodeURIComponent: the Encode and Decode
    operations of ECMA-262 (section 19.2.6) with an empty set of extra
    unescaped, and of preserved, characters.  An escape is `%` and two hex
    digits (section 2.1 of RFC 3986); the octets escaped are UTF-8
    (RFC 3629). */
module Uri {
  import opened JsText
  import opened Utf16
  import opened Utf8

  /** The code units Encode copies unchanged: the ASCII word characters
      (letters, digits, `_`) and `- . ! ~ * ' ( )`. */
  predicate IsAlwaysUnescaped(u: CodeUnit) {
    || IsAsciiAlphanumeric(u)
    || u == 0x5F || u == 0x2D || u == 0x2E || u == 0x21 || u == 0x7E
    || u == 0x2A || u == 0x27 || u == 0x28 || u == 0x29
  }

  /** A hex digit in either case (the HexDigit production). */
  predicate IsHexDigit(u: CodeUnit) {
    IsAsciiDigit(u) || 0x41 <= u <= 0x46 || 0x61 <= u <= 0x66
  }

  function HexValue(u: CodeUnit): (v: int)
    requires IsHexDigit(u)
    ensures 0 <= v < 16
  {
    if IsAsciiDigit(u) then u - 0x30 else if u <= 0x46 then u - 0x41 + 10 else u - 0x61 + 10
  }

  /** The upper-case hex digit Encode writes for a value below 16. */
  function UpperHexDigit(v: int): (u: CodeUnit)
    requires 0 <= v < 16
    ensures IsHexDigit(u) && HexValue(u) == v && IsAscii(u)
  {
    if v < 10 then 0x30 + v else 0x41 + (v - 10)
  }

  /** ParseHexOctet(string, position): the octet spelled by the two hex
      digits at position k, or None when they are not both hex digits. */
  function ParseHexOctet(s: JsString, k: nat): (r: Option<Byte>)
    requires k + 2 <= |s|
    ensures r.Some? <==> IsHexDigit(s[k]) && IsHexDigit(s[k + 1])
  {
    if IsHexDigit(s[k]) && IsHexDigit(s[k + 1]) then Some(HexValue(s[k]) * 16 + HexValue(s[k + 1]))
    else None
  }

  /** `%` and the two upper-case hex digits of an octet. */
  function PercentEscape(b: Byte): (r: JsString)
    ensures |r| == 3 && r[0] == Percent
    ensures ParseHexOctet(r, 1) == Some(b)
  {
    [Percent, UpperHexDigit(b / 16), UpperHexDigit(b % 16)]
  }

  /** The escapes of a sequence of octets, one after the other. */
  function PercentEncode(o: seq<Byte>): (r: JsString)
    ensures |r| == 3 * |o|
    ensures IsAsciiString(r)
  {
    if o == [] then [] else PercentEscape(o[0]) + PercentEncode(o[1..])
  }

  /** encodeURIComponent(s): unescaped code units are copied, every other
      code point is written as the escapes of its UTF-8 octets, and an
      unpaired surrogate throws a URIError.  The result is ASCII. */
  function EncodeURIComponent(s: JsString): (r: Completion<JsString>)
    ensures r.Normal? ==> IsAsciiString(r.value)
    ensures r.Throw? ==> r.error == URIError
    decreases |s|
  {
    if s == [] then Normal([])
    else if IsAlwaysUnescaped(s[0]) then Prepend([s[0]], EncodeURIComponent(s[1..]))
    else
      var cp := CodePointAt(s, 0);
      if cp.isUnpairedSurrogate then Throw(URIError)
      else Prepend(PercentEncode(EncodeScalar(cp.codePoint)), EncodeURIComponent(s[cp.codeUnitCount..]))
  }

  /** Reads the `m` continuation escapes of a multi-octet sequence from the
      front of `s`: each must be `%` and two hex digits. */
  function ReadContinuation(s: JsString, m: nat): (r: Option<seq<Byte>>)
    ensures r.Some? ==> |r.value| == m && 3 * m <= |s|
  {
    if m == 0 then Some([])
    else if |s| < 3 || s[0] != Percent then None
    else match ParseHexOctet(s, 1)
      case None => None
      case Some(b) =>
        match ReadContinuation(s[3..], m - 1)
        case None => None
        case Some(t) => Some([b] + t)
  }

  /** decodeURIComponent(s): code units other than `%` are copied; an escape
      of an octet below 0x80 gives that character; an escaped lead octet with
      2 to 4 leading one bits, followed by that many continuation escapes in
      all, gives the UTF-16 encoding of the code point the octets encode.
      Anything else throws a URIError.  Decoding never makes a string
      longer. */
  function DecodeURIComponent(s: JsString): (r: Completion<JsString>)
    ensures r.Throw? ==> r.error == URIError
    ensures r.Normal? ==> |r.value| <= |s|
    decreases |s|
  {
    if s == [] then Normal([])
    else if s[0] != Percent then Prepend([s[0]], DecodeURIComponent(s[1..]))
    else if |s| < 3 then Throw(URIError)
    else match ParseHexOctet(s, 1)
      case None => Throw(URIError)
      case Some(b) =>
        var n := LeadingOnes(b);
        if n == 0 then Prepend([b], DecodeURIComponent(s[3..]))
        else if n == 1 || n > 4 then Throw(URIError)
        else match ReadContinuation(s[3..], n - 1)
          case None => Throw(URIError)
          case Some(tail) =>
            match DecodeOctets([b] + tail)
            case None => Throw(URIError)
            case Some(v) => Prepend(EncodeCodePoint(v), DecodeURIComponent(s[3 * n..]))
  }

  /** encodeURIComponent returns exactly when the string holds no unpaired
      surrogate; otherwise it throws. */
  lemma {:induction false} EncodeSucceedsIffWellFormed(s: JsString)
    ensures EncodeURIComponent(s).Normal? <==> IsWellFormed(s)
    decreases |s|
  {
    if s != [] {
      WellFormedFirstCodePoint(s);
      var cp := CodePointAt(s, 0);
      if IsAlwaysUnescaped(s[0]) {
        assert cp.codeUnitCount == 1;
        EncodeSucceedsIffWellFormed(s[1..]);
      } else if !cp.isUnpairedSurrogate {
        EncodeSucceedsIffWellFormed(s[cp.codeUnitCount..]);
      }
    }
  }

  /** An ASCII character at the front is copied when it is unescaped and
      otherwise written as the one escape of its octet. */
  lemma EncodeAsciiFront(u: CodeUnit, rest: JsString)
    requires IsAscii(u)
    ensures EncodeURIComponent([u] + rest)
            == Prepend(if IsAlwaysUnescaped(u) then [u] else PercentEscape(u), EncodeURIComponent(rest))
  {
    var s := [u] + rest;
    assert s[0] == u && s[1..] == rest;
    if !IsAlwaysUnescaped(u) {
      assert CodePointAt(s, 0) == CodePointInfo(u, 1, false);
      assert EncodeScalar(u) == [u];
      assert PercentEncode([u]) == PercentEscape(u);
    }
  }

  /** A code unit other than `%` is copied and decoding goes on after it. */
  lemma DecodePlain(u: CodeUnit, rest: JsString)
    requires u != Percent
    ensures DecodeURIComponent([u] + rest) == Prepend([u], DecodeURIComponent(rest))
  {
    assert ([u] + rest)[1..] == rest;
  }

  /** decodeURIComponent undoes encodeURIComponent. */
  lemma {:induction false} DecodeEncode(s: JsString)
    requires IsWellFormed(s)
    ensures EncodeURIComponent(s).Normal?
    ensures DecodeURIComponent(EncodeURIComponent(s).value) == Normal(s)
    decreases |s|
  {
    if s != [] {
      WellFormedFirstCodePoint(s);
      var cp := CodePointAt(s, 0);
      if IsAlwaysUnescaped(s[0]) {
        DecodeEncode(s[1..]);
        DecodeEncodeUnescaped(s);
      } else {
        DecodeEncode(s[cp.codeUnitCount..]);
        DecodeEncodeEscaped(s);
      }
    }
  }

  lemma DecodeEncodeUnescaped(s: JsString)
    requires s != [] && IsAlwaysUnescaped(s[0])
    requires EncodeURIComponent(s[1..]).Normal?
    requires DecodeURIComponent(EncodeURIComponent(s[1..]).value) == Normal(s[1..])
    ensures EncodeURIComponent(s).Normal?
    ensures DecodeURIComponent(EncodeURIComponent(s).value) == Normal(s)
  {
    var e := EncodeURIComponent(s[1..]).value;
    assert EncodeURIComponent(s) == Normal([s[0]] + e);
    DecodePlain(s[0], e);
    assert [s[0]] + s[1..] == s;
  }

  lemma DecodeEncodeEscaped(s: JsString)
    requires s != [] && !IsAlwaysUnescaped(s[0]) && !CodePointAt(s, 0).isUnpairedSurrogate
    requires var c := CodePointAt(s, 0).codeUnitCount;
             && EncodeURIComponent(s[c..]).Normal?
             && DecodeURIComponent(EncodeURIComponent(s[c..]).value) == Normal(s[c..])
    ensures EncodeURIComponent(s).Normal?
    ensures DecodeURIComponent(EncodeURIComponent(s).value) == Normal(s)
  {
    var cp := CodePointAt(s, 0);
    var c := cp.codeUnitCount;
    var e := EncodeURIComponent(s[c..]).value;
    var p := PercentEncode(EncodeScalar(cp.codePoint));
    EncodeEscapedFront(s);
    assert EncodeURIComponent(s) == Normal(p + e);
    DecodeEscapedThenRest(cp.codePoint, e, s[c..]);
    assert EncodeCodePoint(cp.codePoint) + s[c..] == s;
  }

  lemma EncodeEscapedFront(s: JsString)
    requires s != [] && !IsAlwaysUnescaped(s[0]) && !CodePointAt(s, 0).isUnpairedSurrogate
    ensures var cp := CodePointAt(s, 0);
            EncodeURIComponent(s)
            == Prepend(PercentEncode(EncodeScalar(cp.codePoint)), EncodeURIComponent(s[cp.codeUnitCount..]))
  {
  }

  lemma DecodeEscapedThenRest(cp: int, e: JsString, t: JsString)
    requires IsScalarValue(cp) && DecodeURIComponent(e) == Normal(t)
    ensures DecodeURIComponent(PercentEncode(EncodeScalar(cp)) + e) == Normal(EncodeCodePoint(cp) + t)
  {
    DecodeEscapedScalar(cp, e);
  }

  /** A string without `%` decodes to itself: every code unit, including
      ones above 0x7F, passes through unchanged. */
  lemma {:induction false} DecodeWithoutEscapes(s: JsString)
    requires forall i :: 0 <= i < |s| ==> s[i] != Percent
    ensures DecodeURIComponent(s) == Normal(s)
    decreases |s|
  {
    if s != [] {
      DecodeWithoutEscapes(s[1..]);
      assert [s[0]] + s[1..] == s;
    }
  }

  /** A `%` that is not followed by two hex digits. */
  predicate IsBadEscapeAt(s: JsString, i: nat) {
    i < |s| && s[i] == Percent && !(i + 2 < |s| && IsHexDigit(s[i + 1]) && IsHexDigit(s[i + 2]))
  }

  lemma {:induction false} ReadContinuationBadEscape(s: JsString, m: nat, i: nat)
    requires IsBadEscapeAt(s, i) && i < 3 * m
    ensures ReadContinuation(s, m) == None
    decreases m
  {
    if 3 <= |s| && s[0] == Percent && ParseHexOctet(s, 1).Some? {
      assert i >= 3;
      assert s[3..][i - 3] == s[i];
      assert i + 2 < |s| ==> s[3..][i - 3 + 1] == s[i + 1] && s[3..][i - 3 + 2] == s[i + 2];
      ReadContinuationBadEscape(s[3..], m - 1, i - 3);
    }
  }

  /** decodeURIComponent throws on a `%` that is not followed by two hex
      digits, wherever it stands. */
  lemma {:induction false} DecodeBadEscapeThrows(s: JsString, i: nat)
    requires IsBadEscapeAt(s, i)
    ensures DecodeURIComponent(s).Throw?
    decreases |s|
  {
    if s[0] != Percent {
      BadEscapeShift(s, i, 1);
      DecodeBadEscapeThrows(s[1..], i - 1);
    } else if 3 <= |s| && ParseHexOctet(s, 1).Some? {
      var b := ParseHexOctet(s, 1).value;
      var n := LeadingOnes(b);
      assert i >= 3;
      if n == 0 {
        BadEscapeShift(s, i, 3);
        DecodeBadEscapeThrows(s[3..], i - 3);
      } else if 2 <= n <= 4 {
        if i < 3 * n {
          BadEscapeShift(s, i, 3);
          ReadContinuationBadEscape(s[3..], n - 1, i - 3);
        } else if ReadContinuation(s[3..], n - 1).Some? {
          BadEscapeShift(s, i, 3 * n);
          DecodeBadEscapeThrows(s[3 * n..], i - 3 * n);
        }
      }
    }
  }

  lemma BadEscapeShift(s: JsString, i: nat, k: nat)
    requires IsBadEscapeAt(s, i) && k <= i && k <= |s|
    ensures IsBadEscapeAt(s[k..], i - k)
  {
    assert s[k..][i - k] == s[i];
    assert i + 2 < |s| ==> s[k..][i - k + 1] == s[i + 1] && s[k..][i - k + 2] == s[i + 2];
  }

  /** A string made only of escapes: `%` and two hex digits, in either
      case, repeated. */
  predicate IsEscapeRun(s: JsString)
    decreases |s|
  {
    s == [] || (3 <= |s| && s[0] == Percent && ParseHexOctet(s, 1).Some? && IsEscapeRun(s[3..]))
  }

  /** The octets the escapes of an escape run spell, in order. */
  function EscapeRunOctets(s: JsString): (o: seq<Byte>)
    requires IsEscapeRun(s)
    ensures 3 * |o| == |s|
    decreases |s|
  {
    if s == [] then [] else [ParseHexOctet(s, 1).value] + EscapeRunOctets(s[3..])
  }

  /** After its first n escapes, an escape run is the run of the remaining
      octets. */
  lemma {:induction false} EscapeRunDrop(s: JsString, n: nat)
    requires IsEscapeRun(s) && n <= |EscapeRunOctets(s)|
    ensures IsEscapeRun(s[3 * n..]) && EscapeRunOctets(s[3 * n..]) == EscapeRunOctets(s)[n..]
    decreases n
  {
    if n > 0 {
      EscapeRunDrop(s[3..], n - 1);
      assert s[3..][3 * (n - 1)..] == s[3 * n..];
    }
  }

  /** Reading m continuation escapes from an escape run that has fewer
      than m of them, followed by nothing or by a code unit other than `%`,
      fails. */
  lemma {:induction false} ReadContinuationPastRun(e: JsString, q: JsString, m: nat)
    requires IsEscapeRun(e) && (q == [] || q[0] != Percent)
    requires |EscapeRunOctets(e)| < m
    ensures ReadContinuation(e + q, m) == None
    decreases m
  {
    if e == [] {
      assert e + q == q;
    } else {
      var t := e + q;
      assert t[..3] == e[..3] && t[3..] == e[3..] + q;
      assert ParseHexOctet(t, 1) == ParseHexOctet(e, 1);
      ReadContinuationPastRun(e[3..], q, m - 1);
    }
  }

  /** A maximal escape run, upper- or lower-case (one followed by nothing
      or by a code unit other than `%`), decodes exactly when the octets it
      spells are valid UTF-8, and then decoding goes on with what follows. */
  lemma {:induction false} DecodeEscapeRunThen(e: JsString, q: JsString)
    requires IsEscapeRun(e) && (q == [] || q[0] != Percent)
    ensures DecodeURIComponent(e + q).Normal?
            <==> IsValidUtf8(EscapeRunOctets(e)) && DecodeURIComponent(q).Normal?
    decreases |e|
  {
    if e == [] {
      assert e + q == q;
    } else {
      var o := EscapeRunOctets(e);
      ValidUtf8Unfold(o);
      var n := LeadingOnes(o[0]);
      if n == 0 {
        DecodeEscapeRunThen(e[3..], q);
        DecodeRunSingleOctet(e, q);
      } else if 2 <= n <= 4 && n <= |o| {
        EscapeRunDrop(e, n);
        DecodeEscapeRunThen(e[3 * n..], q);
        DecodeRunMultiOctet(e, q);
      } else {
        DecodeRunBadLead(e, q);
      }
    }
  }

  /** One step of DecodeEscapeRunThen: an escape of an octet below 0x80 at
      the front of a run. */
  lemma DecodeRunSingleOctet(e: JsString, q: JsString)
    requires IsEscapeRun(e) && e != [] && LeadingOnes(EscapeRunOctets(e)[0]) == 0
    ensures IsEscapeRun(e[3..]) && EscapeRunOctets(e[3..]) == EscapeRunOctets(e)[1..]
    ensures var o := EscapeRunOctets(e);
            && DecodeOctets(o[..1]).Some?
            && DecodeURIComponent(e + q) == Prepend([o[0]], DecodeURIComponent(e[3..] + q))
  {
    var o := EscapeRunOctets(e);
    var t := e + q;
    assert t[..3] == e[..3] && t[3..] == e[3..] + q;
    assert ParseHexOctet(t, 1) == ParseHexOctet(e, 1) == Some(o[0]);
    assert o[..1] == [o[0]];
  }

  /** One step of DecodeEscapeRunThen: the escapes of a whole multi-octet
      sequence at the front of a run. */
  lemma DecodeRunMultiOctet(e: JsString, q: JsString)
    requires IsEscapeRun(e) && e != []
    requires var n := LeadingOnes(EscapeRunOctets(e)[0]); 2 <= n <= 4 && n <= |EscapeRunOctets(e)|
    ensures var o := EscapeRunOctets(e);
            var n := LeadingOnes(o[0]);
            && (e + q)[3 * n..] == e[3 * n..] + q
            && DecodeURIComponent(e + q)
               == match DecodeOctets(o[..n])
                  case None => Throw(URIError)
                  case Some(v) => Prepend(EncodeCodePoint(v), DecodeURIComponent(e[3 * n..] + q))
  {
    var o := EscapeRunOctets(e);
    var n := LeadingOnes(o[0]);
    var t := e + q;
    assert t[..3] == e[..3] && t[3..] == e[3..] + q;
    assert ParseHexOctet(t, 1) == ParseHexOctet(e, 1) == Some(o[0]);
    ReadContinuationOfRunThen(e[3..], q, n - 1);
    assert [o[0]] + o[1..][..n - 1] == o[..n];
    assert t[3 * n..] == e[3 * n..] + q;
  }

  /** One step of DecodeEscapeRunThen: a lead octet with one or more than
      four leading one bits, or a run too short for its sequence, throws. */
  lemma DecodeRunBadLead(e: JsString, q: JsString)
    requires IsEscapeRun(e) && (q == [] || q[0] != Percent) && e != []
    requires var n := LeadingOnes(EscapeRunOctets(e)[0]); n != 0 && !(2 <= n <= 4 && n <= |EscapeRunOctets(e)|)
    ensures DecodeURIComponent(e + q).Throw? && !IsValidUtf8(EscapeRunOctets(e))
  {
    var o := EscapeRunOctets(e);
    var n := LeadingOnes(o[0]);
    var t := e + q;
    assert t[..3] == e[..3] && t[3..] == e[3..] + q;
    assert ParseHexOctet(t, 1) == ParseHexOctet(e, 1) == Some(o[0]);
    ValidUtf8Unfold(o);
    if 2 <= n <= 4 {
      ReadContinuationPastRun(e[3..], q, n - 1);
    } else {
      assert SequenceLength(o[0]) <= |o| ==> DecodeOctets(o[..SequenceLength(o[0])]).None?;
    }
  }

  /** A string made only of escapes, upper- or lower-case, decodes exactly
      when the octets it spells are valid UTF-8. */
  lemma DecodeEscapeRunIffValidUtf8(s: JsString)
    requires IsEscapeRun(s)
    ensures DecodeURIComponent(s).Normal? <==> IsValidUtf8(EscapeRunOctets(s))
  {
    DecodeEscapeRunThen(s, []);
    assert s + [] == s;
  }

  /** Code units other than `%` in front are copied and decoding goes on
      after them. */
  lemma {:induction false} DecodePlainPrefix(p: JsString, x: JsString)
    requires forall i :: 0 <= i < |p| ==> p[i] != Percent
    ensures DecodeURIComponent(p + x) == Prepend(p, DecodeURIComponent(x))
    decreases |p|
  {
    if p == [] {
      assert p + x == x;
      if DecodeURIComponent(x).Normal? {
        assert p + DecodeURIComponent(x).value == DecodeURIComponent(x).value;
      }
    } else {
      var t := p[1..] + x;
      assert p + x == [p[0]] + t;
      DecodePlain(p[0], t);
      DecodePlainPrefix(p[1..], x);
      PrependTwice([p[0]], p[1..], DecodeURIComponent(x));
      assert [p[0]] + p[1..] == p;
    }
  }

  /** Prepending a and then b in front of it is prepending a + b. */
  lemma PrependTwice(a: JsString, b: JsString, c: Completion<JsString>)
    ensures Prepend(a, Prepend(b, c)) == Prepend(a + b, c)
  {
    if c.Normal? {
      AppendAssociative(a, b, c.value);
    }
  }

  /** Reading m continuation escapes from an escape run followed by
      anything gives the run's first m octets. */
  lemma {:induction false} ReadContinuationOfRunThen(e: JsString, rest: JsString, m: nat)
    requires IsEscapeRun(e) && m <= |EscapeRunOctets(e)|
    ensures ReadContinuation(e + rest, m) == Some(EscapeRunOctets(e)[..m])
    decreases m
  {
    if m > 0 {
      var o := EscapeRunOctets(e);
      var t := e + rest;
      assert t[..3] == e[..3] && t[3..] == e[3..] + rest;
      assert ParseHexOctet(t, 1) == ParseHexOctet(e, 1);
      ReadContinuationOfRunThen(e[3..], rest, m - 1);
      assert [o[0]] + o[1..][..m - 1] == o[..m];
    }
  }

  /** An escape run, upper- or lower-case, that spells the UTF-8 octets of
      a scalar value decodes to that code point's UTF-16 form, and decoding
      goes on with what follows. */
  lemma DecodeEscapeRunScalar(e: JsString, cp: int, rest: JsString)
    requires IsScalarValue(cp) && IsEscapeRun(e) && EscapeRunOctets(e) == EncodeScalar(cp)
    ensures DecodeURIComponent(e + rest) == Prepend(EncodeCodePoint(cp), DecodeURIComponent(rest))
  {
    var o := EncodeScalar(cp);
    var t := e + rest;
    var n := |o|;
    assert t[..3] == e[..3] && t[3..] == e[3..] + rest;
    assert ParseHexOctet(t, 1) == ParseHexOctet(e, 1) == Some(o[0]);
    DecodeEncodeScalar(cp);
    if n == 1 {
      assert o == [cp];
    } else {
      ReadContinuationOfRunThen(e[3..], rest, n - 1);
      assert o[1..][..n - 1] == o[1..];
      assert [o[0]] + o[1..] == o;
      assert t[3 * n..] == rest;
    }
  }

  /** The escapes encodeURIComponent writes for a sequence of octets form
      an escape run that spells those octets. */
  lemma {:induction false} PercentEncodeIsRun(o: seq<Byte>)
    ensures IsEscapeRun(PercentEncode(o)) && EscapeRunOctets(PercentEncode(o)) == o
    decreases |o|
  {
    if o != [] {
      var t := PercentEncode(o);
      assert t == PercentEscape(o[0]) + PercentEncode(o[1..]);
      assert t[..3] == PercentEscape(o[0]) && t[3..] == PercentEncode(o[1..]);
      assert ParseHexOctet(t, 1) == ParseHexOctet(PercentEscape(o[0]), 1);
      PercentEncodeIsRun(o[1..]);
      assert [o[0]] + o[1..] == o;
    }
  }

  /** The escapes of the UTF-8 octets of a scalar value, as
      encodeURIComponent writes them, decode to that code point's UTF-16
      form, and decoding then goes on with what follows. */
  lemma DecodeEscapedScalar(cp: int, rest: JsString)
    requires IsScalarValue(cp)
    ensures DecodeURIComponent(PercentEncode(EncodeScalar(cp)) + rest)
            == Prepend(EncodeCodePoint(cp), DecodeURIComponent(rest))
  {
    PercentEncodeIsRun(EncodeScalar(cp));
    DecodeEscapeRunScalar(PercentEncode(EncodeScalar(cp)), cp, rest);
  }

  /** encodeURIComponent on ASCII text, one character at a time: an
      unescaped character is copied, any other is written as one escape. */
  function EscapeAscii(s: JsString): (r: JsString)
    requires IsAsciiString(s)
    ensures IsAsciiString(r)
  {
    if s == [] then []
    else (if IsAlwaysUnescaped(s[0]) then [s[0]] else PercentEscape(s[0])) + EscapeAscii(s[1..])
  }

  /** On ASCII text encodeURIComponent agrees with EscapeAscii. */
  lemma {:induction false} EncodeAsciiString(s: JsString)
    requires IsAsciiString(s)
    ensures EncodeURIComponent(s) == Normal(EscapeAscii(s))
    decreases |s|
  {
    if s != [] {
      EncodeAsciiString(s[1..]);
      assert [s[0]] + s[1..] == s;
      EncodeAsciiFront(s[0], s[1..]);
    }
  }

  /** EscapeAscii works character by character, so it distributes over
      concatenation. */
  lemma {:induction false} EscapeAsciiAppend(a: JsString, b: JsString)
    requires IsAsciiString(a) && IsAsciiString(b)
    ensures IsAsciiString(a + b)
    ensures EscapeAscii(a + b) == EscapeAscii(a) + EscapeAscii(b)
    decreases |a|
  {
    assert forall i :: 0 <= i < |a + b| ==> (a + b)[i] == if i < |a| then a[i] else b[i - |a|];
    if a != [] {
      assert (a + b)[1..] == a[1..] + b;
      EscapeAsciiAppend(a[1..], b);
      var h := if IsAlwaysUnescaped(a[0]) then [a[0]] else PercentEscape(a[0]);
      AppendAssociative(h, EscapeAscii(a[1..]), EscapeAscii(b));
    } else {
      assert a + b == b;
    }
  }

  /** Text made only of unescaped characters is its own encoding. */
  lemma {:induction false} EscapeAsciiUnescaped(s: JsString)
    requires forall i :: 0 <= i < |s| ==> IsAscii(s[i]) && IsAlwaysUnescaped(s[i])
    ensures EscapeAscii(s) == s
    decreases |s|
  {
    if s != [] {
      EscapeAsciiUnescaped(s[1..]);
      assert [s[0]] + s[1..] == s;
    }
  }
}
