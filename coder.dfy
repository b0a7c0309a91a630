/** The Base64Coder class: a stateless codec whose encode is
    btoa(encodeURIComponent(text)), whose decode is
    decodeURIComponent(atob(base64)) with every thrown error turned into
    null, and whose process dispatches between the two on an action name.
    The class has no fields, so its methods are functions here. */
module Base64Coder {
  import opened JsText
  import opened Utf16
  import opened Utf8
  import Uri
  import B = ForgivingBase64

  /** encode(text): the base64 of the percent-encoded text.  An error thrown
      by encodeURIComponent is not caught; btoa never throws here, so the
      only error is a URIError.  What encode returns is padded base64:
      alphabet characters and `=` only, a length that is a multiple of 4,
      and `=` only as one or two final padding characters. */
  function Encode(text: JsString): (r: Completion<JsString>)
    ensures r.Throw? ==> r.error == URIError
    ensures r.Normal? ==> B.IsPaddedBase64(r.value)
  {
    match Uri.EncodeURIComponent(text)
    case Throw(e) => Throw(e)
    case Normal(escaped) =>
      assert B.IsLatin1(escaped) by {
        forall i | 0 <= i < |escaped| ensures escaped[i] < 0x100 {
          assert IsAscii(escaped[i]);
        }
      }
      B.Btoa(escaped)
  }

  /** decode(base64): the text, or None (null) when atob or
      decodeURIComponent throws.  Input that forgiving-base64 rejects
      always gives null. */
  function Decode(base64: JsString): (r: Option<JsString>)
    ensures B.IsRejected(B.RemoveAsciiWhitespace(base64)) ==> r == None
  {
    match B.Atob(base64)
    case Throw(_) => None
    case Normal(payload) =>
      match Uri.DecodeURIComponent(payload)
      case Throw(_) => None
      case Normal(text) => Some(text)
  }

  /** process(action, text): encode(text) when action is exactly the string
      'encode', and decode(text) for every other action.  The result is what
      the JavaScript method returns (a string or null) or throws.  It throws
      only when asked to encode a text with an unpaired surrogate, and it
      returns null only when it did not encode. */
  function Process(action: JsString, text: JsString): (r: Completion<Option<JsString>>)
    ensures r.Throw? ==> action == FromString("encode") && !IsWellFormed(text)
    ensures r.Normal? && r.value.None? ==> action != FromString("encode")
  {
    if action == FromString("encode") then
      EncodeThrowsIff(text);
      match Encode(text)
      case Normal(encoded) => Normal(Some(encoded))
      case Throw(e) => Throw(e)
    else
      Normal(Decode(text))
  }

  /** encode throws exactly when the text holds an unpaired surrogate, and
      then a URIError; on well-formed text the percent-encoded intermediate
      is ASCII, so btoa never rejects it. */
  lemma EncodeThrowsIff(text: JsString)
    ensures Encode(text).Throw? <==> !IsWellFormed(text)
    ensures Encode(text).Throw? ==> Encode(text).error == URIError
    ensures IsWellFormed(text) ==>
              && Uri.EncodeURIComponent(text).Normal?
              && IsAsciiString(Uri.EncodeURIComponent(text).value)
              && B.IsLatin1(Uri.EncodeURIComponent(text).value)
  {
    Uri.EncodeSucceedsIffWellFormed(text);
  }

  /** decode undoes encode on every string without an unpaired surrogate. */
  lemma RoundTrip(text: JsString)
    requires IsWellFormed(text)
    ensures Encode(text).Normal?
    ensures Decode(Encode(text).value) == Some(text)
  {
    EncodeThrowsIff(text);
    var escaped := Uri.EncodeURIComponent(text).value;
    B.AtobBtoa(escaped);
    Uri.DecodeEncode(text);
  }

  /** Every text a Dafny string can hold (any sequence of Unicode scalar
      values) encodes, and decodes back. */
  lemma RoundTripUnicode(s: string)
    ensures Encode(FromString(s)).Normal?
    ensures Decode(Encode(FromString(s)).value) == Some(FromString(s))
  {
    RoundTrip(FromString(s));
  }

  /** The empty string encodes and decodes to the empty string. */
  lemma EmptyString()
    ensures Encode([]) == Normal([])
    ensures Decode([]) == Some([])
  {
    assert B.IsomorphicEncode([]) == [];
    assert B.StripPadding(B.RemoveAsciiWhitespace([])) == [];
    assert B.IsomorphicDecode([]) == [];
  }

  /** decode returns null when the input, once whitespace is removed, has
      a length of 1 modulo 4, a character outside the alphabet, or a `=`
      that is not final padding; otherwise atob succeeds and decode returns
      null exactly when decodeURIComponent throws on the payload. */
  lemma DecodeNullIff(base64: JsString)
    ensures B.IsRejected(B.RemoveAsciiWhitespace(base64)) ==> Decode(base64) == None
    ensures !B.IsRejected(B.RemoveAsciiWhitespace(base64)) ==>
              && B.Atob(base64).Normal?
              && (Decode(base64) == None <==> Uri.DecodeURIComponent(B.Atob(base64).value).Throw?)
  {
    B.DecodeFailsIff(base64);
  }

  /** decode returns null when the payload holds a `%` that is not
      followed by two hex digits. */
  lemma DecodeNullOnBadEscape(base64: JsString, i: nat)
    requires B.Atob(base64).Normal? && Uri.IsBadEscapeAt(B.Atob(base64).value, i)
    ensures Decode(base64) == None
  {
    Uri.DecodeBadEscapeThrows(B.Atob(base64).value, i);
  }

  /** When the payload is text without `%`, then a maximal run of escapes
      of either case, then the rest (empty or starting with a code unit
      other than `%`), decode returns null exactly when the escaped octets
      are not valid UTF-8 or decoding the rest fails. */
  lemma DecodeEscapedOctets(base64: JsString, p: JsString, e: JsString, q: JsString)
    requires B.Atob(base64) == Normal(p + e + q)
    requires forall i :: 0 <= i < |p| ==> p[i] != Percent
    requires Uri.IsEscapeRun(e) && (q == [] || q[0] != Percent)
    ensures Decode(base64) == None
            <==> !IsValidUtf8(Uri.EscapeRunOctets(e)) || Uri.DecodeURIComponent(q).Throw?
  {
    assert p + e + q == p + (e + q);
    Uri.DecodePlainPrefix(p, e + q);
    Uri.DecodeEscapeRunThen(e, q);
  }

  /** Decoded octets with no `%` among them come back unchanged, each as
      the Latin-1 character of the same value: decode does not insist on
      UTF-8 there. */
  lemma DecodeLatin1PassThrough(base64: JsString)
    requires B.Decode(base64).Some?
    requires forall i :: 0 <= i < |B.Decode(base64).value| ==> B.Decode(base64).value[i] != Percent
    ensures Decode(base64) == Some(B.IsomorphicDecode(B.Decode(base64).value))
  {
    Uri.DecodeWithoutEscapes(B.IsomorphicDecode(B.Decode(base64).value));
  }

  /** process calls encode for the action 'encode' and decode for every
      other action, 'decode' among them. */
  lemma ProcessDispatch(action: JsString, text: JsString)
    ensures action == FromString("encode") ==>
              Process(action, text) == match Encode(text)
                                       case Normal(v) => Normal(Some(v))
                                       case Throw(e) => Throw(e)
    ensures action != FromString("encode") ==> Process(action, text) == Normal(Decode(text))
    ensures Process(FromString("decode"), text) == Normal(Decode(text))
  {
    var enc, dec := FromString("encode"), FromString("decode");
    assert enc[0] == 'e' as int && dec[0] == 'd' as int;
  }

  /** Through process, decoding what encoding gave returns the text. */
  lemma ProcessRoundTrip(text: JsString)
    requires IsWellFormed(text)
    ensures Process(FromString("encode"), text).Normal?
    ensures var encoded := Process(FromString("encode"), text).value;
            encoded.Some? && Process(FromString("decode"), encoded.value) == Normal(Some(text))
  {
    RoundTrip(text);
    ProcessDispatch(FromString("decode"), Encode(text).value);
  }
}
