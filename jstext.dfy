/** Values of the JavaScript host that the codec works on: strings as
    sequences of UTF-16 code units, bytes, and the two outcomes of a call
    (it returns a value or it throws). */
module JsText {

  /** One UTF-16 code unit; a JavaScript string is a sequence of these and
      may hold unpaired surrogates. */
  type CodeUnit = u: int | 0 <= u < 0x1_0000

  type JsString = seq<CodeUnit>

  /** One octet. */
  type Byte = b: int | 0 <= b < 0x100

  /** The two built-in exceptions the codec can meet: URIError from
      encodeURIComponent / decodeURIComponent and the InvalidCharacterError
      DOMException from btoa / atob. */
  datatype Error = URIError | InvalidCharacterError

  /** The outcome of a JavaScript call: a returned value or a thrown error. */
  datatype Completion<T> = Normal(value: T) | Throw(error: Error)

  /** A value that may be JavaScript `null`. */
  datatype Option<T> = None | Some(value: T)

  const Percent: CodeUnit := 0x25
  const PadChar: CodeUnit := 0x3D

  predicate IsAscii(u: CodeUnit) { u < 0x80 }

  predicate IsAsciiString(s: JsString) { forall i :: 0 <= i < |s| ==> IsAscii(s[i]) }

  predicate IsAsciiDigit(u: CodeUnit) { 0x30 <= u <= 0x39 }
  predicate IsAsciiUpper(u: CodeUnit) { 0x41 <= u <= 0x5A }
  predicate IsAsciiLower(u: CodeUnit) { 0x61 <= u <= 0x7A }
  predicate IsAsciiAlphanumeric(u: CodeUnit) { IsAsciiDigit(u) || IsAsciiUpper(u) || IsAsciiLower(u) }

  /** The value `prefix + v` where `c` returns `v`; a thrown error stays thrown. */
  function Prepend(prefix: JsString, c: Completion<JsString>): (r: Completion<JsString>)
  {
    match c
    case Normal(v) => Normal(prefix + v)
    case Throw(e) => Throw(e)
  }

  lemma AppendAssociative<T>(x: seq<T>, y: seq<T>, z: seq<T>)
    ensures x + (y + z) == x + y + z
  {
  }
}
