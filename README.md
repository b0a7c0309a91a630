# Base64Coder in Dafny

A model of the `Base64Coder` class of a small browser text codec
(`index.js`). The class has no fields and three methods:

- `encode(text)` is `btoa(encodeURIComponent(text))`. The text is first
  percent-encoded: each character outside the unescaped set of
  `encodeURIComponent` becomes the `%XX` escapes of its UTF-8 octets. That
  ASCII string is then base64-encoded with the standard alphabet and `=`
  padding.
- `decode(base64)` is `decodeURIComponent(atob(base64))`. Any thrown error
  becomes `null`.
- `process(action, text)` calls `encode` when `action` is exactly
  `'encode'` and `decode` otherwise.

The four host primitives are modelled from their standards:

- `encodeURIComponent` and `decodeURIComponent`: the Encode and Decode
  operations of ECMA-262 (section 19.2.6).
- UTF-8: RFC 3629.
- Escapes: section 2.1 of RFC 3986.
- `btoa` and `atob`: forgiving-base64 encode and decode from the
  "Forgiving base64" section of the WHATWG Infra standard, over the alphabet
  of section 4 of RFC 4648.

Modules, one per concept:

| file | module | what it holds |
|---|---|---|
| `jstext.dfy` | `JsText` | JavaScript strings as UTF-16 code units, octets, `Completion` (a call returns or throws), `Option` (a value or `null`) |
| `utf16.dfy` | `Utf16` | surrogate pairs, CodePointAt, strings with no unpaired surrogate |
| `utf8.dfy` | `Utf8` | UTF-8 octets of a scalar value, the inverse check, valid UTF-8 octet strings |
| `uri.dfy` | `Uri` | `encodeURIComponent` and `decodeURIComponent` |
| `base64.dfy` | `ForgivingBase64` | `btoa`, `atob` and the forgiving-base64 algorithms under them |
| `coder.dfy` | `Base64Coder` | `encode`, `decode`, `process` and the codec's properties |
| `scenarios.dfy` | `CoderScenarios` | concrete inputs and their outcomes |

JavaScript strings are `seq<CodeUnit>` (UTF-16 code units, `0..0xFFFF`), not
Dafny `string`. This lets an unpaired surrogate be written down.
`Utf16.FromString` turns a Dafny string literal into its UTF-16 form.

What the code does differs from a plain "UTF-8 then base64" codec. The model
follows the code:

- The base64 payload is the percent-encoded text. `encode("Hello, World!")`
  is `"SGVsbG8lMkMlMjBXb3JsZCE="`, the base64 of `"Hello%2C%20World!"`. It is
  not `"SGVsbG8sIFdvcmxkIQ=="`.
- `encode` is not total. A string with an unpaired surrogate makes
  `encodeURIComponent` throw a URIError, and `encode` does not catch it.
- `decode` does not insist on UTF-8 outside escapes. Decoded octets that are
  not part of a `%XX` escape come back as Latin-1 characters. The base64 of
  the octets `FF FE` (`"//4="`) decodes to the two characters U+00FF U+00FE,
  not to `null`.
- `atob` ignores ASCII whitespace anywhere in the input and accepts missing
  padding.
- A payload with a `%` that is not followed by two hex digits gives `null`.
  For example, the plain base64 of `"100%"` gives `null`.

## Model

| member | source | states |
|---|---|---|
| `Base64Coder.Encode` | index.js:8-10 | encode is btoa of encodeURIComponent; its only error is a URIError, and what it returns has only alphabet characters and `=`, a length that is a multiple of 4, and `=` only as one or two final padding characters |
| `Base64Coder.Decode` | index.js:18-24 | decode is decodeURIComponent of atob, with either throw turned into null; input that forgiving-base64 rejects always gives null |
| `Base64Coder.Process` | index.js:32-34 | process encodes when the action is exactly 'encode' and decodes otherwise; it throws only when asked to encode a text with an unpaired surrogate, and returns null only when it did not encode |
| `Base64Coder.EncodeThrowsIff` | index.js:8-10 | encode throws exactly when the text has an unpaired surrogate, and then a URIError; on well-formed text the percent-encoded intermediate is ASCII (so Latin-1), so btoa never rejects it |
| `Base64Coder.RoundTrip` | index.js:8-24 | for every string with no unpaired surrogate, encode succeeds and decode of its result returns the string |
| `Base64Coder.RoundTripUnicode` | index.js:8-24 | every sequence of Unicode scalar values, in its UTF-16 form, encodes and decodes back |
| `Base64Coder.EmptyString` | index.js:8-24 | encode of the empty string is the empty string, and decode of the empty string is the empty string |
| `Base64Coder.DecodeNullIff` | index.js:18-24 | after ASCII whitespace is removed: a length of 1 modulo 4, a foreign character or a misplaced `=` gives null; otherwise atob succeeds and decode is null exactly when decodeURIComponent throws on the payload |
| `Base64Coder.DecodeNullOnBadEscape` | index.js:20-23 | a payload with a `%` not followed by two hex digits gives null |
| `Base64Coder.DecodeEscapedOctets` | index.js:20-23 | when the payload is text without `%`, then a maximal run of `%XX` escapes (hex digits of either case), then a rest that does not start with `%`, decode is null exactly when the escaped octets are not valid UTF-8 or decoding the rest fails |
| `Base64Coder.DecodeLatin1PassThrough` | index.js:20 | when the decoded octets hold no `%`, decode returns them unchanged, each as the Latin-1 character of the same value |
| `Base64Coder.ProcessDispatch` | index.js:32-34 | process is encode when the action is exactly 'encode', and decode for every other action, 'decode' included |
| `Base64Coder.ProcessRoundTrip` | index.js:32-34 | process 'decode' applied to what process 'encode' returned gives back the text |
| `Uri.EncodeURIComponent` | index.js:9 | encodeURIComponent returns an ASCII string or throws a URIError, never another error |
| `Uri.EncodeSucceedsIffWellFormed` | index.js:9 | encodeURIComponent returns exactly when the string holds no unpaired surrogate |
| `Uri.DecodeEncode` | index.js:20 | decodeURIComponent undoes encodeURIComponent on every well-formed string |
| `Uri.DecodeWithoutEscapes` | index.js:20 | a string without `%` decodes to itself, including code units above 0x7F |
| `Uri.DecodeBadEscapeThrows` | index.js:20 | decodeURIComponent throws on a `%` not followed by two hex digits, wherever it stands |
| `Uri.DecodeURIComponent` | index.js:20 | decodeURIComponent throws a URIError and never another error, and what it returns is never longer than its input; what it returns is stated by the lemmas below |
| `Uri.DecodeEscapeRunScalar` | index.js:20 | escapes of either case that spell the UTF-8 octets of a scalar value decode to that code point's UTF-16 form, then decoding goes on with what follows |
| `Uri.DecodeEscapeRunIffValidUtf8` | index.js:20 | a string made only of escapes, with hex digits of either case, decodes exactly when the octets it spells are valid UTF-8 |
| `Uri.DecodeEscapedScalar` | index.js:20 | the upper-case escapes that encodeURIComponent writes for the UTF-8 octets of a scalar value decode to that code point's UTF-16 form, then decoding goes on |
| `Uri.PercentEncodeIsRun` | index.js:20 | the escapes encodeURIComponent writes for a sequence of octets form an escape run that spells exactly those octets |
| `Uri.DecodeEscapeRunThen` | index.js:20 | a maximal escape run followed by a rest that does not start with `%` decodes exactly when the octets it spells are valid UTF-8 and the rest decodes |
| `Uri.DecodePlainPrefix` | index.js:20 | text without `%` in front of any string is copied through unchanged, and the outcome is otherwise that of decoding the string after it |
| `Uri.EncodeAsciiString` | index.js:9 | on ASCII text encodeURIComponent copies unescaped characters and writes every other one as a single escape |
| `Uri.PercentEscape` | index.js:9 | an escape is `%` and two hex digits that parse back to the octet |
| `Utf8.DecodeEncodeScalar` | index.js:9 | the UTF-8 octets of a scalar value decode back to it |
| `Utf8.DecodeOctetsInverse` | index.js:20 | octets accepted as one UTF-8 character are the UTF-8 encoding of the code point found |
| `Utf8.ValidUtf8Unfold` | index.js:20 | validity of UTF-8 is decided by the lead octet's sequence length, one character at a time |
| `Utf16.CodePointAt` | index.js:9 | the code unit at a position is an unpaired surrogate exactly when it is a trailing surrogate, or a leading one not followed by a trailing one, and then it is read alone; otherwise the code point read is a scalar value whose UTF-16 form is the code units read |
| `Utf16.WellFormedFirstCodePoint` | index.js:9 | an unpaired surrogate at the front makes a string ill formed; otherwise the string is well formed exactly when the rest is |
| `ForgivingBase64.Base64Value` | index.js:20 | the value of an alphabet character is below 64 and maps back to that character |
| `ForgivingBase64.Btoa` | index.js:9 | btoa returns exactly when every code unit is below 0x100 and otherwise throws an InvalidCharacterError; what it returns is padded base64 of four characters for every three code units or part of three |
| `ForgivingBase64.Atob` | index.js:20 | atob throws an InvalidCharacterError exactly on the forgiving-base64 rejection conditions, stated after whitespace removal; what it returns has only code units below 0x100 |
| `ForgivingBase64.EncodeIsPadded` | index.js:9 | btoa's base64 is padded base64 |
| `ForgivingBase64.EncodeLength` | index.js:9 | btoa writes four characters for every three octets or part of three |
| `ForgivingBase64.DecodeEncode` | index.js:20 | forgiving-base64 decode undoes encode |
| `ForgivingBase64.DecodeUnpadded` | index.js:20 | decode also accepts the code with its padding removed |
| `ForgivingBase64.DecodeIgnoresWhitespace` | index.js:20 | inserting an ASCII whitespace anywhere does not change what decode returns |
| `ForgivingBase64.DecodeFailsIff` | index.js:20 | decode fails exactly when, after whitespace removal, the length is 1 modulo 4, a character is outside the alphabet and `=`, or a `=` is not one of at most two final padding characters |
| `ForgivingBase64.DecodeRejectsForeignCharacter` | index.js:20 | a character that is not whitespace, `=` or in the alphabet makes decode fail wherever it stands |
| `ForgivingBase64.AtobBtoa` | index.js:9-20 | atob undoes btoa on every string btoa accepts |
| `ForgivingBase64.EncodeAppend` | index.js:9 | the code of a whole number of three-octet groups followed by more octets is the two codes joined |
| `CoderScenarios.HelloWorld` | index.js:8-24 | encode("Hello, World!") is "SGVsbG8lMkMlMjBXb3JsZCE=" and decode returns the text from it |
| `CoderScenarios.DecodeRejectsShortPadding` | index.js:18-24 | decode("QQ=") is null |
| `CoderScenarios.DecodeRejectsForeignCharacters` | index.js:18-24 | decode("not base64!!") is null |
| `CoderScenarios.EncodeRejectsLoneSurrogate` | index.js:8-10 | encode of a lone leading surrogate throws a URIError |
| `CoderScenarios.EncodeEscapesSpace` | index.js:8-10 | encode("a b") is "YSUyMGI=", the base64 of "a%20b" |
| `CoderScenarios.DecodeUnescapesSpace` | index.js:18-24 | decode("YSUyMGI=") is "a b" |
| `CoderScenarios.DecodeRejectsBarePercent` | index.js:18-24 | decode("MTAwJQ==") is null, since its payload "100%" ends in a bare `%` |
| `CoderScenarios.DecodeLowerCaseEscapes` | index.js:20 | decodeURIComponent("%c3%a9") is the one character U+00E9 |
| `CoderScenarios.DecodePassesLatin1Through` | index.js:18-24 | decode("//4=") is the two Latin-1 characters U+00FF U+00FE, not null |
| `CoderScenarios.DecodeRejectsBadUtf8InText` | index.js:18-24 | decode("YSVDMyUyOGI=") is null: its payload "a%C3%28b" escapes the octets C3 28, which are not UTF-8 |

## Left out

- The `App` class (index.js:38-181) is not part of this model. It covers DOM lookup, event listeners, output fields and the character counter, which is presentation only.
- Clipboard copying (`copyToClipboard`, `fallbackCopyTextToClipboard`), `showMessage` and the `DOMContentLoaded` bootstrap are not part of this model. They are browser side effects and timing.
- Exceptions are values here. `Completion` says whether a call returns or throws. The `try/catch` of `decode` maps `Throw` to `None`, which stands for `null`.
- The arguments of `encode`, `decode` and `process` are JavaScript strings. The conversion of a non-string argument to a string is not modelled.
- The Encode and Decode operations of ECMA-262 are modelled as recursive functions over the string, not as the specification's index loops. The results are the same.
- Base64Coder.DecodeEscapedOctets: states the UTF-8 condition for the first escape run of the payload, taken maximal (any run can be widened to the maximal run that contains it), and leaves the rest to whatever is known of decoding the rest; it does not give a single closed condition for payloads with several runs.
- Uri.DecodeURIComponent: its contract states only that the one error is a URIError and that the result is never longer than the input. What it returns is stated by `Uri.DecodeWithoutEscapes` (no `%`), `Uri.DecodeEscapeRunScalar` (escapes of a character, either case), `Uri.DecodeBadEscapeThrows` (a bad escape), `Uri.DecodePlainPrefix` (text without `%` in front), `Uri.DecodeEscapeRunThen` (a maximal escape run and what follows it), `Uri.DecodeEscapeRunIffValidUtf8` (a payload made only of escapes) and `Uri.DecodeEncode` (the round trip). Together these describe any input piece by piece, but no single lemma states the outcome for an arbitrary string in one closed form.
- Uri.EncodeURIComponent: its contract states that the result is ASCII and the only error is a URIError. Which strings succeed, and the round trip, are stated by `Uri.EncodeSucceedsIffWellFormed` and `Uri.DecodeEncode`.
