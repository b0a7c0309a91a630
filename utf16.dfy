/** UTF-16 as JavaScript strings use it: surrogate pairs, the CodePointAt
    and UTF16EncodeCodePoint operations of ECMA-262 (sections 11.1.4 and
    11.1.1), and what it means for a string to hold no unpaired surrogate. */
module Utf16 {
  import opened JsText

  predicate IsLeadingSurrogate(u: CodeUnit) { 0xD800 <= u <= 0xDBFF }
  predicate IsTrailingSurrogate(u: CodeUnit) { 0xDC00 <= u <= 0xDFFF }

  /** A Unicode scalar value: a code point that is not a surrogate. */
  predicate IsScalarValue(cp: int) { 0 <= cp <= 0x10FFFF && !(0xD800 <= cp <= 0xDFFF) }

  /** The string holds no unpaired surrogate: every leading surrogate is
      directly followed by a trailing one, and every trailing surrogate is
      directly preceded by a leading one. */
  predicate IsWellFormed(s: JsString) {
    && (forall i :: 0 <= i < |s| && IsLeadingSurrogate(s[i]) ==> i + 1 < |s| && IsTrailingSurrogate(s[i + 1]))
    && (forall i :: 0 <= i < |s| && IsTrailingSurrogate(s[i]) ==> 0 < i && IsLeadingSurrogate(s[i - 1]))
  }

  /** UTF16EncodeCodePoint: one code unit below 0x10000, a surrogate pair
      above. */
  function EncodeCodePoint(cp: int): (r: JsString)
    requires 0 <= cp <= 0x10FFFF
    ensures 1 <= |r| <= 2
    ensures IsScalarValue(cp) ==> IsWellFormed(r)
  {
    if cp <= 0xFFFF then [cp]
    else [(cp - 0x1_0000) / 0x400 + 0xD800, (cp - 0x1_0000) % 0x400 + 0xDC00]
  }

  /** UTF16SurrogatePairToCodePoint. */
  function SurrogatePairToCodePoint(lead: CodeUnit, trail: CodeUnit): (cp: int)
    requires IsLeadingSurrogate(lead) && IsTrailingSurrogate(trail)
    ensures 0x1_0000 <= cp <= 0x10FFFF
    ensures EncodeCodePoint(cp) == [lead, trail]
  {
    (lead - 0xD800) * 0x400 + (trail - 0xDC00) + 0x1_0000
  }

  /** The record CodePointAt returns. */
  datatype CodePointInfo = CodePointInfo(codePoint: int, codeUnitCount: nat, isUnpairedSurrogate: bool)

  /** CodePointAt(string, position): the code point that starts at position k,
      how many code units it takes, and whether it is an unpaired surrogate. */
  function CodePointAt(s: JsString, k: nat): (r: CodePointInfo)
    requires k < |s|
    ensures 1 <= r.codeUnitCount <= 2 && k + r.codeUnitCount <= |s|
    ensures !r.isUnpairedSurrogate ==>
              IsScalarValue(r.codePoint) && EncodeCodePoint(r.codePoint) == s[k..k + r.codeUnitCount]
    ensures r.isUnpairedSurrogate ==> r.codeUnitCount == 1 && r.codePoint == s[k]
    ensures r.isUnpairedSurrogate <==>
              || IsTrailingSurrogate(s[k])
              || (IsLeadingSurrogate(s[k]) && !(k + 1 < |s| && IsTrailingSurrogate(s[k + 1])))
  {
    var first := s[k];
    if !IsLeadingSurrogate(first) && !IsTrailingSurrogate(first) then
      CodePointInfo(first, 1, false)
    else if IsTrailingSurrogate(first) || k + 1 == |s| then
      CodePointInfo(first, 1, true)
    else if !IsTrailingSurrogate(s[k + 1]) then
      CodePointInfo(first, 1, true)
    else
      CodePointInfo(SurrogatePairToCodePoint(first, s[k + 1]), 2, false)
  }

  /** Joining two well-formed strings keeps the result well formed, and a
      split that does not cut a surrogate pair splits well-formedness. */
  lemma WellFormedConcat(a: JsString, b: JsString)
    requires !(|a| > 0 && |b| > 0 && IsLeadingSurrogate(a[|a| - 1]) && IsTrailingSurrogate(b[0]))
    ensures IsWellFormed(a + b) <==> IsWellFormed(a) && IsWellFormed(b)
  {
    var s := a + b;
    assert |a| > 0 && |b| > 0 ==> s[|a| - 1] == a[|a| - 1] && s[|a|] == b[0];
    if IsWellFormed(s) {
      forall i | 0 <= i < |a| && IsLeadingSurrogate(a[i])
        ensures i + 1 < |a| && IsTrailingSurrogate(a[i + 1])
      {
        assert s[i] == a[i];
        assert i + 1 < |a| ==> s[i + 1] == a[i + 1];
      }
      forall i | 0 <= i < |a| && IsTrailingSurrogate(a[i])
        ensures 0 < i && IsLeadingSurrogate(a[i - 1])
      {
        assert s[i] == a[i];
        assert 0 < i ==> s[i - 1] == a[i - 1];
      }
      forall i | 0 <= i < |b| && IsLeadingSurrogate(b[i])
        ensures i + 1 < |b| && IsTrailingSurrogate(b[i + 1])
      {
        assert s[|a| + i] == b[i];
        assert |a| + i + 1 < |s| ==> s[|a| + i + 1] == b[i + 1];
      }
      forall i | 0 <= i < |b| && IsTrailingSurrogate(b[i])
        ensures 0 < i && IsLeadingSurrogate(b[i - 1])
      {
        assert s[|a| + i] == b[i];
        assert 0 < i ==> s[|a| + i - 1] == b[i - 1];
      }
    }
    if IsWellFormed(a) && IsWellFormed(b) {
      forall i | 0 <= i < |s| && IsLeadingSurrogate(s[i])
        ensures i + 1 < |s| && IsTrailingSurrogate(s[i + 1])
      {
        if i < |a| { assert s[i] == a[i]; } else { assert s[i] == b[i - |a|]; }
      }
      forall i | 0 <= i < |s| && IsTrailingSurrogate(s[i])
        ensures 0 < i && IsLeadingSurrogate(s[i - 1])
      {
        if i < |a| { assert s[i] == a[i]; } else { assert s[i] == b[i - |a|]; }
      }
    }
  }

  /** The first code point of a string decides its well-formedness locally:
      an unpaired surrogate makes the string ill formed, and otherwise the
      string is well formed exactly when the rest is. */
  lemma WellFormedFirstCodePoint(s: JsString)
    requires |s| > 0
    ensures var r := CodePointAt(s, 0);
            if r.isUnpairedSurrogate then !IsWellFormed(s)
            else IsWellFormed(s) <==> IsWellFormed(s[r.codeUnitCount..])
  {
    var r := CodePointAt(s, 0);
    if !r.isUnpairedSurrogate {
      var c := r.codeUnitCount;
      assert s == s[..c] + s[c..];
      WellFormedConcat(s[..c], s[c..]);
    }
  }

  /** The JavaScript string that holds the text of a Dafny string literal:
      its UTF-16 encoding. */
  function FromString(s: string): (r: JsString)
    ensures IsWellFormed(r)
  {
    if s == [] then []
    else
      var head := EncodeCodePoint(s[0] as int);
      var tail := FromString(s[1..]);
      WellFormedConcat(head, tail);
      head + tail
  }
}
