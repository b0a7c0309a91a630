/** UTF-8 as RFC 3629 defines it: the octets of one scalar value (section 3),
    the inverse check "these octets are a valid UTF-8 encoding of a code
    point" (the syntax of section 4), and valid UTF-8 octet strings. */
module Utf8 {
  import opened JsText
  import opened Utf16

  /** A continuation octet, 10xxxxxx. */
  predicate IsTail(b: Byte) { 0x80 <= b <= 0xBF }

  /** The number of leading 1 bits of an octet, which ECMA-262's Decode uses
      to tell how many octets a multi-octet sequence has. */
  function LeadingOnes(b: Byte): (n: nat)
    ensures n <= 8
    ensures n == 0 <==> b < 0x80
  {
    if b < 0x80 then 0
    else if b < 0xC0 then 1
    else if b < 0xE0 then 2
    else if b < 0xF0 then 3
    else if b < 0xF8 then 4
    else if b < 0xFC then 5
    else if b < 0xFE then 6
    else if b < 0xFF then 7
    else 8
  }

  /** How many octets a sequence that starts with `lead` has. */
  function SequenceLength(lead: Byte): (n: nat) {
    if lead < 0x80 then 1 else LeadingOnes(lead)
  }

  /** The UTF-8 octets of a scalar value. */
  function EncodeScalar(cp: int): (r: seq<Byte>)
    requires IsScalarValue(cp)
    ensures 1 <= |r| <= 4 && |r| == SequenceLength(r[0])
    ensures |r| == 1 <==> cp < 0x80
    ensures |r| > 1 ==> forall i :: 1 <= i < |r| ==> IsTail(r[i])
  {
    if cp < 0x80 then [cp]
    else if cp < 0x800 then [0xC0 + cp / 0x40, 0x80 + cp % 0x40]
    else if cp < 0x1_0000 then [0xE0 + cp / 0x1000, 0x80 + (cp / 0x40) % 0x40, 0x80 + cp % 0x40]
    else [0xF0 + cp / 0x4_0000, 0x80 + (cp / 0x1000) % 0x40, 0x80 + (cp / 0x40) % 0x40, 0x80 + cp % 0x40]
  }

  /** The first two octets of a valid three-octet sequence (UTF8-3). */
  predicate IsLead3(b0: Byte, b1: Byte) {
    || (b0 == 0xE0 && 0xA0 <= b1 <= 0xBF)
    || (0xE1 <= b0 <= 0xEC && IsTail(b1))
    || (b0 == 0xED && 0x80 <= b1 <= 0x9F)
    || (0xEE <= b0 <= 0xEF && IsTail(b1))
  }

  /** The first two octets of a valid four-octet sequence (UTF8-4). */
  predicate IsLead4(b0: Byte, b1: Byte) {
    || (b0 == 0xF0 && 0x90 <= b1 <= 0xBF)
    || (0xF1 <= b0 <= 0xF3 && IsTail(b1))
    || (b0 == 0xF4 && 0x80 <= b1 <= 0x8F)
  }

  /** The code point that the octets encode, when they are exactly one valid
      UTF-8 character (no overlong form, no surrogate, nothing above
      U+10FFFF), and None otherwise. */
  function DecodeOctets(o: seq<Byte>): (r: Option<int>)
    ensures r.Some? ==> IsScalarValue(r.value)
  {
    if |o| == 1 && o[0] < 0x80 then
      Some(o[0] as int)
    else if |o| == 2 && 0xC2 <= o[0] <= 0xDF && IsTail(o[1]) then
      var cp := Combine2(o[0] - 0xC0, o[1] - 0x80);
      Some(cp)
    else if |o| == 3 && IsLead3(o[0], o[1]) && IsTail(o[2]) then
      var cp := Combine3(o[0] - 0xE0, o[1] - 0x80, o[2] - 0x80);
      Some(cp)
    else if |o| == 4 && IsLead4(o[0], o[1]) && IsTail(o[2]) && IsTail(o[3]) then
      var cp := Combine4(o[0] - 0xF0, o[1] - 0x80, o[2] - 0x80, o[3] - 0x80);
      Some(cp)
    else
      None
  }

  /** A code point DecodeOctets finds is one whose UTF-8 octets are the
      octets it was given. */
  lemma DecodeOctetsInverse(o: seq<Byte>)
    requires DecodeOctets(o).Some?
    ensures EncodeScalar(DecodeOctets(o).value) == o
  {
    if |o| == 2 {
      DecodeTwoInverse(o);
    } else if |o| == 3 {
      DecodeThreeInverse(o);
    } else if |o| == 4 {
      DecodeFourInverse(o);
    }
  }

  lemma DecodeTwoInverse(o: seq<Byte>)
    requires |o| == 2 && 0xC2 <= o[0] <= 0xDF && IsTail(o[1])
    ensures var cp := Combine2(o[0] - 0xC0, o[1] - 0x80);
            0x80 <= cp < 0x800 && EncodeScalar(cp) == o
  {
  }

  lemma DecodeThreeInverse(o: seq<Byte>)
    requires |o| == 3 && IsLead3(o[0], o[1]) && IsTail(o[2])
    ensures var cp := Combine3(o[0] - 0xE0, o[1] - 0x80, o[2] - 0x80);
            0x800 <= cp < 0x1_0000 && EncodeScalar(cp) == o
  {
  }

  lemma DecodeFourInverse(o: seq<Byte>)
    requires |o| == 4 && IsLead4(o[0], o[1]) && IsTail(o[2]) && IsTail(o[3])
    ensures var cp := Combine4(o[0] - 0xF0, o[1] - 0x80, o[2] - 0x80, o[3] - 0x80);
            0x1_0000 <= cp <= 0x10_FFFF && EncodeScalar(cp) == o
  {
  }

  /** The value of two, three or four groups of six bits, most significant
      first, with the sextets it splits back into. */
  function Combine2(x: int, y: int): (v: int)
    requires 0 <= x < 0x40 && 0 <= y < 0x40
    ensures v / 0x40 == x && v % 0x40 == y
  {
    SplitLowSextet(x, y);
    x * 0x40 + y
  }

  function Combine3(x: int, y: int, z: int): (v: int)
    requires 0 <= x < 0x40 && 0 <= y < 0x40 && 0 <= z < 0x40
    ensures v / 0x1000 == x && (v / 0x40) % 0x40 == y && v % 0x40 == z
  {
    SplitLowSextet(x * 0x40 + y, z);
    SplitLowSextet(x, y);
    SplitLowTwelveBits(x, y * 0x40 + z);
    x * 0x1000 + y * 0x40 + z
  }

  function Combine4(w: int, x: int, y: int, z: int): (v: int)
    requires 0 <= w < 0x40 && 0 <= x < 0x40 && 0 <= y < 0x40 && 0 <= z < 0x40
    ensures v / 0x4_0000 == w && (v / 0x1000) % 0x40 == x && (v / 0x40) % 0x40 == y && v % 0x40 == z
  {
    var wx := w * 0x40 + x;
    SplitLowSextet(wx * 0x40 + y, z);
    SplitLowSextet(wx, y);
    SplitLowSextet(w, x);
    SplitLowTwelveBits(wx, y * 0x40 + z);
    SplitLowEighteenBits(w, x * 0x1000 + y * 0x40 + z);
    w * 0x4_0000 + x * 0x1000 + y * 0x40 + z
  }

  /** Division by 64 of q * 64 + r, for a remainder r below 64. */
  lemma SplitLowSextet(q: int, r: int)
    requires 0 <= r < 0x40
    ensures (q * 0x40 + r) / 0x40 == q && (q * 0x40 + r) % 0x40 == r
  {
  }

  /** Division by 2^18 of q * 2^18 + r, for a remainder r below 2^18. */
  lemma SplitLowEighteenBits(q: int, r: int)
    requires 0 <= r < 0x4_0000
    ensures (q * 0x4_0000 + r) / 0x4_0000 == q
  {
  }

  /** Division by 4096 of q * 4096 + r, for a remainder r below 4096. */
  lemma SplitLowTwelveBits(q: int, r: int)
    requires 0 <= r < 0x1000
    ensures (q * 0x1000 + r) / 0x1000 == q && (q * 0x1000 + r) % 0x1000 == r
  {
  }

  /** Decoding the octets of a scalar value gives that value back. */
  lemma DecodeEncodeScalar(cp: int)
    requires IsScalarValue(cp)
    ensures DecodeOctets(EncodeScalar(cp)) == Some(cp)
  {
    if 0x80 <= cp < 0x800 {
      DecodeEncodeTwo(cp);
    } else if 0x800 <= cp < 0x1_0000 {
      DecodeEncodeThree(cp);
    } else if 0x1_0000 <= cp {
      DecodeEncodeFour(cp);
    }
  }

  lemma DecodeEncodeTwo(cp: int)
    requires 0x80 <= cp < 0x800
    ensures DecodeOctets(EncodeScalar(cp)) == Some(cp)
  {
    var x, y := cp / 0x40, cp % 0x40;
    assert cp == x * 0x40 + y;
    assert EncodeScalar(cp) == [0xC0 + x, 0x80 + y];
    assert Combine2(x, y) == cp;
  }

  lemma DecodeEncodeThree(cp: int)
    requires 0x800 <= cp < 0x1_0000 && IsScalarValue(cp)
    ensures DecodeOctets(EncodeScalar(cp)) == Some(cp)
  {
    Sextets(cp);
    var x, y, z := cp / 0x1000, (cp / 0x40) % 0x40, cp % 0x40;
    var o := EncodeScalar(cp);
    assert o == [0xE0 + x, 0x80 + y, 0x80 + z];
    assert Combine3(x, y, z) == cp;
    assert IsLead3(o[0], o[1]);
  }

  lemma DecodeEncodeFour(cp: int)
    requires 0x1_0000 <= cp <= 0x10FFFF
    ensures DecodeOctets(EncodeScalar(cp)) == Some(cp)
  {
    Sextets(cp);
    var w, x, y, z := cp / 0x4_0000, (cp / 0x1000) % 0x40, (cp / 0x40) % 0x40, cp % 0x40;
    var o := EncodeScalar(cp);
    assert o == [0xF0 + w, 0x80 + x, 0x80 + y, 0x80 + z];
    assert IsLead4(o[0], o[1]) by {
      assert w <= 4 && (w == 0 ==> x >= 0x10) && (w == 4 ==> x < 0x10);
    }
    assert Combine4(w, x, y, z) == cp;
  }

  /** A non-negative value is its groups of six bits, most significant
      first. */
  lemma Sextets(cp: int)
    requires 0 <= cp
    ensures var w, x, y, z := cp / 0x4_0000, (cp / 0x1000) % 0x40, (cp / 0x40) % 0x40, cp % 0x40;
            && 0 <= x < 0x40 && 0 <= y < 0x40 && 0 <= z < 0x40
            && cp == w * 0x4_0000 + x * 0x1000 + y * 0x40 + z
            && cp / 0x1000 == w * 0x40 + x
  {
    var q1, z := cp / 0x40, cp % 0x40;
    var q2, y := q1 / 0x40, q1 % 0x40;
    var w, x := q2 / 0x40, q2 % 0x40;
    assert cp == q2 * 0x1000 + (y * 0x40 + z);
    SplitLowTwelveBits(q2, y * 0x40 + z);
    assert cp == w * 0x4_0000 + (x * 0x1000 + y * 0x40 + z);
    SplitLowEighteenBits(w, x * 0x1000 + y * 0x40 + z);
  }

  /** A valid UTF-8 octet string per RFC 3629: a concatenation of valid
      one-character sequences. */
  predicate IsValidUtf8(o: seq<Byte>)
    decreases |o|
  {
    || o == []
    || exists n :: 1 <= n <= |o| && n <= 4 && DecodeOctets(o[..n]).Some? && IsValidUtf8(o[n..])
  }

  /** A non-empty octet string is valid exactly when its first sequence,
      whose length the lead octet fixes, is a valid character and the rest is
      valid: the grammar leaves no choice. */
  lemma ValidUtf8Unfold(o: seq<Byte>)
    requires |o| > 0
    ensures IsValidUtf8(o) <==>
              var n := SequenceLength(o[0]);
              n <= |o| && DecodeOctets(o[..n]).Some? && IsValidUtf8(o[n..])
  {
    var n := SequenceLength(o[0]);
    if IsValidUtf8(o) {
      var m :| 1 <= m <= |o| && m <= 4 && DecodeOctets(o[..m]).Some? && IsValidUtf8(o[m..]);
      DecodeOctetsInverse(o[..m]);
      assert o[..m][0] == o[0];
      assert m == n;
    }
    if n <= |o| && DecodeOctets(o[..n]).Some? && IsValidUtf8(o[n..]) {
      assert o[..n][0] == o[0];
      assert 1 <= n <= 4;
    }
  }
}
