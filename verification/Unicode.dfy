/**
 `\u` escapes: hexadecimal digits to UTF-16 code units, code units to a code point, the code
 point to UTF-8.  Masks and shifts of unsigned values are written as arithmetic: `x & 0x3FF` is
 `x % 1024`, `x >> 6` is `x / 64`, `(x | 0x80) & 0xBF` is `0x80 + x % 64`.
 */
module Unicode {
  import opened Ascii

  // ----- hexadecimal -----

  /** The value of a hexadecimal digit of either case, -1 for any other byte. */
  function HexValue(b: byte): int {
    if 48 <= b <= 57 then b - 48
    else if 65 <= b <= 70 then 10 + b - 65
    else if 97 <= b <= 102 then 10 + b - 97
    else -1
  }

  /** The sixteen digits in either case, and no other byte, have a value. */
  lemma HexDigits(b: byte)
    ensures HexValue(b) == -1 || 0 <= HexValue(b) < 16
    ensures HexValue(b) >= 0 <==> exists k :: IsHexDigit(b, k)
    ensures forall k | IsHexDigit(b, k) :: HexValue(b) == k
  {
    hide IsHexDigit, HexValue;
    DigitOfValue(b);
    forall k | IsHexDigit(b, k) ensures HexValue(b) == k >= 0 {
      ValueOfDigit(b, k);
    }
  }

  lemma ValueOfDigit(b: byte, k: int)
    requires IsHexDigit(b, k)
    ensures HexValue(b) == k >= 0
  {
  }

  lemma DigitOfValue(b: byte)
    ensures HexValue(b) == -1 || IsHexDigit(b, HexValue(b))
    ensures -1 <= HexValue(b) < 16
  {
  }

  /** `b` is the digit for `k`. */
  predicate IsHexDigit(b: byte, k: int) {
    0 <= k < 16 && (b == "0123456789abcdef"[k] as int || b == "0123456789ABCDEF"[k] as int)
  }

  predicate IsHex(h: seq<byte>) {
    |h| == 4 && forall i | 0 <= i < 4 :: HexValue(h[i]) >= 0
  }

  /** The number four valid digits denote. */
  function UnitOf(h: seq<byte>): (r: nat)
    requires IsHex(h)
    ensures r < 0x10000
  {
    4096 * HexValue(h[0]) + 256 * HexValue(h[1]) + 16 * HexValue(h[2]) + HexValue(h[3])
  }

  /** Four digits starting at `p`; 0 if one of them is invalid. */
  function Hex4(s: seq<byte>, p: nat): nat
    requires p + 4 <= |s|
  {
    if IsHex(s[p..p + 4]) then UnitOf(s[p..p + 4]) else 0
  }

  /** `parse_hex4()`. */
  method ParseHex4(s: seq<byte>, p: nat) returns (h: nat)
    requires p + 4 <= |s|
    ensures h == Hex4(s, p)
  {
    ghost var t := s[p..p + 4];
    h := 0;
    var i := 0;
    while i < 4
      invariant 0 <= i <= 4
      invariant forall k | 0 <= k < i :: HexValue(t[k]) >= 0
      invariant i == 0 ==> h == 0
      invariant i == 1 ==> h == 16 * HexValue(t[0])
      invariant i == 2 ==> h == 256 * HexValue(t[0]) + 16 * HexValue(t[1])
      invariant i == 3 ==> h == 4096 * HexValue(t[0]) + 256 * HexValue(t[1]) + 16 * HexValue(t[2])
      invariant i == 4 ==> h == 4096 * HexValue(t[0]) + 256 * HexValue(t[1]) + 16 * HexValue(t[2]) + HexValue(t[3])
    {
      assert t[i] == s[p + i];
      if 48 <= s[p + i] <= 57 {
        h := h + (s[p + i] - 48);
      } else if 65 <= s[p + i] <= 70 {
        h := h + (10 + s[p + i] - 65);
      } else if 97 <= s[p + i] <= 102 {
        h := h + (10 + s[p + i] - 97);
      } else {
        return 0;
      }
      if i < 3 {
        h := 16 * h;
      }
      i := i + 1;
    }
  }

  // ----- UTF-8 (section 3 of RFC 3629) -----

  /** The code points that have an encoding: no surrogates, at most 0x10FFFF. */
  predicate Scalar(cp: nat) {
    cp < 0xD800 || 0xE000 <= cp <= 0x10FFFF
  }

  function Utf8(cp: nat): (r: seq<byte>)
    requires cp <= 0x10FFFF
    ensures 1 <= |r| <= 4
  {
    if cp < 0x80 then [cp]
    else if cp < 0x800 then [0xC0 + cp / 64, 0x80 + cp % 64]
    else if cp < 0x10000 then [0xE0 + cp / 64 / 64, 0x80 + cp / 64 % 64, 0x80 + cp % 64]
    else [0xF0 + cp / 64 / 64 / 64, 0x80 + cp / 64 / 64 % 64, 0x80 + cp / 64 % 64, 0x80 + cp % 64]
  }

  predicate Tail(b: byte) {
    0x80 <= b <= 0xBF
  }

  /** The code point a well-formed sequence stands for, -1 for any other sequence (section 4 of RFC 3629). */
  function Utf8Value(t: seq<byte>): int {
    if |t| == 1 && t[0] < 0x80 then t[0] as int
    else if |t| == 2 && 0xC2 <= t[0] <= 0xDF && Tail(t[1]) then
      64 * (t[0] as int - 0xC0) + (t[1] - 0x80)
    else if |t| == 3 && 0xE0 <= t[0] <= 0xEF && Tail(t[1]) && Tail(t[2])
            && (t[0] == 0xE0 ==> t[1] >= 0xA0) && (t[0] == 0xED ==> t[1] <= 0x9F) then
      64 * (64 * (t[0] as int - 0xE0) + (t[1] - 0x80)) + (t[2] - 0x80)
    else if |t| == 4 && 0xF0 <= t[0] <= 0xF4 && Tail(t[1]) && Tail(t[2]) && Tail(t[3])
            && (t[0] == 0xF0 ==> t[1] >= 0x90) && (t[0] == 0xF4 ==> t[1] <= 0x8F) then
      64 * (64 * (64 * (t[0] as int - 0xF0) + (t[1] - 0x80)) + (t[2] - 0x80)) + (t[3] - 0x80)
    else -1
  }

  /** `Utf8(cp)` is a well-formed encoding of `cp`, and no other sequence is one. */
  lemma Utf8Unique(cp: nat, t: seq<byte>)
    requires Scalar(cp)
    ensures Utf8Value(t) == cp <==> t == Utf8(cp)
  {
    Utf8Decodes(cp);
    if Utf8Value(t) == cp {
      Utf8Reencodes(t);
    }
  }

  lemma Utf8Decodes(cp: nat)
    requires Scalar(cp)
    ensures Utf8Value(Utf8(cp)) == cp
  {
    var c1 := cp / 64;
    var c2 := c1 / 64;
    var c3 := c2 / 64;
    assert cp == 64 * c1 + cp % 64 && c1 == 64 * c2 + c1 % 64 && c2 == 64 * c3 + c2 % 64;
  }

  lemma DivBySix(q: int, r: int)
    requires 0 <= r < 64 && 0 <= q
    ensures (64 * q + r) / 64 == q && (64 * q + r) % 64 == r
  {
  }

  lemma Utf8Reencodes3(t: seq<byte>)
    requires |t| <= 3 && Utf8Value(t) >= 0
    ensures Utf8Value(t) <= 0x10FFFF && Utf8(Utf8Value(t)) == t && Scalar(Utf8Value(t))
  {
    if |t| == 2 {
      DivBySix(t[0] - 0xC0, t[1] - 0x80);
    } else if |t| == 3 {
      DivBySix(t[0] - 0xE0, t[1] - 0x80);
      DivBySix(64 * (t[0] as int - 0xE0) + (t[1] - 0x80), t[2] - 0x80);
    }
  }

  lemma Utf8Reencodes(t: seq<byte>)
    requires Utf8Value(t) >= 0
    ensures Utf8Value(t) <= 0x10FFFF && Utf8(Utf8Value(t)) == t && Scalar(Utf8Value(t))
  {
    if |t| <= 3 {
      Utf8Reencodes3(t);
    } else {
      DivBySix(t[0] - 0xF0, t[1] - 0x80);
      DivBySix(64 * (t[0] as int - 0xF0) + (t[1] - 0x80), t[2] - 0x80);
      DivBySix(64 * (64 * (t[0] as int - 0xF0) + (t[1] - 0x80)) + (t[2] - 0x80), t[3] - 0x80);
    }
  }

  /** `cp` after `n` shifts by six. */
  function Dropped(cp: nat, n: nat): nat {
    if n == 0 then cp else Dropped(cp, n - 1) / 64
  }

  /** The mark of the first byte of an encoding of `length` bytes. */
  function FirstMark(length: nat): nat {
    if length == 2 then 0xC0 else if length == 3 then 0xE0 else if length == 4 then 0xF0 else 0
  }

  lemma Utf8Bytes(cp: nat)
    requires cp <= 0x10FFFF
    ensures var t := Utf8(cp);
      && t[0] == FirstMark(|t|) + Dropped(cp, |t| - 1)
      && forall k | 0 < k < |t| :: t[k] == 0x80 + Dropped(cp, |t| - 1 - k) % 64
  {
    assert Dropped(cp, 0) == cp && Dropped(cp, 1) == cp / 64 && Dropped(cp, 2) == cp / 64 / 64;
    assert Dropped(cp, 3) == Dropped(cp, 2) / 64;
  }

  /** The loop that stores the bytes of a code point from the last to the first. */
  method EncodeUtf8(codepoint: nat, output: array<byte>, at: nat) returns (length: nat)
    requires codepoint <= 0x10FFFF && at + |Utf8(codepoint)| <= output.Length
    modifies output
    ensures length == |Utf8(codepoint)|
    ensures output[..at + length] == old(output[..at]) + Utf8(codepoint)
  {
    ghost var t := Utf8(codepoint);
    var cp := codepoint;
    var mark := 0;
    if cp < 0x80 {
      length := 1;
    } else if cp < 0x800 {
      length := 2;
      mark := 0xC0;
    } else if cp < 0x10000 {
      length := 3;
      mark := 0xE0;
    } else {
      length := 4;
      mark := 0xF0;
    }
    assert length == |t| && mark == FirstMark(length);
    Utf8Bytes(codepoint);
    hide Utf8, FirstMark;
    var position := length - 1;
    while position > 0
      invariant 0 <= position < length
      invariant forall k | 0 <= k < at :: output[k] == old(output[k])
      invariant forall k | position < k < length :: output[at + k] == t[k]
      invariant cp == Dropped(codepoint, length - 1 - position)
    {
      output[at + position] := 0x80 + cp % 64;
      cp := cp / 64;
      position := position - 1;
    }
    output[at] := cp + mark;
    assert forall k | 0 <= k < length :: output[at + k] == t[k];
    assert output[at..at + length] == t;
    assert output[..at] == old(output[..at]);
    assert output[..at + length] == output[..at] + output[at..at + length];
  }

  // ----- UTF-16 (section 2.2 of RFC 2781) -----

  predicate High(u: nat) {
    0xD800 <= u <= 0xDBFF
  }

  predicate Low(u: nat) {
    0xDC00 <= u <= 0xDFFF
  }

  function Join(high: nat, low: nat): nat {
    0x10000 + 1024 * (high % 1024) + low % 1024
  }

  datatype Literal = Bad | Good(length: nat, codepoint: nat)

  /** The escape at `p`, one or two `\uXXXX`, inside the string that ends at `end`. */
  function ReadLiteral(s: seq<byte>, p: nat, end: nat): (r: Literal)
    requires p <= end <= |s|
    ensures r.Good? ==> r.codepoint <= 0x10FFFF && p + r.length <= end
    ensures r.Good? ==> (r.length == 6 && |Utf8(r.codepoint)| <= 3) || r.length == 12
  {
    if end - p < 6 then Bad
    else
      var first := Hex4(s, p + 2);
      if Low(first) then Bad
      else if High(first) then
        if end - (p + 6) < 6 || s[p + 6] != BACKSLASH || s[p + 7] != LETTER_U then Bad
        else
          var second := Hex4(s, p + 8);
          if !Low(second) then Bad else Good(12, Join(first, second))
      else Good(6, first)
  }

  /** `utf16_literal_to_utf8()`: 0 for a bad escape, otherwise the length of what it read. */
  method Utf16LiteralToUtf8(s: seq<byte>, p: nat, end: nat, output: array<byte>, at: nat)
    returns (sequenceLength: nat, next: nat)
    requires p <= end <= |s|
    requires var r := ReadLiteral(s, p, end); r.Good? ==> at + |Utf8(r.codepoint)| <= output.Length
    modifies output
    ensures match ReadLiteral(s, p, end)
      case Bad => sequenceLength == 0 && next == at && output[..] == old(output[..])
      case Good(length, cp) =>
        && sequenceLength == length && next == at + |Utf8(cp)|
        && output[..next] == old(output[..at]) + Utf8(cp)
  {
    hide Utf8, Hex4;
    next := at;
    if end - p < 6 {
      return 0, at;
    }
    var firstCode := ParseHex4(s, p + 2);
    if 0xDC00 <= firstCode <= 0xDFFF {
      return 0, at;
    }
    var codepoint;
    if 0xD800 <= firstCode <= 0xDBFF {
      var second := p + 6;
      sequenceLength := 12;
      if end - second < 6 {
        return 0, at;
      }
      if s[second] != BACKSLASH || s[second + 1] != LETTER_U {
        return 0, at;
      }
      var secondCode := ParseHex4(s, second + 2);
      if secondCode < 0xDC00 || secondCode > 0xDFFF {
        return 0, at;
      }
      codepoint := 0x10000 + (1024 * (firstCode % 1024) + secondCode % 1024);
    } else {
      sequenceLength := 6;
      codepoint := firstCode;
    }
    var length := EncodeUtf8(codepoint, output, at);
    next := at + length;
  }

  /** The surrogate pair of a code point above 0xFFFF; together with single units, every scalar value is
      read back from the units RFC 2781 writes for it. */
  lemma JoinSplits(cp: nat)
    requires 0x10000 <= cp <= 0x10FFFF
    ensures var high, low := 0xD800 + (cp - 0x10000) / 1024, 0xDC00 + (cp - 0x10000) % 1024;
      High(high) && Low(low) && Join(high, low) == cp
  {
  }

  /** And no other pair of surrogates stands for it. */
  lemma JoinIsScalar(high: nat, low: nat)
    requires High(high) && Low(low)
    ensures 0x10000 <= Join(high, low) <= 0x10FFFF
    ensures high == 0xD800 + (Join(high, low) - 0x10000) / 1024 && low == 0xDC00 + (Join(high, low) - 0x10000) % 1024
  {
  }
}
