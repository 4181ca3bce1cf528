/**
 The text of strings.  Parsing scans for the closing quote and, in a second pass, decodes
 what lies before it; printing escapes.
 */
module JsonString {
  import opened Ascii
  import opened Unicode

  /** The closing quote the first pass finds from `p` on; `|s|` if the text ends before one. */
  function ScanEnd(s: seq<byte>, p: nat): (e: nat)
    ensures e <= |s| || e == p
    ensures p <= |s| ==> p <= e <= |s| && (e < |s| ==> s[e] == QUOTE)
    decreases |s| - p
  {
    if p >= |s| then |s|
    else if s[p] == QUOTE then p
    else if s[p] == BACKSLASH then (if p + 1 >= |s| then |s| else ScanEnd(s, p + 2))
    else ScanEnd(s, p + 1)
  }

  datatype Decoded = Text(bytes: seq<byte>) | BadAt(pos: nat)

  function Prepend(a: seq<byte>, d: Decoded): Decoded {
    if d.Text? then Text(a + d.bytes) else d
  }

  /** What a two-character escape stands for; -1 if the character is none of them. */
  function ShortEscape(b: byte): int {
    if b == 98 then BACKSPACE as int
    else if b == 102 then FORM_FEED as int
    else if b == 110 then NEWLINE as int
    else if b == 114 then RETURN as int
    else if b == 116 then TAB as int
    else if b == QUOTE || b == BACKSLASH || b == SLASH then b as int
    else -1
  }

  /** The second pass, from `p` to the closing quote at `end`. */
  function Decode(s: seq<byte>, p: nat, end: nat): (r: Decoded)
    requires end < |s|
    ensures r.BadAt? ==> p <= r.pos < end
    decreases end - p
  {
    if p >= end then Text([])
    else if s[p] != BACKSLASH then Prepend([s[p]], Decode(s, p + 1, end))
    else if ShortEscape(s[p + 1]) >= 0 then Prepend([ShortEscape(s[p + 1])], Decode(s, p + 2, end))
    else if s[p + 1] == LETTER_U then
      match ReadLiteral(s, p, end)
      case Bad => BadAt(p)
      case Good(length, cp) => Prepend(Utf8(cp), Decode(s, p + length, end))
    else BadAt(p)
  }

  /** One turn of the second pass. */
  lemma DecodeTurn(s: seq<byte>, p: nat, end: nat)
    requires end < |s|
    ensures p >= end ==> Decode(s, p, end) == Text([])
    ensures p < end && s[p] != BACKSLASH ==> Decode(s, p, end) == Prepend([s[p]], Decode(s, p + 1, end))
    ensures p < end && s[p] == BACKSLASH ==> ShortEscape(s[p + 1]) < 256
    ensures p < end && s[p] == BACKSLASH ==>
      Decode(s, p, end) ==
        if ShortEscape(s[p + 1]) >= 0 then Prepend([ShortEscape(s[p + 1])], Decode(s, p + 2, end))
        else if s[p + 1] == LETTER_U && ReadLiteral(s, p, end).Good? then
          var r := ReadLiteral(s, p, end); Prepend(Utf8(r.codepoint), Decode(s, p + r.length, end))
        else BadAt(p)
  {
    hide ReadLiteral, Utf8;
  }

  datatype Parsed<T> = Ok(value: T, next: nat) | Err(pos: nat)

  /** `parse_string()` at `o`: the decoded bytes and the position after the closing quote, or the error position. */
  function ParseString(s: seq<byte>, o: nat): (r: Parsed<seq<byte>>)
    requires o < |s|
    ensures r.Ok? ==> o + 1 < r.next <= |s| && s[r.next - 1] == QUOTE
    ensures r.Err? ==> r.pos <= |s|
  {
    if s[o] != QUOTE then Err(o + 1)
    else
      var end := ScanEnd(s, o + 1);
      if end == |s| then Err(o + 1)
      else match Decode(s, o + 1, end)
        case Text(bytes) => Ok(bytes, end + 1)
        case BadAt(pos) => Err(pos)
  }

  /** A C string: the bytes before the first NUL. */
  function CString(t: seq<byte>): (r: seq<byte>)
    ensures NulFree(r)
  {
    if t == [] || t[0] == NUL then [] else [t[0]] + CString(t[1..])
  }

  predicate NulFree(t: seq<byte>) {
    NUL !in t
  }

  /** All that stands before the first byte 0, and nothing else. */
  lemma {:induction false} CStringExact(t: seq<byte>)
    ensures CString(t) <= t && 0 !in CString(t) && (|CString(t)| < |t| ==> t[|CString(t)|] == 0)
  {
    if t != [] && t[0] != NUL {
      CStringExact(t[1..]);
    }
  }

  lemma {:induction false} CStringSame(t: seq<byte>)
    requires NulFree(t)
    ensures CString(t) == t
  {
    if t != [] {
      assert t[0] in t;
      CStringSame(t[1..]);
    }
  }

  // ----- the first pass allocates enough for the second -----

  /** How far the scan gets from `p` before it is at or past `t`, and how many escapes it skips on the way. */
  function Scan(s: seq<byte>, p: nat, t: nat): (r: (nat, nat))
    requires t <= |s|
    ensures p <= t ==> t <= r.0 <= t + 1 && 2 * r.1 <= r.0 - p
    ensures p >= t ==> r == (p, 0)
    decreases t - p
  {
    if p >= t then (p, 0)
    else if s[p] == BACKSLASH then var r := Scan(s, p + 2, t); (r.0, r.1 + 1)
    else Scan(s, p + 1, t)
  }

  lemma {:induction false} ScanSplit(s: seq<byte>, p: nat, t: nat, u: nat)
    requires p <= t <= u <= |s|
    ensures var (g, n) := Scan(s, p, t); var (h, m) := Scan(s, g, u); Scan(s, p, u) == (h, n + m)
    decreases t - p
  {
    if p < t {
      if s[p] == BACKSLASH {
        if p + 2 <= t {
          ScanSplit(s, p + 2, t, u);
        }
      } else {
        ScanSplit(s, p + 1, t, u);
      }
    }
  }

  /** The scan stops at the quote it finds. */
  lemma {:induction false} ScanStops(s: seq<byte>, p: nat)
    requires p <= |s| && ScanEnd(s, p) < |s|
    ensures Scan(s, p, ScanEnd(s, p)).0 == ScanEnd(s, p)
    decreases |s| - p
  {
    if s[p] == BACKSLASH {
      ScanStops(s, p + 2);
    } else if s[p] != QUOTE {
      ScanStops(s, p + 1);
    }
  }

  /** From `p` on, with `out` bytes written: written bytes and skipped escapes together are at most the bytes
      consumed.  It holds also where the two passes disagree about what is an escape. */
  ghost predicate Budget(s: seq<byte>, start: nat, p: nat, end: nat, out: nat)
    requires end < |s|
  {
    && start <= p <= end + 1
    && out + Scan(s, start, if p <= end then p else end).1 <= p - start
  }

  /** What the first pass allocates, before the byte for the NUL. */
  function Allocation(s: seq<byte>, start: nat, end: nat): int
    requires end < |s|
  {
    end - start + 1 - Scan(s, start, end).1
  }

  lemma BudgetFits(s: seq<byte>, start: nat, p: nat, end: nat, out: nat)
    requires start <= end < |s| && Scan(s, start, end).0 == end && Budget(s, start, p, end, out)
    ensures out <= Allocation(s, start, end)
  {
    if p <= end {
      ScanSplit(s, start, p, end);
    }
  }

  /** A byte that is no backslash is copied. */
  lemma BudgetPlain(s: seq<byte>, start: nat, p: nat, end: nat, out: nat)
    requires start <= p < end < |s| && Budget(s, start, p, end, out) && s[p] != BACKSLASH
    ensures Budget(s, start, p + 1, end, out + 1)
  {
    ScanSplit(s, start, p, p + 1);
    assert Scan(s, p, p + 1) == (p + 1, 0);
    assert Scan(s, p + 1, p + 1) == (p + 1, 0);
  }

  /** An escape of `n` bytes produces at most `n / 2` bytes, give or take the surrogate pair's 4 of 12. */
  lemma BudgetEscape(s: seq<byte>, start: nat, p: nat, end: nat, out: nat, n: nat, w: nat)
    requires start <= p < end < |s| && Scan(s, start, end).0 == end && Budget(s, start, p, end, out)
    requires n == 2 || p + n <= end
    requires (n == 2 && w == 1) || (n == 6 && w <= 3) || (n == 12 && w <= 4)
    ensures Budget(s, start, p + n, end, out + w)
  {
    if p + n <= end {
      ScanSplit(s, start, p, p + n);
    } else {
      ScanSplit(s, start, p, end);
    }
  }

  // ----- the text of a string does not depend on where it stands -----

  lemma {:induction false} ScanEndShift(s: seq<byte>, o: nat, t: seq<byte>, p: nat)
    requires At(s, o, t) && p <= |t|
    requires ScanEnd(t, p) < |t| || ScanEnd(s, o + p) < o + |t|
    ensures ScanEnd(s, o + p) == o + ScanEnd(t, p)
    decreases |t| - p
  {
    AtIndex(s, o, t);
    if p < |t| && t[p] != QUOTE {
      if t[p] == BACKSLASH {
        if p + 1 < |t| {
          ScanEndShift(s, o, t, p + 2);
        }
      } else {
        ScanEndShift(s, o, t, p + 1);
      }
    }
  }

  lemma LiteralShift(s: seq<byte>, o: nat, t: seq<byte>, p: nat, end: nat)
    requires At(s, o, t) && p <= end < |t|
    ensures ReadLiteral(s, o + p, o + end) == ReadLiteral(t, p, end)
  {
    AtIndex(s, o, t);
    if end - p >= 6 {
      assert s[o + p + 2..o + p + 6] == t[p + 2..p + 6];
      if end - p >= 12 {
        assert s[o + p + 8..o + p + 12] == t[p + 8..p + 12];
      }
    }
  }

  lemma {:induction false} DecodeShift(s: seq<byte>, o: nat, t: seq<byte>, p: nat, end: nat)
    requires At(s, o, t) && end < |t|
    ensures Decode(s, o + p, o + end) ==
      match Decode(t, p, end) case Text(b) => Text(b) case BadAt(pos) => BadAt(o + pos)
    decreases end - p
  {
    hide Decode, ReadLiteral, ShortEscape, Utf8;
    DecodeTurn(t, p, end);
    AtIndex(s, o, t);
    DecodeTurn(s, o + p, o + end);
    if p < end {
      assert s[o + p] == t[p] && s[o + (p + 1)] == t[p + 1];
      if t[p] != BACKSLASH {
        DecodeShift(s, o, t, p + 1, end);
      } else if ShortEscape(t[p + 1]) >= 0 {
        DecodeShift(s, o, t, p + 2, end);
      } else if t[p + 1] == LETTER_U {
        LiteralShift(s, o, t, p, end);
        var r := ReadLiteral(t, p, end);
        if r.Good? {
          DecodeShift(s, o, t, p + r.length, end);
        }
      }
    }
  }

  /** `body` can stand between the quotes of a string. */
  predicate IsBody(body: seq<byte>) {
    var t := body + [QUOTE];
    ScanEnd(t, 0) == |body| && Decode(t, 0, |body|).Text?
  }

  /** The C string it denotes. */
  function BodyValue(body: seq<byte>): seq<byte>
    requires IsBody(body)
  {
    CString(Decode(body + [QUOTE], 0, |body|).bytes)
  }

  /** A string is parsed exactly where a body stands between quotes. */
  lemma ParseStringComplete(s: seq<byte>, o: nat, body: seq<byte>)
    requires IsBody(body) && At(s, o, [QUOTE] + body + [QUOTE])
    ensures var r := ParseString(s, o);
      r.Ok? && CString(r.value) == BodyValue(body) && r.next == o + |body| + 2
  {
    var t := body + [QUOTE];
    assert [QUOTE] + body + [QUOTE] == [QUOTE] + t;
    AtSplit(s, o, [QUOTE], t);
    assert s[o] == s[o..o + 1][0];
    ScanEndShift(s, o + 1, t, 0);
    DecodeShift(s, o + 1, t, 0, |body|);
  }

  lemma ParseStringSound(s: seq<byte>, o: nat) returns (body: seq<byte>)
    requires o < |s| && ParseString(s, o).Ok?
    ensures var r := ParseString(s, o);
      && IsBody(body) && BodyValue(body) == CString(r.value)
      && At(s, o, [QUOTE] + body + [QUOTE]) && r.next == o + |body| + 2
  {
    hide ScanEnd, Decode;
    var end := ScanEnd(s, o + 1);
    body := s[o + 1..end];
    var t := body + [QUOTE];
    QuotedAt(s, o, end);
    ScanEndShift(s, o + 1, t, 0);
    DecodeShift(s, o + 1, t, 0, |body|);
  }

  lemma QuotedAt(s: seq<byte>, o: nat, end: nat)
    requires o < end < |s| && s[o] == QUOTE && s[end] == QUOTE
    ensures var body := s[o + 1..end]; At(s, o + 1, body + [QUOTE]) && At(s, o, [QUOTE] + body + [QUOTE])
  {
    var body := s[o + 1..end];
    var t := body + [QUOTE];
    assert s[o + 1..end + 1] == t;
    assert s[o..o + 1] == [QUOTE];
    AtSplit(s, o, [QUOTE], t);
    assert [QUOTE] + body + [QUOTE] == [QUOTE] + t;
  }
}
