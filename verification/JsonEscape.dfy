/** Strings as RFC 8259 writes them (section 7), piece by piece, and what the printer writes. */
module JsonEscape {
  import opened Ascii
  import opened Unicode
  import opened JsonString

  /** A byte as it is, a two-character escape, one `\uXXXX`, or a surrogate pair of them. */
  datatype Piece =
    | Plain(b: byte)
    | Short(letter: byte)
    | Unit(h: seq<byte>)
    | Pair(high: seq<byte>, low: seq<byte>)

  /** What may stand behind a reverse solidus, and the character that is meant then. */
  const SHORT_ESCAPES: map<byte, byte> :=
    map[34 := 34, 92 := 92, 47 := 47, 98 := 8, 102 := 12, 110 := 10, 114 := 13, 116 := 9]

  /** The second pass knows these two-character escapes and no others. */
  lemma ShortEscapeExact(letter: byte)
    ensures ShortEscape(letter) == if letter in SHORT_ESCAPES then SHORT_ESCAPES[letter] else -1
  {
  }

  predicate WellFormed(p: Piece) {
    match p
    case Plain(b) => b != QUOTE && b != BACKSLASH
    case Short(letter) => letter in SHORT_ESCAPES
    case Unit(h) => IsHex(h) && Scalar(UnitOf(h))
    case Pair(high, low) => IsHex(high) && IsHex(low) && High(UnitOf(high)) && Low(UnitOf(low))
  }

  function PieceText(p: Piece): seq<byte> {
    match p
    case Plain(b) => [b]
    case Short(letter) => [BACKSLASH, letter]
    case Unit(h) => [BACKSLASH, LETTER_U] + h
    case Pair(high, low) => [BACKSLASH, LETTER_U] + high + [BACKSLASH, LETTER_U] + low
  }

  /** What a piece means: the byte itself, the escaped character, or the UTF-8 of a code point. */
  function PieceBytes(p: Piece): seq<byte>
    requires WellFormed(p)
  {
    match p
    case Plain(b) => [b]
    case Short(letter) => [SHORT_ESCAPES[letter]]
    case Unit(h) => Utf8(UnitOf(h))
    case Pair(high, low) => Utf8(Join(UnitOf(high), UnitOf(low)))
  }

  predicate AllWellFormed(ps: seq<Piece>) {
    forall i | 0 <= i < |ps| :: WellFormed(ps[i])
  }

  function TextOf(ps: seq<Piece>): seq<byte> {
    if ps == [] then [] else PieceText(ps[0]) + TextOf(ps[1..])
  }

  function BytesOf(ps: seq<Piece>): seq<byte>
    requires AllWellFormed(ps)
  {
    if ps == [] then [] else PieceBytes(ps[0]) + BytesOf(ps[1..])
  }

  // ----- escapes with valid digits -----

  predicate UnitAt(s: seq<byte>, p: nat, end: nat) {
    p + 6 <= end <= |s| && s[p] == BACKSLASH && s[p + 1] == LETTER_U && IsHex(s[p + 2..p + 6])
  }

  /** An escape with valid digits is accepted exactly when it is a scalar value or a high surrogate followed
      by a low one; every other surrogate is rejected. */
  lemma LiteralExact(s: seq<byte>, p: nat, end: nat)
    requires UnitAt(s, p, end)
    ensures var u := UnitOf(s[p + 2..p + 6]);
      ReadLiteral(s, p, end) ==
        if Scalar(u) then Good(6, u)
        else if High(u) && UnitAt(s, p + 6, end) && Low(UnitOf(s[p + 8..p + 12])) then
          Good(12, Join(u, UnitOf(s[p + 8..p + 12])))
        else Bad
  {
    hide Utf8;
    if p + 12 <= end {
      assert s[p + 6 + 2..p + 6 + 6] == s[p + 8..p + 12];
    }
  }

  /** A scalar value written in hexadecimal, as one unit or as its surrogate pair, is decoded to its one UTF-8 encoding. */
  lemma EscapeDecodes(p: Piece, cp: nat)
    requires Scalar(cp) && WellFormed(p)
    requires match p
      case Unit(h) => UnitOf(h) == cp
      case Pair(high, low) =>
        cp >= 0x10000 && UnitOf(high) == 0xD800 + (cp - 0x10000) / 1024 && UnitOf(low) == 0xDC00 + (cp - 0x10000) % 1024
      case _ => false
    ensures Decode(PieceText(p) + [QUOTE], 0, |PieceText(p)|) == Text(Utf8(cp))
    ensures Utf8Value(Utf8(cp)) == cp
  {
    var s := PieceText(p) + [QUOTE];
    var end := |PieceText(p)|;
    if p.Pair? {
      JoinSplits(cp);
    }
    Utf8Unique(cp, Utf8(cp));
    hide Utf8, Utf8Value, ReadLiteral;
    PieceLiteral(s, 0, p, end);
    assert Decode(s, end, end) == Text([]);
  }

  lemma PieceLiteral(s: seq<byte>, o: nat, p: Piece, end: nat)
    requires WellFormed(p) && (p.Unit? || p.Pair?) && At(s, o, PieceText(p)) && o + |PieceText(p)| <= end < |s|
    ensures s[o] == BACKSLASH && s[o + 1] == LETTER_U
    ensures ReadLiteral(s, o, end) ==
      match p
      case Unit(h) => Good(6, UnitOf(h))
      case Pair(high, low) => Good(12, Join(UnitOf(high), UnitOf(low)))
      case _ => Bad
  {
    var t := PieceText(p);
    AtIndex(s, o, t);
    assert t[0] == BACKSLASH && t[1] == LETTER_U;
    assert s[o + 2..o + 6] == t[2..6];
    if p.Unit? {
      assert t[2..6] == p.h;
    } else {
      assert t[2..6] == p.high && t[6] == BACKSLASH && t[7] == LETTER_U && t[8..12] == p.low;
      assert s[o + 8..o + 12] == t[8..12];
    }
    LiteralExact(s, o, end);
  }

  // ----- sequences of pieces -----

  lemma ScanPiece(s: seq<byte>, o: nat, p: Piece)
    requires WellFormed(p) && At(s, o, PieceText(p))
    ensures ScanEnd(s, o) == ScanEnd(s, o + |PieceText(p)|)
  {
    var t := PieceText(p);
    AtIndex(s, o, t);
    match p
    case Plain(b) =>
    case Short(letter) =>
    case Unit(h) => ScanUnit(s, o, h);
    case Pair(high, low) =>
      var a, b := [BACKSLASH, LETTER_U] + high, [BACKSLASH, LETTER_U] + low;
      assert t == a + b;
      AtSplit(s, o, a, b);
      ScanUnit(s, o, high);
      ScanUnit(s, o + 6, low);
  }

  lemma ScanUnit(s: seq<byte>, o: nat, h: seq<byte>)
    requires IsHex(h) && At(s, o, [BACKSLASH, LETTER_U] + h)
    ensures ScanEnd(s, o) == ScanEnd(s, o + 6)
  {
    var t := [BACKSLASH, LETTER_U] + h;
    AtIndex(s, o, t);
    HexPlain(h);
    assert t[0] == BACKSLASH && t[2] == h[0] && t[3] == h[1] && t[4] == h[2] && t[5] == h[3];
    assert ScanEnd(s, o) == ScanEnd(s, o + 2);
    hide ScanEnd;
    ScanPlain(s, o + 2, 4);
  }

  lemma HexPlain(h: seq<byte>)
    requires IsHex(h)
    ensures forall i | 0 <= i < 4 :: h[i] != QUOTE && h[i] != BACKSLASH
  {
    forall i | 0 <= i < 4 ensures h[i] != QUOTE && h[i] != BACKSLASH {
      assert HexValue(h[i]) >= 0;
    }
  }

  lemma {:induction false} ScanPlain(s: seq<byte>, o: nat, n: nat)
    requires o + n <= |s| && forall k | o <= k < o + n :: s[k] != QUOTE && s[k] != BACKSLASH
    ensures ScanEnd(s, o) == ScanEnd(s, o + n)
    decreases n
  {
    if n > 0 {
      ScanPlain(s, o + 1, n - 1);
    }
  }

  lemma {:induction false} ScanPieces(s: seq<byte>, o: nat, ps: seq<Piece>)
    requires AllWellFormed(ps) && At(s, o, TextOf(ps))
    ensures ScanEnd(s, o) == ScanEnd(s, o + |TextOf(ps)|)
    decreases |ps|
  {
    hide ScanEnd, PieceText, WellFormed, At;
    if ps == [] {
      assert o + |TextOf(ps)| == o;
    } else {
      AtSplit(s, o, PieceText(ps[0]), TextOf(ps[1..]));
      ScanPiece(s, o, ps[0]);
      ScanPieces(s, o + |PieceText(ps[0])|, ps[1..]);
    }
  }

  lemma DecodePiece(s: seq<byte>, o: nat, p: Piece, end: nat)
    requires WellFormed(p) && At(s, o, PieceText(p)) && o + |PieceText(p)| <= end < |s|
    ensures Decode(s, o, end) == Prepend(PieceBytes(p), Decode(s, o + |PieceText(p)|, end))
  {
    hide Decode, Utf8, ReadLiteral;
    AtIndex(s, o, PieceText(p));
    assert s[o + 0] == PieceText(p)[0];
    DecodeTurn(s, o, end);
    UIsNoShort();
    if p.Unit? || p.Pair? {
      PieceLiteral(s, o, p, end);
    } else if p.Short? {
      assert s[o + 1] == PieceText(p)[1];
    }
  }

  lemma {:induction false} DecodePieces(s: seq<byte>, o: nat, ps: seq<Piece>, end: nat)
    requires AllWellFormed(ps) && At(s, o, TextOf(ps)) && end == o + |TextOf(ps)| < |s|
    ensures Decode(s, o, end) == Text(BytesOf(ps))
    decreases |ps|
  {
    hide Decode, PieceText, PieceBytes, WellFormed, At, Utf8, ReadLiteral;
    if ps == [] {
      DecodeNothing(s, end);
    } else {
      AtSplit(s, o, PieceText(ps[0]), TextOf(ps[1..]));
      DecodePiece(s, o, ps[0], end);
      DecodePieces(s, o + |PieceText(ps[0])|, ps[1..], end);
    }
  }

  lemma DecodeNothing(s: seq<byte>, end: nat)
    requires end < |s|
    ensures Decode(s, end, end) == Text([])
  {
  }

  lemma ScanAtQuote(s: seq<byte>, p: nat)
    requires p < |s| && s[p] == QUOTE
    ensures ScanEnd(s, p) == p
  {
  }

  /** Every sequence of pieces is a string body; its value is the concatenation of what they mean, up to the first
      zero byte, and so all of it exactly if there is none. */
  lemma PiecesAreBody(ps: seq<Piece>)
    requires AllWellFormed(ps)
    ensures IsBody(TextOf(ps)) && BodyValue(TextOf(ps)) == CString(BytesOf(ps))
    ensures BodyValue(TextOf(ps)) == BytesOf(ps) <==> NulFree(BytesOf(ps))
  {
    hide TextOf, BytesOf, Decode, ScanEnd, AllWellFormed;
    var body := TextOf(ps);
    var t := body + [QUOTE];
    assert t[..|body|] == body;
    assert At(t, 0, body);
    ScanPieces(t, 0, ps);
    ScanAtQuote(t, |body|);
    DecodePieces(t, 0, ps, |body|);
    if NulFree(BytesOf(ps)) {
      CStringSame(BytesOf(ps));
    }
  }

  /** Pieces with the same text mean the same. */
  lemma TextSpellsOnce(ps: seq<Piece>, qs: seq<Piece>)
    requires AllWellFormed(ps) && AllWellFormed(qs) && TextOf(ps) == TextOf(qs)
    ensures BytesOf(ps) == BytesOf(qs)
  {
    hide TextOf, BytesOf, Decode, AllWellFormed;
    var body := TextOf(ps);
    var t := body + [QUOTE];
    assert t[..|body|] == body;
    assert At(t, 0, body);
    DecodePieces(t, 0, ps, |body|);
    DecodePieces(t, 0, qs, |body|);
  }

  // ----- and nothing else, where the digits are valid -----

  /** From `p` on, every `\u` the scan meets is followed by four hexadecimal digits. */
  predicate EscapesHex(body: seq<byte>, p: nat)
    decreases |body| - p
  {
    if p >= |body| then true
    else if body[p] != BACKSLASH then EscapesHex(body, p + 1)
    else if p + 1 < |body| && body[p + 1] == LETTER_U then
      p + 6 <= |body| && IsHex(body[p + 2..p + 6]) && EscapesHex(body, p + 6)
    else EscapesHex(body, p + 2)
  }

  /** A body with valid digits is made of well-formed pieces. */
  lemma {:induction false} PiecesFrom(body: seq<byte>, p: nat) returns (ps: seq<Piece>)
    requires p <= |body| && EscapesHex(body, p)
    requires ScanEnd(body + [QUOTE], p) == |body| && Decode(body + [QUOTE], p, |body|).Text?
    ensures AllWellFormed(ps) && TextOf(ps) == body[p..]
    decreases |body| - p
  {
    hide ReadLiteral, Utf8, ShortEscape, Decode, ScanEnd;
    var t := body + [QUOTE];
    DecodeTurn(t, p, |body|);
    ScanCases(t, p);
    if p == |body| {
      ps := [];
    } else if body[p] != BACKSLASH {
      var rest := PiecesFrom(body, p + 1);
      ps := PieceBefore(Plain(body[p]), rest, body, p);
    } else if body[p + 1..] != [] && body[p + 1] == LETTER_U {
      ps := UnitBefore(body, p);
    } else {
      assert p + 1 < |body|;
      ShortEscapeExact(body[p + 1]);
      var rest := PiecesFrom(body, p + 2);
      ps := PieceBefore(Short(body[p + 1]), rest, body, p);
    }
  }

  lemma ScanCases(t: seq<byte>, p: nat)
    requires p < |t|
    ensures ScanEnd(t, p) ==
      if t[p] == QUOTE then p
      else if t[p] == BACKSLASH then (if p + 1 >= |t| then |t| else ScanEnd(t, p + 2))
      else ScanEnd(t, p + 1)
    ensures p + 1 < |t| ==> ScanEnd(t, |t|) == |t|
  {
  }

  lemma PieceBefore(p: Piece, rest: seq<Piece>, body: seq<byte>, at: nat) returns (ps: seq<Piece>)
    requires WellFormed(p) && AllWellFormed(rest)
    requires at + |PieceText(p)| <= |body| && body[at..at + |PieceText(p)|] == PieceText(p)
    requires TextOf(rest) == body[at + |PieceText(p)|..]
    ensures AllWellFormed(ps) && TextOf(ps) == body[at..]
  {
    hide WellFormed, PieceText;
    ps := [p] + rest;
    assert ps[1..] == rest;
    assert body[at..] == body[at..at + |PieceText(p)|] + body[at + |PieceText(p)|..];
  }

  /** The unit or pair at `p` and the pieces behind it. */
  lemma {:induction false} UnitBefore(body: seq<byte>, p: nat) returns (ps: seq<Piece>)
    requires p + 1 < |body| && body[p] == BACKSLASH && body[p + 1] == LETTER_U && EscapesHex(body, p)
    requires ScanEnd(body + [QUOTE], p) == |body| && Decode(body + [QUOTE], p, |body|).Text?
    ensures AllWellFormed(ps) && TextOf(ps) == body[p..]
    decreases |body| - p, 0
  {
    hide ReadLiteral, Utf8, ShortEscape, Decode, ScanEnd, EscapesHex;
    HexAt(body, p);
    var h := body[p + 2..p + 6];
    UnitCases(body, p);
    if Scalar(UnitOf(h)) {
      var rest := PiecesFrom(body, p + 6);
      ps := PieceBefore(Unit(h), rest, body, p);
    } else {
      var rest := PiecesFrom(body, p + 12);
      ps := PieceBefore(Pair(h, body[p + 8..p + 12]), rest, body, p);
    }
  }

  lemma HexAt(body: seq<byte>, p: nat)
    requires p + 1 < |body| && body[p] == BACKSLASH && body[p + 1] == LETTER_U && EscapesHex(body, p)
    ensures p + 6 <= |body| && IsHex(body[p + 2..p + 6]) && EscapesHex(body, p + 6)
    ensures var t := body + [QUOTE]; UnitAt(t, p, |body|) && t[p + 2..p + 6] == body[p + 2..p + 6]
    ensures body[p..p + 6] == PieceText(Unit(body[p + 2..p + 6]))
  {
    hide IsHex;
    assert (body + [QUOTE])[p + 2..p + 6] == body[p + 2..p + 6];
  }

  /** What stands at a `\u` that is decoded: a scalar value, or a surrogate pair. */
  lemma UnitCases(body: seq<byte>, p: nat)
    requires p + 6 <= |body| && body[p] == BACKSLASH && body[p + 1] == LETTER_U && EscapesHex(body, p)
    requires IsHex(body[p + 2..p + 6])
    requires ScanEnd(body + [QUOTE], p) == |body| && Decode(body + [QUOTE], p, |body|).Text?
    ensures var u := UnitOf(body[p + 2..p + 6]);
      if Scalar(u) then DecodesFrom(body, p + 6) && body[p..p + 6] == PieceText(Unit(body[p + 2..p + 6]))
      else
        && High(u) && p + 12 <= |body| && IsHex(body[p + 8..p + 12]) && Low(UnitOf(body[p + 8..p + 12]))
        && DecodesFrom(body, p + 12)
        && body[p..p + 12] == PieceText(Pair(body[p + 2..p + 6], body[p + 8..p + 12]))
  {
    hide ReadLiteral, Utf8, ShortEscape, Decode, ScanEnd, EscapesHex, IsHex, UnitOf, High, Low, Scalar, PieceText;
    var t := body + [QUOTE];
    var end := |body|;
    HexAt(body, p);
    UIsNoShort();
    DecodeTurn(t, p, end);
    LiteralExact(t, p, end);
    ScanUnitAt(t, p, body[p + 2..p + 6]);
    if !Scalar(UnitOf(body[p + 2..p + 6])) {
      HexAt(body, p + 6);
      ScanUnitAt(t, p + 6, body[p + 8..p + 12]);
      PairText(body, p);
    }
  }

  lemma PairText(body: seq<byte>, p: nat)
    requires p + 12 <= |body|
    requires body[p] == BACKSLASH && body[p + 1] == LETTER_U && body[p + 6] == BACKSLASH && body[p + 7] == LETTER_U
    ensures body[p..p + 12] == PieceText(Pair(body[p + 2..p + 6], body[p + 8..p + 12]))
  {
  }

  /** From `p` on, scanning ends with the body and decoding succeeds. */
  predicate DecodesFrom(body: seq<byte>, p: nat) {
    && p <= |body| && EscapesHex(body, p)
    && ScanEnd(body + [QUOTE], p) == |body| && Decode(body + [QUOTE], p, |body|).Text?
  }

  lemma UIsNoShort()
    ensures ShortEscape(LETTER_U) < 0
  {
  }

  lemma ScanUnitAt(t: seq<byte>, p: nat, h: seq<byte>)
    requires UnitAt(t, p, |t|) && h == t[p + 2..p + 6]
    ensures ScanEnd(t, p) == ScanEnd(t, p + 6)
  {
    assert t[p..p + 6] == [BACKSLASH, LETTER_U] + h;
    ScanUnit(t, p, h);
  }

  lemma {:induction false} PiecesHex(ps: seq<Piece>, body: seq<byte>, p: nat)
    requires AllWellFormed(ps) && At(body, p, TextOf(ps)) && p + |TextOf(ps)| == |body|
    ensures EscapesHex(body, p)
    decreases |ps|
  {
    hide At, WellFormed, PieceText;
    if ps != [] {
      AtSplit(body, p, PieceText(ps[0]), TextOf(ps[1..]));
      PiecesHex(ps[1..], body, p + |PieceText(ps[0])|);
      PieceHex(ps[0], body, p);
    }
  }

  lemma PieceHex(q: Piece, body: seq<byte>, p: nat)
    requires WellFormed(q) && At(body, p, PieceText(q)) && EscapesHex(body, p + |PieceText(q)|)
    ensures EscapesHex(body, p)
  {
    var t := PieceText(q);
    AtIndex(body, p, t);
    assert body[p + 0] == t[0];
    UIsNoShort();
    match q
    case Plain(b) =>
    case Short(letter) =>
      assert body[p + 1] == t[1];
    case Unit(h) =>
      UnitHex(body, p, h);
    case Pair(high, low) =>
      PairHex(body, p, high, low);
  }

  lemma PairHex(body: seq<byte>, p: nat, high: seq<byte>, low: seq<byte>)
    requires IsHex(high) && IsHex(low) && |high| == |low| == 4
    requires At(body, p, PieceText(Pair(high, low))) && EscapesHex(body, p + 12)
    ensures EscapesHex(body, p)
  {
    hide IsHex, At, EscapesHex;
    var a, b := [BACKSLASH, LETTER_U] + high, [BACKSLASH, LETTER_U] + low;
    assert PieceText(Pair(high, low)) == a + b;
    AtSplit(body, p, a, b);
    UnitHex(body, p + 6, low);
    UnitHex(body, p, high);
  }

  lemma UnitHex(body: seq<byte>, p: nat, h: seq<byte>)
    requires IsHex(h) && |h| == 4 && At(body, p, [BACKSLASH, LETTER_U] + h) && EscapesHex(body, p + 6)
    ensures EscapesHex(body, p)
  {
    hide IsHex;
    var t := [BACKSLASH, LETTER_U] + h;
    AtIndex(body, p, t);
    AtSlice(body, p, t, 2, 6);
    assert body[p + 0] == t[0] && body[p + 1] == t[1] && t[2..6] == h;
  }

  /** The bodies with valid digits are the sequences of well-formed pieces: the strings of RFC 8259, and those with
      control characters standing for themselves. */
  lemma BodyIsPieces(body: seq<byte>)
    ensures IsBody(body) && EscapesHex(body, 0) <==> exists ps :: AllWellFormed(ps) && TextOf(ps) == body
  {
    hide AllWellFormed, TextOf, EscapesHex, Decode, ScanEnd, BodyValue;
    if IsBody(body) && EscapesHex(body, 0) {
      var ps := PiecesFrom(body, 0);
      assert body[0..] == body;
    }
    forall ps | AllWellFormed(ps) && TextOf(ps) == body ensures IsBody(body) && EscapesHex(body, 0) {
      PiecesAreBody(ps);
      assert body[0..|body|] == body;
      PiecesHex(ps, body, 0);
    }
  }

  // ----- what the printer writes -----

  /** A hexadecimal digit in lower case. */
  function HexDigit(n: nat): byte
    requires n < 16
  {
    if n < 10 then 48 + n else 87 + n
  }

  /** The letter of a two-character escape for `b`; 0 if it has none. */
  function EscapeLetter(b: byte): byte {
    if b == BACKSLASH || b == QUOTE then b
    else if b == BACKSPACE then 98
    else if b == FORM_FEED then 102
    else if b == NEWLINE then 110
    else if b == RETURN then 114
    else if b == TAB then 116
    else 0
  }

  function EscapeByte(b: byte): (r: seq<byte>)
    ensures |r| == 1 || |r| == 2 || |r| == 6
  {
    if b > 31 && b != QUOTE && b != BACKSLASH then [b]
    else if EscapeLetter(b) != 0 then [BACKSLASH, EscapeLetter(b)]
    else [BACKSLASH, LETTER_U, DIGIT_0, DIGIT_0, HexDigit(b / 16), HexDigit(b % 16)]
  }

  function Escape(t: seq<byte>): seq<byte> {
    if t == [] then [] else EscapeByte(t[0]) + Escape(t[1..])
  }

  function PieceOf(b: byte): (p: Piece)
    ensures WellFormed(p) && PieceText(p) == EscapeByte(b) && PieceBytes(p) == [b]
  {
    if b > 31 && b != QUOTE && b != BACKSLASH then Plain(b)
    else if EscapeLetter(b) != 0 then Short(EscapeLetter(b))
    else
      var h := [DIGIT_0, DIGIT_0, HexDigit(b / 16), HexDigit(b % 16)];
      assert HexValue(h[0]) == 0 && HexValue(h[1]) == 0 && HexValue(h[2]) == b / 16 && HexValue(h[3]) == b % 16;
      assert [BACKSLASH, LETTER_U] + h == EscapeByte(b);
      Unit(h)
  }

  function PiecesOf(t: seq<byte>): (ps: seq<Piece>)
    ensures AllWellFormed(ps) && TextOf(ps) == Escape(t) && BytesOf(ps) == t
  {
    if t == [] then []
    else
      var rest := PiecesOf(t[1..]);
      var ps := [PieceOf(t[0])] + rest;
      assert ps[1..] == rest && t == [t[0]] + t[1..];
      ps
  }

  /** Decoding undoes escaping. */
  lemma EscapeRoundTrip(t: seq<byte>)
    requires NulFree(t)
    ensures IsBody(Escape(t)) && BodyValue(Escape(t)) == t
  {
    PiecesAreBody(PiecesOf(t));
    CStringSame(t);
  }

  /** Escaped text has no NUL in it. */
  lemma {:induction false} EscapeNulFree(t: seq<byte>)
    ensures NulFree(Escape(t))
  {
    if t != [] {
      EscapeNulFree(t[1..]);
    }
  }
}
