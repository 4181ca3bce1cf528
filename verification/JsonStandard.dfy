/**
 The texts of RFC 8259: its white space, its numbers, its strings as far as their escapes are
 whole code points, and what they denote.  The parser takes every one of them that keeps its
 limits, and returns what it denotes with every string cut at its first U+0000.
 */
module JsonStandard {
  import opened Ascii
  import Unicode
  import opened JsonValue
  import opened JsonString
  import opened JsonNumber
  import opened JsonEscape
  import opened JsonGrammar
  import opened JsonDocument

  /** Section 2: space, tab, line feed, carriage return. */
  predicate StandardWhite(ws: seq<byte>) {
    forall i | 0 <= i < |ws| :: ws[i] in {SPACE, TAB, NEWLINE, RETURN}
  }

  /** Section 7: no control character stands for itself, and surrogates come in pairs. */
  ghost predicate StandardString(body: seq<byte>) {
    exists ps :: AllWellFormed(ps) && NoControls(ps) && TextOf(ps) == body
  }

  predicate NoControls(ps: seq<Piece>) {
    forall i | 0 <= i < |ps| :: ps[i].Plain? ==> ps[i].b >= SPACE
  }

  /** Section 6, and no longer than the parser's copy of a number can be. */
  ghost predicate StandardNumber(text: seq<byte>) {
    |text| <= 63 && exists n :: Strict(n) && NumeralText(n) == text
  }

  ghost predicate Standard(c: Cst)
    decreases c
  {
    match c
    case NumberText(text) => StandardNumber(text)
    case StringText(body) => StandardString(body)
    case ArrayText(ws, items) => StandardWhite(ws) && StandardItems(items)
    case ObjectText(ws, entries) => StandardWhite(ws) && StandardEntries(entries)
    case _ => true
  }

  ghost predicate StandardSlot(i: Slot)
    decreases i
  {
    StandardWhite(i.before) && StandardWhite(i.after) && Standard(i.value)
  }

  ghost predicate StandardItems(items: seq<Slot>)
    decreases items
  {
    items == [] || (StandardSlot(items[0]) && StandardItems(items[1..]))
  }

  ghost predicate StandardEntry(e: Entry)
    decreases e
  {
    StandardWhite(e.before) && StandardString(e.name) && StandardWhite(e.gap) && StandardSlot(e.item)
  }

  ghost predicate StandardEntries(entries: seq<Entry>)
    decreases entries
  {
    entries == [] || (StandardEntry(entries[0]) && StandardEntries(entries[1..]))
  }

  // ----- they are texts of the grammar, without a NUL -----

  lemma WhiteFits(ws: seq<byte>)
    requires StandardWhite(ws)
    ensures White(ws) && NulFree(ws)
  {
  }

  lemma StringFits(body: seq<byte>)
    requires StandardString(body)
    ensures IsBody(body) && NulFree(body)
  {
    hide AllWellFormed, NoControls, TextOf, IsBody;
    var ps :| AllWellFormed(ps) && NoControls(ps) && TextOf(ps) == body;
    PiecesAreBody(ps);
    PiecesNulFree(ps);
  }

  lemma {:induction false} PiecesNulFree(ps: seq<Piece>)
    requires AllWellFormed(ps) && NoControls(ps)
    ensures NulFree(TextOf(ps))
  {
    if ps != [] {
      PieceNulFree(ps[0]);
      PiecesNulFree(ps[1..]);
    }
  }

  lemma PieceNulFree(p: Piece)
    requires WellFormed(p) && (p.Plain? ==> p.b >= SPACE)
    ensures NulFree(PieceText(p))
  {
    match p
    case Plain(b) =>
    case Short(letter) =>
    case Unit(h) => HexNulFree(h);
    case Pair(high, low) =>
      HexNulFree(high);
      HexNulFree(low);
  }

  lemma HexNulFree(h: seq<byte>)
    requires Unicode.IsHex(h)
    ensures NulFree(h)
  {
    forall i | 0 <= i < 4 ensures h[i] != NUL {
      assert Unicode.HexValue(h[i]) >= 0;
    }
  }

  lemma NumberFits(text: seq<byte>)
    requires StandardNumber(text)
    ensures IsNumber(text) && NulFree(text)
  {
    hide Strict, NumeralText;
    var n :| Strict(n) && NumeralText(n) == text;
    StrictIsNumber(n);
    assert !NumberChar(NUL);
  }

  lemma {:induction false} StandardFits(c: Cst)
    requires Standard(c)
    ensures Grammatical(c) && NulFree(Flat(c))
    decreases c
  {
    hide StandardNumber, StandardString, StandardWhite, White, IsBody, IsNumber;
    match c
    case NumberText(text) => NumberFits(text);
    case StringText(body) => StringFits(body);
    case ArrayText(ws, items) =>
      WhiteFits(ws);
      ItemsFit(items);
    case ObjectText(ws, entries) =>
      WhiteFits(ws);
      EntriesFit(entries);
    case _ =>
  }

  lemma {:induction false} SlotFits(i: Slot)
    requires StandardSlot(i)
    ensures ItemGrammatical(i) && NulFree(FlatItem(i))
    decreases i
  {
    hide StandardWhite, White, Standard, Grammatical, Flat;
    WhiteFits(i.before);
    WhiteFits(i.after);
    StandardFits(i.value);
  }

  lemma {:induction false} ItemsFit(items: seq<Slot>)
    requires StandardItems(items)
    ensures ItemsGrammatical(items) && (items != [] ==> NulFree(FlatItems(items)))
    decreases items
  {
    hide StandardSlot, ItemGrammatical, FlatItem;
    if items != [] {
      SlotFits(items[0]);
      ItemsFit(items[1..]);
    }
  }

  lemma {:induction false} EntryFits(e: Entry)
    requires StandardEntry(e)
    ensures EntryGrammatical(e) && NulFree(FlatEntry(e))
    decreases e
  {
    hide StandardWhite, White, StandardString, IsBody, StandardSlot, ItemGrammatical, FlatItem;
    WhiteFits(e.before);
    StringFits(e.name);
    WhiteFits(e.gap);
    SlotFits(e.item);
  }

  lemma {:induction false} EntriesFit(entries: seq<Entry>)
    requires StandardEntries(entries)
    ensures EntriesGrammatical(entries) && (entries != [] ==> NulFree(FlatEntries(entries)))
    decreases entries
  {
    hide StandardEntry, EntryGrammatical, FlatEntry;
    if entries != [] {
      EntryFits(entries[0]);
      EntriesFit(entries[1..]);
    }
  }

  // ----- what they denote -----

  /** Section 7: `t` is, in UTF-8, the characters of the string `body`. */
  ghost predicate Spells(body: seq<byte>, t: seq<byte>) {
    exists ps :: AllWellFormed(ps) && NoControls(ps) && TextOf(ps) == body && BytesOf(ps) == t
  }

  ghost predicate Denotes(c: Cst, v: Json)
    decreases c
  {
    match c
    case NullText => v == Null
    case FalseText => v == False
    case TrueText => v == True
    case NumberText(text) => v == Number(text)
    case StringText(body) => v.String? && Spells(body, v.chars)
    case ArrayText(_, items) => v.Array? && ItemsDenote(items, v.items)
    case ObjectText(_, entries) => v.Object? && EntriesDenote(entries, v.members)
  }

  ghost predicate ItemsDenote(items: seq<Slot>, vs: seq<Json>)
    decreases items
  {
    && |items| == |vs|
    && (items == [] || (Denotes(items[0].value, vs[0]) && ItemsDenote(items[1..], vs[1..])))
  }

  ghost predicate EntryDenotes(e: Entry, m: Member)
    decreases e
  {
    Spells(e.name, m.name) && Denotes(e.item.value, m.value)
  }

  ghost predicate EntriesDenote(entries: seq<Entry>, ms: seq<Member>)
    decreases entries
  {
    && |entries| == |ms|
    && (entries == [] || (EntryDenotes(entries[0], ms[0]) && EntriesDenote(entries[1..], ms[1..])))
  }

  // ----- the escape of U+0000 -----

  /** From `p` on, the four digits of some escape are all 0. */
  predicate NulEscape(body: seq<byte>, p: nat)
    decreases |body| - p
  {
    if p >= |body| then false
    else if body[p] != BACKSLASH then NulEscape(body, p + 1)
    else if p + 6 <= |body| && body[p + 1] == LETTER_U then
      body[p + 2..p + 6] == [DIGIT_0, DIGIT_0, DIGIT_0, DIGIT_0] || NulEscape(body, p + 6)
    else NulEscape(body, p + 2)
  }

  /** Some string or name has the escape in it. */
  predicate NulEscapes(c: Cst)
    decreases c
  {
    match c
    case StringText(body) => NulEscape(body, 0)
    case ArrayText(_, items) => NulEscapesIn(items)
    case ObjectText(_, entries) => NulEscapesAmong(entries)
    case _ => false
  }

  predicate NulEscapesIn(items: seq<Slot>)
    decreases items
  {
    items != [] && (NulEscapes(items[0].value) || NulEscapesIn(items[1..]))
  }

  predicate NulEscapesAmong(entries: seq<Entry>)
    decreases entries
  {
    entries != [] &&
    (NulEscape(entries[0].name, 0) || NulEscapes(entries[0].item.value) || NulEscapesAmong(entries[1..]))
  }

  lemma PieceNul(q: Piece, body: seq<byte>, p: nat)
    requires WellFormed(q) && (q.Plain? ==> q.b >= SPACE) && At(body, p, PieceText(q))
    ensures NulEscape(body, p) <==> !NulFree(PieceBytes(q)) || NulEscape(body, p + |PieceText(q)|)
  {
    hide NulEscape, NulFree;
    var t := PieceText(q);
    AtIndex(body, p, t);
    assert body[p + 0] == t[0];
    match q
    case Plain(b) =>
      NulEscapeTurn(body, p);
      BytesNulFree(q);
    case Short(letter) =>
      assert body[p + 1] == t[1];
      NulEscapeTurn(body, p);
      BytesNulFree(q);
    case Unit(h) =>
      UnitNul(body, p, h);
      BytesNulFree(q);
    case Pair(high, low) =>
      var a, b := [BACKSLASH, LETTER_U] + high, [BACKSLASH, LETTER_U] + low;
      assert t == a + b;
      AtSplit(body, p, a, b);
      UnitNul(body, p, high);
      UnitNul(body, p + 6, low);
      BytesNulFree(q);
  }

  lemma NulEscapeTurn(body: seq<byte>, p: nat)
    requires p < |body|
    ensures body[p] != BACKSLASH ==> (NulEscape(body, p) <==> NulEscape(body, p + 1))
    ensures body[p] == BACKSLASH && p + 1 < |body| && body[p + 1] != LETTER_U ==>
      (NulEscape(body, p) <==> NulEscape(body, p + 2))
  {
  }

  lemma UnitNul(body: seq<byte>, p: nat, h: seq<byte>)
    requires Unicode.IsHex(h) && At(body, p, [BACKSLASH, LETTER_U] + h)
    ensures NulEscape(body, p) <==> Unicode.UnitOf(h) == 0 || NulEscape(body, p + 6)
  {
    var t := [BACKSLASH, LETTER_U] + h;
    AtIndex(body, p, t);
    AtSlice(body, p, t, 2, 6);
    assert body[p + 0] == t[0] && body[p + 1] == t[1] && t[2..6] == h;
  }

  /** Of the characters strings are made of only U+0000 has a zero byte. */
  lemma BytesNulFree(q: Piece)
    requires WellFormed(q) && (q.Plain? ==> q.b >= SPACE)
    ensures NulFree(PieceBytes(q)) <==> !(q.Unit? && Unicode.UnitOf(q.h) == 0)
  {
  }

  lemma {:induction false} PiecesNul(ps: seq<Piece>, body: seq<byte>, p: nat)
    requires AllWellFormed(ps) && NoControls(ps) && At(body, p, TextOf(ps)) && p + |TextOf(ps)| == |body|
    ensures NulEscape(body, p) <==> !NulFree(BytesOf(ps))
    decreases |ps|
  {
    hide At, WellFormed, PieceText, PieceBytes;
    if ps != [] {
      AtSplit(body, p, PieceText(ps[0]), TextOf(ps[1..]));
      PieceNul(ps[0], body, p);
      PiecesNul(ps[1..], body, p + |PieceText(ps[0])|);
    }
  }

  // ----- what the parser makes of them -----

  /** Cut off at the first zero byte, as every C string is: all strings and names of a value. */
  function Cut(v: Json): Json
    decreases v
  {
    match v
    case String(t) => String(CString(t))
    case Array(items) => Array(CutItems(items))
    case Object(members) => Object(CutMembers(members))
    case _ => v
  }

  function CutItems(items: seq<Json>): (r: seq<Json>)
    ensures |r| == |items|
    decreases items
  {
    if items == [] then [] else [Cut(items[0])] + CutItems(items[1..])
  }

  function CutMembers(members: seq<Member>): (r: seq<Member>)
    ensures |r| == |members|
    decreases members
  {
    if members == [] then []
    else [Member(CString(members[0].name), Cut(members[0].value))] + CutMembers(members[1..])
  }

  lemma StringCut(body: seq<byte>, t: seq<byte>)
    requires Spells(body, t)
    ensures IsBody(body) && BodyValue(body) == CString(t)
    ensures CString(t) == t <==> !NulEscape(body, 0)
  {
    hide AllWellFormed, NoControls, TextOf, BytesOf, IsBody, NulEscape;
    var ps :| AllWellFormed(ps) && NoControls(ps) && TextOf(ps) == body && BytesOf(ps) == t;
    PiecesAreBody(ps);
    assert body[0..|body|] == body;
    PiecesNul(ps, body, 0);
    if NulFree(t) {
      CStringSame(t);
    }
  }

  lemma {:induction false} ValueCut(c: Cst, v: Json)
    requires Grammatical(c) && Denotes(c, v)
    ensures Meaning(c) == Cut(v)
    ensures Cut(v) == v <==> !NulEscapes(c)
    ensures Nesting(Cut(v)) == Nesting(v)
    decreases c
  {
    hide IsBody, CString, BodyValue, NulEscape, Spells;
    match c
    case StringText(body) => StringCut(body, v.chars);
    case ArrayText(ws, items) => ItemsCut(items, v.items);
    case ObjectText(ws, entries) => EntriesCut(entries, v.members);
    case _ =>
  }

  lemma {:induction false} ItemsCut(items: seq<Slot>, vs: seq<Json>)
    requires ItemsGrammatical(items) && ItemsDenote(items, vs)
    ensures ItemsMeaning(items) == CutItems(vs)
    ensures CutItems(vs) == vs <==> !NulEscapesIn(items)
    ensures NestingOfItems(CutItems(vs)) == NestingOfItems(vs)
    decreases items
  {
    hide Denotes, Meaning, Cut, Nesting, NulEscapes, White;
    if items != [] {
      assert ItemGrammatical(items[0]);
      ValueCut(items[0].value, vs[0]);
      ItemsCut(items[1..], vs[1..]);
      var r := CutItems(vs);
      assert r[1..] == CutItems(vs[1..]) && vs == [vs[0]] + vs[1..] && r == [r[0]] + r[1..];
    }
  }

  lemma {:induction false} EntriesCut(entries: seq<Entry>, ms: seq<Member>)
    requires EntriesGrammatical(entries) && EntriesDenote(entries, ms)
    ensures EntriesMeaning(entries) == CutMembers(ms)
    ensures CutMembers(ms) == ms <==> !NulEscapesAmong(entries)
    ensures NestingOfMembers(CutMembers(ms)) == NestingOfMembers(ms)
    decreases entries
  {
    hide Denotes, Meaning, Cut, Nesting, NulEscapes, White, IsBody, CString, BodyValue, NulEscape, Spells;
    if entries != [] {
      assert EntryGrammatical(entries[0]) && EntryDenotes(entries[0], ms[0]);
      assert ItemGrammatical(entries[0].item);
      StringCut(entries[0].name, ms[0].name);
      ValueCut(entries[0].item.value, ms[0].value);
      EntriesCut(entries[1..], ms[1..]);
      var r := CutMembers(ms);
      assert r[1..] == CutMembers(ms[1..]) && ms == [ms[0]] + ms[1..] && r == [r[0]] + r[1..];
    }
  }

  /** Every text of the standard, nested at most 1000 deep, is parsed as a whole to what it denotes with its strings
      cut; that is what it denotes exactly if no string and no name has the escape of U+0000 in it. */
  lemma StandardAccepted(i: Slot, v: Json)
    requires StandardSlot(i) && Denotes(i.value, v)
    ensures NulFree(FlatItem(i))
    ensures Nesting(v) <= 1000 ==> ParseDocument(FlatItem(i), true) == Tree(Cut(v), |FlatItem(i)|)
    ensures Cut(v) == v <==> !NulEscapes(i.value)
  {
    hide StandardSlot, FlatItem, Meaning, Nesting, White, Grammatical, Denotes, Cut, NulEscapes;
    SlotFits(i);
    assert Grammatical(i.value) by { SlotValue(i); }
    ValueCut(i.value, v);
    if Nesting(v) <= 1000 {
      DocumentComplete(Document(false, i), true);
    }
  }

  lemma SlotValue(i: Slot)
    requires ItemGrammatical(i)
    ensures Grammatical(i.value)
  {
  }

  // ----- every text denotes one value -----

  lemma SpellsOne(body: seq<byte>) returns (t: seq<byte>)
    requires StandardString(body)
    ensures Spells(body, t) && forall u | Spells(body, u) :: u == t
  {
    hide AllWellFormed, NoControls, TextOf, BytesOf;
    var ps :| AllWellFormed(ps) && NoControls(ps) && TextOf(ps) == body;
    t := BytesOf(ps);
    forall u | Spells(body, u) ensures u == t {
      var qs :| AllWellFormed(qs) && NoControls(qs) && TextOf(qs) == body && BytesOf(qs) == u;
      TextSpellsOnce(ps, qs);
    }
  }

  lemma {:induction false} DenotesOne(c: Cst) returns (v: Json)
    requires Standard(c)
    ensures Denotes(c, v) && forall w | Denotes(c, w) :: w == v
    decreases c
  {
    hide Spells, StandardString, StandardNumber, StandardWhite;
    match c
    case NullText => v := Null;
    case FalseText => v := False;
    case TrueText => v := True;
    case NumberText(text) => v := Number(text);
    case StringText(body) =>
      var t := SpellsOne(body);
      v := String(t);
    case ArrayText(ws, items) =>
      var vs := ItemsDenoteOne(items);
      v := Array(vs);
    case ObjectText(ws, entries) =>
      var ms := EntriesDenoteOne(entries);
      v := Object(ms);
  }

  lemma {:induction false} ItemsDenoteOne(items: seq<Slot>) returns (vs: seq<Json>)
    requires StandardItems(items)
    ensures ItemsDenote(items, vs) && forall ws | ItemsDenote(items, ws) :: ws == vs
    decreases items
  {
    hide Denotes, Standard, StandardWhite;
    if items == [] {
      vs := [];
    } else {
      assert StandardSlot(items[0]);
      var v := DenotesOne(items[0].value);
      var rest := ItemsDenoteOne(items[1..]);
      vs := [v] + rest;
      assert vs[1..] == rest;
      forall ws | ItemsDenote(items, ws) ensures ws == vs {
        assert Denotes(items[0].value, ws[0]) && ItemsDenote(items[1..], ws[1..]);
        assert ws == [ws[0]] + ws[1..];
      }
    }
  }

  lemma {:induction false} EntriesDenoteOne(entries: seq<Entry>) returns (ms: seq<Member>)
    requires StandardEntries(entries)
    ensures EntriesDenote(entries, ms) && forall ws: seq<Member> | EntriesDenote(entries, ws) :: ws == ms
    decreases entries
  {
    hide Denotes, Standard, StandardWhite, StandardString, Spells;
    if entries == [] {
      ms := [];
    } else {
      assert StandardEntry(entries[0]) && StandardSlot(entries[0].item);
      var t := SpellsOne(entries[0].name);
      var v := DenotesOne(entries[0].item.value);
      var rest := EntriesDenoteOne(entries[1..]);
      ms := [Member(t, v)] + rest;
      assert ms[1..] == rest;
      forall ws: seq<Member> | EntriesDenote(entries, ws) ensures ws == ms {
        assert EntryDenotes(entries[0], ws[0]) && EntriesDenote(entries[1..], ws[1..]);
        assert Denotes(entries[0].item.value, ws[0].value) && ws[0] == Member(ws[0].name, ws[0].value);
        assert ws == [ws[0]] + ws[1..];
      }
    }
  }

  const A_NUL_B: seq<byte> := [97, BACKSLASH, LETTER_U, DIGIT_0, DIGIT_0, DIGIT_0, DIGIT_0, 98]

  lemma NulSpelled()
    ensures StandardString(A_NUL_B) && Spells(A_NUL_B, [97, NUL, 98])
  {
    hide Spells, StandardString, TextOf, BytesOf;
    var zero := Unit([DIGIT_0, DIGIT_0, DIGIT_0, DIGIT_0]);
    NoPieces();
    OnePiece(Plain(98), []);
    OnePiece(zero, [Plain(98)]);
    OnePiece(Plain(97), [zero, Plain(98)]);
    var ps := [Plain(97), zero, Plain(98)];
    assert [Plain(98)] + [] == [Plain(98)] && [zero] + [Plain(98)] == ps[1..] && [Plain(97)] + ps[1..] == ps;
    assert TextOf(ps) == A_NUL_B && BytesOf(ps) == [97, NUL, 98];
    PiecesSpell(ps);
  }

  lemma NoPieces()
    ensures TextOf([]) == [] && BytesOf([]) == []
  {
  }

  lemma OnePiece(p: Piece, rest: seq<Piece>)
    requires WellFormed(p) && AllWellFormed(rest)
    ensures TextOf([p] + rest) == PieceText(p) + TextOf(rest) && BytesOf([p] + rest) == PieceBytes(p) + BytesOf(rest)
  {
    assert ([p] + rest)[1..] == rest;
  }

  lemma PiecesSpell(ps: seq<Piece>)
    requires AllWellFormed(ps) && NoControls(ps)
    ensures Spells(TextOf(ps), BytesOf(ps)) && StandardString(TextOf(ps))
  {
  }

  /** `"a\u0000b"` denotes three characters, of which the parsed string has the first. */
  lemma NulIsLost()
    ensures StandardString(A_NUL_B) && Spells(A_NUL_B, [97, NUL, 98]) && NulFree(Quoted(A_NUL_B))
    ensures ParseDocument(Quoted(A_NUL_B), true) == Tree(String([97]), |Quoted(A_NUL_B)|)
  {
    hide ParseDocument, Spells, StandardString, NulEscapes;
    NulSpelled();
    assert CString([97, NUL, 98]) == [97];
    var i := Slot([], StringText(A_NUL_B), []);
    assert FlatItem(i) == Quoted(A_NUL_B);
    StandardAccepted(i, String([97, NUL, 98]));
  }
}
