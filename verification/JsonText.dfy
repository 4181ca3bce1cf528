/**
 The text the printer writes, as a function of the value, and its round trip through the parser.
 */
module JsonText {
  import opened Ascii
  import opened JsonValue
  import opened JsonString
  import opened JsonNumber
  import opened JsonEscape
  import opened JsonParse
  import opened JsonGrammar
  import opened JsonDocument

  /** `b`, written only when formatting. */
  function Pad(fmt: bool, b: byte): (r: seq<byte>)
    requires NUL < b <= SPACE
    ensures White(r) && NulFree(r) && |r| == if fmt then 1 else 0
  {
    if fmt then [b] else []
  }

  function Tabs(fmt: bool, n: nat): (r: seq<byte>)
    ensures White(r) && NulFree(r) && |r| == if fmt then n else 0
  {
    if !fmt || n == 0 then [] else [TAB] + Tabs(fmt, n - 1)
  }

  function Serialize(v: Json, fmt: bool, depth: nat): seq<byte>
    decreases v
  {
    match v
    case Null => NULL_TEXT
    case False => FALSE_TEXT
    case True => TRUE_TEXT
    case Number(text) => text
    case String(chars) => Quoted(Escape(chars))
    case Array(items) => [OPEN_BRACKET] + (ItemsText(items, fmt, depth + 1) + [CLOSE_BRACKET])
    case Object(members) =>
      ([OPEN_BRACE] + Pad(fmt, NEWLINE)) + (MembersText(members, fmt, depth + 1) + (Tabs(fmt, depth) + [CLOSE_BRACE]))
  }

  function ItemsText(items: seq<Json>, fmt: bool, depth: nat): seq<byte>
    decreases items
  {
    if items == [] then []
    else if |items| == 1 then Serialize(items[0], fmt, depth)
    else Serialize(items[0], fmt, depth) + (([COMMA] + Pad(fmt, SPACE)) + ItemsText(items[1..], fmt, depth))
  }

  /** What follows a member's value. */
  function Separator(fmt: bool, last: bool): seq<byte> {
    (if last then [] else [COMMA]) + Pad(fmt, NEWLINE)
  }

  function MemberText(m: Member, fmt: bool, depth: nat, last: bool): seq<byte>
    decreases m
  {
    Tabs(fmt, depth)
    + (Quoted(Escape(m.name)) + (([COLON] + Pad(fmt, TAB)) + (Serialize(m.value, fmt, depth) + Separator(fmt, last))))
  }

  function MembersText(members: seq<Member>, fmt: bool, depth: nat): seq<byte>
    decreases members
  {
    if members == [] then []
    else MemberText(members[0], fmt, depth, |members| == 1) + MembersText(members[1..], fmt, depth)
  }

  /** Number texts are those the printer's 26 bytes can hold; strings and names are C strings. */
  predicate Printable(v: Json)
    decreases v
  {
    match v
    case Number(text) => IsNumber(text) && |text| <= 25
    case String(chars) => NulFree(chars)
    case Array(items) => forall i | 0 <= i < |items| :: Printable(items[i])
    case Object(members) => forall i | 0 <= i < |members| :: NulFree(members[i].name) && Printable(members[i].value)
    case _ => true
  }

  // ----- the syntax tree of what is printed -----

  function CstOf(v: Json, fmt: bool, depth: nat): Cst
    decreases v
  {
    match v
    case Null => NullText
    case False => FalseText
    case True => TrueText
    case Number(text) => NumberText(text)
    case String(chars) => StringText(Escape(chars))
    case Array(items) => ArrayText([], ItemsOf(items, fmt, depth + 1, []))
    case Object(members) =>
      ObjectText(Pad(fmt, NEWLINE) + Tabs(fmt, depth), EntriesOf(members, fmt, depth + 1))
  }

  /** The first item stands behind the white space `lead`. */
  function ItemsOf(items: seq<Json>, fmt: bool, depth: nat, lead: seq<byte>): (r: seq<Slot>)
    ensures |r| == |items|
    decreases items
  {
    if items == [] then []
    else [Slot(lead, CstOf(items[0], fmt, depth), [])] + ItemsOf(items[1..], fmt, depth, Pad(fmt, SPACE))
  }

  function EntryOf(m: Member, fmt: bool, depth: nat, after: seq<byte>): Entry
    decreases m
  {
    Entry(Pad(fmt, NEWLINE) + Tabs(fmt, depth), Escape(m.name), [], Slot(Pad(fmt, TAB), CstOf(m.value, fmt, depth), after))
  }

  function EntriesOf(members: seq<Member>, fmt: bool, depth: nat): (r: seq<Entry>)
    requires depth > 0
    ensures |r| == |members|
    decreases members
  {
    if members == [] then []
    else
      var after := if |members| == 1 then Pad(fmt, NEWLINE) + Tabs(fmt, depth - 1) else [];
      [EntryOf(members[0], fmt, depth, after)] + EntriesOf(members[1..], fmt, depth)
  }

  lemma {:induction false} CstMeans(v: Json, fmt: bool, depth: nat)
    requires Printable(v)
    ensures Grammatical(CstOf(v, fmt, depth)) && Meaning(CstOf(v, fmt, depth)) == v
    decreases v
  {
    hide IsNumber, White, ItemsOf, EntriesOf, ItemsGrammatical, ItemsMeaning, EntriesGrammatical, EntriesMeaning, IsBody,
      BodyValue, Escape, Tabs, Pad;
    match v
    case String(chars) => EscapeRoundTrip(chars);
    case Array(items) =>
      NoItems();
      ItemsMean(items, fmt, depth + 1, []);
    case Object(members) =>
      WhiteTogether(Pad(fmt, NEWLINE), Tabs(fmt, depth));
      EntriesMean(members, fmt, depth + 1);
    case _ =>
  }

  lemma WhiteTogether(a: seq<byte>, b: seq<byte>)
    requires White(a) && White(b)
    ensures White(a + b)
  {
  }

  lemma {:induction false} ItemsMean(items: seq<Json>, fmt: bool, depth: nat, lead: seq<byte>)
    requires White(lead) && forall i | 0 <= i < |items| :: Printable(items[i])
    ensures ItemsGrammatical(ItemsOf(items, fmt, depth, lead)) && ItemsMeaning(ItemsOf(items, fmt, depth, lead)) == items
    decreases items
  {
    hide Printable, CstOf, Meaning, Grammatical, White;
    if items != [] {
      var r := ItemsOf(items, fmt, depth, lead);
      var rest := ItemsOf(items[1..], fmt, depth, Pad(fmt, SPACE));
      NoItems();
      CstMeans(items[0], fmt, depth);
      ItemsMean(items[1..], fmt, depth, Pad(fmt, SPACE));
      assert r[1..] == rest && r[0] == Slot(lead, CstOf(items[0], fmt, depth), []);
      assert items == [items[0]] + items[1..];
    }
  }

  lemma {:induction false} EntriesMean(members: seq<Member>, fmt: bool, depth: nat)
    requires depth > 0 && forall i | 0 <= i < |members| :: NulFree(members[i].name) && Printable(members[i].value)
    ensures EntriesGrammatical(EntriesOf(members, fmt, depth)) && EntriesMeaning(EntriesOf(members, fmt, depth)) == members
    decreases members
  {
    hide Printable, Meaning, Grammatical, EntryGrammatical, EntryMeaning, EntryOf, White, NulFree;
    if members != [] {
      var r := EntriesOf(members, fmt, depth);
      var rest := EntriesOf(members[1..], fmt, depth);
      var after := if |members| == 1 then Pad(fmt, NEWLINE) + Tabs(fmt, depth - 1) else [];
      NoItems();
      WhiteTogether(Pad(fmt, NEWLINE), Tabs(fmt, depth - 1));
      EntryMeans(members[0], fmt, depth, after);
      EntriesMean(members[1..], fmt, depth);
      assert r[1..] == rest && r[0] == EntryOf(members[0], fmt, depth, after);
      assert members == [members[0]] + members[1..];
    }
  }

  lemma {:induction false} EntryMeans(m: Member, fmt: bool, depth: nat, after: seq<byte>)
    requires White(after) && NulFree(m.name) && Printable(m.value)
    ensures EntryGrammatical(EntryOf(m, fmt, depth, after)) && EntryMeaning(EntryOf(m, fmt, depth, after)) == m
    decreases m
  {
    hide Printable, Meaning, Grammatical, CstOf, White, IsBody, BodyValue;
    NoItems();
    WhiteTogether(Pad(fmt, NEWLINE), Tabs(fmt, depth));
    EscapeRoundTrip(m.name);
    CstMeans(m.value, fmt, depth);
  }

  lemma {:induction false} CstText(v: Json, fmt: bool, depth: nat)
    ensures Flat(CstOf(v, fmt, depth)) == Serialize(v, fmt, depth)
    decreases v
  {
    match v
    case Array(items) =>
      ItemsFlat(items, fmt, depth + 1, []);
      if items != [] {
        assert [] + ItemsText(items, fmt, depth + 1) == ItemsText(items, fmt, depth + 1);
      }
    case Object(members) =>
      ObjectFlat(members, fmt, depth);
    case _ =>
  }

  lemma {:induction false} ObjectFlat(members: seq<Member>, fmt: bool, depth: nat)
    ensures Flat(CstOf(Object(members), fmt, depth)) == Serialize(Object(members), fmt, depth)
    decreases members, 1
  {
    hide Serialize, Flat, CstOf, FlatEntries, EntriesOf, MembersText, Tabs, Pad;
    ObjectUnfold(members, fmt, depth);
    var nl, tabs, all := Pad(fmt, NEWLINE), Tabs(fmt, depth), MembersText(members, fmt, depth + 1);
    Reassociate([OPEN_BRACE], nl, all, tabs, [CLOSE_BRACE]);
    if members == [] {
      assert all + tabs == tabs;
    } else {
      EntriesFlat(members, fmt, depth + 1);
    }
  }

  lemma ObjectUnfold(members: seq<Member>, fmt: bool, depth: nat)
    ensures var nl, tabs, all := Pad(fmt, NEWLINE), Tabs(fmt, depth), MembersText(members, fmt, depth + 1);
      && Serialize(Object(members), fmt, depth) == ([OPEN_BRACE] + nl) + (all + (tabs + [CLOSE_BRACE]))
      && Flat(CstOf(Object(members), fmt, depth)) ==
           [OPEN_BRACE] + ((if members == [] then nl + tabs else FlatEntries(EntriesOf(members, fmt, depth + 1))) + [CLOSE_BRACE])
      && (members == [] ==> all == [])
  {
    hide EntriesOf, FlatEntries, MemberText, Pad, Tabs;
  }

  lemma Reassociate(a: seq<byte>, b: seq<byte>, c: seq<byte>, d: seq<byte>, e: seq<byte>)
    ensures (a + b) + (c + (d + e)) == a + ((b + (c + d)) + e)
  {
  }

  lemma {:induction false} ItemsFlat(items: seq<Json>, fmt: bool, depth: nat, lead: seq<byte>)
    ensures items != [] ==> FlatItems(ItemsOf(items, fmt, depth, lead)) == lead + ItemsText(items, fmt, depth)
    decreases items
  {
    if items != [] {
      hide CstOf, Flat, Serialize;
      var r := ItemsOf(items, fmt, depth, lead);
      var rest := ItemsOf(items[1..], fmt, depth, Pad(fmt, SPACE));
      assert r[1..] == rest && r[0] == Slot(lead, CstOf(items[0], fmt, depth), []);
      CstText(items[0], fmt, depth);
      var t := Serialize(items[0], fmt, depth);
      assert t + [] == t;
      if |items| > 1 {
        ItemsFlat(items[1..], fmt, depth, Pad(fmt, SPACE));
        ItemsJoin(lead, t, Pad(fmt, SPACE), ItemsText(items[1..], fmt, depth));
      }
    }
  }

  lemma ItemsJoin(lead: seq<byte>, t: seq<byte>, space: seq<byte>, rest: seq<byte>)
    ensures (lead + t) + ([COMMA] + (space + rest)) == lead + (t + (([COMMA] + space) + rest))
  {
    assert [COMMA] + (space + rest) == ([COMMA] + space) + rest;
  }

  lemma {:induction false} EntriesFlat(members: seq<Member>, fmt: bool, depth: nat)
    requires depth > 0 && members != []
    ensures FlatEntries(EntriesOf(members, fmt, depth))
            == Pad(fmt, NEWLINE) + (MembersText(members, fmt, depth) + Tabs(fmt, depth - 1))
    decreases members, 0
  {
    hide EntryOf, FlatEntry, MemberText;
    var nl, tabs := Pad(fmt, NEWLINE), Tabs(fmt, depth - 1);
    var r := EntriesOf(members, fmt, depth);
    var rest := EntriesOf(members[1..], fmt, depth);
    var after := if |members| == 1 then nl + tabs else [];
    var e := EntryOf(members[0], fmt, depth, after);
    assert r[1..] == rest && r[0] == e;
    EntryFlat(members[0], fmt, depth, after, |members| == 1);
    var m := MemberText(members[0], fmt, depth, |members| == 1);
    if |members| == 1 {
      assert MembersText(members[1..], fmt, depth) == [];
      assert m + [] == m;
    } else {
      EntriesFlat(members[1..], fmt, depth);
      EntriesJoin(FlatEntry(e), nl, m, MembersText(members[1..], fmt, depth), tabs);
    }
  }

  lemma EntriesJoin(first: seq<byte>, nl: seq<byte>, m: seq<byte>, rest: seq<byte>, tabs: seq<byte>)
    requires first + ([COMMA] + nl) == nl + m
    ensures first + ([COMMA] + (nl + (rest + tabs))) == nl + ((m + rest) + tabs)
  {
    assert first + ([COMMA] + (nl + (rest + tabs))) == (first + ([COMMA] + nl)) + (rest + tabs);
    assert (nl + m) + (rest + tabs) == nl + ((m + rest) + tabs);
  }

  /** A member's text, its separator included; the text of the last entry ends in the white space before the brace. */
  lemma {:induction false} EntryFlat(m: Member, fmt: bool, depth: nat, after: seq<byte>, last: bool)
    requires depth > 0 && after == if last then Pad(fmt, NEWLINE) + Tabs(fmt, depth - 1) else []
    ensures var e, t := FlatEntry(EntryOf(m, fmt, depth, after)), Pad(fmt, NEWLINE) + MemberText(m, fmt, depth, last);
      if last then e == t + Tabs(fmt, depth - 1) else e + ([COMMA] + Pad(fmt, NEWLINE)) == t
    decreases m
  {
    hide CstOf, Flat, Serialize, Quoted, Escape, Tabs, Pad, EntryOf, FlatEntry, FlatItem, MemberText, Separator;
    CstText(m.value, fmt, depth);
    EntryTexts(m, fmt, depth, after, last);
    var t := Serialize(m.value, fmt, depth);
    var nl, tabs, q, c := Pad(fmt, NEWLINE), Tabs(fmt, depth), Quoted(Escape(m.name)), Pad(fmt, TAB);
    if last {
      JoinLast(nl, tabs, q, c, t, nl, Tabs(fmt, depth - 1));
    } else {
      JoinInner(nl, tabs, q, c, t, [COMMA] + nl);
    }
  }

  lemma EntryTexts(m: Member, fmt: bool, depth: nat, after: seq<byte>, last: bool)
    ensures var nl, tabs, q, c := Pad(fmt, NEWLINE), Tabs(fmt, depth), Quoted(Escape(m.name)), Pad(fmt, TAB);
      && FlatEntry(EntryOf(m, fmt, depth, after))
         == (nl + tabs) + (q + ([] + ([COLON] + (c + (Flat(CstOf(m.value, fmt, depth)) + after)))))
      && MemberText(m, fmt, depth, last)
         == tabs + (q + (([COLON] + c) + (Serialize(m.value, fmt, depth) + Separator(fmt, last))))
      && Separator(fmt, last) == if last then nl else [COMMA] + nl
  {
    hide CstOf, Flat, Serialize, Quoted, Escape, Tabs, Pad;
  }

  lemma JoinLast(nl: seq<byte>, tabs: seq<byte>, q: seq<byte>, c: seq<byte>, t: seq<byte>, x: seq<byte>, y: seq<byte>)
    ensures (nl + tabs) + (q + ([] + ([COLON] + (c + (t + (x + y)))))) == (nl + (tabs + (q + (([COLON] + c) + (t + x))))) + y
  {
  }

  lemma JoinInner(nl: seq<byte>, tabs: seq<byte>, q: seq<byte>, c: seq<byte>, t: seq<byte>, y: seq<byte>)
    ensures ((nl + tabs) + (q + ([] + ([COLON] + (c + (t + [])))))) + y == nl + (tabs + (q + (([COLON] + c) + (t + y))))
  {
  }

  // ----- no NUL is printed -----

  lemma {:induction false} NumberNulFree(text: seq<byte>)
    requires IsNumber(text)
    ensures NulFree(text)
  {
    assert !NumberChar(NUL);
  }

  lemma {:induction false} TextNulFree(v: Json, fmt: bool, depth: nat)
    requires Printable(v)
    ensures NulFree(Serialize(v, fmt, depth))
    decreases v
  {
    match v
    case Number(text) => NumberNulFree(text);
    case String(chars) => EscapeNulFree(chars);
    case Array(items) => ItemsNulFree(items, fmt, depth + 1);
    case Object(members) => MembersNulFree(members, fmt, depth + 1);
    case _ =>
  }

  lemma {:induction false} ItemsNulFree(items: seq<Json>, fmt: bool, depth: nat)
    requires forall i | 0 <= i < |items| :: Printable(items[i])
    ensures NulFree(ItemsText(items, fmt, depth))
    decreases items
  {
    if items != [] {
      TextNulFree(items[0], fmt, depth);
      ItemsNulFree(items[1..], fmt, depth);
    }
  }

  lemma {:induction false} MembersNulFree(members: seq<Member>, fmt: bool, depth: nat)
    requires forall i | 0 <= i < |members| :: NulFree(members[i].name) && Printable(members[i].value)
    ensures NulFree(MembersText(members, fmt, depth))
    decreases members
  {
    if members != [] {
      EscapeNulFree(members[0].name);
      TextNulFree(members[0].value, fmt, depth);
      MembersNulFree(members[1..], fmt, depth);
    }
  }

  /** What either printer writes is parsed to the value it was written from, and nothing is left over. */
  lemma RoundTrip(v: Json, fmt: bool)
    requires Printable(v) && Nesting(v) <= 1000
    ensures NulFree(Serialize(v, fmt, 0))
    ensures ParseDocument(Serialize(v, fmt, 0), true) == Tree(v, |Serialize(v, fmt, 0)|)
  {
    TextNulFree(v, fmt, 0);
    CstMeans(v, fmt, 0);
    CstText(v, fmt, 0);
    var text := Serialize(v, fmt, 0);
    var d := Document(false, Slot([], CstOf(v, fmt, 0), []));
    hide Serialize, CstOf, Flat, Grammatical, Meaning, ParseDocument;
    assert [] + (text + []) == text;
    DocumentComplete(d, true);
  }

  /** Different values have different texts. */
  lemma TextDetermines(v: Json, w: Json, fmt: bool, gmt: bool)
    requires Printable(v) && Nesting(v) <= 1000 && Printable(w) && Nesting(w) <= 1000
    requires Serialize(v, fmt, 0) == Serialize(w, gmt, 0)
    ensures v == w
  {
    hide Serialize, Printable;
    RoundTrip(v, fmt);
    RoundTrip(w, gmt);
  }
}
