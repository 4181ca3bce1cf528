/**
 The grammar of the texts the parser accepts: syntax trees that keep the white space, the
 text of a tree, and the value it denotes.  The parser accepts exactly the texts of
 well-formed trees that are nested no deeper than the limit, and returns what they denote.
 */
module JsonGrammar {
  import opened Ascii
  import opened JsonValue
  import opened JsonString
  import opened JsonNumber
  import opened JsonParse

  datatype Cst =
    | NullText
    | FalseText
    | TrueText
    | NumberText(text: seq<byte>)
    | StringText(body: seq<byte>)
    | ArrayText(ws: seq<byte>, items: seq<Slot>)
    | ObjectText(ws: seq<byte>, entries: seq<Entry>)

  /** A value with the white space around it. */
  datatype Slot = Slot(before: seq<byte>, value: Cst, after: seq<byte>)

  /** A member: white space, the name's text, white space, and after the colon an item. */
  datatype Entry = Entry(before: seq<byte>, name: seq<byte>, gap: seq<byte>, item: Slot)

  predicate White(ws: seq<byte>) {
    forall i | 0 <= i < |ws| :: ws[i] <= SPACE
  }

  predicate Grammatical(c: Cst)
    decreases c
  {
    match c
    case NumberText(text) => IsNumber(text)
    case StringText(body) => IsBody(body)
    case ArrayText(ws, items) => White(ws) && ItemsGrammatical(items)
    case ObjectText(ws, entries) => White(ws) && EntriesGrammatical(entries)
    case _ => true
  }

  predicate ItemGrammatical(i: Slot)
    decreases i
  {
    White(i.before) && White(i.after) && Grammatical(i.value)
  }

  predicate ItemsGrammatical(items: seq<Slot>)
    decreases items
  {
    items == [] || (ItemGrammatical(items[0]) && ItemsGrammatical(items[1..]))
  }

  predicate EntryGrammatical(e: Entry)
    decreases e
  {
    White(e.before) && IsBody(e.name) && White(e.gap) && ItemGrammatical(e.item)
  }

  predicate EntriesGrammatical(entries: seq<Entry>)
    decreases entries
  {
    entries == [] || (EntryGrammatical(entries[0]) && EntriesGrammatical(entries[1..]))
  }

  // ----- text -----

  function Quoted(body: seq<byte>): seq<byte> {
    [QUOTE] + body + [QUOTE]
  }

  function Flat(c: Cst): seq<byte>
    decreases c
  {
    match c
    case NullText => NULL_TEXT
    case FalseText => FALSE_TEXT
    case TrueText => TRUE_TEXT
    case NumberText(text) => text
    case StringText(body) => Quoted(body)
    case ArrayText(ws, items) =>
      [OPEN_BRACKET] + ((if items == [] then ws else FlatItems(items)) + [CLOSE_BRACKET])
    case ObjectText(ws, entries) =>
      [OPEN_BRACE] + ((if entries == [] then ws else FlatEntries(entries)) + [CLOSE_BRACE])
  }

  function FlatItem(i: Slot): seq<byte>
    decreases i
  {
    i.before + (Flat(i.value) + i.after)
  }

  function FlatItems(items: seq<Slot>): seq<byte>
    requires items != []
    decreases items
  {
    if |items| == 1 then FlatItem(items[0]) else FlatItem(items[0]) + ([COMMA] + FlatItems(items[1..]))
  }

  function FlatEntry(e: Entry): seq<byte>
    decreases e
  {
    e.before + (Quoted(e.name) + (e.gap + ([COLON] + FlatItem(e.item))))
  }

  function FlatEntries(entries: seq<Entry>): seq<byte>
    requires entries != []
    decreases entries
  {
    if |entries| == 1 then FlatEntry(entries[0]) else FlatEntry(entries[0]) + ([COMMA] + FlatEntries(entries[1..]))
  }

  // ----- meaning -----

  function Meaning(c: Cst): Json
    requires Grammatical(c)
    decreases c
  {
    match c
    case NullText => Null
    case FalseText => False
    case TrueText => True
    case NumberText(text) => Number(text)
    case StringText(body) => String(BodyValue(body))
    case ArrayText(_, items) => Array(ItemsMeaning(items))
    case ObjectText(_, entries) => Object(EntriesMeaning(entries))
  }

  function ItemsMeaning(items: seq<Slot>): (r: seq<Json>)
    requires ItemsGrammatical(items)
    ensures |r| == |items|
    decreases items
  {
    if items == [] then []
    else
      assert ItemGrammatical(items[0]);
      [Meaning(items[0].value)] + ItemsMeaning(items[1..])
  }

  function EntryMeaning(e: Entry): Member
    requires EntryGrammatical(e)
    decreases e
  {
    assert ItemGrammatical(e.item);
    Member(BodyValue(e.name), Meaning(e.item.value))
  }

  function EntriesMeaning(entries: seq<Entry>): (r: seq<Member>)
    requires EntriesGrammatical(entries)
    ensures |r| == |entries|
    decreases entries
  {
    if entries == [] then []
    else
      [EntryMeaning(entries[0])] + EntriesMeaning(entries[1..])
  }

  // ----- completeness -----

  lemma FlatFirst(c: Cst)
    requires Grammatical(c)
    ensures Flat(c) != [] && Flat(c)[0] > SPACE && Flat(c)[0] != CLOSE_BRACKET
  {
  }

  lemma {:induction false} WsEndOver(s: seq<byte>, q: nat, n: nat)
    requires q + n < |s| && (forall k | q <= k < q + n :: s[k] <= SPACE) && s[q + n] > SPACE
    ensures WsEnd(s, q) == q + n
    decreases n
  {
    if n > 0 {
      WsEndOver(s, q + 1, n - 1);
    }
  }

  /** Skipping white space in front of something else. */
  lemma SkipOver(s: seq<byte>, q: nat, ws: seq<byte>)
    requires At(s, q, ws) && White(ws) && q + |ws| < |s| && s[q + |ws|] > SPACE
    ensures SkipWs(s, q) == q + |ws|
  {
    AtIndex(s, q, ws);
    forall k | q <= k < q + |ws| ensures s[k] <= SPACE {
      assert s[q + (k - q)] == ws[k - q];
    }
    WsEndOver(s, q, |ws|);
  }

  /** What follows an item, its white space or the delimiter, is no number character. */
  lemma WhiteFollows(s: seq<byte>, q: nat, ws: seq<byte>, b: byte)
    requires At(s, q, ws + [b]) && White(ws) && b in {COMMA, CLOSE_BRACKET, CLOSE_BRACE, COLON}
    ensures q < |s| && !NumberChar(s[q])
    ensures SkipWs(s, q) == q + |ws| && s[q + |ws|] == b
  {
    AtSplit(s, q, ws, [b]);
    AtIndex(s, q + |ws|, [b]);
    AtIndex(s, q, ws);
    SkipOver(s, q, ws);
    if ws != [] {
      assert s[q] == ws[0];
    }
  }

  ghost predicate EndsNumber(s: seq<byte>, o: nat, c: Cst) {
    c.NumberText? && |c.text| < 63 ==> o + |Flat(c)| < |s| && !NumberChar(s[o + |Flat(c)|])
  }

  lemma {:induction false} Complete(s: seq<byte>, o: nat, depth: nat, c: Cst)
    requires Terminated(s) && Grammatical(c) && At(s, o, Flat(c)) && EndsNumber(s, o, c) && o < |s|
    requires depth + Nesting(Meaning(c)) <= NESTING_LIMIT
    ensures ParseValue(s, o, depth) == Ok(Meaning(c), o + |Flat(c)|)
    decreases c, 1
  {
    hide IsBody, IsNumber;
    AtIndex(s, o, Flat(c));
    match c
    case NullText =>
    case FalseText => WordFirst(s, o);
    case TrueText => WordFirst(s, o);
    case NumberText(text) =>
      NumberComplete(s, o, text);
      NotWord(s, o);
    case StringText(body) =>
      ParseStringComplete(s, o, body);
      NotWord(s, o);
    case ArrayText(ws, items) =>
      ArrayComplete(s, o, depth, c);
      NotWord(s, o);
    case ObjectText(ws, entries) =>
      ObjectComplete(s, o, depth, c);
      NotWord(s, o);
  }

  /** The words start with different letters. */
  lemma WordFirst(s: seq<byte>, o: nat)
    ensures At(s, o, FALSE_TEXT) || At(s, o, TRUE_TEXT) ==> !At(s, o, NULL_TEXT)
    ensures At(s, o, TRUE_TEXT) ==> !At(s, o, FALSE_TEXT)
  {
    FirstByte(s, o, NULL_TEXT);
    FirstByte(s, o, FALSE_TEXT);
    FirstByte(s, o, TRUE_TEXT);
  }

  lemma FirstByte(s: seq<byte>, o: nat, t: seq<byte>)
    requires t != []
    ensures At(s, o, t) ==> o < |s| && s[o] == t[0]
  {
    if At(s, o, t) {
      AtIndex(s, o, t);
      assert s[o + 0] == t[0];
    }
  }

  /** A value that starts with another byte is none of the three words. */
  lemma NotWord(s: seq<byte>, o: nat)
    requires Terminated(s) && o < |s| && s[o] !in {NULL_TEXT[0], FALSE_TEXT[0], TRUE_TEXT[0]}
    ensures ParseWord(s, o).Err?
  {
    FirstByte(s, o, NULL_TEXT);
    FirstByte(s, o, FALSE_TEXT);
    FirstByte(s, o, TRUE_TEXT);
  }

  lemma NumberComplete(s: seq<byte>, o: nat, text: seq<byte>)
    requires Terminated(s) && o < |s| && IsNumber(text) && At(s, o, text)
    requires |text| < 63 ==> o + |text| < |s| && !NumberChar(s[o + |text|])
    ensures ParseNumber(s, o) == Ok(Number(text), o + |text|)
    ensures s[o] == MINUS || Digit(s[o])
  {
    AtIndex(s, o, text);
    RunOfNumber(s, o, text, 63);
    assert text[..|text|] == text;
  }

  // What the parse functions do in terms of their parts.

  /** From `q`, past white space, the value `v` is parsed, and past more white space `n` is reached. */
  ghost predicate ItemParsed(s: seq<byte>, q: nat, depth: nat, v: Json, n: nat)
    requires Terminated(s) && q < |s| && depth <= NESTING_LIMIT
  {
    var r := ParseValue(s, SkipWs(s, q), depth);
    r.Ok? && r.value == v && SkipWs(s, r.next) == n
  }

  ghost predicate EntryParsed(s: seq<byte>, q: nat, depth: nat, m: Member, n: nat)
    requires Terminated(s) && q < |s| && depth <= NESTING_LIMIT
  {
    var r := ParseString(s, SkipWs(s, q));
    && r.Ok? && CString(r.value) == m.name && r.next < |s|
    && var c := SkipWs(s, r.next);
    && s[c] == COLON && c + 1 < |s|
    && ItemParsed(s, c + 1, depth, m.value, n)
  }

  lemma ItemsStep(s: seq<byte>, q: nat, depth: nat, v: Json, n: nat)
    requires Terminated(s) && q < |s| && depth <= NESTING_LIMIT && ItemParsed(s, q, depth, v, n)
    ensures n < |s|
    ensures s[n] == CLOSE_BRACKET ==> ParseItems(s, q, depth) == Ok([v], n + 1)
    ensures s[n] == COMMA ==> n + 1 < |s|
    ensures s[n] == COMMA && ParseItems(s, n + 1, depth).Ok? ==>
      ParseItems(s, q, depth) == Ok([v] + ParseItems(s, n + 1, depth).value, ParseItems(s, n + 1, depth).next)
  {
    hide ParseValue, SkipWs;
  }

  lemma EntriesStep(s: seq<byte>, q: nat, depth: nat, m: Member, n: nat)
    requires Terminated(s) && q < |s| && depth <= NESTING_LIMIT && EntryParsed(s, q, depth, m, n)
    ensures n < |s|
    ensures s[n] == CLOSE_BRACE ==> ParseMembers(s, q, depth) == Ok([m], n + 1)
    ensures s[n] == COMMA ==> n + 1 < |s|
    ensures s[n] == COMMA && ParseMembers(s, n + 1, depth).Ok? ==>
      ParseMembers(s, q, depth) == Ok([m] + ParseMembers(s, n + 1, depth).value, ParseMembers(s, n + 1, depth).next)
  {
    hide ParseValue, ParseString, SkipWs, CString;
  }

  /** White space is skipped once or twice alike. */
  lemma SkipTwice(s: seq<byte>, q: nat)
    requires Terminated(s) && q < |s|
    ensures SkipWs(s, SkipWs(s, q)) == SkipWs(s, q)
  {
  }

  lemma SameItems(s: seq<byte>, q: nat, depth: nat)
    requires Terminated(s) && q < |s| && depth <= NESTING_LIMIT
    ensures ParseItems(s, SkipWs(s, q), depth) == ParseItems(s, q, depth)
  {
    hide ParseValue, SkipWs;
    SkipTwice(s, q);
  }

  lemma SameMembers(s: seq<byte>, q: nat, depth: nat)
    requires Terminated(s) && q < |s| && depth <= NESTING_LIMIT
    ensures ParseMembers(s, SkipWs(s, q), depth) == ParseMembers(s, q, depth)
  {
    hide ParseValue, ParseString, SkipWs;
    SkipTwice(s, q);
  }

  lemma ArrayStep(s: seq<byte>, o: nat, depth: nat)
    requires Terminated(s) && o < |s| && depth <= NESTING_LIMIT && s[o] == OPEN_BRACKET
    ensures o + 1 < |s|
    ensures ParseArray(s, o, depth) ==
      if depth == NESTING_LIMIT then Err(o)
      else if s[SkipWs(s, o + 1)] == CLOSE_BRACKET then Ok(Array([]), SkipWs(s, o + 1) + 1)
      else match ParseItems(s, o + 1, depth + 1)
        case Ok(items, next) => Ok(Array(items), next)
        case Err(pos) => Err(pos)
  {
    hide ParseItems, SkipWs;
    if depth < NESTING_LIMIT {
      SameItems(s, o + 1, depth + 1);
    }
  }

  lemma ObjectStep(s: seq<byte>, o: nat, depth: nat)
    requires Terminated(s) && o < |s| && depth <= NESTING_LIMIT && s[o] == OPEN_BRACE
    ensures o + 1 < |s|
    ensures ParseObject(s, o, depth) ==
      if depth == NESTING_LIMIT then Err(o)
      else if s[SkipWs(s, o + 1)] == CLOSE_BRACE then Ok(Object([]), SkipWs(s, o + 1) + 1)
      else match ParseMembers(s, o + 1, depth + 1)
        case Ok(members, next) => Ok(Object(members), next)
        case Err(pos) => Err(pos)
  {
    hide ParseMembers, SkipWs;
    if depth < NESTING_LIMIT {
      SameMembers(s, o + 1, depth + 1);
    }
  }

  lemma ItemSplit(s: seq<byte>, q: nat, i: Slot, b: byte)
    requires ItemGrammatical(i) && At(s, q, FlatItem(i) + [b])
    ensures White(i.before) && White(i.after) && Grammatical(i.value)
    ensures var k := q + |i.before|;
      && |FlatItem(i)| == |i.before| + |Flat(i.value)| + |i.after|
      && At(s, q, i.before) && At(s, k, Flat(i.value)) && At(s, k + |Flat(i.value)|, i.after + [b])
      && k < |s| && s[k] > SPACE && s[k] != CLOSE_BRACKET
  {
    hide *;
    ItemUnfold(i, b);
    AtSplit(s, q, i.before, Flat(i.value) + (i.after + [b]));
    AtSplit(s, q + |i.before|, Flat(i.value), i.after + [b]);
    FirstByte(s, q + |i.before|, Flat(i.value));
    AtLength(s, q + |i.before|, Flat(i.value));
  }

  lemma ItemUnfold(i: Slot, b: byte)
    requires ItemGrammatical(i)
    ensures White(i.before) && White(i.after) && Grammatical(i.value)
    ensures FlatItem(i) + [b] == i.before + (Flat(i.value) + (i.after + [b]))
    ensures |FlatItem(i)| == |i.before| + |Flat(i.value)| + |i.after|
    ensures Flat(i.value) != [] && Flat(i.value)[0] > SPACE && Flat(i.value)[0] != CLOSE_BRACKET
  {
    FlatFirst(i.value);
    hide Flat, Grammatical, White;
    assert (Flat(i.value) + i.after) + [b] == Flat(i.value) + (i.after + [b]);
  }

  lemma AtLength(s: seq<byte>, o: nat, t: seq<byte>)
    requires At(s, o, t)
    ensures o + |t| <= |s|
  {
  }

  lemma {:induction false} ItemComplete(s: seq<byte>, q: nat, depth: nat, i: Slot, b: byte)
    requires Terminated(s) && ItemGrammatical(i) && At(s, q, FlatItem(i) + [b]) && q < |s|
    requires b in {COMMA, CLOSE_BRACKET, CLOSE_BRACE}
    requires depth + Nesting(Meaning(i.value)) <= NESTING_LIMIT
    ensures ItemParsed(s, q, depth, Meaning(i.value), q + |FlatItem(i)|)
    ensures q + |FlatItem(i)| < |s| && s[q + |FlatItem(i)|] == b && s[SkipWs(s, q)] != CLOSE_BRACKET
    decreases i, 2
  {
    hide White, Grammatical, Flat, FlatItem, ItemGrammatical, Meaning, Nesting, ParseValue, SkipWs, At;
    ItemSplit(s, q, i, b);
    SkipOver(s, q, i.before);
    WhiteFollows(s, q + |i.before| + |Flat(i.value)|, i.after, b);
    AtLength(s, q + |i.before| + |Flat(i.value)|, i.after + [b]);
    Complete(s, q + |i.before|, depth, i.value);
  }

  lemma ItemsUnfold(items: seq<Slot>)
    requires items != [] && ItemsGrammatical(items)
    ensures ItemGrammatical(items[0]) && Grammatical(items[0].value) && ItemsGrammatical(items[1..])
    ensures ItemsMeaning(items) == [Meaning(items[0].value)] + ItemsMeaning(items[1..])
    ensures |items| == 1 ==> items[1..] == [] && ItemsMeaning(items) == [Meaning(items[0].value)]
  {
    hide Meaning, Grammatical, White;
    if |items| == 1 {
      assert items[1..] == [];
    }
  }

  lemma ItemsSplit(s: seq<byte>, q: nat, items: seq<Slot>)
    requires items != [] && At(s, q, FlatItems(items) + [CLOSE_BRACKET])
    ensures var first := FlatItem(items[0]);
      if |items| == 1 then FlatItems(items) == first && At(s, q, first + [CLOSE_BRACKET])
      else
        && |FlatItems(items)| == |first| + 1 + |FlatItems(items[1..])|
        && At(s, q, first + [COMMA]) && At(s, q + |first| + 1, FlatItems(items[1..]) + [CLOSE_BRACKET])
  {
    hide FlatItem, At;
    if |items| > 1 {
      var first := FlatItem(items[0]);
      var rest := FlatItems(items[1..]) + [CLOSE_BRACKET];
      assert FlatItems(items) + [CLOSE_BRACKET] == (first + [COMMA]) + rest;
      AtSplit(s, q, first + [COMMA], rest);
    }
  }

  lemma NestingSplit(items: seq<Json>, members: seq<Member>)
    ensures items != [] ==>
      NestingOfItems(items) >= Nesting(items[0]) && NestingOfItems(items) >= NestingOfItems(items[1..])
    ensures members != [] ==>
      NestingOfMembers(members) >= Nesting(members[0].value) && NestingOfMembers(members) >= NestingOfMembers(members[1..])
  {
  }

  lemma {:induction false} ItemsComplete(s: seq<byte>, q: nat, depth: nat, items: seq<Slot>)
    requires Terminated(s) && items != [] && ItemsGrammatical(items) && At(s, q, FlatItems(items) + [CLOSE_BRACKET]) && q < |s|
    requires depth + NestingOfItems(ItemsMeaning(items)) <= NESTING_LIMIT
    ensures s[SkipWs(s, q)] != CLOSE_BRACKET
    ensures ParseItems(s, q, depth) == Ok(ItemsMeaning(items), q + |FlatItems(items)| + 1)
    decreases items, 3
  {
    hide *;
    ItemsUnfold(items);
    ItemsSplit(s, q, items);
    NestingSplit(ItemsMeaning(items), []);
    assert ItemsMeaning(items)[1..] == ItemsMeaning(items[1..]);
    var n := q + |FlatItem(items[0])|;
    if |items| == 1 {
      ItemComplete(s, q, depth, items[0], CLOSE_BRACKET);
      ItemsStep(s, q, depth, Meaning(items[0].value), n);
    } else {
      ItemComplete(s, q, depth, items[0], COMMA);
      ItemsStep(s, q, depth, Meaning(items[0].value), n);
      ItemsComplete(s, n + 1, depth, items[1..]);
    }
  }

  lemma NoItems()
    ensures ItemsGrammatical([]) && EntriesGrammatical([]) && ItemsMeaning([]) == [] && EntriesMeaning([]) == []
    ensures NestingOfItems([]) == 0 && NestingOfMembers([]) == 0 && White([])
  {
  }

  lemma ArraySplit(s: seq<byte>, o: nat, c: Cst)
    requires c.ArrayText? && Grammatical(c) && At(s, o, Flat(c))
    ensures White(c.ws) && ItemsGrammatical(c.items) && Meaning(c) == Array(ItemsMeaning(c.items))
    ensures Nesting(Meaning(c)) == 1 + NestingOfItems(ItemsMeaning(c.items))
    ensures o < |s| && s[o] == OPEN_BRACKET
    ensures c.items == [] ==> At(s, o + 1, c.ws + [CLOSE_BRACKET]) && |Flat(c)| == |c.ws| + 2
    ensures c.items != [] ==> At(s, o + 1, FlatItems(c.items) + [CLOSE_BRACKET]) && |Flat(c)| == |FlatItems(c.items)| + 2
  {
    var inner := if c.items == [] then c.ws else FlatItems(c.items);
    assert Flat(c) == [OPEN_BRACKET] + (inner + [CLOSE_BRACKET]);
    AtIndex(s, o, Flat(c));
    assert s[o + 0] == Flat(c)[0];
    hide *;
    AtSplit(s, o, [OPEN_BRACKET], inner + [CLOSE_BRACKET]);
  }

  lemma {:induction false} ArrayComplete(s: seq<byte>, o: nat, depth: nat, c: Cst)
    requires c.ArrayText? && Terminated(s) && Grammatical(c) && At(s, o, Flat(c)) && o < |s|
    requires depth + Nesting(Meaning(c)) <= NESTING_LIMIT
    ensures s[o] == OPEN_BRACKET && ParseArray(s, o, depth) == Ok(Meaning(c), o + |Flat(c)|)
    decreases c, 0
  {
    hide *;
    ArraySplit(s, o, c);
    ArrayStep(s, o, depth);
    if c.items == [] {
      WhiteFollows(s, o + 1, c.ws, CLOSE_BRACKET);
      NoItems();
    } else {
      ItemsComplete(s, o + 1, depth + 1, c.items);
    }
  }

  lemma EntrySplit(s: seq<byte>, q: nat, e: Entry, b: byte)
    requires EntryGrammatical(e) && At(s, q, FlatEntry(e) + [b])
    ensures White(e.before) && IsBody(e.name) && White(e.gap) && ItemGrammatical(e.item)
    ensures var k := q + |e.before|; var g := k + |e.name| + 2; var p := g + |e.gap| + 1;
      && |FlatEntry(e)| == |e.before| + |e.name| + 2 + |e.gap| + 1 + |FlatItem(e.item)|
      && At(s, q, e.before) && At(s, k, Quoted(e.name)) && At(s, g, e.gap + [COLON]) && At(s, p, FlatItem(e.item) + [b])
      && k < |s| && s[k] > SPACE && s[k] != CLOSE_BRACE && p < |s|
  {
    hide *;
    EntryUnfold(e, b);
    AtSplitFour(s, q, e.before, Quoted(e.name), e.gap + [COLON], FlatItem(e.item) + [b]);
    FirstByte(s, q + |e.before|, Quoted(e.name));
    AtLength(s, q + |e.before| + |e.name| + 2 + |e.gap| + 1, FlatItem(e.item) + [b]);
  }

  lemma AtSplitFour(s: seq<byte>, o: nat, a: seq<byte>, b: seq<byte>, c: seq<byte>, d: seq<byte>)
    ensures At(s, o, a + (b + (c + d))) <==>
      At(s, o, a) && At(s, o + |a|, b) && At(s, o + |a| + |b|, c) && At(s, o + |a| + |b| + |c|, d)
  {
    hide *;
    AtSplit(s, o, a, b + (c + d));
    AtSplit(s, o + |a|, b, c + d);
    AtSplit(s, o + |a| + |b|, c, d);
  }

  lemma EntryUnfold(e: Entry, b: byte)
    ensures FlatEntry(e) + [b] == e.before + (Quoted(e.name) + ((e.gap + [COLON]) + (FlatItem(e.item) + [b])))
    ensures |Quoted(e.name)| == |e.name| + 2 && Quoted(e.name)[0] > SPACE && Quoted(e.name)[0] != CLOSE_BRACE
    ensures |FlatEntry(e)| == |e.before| + |e.name| + 2 + |e.gap| + 1 + |FlatItem(e.item)|
    ensures EntryGrammatical(e) ==> White(e.before) && IsBody(e.name) && White(e.gap) && ItemGrammatical(e.item)
  {
    hide IsBody, White, FlatItem, ItemGrammatical;
    var n, v := Quoted(e.name), FlatItem(e.item) + [b];
    assert [COLON] + FlatItem(e.item) + [b] == [COLON] + v;
    assert (e.gap + ([COLON] + FlatItem(e.item))) + [b] == (e.gap + [COLON]) + v;
    assert (n + (e.gap + ([COLON] + FlatItem(e.item)))) + [b] == n + ((e.gap + [COLON]) + v);
  }

  lemma {:induction false} EntryComplete(s: seq<byte>, q: nat, depth: nat, e: Entry, b: byte)
    requires Terminated(s) && EntryGrammatical(e) && At(s, q, FlatEntry(e) + [b]) && q < |s|
    requires b in {COMMA, CLOSE_BRACE} && ItemGrammatical(e.item)
    requires depth + Nesting(EntryMeaning(e).value) <= NESTING_LIMIT
    ensures EntryParsed(s, q, depth, EntryMeaning(e), q + |FlatEntry(e)|)
    ensures q + |FlatEntry(e)| < |s| && s[q + |FlatEntry(e)|] == b && s[SkipWs(s, q)] != CLOSE_BRACE
    decreases e, 2
  {
    hide White, IsBody, BodyValue, EntryGrammatical, ItemGrammatical, FlatEntry, FlatItem, Meaning, Nesting,
      ItemParsed, ParseString, SkipWs, At;
    EntrySplit(s, q, e, b);
    var k := q + |e.before|;
    var g := k + |e.name| + 2;
    SkipOver(s, q, e.before);
    ParseStringComplete(s, k, e.name);
    WhiteFollows(s, g, e.gap, COLON);
    ItemComplete(s, g + |e.gap| + 1, depth, e.item, b);
  }

  lemma EntriesUnfold(entries: seq<Entry>)
    requires entries != [] && EntriesGrammatical(entries)
    ensures EntryGrammatical(entries[0]) && IsBody(entries[0].name) && ItemGrammatical(entries[0].item)
    ensures Grammatical(entries[0].item.value) && EntriesGrammatical(entries[1..])
    ensures EntriesMeaning(entries) == [EntryMeaning(entries[0])] + EntriesMeaning(entries[1..])
    ensures |entries| == 1 ==> entries[1..] == [] && EntriesMeaning(entries) == [EntryMeaning(entries[0])]
  {
    hide Meaning, Grammatical, White, IsBody, BodyValue;
    if |entries| == 1 {
      assert entries[1..] == [];
    }
  }

  lemma EntriesSplit(s: seq<byte>, q: nat, entries: seq<Entry>)
    requires entries != [] && At(s, q, FlatEntries(entries) + [CLOSE_BRACE])
    ensures var first := FlatEntry(entries[0]);
      if |entries| == 1 then FlatEntries(entries) == first && At(s, q, first + [CLOSE_BRACE])
      else
        && |FlatEntries(entries)| == |first| + 1 + |FlatEntries(entries[1..])|
        && At(s, q, first + [COMMA]) && At(s, q + |first| + 1, FlatEntries(entries[1..]) + [CLOSE_BRACE])
  {
    hide FlatEntry, At;
    if |entries| > 1 {
      var first := FlatEntry(entries[0]);
      var rest := FlatEntries(entries[1..]) + [CLOSE_BRACE];
      assert FlatEntries(entries) + [CLOSE_BRACE] == (first + [COMMA]) + rest;
      AtSplit(s, q, first + [COMMA], rest);
    }
  }

  lemma {:induction false} EntriesComplete(s: seq<byte>, q: nat, depth: nat, entries: seq<Entry>)
    requires Terminated(s) && entries != [] && EntriesGrammatical(entries) && At(s, q, FlatEntries(entries) + [CLOSE_BRACE])
    requires q < |s| && depth + NestingOfMembers(EntriesMeaning(entries)) <= NESTING_LIMIT
    ensures s[SkipWs(s, q)] != CLOSE_BRACE
    ensures ParseMembers(s, q, depth) == Ok(EntriesMeaning(entries), q + |FlatEntries(entries)| + 1)
    decreases entries, 3
  {
    hide *;
    EntriesUnfold(entries);
    EntriesSplit(s, q, entries);
    NestingSplit([], EntriesMeaning(entries));
    assert EntriesMeaning(entries)[1..] == EntriesMeaning(entries[1..]);
    var m := EntryMeaning(entries[0]);
    var n := q + |FlatEntry(entries[0])|;
    if |entries| == 1 {
      EntryComplete(s, q, depth, entries[0], CLOSE_BRACE);
      EntriesStep(s, q, depth, m, n);
    } else {
      EntryComplete(s, q, depth, entries[0], COMMA);
      EntriesStep(s, q, depth, m, n);
      EntriesComplete(s, n + 1, depth, entries[1..]);
    }
  }

  lemma ObjectSplit(s: seq<byte>, o: nat, c: Cst)
    requires c.ObjectText? && Grammatical(c) && At(s, o, Flat(c))
    ensures White(c.ws) && EntriesGrammatical(c.entries) && Meaning(c) == Object(EntriesMeaning(c.entries))
    ensures Nesting(Meaning(c)) == 1 + NestingOfMembers(EntriesMeaning(c.entries))
    ensures o < |s| && s[o] == OPEN_BRACE
    ensures c.entries == [] ==> At(s, o + 1, c.ws + [CLOSE_BRACE]) && |Flat(c)| == |c.ws| + 2
    ensures c.entries != [] ==> At(s, o + 1, FlatEntries(c.entries) + [CLOSE_BRACE]) && |Flat(c)| == |FlatEntries(c.entries)| + 2
  {
    var inner := if c.entries == [] then c.ws else FlatEntries(c.entries);
    assert Flat(c) == [OPEN_BRACE] + (inner + [CLOSE_BRACE]);
    AtIndex(s, o, Flat(c));
    assert s[o + 0] == Flat(c)[0];
    hide *;
    AtSplit(s, o, [OPEN_BRACE], inner + [CLOSE_BRACE]);
  }

  lemma {:induction false} ObjectComplete(s: seq<byte>, o: nat, depth: nat, c: Cst)
    requires c.ObjectText? && Terminated(s) && Grammatical(c) && At(s, o, Flat(c)) && o < |s|
    requires depth + Nesting(Meaning(c)) <= NESTING_LIMIT
    ensures s[o] == OPEN_BRACE && ParseObject(s, o, depth) == Ok(Meaning(c), o + |Flat(c)|)
    decreases c, 0
  {
    hide *;
    ObjectSplit(s, o, c);
    ObjectStep(s, o, depth);
    if c.entries == [] {
      WhiteFollows(s, o + 1, c.ws, CLOSE_BRACE);
      NoItems();
    } else {
      EntriesComplete(s, o + 1, depth + 1, c.entries);
    }
  }
}
