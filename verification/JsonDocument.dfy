/**
 Whole texts.  What the parser accepts, and where it says an error is, for the entry point
 that takes a C string; and the proof that it accepts nothing but texts of the grammar.
 */
module JsonDocument {
  import opened Ascii
  import opened JsonValue
  import opened JsonString
  import opened JsonNumber
  import opened JsonParse
  import opened JsonGrammar

  // ----- soundness: every value that is parsed is the meaning of a syntax tree -----

  /** `c` is what stands at `o`, denotes the parsed value and is nested no deeper than the limit allows. */
  ghost predicate Explains(s: seq<byte>, o: nat, depth: nat, r: Parsed<Json>, c: Cst) {
    && r.Ok? && Grammatical(c) && Meaning(c) == r.value
    && At(s, o, Flat(c)) && r.next == o + |Flat(c)|
    && depth + Nesting(r.value) <= NESTING_LIMIT
  }

  lemma {:induction false} Sound(s: seq<byte>, o: nat, depth: nat) returns (c: Cst)
    requires Terminated(s) && o < |s| && depth <= NESTING_LIMIT && ParseValue(s, o, depth).Ok?
    ensures Explains(s, o, depth, ParseValue(s, o, depth), c)
    decreases |s| - o, 1
  {
    hide ParseArray, ParseObject, ParseNumber, ParseString, IsBody, BodyValue, IsNumber;
    if ParseWord(s, o).Ok? {
      c := if At(s, o, NULL_TEXT) then NullText else if At(s, o, FALSE_TEXT) then FalseText else TrueText;
    } else if s[o] == QUOTE {
      var body := ParseStringSound(s, o);
      c := StringText(body);
    } else if s[o] == MINUS || Digit(s[o]) {
      c := NumberSound(s, o);
    } else if s[o] == OPEN_BRACKET {
      hide Explains;
      c := ArraySound(s, o, depth);
    } else {
      hide Explains;
      c := ObjectSound(s, o, depth);
    }
  }

  lemma AtPrefix(s: seq<byte>, o: nat, t: seq<byte>, n: nat)
    requires At(s, o, t) && 0 < n <= |t|
    ensures At(s, o, t[..n]) && s[o] == t[0]
  {
    hide *;
    assert t == t[..n] + t[n..];
    AtSplit(s, o, t[..n], t[n..]);
    FirstByte(s, o, t);
  }

  lemma RunStands(s: seq<byte>, o: nat)
    requires o <= |s|
    ensures At(s, o, Run(s, o, 63))
  {
    hide Run;
  }

  lemma NumberSound(s: seq<byte>, o: nat) returns (c: Cst)
    requires Terminated(s) && o < |s| && (s[o] == MINUS || Digit(s[o])) && ParseNumber(s, o).Ok?
    ensures c.NumberText? && IsNumber(c.text) && ParseNumber(s, o).value == Number(c.text)
    ensures At(s, o, c.text) && ParseNumber(s, o).next == o + |c.text|
  {
    hide Run, NumberChar, Accepted, IsNumber, At;
    var run := Run(s, o, 63);
    var n := Accepted(run);
    c := NumberText(run[..n]);
    RunStands(s, o);
    AtPrefix(s, o, run, n);
    AcceptedIsNumber(run);
  }

  lemma SkipIsWhite(s: seq<byte>, q: nat) returns (ws: seq<byte>)
    requires q < |s|
    ensures White(ws) && At(s, q, ws) && SkipWs(s, q) == q + |ws|
  {
    ws := s[q..SkipWs(s, q)];
  }

  lemma {:induction false} ItemSound(s: seq<byte>, q: nat, depth: nat, v: Json, n: nat) returns (i: Slot)
    requires Terminated(s) && q < |s| && depth <= NESTING_LIMIT && ItemParsed(s, q, depth, v, n)
    ensures ItemGrammatical(i) && Grammatical(i.value) && Meaning(i.value) == v
    ensures At(s, q, FlatItem(i)) && n == q + |FlatItem(i)| && depth + Nesting(v) <= NESTING_LIMIT
    decreases |s| - q, 2
  {
    hide Grammatical, Flat, Meaning, Nesting, ParseValue, SkipWs, White, At;
    var before := SkipIsWhite(s, q);
    var c := Sound(s, SkipWs(s, q), depth);
    var after := SkipIsWhite(s, ParseValue(s, SkipWs(s, q), depth).next);
    i := Slot(before, c, after);
    AtSplit(s, q, before, Flat(c) + after);
    AtSplit(s, SkipWs(s, q), Flat(c), after);
  }

  /** What a list that was parsed looks like after its first item. */
  lemma ItemsCases(s: seq<byte>, q: nat, depth: nat) returns (v: Json, n: nat)
    requires Terminated(s) && q < |s| && depth <= NESTING_LIMIT && ParseItems(s, q, depth).Ok?
    ensures q < n < |s| && ItemParsed(s, q, depth, v, n) && (s[n] == COMMA || s[n] == CLOSE_BRACKET)
    ensures s[n] == CLOSE_BRACKET ==> ParseItems(s, q, depth) == Ok([v], n + 1)
    ensures s[n] == COMMA ==>
      && n + 1 < |s| && ParseItems(s, n + 1, depth).Ok?
      && ParseItems(s, q, depth) == Ok([v] + ParseItems(s, n + 1, depth).value, ParseItems(s, n + 1, depth).next)
  {
    hide ParseValue, SkipWs;
    var r := ParseValue(s, SkipWs(s, q), depth);
    v, n := r.value, SkipWs(s, r.next);
  }

  lemma ItemsFold(s: seq<byte>, q: nat, i: Slot, rest: seq<Slot>)
    requires ItemGrammatical(i) && ItemsGrammatical(rest) && Grammatical(i.value) && At(s, q, FlatItem(i))
    requires var n := q + |FlatItem(i)|;
      if rest == [] then At(s, n, [CLOSE_BRACKET])
      else At(s, n, [COMMA]) && At(s, n + 1, FlatItems(rest) + [CLOSE_BRACKET])
    ensures var items := [i] + rest;
      && ItemsGrammatical(items) && ItemsMeaning(items) == [Meaning(i.value)] + ItemsMeaning(rest)
      && At(s, q, FlatItems(items) + [CLOSE_BRACKET])
      && |FlatItems(items)| == |FlatItem(i)| + if rest == [] then 0 else 1 + |FlatItems(rest)|
  {
    var items := [i] + rest;
    assert items[1..] == rest && items[0] == i;
    hide Grammatical, Meaning, ItemGrammatical, FlatItem, At;
    var first := FlatItem(i);
    if rest == [] {
      assert FlatItems(items) == first;
      AtSplit(s, q, first, [CLOSE_BRACKET]);
    } else {
      var tail := FlatItems(rest) + [CLOSE_BRACKET];
      assert FlatItems(items) + [CLOSE_BRACKET] == first + ([COMMA] + tail);
      AtSplit(s, q, first, [COMMA] + tail);
      AtSplit(s, q + |first|, [COMMA], tail);
    }
  }

  lemma ByteAt(s: seq<byte>, n: nat)
    requires n < |s|
    ensures At(s, n, [s[n]])
  {
  }

  lemma {:induction false} NestingFold(items: seq<Json>, members: seq<Member>, v: Json, m: Member, limit: nat)
    requires Nesting(v) <= limit && Nesting(m.value) <= limit
    requires NestingOfItems(items) <= limit && NestingOfMembers(members) <= limit
    ensures NestingOfItems([v] + items) <= limit && NestingOfMembers([m] + members) <= limit
  {
    assert ([v] + items)[1..] == items && ([m] + members)[1..] == members;
  }

  lemma {:induction false} ItemsSound(s: seq<byte>, q: nat, depth: nat) returns (items: seq<Slot>)
    requires Terminated(s) && q < |s| && depth <= NESTING_LIMIT && ParseItems(s, q, depth).Ok?
    ensures var r := ParseItems(s, q, depth);
      && items != [] && ItemsGrammatical(items) && ItemsMeaning(items) == r.value
      && At(s, q, FlatItems(items) + [CLOSE_BRACKET]) && r.next == q + |FlatItems(items)| + 1
      && depth + NestingOfItems(r.value) <= NESTING_LIMIT
    decreases |s| - q, 3
  {
    hide *;
    var v, n := ItemsCases(s, q, depth);
    var i := ItemSound(s, q, depth, v, n);
    ByteAt(s, n);
    var rest := [];
    NoItems();
    if s[n] == COMMA {
      rest := ItemsSound(s, n + 1, depth);
    }
    ItemsFold(s, q, i, rest);
    NestingFold(ItemsMeaning(rest), [], v, Member([], v), NESTING_LIMIT - depth);
    items := [i] + rest;
  }

  lemma ArrayFold(s: seq<byte>, o: nat, c: Cst)
    requires c.ArrayText? && White(c.ws) && ItemsGrammatical(c.items) && o < |s| && s[o] == OPEN_BRACKET
    requires At(s, o + 1, (if c.items == [] then c.ws else FlatItems(c.items)) + [CLOSE_BRACKET])
    ensures Grammatical(c) && Meaning(c) == Array(ItemsMeaning(c.items)) && At(s, o, Flat(c))
    ensures |Flat(c)| == 2 + if c.items == [] then |c.ws| else |FlatItems(c.items)|
    ensures Nesting(Meaning(c)) == 1 + NestingOfItems(ItemsMeaning(c.items))
  {
    hide White, At, ItemsGrammatical, FlatItems, ItemsMeaning, NestingOfItems;
    ByteAt(s, o);
    AtSplit(s, o, [OPEN_BRACKET], (if c.items == [] then c.ws else FlatItems(c.items)) + [CLOSE_BRACKET]);
  }

  lemma {:induction false} ArraySound(s: seq<byte>, o: nat, depth: nat) returns (c: Cst)
    requires Terminated(s) && o < |s| && depth <= NESTING_LIMIT && s[o] == OPEN_BRACKET && ParseArray(s, o, depth).Ok?
    ensures Explains(s, o, depth, ParseArray(s, o, depth), c)
    decreases |s| - o, 0
  {
    hide ParseArray, ParseItems, SkipWs, Grammatical, Meaning, Flat, Nesting, ItemsGrammatical, ItemsMeaning, FlatItems,
      At, White;
    ArrayStep(s, o, depth);
    NoItems();
    if s[SkipWs(s, o + 1)] == CLOSE_BRACKET {
      var ws := SkipIsWhite(s, o + 1);
      ByteAt(s, SkipWs(s, o + 1));
      c := ArrayText(ws, []);
      AtSplit(s, o + 1, ws, [CLOSE_BRACKET]);
    } else {
      var items := ItemsSound(s, o + 1, depth + 1);
      c := ArrayText([], items);
    }
    ArrayFold(s, o, c);
  }

  lemma {:induction false} EntrySound(s: seq<byte>, q: nat, depth: nat, m: Member, n: nat) returns (e: Entry)
    requires Terminated(s) && q < |s| && depth <= NESTING_LIMIT && EntryParsed(s, q, depth, m, n)
    ensures EntryGrammatical(e) && EntryMeaning(e) == m
    ensures At(s, q, FlatEntry(e)) && n == q + |FlatEntry(e)| && depth + Nesting(m.value) <= NESTING_LIMIT
    decreases |s| - q, 2
  {
    hide ItemParsed, Grammatical, Flat, FlatItem, ItemGrammatical, Meaning, Nesting, ParseString, SkipWs, White, IsBody,
      BodyValue, CString, At;
    var before := SkipIsWhite(s, q);
    var o := SkipWs(s, q);
    var body := ParseStringSound(s, o);
    var next := ParseString(s, o).next;
    var gap := SkipIsWhite(s, next);
    var k := SkipWs(s, next);
    ByteAt(s, k);
    var i := ItemSound(s, k + 1, depth, m.value, n);
    e := Entry(before, body, gap, i);
    AtSplit(s, k, [COLON], FlatItem(i));
    AtSplitFour(s, q, before, Quoted(body), gap, [COLON] + FlatItem(i));
  }

  lemma MembersCases(s: seq<byte>, q: nat, depth: nat) returns (m: Member, n: nat)
    requires Terminated(s) && q < |s| && depth <= NESTING_LIMIT && ParseMembers(s, q, depth).Ok?
    ensures q < n < |s| && EntryParsed(s, q, depth, m, n) && (s[n] == COMMA || s[n] == CLOSE_BRACE)
    ensures s[n] == CLOSE_BRACE ==> ParseMembers(s, q, depth) == Ok([m], n + 1)
    ensures s[n] == COMMA ==>
      && n + 1 < |s| && ParseMembers(s, n + 1, depth).Ok?
      && ParseMembers(s, q, depth) == Ok([m] + ParseMembers(s, n + 1, depth).value, ParseMembers(s, n + 1, depth).next)
  {
    hide ParseValue, ParseString, SkipWs, CString;
    var name := ParseString(s, SkipWs(s, q));
    var r := ParseValue(s, SkipWs(s, SkipWs(s, name.next) + 1), depth);
    m, n := Member(CString(name.value), r.value), SkipWs(s, r.next);
  }

  lemma EntriesFold(s: seq<byte>, q: nat, e: Entry, rest: seq<Entry>)
    requires EntryGrammatical(e) && EntriesGrammatical(rest) && At(s, q, FlatEntry(e))
    requires var n := q + |FlatEntry(e)|;
      if rest == [] then At(s, n, [CLOSE_BRACE])
      else At(s, n, [COMMA]) && At(s, n + 1, FlatEntries(rest) + [CLOSE_BRACE])
    ensures var entries := [e] + rest;
      && EntriesGrammatical(entries) && EntriesMeaning(entries) == [EntryMeaning(e)] + EntriesMeaning(rest)
      && At(s, q, FlatEntries(entries) + [CLOSE_BRACE])
      && |FlatEntries(entries)| == |FlatEntry(e)| + if rest == [] then 0 else 1 + |FlatEntries(rest)|
  {
    var entries := [e] + rest;
    assert entries[1..] == rest && entries[0] == e;
    hide EntryMeaning, EntryGrammatical, FlatEntry, At;
    var first := FlatEntry(e);
    if rest == [] {
      assert FlatEntries(entries) == first;
      AtSplit(s, q, first, [CLOSE_BRACE]);
    } else {
      var tail := FlatEntries(rest) + [CLOSE_BRACE];
      assert FlatEntries(entries) + [CLOSE_BRACE] == first + ([COMMA] + tail);
      AtSplit(s, q, first, [COMMA] + tail);
      AtSplit(s, q + |first|, [COMMA], tail);
    }
  }

  lemma {:induction false} EntriesSound(s: seq<byte>, q: nat, depth: nat) returns (entries: seq<Entry>)
    requires Terminated(s) && q < |s| && depth <= NESTING_LIMIT && ParseMembers(s, q, depth).Ok?
    ensures var r := ParseMembers(s, q, depth);
      && entries != [] && EntriesGrammatical(entries) && EntriesMeaning(entries) == r.value
      && At(s, q, FlatEntries(entries) + [CLOSE_BRACE]) && r.next == q + |FlatEntries(entries)| + 1
      && depth + NestingOfMembers(r.value) <= NESTING_LIMIT
    decreases |s| - q, 3
  {
    hide *;
    var m, n := MembersCases(s, q, depth);
    var e := EntrySound(s, q, depth, m, n);
    ByteAt(s, n);
    var rest := [];
    NoItems();
    if s[n] == COMMA {
      rest := EntriesSound(s, n + 1, depth);
    }
    EntriesFold(s, q, e, rest);
    NestingFold([], EntriesMeaning(rest), m.value, m, NESTING_LIMIT - depth);
    entries := [e] + rest;
  }

  lemma ObjectFold(s: seq<byte>, o: nat, c: Cst)
    requires c.ObjectText? && White(c.ws) && EntriesGrammatical(c.entries) && o < |s| && s[o] == OPEN_BRACE
    requires At(s, o + 1, (if c.entries == [] then c.ws else FlatEntries(c.entries)) + [CLOSE_BRACE])
    ensures Grammatical(c) && Meaning(c) == Object(EntriesMeaning(c.entries)) && At(s, o, Flat(c))
    ensures |Flat(c)| == 2 + if c.entries == [] then |c.ws| else |FlatEntries(c.entries)|
    ensures Nesting(Meaning(c)) == 1 + NestingOfMembers(EntriesMeaning(c.entries))
  {
    hide White, At, EntriesGrammatical, FlatEntries, EntriesMeaning, NestingOfMembers;
    ByteAt(s, o);
    AtSplit(s, o, [OPEN_BRACE], (if c.entries == [] then c.ws else FlatEntries(c.entries)) + [CLOSE_BRACE]);
  }

  lemma {:induction false} ObjectSound(s: seq<byte>, o: nat, depth: nat) returns (c: Cst)
    requires Terminated(s) && o < |s| && depth <= NESTING_LIMIT && s[o] == OPEN_BRACE && ParseObject(s, o, depth).Ok?
    ensures Explains(s, o, depth, ParseObject(s, o, depth), c)
    decreases |s| - o, 0
  {
    hide ParseObject, ParseMembers, SkipWs, Grammatical, Meaning, Flat, Nesting, EntriesGrammatical, EntriesMeaning,
      FlatEntries, At, White;
    ObjectStep(s, o, depth);
    NoItems();
    if s[SkipWs(s, o + 1)] == CLOSE_BRACE {
      var ws := SkipIsWhite(s, o + 1);
      ByteAt(s, SkipWs(s, o + 1));
      c := ObjectText(ws, []);
      AtSplit(s, o + 1, ws, [CLOSE_BRACE]);
    } else {
      var entries := EntriesSound(s, o + 1, depth + 1);
      c := ObjectText([], entries);
    }
    ObjectFold(s, o, c);
  }

  // ----- the entry point -----

  const BYTE_ORDER_MARK: seq<byte> := [0xEF, 0xBB, 0xBF]

  /** `skip_utf8_bom()` at the start of the buffer. */
  function BomEnd(s: seq<byte>): (e: nat) {
    if 4 < |s| && At(s, 0, BYTE_ORDER_MARK) then 3 else 0
  }

  /** The tree and where parsing ended, or the error position. */
  datatype Outcome = Tree(value: Json, end: nat) | Failure(position: nat)

  /** `cJSON_ParseWithOpts()` on the C string `text`; `required` asks that nothing but white space follows the value. */
  function ParseDocument(text: seq<byte>, required: bool): (r: Outcome)
    requires NulFree(text)
    ensures r.Tree? ==> r.end <= |text| && (required ==> r.end == |text|)
    ensures r.Failure? ==> r.position <= |text|
  {
    var s := text + [NUL];
    match ParseValue(s, SkipWs(s, BomEnd(s)), 0)
    case Err(pos) => Failure(if pos < |s| then pos else |s| - 1)
    case Ok(v, next) =>
      if !required then Tree(v, next)
      else
        var end := SkipWs(s, next);
        NulOnlyAtEnd(text, end);
        if s[end] == NUL then Tree(v, end) else Failure(end)
  }

  lemma NulOnlyAtEnd(text: seq<byte>, i: nat)
    requires NulFree(text) && i <= |text|
    ensures (text + [NUL])[i] == NUL <==> i == |text|
  {
    if i < |text| {
      assert text[i] in text;
    }
  }

  /** A text: possibly a byte order mark, then a value with white space around it. */
  datatype Document = Document(marked: bool, item: Slot)

  predicate DocumentGrammatical(d: Document) {
    ItemGrammatical(d.item) && Nesting(Meaning(d.item.value)) <= 1000
  }

  function DocumentText(d: Document): seq<byte> {
    if d.marked then [0xEF, 0xBB, 0xBF] + FlatItem(d.item) else FlatItem(d.item)
  }

  lemma BomOf(d: Document)
    requires DocumentGrammatical(d)
    ensures BomEnd(DocumentText(d) + [NUL]) == if d.marked then 3 else 0
  {
    var i := d.item;
    var s := DocumentText(d) + [NUL];
    FlatFirst(i.value);
    FirstByte(s, 0, BYTE_ORDER_MARK);
    if d.marked {
      assert s[..3] == BYTE_ORDER_MARK;
    } else {
      var first := if i.before == [] then Flat(i.value) else i.before;
      assert s[0] == first[0];
    }
  }

  lemma OnlyWhiteLeft(s: seq<byte>, q: nat)
    requires q < |s| && forall k | q <= k < |s| :: s[k] <= SPACE
    ensures SkipWs(s, q) == |s| - 1
  {
  }

  lemma WhiteIsNoNumber(s: seq<byte>, q: nat, ws: seq<byte>)
    requires At(s, q, ws) && White(ws) && Terminated(s) && q + |ws| == |s| - 1
    ensures !NumberChar(s[q]) && SkipWs(s, q) == |s| - 1
  {
    AtIndex(s, q, ws);
    forall k | q <= k < |s| ensures s[k] <= SPACE {
      assert k < |s| - 1 ==> s[q + (k - q)] == ws[k - q];
    }
    OnlyWhiteLeft(s, q);
  }

  /** An item that ends at the NUL. */
  lemma DocumentValue(s: seq<byte>, o: nat, i: Slot)
    requires Terminated(s) && o < |s| && ItemGrammatical(i) && Grammatical(i.value)
    requires Nesting(Meaning(i.value)) <= NESTING_LIMIT
    requires At(s, o, FlatItem(i)) && o + |FlatItem(i)| == |s| - 1
    ensures ItemParsed(s, o, 0, Meaning(i.value), |s| - 1)
    ensures ParseValue(s, SkipWs(s, o), 0).next == |s| - 1 - |i.after|
  {
    hide Grammatical, Meaning, Nesting, ParseValue, SkipWs, White, At, Flat, NumberChar;
    var k := o + |i.before|;
    AtSplit(s, o, i.before, Flat(i.value) + i.after);
    AtSplit(s, k, Flat(i.value), i.after);
    FlatFirst(i.value);
    FirstByte(s, k, Flat(i.value));
    SkipOver(s, o, i.before);
    WhiteIsNoNumber(s, k + |Flat(i.value)|, i.after);
    Complete(s, k, 0, i.value);
  }

  /** Every text of the grammar is parsed to what it denotes, up to its end, or right behind the value if more than white
      space may follow. */
  lemma DocumentComplete(d: Document, required: bool)
    requires DocumentGrammatical(d) && NulFree(DocumentText(d))
    ensures Grammatical(d.item.value)
    ensures ParseDocument(DocumentText(d), required) ==
      Tree(Meaning(d.item.value), |DocumentText(d)| - if required then 0 else |d.item.after|)
  {
    hide Meaning, ParseValue, SkipWs, FlatItem, ItemGrammatical, Nesting, White;
    var text := DocumentText(d);
    var s := text + [NUL];
    var o := if d.marked then 3 else 0;
    BomOf(d);
    assert s[o..o + |FlatItem(d.item)|] == FlatItem(d.item);
    DocumentUnfold(d);
    DocumentValue(s, o, d.item);
  }

  lemma DocumentUnfold(d: Document)
    requires DocumentGrammatical(d)
    ensures Grammatical(d.item.value)
  {
  }

  /** Every text that is parsed is a text of the grammar, up to where parsing ended; if more than white space may follow,
      that is right behind the value. */
  lemma DocumentSound(text: seq<byte>, required: bool) returns (d: Document, rest: seq<byte>)
    requires NulFree(text) && ParseDocument(text, required).Tree?
    ensures DocumentGrammatical(d) && text == DocumentText(d) + rest
    ensures !required ==> d.item.after == []
    ensures var r := ParseDocument(text, required); r.value == Meaning(d.item.value) && |rest| == |text| - r.end
  {
    hide Meaning, ParseValue, SkipWs, Nesting, White, Grammatical, Flat, At;
    var s := text + [NUL];
    var o := BomEnd(s);
    var before := SkipIsWhite(s, o);
    var q := SkipWs(s, o);
    var c := Sound(s, q, 0);
    var next := ParseValue(s, q, 0).next;
    var after := [];
    NoItems();
    if required {
      after := SkipIsWhite(s, next);
    }
    var i := Slot(before, c, after);
    d := Document(o == 3, i);
    var end := next + |after|;
    rest := text[end..];
    AtEmpty(s, next);
    AtSplit(s, q, Flat(c), after);
    AtSplit(s, o, before, Flat(c) + after);
    MarkedText(text, o, FlatItem(i), end);
  }

  lemma AtEmpty(s: seq<byte>, n: nat)
    requires n <= |s|
    ensures At(s, n, [])
  {
  }

  lemma MarkedText(text: seq<byte>, o: nat, t: seq<byte>, end: nat)
    requires var s := text + [NUL]; o == BomEnd(s) && At(s, o, t) && end == o + |t| <= |text|
    ensures text == (if o == 3 then [0xEF, 0xBB, 0xBF] + t else t) + text[end..]
  {
    var s := text + [NUL];
    assert s[..end] == text[..end];
    assert s[..end] == s[..o] + s[o..end];
    assert text == text[..end] + text[end..];
  }

  /** A text is accepted as a whole if and only if it is a text of the grammar, nested at most 1000 deep. */
  lemma AcceptsTheGrammar(text: seq<byte>)
    requires NulFree(text)
    ensures ParseDocument(text, true).Tree? <==>
      exists d :: DocumentGrammatical(d) && DocumentText(d) == text
  {
    hide DocumentGrammatical, DocumentText;
    if ParseDocument(text, true).Tree? {
      var d, rest := DocumentSound(text, true);
      assert rest == [];
      assert DocumentText(d) == text;
    }
    forall d | DocumentGrammatical(d) && DocumentText(d) == text ensures ParseDocument(text, true).Tree? {
      DocumentComplete(d, true);
    }
  }

  /** No text of the grammar has two meanings. */
  lemma GrammarUnambiguous(d: Document, e: Document)
    requires DocumentGrammatical(d) && DocumentGrammatical(e) && DocumentText(d) == DocumentText(e)
    requires NulFree(DocumentText(d))
    ensures Meaning(d.item.value) == Meaning(e.item.value)
  {
    hide DocumentText, Meaning;
    DocumentComplete(d, true);
    DocumentComplete(e, true);
  }
}
