/**
 Where the parser reports an error.  Whatever it refuses, the text before the error is the
 beginning of a text of the grammar: nothing that is reported on was wrong any earlier.
 */
module JsonError {
  import opened Ascii
  import opened Unicode
  import opened JsonValue
  import opened JsonString
  import opened JsonNumber
  import opened JsonParse
  import opened JsonGrammar
  import opened JsonDocument

  /** What stands from `o` up to `q` is the beginning of `t`. */
  predicate Begins(s: seq<byte>, o: nat, q: nat, t: seq<byte>) {
    o <= q <= |s| && s[o..q] <= t
  }

  lemma BeginsWhole(s: seq<byte>, o: nat, t: seq<byte>)
    requires At(s, o, t)
    ensures Begins(s, o, o + |t|, t)
  {
  }

  lemma BeginsMore(s: seq<byte>, o: nat, q: nat, t: seq<byte>, u: seq<byte>)
    requires Begins(s, o, q, t)
    ensures Begins(s, o, q, t + u)
  {
  }

  lemma BeginsBehind(s: seq<byte>, o: nat, a: seq<byte>, q: nat, t: seq<byte>)
    requires At(s, o, a) && Begins(s, o + |a|, q, t)
    ensures Begins(s, o, q, a + t)
  {
    assert s[o..q] == s[o..o + |a|] + s[o + |a|..q];
  }

  /** The error position `pos` stands for `q`: it is `q`, or, where a name is missing, one further. */
  predicate Reports(s: seq<byte>, pos: nat, q: nat) {
    pos == q || (pos == q + 1 && q < |s| && s[q] != QUOTE)
  }

  // ----- strings -----

  /** What the first pass makes of the text up to `q`, with a quote behind it: it ends there, or, if the last byte is a
      reverse solidus that starts an escape, behind one quote more. */
  lemma {:induction false} ScanCut(s: seq<byte>, o: nat, p: nat, q: nat, end: nat)
    requires o <= p <= q + 1 && q < end < |s| && ScanEnd(s, p) == end && o <= q
    ensures var t := s[o..q] + [QUOTE];
      ScanEnd(t, p - o) == q - o || ScanEnd(t + [QUOTE], p - o) == q - o + 1
    decreases q + 1 - p
  {
    var t := s[o..q] + [QUOTE];
    if p < q {
      assert t[p - o] == s[p] && (t + [QUOTE])[p - o] == s[p];
      ScanCut(s, o, if s[p] == BACKSLASH then p + 2 else p + 1, q, end);
    }
  }

  /** What the second pass decodes before `q` it decodes also in a shorter text. */
  lemma {:induction false} DecodeCut(s: seq<byte>, o: nat, p: nat, q: nat, end: nat, t: seq<byte>, e: nat)
    requires o <= p <= q < end < |s| && Decode(s, p, end) == BadAt(q)
    requires q - o <= e < |t| && t[..q - o] == s[o..q] && Decode(t, q - o, e).Text?
    ensures Decode(t, p - o, e).Text?
    decreases q - p
  {
    hide Decode, ReadLiteral, ShortEscape, Utf8;
    DecodeTurn(s, p, end);
    DecodeTurn(t, p - o, e);
    if p < q {
      SameByte(s, o, q, t, p);
      if s[p] != BACKSLASH {
        DecodeLater(s, p + 1, end);
        DecodeCut(s, o, p + 1, q, end, t, e);
      } else if ShortEscape(s[p + 1]) >= 0 {
        DecodeLater(s, p + 2, end);
        SameByte(s, o, q, t, p + 1);
        DecodeCut(s, o, p + 2, q, end, t, e);
      } else {
        var r := ReadLiteral(s, p, end);
        DecodeLater(s, p + r.length, end);
        SameByte(s, o, q, t, p + 1);
        LiteralCut(s, o, p, q, end, t, e);
        DecodeCut(s, o, p + r.length, q, end, t, e);
      }
    }
  }

  lemma SameByte(s: seq<byte>, o: nat, q: nat, t: seq<byte>, k: nat)
    requires o <= k < q <= |s| && q - o <= |t| && t[..q - o] == s[o..q]
    ensures t[k - o] == s[k]
  {
    assert t[..q - o][k - o] == s[o..q][k - o];
  }

  lemma DecodeLater(s: seq<byte>, p: nat, end: nat)
    requires end < |s|
    ensures Decode(s, p, end).BadAt? ==> p <= Decode(s, p, end).pos < end
  {
  }

  lemma LiteralCut(s: seq<byte>, o: nat, p: nat, q: nat, end: nat, t: seq<byte>, e: nat)
    requires o <= p <= end <= |s| && ReadLiteral(s, p, end).Good? && p + ReadLiteral(s, p, end).length <= q <= end
    requires q - o <= e <= |t| && t[..q - o] == s[o..q]
    ensures ReadLiteral(t, p - o, e) == ReadLiteral(s, p, end)
  {
    hide Utf8, Hex4;
    HexCut(s, o, p + 2, q, t);
    if ReadLiteral(s, p, end).length == 12 {
      SameByte(s, o, q, t, p + 6);
      SameByte(s, o, q, t, p + 7);
      HexCut(s, o, p + 8, q, t);
    }
  }

  lemma HexCut(s: seq<byte>, o: nat, p: nat, q: nat, t: seq<byte>)
    requires o <= p && p + 4 <= q <= |s| && q - o <= |t| && t[..q - o] == s[o..q]
    ensures Hex4(t, p - o) == Hex4(s, p)
  {
    var a, b := t[p - o..p - o + 4], s[p..p + 4];
    forall i | 0 <= i < 4 ensures a[i] == b[i] {
      SameByte(s, o, q, t, p + i);
    }
    assert a == b;
  }

  lemma QuoteDecodes(t: seq<byte>, p: nat)
    requires p + 2 <= |t| && t[p] == QUOTE
    ensures Decode(t, p, p) == Text([]) && Decode(t, p, p + 1).Text?
  {
    assert Decode(t, p + 1, p + 1) == Text([]);
  }

  lemma EmptyDecodes(t: seq<byte>, p: nat)
    requires p < |t|
    ensures Decode(t, p, p) == Text([])
  {
  }

  /** Before a bad escape a string is the beginning of a string. */
  lemma BodyBegins(s: seq<byte>, o: nat, q: nat) returns (body: seq<byte>)
    requires o <= q < |s| && ScanEnd(s, o) < |s| && q < ScanEnd(s, o) && Decode(s, o, ScanEnd(s, o)) == BadAt(q)
    ensures IsBody(body) && Begins(s, o, q, body)
  {
    hide Decode, ScanEnd;
    var end := ScanEnd(s, o);
    var u := s[o..q];
    var t := u + [QUOTE];
    ScanCut(s, o, o, q, end);
    if ScanEnd(t, 0) == |u| {
      body := u;
      assert t[..|u|] == u;
      EmptyDecodes(t, |u|);
      DecodeCut(s, o, o, q, end, t, |u|);
    } else {
      body := t;
      var w := t + [QUOTE];
      assert w[..|u|] == u;
      QuoteDecodes(w, |u|);
      DecodeCut(s, o, o, q, end, w, |u| + 1);
    }
  }

  /** A string that is refused. */
  lemma StringBegins(s: seq<byte>, o: nat) returns (body: seq<byte>, q: nat)
    requires o < |s| && ParseString(s, o).Err?
    ensures o <= q && Reports(s, ParseString(s, o).pos, q)
    ensures IsBody(body) && Begins(s, o, q, Quoted(body))
  {
    hide Decode, ScanEnd;
    body, q := [], o;
    EmptyBody();
    if s[o] == QUOTE {
      var end := ScanEnd(s, o + 1);
      if end == |s| {
        q := o + 1;
      } else {
        q := Decode(s, o + 1, end).pos;
        DecodeLater(s, o + 1, end);
        body := BodyBegins(s, o + 1, q);
        BeginsMore(s, o + 1, q, body, [QUOTE]);
        BeginsBehind(s, o, [QUOTE], q, body + [QUOTE]);
        assert [QUOTE] + (body + [QUOTE]) == Quoted(body);
      }
    }
  }

  lemma EmptyBody()
    ensures IsBody([])
  {
    assert [] + [QUOTE] == [QUOTE];
  }

  // ----- values -----

  /** `c` is nested no deeper than the depth allows, and what stands from `o` up to `q` is the beginning of its text. */
  ghost predicate Viable(s: seq<byte>, o: nat, depth: nat, pos: nat, c: Cst, q: nat) {
    && Reports(s, pos, q) && Grammatical(c) && depth + Nesting(Meaning(c)) <= NESTING_LIMIT
    && Begins(s, o, q, Flat(c))
  }

  /** A refused value: what stands before the error is the beginning of a text of the grammar. */
  lemma {:induction false} ValueViable(s: seq<byte>, o: nat, depth: nat) returns (c: Cst, q: nat)
    requires Terminated(s) && o < |s| && depth <= NESTING_LIMIT && ParseValue(s, o, depth).Err?
    ensures Viable(s, o, depth, ParseValue(s, o, depth).pos, c, q)
    decreases |s| - o, 1
  {
    hide ParseArray, ParseObject, ParseNumber, ParseString, IsBody, BodyValue, IsNumber, Begins;
    if s[o] == QUOTE {
      var body;
      body, q := StringBegins(s, o);
      c := StringText(body);
    } else if s[o] == OPEN_BRACKET && !(s[o] == MINUS || Digit(s[o])) {
      hide Viable;
      c, q := ArrayViable(s, o, depth);
    } else if s[o] == OPEN_BRACE && !(s[o] == MINUS || Digit(s[o])) {
      hide Viable;
      c, q := ObjectViable(s, o, depth);
    } else {
      c, q := NullText, o;
      BeginsNothing(s, o, Flat(c));
    }
  }

  lemma BeginsNothing(s: seq<byte>, o: nat, t: seq<byte>)
    requires o <= |s|
    ensures Begins(s, o, o, t)
  {
  }

  /** The list is nested no deeper than the depth allows, and what stands from `o` up to `q` is the beginning of its text. */
  ghost predicate ItemsViable(s: seq<byte>, o: nat, depth: nat, pos: nat, items: seq<Slot>, q: nat) {
    && Reports(s, pos, q) && items != [] && ItemsGrammatical(items)
    && depth + NestingOfItems(ItemsMeaning(items)) <= NESTING_LIMIT && Begins(s, o, q, FlatItems(items))
  }

  ghost predicate EntriesViable(s: seq<byte>, o: nat, depth: nat, pos: nat, entries: seq<Entry>, q: nat) {
    && Reports(s, pos, q) && entries != [] && EntriesGrammatical(entries)
    && depth + NestingOfMembers(EntriesMeaning(entries)) <= NESTING_LIMIT && Begins(s, o, q, FlatEntries(entries))
  }

  lemma {:induction false} ArrayViable(s: seq<byte>, o: nat, depth: nat) returns (c: Cst, q: nat)
    requires Terminated(s) && o < |s| && depth <= NESTING_LIMIT && s[o] == OPEN_BRACKET && ParseArray(s, o, depth).Err?
    ensures Viable(s, o, depth, ParseArray(s, o, depth).pos, c, q)
    decreases |s| - o, 0
  {
    hide ParseArray, ParseItems, SkipWs, Begins, ItemsGrammatical, ItemsMeaning, FlatItems, At;
    ArrayStep(s, o, depth);
    if depth == NESTING_LIMIT {
      c, q := NullText, o;
      BeginsNothing(s, o, Flat(c));
    } else {
      var items;
      items, q := ListViable(s, o + 1, depth + 1);
      c := ArrayText([], items);
      ByteAt(s, o);
      BeginsMore(s, o + 1, q, FlatItems(items), [CLOSE_BRACKET]);
      BeginsBehind(s, o, [OPEN_BRACKET], q, FlatItems(items) + [CLOSE_BRACKET]);
    }
  }

  lemma {:induction false} ListViable(s: seq<byte>, q0: nat, depth: nat) returns (items: seq<Slot>, q: nat)
    requires Terminated(s) && q0 < |s| && depth <= NESTING_LIMIT && ParseItems(s, q0, depth).Err?
    ensures ItemsViable(s, q0, depth, ParseItems(s, q0, depth).pos, items, q)
    decreases |s| - q0, 2
  {
    hide ParseValue, SkipWs, At, White, Grammatical, Meaning, Flat, Begins;
    var w := SkipWs(s, q0);
    var r := ParseValue(s, w, depth);
    if r.Err? {
      var before := SkipIsWhite(s, q0);
      var c;
      c, q := ValueViable(s, w, depth);
      items := OneItem(s, q0, depth, before, c, r.pos, q);
    } else {
      var n := SkipWs(s, r.next);
      var i := ItemSound(s, q0, depth, r.value, n);
      if s[n] == COMMA {
        CommaInside(s, n);
        var rest;
        rest, q := ListViable(s, n + 1, depth);
        items := MoreItems(s, q0, depth, i, ParseItems(s, n + 1, depth).pos, rest, q);
      } else {
        q := n;
        items := LastItem(s, q0, depth, i);
      }
    }
  }

  lemma CommaInside(s: seq<byte>, n: nat)
    requires Terminated(s) && n < |s| && s[n] == COMMA
    ensures n + 1 < |s|
  {
  }

  lemma OneItem(s: seq<byte>, o: nat, depth: nat, before: seq<byte>, c: Cst, pos: nat, q: nat) returns (items: seq<Slot>)
    requires White(before) && At(s, o, before) && depth <= NESTING_LIMIT && Viable(s, o + |before|, depth, pos, c, q)
    ensures ItemsViable(s, o, depth, pos, items, q)
  {
    hide White, At, Begins, Grammatical, Meaning, Flat, Nesting;
    var i := Slot(before, c, []);
    items := [i];
    NoItems();
    SingleItem(i);
    BeginsMore(s, o + |before|, q, Flat(c), []);
    BeginsBehind(s, o, before, q, Flat(c) + []);
    NestingFold([], [], Meaning(c), Member([], Meaning(c)), NESTING_LIMIT - depth);
  }

  lemma SingleItem(i: Slot)
    requires White(i.before) && White(i.after) && Grammatical(i.value)
    ensures ItemGrammatical(i) && ItemsGrammatical([i]) && ItemsMeaning([i]) == [Meaning(i.value)] + []
    ensures FlatItems([i]) == FlatItem(i)
  {
    hide White, Grammatical, Meaning, FlatItem;
    NoItems();
    assert [i][1..] == [];
  }

  lemma LastItem(s: seq<byte>, o: nat, depth: nat, i: Slot) returns (items: seq<Slot>)
    requires ItemGrammatical(i) && Grammatical(i.value) && At(s, o, FlatItem(i)) && o + |FlatItem(i)| <= |s|
    requires depth + Nesting(Meaning(i.value)) <= NESTING_LIMIT
    ensures ItemsViable(s, o, depth, o + |FlatItem(i)|, items, o + |FlatItem(i)|)
  {
    hide At, Begins, Grammatical, Meaning, FlatItem, Nesting, White;
    items := [i];
    NoItems();
    SingleItem(i);
    BeginsWhole(s, o, FlatItem(i));
    NestingFold([], [], Meaning(i.value), Member([], Meaning(i.value)), NESTING_LIMIT - depth);
  }

  lemma MoreItems(s: seq<byte>, o: nat, depth: nat, i: Slot, pos: nat, rest: seq<Slot>, q: nat) returns (items: seq<Slot>)
    requires ItemGrammatical(i) && Grammatical(i.value) && At(s, o, FlatItem(i))
    requires depth + Nesting(Meaning(i.value)) <= NESTING_LIMIT
    requires var n := o + |FlatItem(i)|; n < |s| && s[n] == COMMA && ItemsViable(s, n + 1, depth, pos, rest, q)
    ensures ItemsViable(s, o, depth, pos, items, q)
  {
    hide At, Begins, Grammatical, ItemGrammatical, Meaning, FlatItem, Nesting;
    var n := o + |FlatItem(i)|;
    items := [i] + rest;
    assert items[1..] == rest && items[0] == i;
    ByteAt(s, n);
    BeginsBehind(s, n, [COMMA], q, FlatItems(rest));
    BeginsBehind(s, o, FlatItem(i), q, [COMMA] + FlatItems(rest));
    assert ItemsMeaning(items) == [Meaning(i.value)] + ItemsMeaning(rest);
    NestingFold(ItemsMeaning(rest), [], Meaning(i.value), Member([], Meaning(i.value)), NESTING_LIMIT - depth);
  }

  // ----- members -----

  lemma {:induction false} ObjectViable(s: seq<byte>, o: nat, depth: nat) returns (c: Cst, q: nat)
    requires Terminated(s) && o < |s| && depth <= NESTING_LIMIT && s[o] == OPEN_BRACE && ParseObject(s, o, depth).Err?
    ensures Viable(s, o, depth, ParseObject(s, o, depth).pos, c, q)
    decreases |s| - o, 0
  {
    hide ParseObject, ParseMembers, SkipWs, Begins, EntriesGrammatical, EntriesMeaning, FlatEntries, At;
    ObjectStep(s, o, depth);
    if depth == NESTING_LIMIT {
      c, q := NullText, o;
      BeginsNothing(s, o, Flat(c));
    } else {
      var entries;
      entries, q := MembersViable(s, o + 1, depth + 1);
      c := ObjectText([], entries);
      ByteAt(s, o);
      BeginsMore(s, o + 1, q, FlatEntries(entries), [CLOSE_BRACE]);
      BeginsBehind(s, o, [OPEN_BRACE], q, FlatEntries(entries) + [CLOSE_BRACE]);
    }
  }

  lemma {:induction false} MembersViable(s: seq<byte>, q0: nat, depth: nat) returns (entries: seq<Entry>, q: nat)
    requires Terminated(s) && q0 < |s| && depth <= NESTING_LIMIT && ParseMembers(s, q0, depth).Err?
    ensures EntriesViable(s, q0, depth, ParseMembers(s, q0, depth).pos, entries, q)
    decreases |s| - q0, 3
  {
    hide ParseMember, ParseValue, ParseString, SkipWs, CString, EntriesViable;
    var r := ParseMember(s, q0, depth);
    if r.Err? {
      entries, q := MemberViable(s, q0, depth);
    } else {
      var n := SkipWs(s, r.next);
      MemberParsed(s, q0, depth);
      var e := EntrySound(s, q0, depth, r.value, n);
      if s[n] == COMMA {
        CommaInside(s, n);
        var rest;
        rest, q := MembersViable(s, n + 1, depth);
        entries := MoreEntries(s, q0, depth, e, ParseMembers(s, n + 1, depth).pos, rest, q);
      } else {
        q := n;
        entries := LastEntry(s, q0, depth, e);
      }
    }
  }

  lemma MemberParsed(s: seq<byte>, q: nat, depth: nat)
    requires Terminated(s) && q < |s| && depth <= NESTING_LIMIT && ParseMember(s, q, depth).Ok?
    ensures var r := ParseMember(s, q, depth); EntryParsed(s, q, depth, r.value, SkipWs(s, r.next))
  {
    hide ParseValue, ParseString, SkipWs, CString;
  }

  lemma LastEntry(s: seq<byte>, o: nat, depth: nat, e: Entry) returns (entries: seq<Entry>)
    requires EntryGrammatical(e) && At(s, o, FlatEntry(e)) && depth + Nesting(EntryMeaning(e).value) <= NESTING_LIMIT
    ensures EntriesViable(s, o, depth, o + |FlatEntry(e)|, entries, o + |FlatEntry(e)|)
  {
    hide Begins, EntryGrammatical, EntryMeaning, FlatEntry, Nesting;
    entries := [e];
    SingleEntry(e);
    BeginsWhole(s, o, FlatEntry(e));
    NestingFold([], [], EntryMeaning(e).value, EntryMeaning(e), NESTING_LIMIT - depth);
  }

  lemma SingleEntry(e: Entry)
    requires EntryGrammatical(e)
    ensures EntriesGrammatical([e]) && EntriesMeaning([e]) == [EntryMeaning(e)] + [] && FlatEntries([e]) == FlatEntry(e)
  {
    hide EntryGrammatical, EntryMeaning, FlatEntry;
    NoItems();
    assert [e][1..] == [];
  }

  lemma MoreEntries(s: seq<byte>, o: nat, depth: nat, e: Entry, pos: nat, rest: seq<Entry>, q: nat)
    returns (entries: seq<Entry>)
    requires EntryGrammatical(e) && At(s, o, FlatEntry(e)) && depth + Nesting(EntryMeaning(e).value) <= NESTING_LIMIT
    requires var n := o + |FlatEntry(e)|; n < |s| && s[n] == COMMA && EntriesViable(s, n + 1, depth, pos, rest, q)
    ensures EntriesViable(s, o, depth, pos, entries, q)
  {
    hide At, Begins, EntryGrammatical, EntryMeaning, FlatEntry, Nesting;
    var n := o + |FlatEntry(e)|;
    entries := [e] + rest;
    assert entries[1..] == rest && entries[0] == e;
    ByteAt(s, n);
    BeginsBehind(s, n, [COMMA], q, FlatEntries(rest));
    BeginsBehind(s, o, FlatEntry(e), q, [COMMA] + FlatEntries(rest));
    assert EntriesMeaning(entries) == [EntryMeaning(e)] + EntriesMeaning(rest);
    NestingFold([], EntriesMeaning(rest), EntryMeaning(e).value, EntryMeaning(e), NESTING_LIMIT - depth);
  }

  /** One refused member, as a list of one. */
  lemma {:induction false} MemberViable(s: seq<byte>, q0: nat, depth: nat) returns (entries: seq<Entry>, q: nat)
    requires Terminated(s) && q0 < |s| && depth <= NESTING_LIMIT && ParseMember(s, q0, depth).Err?
    ensures EntriesViable(s, q0, depth, ParseMember(s, q0, depth).pos, entries, q)
    decreases |s| - q0, 2
  {
    hide ParseValue, ParseString, SkipWs, CString, EntriesViable, Viable, IsBody, BodyValue, Quoted, Begins, At, White;
    var before := SkipIsWhite(s, q0);
    var w := SkipWs(s, q0);
    var name := ParseString(s, w);
    if name.Err? {
      var body;
      body, q := StringBegins(s, w);
      entries := NameOnly(s, q0, depth, before, body, name.pos, q);
    } else {
      var body := ParseStringSound(s, w);
      var gap := SkipIsWhite(s, name.next);
      var k := SkipWs(s, name.next);
      KeyStands(s, q0, before, body, gap);
      if s[k] != COLON {
        q := k;
        entries := KeyOnly(s, q0, depth, before, body, gap);
      } else {
        var lead := SkipIsWhite(s, k + 1);
        var c;
        c, q := ValueViable(s, SkipWs(s, k + 1), depth);
        ByteAt(s, k);
        entries := KeyAndValue(s, q0, depth, before, body, gap, lead, c, ParseMember(s, q0, depth).pos, q);
      }
    }
  }

  function KeyOf(before: seq<byte>, body: seq<byte>, gap: seq<byte>): seq<byte> {
    before + (Quoted(body) + gap)
  }

  lemma KeyStands(s: seq<byte>, o: nat, before: seq<byte>, body: seq<byte>, gap: seq<byte>)
    requires At(s, o, before) && At(s, o + |before|, [QUOTE] + body + [QUOTE]) && At(s, o + |before| + |body| + 2, gap)
    ensures At(s, o, KeyOf(before, body, gap)) && |KeyOf(before, body, gap)| == |before| + |body| + 2 + |gap|
  {
    hide At;
    AtSplit(s, o + |before|, Quoted(body), gap);
    AtSplit(s, o, before, Quoted(body) + gap);
  }

  /** An entry of these parts and what its text looks like. */
  lemma EntryOfParts(before: seq<byte>, body: seq<byte>, gap: seq<byte>, lead: seq<byte>, c: Cst)
    requires White(before) && White(gap) && White(lead) && IsBody(body) && Grammatical(c)
    ensures var e := Entry(before, body, gap, Slot(lead, c, []));
      && EntryGrammatical(e) && EntryMeaning(e).value == Meaning(c)
      && FlatEntry(e) == KeyOf(before, body, gap) + ([COLON] + (lead + (Flat(c) + [])))
      && FlatEntry(e) == before + (Quoted(body) + (gap + ([COLON] + (lead + (Flat(c) + [])))))
  {
    hide IsBody, BodyValue, Grammatical, Meaning, Flat, Quoted;
    NoItems();
    var tail := [COLON] + (lead + (Flat(c) + []));
    assert KeyOf(before, body, gap) + tail == before + (Quoted(body) + (gap + tail));
  }

  lemma NameOnly(s: seq<byte>, o: nat, depth: nat, before: seq<byte>, body: seq<byte>, pos: nat, q: nat)
    returns (entries: seq<Entry>)
    requires White(before) && At(s, o, before) && IsBody(body) && depth <= NESTING_LIMIT
    requires Reports(s, pos, q) && Begins(s, o + |before|, q, Quoted(body))
    ensures EntriesViable(s, o, depth, pos, entries, q)
  {
    hide At, Begins, IsBody, BodyValue, Quoted, EntryGrammatical, EntryMeaning, FlatEntry, Flat;
    NoItems();
    EntryOfParts(before, body, [], [], NullText);
    var e := Entry(before, body, [], Slot([], NullText, []));
    var tail := [] + ([COLON] + ([] + (Flat(NullText) + [])));
    BeginsMore(s, o + |before|, q, Quoted(body), tail);
    BeginsBehind(s, o, before, q, Quoted(body) + tail);
    entries := [e];
    SingleEntry(e);
    NestingFold([], [], EntryMeaning(e).value, EntryMeaning(e), NESTING_LIMIT - depth);
  }

  lemma KeyOnly(s: seq<byte>, o: nat, depth: nat, before: seq<byte>, body: seq<byte>, gap: seq<byte>)
    returns (entries: seq<Entry>)
    requires White(before) && White(gap) && IsBody(body) && depth <= NESTING_LIMIT && At(s, o, KeyOf(before, body, gap))
    ensures var n := o + |KeyOf(before, body, gap)|; EntriesViable(s, o, depth, n, entries, n)
  {
    hide At, Begins, IsBody, BodyValue, Quoted, KeyOf, EntryGrammatical, EntryMeaning, FlatEntry, Flat;
    NoItems();
    EntryOfParts(before, body, gap, [], NullText);
    var e := Entry(before, body, gap, Slot([], NullText, []));
    var key := KeyOf(before, body, gap);
    BeginsWhole(s, o, key);
    BeginsMore(s, o, o + |key|, key, [COLON] + ([] + (Flat(NullText) + [])));
    entries := [e];
    SingleEntry(e);
    NestingFold([], [], EntryMeaning(e).value, EntryMeaning(e), NESTING_LIMIT - depth);
  }

  lemma KeyAndValue(s: seq<byte>, o: nat, depth: nat, before: seq<byte>, body: seq<byte>, gap: seq<byte>,
                    lead: seq<byte>, c: Cst, pos: nat, q: nat) returns (entries: seq<Entry>)
    requires White(before) && White(gap) && White(lead) && IsBody(body) && At(s, o, KeyOf(before, body, gap))
    requires var k := o + |KeyOf(before, body, gap)|;
      At(s, k, [COLON]) && At(s, k + 1, lead) && Viable(s, k + 1 + |lead|, depth, pos, c, q)
    ensures EntriesViable(s, o, depth, pos, entries, q)
  {
    hide At, Begins, IsBody, BodyValue, Quoted, KeyOf, EntryGrammatical, EntryMeaning, FlatEntry, Flat, Grammatical, Meaning,
      Nesting, White;
    NoItems();
    EntryOfParts(before, body, gap, lead, c);
    var e := Entry(before, body, gap, Slot(lead, c, []));
    var key := KeyOf(before, body, gap);
    var k := o + |key|;
    BeginsMore(s, k + 1 + |lead|, q, Flat(c), []);
    BeginsBehind(s, k + 1, lead, q, Flat(c) + []);
    BeginsBehind(s, k, [COLON], q, lead + (Flat(c) + []));
    BeginsBehind(s, o, key, q, [COLON] + (lead + (Flat(c) + [])));
    entries := [e];
    SingleEntry(e);
    NestingFold([], [], EntryMeaning(e).value, EntryMeaning(e), NESTING_LIMIT - depth);
  }

  // ----- texts -----

  lemma TextBegins(text: seq<byte>, o: nat, t: seq<byte>, q: nat)
    requires var s := text + [NUL]; o == BomEnd(s) && Begins(s, o, q, t)
    ensures var n := if q <= |text| then q else |text|;
      text[..n] <= if o == 3 then [0xEF, 0xBB, 0xBF] + t else t
  {
    var s := text + [NUL];
    var n := if q <= |text| then q else |text|;
    if o == 3 {
      assert s[..3] == [0xEF, 0xBB, 0xBF];
      assert s[..q] == s[..3] + s[3..q];
    }
    assert text[..n] == s[..q][..n];
  }

  /** What the entry point makes of the value it parsed, or did not. */
  lemma Outcomes(text: seq<byte>, required: bool)
    requires NulFree(text)
    ensures var s := text + [NUL]; var w := SkipWs(s, BomEnd(s)); var r := ParseValue(s, w, 0);
      && w < |s| && Terminated(s)
      && (r.Err? ==> r.pos <= |s| && ParseDocument(text, required) == Failure(if r.pos <= |text| then r.pos else |text|))
      && (r.Ok? ==>
            && r.next < |s| && ParseDocument(text, false) == Tree(r.value, r.next)
            && var end := SkipWs(s, r.next);
            ParseDocument(text, true) == if end == |text| then Tree(r.value, end) else Failure(end))
  {
    hide ParseValue, SkipWs;
    var s := text + [NUL];
    var r := ParseValue(s, SkipWs(s, BomEnd(s)), 0);
    if r.Ok? {
      NulOnlyAtEnd(text, SkipWs(s, r.next));
    }
  }

  lemma ValueRefused(text: seq<byte>, pos: nat) returns (d: Document, n: nat)
    requires var s := text + [NUL]; var w := SkipWs(s, BomEnd(s));
      w < |s| && Terminated(s) && ParseValue(s, w, 0) == Err(pos)
    ensures n <= |text| && DocumentGrammatical(d) && text[..n] <= DocumentText(d)
    ensures var p := if pos <= |text| then pos else |text|; p == n || (p == n + 1 && n < |text| && text[n] != 34)
  {
    hide ParseValue, SkipWs, White, At, Begins, Grammatical, Meaning, Flat, Nesting;
    var s := text + [NUL];
    var o := BomEnd(s);
    var before := SkipIsWhite(s, o);
    var w := SkipWs(s, o);
    var c, q := ValueViable(s, w, 0);
    NoItems();
    d := Document(o == 3, Slot(before, c, []));
    BeginsMore(s, w, q, Flat(c), []);
    BeginsBehind(s, o, before, q, Flat(c) + []);
    TextBegins(text, o, before + (Flat(c) + []), q);
    n := if q <= |text| then q else |text|;
  }

  lemma TailRefused(text: seq<byte>) returns (d: Document)
    requires var s := text + [NUL]; var w := SkipWs(s, BomEnd(s));
      && w < |s| && Terminated(s) && ParseValue(s, w, 0).Ok?
      && var next := ParseValue(s, w, 0).next; next < |s| && SkipWs(s, next) <= |text|
    ensures var s := text + [NUL]; var n := SkipWs(s, ParseValue(s, SkipWs(s, BomEnd(s)), 0).next);
      DocumentGrammatical(d) && text[..n] <= DocumentText(d)
  {
    hide ParseValue, SkipWs, White, At, Begins, Grammatical, Meaning, Flat, Nesting;
    var s := text + [NUL];
    var o := BomEnd(s);
    var before := SkipIsWhite(s, o);
    var w := SkipWs(s, o);
    var next := ParseValue(s, w, 0).next;
    var c := Sound(s, w, 0);
    var after := SkipIsWhite(s, next);
    var n := SkipWs(s, next);
    NoItems();
    d := Document(o == 3, Slot(before, c, after));
    AtSplit(s, w, Flat(c), after);
    AtSplit(s, o, before, Flat(c) + after);
    BeginsWhole(s, o, before + (Flat(c) + after));
    TextBegins(text, o, before + (Flat(c) + after), n);
  }

  /** A text that is refused is a text of the grammar up to the error position, or the beginning of one; where a name is
      missing the position is one further.  If it is only refused for what follows the value, the position is that of
      the first byte behind it that is no white space. */
  lemma ErrorPosition(text: seq<byte>, required: bool) returns (d: Document, n: nat)
    requires NulFree(text) && ParseDocument(text, required).Failure?
    ensures var p := ParseDocument(text, required).position;
      && n <= |text| && DocumentGrammatical(d) && text[..n] <= DocumentText(d)
      && (p == n || (p == n + 1 && n < |text| && text[n] != 34))
      && var r := ParseDocument(text, false);
      (r.Tree? ==> required && r.end <= p == n < |text| && text[p] > 32 && forall k | r.end <= k < p :: text[k] <= 32)
  {
    hide ParseDocument, ParseValue, SkipWs, DocumentGrammatical, DocumentText, Terminated, BomEnd;
    Outcomes(text, required);
    Outcomes(text, false);
    Outcomes(text, true);
    var s := text + [NUL];
    var r := ParseValue(s, SkipWs(s, BomEnd(s)), 0);
    if r.Err? {
      d, n := ValueRefused(text, r.pos);
    } else {
      n := SkipWs(s, r.next);
      d := TailRefused(text);
      WhiteUpTo(s, r.next);
      forall k | r.next <= k < n ensures text[k] <= 32 {
        assert s[k] == text[k];
      }
    }
  }

  lemma WhiteUpTo(s: seq<byte>, q: nat)
    requires q < |s|
    ensures q <= SkipWs(s, q) && forall k | q <= k < SkipWs(s, q) :: s[k] <= 32
    ensures SkipWs(s, q) < |s| - 1 ==> s[SkipWs(s, q)] > 32
  {
  }
}
