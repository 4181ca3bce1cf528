/**
 How the printer lays a value out, said byte by byte: which white space stands where in the
 syntax tree of the text, and how the characters of strings are written.  The printed text is
 the one text laid out so.
 */
module JsonLayout {
  import opened Ascii
  import opened JsonValue
  import opened JsonString
  import opened JsonEscape
  import opened JsonGrammar
  import opened JsonText

  // ----- strings -----

  /** The letters of the escapes the printer prefers. */
  const LETTERS: map<byte, byte> := map[34 := 34, 92 := 92, 8 := 98, 12 := 102, 10 := 110, 13 := 114, 9 := 116]

  /** `t` is how the character `b` is written in a string: behind a reverse solidus if it has a letter, with two small
      hexadecimal digits if it is another control character, and otherwise as it is. */
  predicate Written(b: byte, t: seq<byte>) {
    if b in LETTERS then t == [92, LETTERS[b]]
    else if b < 32 then
      t == [92, 117, 48, 48, "0123456789abcdef"[b / 16] as int, "0123456789abcdef"[b % 16] as int]
    else t == [b]
  }

  /** `body` is how the characters `t` are written, one after the other. */
  ghost predicate WrittenOut(t: seq<byte>, body: seq<byte>) {
    if t == [] then body == []
    else exists n: nat | n <= |body| :: Written(t[0], body[..n]) && WrittenOut(t[1..], body[n..])
  }

  lemma ByteWritten(b: byte)
    ensures Written(b, EscapeByte(b))
  {
    var digits := "0123456789abcdef";
    if b < 32 && EscapeLetter(b) == 0 {
      assert HexDigit(b / 16) == digits[b / 16] as int by { DigitWritten(b / 16); }
      assert HexDigit(b % 16) == digits[b % 16] as int by { DigitWritten(b % 16); }
    }
  }

  lemma DigitWritten(n: nat)
    requires n < 16
    ensures HexDigit(n) == "0123456789abcdef"[n] as int
  {
  }

  lemma WrittenOnce(b: byte, t: seq<byte>, u: seq<byte>)
    requires Written(b, t) && Written(b, u)
    ensures t == u
  {
  }

  /** Escaping writes the characters so, and there is no other way. */
  lemma {:induction false} EscapeExact(t: seq<byte>, body: seq<byte>)
    ensures WrittenOut(t, body) <==> body == Escape(t)
    decreases |t|
  {
    hide Written, EscapeByte;
    if t != [] {
      var first, rest := EscapeByte(t[0]), Escape(t[1..]);
      ByteWritten(t[0]);
      if body == Escape(t) {
        assert body[..|first|] == first && body[|first|..] == rest;
        EscapeExact(t[1..], rest);
      }
      forall n: nat | n <= |body| && Written(t[0], body[..n]) && WrittenOut(t[1..], body[n..]) ensures body == Escape(t) {
        WrittenOnce(t[0], body[..n], first);
        EscapeExact(t[1..], body[n..]);
        assert body == body[..n] + body[n..];
      }
    }
  }

  // ----- white space -----

  /** A line break and `n` tabs. */
  predicate Break(ws: seq<byte>, n: nat) {
    |ws| == n + 1 && ws[0] == 10 && forall k | 0 < k <= n :: ws[k] == 9
  }

  /** `c` is the syntax tree of `v` as it is written at the given depth.  Unformatted there is no white space.
      Formatted, items are set off by a space, members stand on lines of their own, indented by tabs, with a tab before
      the value, and the brace that closes an object stands on a line of its own, too. */
  ghost predicate LaidOut(c: Cst, v: Json, formatted: bool, depth: nat)
    decreases c
  {
    match c
    case NullText => v == Null
    case FalseText => v == False
    case TrueText => v == True
    case NumberText(text) => v == Number(text)
    case StringText(body) => v.String? && WrittenOut(v.chars, body)
    case ArrayText(ws, items) =>
      && v.Array? && |items| == |v.items| && ws == []
      && forall i | 0 <= i < |items| ::
           && (if formatted && i > 0 then items[i].before == [32] else items[i].before == [])
           && items[i].after == []
           && LaidOut(items[i].value, v.items[i], formatted, depth + 1)
    case ObjectText(ws, entries) =>
      && v.Object? && |entries| == |v.members|
      && (if formatted then Break(ws, depth) else ws == [])
      && forall i | 0 <= i < |entries| :: EntryLaidOut(entries[i], v.members[i], formatted, depth + 1, i + 1 == |entries|)
  }

  ghost predicate EntryLaidOut(e: Entry, m: Member, formatted: bool, depth: nat, last: bool)
    requires depth > 0
    decreases e
  {
    && (if formatted then Break(e.before, depth) else e.before == [])
    && WrittenOut(m.name, e.name) && e.gap == []
    && (if formatted then e.item.before == [9] else e.item.before == [])
    && LaidOut(e.item.value, m.value, formatted, depth)
    && (if formatted && last then Break(e.item.after, depth - 1) else e.item.after == [])
  }

  lemma BreakOnce(ws: seq<byte>, n: nat)
    requires Break(ws, n)
    ensures ws == Pad(true, NEWLINE) + Tabs(true, n)
  {
    TabsAre(n);
  }

  lemma NoPad(b: byte)
    requires NUL < b <= SPACE
    ensures Pad(false, b) == [] && Pad(true, b) == [b]
  {
  }

  lemma {:induction false} TabsAre(n: nat)
    ensures |Tabs(true, n)| == n && forall k | 0 <= k < n :: Tabs(true, n)[k] == 9
  {
    if n > 0 {
      TabsAre(n - 1);
    }
  }

  lemma BreakIs(n: nat)
    ensures Break(Pad(true, NEWLINE) + Tabs(true, n), n)
  {
    TabsAre(n);
  }

  lemma NoBreak(n: nat)
    ensures Pad(false, NEWLINE) + Tabs(false, n) == []
  {
  }

  /** The tree of the printed text is laid out so. */
  lemma {:induction false} PrintedIsLaidOut(v: Json, fmt: bool, depth: nat)
    ensures LaidOut(CstOf(v, fmt, depth), v, fmt, depth)
    decreases v
  {
    hide WrittenOut, Escape, Break, Tabs, Pad, EntryLaidOut, EntryOf, ItemsOf, EntriesOf;
    match v
    case String(chars) => EscapeExact(chars, Escape(chars));
    case Array(items) =>
      ItemsLaidOut(items, fmt, depth + 1, []);
      var r := ItemsOf(items, fmt, depth + 1, []);
      assert CstOf(v, fmt, depth) == ArrayText([], r);
      assert forall i | 0 <= i < |items| :: LaidOut(r[i].value, items[i], fmt, depth + 1);
    case Object(members) =>
      BreakIs(depth);
      NoBreak(depth);
      EntriesLaidOut(members, fmt, depth + 1);
    case _ =>
  }

  lemma {:induction false} ItemsLaidOut(items: seq<Json>, fmt: bool, depth: nat, lead: seq<byte>)
    ensures var r := ItemsOf(items, fmt, depth, lead);
      forall i | 0 <= i < |items| ::
        && r[i].before == (if i == 0 then lead else if fmt then [32] else [])
        && r[i].after == [] && LaidOut(r[i].value, items[i], fmt, depth)
    decreases items
  {
    hide LaidOut, CstOf;
    if items != [] {
      PrintedIsLaidOut(items[0], fmt, depth);
      ItemsLaidOut(items[1..], fmt, depth, Pad(fmt, SPACE));
      var r, rest := ItemsOf(items, fmt, depth, lead), ItemsOf(items[1..], fmt, depth, Pad(fmt, SPACE));
      assert r[1..] == rest;
      assert forall i | 0 < i < |items| :: r[i] == rest[i - 1] && items[i] == items[1..][i - 1];
    }
  }

  lemma {:induction false} EntriesLaidOut(members: seq<Member>, fmt: bool, depth: nat)
    requires depth > 0
    ensures var r := EntriesOf(members, fmt, depth);
      forall i | 0 <= i < |members| :: EntryLaidOut(r[i], members[i], fmt, depth, i + 1 == |members|)
    decreases members
  {
    hide LaidOut, EntryLaidOut, EntryOf;
    if members != [] {
      var r, rest := EntriesOf(members, fmt, depth), EntriesOf(members[1..], fmt, depth);
      var after := if |members| == 1 then Pad(fmt, NEWLINE) + Tabs(fmt, depth - 1) else [];
      assert r[0] == EntryOf(members[0], fmt, depth, after) && r[1..] == rest;
      OneEntryLaidOut(members[0], fmt, depth, |members| == 1);
      EntriesLaidOut(members[1..], fmt, depth);
      assert forall i | 0 < i < |members| :: r[i] == rest[i - 1] && members[i] == members[1..][i - 1];
    }
  }

  lemma {:induction false} OneEntryLaidOut(m: Member, fmt: bool, depth: nat, last: bool)
    requires depth > 0
    ensures var after := if last then Pad(fmt, NEWLINE) + Tabs(fmt, depth - 1) else [];
      EntryLaidOut(EntryOf(m, fmt, depth, after), m, fmt, depth, last)
    decreases m
  {
    hide LaidOut, CstOf, Tabs, Break, WrittenOut, Escape;
    PrintedIsLaidOut(m.value, fmt, depth);
    EscapeExact(m.name, Escape(m.name));
    BreakIs(depth);
    NoBreak(depth);
    BreakIs(depth - 1);
    NoBreak(depth - 1);
  }

  /** And no other tree is. */
  lemma {:induction false} LaidOutOnce(c: Cst, v: Json, fmt: bool, depth: nat)
    requires LaidOut(c, v, fmt, depth)
    ensures c == CstOf(v, fmt, depth)
    decreases c
  {
    hide WrittenOut, Escape, Break, Tabs, Pad, EntryLaidOut, EntryOf, ItemsOf, EntriesOf;
    match c
    case StringText(body) => EscapeExact(v.chars, body);
    case ArrayText(ws, items) => ItemsOnce(items, v.items, fmt, depth + 1, []);
    case ObjectText(ws, entries) =>
      if fmt {
        BreakOnce(ws, depth);
      }
      NoBreak(depth);
      EntriesOnce(entries, v.members, fmt, depth + 1);
    case _ =>
  }

  lemma {:induction false} ItemsOnce(items: seq<Slot>, vs: seq<Json>, fmt: bool, depth: nat, lead: seq<byte>)
    requires |items| == |vs|
    requires forall i | 0 <= i < |items| ::
      && items[i].before == (if i == 0 then lead else if fmt then [32] else [])
      && items[i].after == [] && LaidOut(items[i].value, vs[i], fmt, depth)
    ensures items == ItemsOf(vs, fmt, depth, lead)
    decreases items
  {
    hide LaidOut, CstOf;
    if items != [] {
      LaidOutOnce(items[0].value, vs[0], fmt, depth);
      ItemsOnce(items[1..], vs[1..], fmt, depth, Pad(fmt, SPACE));
      assert items == [items[0]] + items[1..] && items[0] == Slot(lead, items[0].value, []);
    }
  }

  lemma {:induction false} EntriesOnce(entries: seq<Entry>, ms: seq<Member>, fmt: bool, depth: nat)
    requires depth > 0 && |entries| == |ms|
    requires forall i | 0 <= i < |entries| :: EntryLaidOut(entries[i], ms[i], fmt, depth, i + 1 == |entries|)
    ensures entries == EntriesOf(ms, fmt, depth)
    decreases entries
  {
    hide LaidOut, EntryLaidOut, EntryOf;
    if entries != [] {
      EntryOnce(entries[0], ms[0], fmt, depth, |ms| == 1);
      EntriesOnce(entries[1..], ms[1..], fmt, depth);
      assert entries == [entries[0]] + entries[1..];
    }
  }

  lemma {:induction false} EntryOnce(e: Entry, m: Member, fmt: bool, depth: nat, last: bool)
    requires depth > 0 && EntryLaidOut(e, m, fmt, depth, last)
    ensures e == EntryOf(m, fmt, depth, if last then Pad(fmt, NEWLINE) + Tabs(fmt, depth - 1) else [])
    decreases e
  {
    hide LaidOut, CstOf, Tabs, Break, WrittenOut, Escape, Pad;
    LaidOutOnce(e.item.value, m.value, fmt, depth);
    EscapeExact(m.name, e.name);
    NoPad(TAB);
    NoBreak(depth);
    NoBreak(depth - 1);
    if fmt {
      BreakOnce(e.before, depth);
      if last {
        BreakOnce(e.item.after, depth - 1);
      }
    }
  }

  /** There is exactly one tree of a value laid out so, the printed text is its text, and it denotes the value. */
  lemma PrintedLayout(v: Json, fmt: bool, depth: nat) returns (c: Cst)
    ensures LaidOut(c, v, fmt, depth) && forall d | LaidOut(d, v, fmt, depth) :: d == c
    ensures Flat(c) == Serialize(v, fmt, depth)
    ensures Printable(v) ==> Grammatical(c) && Meaning(c) == v
  {
    hide LaidOut, Flat, Serialize, CstOf, Printable;
    c := CstOf(v, fmt, depth);
    PrintedIsLaidOut(v, fmt, depth);
    CstText(v, fmt, depth);
    forall d | LaidOut(d, v, fmt, depth) ensures d == c {
      LaidOutOnce(d, v, fmt, depth);
    }
    if Printable(v) {
      CstMeans(v, fmt, depth);
    }
  }
}
