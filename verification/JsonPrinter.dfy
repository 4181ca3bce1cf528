/**
 The printer as it runs: it writes into a buffer that grows on demand, one granted stretch of
 bytes at a time.  What ends up in the buffer is the serializer's text.
 */
module JsonPrinter {
  import opened Ascii
  import opened JsonValue
  import opened JsonString
  import opened JsonEscape
  import opened JsonGrammar
  import opened JsonText
  import opened JsonCompare
  import opened JsonTree

  const INT_MAX: nat := 0x7FFF_FFFF

  class PrintBuffer {
    var buffer: array<byte>
    var length: nat
    var offset: nat
    var depth: nat
    const noalloc: bool
    const format: bool
    const hasRealloc: bool

    /** The end of the bytes that the last `Ensure` allows to be written. */
    ghost var granted: nat

    constructor (memory: array<byte>, noalloc: bool, format: bool, hasRealloc: bool)
      requires memory.Length <= INT_MAX && (memory.Length > 0 || noalloc || hasRealloc)
      ensures Valid() && Room() && buffer == memory && offset == 0 && depth == 0
      ensures this.noalloc == noalloc && this.format == format
    {
      buffer, length, offset, depth, granted := memory, memory.Length, 0, 0, 0;
      this.noalloc, this.format, this.hasRealloc := noalloc, format, hasRealloc;
    }

    ghost predicate Valid()
      reads this`buffer, this`length, this`offset, this`granted
    {
      && offset <= length == buffer.Length <= INT_MAX && granted <= length
      && (length == 0 ==> noalloc || hasRealloc)
    }

    /** The offset is on a byte of the buffer, if there is any. */
    ghost predicate Room()
      reads this`length, this`offset
    {
      length == 0 || offset < length
    }

    /** How large the buffer can get. */
    ghost function Capacity(): nat
      reads this`length
    {
      if noalloc then length else INT_MAX
    }

    /** What is printed and accounted for. */
    ghost function Contents(): (r: seq<byte>)
      requires Valid()
      reads this`buffer, this`length, this`offset, this`granted, buffer
      ensures |r| == offset
    {
      buffer[..offset]
    }

    /** `text` and a NUL stand behind `before`, and the offset is somewhere in the text. */
    ghost predicate Holds(before: seq<byte>, text: seq<byte>)
      reads this`buffer, this`length, this`offset, this`granted, buffer
    {
      && Valid()
      && |before| <= offset <= |before| + |text| < length
      && buffer[..|before| + |text|] == before + text && buffer[|before| + |text|] == NUL
    }

    /** `ensure()`: room for `needed` more bytes and one, by growing the buffer if that is allowed. */
    method Ensure(needed: nat) returns (ok: bool)
      requires Valid()
      modifies this`buffer, this`length, this`granted
      ensures Valid() && Capacity() == old(Capacity())
      ensures ok <==> old(Room()) && offset + needed + 1 <= Capacity()
      ensures ok ==> granted == offset + needed < length && Contents() == old(Contents())
      ensures old(offset) + needed < old(length) || !ok ==> buffer == old(buffer) && length == old(length)
      ensures ok && old(length) <= old(offset) + needed ==>
        var total := old(offset) + needed + 1; length == if total > 0x3FFF_FFFF then 0x7FFF_FFFF else 2 * total
      ensures buffer == old(buffer) || (!noalloc && fresh(buffer))
    {
      granted := 0;
      if length > 0 && offset >= length {
        return false;
      }
      if needed > INT_MAX {
        return false;
      }
      var total := needed + offset + 1;
      if total <= length {
        granted := offset + needed;
        return true;
      }
      if noalloc {
        return false;
      }
      var newsize;
      if total > INT_MAX / 2 {
        if total <= INT_MAX {
          newsize := INT_MAX;
        } else {
          return false;
        }
      } else {
        newsize := total * 2;
      }
      var copied := if hasRealloc then length else offset + 1;
      var newbuffer := new byte[newsize];
      forall i | 0 <= i < copied {
        newbuffer[i] := buffer[i];
      }
      assert newbuffer[..offset] == buffer[..offset];
      length := newsize;
      buffer := newbuffer;
      granted := offset + needed;
      ok := true;
    }

    /** Stores one byte, inside what was granted. */
    method Put(at: nat, b: byte)
      requires Valid() && offset <= at < granted
      modifies buffer
      ensures buffer[..at + 1] == old(buffer[..at]) + [b]
    {
      buffer[at] := b;
    }

    /** Stores a stretch of bytes, as `memcpy()` and `strcpy()` do. */
    method PutAll(at: nat, t: seq<byte>)
      requires Valid() && offset <= at && at + |t| <= granted
      modifies buffer
      ensures buffer[..at + |t|] == old(buffer[..at]) + t
    {
      forall i | 0 <= i < |t| {
        buffer[at + i] := t[i];
      }
    }

    /** `update_offset()`: on to the NUL. */
    method UpdateOffset(ghost before: seq<byte>, ghost text: seq<byte>)
      requires Holds(before, text) && NulFree(text)
      modifies this`offset
      ensures Valid() && Room() && Contents() == before + text
    {
      ghost var t := before + text;
      forall k | |before| <= k < |t| ensures buffer[k] != NUL {
        assert buffer[..|t|][k] == t[k] == text[k - |before|];
        assert text[k - |before|] in text;
      }
      while buffer[offset] != NUL
        invariant |before| <= offset <= |t| && Valid()
        decreases |t| - offset
      {
        offset := offset + 1;
      }
    }

    /** The text may be counted from further back. */
    lemma Regroup(before: seq<byte>, text: seq<byte>, start: seq<byte>, all: seq<byte>)
      requires Holds(before, text) && before + text == start + all && |start| <= |before|
      ensures Holds(start, all)
    {
      assert |before| + |text| == |start| + |all| by {
        assert |before + text| == |start + all|;
      }
    }

    /** A word and its NUL. */
    method PrintWord(word: seq<byte>) returns (ok: bool)
      requires Valid() && Room()
      modifies this`buffer, this`length, this`granted, buffer
      ensures Valid() && Capacity() == old(Capacity())
      ensures ok <==> old(offset) + |word| + 2 <= Capacity()
      ensures ok ==> Holds(old(Contents()), word)
      ensures buffer == old(buffer) || (!noalloc && fresh(buffer))
    {
      ok := Ensure(|word| + 1);
      if ok {
        ghost var before := Contents();
        PutAll(offset, word + [NUL]);
        Terminate(buffer, before, word);
      }
    }

    /** `print_number()` of what `sprintf()` made of the number: texts its 26 bytes cannot hold are refused, and the
        offset moves on, too. */
    method PrintNumber(text: seq<byte>) returns (ok: bool)
      requires Valid() && Room()
      modifies this`buffer, this`length, this`granted, this`offset, buffer
      ensures Valid() && Capacity() == old(Capacity())
      ensures ok <==> |text| <= 25 && old(offset) + |text| + 2 <= Capacity()
      ensures ok ==> Holds(old(Contents()), text)
      ensures buffer == old(buffer) || (!noalloc && fresh(buffer))
    {
      if |text| > 25 {
        return false;
      }
      ok := PrintWord(text);
      if ok {
        offset := offset + |text|;
      }
    }

    /** The first pass over a string: how many characters escaping adds. */
    static method CountEscapes(input: seq<byte>) returns (escapeCharacters: nat)
      ensures |Escape(input)| == |input| + escapeCharacters
    {
      hide Escape, EscapeByte;
      escapeCharacters := 0;
      EscapeNothing();
      assert input[..0] == [];
      for i := 0 to |input|
        invariant |Escape(input[..i])| == i + escapeCharacters
      {
        EscapeNext(input, i);
        EscapeSize(input[i]);
        if input[i] in {QUOTE, BACKSLASH, BACKSPACE, FORM_FEED, NEWLINE, RETURN, TAB} {
          escapeCharacters := escapeCharacters + 1;
        } else if input[i] < 32 {
          escapeCharacters := escapeCharacters + 5;
        }
      }
      assert input[..|input|] == input;
    }

    /** One character, escaped if it has to be.  `sprintf()` also stores a NUL behind a numeric escape. */
    method PutEscapedByte(at: nat, b: byte) returns (next: nat)
      requires Valid() && offset <= at && at + |EscapeByte(b)| < granted
      modifies buffer
      ensures next == at + |EscapeByte(b)| && buffer[..next] == old(buffer[..at]) + EscapeByte(b)
    {
      hide HexDigit, EscapeLetter;
      if b > 31 && b != QUOTE && b != BACKSLASH {
        Put(at, b);
        next := at + 1;
      } else {
        Put(at, BACKSLASH);
        if EscapeLetter(b) != 0 {
          Put(at + 1, EscapeLetter(b));
          next := at + 2;
        } else {
          PutAll(at + 1, [LETTER_U, DIGIT_0, DIGIT_0, HexDigit(b / 16), HexDigit(b % 16)] + [NUL]);
          next := at + 6;
          assert buffer[..next] == buffer[..next + 1][..next];
        }
      }
    }

    /** The second pass: the escaped characters, from `at` on. */
    method PutEscaped(at: nat, input: seq<byte>)
      requires Valid() && offset <= at && at + |Escape(input)| < granted
      modifies buffer
      ensures buffer[..at + |Escape(input)|] == old(buffer[..at]) + Escape(input)
    {
      hide Escape, EscapeByte;
      ghost var before := buffer[..at];
      ghost var done := [];
      var w := at;
      EscapeNothing();
      assert input[..0] == [] && before + [] == before;
      for i := 0 to |input|
        invariant Valid() && done == Escape(input[..i]) && w == at + |done| < granted && buffer[..w] == before + done
      {
        EscapeFits(input, i);
        w := PutEscapedByte(w, input[i]);
        assert before + (done + EscapeByte(input[i])) == (before + done) + EscapeByte(input[i]);
        done := done + EscapeByte(input[i]);
      }
      assert input[..|input|] == input;
    }

    /** The quoted string and its NUL. */
    method PutQuoted(input: seq<byte>, escapeCharacters: nat)
      requires Valid() && |Escape(input)| == |input| + escapeCharacters && granted == offset + |Escape(input)| + 3
      modifies buffer
      ensures buffer[..granted] == old(Contents()) + (Quoted(Escape(input)) + [NUL])
    {
      hide Escape, Quoted;
      ghost var before := Contents();
      ghost var body := Escape(input);
      var outputLength := |input| + escapeCharacters;
      Put(offset, QUOTE);
      if escapeCharacters == 0 {
        NothingEscaped(input);
        PutAll(offset + 1, input);
      } else {
        PutEscaped(offset + 1, input);
      }
      assert buffer[..offset + outputLength + 1] == (before + [QUOTE]) + body;
      Put(offset + outputLength + 1, QUOTE);
      Put(offset + outputLength + 2, NUL);
      QuotedJoin(before, body);
    }

    /** `print_string_ptr()`. */
    method PrintString(input: seq<byte>) returns (ok: bool)
      requires Valid() && Room()
      modifies this`buffer, this`length, this`granted, buffer
      ensures Valid() && Capacity() == old(Capacity())
      ensures ok <==> old(offset) + |Quoted(Escape(input))| + 2 <= Capacity()
      ensures ok ==> Holds(old(Contents()), Quoted(Escape(input)))
      ensures buffer == old(buffer) || (!noalloc && fresh(buffer))
    {
      hide Escape, Quoted;
      var escapeCharacters := CountEscapes(input);
      var outputLength := |input| + escapeCharacters;
      QuotedJoin([], Escape(input));
      ok := Ensure(outputLength + 3);
      if ok {
        ghost var before := Contents();
        PutQuoted(input, escapeCharacters);
        Terminate(buffer, before, Quoted(Escape(input)));
      }
    }

    /** Writes `t` and then `tail`, into room for `needed` bytes, and moves the offset behind `t`. */
    method Append(t: seq<byte>, tail: seq<byte>, needed: nat) returns (ok: bool)
      requires Valid() && Room() && |t| + |tail| <= needed
      modifies this`buffer, this`length, this`granted, this`offset, buffer
      ensures Valid() && Capacity() == old(Capacity())
      ensures ok <==> old(offset) + needed + 1 <= Capacity()
      ensures ok ==> Room() && Contents() == old(Contents()) + t
      ensures buffer == old(buffer) || (!noalloc && fresh(buffer))
    {
      ok := Ensure(needed);
      if ok {
        ghost var before := Contents();
        PutAll(offset, t);
        PutAll(offset + |t|, tail);
        assert (before + t) + tail == buffer[..offset + |t| + |tail|];
        assert buffer[..offset + |t|] == before + t;
        offset := offset + |t|;
      }
    }

    /** Stores `n` tabs. */
    method PutTabs(at: nat, n: nat)
      requires Valid() && offset <= at && at + n <= granted
      modifies buffer
      ensures buffer[..at + n] == old(buffer[..at]) + Tabs(true, n)
    {
      ghost var before := buffer[..at];
      assert before + Tabs(true, 0) == before;
      for i := 0 to n
        invariant Valid() && buffer[..at + i] == before + Tabs(true, i)
      {
        Put(at + i, TAB);
        TabsNext(i);
        assert before + (Tabs(true, i) + [TAB]) == (before + Tabs(true, i)) + [TAB];
      }
    }

    /** The indentation of a member. */
    method PrintTabs() returns (ok: bool)
      requires Valid() && Room()
      modifies this`buffer, this`length, this`granted, this`offset, buffer
      ensures Valid() && Capacity() == old(Capacity())
      ensures !ok ==> old(offset) + |Tabs(format, depth)| + 1 > Capacity()
      ensures ok ==> Room() && Contents() == old(Contents()) + Tabs(format, depth)
      ensures buffer == old(buffer) || (!noalloc && fresh(buffer))
    {
      ghost var before := Contents();
      assert before + [] == before;
      ok := true;
      if format {
        ok := Ensure(depth);
        if ok {
          PutTabs(offset, depth);
          offset := offset + depth;
        }
      }
    }

    /** The closing brace and its NUL, indented. */
    method PrintClosingBrace() returns (ok: bool)
      requires Valid() && Room() && depth > 0
      modifies this`buffer, this`length, this`granted, buffer
      ensures Valid() && Capacity() == old(Capacity())
      ensures ok <==> old(offset) + |Tabs(format, depth - 1) + [CLOSE_BRACE]| + 2 <= Capacity()
      ensures ok ==> Holds(old(Contents()), Tabs(format, depth - 1) + [CLOSE_BRACE])
      ensures buffer == old(buffer) || (!noalloc && fresh(buffer))
    {
      hide White, NulFree, Tabs;
      TabsSize(format, depth - 1);
      ok := Ensure(if format then depth + 1 else 2);
      if ok {
        ghost var before := Contents();
        ghost var tabs := Tabs(format, depth - 1);
        var at := PutIndent(offset, depth - 1);
        PutAll(at, [CLOSE_BRACE, NUL]);
        BraceJoin(before, tabs);
        Terminate(buffer, before, tabs + [CLOSE_BRACE]);
      }
    }

    /** Stores `n` tabs, when formatting. */
    method PutIndent(at: nat, n: nat) returns (next: nat)
      requires Valid() && offset <= at && at + (if format then n else 0) <= granted
      modifies buffer
      ensures next == at + (if format then n else 0) && buffer[..next] == old(buffer[..at]) + Tabs(format, n)
    {
      hide White, NulFree, Tabs;
      TabsSize(format, n);
      next := at;
      if format {
        PutTabs(at, n);
        next := at + n;
      } else {
        assert buffer[..at] + [] == buffer[..at];
      }
    }

    /** `print_value()`. */
    method PrintValue(item: Item?) returns (ok: bool)
      requires Valid() && Room() && (item != null ==> item.Valid() && Printable(item.value))
      modifies this, buffer
      ensures Valid() && Capacity() == old(Capacity())
      ensures item == null ==> !ok
      ensures item != null ==>
        (ok <==> old(offset) + |Serialize(item.value, format, old(depth))| + 2 <= Capacity())
      ensures item != null && ok ==> Holds(old(Contents()), Serialize(item.value, format, old(depth))) && depth == old(depth)
      ensures buffer == old(buffer) || (!noalloc && fresh(buffer))
      decreases if item == null then Null else item.value, 2
    {
      hide Quoted, Escape, Item.Valid;
      if item == null {
        return false;
      }
      item.KindFacts();
      match item.kind
      case NullKind => ok := PrintWord(NULL_TEXT);
      case FalseKind => ok := PrintWord(FALSE_TEXT);
      case TrueKind => ok := PrintWord(TRUE_TEXT);
      case NumberKind => ok := PrintNumber(item.chars);
      case StringKind => ok := PrintString(item.chars);
      case ArrayKind => ok := PrintArray(item);
      case ObjectKind => ok := PrintObject(item);
    }

    /** One turn of the loop of `print_array()`. */
    method PrintItem(current: Item) returns (ok: bool)
      requires Valid() && Room() && current.Valid() && Printable(current.value)
      modifies this, buffer
      ensures Valid() && Capacity() == old(Capacity())
      ensures ok <==> old(offset) + |ItemText(current.value, format, old(depth), current.next == null)| + 2 <= Capacity()
      ensures ok ==> Room() && depth == old(depth)
      ensures ok ==> Contents() == old(Contents()) + ItemText(current.value, format, old(depth), current.next == null)
      ensures buffer == old(buffer) || (!noalloc && fresh(buffer))
      decreases current.value, 3
    {
      hide Serialize, Printable, Pad, Contents, Holds, NulFree, Item.Valid;
      ghost var before := Contents();
      ok := PrintValue(current);
      if ok {
        TextNulFree(current.value, format, depth);
        UpdateOffset(before, Serialize(current.value, format, depth));
        ItemTextUnfold(before, current.value, format, depth, current.next == null);
        if current.next != null {
          ok := Append([COMMA] + Pad(format, SPACE), [NUL], if format then 3 else 2);
        }
      }
    }

    /** The loop of `print_array()`. */
    method PrintItems(item: Item) returns (ok: bool)
      requires Valid() && Room() && item.Valid() && item.value.Array? && Printable(item.value)
      modifies this, buffer
      ensures Valid() && Capacity() == old(Capacity())
      ensures !ok ==> old(offset) + |ItemsText(item.value.items, format, old(depth))| + 2 > Capacity()
      ensures ok ==> Room() && depth == old(depth)
      ensures ok ==> Contents() == old(Contents()) + ItemsText(item.value.items, format, depth)
      ensures buffer == old(buffer) || (!noalloc && fresh(buffer))
      decreases item.value, 0
    {
      hide Serialize, ItemsText, ItemText, Printable, Contents, Holds, Nesting,
        Item.Valid, Item.Family, Item.Chain, Item.Means, Item.Set;
      item.Open();
      item.ListFacts();
      ghost var items := item.value.items;
      ghost var full := Contents() + ItemsText(items, format, depth);
      var current := item.child;
      ghost var i := 0;
      assert items[0..] == items;
      ok := true;
      while current != null
        invariant ok && Valid() && Room() && depth == old(depth) && Capacity() == old(Capacity())
        invariant buffer == old(buffer) || (!noalloc && fresh(buffer))
        invariant item.Valid() && i <= |items| && current == Item.At(item.kids, i)
        invariant Contents() + ItemsText(items[i..], format, depth) == full
        decreases |items| - i
      {
        item.KidFacts(i);
        item.NextIs(i);
        PrintableKid(item.value, i);
        ItemsAdvance(Contents(), items, i, format, depth);
        ok := PrintItem(current);
        if !ok {
          return;
        }
        i := i + 1;
        current := current.next;
      }
      ItemsEnd(Contents(), items, format, depth);
    }

    /** `print_array()`. */
    method PrintArray(item: Item) returns (ok: bool)
      requires Valid() && Room() && item.Valid() && item.value.Array? && Printable(item.value)
      modifies this, buffer
      ensures Valid() && Capacity() == old(Capacity())
      ensures ok <==> old(offset) + |Serialize(item.value, format, old(depth))| + 2 <= Capacity()
      ensures ok ==> Holds(old(Contents()), Serialize(item.value, format, old(depth)))
      ensures ok ==> depth == old(depth)
      ensures buffer == old(buffer) || (!noalloc && fresh(buffer))
      decreases item.value, 1
    {
      hide Serialize, ItemsText, Printable, Contents, Holds, Item.Valid;
      ghost var start, text := Contents(), Serialize(item.value, format, depth);
      ArrayUnfold(start, item.value.items, format, depth);
      ok := Append([OPEN_BRACKET], [], 1);
      if ok {
        depth := depth + 1;
        ok := PrintItems(item);
        if ok {
          ghost var before := Contents();
          ok := PrintWord([CLOSE_BRACKET]);
          if ok {
            Regroup(before, [CLOSE_BRACKET], start, text);
            depth := depth - 1;
          }
        }
      }
    }

    /** The indented name of a member and the colon. */
    method PrintKey(name: seq<byte>) returns (ok: bool)
      requires Valid() && Room()
      modifies this`buffer, this`length, this`granted, this`offset, buffer
      ensures Valid() && Capacity() == old(Capacity())
      ensures !ok ==> old(offset) + |KeyText(name, format, depth)| + 2 > Capacity()
      ensures ok ==> Room() && Contents() == old(Contents()) + KeyText(name, format, depth)
      ensures buffer == old(buffer) || (!noalloc && fresh(buffer))
    {
      hide Quoted, Escape, Tabs, Pad, White, Contents, Holds, NulFree, KeyText;
      ghost var start := Contents();
      KeyUnfold(start, name, format, depth);
      ok := PrintTabs();
      if ok {
        ghost var before := Contents();
        ok := PrintString(name);
        if ok {
          QuotedNulFree(name);
          UpdateOffset(before, Quoted(Escape(name)));
          ok := Append([COLON] + Pad(format, TAB), [], if format then 2 else 1);
        }
      }
    }

    /** One turn of the loop of `print_object()`. */
    method PrintMember(current: Item) returns (ok: bool)
      requires Valid() && Room() && current.Valid() && NulFree(current.name) && Printable(current.value)
      modifies this, buffer
      ensures Valid() && Capacity() == old(Capacity())
      ensures ok <==> old(offset) + |TextOfMember(current, format, old(depth))| + 2 <= Capacity()
      ensures ok ==> Room() && depth == old(depth)
      ensures ok ==> Contents() == old(Contents()) + TextOfMember(current, format, old(depth))
      ensures buffer == old(buffer) || (!noalloc && fresh(buffer))
      decreases current.value, 3
    {
      hide Serialize, KeyText, Printable, MemberText, Separator, Contents, Holds, NulFree, Item.Valid;
      ghost var last := current.next == null;
      MemberUnfold(Contents(), Member(current.name, current.value), format, depth, last);
      ok := PrintKey(current.name);
      if ok {
        ghost var before := Contents();
        ok := PrintValue(current);
        if ok {
          TextNulFree(current.value, format, depth);
          UpdateOffset(before, Serialize(current.value, format, depth));
          ok := Append(Separator(format, current.next == null), [NUL],
            (if format then 1 else 0) + (if current.next == null then 0 else 1) + 1);
        }
      }
    }

    /** The loop of `print_object()`. */
    method PrintMembers(item: Item) returns (ok: bool)
      requires Valid() && Room() && item.Valid() && item.value.Object? && Printable(item.value)
      modifies this, buffer
      ensures Valid() && Capacity() == old(Capacity())
      ensures !ok ==> old(offset) + |MembersText(item.value.members, format, old(depth))| + 2 > Capacity()
      ensures ok ==> Room() && depth == old(depth)
      ensures ok ==> Contents() == old(Contents()) + MembersText(item.value.members, format, depth)
      ensures buffer == old(buffer) || (!noalloc && fresh(buffer))
      decreases item.value, 0
    {
      hide MembersText, MemberText, Printable, NulFree, Contents, Holds, Nesting,
        Item.Valid, Item.Family, Item.Chain, Item.Means, Item.Set;
      item.Open();
      item.ListFacts();
      ghost var members := item.value.members;
      ghost var full := Contents() + MembersText(members, format, depth);
      var current := item.child;
      ghost var i := 0;
      assert members[0..] == members;
      ok := true;
      while current != null
        invariant ok && Valid() && Room() && depth == old(depth) && Capacity() == old(Capacity())
        invariant buffer == old(buffer) || (!noalloc && fresh(buffer))
        invariant item.Valid() && i <= |members| && current == Item.At(item.kids, i)
        invariant Contents() + MembersText(members[i..], format, depth) == full
        decreases |members| - i
      {
        item.KidFacts(i);
        item.NextIs(i);
        PrintableKid(item.value, i);
        MembersAdvance(Contents(), members, i, format, depth);
        ok := PrintMember(current);
        if !ok {
          return;
        }
        i := i + 1;
        current := current.next;
      }
      MembersEnd(Contents(), members, format, depth);
    }

    /** `print_object()`. */
    method PrintObject(item: Item) returns (ok: bool)
      requires Valid() && Room() && item.Valid() && item.value.Object? && Printable(item.value)
      modifies this, buffer
      ensures Valid() && Capacity() == old(Capacity())
      ensures ok <==> old(offset) + |Serialize(item.value, format, old(depth))| + 2 <= Capacity()
      ensures ok ==> Holds(old(Contents()), Serialize(item.value, format, old(depth)))
      ensures ok ==> depth == old(depth)
      ensures buffer == old(buffer) || (!noalloc && fresh(buffer))
      decreases item.value, 1
    {
      hide Serialize, MembersText, Printable, NulFree, White, Tabs, Pad, Contents, Holds, Item.Valid;
      ghost var start, text := Contents(), Serialize(item.value, format, depth);
      ObjectTextUnfold(start, item.value.members, format, depth);
      ok := Append([OPEN_BRACE] + Pad(format, NEWLINE), [], if format then 3 else 2);
      if ok {
        depth := depth + 1;
        ok := PrintMembers(item);
        if ok {
          ghost var before := Contents();
          ok := PrintClosingBrace();
          if ok {
            Regroup(before, Tabs(format, old(depth)) + [CLOSE_BRACE], start, text);
            depth := depth - 1;
          }
        }
      }
    }
  }

  /** The text of an item as a member, which depends on whether a sibling follows. */
  ghost function TextOfMember(current: Item, fmt: bool, depth: nat): seq<byte>
    reads current`name, current`value, current`next
  {
    MemberText(Member(current.name, current.value), fmt, depth, current.next == null)
  }

  lemma PrintableKid(v: Json, i: nat)
    requires Printable(v) && Container(v) && i < Width(v)
    ensures Printable(Element(v, i).value) && (v.Object? ==> NulFree(Element(v, i).name))
  {
  }

  /** The text of a value as a C string. */
  function TextAndNul(v: Json, fmt: bool): (r: seq<byte>)
    ensures |r| == |Serialize(v, fmt, 0)| + 1
  {
    Serialize(v, fmt, 0) + [NUL]
  }

  /** `cJSON_Print()` and `cJSON_PrintUnformatted()`: the text in memory of just its size. */
  method Print(item: Item?, format: bool, hasRealloc: bool) returns (ok: bool, printed: array<byte>)
    requires item != null ==> item.Valid() && Printable(item.value)
    ensures fresh(printed)
    ensures ok <==> item != null && |Serialize(item.value, format, 0)| + 2 <= 0x7FFF_FFFF
    ensures ok ==> printed[..] == TextAndNul(item.value, format)
  {
    hide Serialize, Printable, NulFree, Item.Valid;
    printed := new byte[256];
    var buffer := new PrintBuffer(printed, false, format, hasRealloc);
    assert buffer.Contents() == [];
    ok := buffer.PrintValue(item);
    if ok {
      ghost var text := Serialize(item.value, format, 0);
      TextNulFree(item.value, format, 0);
      assert [] + text == text;
      FinalByte(buffer, text);
      buffer.UpdateOffset([], text);
      printed := new byte[buffer.offset + 1];
      forall i | 0 <= i < printed.Length {
        printed[i] := buffer.buffer[i];
      }
      assert printed[..] == buffer.buffer[..|text| + 1];
    }
  }

  lemma FinalByte(buffer: PrintBuffer, text: seq<byte>)
    requires buffer.Holds([], text)
    ensures buffer.buffer[..|text| + 1] == text + [NUL]
  {
    assert [] + text == text;
  }

  /** `cJSON_PrintBuffered()`: the text in the buffer itself, whatever its first size. */
  method PrintBuffered(item: Item?, prebuffer: int, format: bool, hasRealloc: bool) returns (ok: bool, printed: array<byte>)
    requires (item != null ==> item.Valid() && Printable(item.value)) && prebuffer <= INT_MAX && (prebuffer != 0 || hasRealloc)
    ensures ok <==> item != null && 0 <= prebuffer && |Serialize(item.value, format, 0)| + 2 <= 0x7FFF_FFFF
    ensures ok ==> fresh(printed) && printed.Length > |Serialize(item.value, format, 0)|
    ensures ok ==> printed[..|Serialize(item.value, format, 0)| + 1] == TextAndNul(item.value, format)
  {
    hide Serialize, Printable, NulFree, Item.Valid;
    if prebuffer < 0 {
      printed := new byte[0];
      return false, printed;
    }
    printed := new byte[prebuffer];
    var buffer := new PrintBuffer(printed, false, format, hasRealloc);
    assert buffer.Contents() == [];
    ok := buffer.PrintValue(item);
    printed := buffer.buffer;
    if ok {
      FinalByte(buffer, Serialize(item.value, format, 0));
    }
  }

  /** `cJSON_PrintPreallocated()`: it succeeds exactly if one byte remains behind the text and its NUL, so the
      five bytes of slack its header file asks for are more than enough. */
  method PrintPreallocated(item: Item?, buf: array<byte>, format: bool) returns (ok: bool)
    requires (item != null ==> item.Valid() && Printable(item.value)) && buf.Length <= INT_MAX
    modifies buf
    ensures ok <==> item != null && |Serialize(item.value, format, 0)| + 1 + 1 <= buf.Length
    ensures ok ==> buf[..|Serialize(item.value, format, 0)| + 1] == TextAndNul(item.value, format)
  {
    hide Serialize, Printable, NulFree, Item.Valid;
    var buffer := new PrintBuffer(buf, true, format, false);
    assert buffer.Contents() == [];
    ok := buffer.PrintValue(item);
    if ok {
      FinalByte(buffer, Serialize(item.value, format, 0));
    }
  }

  lemma Terminate(buffer: array<byte>, before: seq<byte>, t: seq<byte>)
    requires |before| + |t| < buffer.Length && buffer[..|before| + |t| + 1] == before + (t + [NUL])
    ensures buffer[..|before| + |t|] == before + t && buffer[|before| + |t|] == NUL
  {
    var n := |before| + |t|;
    var b := buffer[..n + 1];
    assert before + (t + [NUL]) == (before + t) + [NUL];
    assert b[..n] == before + t && b[n] == NUL;
  }

  lemma ArrayUnfold(before: seq<byte>, items: seq<Json>, fmt: bool, depth: nat)
    ensures var all := ItemsText(items, fmt, depth + 1);
      && |Serialize(Array(items), fmt, depth)| == 2 + |all|
      && ((before + [OPEN_BRACKET]) + all) + [CLOSE_BRACKET] == before + Serialize(Array(items), fmt, depth)
  {
    hide ItemsText;
  }

  /** An item and the comma after it. */
  function ItemText(v: Json, fmt: bool, depth: nat, last: bool): seq<byte> {
    Serialize(v, fmt, depth) + if last then [] else [COMMA] + Pad(fmt, SPACE)
  }

  lemma ItemTextUnfold(before: seq<byte>, v: Json, fmt: bool, depth: nat, last: bool)
    ensures var t, comma := Serialize(v, fmt, depth), [COMMA] + Pad(fmt, SPACE);
      && |comma| == (if fmt then 2 else 1)
      && |ItemText(v, fmt, depth, last)| == |t| + (if last then 0 else |comma|)
      && before + ItemText(v, fmt, depth, last) == if last then before + t else (before + t) + comma
  {
    hide Serialize;
  }

  lemma ItemsAdvance(before: seq<byte>, items: seq<Json>, i: nat, fmt: bool, depth: nat)
    requires i < |items|
    ensures before + ItemsText(items[i..], fmt, depth)
            == (before + ItemText(items[i], fmt, depth, i + 1 == |items|)) + ItemsText(items[i + 1..], fmt, depth)
  {
    hide Serialize, Pad;
    assert items[i..][1..] == items[i + 1..];
    var t, rest := ItemText(items[i], fmt, depth, i + 1 == |items|), ItemsText(items[i + 1..], fmt, depth);
    assert ItemsText(items[i..], fmt, depth) == t + rest;
    assert before + (t + rest) == (before + t) + rest;
  }

  lemma ItemsEnd(before: seq<byte>, items: seq<Json>, fmt: bool, depth: nat)
    ensures before + ItemsText(items[|items|..], fmt, depth) == before
  {
    assert items[|items|..] == [];
  }

  function KeyText(name: seq<byte>, fmt: bool, depth: nat): seq<byte> {
    (Tabs(fmt, depth) + Quoted(Escape(name))) + ([COLON] + Pad(fmt, TAB))
  }

  lemma KeyUnfold(before: seq<byte>, name: seq<byte>, fmt: bool, depth: nat)
    ensures var tabs, q, c := Tabs(fmt, depth), Quoted(Escape(name)), [COLON] + Pad(fmt, TAB);
      && |c| == (if fmt then 2 else 1) && |KeyText(name, fmt, depth)| == |tabs| + |q| + |c|
      && before + KeyText(name, fmt, depth) == ((before + tabs) + q) + c
  {
    hide Tabs, Quoted, Escape;
  }

  lemma MemberUnfold(before: seq<byte>, m: Member, fmt: bool, depth: nat, last: bool)
    ensures var k, t, x := KeyText(m.name, fmt, depth), Serialize(m.value, fmt, depth), Separator(fmt, last);
      && |x| == (if fmt then 1 else 0) + (if last then 0 else 1)
      && |MemberText(m, fmt, depth, last)| == |k| + |t| + |x|
      && before + MemberText(m, fmt, depth, last) == ((before + k) + t) + x
  {
    hide Tabs, Quoted, Escape, Serialize, Separator;
    assert |Separator(fmt, last)| == (if fmt then 1 else 0) + (if last then 0 else 1) by {
      SeparatorSize(fmt, last);
    }
    assert MemberText(m, fmt, depth, last)
        == KeyText(m.name, fmt, depth) + (Serialize(m.value, fmt, depth) + Separator(fmt, last));
  }

  lemma SeparatorSize(fmt: bool, last: bool)
    ensures |Separator(fmt, last)| == (if fmt then 1 else 0) + (if last then 0 else 1)
  {
  }

  lemma ObjectTextUnfold(before: seq<byte>, members: seq<Member>, fmt: bool, depth: nat)
    ensures var open, all, close := [OPEN_BRACE] + Pad(fmt, NEWLINE), MembersText(members, fmt, depth + 1),
      Tabs(fmt, depth) + [CLOSE_BRACE];
      && |open| == (if fmt then 2 else 1) && |Serialize(Object(members), fmt, depth)| == |open| + |all| + |close|
      && ((before + open) + all) + close == before + Serialize(Object(members), fmt, depth)
  {
    hide MembersText, Tabs;
  }

  lemma MembersAdvance(before: seq<byte>, members: seq<Member>, i: nat, fmt: bool, depth: nat)
    requires i < |members|
    ensures before + MembersText(members[i..], fmt, depth)
            == (before + MemberText(members[i], fmt, depth, i + 1 == |members|)) + MembersText(members[i + 1..], fmt, depth)
  {
    hide MemberText;
    assert members[i..][1..] == members[i + 1..];
    var m, rest := MemberText(members[i], fmt, depth, i + 1 == |members|), MembersText(members[i + 1..], fmt, depth);
    assert MembersText(members[i..], fmt, depth) == m + rest;
    assert before + (m + rest) == (before + m) + rest;
  }

  lemma MembersEnd(before: seq<byte>, members: seq<Member>, fmt: bool, depth: nat)
    ensures before + MembersText(members[|members|..], fmt, depth) == before
  {
    assert members[|members|..] == [];
  }

  lemma BraceJoin(before: seq<byte>, tabs: seq<byte>)
    ensures (before + tabs) + [CLOSE_BRACE, NUL] == before + ((tabs + [CLOSE_BRACE]) + [NUL])
  {
  }

  lemma TabsSize(fmt: bool, n: nat)
    ensures Tabs(true, n) == Tabs(fmt, n) || !fmt
    ensures !fmt ==> Tabs(fmt, n) == []
  {
  }

  lemma {:induction false} TabsNext(n: nat)
    ensures Tabs(true, n + 1) == Tabs(true, n) + [TAB]
  {
    if n > 0 {
      TabsNext(n - 1);
    }
  }

  lemma QuotedNulFree(t: seq<byte>)
    ensures NulFree(Quoted(Escape(t)))
  {
    EscapeNulFree(t);
  }

  lemma QuotedJoin(before: seq<byte>, body: seq<byte>)
    ensures |Quoted(body)| == |body| + 2
    ensures (((before + [QUOTE]) + body) + [QUOTE]) + [NUL] == before + (Quoted(body) + [NUL])
  {
  }

  lemma EscapeNothing()
    ensures Escape([]) == []
  {
  }

  lemma {:induction false} EscapeJoin(a: seq<byte>, b: seq<byte>)
    ensures Escape(a + b) == Escape(a) + Escape(b)
  {
    if a == [] {
      assert a + b == b;
    } else {
      assert (a + b)[1..] == a[1..] + b;
      EscapeJoin(a[1..], b);
    }
  }

  lemma EscapeNext(t: seq<byte>, i: nat)
    requires i < |t|
    ensures Escape(t[..i + 1]) == Escape(t[..i]) + EscapeByte(t[i])
  {
    assert t[..i + 1] == t[..i] + [t[i]];
    EscapeJoin(t[..i], [t[i]]);
    assert [t[i]][1..] == [];
    assert EscapeByte(t[i]) + [] == EscapeByte(t[i]);
  }

  /** What is escaped up to `i` is no longer than all of it. */
  lemma EscapeFits(t: seq<byte>, i: nat)
    requires i < |t|
    ensures Escape(t[..i + 1]) == Escape(t[..i]) + EscapeByte(t[i])
    ensures |Escape(t[..i])| + |EscapeByte(t[i])| <= |Escape(t)|
  {
    EscapeNext(t, i);
    assert t == t[..i + 1] + t[i + 1..];
    EscapeJoin(t[..i + 1], t[i + 1..]);
  }

  lemma EscapeSize(b: byte)
    ensures |EscapeByte(b)| ==
      if b in {QUOTE, BACKSLASH, BACKSPACE, FORM_FEED, NEWLINE, RETURN, TAB} then 2 else if b < 32 then 6 else 1
  {
  }

  lemma {:induction false} NothingEscaped(t: seq<byte>)
    requires |Escape(t)| == |t|
    ensures Escape(t) == t
  {
    if t != [] {
      LongerEscaped(t[1..]);
      NothingEscaped(t[1..]);
    }
  }

  lemma {:induction false} LongerEscaped(t: seq<byte>)
    ensures |t| <= |Escape(t)|
  {
    if t != [] {
      LongerEscaped(t[1..]);
    }
  }
}
