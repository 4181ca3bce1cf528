/**
 The parser as it runs: a cursor and a nesting depth over a NUL-terminated buffer, loops that
 move the cursor, and strings decoded into memory sized by an earlier pass.
 */
module JsonParser {
  import opened Ascii
  import opened Unicode
  import opened JsonValue
  import opened JsonString
  import opened JsonNumber
  import opened JsonParse
  import opened JsonDocument
  import opened JsonCompare
  import opened JsonTree

  /** A list of which the elements `done` are read and the rest is still to come. */
  function Resume<T>(done: seq<T>, r: Parsed<seq<T>>): Parsed<seq<T>> {
    match r
    case Ok(rest, next) => Ok(done + rest, next)
    case Err(pos) => Err(pos)
  }

  /** How a list ends at `n`: behind its bracket, or with an error where something else stands. */
  function EndOfList<T>(done: seq<T>, closed: bool, n: nat): Parsed<seq<T>> {
    if closed then Ok(done, n + 1) else Err(n)
  }

  lemma ResumeNothing<T>(r: Parsed<seq<T>>)
    ensures Resume([], r) == r
  {
    if r.Ok? {
      assert [] + r.value == r.value;
    }
  }

  lemma ResumeStep<T>(done: seq<T>, v: T, r: Parsed<seq<T>>)
    ensures Resume(done, Resume([v], r)) == Resume(done + [v], r)
  {
    if r.Ok? {
      assert done + ([v] + r.value) == (done + [v]) + r.value;
    }
  }

  /** One turn of the loop over the items of an array, the elements `done` being read. */
  lemma ItemsTurn(s: seq<byte>, q: nat, depth: nat, done: seq<Json>)
    requires Terminated(s) && q < |s| && depth <= NESTING_LIMIT
    ensures var r := ParseValue(s, SkipWs(s, q), depth); var list := Resume(done, ParseItems(s, q, depth));
      if r.Err? then list == Err(r.pos)
      else
        var n := SkipWs(s, r.next);
        if s[n] == COMMA then n + 1 < |s| && list == Resume(done + [r.value], ParseItems(s, n + 1, depth))
        else list == EndOfList(done + [r.value], s[n] == CLOSE_BRACKET, n)
  {
    hide ParseValue, SkipWs;
    var r := ParseValue(s, SkipWs(s, q), depth);
    if r.Ok? && s[SkipWs(s, r.next)] == COMMA {
      ResumeStep(done, r.value, ParseItems(s, SkipWs(s, r.next) + 1, depth));
    }
  }

  /** One turn of the loop over the members of an object. */
  lemma MembersTurn(s: seq<byte>, q: nat, depth: nat, done: seq<Member>)
    requires Terminated(s) && q < |s| && depth <= NESTING_LIMIT
    ensures var r := ParseMember(s, q, depth); var list := Resume(done, ParseMembers(s, q, depth));
      if r.Err? then list == Err(r.pos)
      else
        var n := SkipWs(s, r.next);
        if s[n] == COMMA then n + 1 < |s| && list == Resume(done + [r.value], ParseMembers(s, n + 1, depth))
        else list == EndOfList(done + [r.value], s[n] == CLOSE_BRACE, n)
  {
    hide ParseMember, SkipWs;
    var r := ParseMember(s, q, depth);
    if r.Ok? && s[SkipWs(s, r.next)] == COMMA {
      ResumeStep(done, r.value, ParseMembers(s, SkipWs(s, r.next) + 1, depth));
    }
  }

  class ParseBuffer {
    const content: seq<byte>
    var offset: nat
    var depth: nat

    constructor (value: seq<byte>)
      ensures content == value + [NUL] && offset == 0 && depth == 0
    {
      content, offset, depth := value + [NUL], 0, 0;
    }

    /** The cursor is on a byte of the buffer. */
    ghost predicate Valid()
      reads this
    {
      Terminated(content) && offset < |content| && depth <= NESTING_LIMIT
    }

    /** The cursor stands where parsing from an earlier state ended; after success the depth is what it was. */
    ghost predicate Reached<T>(r: Parsed<T>, before: nat, ok: bool, value: T)
      reads this
    {
      match r
      case Ok(v, next) => ok && value == v && offset == next && depth == before && Valid()
      case Err(pos) => !ok && offset == pos && before <= depth <= NESTING_LIMIT
    }

    method SkipWhitespace()
      requires Valid()
      modifies this`offset
      ensures Valid() && offset == SkipWs(content, old(offset))
    {
      while offset < |content| && content[offset] <= SPACE
        invariant offset <= |content| && WsEnd(content, offset) == WsEnd(content, old(offset))
      {
        offset := offset + 1;
      }
      if offset == |content| {
        offset := offset - 1;
      }
    }

    /** The loop that copies at most 63 number characters aside. */
    method CollectNumber(target: array<byte>) returns (i: nat)
      requires Valid() && target.Length == 64
      modifies target
      ensures i == |Run(content, offset, 63)| && target[..i] == Run(content, offset, 63) && offset + i < |content|
    {
      hide NumberChar, Run;
      i := 0;
      while i < 63 && offset + i < |content| && NumberChar(content[offset + i])
        invariant i <= 63 && offset + i <= |content|
        invariant forall k | 0 <= k < i :: target[k] == content[offset + k] && NumberChar(target[k])
      {
        target[i] := content[offset + i];
        i := i + 1;
      }
      assert target[..i] == content[offset..offset + i];
      RunOfNumber(content, offset, target[..i], 63);
      RunInside(content, offset);
      target[i] := NUL;
    }

    /** `parse_number()`; `strtod` takes from the copied text what it accepts. */
    method ParseNumber(item: Item) returns (ok: bool)
      requires Valid() && item.Blank()
      modifies this`offset, item`kind, item`chars, item`value
      ensures Reached(JsonParse.ParseNumber(content, old(offset)), old(depth), ok, item.value)
      ensures ok ==> item.Valid() && item.Blank()
    {
      hide Run, Accepted, NumberChar, Item.Valid;
      var numberCString := new byte[64];
      var i := CollectNumber(numberCString);
      var number := numberCString[..i];
      var taken := Accepted(number);
      if taken == 0 {
        return false;
      }
      item.SetLeaf(NumberKind, number[..taken]);
      offset := offset + taken;
      ok := true;
    }

    /** The first pass over a string: the closing quote and the number of escapes before it. */
    method MeasureString() returns (ok: bool, end: nat, skipped: nat)
      requires Valid()
      ensures ok <==> ScanEnd(content, offset + 1) < |content|
      ensures ok ==> end == ScanEnd(content, offset + 1) && Scan(content, offset + 1, end) == (end, skipped)
    {
      hide Scan, ScanEnd;
      var start := offset + 1;
      end, skipped := start, 0;
      ScanNothing(content, start);
      while end < |content| && content[end] != QUOTE
        invariant start <= end <= |content|
        invariant ScanEnd(content, start) == ScanEnd(content, end) && Scan(content, start, end) == (end, skipped)
      {
        ScanTurn(content, start, end, skipped);
        if content[end] == BACKSLASH {
          if end + 1 >= |content| {
            return false, end, skipped;
          }
          skipped := skipped + 1;
          end := end + 1;
        }
        end := end + 1;
      }
      ok := end < |content|;
      ScanStopped(content, end);
    }

    /** The second pass: whatever the text, no byte is written outside what the first pass asked for. */
    method DecodeString(start: nat, end: nat, output: array<byte>) returns (ok: bool, written: nat, stopped: nat)
      requires start <= end < |content| && Scan(content, start, end).0 == end
      requires output.Length == Allocation(content, start, end) + 1
      modifies output
      ensures match Decode(content, start, end)
        case Text(bytes) => ok && written == |bytes| < output.Length && output[..written] == bytes && output[written] == NUL
        case BadAt(pos) => !ok && stopped == pos
    {
      hide Allocation, Scan, Budget, ReadLiteral, Utf8, Decode, ShortEscape, Prepend;
      var p := start;
      ok, written := true, 0;
      StartBudget(content, start, end);
      BudgetFits(content, start, p, end, written);
      PrependNothing([], Decode(content, start, end));
      assert output[..0] == [];
      while p < end
        invariant start <= p <= end + 1 && written < output.Length
        invariant Budget(content, start, p, end, written)
        invariant Decode(content, start, end) == Prepend(output[..written], Decode(content, p, end))
      {
        ghost var done := output[..written];
        ghost var added;
        DecodeTurn(content, p, end);
        PrependNothing(done, BadAt(p));
        if content[p] != BACKSLASH {
          BudgetPlain(content, start, p, end, written);
          BudgetFits(content, start, p + 1, end, written + 1);
          added := [content[p]];
          output[written] := content[p];
          p, written := p + 1, written + 1;
        } else if ShortEscape(content[p + 1]) >= 0 {
          BudgetEscape(content, start, p, end, written, 2, 1);
          BudgetFits(content, start, p + 2, end, written + 1);
          added := [ShortEscape(content[p + 1])];
          output[written] := ShortEscape(content[p + 1]);
          p, written := p + 2, written + 1;
        } else if content[p + 1] == LETTER_U {
          ghost var literal := ReadLiteral(content, p, end);
          if literal.Good? {
            BudgetEscape(content, start, p, end, written, literal.length, |Utf8(literal.codepoint)|);
            BudgetFits(content, start, p + literal.length, end, written + |Utf8(literal.codepoint)|);
          }
          var length;
          length, written := Utf16LiteralToUtf8(content, p, end, output, written);
          if length == 0 {
            return false, written, p;
          }
          added := Utf8(literal.codepoint);
          p := p + length;
        } else {
          return false, written, p;
        }
        assert output[..written] == done + added;
        PrependTwice(done, added, Decode(content, p, end));
      }
      DecodeTurn(content, p, end);
      PrependNothing(output[..written], Text([]));
      output[written] := NUL;
      stopped := p;
    }

    /** `parse_string()`: the item becomes the string, in allocated memory that is large enough. */
    method ParseString(item: Item) returns (ok: bool)
      requires Valid() && item.Blank()
      modifies this`offset, item`kind, item`chars, item`value
      ensures Reached(ParseText(content, old(offset)), old(depth), ok, item.value)
      ensures ok ==> item.Valid() && item.Blank() && item.value == String(item.chars)
    {
      hide Item.Valid, CString;
      var start := offset + 1;
      if content[offset] != QUOTE {
        offset := start;
        return false;
      }
      var found, end, skipped := MeasureString();
      if !found {
        offset := start;
        return false;
      }
      var output := new byte[end - offset - skipped + 1];
      var written, stopped;
      ok, written, stopped := DecodeString(start, end, output);
      if !ok {
        offset := stopped;
        return false;
      }
      item.SetLeaf(StringKind, CString(output[..written]));
      offset := end + 1;
    }

    /** Whether `word` stands at the cursor, inside the buffer. */
    predicate StartsWith(word: seq<byte>)
      reads this
    {
      offset + |word| <= |content| && content[offset..offset + |word|] == word
    }

    method ParseValue(item: Item) returns (ok: bool)
      requires Valid() && item.Blank()
      modifies this, item`kind, item`chars, item`child, item`kids, item`repr, item`value
      ensures Reached(JsonParse.ParseValue(content, old(offset), old(depth)), old(depth), ok, item.value)
      ensures ok ==> item.Valid() && item in item.repr && fresh(item.repr - {item})
      decreases |content| - offset, 4
    {
      hide JsonParse.ParseArray, JsonParse.ParseObject, JsonParse.ParseNumber, JsonParse.ParseText, Item.Valid;
      if StartsWith(NULL_TEXT) {
        WordInside(content, offset, NULL_TEXT);
        item.SetLeaf(NullKind, []);
        offset := offset + 4;
        ok := true;
      } else if StartsWith(FALSE_TEXT) {
        WordInside(content, offset, FALSE_TEXT);
        item.SetLeaf(FalseKind, []);
        offset := offset + 5;
        ok := true;
      } else if StartsWith(TRUE_TEXT) {
        WordInside(content, offset, TRUE_TEXT);
        item.SetLeaf(TrueKind, []);
        offset := offset + 4;
        ok := true;
      } else if content[offset] == QUOTE {
        ok := ParseString(item);
      } else if content[offset] == MINUS || Digit(content[offset]) {
        ok := ParseNumber(item);
      } else if content[offset] == OPEN_BRACKET {
        ok := ParseArray(item);
      } else if content[offset] == OPEN_BRACE {
        ok := ParseObject(item);
      } else {
        ok := false;
      }
    }

    /** One turn of the loop of `parse_array()`: a new item, parsed from behind the bracket or comma. */
    method NextItem(head: Item?, last: Item?, ghost kids: seq<Item>, ghost owner: set<Item>, ghost items: seq<Json>)
      returns (ok: bool, newHead: Item?, item: Item)
      requires Valid() && offset + 1 < |content|
      requires Item.Chain(head, kids) && last == Item.At(kids, |kids| - 1) && Item.Brood(ArrayKind, kids, owner, Array(items))
      modifies this, owner`next
      ensures var r := JsonParse.ParseValue(content, SkipWs(content, old(offset) + 1), old(depth));
        if r.Ok? then
          && ok && item.value == r.value && Valid() && depth == old(depth) && offset == SkipWs(content, r.next)
          && Item.Chain(newHead, kids + [item])
          && Item.Brood(ArrayKind, kids + [item], owner + item.repr, Array(items + [item.value]))
          && fresh(item.repr)
        else !ok && offset == r.pos && old(depth) <= depth <= NESTING_LIMIT
      decreases |content| - offset, 0
    {
      hide JsonParse.ParseValue, JsonParse.ParseMember, SkipWs, Item.Valid, Item.Brood, Item.Chain, Item.Set;
      newHead, item := Item.HangNew(ArrayKind, head, last, kids, owner, Array(items));
      offset := offset + 1;
      SkipWhitespace();
      ok := ParseValue(item);
      if ok {
        SkipWhitespace();
        Item.BroodGrows(ArrayKind, kids, owner, Array(items), item);
        InsertAtEnd(Array(items), Member(item.name, item.value));
      }
    }

    /** The loop of `parse_array()`, up to the bracket it ends at. */
    method ReadItems()
      returns (ok: bool, head: Item?, ghost kids: seq<Item>, ghost owner: set<Item>, ghost items: seq<Json>)
      requires Valid() && offset + 1 < |content|
      modifies this
      ensures var r := JsonParse.ParseItems(content, old(offset) + 1, old(depth));
        if r.Ok? then ok && r == Ok(items, offset + 1) && Valid() && depth == old(depth) && old(offset) < offset
        else !ok && offset == r.pos && old(depth) <= depth <= NESTING_LIMIT
      ensures ok ==> Item.Chain(head, kids) && Item.Brood(ArrayKind, kids, owner, Array(items)) && fresh(owner)
      decreases |content| - offset, 2
    {
      hide JsonParse.ParseValue, JsonParse.ParseMember, JsonParse.ParseItems, JsonParse.ParseMembers, SkipWs, Resume,
        Item.Valid, Item.Brood, Item.Chain, Item.Set;
      ghost var first := offset + 1;
      head, kids, owner, items := null, [], {}, [];
      var current: Item? := null;
      Item.BroodEmpty(ArrayKind);
      ResumeNothing(JsonParse.ParseItems(content, first, depth));
      var more := true;
      while more
        invariant old(offset) <= offset && depth == old(depth) && Valid()
        invariant if more then offset + 1 < |content| else old(offset) < offset
        invariant more ==>
          Resume(items, JsonParse.ParseItems(content, offset + 1, depth)) == JsonParse.ParseItems(content, first, depth)
        invariant !more ==>
          JsonParse.ParseItems(content, first, depth) == EndOfList(items, content[offset] == CLOSE_BRACKET, offset)
        invariant Item.Chain(head, kids) && current == Item.At(kids, |kids| - 1)
        invariant Item.Brood(ArrayKind, kids, owner, Array(items)) && fresh(owner)
        decreases |content| - offset, more
      {
        ItemsTurn(content, offset + 1, depth, items);
        ok, head, current := NextItem(head, current, kids, owner, items);
        if !ok {
          return;
        }
        kids, owner, items := kids + [current], owner + current.repr, items + [current.value];
        more := content[offset] == COMMA;
      }
      ok := content[offset] == CLOSE_BRACKET;
    }

    method ParseArray(item: Item) returns (ok: bool)
      requires Valid() && content[offset] == OPEN_BRACKET && item.Blank()
      modifies this, item`kind, item`chars, item`child, item`kids, item`repr, item`value
      ensures Reached(JsonParse.ParseArray(content, old(offset), old(depth)), old(depth), ok, item.value)
      ensures ok ==> item.Valid() && item in item.repr && fresh(item.repr - {item})
      decreases |content| - offset, 3
    {
      hide JsonParse.ParseItems, JsonParse.ParseMembers, SkipWs, Item.Valid, Item.Brood, Item.Chain, Item.Set;
      if depth >= NESTING_LIMIT {
        return false;
      }
      depth := depth + 1;
      offset := offset + 1;
      SkipWhitespace();
      var head: Item? := null;
      ghost var kids: seq<Item>, owner: set<Item>, items: seq<Json> := [], {}, [];
      Item.BroodEmpty(ArrayKind);
      if content[offset] != CLOSE_BRACKET {
        offset := offset - 1;
        ok, head, kids, owner, items := ReadItems();
        if !ok {
          return;
        }
      }
      depth := depth - 1;
      item.SetContainer(ArrayKind, head, kids, owner, Array(items));
      offset := offset + 1;
      ok := true;
    }

    /** Past the brace or comma under the cursor: a name, a colon and a value. */
    method ParseMember(item: Item) returns (ok: bool)
      requires Valid() && offset + 1 < |content| && item.Blank()
      modifies this, item`kind, item`chars, item`name, item`child, item`kids, item`repr, item`value
      ensures Reached(JsonParse.ParseMember(content, old(offset) + 1, old(depth)), old(depth), ok, Member(item.name, item.value))
      ensures ok ==> item.Valid() && item in item.repr && fresh(item.repr - {item})
      decreases |content| - offset, 0
    {
      hide JsonParse.ParseValue, JsonString.ParseString, SkipWs, CString, Item.Valid;
      offset := offset + 1;
      SkipWhitespace();
      ok := ParseString(item);
      if !ok {
        return;
      }
      SkipWhitespace();
      item.name := item.chars;
      item.chars := [];
      if content[offset] != COLON {
        return false;
      }
      offset := offset + 1;
      SkipWhitespace();
      ok := ParseValue(item);
    }

    /** One turn of the loop of `parse_object()`. */
    method NextMember(head: Item?, last: Item?, ghost kids: seq<Item>, ghost owner: set<Item>, ghost members: seq<Member>)
      returns (ok: bool, newHead: Item?, item: Item)
      requires Valid() && offset + 1 < |content|
      requires Item.Chain(head, kids) && last == Item.At(kids, |kids| - 1) && Item.Brood(ObjectKind, kids, owner, Object(members))
      modifies this, owner`next
      ensures var r := JsonParse.ParseMember(content, old(offset) + 1, old(depth));
        if r.Ok? then
          && ok && Member(item.name, item.value) == r.value && Valid() && depth == old(depth) && offset == SkipWs(content, r.next)
          && Item.Chain(newHead, kids + [item])
          && Item.Brood(ObjectKind, kids + [item], owner + item.repr, Object(members + [Member(item.name, item.value)]))
          && fresh(item.repr)
        else !ok && offset == r.pos && old(depth) <= depth <= NESTING_LIMIT
      decreases |content| - offset, 1
    {
      hide JsonParse.ParseValue, JsonParse.ParseMember, SkipWs, Item.Valid, Item.Brood, Item.Chain, Item.Set;
      newHead, item := Item.HangNew(ObjectKind, head, last, kids, owner, Object(members));
      ok := ParseMember(item);
      if ok {
        SkipWhitespace();
        Item.BroodGrows(ObjectKind, kids, owner, Object(members), item);
        InsertAtEnd(Object(members), Member(item.name, item.value));
      }
    }

    /** The loop of `parse_object()`, up to the bracket it ends at. */
    method ReadMembers()
      returns (ok: bool, head: Item?, ghost kids: seq<Item>, ghost owner: set<Item>, ghost members: seq<Member>)
      requires Valid() && offset + 1 < |content|
      modifies this
      ensures var r := JsonParse.ParseMembers(content, old(offset) + 1, old(depth));
        if r.Ok? then ok && r == Ok(members, offset + 1) && Valid() && depth == old(depth) && old(offset) < offset
        else !ok && offset == r.pos && old(depth) <= depth <= NESTING_LIMIT
      ensures ok ==> Item.Chain(head, kids) && Item.Brood(ObjectKind, kids, owner, Object(members)) && fresh(owner)
      decreases |content| - offset, 2
    {
      hide JsonParse.ParseValue, JsonParse.ParseMember, JsonParse.ParseItems, JsonParse.ParseMembers, SkipWs, Resume,
        Item.Valid, Item.Brood, Item.Chain, Item.Set;
      ghost var first := offset + 1;
      head, kids, owner, members := null, [], {}, [];
      var current: Item? := null;
      Item.BroodEmpty(ObjectKind);
      ResumeNothing(JsonParse.ParseMembers(content, first, depth));
      var more := true;
      while more
        invariant old(offset) <= offset && depth == old(depth) && Valid()
        invariant if more then offset + 1 < |content| else old(offset) < offset
        invariant more ==>
          Resume(members, JsonParse.ParseMembers(content, offset + 1, depth)) == JsonParse.ParseMembers(content, first, depth)
        invariant !more ==>
          JsonParse.ParseMembers(content, first, depth) == EndOfList(members, content[offset] == CLOSE_BRACE, offset)
        invariant Item.Chain(head, kids) && current == Item.At(kids, |kids| - 1)
        invariant Item.Brood(ObjectKind, kids, owner, Object(members)) && fresh(owner)
        decreases |content| - offset, more
      {
        MembersTurn(content, offset + 1, depth, members);
        ok, head, current := NextMember(head, current, kids, owner, members);
        if !ok {
          return;
        }
        kids, owner, members := kids + [current], owner + current.repr, members + [Member(current.name, current.value)];
        more := content[offset] == COMMA;
      }
      ok := content[offset] == CLOSE_BRACE;
    }

    method ParseObject(item: Item) returns (ok: bool)
      requires Valid() && content[offset] == OPEN_BRACE && item.Blank()
      modifies this, item`kind, item`chars, item`child, item`kids, item`repr, item`value
      ensures Reached(JsonParse.ParseObject(content, old(offset), old(depth)), old(depth), ok, item.value)
      ensures ok ==> item.Valid() && item in item.repr && fresh(item.repr - {item})
      decreases |content| - offset, 3
    {
      hide JsonParse.ParseItems, JsonParse.ParseMembers, SkipWs, Item.Valid, Item.Brood, Item.Chain, Item.Set;
      if depth >= NESTING_LIMIT {
        return false;
      }
      depth := depth + 1;
      offset := offset + 1;
      SkipWhitespace();
      var head: Item? := null;
      ghost var kids: seq<Item>, owner: set<Item>, members: seq<Member> := [], {}, [];
      Item.BroodEmpty(ObjectKind);
      if content[offset] != CLOSE_BRACE {
        offset := offset - 1;
        ok, head, kids, owner, members := ReadMembers();
        if !ok {
          return;
        }
      }
      depth := depth - 1;
      item.SetContainer(ObjectKind, head, kids, owner, Object(members));
      offset := offset + 1;
      ok := true;
    }

    /** Steps over a byte order mark at the start of the buffer. */
    method SkipUtf8Bom()
      requires Valid() && offset == 0
      modifies this`offset
      ensures Valid() && offset == BomEnd(content)
    {
      if 4 < |content| && StartsWith(BYTE_ORDER_MARK) {
        offset := offset + 3;
      }
    }
  }

  /** `cJSON_ParseWithOpts()`: a new tree and the end of parsing, or NULL and the error position. */
  method ParseWithOpts(value: seq<byte>, requireNullTerminated: bool) returns (item: Item?, end: nat)
    requires NulFree(value)
    ensures match ParseDocument(value, requireNullTerminated)
      case Tree(v, n) => item != null && item.Valid() && fresh(item.repr) && item.Detached() && item.value == v && end == n
      case Failure(n) => item == null && end == n
  {
    hide JsonParse.ParseValue, SkipWs, Item.Valid;
    var buffer := new ParseBuffer(value);
    var root := new Item(NullKind, [], []);
    buffer.SkipUtf8Bom();
    buffer.SkipWhitespace();
    var ok := buffer.ParseValue(root);
    if ok && requireNullTerminated {
      buffer.SkipWhitespace();
      ok := buffer.content[buffer.offset] == NUL;
    }
    if ok {
      return root, buffer.offset;
    }
    return null, if buffer.offset < |buffer.content| then buffer.offset else |buffer.content| - 1;
  }

  lemma ScanNothing(s: seq<byte>, p: nat)
    requires p <= |s|
    ensures Scan(s, p, p) == (p, 0)
  {
  }

  lemma ScanStopped(s: seq<byte>, p: nat)
    requires p <= |s| && (p < |s| ==> s[p] == QUOTE)
    ensures ScanEnd(s, p) == p
  {
  }

  /** One turn of the first pass. */
  lemma ScanTurn(s: seq<byte>, start: nat, p: nat, n: nat)
    requires start <= p < |s| && Scan(s, start, p) == (p, n) && s[p] != QUOTE
    ensures s[p] == BACKSLASH && p + 1 == |s| ==> ScanEnd(s, p) == |s|
    ensures s[p] == BACKSLASH && p + 2 <= |s| ==> ScanEnd(s, p) == ScanEnd(s, p + 2) && Scan(s, start, p + 2) == (p + 2, n + 1)
    ensures s[p] != BACKSLASH ==> ScanEnd(s, p) == ScanEnd(s, p + 1) && Scan(s, start, p + 1) == (p + 1, n)
  {
    if s[p] == BACKSLASH {
      if p + 2 <= |s| {
        ScanNothing(s, p + 2);
        ScanSplit(s, start, p, p + 2);
      }
    } else {
      ScanNothing(s, p + 1);
      ScanSplit(s, start, p, p + 1);
    }
  }

  lemma StartBudget(s: seq<byte>, start: nat, end: nat)
    requires start <= end < |s|
    ensures Budget(s, start, start, end, 0)
  {
  }

  lemma PrependNothing(a: seq<byte>, d: Decoded)
    ensures Prepend([], d) == d && Prepend(a, Text([])) == Text(a)
    ensures d.BadAt? ==> Prepend(a, d) == d
  {
    if d.Text? {
      assert [] + d.bytes == d.bytes;
    }
  }

  lemma PrependTwice(a: seq<byte>, b: seq<byte>, d: Decoded)
    ensures Prepend(a, Prepend(b, d)) == Prepend(a + b, d)
  {
    if d.Text? {
      assert a + (b + d.bytes) == (a + b) + d.bytes;
    }
  }
}
