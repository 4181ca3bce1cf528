/**
 The recursive-descent parser as a function of the text, the position and the nesting depth:
 the value and the position after it, or the position at which parsing stopped.
 */
module JsonParse {
  import opened Ascii
  import opened JsonValue
  import opened JsonString
  import opened JsonNumber

  /** The buffer ends in a NUL, as that of a C string does. */
  predicate Terminated(s: seq<byte>) {
    s != [] && s[|s| - 1] == NUL
  }

  /** The first position from `o` on that holds no white space (nothing up to 32, NUL included). */
  function WsEnd(s: seq<byte>, o: nat): (e: nat)
    requires o <= |s|
    ensures o <= e <= |s|
    ensures e < |s| ==> s[e] > SPACE
    ensures forall i | o <= i < e :: s[i] <= SPACE
    decreases |s| - o
  {
    if o < |s| && s[o] <= SPACE then WsEnd(s, o + 1) else o
  }

  /** `buffer_skip_whitespace()`: at the end of the buffer it steps back onto the last byte. */
  function SkipWs(s: seq<byte>, o: nat): (e: nat)
    requires o < |s|
    ensures o <= e < |s|
  {
    if WsEnd(s, o) == |s| then |s| - 1 else WsEnd(s, o)
  }

  function ParseNumber(s: seq<byte>, o: nat): (r: Parsed<Json>)
    requires Terminated(s) && o < |s|
    ensures r.Ok? ==> o < r.next < |s|
    ensures r.Err? ==> r.pos == o
  {
    RunInside(s, o);
    var run := Run(s, o, 63);
    var n := Accepted(run);
    if n == 0 then Err(o) else Ok(Number(run[..n]), o + n)
  }

  lemma RunInside(s: seq<byte>, o: nat)
    requires Terminated(s) && o < |s|
    ensures o + |Run(s, o, 63)| < |s|
  {
    assert !NumberChar(s[|s| - 1]);
  }

  /** The three words. */
  function ParseWord(s: seq<byte>, o: nat): (r: Parsed<Json>)
    requires Terminated(s) && o < |s|
    ensures r.Ok? ==> o < r.next < |s|
    ensures r.Err? ==> r.pos == o
  {
    if At(s, o, NULL_TEXT) then WordInside(s, o, NULL_TEXT); Ok(Null, o + 4)
    else if At(s, o, FALSE_TEXT) then WordInside(s, o, FALSE_TEXT); Ok(False, o + 5)
    else if At(s, o, TRUE_TEXT) then WordInside(s, o, TRUE_TEXT); Ok(True, o + 4)
    else Err(o)
  }

  /** A string as a value. */
  function ParseText(s: seq<byte>, o: nat): (r: Parsed<Json>)
    requires Terminated(s) && o < |s|
    ensures r.Ok? ==> o < r.next < |s|
    ensures r.Err? ==> r.pos <= |s|
  {
    match ParseString(s, o)
    case Ok(bytes, next) => Ok(String(CString(bytes)), next)
    case Err(pos) => Err(pos)
  }

  function ParseValue(s: seq<byte>, o: nat, depth: nat): (r: Parsed<Json>)
    requires Terminated(s) && o < |s| && depth <= NESTING_LIMIT
    ensures r.Ok? ==> o < r.next < |s|
    ensures r.Err? ==> r.pos <= |s|
    decreases |s| - o, 1
  {
    if ParseWord(s, o).Ok? then ParseWord(s, o)
    else if s[o] == QUOTE then ParseText(s, o)
    else if s[o] == MINUS || Digit(s[o]) then ParseNumber(s, o)
    else if s[o] == OPEN_BRACKET then ParseArray(s, o, depth)
    else if s[o] == OPEN_BRACE then ParseObject(s, o, depth)
    else Err(o)
  }

  function ParseArray(s: seq<byte>, o: nat, depth: nat): (r: Parsed<Json>)
    requires Terminated(s) && o < |s| && depth <= NESTING_LIMIT && s[o] == OPEN_BRACKET
    ensures r.Ok? ==> o < r.next < |s|
    ensures r.Err? ==> r.pos <= |s|
    decreases |s| - o, 0
  {
    if depth >= NESTING_LIMIT then Err(o)
    else
      var q := SkipWs(s, o + 1);
      if s[q] == CLOSE_BRACKET then Ok(Array([]), q + 1)
      else match ParseItems(s, q, depth + 1)
        case Ok(items, next) => Ok(Array(items), next)
        case Err(pos) => Err(pos)
  }

  function ParseObject(s: seq<byte>, o: nat, depth: nat): (r: Parsed<Json>)
    requires Terminated(s) && o < |s| && depth <= NESTING_LIMIT && s[o] == OPEN_BRACE
    ensures r.Ok? ==> o < r.next < |s|
    ensures r.Err? ==> r.pos <= |s|
    decreases |s| - o, 0
  {
    if depth >= NESTING_LIMIT then Err(o)
    else
      var q := SkipWs(s, o + 1);
      if s[q] == CLOSE_BRACE then Ok(Object([]), q + 1)
      else match ParseMembers(s, q, depth + 1)
        case Ok(members, next) => Ok(Object(members), next)
        case Err(pos) => Err(pos)
  }

  /** The loop of `parse_array()`, from the position after the bracket or a comma. */
  function ParseItems(s: seq<byte>, q: nat, depth: nat): (r: Parsed<seq<Json>>)
    requires Terminated(s) && q < |s| && depth <= NESTING_LIMIT
    ensures r.Ok? ==> q < r.next < |s| && r.value != []
    ensures r.Err? ==> r.pos <= |s|
    decreases |s| - q, 2
  {
    match ParseValue(s, SkipWs(s, q), depth)
    case Err(pos) => Err(pos)
    case Ok(v, next) =>
      var n := SkipWs(s, next);
      if s[n] == COMMA then
        match ParseItems(s, n + 1, depth)
        case Err(pos) => Err(pos)
        case Ok(rest, end) => Ok([v] + rest, end)
      else if s[n] == CLOSE_BRACKET then Ok([v], n + 1)
      else Err(n)
  }

  /** The loop of `parse_object()`. */
  function ParseMembers(s: seq<byte>, q: nat, depth: nat): (r: Parsed<seq<Member>>)
    requires Terminated(s) && q < |s| && depth <= NESTING_LIMIT
    ensures r.Ok? ==> q < r.next < |s| && r.value != []
    ensures r.Err? ==> r.pos <= |s|
    decreases |s| - q, 2
  {
    match ParseMember(s, q, depth)
    case Err(pos) => Err(pos)
    case Ok(m, next) =>
      var n := SkipWs(s, next);
      if s[n] == COMMA then
        match ParseMembers(s, n + 1, depth)
        case Err(pos) => Err(pos)
        case Ok(rest, end) => Ok([m] + rest, end)
      else if s[n] == CLOSE_BRACE then Ok([m], n + 1)
      else Err(n)
  }

  /** What one turn of that loop reads: a name, a colon and a value. */
  function ParseMember(s: seq<byte>, q: nat, depth: nat): (r: Parsed<Member>)
    requires Terminated(s) && q < |s| && depth <= NESTING_LIMIT
    ensures r.Ok? ==> q < r.next < |s|
    ensures r.Err? ==> r.pos <= |s|
    decreases |s| - q, 1
  {
    match ParseString(s, SkipWs(s, q))
    case Err(pos) => Err(pos)
    case Ok(name, next) =>
      var c := SkipWs(s, next);
      if s[c] != COLON then Err(c)
      else match ParseValue(s, SkipWs(s, c + 1), depth)
        case Err(pos) => Err(pos)
        case Ok(v, end) => Ok(Member(CString(name), v), end)
  }

  /** A word that does not end in NUL stands before the end of the buffer. */
  lemma WordInside(s: seq<byte>, o: nat, t: seq<byte>)
    requires Terminated(s) && At(s, o, t) && t != [] && t[|t| - 1] != NUL
    ensures o + |t| < |s|
  {
    AtIndex(s, o, t);
  }
}
