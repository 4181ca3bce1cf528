/**
 Comparing values.  An object is compared by looking up each name of either side in the other;
 what that amounts to is equality of the abstract values: sequences, and maps from names.
 */
module JsonCompare {
  import opened Ascii
  import opened JsonValue

  /** What `strtod` makes of a number text. */
  type Reading = seq<byte> -> real

  /** `tolower()` in the C locale. */
  function Lower(b: byte): byte {
    if 65 <= b <= 90 then b + 32 else b
  }

  function Folded(t: seq<byte>): (r: seq<byte>)
    ensures |r| == |t| && forall i | 0 <= i < |t| :: r[i] == Lower(t[i])
  {
    if t == [] then [] else [Lower(t[0])] + Folded(t[1..])
  }

  /** The byte at `i` of a C string. */
  function CharAt(t: seq<byte>, i: nat): byte {
    if i < |t| then t[i] else NUL
  }

  /** The difference of the first characters that differ in more than case, ends included; 0 if none do. */
  function Difference(a: seq<byte>, b: seq<byte>): int {
    if Lower(CharAt(a, 0)) != Lower(CharAt(b, 0)) then Lower(CharAt(a, 0)) as int - Lower(CharAt(b, 0)) as int
    else if a == [] || b == [] then 0
    else Difference(a[1..], b[1..])
  }

  lemma {:induction false} NoDifference(a: seq<byte>, b: seq<byte>)
    requires NUL !in a && NUL !in b
    ensures Difference(a, b) == 0 <==> Folded(a) == Folded(b)
  {
    if a != [] {
      assert a[0] in a;
    }
    if b != [] {
      assert b[0] in b;
    }
    if a != [] && b != [] {
      NoDifference(a[1..], b[1..]);
      assert Folded(a)[1..] == Folded(a[1..]) && Folded(b)[1..] == Folded(b[1..]);
    }
  }

  /** Two characters that differ in case at most: a capital letter of the alphabet and its small one. */
  predicate SameLetter(x: byte, y: byte) {
    x == y || (65 <= x <= 90 && y == x + 32) || (65 <= y <= 90 && x == y + 32)
  }

  predicate SameUpToCase(a: seq<byte>, b: seq<byte>) {
    |a| == |b| && forall i | 0 <= i < |a| :: SameLetter(a[i], b[i])
  }

  /** Folding is forgetting case, and nothing else. */
  lemma FoldedExact(a: seq<byte>, b: seq<byte>)
    ensures Folded(a) == Folded(b) <==> SameUpToCase(a, b)
  {
    hide Folded;
    LettersFold();
    if Folded(a) == Folded(b) {
      forall i | 0 <= i < |a| ensures SameLetter(a[i], b[i]) {
        assert Folded(a)[i] == Folded(b)[i];
      }
    }
  }

  lemma LettersFold()
    ensures forall x: byte, y: byte :: Lower(x) == Lower(y) <==> SameLetter(x, y)
  {
  }

  /** The texts are the same up to case before `i`, where they differ in more, and `r` is the difference of the small
      letters there; behind its end a text has the character 0. */
  predicate DifferAt(a: seq<byte>, b: seq<byte>, i: nat, r: int) {
    && i <= |a| && i <= |b| && SameUpToCase(a[..i], b[..i])
    && var x := if i < |a| then a[i] as int else 0;
    && var y := if i < |b| then b[i] as int else 0;
    && x != y && r == (if 65 <= x <= 90 then x + 32 else x) - (if 65 <= y <= 90 then y + 32 else y) != 0
  }

  /** A difference is that of the first characters that differ in more than case. */
  lemma {:induction false} DifferenceExact(a: seq<byte>, b: seq<byte>) returns (i: nat)
    requires NUL !in a && NUL !in b
    ensures SameUpToCase(a, b) || DifferAt(a, b, i, Difference(a, b))
  {
    i := 0;
    if a != [] && b != [] && Lower(a[0]) == Lower(b[0]) {
      assert a[0] in a && b[0] in b;
      var k := DifferenceExact(a[1..], b[1..]);
      LettersFold();
      i := k + 1;
      assert k <= |a[1..]| && k <= |b[1..]| ==> a[..i] == [a[0]] + a[1..][..k] && b[..i] == [b[0]] + b[1..][..k];
    } else if a != [] {
      assert a[0] in a;
    }
    if b != [] {
      assert b[0] in b;
    }
  }

  /** What a `char *` points to, if anything. */
  datatype Pointer = Nowhere | To(chars: seq<byte>)

  /** `case_insensitive_strcmp()`.  One pointer given twice is a text compared with itself. */
  method CaseInsensitiveStrcmp(p: Pointer, q: Pointer) returns (r: int)
    requires (p.To? ==> NUL !in p.chars) && (q.To? ==> NUL !in q.chars)
    ensures p.Nowhere? || q.Nowhere? ==> r == 1
    ensures p.To? && q.To? ==> (r == 0 <==> SameUpToCase(p.chars, q.chars))
    ensures p.To? && q.To? && r != 0 ==> exists i :: DifferAt(p.chars, q.chars, i, r)
  {
    hide Folded, SameUpToCase, DifferAt;
    if p.Nowhere? || q.Nowhere? {
      return 1;
    }
    var string1, string2 := p.chars, q.chars;
    NoDifference(string1, string2);
    FoldedExact(string1, string2);
    ghost var _ := DifferenceExact(string1, string2);
    var i := 0;
    while Lower(CharAt(string1, i)) == Lower(CharAt(string2, i))
      invariant i <= |string1| && i <= |string2|
      invariant Difference(string1[i..], string2[i..]) == Difference(string1, string2)
      decreases |string1| - i
    {
      if CharAt(string1, i) == NUL {
        assert i == |string1| && i == |string2|;
        return 0;
      }
      i := i + 1;
    }
    r := Lower(CharAt(string1, i)) as int - Lower(CharAt(string2, i)) as int;
  }

  /** Names are the same if their keys are. */
  function Key(name: seq<byte>, sensitive: bool): seq<byte> {
    if sensitive then name else Folded(name)
  }

  /** `get_object_item()`: the first member with the name; the length if there is none. */
  function Lookup(members: seq<Member>, name: seq<byte>, sensitive: bool): (i: nat)
    ensures i <= |members|
    ensures i < |members| ==> Key(members[i].name, sensitive) == Key(name, sensitive)
    ensures forall k | 0 <= k < i :: Key(members[k].name, sensitive) != Key(name, sensitive)
  {
    if members == [] || Key(members[0].name, sensitive) == Key(name, sensitive) then 0
    else 1 + Lookup(members[1..], name, sensitive)
  }

  /** Names that count as the same, with or without regard to case. */
  predicate NamesAgree(a: seq<byte>, b: seq<byte>, sensitive: bool) {
    if sensitive then a == b else SameUpToCase(a, b)
  }

  lemma KeyExact(a: seq<byte>, b: seq<byte>, sensitive: bool)
    ensures Key(a, sensitive) == Key(b, sensitive) <==> NamesAgree(a, b, sensitive)
  {
    FoldedExact(a, b);
  }

  /** A lookup finds the first member whose name agrees, or the end. */
  lemma LookupExact(members: seq<Member>, name: seq<byte>, sensitive: bool)
    ensures var i := Lookup(members, name, sensitive);
      && (i < |members| ==> NamesAgree(members[i].name, name, sensitive))
      && forall k | 0 <= k < i :: !NamesAgree(members[k].name, name, sensitive)
  {
    hide Key, Lookup, NamesAgree;
    var i := Lookup(members, name, sensitive);
    if i < |members| {
      KeyExact(members[i].name, name, sensitive);
    }
    forall k | 0 <= k < i ensures !NamesAgree(members[k].name, name, sensitive) {
      KeyExact(members[k].name, name, sensitive);
    }
  }

  lemma LookupIs(members: seq<Member>, i: nat, name: seq<byte>, sensitive: bool)
    requires i <= |members| && (i < |members| ==> NamesAgree(members[i].name, name, sensitive))
    requires forall k | 0 <= k < i :: !NamesAgree(members[k].name, name, sensitive)
    ensures Lookup(members, name, sensitive) == i
  {
    hide NamesAgree, Lookup;
    LookupExact(members, name, sensitive);
  }

  /** The names are C strings, at every level. */
  predicate CStringNames(v: Json)
    decreases v
  {
    match v
    case Array(items) => forall i | 0 <= i < |items| :: CStringNames(items[i])
    case Object(members) => forall i | 0 <= i < |members| :: NUL !in members[i].name && CStringNames(members[i].value)
    case _ => true
  }

  lemma NestingBounds(items: seq<Json>, members: seq<Member>)
    ensures forall i | 0 <= i < |items| :: Nesting(items[i]) <= NestingOfItems(items)
    ensures forall i | 0 <= i < |members| :: Nesting(members[i].value) <= NestingOfMembers(members)
    decreases |items| + |members|
  {
    if items != [] {
      NestingBounds(items[1..], []);
      forall i | 0 <= i < |items| ensures Nesting(items[i]) <= NestingOfItems(items) {
        assert i > 0 ==> items[i] == items[1..][i - 1];
      }
    }
    if members != [] {
      NestingBounds([], members[1..]);
      forall i | 0 <= i < |members| ensures Nesting(members[i].value) <= NestingOfMembers(members) {
        assert i > 0 ==> members[i] == members[1..][i - 1];
      }
    }
  }

  /** `cJSON_Compare()` on values. */
  predicate Equal(a: Json, b: Json, sensitive: bool, read: Reading)
    decreases Nesting(a) + Nesting(b), 0
  {
    match (a, b)
    case (Null, Null) => true
    case (False, False) => true
    case (True, True) => true
    case (Number(s), Number(t)) => read(s) == read(t)
    case (String(s), String(t)) => s == t
    case (Array(xs), Array(ys)) =>
      NestingBounds(xs, []);
      NestingBounds(ys, []);
      |xs| == |ys| && forall i | 0 <= i < |xs| :: Equal(xs[i], ys[i], sensitive, read)
    case (Object(xs), Object(ys)) => Covers(xs, ys, sensitive, read) && Covers(ys, xs, sensitive, read)
    case _ => false
  }

  /** Every member of `xs` equals the one that its name finds in `ys`. */
  predicate Covers(xs: seq<Member>, ys: seq<Member>, sensitive: bool, read: Reading)
    decreases NestingOfMembers(xs) + NestingOfMembers(ys), 2
  {
    NestingBounds([], xs);
    forall i | 0 <= i < |xs| :: Finds(ys, xs[i], sensitive, read)
  }

  predicate Finds(ys: seq<Member>, m: Member, sensitive: bool, read: Reading)
    decreases Nesting(m.value) + NestingOfMembers(ys), 1
  {
    NestingBounds([], ys);
    var j := Lookup(ys, m.name, sensitive);
    j < |ys| && Equal(m.value, ys[j].value, sensitive, read)
  }

  // ----- abstract values -----

  datatype Abstract =
    | Word(which: Json)
    | Amount(number: real)
    | Chars(chars: seq<byte>)
    | List(elements: seq<Abstract>)
    | Table(entries: map<seq<byte>, Abstract>)

  /** The abstract value; of members with the same name the first counts. */
  function Abs(v: Json, sensitive: bool, read: Reading): Abstract
    decreases v
  {
    match v
    case Number(text) => Amount(read(text))
    case String(chars) => Chars(chars)
    case Array(items) => List(AbsItems(items, sensitive, read))
    case Object(members) => Table(AbsMembers(members, sensitive, read))
    case _ => Word(v)
  }

  function AbsItems(items: seq<Json>, sensitive: bool, read: Reading): (r: seq<Abstract>)
    ensures |r| == |items| && forall i | 0 <= i < |items| :: r[i] == Abs(items[i], sensitive, read)
    decreases items
  {
    if items == [] then [] else [Abs(items[0], sensitive, read)] + AbsItems(items[1..], sensitive, read)
  }

  function AbsMembers(members: seq<Member>, sensitive: bool, read: Reading): map<seq<byte>, Abstract>
    decreases members
  {
    if members == [] then map[]
    else AbsMembers(members[1..], sensitive, read)[Key(members[0].name, sensitive) := Abs(members[0].value, sensitive, read)]
  }

  /** Members with the same name have the same value, at every level. */
  predicate Consistent(v: Json, sensitive: bool, read: Reading)
    decreases v
  {
    match v
    case Array(items) => forall i | 0 <= i < |items| :: Consistent(items[i], sensitive, read)
    case Object(members) =>
      forall i | 0 <= i < |members| ::
        && Consistent(members[i].value, sensitive, read)
        && Abs(members[i].value, sensitive, read)
           == Abs(members[Lookup(members, members[i].name, sensitive)].value, sensitive, read)
    case _ => true
  }

  /** The map of an object is what looking names up finds. */
  lemma {:induction false} TableIsLookup(members: seq<Member>, name: seq<byte>, sensitive: bool, read: Reading)
    ensures var i, m, k := Lookup(members, name, sensitive), AbsMembers(members, sensitive, read), Key(name, sensitive);
      && (k in m <==> i < |members|)
      && (i < |members| ==> m[k] == Abs(members[i].value, sensitive, read))
    decreases |members|
  {
    if members != [] && Key(members[0].name, sensitive) != Key(name, sensitive) {
      TableIsLookup(members[1..], name, sensitive, read);
    }
  }

  lemma {:induction false} TableKeys(members: seq<Member>, k: seq<byte>, sensitive: bool, read: Reading) returns (i: nat)
    requires k in AbsMembers(members, sensitive, read)
    ensures i < |members| && Key(members[i].name, sensitive) == k
    decreases |members|
  {
    if Key(members[0].name, sensitive) == k {
      i := 0;
    } else {
      i := TableKeys(members[1..], k, sensitive, read);
      i := i + 1;
    }
  }

  /** Two values compare equal if and only if both are consistent and they have the same abstract value. */
  lemma {:induction false} CompareExact(a: Json, b: Json, sensitive: bool, read: Reading)
    ensures Equal(a, b, sensitive, read) <==>
      Consistent(a, sensitive, read) && Consistent(b, sensitive, read) && Abs(a, sensitive, read) == Abs(b, sensitive, read)
    decreases Nesting(a) + Nesting(b), 0
  {
    match (a, b)
    case (Array(xs), Array(ys)) => ItemsExact(xs, ys, sensitive, read);
    case (Object(xs), Object(ys)) => MembersExact(xs, ys, sensitive, read);
    case _ =>
  }

  lemma {:induction false} ItemsExact(xs: seq<Json>, ys: seq<Json>, sensitive: bool, read: Reading)
    ensures Equal(Array(xs), Array(ys), sensitive, read) <==>
      && Consistent(Array(xs), sensitive, read) && Consistent(Array(ys), sensitive, read)
      && AbsItems(xs, sensitive, read) == AbsItems(ys, sensitive, read)
    decreases NestingOfItems(xs) + NestingOfItems(ys), 1
  {
    NestingBounds(xs, []);
    NestingBounds(ys, []);
    var p, q := AbsItems(xs, sensitive, read), AbsItems(ys, sensitive, read);
    if |xs| == |ys| {
      forall i | 0 <= i < |xs|
        ensures Equal(xs[i], ys[i], sensitive, read) <==>
          Consistent(xs[i], sensitive, read) && Consistent(ys[i], sensitive, read) && p[i] == q[i]
      {
        CompareExact(xs[i], ys[i], sensitive, read);
      }
    }
  }

  ghost predicate SameUnder(xs: seq<Member>, ys: seq<Member>, i: nat, sensitive: bool, read: Reading)
    requires i < |xs|
  {
    var j := Lookup(ys, xs[i].name, sensitive);
    && j < |ys| && Consistent(xs[i].value, sensitive, read) && Consistent(ys[j].value, sensitive, read)
    && Abs(xs[i].value, sensitive, read) == Abs(ys[j].value, sensitive, read)
  }

  lemma {:induction false} CoversExact(xs: seq<Member>, ys: seq<Member>, sensitive: bool, read: Reading)
    ensures Covers(xs, ys, sensitive, read) <==> forall i | 0 <= i < |xs| :: SameUnder(xs, ys, i, sensitive, read)
    decreases NestingOfMembers(xs) + NestingOfMembers(ys), 1
  {
    hide Equal, Abs, Consistent, Lookup;
    NestingBounds([], xs);
    NestingBounds([], ys);
    forall i | 0 <= i < |xs| ensures SameUnder(xs, ys, i, sensitive, read) <==> Finds(ys, xs[i], sensitive, read) {
      var j := Lookup(ys, xs[i].name, sensitive);
      if j < |ys| {
        CompareExact(xs[i].value, ys[j].value, sensitive, read);
      }
    }
  }

  lemma {:induction false} MembersExact(xs: seq<Member>, ys: seq<Member>, sensitive: bool, read: Reading)
    ensures Equal(Object(xs), Object(ys), sensitive, read) <==>
      && Consistent(Object(xs), sensitive, read) && Consistent(Object(ys), sensitive, read)
      && AbsMembers(xs, sensitive, read) == AbsMembers(ys, sensitive, read)
    decreases NestingOfMembers(xs) + NestingOfMembers(ys), 2
  {
    CoversExact(xs, ys, sensitive, read);
    CoversExact(ys, xs, sensitive, read);
    EqualUnfold(xs, ys, sensitive, read);
    hide Equal, Covers;
    if Equal(Object(xs), Object(ys), sensitive, read) {
      SameTables(xs, ys, sensitive, read);
    }
    if
      && Consistent(Object(xs), sensitive, read) && Consistent(Object(ys), sensitive, read)
      && AbsMembers(xs, sensitive, read) == AbsMembers(ys, sensitive, read)
    {
      TablesCover(xs, ys, sensitive, read);
      TablesCover(ys, xs, sensitive, read);
    }
  }

  lemma EqualUnfold(xs: seq<Member>, ys: seq<Member>, sensitive: bool, read: Reading)
    ensures Equal(Object(xs), Object(ys), sensitive, read) <==> Covers(xs, ys, sensitive, read) && Covers(ys, xs, sensitive, read)
  {
  }

  /** Lookups depend on keys only. */
  lemma {:induction false} LookupByKey(ms: seq<Member>, s: seq<byte>, t: seq<byte>, sensitive: bool)
    requires Key(s, sensitive) == Key(t, sensitive)
    ensures Lookup(ms, s, sensitive) == Lookup(ms, t, sensitive)
  {
    if ms != [] {
      LookupByKey(ms[1..], s, t, sensitive);
    }
  }

  lemma LookupSelf(ms: seq<Member>, i: nat, sensitive: bool)
    requires i < |ms|
    ensures Lookup(ms, ms[i].name, sensitive) <= i
  {
  }

  lemma HalfConsistent(xs: seq<Member>, ys: seq<Member>, sensitive: bool, read: Reading)
    requires forall i | 0 <= i < |xs| :: SameUnder(xs, ys, i, sensitive, read)
    ensures Consistent(Object(xs), sensitive, read)
  {
    forall i | 0 <= i < |xs|
      ensures Consistent(xs[i].value, sensitive, read)
      ensures var k := Lookup(xs, xs[i].name, sensitive);
        k < |xs| && Abs(xs[i].value, sensitive, read) == Abs(xs[k].value, sensitive, read)
    {
      hide Abs, Consistent, Lookup, Key;
      LookupSelf(xs, i, sensitive);
      var k := Lookup(xs, xs[i].name, sensitive);
      assert SameUnder(xs, ys, i, sensitive, read) && SameUnder(xs, ys, k, sensitive, read);
      LookupByKey(ys, xs[i].name, xs[k].name, sensitive);
    }
  }

  lemma SameTables(xs: seq<Member>, ys: seq<Member>, sensitive: bool, read: Reading)
    requires forall i | 0 <= i < |xs| :: SameUnder(xs, ys, i, sensitive, read)
    requires forall i | 0 <= i < |ys| :: SameUnder(ys, xs, i, sensitive, read)
    ensures Consistent(Object(xs), sensitive, read) && Consistent(Object(ys), sensitive, read)
    ensures AbsMembers(xs, sensitive, read) == AbsMembers(ys, sensitive, read)
  {
    HalfConsistent(xs, ys, sensitive, read);
    HalfConsistent(ys, xs, sensitive, read);
    hide Abs, Consistent, Lookup, Key, AbsMembers, SameUnder;
    var p, q := AbsMembers(xs, sensitive, read), AbsMembers(ys, sensitive, read);
    forall k | k in p ensures k in q && p[k] == q[k] {
      HalfTable(xs, ys, k, sensitive, read);
    }
    forall k | k in q ensures k in p {
      HalfTable(ys, xs, k, sensitive, read);
    }
  }

  lemma HalfTable(xs: seq<Member>, ys: seq<Member>, k: seq<byte>, sensitive: bool, read: Reading)
    requires forall i | 0 <= i < |xs| :: SameUnder(xs, ys, i, sensitive, read)
    requires k in AbsMembers(xs, sensitive, read)
    ensures k in AbsMembers(ys, sensitive, read)
    ensures AbsMembers(xs, sensitive, read)[k] == AbsMembers(ys, sensitive, read)[k]
  {
    hide Abs, Consistent, Lookup, Key, AbsMembers;
    var i := TableKeys(xs, k, sensitive, read);
    var name := xs[i].name;
    LookupSelf(xs, i, sensitive);
    TableIsLookup(xs, name, sensitive, read);
    TableIsLookup(ys, name, sensitive, read);
    var first := Lookup(xs, name, sensitive);
    assert SameUnder(xs, ys, first, sensitive, read);
    LookupByKey(ys, name, xs[first].name, sensitive);
  }

  lemma TablesCover(xs: seq<Member>, ys: seq<Member>, sensitive: bool, read: Reading)
    requires Consistent(Object(xs), sensitive, read) && Consistent(Object(ys), sensitive, read)
    requires AbsMembers(xs, sensitive, read) == AbsMembers(ys, sensitive, read)
    ensures forall i | 0 <= i < |xs| :: SameUnder(xs, ys, i, sensitive, read)
  {
    hide Abs, Lookup, Key, AbsMembers;
    forall i | 0 <= i < |xs| ensures SameUnder(xs, ys, i, sensitive, read) {
      TableIsLookup(xs, xs[i].name, sensitive, read);
      TableIsLookup(ys, xs[i].name, sensitive, read);
      LookupSelf(xs, i, sensitive);
    }
  }

  // ----- values that agree, whether they equal themselves or not -----

  /** The name of `m` finds in `ys` a value with the same abstract value. */
  ghost predicate Agrees(ys: seq<Member>, m: Member, sensitive: bool, read: Reading) {
    var j := Lookup(ys, m.name, sensitive);
    j < |ys| && Abs(m.value, sensitive, read) == Abs(ys[j].value, sensitive, read)
  }

  lemma AgreeingTables(xs: seq<Member>, ys: seq<Member>, sensitive: bool, read: Reading)
    requires forall i | 0 <= i < |xs| :: Agrees(ys, xs[i], sensitive, read)
    requires forall i | 0 <= i < |ys| :: Agrees(xs, ys[i], sensitive, read)
    ensures AbsMembers(xs, sensitive, read) == AbsMembers(ys, sensitive, read)
  {
    hide Abs, Lookup, Key, AbsMembers, Agrees;
    var p, q := AbsMembers(xs, sensitive, read), AbsMembers(ys, sensitive, read);
    forall k | k in p ensures k in q && p[k] == q[k] {
      AgreeingEntry(xs, ys, k, sensitive, read);
    }
    forall k | k in q ensures k in p {
      AgreeingEntry(ys, xs, k, sensitive, read);
    }
  }

  lemma AgreeingEntry(xs: seq<Member>, ys: seq<Member>, k: seq<byte>, sensitive: bool, read: Reading)
    requires forall i | 0 <= i < |xs| :: Agrees(ys, xs[i], sensitive, read)
    requires k in AbsMembers(xs, sensitive, read)
    ensures k in AbsMembers(ys, sensitive, read)
    ensures AbsMembers(xs, sensitive, read)[k] == AbsMembers(ys, sensitive, read)[k]
  {
    hide Abs, Lookup, Key, AbsMembers;
    var i := TableKeys(xs, k, sensitive, read);
    var name := xs[i].name;
    LookupSelf(xs, i, sensitive);
    TableIsLookup(xs, name, sensitive, read);
    TableIsLookup(ys, name, sensitive, read);
    var first := Lookup(xs, name, sensitive);
    assert Agrees(ys, xs[first], sensitive, read);
    LookupByKey(ys, name, xs[first].name, sensitive);
  }

  // ----- what follows -----

  /** No two members of an object have the same name, at any level. */
  predicate NoDuplicates(v: Json, sensitive: bool)
    decreases v
  {
    match v
    case Array(items) => forall i | 0 <= i < |items| :: NoDuplicates(items[i], sensitive)
    case Object(members) =>
      && (forall i, j | 0 <= i < j < |members| :: Key(members[i].name, sensitive) != Key(members[j].name, sensitive))
      && forall i | 0 <= i < |members| :: NoDuplicates(members[i].value, sensitive)
    case _ => true
  }

  lemma {:induction false} NoDuplicatesConsistent(v: Json, sensitive: bool, read: Reading)
    requires NoDuplicates(v, sensitive)
    ensures Consistent(v, sensitive, read)
    decreases v
  {
    match v
    case Array(items) =>
      forall i | 0 <= i < |items| ensures Consistent(items[i], sensitive, read) {
        NoDuplicatesConsistent(items[i], sensitive, read);
      }
    case Object(members) =>
      forall i | 0 <= i < |members|
        ensures Consistent(members[i].value, sensitive, read) && Lookup(members, members[i].name, sensitive) == i
      {
        NoDuplicatesConsistent(members[i].value, sensitive, read);
        LookupSelf(members, i, sensitive);
      }
    case _ =>
  }

  /** Without duplicate names, comparing is deciding equality of the abstract values. */
  lemma CompareIsEquality(a: Json, b: Json, sensitive: bool, read: Reading)
    requires NoDuplicates(a, sensitive) && NoDuplicates(b, sensitive)
    ensures Equal(a, b, sensitive, read) <==> Abs(a, sensitive, read) == Abs(b, sensitive, read)
  {
    NoDuplicatesConsistent(a, sensitive, read);
    NoDuplicatesConsistent(b, sensitive, read);
    CompareExact(a, b, sensitive, read);
  }

  /** Symmetric and transitive on all values; reflexive on the consistent ones and on no others. */
  lemma CompareIsEquivalence(a: Json, b: Json, c: Json, sensitive: bool, read: Reading)
    ensures Equal(a, a, sensitive, read) <==> Consistent(a, sensitive, read)
    ensures Equal(a, b, sensitive, read) ==> Equal(b, a, sensitive, read)
    ensures Equal(a, b, sensitive, read) && Equal(b, c, sensitive, read) ==> Equal(a, c, sensitive, read)
  {
    hide Equal, Consistent, Abs;
    CompareExact(a, a, sensitive, read);
    CompareExact(a, b, sensitive, read);
    CompareExact(b, a, sensitive, read);
    CompareExact(b, c, sensitive, read);
    CompareExact(a, c, sensitive, read);
  }

  /** An object with two different members of one name does not equal even itself. */
  lemma DuplicatesBreakReflexivity(read: Reading)
    ensures var v := Object([Member([97], Null), Member([97], True)]); !Equal(v, v, true, read)
  {
    var ms := [Member([97], Null), Member([97], True)];
    CompareIsEquivalence(Object(ms), Object(ms), Object(ms), true, read);
    LookupSelf(ms, 0, true);
    LookupByKey(ms, ms[1].name, ms[0].name, true);
    assert Lookup(ms, ms[1].name, true) == 0;
    assert Abs(ms[1].value, true, read) != Abs(ms[0].value, true, read);
  }

  /** The order of members makes no difference: an object equals its rearrangements exactly if it equals itself, that
      is, if it is consistent; and then they all are. */
  lemma OrderIrrelevant(xs: seq<Member>, ys: seq<Member>, sensitive: bool, read: Reading)
    requires multiset(xs) == multiset(ys)
    ensures Equal(Object(xs), Object(ys), sensitive, read) <==> Consistent(Object(xs), sensitive, read)
    ensures Consistent(Object(xs), sensitive, read) <==> Consistent(Object(ys), sensitive, read)
  {
    hide Equal, Abs, Consistent, SameUnder;
    MembersExact(xs, ys, sensitive, read);
    if Consistent(Object(xs), sensitive, read) {
      EachReordered(xs, ys, sensitive, read);
      SameTables(xs, ys, sensitive, read);
    }
    if Consistent(Object(ys), sensitive, read) {
      EachReordered(ys, xs, sensitive, read);
      SameTables(xs, ys, sensitive, read);
    }
  }

  lemma EachReordered(xs: seq<Member>, ys: seq<Member>, sensitive: bool, read: Reading)
    requires Consistent(Object(xs), sensitive, read) && multiset(xs) == multiset(ys)
    ensures forall i | 0 <= i < |xs| :: SameUnder(xs, ys, i, sensitive, read)
    ensures forall i | 0 <= i < |ys| :: SameUnder(ys, xs, i, sensitive, read)
  {
    hide SameUnder, Consistent;
    forall i | 0 <= i < |xs| ensures SameUnder(xs, ys, i, sensitive, read) {
      OneReordered(xs, ys, i, sensitive, read);
    }
    forall i | 0 <= i < |ys| ensures SameUnder(ys, xs, i, sensitive, read) {
      OneReturned(xs, ys, i, sensitive, read);
    }
  }

  lemma Elsewhere(ys: seq<Member>, xs: seq<Member>, i: nat) returns (m: nat)
    requires i < |ys| && multiset(xs) == multiset(ys)
    ensures m < |xs| && xs[m] == ys[i]
  {
    assert ys[i] in multiset(ys);
    assert ys[i] in xs;
    m :| m < |xs| && xs[m] == ys[i];
  }

  /** In a consistent object all members of one name have one consistent value. */
  lemma SameName(xs: seq<Member>, i: nat, m: nat, sensitive: bool, read: Reading)
    requires Consistent(Object(xs), sensitive, read) && i < |xs| && m < |xs|
    ensures Key(xs[i].name, sensitive) == Key(xs[m].name, sensitive) ==>
      var k := Lookup(xs, xs[i].name, sensitive);
      && k < |xs| && Consistent(xs[k].value, sensitive, read) && Consistent(xs[m].value, sensitive, read)
      && Abs(xs[m].value, sensitive, read) == Abs(xs[i].value, sensitive, read) == Abs(xs[k].value, sensitive, read)
  {
    hide Abs, Key, Lookup;
    LookupSelf(xs, i, sensitive);
    if Key(xs[i].name, sensitive) == Key(xs[m].name, sensitive) {
      LookupByKey(xs, xs[i].name, xs[m].name, sensitive);
    }
  }

  lemma OneReordered(xs: seq<Member>, ys: seq<Member>, i: nat, sensitive: bool, read: Reading)
    requires Consistent(Object(xs), sensitive, read) && multiset(xs) == multiset(ys) && i < |xs|
    ensures SameUnder(xs, ys, i, sensitive, read)
  {
    hide Abs, Key, Lookup, Consistent;
    var j := Elsewhere(xs, ys, i);
    LookupSelf(ys, j, sensitive);
    var k := Lookup(ys, xs[i].name, sensitive);
    var m := Elsewhere(ys, xs, k);
    SameName(xs, i, m, sensitive, read);
    SameName(xs, i, i, sensitive, read);
  }

  lemma OneReturned(xs: seq<Member>, ys: seq<Member>, i: nat, sensitive: bool, read: Reading)
    requires Consistent(Object(xs), sensitive, read) && multiset(xs) == multiset(ys) && i < |ys|
    ensures SameUnder(ys, xs, i, sensitive, read)
  {
    hide Abs, Key, Lookup, Consistent;
    var m := Elsewhere(ys, xs, i);
    SameName(xs, m, m, sensitive, read);
  }
}
