/**
 The tree on the heap: items chained to their siblings by `next` and `prev`, and to the first
 of their children by `child`.  An item with all that hangs below it stands for a value.
 */
module JsonTree {
  import opened Ascii
  import opened JsonValue
  import opened JsonCompare

  datatype Kind = NullKind | FalseKind | TrueKind | NumberKind | StringKind | ArrayKind | ObjectKind

  // What list edits do to the value of an array or object.

  predicate Container(v: Json) {
    v.Array? || v.Object?
  }

  function Width(v: Json): nat {
    match v
    case Array(items) => |items|
    case Object(members) => |members|
    case _ => 0
  }

  function InsertAt(v: Json, i: nat, m: Member): (r: Json)
    requires Container(v) && i <= Width(v)
    ensures Container(r) && Width(r) == Width(v) + 1
  {
    match v
    case Array(items) => Array(items[..i] + [m.value] + items[i..])
    case Object(members) => Object(members[..i] + [m] + members[i..])
  }

  lemma InsertAtEnd(v: Json, m: Member)
    requires Container(v)
    ensures v.Array? ==> InsertAt(v, Width(v), m) == Array(v.items + [m.value])
    ensures v.Object? ==> InsertAt(v, Width(v), m) == Object(v.members + [m])
  {
    if v.Array? {
      assert v.items[..|v.items|] + [m.value] + v.items[|v.items|..] == v.items + [m.value];
    } else {
      assert v.members[..|v.members|] + [m] + v.members[|v.members|..] == v.members + [m];
    }
  }

  function RemoveAt(v: Json, i: nat): (r: Json)
    requires Container(v) && i < Width(v)
    ensures Container(r) && Width(r) == Width(v) - 1
  {
    match v
    case Array(items) => Array(items[..i] + items[i + 1..])
    case Object(members) => Object(members[..i] + members[i + 1..])
  }

  /** A value with only its first `n` elements. */
  function Prefix(v: Json, n: nat): Json
    requires n <= Width(v)
  {
    match v
    case Array(items) => Array(items[..n])
    case Object(members) => Object(members[..n])
    case _ => v
  }

  function Element(v: Json, i: nat): Member
    requires i < Width(v)
  {
    if v.Array? then Member([], v.items[i]) else v.members[i]
  }

  lemma PrefixGrows(v: Json, i: nat, m: Member)
    requires i < Width(v) && m.value == Element(v, i).value && (v.Object? ==> m == Element(v, i))
    ensures Container(Prefix(v, i)) && Width(Prefix(v, i)) == i
    ensures InsertAt(Prefix(v, i), i, m) == Prefix(v, i + 1)
  {
    if v.Array? {
      assert v.items[..i + 1] == v.items[..i] + [v.items[i]] + [];
    } else {
      assert v.members[..i + 1] == v.members[..i] + [v.members[i]] + [];
    }
  }

  /** The path leads to a container. */
  predicate OnPath(v: Json, path: seq<nat>)
    decreases |path|
  {
    Container(v) && (path == [] || (path[0] < Width(v) && OnPath(Element(v, path[0]).value, path[1..])))
  }

  /** One more element at the end of the container that the path leads to. */
  function AppendAt(v: Json, path: seq<nat>, m: Member): (r: Json)
    requires OnPath(v, path)
    ensures Container(r)
    decreases |path|
  {
    if path == [] then InsertAt(v, Width(v), m)
    else
      var e := Element(v, path[0]);
      InsertAt(RemoveAt(v, path[0]), path[0], Member(e.name, AppendAt(e.value, path[1..], m)))
  }

  predicate Leads(v: Json, path: seq<nat>)
    decreases |path|
  {
    path == [] || (path[0] < Width(v) && Leads(Element(v, path[0]).value, path[1..]))
  }

  function ValueAt(v: Json, path: seq<nat>): Json
    requires Leads(v, path)
    decreases |path|
  {
    if path == [] then v else ValueAt(Element(v, path[0]).value, path[1..])
  }

  lemma ElementSet(v: Json, i: nat, m: Member, k: nat)
    requires Container(v) && i < Width(v) && k < Width(v)
    ensures Element(InsertAt(RemoveAt(v, i), i, m), k) ==
      if k != i then Element(v, k) else if v.Array? then Member([], m.value) else m
  {
  }

  lemma ElementAppended(v: Json, m: Member, k: nat)
    requires Container(v) && k < Width(v)
    ensures Element(InsertAt(v, Width(v), m), k) == Element(v, k)
  {
  }

  /** The container that the path leads to has one more element at its end, and whatever does not lie on the way there
      is where it was. */
  lemma {:induction false} AppendAtPath(v: Json, path: seq<nat>, m: Member, other: seq<nat>)
    requires OnPath(v, path)
    ensures var r := AppendAt(v, path, m);
      && Leads(v, path) && Leads(r, path) && Container(ValueAt(v, path))
      && ValueAt(r, path) == InsertAt(ValueAt(v, path), Width(ValueAt(v, path)), m)
      && (Leads(v, other) && !(other <= path) ==> Leads(r, other) && ValueAt(r, other) == ValueAt(v, other))
    decreases |path|
  {
    hide InsertAt, RemoveAt, Element, Width, Container;
    if path == [] {
      if other != [] && other[0] < Width(v) {
        ElementAppended(v, m, other[0]);
      }
    } else {
      var i := path[0];
      var e := Element(v, i);
      var below := Member(e.name, AppendAt(e.value, path[1..], m));
      ElementSet(v, i, below, i);
      AppendAtPath(e.value, path[1..], m, if other == [] then [] else other[1..]);
      if other != [] && other[0] < Width(v) {
        ElementSet(v, i, below, other[0]);
        assert other == [other[0]] + other[1..] && path == [path[0]] + path[1..];
      }
    }
  }

  lemma AppendTurn(v: Json, path: seq<nat>, m: Member, name: seq<byte>)
    requires path != [] && OnPath(v, path) && (v.Object? ==> name == Element(v, path[0]).name)
    ensures AppendAt(v, path, m) ==
      InsertAt(RemoveAt(v, path[0]), path[0], Member(name, AppendAt(Element(v, path[0]).value, path[1..], m)))
  {
  }

  /** What an item without children stands for. */
  function Leaf(kind: Kind, chars: seq<byte>): Json {
    match kind
    case NullKind => Null
    case FalseKind => False
    case TrueKind => True
    case NumberKind => Number(chars)
    case StringKind => String(chars)
    case ArrayKind => Array([])
    case ObjectKind => Object([])
  }

  class Item {
    var kind: Kind
    /** The characters of a string, or the text of a number. */
    var chars: seq<byte>
    var name: seq<byte>
    var next: Item?
    var prev: Item?
    var child: Item?

    ghost var kids: seq<Item>
    ghost var repr: set<Item>
    ghost var value: Json

    constructor (kind: Kind, chars: seq<byte>, name: seq<byte>)
      ensures Valid() && fresh(repr) && repr == {this} && kids == [] && value == Leaf(kind, chars)
      ensures this.kind == kind && this.chars == chars && this.name == name && Detached() && Blank()
    {
      this.kind, this.chars, this.name := kind, chars, name;
      next, prev, child := null, null, null;
      kids, repr, value := [], {this}, Leaf(kind, chars);
    }

    /** It has no siblings. */
    ghost predicate Detached()
      reads this`next, this`prev
    {
      next == null && prev == null
    }

    ghost predicate Valid()
      reads this`kind, this`chars, this`child, this`kids, this`repr, this`value, repr - {this}
      decreases repr, 0
    {
      && this in repr && Set(kids) <= repr - {this} && Distinct(kids)
      && Family(Set(kids), repr - {this})
      && Chain(child, kids)
      && Means(kind, chars, kids, value)
    }

    lemma Open()
      requires Valid()
      ensures this in repr && Set(kids) <= repr - {this} && Distinct(kids)
      ensures Family(Set(kids), repr - {this}) && Chain(child, kids) && Means(kind, chars, kids, value)
      ensures forall k <- kids :: k in repr && k != this
    {
      assert forall k <- kids :: k in Set(kids);
    }

    lemma Close()
      requires this in repr && Set(kids) <= repr - {this} && Distinct(kids)
      requires Family(Set(kids), repr - {this}) && Chain(child, kids) && Means(kind, chars, kids, value)
      ensures Valid()
    {
    }

    /** Separate trees inside `owner`.  The links between their roots do not matter here. */
    static ghost predicate Family(roots: set<Item>, owner: set<Item>)
      reads roots`kind, roots`chars, roots`child, roots`kids, roots`repr, roots`value, owner - roots
      decreases owner, 1
    {
      && (forall r <- roots :: r in r.repr && r.repr <= owner && r.repr - {r} <= owner - roots && r.Valid())
      && forall r <- roots, t <- roots | r != t :: r.repr !! t.repr
    }

    static ghost function Set(kids: seq<Item>): set<Item> {
      set k | k in kids
    }

    static ghost predicate Distinct(kids: seq<Item>) {
      forall i, j | 0 <= i < j < |kids| :: kids[i] != kids[j]
    }

    /** The value is made of the values and names of the children. */
    static ghost predicate Means(kind: Kind, chars: seq<byte>, kids: seq<Item>, value: Json)
      reads kids`name, kids`value
    {
      match kind
      case ArrayKind =>
        value.Array? && |value.items| == |kids| && forall i | 0 <= i < |kids| :: value.items[i] == kids[i].value
      case ObjectKind =>
        && value.Object? && |value.members| == |kids|
        && forall i | 0 <= i < |kids| :: value.members[i] == Member(kids[i].name, kids[i].value)
      case _ => kids == [] && value == Leaf(kind, chars)
    }

    /** The head has no `prev`, the last no `next`, and in between the two are inverse. */
    static ghost predicate Chain(head: Item?, kids: seq<Item>)
      reads kids`next, kids`prev
    {
      head == At(kids, 0) && forall i | 0 <= i < |kids| :: Linked(kids, i)
    }

    static ghost predicate Linked(kids: seq<Item>, i: nat)
      requires i < |kids|
      reads kids`next, kids`prev
    {
      kids[i].prev == At(kids, i - 1) && kids[i].next == At(kids, i + 1)
    }

    static ghost function At(kids: seq<Item>, i: int): Item? {
      if 0 <= i < |kids| then kids[i] else null
    }

    static lemma FamilyInsert(roots: set<Item>, owner: set<Item>, item: Item)
      requires Family(roots, owner) && item.Valid() && item.repr !! owner && roots <= owner
      ensures Family(roots + {item}, owner + item.repr)
    {
    }

    static lemma FamilyRemove(roots: set<Item>, owner: set<Item>, item: Item)
      requires Family(roots, owner) && item in roots
      ensures Family(roots - {item}, owner - item.repr) && item.Valid() && item.repr <= owner
      ensures roots - {item} <= roots - item.repr
    {
    }

    static lemma SetRemove(kids: seq<Item>, i: nat)
      requires i < |kids| && Distinct(kids)
      ensures var r := kids[..i] + kids[i + 1..]; Distinct(r) && Set(r) == Set(kids) - {kids[i]}
    {
      assert kids == kids[..i] + [kids[i]] + kids[i + 1..];
    }

    static lemma SetInsert(kids: seq<Item>, i: nat, item: Item)
      requires i <= |kids| && Distinct(kids) && item !in kids
      ensures var r := kids[..i] + [item] + kids[i..]; Distinct(r) && Set(r) == Set(kids) + {item}
    {
      assert kids == kids[..i] + kids[i..];
    }

    static lemma MeansInsert(kind: Kind, chars: seq<byte>, kids: seq<Item>, value: Json, i: nat, item: Item)
      requires Means(kind, chars, kids, value) && Container(value) && i <= |kids|
      ensures Width(value) == |kids|
      ensures Means(kind, chars, kids[..i] + [item] + kids[i..], InsertAt(value, i, Member(item.name, item.value)))
    {
    }

    static lemma MeansRemove(kind: Kind, chars: seq<byte>, kids: seq<Item>, value: Json, i: nat)
      requires Means(kind, chars, kids, value) && Container(value) && i < |kids|
      ensures Width(value) == |kids| && Means(kind, chars, kids[..i] + kids[i + 1..], RemoveAt(value, i))
    {
    }

    static lemma MeansWidth(kind: Kind, chars: seq<byte>, kids: seq<Item>, value: Json)
      requires Means(kind, chars, kids, value)
      ensures Width(value) == |kids|
    {
    }

    // ----- building the children of a container -----

    /** Children in the making: separate trees in `owner` that make up the value of a container. */
    static ghost predicate Brood(kind: Kind, kids: seq<Item>, owner: set<Item>, value: Json)
      reads kids`kind, kids`chars, kids`child, kids`kids, kids`repr, kids`value, kids`name, owner - Set(kids)
    {
      Distinct(kids) && Set(kids) <= owner && Family(Set(kids), owner) && Means(kind, [], kids, value) && Container(value)
    }

    static lemma BroodEmpty(kind: Kind)
      requires kind == ArrayKind || kind == ObjectKind
      ensures Brood(kind, [], {}, Leaf(kind, [])) && Chain(null, [])
    {
    }

    static lemma BroodGrows(kind: Kind, kids: seq<Item>, owner: set<Item>, value: Json, item: Item)
      requires Brood(kind, kids, owner, value) && item.Valid() && item.repr !! owner
      ensures Width(value) == |kids|
      ensures Brood(kind, kids + [item], owner + item.repr, InsertAt(value, |kids|, Member(item.name, item.value)))
    {
      hide Item.Valid, Family, Means, InsertAt, Width;
      item.Open();
      assert kids[..|kids|] + [item] + kids[|kids|..] == kids + [item];
      assert item !in Set(kids);
      FamilyInsert(Set(kids), owner, item);
      SetInsert(kids, |kids|, item);
      MeansInsert(kind, [], kids, value, |kids|, item);
    }

    static lemma BroodApart(kind: Kind, kids: seq<Item>, owner: set<Item>, value: Json, item: Item)
      requires Brood(kind, kids, owner, value) && item !in owner
      ensures Distinct(kids) && item !in kids && forall k <- kids :: k in owner
    {
      assert forall k <- kids :: k in Set(kids);
    }

    /** Without children yet. */
    ghost predicate Blank()
      reads this`child, this`kids, this`repr
    {
      child == null && kids == [] && repr == {this}
    }

    /** The item becomes a leaf. */
    method SetLeaf(kind: Kind, chars: seq<byte>)
      requires Blank()
      modifies this`kind, this`chars, this`value
      ensures Valid() && this.kind == kind && this.chars == chars && value == Leaf(kind, chars)
    {
      this.kind, this.chars := kind, chars;
      value := Leaf(kind, chars);
    }

    /** The item becomes a container of the children built so far. */
    method SetContainer(kind: Kind, head: Item?, ghost newKids: seq<Item>, ghost owner: set<Item>, ghost newValue: Json)
      requires Brood(kind, newKids, owner, newValue) && Chain(head, newKids) && this !in owner
      modifies this`kind, this`chars, this`child, this`kids, this`repr, this`value
      ensures Valid() && repr == {this} + owner && value == newValue
    {
      hide Family, Means, Container, Chain;
      this.kind, chars, child := kind, [], head;
      kids, repr, value := newKids, {this} + owner, newValue;
      assert repr - {this} == owner;
    }

    /** `get_array_item()`. */
    method GetArrayItem(index: nat) returns (item: Item?)
      requires Valid()
      ensures item == At(kids, index)
    {
      item := child;
      var left := index;
      while item != null && left > 0
        invariant 0 <= left <= index && item == At(kids, index - left)
        decreases left
      {
        assert Linked(kids, index - left);
        left := left - 1;
        item := item.next;
      }
    }

    /** The pointer work of `add_item_to_array()`. */
    method LinkLast(item: Item)
      requires Chain(child, kids) && Distinct(kids) && item !in kids && item.Detached()
      modifies this`child, kids`next, item`prev
      ensures Chain(child, kids + [item])
    {
      ghost var r := kids + [item];
      if child == null {
        child := item;
      } else {
        var last := child;
        ghost var i := 0;
        while last.next != null
          invariant 0 <= i < |kids| && last == kids[i] && Linked(kids, i)
          decreases |kids| - i
        {
          assert Linked(kids, i + 1);
          i := i + 1;
          last := last.next;
        }
        last.next := item;
        item.prev := last;
      }
      forall k | 0 <= k < |r| ensures Linked(r, k) {
        assert k < |kids| ==> old(Linked(kids, k));
      }
    }

    /** A separate tree joins the children at position `i`; the links are in order already. */
    ghost method Adopt(i: nat, item: Item)
      requires this in repr && Set(kids) <= repr - {this} && Distinct(kids) && Family(Set(kids), repr - {this})
      requires Means(kind, chars, kids, value) && Container(value) && i <= |kids|
      requires item.Valid() && item.repr !! repr && Chain(child, kids[..i] + [item] + kids[i..])
      modifies this`kids, this`repr, this`value
      ensures Valid() && kids == old(kids[..i]) + [item] + old(kids[i..]) && repr == old(repr) + item.repr
      ensures Width(old(value)) == |old(kids)| && value == InsertAt(old(value), i, Member(item.name, item.value))
    {
      hide Family, Means, Container, InsertAt, Width, Chain;
      FamilyInsert(Set(kids), repr - {this}, item);
      SetInsert(kids, i, item);
      MeansInsert(kind, chars, kids, value, i, item);
      value := InsertAt(value, i, Member(item.name, item.value));
      kids := kids[..i] + [item] + kids[i..];
      assert repr + item.repr - {this} == repr - {this} + item.repr;
      repr := repr + item.repr;
    }

    /** `add_item_to_array()`: appends. */
    method AddItemToArray(item: Item?) returns (ok: bool)
      requires Valid() && Container(value)
      requires item != null ==> item.Valid() && item.Detached() && item.repr !! repr
      modifies this`child, this`kids, this`repr, this`value, kids`next, (if item == null then {} else {item})`prev
      ensures Valid() && ok == (item != null)
      ensures item == null ==> kids == old(kids) && value == old(value) && repr == old(repr)
      ensures item != null ==> kids == old(kids) + [item] && repr == old(repr) + item.repr
      ensures item != null ==> Width(old(value)) == |old(kids)|
      ensures item != null ==> value == InsertAt(old(value), |old(kids)|, Member(item.name, item.value))
    {
      hide Valid, Family, Means, Container, InsertAt, Width;
      if item == null {
        return false;
      }
      Open();
      item.Open();
      assert kids[..|kids|] + [item] + kids[|kids|..] == kids + [item];
      LinkLast(item);
      Adopt(|kids|, item);
      ok := true;
    }

    /** `cJSON_AddItemToObject()`: names the item and appends it. */
    method AddItemToObject(name: seq<byte>, item: Item?) returns (ok: bool)
      requires Valid() && Container(value)
      requires item != null ==> item.Valid() && item.Detached() && item.repr !! repr
      modifies this`child, this`kids, this`repr, this`value, kids`next,
        (if item == null then {} else {item})`prev, (if item == null then {} else {item})`name
      ensures Valid() && ok == (item != null)
      ensures item == null ==> kids == old(kids) && value == old(value) && repr == old(repr)
      ensures item != null ==> kids == old(kids) + [item] && repr == old(repr) + item.repr && item.name == name
      ensures item != null ==> Width(old(value)) == |old(kids)|
      ensures item != null ==> value == InsertAt(old(value), |old(kids)|, Member(name, item.value))
    {
      hide Valid, Family, Means, Container, InsertAt, Width;
      if item == null {
        return false;
      }
      Open();
      item.Open();
      item.name := name;
      ok := AddItemToArray(item);
    }

    /** `item` comes to stand before position `i`. */
    static ghost predicate LinkedAround(kids: seq<Item>, k: nat, i: nat, item: Item)
      requires k < |kids|
      reads kids`next, kids`prev
    {
      && kids[k].prev == (if k == i then item else At(kids, k - 1))
      && kids[k].next == if k + 1 == i then item else At(kids, k + 1)
    }

    static lemma ChainInsert(head: Item?, kids: seq<Item>, i: nat, item: Item)
      requires i <= |kids| && head == if i == 0 then item else At(kids, 0)
      requires item.prev == At(kids, i - 1) && item.next == At(kids, i)
      requires forall k | 0 <= k < |kids| :: LinkedAround(kids, k, i, item)
      ensures Chain(head, kids[..i] + [item] + kids[i..])
    {
      var r := kids[..i] + [item] + kids[i..];
      forall k | 0 <= k < |r| ensures Linked(r, k) {
        if k < i {
          assert LinkedAround(kids, k, i, item);
        } else if k > i {
          assert LinkedAround(kids, k - 1, i, item);
        }
      }
    }

    /** Position `i` is skipped. */
    static ghost predicate LinkedAcross(kids: seq<Item>, k: nat, i: nat)
      requires k < |kids|
      reads kids`next, kids`prev
    {
      && kids[k].prev == At(kids, if k == i + 1 then i - 1 else k - 1)
      && kids[k].next == At(kids, if k + 1 == i then i + 1 else k + 1)
    }

    static lemma ChainRemove(head: Item?, kids: seq<Item>, i: nat)
      requires i < |kids| && head == if i == 0 then At(kids, 1) else At(kids, 0)
      requires forall k | 0 <= k < |kids| && k != i :: LinkedAcross(kids, k, i)
      ensures Chain(head, kids[..i] + kids[i + 1..])
    {
      var r := kids[..i] + kids[i + 1..];
      forall k | 0 <= k < |r| ensures Linked(r, k) {
        assert LinkedAcross(kids, if k < i then k else k + 1, i);
      }
    }

    /** The pointer work of `cJSON_InsertItemInArray()`. */
    method LinkBefore(item: Item, after: Item, ghost i: nat)
      requires Chain(child, kids) && Distinct(kids) && i < |kids| && after == kids[i] && item !in kids
      modifies this`child, kids`next, kids`prev, item`next, item`prev
      ensures Chain(child, kids[..i] + [item] + kids[i..])
    {
      assert Linked(kids, i) && (i > 0 ==> Linked(kids, i - 1));
      item.next := after;
      item.prev := after.prev;
      after.prev := item;
      if after == child {
        child := item;
      } else {
        item.prev.next := item;
      }
      forall k | 0 <= k < |kids| ensures LinkedAround(kids, k, i, item) {
        assert old(Linked(kids, k));
      }
      ChainInsert(child, kids, i, item);
    }

    /** `cJSON_InsertItemInArray()`: inserts, or appends behind the end. */
    method InsertItemInArray(which: int, item: Item)
      requires Valid() && Container(value) && item.Valid() && item.Detached() && item.repr !! repr
      modifies this`child, this`kids, this`repr, this`value, kids`next, kids`prev, item`next, item`prev
      ensures Valid() && Width(old(value)) == |old(kids)|
      ensures which < 0 ==> kids == old(kids) && value == old(value) && repr == old(repr)
      ensures var i := if which < |old(kids)| then which else |old(kids)|;
        which >= 0 ==>
          && kids == old(kids[..i]) + [item] + old(kids[i..]) && repr == old(repr) + item.repr
          && value == InsertAt(old(value), i, Member(item.name, item.value))
    {
      hide Valid, Family, Means, Container, InsertAt, Width, Chain;
      Open();
      item.Open();
      MeansWidth(kind, chars, kids, value);
      if which < 0 {
        return;
      }
      var after := GetArrayItem(which);
      if after == null {
        assert kids[..|kids|] + [item] + kids[|kids|..] == kids + [item];
        var _ := AddItemToArray(item);
      } else {
        LinkBefore(item, after, which);
        Adopt(which, item);
      }
    }

    /** The pointer work of `cJSON_DetachItemViaPointer()`. */
    method Unlink(item: Item, ghost i: nat)
      requires Chain(child, kids) && Distinct(kids) && i < |kids| && item == kids[i]
      modifies this`child, kids`next, kids`prev
      ensures Chain(child, kids[..i] + kids[i + 1..]) && item.Detached()
    {
      assert Linked(kids, i) && (i > 0 ==> Linked(kids, i - 1)) && (i + 1 < |kids| ==> Linked(kids, i + 1));
      if item.prev != null {
        item.prev.next := item.next;
      }
      if item.next != null {
        item.next.prev := item.prev;
      }
      if item == child {
        child := item.next;
      }
      item.prev := null;
      item.next := null;
      forall k | 0 <= k < |kids| && k != i ensures LinkedAcross(kids, k, i) {
        assert old(Linked(kids, k));
      }
      ChainRemove(child, kids, i);
    }

    /** The child at position `i` leaves; the links are in order already. */
    ghost method Release(i: nat)
      requires this in repr && Set(kids) <= repr - {this} && Distinct(kids) && Family(Set(kids), repr - {this})
      requires Means(kind, chars, kids, value) && Container(value) && i < |kids|
      requires Chain(child, kids[..i] + kids[i + 1..])
      modifies this`kids, this`repr, this`value
      ensures Valid() && kids == old(kids[..i]) + old(kids[i + 1..]) && repr == old(repr) - old(kids)[i].repr
      ensures Width(old(value)) == |old(kids)| && value == RemoveAt(old(value), i)
      ensures var item := old(kids)[i]; item.Valid() && item.repr !! repr
    {
      hide Valid, Family, Means, Container, RemoveAt, Width, Chain;
      var item := kids[i];
      FamilyRemove(Set(kids), repr - {this}, item);
      SetRemove(kids, i);
      MeansRemove(kind, chars, kids, value, i);
      value := RemoveAt(value, i);
      kids := kids[..i] + kids[i + 1..];
      repr := repr - item.repr;
      assert repr - {this} == old(repr) - {this} - item.repr;
      Close();
    }

    /** `cJSON_DetachItemViaPointer()`: `item`, if there is one, is the child at position `i`. */
    method DetachItemViaPointer(item: Item?, ghost i: nat) returns (r: Item?)
      requires Valid() && Container(value) && (item != null ==> i < |kids| && item == kids[i])
      modifies this`child, this`kids, this`repr, this`value, kids`next, kids`prev
      ensures Valid() && r == item && Width(old(value)) == |old(kids)|
      ensures item == null ==> kids == old(kids) && value == old(value) && repr == old(repr)
      ensures item != null ==>
        && kids == old(kids[..i]) + old(kids[i + 1..]) && repr == old(repr) - item.repr
        && value == RemoveAt(old(value), i)
        && item.Valid() && item.Detached() && item.repr !! repr
    {
      hide Valid, Family, Means, Container, RemoveAt, Width;
      Open();
      MeansWidth(kind, chars, kids, value);
      if item != null {
        Unlink(item, i);
        Release(i);
      }
      r := item;
    }

    /** `cJSON_DetachItemFromArray()`. */
    method DetachItemFromArray(which: int) returns (r: Item?)
      requires Valid() && Container(value)
      modifies this`child, this`kids, this`repr, this`value, kids`next, kids`prev
      ensures Valid() && r == At(old(kids), which) && Width(old(value)) == |old(kids)|
      ensures r == null ==> kids == old(kids) && value == old(value) && repr == old(repr)
      ensures r != null ==>
        && kids == old(kids[..which]) + old(kids[which + 1..]) && repr == old(repr) - r.repr
        && value == RemoveAt(old(value), which)
        && r.Valid() && r.Detached() && r.repr !! repr
    {
      hide Valid, Family, Means, Container, RemoveAt, Width, Chain;
      Open();
      MeansWidth(kind, chars, kids, value);
      if which < 0 {
        return null;
      }
      var item := GetArrayItem(which);
      r := DetachItemViaPointer(item, which);
    }

    /** The pointer work of `cJSON_ReplaceItemViaPointer()`. */
    method LinkInstead(item: Item, replacement: Item, ghost i: nat)
      requires Chain(child, kids) && Distinct(kids) && i < |kids| && item == kids[i] && replacement !in kids
      modifies this`child, kids`next, kids`prev, replacement`next, replacement`prev
      ensures Chain(child, kids[i := replacement]) && item.Detached()
    {
      assert Linked(kids, i) && (i > 0 ==> Linked(kids, i - 1)) && (i + 1 < |kids| ==> Linked(kids, i + 1));
      replacement.next := item.next;
      replacement.prev := item.prev;
      if replacement.next != null {
        replacement.next.prev := replacement;
      }
      if replacement.prev != null {
        replacement.prev.next := replacement;
      }
      if child == item {
        child := replacement;
      }
      item.next := null;
      item.prev := null;
      ghost var r := kids[i := replacement];
      forall k | 0 <= k < |r| ensures Linked(r, k) {
        assert old(Linked(kids, k));
      }
    }

    /** A separate tree takes the place of the child at position `i`; the links are in order already. */
    ghost method Exchange(i: nat, item: Item)
      requires this in repr && Set(kids) <= repr - {this} && Distinct(kids) && Family(Set(kids), repr - {this})
      requires Means(kind, chars, kids, value) && Container(value) && i < |kids|
      requires item.Valid() && item.repr !! repr && Chain(child, kids[i := item])
      modifies this`kids, this`repr, this`value
      ensures Valid() && kids == old(kids)[i := item] && repr == old(repr) - old(kids)[i].repr + item.repr
      ensures Width(old(value)) == |old(kids)|
      ensures value == InsertAt(RemoveAt(old(value), i), i, Member(item.name, item.value))
    {
      hide Valid, Family, Means, Container, InsertAt, RemoveAt, Width, Chain;
      item.Open();
      var was := kids[i];
      var rest := kids[..i] + kids[i + 1..];
      assert rest[..i] + [item] + rest[i..] == kids[i := item];
      FamilyRemove(Set(kids), repr - {this}, was);
      SetRemove(kids, i);
      MeansRemove(kind, chars, kids, value, i);
      FamilyInsert(Set(rest), repr - {this} - was.repr, item);
      SetInsert(rest, i, item);
      MeansInsert(kind, chars, rest, RemoveAt(value, i), i, item);
      value := InsertAt(RemoveAt(value, i), i, Member(item.name, item.value));
      kids := kids[i := item];
      repr := repr - was.repr + item.repr;
      assert repr - {this} == old(repr) - {this} - was.repr + item.repr;
      Close();
    }

    /** `cJSON_ReplaceItemViaPointer()`: `item`, if there is one, is the child at position `i`. */
    method ReplaceItemViaPointer(item: Item?, replacement: Item?, ghost i: nat) returns (ok: bool)
      requires Valid() && Container(value) && (item != null ==> i < |kids| && item == kids[i])
      requires replacement != null && replacement != item ==> replacement.Valid() && replacement.repr !! repr
      modifies this`child, this`kids, this`repr, this`value, kids`next, kids`prev,
        (if replacement == null then {} else {replacement})`next, (if replacement == null then {} else {replacement})`prev
      ensures Valid() && Width(old(value)) == |old(kids)|
      ensures ok <==> item != null && replacement != null
      ensures !ok || replacement == item ==> kids == old(kids) && value == old(value) && repr == old(repr)
      ensures ok && replacement != item ==>
        && kids == old(kids)[i := replacement] && repr == old(repr) - old(item.repr) + replacement.repr
        && value == InsertAt(RemoveAt(old(value), i), i, Member(replacement.name, replacement.value))
        && item.Detached()
    {
      hide Valid, Family, Means, Container, InsertAt, RemoveAt, Width, Chain;
      Open();
      MeansWidth(kind, chars, kids, value);
      if replacement == null || item == null {
        return false;
      }
      ok := true;
      if replacement == item {
        return;
      }
      replacement.Open();
      LinkInstead(item, replacement, i);
      Exchange(i, replacement);
    }

    // ----- edits further down -----

    static ghost function Others(kids: seq<Item>, i: nat): seq<Item>
      requires i < |kids|
    {
      kids[..i] + kids[i + 1..]
    }

    /** All of a container that the tree below its child at position `i`, which consists of `was`, has no part in. */
    ghost predicate Around(i: nat, was: set<Item>)
      requires i < |kids|
      reads this`kind, this`chars, this`child, this`kids, this`repr, this`value, kids`next, kids`prev
      reads Others(kids, i)`name, Others(kids, i)`value, repr - {this} - was
    {
      && this in repr && kids[i] in was && was <= repr - {this} && Distinct(kids)
      && Set(Others(kids, i)) == Set(kids) - {kids[i]} <= repr - {this} - was
      && Family(Set(Others(kids, i)), repr - {this} - was) && Chain(child, kids)
      && Container(value) && Width(value) == |kids| && Means(kind, chars, Others(kids, i), RemoveAt(value, i))
    }

    lemma OpenAround(i: nat)
      requires Valid() && Container(value) && i < |kids|
      ensures var kid := kids[i];
        && Around(i, kid.repr) && kid.Valid() && kid in kid.repr && kid.repr <= repr - {this} && Width(value) == |kids|
        && Element(value, i) == (if value.Array? then Member([], kid.value) else Member(kid.name, kid.value))
        && (forall k <- kids :: k in repr && k !in kid.repr - {kid})
        && (forall k <- Others(kids, i) :: k !in kid.repr)
    {
      hide Family, Item.Valid, Chain, Means, Container, RemoveAt, Width, Element;
      Open();
      FamilyRemove(Set(kids), repr - {this}, kids[i]);
      SetRemove(kids, i);
      kids[i].Open();
      MeansRemove(kind, chars, kids, value, i);
      MeansElement(kind, chars, kids, value, i);
      assert kids == kids[..i] + [kids[i]] + kids[i + 1..];
      assert forall k <- Others(kids, i) :: k in Set(Others(kids, i));
    }

    static lemma MeansElement(kind: Kind, chars: seq<byte>, kids: seq<Item>, value: Json, i: nat)
      requires Means(kind, chars, kids, value) && Container(value) && i < |kids|
      ensures Width(value) == |kids|
      ensures Element(value, i) == if value.Array? then Member([], kids[i].value) else Member(kids[i].name, kids[i].value)
    {
    }

    /** After an edit somewhere below the child at position `i`, which consisted of `was` before, the container takes
        over what has become of that child. */
    ghost method Refresh(i: nat, was: set<Item>)
      requires i < |kids| && Around(i, was) && kids[i].Valid() && kids[i].repr !! repr - was
      modifies this`repr, this`value
      ensures Valid() && kids == old(kids) && repr == old(repr) - was + kids[i].repr
      ensures Container(old(value)) && i < Width(old(value))
      ensures value == InsertAt(RemoveAt(old(value), i), i, Member(kids[i].name, kids[i].value))
    {
      hide Item.Valid, Family, Chain, Means, InsertAt, RemoveAt, Width, Container;
      var kid := kids[i];
      var rest := Others(kids, i);
      kid.Open();
      FamilyInsert(Set(rest), repr - {this} - was, kid);
      assert Set(rest) + {kid} == Set(kids);
      assert rest[..i] + [kid] + rest[i..] == kids;
      MeansInsert(kind, chars, rest, RemoveAt(value, i), i, kid);
      value := InsertAt(RemoveAt(value, i), i, Member(kid.name, kid.value));
      repr := repr - was + kid.repr;
      assert repr - {this} == old(repr) - {this} - was + kid.repr;
      Close();
    }

    /** `cJSON_GetArrayItem()` down the path, then `cJSON_AddItemToArray()`: an item is appended to a container at any
        depth. */
    method AddItemBelow(path: seq<nat>, item: Item)
      requires Valid() && OnPath(value, path) && item.Valid() && item.Detached() && item.repr !! repr
      modifies repr`child, repr`kids, repr`repr, repr`value, (repr - {this})`next, item`prev
      ensures Valid() && repr == old(repr) + item.repr
      ensures value == AppendAt(old(value), path, Member(item.name, item.value))
      decreases |path|
    {
      hide Item.Valid, Family, Chain, Means, InsertAt, RemoveAt, Width, Around;
      Open();
      MeansWidth(kind, chars, kids, value);
      if path == [] {
        var _ := AddItemToArray(item);
      } else {
        var i := path[0];
        OpenAround(i);
        var kid := GetArrayItem(i);
        ghost var was := kid.repr;
        item.Open();
        kid.AddItemBelow(path[1..], item);
        assert unchanged(this);
        Refresh(i, was);
        AppendTurn(old(value), path, Member(item.name, item.value), kid.name);
      }
    }

    /** `cJSON_Duplicate()`: a separate copy, of the item alone or with all that hangs below it. */
    static method Duplicate(item: Item?, recurse: bool) returns (copy: Item?)
      requires item != null ==> item.Valid()
      ensures (copy == null) == (item == null)
      ensures item != null ==>
        && copy.Valid() && fresh(copy.repr) && copy.Detached() && copy.name == item.name
        && copy.value == if recurse then item.value else Leaf(item.kind, item.chars)
      decreases if item == null then {} else item.repr
    {
      if item == null {
        return null;
      }
      copy := new Item(item.kind, item.chars, item.name);
      if !recurse {
        return;
      }
      item.DuplicateKids(copy);
    }

    /** An item is hung behind the last of a list, or starts it. */
    static method Hang(head: Item?, last: Item?, item: Item, ghost kids: seq<Item>) returns (newHead: Item)
      requires Chain(head, kids) && Distinct(kids) && last == At(kids, |kids| - 1) && item !in kids && item.Detached()
      modifies kids`next, item`prev
      ensures Chain(newHead, kids + [item])
    {
      ghost var r := kids + [item];
      if head != null && last != null {
        assert Linked(kids, |kids| - 1);
        newHead := head;
        last.next := item;
        item.prev := last;
      } else {
        newHead := item;
      }
      forall k | 0 <= k < |r| ensures Linked(r, k) {
        assert k < |kids| ==> old(Linked(kids, k));
      }
    }

    /** A new item at the end of the children in the making. */
    static method HangNew(kind: Kind, head: Item?, last: Item?,
                          ghost kids: seq<Item>, ghost owner: set<Item>, ghost value: Json)
      returns (newHead: Item, item: Item)
      requires Chain(head, kids) && last == At(kids, |kids| - 1) && Brood(kind, kids, owner, value)
      modifies owner`next
      ensures fresh(item) && item.Blank() && item !in owner
      ensures Chain(newHead, kids + [item]) && Brood(kind, kids, owner, value)
    {
      hide Chain, Item.Valid, Family, Means, Container;
      item := new Item(NullKind, [], []);
      BroodApart(kind, kids, owner, value, item);
      newHead := Hang(head, last, item, kids);
    }

    /** A separate tree is hung behind the last child. */
    method Attach(last: Item?, item: Item)
      requires Valid() && Container(value) && last == At(kids, |kids| - 1)
      requires item.Valid() && item.Detached() && item.repr !! repr
      modifies this`child, this`kids, this`repr, this`value, kids`next, item`prev
      ensures Valid() && kids == old(kids) + [item] && repr == old(repr) + item.repr
      ensures Width(old(value)) == |old(kids)|
      ensures value == InsertAt(old(value), |old(kids)|, Member(item.name, item.value))
    {
      hide Valid, Family, Means, Container, InsertAt, Width, Chain;
      Open();
      item.Open();
      assert kids[..|kids|] + [item] + kids[|kids|..] == kids + [item];
      child := Hang(child, last, item, kids);
      Adopt(|kids|, item);
    }

    static lemma MeansPrefix(kind: Kind, chars: seq<byte>, kids: seq<Item>, value: Json)
      requires Means(kind, chars, kids, value)
      ensures Width(value) == |kids| && Prefix(value, 0) == Leaf(kind, chars) && Prefix(value, |kids|) == value
      ensures forall i | 0 <= i < |kids| :: Element(value, i).value == kids[i].value
      ensures forall i | 0 <= i < |kids| && value.Object? :: Element(value, i) == Member(kids[i].name, kids[i].value)
    {
    }

    static lemma FamilyMember(roots: set<Item>, owner: set<Item>, item: Item)
      requires Family(roots, owner) && item in roots
      ensures item.Valid() && item.repr <= owner
    {
    }

    /** The walk along the children. */
    method DuplicateKids(copy: Item)
      requires Valid() && copy.Valid() && copy.repr == {copy} && copy !in repr && copy.kids == []
      requires copy.kind == kind && copy.chars == chars && copy.Detached() && copy.value == Leaf(kind, chars)
      modifies copy
      ensures copy.Valid() && fresh(copy.repr - {copy}) && copy.Detached() && copy.name == old(copy.name)
      ensures copy.value == value
      decreases repr, 0
    {
      hide Valid, Family, Means, Container, InsertAt, Width, Prefix, Element, Chain, Leaf;
      Open();
      MeansPrefix(kind, chars, kids, value);
      var current := child;
      var last: Item? := null;
      ghost var i := 0;
      while current != null
        invariant i <= |kids| && current == At(kids, i)
        invariant Valid() && copy.Valid() && fresh(copy.repr - {copy}) && copy in copy.repr
        invariant copy.Detached() && copy.name == old(copy.name)
        invariant |copy.kids| == i && last == At(copy.kids, i - 1)
        invariant copy.value == Prefix(value, i)
        decreases |kids| - i
      {
        FamilyMember(Set(kids), repr - {this}, current);
        MeansPrefix(kind, chars, kids, value);
        var newchild := Duplicate(current, true);
        PrefixGrows(value, i, Member(newchild.name, newchild.value));
        copy.Open();
        copy.Attach(last, newchild);
        last := newchild;
        NextOf(child, kids, i);
        i := i + 1;
        current := current.next;
      }
    }

    static lemma NextOf(head: Item?, kids: seq<Item>, i: nat)
      requires Chain(head, kids) && i < |kids|
      ensures head == At(kids, 0) && kids[i].next == At(kids, i + 1)
    {
      assert Linked(kids, i);
    }

    /** `get_object_item()`: the first child with the name. */
    method GetObjectItem(name: seq<byte>, sensitive: bool) returns (item: Item?)
      requires Valid() && value.Object? && NUL !in name
      requires forall i | 0 <= i < |value.members| :: NUL !in value.members[i].name
      ensures item == null ==> forall k <- kids :: !NamesAgree(k.name, name, sensitive)
      ensures item != null ==> exists i: nat :: FirstNamed(kids, i, name, sensitive) && item == kids[i]
      ensures item == At(kids, Lookup(value.members, name, sensitive))
    {
      hide Valid, Family, Chain, NamesAgree, Lookup;
      Open();
      ghost var i := 0;
      item := child;
      FirstOf(child, kids);
      while item != null
        invariant i <= |kids| && item == At(kids, i)
        invariant forall k | 0 <= k < i :: !NamesAgree(kids[k].name, name, sensitive)
        decreases |kids| - i
      {
        var same := item.HasName(name, sensitive);
        if same {
          break;
        }
        NextOf(child, kids, i);
        i := i + 1;
        item := item.next;
      }
      LookupIs(value.members, i, name, sensitive);
    }

    /** The child at position `i` is the first whose name agrees. */
    static ghost predicate FirstNamed(kids: seq<Item>, i: nat, name: seq<byte>, sensitive: bool)
      reads kids`name
    {
      && i < |kids| && NamesAgree(kids[i].name, name, sensitive)
      && forall k | 0 <= k < i :: !NamesAgree(kids[k].name, name, sensitive)
    }

    /** Whether the item has the name: `strcmp()` or `case_insensitive_strcmp()`. */
    method HasName(wanted: seq<byte>, sensitive: bool) returns (same: bool)
      requires NUL !in wanted && NUL !in name
      ensures same == NamesAgree(name, wanted, sensitive)
    {
      if sensitive {
        same := wanted == name;
      } else {
        var r := CaseInsensitiveStrcmp(To(wanted), To(name));
        same := r == 0;
      }
    }

    static lemma FirstOf(head: Item?, kids: seq<Item>)
      requires Chain(head, kids)
      ensures head == At(kids, 0)
    {
    }

    /** A child is a tree inside this one, and its value is nested less deeply. */
    lemma KidFacts(i: nat)
      requires Valid() && i < |kids|
      ensures Width(value) == |kids| && Container(value) && kids[i].Valid() && kids[i].repr <= repr - {this}
      ensures kids[i].value == Element(value, i).value
      ensures value.Object? ==> Element(value, i) == Member(kids[i].name, kids[i].value)
      ensures Nesting(kids[i].value) < Nesting(value)
    {
      Open();
      FamilyMember(Set(kids), repr - {this}, kids[i]);
      MeansPrefix(kind, chars, kids, value);
      if value.Array? {
        NestingBounds(value.items, []);
      } else {
        NestingBounds([], value.members);
      }
    }

    /** What the kind of an item says about its value. */
    lemma KindFacts()
      requires Valid()
      ensures kind == ArrayKind <==> value.Array?
      ensures kind == ObjectKind <==> value.Object?
      ensures !Container(value) ==> value == Leaf(kind, chars)
    {
      hide Family, Chain;
    }

    lemma ListFacts()
      requires Valid()
      ensures child == At(kids, 0) && Width(value) == |kids|
    {
      Open();
      FirstOf(child, kids);
      MeansWidth(kind, chars, kids, value);
    }

    lemma NextIs(i: nat)
      requires Valid() && i < |kids|
      ensures kids[i].next == At(kids, i + 1)
    {
      Open();
      NextOf(child, kids, i);
    }

    /** Separate trees, or values that equal themselves. */
    static ghost predicate Comparable(a: Item, b: Item, sensitive: bool, read: Reading)
      reads a`repr, a`value, b`repr, b`value
    {
      a.repr !! b.repr || (Consistent(a.value, sensitive, read) && Consistent(b.value, sensitive, read))
    }

    static lemma KidsComparable(a: Item, b: Item, i: nat, j: nat, sensitive: bool, read: Reading)
      requires a.Valid() && b.Valid() && i < |a.kids| && j < |b.kids| && Comparable(a, b, sensitive, read)
      ensures Comparable(a.kids[i], b.kids[j], sensitive, read)
    {
      hide Item.Valid, Nesting, Abs;
      a.KidFacts(i);
      b.KidFacts(j);
    }

    static lemma FindsUnfold(ys: seq<Member>, m: Member, sensitive: bool, read: Reading)
      ensures var j := Lookup(ys, m.name, sensitive);
        && (Finds(ys, m, sensitive, read) <==> j < |ys| && Equal(m.value, ys[j].value, sensitive, read))
        && (Agrees(ys, m, sensitive, read) <==>
            j < |ys| && Abs(m.value, sensitive, read) == Abs(ys[j].value, sensitive, read))
    {
    }

    static lemma NamesOfKid(v: Json, i: nat)
      requires CStringNames(v) && i < Width(v)
      ensures CStringNames(Element(v, i).value) && NUL !in Element(v, i).name
    {
    }

    static lemma AbsUnfold(v: Json, sensitive: bool, read: Reading)
      ensures v.Array? ==> Abs(v, sensitive, read) == List(AbsItems(v.items, sensitive, read))
      ensures v.Object? ==> Abs(v, sensitive, read) == Table(AbsMembers(v.members, sensitive, read))
    {
    }

    /** `cJSON_Compare()`.  Equal values compare equal, and what compares equal has one abstract value; where the
        trees are separate or equal themselves, comparing decides equality. */
    static method Compare(a: Item?, b: Item?, sensitive: bool, read: Reading) returns (r: bool)
      requires a != null ==> a.Valid() && CStringNames(a.value)
      requires b != null ==> b.Valid() && CStringNames(b.value)
      ensures a == null || b == null ==> !r
      ensures a != null && a == b ==> r
      ensures a != null && b != null && Equal(a.value, b.value, sensitive, read) ==> r
      ensures a != null && b != null && r ==> Abs(a.value, sensitive, read) == Abs(b.value, sensitive, read)
      ensures a != null && b != null && r && Comparable(a, b, sensitive, read) ==> Equal(a.value, b.value, sensitive, read)
      decreases if a == null || b == null then 0 else Nesting(a.value) + Nesting(b.value), 3
    {
      hide Item.Valid, Comparable, CStringNames, AbsItems, AbsMembers;
      if a == null || b == null {
        return false;
      }
      a.KindFacts();
      b.KindFacts();
      if a.kind != b.kind {
        return false;
      }
      if a == b {
        CompareSelf(a, sensitive, read);
        return true;
      }
      match a.kind
      case NumberKind => r := read(a.chars) == read(b.chars);
      case StringKind => r := a.chars == b.chars;
      case ArrayKind => r := CompareArrays(a, b, sensitive, read);
      case ObjectKind => r := CompareObjects(a, b, sensitive, read);
      case _ => r := true;
    }

    static lemma CompareSelf(a: Item, sensitive: bool, read: Reading)
      requires a.Valid()
      ensures Comparable(a, a, sensitive, read) ==> Equal(a.value, a.value, sensitive, read)
    {
      hide Equal, Consistent;
      CompareIsEquivalence(a.value, a.value, a.value, sensitive, read);
    }

    static lemma ArraysUnfold(xs: seq<Json>, ys: seq<Json>, sensitive: bool, read: Reading)
      ensures Equal(Array(xs), Array(ys), sensitive, read) <==>
        |xs| == |ys| && forall i | 0 <= i < |xs| :: Equal(xs[i], ys[i], sensitive, read)
      ensures |xs| == |ys| && (forall i | 0 <= i < |xs| :: Abs(xs[i], sensitive, read) == Abs(ys[i], sensitive, read)) ==>
        Abs(Array(xs), sensitive, read) == Abs(Array(ys), sensitive, read)
    {
      if |xs| == |ys| && (forall i | 0 <= i < |xs| :: Abs(xs[i], sensitive, read) == Abs(ys[i], sensitive, read)) {
        assert AbsItems(xs, sensitive, read) == AbsItems(ys, sensitive, read);
      }
    }

    static method CompareArrays(a: Item, b: Item, sensitive: bool, read: Reading) returns (r: bool)
      requires a.Valid() && b.Valid() && a.value.Array? && b.value.Array?
      requires CStringNames(a.value) && CStringNames(b.value)
      ensures Equal(a.value, b.value, sensitive, read) ==> r
      ensures r ==> Abs(a.value, sensitive, read) == Abs(b.value, sensitive, read)
      ensures r && Comparable(a, b, sensitive, read) ==> Equal(a.value, b.value, sensitive, read)
      decreases Nesting(a.value) + Nesting(b.value), 1
    {
      hide Item.Valid, Family, Chain, Means, Comparable, Nesting, Distinct, Set, Consistent, Equal, Abs, CStringNames;
      a.ListFacts();
      b.ListFacts();
      ghost var sound := Comparable(a, b, sensitive, read);
      ghost var xs, ys := a.value.items, b.value.items;
      ArraysUnfold(xs, ys, sensitive, read);
      var aElement, bElement := a.child, b.child;
      ghost var i := 0;
      while aElement != null && bElement != null
        invariant i <= |a.kids| && i <= |b.kids| && aElement == At(a.kids, i) && bElement == At(b.kids, i)
        invariant sound ==> forall k | 0 <= k < i :: Equal(xs[k], ys[k], sensitive, read)
        invariant forall k | 0 <= k < i :: Abs(xs[k], sensitive, read) == Abs(ys[k], sensitive, read)
        decreases |a.kids| - i
      {
        PairFacts(a, b, i, i, sensitive, read);
        var same := Compare(aElement, bElement, sensitive, read);
        if !same {
          return false;
        }
        a.NextIs(i);
        b.NextIs(i);
        i := i + 1;
        aElement := aElement.next;
        bElement := bElement.next;
      }
      r := aElement == bElement;
    }

    /** What comparing two children needs. */
    static lemma PairFacts(a: Item, b: Item, i: nat, j: nat, sensitive: bool, read: Reading)
      requires a.Valid() && b.Valid() && CStringNames(a.value) && CStringNames(b.value)
      requires i < |a.kids| && j < |b.kids|
      ensures Width(a.value) == |a.kids| && Width(b.value) == |b.kids|
      ensures a.kids[i].Valid() && CStringNames(a.kids[i].value) && a.kids[i].value == Element(a.value, i).value
      ensures b.kids[j].Valid() && CStringNames(b.kids[j].value) && b.kids[j].value == Element(b.value, j).value
      ensures Nesting(a.kids[i].value) + Nesting(b.kids[j].value) < Nesting(a.value) + Nesting(b.value)
      ensures Comparable(a, b, sensitive, read) ==> Comparable(a.kids[i], b.kids[j], sensitive, read)
    {
      hide Item.Valid, Comparable, CStringNames, Nesting, Element;
      a.KidFacts(i);
      b.KidFacts(j);
      NamesOfKid(a.value, i);
      NamesOfKid(b.value, j);
      if Comparable(a, b, sensitive, read) {
        KidsComparable(a, b, i, j, sensitive, read);
      }
    }

    static method CompareObjects(a: Item, b: Item, sensitive: bool, read: Reading) returns (r: bool)
      requires a.Valid() && b.Valid() && a.value.Object? && b.value.Object?
      requires CStringNames(a.value) && CStringNames(b.value)
      ensures Equal(a.value, b.value, sensitive, read) ==> r
      ensures r ==> Abs(a.value, sensitive, read) == Abs(b.value, sensitive, read)
      ensures r && Comparable(a, b, sensitive, read) ==> Equal(a.value, b.value, sensitive, read)
      decreases Nesting(a.value) + Nesting(b.value), 2
    {
      hide Item.Valid, Nesting, Equal, Covers, Abs, Agrees, CStringNames;
      ghost var xs, ys := a.value.members, b.value.members;
      EqualUnfold(xs, ys, sensitive, read);
      AbsUnfold(a.value, sensitive, read);
      AbsUnfold(b.value, sensitive, read);
      r := CompareMembers(a, b, sensitive, read);
      if r {
        r := CompareMembers(b, a, sensitive, read);
        if r {
          AgreeingTables(xs, ys, sensitive, read);
        }
      }
    }

    /** Looks every child of `a` up in `b` and compares. */
    static method CompareMembers(a: Item, b: Item, sensitive: bool, read: Reading) returns (r: bool)
      requires a.Valid() && b.Valid() && a.value.Object? && b.value.Object?
      requires CStringNames(a.value) && CStringNames(b.value)
      ensures Covers(a.value.members, b.value.members, sensitive, read) ==> r
      ensures r ==> forall k | 0 <= k < |a.value.members| :: Agrees(b.value.members, a.value.members[k], sensitive, read)
      ensures r && Comparable(a, b, sensitive, read) ==> Covers(a.value.members, b.value.members, sensitive, read)
      decreases Nesting(a.value) + Nesting(b.value), 1
    {
      hide Item.Valid, Family, Chain, Means, Comparable, Nesting, Equal, Finds, Agrees, Abs, CStringNames;
      a.ListFacts();
      b.ListFacts();
      ghost var sound := Comparable(a, b, sensitive, read);
      ghost var xs, ys := a.value.members, b.value.members;
      var aElement := a.child;
      ghost var i := 0;
      while aElement != null
        invariant i <= |a.kids| && aElement == At(a.kids, i)
        invariant sound ==> forall k | 0 <= k < i :: Finds(ys, xs[k], sensitive, read)
        invariant forall k | 0 <= k < i :: Agrees(ys, xs[k], sensitive, read)
        decreases |a.kids| - i
      {
        r := CompareMember(a, b, i, aElement, sensitive, read);
        if !r {
          return;
        }
        a.NextIs(i);
        i := i + 1;
        aElement := aElement.next;
      }
      r := true;
    }

    /** Looks one child up and compares it with what is found. */
    static method CompareMember(a: Item, b: Item, ghost i: nat, aElement: Item, sensitive: bool, read: Reading)
      returns (r: bool)
      requires a.Valid() && b.Valid() && a.value.Object? && b.value.Object?
      requires CStringNames(a.value) && CStringNames(b.value)
      requires i < |a.kids| && aElement == a.kids[i] && Width(a.value) == |a.kids|
      ensures Finds(b.value.members, a.value.members[i], sensitive, read) ==> r
      ensures r ==> Agrees(b.value.members, a.value.members[i], sensitive, read)
      ensures r && Comparable(a, b, sensitive, read) ==> Finds(b.value.members, a.value.members[i], sensitive, read)
      decreases Nesting(a.value) + Nesting(b.value), 0
    {
      hide Item.Valid, Family, Chain, Means, Comparable, Nesting, Equal, Finds, Agrees, Abs, CStringNames, Lookup;
      ghost var ys, m := b.value.members, a.value.members[i];
      ghost var j := Lookup(ys, m.name, sensitive);
      FindsUnfold(ys, m, sensitive, read);
      a.KidFacts(i);
      b.ListFacts();
      NamesOfKid(a.value, i);
      NamesOfKids(b.value);
      var bElement := b.GetObjectItem(aElement.name, sensitive);
      if bElement == null {
        return false;
      }
      PairFacts(a, b, i, j, sensitive, read);
      r := Compare(aElement, bElement, sensitive, read);
    }

    static lemma NamesOfKids(v: Json)
      requires CStringNames(v) && v.Object?
      ensures forall i | 0 <= i < |v.members| :: NUL !in v.members[i].name
    {
    }

    /** A recursive duplicate compares equal to its source, if that equals itself. */
    static method CompareWithDuplicate(item: Item, sensitive: bool, read: Reading) returns (r: bool)
      requires item.Valid() && CStringNames(item.value)
      ensures r <==> Consistent(item.value, sensitive, read)
    {
      hide Item.Valid, Equal, Consistent, CStringNames, Abs;
      item.Open();
      var copy := Duplicate(item, true);
      CompareIsEquivalence(item.value, item.value, item.value, sensitive, read);
      r := Compare(item, copy, sensitive, read);
    }
  }
}
