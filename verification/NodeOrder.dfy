/**
 The two comparisons of the node index: `index_compare()` orders nodes by element name and
 then by the value of the index attribute, `index_find()` compares a query with a node.
 */
module NodeOrder {
  datatype Option<T> = None | Some(value: T)

  /** An element node; `id` tells nodes of equal content apart. */
  datatype Node = Node(id: nat, name: string, attrs: map<string, string>)

  /** `mxmlElementGetAttr()`. */
  function GetAttr(node: Node, attr: string): string {
    if attr in node.attrs then node.attrs[attr] else ""
  }

  /** `strcmp()`: the difference of the first bytes that differ. */
  function Strcmp(a: string, b: string): int {
    if a == [] && b == [] then 0
    else if a == [] then -1
    else if b == [] then 1
    else if a[0] != b[0] then a[0] as int - b[0] as int
    else Strcmp(a[1..], b[1..])
  }

  /** The order of a dictionary: at the first difference one text ends or has the smaller character. */
  ghost predicate Before(a: string, b: string) {
    exists k: nat :: DiffersAt(a, b, k)
  }

  predicate DiffersAt(a: string, b: string, k: nat) {
    k <= |a| && k < |b| && a[..k] == b[..k] && (k == |a| || a[k] < b[k])
  }

  lemma {:induction false} StrcmpExact(a: string, b: string)
    ensures Strcmp(a, b) < 0 <==> Before(a, b)
  {
    if a != [] && b != [] && a[0] == b[0] {
      StrcmpExact(a[1..], b[1..]);
      assert a == [a[0]] + a[1..] && b == [b[0]] + b[1..];
      if Strcmp(a, b) < 0 {
        var k: nat :| DiffersAt(a[1..], b[1..], k);
        assert a[..k + 1] == [a[0]] + a[1..][..k] && b[..k + 1] == [b[0]] + b[1..][..k];
        assert DiffersAt(a, b, k + 1);
      }
      forall k: nat | DiffersAt(a, b, k) ensures Before(a[1..], b[1..]) {
        assert k > 0;
        assert a[1..][..k - 1] == a[..k][1..] && b[1..][..k - 1] == b[..k][1..];
        assert DiffersAt(a[1..], b[1..], k - 1);
      }
    } else if b != [] && (a == [] || a[0] < b[0]) {
      assert DiffersAt(a, b, 0);
    } else {
      forall k: nat | DiffersAt(a, b, k) ensures false {
      }
    }
  }

  lemma {:induction false} StrcmpZero(a: string, b: string)
    ensures Strcmp(a, b) == 0 <==> a == b
  {
    if a != [] && b != [] && a[0] == b[0] {
      StrcmpZero(a[1..], b[1..]);
      assert a == [a[0]] + a[1..] && b == [b[0]] + b[1..];
    }
  }

  lemma {:induction false} StrcmpFlip(a: string, b: string)
    ensures Strcmp(a, b) < 0 <==> Strcmp(b, a) > 0
  {
    if a != [] && b != [] && a[0] == b[0] {
      StrcmpFlip(a[1..], b[1..]);
    }
  }

  lemma {:induction false} StrcmpTrans(a: string, b: string, c: string)
    requires Strcmp(a, b) <= 0 && Strcmp(b, c) <= 0
    ensures Strcmp(a, c) <= 0
    ensures Strcmp(a, b) < 0 || Strcmp(b, c) < 0 ==> Strcmp(a, c) < 0
  {
    if a != [] && b != [] && c != [] && a[0] == b[0] == c[0] {
      StrcmpTrans(a[1..], b[1..], c[1..]);
    }
  }

  /** `index_compare()`. */
  function Compare(attr: Option<string>, first: Node, second: Node): int {
    var diff := Strcmp(first.name, second.name);
    if diff != 0 then diff
    else if attr.Some? then Strcmp(GetAttr(first, attr.value), GetAttr(second, attr.value))
    else 0
  }

  predicate Le(attr: Option<string>, first: Node, second: Node) {
    Compare(attr, first, second) <= 0
  }

  /** What the index is sorted by: names, and among equal names the values of the attribute, where a node without the
      attribute counts as one with the empty value. */
  ghost predicate InOrder(attr: Option<string>, a: Node, b: Node) {
    Before(a.name, b.name) ||
    (a.name == b.name &&
     (attr.Some? ==>
        var u := if attr.value in a.attrs then a.attrs[attr.value] else [];
        var v := if attr.value in b.attrs then b.attrs[attr.value] else [];
        u == v || Before(u, v)))
  }

  lemma LeExact(attr: Option<string>, a: Node, b: Node)
    ensures Le(attr, a, b) <==> InOrder(attr, a, b)
  {
    hide Strcmp, Before;
    StrcmpExact(a.name, b.name);
    StrcmpZero(a.name, b.name);
    if attr.Some? {
      StrcmpExact(GetAttr(a, attr.value), GetAttr(b, attr.value));
      StrcmpZero(GetAttr(a, attr.value), GetAttr(b, attr.value));
    }
  }

  lemma LeTotal(attr: Option<string>, a: Node, b: Node)
    ensures Le(attr, a, b) || Le(attr, b, a)
    ensures Compare(attr, a, b) > 0 <==> Compare(attr, b, a) < 0
    ensures Le(attr, a, a)
  {
    StrcmpFlip(a.name, b.name);
    StrcmpFlip(b.name, a.name);
    StrcmpZero(a.name, a.name);
    if attr.Some? {
      var u, v := GetAttr(a, attr.value), GetAttr(b, attr.value);
      StrcmpFlip(u, v);
      StrcmpFlip(v, u);
      StrcmpZero(u, u);
    }
  }

  lemma LeTrans(attr: Option<string>, a: Node, b: Node, c: Node)
    requires Le(attr, a, b) && Le(attr, b, c)
    ensures Le(attr, a, c)
  {
    StrcmpTrans(a.name, b.name, c.name);
    StrcmpZero(a.name, b.name);
    StrcmpZero(b.name, c.name);
    StrcmpZero(a.name, c.name);
    if attr.Some? && a.name == b.name == c.name {
      StrcmpTrans(GetAttr(a, attr.value), GetAttr(b, attr.value), GetAttr(c, attr.value));
    }
  }

  // ----- queries -----

  datatype Query = Query(element: Option<string>, value: Option<string>)

  /** `index_find()`. */
  function Find(attr: Option<string>, q: Query, node: Node): int {
    var diff := if q.element.Some? then Strcmp(q.element.value, node.name) else 0;
    if diff != 0 then diff
    else if q.value.Some? && attr.Some? then Strcmp(q.value.value, GetAttr(node, attr.value))
    else 0
  }

  /** What a match is, said of the node itself.  Without an index attribute no node has a value. */
  predicate Matches(attr: Option<string>, q: Query, node: Node) {
    && (q.element.Some? ==> node.name == q.element.value)
    && (q.value.Some? ==> attr.Some? && GetAttr(node, attr.value) == q.value.value)
  }

  lemma FindZero(attr: Option<string>, q: Query, node: Node)
    requires q.value.Some? ==> attr.Some?
    ensures Find(attr, q, node) == 0 <==> Matches(attr, q, node)
  {
    if q.element.Some? {
      StrcmpZero(q.element.value, node.name);
    }
    if q.value.Some? && attr.Some? {
      StrcmpZero(q.value.value, GetAttr(node, attr.value));
    }
  }

  /** The order by (name, value) is also an order for the query: the query names an element, or the
      two nodes carry the same name. */
  lemma FindMonotone(attr: Option<string>, q: Query, a: Node, b: Node)
    requires Le(attr, a, b) && (q.element.Some? || a.name == b.name)
    requires q.value.Some? ==> attr.Some?
    ensures Find(attr, q, a) < 0 ==> Find(attr, q, b) < 0
    ensures Find(attr, q, b) > 0 ==> Find(attr, q, a) > 0
  {
    StrcmpZero(a.name, b.name);
    if q.element.Some? {
      var e := q.element.value;
      Between(e, a.name, b.name);
    }
    if attr.Some? && q.value.Some? {
      var u, v, w := GetAttr(a, attr.value), GetAttr(b, attr.value), q.value.value;
      if a.name == b.name {
        Between(w, u, v);
      }
    }
  }

  lemma Between(e: string, a: string, b: string)
    requires Strcmp(a, b) <= 0
    ensures Strcmp(e, a) < 0 ==> Strcmp(e, b) < 0
    ensures Strcmp(e, b) > 0 ==> Strcmp(e, a) > 0
    ensures Strcmp(e, a) == 0 ==> Strcmp(e, b) <= 0
    ensures Strcmp(e, b) == 0 ==> Strcmp(e, a) >= 0
    ensures Strcmp(e, a) == 0 && Strcmp(e, b) == 0 ==> a == b
  {
    StrcmpZero(e, a);
    StrcmpZero(e, b);
    StrcmpFlip(a, e);
    StrcmpFlip(b, e);
    StrcmpFlip(e, a);
    StrcmpFlip(e, b);
    StrcmpFlip(a, b);
    if Strcmp(e, a) <= 0 {
      StrcmpTrans(e, a, b);
    }
    if Strcmp(b, e) <= 0 {
      StrcmpTrans(a, b, e);
    }
  }
}
