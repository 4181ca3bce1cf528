/** `index_sort()`: the in-place quicksort of the node index. */
module NodeSort {
  import opened NodeOrder

  ghost predicate SortedRange(attr: Option<string>, s: seq<Node>, lo: int, hi: int)
    requires 0 <= lo <= hi <= |s|
  {
    forall i, j | lo <= i < j < hi :: Le(attr, s[i], s[j])
  }

  /** Every two of the nodes are in order. */
  ghost predicate Alphabetical(attr: Option<string>, s: seq<Node>, lo: int, hi: int)
    requires 0 <= lo <= hi <= |s|
  {
    forall i, j | lo <= i < j < hi :: InOrder(attr, s[i], s[j])
  }

  lemma SortedExact(attr: Option<string>, s: seq<Node>, lo: int, hi: int)
    requires 0 <= lo <= hi <= |s|
    ensures SortedRange(attr, s, lo, hi) <==> Alphabetical(attr, s, lo, hi)
  {
    hide Le, InOrder;
    forall i, j | lo <= i < j < hi ensures Le(attr, s[i], s[j]) <==> InOrder(attr, s[i], s[j]) {
      LeExact(attr, s[i], s[j]);
    }
  }

  /** `after` is `before` with the elements of `[lo, hi)` rearranged. */
  ghost predicate Rearranged(before: seq<Node>, after: seq<Node>, lo: int, hi: int) {
    && 0 <= lo <= hi <= |before| == |after|
    && before[..lo] == after[..lo] && before[hi..] == after[hi..]
    && multiset(before[lo..hi]) == multiset(after[lo..hi])
  }

  lemma RearrangedTrans(a: seq<Node>, b: seq<Node>, c: seq<Node>, lo: int, hi: int)
    requires Rearranged(a, b, lo, hi) && Rearranged(b, c, lo, hi)
    ensures Rearranged(a, c, lo, hi)
  {
  }

  /** Rearranging inside a part of the range rearranges the range. */
  lemma RearrangedWiden(a: seq<Node>, b: seq<Node>, lo: int, m: int, n: int, hi: int)
    requires 0 <= lo <= m <= n <= hi <= |a| && Rearranged(a, b, m, n)
    ensures Rearranged(a, b, lo, hi)
  {
    forall i | 0 <= i < m ensures a[i] == b[i] { assert a[i] == a[..m][i] == b[..m][i]; }
    forall i | n <= i < |a| ensures a[i] == b[i] { assert a[i] == a[n..][i - n] == b[n..][i - n]; }
    assert a[..lo] == b[..lo] && a[hi..] == b[hi..];
    assert a[lo..hi] == a[lo..m] + a[m..n] + a[n..hi];
    assert b[lo..hi] == b[lo..m] + b[m..n] + b[n..hi];
    assert a[lo..m] == b[lo..m] && a[n..hi] == b[n..hi];
  }

  lemma RearrangedSelf(a: seq<Node>, lo: int, hi: int)
    requires 0 <= lo <= hi <= |a|
    ensures Rearranged(a, a, lo, hi)
  {
  }

  lemma SwapRearranges(before: seq<Node>, a: seq<Node>, b: seq<Node>, lo: int, hi: int, i: int, j: int)
    requires Rearranged(before, a, lo, hi)
    requires 0 <= lo <= i <= j < hi <= |a| && b == a[i := a[j]][j := a[i]]
    ensures Rearranged(before, b, lo, hi)
  {
    assert a[..lo] == b[..lo] && a[hi..] == b[hi..];
    var u, v := a[lo..hi], b[lo..hi];
    assert v == u[i - lo := u[j - lo]][j - lo := u[i - lo]];
  }

  /** One pass of the loop body: the pivot `nodes[left]` moves to the returned position. */
  method Partition(attr: Option<string>, nodes: array<Node>, left: int, right: int) returns (tempr: int)
    requires 0 <= left < right < nodes.Length
    modifies nodes
    ensures left <= tempr <= right
    ensures Rearranged(old(nodes[..]), nodes[..], left, right + 1)
    ensures forall k | left <= k < tempr :: Le(attr, nodes[k], nodes[tempr])
    ensures forall k | tempr < k <= right :: !Le(attr, nodes[k], nodes[tempr])
  {
    hide Compare, Rearranged;
    ghost var before := nodes[..];
    RearrangedSelf(before, left, right + 1);
    var pivot := nodes[left];
    var templ := left;
    tempr := right;
    LeTotal(attr, pivot, pivot);
    while templ < tempr
      invariant left <= tempr <= right && left <= templ <= right
      invariant nodes[left] == pivot
      invariant templ < tempr ==> Le(attr, nodes[templ], pivot)
      invariant templ >= tempr ==> Le(attr, nodes[tempr], pivot)
      invariant forall k | left <= k < templ :: Le(attr, nodes[k], pivot)
      invariant forall k | tempr < k <= right :: !Le(attr, nodes[k], pivot)
      invariant Rearranged(before, nodes[..], left, right + 1)
      decreases tempr - templ
    {
      ghost var l0 := templ;
      while templ < right && Compare(attr, nodes[templ], pivot) <= 0
        invariant l0 <= templ <= right
        invariant templ == l0 ==> Le(attr, nodes[templ], pivot)
        invariant forall k | left <= k < templ :: Le(attr, nodes[k], pivot)
      {
        templ := templ + 1;
      }
      while tempr > left && Compare(attr, nodes[tempr], pivot) > 0
        invariant left <= tempr <= right
        invariant forall k | tempr < k <= right :: !Le(attr, nodes[k], pivot)
      {
        tempr := tempr - 1;
      }
      if templ < tempr {
        Swap(nodes, templ, tempr, before, left, right + 1);
      }
    }
    PlacePivot(attr, nodes, left, right, tempr, before);
  }

  /** The exchange of two entries. */
  method Swap(nodes: array<Node>, i: int, j: int, ghost before: seq<Node>, ghost lo: int, ghost hi: int)
    requires 0 <= lo <= i <= j < hi <= nodes.Length && Rearranged(before, nodes[..], lo, hi)
    modifies nodes
    ensures nodes[i] == old(nodes[j]) && nodes[j] == old(nodes[i])
    ensures forall k | 0 <= k < nodes.Length && k != i && k != j :: nodes[k] == old(nodes[k])
    ensures Rearranged(before, nodes[..], lo, hi)
  {
    ghost var mid := nodes[..];
    var temp := nodes[i];
    nodes[i] := nodes[j];
    nodes[j] := temp;
    SwapRearranges(before, mid, nodes[..], lo, hi, i, j);
  }

  /** The end of a pass: the pivot changes places with the entry at `tempr`. */
  method PlacePivot(attr: Option<string>, nodes: array<Node>, left: int, right: int, tempr: int, ghost before: seq<Node>)
    requires 0 <= left <= tempr <= right < nodes.Length && Rearranged(before, nodes[..], left, right + 1)
    requires forall k | left <= k <= tempr :: Le(attr, nodes[k], nodes[left])
    requires forall k | tempr < k <= right :: !Le(attr, nodes[k], nodes[left])
    modifies nodes
    ensures Rearranged(before, nodes[..], left, right + 1)
    ensures forall k | left <= k < tempr :: Le(attr, nodes[k], nodes[tempr])
    ensures forall k | tempr < k <= right :: !Le(attr, nodes[k], nodes[tempr])
  {
    hide Compare, Rearranged;
    var pivot := nodes[left];
    LeTotal(attr, pivot, pivot);
    if Compare(attr, pivot, nodes[tempr]) > 0 {
      Swap(nodes, left, tempr, before, left, right + 1);
    } else {
      AroundPivot(attr, nodes[..], left, right, tempr, pivot);
    }
  }

  lemma AroundPivot(attr: Option<string>, s: seq<Node>, left: int, right: int, p: int, pivot: Node)
    requires 0 <= left <= p <= right < |s|
    requires Le(attr, pivot, s[p]) && Le(attr, s[p], pivot)
    requires forall k | left <= k < p :: Le(attr, s[k], pivot)
    requires forall k | p < k <= right :: !Le(attr, s[k], pivot)
    ensures forall k | left <= k < p :: Le(attr, s[k], s[p])
    ensures forall k | p < k <= right :: !Le(attr, s[k], s[p])
  {
    hide Le;
    forall k | left <= k < p ensures Le(attr, s[k], s[p]) {
      LeTrans(attr, s[k], pivot, s[p]);
    }
    forall k | p < k <= right ensures !Le(attr, s[k], s[p]) {
      if Le(attr, s[k], s[p]) {
        LeTrans(attr, s[k], s[p], pivot);
      }
    }
  }

  /** `index_sort()`. */
  method IndexSort(attr: Option<string>, nodes: array<Node>, left0: int, right: int)
    requires 0 <= left0 < right < nodes.Length
    modifies nodes
    ensures Rearranged(old(nodes[..]), nodes[..], left0, right + 1)
    ensures SortedRange(attr, nodes[..], left0, right + 1) && Alphabetical(attr, nodes[..], left0, right + 1)
    decreases right - left0
  {
    hide Le, Rearranged, Alphabetical;
    var left := left0;
    ghost var before := nodes[..];
    RearrangedSelf(before, left, right + 1);
    while right > left
      invariant left0 <= left <= right + 1
      invariant Rearranged(before, nodes[..], left0, right + 1)
      invariant Settled(attr, nodes[..], left0, left, right + 1)
      decreases right - left
    {
      ghost var s0 := nodes[..];
      var tempr := Partition(attr, nodes, left, right);
      ghost var s1 := nodes[..];
      if left < tempr - 1 {
        IndexSort(attr, nodes, left, tempr - 1);
      } else {
        RearrangedSelf(s1, left, tempr);
      }
      AdvanceSettled(attr, before, s0, s1, nodes[..], left0, left, tempr, right + 1);
      left := tempr + 1;
    }
    SortedExact(attr, nodes[..], left0, right + 1);
  }

  /** `[lo, m)` is sorted and nothing in it comes after anything in `[m, hi)`. */
  ghost predicate Settled(attr: Option<string>, s: seq<Node>, lo: int, m: int, hi: int) {
    && 0 <= lo <= m <= hi <= |s|
    && SortedRange(attr, s, lo, m)
    && forall i, j | lo <= i < m <= j < hi :: Le(attr, s[i], s[j])
  }

  lemma RearrangedOutside(a: seq<Node>, b: seq<Node>, lo: int, hi: int, k: int)
    requires Rearranged(a, b, lo, hi) && (0 <= k < lo || hi <= k < |a|)
    ensures a[k] == b[k]
  {
    if k < lo {
      assert a[k] == a[..lo][k] == b[..lo][k];
    } else {
      assert a[k] == a[hi..][k - hi] == b[hi..][k - hi];
    }
  }

  /** What an element of the rearranged range was before. */
  lemma RearrangedFrom(a: seq<Node>, b: seq<Node>, lo: int, hi: int, k: int) returns (i: int)
    requires Rearranged(a, b, lo, hi) && lo <= k < hi
    ensures lo <= i < hi && a[i] == b[k]
  {
    assert b[k] == b[lo..hi][k - lo];
    assert b[k] in multiset(b[lo..hi]);
    assert b[k] in a[lo..hi];
    var n :| 0 <= n < hi - lo && a[lo..hi][n] == b[k];
    i := lo + n;
  }

  /** The part after the sorted prefix can be rearranged freely. */
  lemma SettledRearranged(attr: Option<string>, a: seq<Node>, b: seq<Node>, lo: int, m: int, hi: int)
    requires Settled(attr, a, lo, m, hi) && Rearranged(a, b, m, hi)
    ensures Settled(attr, b, lo, m, hi)
  {
    hide Le, Rearranged;
    RearrangedLength(a, b, m, hi);
    forall k | lo <= k < m ensures a[k] == b[k] {
      RearrangedOutside(a, b, m, hi, k);
    }
    forall i, j | lo <= i < m <= j < hi ensures Le(attr, b[i], b[j]) {
      var n := RearrangedFrom(a, b, m, hi, j);
    }
  }

  lemma RearrangedLength(a: seq<Node>, b: seq<Node>, lo: int, hi: int)
    requires Rearranged(a, b, lo, hi)
    ensures |a| == |b|
  {
  }

  lemma AdvanceSettled(attr: Option<string>, before: seq<Node>, s0: seq<Node>, s1: seq<Node>, s2: seq<Node>,
                       lo: int, m: int, p: int, hi: int)
    requires 0 <= lo <= m <= p < hi <= |s0| == |s1| == |s2|
    requires Rearranged(before, s0, lo, hi) && Settled(attr, s0, lo, m, hi)
    requires Rearranged(s0, s1, m, hi) && Rearranged(s1, s2, m, p)
    requires SortedRange(attr, s2, m, p)
    requires forall k | m <= k < p :: Le(attr, s1[k], s1[p])
    requires forall k | p < k < hi :: !Le(attr, s1[k], s1[p])
    ensures Rearranged(before, s2, lo, hi)
    ensures Settled(attr, s2, lo, p + 1, hi)
  {
    hide Le, Rearranged;
    RearrangedWiden(s1, s2, m, m, p, hi);
    RearrangedTrans(s0, s1, s2, m, hi);
    RearrangedWiden(s0, s2, lo, m, hi, hi);
    RearrangedTrans(before, s0, s2, lo, hi);
    SettledRearranged(attr, s0, s2, lo, m, hi);
    AroundSorted(attr, s1, s2, m, p, hi);
    LeTotal(attr, s2[p], s2[p]);
  }

  /** Sorting the part before the pivot leaves everything where it stood relative to the pivot. */
  lemma AroundSorted(attr: Option<string>, s1: seq<Node>, s2: seq<Node>, m: int, p: int, hi: int)
    requires 0 <= m <= p < hi <= |s1| == |s2|
    requires Rearranged(s1, s2, m, p)
    requires forall k | m <= k < p :: Le(attr, s1[k], s1[p])
    requires forall k | p < k < hi :: !Le(attr, s1[k], s1[p])
    ensures forall k | m <= k < p :: Le(attr, s2[k], s2[p])
    ensures forall i, j | m <= i <= p < j < hi :: Le(attr, s2[i], s2[j])
  {
    hide Le, Rearranged;
    RearrangedOutside(s1, s2, m, p, p);
    forall k | m <= k < p ensures Le(attr, s2[k], s2[p]) {
      var i := RearrangedFrom(s1, s2, m, p, k);
    }
    forall i, j | m <= i <= p < j < hi ensures Le(attr, s2[i], s2[j]) {
      RearrangedOutside(s1, s2, m, p, j);
      LeTotal(attr, s2[p], s2[j]);
      if i < p {
        LeTrans(attr, s2[i], s2[p], s2[j]);
      }
    }
  }
}
