/** The sorted index of nodes and its enumeration cursor. */
module NodeIndex {
  import opened NodeOrder
  import opened NodeSort

  /** The linear specification: the matching nodes of `s`, in order. */
  function Filter(attr: Option<string>, q: Query, s: seq<Node>): seq<Node> {
    if s == [] then []
    else
      var last := s[|s| - 1];
      Filter(attr, q, s[..|s| - 1]) + if Matches(attr, q, last) then [last] else []
  }

  lemma {:induction false} FilterCount(attr: Option<string>, q: Query, s: seq<Node>, x: Node)
    ensures multiset(Filter(attr, q, s))[x] == if Matches(attr, q, x) then multiset(s)[x] else 0
  {
    if s != [] {
      var front := s[..|s| - 1];
      assert s == front + [s[|s| - 1]];
      FilterCount(attr, q, front, x);
    }
  }

  /** Filtering does not depend on the order of the nodes. */
  lemma FilterRearranged(attr: Option<string>, q: Query, s: seq<Node>, t: seq<Node>)
    requires multiset(s) == multiset(t)
    ensures multiset(Filter(attr, q, s)) == multiset(Filter(attr, q, t))
  {
    forall x ensures multiset(Filter(attr, q, s))[x] == multiset(Filter(attr, q, t))[x] {
      FilterCount(attr, q, s, x);
      FilterCount(attr, q, t, x);
    }
  }

  lemma {:induction false} FilterSkip(attr: Option<string>, q: Query, s: seq<Node>, m: nat, n: nat)
    requires m <= n <= |s| && forall k | m <= k < n :: !Matches(attr, q, s[k])
    ensures Filter(attr, q, s[..n]) == Filter(attr, q, s[..m])
    decreases n
  {
    if m < n {
      assert s[..n][..n - 1] == s[..n - 1];
      FilterSkip(attr, q, s, m, n - 1);
    }
  }

  lemma FilterStep(attr: Option<string>, q: Query, s: seq<Node>, n: nat)
    requires n < |s|
    ensures Filter(attr, q, s[..n + 1]) == Filter(attr, q, s[..n]) + if Matches(attr, q, s[n]) then [s[n]] else []
  {
    assert s[..n + 1][..n] == s[..n];
  }

  /** The values of the index attribute rise along the index, or the index is so small that it is scanned. */
  predicate Rises(attr: string, s: seq<Node>) {
    |s| <= 2 || forall i, j | 0 <= i < j < |s| :: Strcmp(GetAttr(s[i], attr), GetAttr(s[j], attr)) <= 0
  }

  /** The order of the index fits the query: the query names an element or no value, or the values rise. */
  predicate Ordered(attr: Option<string>, q: Query, s: seq<Node>) {
    q.element.Some? || q.value.None? || attr.None? || Rises(attr.value, s)
  }

  /** Nodes of one name in index order have rising values. */
  lemma OneNameRises(attr: string, s: seq<Node>)
    requires SortedRange(Some(attr), s, 0, |s|) && forall i, j | 0 <= i < j < |s| :: s[i].name == s[j].name
    ensures Rises(attr, s)
  {
    forall i, j | 0 <= i < j < |s| ensures Strcmp(GetAttr(s[i], attr), GetAttr(s[j], attr)) <= 0 {
      assert Le(Some(attr), s[i], s[j]);
      StrcmpZero(s[i].name, s[j].name);
    }
  }

  /** Past an entry the query comes before, every entry is one; before an entry it comes after, likewise. */
  lemma FindSplits(attr: Option<string>, q: Query, s: seq<Node>, i: int, j: int)
    requires SortedRange(attr, s, 0, |s|) && Ordered(attr, q, s) && |s| > 2 && 0 <= i <= j < |s|
    requires q.value.Some? ==> attr.Some?
    ensures Find(attr, q, s[i]) < 0 ==> Find(attr, q, s[j]) < 0
    ensures Find(attr, q, s[j]) > 0 ==> Find(attr, q, s[i]) > 0
  {
    hide Find, Le;
    if i < j {
      assert Le(attr, s[i], s[j]);
      if q.element.Some? {
        FindMonotone(attr, q, s[i], s[j]);
      } else if q.value.None? {
        FindNothing(attr, q, s[i]);
        FindNothing(attr, q, s[j]);
      } else {
        FindByValue(attr.value, q.value.value, s[i]);
        FindByValue(attr.value, q.value.value, s[j]);
        Between(q.value.value, GetAttr(s[i], attr.value), GetAttr(s[j], attr.value));
      }
    }
  }

  lemma FindByValue(attr: string, v: string, node: Node)
    ensures Find(Some(attr), Query(None, Some(v)), node) == Strcmp(v, GetAttr(node, attr))
  {
  }

  lemma FindNothing(attr: Option<string>, q: Query, node: Node)
    requires q.element.None? && q.value.None?
    ensures Find(attr, q, node) == 0
  {
  }

  // ----- the search for the first match, as a function -----

  /** Moving back from a match while the entry before also matches. */
  function BackUp(attr: Option<string>, q: Query, s: seq<Node>, c: nat): nat
    requires c < |s|
  {
    if c > 0 && Find(attr, q, s[c - 1]) == 0 then BackUp(attr, q, s, c - 1) else c
  }

  /** The first match in `[c, last]`; `|s|` if there is none. */
  function Scan(attr: Option<string>, q: Query, s: seq<Node>, c: nat, last: nat): nat
    requires last < |s|
    decreases last + 1 - c
  {
    if c > last then |s| else if Find(attr, q, s[c]) == 0 then c else Scan(attr, q, s, c + 1, last)
  }

  /** The modified binary search in `[first, last]`. */
  function Search(attr: Option<string>, q: Query, s: seq<Node>, first: nat, last: nat): nat
    requires first <= last < |s|
    decreases last - first
  {
    if last - first > 1 then
      var current := (first + last) / 2;
      var diff := Find(attr, q, s[current]);
      if diff == 0 then BackUp(attr, q, s, current)
      else if diff < 0 then Search(attr, q, s, first, current)
      else Search(attr, q, s, current, last)
    else Scan(attr, q, s, first, last)
  }

  /** `m` is the first match of the whole index; its length if nothing matches. */
  ghost predicate IsFirst(attr: Option<string>, q: Query, s: seq<Node>, m: nat) {
    && m <= |s|
    && (m < |s| ==> Matches(attr, q, s[m]))
    && forall k | 0 <= k < m :: !Matches(attr, q, s[k])
  }

  lemma {:induction false} BackUpMatches(attr: Option<string>, q: Query, s: seq<Node>, c: nat)
    requires (q.value.Some? ==> attr.Some?) && c < |s| && Matches(attr, q, s[c])
    ensures var m := BackUp(attr, q, s, c); m <= c && Matches(attr, q, s[m]) && (m > 0 ==> !Matches(attr, q, s[m - 1]))
  {
    hide Find, Matches;
    if c > 0 {
      FindZero(attr, q, s[c - 1]);
      if Find(attr, q, s[c - 1]) == 0 {
        BackUpMatches(attr, q, s, c - 1);
      }
    }
  }

  lemma {:induction false} ScanMatches(attr: Option<string>, q: Query, s: seq<Node>, c: nat, last: nat)
    requires (q.value.Some? ==> attr.Some?) && last < |s|
    ensures var m := Scan(attr, q, s, c, last);
      && (m == |s| || (c <= m <= last && Matches(attr, q, s[m])))
      && forall k | c <= k < m && k <= last :: !Matches(attr, q, s[k])
    decreases last + 1 - c
  {
    hide Find, Matches;
    if c <= last {
      FindZero(attr, q, s[c]);
      if Find(attr, q, s[c]) != 0 {
        ScanMatches(attr, q, s, c + 1, last);
      }
    }
  }

  /** On any index the search returns a match or nothing. */
  lemma {:induction false} SearchMatches(attr: Option<string>, q: Query, s: seq<Node>, first: nat, last: nat)
    requires (q.value.Some? ==> attr.Some?) && first <= last < |s|
    ensures var m := Search(attr, q, s, first, last); m <= |s| && (m < |s| ==> Matches(attr, q, s[m]))
    decreases last - first
  {
    hide Find, Matches;
    if last - first > 1 {
      var current := (first + last) / 2;
      FindZero(attr, q, s[current]);
      if Find(attr, q, s[current]) == 0 {
        BackUpMatches(attr, q, s, current);
      } else if Find(attr, q, s[current]) < 0 {
        SearchMatches(attr, q, s, first, current);
      } else {
        SearchMatches(attr, q, s, current, last);
      }
    } else {
      ScanMatches(attr, q, s, first, last);
    }
  }

  /** When the order fits the query, it returns the first of all matches. */
  lemma {:induction false} SearchFirst(attr: Option<string>, q: Query, s: seq<Node>, first: nat, last: nat)
    requires (q.value.Some? ==> attr.Some?) && first <= last < |s|
    requires SortedRange(attr, s, 0, |s|) && Ordered(attr, q, s)
    requires forall k | 0 <= k < first :: !Matches(attr, q, s[k])
    requires forall k | last < k < |s| :: !Matches(attr, q, s[k])
    ensures IsFirst(attr, q, s, Search(attr, q, s, first, last))
    decreases last - first
  {
    hide Find, Matches, SortedRange, Ordered, Rises;
    if last - first > 1 {
      var current := (first + last) / 2;
      FindZero(attr, q, s[current]);
      if Find(attr, q, s[current]) == 0 {
        BackUpMatches(attr, q, s, current);
        NoneBefore(attr, q, s, BackUp(attr, q, s, current));
      } else if Find(attr, q, s[current]) < 0 {
        NoneFrom(attr, q, s, current);
        SearchFirst(attr, q, s, first, current);
      } else {
        NoneUpTo(attr, q, s, current);
        SearchFirst(attr, q, s, current, last);
      }
    } else {
      ScanMatches(attr, q, s, first, last);
    }
  }

  // ----- what repeated finding returns -----

  /** The entry `mxmlIndexFind()` returns when the cursor stands at the start; `|s|` if it returns none. */
  function Start(attr: Option<string>, q: Query, s: seq<Node>): (m: nat)
    ensures m <= |s| && (m < |s| ==> Matches(attr, q, s[m]))
  {
    if attr.None? && q.value.Some? then |s|
    else if q.element.None? && q.value.None? then AllMatch(attr, q, s); 0
    else if s == [] then 0
    else SearchMatches(attr, q, s, 0, |s| - 1); Search(attr, q, s, 0, |s| - 1)
  }

  /** The matches that stand together from `c` on. */
  function RunFrom(attr: Option<string>, q: Query, s: seq<Node>, c: nat): seq<Node>
    decreases |s| - c
  {
    if c < |s| && Matches(attr, q, s[c]) then [s[c]] + RunFrom(attr, q, s, c + 1) else []
  }

  lemma {:induction false} RunShape(attr: Option<string>, q: Query, s: seq<Node>, c: nat)
    requires c <= |s|
    ensures var n := c + |RunFrom(attr, q, s, c)|;
      && n <= |s| && RunFrom(attr, q, s, c) == s[c..n]
      && (forall k | c <= k < n :: Matches(attr, q, s[k]))
      && (n < |s| ==> !Matches(attr, q, s[n]))
    decreases |s| - c
  {
    hide Matches;
    if c < |s| && Matches(attr, q, s[c]) {
      RunShape(attr, q, s, c + 1);
    }
  }

  /** Repeated finding agrees with the linear filter. */
  predicate FindsAll(attr: Option<string>, q: Query, s: seq<Node>) {
    RunFrom(attr, q, s, Start(attr, q, s)) == Filter(attr, q, s)
  }

  /** When the order fits the query, finding starts at the first of all matches. */
  lemma StartFirst(attr: Option<string>, q: Query, s: seq<Node>)
    requires SortedRange(attr, s, 0, |s|) && Ordered(attr, q, s)
    ensures IsFirst(attr, q, s, Start(attr, q, s))
  {
    hide Search, Matches, SortedRange, Ordered, Rises;
    if attr.None? && q.value.Some? {
      NoValue(attr, q, s);
    } else if q.element.None? && q.value.None? {
      AllMatch(attr, q, s);
    } else if s != [] {
      SearchFirst(attr, q, s, 0, |s| - 1);
    }
  }

  /** Then it finds everything. */
  lemma OrderedFindsAll(attr: Option<string>, q: Query, s: seq<Node>)
    requires SortedRange(attr, s, 0, |s|) && Ordered(attr, q, s)
    ensures FindsAll(attr, q, s)
  {
    hide Start, Matches, SortedRange, Ordered, Rises, RunFrom, Filter;
    var m := Start(attr, q, s);
    var n := m + |RunFrom(attr, q, s, m)|;
    RunShape(attr, q, s, m);
    StartFirst(attr, q, s);
    FilterNone(attr, q, s);
    FilterSkip(attr, q, s, 0, m);
    FilterRun(attr, q, s, m, n);
    if m < n < |s| {
      NoneAfter(attr, q, s, n);
    }
    FilterSkip(attr, q, s, n, |s|);
  }

  lemma FilterNone(attr: Option<string>, q: Query, s: seq<Node>)
    ensures Filter(attr, q, s[..0]) == [] && s[..|s|] == s
  {
  }

  lemma {:induction false} FilterRun(attr: Option<string>, q: Query, s: seq<Node>, m: nat, n: nat)
    requires m <= n <= |s| && forall k | m <= k < n :: Matches(attr, q, s[k])
    ensures Filter(attr, q, s[..n]) == Filter(attr, q, s[..m]) + s[m..n]
    decreases n
  {
    if m < n {
      FilterRun(attr, q, s, m, n - 1);
      FilterStep(attr, q, s, n - 1);
      assert s[m..n] == s[m..n - 1] + [s[n - 1]];
    }
  }

  /** The number of matches grows along the index, by one at every match. */
  lemma {:induction false} FilterGrows(attr: Option<string>, q: Query, s: seq<Node>, m: nat, n: nat)
    requires m <= n <= |s|
    ensures |Filter(attr, q, s[..m])| <= |Filter(attr, q, s[..n])|
    ensures forall k | m <= k < n && Matches(attr, q, s[k]) :: |Filter(attr, q, s[..m])| < |Filter(attr, q, s[..n])|
    decreases n
  {
    hide Matches;
    if m < n {
      FilterGrows(attr, q, s, m, n - 1);
      FilterStep(attr, q, s, n - 1);
    }
  }

  /** If finding misses nothing, every match stands in the run it returns. */
  lemma RunCovers(attr: Option<string>, q: Query, s: seq<Node>, k: nat)
    requires FindsAll(attr, q, s) && k < |s| && Matches(attr, q, s[k])
    ensures var m := Start(attr, q, s); m <= k && forall j | m <= j <= k :: Matches(attr, q, s[j])
  {
    hide Start, Matches, RunFrom, Filter;
    var m := Start(attr, q, s);
    var n := m + |RunFrom(attr, q, s, m)|;
    RunShape(attr, q, s, m);
    FilterRun(attr, q, s, m, n);
    FilterGrows(attr, q, s, 0, m);
    FilterGrows(attr, q, s, n, |s|);
    FilterNone(attr, q, s);
  }

  // ----- queries by value alone -----

  lemma {:induction false} BackUpRun(attr: Option<string>, q: Query, s: seq<Node>, c: nat)
    requires (q.value.Some? ==> attr.Some?) && c < |s| && Matches(attr, q, s[c])
    ensures forall k | BackUp(attr, q, s, c) <= k <= c :: Matches(attr, q, s[k])
  {
    hide Find, Matches;
    if c > 0 {
      FindZero(attr, q, s[c - 1]);
      if Find(attr, q, s[c - 1]) == 0 {
        BackUpRun(attr, q, s, c - 1);
      }
    }
  }

  /** A search never ends beyond its window, nor before it unless matches lead there. */
  lemma {:induction false} SearchInside(attr: Option<string>, q: Query, s: seq<Node>, first: nat, last: nat)
    requires (q.value.Some? ==> attr.Some?) && first <= last < |s|
    ensures var m := Search(attr, q, s, first, last);
      m < |s| ==> m <= last && (m < first ==> forall k | m <= k <= first :: Matches(attr, q, s[k]))
    decreases last - first
  {
    hide Find, Matches;
    if last - first > 1 {
      var current := (first + last) / 2;
      FindZero(attr, q, s[current]);
      if Find(attr, q, s[current]) == 0 {
        BackUpMatches(attr, q, s, current);
        BackUpRun(attr, q, s, current);
      } else if Find(attr, q, s[current]) < 0 {
        SearchInside(attr, q, s, first, current);
      } else {
        SearchInside(attr, q, s, current, last);
      }
    } else {
      ScanMatches(attr, q, s, first, last);
    }
  }

  /** The search for `v` in the window ends at an entry from which matches lead to entry `k`. */
  ghost predicate Reaches(attr: string, v: string, s: seq<Node>, first: nat, last: nat, k: nat)
    requires first <= last < |s| && k < |s|
  {
    var m := Search(Some(attr), Query(None, Some(v)), s, first, last);
    m <= k && forall j | m <= j <= k :: GetAttr(s[j], attr) == v
  }

  function ByValue(v: string): Query {
    Query(None, Some(v))
  }

  /** A search that turns left at `c` stays before it. */
  lemma GoesLeft(attr: string, v: string, s: seq<Node>, first: nat, last: nat, k: nat)
    requires first + 1 < last < |s| && k < |s| && Strcmp(v, GetAttr(s[(first + last) / 2], attr)) < 0
    ensures var c := (first + last) / 2;
      Reaches(attr, v, s, first, last, k) <==> k < c && Reaches(attr, v, s, first, c, k)
  {
    hide Strcmp, GetAttr, Find, Matches;
    var c := (first + last) / 2;
    StrcmpZero(v, v);
    FindByValue(attr, v, s[c]);
    SearchInside(Some(attr), ByValue(v), s, first, c);
    assert GetAttr(s[c], attr) != v;
  }

  /** A search that turns right at `c` stays behind it. */
  lemma GoesRight(attr: string, v: string, s: seq<Node>, first: nat, last: nat, k: nat)
    requires first + 1 < last < |s| && k < |s| && Strcmp(v, GetAttr(s[(first + last) / 2], attr)) > 0
    ensures var c := (first + last) / 2;
      Reaches(attr, v, s, first, last, k) <==> c < k && Reaches(attr, v, s, c, last, k)
  {
    hide Strcmp, GetAttr, Find, Matches;
    var c := (first + last) / 2;
    StrcmpZero(v, v);
    FindByValue(attr, v, s[c]);
    SearchInside(Some(attr), ByValue(v), s, c, last);
    MatchesByValue(attr, v, s[c]);
    assert GetAttr(s[c], attr) != v;
  }

  /** A search that ends at `c` reaches nothing that another value stands before. */
  lemma EndsHere(attr: string, v: string, s: seq<Node>, first: nat, last: nat, k: nat, j: nat)
    requires first + 1 < last < |s| && k < |s| && GetAttr(s[(first + last) / 2], attr) == v
    requires var c := (first + last) / 2; c <= j <= k || k <= j <= c
    requires j < |s| && GetAttr(s[j], attr) != v
    ensures !Reaches(attr, v, s, first, last, k)
  {
    hide Strcmp, GetAttr, Find, Matches;
    var c := (first + last) / 2;
    StrcmpZero(v, v);
    FindByValue(attr, v, s[c]);
    MatchesByValue(attr, v, s[c]);
    MatchesByValue(attr, v, s[j]);
    BackUpMatches(Some(attr), ByValue(v), s, c);
    BackUpRun(Some(attr), ByValue(v), s, c);
  }

  lemma MatchesByValue(attr: string, v: string, node: Node)
    ensures Matches(Some(attr), ByValue(v), node) <==> GetAttr(node, attr) == v
  {
  }

  /** Where the value falls from entry `i` to the next, the searches for the two values part: in a window with a
      third entry they cannot both come out at a run that contains their entry. */
  lemma {:induction false} FallLoses(attr: string, s: seq<Node>, first: nat, last: nat, i: nat)
    requires first <= i && i + 1 <= last < |s| && (first < i || i + 1 < last)
    requires Strcmp(GetAttr(s[i + 1], attr), GetAttr(s[i], attr)) < 0
    ensures !Reaches(attr, GetAttr(s[i], attr), s, first, last, i)
      || !Reaches(attr, GetAttr(s[i + 1], attr), s, first, last, i + 1)
    decreases last - first
  {
    hide Strcmp, GetAttr, Reaches;
    var c := (first + last) / 2;
    var a, b, w := GetAttr(s[i], attr), GetAttr(s[i + 1], attr), GetAttr(s[c], attr);
    StrcmpZero(a, w);
    StrcmpZero(b, w);
    StrcmpZero(a, a);
    if c <= i {
      if Strcmp(b, w) < 0 {
        GoesLeft(attr, b, s, first, last, i + 1);
      } else if Strcmp(a, w) < 0 {
        GoesLeft(attr, a, s, first, last, i);
      } else if Strcmp(b, w) == 0 {
        EndsHere(attr, b, s, first, last, i + 1, i);
      } else {
        StrictTrans(w, b, a);
        GoesRight(attr, a, s, first, last, i);
        GoesRight(attr, b, s, first, last, i + 1);
        if c < i {
          FallLoses(attr, s, c, last, i);
        }
      }
    } else if Strcmp(a, w) > 0 {
      GoesRight(attr, a, s, first, last, i);
    } else if Strcmp(a, w) == 0 {
      EndsHere(attr, a, s, first, last, i, i + 1);
    } else {
      StrcmpTrans(b, a, w);
      GoesLeft(attr, a, s, first, last, i);
      GoesLeft(attr, b, s, first, last, i + 1);
      if i + 1 < c {
        FallLoses(attr, s, first, c, i);
      }
    }
  }

  lemma StrictTrans(w: string, b: string, a: string)
    requires Strcmp(b, w) > 0 && Strcmp(b, a) < 0
    ensures Strcmp(a, w) > 0
  {
    hide Strcmp;
    StrcmpFlip(w, b);
    StrcmpTrans(w, b, a);
    StrcmpFlip(w, a);
  }

  /** What is found by value is reached by the search. */
  lemma FoundReaches(attr: string, s: seq<Node>, k: nat)
    requires k < |s| && FindsAll(Some(attr), ByValue(GetAttr(s[k], attr)), s)
    ensures Reaches(attr, GetAttr(s[k], attr), s, 0, |s| - 1, k)
  {
    hide Search, GetAttr, Matches, FindsAll;
    var v := GetAttr(s[k], attr);
    MatchesByValue(attr, v, s[k]);
    RunCovers(Some(attr), ByValue(v), s, k);
    var m := Start(Some(attr), ByValue(v), s);
    forall j | m <= j <= k ensures GetAttr(s[j], attr) == v {
      MatchesByValue(attr, v, s[j]);
    }
  }

  lemma NoFall(attr: string, s: seq<Node>, i: nat)
    requires |s| > 2 && i + 1 < |s| && forall v :: FindsAll(Some(attr), ByValue(v), s)
    ensures Strcmp(GetAttr(s[i], attr), GetAttr(s[i + 1], attr)) <= 0
  {
    hide Strcmp, GetAttr, Reaches, FindsAll;
    FoundReaches(attr, s, i);
    FoundReaches(attr, s, i + 1);
    StrcmpFlip(GetAttr(s[i + 1], attr), GetAttr(s[i], attr));
    if Strcmp(GetAttr(s[i + 1], attr), GetAttr(s[i], attr)) < 0 {
      FallLoses(attr, s, 0, |s| - 1, i);
      assert false;
    }
  }

  lemma {:induction false} NoFallAnywhere(attr: string, s: seq<Node>, i: nat, j: nat)
    requires |s| > 2 && i < j < |s| && forall v :: FindsAll(Some(attr), ByValue(v), s)
    ensures Strcmp(GetAttr(s[i], attr), GetAttr(s[j], attr)) <= 0
    decreases j
  {
    hide Strcmp, GetAttr, FindsAll;
    NoFall(attr, s, j - 1);
    if i < j - 1 {
      NoFallAnywhere(attr, s, i, j - 1);
      StrcmpTrans(GetAttr(s[i], attr), GetAttr(s[j - 1], attr), GetAttr(s[j], attr));
    }
  }

  /** Queries by value alone find every match of every value if and only if the values rise along the index, or the
      index has at most two entries. */
  lemma ValueAloneExact(attr: string, s: seq<Node>)
    requires SortedRange(Some(attr), s, 0, |s|)
    ensures (forall v :: FindsAll(Some(attr), ByValue(v), s)) <==> Rises(attr, s)
  {
    hide FindsAll, Strcmp, GetAttr, SortedRange;
    if forall v :: FindsAll(Some(attr), ByValue(v), s) {
      if |s| > 2 {
        forall i, j | 0 <= i < j < |s| ensures Strcmp(GetAttr(s[i], attr), GetAttr(s[j], attr)) <= 0 {
          NoFallAnywhere(attr, s, i, j);
        }
      }
    }
    if Rises(attr, s) {
      forall v ensures FindsAll(Some(attr), ByValue(v), s) {
        OrderedFindsAll(Some(attr), ByValue(v), s);
      }
    }
  }

  /** A query by value alone can miss a node when names differ: three nodes in index order, the first of
      which has the value asked for. */
  lemma ValueAloneCanMiss()
    ensures
      var attr := Some("id");
      var s := [Node(0, "a", map["id" := "2"]), Node(1, "b", map["id" := "1"]), Node(2, "c", map["id" := "1"])];
      var q := Query(None, Some("2"));
      && SortedRange(attr, s, 0, 3)
      && Filter(attr, q, s) == [s[0]]
      && Search(attr, q, s, 0, 2) == 3
  {
    var attr := Some("id");
    var s := [Node(0, "a", map["id" := "2"]), Node(1, "b", map["id" := "1"]), Node(2, "c", map["id" := "1"])];
    var q := Query(None, Some("2"));
    assert Find(attr, q, s[1]) > 0 && Find(attr, q, s[2]) > 0;
    assert Matches(attr, q, s[0]) && !Matches(attr, q, s[1]) && !Matches(attr, q, s[2]);
    NamesAscend();
    OnlyFirstMatches(attr, q, s);
    SearchTurnsRight(attr, q, s);
  }

  lemma NamesAscend()
    ensures Strcmp("a", "b") < 0 && Strcmp("b", "c") < 0 && Strcmp("a", "c") < 0
  {
  }

  lemma OnlyFirstMatches(attr: Option<string>, q: Query, s: seq<Node>)
    requires |s| == 3 && Matches(attr, q, s[0]) && !Matches(attr, q, s[1]) && !Matches(attr, q, s[2])
    ensures Filter(attr, q, s) == [s[0]]
  {
    hide Find, Matches;
    assert s[..3] == s;
    FirstFound(attr, q, s, 1);
    FilterSkip(attr, q, s, 1, 3);
  }

  lemma SearchTurnsRight(attr: Option<string>, q: Query, s: seq<Node>)
    requires |s| == 3 && Find(attr, q, s[1]) > 0 && Find(attr, q, s[2]) > 0
    ensures Search(attr, q, s, 0, 2) == 3
  {
    hide Find;
    assert Search(attr, q, s, 0, 2) == Search(attr, q, s, 1, 2) == Scan(attr, q, s, 1, 2) == Scan(attr, q, s, 2, 2);
  }

  class Index {
    const attr: Option<string>
    const nodes: array<Node>
    var curNode: nat
    /** The nodes the index was made from, in document order. */
    ghost const source: seq<Node>

    ghost predicate Valid()
      reads this, nodes
    {
      && curNode <= nodes.Length
      && multiset(nodes[..]) == multiset(source)
      && SortedRange(attr, nodes[..], 0, nodes.Length)
    }

    /** `mxmlIndexNew()` on the nodes it collects. */
    constructor (source: seq<Node>, attr: Option<string>)
      ensures Valid() && this.source == source && this.attr == attr && curNode == 0
      ensures fresh(nodes) && Alphabetical(attr, nodes[..], 0, nodes.Length)
    {
      hide InOrder;
      this.attr := attr;
      this.source := source;
      curNode := 0;
      nodes := new Node[|source|](i requires 0 <= i < |source| => source[i]);
      new;
      assert nodes[..] == source;
      if nodes.Length > 1 {
        IndexSort(attr, nodes, 0, nodes.Length - 1);
        assert nodes[..] == nodes[0..nodes.Length] && source == source[0..nodes.Length];
      }
      SortedExact(attr, nodes[..], 0, nodes.Length);
    }

    /** `mxmlIndexReset()`. */
    method Reset() returns (first: Option<Node>)
      requires Valid()
      modifies this`curNode
      ensures Valid() && curNode == 0
      ensures first == if nodes.Length > 0 then Some(nodes[0]) else None
    {
      curNode := 0;
      first := if nodes.Length > 0 then Some(nodes[0]) else None;
    }

    /** `mxmlIndexEnum()`. */
    method Enum() returns (r: Option<Node>)
      requires Valid()
      modifies this`curNode
      ensures Valid()
      ensures old(curNode) < nodes.Length ==> r == Some(nodes[old(curNode)]) && curNode == old(curNode) + 1
      ensures old(curNode) == nodes.Length ==> r == None && curNode == old(curNode)
    {
      if curNode < nodes.Length {
        r := Some(nodes[curNode]);
        curNode := curNode + 1;
      } else {
        r := None;
      }
    }

    /** The part of `mxmlIndexFind()` that runs when the cursor stands at the start. */
    method FindFirst(q: Query) returns (m: nat)
      requires nodes.Length > 0
      ensures m == Search(attr, q, nodes[..], 0, nodes.Length - 1)
    {
      hide Find;
      ghost var s := nodes[..];
      var first := 0;
      var last := nodes.Length - 1;
      while last - first > 1
        invariant 0 <= first <= last < nodes.Length
        invariant Search(attr, q, s, first, last) == Search(attr, q, s, 0, nodes.Length - 1)
      {
        var current := (first + last) / 2;
        var diff := Find(attr, q, nodes[current]);
        if diff == 0 {
          ghost var c := current;
          while current > 0 && Find(attr, q, nodes[current - 1]) == 0
            invariant 0 <= current < nodes.Length
            invariant BackUp(attr, q, s, current) == BackUp(attr, q, s, c)
          {
            current := current - 1;
          }
          return current;
        } else if diff < 0 {
          last := current;
        } else {
          first := current;
        }
      }
      var current := first;
      while current <= last
        invariant first <= current <= last + 1
        invariant Scan(attr, q, s, current, last) == Scan(attr, q, s, first, last)
      {
        if Find(attr, q, nodes[current]) == 0 {
          return current;
        }
        current := current + 1;
      }
      return nodes.Length;
    }

    /** `mxmlIndexFind()`. */
    method FindNext(q: Query) returns (r: Option<Node>)
      requires Valid()
      modifies this`curNode
      ensures Valid()
      // what is returned is the match just before the cursor
      ensures r.Some? ==> 0 < curNode <= nodes.Length && r == Some(nodes[curNode - 1]) && Matches(attr, q, nodes[curNode - 1])
      // from the start it is where the search ends, and nothing if the search finds nothing
      ensures old(curNode) == 0 ==>
        var m := Start(attr, q, nodes[..]);
        if m < nodes.Length then r == Some(nodes[m]) && curNode == m + 1 else r == None
      // later it is the entry at the cursor, and nothing if that does not match
      ensures 0 < old(curNode) ==>
        if old(curNode) < nodes.Length && Matches(attr, q, nodes[old(curNode)]) then
          r == Some(nodes[old(curNode)]) && curNode == old(curNode) + 1
        else r == None
      // once nothing is found the cursor is at the end, and stays there
      ensures r.None? && (q.value.Some? ==> attr.Some?) ==> curNode == nodes.Length
      ensures q.value.Some? && attr.None? ==> r.None? && curNode == old(curNode)
      ensures old(curNode) == nodes.Length ==> r.None? && curNode == old(curNode)
    {
      hide Find, Matches, Le, Search, SortedRange;
      if attr.None? && q.value.Some? {
        NoValue(attr, q, nodes[..]);
        return None;
      }
      if q.element.None? && q.value.None? {
        AllMatch(attr, q, nodes[..]);
        r := Enum();
        return;
      }
      if nodes.Length == 0 {
        return None;
      }
      if curNode == 0 {
        var m := FindFirst(q);
        SearchMatches(attr, q, nodes[..], 0, nodes.Length - 1);
        if m < nodes.Length {
          curNode := m + 1;
          return Some(nodes[m]);
        }
      } else if curNode < nodes.Length {
        FindZero(attr, q, nodes[curNode]);
        if Find(attr, q, nodes[curNode]) == 0 {
          curNode := curNode + 1;
          return Some(nodes[curNode - 1]);
        }
      }
      curNode := nodes.Length;
      return None;
    }

    lemma ValidFacts()
      requires Valid()
      ensures SortedRange(attr, nodes[..], 0, nodes.Length) && multiset(nodes[..]) == multiset(source)
    {
    }

    /** A caller's loop: reset, then find until NULL. */
    method Collect(q: Query) returns (found: seq<Node>)
      requires Valid()
      modifies this`curNode
      ensures Valid()
      ensures found == RunFrom(attr, q, nodes[..], Start(attr, q, nodes[..]))
      ensures (q.value.Some? ==> attr.Some?) ==> curNode == nodes.Length
    {
      hide *;
      ghost var s := nodes[..];
      ghost var run := RunFrom(attr, q, s, Start(attr, q, s));
      found := [];
      var r := Reset();
      RunStep(attr, q, s, found, Start(attr, q, s));
      r := FindNext(q);
      while r.Some?
        invariant Valid()
        invariant r.Some? ==> 0 < curNode <= |s| && Joined(found + [r.value], RunFrom(attr, q, s, curNode)) == run
        invariant r.None? ==> found == run
        invariant r.None? && !(q.value.Some? && attr.None?) ==> curNode == nodes.Length
        decreases if r.Some? then nodes.Length - curNode + 1 else 0
      {
        found := found + [r.value];
        RunStep(attr, q, s, found, curNode);
        r := FindNext(q);
      }
    }

    /** What that loop is for: where the order fits the query it returns every match. */
    method FindAll(q: Query) returns (found: seq<Node>)
      requires Valid()
      modifies this`curNode
      ensures Valid()
      ensures found == RunFrom(attr, q, nodes[..], Start(attr, q, nodes[..]))
      ensures Ordered(attr, q, nodes[..]) ==> found == Filter(attr, q, nodes[..])
      ensures Ordered(attr, q, nodes[..]) ==> multiset(found) == multiset(Filter(attr, q, source))
      ensures Alphabetical(attr, found, 0, |found|)
      ensures (q.value.Some? ==> attr.Some?) ==> curNode == nodes.Length
    {
      hide *;
      found := Collect(q);
      ValidFacts();
      RunFacts(attr, q, nodes[..], source);
      SortedExact(attr, found, 0, |found|);
    }
  }

  function Joined(a: seq<Node>, b: seq<Node>): seq<Node> {
    a + b
  }

  /** The nodes `found` so far and the run from `c` on: over, or one node further. */
  lemma RunStep(attr: Option<string>, q: Query, s: seq<Node>, found: seq<Node>, c: nat)
    ensures Joined(found, RunFrom(attr, q, s, c)) ==
      if c < |s| && Matches(attr, q, s[c]) then Joined(found + [s[c]], RunFrom(attr, q, s, c + 1)) else found
    ensures found == [] ==> Joined(found, RunFrom(attr, q, s, c)) == RunFrom(attr, q, s, c)
  {
    if c < |s| && Matches(attr, q, s[c]) {
      assert found + ([s[c]] + RunFrom(attr, q, s, c + 1)) == (found + [s[c]]) + RunFrom(attr, q, s, c + 1);
    }
  }

  lemma RunSorted(attr: Option<string>, q: Query, s: seq<Node>, c: nat)
    requires SortedRange(attr, s, 0, |s|) && c <= |s|
    ensures SortedRange(attr, RunFrom(attr, q, s, c), 0, |RunFrom(attr, q, s, c)|)
  {
    hide Le, Matches, RunFrom;
    RunShape(attr, q, s, c);
  }

  /** What a run found in a sorted index is worth. */
  lemma RunFacts(attr: Option<string>, q: Query, s: seq<Node>, source: seq<Node>)
    requires SortedRange(attr, s, 0, |s|) && multiset(s) == multiset(source)
    ensures var found := RunFrom(attr, q, s, Start(attr, q, s));
      && SortedRange(attr, found, 0, |found|)
      && (Ordered(attr, q, s) ==> found == Filter(attr, q, s) && multiset(found) == multiset(Filter(attr, q, source)))
  {
    hide SortedRange, Ordered, Matches, Start;
    FilterRearranged(attr, q, s, source);
    RunSorted(attr, q, s, Start(attr, q, s));
    if Ordered(attr, q, s) {
      OrderedFindsAll(attr, q, s);
    }
  }

  lemma FirstFound(attr: Option<string>, q: Query, s: seq<Node>, c: nat)
    requires 0 < c <= |s| && IsFirst(attr, q, s, c - 1)
    ensures Filter(attr, q, s[..c]) == [s[c - 1]]
  {
    FilterSkip(attr, q, s, 0, c - 1);
    FilterStep(attr, q, s, c - 1);
  }

  lemma NoValue(attr: Option<string>, q: Query, s: seq<Node>)
    requires attr.None? && q.value.Some?
    ensures forall k | 0 <= k < |s| :: !Matches(attr, q, s[k])
  {
  }

  lemma AllMatch(attr: Option<string>, q: Query, s: seq<Node>)
    requires q.element.None? && q.value.None?
    ensures forall k | 0 <= k < |s| :: Matches(attr, q, s[k])
  {
  }

  lemma NoneFrom(attr: Option<string>, q: Query, s: seq<Node>, c: nat)
    requires SortedRange(attr, s, 0, |s|) && Ordered(attr, q, s) && c < |s| && |s| > 2
    requires (q.value.Some? ==> attr.Some?) && Find(attr, q, s[c]) < 0
    ensures forall k | c <= k < |s| :: !Matches(attr, q, s[k])
  {
    hide Find, Matches, Le;
    forall k | c <= k < |s| ensures !Matches(attr, q, s[k]) {
      FindSplits(attr, q, s, c, k);
      FindZero(attr, q, s[k]);
    }
  }

  lemma NoneUpTo(attr: Option<string>, q: Query, s: seq<Node>, c: nat)
    requires SortedRange(attr, s, 0, |s|) && Ordered(attr, q, s) && c < |s| && |s| > 2
    requires (q.value.Some? ==> attr.Some?) && Find(attr, q, s[c]) > 0
    ensures forall k | 0 <= k <= c :: !Matches(attr, q, s[k])
  {
    hide Find, Matches, Le;
    forall k | 0 <= k <= c ensures !Matches(attr, q, s[k]) {
      FindSplits(attr, q, s, k, c);
      FindZero(attr, q, s[k]);
    }
  }

  /** Backing up stops at the first of the matches, which stand together. */
  lemma NoneBefore(attr: Option<string>, q: Query, s: seq<Node>, c: nat)
    requires SortedRange(attr, s, 0, |s|) && Ordered(attr, q, s) && c < |s| && |s| > 2
    requires (q.value.Some? ==> attr.Some?) && Matches(attr, q, s[c])
    requires c > 0 ==> !Matches(attr, q, s[c - 1])
    ensures forall k | 0 <= k < c :: !Matches(attr, q, s[k])
  {
    hide Find, Matches, Le;
    if c > 0 {
      FindZero(attr, q, s[c]);
      FindZero(attr, q, s[c - 1]);
      FindSplits(attr, q, s, c - 1, c);
      NoneUpTo(attr, q, s, c - 1);
    }
  }

  lemma NoneAfter(attr: Option<string>, q: Query, s: seq<Node>, c: nat)
    requires SortedRange(attr, s, 0, |s|) && Ordered(attr, q, s) && 0 < c < |s|
    requires Matches(attr, q, s[c - 1]) && !Matches(attr, q, s[c])
    ensures forall k | c <= k < |s| :: !Matches(attr, q, s[k])
  {
    hide Find, Matches, Le, Rises;
    if q.value.Some? && attr.None? {
      NoValue(attr, q, s);
    } else if |s| > 2 {
      FindZero(attr, q, s[c - 1]);
      FindZero(attr, q, s[c]);
      FindSplits(attr, q, s, c - 1, c);
      NoneFrom(attr, q, s, c);
    }
  }
}
