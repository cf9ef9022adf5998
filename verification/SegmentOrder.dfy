/** In a family of nested or disjoint section lists, treated supersets first, every segment meets
    its sections either all generated or none of them. */
module SegmentOrder {
  import opened ElfTypes
  import opened ElfState
  import opened Layout
  import opened FreshRun
  import opened Ordering

  predicate Disjoint(a: seq<nat>, b: seq<nat>) {
    forall x :: x in a ==> x !in b
  }

  /** Any two segments have disjoint, equal or nested section sets. */
  predicate Laminar(lists: seq<seq<nat>>) {
    forall m, n :: 0 <= m < |lists| && 0 <= n < |lists| ==>
      Disjoint(lists[m], lists[n]) || Subset(lists[m], lists[n]) || Subset(lists[n], lists[m])
  }

  predicate AllSorted(lists: seq<seq<nat>>) {
    forall m :: 0 <= m < |lists| ==> Sorted(lists[m])
  }

  /** Some segment of `treated` has section i. */
  predicate InSome(lists: seq<seq<nat>>, treated: seq<nat>, i: nat) {
    exists m :: 0 <= m < |treated| && treated[m] < |lists| && i in lists[treated[m]]
  }

  lemma {:induction false} SortedSize(s: seq<nat>)
    requires Sorted(s)
    ensures |Elems(s)| == |s|
  {
    if s != [] {
      var init := s[..|s| - 1];
      SortedSize(init);
      assert s == init + [s[|s| - 1]];
      assert Elems(s) == Elems(init) + {s[|s| - 1]};
    }
  }

  lemma InitOf(a: seq<nat>)
    requires Sorted(a) && a != []
    ensures forall x: nat :: x in a[..|a| - 1] <==> x in a && x < a[|a| - 1]
    ensures forall x: nat :: x in a ==> x <= a[|a| - 1]
  {
    var init, last := a[..|a| - 1], a[|a| - 1];
    forall x: nat
      ensures x in init <==> x in a && x < last
      ensures x in a ==> x <= last
    {
      if x in a {
        var j :| 0 <= j < |a| && a[j] == x;
        assert j < |init| ==> init[j] == x;
      }
      if x in init {
        var j :| 0 <= j < |init| && init[j] == x;
        assert a[j] == x;
      }
    }
  }

  /** Two increasing lists with the same elements are the same list. */
  lemma {:induction false} SortedIsUnique(a: seq<nat>, b: seq<nat>)
    requires Sorted(a) && Sorted(b)
    requires forall x: nat :: x in a <==> x in b
    ensures a == b
  {
    SortedSize(a);
    SortedSize(b);
    assert Elems(a) == Elems(b);
    if a != [] {
      InitOf(a);
      InitOf(b);
      var x, y := a[|a| - 1], b[|b| - 1];
      assert x in b && y in a;
      assert x <= y && y <= x;
      var a', b' := a[..|a| - 1], b[..|b| - 1];
      forall z: nat
        ensures z in a' <==> z in b'
      {
        assert z in a <==> z in b;
      }
      SortedIsUnique(a', b');
      assert a == a' + [x] && b == b' + [y];
    }
  }

  lemma SubsetSize(a: set<nat>, b: set<nat>)
    requires a <= b
    ensures |a| <= |b| && (|a| == |b| ==> a == b)
  {
    assert b == a + (b - a);
    assert |b| == |a| + |b - a|;
    if |a| == |b| {
      assert b - a == {};
    }
  }

  /** If an earlier segment shares a section with segment k, it has all of k's sections. */
  lemma EarlierIncludes(lists: seq<seq<nat>>, order: seq<nat>, m: nat, k: nat, i: nat)
    requires Laminar(lists) && AllSorted(lists) && Indexes(lists, order) && Topological(lists, order)
    requires m < k < |order| && i in lists[order[m]] && i in lists[order[k]]
    ensures Subset(lists[order[k]], lists[order[m]])
  {
    var earlier, later := lists[order[m]], lists[order[k]];
    assert !Disjoint(earlier, later) && !IsSubsequenceOf(earlier, later);
    if Subset(earlier, later) {
      NotStrictlyIncluded(earlier, later);
    }
  }

  /** A list included in another, but not strictly, has the same elements. */
  lemma NotStrictlyIncluded(a: seq<nat>, b: seq<nat>)
    requires Sorted(a) && Sorted(b) && Subset(a, b) && !IsSubsequenceOf(a, b)
    ensures Subset(b, a)
  {
    SortedSize(a);
    SortedSize(b);
    assert Elems(a) <= Elems(b);
    SubsetSize(Elems(a), Elems(b));
    IncludesIsSubset(b, a);
    assert forall x :: x in b ==> x in Elems(b);
  }

  lemma AllOrNone(lists: seq<seq<nat>>, order: seq<nat>, k: nat)
    requires Laminar(lists) && AllSorted(lists) && Indexes(lists, order) && Topological(lists, order)
    requires k < |order|
    ensures (forall i :: i in lists[order[k]] ==> InSome(lists, order[..k], i)) ||
            (forall i :: i in lists[order[k]] ==> !InSome(lists, order[..k], i))
  {
    if i :| i in lists[order[k]] && InSome(lists, order[..k], i) {
      var m := FirstOwner(lists, order, k, i);
      forall j | j in lists[order[k]]
        ensures InSome(lists, order[..k], j)
      {
        assert order[..k][m] == order[m] && j in lists[order[m]];
      }
    }
  }

  /** The earlier segment that owns section i of segment k, and with it all of k's sections. */
  lemma FirstOwner(lists: seq<seq<nat>>, order: seq<nat>, k: nat, i: nat) returns (m: nat)
    requires Laminar(lists) && AllSorted(lists) && Indexes(lists, order) && Topological(lists, order)
    requires k < |order| && i in lists[order[k]] && InSome(lists, order[..k], i)
    ensures m < k && i in lists[order[m]] && Subset(lists[order[k]], lists[order[m]])
  {
    m :| 0 <= m < |order[..k]| && order[..k][m] < |lists| && i in lists[order[..k][m]];
    EarlierIncludes(lists, order, m, k, i);
  }

  lemma InSomeStep(lists: seq<seq<nat>>, order: seq<nat>, k: nat, i: nat)
    requires k < |order| && Indexes(lists, order)
    ensures InSome(lists, order[..k + 1], i) <==> InSome(lists, order[..k], i) || i in lists[order[k]]
  {
    if InSome(lists, order[..k], i) {
      var m :| 0 <= m < k && order[..k][m] < |lists| && i in lists[order[..k][m]];
      assert order[..k + 1][m] == order[m];
    }
    if i in lists[order[k]] {
      assert order[..k + 1][k] == order[k];
    }
    if InSome(lists, order[..k + 1], i) {
      var m :| 0 <= m < k + 1 && order[..k + 1][m] < |lists| && i in lists[order[..k + 1][m]];
      if m < k {
        assert order[..k][m] == order[m];
      }
    }
  }

  /** The order lists every segment once. */
  predicate Distinct(order: seq<nat>) {
    forall i, j :: 0 <= i < j < |order| ==> order[i] != order[j]
  }

  lemma PermutationIsDistinct(order: seq<nat>, n: nat)
    requires multiset(order) == multiset(Range(n))
    ensures Distinct(order) && |order| == n
    ensures forall k :: 0 <= k < n ==> k in order
  {
    assert |multiset(order)| == |multiset(Range(n))|;
    forall k | 0 <= k < n
      ensures k in order
    {
      assert Range(n)[k] == k;
      assert k in multiset(order);
    }
    forall i, j | 0 <= i < j < |order|
      ensures order[i] != order[j]
    {
      if order[i] == order[j] {
        CountTwice(order, i, j);
        CountOnce(n, order[i]);
      }
    }
  }

  lemma CountTwice(s: seq<nat>, i: nat, j: nat)
    requires i < j < |s| && s[i] == s[j]
    ensures multiset(s)[s[i]] >= 2
  {
    assert s == s[..i + 1] + s[i + 1..];
    assert s[i] in s[..i + 1] && s[i] in s[i + 1..] by {
      assert s[..i + 1][i] == s[i] && s[i + 1..][j - i - 1] == s[j];
    }
    assert multiset(s) == multiset(s[..i + 1]) + multiset(s[i + 1..]);
  }

  lemma {:induction false} CountOnce(n: nat, x: nat)
    ensures multiset(Range(n))[x] <= 1
  {
    if n > 0 {
      CountOnce(n - 1, x);
      assert Range(n) == Range(n - 1) + [n - 1];
      if x == n - 1 {
        assert x !in Range(n - 1);
        assert multiset(Range(n - 1))[x] == 0;
      }
    }
  }

  /** What the layout relies on about the computed order. */
  lemma OrderFacts(segs: seq<SegmentState>)
    ensures var order := Order(segs);
            && |order| == |segs| && Distinct(order) && Topological(Lists(segs), order)
            && forall k :: 0 <= k < |segs| ==> k in order
  {
    OrderedIsTopological(Lists(segs), Zeros(segs));
    PermutationIsDistinct(Order(segs), |segs|);
  }

  // ----- the segments that have their sections first

  function IndexIn(order: seq<nat>, k: nat): (p: nat)
    requires k in order
    ensures p < |order| && order[p] == k
  {
    if order[0] == k then 0 else 1 + IndexIn(order[1..], k)
  }

  /** Segment k comes before segment m. */
  predicate Earlier(order: seq<nat>, k: nat, m: nat) {
    k in order && m in order && IndexIn(order, k) < IndexIn(order, m)
  }

  /** Segment k has sections, and none of them in common with an earlier segment. */
  predicate PlacesIn(lists: seq<seq<nat>>, order: seq<nat>, k: nat) {
    && k < |lists| && lists[k] != []
    && forall m :: 0 <= m < |lists| && Earlier(order, m, k) ==> Disjoint(lists[m], lists[k])
  }

  /** Segment k has sections, and no segment strictly includes it. */
  predicate OutermostIn(lists: seq<seq<nat>>, k: nat) {
    && k < |lists| && lists[k] != []
    && forall m :: 0 <= m < |lists| ==> !IsSubsequenceOf(lists[k], lists[m])
  }

  /** An order of all segments in which no segment comes before one that strictly includes it. */
  predicate Orders(lists: seq<seq<nat>>, order: seq<nat>) {
    && Indexes(lists, order) && Topological(lists, order) && (forall m :: 0 <= m < |lists| ==> m in order)
  }

  lemma NotBoth(order: seq<nat>, k: nat, m: nat)
    requires k in order && m in order && k != m
    ensures Earlier(order, k, m) <==> !Earlier(order, m, k)
  {
    assert order[IndexIn(order, k)] != order[IndexIn(order, m)];
  }

  /** Among the segments with sections alone the order is the same. */
  lemma {:induction false} EarlierInMain(lists: seq<seq<nat>>, order: seq<nat>, k: nat, m: nat)
    requires Indexes(lists, order) && k in order && m in order && lists[k] != [] && lists[m] != []
    ensures Earlier(order, k, m) <==> Earlier(Main(lists, order), k, m)
  {
    var x, rest := order[0], order[1..];
    if x != k && x != m {
      EarlierInMain(lists, rest, k, m);
    }
    assert lists[x] != [] ==> Main(lists, order)[1..] == Main(lists, rest);
  }

  lemma NotIncludedLater(lists: seq<seq<nat>>, order: seq<nat>, k: nat, m: nat)
    requires Orders(lists, order) && k < |lists| && m < |lists| && Earlier(order, k, m)
    ensures !IsSubsequenceOf(lists[k], lists[m])
  {
    var i, j := IndexIn(order, k), IndexIn(order, m);
    assert !IsSubsequenceOf(lists[order[i]], lists[order[j]]);
  }

  lemma PlacesIsOutermost(lists: seq<seq<nat>>, order: seq<nat>, k: nat)
    requires AllSorted(lists) && Orders(lists, order) && PlacesIn(lists, order, k)
    ensures OutermostIn(lists, k)
  {
    assert lists[k][0] in lists[k];
    forall m | 0 <= m < |lists|
      ensures !IsSubsequenceOf(lists[k], lists[m])
    {
      if IsSubsequenceOf(lists[k], lists[m]) {
        NotBoth(order, k, m);
        if Earlier(order, k, m) {
          NotIncludedLater(lists, order, k, m);
        }
        IncludesIsSubset(lists[m], lists[k]);
      }
    }
  }

  /** An earlier segment that shares a section with an outermost one has just its sections. */
  lemma SharedIsSame(lists: seq<seq<nat>>, order: seq<nat>, m: nat, k: nat)
    requires Laminar(lists) && AllSorted(lists) && Orders(lists, order) && m < |lists|
    requires Earlier(order, m, k) && OutermostIn(lists, k) && !Disjoint(lists[m], lists[k])
    ensures Elems(lists[m]) == Elems(lists[k])
  {
    NotIncludedLater(lists, order, m, k);
    var a, b := lists[m], lists[k];
    if Subset(a, b) {
      NotStrictlyIncluded(a, b);
    }
    NotStrictlyIncluded(b, a);
    assert forall x :: x in Elems(a) <==> x in Elems(b);
  }

  lemma SharedIsEqual(lists: seq<seq<nat>>, order: seq<nat>, m: nat, k: nat)
    requires Laminar(lists) && AllSorted(lists) && Orders(lists, order) && m < |lists|
    requires Earlier(order, m, k) && OutermostIn(lists, k) && !Disjoint(lists[m], lists[k])
    ensures lists[m] == lists[k] && OutermostIn(lists, m)
  {
    SharedIsSame(lists, order, m, k);
    assert forall x: nat :: x in Elems(lists[m]) <==> x in Elems(lists[k]);
    SortedIsUnique(lists[m], lists[k]);
  }

  /** Of the segments with an outermost one's list the first has its sections first. */
  lemma {:induction false} FirstOfList(lists: seq<seq<nat>>, order: seq<nat>, k: nat) returns (m: nat)
    requires Laminar(lists) && AllSorted(lists) && Orders(lists, order) && OutermostIn(lists, k)
    ensures PlacesIn(lists, order, m) && lists[m] == lists[k]
    decreases IndexIn(order, k)
  {
    if PlacesIn(lists, order, k) {
      m := k;
    } else {
      var x :| 0 <= x < |lists| && Earlier(order, x, k) && !Disjoint(lists[x], lists[k]);
      SharedIsEqual(lists, order, x, k);
      m := FirstOfList(lists, order, x);
    }
  }

  /** In two orders of which the second has no segment with a placing one's list before it that comes
      behind it in the first, the same segments have their sections first. */
  lemma PlacesAgain(lists: seq<seq<nat>>, order: seq<nat>, again: seq<nat>, k: nat)
    requires Laminar(lists) && AllSorted(lists) && Orders(lists, order) && Orders(lists, again)
    requires forall n: nat, m: nat {:trigger Earlier(again, n, m)} ::
               (PlacesIn(lists, order, m) && n < |lists| && n != m && lists[n] == lists[m] && Earlier(again, n, m))
                 ==> Earlier(order, n, m)
    ensures PlacesIn(lists, again, k) <==> PlacesIn(lists, order, k)
  {
    if PlacesIn(lists, order, k) {
      StillPlaces(lists, order, again, k);
    }
    if PlacesIn(lists, again, k) {
      PlacesIsOutermost(lists, again, k);
      var m := FirstOfList(lists, order, k);
      StillPlaces(lists, order, again, m);
      OneOfList(lists, again, k, m);
    }
  }

  lemma StillPlaces(lists: seq<seq<nat>>, order: seq<nat>, again: seq<nat>, k: nat)
    requires Laminar(lists) && AllSorted(lists) && Orders(lists, order) && Orders(lists, again)
    requires PlacesIn(lists, order, k)
    requires forall n: nat {:trigger Earlier(again, n, k)} ::
               n < |lists| && n != k && lists[n] == lists[k] && Earlier(again, n, k) ==> Earlier(order, n, k)
    ensures PlacesIn(lists, again, k)
  {
    PlacesIsOutermost(lists, order, k);
    forall m | 0 <= m < |lists| && Earlier(again, m, k)
      ensures Disjoint(lists[m], lists[k])
    {
      if !Disjoint(lists[m], lists[k]) {
        SharedIsEqual(lists, again, m, k);
      }
    }
  }

  /** Only one segment of each list has its sections first. */
  lemma OneOfList(lists: seq<seq<nat>>, order: seq<nat>, k: nat, m: nat)
    requires Orders(lists, order) && PlacesIn(lists, order, k) && PlacesIn(lists, order, m) && lists[m] == lists[k]
    ensures m == k
  {
    assert lists[k][0] in lists[k];
    if m != k {
      NotBoth(order, k, m);
    }
  }

  lemma EarlierOwner(lists: seq<seq<nat>>, order: seq<nat>, p: nat, i: nat) returns (m: nat)
    requires Indexes(lists, order) && Distinct(order) && p < |order| && InSome(lists, order[..p], i)
    ensures m < |lists| && Earlier(order, m, order[p]) && i in lists[m]
  {
    var j :| 0 <= j < |order[..p]| && order[..p][j] < |lists| && i in lists[order[..p][j]];
    m := order[j];
    assert IndexIn(order, m) == j && IndexIn(order, order[p]) == p;
  }

  /** PlacesIn by position in the order. */
  lemma PlacesByPosition(lists: seq<seq<nat>>, order: seq<nat>, p: nat)
    requires Indexes(lists, order) && Distinct(order) && p < |order| && lists[order[p]] != []
    ensures PlacesIn(lists, order, order[p]) <==> forall i :: i in lists[order[p]] ==> !InSome(lists, order[..p], i)
  {
    var k := order[p];
    assert IndexIn(order, k) == p;
    if PlacesIn(lists, order, k) {
      forall i | i in lists[k]
        ensures !InSome(lists, order[..p], i)
      {
        if InSome(lists, order[..p], i) {
          var m := EarlierOwner(lists, order, p, i);
        }
      }
    }
    if forall i :: i in lists[k] ==> !InSome(lists, order[..p], i) {
      forall m | 0 <= m < |lists| && Earlier(order, m, k)
        ensures Disjoint(lists[m], lists[k])
      {
        var j := IndexIn(order, m);
        assert order[..p][j] == m;
      }
    }
  }

  /** An outermost segment with a list of its own has its sections first. */
  lemma OutermostPlaces(lists: seq<seq<nat>>, order: seq<nat>, k: nat)
    requires Laminar(lists) && AllSorted(lists) && Orders(lists, order) && OutermostIn(lists, k)
    requires forall m :: 0 <= m < |lists| && m != k ==> lists[m] != lists[k]
    ensures PlacesIn(lists, order, k)
  {
    var m := FirstOfList(lists, order, k);
  }

  // ----- where the worklist begins

  /** The segment has an offset, computed before or read from a file, and that is 0. */
  predicate PlacedAtZero(seg: SegmentState) {
    seg.offsetSet && seg.hdr.offset == 0
  }

  /** Segments that were never placed, or not at 0, are taken up in the order they were added. */
  lemma OrderOfOthers(segs: seq<SegmentState>)
    requires forall m :: 0 < m < |segs| ==> !PlacedAtZero(segs[m])
    ensures Order(segs) == Drain(Lists(segs), Range(|segs|), [])
  {
    hide Drain;
    OrderedByLists(Lists(segs), Zeros(segs));
  }

  /** A single one at 0 changes places with the first. */
  lemma OrderWithZero(segs: seq<SegmentState>, z: nat)
    requires z < |segs| && forall m :: 0 <= m < |segs| ==> (PlacedAtZero(segs[m]) <==> m == z)
    ensures Order(segs) == Drain(Lists(segs), Range(|segs|)[z := 0][0 := z], [])
  {
    hide Drain;
    FrontOne(Zeros(segs), 0, z);
    assert Swapped(Range(|segs|), z, 0) == Range(|segs|)[z := 0][0 := z];
  }
}
