/** `is_subsequence_of` and `get_ordered_segments` of elfio.hpp, on the segments' section lists. */
module Ordering {

  // ----- std::includes on section lists

  /** The library algorithm: one merge pass over both ranges. */
  function Includes(big: seq<nat>, small: seq<nat>): bool
    decreases |big|
  {
    if small == [] then true
    else if big == [] || small[0] < big[0] then false
    else if big[0] < small[0] then Includes(big[1..], small)
    else Includes(big[1..], small[1..])
  }

  predicate Sorted(s: seq<nat>) {
    forall i, j :: 0 <= i < j < |s| ==> s[i] < s[j]
  }

  predicate Subset(small: seq<nat>, big: seq<nat>) {
    forall x :: x in small ==> x in big
  }

  predicate IsSubsequenceOf(s1: seq<nat>, s2: seq<nat>) {
    |s1| < |s2| && Includes(s2, s1)
  }

  lemma SortedTail(s: seq<nat>)
    requires Sorted(s) && s != []
    ensures Sorted(s[1..]) && forall x :: x in s[1..] ==> s[0] < x
  {
  }

  /** On strictly increasing lists the merge decides the subset relation. */
  lemma {:induction false} IncludesIsSubset(big: seq<nat>, small: seq<nat>)
    requires Sorted(big) && Sorted(small)
    ensures Includes(big, small) <==> Subset(small, big)
    decreases |big|
  {
    if small != [] && big != [] {
      SortedTail(big);
      SortedTail(small);
      assert small == [small[0]] + small[1..] && big == [big[0]] + big[1..];
      if small[0] < big[0] {
        assert small[0] in small && small[0] !in big;
      } else if big[0] < small[0] {
        IncludesIsSubset(big[1..], small);
        assert forall x :: x in small ==> x != big[0];
      } else {
        IncludesIsSubset(big[1..], small[1..]);
        assert forall x :: x in small[1..] ==> x in small && x != big[0];
      }
    } else if small != [] {
      assert small[0] in small;
    }
  }

  // ----- bringing segments at offset 0 to the front

  function Swapped(work: seq<nat>, i: nat, j: nat): (r: seq<nat>)
    requires i < |work| && j < |work|
    ensures |r| == |work|
  {
    work[i := work[j]][j := work[i]]
  }

  lemma SwapPermutes(work: seq<nat>, i: nat, j: nat)
    requires i < |work| && j < |work|
    ensures multiset(Swapped(work, i, j)) == multiset(work)
    ensures forall k :: 0 <= k < |work| ==> Swapped(work, i, j)[k] in work
  {
  }

  /** The swap loop from position i on. */
  function FrontZeros(zero: seq<bool>, work: seq<nat>, i: nat, nextSlot: nat): (r: seq<nat>)
    requires nextSlot <= i <= |work| && forall k :: 0 <= k < |work| ==> work[k] < |zero|
    ensures |r| == |work| && forall k :: 0 <= k < |r| ==> r[k] < |zero|
    decreases |work| - i
  {
    if i == |work| then work
    else if i != nextSlot && zero[work[i]] then FrontZeros(zero, Swapped(work, i, nextSlot), i + 1, nextSlot + 1)
    else FrontZeros(zero, work, i + 1, nextSlot)
  }

  lemma {:induction false} FrontPermutes(zero: seq<bool>, work: seq<nat>, i: nat, nextSlot: nat)
    requires nextSlot <= i <= |work| && forall k :: 0 <= k < |work| ==> work[k] < |zero|
    ensures multiset(FrontZeros(zero, work, i, nextSlot)) == multiset(work)
    decreases |work| - i
  {
    hide Swapped;
    if i < |work| {
      if i != nextSlot && zero[work[i]] {
        SwapPermutes(work, i, nextSlot);
        FrontPermutes(zero, Swapped(work, i, nextSlot), i + 1, nextSlot + 1);
      } else {
        FrontPermutes(zero, work, i + 1, nextSlot);
      }
    }
  }

  /** A single segment at offset 0 that is first already stays there, and so does the rest. */
  lemma {:induction false} NothingBehindFirst(zero: seq<bool>, work: seq<nat>, i: nat)
    requires i <= |work| && forall k :: 0 <= k < |work| ==> work[k] < |zero| && (k > 0 ==> !zero[work[k]])
    ensures FrontZeros(zero, work, i, 0) == work
    decreases |work| - i
  {
    if i < |work| {
      NothingBehindFirst(zero, work, i + 1);
    }
  }

  /** Segments at offset 0 stand before all others. */
  predicate ZerosFirst(zero: seq<bool>, work: seq<nat>)
    requires forall k :: 0 <= k < |work| ==> work[k] < |zero|
  {
    forall i, j :: 0 <= i < j < |work| && zero[work[j]] ==> zero[work[i]]
  }

  /** The loop brings every segment at offset 0 to the front, if the first segment is not one of them. */
  lemma {:induction false} FrontCollects(zero: seq<bool>, work: seq<nat>, i: nat, nextSlot: nat)
    requires nextSlot <= i <= |work| && forall k :: 0 <= k < |work| ==> work[k] < |zero|
    requires forall k :: 0 <= k < nextSlot ==> zero[work[k]]
    requires forall k :: nextSlot <= k < i ==> !zero[work[k]]
    requires i == nextSlot ==> i == 0 && (work != [] ==> !zero[work[0]])
    ensures ZerosFirst(zero, FrontZeros(zero, work, i, nextSlot))
    decreases |work| - i
  {
    if i < |work| {
      if i != nextSlot && zero[work[i]] {
        FrontCollects(zero, Swapped(work, i, nextSlot), i + 1, nextSlot + 1);
      } else {
        FrontCollects(zero, work, i + 1, nextSlot);
      }
    }
  }

  /** If the first segment is at offset 0 itself, the slot is not moved past it, and of the segments at
      offset 0 one stays away from the others: with n of them at the front, it is the one at `left`.
      Only when the front has grown up to it does it change places with the next one, at i. */
  function Leftover(flags: seq<bool>, i: nat, n: nat, left: nat): (r: (nat, nat))
    requires n <= left < i <= |flags|
    ensures r.0 <= r.1 < |flags|
    decreases |flags| - i
  {
    if i == |flags| then (n, left)
    else if flags[i] then Leftover(flags, i + 1, n + 1, if n == left then i else left)
    else Leftover(flags, i + 1, n, left)
  }

  /** Exactly the first n positions and the position `left` hold segments at offset 0. */
  predicate FrontAndOne(zero: seq<bool>, work: seq<nat>, n: nat, left: nat, upTo: nat)
    requires upTo <= |work| && forall k :: 0 <= k < |work| ==> work[k] < |zero|
  {
    forall k :: 0 <= k < upTo ==> (zero[work[k]] <==> k < n || k == left)
  }

  lemma {:induction false} FrontPattern(zero: seq<bool>, work: seq<nat>, flags: seq<bool>, i: nat, n: nat, left: nat)
    requires |flags| == |work| && n <= left < i <= |work| && forall k :: 0 <= k < |work| ==> work[k] < |zero|
    requires FrontAndOne(zero, work, n, left, i)
    requires forall k :: i <= k < |work| ==> zero[work[k]] == flags[k]
    ensures var (n', left') := Leftover(flags, i, n, left);
            FrontAndOne(zero, FrontZeros(zero, work, i, n), n', left', |work|)
    decreases |work| - i
  {
    if i < |work| {
      if zero[work[i]] {
        FrontPattern(zero, Swapped(work, i, n), flags, i + 1, n + 1, if n == left then i else left);
      } else {
        FrontPattern(zero, work, flags, i + 1, n, left);
      }
    }
  }

  /** The positions of the segments at offset 0 behind the first segment and before position i. */
  function Positions(zero: seq<bool>, i: nat): (ps: seq<nat>)
    requires 1 <= i <= |zero|
    ensures |ps| < i && forall j :: 0 <= j < |ps| ==> j < ps[j] < i
  {
    if i == 1 then []
    else if zero[i - 1] then Positions(zero, i - 1) + [i - 1]
    else Positions(zero, i - 1)
  }

  /** Jumping from s to the s-th of the positions, then to the one of that number, as far as there are any. */
  function Jumps(ps: seq<nat>, s: nat): (r: nat)
    requires forall j :: 0 <= j < |ps| ==> j < ps[j]
    ensures r >= |ps|
    decreases |ps| - s
  {
    if s < |ps| then Jumps(ps, ps[s]) else s
  }

  /** One more position goes on where the jumps ended, if they ended just there. */
  lemma {:induction false} JumpsOn(ps: seq<nat>, z: nat, s: nat)
    requires (forall j :: 0 <= j < |ps| ==> j < ps[j]) && |ps| < z && s <= z
    ensures Jumps(ps + [z], s) == if Jumps(ps, s) == |ps| then z else Jumps(ps, s)
    decreases |ps| - s
  {
    if s < |ps| {
      if ps[s] <= z {
        JumpsOn(ps, z, ps[s]);
      }
    }
  }

  lemma {:induction false} LeftoverIsEnd(zero: seq<bool>, i: nat)
    requires 1 <= i <= |zero|
    ensures var ps := Positions(zero, i);
            Jumps(ps, 0) < i && Leftover(zero, i, |ps|, Jumps(ps, 0)) == Leftover(zero, 1, 0, 0)
  {
    if i > 1 {
      LeftoverIsEnd(zero, i - 1);
      if zero[i - 1] {
        JumpsOn(Positions(zero, i - 1), i - 1, 0);
      }
    }
  }

  /** The loop brings the segments at offset 0 before all others exactly if the first segment is not one
      of them, or the jumps through their positions end with their number. */
  lemma ZerosFirstExactly(zero: seq<bool>)
    ensures ZerosFirst(zero, FrontZeros(zero, Range(|zero|), 0, 0)) <==>
            zero == [] || !zero[0] ||
            (var ps := Positions(zero, |zero|); Jumps(ps, 0) == |ps|)
  {
    var work := Range(|zero|);
    if zero == [] || !zero[0] {
      FrontCollects(zero, work, 0, 0);
    } else {
      var r := FrontZeros(zero, work, 0, 0);
      LeftoverIsEnd(zero, |zero|);
      var (n, left) := Leftover(zero, 1, 0, 0);
      FrontPattern(zero, work, zero, 1, 0, 0);
      if left > n {
        assert zero[r[left]] && !zero[r[n]];
      }
    }
  }

  /** If the first segment is at offset 0 itself, another one can be left behind: here the segments 0
      and 2 are at offset 0. */
  lemma FrontLeavesBehind()
    ensures FrontZeros([true, false, true], Range(3), 0, 0) == [2, 1, 0]
    ensures !ZerosFirst([true, false, true], FrontZeros([true, false, true], Range(3), 0, 0))
  {
    var zero, work := [true, false, true], Range(3);
    assert work == [0, 1, 2];
    assert FrontZeros(zero, work, 0, 0) == FrontZeros(zero, work, 1, 0) == FrontZeros(zero, work, 2, 0);
    assert Swapped(work, 2, 0) == [2, 1, 0];
    assert FrontZeros(zero, Swapped(work, 2, 0), 3, 1) == [2, 1, 0];
    var r: seq<nat> := [2, 1, 0];
    assert zero[r[2]] && !zero[r[1]];
  }

  // ----- the rotating worklist

  predicate Indexes(lists: seq<seq<nat>>, work: seq<nat>) {
    forall i :: 0 <= i < |work| ==> work[i] < |lists|
  }

  /** No segment of the worklist strictly includes x. */
  predicate Free(lists: seq<seq<nat>>, x: nat, work: seq<nat>)
    requires x < |lists| && Indexes(lists, work)
  {
    forall i :: 0 <= i < |work| ==> !IsSubsequenceOf(lists[x], lists[work[i]])
  }

  /** How many segments stand before the first one that is free in `all`. */
  function Distance(lists: seq<seq<nat>>, all: seq<nat>, work: seq<nat>): (d: nat)
    requires Indexes(lists, all) && Indexes(lists, work)
    ensures d <= |work|
    ensures d < |work| ==> Free(lists, work[d], all)
  {
    if work == [] || Free(lists, work[0], all) then 0 else 1 + Distance(lists, all, work[1..])
  }

  lemma {:induction false} DistanceBefore(lists: seq<seq<nat>>, all: seq<nat>, work: seq<nat>, k: nat)
    requires Indexes(lists, all) && Indexes(lists, work)
    requires k < |work| && Free(lists, work[k], all)
    ensures Distance(lists, all, work) <= k
  {
    if k > 0 {
      DistanceBefore(lists, all, work[1..], k - 1);
    }
  }

  /** A longest list is not strictly included in any other. */
  lemma {:induction false} LongestIsFree(lists: seq<seq<nat>>, work: seq<nat>) returns (k: nat)
    requires Indexes(lists, work) && work != []
    ensures k < |work| && forall i :: 0 <= i < |work| ==> |lists[work[i]]| <= |lists[work[k]]|
    ensures Free(lists, work[k], work)
  {
    if |work| == 1 {
      k := 0;
    } else {
      var m := LongestIsFree(lists, work[1..]);
      k := if |lists[work[0]]| > |lists[work[m + 1]]| then 0 else m + 1;
    }
  }

  /** Rotating a segment that is not free brings the first free one a step closer. */
  lemma RotationApproaches(lists: seq<seq<nat>>, work: seq<nat>)
    requires Indexes(lists, work) && work != []
    requires !Free(lists, work[0], work[1..])
    ensures Indexes(lists, work[1..] + [work[0]])
    ensures Distance(lists, work[1..] + [work[0]], work[1..] + [work[0]]) < Distance(lists, work, work)
  {
    var rotated := work[1..] + [work[0]];
    var k := LongestIsFree(lists, work);
    assert Free(lists, work[k], work);
    DistanceBefore(lists, work, work, k);
    var d := Distance(lists, work, work);
    assert d > 0 by {
      var i :| 0 <= i < |work| - 1 && IsSubsequenceOf(lists[work[0]], lists[work[1..][i]]);
      assert work[1..][i] == work[i + 1];
    }
    assert rotated[d - 1] == work[d];
    assert Free(lists, rotated[d - 1], rotated);
    DistanceBefore(lists, rotated, rotated, d - 1);
  }

  /** The while loop: move free segments to the result, rotate the others. */
  function Drain(lists: seq<seq<nat>>, work: seq<nat>, res: seq<nat>): (r: seq<nat>)
    requires Indexes(lists, work)
    decreases |work|, Distance(lists, work, work)
  {
    if work == [] then res
    else if Free(lists, work[0], work[1..]) then Drain(lists, work[1..], res + [work[0]])
    else
      RotationApproaches(lists, work);
      Drain(lists, work[1..] + [work[0]], res)
  }

  function Range(n: nat): (r: seq<nat>)
    ensures |r| == n && forall i :: 0 <= i < n ==> r[i] == i
  {
    seq(n, i => i)
  }

  /** The order in which the layout treats the segments. */
  function Ordered(lists: seq<seq<nat>>, zero: seq<bool>): seq<nat>
    requires |lists| == |zero|
  {
    var start := FrontZeros(zero, Range(|lists|), 0, 0);
    Drain(lists, start, [])
  }

  /** No segment stands before one that strictly includes it. */
  predicate Topological(lists: seq<seq<nat>>, order: seq<nat>)
    requires Indexes(lists, order)
  {
    forall i, j :: 0 <= i < j < |order| ==> !IsSubsequenceOf(lists[order[i]], lists[order[j]])
  }

  lemma {:induction false} DrainOrders(lists: seq<seq<nat>>, work: seq<nat>, res: seq<nat>)
    requires Indexes(lists, work) && Indexes(lists, res) && Topological(lists, res)
    requires forall k :: 0 <= k < |res| ==> Free(lists, res[k], work)
    ensures multiset(Drain(lists, work, res)) == multiset(res) + multiset(work)
    ensures Indexes(lists, Drain(lists, work, res)) && Topological(lists, Drain(lists, work, res))
    decreases |work|, Distance(lists, work, work)
  {
    if work != [] {
      var rest := work[1..];
      assert work == [work[0]] + rest;
      if Free(lists, work[0], rest) {
        DrainOrders(lists, rest, res + [work[0]]);
      } else {
        RotationApproaches(lists, work);
        DrainOrders(lists, rest + [work[0]], res);
      }
    }
  }

  /** The result is a rearrangement of all segments in which supersets come first. */
  lemma OrderedIsTopological(lists: seq<seq<nat>>, zero: seq<bool>)
    requires |lists| == |zero|
    ensures multiset(Ordered(lists, zero)) == multiset(Range(|lists|))
    ensures Indexes(lists, Ordered(lists, zero)) && Topological(lists, Ordered(lists, zero))
  {
    var start := FrontZeros(zero, Range(|lists|), 0, 0);
    FrontPermutes(zero, Range(|lists|), 0, 0);
    DrainOrders(lists, start, []);
  }

  /** With no segment at offset 0 but perhaps the first, the order depends on the section lists alone. */
  lemma OrderedByLists(lists: seq<seq<nat>>, zero: seq<bool>)
    requires |lists| == |zero| && forall i :: 0 < i < |zero| ==> !zero[i]
    ensures Ordered(lists, zero) == Drain(lists, Range(|lists|), [])
  {
    NothingBehindFirst(zero, Range(|lists|), 0);
  }

  lemma DrainStep(lists: seq<seq<nat>>, work: seq<nat>, res: seq<nat>)
    requires Indexes(lists, work) && work != [] && Free(lists, work[0], work[1..])
    ensures Drain(lists, work, res) == Drain(lists, work[1..], res + [work[0]])
  {
    hide Distance;
  }

  /** Two segments, the second of which does not include the first. */
  lemma DrainTwo(lists: seq<seq<nat>>, x: nat, y: nat)
    requires x < |lists| && y < |lists| && !IsSubsequenceOf(lists[x], lists[y])
    ensures Drain(lists, [x, y], []) == [x, y]
  {
    hide Distance, Includes, Drain, IsSubsequenceOf;
    var none: seq<nat>, first: seq<nat>, one: seq<nat>, work: seq<nat> := [], [x], [y], [x, y];
    assert work[1..] == one && none + [x] == first && first + [y] == work;
    DrainStep(lists, work, none);
    DrainOne(lists, y, first);
  }

  lemma DrainOne(lists: seq<seq<nat>>, y: nat, res: seq<nat>)
    requires y < |lists|
    ensures Drain(lists, [y], res) == res + [y]
  {
    hide Distance, Drain;
    var one: seq<nat>, none: seq<nat> := [y], [];
    assert one[1..] == none;
    DrainStep(lists, one, res);
    DrainNone(lists, res + [y]);
  }

  lemma DrainNone(lists: seq<seq<nat>>, res: seq<nat>)
    ensures Drain(lists, [], res) == res
  {
  }

  // ----- which segment comes first

  /** The worklist loop only adds to the result. */
  lemma {:induction false} DrainAdds(lists: seq<seq<nat>>, work: seq<nat>, res: seq<nat>)
    requires Indexes(lists, work)
    ensures |res| <= |Drain(lists, work, res)| && Drain(lists, work, res)[..|res|] == res
    decreases |work|, Distance(lists, work, work)
  {
    hide Distance, Drain, Free;
    if work == [] {
      DrainNone(lists, res);
    } else if Free(lists, work[0], work[1..]) {
      DrainStep(lists, work, res);
      DrainAdds(lists, work[1..], res + [work[0]]);
      assert Drain(lists, work, res)[..|res| + 1][..|res|] == (res + [work[0]])[..|res|];
    } else {
      RotationApproaches(lists, work);
      DrainRotates(lists, work, res);
      DrainAdds(lists, work[1..] + [work[0]], res);
    }
  }

  /** The first free segment of the worklist is the next one of the result. */
  lemma {:induction false} DrainTakes(lists: seq<seq<nat>>, work: seq<nat>, i: nat)
    requires Indexes(lists, work) && i < |work| && Free(lists, work[i], work)
    requires forall j :: 0 <= j < i ==> !Free(lists, work[j], work)
    ensures |Drain(lists, work, [])| > 0 && Drain(lists, work, [])[0] == work[i]
    decreases i
  {
    hide Distance, Drain, IsSubsequenceOf;
    var none: seq<nat> := [];
    if i == 0 {
      FreeOfOthers(lists, work);
      DrainStep(lists, work, none);
      assert none + [work[0]] == [work[0]];
      DrainAdds(lists, work[1..], [work[0]]);
      assert Drain(lists, work, none)[0] == Drain(lists, work, none)[..1][0];
    } else {
      FreeOfOthers(lists, work);
      DrainRotates(lists, work, none);
      RotationKeepsFree(lists, work, i);
      DrainTakes(lists, work[1..] + [work[0]], i - 1);
    }
  }

  /** The whole turn: the segments before the first free one go behind the others, in their order, and that
      one goes to the result. */
  lemma {:induction false} DrainNext(lists: seq<seq<nat>>, work: seq<nat>, res: seq<nat>, i: nat)
    requires Indexes(lists, work) && i < |work| && Free(lists, work[i], work)
    requires forall j :: 0 <= j < i ==> !Free(lists, work[j], work)
    ensures Indexes(lists, work[i + 1..] + work[..i])
    ensures Drain(lists, work, res) == Drain(lists, work[i + 1..] + work[..i], res + [work[i]])
    decreases i
  {
    hide Distance, Drain, IsSubsequenceOf;
    FreeOfOthers(lists, work);
    if i == 0 {
      DrainStep(lists, work, res);
      assert work[1..] + work[..0] == work[1..];
    } else {
      var rotated := work[1..] + [work[0]];
      DrainRotates(lists, work, res);
      RotationKeepsFree(lists, work, i);
      DrainNext(lists, rotated, res, i - 1);
      assert rotated[i..] + rotated[..i - 1] == work[i + 1..] + work[..i];
    }
  }

  lemma FreeOfOthers(lists: seq<seq<nat>>, work: seq<nat>)
    requires Indexes(lists, work) && work != []
    ensures Free(lists, work[0], work[1..]) <==> Free(lists, work[0], work)
  {
    if Free(lists, work[0], work[1..]) {
      forall i | 0 <= i < |work|
        ensures !IsSubsequenceOf(lists[work[0]], lists[work[i]])
      {
        assert i > 0 ==> work[i] == work[1..][i - 1];
      }
    }
  }

  lemma RotationKeepsFree(lists: seq<seq<nat>>, work: seq<nat>, i: nat)
    requires Indexes(lists, work) && 0 < i < |work|
    ensures var rotated := work[1..] + [work[0]];
            && Indexes(lists, rotated) && rotated[i - 1] == work[i]
            && (Free(lists, work[i], rotated) <==> Free(lists, work[i], work))
            && forall j :: 0 <= j < i - 1 ==> (Free(lists, rotated[j], rotated) <==> Free(lists, work[j + 1], work))
  {
    hide IsSubsequenceOf;
    var rotated := work[1..] + [work[0]];
    assert forall j :: 0 <= j < |work| - 1 ==> rotated[j] == work[j + 1];
    forall x: nat | x < |lists|
      ensures Free(lists, x, rotated) <==> Free(lists, x, work)
    {
      SameFree(lists, x, rotated, work);
    }
  }

  lemma SameFree(lists: seq<seq<nat>>, x: nat, a: seq<nat>, b: seq<nat>)
    requires x < |lists| && Indexes(lists, a) && Indexes(lists, b)
    requires (forall y :: y in a ==> y in b) && (forall y :: y in b ==> y in a)
    ensures Free(lists, x, a) <==> Free(lists, x, b)
  {
    hide IsSubsequenceOf;
    assert Free(lists, x, a) ==> forall i :: 0 <= i < |b| ==> b[i] in a;
    assert Free(lists, x, b) ==> forall i :: 0 <= i < |a| ==> a[i] in b;
  }

  // ----- segments without sections

  /** The segments of the worklist that have sections. */
  function Main(lists: seq<seq<nat>>, work: seq<nat>): (r: seq<nat>)
    requires Indexes(lists, work)
    ensures |r| <= |work| && Indexes(lists, r)
    ensures forall x :: x in r <==> x in work && lists[x] != []
  {
    if work == [] then []
    else if lists[work[0]] == [] then Main(lists, work[1..])
    else [work[0]] + Main(lists, work[1..])
  }

  lemma {:induction false} MainConcat(lists: seq<seq<nat>>, a: seq<nat>, b: seq<nat>)
    requires Indexes(lists, a) && Indexes(lists, b)
    ensures Main(lists, a + b) == Main(lists, a) + Main(lists, b)
  {
    if a == [] {
      assert a + b == b;
    } else {
      assert (a + b)[1..] == a[1..] + b;
      MainConcat(lists, a[1..], b);
    }
  }

  /** Whether a segment with sections is free does not depend on those without. */
  lemma FreeAmongMain(lists: seq<seq<nat>>, x: nat, work: seq<nat>)
    requires x < |lists| && Indexes(lists, work) && lists[x] != []
    ensures Free(lists, x, Main(lists, work)) <==> Free(lists, x, work)
  {
    if Free(lists, x, Main(lists, work)) {
      forall i | 0 <= i < |work|
        ensures !IsSubsequenceOf(lists[x], lists[work[i]])
      {
        if lists[work[i]] != [] {
          assert work[i] in Main(lists, work);
        }
      }
    }
    if Free(lists, x, work) {
      forall i | 0 <= i < |Main(lists, work)|
        ensures !IsSubsequenceOf(lists[x], lists[Main(lists, work)[i]])
      {
        assert Main(lists, work)[i] in work;
      }
    }
  }

  /** Segments without sections do not influence the order of the others. */
  lemma {:induction false} DrainMain(lists: seq<seq<nat>>, work: seq<nat>, res: seq<nat>)
    requires Indexes(lists, work) && Indexes(lists, res)
    ensures Indexes(lists, Drain(lists, work, res))
    ensures Main(lists, Drain(lists, work, res)) == Drain(lists, Main(lists, work), Main(lists, res))
    decreases |work|, Distance(lists, work, work)
  {
    hide Distance, Drain, Free, Main;
    if work == [] {
      DrainNone(lists, res);
      DrainNone(lists, Main(lists, res));
    } else {
      var x, rest := work[0], work[1..];
      MainConcat(lists, rest, [x]);
      MainConcat(lists, res, [x]);
      MainStep(lists, work);
      MainOne(lists, x);
      if Free(lists, x, rest) {
        DrainStep(lists, work, res);
        DrainMain(lists, rest, res + [x]);
      } else {
        RotationApproaches(lists, work);
        DrainRotates(lists, work, res);
        DrainMain(lists, rest + [x], res);
      }
      if lists[x] == [] {
        assert Main(lists, rest) + [] == Main(lists, rest) && Main(lists, res) + [] == Main(lists, res);
      } else {
        FreeAmongMain(lists, x, rest);
        if Free(lists, x, rest) {
          DrainStep(lists, Main(lists, work), Main(lists, res));
        } else {
          DrainRotates(lists, Main(lists, work), Main(lists, res));
        }
      }
    }
  }

  lemma DrainRotates(lists: seq<seq<nat>>, work: seq<nat>, res: seq<nat>)
    requires Indexes(lists, work) && work != [] && !Free(lists, work[0], work[1..])
    ensures Drain(lists, work, res) == Drain(lists, work[1..] + [work[0]], res)
  {
    hide Distance, Free;
  }

  lemma MainStep(lists: seq<seq<nat>>, work: seq<nat>)
    requires Indexes(lists, work) && work != []
    ensures if lists[work[0]] == [] then Main(lists, work) == Main(lists, work[1..])
            else Main(lists, work) != [] && Main(lists, work)[0] == work[0] &&
                 Main(lists, work)[1..] == Main(lists, work[1..])
  {
  }

  lemma MainOne(lists: seq<seq<nat>>, x: nat)
    requires x < |lists|
    ensures Main(lists, [x]) == if lists[x] == [] then [] else [x]
  {
  }

  /** A single segment at offset 0 changes places with the first one. */
  lemma {:induction false} FrontOne(zero: seq<bool>, i: nat, z: nat)
    requires i <= z < |zero| && (forall k :: 0 <= k < |zero| ==> (zero[k] <==> k == z))
    ensures FrontZeros(zero, Range(|zero|), i, 0) == Swapped(Range(|zero|), z, 0)
    decreases z - i
  {
    var work := Range(|zero|);
    if i < z {
      FrontOne(zero, i + 1, z);
    } else if z > 0 {
      FrontDone(zero, Swapped(work, z, 0), z + 1, 1);
    } else {
      NothingBehindFirst(zero, work, 0);
      assert Swapped(work, 0, 0) == work;
    }
  }

  lemma {:induction false} FrontDone(zero: seq<bool>, work: seq<nat>, i: nat, nextSlot: nat)
    requires nextSlot <= i <= |work| && forall k :: 0 <= k < |work| ==> work[k] < |zero|
    requires forall k :: i <= k < |work| ==> !zero[work[k]]
    ensures FrontZeros(zero, work, i, nextSlot) == work
    decreases |work| - i
  {
    if i < |work| {
      FrontDone(zero, work, i + 1, nextSlot);
    }
  }

  /** If only segments without sections stand before it, nothing changes for the others. */
  lemma FrontKeepsMain(lists: seq<seq<nat>>, zero: seq<bool>, z: nat)
    requires |lists| == |zero| && z < |zero| && (forall k :: 0 <= k < z ==> lists[k] == [])
    requires forall k :: 0 <= k < |zero| && k != z ==> !zero[k]
    ensures Main(lists, FrontZeros(zero, Range(|zero|), 0, 0)) == Main(lists, Range(|zero|))
  {
    var work := Range(|zero|);
    if zero[z] {
      FrontOne(zero, 0, z);
      MainSwapped(lists, work, z);
    } else {
      NothingBehindFirst(zero, work, 0);
    }
  }

  lemma MainSwapped(lists: seq<seq<nat>>, work: seq<nat>, z: nat)
    requires Indexes(lists, work) && z < |work| && forall k :: 0 <= k < z ==> lists[work[k]] == []
    ensures Indexes(lists, Swapped(work, z, 0)) && Main(lists, Swapped(work, z, 0)) == Main(lists, work)
  {
    hide Main;
    var swapped := Swapped(work, z, 0);
    if z == 0 {
      assert swapped == work;
    } else {
      var a, one, b := swapped[1..z + 1], [work[z]], work[z + 1..];
      assert swapped == one + (a + b) && work == work[..z] + (one + b);
      MainConcat(lists, a, b);
      MainConcat(lists, one, a + b);
      MainConcat(lists, work[..z], one + b);
      MainConcat(lists, one, b);
      NoMain(lists, work[..z]);
      NoMain(lists, a);
    }
  }

  lemma {:induction false} NoMain(lists: seq<seq<nat>>, work: seq<nat>)
    requires Indexes(lists, work) && forall k :: 0 <= k < |work| ==> lists[work[k]] == []
    ensures Main(lists, work) == []
  {
    if work != [] {
      NoMain(lists, work[1..]);
    }
  }

  // ----- the loops of get_ordered_segments

  method BringZerosToFront(zero: seq<bool>) returns (worklist: seq<nat>)
    ensures worklist == FrontZeros(zero, Range(|zero|), 0, 0)
  {
    worklist := Range(|zero|);
    ghost var goal := FrontZeros(zero, worklist, 0, 0);
    var nextSlot := 0;
    for i := 0 to |worklist|
      invariant |worklist| == |zero| && nextSlot <= i
      invariant forall k :: 0 <= k < |worklist| ==> worklist[k] < |zero|
      invariant FrontZeros(zero, worklist, i, nextSlot) == goal
    {
      if i != nextSlot && zero[worklist[i]] {
        worklist := worklist[i := worklist[nextSlot]][nextSlot := worklist[i]];
        nextSlot := nextSlot + 1;
      }
    }
  }

  /** Position of the first segment of the worklist that strictly includes seg, or its length. */
  method FindIncluding(lists: seq<seq<nat>>, seg: nat, worklist: seq<nat>) returns (i: nat)
    requires seg < |lists| && Indexes(lists, worklist)
    ensures i <= |worklist|
    ensures i < |worklist| <==> !Free(lists, seg, worklist)
    ensures i < |worklist| ==> IsSubsequenceOf(lists[seg], lists[worklist[i]])
  {
    i := 0;
    while i < |worklist|
      invariant i <= |worklist|
      invariant forall k :: 0 <= k < i ==> !IsSubsequenceOf(lists[seg], lists[worklist[k]])
    {
      if IsSubsequenceOf(lists[seg], lists[worklist[i]]) {
        break;
      }
      i := i + 1;
    }
  }

  method GetOrderedSegments(lists: seq<seq<nat>>, zero: seq<bool>) returns (res: seq<nat>)
    requires |lists| == |zero|
    ensures res == Ordered(lists, zero)
  {
    res := [];
    var worklist := BringZerosToFront(zero);
    while worklist != []
      invariant Indexes(lists, worklist)
      invariant Drain(lists, worklist, res) == Ordered(lists, zero)
      decreases |worklist|, Distance(lists, worklist, worklist)
    {
      ghost var before := worklist;
      var seg := worklist[0];
      worklist := worklist[1..];
      var i := FindIncluding(lists, seg, worklist);
      if i < |worklist| {
        RotationApproaches(lists, before);
        worklist := worklist + [seg];
      } else {
        res := res + [seg];
      }
    }
  }
}
