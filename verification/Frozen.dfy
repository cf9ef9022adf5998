/** Once the layout has generated a section or laid out a segment, it never touches it again. */
module Frozen {
  import opened ElfTypes
  import opened ElfState
  import opened Layout
  import opened SegmentPass
  import opened SegmentOrder
  import opened LayoutPass
  import opened LoosePass
  import opened LayoutTheorems

  lemma {:induction false} WalkKeeps(cls: ElfClass, f: Frame, c: Cursor, list: seq<nat>, j: nat)
    requires |c.gen| == |c.secs| && Within(list, |c.secs|) && j < |c.secs| && c.gen[j]
    ensures PlaceAll(cls, f, c, list).gen[j] && PlaceAll(cls, f, c, list).secs[j] == c.secs[j]
  {
    if list != [] {
      WalkKeeps(cls, f, c, list[..|list| - 1], j);
    }
  }

  /** A walk marks what it lists and leaves everything else alone. */
  lemma {:induction false} WalkTouches(cls: ElfClass, f: Frame, c: Cursor, list: seq<nat>, j: nat)
    requires |c.gen| == |c.secs| && Within(list, |c.secs|) && j < |c.secs|
    ensures var r := PlaceAll(cls, f, c, list);
            && (r.gen[j] <==> c.gen[j] || j in list)
            && (j !in list ==> r.secs[j] == c.secs[j])
  {
    if list != [] {
      var init := list[..|list| - 1];
      WalkTouches(cls, f, c, init, j);
      assert list == init + [list[|list| - 1]];
    }
  }

  lemma {:induction false} WalkMarks(cls: ElfClass, f: Frame, c: Cursor, list: seq<nat>, m: nat)
    requires |c.gen| == |c.secs| && Within(list, |c.secs|) && m < |list|
    ensures PlaceAll(cls, f, c, list).gen[list[m]]
  {
    var init := list[..|list| - 1];
    if m < |init| {
      WalkMarks(cls, f, c, init, m);
      assert init[m] == list[m];
    }
  }

  /** The sections of an initial part of the walk are not moved by the rest. */
  lemma PrefixKept(cls: ElfClass, f: Frame, c: Cursor, list: seq<nat>, m: nat)
    requires |c.gen| == |c.secs| && Within(list, |c.secs|) && m < |list| - 1
    ensures PlaceAll(cls, f, c, list).secs[list[m]] == PlaceAll(cls, f, c, list[..|list| - 1]).secs[list[m]]
  {
    var init := list[..|list| - 1];
    WalkMarks(cls, f, c, init, m);
    assert init[m] == list[m];
  }

  lemma SegmentKeeps(cls: ElfClass, h: Ehdr, st: LayState, k: nat, j: nat)
    requires LayOk(st) && k < |st.segs| && j < |st.secs| && st.gen[j]
    ensures var r := PlaceSegment(cls, h, st, k); r.gen[j] && r.secs[j] == st.secs[j]
  {
    var (f, c) := Open(h, st, st.segs[k]);
    WalkKeeps(cls, f, c, st.segs[k].sections, j);
  }

  /** Section j, generated in state st, is where it was in st0. */
  predicate Kept(st0: LayState, st: LayState, j: nat) {
    && LayOk(st0) && LayOk(st) && j < |st0.secs| == |st.secs|
    && st.gen[j] && st.secs[j] == st0.secs[j]
  }

  lemma KeptStep(e: Elf, st0: LayState, m: nat, j: nat)
    requires ElfOk(e) && m < |e.segments| && Kept(st0, StateAt(e, m), j)
    ensures Kept(st0, StateAt(e, m + 1), j)
  {
    StateStep(e, m);
    SegmentKeeps(e.cls, Prepared(e), StateAt(e, m), Order(e.segments)[m], j);
  }

  lemma {:induction false} StateKeeps(e: Elf, n: nat, m: nat, j: nat)
    requires ElfOk(e) && n <= m <= |e.segments| && j < |e.sections| && StateAt(e, n).gen[j]
    ensures Kept(StateAt(e, n), StateAt(e, m), j)
    decreases m
  {
    if n < m {
      StateKeeps(e, n, m - 1, j);
      KeptStep(e, StateAt(e, n), m - 1, j);
    }
  }

  lemma {:induction false} SegmentsKeep(e: Elf, p: nat, m: nat)
    requires ElfOk(e) && p < m <= |e.segments|
    ensures StateAt(e, m).segs[Order(e.segments)[p]] == StateAt(e, p + 1).segs[Order(e.segments)[p]]
    decreases m
  {
    if p + 1 < m {
      SegmentsKeep(e, p, m - 1);
      StateStep(e, m - 1);
      OrderFacts(e.segments);
      assert Order(e.segments)[p] != Order(e.segments)[m - 1];
    }
  }

  /** A section whose turn in the loose pass is over, or never comes, stays. */
  lemma {:induction false} LooseKeeps(cls: ElfClass, st: LayState, n: nat, m: nat, j: nat)
    requires n <= m <= |st.secs| && j < |st.secs| && (j < n || !IsLoose(st.segs, j))
    ensures PlaceLooseUpTo(cls, st, m).secs[j] == PlaceLooseUpTo(cls, st, n).secs[j]
    decreases m
  {
    if n < m {
      LooseKeeps(cls, st, n, m - 1, j);
    }
  }

  lemma AllStates(e: Elf)
    requires ElfOk(e)
    ensures AfterSegments(e) == StateAt(e, |e.segments|)
  {
    assert Order(e.segments)[..|e.segments|] == Order(e.segments);
  }

  /** What is generated after n segments is already where it stands in the finished layout. */
  lemma GeneratedIsFinal(e: Elf, n: nat, j: nat)
    requires Fitting(e) && n <= |e.segments| && j < |e.sections| && StateAt(e, n).gen[j]
    ensures LaidOut(e).sections[j] == StateAt(e, n).secs[j]
  {
    AllStates(e);
    StateKeeps(e, n, |e.segments|, j);
    SegmentsAreLaid(e, |e.segments|);
    Finished(e, AfterSegments(e));
    LooseKeeps(e.cls, AfterSegments(e), 0, |e.sections|, j);
  }

  /** A laid-out segment is already what it is in the finished layout. */
  lemma DoneIsFinal(e: Elf, p: nat)
    requires ElfOk(e) && p < |e.segments|
    ensures LaidOut(e).segments[Order(e.segments)[p]] == StateAt(e, p + 1).segs[Order(e.segments)[p]]
  {
    AllStates(e);
    SegmentsKeep(e, p, |e.segments|);
  }

  // ----- the layout changes nothing but addresses and offsets

  predicate AllMoved(secs0: seq<SectionState>, secs: seq<SectionState>) {
    |secs| == |secs0| && forall i :: 0 <= i < |secs| ==> secs0[i].Moved(secs[i])
  }

  lemma {:induction false} WalkMoves(cls: ElfClass, f: Frame, c: Cursor, list: seq<nat>)
    requires |c.gen| == |c.secs| && Within(list, |c.secs|)
    ensures AllMoved(c.secs, PlaceAll(cls, f, c, list).secs)
  {
    if list != [] {
      WalkMoves(cls, f, c, list[..|list| - 1]);
    }
  }

  lemma {:induction false} SegmentPassMoves(cls: ElfClass, h: Ehdr, st: LayState, order: seq<nat>)
    requires LayOk(st) && Within(order, |st.segs|)
    ensures AllMoved(st.secs, PlaceSegments(cls, h, st, order).secs)
  {
    if order != [] {
      SegmentPassMoves(cls, h, st, order[..|order| - 1]);
      var before := PlaceSegments(cls, h, st, order[..|order| - 1]);
      var (f, c) := Open(h, before, before.segs[order[|order| - 1]]);
      WalkMoves(cls, f, c, before.segs[order[|order| - 1]].sections);
    }
  }

  lemma {:induction false} LoosePassMoves(cls: ElfClass, st: LayState, n: nat)
    requires n <= |st.secs|
    ensures AllMoved(st.secs, PlaceLooseUpTo(cls, st, n).secs)
  {
    if n > 0 {
      LoosePassMoves(cls, st, n - 1);
    }
  }

  /** Whatever room there is, every section keeps its data, size and every field but two. */
  lemma LayoutMoves(e: Elf)
    requires ElfOk(e)
    ensures AllMoved(e.sections, LaidOut(e).sections) && |LaidOut(e).segments| == |e.segments|
  {
    SegmentPassMoves(e.cls, Prepared(e), InitialState(e), Order(e.segments));
    LoosePassMoves(e.cls, AfterSegments(e), |e.sections|);
  }
}
