/** Addresses that do not ascend: a condition on the object under which no two parts of the file overlap
    all the same. */
module Scatter {
  import opened Arith
  import opened ElfTypes
  import opened ElfState
  import opened Layout
  import opened FreshRun
  import opened SegmentPass
  import opened SegmentOrder
  import opened LayoutPass
  import opened LoosePass
  import opened LayoutTheorems
  import opened Budget
  import opened Overlap
  import Frozen
  import Ordering

  // ----- one segment

  /** The last of the listed sections that is not null ends highest, so the cursor is behind all of them. */
  predicate EndsHighest(secs: seq<SectionState>, vaddr: nat, list: seq<nat>, from: nat)
    requires Within(list, |secs|)
  {
    list == [] ||
    (var init, s := list[..|list| - 1], secs[list[|list| - 1]];
     if s.IsNull() then EndsHighest(secs, vaddr, init, from)
     else Pinned(s) ==> vaddr + Reach(secs, vaddr, init, from) <= s.hdr.addr + s.hdr.size)
  }

  /** All of them that are not null have addresses and bytes, apart from those of s. */
  predicate ApartFrom(secs: seq<SectionState>, list: seq<nat>, s: SectionState)
    requires Within(list, |secs|)
  {
    forall j :: 0 <= j < |list| && !secs[list[j]].IsNull() ==> Pinned(secs[list[j]]) && MemoryApart(secs[list[j]], s)
  }

  /** Sections with addresses may come in any order, if their ranges are disjoint and not below the first
      `from` bytes; one without comes behind the highest end. */
  predicate Scattered(secs: seq<SectionState>, vaddr: nat, list: seq<nat>, from: nat)
    requires Within(list, |secs|)
  {
    list == [] ||
    (var init, s := list[..|list| - 1], secs[list[|list| - 1]];
     && Scattered(secs, vaddr, init, from)
     && (s.IsNull() ||
         if Pinned(s)
         then vaddr + from <= s.hdr.addr &&
              (vaddr + Reach(secs, vaddr, init, from) <= s.hdr.addr || ApartFrom(secs, init, s))
         else EndsHighest(secs, vaddr, init, from)))
  }

  /** Ascending addresses are a special case. */
  lemma {:induction false} RoomyIsScattered(secs: seq<SectionState>, vaddr: nat, list: seq<nat>, from: nat)
    requires Within(list, |secs|) && Roomy(secs, vaddr, list, from)
    ensures Scattered(secs, vaddr, list, from) && EndsHighest(secs, vaddr, list, from)
  {
    if list != [] {
      RoomyIsScattered(secs, vaddr, list[..|list| - 1], from);
    }
  }

  lemma {:induction false} SameScattered(secs: seq<SectionState>, secs': seq<SectionState>, vaddr: nat, list: seq<nat>,
      from: nat)
    requires |secs'| == |secs| && Within(list, |secs|)
    requires forall j :: 0 <= j < |list| ==> secs'[list[j]] == secs[list[j]]
    ensures Scattered(secs', vaddr, list, from) == Scattered(secs, vaddr, list, from)
    ensures EndsHighest(secs', vaddr, list, from) == EndsHighest(secs, vaddr, list, from)
  {
    if list != [] {
      SameScattered(secs, secs', vaddr, list[..|list| - 1], from);
      SameReach(secs, secs', vaddr, list[..|list| - 1], from);
    }
  }

  /** Section s0 after the walk: behind where this began, within the reach, and where its address says. */
  predicate Strewn(f: Frame, from: nat, end: nat, s0: SectionState, s: SectionState) {
    && s0.Moved(s) && from <= s.hdr.offset && s.End() <= end
    && (Pinned(s0) ==> s.hdr.offset == f.start + s0.hdr.addr - f.vaddr)
  }

  /** The listed sections are apart after the walk, and before the cursor if the last one ends highest. */
  predicate AllStrewn(f: Frame, c0: Cursor, c: Cursor, list: seq<nat>, from: nat)
    requires |c.secs| == |c0.secs| && Within(list, |c0.secs|)
  {
    && (forall j :: 0 <= j < |list| && !c0.secs[list[j]].IsNull() ==>
          Strewn(f, c0.pos, f.start + Reach(c0.secs, f.vaddr, list, from), c0.secs[list[j]], c.secs[list[j]]))
    && (forall j, k :: 0 <= j < |list| && 0 <= k < |list| && j != k &&
                       !c0.secs[list[j]].IsNull() && !c0.secs[list[k]].IsNull() ==>
          FileApart(c.secs[list[j]], c.secs[list[k]]))
    && (EndsHighest(c0.secs, f.vaddr, list, from) ==>
          && c0.pos <= c.pos
          && forall j :: 0 <= j < |list| && !c0.secs[list[j]].IsNull() ==> c.secs[list[j]].End() <= c.pos)
  }

  predicate ScatterReady(cls: ElfClass, f: Frame, c0: Cursor, list: seq<nat>, from: nat) {
    && |c0.gen| == |c0.secs| && Within(list, |c0.secs|) && Ordering.Sorted(list) && Indexed(c0.secs)
    && (forall j :: 0 <= j < |list| ==> !c0.gen[list[j]])
    && Scattered(c0.secs, f.vaddr, list, from) && NoneBelow(c0.secs, f.vaddr, list)
    && c0.pos <= f.start + from && f.start + Reach(c0.secs, f.vaddr, list, from) < cls.Limit()
  }

  lemma {:induction false} ScatteredWalk(cls: ElfClass, f: Frame, c0: Cursor, list: seq<nat>, from: nat)
    requires ScatterReady(cls, f, c0, list, from)
    ensures AllStrewn(f, c0, PlaceAll(cls, f, c0, list), list, from)
  {
    if list != [] {
      var init, i := list[..|list| - 1], list[|list| - 1];
      ScatteredWalk(cls, f, c0, init, from);
      WalkBounded(cls, f, c0, init, from);
      assert i !in init;
      Frozen.WalkTouches(cls, f, c0, init, i);
      OneStrewn(cls, f, c0, PlaceAll(cls, f, c0, init), list, from);
    }
  }

  lemma OneStrewn(cls: ElfClass, f: Frame, c0: Cursor, c: Cursor, list: seq<nat>, from: nat)
    requires ScatterReady(cls, f, c0, list, from) && list != [] && |c.secs| == |c.gen| == |c0.secs|
    requires var init, i := list[..|list| - 1], list[|list| - 1];
             && AllStrewn(f, c0, c, init, from) && c.secs[i] == c0.secs[i] && !c.gen[i]
             && c.pos <= f.start + Reach(c0.secs, f.vaddr, init, from)
    ensures AllStrewn(f, c0, PlaceOne(cls, f, c, list[|list| - 1]), list, from)
  {
    hide PlaceOne, Reach, Scattered, EndsHighest, AllStrewn;
    var i := list[|list| - 1];
    ReachParts(c0.secs, f.vaddr, list, from);
    if c0.secs[i].IsNull() {
      NullStrewn(cls, f, c0, c, list, from);
    } else if Pinned(c0.secs[i]) {
      PinnedStrewn(cls, f, c0, c, list, from);
    } else {
      PaddedStrewn(cls, f, c0, c, list, from);
    }
  }

  lemma ReachParts(secs: seq<SectionState>, vaddr: nat, list: seq<nat>, from: nat)
    requires Within(list, |secs|) && list != [] && Scattered(secs, vaddr, list, from)
    ensures var init, s := list[..|list| - 1], secs[list[|list| - 1]];
            var before, after := Reach(secs, vaddr, init, from), Reach(secs, vaddr, list, from);
            && Scattered(secs, vaddr, init, from)
            && from <= before <= after
            && (if s.IsNull() then after == before
                else if Pinned(s) then
                  && vaddr + from <= s.hdr.addr && s.hdr.addr - vaddr + s.hdr.size <= after
                  && (vaddr + before <= s.hdr.addr || ApartFrom(secs, init, s))
                else after == before + s.hdr.addrAlign + s.hdr.size && EndsHighest(secs, vaddr, init, from))
            && (if s.IsNull() then EndsHighest(secs, vaddr, list, from) == EndsHighest(secs, vaddr, init, from)
                else EndsHighest(secs, vaddr, list, from) ==> Pinned(s) ==> vaddr + before <= s.hdr.addr + s.hdr.size)
  {
  }

  /** The step for the last section of the list, from what is known about it. */
  lemma AddStrewn(f: Frame, c0: Cursor, c: Cursor, r: Cursor, list: seq<nat>, from: nat)
    requires list != [] && |r.secs| == |c.secs| == |c0.secs| && Within(list, |c0.secs|) && Ordering.Sorted(list)
    requires Reach(c0.secs, f.vaddr, list[..|list| - 1], from) <= Reach(c0.secs, f.vaddr, list, from)
    requires AllStrewn(f, c0, c, list[..|list| - 1], from)
    requires var init, i := list[..|list| - 1], list[|list| - 1];
             && r.secs == c.secs[i := r.secs[i]]
             && (!c0.secs[i].IsNull() ==>
                   && Strewn(f, c0.pos, f.start + Reach(c0.secs, f.vaddr, list, from), c0.secs[i], r.secs[i])
                   && forall j :: 0 <= j < |init| && !c0.secs[init[j]].IsNull() ==>
                                    FileApart(c.secs[init[j]], r.secs[i]))
             && (EndsHighest(c0.secs, f.vaddr, list, from) ==>
                   && c0.pos <= r.pos && (!c0.secs[i].IsNull() ==> r.secs[i].End() <= r.pos)
                   && forall j :: 0 <= j < |init| && !c0.secs[init[j]].IsNull() ==> c.secs[init[j]].End() <= r.pos)
    ensures AllStrewn(f, c0, r, list, from)
  {
    hide Reach, EndsHighest, FileApart;
    var init, i := list[..|list| - 1], list[|list| - 1];
    forall j | 0 <= j < |list|
      ensures j < |init| ==> list[j] == init[j] && r.secs[list[j]] == c.secs[init[j]]
    {
      assert j < |init| ==> list[j] < i;
    }
    forall j, k | 0 <= j < |list| && 0 <= k < |list| && j != k &&
                  !c0.secs[list[j]].IsNull() && !c0.secs[list[k]].IsNull()
      ensures FileApart(r.secs[list[j]], r.secs[list[k]])
    {
      ApartIsMutual(r.secs[list[j]], r.secs[list[k]]);
      if j < |init| && k < |init| {
        assert FileApart(c.secs[init[j]], c.secs[init[k]]);
      }
    }
  }

  lemma ApartIsMutual(s: SectionState, t: SectionState)
    ensures FileApart(s, t) == FileApart(t, s)
  {
  }

  lemma NullStrewn(cls: ElfClass, f: Frame, c0: Cursor, c: Cursor, list: seq<nat>, from: nat)
    requires ScatterReady(cls, f, c0, list, from) && list != [] && |c.secs| == |c.gen| == |c0.secs|
    requires var init, i := list[..|list| - 1], list[|list| - 1];
             AllStrewn(f, c0, c, init, from) && c.secs[i] == c0.secs[i] && c0.secs[i].IsNull()
    ensures AllStrewn(f, c0, PlaceOne(cls, f, c, list[|list| - 1]), list, from)
  {
    hide Reach, Scattered, EndsHighest;
    ReachParts(c0.secs, f.vaddr, list, from);
    var r := PlaceOne(cls, f, c, list[|list| - 1]);
    assert r.secs == c.secs && r.pos == c.pos;
    hide PlaceOne;
    AddStrewn(f, c0, c, r, list, from);
  }

  lemma PinnedStrewn(cls: ElfClass, f: Frame, c0: Cursor, c: Cursor, list: seq<nat>, from: nat)
    requires ScatterReady(cls, f, c0, list, from) && list != [] && |c.secs| == |c.gen| == |c0.secs|
    requires var init, i := list[..|list| - 1], list[|list| - 1];
             AllStrewn(f, c0, c, init, from) && c.secs[i] == c0.secs[i] && !c.gen[i] && Pinned(c0.secs[i])
    ensures AllStrewn(f, c0, PlaceOne(cls, f, c, list[|list| - 1]), list, from)
  {
    hide Reach, Scattered, EndsHighest, PlaceOne;
    var init, i := list[..|list| - 1], list[|list| - 1];
    var s, r := c0.secs[i], PlaceOne(cls, f, c, i);
    ReachParts(c0.secs, f.vaddr, list, from);
    PinnedGoes(cls, f, c, i);
    forall j | 0 <= j < |init| && !c0.secs[init[j]].IsNull()
      ensures FileApart(c.secs[init[j]], r.secs[i])
    {
      assert Strewn(f, c0.pos, f.start + Reach(c0.secs, f.vaddr, init, from), c0.secs[init[j]], c.secs[init[j]]);
    }
    AddStrewn(f, c0, c, r, list, from);
  }

  lemma PaddedStrewn(cls: ElfClass, f: Frame, c0: Cursor, c: Cursor, list: seq<nat>, from: nat)
    requires ScatterReady(cls, f, c0, list, from) && list != [] && |c.secs| == |c.gen| == |c0.secs|
    requires var init, i := list[..|list| - 1], list[|list| - 1];
             && AllStrewn(f, c0, c, init, from) && c.secs[i] == c0.secs[i] && !c.gen[i]
             && !c0.secs[i].IsNull() && !Pinned(c0.secs[i])
             && c.pos <= f.start + Reach(c0.secs, f.vaddr, init, from)
    ensures AllStrewn(f, c0, PlaceOne(cls, f, c, list[|list| - 1]), list, from)
  {
    hide Reach, Scattered, EndsHighest, PlaceOne;
    var init, i := list[..|list| - 1], list[|list| - 1];
    ReachParts(c0.secs, f.vaddr, list, from);
    PaddedGoes(cls, f, c, i);
    AddStrewn(f, c0, c, PlaceOne(cls, f, c, i), list, from);
  }

  // ----- all segments

  /** Every segment that places its sections has them scattered above what it covers, with the last one
      ending highest, and everything ends below the class's limit. */
  predicate LeavesRoom(e: Elf) {
    && WellFormed(e)
    && Bound(e, |e.segments|) + LooseCost(e.sections, |e.sections|) + 4 < e.cls.Limit()
    && forall n {:trigger TopLevel(e, n)} :: 0 <= n < |e.segments| && TopLevel(e, n) ==>
         var seg := e.segments[Order(e.segments)[n]];
         && Scattered(e.sections, seg.hdr.vaddr, seg.sections, Lead(e, n))
         && EndsHighest(e.sections, seg.hdr.vaddr, seg.sections, Lead(e, n))
  }

  lemma {:induction false} ScatteredIsAbove(secs: seq<SectionState>, vaddr: nat, list: seq<nat>, from: nat)
    requires Within(list, |secs|) && Scattered(secs, vaddr, list, from)
    ensures NoneBelow(secs, vaddr, list)
  {
    if list != [] {
      var init := list[..|list| - 1];
      ScatteredIsAbove(secs, vaddr, init, from);
      forall j | 0 <= j < |list| && Pinned(secs[list[j]])
        ensures vaddr <= secs[list[j]].hdr.addr
      {
        assert j < |init| ==> list[j] == init[j];
      }
    }
  }

  lemma RoomIsBounded(e: Elf)
    requires LeavesRoom(e)
    ensures Bounded(e)
  {
    hide Order, TopLevel, Laminar, SegShape, Scattered, EndsHighest, Reach, NoneBelow, Bound, Lead;
    forall n | 0 <= n < |e.segments| && TopLevel(e, n)
      ensures var seg := e.segments[Order(e.segments)[n]]; NoneBelow(e.sections, seg.hdr.vaddr, seg.sections)
    {
      var seg := e.segments[Order(e.segments)[n]];
      ScatteredIsAbove(e.sections, seg.hdr.vaddr, seg.sections, Lead(e, n));
    }
  }

  /** Affordable objects are among them. */
  lemma AffordableLeavesRoom(e: Elf)
    requires Affordable(e)
    ensures LeavesRoom(e)
  {
    hide Order, TopLevel, Laminar, SegShape, Scattered, EndsHighest, Reach, Bound, Lead, Roomy;
    forall n | 0 <= n < |e.segments| && TopLevel(e, n)
      ensures var seg := e.segments[Order(e.segments)[n]];
              && Scattered(e.sections, seg.hdr.vaddr, seg.sections, Lead(e, n))
              && EndsHighest(e.sections, seg.hdr.vaddr, seg.sections, Lead(e, n))
    {
      var seg := e.segments[Order(e.segments)[n]];
      assert Composed(e, n);
      if seg.sections == [] {
        NothingScattered(e.sections, seg.hdr.vaddr, Lead(e, n));
      } else {
        RoomyIsScattered(e.sections, seg.hdr.vaddr, seg.sections, Lead(e, n));
      }
    }
  }

  lemma NothingScattered(secs: seq<SectionState>, vaddr: nat, from: nat)
    ensures Scattered(secs, vaddr, [], from) && EndsHighest(secs, vaddr, [], from)
  {
  }

  /** The generated sections lie between the headers and the cursor, apart from each other. */
  predicate Settled(base: nat, st: LayState) {
    && |st.gen| == |st.secs| && base <= st.pos
    && (forall i :: 0 <= i < |st.secs| && Extent(st.secs, st.gen, i) ==>
          base <= st.secs[i].hdr.offset && st.secs[i].End() <= st.pos)
    && Apart(st.secs, st.gen)
  }

  ghost predicate SettledAt(e: Elf, n: nat) {
    ElfOk(e) && n <= |e.segments| && Settled(Base(e), StateAt(e, n))
  }

  /** One more segment, with new sections behind the old ones. */
  lemma SettledTurn(base: nat, st: LayState, r: LayState, list: seq<nat>)
    requires Settled(base, st) && |r.secs| == |r.gen| == |st.secs| && Within(list, |st.secs|) && st.pos <= r.pos
    requires forall i :: 0 <= i < |st.secs| ==> (r.gen[i] <==> st.gen[i] || i in list)
    requires forall i :: 0 <= i < |st.secs| && i !in list ==> r.secs[i] == st.secs[i]
    requires forall j :: 0 <= j < |list| && !r.secs[list[j]].IsNull() ==>
               !st.gen[list[j]] && st.pos <= r.secs[list[j]].hdr.offset && r.secs[list[j]].End() <= r.pos
    requires forall j, k :: 0 <= j < |list| && 0 <= k < |list| && j != k &&
                            !r.secs[list[j]].IsNull() && !r.secs[list[k]].IsNull() ==>
               FileApart(r.secs[list[j]], r.secs[list[k]])
    ensures Settled(base, r)
  {
    hide FileApart;
    forall i | 0 <= i < |r.secs| && Extent(r.secs, r.gen, i)
      ensures base <= r.secs[i].hdr.offset && r.secs[i].End() <= r.pos
    {
      assert i !in list ==> Extent(st.secs, st.gen, i);
    }
    forall i, k | 0 <= i < |r.secs| && 0 <= k < |r.secs| && i != k && Extent(r.secs, r.gen, i) &&
        Extent(r.secs, r.gen, k)
      ensures r.secs[i].End() <= r.secs[k].hdr.offset || r.secs[k].End() <= r.secs[i].hdr.offset
    {
      assert i !in list ==> Extent(st.secs, st.gen, i);
      assert k !in list ==> Extent(st.secs, st.gen, k);
      if i in list && k in list {
        var a :| 0 <= a < |list| && list[a] == i;
        var b :| 0 <= b < |list| && list[b] == k;
        assert FileApart(r.secs[list[a]], r.secs[list[b]]);
        EitherWay(r.secs[i], r.secs[k]);
      }
    }
  }

  lemma EitherWay(s: SectionState, t: SectionState)
    requires FileApart(s, t)
    ensures s.End() <= t.hdr.offset || t.End() <= s.hdr.offset
  {
  }

  /** The turn of a segment that places its sections. */
  lemma PlacerSettles(e: Elf, n: nat)
    requires LeavesRoom(e) && n < |e.segments| && SettledAt(e, n) && CursorAt(e, n)
    requires TopLevel(e, n) && e.segments[Order(e.segments)[n]].sections != []
    ensures SettledAt(e, n + 1)
  {
    hide Order, TopLevel, Laminar, SegShape, Scattered, EndsHighest, Reach, NoneBelow, Bound, Lead, StateAt, Open,
         PlaceAll, Settled;
    var k, st := Order(e.segments)[n], StateAt(e, n);
    var list := e.segments[k].sections;
    StateStep(e, n);
    TurnFinds(e, n);
    RoomIsBounded(e);
    PlacerStart(e, n);
    SegmentIsSorted(e, k);
    var (f, c) := Open(Prepared(e), st, st.segs[k]);
    SameScattered(e.sections, st.secs, f.vaddr, list, Lead(e, n));
    ScatteredWalk(e.cls, f, c, list, Lead(e, n));
    PlacerLeaves(e.cls, f, st, c, list, Lead(e, n), Base(e), StateAt(e, n + 1).segs);
  }

  lemma PlacerLeaves(cls: ElfClass, f: Frame, st: LayState, c: Cursor, list: seq<nat>, from: nat, base: nat,
      segs: seq<SegmentState>)
    requires Settled(base, st) && c.secs == st.secs && c.gen == st.gen && st.pos <= c.pos
    requires ScatterReady(cls, f, c, list, from) && EndsHighest(c.secs, f.vaddr, list, from)
    requires AllStrewn(f, c, PlaceAll(cls, f, c, list), list, from)
    ensures var r := PlaceAll(cls, f, c, list); Settled(base, LayState(r.pos, r.secs, r.gen, segs))
  {
    hide Scattered, EndsHighest, Reach, NoneBelow, PlaceAll, Settled, FileApart;
    var r := PlaceAll(cls, f, c, list);
    forall i | 0 <= i < |st.secs|
      ensures r.gen[i] <==> st.gen[i] || i in list
      ensures i !in list ==> r.secs[i] == st.secs[i]
    {
      Frozen.WalkTouches(cls, f, c, list, i);
    }
    Frozen.WalkMoves(cls, f, c, list);
    SettledTurn(base, st, LayState(r.pos, r.secs, r.gen, segs), list);
  }

  lemma {:induction false} AllSettled(e: Elf, n: nat)
    requires LeavesRoom(e) && n <= |e.segments|
    ensures SettledAt(e, n)
  {
    hide LeavesRoom, SettledAt, Bounded, CursorAt, ElfOk;
    RoomIsBounded(e);
    if n == 0 {
      NoneSettled(e);
    } else {
      AllSettled(e, n - 1);
      CursorBounded(e, n - 1);
      OneMoreSettled(e, n - 1);
    }
  }

  lemma NoneSettled(e: Elf)
    requires Bounded(e)
    ensures SettledAt(e, 0)
  {
    NoSegments(e);
  }

  lemma OneMoreSettled(e: Elf, n: nat)
    requires LeavesRoom(e) && n < |e.segments| && SettledAt(e, n) && CursorAt(e, n)
    ensures SettledAt(e, n + 1)
  {
    hide Order, TopLevel, Laminar, SegShape, Settled, StateAt, Layout.PlaceSegment, Bound;
    var k := Order(e.segments)[n];
    TurnFinds(e, n);
    if TopLevel(e, n) && e.segments[k].sections != [] {
      PlacerSettles(e, n);
    } else {
      StateStep(e, n);
      CursorStays(e.cls, Prepared(e), StateAt(e, n), k);
      NothingMoves(e.cls, Prepared(e), StateAt(e, n), k);
      SameSettled(Base(e), StateAt(e, n), StateAt(e, n + 1));
    }
  }

  lemma SameSettled(base: nat, st: LayState, r: LayState)
    requires Settled(base, st) && r.secs == st.secs && r.gen == st.gen && r.pos == st.pos
    ensures Settled(base, r)
  {
  }

  // ----- the rest of the file

  /** The headers, the sections and the section table do not overlap. */
  predicate FileClear(f: Elf) {
    && f.hdr.shoff % 4 == 0 && (f.hdr.phnum != 0 ==> f.hdr.phoff == f.hdr.ehsize)
    && (forall i :: 0 <= i < |f.sections| && !f.sections[i].IsNull() ==>
          f.hdr.ehsize + f.hdr.phentsize * f.hdr.phnum <= f.sections[i].hdr.offset &&
              f.sections[i].End() <= f.hdr.shoff)
    && (forall i, j :: 0 <= i < |f.sections| && 0 <= j < |f.sections| && i != j &&
                       !f.sections[i].IsNull() && !f.sections[j].IsNull() ==>
          FileApart(f.sections[i], f.sections[j]))
  }

  /** Then any two sections are apart from each other and from the other parts. */
  lemma ClearMeansApart(f: Elf, i: nat, j: nat)
    requires FileClear(f) && i < |f.sections| && j < |f.sections| && i != j
    requires !f.sections[i].IsNull() && !f.sections[j].IsNull()
    ensures PartsApart(f, i, j)
  {
    assert FileApart(f.sections[i], f.sections[j]);
  }

  /** After the segments of such an object everything is ready for the second pass. */
  lemma RoomFinishes(e: Elf)
    requires LeavesRoom(e)
    ensures var st := AfterSegments(e);
            && SegmentsFinished(st) && LooseFits(e.cls, st) && Settled(Base(e), st)
            && st.pos + LooseCost(e.sections, |e.sections|) + 4 < e.cls.Limit()
  {
    hide Order, TopLevel, Laminar, SegShape, Bound, StateAt, PlaceLooseUpTo, Settled, AfterSegments;
    var n := |e.segments|;
    Frozen.AllStates(e);
    RoomIsBounded(e);
    CursorBounded(e, n);
    AllSettled(e, n);
    SettledFinishes(e);
    SegmentsMove(e);
    LooseAffords(e.cls, AfterSegments(e), e.sections, |e.sections|);
  }

  lemma SegmentsMove(e: Elf)
    requires ElfOk(e)
    ensures Frozen.AllMoved(e.sections, AfterSegments(e).secs)
  {
    Frozen.SegmentPassMoves(e.cls, Prepared(e), InitialState(e), Order(e.segments));
  }

  lemma SettledFinishes(e: Elf)
    requires WellFormed(e) && SettledAt(e, |e.segments|)
    ensures SegmentsFinished(StateAt(e, |e.segments|))
  {
    hide Order, TopLevel, Laminar, SegShape, StateAt;
    var n := |e.segments|;
    var st := StateAt(e, n);
    AllIndexed(e, n);
    forall i | 0 <= i < |st.gen|
      ensures st.gen[i] <==> !IsLoose(st.segs, i)
    {
      RunTouches(e, n, i);
      LooseOrSome(e, i);
    }
    forall i | 0 <= i < |st.secs| && st.gen[i] && !st.secs[i].IsNull()
      ensures st.secs[i].End() <= st.pos
    {
      assert Extent(st.secs, st.gen, i);
    }
  }

  /** In the finished layout of such an object no two parts of the file overlap, whatever the order of the
      addresses. */
  lemma ScatteredIsClear(e: Elf)
    requires LeavesRoom(e)
    ensures FileClear(LaidOut(e))
  {
    hide Order, TopLevel, Laminar, SegShape, Bound, PlaceLooseUpTo, AfterSegments, Scattered, EndsHighest,
         SegmentsFinished, LooseFits, TablePosition, Pad, FileClear, Settled;
    var st := AfterSegments(e);
    RoomFinishes(e);
    LooseAreLaid(e.cls, st, |e.sections|);
    SegmentsMove(e);
    LooseAffords(e.cls, st, e.sections, |e.sections|);
    RestIsClear(e, st, AfterSections(e), LaidOut(e));
  }

  lemma RestIsClear(e: Elf, st0: LayState, st: LayState, r: Elf)
    requires WellFormed(e) && SegmentsFinished(st0) && Settled(Base(e), st0) && LooseLaid(e.cls, st0, |e.sections|, st)
    requires |st0.secs| == |e.sections| && st.pos + 4 <= e.cls.Limit()
    requires r.sections == st.secs && r.hdr == Prepared(e).(shoff := e.cls.Trunc(TablePosition(st.pos)))
    ensures FileClear(r)
  {
    hide Laminar, SegShape, TablePosition, Pad;
    TableBounds(e);
    TableFits(e.cls, st.pos, r.hdr.shoff);
    forall i | 0 <= i < |r.sections| && !r.sections[i].IsNull()
      ensures Base(e) <= r.sections[i].hdr.offset && r.sections[i].End() <= r.hdr.shoff
    {
      assert IsLoose(st0.segs, i) || Extent(st0.secs, st0.gen, i);
    }
    forall i, j | 0 <= i < |r.sections| && 0 <= j < |r.sections| && i != j &&
                  !r.sections[i].IsNull() && !r.sections[j].IsNull()
      ensures FileApart(r.sections[i], r.sections[j])
    {
      var mask := PlacedMask(st0, |e.sections|);
      assert Extent(st.secs, mask, i) && Extent(st.secs, mask, j);
    }
  }
}
