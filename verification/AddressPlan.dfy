/** Objects whose segments have addresses for all their sections: the place of everything in the file can
    be told from the object, and so can exactly when two parts of the file overlap. */
module AddressPlan {
  import opened Arith
  import opened ElfTypes
  import opened ElfState
  import opened Layout
  import opened FreshRun
  import opened SegmentPass
  import opened SegmentOrder
  import opened LayoutPass
  import opened LoosePass
  import opened LayoutTheorems
  import opened Budget
  import opened Overlap
  import opened Scatter
  import Frozen
  import Ordering

  // ----- the objects

  /** The listed sections that are not null have bytes, and addresses not below vaddr. */
  predicate AllPinned(secs: seq<SectionState>, vaddr: nat, list: seq<nat>)
    requires Within(list, |secs|)
  {
    forall j :: 0 <= j < |list| && !secs[list[j]].IsNull() ==>
      Pinned(secs[list[j]]) && vaddr <= secs[list[j]].hdr.addr
  }

  /** That holds of every segment that places its sections, and the end of everything, counted from addresses
      and sizes, is below the class's limit. */
  predicate Addressed(e: Elf) {
    && WellFormed(e)
    && Bound(e, |e.segments|) + LooseCost(e.sections, |e.sections|) + 4 < e.cls.Limit()
    && forall n {:trigger TopLevel(e, n)} :: 0 <= n < |e.segments| && TopLevel(e, n) ==>
         var seg := e.segments[Order(e.segments)[n]]; AllPinned(e.sections, seg.hdr.vaddr, seg.sections)
  }

  lemma AddressedIsBounded(e: Elf)
    requires Addressed(e)
    ensures Bounded(e)
  {
    hide Order, TopLevel, Laminar, SegShape, Bound;
  }

  // ----- the plan

  /** Where the cursor is behind the listed sections, counted from the segment's start: at the end of the
      last one, wherever the others are. */
  function Tip(secs: seq<SectionState>, vaddr: nat, list: seq<nat>, from: nat): nat
    requires Within(list, |secs|) && AllPinned(secs, vaddr, list)
  {
    if list == [] then from
    else
      var init, s := list[..|list| - 1], secs[list[|list| - 1]];
      if !s.IsNull() then s.hdr.addr - vaddr + s.hdr.size
      else
        PinnedInit(secs, vaddr, list);
        Tip(secs, vaddr, init, from)
  }

  lemma PinnedInit(secs: seq<SectionState>, vaddr: nat, list: seq<nat>)
    requires Within(list, |secs|) && AllPinned(secs, vaddr, list) && list != []
    ensures AllPinned(secs, vaddr, list[..|list| - 1])
  {
    var init := list[..|list| - 1];
    assert forall j :: 0 <= j < |init| ==> init[j] == list[j];
  }

  /** Where a segment starts if the cursor is at pos. */
  function StartFrom(secs: seq<SectionState>, seg: SegmentState, pos: nat): nat
    requires SegmentOk(seg, |secs|) && seg.sections != []
  {
    if StartsWithNull(seg, secs) then 0 else pos + SegmentGap(pos, seg.hdr.vaddr, seg.hdr.align)
  }

  /** Where that segment leaves the cursor, counted from its start: one that begins with the null section covers
      everything before its first section. */
  function TipOf(secs: seq<SectionState>, seg: SegmentState, pos: nat): nat
    requires SegmentOk(seg, |secs|) && AllPinned(secs, seg.hdr.vaddr, seg.sections)
  {
    Tip(secs, seg.hdr.vaddr, seg.sections, if StartsWithNull(seg, secs) then pos else 0)
  }

  /** The cursor before the segment at position n. */
  function CursorBefore(e: Elf, n: nat): nat
    requires Addressed(e) && n <= |e.segments|
  {
    if n == 0 then Base(e)
    else
      var seg, pos := e.segments[Order(e.segments)[n - 1]], CursorBefore(e, n - 1);
      if !PlacerAt(e, n - 1) then pos
      else StartFrom(e.sections, seg, pos) + TipOf(e.sections, seg, pos)
  }

  /** Where that segment starts, and where its section a stands. */
  function StartAt(e: Elf, n: nat): nat
    requires Addressed(e) && PlacerAt(e, n)
  {
    StartFrom(e.sections, e.segments[Order(e.segments)[n]], CursorBefore(e, n))
  }

  function Place(e: Elf, n: nat, a: nat): int
    requires Addressed(e) && PlacerAt(e, n) && a < |e.sections|
  {
    StartAt(e, n) + e.sections[a].hdr.addr - e.segments[Order(e.segments)[n]].hdr.vaddr
  }

  /** The cursor after the sections without a segment among the first n, from pos. */
  function LooseEnd(e: Elf, pos: nat, n: nat): nat
    requires n <= |e.sections|
  {
    if n == 0 then pos
    else
      var before, s := LooseEnd(e, pos, n - 1), e.sections[n - 1];
      if !IsLoose(e.segments, n - 1) then before
      else before + Pad(before, s.hdr.addrAlign) + if s.Occupies() then s.hdr.size else 0
  }

  /** Where section i goes if it is in no segment. */
  function LoosePlace(e: Elf, i: nat): nat
    requires Addressed(e) && i < |e.sections|
  {
    var before := LooseEnd(e, CursorBefore(e, |e.segments|), i);
    before + Pad(before, e.sections[i].hdr.addrAlign)
  }

  /** Where the section header table goes. */
  function TableStart(e: Elf): nat
    requires Addressed(e)
  {
    var end := LooseEnd(e, CursorBefore(e, |e.segments|), |e.sections|);
    end + Pad(end, 4)
  }

  // ----- the layout follows it

  /** The walk over addressed sections, as far as the cursor and the places are concerned. */
  predicate Followed(f: Frame, c0: Cursor, c: Cursor, list: seq<nat>, from: nat)
    requires |c.secs| == |c0.secs| && Within(list, |c0.secs|) && AllPinned(c0.secs, f.vaddr, list)
  {
    c.pos == f.start + Tip(c0.secs, f.vaddr, list, from)
  }

  lemma {:induction false} PinnedRun(cls: ElfClass, f: Frame, c: Cursor, list: seq<nat>, from: nat)
    requires |c.gen| == |c.secs| && Within(list, |c.secs|) && Ordering.Sorted(list) && Indexed(c.secs)
    requires (forall j :: 0 <= j < |list| ==> !c.gen[list[j]]) && AllPinned(c.secs, f.vaddr, list)
    requires c.pos == f.start + from && f.start + Reach(c.secs, f.vaddr, list, from) < cls.Limit()
    ensures Followed(f, c, PlaceAll(cls, f, c, list), list, from)
  {
    if list != [] {
      var init, i := list[..|list| - 1], list[|list| - 1];
      PinnedInit(c.secs, f.vaddr, list);
      PinnedRun(cls, f, c, init, from);
      assert i !in init;
      Frozen.WalkTouches(cls, f, c, init, i);
      if !c.secs[i].IsNull() {
        PinnedGoes(cls, f, PlaceAll(cls, f, c, init), i);
      }
    }
  }

  lemma {:induction false} SameTip(secs: seq<SectionState>, secs': seq<SectionState>, vaddr: nat, list: seq<nat>,
      from: nat)
    requires |secs'| == |secs| && Within(list, |secs|) && AllPinned(secs, vaddr, list)
    requires forall j :: 0 <= j < |list| ==> secs'[list[j]] == secs[list[j]]
    ensures AllPinned(secs', vaddr, list) && Tip(secs', vaddr, list, from) == Tip(secs, vaddr, list, from)
  {
    if list != [] {
      PinnedInit(secs, vaddr, list);
      SameTip(secs, secs', vaddr, list[..|list| - 1], from);
    }
  }

  ghost predicate CursorIs(e: Elf, n: nat) {
    Addressed(e) && n <= |e.segments| && StateAt(e, n).pos == CursorBefore(e, n)
  }

  lemma OpenIs(h: Ehdr, st: LayState, seg: SegmentState)
    requires |st.gen| == |st.secs| && SegmentOk(seg, |st.secs|) && StartsNew(seg, st.gen)
    requires StartsWithNull(seg, st.secs) || st.pos + seg.hdr.align < U64
    ensures var (f, c) := Open(h, st, seg);
            && f.start == StartFrom(st.secs, seg, st.pos)
            && c.pos == f.start + if StartsWithNull(seg, st.secs) then st.pos else 0
  {
  }

  /** Where the segment at position n opens. */
  lemma OpensAt(e: Elf, n: nat)
    requires Addressed(e) && PlacerAt(e, n) && CursorIs(e, n)
    ensures var k, st := Order(e.segments)[n], StateAt(e, n);
            var (f, c) := Open(Prepared(e), st, st.segs[k]);
            && st.segs[k] == e.segments[k] && f.start == StartAt(e, n)
            && c.pos == f.start + if StartsWithNull(e.segments[k], e.sections) then CursorBefore(e, n) else 0
  {
    hide Order, TopLevel, Laminar, SegShape, Bound, StateAt, Reach, Lead, Open, StartsWithNull;
    var k, st := Order(e.segments)[n], StateAt(e, n);
    AddressedIsBounded(e);
    TurnFinds(e, n);
    CursorBounded(e, n);
    BoundStep(e, n);
    BoundGrows(e, n + 1, |e.segments|);
    SameFirst(e.segments[k], e.sections, st.secs);
    assert e.cls.Limit() <= U64;
    OpenIs(Prepared(e), st, st.segs[k]);
  }

  lemma CursorFollows(e: Elf, n: nat)
    requires CursorIs(e, n) && n < |e.segments|
    ensures CursorIs(e, n + 1)
  {
    hide Order, TopLevel, Laminar, SegShape, Bound, StateAt, Reach, Lead, Open, StartsWithNull, PlaceAll, Tip;
    var k, st := Order(e.segments)[n], StateAt(e, n);
    var list := e.segments[k].sections;
    AddressedIsBounded(e);
    TurnFinds(e, n);
    StateStep(e, n);
    if PlacerAt(e, n) {
      OpensAt(e, n);
      CursorBounded(e, n);
      PlacerStart(e, n);
      SegmentIsSorted(e, k);
      var (f, c) := Open(Prepared(e), st, st.segs[k]);
      var from := if StartsWithNull(e.segments[k], e.sections) then CursorBefore(e, n) else 0;
      SameTip(e.sections, c.secs, f.vaddr, list, from);
      ShorterReach(c.secs, f.vaddr, list, from, Lead(e, n));
      PinnedRun(e.cls, f, c, list, from);
    } else {
      CursorStays(e.cls, Prepared(e), st, k);
    }
  }

  lemma ShorterReach(secs: seq<SectionState>, vaddr: nat, list: seq<nat>, from: nat, later: nat)
    requires Within(list, |secs|) && from <= later
    ensures Reach(secs, vaddr, list, from) <= Reach(secs, vaddr, list, later)
  {
    EarlierIsRoomier(secs, vaddr, list, from, later);
  }

  lemma {:induction false} CursorsFollow(e: Elf, n: nat)
    requires Addressed(e) && n <= |e.segments|
    ensures CursorIs(e, n)
  {
    hide Addressed, CursorIs;
    if n == 0 {
      FirstCursor(e);
    } else {
      CursorsFollow(e, n - 1);
      CursorFollows(e, n - 1);
    }
  }

  lemma FirstCursor(e: Elf)
    requires Addressed(e)
    ensures CursorIs(e, 0)
  {
    NoSegments(e);
  }

  /** An addressed section stands where the plan has it. */
  lemma PlacedAsPlanned(e: Elf, n: nat, a: nat)
    requires Addressed(e) && PlacerAt(e, n)
    requires a in e.segments[Order(e.segments)[n]].sections && NonNull(e.sections, a)
    ensures Pinned(e.sections[a]) && Place(e, n, a) >= 0 && |LaidOut(e).sections| == |e.sections|
    ensures LaidOut(e).sections[a] == e.sections[a].WithOffset(Place(e, n, a))
  {
    hide Order, TopLevel, Laminar, SegShape, Bound, StateAt, LaidOut, Open, InRange;
    var k := Order(e.segments)[n];
    var j :| 0 <= j < |e.segments[k].sections| && e.segments[k].sections[j] == a;
    AddressedIsBounded(e);
    BoundedInRange(e, n, a);
    SegmentIsSorted(e, k);
    Frozen.LayoutMoves(e);
    PinnedPlace(e, n, a);
    StartsAsPlanned(e, n);
  }

  lemma StartsAsPlanned(e: Elf, n: nat)
    requires Addressed(e) && PlacerAt(e, n)
    ensures |LaidOut(e).segments| == |e.segments|
    ensures LaidOut(e).segments[Order(e.segments)[n]].hdr.offset == StartAt(e, n)
    ensures Resized(e.segments[Order(e.segments)[n]], LaidOut(e).segments[Order(e.segments)[n]])
  {
    hide Order, TopLevel, Laminar, SegShape, Bound, StateAt, LaidOut, Open, Reach, Layout.PlaceSegment, Lead;
    var k, st := Order(e.segments)[n], StateAt(e, n);
    AddressedIsBounded(e);
    CursorsFollow(e, n);
    OpensAt(e, n);
    CursorBounded(e, n);
    PlacerStart(e, n);
    StateStep(e, n);
    Frozen.DoneIsFinal(e, n);
    Frozen.LayoutMoves(e);
    StoredFields(e.cls, Prepared(e), st, k);
  }

  // ----- what the segment covers

  /** The sizes follow the cursor, also where it goes back. */
  predicate Measured(f: Frame, c: Cursor, counted: bool) {
    c.pos == f.start + c.filesz && (counted ==> c.memsz == c.filesz)
  }

  lemma PinnedMeasures(cls: ElfClass, f: Frame, c: Cursor, i: nat, counted: bool)
    requires c.Has(i) && !c.gen[i] && Pinned(c.secs[i]) && c.secs[i].index != 0 && Measured(f, c, counted)
    requires counted ==> Counted(f, c.secs[i])
    requires f.vaddr <= c.secs[i].hdr.addr && f.start + c.secs[i].hdr.addr - f.vaddr + c.secs[i].hdr.size < cls.Limit()
    ensures Measured(f, PlaceOne(cls, f, c, i), counted)
  {
    hide Counted;
    assert cls.Limit() <= U64;
    PinnedGoes(cls, f, c, i);
    PinnedSkip(f, c, i);
    WrapAdd(c.filesz + c.secs[i].hdr.size, (c.secs[i].hdr.addr - f.vaddr) - (c.pos - f.start));
  }

  lemma {:induction false} RunMeasures(cls: ElfClass, f: Frame, c: Cursor, list: seq<nat>, from: nat, counted: bool)
    requires |c.gen| == |c.secs| && Within(list, |c.secs|) && Ordering.Sorted(list) && Indexed(c.secs)
    requires (forall j :: 0 <= j < |list| ==> !c.gen[list[j]]) && AllPinned(c.secs, f.vaddr, list)
    requires Measured(f, c, counted) && f.start + Reach(c.secs, f.vaddr, list, from) < cls.Limit()
    requires counted ==> forall j :: 0 <= j < |list| && !c.secs[list[j]].IsNull() ==> Counted(f, c.secs[list[j]])
    ensures Measured(f, PlaceAll(cls, f, c, list), counted)
  {
    hide Counted, Pinned;
    if list != [] {
      var init, i := list[..|list| - 1], list[|list| - 1];
      PinnedInit(c.secs, f.vaddr, list);
      assert forall j :: 0 <= j < |init| ==> init[j] == list[j];
      RunMeasures(cls, f, c, init, from, counted);
      assert i !in init;
      Frozen.WalkTouches(cls, f, c, init, i);
      ReachesEnd(c.secs, f.vaddr, list, from);
      if !c.secs[i].IsNull() {
        PinnedMeasures(cls, f, PlaceAll(cls, f, c, init), i, counted);
      } else {
        hide Measured;
        NullMeasures(cls, f, PlaceAll(cls, f, c, init), i, counted);
      }
    }
  }

  lemma ReachesEnd(secs: seq<SectionState>, vaddr: nat, list: seq<nat>, from: nat)
    requires Within(list, |secs|) && list != [] && AllPinned(secs, vaddr, list)
    ensures Reach(secs, vaddr, list[..|list| - 1], from) <= Reach(secs, vaddr, list, from)
    ensures var s := secs[list[|list| - 1]];
            !s.IsNull() ==> s.hdr.addr - vaddr + s.hdr.size <= Reach(secs, vaddr, list, from)
  {
  }

  lemma NullMeasures(cls: ElfClass, f: Frame, c: Cursor, i: nat, counted: bool)
    requires c.Has(i) && c.secs[i].IsNull() && Measured(f, c, counted)
    ensures Measured(f, PlaceOne(cls, f, c, i), counted)
  {
  }

  lemma WalkMeasures(e: Elf, n: nat, counted: bool)
    requires Addressed(e) && PlacerAt(e, n)
    requires var seg := e.segments[Order(e.segments)[n]];
             counted ==> AllCounted(FrameOf(seg), e.sections, Elems(seg.sections))
    ensures var k, st := Order(e.segments)[n], StateAt(e, n);
            var (f, c) := Open(Prepared(e), st, st.segs[k]);
            st.segs[k] == e.segments[k] && Measured(f, PlaceAll(e.cls, f, c, e.segments[k].sections), counted)
  {
    hide Order, TopLevel, Laminar, SegShape, Bound, StateAt, Reach, Lead, PlaceAll, Tip, StartsWithNull;
    var k, st := Order(e.segments)[n], StateAt(e, n);
    var list := e.segments[k].sections;
    AddressedIsBounded(e);
    CursorBounded(e, n);
    PlacerStart(e, n);
    TurnFinds(e, n);
    SegmentIsSorted(e, k);
    var (f, c) := Open(Prepared(e), st, st.segs[k]);
    OpensMeasured(Prepared(e), st, st.segs[k], counted);
    hide Open, Measured, Counted;
    SameTip(e.sections, c.secs, f.vaddr, list, 0);
    CountedThere(FrameOf(e.segments[k]), f, e.sections, c.secs, list, counted);
    RunMeasures(e.cls, f, c, list, Lead(e, n), counted);
  }

  lemma OpensMeasured(h: Ehdr, st: LayState, seg: SegmentState, counted: bool)
    requires |st.gen| == |st.secs| && SegmentOk(seg, |st.secs|) && StartsNew(seg, st.gen)
    ensures var (f, c) := Open(h, st, seg); Measured(f, c, counted)
  {
  }

  lemma CountedThere(f: Frame, f': Frame, secs: seq<SectionState>, secs': seq<SectionState>, list: seq<nat>,
      counted: bool)
    requires f.typ == f'.typ && |secs'| == |secs| && Within(list, |secs|)
    requires forall j :: 0 <= j < |list| ==> secs'[list[j]] == secs[list[j]]
    requires counted ==> AllCounted(f, secs, Elems(list))
    ensures counted ==> forall j :: 0 <= j < |list| && !secs'[list[j]].IsNull() ==> Counted(f', secs'[list[j]])
  {
    if counted {
      forall j | 0 <= j < |list| && !secs'[list[j]].IsNull()
        ensures Counted(f', secs'[list[j]])
      {
        assert list[j] in Elems(list) && NonNull(secs, list[j]);
      }
    }
  }

  /** The segment's file image ends where its last listed section does, and so does its memory image if all of
      them count, wherever the others are. */
  lemma SizesAsPlanned(e: Elf, n: nat)
    requires Addressed(e) && PlacerAt(e, n)
    ensures |LaidOut(e).segments| == |e.segments|
    ensures var seg0, seg := e.segments[Order(e.segments)[n]], LaidOut(e).segments[Order(e.segments)[n]];
            var tip := TipOf(e.sections, seg0, CursorBefore(e, n));
            && seg.hdr.filesz == tip
            && (AllCounted(FrameOf(seg0), e.sections, Elems(seg0.sections)) ==> seg.hdr.memsz == tip)
  {
    hide Order, TopLevel, Laminar, SegShape, Bound, StateAt, LaidOut, PlaceAll, Tip, Layout.PlaceSegment, Open,
         StartsWithNull, AllCounted;
    var k, st := Order(e.segments)[n], StateAt(e, n);
    var counted := AllCounted(FrameOf(e.segments[k]), e.sections, Elems(e.segments[k].sections));
    AddressedIsBounded(e);
    CursorsFollow(e, n);
    CursorsFollow(e, n + 1);
    OpensAt(e, n);
    CursorBounded(e, n + 1);
    BoundGrows(e, n + 1, |e.segments|);
    WalkMeasures(e, n, counted);
    StateStep(e, n);
    Frozen.DoneIsFinal(e, n);
    Frozen.LayoutMoves(e);
    StoredFields(e.cls, Prepared(e), st, k);
  }

  /** So a section lies inside the segment that places it exactly if it does not end behind the last one. */
  lemma CoveredExactly(e: Elf, n: nat, a: nat)
    requires Addressed(e) && PlacerAt(e, n) && a in e.segments[Order(e.segments)[n]].sections && NonNull(e.sections, a)
    ensures |LaidOut(e).segments| == |e.segments| && |LaidOut(e).sections| == |e.sections|
    ensures var seg0, f := e.segments[Order(e.segments)[n]], LaidOut(e);
            var seg := f.segments[Order(e.segments)[n]];
            var tip := TipOf(e.sections, seg0, CursorBefore(e, n));
            && seg.hdr.offset <= f.sections[a].hdr.offset
            && (f.sections[a].End() <= seg.hdr.offset + seg.hdr.filesz <==>
                  e.sections[a].hdr.addr + e.sections[a].hdr.size <= seg0.hdr.vaddr + tip)
  {
    hide Order, TopLevel, Laminar, SegShape, Bound, LaidOut, Tip, StartAt, AllCounted, CursorBefore;
    var k := Order(e.segments)[n];
    var j :| 0 <= j < |e.segments[k].sections| && e.segments[k].sections[j] == a;
    SizesAsPlanned(e, n);
    StartsAsPlanned(e, n);
    PlacedAsPlanned(e, n, a);
  }

  // ----- the sections without a segment

  /** The second pass follows the plan too. */
  predicate LooseFollowed(e: Elf, st0: LayState, st: LayState, n: nat)
    requires n <= |e.sections| == |st.secs|
  {
    && st.pos == LooseEnd(e, st0.pos, n)
    && forall i :: 0 <= i < n && IsLoose(e.segments, i) && e.sections[i].index != 0 ==>
         var before := LooseEnd(e, st0.pos, i);
         st.secs[i].hdr.offset == before + Pad(before, e.sections[i].hdr.addrAlign)
  }

  lemma {:induction false} LooseRun(e: Elf, st0: LayState, n: nat)
    requires n <= |e.sections| == |st0.secs| && Frozen.AllMoved(e.sections, st0.secs)
    requires forall i :: 0 <= i < |e.sections| ==> IsLoose(st0.segs, i) == IsLoose(e.segments, i)
    requires st0.pos + LooseCost(e.sections, |e.sections|) < e.cls.Limit()
    ensures LooseFollowed(e, st0, PlaceLooseUpTo(e.cls, st0, n), n)
    ensures LooseEnd(e, st0.pos, n) <= st0.pos + LooseCost(e.sections, n)
  {
    hide PlaceLoose, Pad, IsLoose, LooseFollowed, Frozen.AllMoved;
    if n == 0 {
      NoneFollowed(e, st0);
    } else {
      LooseRun(e, st0, n - 1);
      LooseCostsGrow(e.sections, n);
      Frozen.LoosePassMoves(e.cls, st0, n - 1);
      LooseGoes(e, st0, PlaceLooseUpTo(e.cls, st0, n - 1), n - 1);
    }
  }

  lemma NoneFollowed(e: Elf, st0: LayState)
    requires |e.sections| == |st0.secs|
    ensures LooseFollowed(e, st0, st0, 0)
  {
  }

  lemma LooseGoes(e: Elf, st0: LayState, st: LayState, i: nat)
    requires i < |e.sections| == |st.secs| && LooseFollowed(e, st0, st, i)
    requires Frozen.AllMoved(e.sections, st0.secs) && Frozen.AllMoved(st0.secs, st.secs)
    requires IsLoose(st.segs, i) == IsLoose(e.segments, i)
    requires LooseEnd(e, st0.pos, i) + e.sections[i].hdr.addrAlign + e.sections[i].hdr.size < e.cls.Limit()
    ensures LooseFollowed(e, st0, PlaceLoose(e.cls, st, i), i + 1)
    ensures LooseEnd(e, st0.pos, i + 1) <= LooseEnd(e, st0.pos, i) + e.sections[i].hdr.addrAlign +
              e.sections[i].hdr.size
  {
    hide PlaceLoose, Pad, IsLoose;
    assert e.sections[i].Moved(st0.secs[i]) && st0.secs[i].Moved(st.secs[i]);
    PadFits(LooseEnd(e, st0.pos, i), e.sections[i].hdr.addrAlign);
    if IsLoose(e.segments, i) {
      LooseStep(e.cls, st, i);
    } else {
      NotLoose(e.cls, st, i);
    }
  }

  lemma PadFits(pos: nat, align: nat)
    ensures Pad(pos, align) <= align
  {
  }

  lemma NotLoose(cls: ElfClass, st: LayState, i: nat)
    requires i < |st.secs| && !IsLoose(st.segs, i)
    ensures PlaceLoose(cls, st, i) == st
  {
  }

  lemma LooseStep(cls: ElfClass, st: LayState, i: nat)
    requires i < |st.secs| && IsLoose(st.segs, i)
    requires st.pos + st.secs[i].hdr.addrAlign + st.secs[i].hdr.size < cls.Limit()
    ensures var r, s := PlaceLoose(cls, st, i), st.secs[i];
            var pos := st.pos + Pad(st.pos, s.hdr.addrAlign);
            && r.secs == st.secs[i := r.secs[i]] && r.pos == pos + (if s.Occupies() then s.hdr.size else 0)
            && (s.index != 0 ==> r.secs[i].hdr.offset == pos)
  {
    assert cls.Limit() <= U64;
    PadFits(st.pos, st.secs[i].hdr.addrAlign);
    hide Pad;
  }

  // ----- the finished file

  /** Section a is placed by the segment at position n. */
  predicate PlacedBy(e: Elf, n: nat, a: nat) {
    PlacerAt(e, n) && a in e.segments[Order(e.segments)[n]].sections && NonNull(e.sections, a)
  }

  /** After the segments the cursor and the loose sections are as planned. */
  lemma RestFollows(e: Elf)
    requires Addressed(e)
    ensures LooseFollowed(e, AfterSegments(e), AfterSections(e), |e.sections|)
    ensures AfterSegments(e).pos == CursorBefore(e, |e.segments|)
    ensures LooseEnd(e, CursorBefore(e, |e.segments|), |e.sections|) + 4 < e.cls.Limit()
  {
    hide Order, TopLevel, Laminar, SegShape, Bound, StateAt, AfterSegments, PlaceLooseUpTo, LooseFollowed, IsLoose;
    var n := |e.segments|;
    Frozen.AllStates(e);
    AddressedIsBounded(e);
    CursorBounded(e, n);
    CursorsFollow(e, n);
    SegmentsMove(e);
    SameLoose(e);
    LooseRun(e, AfterSegments(e), |e.sections|);
  }

  lemma SameLoose(e: Elf)
    requires WellFormed(e)
    ensures forall i :: 0 <= i < |e.sections| ==> IsLoose(AfterSegments(e).segs, i) == IsLoose(e.segments, i)
  {
    hide Order, StateAt, AfterSegments;
    Frozen.AllStates(e);
    forall i | 0 <= i < |e.sections|
      ensures IsLoose(AfterSegments(e).segs, i) == IsLoose(e.segments, i)
    {
      RunTouches(e, |e.segments|, i);
    }
  }

  /** The table goes where the plan has it. */
  lemma TableAsPlanned(e: Elf)
    requires Addressed(e)
    ensures var f := LaidOut(e);
            && f.hdr == Prepared(e).(shoff := TableStart(e)) && |f.sections| == |e.sections| && TableStart(e) % 4 == 0
            && f.hdr.ehsize + f.hdr.phentsize * f.hdr.phnum == Base(e)
  {
    hide Order, TopLevel, Laminar, SegShape, Bound, AfterSegments, PlaceLooseUpTo, LooseFollowed, Pad;
    RestFollows(e);
    var end := AfterSections(e).pos;
    assert end == LooseEnd(e, CursorBefore(e, |e.segments|), |e.sections|) by {
      LooseFollowedEnds(e, AfterSegments(e), AfterSections(e));
    }
    TableFits(e.cls, end, e.cls.Trunc(TablePosition(end)));
    TableIs(e.cls, end);
  }

  lemma LooseFollowedEnds(e: Elf, st0: LayState, st: LayState)
    requires |st.secs| == |e.sections| && LooseFollowed(e, st0, st, |e.sections|)
    ensures st.pos == LooseEnd(e, st0.pos, |e.sections|)
  {
  }

  lemma TableIs(cls: ElfClass, pos: nat)
    requires pos + 4 <= cls.Limit()
    ensures cls.Trunc(TablePosition(pos)) == pos + Pad(pos, 4)
  {
    assert cls.Limit() <= U64;
  }

  /** So does a section without a segment. */
  lemma LooseAsPlanned(e: Elf, i: nat)
    requires Addressed(e) && i < |e.sections| && IsLoose(e.segments, i) && !e.sections[i].IsNull()
    ensures |LaidOut(e).sections| == |e.sections| && e.sections[i].Moved(LaidOut(e).sections[i])
    ensures LaidOut(e).sections[i].hdr.offset == LoosePlace(e, i)
  {
    hide Order, TopLevel, Laminar, SegShape, Bound, AfterSegments, PlaceLooseUpTo, Pad;
    RestFollows(e);
    Frozen.LayoutMoves(e);
    assert e.sections[i].index == i != 0;
  }

  /** A section of some segment is placed by one. */
  lemma PlacerOf(e: Elf, i: nat) returns (n: nat)
    requires WellFormed(e) && i < |e.sections| && !IsLoose(e.segments, i)
    ensures PlacerAt(e, n) && i in e.segments[Order(e.segments)[n]].sections
  {
    hide Laminar, SegShape;
    LooseOrSome(e, i);
    n := FirstWith(e, i, |e.segments|);
    if !TopLevel(e, n) {
      AllShared(e, n, i);
    }
  }

  /** The first of the first m segments of the order that has section i. */
  lemma {:induction false} FirstWith(e: Elf, i: nat, m: nat) returns (n: nat)
    requires m <= |e.segments| && InSome(Lists(e.segments), Order(e.segments)[..m], i)
    ensures n < m && i in e.segments[Order(e.segments)[n]].sections
    ensures !InSome(Lists(e.segments), Order(e.segments)[..n], i)
  {
    InSomeStep(Lists(e.segments), Order(e.segments), m - 1, i);
    if InSome(Lists(e.segments), Order(e.segments)[..m - 1], i) {
      n := FirstWith(e, i, m - 1);
    } else {
      n := m - 1;
    }
  }

  // ----- when nothing overlaps

  predicate PlacesApart(p: int, m: nat, q: int, n: nat) {
    p + m <= q || q + n <= p
  }

  function FileSize(s: SectionState): nat {
    if s.Occupies() then s.hdr.size else 0
  }

  /** The plan, from the object alone: every addressed section goes behind the headers and before the table,
      the addresses within a segment do not overlap, nor do places of different segments, nor these and the
      sections without a segment. */
  predicate PlanClear(e: Elf)
    requires Addressed(e)
  {
    && (forall n: nat, a: nat {:trigger PlacedBy(e, n, a)} ::
          n < |e.segments| && a < |e.sections| && PlacedBy(e, n, a) ==>
            Base(e) <= Place(e, n, a) && Place(e, n, a) + e.sections[a].hdr.size <= TableStart(e))
    && (forall n: nat, a: nat, b: nat {:trigger PlacedBy(e, n, a), PlacedBy(e, n, b)} ::
          n < |e.segments| && a < |e.sections| && b < |e.sections| ==>
            PlacedBy(e, n, a) && PlacedBy(e, n, b) && a != b ==>
              MemoryApart(e.sections[a], e.sections[b]))
    && (forall n: nat, m: nat, a: nat, b: nat {:trigger PlacedBy(e, n, a), PlacedBy(e, m, b)} ::
          n < m < |e.segments| && a < |e.sections| && b < |e.sections| && PlacedBy(e, n, a) && PlacedBy(e, m, b) ==>
            PlacesApart(Place(e, n, a), e.sections[a].hdr.size, Place(e, m, b), e.sections[b].hdr.size))
    && (forall n: nat, a: nat, i: nat {:trigger PlacedBy(e, n, a), IsLoose(e.segments, i)} ::
          n < |e.segments| && a < |e.sections| && i < |e.sections| && PlacedBy(e, n, a) ==>
            IsLoose(e.segments, i) && !e.sections[i].IsNull() ==>
              PlacesApart(Place(e, n, a), e.sections[a].hdr.size, LoosePlace(e, i), FileSize(e.sections[i])))
  }

  /** A placed section in the finished file. */
  lemma PlacedExtent(e: Elf, n: nat, a: nat)
    requires Addressed(e) && PlacedBy(e, n, a)
    ensures |LaidOut(e).sections| == |e.sections| && !LaidOut(e).sections[a].IsNull()
    ensures var t := LaidOut(e).sections[a];
            t.hdr.offset == Place(e, n, a) && t.End() == Place(e, n, a) + e.sections[a].hdr.size
  {
    hide LaidOut, Place, PlacerAt, Order;
    PlacedAsPlanned(e, n, a);
  }

  /** A loose one. */
  lemma LooseExtent(e: Elf, i: nat)
    requires Addressed(e) && i < |e.sections| && IsLoose(e.segments, i) && !e.sections[i].IsNull()
    ensures |LaidOut(e).sections| == |e.sections| && !LaidOut(e).sections[i].IsNull()
    ensures var t := LaidOut(e).sections[i];
            t.hdr.offset == LoosePlace(e, i) && t.End() == LoosePlace(e, i) + FileSize(e.sections[i])
  {
    hide LaidOut, LoosePlace;
    LooseAsPlanned(e, i);
  }

  /** Two segments that place sections have none in common. */
  lemma PlacedOnce(e: Elf, n: nat, m: nat, a: nat, b: nat)
    requires n < m && PlacedBy(e, n, a) && PlacedBy(e, m, b)
    ensures a != b
  {
    assert Order(e.segments)[..m][n] == Order(e.segments)[n];
    assert InSome(Lists(e.segments), Order(e.segments)[..m], a);
  }

  lemma PlacedIsNotLoose(e: Elf, n: nat, a: nat)
    requires PlacedBy(e, n, a)
    ensures !IsLoose(e.segments, a)
  {
  }

  lemma ApartInPlan(f: Elf, i: nat, j: nat)
    requires FileClear(f) && i < |f.sections| && j < |f.sections| && i != j
    requires !f.sections[i].IsNull() && !f.sections[j].IsNull()
    ensures f.sections[i].End() <= f.sections[j].hdr.offset || f.sections[j].End() <= f.sections[i].hdr.offset
  {
    assert FileApart(f.sections[i], f.sections[j]);
  }

  lemma TellsPlace(e: Elf, n: nat, a: nat)
    requires Addressed(e) && FileClear(LaidOut(e)) && PlacedBy(e, n, a)
    ensures Base(e) <= Place(e, n, a) && Place(e, n, a) + e.sections[a].hdr.size <= TableStart(e)
  {
    hide LaidOut, Place, PlacerAt, TableStart, FileApart, Layout.Order, TopLevel;
    TableAsPlanned(e);
    PlacedExtent(e, n, a);
  }

  lemma TellsMemory(e: Elf, n: nat, a: nat, b: nat)
    requires Addressed(e) && FileClear(LaidOut(e)) && PlacedBy(e, n, a) && PlacedBy(e, n, b) && a != b
    ensures MemoryApart(e.sections[a], e.sections[b])
  {
    hide LaidOut, Place, PlacerAt, TableStart, FileClear, Layout.Order, TopLevel;
    PlacedExtent(e, n, a);
    PlacedExtent(e, n, b);
    SameDistance(e, n, a, b);
    ApartInPlan(LaidOut(e), a, b);
  }

  lemma TellsSegments(e: Elf, n: nat, m: nat, a: nat, b: nat)
    requires Addressed(e) && FileClear(LaidOut(e)) && PlacedBy(e, n, a) && PlacedBy(e, m, b) && n < m
    ensures PlacesApart(Place(e, n, a), e.sections[a].hdr.size, Place(e, m, b), e.sections[b].hdr.size)
  {
    hide LaidOut, Place, PlacerAt, TableStart, FileClear, Layout.Order, TopLevel;
    PlacedExtent(e, n, a);
    PlacedExtent(e, m, b);
    PlacedOnce(e, n, m, a, b);
    ApartInPlan(LaidOut(e), a, b);
  }

  lemma TellsLoose(e: Elf, n: nat, a: nat, i: nat)
    requires Addressed(e) && FileClear(LaidOut(e)) && PlacedBy(e, n, a)
    requires i < |e.sections| && IsLoose(e.segments, i) && !e.sections[i].IsNull()
    ensures PlacesApart(Place(e, n, a), e.sections[a].hdr.size, LoosePlace(e, i), FileSize(e.sections[i]))
  {
    hide LaidOut, Place, PlacerAt, TableStart, FileClear, Layout.Order, TopLevel, LoosePlace, IsLoose;
    PlacedExtent(e, n, a);
    PlacedIsNotLoose(e, n, a);
    LooseExtent(e, i);
    ApartInPlan(LaidOut(e), a, i);
  }

  /** If the file is clear, so is the plan. */
  lemma FileTellsPlan(e: Elf)
    requires Addressed(e) && FileClear(LaidOut(e))
    ensures PlanClear(e)
  {
    hide LaidOut, Place, PlacerAt, LoosePlace, TableStart, Addressed, IsLoose, FileClear, MemoryApart, PlacesApart,
         FileSize, Layout.Order;
    forall n: nat, a: nat | n < |e.segments| && a < |e.sections| && PlacedBy(e, n, a)
      ensures Base(e) <= Place(e, n, a) && Place(e, n, a) + e.sections[a].hdr.size <= TableStart(e)
    {
      TellsPlace(e, n, a);
    }
    forall n: nat, a: nat, b: nat | n < |e.segments| && a < |e.sections| && b < |e.sections| &&
        PlacedBy(e, n, a) && PlacedBy(e, n, b) && a != b
      ensures MemoryApart(e.sections[a], e.sections[b])
    {
      TellsMemory(e, n, a, b);
    }
    forall n: nat, m: nat, a: nat, b: nat | n < m < |e.segments| && a < |e.sections| && b < |e.sections| &&
        PlacedBy(e, n, a) && PlacedBy(e, m, b)
      ensures PlacesApart(Place(e, n, a), e.sections[a].hdr.size, Place(e, m, b), e.sections[b].hdr.size)
    {
      TellsSegments(e, n, m, a, b);
    }
    forall n: nat, a: nat, i: nat | n < |e.segments| && a < |e.sections| && i < |e.sections| && PlacedBy(e, n, a) &&
        IsLoose(e.segments, i) && !e.sections[i].IsNull()
      ensures PlacesApart(Place(e, n, a), e.sections[a].hdr.size, LoosePlace(e, i), FileSize(e.sections[i]))
    {
      TellsLoose(e, n, a, i);
    }
  }

  lemma SameDistance(e: Elf, n: nat, a: nat, b: nat)
    requires Addressed(e) && PlacedBy(e, n, a) && PlacedBy(e, n, b)
    ensures Place(e, n, a) - Place(e, n, b) == e.sections[a].hdr.addr - e.sections[b].hdr.addr
  {
    hide StartAt, Addressed;
  }

  // ----- the other way round

  lemma {:induction false} TipIs(secs: seq<SectionState>, vaddr: nat, list: seq<nat>, from: nat) returns (a: nat)
    requires Within(list, |secs|) && AllPinned(secs, vaddr, list)
    ensures if a < |secs| then a in list && !secs[a].IsNull() && Pinned(secs[a]) && vaddr <= secs[a].hdr.addr &&
                                 Tip(secs, vaddr, list, from) == secs[a].hdr.addr - vaddr + secs[a].hdr.size
            else Tip(secs, vaddr, list, from) == from
  {
    if list == [] {
      a := |secs|;
    } else if secs[list[|list| - 1]].IsNull() {
      PinnedInit(secs, vaddr, list);
      a := TipIs(secs, vaddr, list[..|list| - 1], from);
    } else {
      a := list[|list| - 1];
    }
  }

  /** If no place is among the headers, the cursor does not come back to them. */
  lemma {:induction false} CursorBehindHeaders(e: Elf, n: nat)
    requires Addressed(e) && PlanClear(e) && n <= |e.segments|
    ensures Base(e) <= CursorBefore(e, n)
  {
    hide Addressed, PlanClear, StartFrom, StartsWithNull, Tip, Order, TopLevel;
    if n > 0 {
      CursorBehindHeaders(e, n - 1);
      if PlacerAt(e, n - 1) {
        CursorBehindTurn(e, n - 1);
      }
    }
  }

  lemma CursorBehindTurn(e: Elf, n: nat)
    requires Addressed(e) && PlanClear(e) && PlacerAt(e, n) && Base(e) <= CursorBefore(e, n)
    ensures Base(e) <= CursorBefore(e, n + 1)
  {
    hide StartsWithNull, Order, TopLevel, Laminar, SegShape, Tip, SegmentGap, Bound;
    var seg, pos := e.segments[Order(e.segments)[n]], CursorBefore(e, n);
    var from := if StartsWithNull(seg, e.sections) then pos else 0;
    var a := TipIs(e.sections, seg.hdr.vaddr, seg.sections, from);
    if a < |e.sections| {
      assert PlacedBy(e, n, a);
    }
  }

  /** Loose sections follow each other. */
  lemma {:induction false} LooseGrows(e: Elf, pos: nat, i: nat, j: nat)
    requires i <= j <= |e.sections|
    ensures LooseEnd(e, pos, i) <= LooseEnd(e, pos, j)
    decreases j
  {
    hide IsLoose, Pad;
    if i < j {
      LooseGrows(e, pos, i, j - 1);
    }
  }

  lemma LooseInTurn(e: Elf, i: nat, j: nat)
    requires Addressed(e) && i < j <= |e.sections| && IsLoose(e.segments, i)
    ensures var pos := CursorBefore(e, |e.segments|);
            pos <= LoosePlace(e, i) && LoosePlace(e, i) + FileSize(e.sections[i]) <= LooseEnd(e, pos, j)
  {
    hide IsLoose, Pad, Addressed, CursorBefore;
    LooseGrows(e, CursorBefore(e, |e.segments|), 0, i);
    LooseGrows(e, CursorBefore(e, |e.segments|), i + 1, j);
  }

  /** Every section is behind the headers and before the table. */
  lemma PlanPlaces(e: Elf, i: nat)
    requires Addressed(e) && PlanClear(e) && i < |e.sections| && !e.sections[i].IsNull()
    ensures |LaidOut(e).sections| == |e.sections|
    ensures Base(e) <= LaidOut(e).sections[i].hdr.offset && LaidOut(e).sections[i].End() <= TableStart(e)
  {
    hide LaidOut, Place, LoosePlace, PlanClear, Pad, PlacerAt, LooseEnd, CursorBefore, Layout.Order;
    if IsLoose(e.segments, i) {
      LooseExtent(e, i);
      CursorBehindHeaders(e, |e.segments|);
      LooseInTurn(e, i, |e.sections|);
    } else {
      var n := PlacerOf(e, i);
      PlacedExtent(e, n, i);
      PlanOfOne(e, n, i);
    }
  }

  lemma PlanOfOne(e: Elf, n: nat, a: nat)
    requires Addressed(e) && PlanClear(e) && PlacedBy(e, n, a)
    ensures Base(e) <= Place(e, n, a) && Place(e, n, a) + e.sections[a].hdr.size <= TableStart(e)
  {
    hide Place, TableStart, Addressed, TopLevel;
  }

  lemma LoosePair(e: Elf, i: nat, j: nat)
    requires Addressed(e) && i < j < |e.sections| && !e.sections[i].IsNull() && !e.sections[j].IsNull()
    requires IsLoose(e.segments, i) && IsLoose(e.segments, j)
    ensures |LaidOut(e).sections| == |e.sections| && FileApart(LaidOut(e).sections[i], LaidOut(e).sections[j])
  {
    hide LaidOut, IsLoose, Pad, Addressed, CursorBefore;
    LooseExtent(e, i);
    LooseExtent(e, j);
    LooseInTurn(e, i, j);
  }

  lemma PlacedPair(e: Elf, n: nat, m: nat, a: nat, b: nat)
    requires Addressed(e) && PlanClear(e) && PlacedBy(e, n, a) && PlacedBy(e, m, b) && a != b && n <= m
    ensures |LaidOut(e).sections| == |e.sections| && FileApart(LaidOut(e).sections[a], LaidOut(e).sections[b])
  {
    hide LaidOut, Place, PlacerAt, TableStart, Layout.Order, TopLevel, LoosePlace;
    PlacedExtent(e, n, a);
    PlacedExtent(e, m, b);
    assert m < |e.segments| by { PlacerExists(e, m); }
    if n == m {
      SameDistance(e, n, a, b);
    }
  }

  lemma PlacerExists(e: Elf, n: nat)
    requires PlacerAt(e, n)
    ensures n < |e.segments|
  {
  }

  lemma MixedPair(e: Elf, n: nat, a: nat, i: nat)
    requires Addressed(e) && PlanClear(e) && PlacedBy(e, n, a)
    requires i < |e.sections| && IsLoose(e.segments, i) && !e.sections[i].IsNull()
    ensures |LaidOut(e).sections| == |e.sections| && FileApart(LaidOut(e).sections[a], LaidOut(e).sections[i])
  {
    hide LaidOut, Place, PlacerAt, TableStart, Layout.Order, TopLevel, LoosePlace, IsLoose;
    PlacedExtent(e, n, a);
    LooseExtent(e, i);
    PlacerExists(e, n);
  }

  lemma PlanPair(e: Elf, i: nat, j: nat)
    requires Addressed(e) && PlanClear(e) && i < j < |e.sections| && !e.sections[i].IsNull() && !e.sections[j].IsNull()
    ensures |LaidOut(e).sections| == |e.sections| && FileApart(LaidOut(e).sections[i], LaidOut(e).sections[j])
  {
    hide LaidOut, PlanClear, FileApart, PlacerAt, IsLoose;
    if IsLoose(e.segments, i) && IsLoose(e.segments, j) {
      LoosePair(e, i, j);
    } else if IsLoose(e.segments, i) {
      var m := PlacerOf(e, j);
      MixedPair(e, m, j, i);
      ApartIsMutual(LaidOut(e).sections[i], LaidOut(e).sections[j]);
    } else if IsLoose(e.segments, j) {
      var n := PlacerOf(e, i);
      MixedPair(e, n, i, j);
    } else {
      var n := PlacerOf(e, i);
      var m := PlacerOf(e, j);
      if n <= m {
        PlacedPair(e, n, m, i, j);
      } else {
        PlacedPair(e, m, n, j, i);
        ApartIsMutual(LaidOut(e).sections[i], LaidOut(e).sections[j]);
      }
    }
  }

  /** In the finished layout no two parts of the file overlap exactly if the plan is clear. */
  lemma ClearAsPlanned(e: Elf)
    requires Addressed(e)
    ensures FileClear(LaidOut(e)) <==> PlanClear(e)
  {
    hide LaidOut, PlanClear, FileClear, Laminar, SegShape, Bound, TopLevel, Layout.Order;
    if FileClear(LaidOut(e)) {
      FileTellsPlan(e);
    }
    if PlanClear(e) {
      PlanTellsFile(e);
    }
  }

  lemma PlanTellsFile(e: Elf)
    requires Addressed(e) && PlanClear(e)
    ensures FileClear(LaidOut(e))
  {
    hide LaidOut, PlanClear, FileApart, TableStart, Laminar, SegShape, Layout.Order, Bound, TopLevel;
    var f := LaidOut(e);
    TableAsPlanned(e);
    TableBounds(e);
    Frozen.LayoutMoves(e);
    forall i | 0 <= i < |f.sections| && !f.sections[i].IsNull()
      ensures Base(e) <= f.sections[i].hdr.offset && f.sections[i].End() <= f.hdr.shoff
    {
      assert e.sections[i].Moved(f.sections[i]);
      PlanPlaces(e, i);
    }
    forall i, j | 0 <= i < |f.sections| && 0 <= j < |f.sections| && i != j &&
                  !f.sections[i].IsNull() && !f.sections[j].IsNull()
      ensures FileApart(f.sections[i], f.sections[j])
    {
      assert e.sections[i].Moved(f.sections[i]) && e.sections[j].Moved(f.sections[j]);
      ApartIsMutual(f.sections[i], f.sections[j]);
      if i < j {
        PlanPair(e, i, j);
      } else {
        PlanPair(e, j, i);
      }
    }
  }

  // ----- objects with one segment that places sections

  predicate OnlyPlacer(e: Elf, n: nat) {
    PlacerAt(e, n) && forall m: nat :: m < |e.segments| && PlacerAt(e, m) ==> m == n
  }

  /** Only the segment's own turn moves the cursor. */
  lemma {:induction false} OneMoves(e: Elf, n: nat, m: nat)
    requires Addressed(e) && OnlyPlacer(e, n) && m <= |e.segments|
    ensures CursorBefore(e, m) == if m <= n then Base(e) else
                var seg := e.segments[Order(e.segments)[n]];
                StartFrom(e.sections, seg, Base(e)) + TipOf(e.sections, seg, Base(e))
  {
    hide Addressed, PlacerAt, StartFrom, Tip, Order, StartsWithNull;
    if m > 0 {
      OneMoves(e, n, m - 1);
    }
  }

  /** What has to hold of the object when its segment starts at `start` and leaves the cursor at `end`. */
  predicate OneClear(e: Elf, vaddr: nat, list: seq<nat>, start: nat, end: nat) {
    var last := LooseEnd(e, end, |e.sections|);
    var table := last + Pad(last, 4);
    && (forall a: nat :: a in list && NonNull(e.sections, a) ==>
          Base(e) <= start + e.sections[a].hdr.addr - vaddr &&
          start + e.sections[a].hdr.addr - vaddr + e.sections[a].hdr.size <= table)
    && (forall a: nat, b: nat :: a in list && b in list && TwoOf(e.sections, list, a, b) ==>
          MemoryApart(e.sections[a], e.sections[b]))
    && (forall a: nat, i: nat :: a in list && NonNull(e.sections, a) && i < |e.sections| && NonNull(e.sections, i) &&
                                 IsLoose(e.segments, i) ==>
          var before := LooseEnd(e, end, i);
          PlacesApart(start + e.sections[a].hdr.addr - vaddr, e.sections[a].hdr.size,
                      before + Pad(before, e.sections[i].hdr.addrAlign), FileSize(e.sections[i])))
  }

  /** The plan of such an object. */
  predicate OnePlan(e: Elf, n: nat, vaddr: nat, start: nat, end: nat)
    requires Addressed(e) && PlacerAt(e, n)
  {
    && (forall a :: 0 <= a < |e.sections| ==> Place(e, n, a) == start + e.sections[a].hdr.addr - vaddr)
    && (forall i :: 0 <= i < |e.sections| ==>
          var before := LooseEnd(e, end, i); LoosePlace(e, i) == before + Pad(before, e.sections[i].hdr.addrAlign))
    && var last := LooseEnd(e, end, |e.sections|); TableStart(e) == last + Pad(last, 4)
  }

  lemma OneIsPlanned(e: Elf, n: nat)
    requires Addressed(e) && OnlyPlacer(e, n)
    ensures var seg := e.segments[Order(e.segments)[n]];
            var start := StartFrom(e.sections, seg, Base(e));
            var tip := TipOf(e.sections, seg, Base(e));
            OnePlan(e, n, seg.hdr.vaddr, start, start + tip)
  {
    hide Layout.Order, TopLevel, Laminar, SegShape, Bound, LooseEnd, Pad, Tip, StartsWithNull, StartFrom, CursorBefore;
    OneMoves(e, n, n);
    OneMoves(e, n, |e.segments|);
  }

  lemma PlanIsOneClear(e: Elf, n: nat, start: nat, end: nat)
    requires Addressed(e) && OnlyPlacer(e, n) && PlanClear(e)
    requires OnePlan(e, n, e.segments[Order(e.segments)[n]].hdr.vaddr, start, end)
    ensures var seg := e.segments[Order(e.segments)[n]]; OneClear(e, seg.hdr.vaddr, seg.sections, start, end)
  {
    hide Layout.Order, TopLevel, Laminar, SegShape, Bound, LooseEnd, Pad, TableStart, LoosePlace, Place, PlacesApart,
         MemoryApart, IsLoose;
    var list := e.segments[Order(e.segments)[n]].sections;
    assert forall a: nat :: a in list && NonNull(e.sections, a) ==> PlacedBy(e, n, a);
  }

  lemma OneClearIsPlan(e: Elf, n: nat, start: nat, end: nat)
    requires Addressed(e) && OnlyPlacer(e, n)
    requires OnePlan(e, n, e.segments[Order(e.segments)[n]].hdr.vaddr, start, end)
    requires var seg := e.segments[Order(e.segments)[n]]; OneClear(e, seg.hdr.vaddr, seg.sections, start, end)
    ensures PlanClear(e)
  {
    hide Layout.Order, TopLevel, Laminar, SegShape, Bound, LooseEnd, Pad, TableStart, LoosePlace, Place, PlacesApart,
         MemoryApart, IsLoose;
  }

  /** With one such segment nothing overlaps exactly if its addresses do not, none of its sections lies among
      the headers or ends behind the place where the table starts, and none where a loose section goes. */
  lemma OneClearAsPlanned(e: Elf, n: nat)
    requires Addressed(e) && OnlyPlacer(e, n)
    ensures var seg := e.segments[Order(e.segments)[n]];
            var start := StartFrom(e.sections, seg, Base(e));
            var tip := TipOf(e.sections, seg, Base(e));
            FileClear(LaidOut(e)) <==> OneClear(e, seg.hdr.vaddr, seg.sections, start, start + tip)
  {
    hide Layout.Order, TopLevel, Laminar, SegShape, Bound, LaidOut, FileClear, Tip, OneClear, OnePlan, PlanClear,
         StartFrom, StartsWithNull;
    var seg := e.segments[Order(e.segments)[n]];
    var start := StartFrom(e.sections, seg, Base(e));
    var tip := TipOf(e.sections, seg, Base(e));
    OneIsPlanned(e, n);
    ClearAsPlanned(e);
    if PlanClear(e) {
      PlanIsOneClear(e, n, start, start + tip);
    }
    if OneClear(e, seg.hdr.vaddr, seg.sections, start, start + tip) {
      OneClearIsPlan(e, n, start, start + tip);
    }
  }
}
