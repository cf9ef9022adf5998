/** Sections that do not come with an address stand in the file at a multiple of their alignment. */
module SectionAlignment {
  import opened Arith
  import opened ElfTypes
  import opened ElfState
  import opened Layout
  import opened FreshRun
  import opened SegmentPass
  import opened SegmentOrder
  import opened LayoutPass
  import opened LoosePass
  import opened LayoutTheorems
  import opened Budget
  import AddressPlan
  import Frozen
  import Nesting
  import Ordering
  import Relayout
  import Scatter

  /** The least multiple of the alignment that is not below `from`; an alignment of 0 means none. */
  predicate NextPlace(from: nat, align: nat, offset: nat) {
    from <= offset && if align == 0 then offset == from else offset < from + align && offset % align == 0
  }

  /** The section does not go where its own address says. */
  predicate Padded(s: SectionState) {
    !s.addressSet || s.IsNobits()
  }

  lemma PadIsNext(pos: nat, align: nat)
    ensures NextPlace(pos, align, pos + Pad(pos, align))
  {
  }

  lemma TurnAligns(cls: ElfClass, f: Frame, c: Cursor, i: nat)
    requires c.Has(i) && Indexed(c.secs) && f.start <= c.pos < cls.Limit()
    requires !c.secs[i].IsNull() && !c.gen[i] && Fits(cls, f, c, i)
    ensures PlaceOne(cls, f, c, i).pos == PlaceOne(cls, f, c, i).secs[i].End()
    ensures Padded(c.secs[i]) ==>
              NextPlace(c.pos, c.secs[i].hdr.addrAlign, PlaceOne(cls, f, c, i).secs[i].hdr.offset)
  {
    hide Fits, Pad;
    PlacedFacts(cls, f, c, c.pos, i);
    PadIsNext(c.pos, c.secs[i].hdr.addrAlign);
  }

  /** A walk over new sections whose last one is section i has ended with its turn. */
  lemma LastTurn(cls: ElfClass, f: Frame, c: Cursor, list: seq<nat>)
    requires |c.gen| == |c.secs| && Within(list, |c.secs|) && Ordering.Sorted(list) && list != []
    requires Indexed(c.secs) && NobitsLast(c.secs, list) && NoneGenerated(c, list)
    requires f.start <= c.pos < cls.Limit() && c.filesz == c.memsz == c.pos - f.start && RunFits(cls, f, c, list)
    requires !c.secs[list[|list| - 1]].IsNull()
    ensures var i, before, r := list[|list| - 1], PlaceAll(cls, f, c, list[..|list| - 1]), PlaceAll(cls, f, c, list);
            && r.pos == r.secs[i].End()
            && (Padded(c.secs[i]) ==> NextPlace(before.pos, c.secs[i].hdr.addrAlign, r.secs[i].hdr.offset))
  {
    hide PlaceOne, Fits, Padded, NextPlace;
    var init, i := list[..|list| - 1], list[|list| - 1];
    LastOf(c, list);
    WalkAll(cls, f, c, init);
    SameTypes(cls, f, c, PlaceAll(cls, f, c, init), Elems(init));
    Frozen.WalkTouches(cls, f, c, init, i);
    TurnAligns(cls, f, PlaceAll(cls, f, c, init), i);
  }

  /** Section m of the list stands next behind the one before it, or next to where the segment begins. */
  predicate StandsNext(secs0: seq<SectionState>, secs: seq<SectionState>, list: seq<nat>, m: nat, first: nat)
    requires m < |list| && Within(list, |secs0|) && |secs0| == |secs|
  {
    var align, offset := secs0[list[m]].hdr.addrAlign, secs[list[m]].hdr.offset;
    && (m == 0 ==> NextPlace(first, align, offset))
    && (m > 0 && !secs0[list[m - 1]].IsNull() ==> NextPlace(secs[list[m - 1]].End(), align, offset))
    && (align > 0 ==> offset % align == 0)
  }

  lemma {:induction false} WalkAligns(cls: ElfClass, f: Frame, c: Cursor, list: seq<nat>, m: nat)
    requires |c.gen| == |c.secs| && Within(list, |c.secs|) && Ordering.Sorted(list) && m < |list|
    requires Indexed(c.secs) && NobitsLast(c.secs, list) && NoneGenerated(c, list)
    requires f.start <= c.pos < cls.Limit() && c.filesz == c.memsz == c.pos - f.start && RunFits(cls, f, c, list)
    requires !c.secs[list[m]].IsNull() && Padded(c.secs[list[m]])
    ensures StandsNext(c.secs, PlaceAll(cls, f, c, list).secs, list, m, c.pos)
  {
    hide PlaceOne, Fits, Padded;
    var init, i := list[..|list| - 1], list[|list| - 1];
    LastOf(c, list);
    if m < |init| {
      assert init[m] == list[m] && (m > 0 ==> init[m - 1] == list[m - 1]);
      WalkAligns(cls, f, c, init, m);
      Frozen.PrefixKept(cls, f, c, list, m);
      if m > 0 {
        Frozen.PrefixKept(cls, f, c, list, m - 1);
      }
    } else {
      LastTurn(cls, f, c, list);
      if m > 0 && !c.secs[list[m - 1]].IsNull() {
        LastTurn(cls, f, c, init);
        Frozen.PrefixKept(cls, f, c, list, m - 1);
      }
    }
  }

  /** Where a walk over new sections ends: behind one of them, unless all are null. */
  lemma {:induction false} WalkEnds(cls: ElfClass, f: Frame, c: Cursor, list: seq<nat>)
    requires |c.gen| == |c.secs| && Within(list, |c.secs|) && Ordering.Sorted(list)
    requires Indexed(c.secs) && NobitsLast(c.secs, list) && NoneGenerated(c, list)
    requires f.start <= c.pos < cls.Limit() && c.filesz == c.memsz == c.pos - f.start && RunFits(cls, f, c, list)
    ensures var r := PlaceAll(cls, f, c, list);
            EndsOne(c.secs, r.secs, list, r.pos) || (AllNull(c.secs, list) && r.pos == c.pos)
  {
    hide PlaceAll, NobitsLast, NoneGenerated, RunFits;
    if list != [] {
      var init, i := list[..|list| - 1], list[|list| - 1];
      var r := PlaceAll(cls, f, c, list);
      if c.secs[i].IsNull() {
        NullLast(cls, f, c, list);
        WalkEnds(cls, f, c, init);
        if EndsOne(c.secs, r.secs, init, r.pos) {
          EndsMore(c.secs, r.secs, list, r.pos);
        } else {
          assert forall m :: 0 <= m < |init| ==> list[m] == init[m];
        }
      } else {
        LastTurn(cls, f, c, list);
        assert NonNull(c.secs, list[|list| - 1]);
      }
    } else {
      NoWalk(cls, f, c);
    }
  }

  lemma NoWalk(cls: ElfClass, f: Frame, c: Cursor)
    requires |c.gen| == |c.secs|
    ensures PlaceAll(cls, f, c, []) == c
  {
  }

  /** A null section at the end of the list changes nothing. */
  lemma NullLast(cls: ElfClass, f: Frame, c: Cursor, list: seq<nat>)
    requires |c.gen| == |c.secs| && Within(list, |c.secs|) && Ordering.Sorted(list) && list != []
    requires Indexed(c.secs) && NobitsLast(c.secs, list) && NoneGenerated(c, list)
    requires f.start <= c.pos < cls.Limit() && c.filesz == c.memsz == c.pos - f.start && RunFits(cls, f, c, list)
    requires c.secs[list[|list| - 1]].IsNull()
    ensures var init := list[..|list| - 1];
            && NobitsLast(c.secs, init) && NoneGenerated(c, init) && RunFits(cls, f, c, init)
            && Ordering.Sorted(init) && Within(init, |c.secs|)
            && PlaceAll(cls, f, c, list).secs == PlaceAll(cls, f, c, init).secs
            && PlaceAll(cls, f, c, list).pos == PlaceAll(cls, f, c, init).pos
  {
    hide PlaceOne, Fits;
    var init, i := list[..|list| - 1], list[|list| - 1];
    LastOf(c, list);
    WalkAll(cls, f, c, init);
    SameTypes(cls, f, c, PlaceAll(cls, f, c, init), Elems(init));
    Frozen.WalkTouches(cls, f, c, init, i);
    NullTurn(cls, f, PlaceAll(cls, f, c, init), i);
  }

  predicate AllNull(secs: seq<SectionState>, list: seq<nat>) {
    forall m :: 0 <= m < |list| ==> !NonNull(secs, list[m])
  }

  predicate EndsOne(secs0: seq<SectionState>, secs: seq<SectionState>, list: seq<nat>, pos: nat) {
    exists m :: 0 <= m < |list| && NonNull(secs0, list[m]) && list[m] < |secs| && secs[list[m]].End() == pos
  }

  lemma NullTurn(cls: ElfClass, f: Frame, c: Cursor, i: nat)
    requires c.Has(i) && c.secs[i].IsNull()
    ensures PlaceOne(cls, f, c, i).secs == c.secs && PlaceOne(cls, f, c, i).pos == c.pos
  {
  }

  lemma EndsMore(secs0: seq<SectionState>, secs: seq<SectionState>, list: seq<nat>, pos: nat)
    requires list != [] && EndsOne(secs0, secs, list[..|list| - 1], pos)
    ensures EndsOne(secs0, secs, list, pos)
  {
    var init := list[..|list| - 1];
    var m :| 0 <= m < |init| && NonNull(secs0, init[m]) && init[m] < |secs| && secs[init[m]].End() == pos;
    assert list[m] == init[m];
  }

  /** The first position from the cursor on that is congruent to the address. */
  predicate NextCongruent(from: nat, vaddr: nat, align: nat, offset: nat)
    requires align > 0
  {
    from <= offset < from + align && offset % align == vaddr % align
  }

  lemma OpensAtGap(cls: ElfClass, h: Ehdr, st: LayState, k: nat)
    requires LayOk(st) && k < |st.segs| && st.segs[k].sections != [] && st.pos < cls.Limit()
    requires NoneMarked(st, st.segs[k].sections) && SegmentFits(cls, h, st, k)
    requires !StartsWithNull(st.segs[k], st.secs)
    ensures var seg := st.segs[k];
            var (f, c) := Open(h, st, seg);
            f.start == c.pos < cls.Limit() && NextCongruent(st.pos, seg.hdr.vaddr, seg.hdr.align, c.pos)
  {
    hide RunFits, Gap;
    var seg := st.segs[k];
    assert cls.Limit() <= U64 && StartsNew(seg, st.gen);
    SegmentGapIsGap(st.pos, seg.hdr.vaddr, seg.hdr.align);
  }

  /** Where a segment that places its sections starts in the finished layout. */
  lemma PlacerStarts(e: Elf, n: nat)
    requires Fitting(e) && PlacerAt(e, n) && !StartsWithNull(e.segments[Order(e.segments)[n]], e.sections)
    ensures var k, st := Order(e.segments)[n], StateAt(e, n);
            && k < |LaidOut(e).segments| && SegmentOk(e.segments[k], |e.sections|) && k < |st.segs|
            && st.segs[k] == e.segments[k]
            && LaidOut(e).segments[k].hdr.offset == Open(Prepared(e), st, st.segs[k]).1.pos
            && NextCongruent(st.pos, e.segments[k].hdr.vaddr, e.segments[k].hdr.align,
                             LaidOut(e).segments[k].hdr.offset)
  {
    hide Order, Laminar, StateAt, TopLevel, Open, PlaceAll, LaidOut, RunFits, SegShape;
    var k, st := Order(e.segments)[n], StateAt(e, n);
    var f, c := Nesting.PlacerWalk(e, n);
    SegmentsAreLaid(e, n);
    ReadyParts(e, n, st);
    assert FitsAt(e, n);
    Frozen.LayoutMoves(e);
    assert !StartsWithNull(st.segs[k], st.secs);
    OpensAtGap(e.cls, Prepared(e), st, k);
    StateStep(e, n);
    StoredFields(e.cls, Prepared(e), st, k);
    Frozen.DoneIsFinal(e, n);
  }

  /** In the finished layout, section m of a segment that placed its sections. */
  lemma PlacedIsAligned(e: Elf, n: nat, m: nat)
    requires Fitting(e) && PlacerAt(e, n)
    requires var list := e.segments[Order(e.segments)[n]].sections;
             m < |list| && NonNull(e.sections, list[m]) && Padded(e.sections[list[m]])
    ensures |LaidOut(e).sections| == |e.sections| && Within(e.segments[Order(e.segments)[n]].sections, |e.sections|)
    ensures var k := Order(e.segments)[n];
            && k < |LaidOut(e).segments|
            && StandsNext(e.sections, LaidOut(e).sections, e.segments[k].sections, m, LaidOut(e).segments[k].hdr.offset)
  {
    hide Order, Laminar, LayoutFits, StateAt, TopLevel, Open, PlaceAll, LaidOut, RunFits, SegShape, Padded, NextPlace;
    var list := e.segments[Order(e.segments)[n]].sections;
    var f, c := Nesting.PlacerWalk(e, n);
    WalkAligns(e.cls, f, c, list, m);
    Relayout.TurnIsFinal(e, n, m);
    if m > 0 {
      Relayout.TurnIsFinal(e, n, m - 1);
    } else {
      PlacerStarts(e, n);
    }
    Frozen.LayoutMoves(e);
  }

  // ----- where the cursor stands

  /** A place where something ends in the finished file: the program header table, or a section. */
  predicate IsEnd(f: Elf, pos: nat) {
    pos == f.hdr.ehsize + f.hdr.phentsize * f.hdr.phnum ||
    exists i :: 0 < i < |f.sections| && f.sections[i].End() == pos
  }

  lemma BaseIsEnd(e: Elf)
    requires Fitting(e)
    ensures IsEnd(LaidOut(e), Base(e)) && StateAt(e, 0).pos == Base(e)
  {
    hide AfterSections, LayoutFits, Laminar;
    assert Order(e.segments)[..0] == [];
  }

  lemma {:induction false} CursorIsEnd(e: Elf, n: nat)
    requires Fitting(e) && n <= |e.segments|
    ensures IsEnd(LaidOut(e), StateAt(e, n).pos)
  {
    hide LaidOut, StateAt, Order, Laminar, LayoutFits, PlacerAt, IsEnd;
    if n == 0 {
      BaseIsEnd(e);
    } else {
      CursorIsEnd(e, n - 1);
      PositionIs(e, n - 1);
      if PlacerAt(e, n - 1) {
        PlacerEnds(e, n - 1);
      } else {
        Relayout.RestsOnce(e, n - 1);
      }
    }
  }

  /** A segment moves the cursor to the end of one of its sections, if at all. */
  lemma PlacerEnds(e: Elf, n: nat)
    requires Fitting(e) && PlacerAt(e, n)
    requires IsEnd(LaidOut(e), StateAt(e, n).pos)
    ensures IsEnd(LaidOut(e), StateAt(e, n + 1).pos)
  {
    hide Order, Laminar, LayoutFits, StateAt, TopLevel, Open, PlaceAll, LaidOut, RunFits, SegShape, EndsOne;
    var k := Order(e.segments)[n];
    var list := e.segments[k].sections;
    var f, c := Nesting.PlacerWalk(e, n);
    var r := PlaceAll(e.cls, f, c, list);
    WalkEnds(e.cls, f, c, list);
    Frozen.LayoutMoves(e);
    if EndsOne(c.secs, r.secs, list, r.pos) {
      var m := EndsAt(c.secs, r.secs, list, r.pos);
      Relayout.TurnIsFinal(e, n, m);
      assert LaidOut(e).sections[list[m]].End() == r.pos && list[m] > 0;
    } else {
      assert StartsWithNull(e.segments[k], StateAt(e, n).secs) by {
        assert !NonNull(c.secs, list[0]);
        assert SegShape(e.sections, e.segments[k]);
        ShapeStartsWithNull(e.sections, e.segments[k]);
      }
      OpenWithNull(Prepared(e), StateAt(e, n), e.segments[k]);
    }
  }

  lemma ShapeStartsWithNull(secs: seq<SectionState>, seg: SegmentState)
    requires SegShape(secs, seg) && seg.sections != [] && secs[seg.sections[0]].IsNull()
    ensures StartsWithNull(seg, secs)
  {
  }

  lemma OpenWithNull(h: Ehdr, st: LayState, seg: SegmentState)
    requires |st.gen| == |st.secs| && SegmentOk(seg, |st.secs|) && StartsWithNull(seg, st.secs)
    ensures Open(h, st, seg).1.pos == st.pos
  {
  }

  lemma EndsAt(secs0: seq<SectionState>, secs: seq<SectionState>, list: seq<nat>, pos: nat) returns (m: nat)
    requires EndsOne(secs0, secs, list, pos)
    ensures m < |list| && NonNull(secs0, list[m]) && list[m] < |secs| && secs[list[m]].End() == pos
  {
    m :| 0 <= m < |list| && NonNull(secs0, list[m]) && list[m] < |secs| && secs[list[m]].End() == pos;
  }

  // ----- sections without a segment

  /** Laying them out passes over the null section in front without padding. */
  predicate NullInFront(e: Elf) {
    e.sections != [] && (e.sections[0].hdr.addrAlign <= 1 || !IsLoose(e.segments, 0))
  }

  lemma LooseTurnEnds(cls: ElfClass, st: LayState, i: nat)
    requires i < |st.secs| && LooseFitsAt(cls, st, i) && st.pos < cls.Limit()
    ensures var s, r := st.secs[i], PlaceLoose(cls, st, i);
            && (!IsLoose(st.segs, i) ==> r == st)
            && (IsLoose(st.segs, i) && s.index != 0 ==>
                  r.pos == r.secs[i].End() && NextPlace(st.pos, s.hdr.addrAlign, r.secs[i].hdr.offset))
            && (s.index == 0 && s.IsNull() && s.hdr.addrAlign <= 1 ==> r.pos == st.pos)
  {
    assert cls.Limit() <= U64;
    PadIsNext(st.pos, st.secs[i].hdr.addrAlign);
    hide Pad, IsLoose;
  }

  /** The state of the second pass before section i, and the section in it. */
  lemma LooseState(e: Elf, i: nat) returns (st: LayState)
    requires Fitting(e) && i < |e.sections|
    ensures st == PlaceLooseUpTo(e.cls, AfterSegments(e), i) && |st.secs| == |e.sections| == |LaidOut(e).sections|
    ensures LooseFitsAt(e.cls, st, i) && st.pos < e.cls.Limit() && e.sections[i].Moved(st.secs[i])
    ensures IsLoose(st.segs, i) == IsLoose(e.segments, i)
    ensures LaidOut(e).sections[i] == PlaceLoose(e.cls, st, i).secs[i]
    ensures PlaceLooseUpTo(e.cls, AfterSegments(e), i + 1) == PlaceLoose(e.cls, st, i)
  {
    hide Order, Laminar, LayoutFits, PlaceLoose, AfterSegments, LooseFitsAt, IsLoose, SegShape;
    var st0 := AfterSegments(e);
    st := PlaceLooseUpTo(e.cls, st0, i);
    Frozen.LayoutMoves(e);
    AddressPlan.SameLoose(e);
    Frozen.LooseKeeps(e.cls, st0, i + 1, |e.sections|, i);
    Frozen.LoosePassMoves(e.cls, st0, i);
    Scatter.SegmentsMove(e);
    assert e.sections[i].Moved(st0.secs[i]) && st0.secs[i].Moved(st.secs[i]);
    LooseCursor(e, i);
  }

  lemma LooseCursor(e: Elf, n: nat)
    requires Fitting(e) && n <= |e.sections|
    ensures PlaceLooseUpTo(e.cls, AfterSegments(e), n).pos < e.cls.Limit()
  {
    hide Order, Laminar, LayoutFits, AfterSegments, AfterSections, SegShape, LooseFits, PlaceLooseUpTo, SectionsLaid,
         SegmentsLaid;
    SegmentsAreLaid(e, |e.segments|);
    Frozen.AllStates(e);
    Finished(e, AfterSegments(e));
    LooseAreLaid(e.cls, AfterSegments(e), n);
  }

  lemma {:induction false} LooseCursorIsEnd(e: Elf, n: nat)
    requires Fitting(e) && NullInFront(e) && n <= |e.sections|
    ensures IsEnd(LaidOut(e), PlaceLooseUpTo(e.cls, AfterSegments(e), n).pos)
  {
    hide LaidOut, PlaceLoose, AfterSegments, LayoutFits, Laminar, IsEnd, IsLoose, LooseFitsAt;
    if n == 0 {
      Frozen.AllStates(e);
      CursorIsEnd(e, |e.segments|);
    } else {
      LooseCursorIsEnd(e, n - 1);
      var st := LooseState(e, n - 1);
      LooseTurnEnds(e.cls, st, n - 1);
      LooseMoves(e, st, n - 1);
    }
  }

  lemma LooseMoves(e: Elf, st: LayState, i: nat)
    requires ElfOk(e) && Indexed(e.sections) && NullInFront(e) && i < |e.sections| == |LaidOut(e).sections| == |st.secs|
    requires e.sections[i].Moved(st.secs[i]) && IsLoose(st.segs, i) == IsLoose(e.segments, i)
    requires LaidOut(e).sections[i] == PlaceLoose(e.cls, st, i).secs[i] && IsEnd(LaidOut(e), st.pos)
    requires !IsLoose(st.segs, i) ==> PlaceLoose(e.cls, st, i) == st
    requires IsLoose(st.segs, i) && st.secs[i].index != 0 ==>
               PlaceLoose(e.cls, st, i).pos == PlaceLoose(e.cls, st, i).secs[i].End()
    requires st.secs[i].index == 0 && st.secs[i].IsNull() && st.secs[i].hdr.addrAlign <= 1 ==>
               PlaceLoose(e.cls, st, i).pos == st.pos
    ensures IsEnd(LaidOut(e), PlaceLoose(e.cls, st, i).pos)
  {
    hide LaidOut, PlaceLoose, IsLoose;
  }

  /** Where a segment starts: at the first position behind some end that is congruent to its address. */
  lemma SegmentStartsNext(e: Elf, n: nat) returns (from: nat)
    requires Fitting(e) && PlacerAt(e, n) && !StartsWithNull(e.segments[Order(e.segments)[n]], e.sections)
    ensures var k := Order(e.segments)[n];
            && k < |LaidOut(e).segments| && SegmentOk(e.segments[k], |e.sections|) && IsEnd(LaidOut(e), from)
            && NextCongruent(from, e.segments[k].hdr.vaddr, e.segments[k].hdr.align, LaidOut(e).segments[k].hdr.offset)
  {
    from := StateAt(e, n).pos;
    PlacerStarts(e, n);
    CursorIsEnd(e, n);
  }

  /** A section without a segment stands at the first multiple of its alignment behind some end. */
  lemma LooseStandsNext(e: Elf, i: nat) returns (from: nat)
    requires Fitting(e) && NullInFront(e) && 0 < i < |e.sections| && IsLoose(e.segments, i)
    ensures |LaidOut(e).sections| == |e.sections| && IsEnd(LaidOut(e), from)
    ensures NextPlace(from, e.sections[i].hdr.addrAlign, LaidOut(e).sections[i].hdr.offset)
  {
    hide LaidOut, PlaceLoose, AfterSegments, LayoutFits, Laminar, Order, IsLoose, LooseFitsAt;
    var st := LooseState(e, i);
    from := st.pos;
    LooseTurnEnds(e.cls, st, i);
    LooseCursorIsEnd(e, i);
  }

  /** The section header table likewise, at a multiple of four. */
  lemma TableStandsNext(e: Elf) returns (from: nat)
    requires Fitting(e) && NullInFront(e)
    ensures IsEnd(LaidOut(e), from) && NextPlace(from, 4, LaidOut(e).hdr.shoff)
  {
    hide AfterSegments, LayoutFits, Laminar, Order, PlaceLooseUpTo, IsEnd, Pad;
    from := AfterSections(e).pos;
    LooseCursorIsEnd(e, |e.sections|);
    TableFits(e.cls, from, LaidOut(e).hdr.shoff);
    PadIsNext(from, 4);
    assert e.cls.Limit() <= U64;
  }

  // ----- every section

  /** Every section that the layout does not put at an address of its own is aligned. */
  lemma SectionIsAligned(e: Elf, i: nat)
    requires Fitting(e) && 0 < i < |e.sections| && !e.sections[i].IsNull()
    requires Padded(e.sections[i]) || IsLoose(e.segments, i)
    ensures |LaidOut(e).sections| == |e.sections|
    ensures e.sections[i].hdr.addrAlign > 0 ==> LaidOut(e).sections[i].hdr.offset % e.sections[i].hdr.addrAlign == 0
  {
    hide LaidOut, Padded, IsLoose, Order, Laminar, LayoutFits, PlaceLoose, LooseFitsAt;
    if IsLoose(e.segments, i) {
      var st := LooseState(e, i);
      LooseTurnEnds(e.cls, st, i);
    } else {
      var n := AddressPlan.PlacerOf(e, i);
      var list := e.segments[Order(e.segments)[n]].sections;
      var m :| 0 <= m < |list| && list[m] == i;
      PlacedIsAligned(e, n, m);
    }
  }
}
