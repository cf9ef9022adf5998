/** Where the sections of a segment will stand, computed from the object alone: when the alignments of
    the sections divide that of the segment, the padding in the file is the padding in memory. */
module Planned {
  import opened Arith
  import opened ElfTypes
  import opened ElfState
  import opened Layout
  import opened FreshRun
  import opened SegmentPass
  import opened SegmentOrder
  import opened LayoutPass
  import opened LayoutTheorems
  import Budget
  import Frozen
  import Ordering
  import Relayout

  // ----- padding at congruent places

  /** Places that differ by a multiple of the segment's alignment need the same padding. */
  lemma PadInStep(pos: nat, a: nat, k: int, align: nat, whole: nat)
    requires align > 0 && whole % align == 0 && pos == a + k * whole
    ensures Pad(pos, align) == Pad(a, align)
  {
    var m := whole / align;
    assert whole == m * align;
    MulThrice(k, m, align);
    ModShift(a, k * m, align);
  }

  lemma MulThrice(k: int, m: int, n: int)
    ensures k * (m * n) == (k * m) * n
  {
  }

  /** Two congruent places differ by a multiple of the modulus. */
  lemma StepsApart(a: nat, b: nat, m: nat) returns (k: int)
    requires m > 0 && a % m == b % m
    ensures a == b + k * m
  {
    k := a / m - b / m;
    assert a == (a / m) * m + a % m && b == (b / m) * m + b % m;
    Distributes(a / m, b / m, m);
  }

  lemma Distributes(x: int, y: int, m: int)
    ensures (x - y) * m == x * m - y * m
  {
  }

  // ----- the plan

  predicate HasOwnPlace(s: SectionState) {
    s.addressSet && !s.IsNobits()
  }

  /** The address at which the listed sections end when they are put behind each other from vaddr on. */
  function EndAddress(secs: seq<SectionState>, list: seq<nat>, vaddr: nat): nat
    requires Within(list, |secs|)
    decreases |list|, 0
  {
    if list == [] then vaddr
    else
      var s := secs[list[|list| - 1]];
      if s.IsNull() then EndAddress(secs, list[..|list| - 1], vaddr)
      else Planned(secs, list, |list| - 1, vaddr) + if s.Occupies() then s.hdr.size else 0
  }

  /** The place in memory of the m-th listed section: its own address, or behind the ones before it. */
  function Planned(secs: seq<SectionState>, list: seq<nat>, m: nat, vaddr: nat): nat
    requires Within(list, |secs|) && m < |list|
    decreases m, 1
  {
    var s := secs[list[m]];
    if HasOwnPlace(s) then s.hdr.addr
    else
      var before := EndAddress(secs, list[..m], vaddr);
      before + Pad(before, s.hdr.addrAlign)
  }

  /** No section is aligned to something that does not divide the segment's alignment. */
  predicate Dividing(secs: seq<SectionState>, list: seq<nat>, whole: nat)
    requires Within(list, |secs|)
  {
    whole > 0 &&
    forall j :: 0 <= j < |list| ==> secs[list[j]].hdr.addrAlign == 0 || whole % secs[list[j]].hdr.addrAlign == 0
  }

  // ----- the walk follows the plan

  /** A new segment at the place its address asks for, about to place its sections. */
  predicate PlanReady(cls: ElfClass, f: Frame, c0: Cursor, list: seq<nat>, whole: nat) {
    && |c0.gen| == |c0.secs| && Within(list, |c0.secs|) && Ordering.Sorted(list)
    && Indexed(c0.secs) && NobitsLast(c0.secs, list) && NoneGenerated(c0, list)
    && f.start == c0.pos < cls.Limit() && c0.filesz == c0.memsz == 0
    && RunFits(cls, f, c0, list)
    && Dividing(c0.secs, list, whole) && f.start % whole == f.vaddr % whole
  }

  lemma ReadyInit(cls: ElfClass, f: Frame, c0: Cursor, list: seq<nat>, whole: nat)
    requires PlanReady(cls, f, c0, list, whole) && list != []
    ensures PlanReady(cls, f, c0, list[..|list| - 1], whole)
    ensures Next(c0, Elems(list[..|list| - 1]), list[|list| - 1])
  {
    LastOf(c0, list);
  }

  /** The last section goes where it was planned if the ones before it end where they were. */
  lemma LastFollowsPlan(cls: ElfClass, f: Frame, c0: Cursor, list: seq<nat>, whole: nat)
    requires PlanReady(cls, f, c0, list, whole) && list != [] && !c0.secs[list[|list| - 1]].IsNull()
    requires PlaceAll(cls, f, c0, list[..|list| - 1]).pos - f.start + f.vaddr ==
             EndAddress(c0.secs, list[..|list| - 1], f.vaddr)
    ensures var r, i := PlaceAll(cls, f, c0, list), list[|list| - 1];
            && r.secs[i].hdr.offset - f.start + f.vaddr == Planned(c0.secs, list, |list| - 1, f.vaddr)
            && r.pos == r.secs[i].End() && c0.secs[i].Moved(r.secs[i])
  {
    hide EndAddress, Pad;
    var init, i := list[..|list| - 1], list[|list| - 1];
    ReadyInit(cls, f, c0, list, whole);
    WalkAll(cls, f, c0, init);
    var c := PlaceAll(cls, f, c0, init);
    SameTypes(cls, f, c0, c, Elems(init));
    assert c.secs[i] == c0.secs[i] && !c.gen[i];
    PlacedFacts(cls, f, c, c0.pos, i);
    var s := c0.secs[i];
    if !HasOwnPlace(s) && s.hdr.addrAlign > 0 {
      var k := StepsApart(f.start, f.vaddr, whole);
      PadInStep(c.pos, EndAddress(c0.secs, init, f.vaddr), k, s.hdr.addrAlign, whole);
    }
  }

  lemma {:induction false} WalkFollowsPlan(cls: ElfClass, f: Frame, c0: Cursor, list: seq<nat>, whole: nat)
    requires PlanReady(cls, f, c0, list, whole)
    ensures PlaceAll(cls, f, c0, list).pos - f.start + f.vaddr == EndAddress(c0.secs, list, f.vaddr)
  {
    hide RunFits, Planned, PlaceAll;
    if list == [] {
      NoWalk(cls, f, c0);
    } else {
      var init, i := list[..|list| - 1], list[|list| - 1];
      ReadyInit(cls, f, c0, list, whole);
      WalkFollowsPlan(cls, f, c0, init, whole);
      if !c0.secs[i].IsNull() {
        LastFollowsPlan(cls, f, c0, list, whole);
      } else {
        NullLast(cls, f, c0, list);
      }
    }
  }

  lemma NoWalk(cls: ElfClass, f: Frame, c0: Cursor)
    requires |c0.gen| == |c0.secs|
    ensures PlaceAll(cls, f, c0, []) == c0
  {
  }

  lemma NullLast(cls: ElfClass, f: Frame, c0: Cursor, list: seq<nat>)
    requires |c0.gen| == |c0.secs| && Within(list, |c0.secs|) && list != [] && c0.secs[list[|list| - 1]].IsNull()
    ensures PlaceAll(cls, f, c0, list).pos == PlaceAll(cls, f, c0, list[..|list| - 1]).pos
  {
    Frozen.WalkMoves(cls, f, c0, list[..|list| - 1]);
  }

  /** Every section of the list goes where it was planned. */
  lemma {:induction false} PlaceIsPlanned(cls: ElfClass, f: Frame, c0: Cursor, list: seq<nat>, whole: nat, m: nat)
    requires PlanReady(cls, f, c0, list, whole) && m < |list| && !c0.secs[list[m]].IsNull()
    ensures PlaceAll(cls, f, c0, list).secs[list[m]].hdr.offset - f.start + f.vaddr ==
              Planned(c0.secs, list, m, f.vaddr)
  {
    var init := list[..|list| - 1];
    ReadyInit(cls, f, c0, list, whole);
    if m < |list| - 1 {
      PlaceIsPlanned(cls, f, c0, init, whole, m);
      Frozen.PrefixKept(cls, f, c0, list, m);
      assert init[..m] == list[..m];
    } else {
      WalkFollowsPlan(cls, f, c0, init, whole);
      LastFollowsPlan(cls, f, c0, list, whole);
    }
  }

  // ----- how much memory a segment takes, section by section

  /** A new segment about to place its sections, all of them allocated, the last one not null. */
  predicate LoadReady(cls: ElfClass, f: Frame, c0: Cursor, list: seq<nat>) {
    && |c0.gen| == |c0.secs| && Within(list, |c0.secs|) && Ordering.Sorted(list) && list != []
    && Indexed(c0.secs) && NobitsLast(c0.secs, list) && NoneGenerated(c0, list)
    && f.start <= c0.pos < cls.Limit() && c0.filesz == c0.memsz == c0.pos - f.start
    && RunFits(cls, f, c0, list)
    && !c0.secs[list[|list| - 1]].IsNull()
    && forall j :: 0 <= j < |list| && !c0.secs[list[j]].IsNull() ==> c0.secs[list[j]].IsAlloc()
  }

  /** Sections before the last one have bytes, so all of them count, and memory and file agree. */
  lemma InitCounts(cls: ElfClass, f: Frame, c0: Cursor, list: seq<nat>)
    requires LoadReady(cls, f, c0, list)
    ensures var init := list[..|list| - 1];
            var c := PlaceAll(cls, f, c0, init);
            && Walked(cls, f, c0, c, Elems(init)) && f.start + c.memsz == c.pos
            && NoNobits(c.secs, Elems(init)) && Next(c0, Elems(init), list[|list| - 1])
  {
    var init := list[..|list| - 1];
    LastOf(c0, list);
    WalkAll(cls, f, c0, init);
    var c := PlaceAll(cls, f, c0, init);
    SameTypes(cls, f, c0, c, Elems(init));
    forall a | a in Elems(init) && NonNull(c.secs, a)
      ensures Counted(f, c.secs[a])
    {
      var j :| 0 <= j < |init| && init[j] == a;
      assert init[j] == list[j] && c0.secs[list[j]].IsAlloc();
      assert !c0.secs[list[j]].IsNobits();
    }
  }

  /** The memory image ends with the last section if that counts, and with the one before it if not. */
  lemma MemoryOfWalk(cls: ElfClass, f: Frame, c0: Cursor, list: seq<nat>)
    requires LoadReady(cls, f, c0, list)
    ensures var init, t := list[..|list| - 1], list[|list| - 1];
            var c1, c := PlaceAll(cls, f, c0, init), PlaceAll(cls, f, c0, list);
            && f.start <= c1.pos <= c.secs[t].hdr.offset && c.secs[t].hdr.offset + c.secs[t].hdr.size < cls.Limit()
            && (forall a :: a in init && NonNull(c0.secs, a) ==> c.secs[a].hdr.offset + c.secs[a].hdr.size <= c1.pos)
            && f.start + c.memsz == if Counted(f, c0.secs[t]) then c.secs[t].hdr.offset + c.secs[t].hdr.size else c1.pos
  {
    var init, t := list[..|list| - 1], list[|list| - 1];
    InitCounts(cls, f, c0, list);
    var c1, c := PlaceAll(cls, f, c0, init), PlaceAll(cls, f, c0, list);
    InitStays(cls, f, c0, list);
    SameTypes(cls, f, c0, c1, Elems(init));
    assert c1.secs[t] == c0.secs[t] && !c1.gen[t];
    LastSize(cls, f, c0.pos, c1, t);
  }

  /** What stands before the last section stays before it. */
  lemma InitStays(cls: ElfClass, f: Frame, c0: Cursor, list: seq<nat>)
    requires LoadReady(cls, f, c0, list)
    requires var init := list[..|list| - 1];
             var c := PlaceAll(cls, f, c0, init);
             Walked(cls, f, c0, c, Elems(init)) && NoNobits(c.secs, Elems(init))
    ensures var init := list[..|list| - 1];
            var c1, c := PlaceAll(cls, f, c0, init), PlaceAll(cls, f, c0, list);
            forall a :: a in init && NonNull(c0.secs, a) ==> c.secs[a].hdr.offset + c.secs[a].hdr.size <= c1.pos
  {
    var init := list[..|list| - 1];
    var c1, c := PlaceAll(cls, f, c0, init), PlaceAll(cls, f, c0, list);
    forall a | a in init && NonNull(c0.secs, a)
      ensures c.secs[a].hdr.offset + c.secs[a].hdr.size <= c1.pos
    {
      var j :| 0 <= j < |init| && init[j] == a;
      Frozen.PrefixKept(cls, f, c0, list, j);
      assert a in Elems(init) && Placed(cls, f, c0.pos, c0.secs[a], c1.secs[a]);
      assert c.secs[a] == c1.secs[a] && !c1.secs[a].IsNobits();
    }
  }

  lemma LastSize(cls: ElfClass, f: Frame, from: nat, c: Cursor, t: nat)
    requires c.Has(t) && Indexed(c.secs) && f.start <= c.pos < cls.Limit() && from <= c.pos
    requires !c.secs[t].IsNull() && !c.gen[t] && Fits(cls, f, c, t) && f.start + c.memsz == c.pos
    ensures var r := PlaceOne(cls, f, c, t);
            && c.pos <= r.secs[t].hdr.offset && r.secs[t].hdr.offset + r.secs[t].hdr.size < cls.Limit()
            && f.start + r.memsz == if Counted(f, c.secs[t]) then r.secs[t].hdr.offset + r.secs[t].hdr.size else c.pos
  {
    assert cls.Limit() <= U64;
    PlacedFacts(cls, f, c, from, t);
    TurnIsIdeal(cls, f, c, t);
  }

  // ----- in the finished layout

  lemma {:induction false} SameEnd(secs: seq<SectionState>, secs': seq<SectionState>, list: seq<nat>, vaddr: nat)
    requires |secs'| == |secs| && Within(list, |secs|)
    requires forall j :: 0 <= j < |list| ==> secs'[list[j]] == secs[list[j]]
    ensures EndAddress(secs', list, vaddr) == EndAddress(secs, list, vaddr)
  {
    if list != [] {
      SameEnd(secs, secs', list[..|list| - 1], vaddr);
    }
  }

  lemma SamePlan(secs: seq<SectionState>, secs': seq<SectionState>, list: seq<nat>, m: nat, vaddr: nat)
    requires |secs'| == |secs| && Within(list, |secs|) && m < |list|
    requires forall j :: 0 <= j < |list| ==> secs'[list[j]] == secs[list[j]]
    ensures Planned(secs', list, m, vaddr) == Planned(secs, list, m, vaddr)
  {
    SameEnd(secs, secs', list[..m], vaddr);
  }

  /** The turn of a segment that places its sections: its loop begins like this. */
  lemma PlacerOpens(e: Elf, p: nat) returns (f: Frame, c: Cursor)
    requires Fitting(e) && p < |e.segments| && TopLevel(e, p) && e.segments[Order(e.segments)[p]].sections != []
    ensures var k, st := Order(e.segments)[p], StateAt(e, p);
            && LaidAt(e, p) && st.segs[k] == e.segments[k] && (f, c) == Open(Prepared(e), st, st.segs[k])
            && (forall j :: 0 <= j < |e.segments[k].sections| ==>
                  c.secs[e.segments[k].sections[j]] == e.sections[e.segments[k].sections[j]])
            && |c.gen| == |c.secs| == |e.sections| && Indexed(c.secs) && SegShape(c.secs, e.segments[k])
            && NoneGenerated(c, e.segments[k].sections) && RunFits(e.cls, f, c, e.segments[k].sections)
            && f.start <= c.pos < e.cls.Limit() && c.filesz == c.memsz == c.pos - f.start
            && f.typ == e.segments[k].hdr.typ && f.vaddr == e.segments[k].hdr.vaddr
            && (!StartsWithNull(e.segments[k], e.sections) ==>
                  f.start == c.pos && f.start % e.segments[k].hdr.align == f.vaddr % e.segments[k].hdr.align)
  {
    hide TopLevel, Order, Laminar, LaidOut, AfterSections, AfterSegments, StateAt, RunFits;
    var k, st := Order(e.segments)[p], StateAt(e, p);
    SegmentsAreLaid(e, p);
    Budget.ReadyParts(e, p, st);
    assert FitsAt(e, p);
    OpenFresh(e.cls, Prepared(e), st, k);
    f, c := Open(Prepared(e), st, st.segs[k]).0, Open(Prepared(e), st, st.segs[k]).1;
  }

  /** What the segment's loop stores is what the finished layout has. */
  lemma PlacerStores(e: Elf, p: nat, f: Frame, c: Cursor)
    requires Fitting(e) && p < |e.segments|
    requires var k, st := Order(e.segments)[p], StateAt(e, p);
             st.segs[k] == e.segments[k] && (f, c) == Open(Prepared(e), st, st.segs[k]) && f.start < e.cls.Limit()
    ensures var k, done, r := Order(e.segments)[p], PlaceAll(e.cls, f, c, e.segments[Order(e.segments)[p]].sections),
              LaidOut(e);
            && Frozen.AllMoved(e.sections, r.sections) && |r.segments| == |e.segments|
            && (forall j :: 0 <= j < |e.segments[k].sections| ==>
                  r.sections[e.segments[k].sections[j]] == done.secs[e.segments[k].sections[j]])
            && Resized(e.segments[k], r.segments[k]) && r.segments[k].hdr.offset == f.start
            && (done.memsz < e.cls.Limit() ==> r.segments[k].hdr.memsz == done.memsz)
  {
    hide Order, Laminar, LaidOut, AfterSections, AfterSegments, StateAt, LayoutFits, PlaceAll, Open;
    var k, st := Order(e.segments)[p], StateAt(e, p);
    StateStep(e, p);
    StoredFields(e.cls, Prepared(e), st, k);
    Frozen.DoneIsFinal(e, p);
    Frozen.LayoutMoves(e);
    forall j | 0 <= j < |e.segments[k].sections|
      ensures LaidOut(e).sections[e.segments[k].sections[j]] == StateAt(e, p + 1).secs[e.segments[k].sections[j]]
    {
      Relayout.TurnIsFinal(e, p, j);
    }
  }

  /** Every section a segment places goes where it was planned, and gets the address planned for it. */
  lemma AddressesArePlanned(e: Elf, p: nat, m: nat)
    requires Fitting(e) && p < |e.segments| && TopLevel(e, p)
    requires m < |e.segments[Order(e.segments)[p]].sections|
    requires !e.sections[e.segments[Order(e.segments)[p]].sections[m]].IsNull()
    requires !StartsWithNull(e.segments[Order(e.segments)[p]], e.sections)
    requires Dividing(e.sections, e.segments[Order(e.segments)[p]].sections, e.segments[Order(e.segments)[p]].hdr.align)
    ensures var r, k := LaidOut(e), Order(e.segments)[p];
            var list, vaddr := e.segments[k].sections, e.segments[k].hdr.vaddr;
            && k < |r.segments| && |r.sections| == |e.sections|
            && r.sections[list[m]].hdr.offset - r.segments[k].hdr.offset + vaddr == Planned(e.sections, list, m, vaddr)
            && (Follows(e.sections[list[m]]) ==> r.sections[list[m]].hdr.addr == Planned(e.sections, list, m, vaddr))
  {
    hide TopLevel, Order, Laminar, LaidOut, StateAt, LayoutFits, Open, PlaceAll, RunFits, LaidAt, Planned,
        AfterSegments;
    var k := Order(e.segments)[p];
    var list, vaddr := e.segments[k].sections, e.segments[k].hdr.vaddr;
    var f, c := PlacerOpens(e, p);
    PlacerStores(e, p, f, c);
    PlaceIsPlanned(e.cls, f, c, list, e.segments[k].hdr.align, m);
    SamePlan(e.sections, c.secs, list, m, vaddr);
    PlacedCongruently(e, p);
    assert list[m] in list && NonNull(e.sections, list[m]);
  }

  /** The sections before the last one end at `from`, and the memory image of the segment ends there or
      with the last section, which is behind. */
  predicate MemoryOf(secs0: seq<SectionState>, secs: seq<SectionState>, seg: SegmentState, from: nat)
    requires seg.sections != [] && |secs| == |secs0| && Within(seg.sections, |secs|)
  {
    var t := seg.sections[|seg.sections| - 1];
    && seg.hdr.offset <= from <= secs[t].hdr.offset
    && (forall a :: a in seg.sections && a != t && NonNull(secs0, a) ==> secs[a].hdr.offset + secs[a].hdr.size <= from)
    && seg.hdr.offset + seg.hdr.memsz ==
         if Counted(FrameOf(seg), secs0[t]) then secs[t].hdr.offset + secs[t].hdr.size else from
  }

  /** The sections of segment k that are not null are allocated, and the last one is such a section. */
  predicate AllAllocated(e: Elf, k: nat)
    requires ElfOk(e) && k < |e.segments|
  {
    var list := e.segments[k].sections;
    && list != [] && !e.sections[list[|list| - 1]].IsNull()
    && forall j :: 0 <= j < |list| && !e.sections[list[j]].IsNull() ==> e.sections[list[j]].IsAlloc()
  }

  lemma PlacerMemory(e: Elf, p: nat) returns (from: nat)
    requires Fitting(e) && p < |e.segments| && TopLevel(e, p) && AllAllocated(e, Order(e.segments)[p])
    ensures var r, k := LaidOut(e), Order(e.segments)[p];
            && k < |r.segments| && |r.sections| == |e.sections| && r.segments[k].sections == e.segments[k].sections
            && MemoryOf(e.sections, r.sections, r.segments[k], from)
            && (!StartsWithNull(e.segments[k], e.sections) &&
                Dividing(e.sections, e.segments[k].sections, e.segments[k].hdr.align) ==>
                  from - r.segments[k].hdr.offset + e.segments[k].hdr.vaddr ==
                  EndAddress(e.sections, e.segments[k].sections[..|e.segments[k].sections| - 1],
                      e.segments[k].hdr.vaddr))
  {
    hide TopLevel, Order, Laminar, LaidOut, StateAt, LayoutFits, Open, PlaceAll, RunFits, LaidAt, AfterSegments,
         EndAddress, MemoryOf;
    var k := Order(e.segments)[p];
    var list := e.segments[k].sections;
    var f, c := PlacerOpens(e, p);
    PlacerStores(e, p, f, c);
    MemoryOfWalk(e.cls, f, c, list);
    from := PlaceAll(e.cls, f, c, list[..|list| - 1]).pos;
    MemoryStored(e.cls, f, c, e.sections, LaidOut(e).sections, LaidOut(e).segments[k]);
    if !StartsWithNull(e.segments[k], e.sections) && Dividing(e.sections, list, e.segments[k].hdr.align) {
      ReadyInit(e.cls, f, c, list, e.segments[k].hdr.align);
      WalkFollowsPlan(e.cls, f, c, list[..|list| - 1], e.segments[k].hdr.align);
      SameEnd(e.sections, c.secs, list[..|list| - 1], f.vaddr);
    }
  }

  lemma MemoryStored(cls: ElfClass, f: Frame, c: Cursor, secs0: seq<SectionState>, secs: seq<SectionState>,
      seg: SegmentState)
    requires LoadReady(cls, f, c, seg.sections) && |secs| == |secs0| == |c.secs|
    requires forall j :: 0 <= j < |seg.sections| ==> c.secs[seg.sections[j]] == secs0[seg.sections[j]]
    requires var done := PlaceAll(cls, f, c, seg.sections);
             && (forall j :: 0 <= j < |seg.sections| ==> secs[seg.sections[j]] == done.secs[seg.sections[j]])
             && seg.hdr.typ == f.typ && seg.hdr.offset == f.start && seg.hdr.memsz == done.memsz
    ensures MemoryOf(secs0, secs, seg, PlaceAll(cls, f, c, seg.sections[..|seg.sections| - 1]).pos)
  {
    hide PlaceAll, RunFits, PlaceOne;
    MemoryOfWalk(cls, f, c, seg.sections);
    var list := seg.sections;
    Frozen.WalkMoves(cls, f, c, list);
    forall a | a in list
      ensures a < |secs| && secs[a] == PlaceAll(cls, f, c, list).secs[a] && c.secs[a] == secs0[a]
      ensures a != list[|list| - 1] ==> a in list[..|list| - 1]
    {
      var j :| 0 <= j < |list| && list[j] == a;
      assert j < |list| - 1 ==> list[..|list| - 1][j] == a;
    }
  }
}
