/** Which sections of a segment are found in it again after the file was saved and loaded: exact
    conditions for segments that place their sections and for segments nested in them. */
module MembersKept {
  import opened ElfTypes
  import opened ElfState
  import opened Layout
  import opened FreshRun
  import opened SegmentPass
  import opened SegmentOrder
  import opened LayoutPass
  import opened LayoutTheorems
  import opened FileFormat
  import opened SaveLoad
  import opened SaveRoundTrip
  import opened Membership
  import opened Planned
  import opened Reload
  import opened ThreadLocals
  import Budget
  import Bytes
  import Frozen
  import Ordering

  /** Section a is in the list of segment k of the object that loading the saved file makes. */
  predicate Returns(e: Elf, k: nat, a: nat)
    requires ElfOk(e)
  {
    |LaidOut(e).hdr.ident| == EI_NIDENT &&
    var r := LoadFrom(e.conv.host, FileFormat.Image(LaidOut(e)));
    r.Some? && k < |r.value.0.segments| && a in r.value.0.segments[k].sections
  }

  /** Segments hold allocated sections that are not empty, and perhaps the null section. */
  predicate Ordinary(e: Elf) {
    Saveable(e) && NoEmptySections(e) && Listable(e)
  }

  /** A listed section returns exactly if it lies inside the segment in memory. */
  lemma InsideReturns(e: Elf, k: nat, a: nat)
    requires Ordinary(e) && k < |e.segments| && a in e.segments[k].sections && NonNull(e.sections, a)
    ensures k < |LaidOut(e).segments| && a < |LaidOut(e).sections|
    ensures Returns(e, k, a) <==> InsideMemory(LaidOut(e).segments[k].hdr, LaidOut(e).sections[a])
  {
    hide LaidOut, AfterSegments, LoadFrom, FileFormat.Image, StandardHeader, StandardParts, NamesResolve, LayoutFits,
         Result, Standing, InsideMemory, Matches, NoEmptySections, Listable, SegShape, Laminar, Reloaded, AfterSections;
    SaveThenLoad(e);
    StandingSegment(e, k);
    Frozen.LayoutMoves(e);
    InsideIsFound(e, LaidOut(e), AfterSegments(e).pos, k, a, FileFormat.Image(LaidOut(e)));
  }

  lemma InsideIsFound(e: Elf, f: Elf, mid: nat, k: nat, a: nat, file: seq<Bytes.byte>)
    requires WellFormed(e) && Result(e, f, mid) && NoEmptySections(e) && Listable(e)
    requires k < |f.segments| == |e.segments| && Standing(e, f, mid, k)
    requires a in e.segments[k].sections && NonNull(e.sections, a) && |f.sections| == |e.sections|
    ensures k < |Reloaded(f, file).segments|
    ensures a in Reloaded(f, file).segments[k].sections <==> InsideMemory(f.segments[k].hdr, f.sections[a])
  {
    hide Result, Standing, InsideMemory, Matches, NoEmptySections, Listable, SegShape, Laminar;
    PositiveIndex(e, a);
    OwnMatches(e, f, mid, k, a);
    MatchesByHeader(f.segments[k].hdr, f.sections[a], ReloadedSections(f)[a]);
  }

  lemma PositiveIndex(e: Elf, a: nat)
    requires WellFormed(e) && NonNull(e.sections, a)
    ensures 0 < a && ElfOk(e)
  {
  }

  /** What is listed besides the null section is allocated, and only the last section may lack bytes. */
  lemma ListedSections(e: Elf, k: nat)
    requires WellFormed(e) && NoEmptySections(e) && Listable(e) && k < |e.segments| && e.segments[k].sections != []
    ensures AllAllocated(e, k)
    ensures var list := e.segments[k].sections;
            forall a :: a in list && NonNull(e.sections, a) && a != list[|list| - 1] ==>
              e.sections[a].Occupies() && Counted(FrameOf(e.segments[k]), e.sections[a])
    ensures forall a :: a in e.segments[k].sections && NonNull(e.sections, a) ==> e.sections[a].hdr.size > 0
  {
    var list := e.segments[k].sections;
    assert SegShape(e.sections, e.segments[k]);
    assert list[|list| - 1] in list;
    assert |list| > 1 ==> list[0] < list[|list| - 1];
    forall a | a in list && NonNull(e.sections, a)
      ensures a > 0 && e.sections[a].IsAlloc()
      ensures a != list[|list| - 1] ==> e.sections[a].Occupies()
    {
      var j :| 0 <= j < |list| && list[j] == a;
    }
    forall j | 0 <= j < |list| && !e.sections[list[j]].IsNull()
      ensures e.sections[list[j]].IsAlloc()
    {
      assert list[j] in list && NonNull(e.sections, list[j]);
    }
  }

  // ----- the segment that places the sections

  /** A section without an address, or with an address and bytes, returns to the segment that placed it, unless
      it is a .tbss and the segment is not for thread-local storage. */
  lemma PlacerKeeps(e: Elf, p: nat, a: nat)
    requires Ordinary(e) && p < |e.segments| && TopLevel(e, p)
    requires forall b :: b in e.segments[Order(e.segments)[p]].sections && NonNull(e.sections, b) ==>
               Follows(e.sections[b])
    requires a in e.segments[Order(e.segments)[p]].sections && NonNull(e.sections, a)
    ensures var k := Order(e.segments)[p];
            Returns(e, k, a) <==> !ForeignTbss(e.segments[k].hdr, e.sections[a].hdr)
  {
    hide LaidOut, AfterSegments, LayoutFits, StandardHeader, StandardParts, NamesResolve, Order, TopLevel, Returns,
         Result, MemoryOf, Anchored, NoEmptySections, Listable, Laminar, SegShape, FileExact, MemoryExact, Ascending,
         AllAllocated, InsideMemory, AfterSections;
    var k := Order(e.segments)[p];
    InsideReturns(e, k, a);
    ListedSections(e, k);
    var from := PlacerMemory(e, p);
    PlacerIsAnchored(e, p);
    SegmentsAreExact(e, k);
    LayoutResult(e);
    Frozen.LayoutMoves(e);
    PlacedInside(e, LaidOut(e), AfterSegments(e).pos, k, from, a);
    CountedTakesMemory(e.segments[k], e.sections[a]);
    AllocatedIn(e, k, a);
  }

  lemma AllocatedIn(e: Elf, k: nat, a: nat)
    requires ElfOk(e) && k < |e.segments| && AllAllocated(e, k)
    requires a in e.segments[k].sections && NonNull(e.sections, a)
    ensures e.sections[a].hdr.flags / 2 % 2 == 1
  {
    var j :| 0 <= j < |e.segments[k].sections| && e.segments[k].sections[j] == a;
  }

  lemma PlacedInside(e: Elf, f: Elf, mid: nat, k: nat, from: nat, a: nat)
    requires Result(e, f, mid) && ElfOk(e) && k < |e.segments| == |f.segments| && Resized(e.segments[k], f.segments[k])
    requires AllAllocated(e, k) && a in e.segments[k].sections && NonNull(e.sections, a) && e.sections[a].hdr.size > 0
    requires var list := e.segments[k].sections;
             forall b :: b in list && NonNull(e.sections, b) && b != list[|list| - 1] ==>
               e.sections[b].Occupies() && Counted(FrameOf(e.segments[k]), e.sections[b])
    requires MemoryOf(e.sections, f.sections, f.segments[k], from) && Anchored(f.sections, f.segments[k])
    requires FileExact(f.sections, f.segments[k])
    ensures InsideMemory(f.segments[k].hdr, f.sections[a]) <==> Counted(FrameOf(e.segments[k]), e.sections[a])
  {
    hide Apart, SegmentsResult;
    var list := e.segments[k].sections;
    var t := list[|list| - 1];
    assert t in list && NonNull(e.sections, t);
    assert e.sections[a].Moved(f.sections[a]) && e.sections[t].Moved(f.sections[t]);
    assert !IsLoose(e.segments, t);
    assert NewlyPlaced(e.cls, Base(e), mid, e.sections[t], f.sections[t]);
    assert e.cls.Limit() <= U64;
  }

  /** The last section of segment k, which is a NOBITS section that came with an address. */
  predicate EndsAddressed(e: Elf, k: nat, t: nat)
    requires ElfOk(e) && k < |e.segments|
  {
    var list := e.segments[k].sections;
    list != [] && t == list[|list| - 1] && e.sections[t].IsNobits() && e.sections[t].addressSet
  }

  /** The layout does not move a NOBITS section to its address, and gives the segment memory for it where
      the file position says. It returns exactly if its address is not behind that place. */
  lemma AddressedNobits(e: Elf, p: nat, t: nat)
    requires Ordinary(e) && p < |e.segments| && TopLevel(e, p) && EndsAddressed(e, Order(e.segments)[p], t)
    requires Counted(FrameOf(e.segments[Order(e.segments)[p]]), e.sections[t])
    ensures var k, f := Order(e.segments)[p], LaidOut(e);
            && k < |f.segments| && t < |f.sections|
            && var place := e.segments[k].hdr.vaddr + f.sections[t].hdr.offset - f.segments[k].hdr.offset;
               Returns(e, k, t) <==>
                 e.segments[k].hdr.vaddr <= e.sections[t].hdr.addr <= place && place + e.sections[t].hdr.size < U64
  {
    hide LaidOut, AfterSegments, LayoutFits, StandardHeader, StandardParts, NamesResolve, Order, TopLevel, Returns,
         Result, MemoryOf, NoEmptySections, Listable, Laminar, SegShape, FileExact, MemoryExact, Ascending,
         AllAllocated, InsideMemory, AfterSections;
    var k := Order(e.segments)[p];
    assert t in e.segments[k].sections && NonNull(e.sections, t);
    InsideReturns(e, k, t);
    ListedSections(e, k);
    var from := PlacerMemory(e, p);
    SegmentsAreExact(e, k);
    LayoutResult(e);
    Frozen.LayoutMoves(e);
    LastInside(e, LaidOut(e), AfterSegments(e).pos, k, from);
  }

  /** An addressed last section, compared with where the memory image ends. */
  lemma LastInside(e: Elf, f: Elf, mid: nat, k: nat, from: nat)
    requires Result(e, f, mid) && ElfOk(e) && k < |e.segments| == |f.segments| && Resized(e.segments[k], f.segments[k])
    requires AllAllocated(e, k) && MemoryOf(e.sections, f.sections, f.segments[k], from)
    requires EndsAddressed(e, k, e.segments[k].sections[|e.segments[k].sections| - 1])
    ensures var list, h := e.segments[k].sections, f.segments[k].hdr;
            var t := list[|list| - 1];
            var place := h.vaddr + f.sections[t].hdr.offset - h.offset;
            var end := if Counted(FrameOf(e.segments[k]), e.sections[t]) then place + e.sections[t].hdr.size
                       else h.vaddr + from - h.offset;
            && h.vaddr + h.memsz == end
            && (InsideMemory(h, f.sections[t]) <==>
                  h.vaddr <= e.sections[t].hdr.addr && e.sections[t].hdr.addr + e.sections[t].hdr.size <= end < U64)
  {
    hide Apart, SegmentsResult;
    var list := e.segments[k].sections;
    var t := list[|list| - 1];
    assert t in list && e.sections[t].Moved(f.sections[t]);
    assert !IsLoose(e.segments, t);
    assert NewlyPlaced(e.cls, Base(e), mid, e.sections[t], f.sections[t]);
  }

  /** The sections before it return unless the end of the segment's memory wraps. */
  lemma BeforeAddressed(e: Elf, p: nat, a: nat, t: nat)
    requires Ordinary(e) && p < |e.segments| && TopLevel(e, p) && EndsAddressed(e, Order(e.segments)[p], t)
    requires a in e.segments[Order(e.segments)[p]].sections && NonNull(e.sections, a) && a != t
    ensures var k, f := Order(e.segments)[p], LaidOut(e);
            k < |f.segments| && (Returns(e, k, a) <==> e.segments[k].hdr.vaddr + f.segments[k].hdr.memsz < U64)
  {
    hide LaidOut, AfterSegments, LayoutFits, StandardHeader, StandardParts, NamesResolve, Order, TopLevel, Returns,
         Result, MemoryOf, NoEmptySections, Listable, Laminar, SegShape, FileExact, MemoryExact, Ascending,
         AllAllocated, InsideMemory, AfterSections, Congruent;
    var k := Order(e.segments)[p];
    InsideReturns(e, k, a);
    ListedSections(e, k);
    var from := PlacerMemory(e, p);
    PlacedCongruently(e, p);
    SegmentsAreExact(e, k);
    Frozen.LayoutMoves(e);
    BeforeLast(e.sections, LaidOut(e).sections, LaidOut(e).segments[k], from, a);
  }

  lemma BeforeLast(secs0: seq<SectionState>, secs: seq<SectionState>, seg: SegmentState, from: nat, a: nat)
    requires seg.sections != [] && Frozen.AllMoved(secs0, secs) && Within(seg.sections, |secs|)
    requires MemoryOf(secs0, secs, seg, from) && Congruent(secs0, secs, seg) && FileExact(secs, seg)
    requires a in seg.sections && a != seg.sections[|seg.sections| - 1] && a < |secs0| && secs0[a].Occupies()
    ensures InsideMemory(seg.hdr, secs[a]) <==> seg.hdr.vaddr + seg.hdr.memsz < U64
  {
    hide Counted;
    assert secs0[a].Moved(secs[a]) && NonNull(secs0, a) && Occupying(secs, a) && Follows(secs0[a]);
  }

  /** With alignments that divide the segment's, this is a condition on the object alone: the address
      must not lie behind the one the section would have been given. */
  lemma PlannedNobits(e: Elf, p: nat, t: nat)
    requires Ordinary(e) && p < |e.segments| && TopLevel(e, p) && EndsAddressed(e, Order(e.segments)[p], t)
    requires !StartsWithNull(e.segments[Order(e.segments)[p]], e.sections)
    requires Dividing(e.sections, e.segments[Order(e.segments)[p]].sections, e.segments[Order(e.segments)[p]].hdr.align)
    ensures var k := Order(e.segments)[p];
            var list, vaddr, s := e.segments[k].sections, e.segments[k].hdr.vaddr, e.sections[t];
            var end := if Counted(FrameOf(e.segments[k]), s)
                       then Planned.Planned(e.sections, list, |list| - 1, vaddr) + s.hdr.size
                       else EndAddress(e.sections, list[..|list| - 1], vaddr);
            Returns(e, k, t) <==> vaddr <= s.hdr.addr && s.hdr.addr + s.hdr.size <= end < U64
  {
    hide LaidOut, AfterSegments, LayoutFits, StandardHeader, StandardParts, NamesResolve, Order, TopLevel, Returns,
         Result, MemoryOf, NoEmptySections, Listable, Laminar, SegShape, FileExact, MemoryExact, Ascending,
         AllAllocated, InsideMemory, AfterSections, EndAddress, Planned.Planned, Dividing;
    var k := Order(e.segments)[p];
    assert t in e.segments[k].sections && NonNull(e.sections, t);
    InsideReturns(e, k, t);
    ListedSections(e, k);
    var from := PlacerMemory(e, p);
    SegmentsAreExact(e, k);
    LayoutResult(e);
    Frozen.LayoutMoves(e);
    LastInside(e, LaidOut(e), AfterSegments(e).pos, k, from);
    AddressesArePlanned(e, p, |e.segments[k].sections| - 1);
  }

  // ----- segments nested in it

  /** Section a stands as far from the start of the outer segment in the file as in memory. */
  predicate InStep(secs: seq<SectionState>, outer: SegmentState, a: nat)
    requires a < |secs|
  {
    secs[a].hdr.offset - outer.hdr.offset == secs[a].hdr.addr - outer.hdr.vaddr
  }

  predicate AllInStep(secs: seq<SectionState>, outer: SegmentState, seg: SegmentState) {
    forall a :: a in seg.sections && NonNull(secs, a) ==> InStep(secs, outer, a)
  }

  /** All sections of an inner segment lie inside it exactly if it starts, in memory, not before the place
      that belongs to its file offset and not behind its first section. */
  lemma AllInside(secs: seq<SectionState>, seg: SegmentState, outer: SegmentState, first: nat)
    requires AllInStep(secs, outer, seg)
    requires Loaded(secs, seg) && MemoryExact(secs, seg) && Ascending(secs, Elems(seg.sections))
    requires first in seg.sections && NonNull(secs, first)
    requires forall a :: a in seg.sections && NonNull(secs, a) ==>
               first <= a && secs[a].hdr.addr + secs[a].hdr.size < U64
    ensures (forall a :: a in seg.sections && NonNull(secs, a) ==> InsideMemory(seg.hdr, secs[a])) <==>
            (outer.hdr.vaddr + seg.hdr.offset - outer.hdr.offset <= seg.hdr.vaddr <= secs[first].hdr.addr &&
             seg.hdr.vaddr + seg.hdr.memsz < U64)
  {
    hide Counted;
    assert first in Elems(seg.sections);
    var last :| last in seg.sections && NonNull(secs, last) &&
                secs[last].hdr.offset + secs[last].hdr.size == seg.hdr.offset + seg.hdr.memsz;
    assert InStep(secs, outer, last) && InStep(secs, outer, first);
    if outer.hdr.vaddr + seg.hdr.offset - outer.hdr.offset <= seg.hdr.vaddr <= secs[first].hdr.addr &&
       seg.hdr.vaddr + seg.hdr.memsz < U64 {
      forall a | a in seg.sections && NonNull(secs, a)
        ensures InsideMemory(seg.hdr, secs[a])
      {
        assert InStep(secs, outer, a) && a in Elems(seg.sections);
        assert secs[first].hdr.offset <= secs[a].hdr.offset;
      }
    }
    if forall a :: a in seg.sections && NonNull(secs, a) ==> InsideMemory(seg.hdr, secs[a]) {
      assert InsideMemory(seg.hdr, secs[last]) && InsideMemory(seg.hdr, secs[first]);
    }
  }

  /** The first section of segment k that is not the null section. */
  function FirstProper(e: Elf, k: nat): nat
    requires ElfOk(e) && k < |e.segments| && e.segments[k].sections != []
  {
    if StartsWithNull(e.segments[k], e.sections) then e.segments[k].sections[1] else e.segments[k].sections[0]
  }

  /** Segment k has loaded sections, none of which is a NOBITS section with an address, and all of which
      are also in a segment that has placed them. */
  predicate NestedIn(e: Elf, k: nat, outer: nat)
    requires ElfOk(e) && k < |e.segments| && outer < |e.segments|
  {
    && e.segments[k].sections != [] && Loaded(e.sections, e.segments[k])
    && Ordering.Subset(e.segments[k].sections, e.segments[outer].sections)
    && TopLevel(e, Budget.Position(e, outer))
    && forall b :: b in e.segments[k].sections && NonNull(e.sections, b) ==> Follows(e.sections[b])
  }

  lemma FirstIsFirst(e: Elf, k: nat)
    requires WellFormed(e) && NoEmptySections(e) && k < |e.segments| && e.segments[k].sections != []
    ensures FirstProper(e, k) in e.segments[k].sections && NonNull(e.sections, FirstProper(e, k))
    ensures forall a :: a in e.segments[k].sections && NonNull(e.sections, a) ==> FirstProper(e, k) <= a
  {
    var list := e.segments[k].sections;
    assert SegShape(e.sections, e.segments[k]);
    assert |list| > 1 ==> list[0] < list[1];
    forall a | a in list && NonNull(e.sections, a)
      ensures FirstProper(e, k) <= a
    {
      var j :| 0 <= j < |list| && list[j] == a;
    }
  }

  /** Every section of a nested segment returns to it exactly if the segment starts, in memory, not before
      the place that belongs to its file offset and not behind its first section. */
  lemma NestedKeeps(e: Elf, k: nat, outer: nat)
    requires Ordinary(e) && k < |e.segments| && outer < |e.segments| && NestedIn(e, k, outer)
    ensures |LaidOut(e).segments| == |e.segments| && |LaidOut(e).sections| == |e.sections|
    ensures var f := LaidOut(e);
            var h, o := f.segments[k].hdr, f.segments[outer].hdr;
            (forall a :: a in e.segments[k].sections && NonNull(e.sections, a) ==> Returns(e, k, a)) <==>
            (o.vaddr + h.offset - o.offset <= h.vaddr <= f.sections[FirstProper(e, k)].hdr.addr &&
             h.vaddr + h.memsz < U64)
  {
    hide LaidOut, AfterSegments, LayoutFits, StandardHeader, StandardParts, NamesResolve, Order, TopLevel, Returns,
         Result, NoEmptySections, Listable, Laminar, SegShape, FileExact, MemoryExact, Ascending, Loaded,
         InsideMemory, AfterSections, AllInStep;
    NestedParts(e, k, outer);
    var f := LaidOut(e);
    FirstIsFirst(e, k);
    AllInside(f.sections, f.segments[k], f.segments[outer], FirstProper(e, k));
    forall a | a in e.segments[k].sections && NonNull(e.sections, a)
      ensures Returns(e, k, a) <==> InsideMemory(f.segments[k].hdr, f.sections[a])
    {
      InsideReturns(e, k, a);
    }
  }

  lemma NestedParts(e: Elf, k: nat, outer: nat)
    requires Ordinary(e) && k < |e.segments| && outer < |e.segments| && NestedIn(e, k, outer)
    ensures Frozen.AllMoved(e.sections, LaidOut(e).sections) && |LaidOut(e).segments| == |e.segments|
    ensures var f := LaidOut(e);
            && Resized(e.segments[k], f.segments[k]) && Resized(e.segments[outer], f.segments[outer])
            && AllInStep(f.sections, f.segments[outer], f.segments[k]) && Loaded(f.sections, f.segments[k])
            && MemoryExact(f.sections, f.segments[k]) && Ascending(f.sections, Elems(e.segments[k].sections))
            && forall a :: a in e.segments[k].sections && NonNull(e.sections, a) ==>
                 f.sections[a].hdr.addr + f.sections[a].hdr.size < U64
  {
    hide LaidOut, AfterSegments, LayoutFits, StandardHeader, StandardParts, NamesResolve, Order, TopLevel,
         Result, NoEmptySections, Listable, Laminar, SegShape, FileExact, MemoryExact, Ascending, Loaded,
         AfterSections, Congruent, AllInStep;
    Frozen.LayoutMoves(e);
    SegmentsAreExact(e, k);
    SegmentsAreExact(e, outer);
    SubsetOfEmpty(e.segments[k].sections, e.segments[outer].sections);
    PlacedCongruently(e, Budget.Position(e, outer));
    InnerInStep(e.sections, LaidOut(e).sections, LaidOut(e).segments[outer], LaidOut(e).segments[k]);
    LoadedStays(e.sections, LaidOut(e).sections, e.segments[k], LaidOut(e).segments[k]);
    LayoutResult(e);
    assert e.cls.Limit() <= U64;
    forall a | a in e.segments[k].sections && NonNull(e.sections, a)
      ensures LaidOut(e).sections[a].hdr.addr + LaidOut(e).sections[a].hdr.size < U64
    {
      ListedAddress(e, LaidOut(e), AfterSegments(e).pos, k, a);
    }
  }

  lemma InnerInStep(secs0: seq<SectionState>, secs: seq<SectionState>, outer: SegmentState, seg: SegmentState)
    requires Frozen.AllMoved(secs0, secs) && Congruent(secs0, secs, outer)
    requires Ordering.Subset(seg.sections, outer.sections)
    requires forall b :: b in seg.sections && NonNull(secs0, b) ==> Follows(secs0[b])
    ensures AllInStep(secs, outer, seg)
  {
    forall a | a in seg.sections && NonNull(secs, a)
      ensures InStep(secs, outer, a)
    {
      assert secs0[a].Moved(secs[a]) && NonNull(secs0, a);
    }
  }

  lemma SubsetOfEmpty(a: seq<nat>, b: seq<nat>)
    requires Ordering.Subset(a, b) && a != []
    ensures b != []
  {
    assert a[0] in a;
  }

  lemma ListedAddress(e0: Elf, e: Elf, mid: nat, k: nat, a: nat)
    requires Result(e0, e, mid) && k < |e0.segments| && a in e0.segments[k].sections && NonNull(e0.sections, a)
    ensures e.sections[a].hdr.addr + e.sections[a].hdr.size < e0.cls.Limit()
  {
    assert !IsLoose(e0.segments, a);
    assert NewlyPlaced(e0.cls, Base(e0), mid, e0.sections[a], e.sections[a]);
  }

  /** For a segment that begins with a section proper: exactly if its address is that section's. */
  lemma NestedKeepsProper(e: Elf, k: nat, outer: nat)
    requires Ordinary(e) && k < |e.segments| && outer < |e.segments| && NestedIn(e, k, outer)
    requires !StartsWithNull(e.segments[k], e.sections) && !TopLevel(e, Budget.Position(e, k))
    ensures |LaidOut(e).sections| == |e.sections|
    ensures (forall a :: a in e.segments[k].sections && NonNull(e.sections, a) ==> Returns(e, k, a)) <==>
            e.segments[k].hdr.vaddr == LaidOut(e).sections[e.segments[k].sections[0]].hdr.addr
  {
    hide LaidOut, AfterSegments, LayoutFits, StandardHeader, StandardParts, NamesResolve, Order, TopLevel, Returns,
         Result, NoEmptySections, Listable, Laminar, SegShape, FileExact, MemoryExact, Ascending, Loaded,
         InsideMemory, AfterSections, AllInStep;
    NestedKeeps(e, k, outer);
    NestedParts(e, k, outer);
    FirstIsFirst(e, k);
    LayoutResult(e);
    var f, first := LaidOut(e), e.segments[k].sections[0];
    InnerStart(e, f, AfterSegments(e).pos, Budget.Position(e, k));
    forall a | a in f.segments[k].sections && NonNull(f.sections, a)
      ensures f.sections[a].hdr.addr + f.sections[a].hdr.size < U64
    {
      assert e.sections[a].Moved(f.sections[a]);
    }
    StartInMemory(f.sections, f.segments[k], f.segments[outer], first);
  }

  lemma InnerStart(e: Elf, f: Elf, mid: nat, p: nat)
    requires WellFormed(e) && Result(e, f, mid) && p < |e.segments| && !TopLevel(e, p)
    requires var k := Order(e.segments)[p];
             && e.segments[k].sections != [] && !StartsWithNull(e.segments[k], e.sections)
             && NonNull(e.sections, e.segments[k].sections[0])
    ensures var k := Order(e.segments)[p];
            var first := e.segments[k].sections[0];
            && k < |f.segments| && first in f.segments[k].sections && NonNull(f.sections, first)
            && f.segments[k].hdr.offset == f.sections[first].hdr.offset
  {
    var k := Order(e.segments)[p];
    assert SegmentDone(e, p, mid, f.sections, f.segments[k]);
    assert e.sections[e.segments[k].sections[0]].Moved(f.sections[e.segments[k].sections[0]]);
  }

  /** The place in memory that belongs to the offset of a nested segment is its first section's; a segment
      that starts there does not wrap. */
  lemma StartInMemory(secs: seq<SectionState>, seg: SegmentState, outer: SegmentState, first: nat)
    requires AllInStep(secs, outer, seg)
    requires Loaded(secs, seg) && MemoryExact(secs, seg)
    requires first in seg.sections && NonNull(secs, first) && seg.hdr.offset == secs[first].hdr.offset
    requires forall a :: a in seg.sections && NonNull(secs, a) ==> secs[a].hdr.addr + secs[a].hdr.size < U64
    ensures outer.hdr.vaddr + seg.hdr.offset - outer.hdr.offset == secs[first].hdr.addr
    ensures seg.hdr.vaddr == secs[first].hdr.addr ==> seg.hdr.vaddr + seg.hdr.memsz < U64
  {
    hide Counted;
    assert InStep(secs, outer, first);
    var last :| last in seg.sections && NonNull(secs, last) &&
                secs[last].hdr.offset + secs[last].hdr.size == seg.hdr.offset + seg.hdr.memsz;
    assert InStep(secs, outer, last);
  }
}
