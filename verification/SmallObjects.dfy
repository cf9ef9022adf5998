/** Small objects on which the layout does not do what one might expect of it. */
module SmallObjects {
  import opened Bytes
  import opened Convertor
  import opened ElfTypes
  import opened ElfState
  import opened Layout
  import opened FreshRun
  import opened SegmentPass
  import opened SegmentOrder
  import opened LayoutPass
  import opened LayoutTheorems
  import opened Budget
  import opened Planned
  import opened SaveRoundTrip
  import opened Membership
  import opened Reload
  import opened ReloadConditions
  import opened Reorder
  import FileFormat
  import FileImage
  import Frozen
  import Naming
  import Nesting
  import Ordering
  import SaveLoad

  // ----- what they consist of

  const PROGBITS := 1
  const PT_LOAD := 1

  /** A loaded section filled with zeros, perhaps with an address. */
  function Filled(i: nat, addr: nat, addressSet: bool, align: nat, size: nat): SectionState {
    SectionState(ZeroShdr.(typ := PROGBITS, flags := SHF_ALLOC, addr := addr, addrAlign := align, size := size),
                 i, [], FileImage.Zeros(size), addressSet)
  }

  function Bss(i: nat, align: nat, size: nat): SectionState {
    SectionState(ZeroShdr.(typ := SHT_NOBITS, flags := SHF_ALLOC, addrAlign := align, size := size), i, [], [], false)
  }

  function Segment(k: nat, vaddr: nat, align: nat, list: seq<nat>): SegmentState {
    SegmentState(ZeroPhdr.(typ := PT_LOAD, vaddr := vaddr, align := align), k, list, false, [])
  }

  /** A 32-bit object without section names: the null section and two others. */
  function Object(a: SectionState, b: SectionState, segs: seq<SegmentState>): Elf {
    Elf(Class32, Setup(Little, 1), Naming.NewHeader(Class32, 1).(shstrndx := SHN_UNDEF),
        [Naming.NewSection(0), a, b], segs)
  }

  // ----- a .tbss with padding before it

  function PaddedBss(): Elf {
    Object(Filled(1, 0, false, 4, 4), Bss(2, 8, 16), [Segment(0, 0x1000, 8, [1, 2]), Segment(1, 0x1008, 8, [2])])
  }

  lemma PaddedBssLists()
    ensures Ordering.Subset(PaddedBss().segments[1].sections, PaddedBss().segments[0].sections)
    ensures Ordering.IsSubsequenceOf(PaddedBss().segments[1].sections, PaddedBss().segments[0].sections)
  {
    var outer: seq<nat>, inner: seq<nat> := [1, 2], [2];
    Ordering.IncludesIsSubset(outer, inner);
  }

  lemma PaddedBssShape()
    ensures WellFormed(PaddedBss())
  {
    hide Ordering.IsSubsequenceOf;
    PaddedBssLists();
    var e := PaddedBss();
    assert SegShape(e.sections, e.segments[0]) && SegShape(e.sections, e.segments[1]);
    hide SegShape;
    LaminarPair(Lists(e.segments));
  }

  lemma LaminarPair(lists: seq<seq<nat>>)
    requires |lists| == 2
    requires Ordering.Subset(lists[1], lists[0]) || (Disjoint(lists[0], lists[1]) && Disjoint(lists[1], lists[0]))
    ensures Laminar(lists)
  {
  }

  lemma PaddedBssFits()
    ensures Fitting(PaddedBss())
  {
    hide WellFormed, Fitting, Affordable, Reach, Roomy;
    var e := PaddedBss();
    PaddedBssShape();
    PaddedReach(e);
    FittingParts(e);
    assert Plain(e, 0) && Plain(e, 1);
    SumOfTwo(Costs(e), 40);
    LooseCostOfThree(e.sections);
    assert Cheap(e);
    CheapIsAffordable(e);
    AffordableFits(e);
  }

  lemma FittingParts(e: Elf)
    requires WellFormed(e)
    ensures ElfOk(e)
  {
  }

  lemma PaddedReach(e: Elf)
    requires e == PaddedBss()
    ensures Reach(e.sections, 0x1000, [1, 2], 0) == 32 && Roomy(e.sections, 0x1000, [1, 2], 0)
    ensures Reach(e.sections, 0x1008, [2], 0) == 24 && Roomy(e.sections, 0x1008, [2], 0)
    ensures EndAddress(e.sections, [1], 0x1000) == 0x1004
  {
    var both: seq<nat>, first: seq<nat>, second: seq<nat> := [1, 2], [1], [2];
    assert both[..1] == first && first[..0] == [] && second[..0] == [];
    assert Reach(e.sections, 0x1000, first, 0) == 8;
    assert EndAddress(e.sections, [], 0x1000) == 0x1000;
    assert Planned.Planned(e.sections, first, 0, 0x1000) == 0x1000;
  }

  /** The segment of the NOBITS section alone lies behind the segment that includes it: four bytes of
      padding stand between. */
  lemma PaddedBssIsOutside()
    ensures var e := PaddedBss();
            && Fitting(e) && Ordering.IsSubsequenceOf(e.segments[1].sections, e.segments[0].sections)
            && |LaidOut(e).segments| == 2 && !Nesting.Inside(LaidOut(e).segments[1].hdr, LaidOut(e).segments[0].hdr)
  {
    hide LaidOut, Fitting, EndAddress, WellFormed, Ordering.IsSubsequenceOf, Nesting.Inside, Layout.Order;
    var e := PaddedBss();
    PaddedBssShape();
    PaddedBssLists();
    PaddedBssFits();
    PaddedReach(e);
    Nesting.StrictlyIncludes(e, 0, 1);
    FirstIsTopLevel(e);
    assert e.segments[0].sections[..1] == [1];
    Nesting.OnlyNobitsPlanned(e, 0, 1, 2);
  }

  lemma FirstIsTopLevel(e: Elf)
    requires |e.segments| == 2 && Position(e, 0) < Position(e, 1)
    ensures TopLevel(e, Position(e, 0))
  {
    assert Layout.Order(e.segments)[..0] == [];
  }

  // ----- a segment with the headers that is not the first one

  function TwoLoads(): Elf {
    Object(Filled(1, 0, false, 1, 4), Filled(2, 0, false, 1, 4),
           [Segment(0, 0x2000, 1, [2]), Segment(1, 0x1000, 1, [0, 1])])
  }

  /** Two segments of which neither includes the other, with one section proper each. */
  predicate TwoApart(e: Elf) {
    && |e.segments| == 2 && e.segments[0].sections == [2] && e.segments[1].sections == [0, 1] && |e.sections| == 3
    && Indexed(e.sections) && !e.sections[1].IsNull() && !e.sections[2].IsNull()
    && e.segments[0].hdr.align == e.segments[1].hdr.align == 1
  }

  lemma TwoApartShape(e: Elf)
    requires TwoApart(e) && Base(e) < e.cls.Limit()
    ensures WellFormed(e) && StartsWithNull(e.segments[1], e.sections) && !StartsWithNull(e.segments[0], e.sections)
    ensures Disjoint(e.segments[0].sections, e.segments[1].sections) &&
              Disjoint(e.segments[1].sections, e.segments[0].sections)
  {
    assert SegShape(e.sections, e.segments[0]) && SegShape(e.sections, e.segments[1]);
    hide SegShape;
    LaminarPair(Lists(e.segments));
  }

  lemma TwoApartTop(e: Elf, p: nat)
    requires |e.segments| == 2 && p < 2
    requires Disjoint(e.segments[0].sections, e.segments[1].sections) &&
               Disjoint(e.segments[1].sections, e.segments[0].sections)
    ensures TopLevel(e, p)
  {
    OrderFacts(e.segments);
    var order, lists := Layout.Order(e.segments), Lists(e.segments);
    assert order[..0] == [] && order[..1] == [order[0]];
    hide Layout.Order;
    forall i | i in e.segments[order[p]].sections
      ensures !InSome(lists, order[..p], i)
    {
    }
  }

  /** The order in which they are treated, by whether they are at offset 0. */
  lemma TwoApartOrder(e: Elf)
    requires TwoApart(e) && !e.segments[0].AtZero()
    ensures Layout.Order(e.segments) == if e.segments[1].AtZero() then [1, 0] else [0, 1]
  {
    var lists, zero, all := Lists(e.segments), Zeros(e.segments), Ordering.Range(2);
    assert all == [0, 1];
    if e.segments[1].AtZero() {
      SwapTwo(zero);
      Ordering.DrainTwo(lists, 1, 0);
    } else {
      Ordering.OrderedByLists(lists, zero);
      Ordering.DrainTwo(lists, 0, 1);
    }
  }

  lemma SwapTwo(zero: seq<bool>)
    requires zero == [false, true]
    ensures Ordering.FrontZeros(zero, Ordering.Range(2), 0, 0) == [1, 0]
  {
    var all := Ordering.Range(2);
    assert all == [0, 1] && Ordering.Swapped(all, 1, 0) == [1, 0];
    assert Ordering.FrontZeros(zero, all, 0, 0) == Ordering.FrontZeros(zero, all, 1, 0);
    assert Ordering.FrontZeros(zero, all, 1, 0) == Ordering.FrontZeros(zero, Ordering.Swapped(all, 1, 0), 2, 1);
  }

  /** The object as it was built, or as it was read back: its sections without addresses, or with
      addresses close behind their segments'. */
  predicate LoadsLike(e: Elf, read: bool) {
    && TwoApart(e) && e.cls == Class32 && Base(e) == 116
    && !e.segments[0].AtZero() && e.segments[1].AtZero() == read
    && e.segments[0].hdr.vaddr == 0x2000 && e.segments[1].hdr.vaddr == 0x1000
    && e.sections[0].hdr.size == e.sections[0].hdr.addrAlign == 0
    && (forall i :: 1 <= i < 3 ==>
          var s := e.sections[i];
          s.Occupies() && s.hdr.size == 4 && s.hdr.addrAlign == 1 && s.addressSet == read)
    && (read ==> 0x1000 + 116 <= e.sections[1].hdr.addr < 0x1100 && 0x2000 <= e.sections[2].hdr.addr < 0x2100)
  }

  /** How far each of the two segments reaches. */
  lemma LoadsReach(e: Elf, read: bool, from: nat)
    requires LoadsLike(e, read) && 116 <= from < 0x100 && (read ==> from == 116)
    ensures var r := Reach(e.sections, 0x1000, [0, 1], from);
            r == (if read then e.sections[1].hdr.addr - 0x1000 + 4 else from + 5) &&
                Roomy(e.sections, 0x1000, [0, 1], from)
    ensures var r := Reach(e.sections, 0x2000, [2], 0);
            r == (if read then e.sections[2].hdr.addr - 0x2000 + 4 else 5) && Roomy(e.sections, 0x2000, [2], 0)
  {
    var both: seq<nat>, first: seq<nat>, second: seq<nat> := [0, 1], [0], [2];
    assert both[..1] == first && first[..0] == [] && second[..0] == [];
    assert Reach(e.sections, 0x1000, first, from) == from && Roomy(e.sections, 0x1000, first, from);
  }

  lemma LoadsOrder(e: Elf, read: bool)
    requires LoadsLike(e, read)
    ensures WellFormed(e) && StartsWithNull(e.segments[1], e.sections) && !StartsWithNull(e.segments[0], e.sections)
    ensures TopLevel(e, 0) && TopLevel(e, 1) && Layout.Order(e.segments) == if read then [1, 0] else [0, 1]
  {
    hide WellFormed, TopLevel, Layout.Order;
    TwoApartShape(e);
    TwoApartTop(e, 0);
    TwoApartTop(e, 1);
    TwoApartOrder(e);
  }

  lemma LoadsBound(e: Elf, read: bool)
    requires LoadsLike(e, read) && ElfOk(e) && TopLevel(e, 0) && TopLevel(e, 1)
    requires Layout.Order(e.segments) == if read then [1, 0] else [0, 1]
    requires StartsWithNull(e.segments[1], e.sections) && !StartsWithNull(e.segments[0], e.sections)
    ensures Bound(e, 0) == 116 && (!read ==> Bound(e, 1) == 122) && Bound(e, 2) < 0x400
  {
    hide Reach, TopLevel, Layout.Order;
    LoadsReach(e, read, if read then 116 else 122);
    assert Bound(e, 0) == 116;
    if read {
      assert Bound(e, 1) == Reach(e.sections, 0x1000, [0, 1], 116);
      assert Bound(e, 2) == Bound(e, 1) + 1 + Reach(e.sections, 0x2000, [2], 0);
    } else {
      assert Bound(e, 1) == 116 + 1 + Reach(e.sections, 0x2000, [2], 0);
      assert Bound(e, 2) == Reach(e.sections, 0x1000, [0, 1], 122);
    }
  }

  lemma LoadsComposed(e: Elf, read: bool)
    requires LoadsLike(e, read) && ElfOk(e)
    requires Layout.Order(e.segments) == if read then [1, 0] else [0, 1]
    requires StartsWithNull(e.segments[1], e.sections) && !StartsWithNull(e.segments[0], e.sections)
    requires Bound(e, 0) == 116 && (!read ==> Bound(e, 1) == 122)
    ensures AllComposed(e)
  {
    hide Reach, Roomy, TopLevel, Layout.Order, Bound;
    LoadsReach(e, read, if read then 116 else 122);
    forall n | 0 <= n < 2
      ensures Composed(e, n)
    {
    }
  }

  lemma LoadsAfford(e: Elf, read: bool)
    requires LoadsLike(e, read)
    ensures Affordable(e) && TopLevel(e, Position(e, 0)) && TopLevel(e, Position(e, 1))
    ensures if read then Position(e, 1) < Position(e, 0) else Position(e, 0) < Position(e, 1)
    ensures !read ==> Lead(e, Position(e, 1)) == 122
  {
    hide WellFormed, TopLevel, Layout.Order, Bound, Composed, AllComposed, Position;
    LoadsOrder(e, read);
    FittingParts(e);
    PositionIs(e, 0);
    PositionIs(e, 1);
    LoadsBound(e, read);
    LoadsComposed(e, read);
    LooseCostOfThree(e.sections);
  }

  lemma TwoLoadsAre()
    ensures LoadsLike(TwoLoads(), false)
  {
  }

  lemma TwoLoadsRetain()
    ensures LoadsLike(TwoLoads(), false) && Retentive(TwoLoads())
  {
    hide Affordable, Reach, SegmentReloadable, StandardHeader, StandardParts, SaveLoad.NamesResolve, NoEmptySections,
         LoadsLike, TwoLoads;
    var e := TwoLoads();
    TwoLoadsAre();
    LoadsAfford(e, false);
    AffordableIsOk(e);
    LoadsReach(e, false, 122);
    TwoLoadsKeep(e);
    TwoLoadsStandard(e);
    LoadsCount(e);
  }

  lemma LoadsCount(e: Elf)
    requires LoadsLike(e, false)
    ensures |e.segments| == 2
  {
  }

  lemma TwoLoadsStandard(e: Elf)
    requires e == TwoLoads()
    ensures StandardHeader(e) && StandardParts(e) && SaveLoad.NamesResolve(e) && NoEmptySections(e)
  {
  }

  lemma TwoLoadsWindows(e: Elf)
    requires e == TwoLoads() && ElfOk(e) && Lead(e, Position(e, 1)) == 122
    requires Reach(e.sections, 0x1000, [0, 1], 122) == 127 && Reach(e.sections, 0x2000, [2], 0) == 5
    ensures Window(e, 0) == 5 && Window(e, 1) == 127
  {
    hide Reach, Position, Lead;
    assert !StartsWithNull(e.segments[0], e.sections);
    LeadOfPlain(e, 0);
  }

  lemma TwoLoadsKeep(e: Elf)
    requires e == TwoLoads() && ElfOk(e) && Lead(e, Position(e, 1)) == 122
    requires Reach(e.sections, 0x1000, [0, 1], 122) == 127 && Reach(e.sections, 0x2000, [2], 0) == 5
    ensures SegmentReloadable(e, 0) && SegmentReloadable(e, 1)
  {
    TwoLoadsWindows(e);
    TwoLoadsApart(e);
    HighKeeps(e);
    LowKeeps(e);
  }

  lemma HighKeeps(e: Elf)
    requires e == TwoLoads() && ElfOk(e) && Window(e, 0) == 5 && Outside(e, 0, 1) && Alone(e, 0)
    ensures SegmentReloadable(e, 0)
  {
    hide Window, Outside, Alone, Fixed, Reach;
    forall b | 0 <= b < 3 && b !in [2] && e.sections[b].IsAlloc()
      ensures Outside(e, 0, b)
    {
      assert b == 1;
    }
  }

  lemma LowKeeps(e: Elf)
    requires e == TwoLoads() && ElfOk(e) && Window(e, 1) == 127 && Outside(e, 1, 2) && Alone(e, 1)
    ensures SegmentReloadable(e, 1)
  {
    hide Window, Outside, Alone, Fixed, Reach;
    forall b | 0 <= b < 3 && b !in [0, 1] && e.sections[b].IsAlloc()
      ensures Outside(e, 1, b)
    {
      assert b == 2;
    }
  }

  lemma TwoLoadsApart(e: Elf)
    requires e == TwoLoads() && ElfOk(e) && Window(e, 0) == 5 && Window(e, 1) == 127
    ensures Outside(e, 0, 1) && Outside(e, 1, 2) && Alone(e, 0) && Alone(e, 1)
  {
    hide Window;
    var low, high := e.segments[1].sections, e.segments[0].sections;
    assert 2 in high && 1 in low && 2 !in low && 1 !in high && 0 !in high;
    assert WindowsApart(e, 0, 1) && WindowsApart(e, 1, 0);
  }

  lemma LeadOfPlain(e: Elf, k: nat)
    requires ElfOk(e) && k < |e.segments| && !StartsWithNull(e.segments[k], e.sections)
    ensures Lead(e, Position(e, k)) == 0
  {
  }

  /** Where the first layout puts the two sections. */
  lemma TwoLoadsPlaces(e: Elf, f: Elf)
    requires e == TwoLoads() && LoadsLike(e, false) && Retentive(e) && Saveable(e) && f == LaidOut(e)
    ensures |f.sections| == |e.sections| == 3 && |f.segments| == |e.segments| == 2
    ensures f.segments[1].hdr.offset == 0 && f.segments[0].hdr.offset != 0
    ensures 0x1000 + 116 <= f.sections[1].hdr.addr < 0x1100 && 0x2000 <= f.sections[2].hdr.addr < 0x2100
  {
    hide LaidOut, Fitting, Retentive, Anchored, Window, LoadsLike, Saveable;
    SaveableIsOk(e);
    Frozen.LayoutMoves(e);
    LoadsWindows(e);
    var low, high := e.segments[1].sections, e.segments[0].sections;
    assert 1 in low && 2 in high && NonNull(e.sections, 1) && NonNull(e.sections, 2);
    SectionInWindow(e, 1, 1);
    SectionInWindow(e, 0, 2);
    ZeroOffset(e, 0);
    ZeroOffset(e, 1);
    LoadsStart(e, f);
  }

  lemma LoadsWindows(e: Elf)
    requires e == TwoLoads() && LoadsLike(e, false) && Retentive(e)
    ensures Window(e, 0) == 5 && Window(e, 1) == 127
  {
    hide Window, Affordable;
    AffordableIsOk(e);
    LoadsAfford(e, false);
    LoadsReach(e, false, 122);
    TwoLoadsWindows(e);
  }

  /** The section behind the headers stands as far from the segment's address as from the file's start. */
  lemma LoadsStart(e: Elf, f: Elf)
    requires e == TwoLoads() && LoadsLike(e, false) && Retentive(e) && Fitting(e) && f == LaidOut(e)
    requires |f.sections| == 3 && |f.segments| == 2 && f.segments[1].hdr.offset == 0
    ensures f.sections[1].hdr.addr >= 0x1000 + 116
  {
    hide LaidOut, AfterSegments, Retentive, Window, SegmentsResult, LayoutFits, AfterSections;
    InWindow(e, 1);
    SegmentsAreExact(e, 1);
    LayoutResult(e);
    OneFromResult(e, f, AfterSegments(e).pos, 1);
    assert 1 in e.segments[1].sections && e.sections[1].Moved(f.sections[1]) && NonNull(f.sections, 1);
  }

  /** The object read back: its lists are the same, and the segment with the headers is at offset 0 now. */
  lemma TwoLoadsRead(e: Elf, f: Elf, g: Elf, file: seq<byte>)
    requires e == TwoLoads() && LoadsLike(e, false) && Retentive(e) && Saveable(e)
    requires f == LaidOut(e) && g == SaveLoad.Reloaded(f, file)
    ensures LoadsLike(g, true) && |f.sections| == |g.sections| == 3
    ensures forall i :: 0 <= i < 3 ==> g.sections[i].hdr == f.sections[i].hdr
  {
    hide LaidOut, TwoLoads, Retentive, Saveable, LoadsLike, SameSegmentRead, SameSectionRead, SaveLoad.Reloaded,
         Fitting;
    SaveableIsOk(e);
    TwoLoadsPlaces(e, f);
    LoadsSegment(e, f, g, 0, file);
    LoadsSegment(e, f, g, 1, file);
    LoadsSection(e, f, g, 0, file);
    LoadsSection(e, f, g, 1, file);
    LoadsSection(e, f, g, 2, file);
    LoadsHeader(e, f, g, file);
    LoadsReadLike(e, f, g);
  }

  predicate SameSegmentRead(s: SegmentState, t: SegmentState, u: SegmentState) {
    && u.sections == s.sections && u.offsetSet && u.hdr.vaddr == s.hdr.vaddr && u.hdr.align == s.hdr.align
    && u.hdr.offset == t.hdr.offset
  }

  predicate SameSectionRead(s: SectionState, t: SectionState, u: SectionState) {
    && u.hdr == t.hdr && u.hdr.typ == s.hdr.typ && u.hdr.size == s.hdr.size && u.hdr.addrAlign == s.hdr.addrAlign
    && u.index == s.index && u.addressSet
  }

  lemma LoadsSegment(e: Elf, f: Elf, g: Elf, k: nat, file: seq<byte>)
    requires e == TwoLoads() && Retentive(e) && Saveable(e) && f == LaidOut(e) && k < 2
    requires g == SaveLoad.Reloaded(f, file)
    ensures k < |g.segments| && k < |f.segments| && SameSegmentRead(e.segments[k], f.segments[k], g.segments[k])
  {
    hide LaidOut, Retentive, Saveable, Faithful, Fitting;
    SaveableIsOk(e);
    Frozen.LayoutMoves(e);
    RetentiveList(e, k);
    SegmentsAreExact(e, k);
    SegmentBackExactly(e, f, k, file);
  }

  lemma LoadsSection(e: Elf, f: Elf, g: Elf, i: nat, file: seq<byte>)
    requires ElfOk(e) && f == LaidOut(e) && i < |e.sections| && g == SaveLoad.Reloaded(f, file)
    ensures i < |g.sections| == |f.sections| && SameSectionRead(e.sections[i], f.sections[i], g.sections[i])
  {
    hide LaidOut;
    Frozen.LayoutMoves(e);
    assert e.sections[i].Moved(f.sections[i]);
  }

  lemma LoadsReadLike(e: Elf, f: Elf, g: Elf)
    requires LoadsLike(e, false) && |g.segments| == |f.segments| == 2 && |g.sections| == |f.sections| == 3
    requires forall k :: 0 <= k < 2 ==> SameSegmentRead(e.segments[k], f.segments[k], g.segments[k])
    requires forall i :: 0 <= i < 3 ==> SameSectionRead(e.sections[i], f.sections[i], g.sections[i])
    requires f.segments[1].hdr.offset == 0 && f.segments[0].hdr.offset != 0
    requires 0x1000 + 116 <= f.sections[1].hdr.addr < 0x1100 && 0x2000 <= f.sections[2].hdr.addr < 0x2100
    requires g.cls == e.cls && g.hdr.ehsize == e.hdr.ehsize && g.hdr.phentsize == e.hdr.phentsize
    ensures LoadsLike(g, true) && forall i :: 0 <= i < 3 ==> g.sections[i].hdr == f.sections[i].hdr
  {
    forall i | 0 <= i < 3
      ensures SameSectionRead(e.sections[i], f.sections[i], g.sections[i])
    {
    }
  }

  lemma LoadsHeader(e: Elf, f: Elf, g: Elf, file: seq<byte>)
    requires ElfOk(e) && f == LaidOut(e) && g == SaveLoad.Reloaded(f, file)
    ensures g.cls == e.cls && g.hdr.ehsize == e.hdr.ehsize && g.hdr.phentsize == e.hdr.phentsize
    ensures |g.segments| == |f.segments| && |g.sections| == |f.sections|
  {
    hide AfterSections, AfterSegments;
  }

  /** The second layout treats the segment with the headers first, and so moves the other one's section:
      without OrderKept the layout of an object read back is not final. */
  lemma TwoLoadsMove()
    ensures var e := TwoLoads();
            && Saveable(e) && Retentive(e) && !OrderKept(e) && |LaidOut(e).hdr.ident| == EI_NIDENT
            && var r := FileFormat.LoadFrom(e.conv.host, FileFormat.Image(LaidOut(e)));
               && r.Some? && |r.value.0.segments| == 2
               && (forall k :: 0 <= k < 2 ==> r.value.0.segments[k].sections == e.segments[k].sections)
               && ElfOk(r.value.0) && LaidOut(r.value.0).sections != r.value.0.sections
  {
    hide LaidOut, FileFormat.LoadFrom, FileFormat.Image, Retentive, Saveable, LoadsLike, SaveLoad.Reloaded, Affordable,
         Places, Fitting, OrderKept;
    var e := TwoLoads();
    TwoLoadsRetain();
    RetentiveIsSaveable(e);
    SaveableIsOk(e);
    SaveThenLoad(e);
    var f, file := LaidOut(e), FileFormat.Image(LaidOut(e));
    var g := SaveLoad.Reloaded(f, file);
    TwoLoadsRead(e, f, g, file);
    LoadsPlace(e, false);
    LoadsPlace(g, true);
    Frozen.LayoutMoves(g);
    if LaidOut(g).sections == g.sections {
      FixpointKeepsOrder(e, g, 0, 1, 2, 1);
    }
    OtherOrder(e);
  }

  /** Each segment places the section of its own. */
  lemma LoadsPlace(e: Elf, read: bool)
    requires LoadsLike(e, read)
    ensures Fitting(e) && ElfOk(e) && Places(e, 0, 2) && Places(e, 1, 1)
    ensures |e.segments| == 2 && e.segments[0].sections == [2] && e.segments[1].sections == [0, 1]
    ensures if read then Position(e, 1) < Position(e, 0) else Position(e, 0) < Position(e, 1)
  {
    hide Affordable, Fitting, TopLevel, Position;
    LoadsAfford(e, read);
    AffordableIsOk(e);
    AffordableFits(e);
  }

  lemma OtherOrder(e: Elf)
    requires e == TwoLoads() && ElfOk(e) && LoadsLike(e, false)
    ensures !OrderKept(e)
  {
    hide Layout.Order, OrderAgain, LoadsLike;
    var order, again := Layout.Order(e.segments), OrderAgain(e);
    BothOrders(e);
    assert order[1..] == [1] && again[1..] == [0];
    assert Lists(e.segments)[0] == [2] && Lists(e.segments)[1] == [0, 1];
    assert PlacesIn(Lists(e.segments), order, 0) && PlacesIn(Lists(e.segments), order, 1);
    assert Earlier(order, 0, 1) && !Earlier(again, 0, 1);
  }

  lemma BothOrders(e: Elf)
    requires e == TwoLoads() && ElfOk(e) && LoadsLike(e, false)
    ensures Layout.Order(e.segments) == [0, 1] && OrderAgain(e) == [1, 0]
  {
    TwoApartOrder(e);
    var lists, zero := Lists(e.segments), NullFirsts(e);
    assert zero == [false, true];
    SwapTwo(zero);
    Ordering.DrainTwo(lists, 1, 0);
  }

  /** It meets every condition under which the layout is final exactly if the order is kept. */
  lemma TwoLoadsDecided()
    ensures var e := TwoLoads(); Retentive(e) && ElfOk(e) && Visible(e) && Generous(e) && NullInFront(e) && !Durable(e)
  {
    hide Retentive, LoadsLike, OrderKept, Visible, Generous, NullInFront, TwoLoads, Saveable, Fitting;
    var e := TwoLoads();
    TwoLoadsRetain();
    RetentiveIsSaveable(e);
    SaveableIsOk(e);
    LoadsVisible(e);
    LoadsGenerous(e);
    LoadsInFront(e);
    OtherOrder(e);
  }

  lemma LoadsVisible(e: Elf)
    requires ElfOk(e) && LoadsLike(e, false)
    ensures Visible(e)
  {
    hide OutermostIn;
    var lists := Lists(e.segments);
    assert lists[0] == [2] && lists[1] == [0, 1] && lists[0] != lists[1];
    assert 2 in lists[0] && 1 in lists[1];
    assert OwnsBytes(e, 0, 2) && OwnsBytes(e, 1, 1);
  }

  lemma LoadsGenerous(e: Elf)
    requires ElfOk(e) && LoadsLike(e, false)
    ensures Generous(e)
  {
    hide Bound, WellFormed, TopLevel, Layout.Order;
    LoadsOrder(e, false);
    LoadsBound(e, false);
  }

  lemma LoadsInFront(e: Elf)
    requires ElfOk(e) && LoadsLike(e, false)
    ensures NullInFront(e)
  {
    hide WellFormed, TopLevel, Layout.Order, Ordering.FrontZeros;
    LoadsOrder(e, false);
    var zero := NullFirsts(e);
    assert zero == [false, true];
    SwapTwo(zero);
  }
}
