/** When an object survives saving and reloading unchanged: a condition on the object itself, which a
    program can check before it saves. */
module ReloadConditions {
  import opened ElfTypes
  import opened ElfState
  import opened Layout
  import opened FreshRun
  import opened SegmentPass
  import opened SegmentOrder
  import opened LayoutPass
  import opened LoosePass
  import opened LayoutTheorems
  import opened FileFormat
  import opened SaveLoad
  import opened SaveRoundTrip
  import opened Membership
  import opened Budget
  import opened Reload
  import opened Reorder
  import Bytes
  import FileImage
  import Frozen
  import Ordering
  import Relayout

  // ----- the condition

  /** Segment k shares its sections with no other segment. */
  predicate Alone(e: Elf, k: nat)
    requires k < |e.segments|
  {
    forall m :: 0 <= m < |e.segments| && m != k ==> Disjoint(e.segments[m].sections, e.segments[k].sections)
  }

  /** All sections of segment k have addresses and bytes, and the segment begins with the first of them;
      if that is the null section, with all segments that begin so. */
  predicate Fixed(e: Elf, k: nat)
    requires ElfOk(e) && k < |e.segments|
  {
    var seg := e.segments[k];
    && seg.sections != []
    && (if StartsWithNull(seg, e.sections)
        then forall m :: 0 <= m < |e.segments| && 0 in e.segments[m].sections ==>
            e.segments[m].hdr.vaddr == seg.hdr.vaddr
        else seg.hdr.vaddr == e.sections[seg.sections[0]].hdr.addr)
    && forall j :: 0 <= j < |seg.sections| && !e.sections[seg.sections[j]].IsNull() ==>
         e.sections[seg.sections[j]].addressSet && e.sections[seg.sections[j]].Occupies()
  }

  /** How much memory segment k takes at most. */
  function Window(e: Elf, k: nat): nat
    requires ElfOk(e) && k < |e.segments|
  {
    if IsBarePhdr(e.segments[k]) then e.hdr.phentsize * |e.segments|
    else Reach(e.sections, e.segments[k].hdr.vaddr, e.segments[k].sections, Lead(e, Position(e, k)))
  }

  /** The windows of two segments do not overlap. */
  predicate WindowsApart(e: Elf, k: nat, m: nat)
    requires ElfOk(e) && k < |e.segments| && m < |e.segments|
  {
    || e.segments[k].hdr.vaddr + Window(e, k) <= e.segments[m].hdr.vaddr
    || e.segments[m].hdr.vaddr + Window(e, m) <= e.segments[k].hdr.vaddr
  }

  /** Section b lies outside the window of segment k: by its own address, if the layout does not give it
      one, or because it belongs to a segment with another window. */
  predicate Outside(e: Elf, k: nat, b: nat)
    requires ElfOk(e) && k < |e.segments| && b < |e.sections|
  {
    var seg, s := e.segments[k], e.sections[b];
    || ((IsLoose(e.segments, b) || s.addressSet) &&
        (s.hdr.addr < seg.hdr.vaddr || seg.hdr.vaddr + Window(e, k) < s.hdr.addr + s.hdr.size < U64))
    || exists m :: 0 <= m < |e.segments| && b in e.segments[m].sections && WindowsApart(e, k, m)
  }

  /** The section may be in segment seg: it is aligned no more than the segment, and loaded unless null. */
  predicate Suits(seg: SegmentState, s: SectionState) {
    s.hdr.addrAlign <= seg.hdr.align && (s.IsNull() || (Counted(FrameOf(seg), s) && Follows(s)))
  }

  predicate SegmentReloadable(e: Elf, k: nat)
    requires ElfOk(e) && k < |e.segments|
  {
    var seg := e.segments[k];
    && (Alone(e, k) || Fixed(e, k))
    && (forall j :: 0 <= j < |seg.sections| ==> Suits(seg, e.sections[seg.sections[j]]))
    && seg.hdr.vaddr + Window(e, k) < U64
    && forall b :: 0 <= b < |e.sections| && b !in seg.sections && e.sections[b].IsAlloc() ==> Outside(e, k, b)
  }

  /** The condition for every segment to get its list back. */
  predicate Retentive(e: Elf) {
    && Affordable(e) && StandardHeader(e) && StandardParts(e) && NamesResolve(e) && NoEmptySections(e)
    && forall k :: 0 <= k < |e.segments| ==> SegmentReloadable(e, k)
  }

  /** The whole condition. */
  predicate Durable(e: Elf) {
    Retentive(e) && OrderKept(e)
  }

  lemma RetentiveIsSaveable(e: Elf)
    requires Retentive(e)
    ensures Saveable(e)
  {
    hide StandardHeader, StandardParts, NamesResolve, Affordable, Fitting, SegmentReloadable;
    AffordableFits(e);
  }

  lemma ListSuits(e: Elf, k: nat)
    requires ElfOk(e) && k < |e.segments| && SegmentReloadable(e, k)
    ensures Loaded(e.sections, e.segments[k])
    ensures forall a :: a in e.segments[k].sections && NonNull(e.sections, a) ==> Follows(e.sections[a])
  {
    forall a | a in e.segments[k].sections
      ensures a < |e.sections| && Suits(e.segments[k], e.sections[a])
    {
      var j :| 0 <= j < |e.segments[k].sections| && e.segments[k].sections[j] == a;
    }
  }

  lemma RetentiveIsListable(e: Elf)
    requires Retentive(e)
    ensures Listable(e)
  {
    hide StandardHeader, StandardParts, NamesResolve, Affordable, SegmentReloadable, SegShape, Laminar;
    assert ElfOk(e) by {
      AffordableIsOk(e);
    }
    forall m, a | 0 <= m < |e.segments| && a in e.segments[m].sections && a < |e.sections|
      ensures a == 0 || e.sections[a].IsAlloc()
    {
      assert SegmentReloadable(e, m);
      ListSuits(e, m);
      if a > 0 {
        assert a in Elems(e.segments[m].sections) && NonNull(e.sections, a);
      }
    }
  }

  lemma AffordableIsOk(e: Elf)
    requires Affordable(e)
    ensures ElfOk(e)
  {
  }

  // ----- every segment is anchored

  lemma AloneIsTopLevel(e: Elf, p: nat)
    requires p < |e.segments| && Alone(e, Order(e.segments)[p])
    ensures TopLevel(e, p)
  {
    OrderFacts(e.segments);
    var order, lists := Order(e.segments), Lists(e.segments);
    forall i | i in e.segments[order[p]].sections
      ensures !InSome(lists, order[..p], i)
    {
      forall m | 0 <= m < |order[..p]| && order[..p][m] < |lists|
        ensures i !in lists[order[..p][m]]
      {
        assert order[..p][m] == order[m] != order[p];
        assert Disjoint(e.segments[order[m]].sections, e.segments[order[p]].sections);
      }
    }
  }

  /** The earlier segment in which segment p of the order is nested. */
  lemma OwnerOf(e: Elf, p: nat) returns (m: nat)
    requires WellFormed(e) && p < |e.segments| && !TopLevel(e, p)
    ensures m < p
    ensures Ordering.Subset(e.segments[Order(e.segments)[p]].sections, e.segments[Order(e.segments)[m]].sections)
  {
    OrderFacts(e.segments);
    var order, lists := Order(e.segments), Lists(e.segments);
    var i :| i in e.segments[order[p]].sections && InSome(lists, order[..p], i);
    m := FirstOwner(lists, order, p, i);
  }

  /** A section of a segment that came with an address keeps it. */
  lemma AddressKept(e0: Elf, e: Elf, mid: nat, k: nat, a: nat)
    requires Result(e0, e, mid) && k < |e0.segments| && a in e0.segments[k].sections && NonNull(e0.sections, a)
    ensures e0.sections[a].Moved(e.sections[a]) && e.sections[a].hdr.addr + e.sections[a].hdr.size < e0.cls.Limit()
    ensures e0.sections[a].addressSet ==> e.sections[a].hdr.addr == e0.sections[a].hdr.addr
  {
    assert !IsLoose(e0.segments, a);
    assert NewlyPlaced(e0.cls, Base(e0), mid, e0.sections[a], e.sections[a]);
  }

  /** Two segments that start at one place in the file and in memory are both anchored. */
  lemma SameStart(secs: seq<SectionState>, seg: SegmentState, outer: SegmentState)
    requires Anchored(secs, outer) && Ordering.Subset(seg.sections, outer.sections)
    requires seg.hdr.offset == outer.hdr.offset && seg.hdr.vaddr == outer.hdr.vaddr
    ensures Anchored(secs, seg)
  {
  }

  lemma NestedAnchored(e: Elf, p: nat, outer: nat)
    requires Retentive(e) && Fitting(e) && p < |e.segments| && !TopLevel(e, p) && outer < |e.segments|
    requires Ordering.Subset(e.segments[Order(e.segments)[p]].sections, e.segments[outer].sections)
    requires Anchored(LaidOut(e).sections, LaidOut(e).segments[outer])
    ensures Anchored(LaidOut(e).sections, LaidOut(e).segments[Order(e.segments)[p]])
  {
    hide LaidOut, AfterSegments, Anchored, Affordable, StandardHeader, StandardParts, NamesResolve, Result,
         Order, TopLevel, Window, Outside;
    var k := Order(e.segments)[p];
    if Alone(e, k) {
      AloneIsTopLevel(e, p);
    }
    assert SegmentReloadable(e, k);
    Frozen.LayoutMoves(e);
    SegmentsAreExact(e, k);
    if StartsWithNull(e.segments[k], e.sections) {
      NullNested(e, k, outer);
    } else {
      ListSuits(e, k);
      var first := e.segments[k].sections[0];
      assert first in e.segments[k].sections && NonNull(e.sections, first) by {
        FirstIsNonNull(e, k);
      }
      LayoutResult(e);
      AddressKept(e, LaidOut(e), AfterSegments(e).pos, k, first);
      NestedIsAnchored(e, p, outer);
    }
  }

  lemma FirstIsNonNull(e: Elf, k: nat)
    requires WellFormed(e) && k < |e.segments| && e.segments[k].sections != []
    requires !StartsWithNull(e.segments[k], e.sections)
    ensures NonNull(e.sections, e.segments[k].sections[0])
  {
    assert SegShape(e.sections, e.segments[k]);
  }

  /** A nested segment that begins with the null section has the start of the one around it. */
  lemma NullNested(e: Elf, k: nat, outer: nat)
    requires Retentive(e) && Fitting(e) && k < |e.segments| && outer < |e.segments|
    requires Fixed(e, k) && StartsWithNull(e.segments[k], e.sections)
    requires Ordering.Subset(e.segments[k].sections, e.segments[outer].sections)
    requires |LaidOut(e).segments| == |e.segments| && Anchored(LaidOut(e).sections, LaidOut(e).segments[outer])
    ensures Anchored(LaidOut(e).sections, LaidOut(e).segments[k])
  {
    hide LaidOut, AfterSegments, Anchored, Affordable, StandardParts, NamesResolve, Order;
    ZeroIsFirst(e, k);
    ZeroIsFirst(e, outer);
    ZeroOffset(e, k);
    ZeroOffset(e, outer);
    SegmentsAreExact(e, k);
    SegmentsAreExact(e, outer);
    SameStart(LaidOut(e).sections, LaidOut(e).segments[k], LaidOut(e).segments[outer]);
  }

  /** Every segment's sections stand at the same distances in memory and in the file. */
  lemma {:induction false} EveryAnchored(e: Elf, p: nat)
    requires Retentive(e) && Fitting(e) && p < |e.segments|
    ensures Anchored(LaidOut(e).sections, LaidOut(e).segments[Order(e.segments)[p]])
    decreases p
  {
    hide LaidOut, AfterSegments, Affordable, StandardHeader, StandardParts, NamesResolve, Order, TopLevel;
    var k := Order(e.segments)[p];
    assert SegmentReloadable(e, k);
    ListSuits(e, k);
    SegmentsAreExact(e, k);
    if e.segments[k].sections == [] {
    } else if TopLevel(e, p) {
      PlacerIsAnchored(e, p);
    } else {
      var m := OwnerOf(e, p);
      EveryAnchored(e, m);
      NestedAnchored(e, p, Order(e.segments)[m]);
    }
  }

  // ----- every segment stays in its window

  /** If none of its sections ends behind `w`, neither does the memory image. */
  lemma MemoryBy(secs: seq<SectionState>, seg: SegmentState, w: nat, a: nat)
    requires MemoryExact(secs, seg) && Loaded(secs, seg) && a in seg.sections && NonNull(secs, a)
    requires forall a :: a in seg.sections && NonNull(secs, a) ==>
               secs[a].hdr.offset + secs[a].hdr.size <= seg.hdr.offset + w
    ensures seg.hdr.memsz <= w
  {
  }

  lemma FixedWindow(e0: Elf, e: Elf, mid: nat, k: nat, from: nat)
    requires Result(e0, e, mid) && WellFormed(e0) && k < |e0.segments| && Fixed(e0, k)
    requires Resized(e0.segments[k], e.segments[k]) && Loaded(e0.sections, e0.segments[k])
    requires Anchored(e.sections, e.segments[k]) && MemoryExact(e.sections, e.segments[k])
    requires exists a :: a in e0.segments[k].sections && NonNull(e0.sections, a)
    ensures e.segments[k].hdr.memsz <= Reach(e0.sections, e0.segments[k].hdr.vaddr, e0.segments[k].sections, from)
  {
    hide Anchored, Loaded, MemoryExact, SegmentDone, Reach;
    var seg, list := e.segments[k], e0.segments[k].sections;
    var w := Reach(e0.sections, e0.segments[k].hdr.vaddr, list, from);
    forall a | a in list && NonNull(e.sections, a)
      ensures e.sections[a].hdr.offset + e.sections[a].hdr.size <= seg.hdr.offset + w
    {
      FixedEnds(e0, e, mid, k, a, from);
    }
    LoadedStays(e0.sections, e.sections, e0.segments[k], seg);
    var a :| a in list && NonNull(e0.sections, a);
    assert e0.sections[a].Moved(e.sections[a]);
    MemoryBy(e.sections, seg, w, a);
  }

  lemma FixedEnds(e0: Elf, e: Elf, mid: nat, k: nat, a: nat, from: nat)
    requires Result(e0, e, mid) && ElfOk(e0) && k < |e0.segments| && Fixed(e0, k)
    requires Resized(e0.segments[k], e.segments[k]) && Anchored(e.sections, e.segments[k])
    requires a in e0.segments[k].sections && NonNull(e.sections, a)
    ensures e.sections[a].hdr.offset + e.sections[a].hdr.size <=
            e.segments[k].hdr.offset + Reach(e0.sections, e0.segments[k].hdr.vaddr, e0.segments[k].sections, from)
  {
    hide SegmentsResult, Reach;
    var list := e0.segments[k].sections;
    var j :| 0 <= j < |list| && list[j] == a;
    assert e0.sections[a].Moved(e.sections[a]);
    AddressesWithinReach(e0.sections, e0.segments[k].hdr.vaddr, list, from, j);
    AddressKept(e0, e, mid, k, a);
  }

  /** The turn of a segment that places its sections itself: all of them end within its reach. */
  lemma TurnEnds(e: Elf, p: nat, st: LayState)
    requires WellFormed(e) && p < |e.segments| && Composed(e, p) && LayOk(st) && Laid(e, p, st) && TopLevel(e, p)
    requires e.segments[Order(e.segments)[p]].sections != []
    requires st.pos <= Bound(e, p) && Bound(e, p + 1) < e.cls.Limit()
    ensures var k, r := Order(e.segments)[p], PlaceSegment(e.cls, Prepared(e), st, Order(e.segments)[p]);
            EndBy(r.secs, e.segments[k].sections, r.segs[k].hdr.offset +
                  Reach(e.sections, e.segments[k].hdr.vaddr, e.segments[k].sections, Lead(e, p)))
  {
    hide EndBy, RoomyReady, Roomy, Layout.PlaceSegment, PlaceAll, TopLevel, Order, Reach, Composed, Open,
         Bound, Laminar, SegShape;
    var k := Order(e.segments)[p];
    SegmentReady(e, p, st);
    var (f, c) := Open(Prepared(e), st, e.segments[k]);
    ReadyEnds(e.cls, Prepared(e), st, k);
    var r := PlaceSegment(e.cls, Prepared(e), st, k);
    EndsEarlier(r.secs, e.segments[k].sections,
                r.segs[k].hdr.offset + Reach(c.secs, f.vaddr, e.segments[k].sections, c.filesz),
                r.segs[k].hdr.offset + Reach(e.sections, e.segments[k].hdr.vaddr, e.segments[k].sections, Lead(e, p)));
  }

  lemma ReadyEnds(cls: ElfClass, h: Ehdr, st: LayState, k: nat)
    requires LayOk(st) && k < |st.segs|
    requires var (f, c) := Open(h, st, st.segs[k]); RoomyReady(cls, f, c, st.segs[k].sections)
    ensures var (f, c) := Open(h, st, st.segs[k]);
            var r, list := PlaceSegment(cls, h, st, k), st.segs[k].sections;
            EndBy(r.secs, list, r.segs[k].hdr.offset + Reach(c.secs, f.vaddr, list, c.filesz))
  {
    hide EndBy, RoomyReady, Layout.PlaceSegment, PlaceAll, Reach, Open;
    var (f, c) := Open(h, st, st.segs[k]);
    ReadyStart(cls, f, c, st.segs[k].sections);
    RoomyEnds(cls, f, c, st.segs[k].sections);
    StoredFields(cls, h, st, k);
  }

  lemma EndsEarlier(secs: seq<SectionState>, list: seq<nat>, end: nat, later: nat)
    requires EndBy(secs, list, end) && end <= later
    ensures EndBy(secs, list, later)
  {
  }

  /** When the turn of segment p comes, everything before it is within the bound. */
  lemma TurnComes(e: Elf, p: nat)
    requires Affordable(e) && p < |e.segments|
    ensures LaidAt(e, p) && StateAt(e, p).pos <= Bound(e, p) && Bound(e, p + 1) < e.cls.Limit() && Composed(e, p)
  {
    SegmentsAfford(e, p);
    hide LaidAt, StateAt, Order, TopLevel, Bound, Composed;
    assert WithinBudget(e, p);
    BoundGrows(e, p + 1, |e.segments|);
  }

  /** A segment that places its sections itself: all of them end within its reach. */
  lemma PlacerEnds(e: Elf, p: nat)
    requires Affordable(e) && Fitting(e) && p < |e.segments| && TopLevel(e, p)
    requires e.segments[Order(e.segments)[p]].sections != []
    ensures var k, f := Order(e.segments)[p], LaidOut(e);
            EndBy(f.sections, e.segments[k].sections, f.segments[k].hdr.offset +
                  Reach(e.sections, e.segments[k].hdr.vaddr, e.segments[k].sections, Lead(e, p)))
  {
    hide LaidOut, Affordable, StateAt, Order, TopLevel, Laid, LayoutFits, Reach, EndBy, Prepared,
         Layout.PlaceSegment, Composed, Bound, Lead;
    var k, st := Order(e.segments)[p], StateAt(e, p);
    TurnComes(e, p);
    TurnEnds(e, p, st);
    StateStep(e, p);
    Frozen.DoneIsFinal(e, p);
    Frozen.LayoutMoves(e);
    assert st.segs[k] == e.segments[k] by {
      Untouched(e, p);
    }
    forall j | 0 <= j < |e.segments[k].sections|
      ensures LaidOut(e).sections[e.segments[k].sections[j]] == StateAt(e, p + 1).secs[e.segments[k].sections[j]]
    {
      Relayout.TurnIsFinal(e, p, j);
    }
    EndMoves(StateAt(e, p + 1).secs, LaidOut(e).sections, e.segments[k].sections, LaidOut(e).segments[k].hdr.offset +
             Reach(e.sections, e.segments[k].hdr.vaddr, e.segments[k].sections, Lead(e, p)));
  }

  lemma EndMoves(secs: seq<SectionState>, secs': seq<SectionState>, list: seq<nat>, end: nat)
    requires EndBy(secs, list, end) && |secs'| == |secs| && Within(list, |secs|)
    requires forall j :: 0 <= j < |list| ==> secs'[list[j]] == secs[list[j]]
    ensures EndBy(secs', list, end)
  {
  }

  lemma Untouched(e: Elf, p: nat)
    requires LaidAt(e, p) && p < |e.segments|
    ensures StateAt(e, p).segs[Order(e.segments)[p]] == e.segments[Order(e.segments)[p]]
  {
  }

  lemma AloneWindow(e: Elf, p: nat)
    requires Retentive(e) && Fitting(e) && p < |e.segments| && TopLevel(e, p)
    requires e.segments[Order(e.segments)[p]].sections != []
    ensures |LaidOut(e).segments| == |e.segments|
    ensures LaidOut(e).segments[Order(e.segments)[p]].hdr.memsz <= Window(e, Order(e.segments)[p])
  {
    hide LaidOut, Affordable, Order, TopLevel, LayoutFits, Reach, StandardHeader, StandardParts, NamesResolve,
         MemoryExact, Loaded, EndBy, FileExact, Alone, Fixed, Outside, Ascending, Position, Lead;
    var k, f := Order(e.segments)[p], LaidOut(e);
    PlacerEnds(e, p);
    PositionIs(e, p);
    assert SegmentReloadable(e, k);
    ListSuits(e, k);
    SegmentsAreExact(e, k);
    Frozen.LayoutMoves(e);
    LoadedStays(e.sections, f.sections, e.segments[k], f.segments[k]);
    var list := e.segments[k].sections;
    var a := ProperSection(e, k);
    assert e.sections[a].Moved(f.sections[a]);
    EndsInside(f.sections, list, f.segments[k].hdr.offset + Window(e, k));
    MemoryBy(f.sections, f.segments[k], Window(e, k), a);
  }

  /** A segment with sections has one that is not null. */
  lemma ProperSection(e: Elf, k: nat) returns (a: nat)
    requires WellFormed(e) && NoEmptySections(e) && k < |e.segments| && e.segments[k].sections != []
    ensures a in e.segments[k].sections && NonNull(e.sections, a)
  {
    var list := e.segments[k].sections;
    assert SegShape(e.sections, e.segments[k]);
    a := list[|list| - 1];
    assert |list| > 1 ==> list[0] < a;
  }

  lemma EndsInside(secs: seq<SectionState>, list: seq<nat>, end: nat)
    requires EndBy(secs, list, end)
    ensures forall a :: a in list && NonNull(secs, a) ==> secs[a].hdr.offset + secs[a].hdr.size <= end
  {
    forall a | a in list && NonNull(secs, a)
      ensures secs[a].hdr.offset + secs[a].hdr.size <= end
    {
      var j :| 0 <= j < |list| && list[j] == a;
    }
  }

  lemma EmptyWindow(e: Elf, p: nat)
    requires Fitting(e) && p < |e.segments| && e.segments[Order(e.segments)[p]].sections == []
    ensures |LaidOut(e).segments| == |e.segments|
    ensures LaidOut(e).segments[Order(e.segments)[p]].hdr.memsz <= Window(e, Order(e.segments)[p])
  {
    hide LaidOut, Order, StateAt, LayoutFits, Layout.PlaceSegment;
    var k, st := Order(e.segments)[p], StateAt(e, p);
    SegmentsAreLaid(e, p);
    Untouched(e, p);
    Frozen.LayoutMoves(e);
    Frozen.DoneIsFinal(e, p);
    StateStep(e, p);
    TableBounds(e);
    EmptySegment(e.cls, Prepared(e), st, k);
  }

  /** The memory image of a segment lies in its window. */
  lemma InWindow(e: Elf, k: nat)
    requires Retentive(e) && Fitting(e) && k < |e.segments|
    ensures |LaidOut(e).segments| == |e.segments|
    ensures Anchored(LaidOut(e).sections, LaidOut(e).segments[k])
    ensures LaidOut(e).segments[k].hdr.memsz <= Window(e, k)
  {
    hide LaidOut, AfterSegments, StandardHeader, StandardParts, NamesResolve, Order, TopLevel, LayoutFits,
         Anchored, MemoryExact;
    var p := Position(e, k);
    EveryAnchored(e, p);
    assert SegmentReloadable(e, k);
    if e.segments[k].sections == [] {
      EmptyWindow(e, p);
    } else if Alone(e, k) {
      AloneIsTopLevel(e, p);
      AloneWindow(e, p);
    } else {
      LayoutResult(e);
      ListSuits(e, k);
      SegmentsAreExact(e, k);
      var a := ProperSection(e, k);
      FixedWindow(e, LaidOut(e), AfterSegments(e).pos, k, Lead(e, p));
    }
  }

  // ----- no stranger in any window

  /** The sections of a segment lie between its address and the end of its window. */
  lemma InsideWindow(secs0: seq<SectionState>, secs: seq<SectionState>, seg0: SegmentState, seg: SegmentState, w: nat,
      a: nat)
    requires |secs| == |secs0| && forall i :: 0 <= i < |secs| ==> secs0[i].Moved(secs[i])
    requires Resized(seg0, seg) && Loaded(secs0, seg0) && MemoryExact(secs, seg) && Anchored(secs, seg)
    requires seg.hdr.memsz <= w && a in seg0.sections && NonNull(secs0, a)
    ensures seg0.hdr.vaddr <= secs[a].hdr.addr && secs[a].hdr.addr + secs[a].hdr.size <= seg0.hdr.vaddr + w
  {
    LoadedStays(secs0, secs, seg0, seg);
    assert NonNull(secs, a);
  }

  lemma SectionInWindow(e: Elf, m: nat, a: nat)
    requires Retentive(e) && Fitting(e) && m < |e.segments| && a in e.segments[m].sections && NonNull(e.sections, a)
    ensures a < |LaidOut(e).sections| == |e.sections|
    ensures e.segments[m].hdr.vaddr <= LaidOut(e).sections[a].hdr.addr
    ensures LaidOut(e).sections[a].hdr.addr + LaidOut(e).sections[a].hdr.size <= e.segments[m].hdr.vaddr + Window(e, m)
  {
    hide LaidOut, AfterSegments, StandardHeader, StandardParts, NamesResolve, Order, LayoutFits, Anchored,
         MemoryExact, Loaded, Affordable, Window, SegmentReloadable;
    assert SegmentReloadable(e, m);
    ListSuits(e, m);
    InWindow(e, m);
    SegmentsAreExact(e, m);
    Frozen.LayoutMoves(e);
    InsideWindow(e.sections, LaidOut(e).sections, e.segments[m], LaidOut(e).segments[m], Window(e, m), a);
  }

  /** Section b's place in memory and segment k's do not meet. */
  predicate Misses(h: Phdr, s: SectionState) {
    s.hdr.addr < h.vaddr || Wrap(h.vaddr + h.memsz) < Wrap(s.hdr.addr + s.hdr.size)
  }

  lemma OutsideMisses(h: Phdr, s: SectionState, w: nat)
    requires h.memsz <= w && h.vaddr + w < U64
    requires s.hdr.addr < h.vaddr || h.vaddr + w < s.hdr.addr + s.hdr.size < U64
    ensures Misses(h, s)
  {
  }

  /** Where a loose section stands in memory the layout does not change. */
  lemma LooseAddress(e0: Elf, e: Elf, mid: nat, b: nat)
    requires Result(e0, e, mid) && b < |e0.sections| && IsLoose(e0.segments, b)
    ensures e.sections[b].hdr.addr == e0.sections[b].hdr.addr && e.sections[b].hdr.size == e0.sections[b].hdr.size
  {
    assert LooselyPlaced(e0.cls, mid, e.hdr.shoff, e0.sections[b], e.sections[b]);
  }

  /** The finished address of a section outside the window. */
  lemma StrangerStays(e: Elf, k: nat, b: nat)
    requires Retentive(e) && Fitting(e) && k < |e.segments| && b < |e.sections| && Outside(e, k, b)
    requires e.sections[b].hdr.size > 0 && !e.sections[b].IsNull()
    ensures b < |LaidOut(e).sections|
    ensures var h, s := e.segments[k].hdr, LaidOut(e).sections[b];
            s.hdr.addr < h.vaddr || h.vaddr + Window(e, k) < s.hdr.addr + s.hdr.size < U64
  {
    hide LaidOut, AfterSegments, StandardHeader, StandardParts, NamesResolve, Order, LayoutFits, Affordable, Window,
         SegmentReloadable, SegmentsResult, AfterSections;
    LayoutResult(e);
    assert e.cls.Limit() <= U64;
    if m :| 0 <= m < |e.segments| && b in e.segments[m].sections && WindowsApart(e, k, m) {
      SectionInWindow(e, m, b);
      AddressKept(e, LaidOut(e), AfterSegments(e).pos, m, b);
    } else if IsLoose(e.segments, b) {
      LooseAddress(e, LaidOut(e), AfterSegments(e).pos, b);
    } else {
      var m :| 0 <= m < |e.segments| && b in e.segments[m].sections;
      AddressKept(e, LaidOut(e), AfterSegments(e).pos, m, b);
    }
  }

  lemma StrangerMisses(e: Elf, k: nat, b: nat)
    requires Retentive(e) && Fitting(e) && k < |e.segments| && b < |e.sections| && Outside(e, k, b)
    requires e.sections[b].hdr.size > 0 && !e.sections[b].IsNull()
    ensures k < |LaidOut(e).segments| && b < |LaidOut(e).sections|
    ensures Misses(LaidOut(e).segments[k].hdr, LaidOut(e).sections[b])
  {
    hide LaidOut, StandardHeader, StandardParts, NamesResolve, LayoutFits, Affordable, Window, Misses, Outside,
         Alone, Fixed;
    assert SegmentReloadable(e, k);
    InWindow(e, k);
    SegmentsAreExact(e, k);
    StrangerStays(e, k, b);
    OutsideMisses(LaidOut(e).segments[k].hdr, LaidOut(e).sections[b], Window(e, k));
  }

  // ----- the theorem

  lemma NoStrangersIn(e: Elf, k: nat)
    requires Retentive(e) && Fitting(e) && k < |e.segments|
    ensures |LaidOut(e).segments| == |e.segments| && OwnInside(LaidOut(e), k) && NoStrangers(LaidOut(e), k)
  {
    hide LaidOut, StandardHeader, StandardParts, NamesResolve, LayoutFits, Affordable, Outside, Window, Anchored,
         Loaded, MemoryExact, InsideMemory;
    assert SegmentReloadable(e, k);
    ListSuits(e, k);
    InWindow(e, k);
    SegmentsAreExact(e, k);
    Frozen.LayoutMoves(e);
    var f := LaidOut(e);
    LoadedStays(e.sections, f.sections, e.segments[k], f.segments[k]);
    forall a | a in f.segments[k].sections && NonNull(f.sections, a)
      ensures InsideMemory(f.segments[k].hdr, f.sections[a])
    {
      OwnIsInside(f.sections, f.segments[k], a);
    }
    forall b | 0 <= b < |f.sections| && b !in f.segments[k].sections && f.sections[b].IsAlloc()
      ensures Misses(f.segments[k].hdr, f.sections[b])
    {
      assert e.sections[b].Moved(f.sections[b]) && Outside(e, k, b) && b > 0;
      StrangerMisses(e, k, b);
    }
  }

  lemma RetentiveList(e: Elf, k: nat)
    requires Retentive(e) && Saveable(e) && k < |e.segments|
    ensures Faithful(e, LaidOut(e), k)
  {
    hide LaidOut, AfterSegments, StandardHeader, StandardParts, NamesResolve, LayoutFits, Affordable, NoStrangers,
         OwnInside, Saveable, ListKept, Result, Standing, Window, Outside, Alone, Fixed, NoEmptySections,
         Listable;
    AffordableFits(e);
    RetentiveIsListable(e);
    NoStrangersIn(e, k);
    StandingSegment(e, k);
    OwnListFound(e, LaidOut(e), AfterSegments(e).pos, k);
    assert SegmentReloadable(e, k);
  }

  /** Such an object comes back from the file with the same section lists. */
  lemma RetentiveIsRecovered(e: Elf)
    requires Retentive(e)
    ensures Recovered(e)
  {
    hide LaidOut, StandardHeader, StandardParts, NamesResolve, LayoutFits, Affordable, NoStrangers, OwnInside,
         Saveable, Faithful;
    RetentiveIsSaveable(e);
    AffordableFits(e);
    forall k | 0 <= k < |e.segments|
      ensures Faithful(e, LaidOut(e), k)
    {
      RetentiveList(e, k);
    }
  }

  /** And if it is durable, its layout is final. */
  lemma DurableIsReloadable(e: Elf)
    requires Durable(e)
    ensures Reloadable(e)
  {
    hide Retentive, Recovered, OrderKept;
    RetentiveIsRecovered(e);
  }

  /** There is room for one more alignment behind the bound for all segments. */
  predicate Generous(e: Elf)
    requires ElfOk(e)
  {
    forall k :: 0 <= k < |e.segments| ==> Bound(e, |e.segments|) + e.segments[k].hdr.align < e.cls.Limit()
  }

  lemma GenerousIsSpacious(e: Elf)
    requires Affordable(e) && Generous(e)
    ensures Spacious(e)
  {
    hide Composed, StateAt, AfterSegments, Laminar, SegShape, PlaceLooseUpTo, Laid, Bound;
    SegmentsAfford(e, |e.segments|);
    Frozen.AllStates(e);
    assert WithinBudget(e, |e.segments|);
  }

  /** For an object whose lists come back and whose order can be seen in the file, laying out again what was
      read back changes nothing exactly if the order is kept: nothing here asks for the layout to be run. */
  lemma RetentiveIsFinal(e: Elf)
    requires Retentive(e) && Visible(e) && Generous(e) && NullInFront(e)
    ensures |LaidOut(e).hdr.ident| == EI_NIDENT
    ensures var r := LoadFrom(e.conv.host, FileFormat.Image(LaidOut(e)));
            r.Some? && ElfOk(r.value.0) && (LaidOut(r.value.0) == r.value.0 <==> Durable(e))
  {
    hide LaidOut, FileFormat.Image, LoadFrom, OrderKept, OrderAgain, Recovered, Spacious, NullInFront, Visible,
         Affordable, Generous, StandardHeader, StandardParts, NamesResolve, SegmentReloadable;
    AffordableIsOk(e);
    RetentiveIsRecovered(e);
    GenerousIsSpacious(e);
    FixpointExactly(e);
  }

  /** What was read back, r, is the laid-out object f with every section's name and data and every
      segment's sections; its layout does not change any more, and saving it writes the file again. */
  predicate ComesBack(e: Elf, f: Elf, file: seq<Bytes.byte>, r: Option<(Elf, FileImage.Stream)>) {
    && r.Some? && r.value.1.ok
    && r.value.0.sections == ReloadedSections(f) && |r.value.0.segments| == |e.segments|
    && (forall k :: 0 <= k < |e.segments| ==> r.value.0.segments[k].sections == e.segments[k].sections)
    && ElfOk(r.value.0) && LaidOut(r.value.0) == r.value.0
    && |r.value.0.hdr.ident| == EI_NIDENT && FileFormat.Image(r.value.0) == file
  }

  /** A durable object can be saved, loaded, laid out and saved again. */
  lemma DurableSurvives(e: Elf)
    requires Durable(e)
    ensures |LaidOut(e).hdr.ident| == EI_NIDENT
    ensures ComesBack(e, LaidOut(e), FileFormat.Image(LaidOut(e)), LoadFrom(e.conv.host, FileFormat.Image(LaidOut(e))))
  {
    hide LaidOut, LoadFrom, FileFormat.Image, LayoutFits, StandardHeader, StandardParts, NamesResolve, OrderKept,
         SegmentReloadable, AfterSections, NoEmptySections, ListKept, Affordable;
    DurableIsReloadable(e);
    SaveThenLoad(e);
    LayoutIsFixpoint(e);
    SaveIsIdempotent(e);
    var r := LoadFrom(e.conv.host, FileFormat.Image(LaidOut(e)));
    Frozen.LayoutMoves(e);
    forall k | 0 <= k < |e.segments|
      ensures k < |r.value.0.segments| && r.value.0.segments[k].sections == e.segments[k].sections
    {
      assert Faithful(e, LaidOut(e), k);
      KeptListIsRead(e, LaidOut(e), k, FileFormat.Image(LaidOut(e)));
    }
  }

  lemma KeptListIsRead(e: Elf, f: Elf, k: nat, file: seq<Bytes.byte>)
    requires k < |e.segments| && ListKept(e, f, k)
    ensures k < |Reloaded(f, file).segments| && Reloaded(f, file).segments[k].sections == e.segments[k].sections
  {
  }
}
