/** Where a segment stands whose sections all belong to another one too: inside the other in the file,
    except when it has no bytes of its own. */
module Nesting {
  import opened Arith
  import opened ElfTypes
  import opened ElfState
  import opened Layout
  import opened FreshRun
  import opened SegmentPass
  import opened SegmentOrder
  import opened LayoutPass
  import opened LayoutTheorems
  import opened Budget
  import opened Planned
  import Frozen
  import Membership
  import Ordering
  import Overlap
  import Relayout
  import Reload

  /** The file extent of one segment lies inside that of another. */
  predicate Inside(i: Phdr, o: Phdr) {
    o.offset <= i.offset && i.offset + i.filesz <= o.offset + o.filesz
  }

  predicate HasBytes(e: Elf, k: nat)
    requires k < |e.segments|
  {
    exists a :: a in e.segments[k].sections && Occupying(e.sections, a)
  }

  /** All sections of the inner segment belong to the outer one, which is treated earlier. */
  predicate Includes(e: Elf, outer: nat, inner: nat)
    requires outer < |e.segments| && inner < |e.segments|
  {
    && Ordering.Subset(e.segments[inner].sections, e.segments[outer].sections)
    && Position(e, outer) < Position(e, inner)
    && e.segments[inner].sections != []
  }

  /** A segment that strictly includes another one is treated earlier. */
  lemma StrictlyIncludes(e: Elf, outer: nat, inner: nat)
    requires WellFormed(e) && outer < |e.segments| && inner < |e.segments| && e.segments[inner].sections != []
    requires Ordering.IsSubsequenceOf(e.segments[inner].sections, e.segments[outer].sections)
    ensures Includes(e, outer, inner)
  {
    OrderFacts(e.segments);
    var p, q := Position(e, outer), Position(e, inner);
    assert SegShape(e.sections, e.segments[outer]) && SegShape(e.sections, e.segments[inner]);
    assert !(q < p) && p != q;
    Ordering.IncludesIsSubset(e.segments[outer].sections, e.segments[inner].sections);
  }

  /** The inner segment finds its sections generated. */
  lemma InnerIsNested(e: Elf, outer: nat, inner: nat)
    requires ElfOk(e) && outer < |e.segments| && inner < |e.segments| && Includes(e, outer, inner)
    ensures !TopLevel(e, Position(e, inner))
  {
    var order, lists := Order(e.segments), Lists(e.segments);
    var p, q := Position(e, outer), Position(e, inner);
    var first := e.segments[inner].sections[0];
    assert first in e.segments[inner].sections && first in lists[order[p]] && order[..q][p] == order[p];
    assert InSome(lists, order[..q], first);
  }

  // ----- segments with bytes

  /** A segment with bytes that ends with its last section, compared with one that has this section too. */
  lemma EndsInside(secs: seq<SectionState>, outer: SegmentState, inner: SegmentState)
    requires FileExact(secs, outer) && FileExact(secs, inner) && Ordering.Subset(inner.sections, outer.sections)
    requires exists a :: a in inner.sections && Occupying(secs, a)
    ensures inner.hdr.offset + inner.hdr.filesz <= outer.hdr.offset + outer.hdr.filesz
    ensures Ordering.Subset(outer.sections, inner.sections) ==>
              inner.hdr.offset + inner.hdr.filesz == outer.hdr.offset + outer.hdr.filesz
  {
    var last :| last in inner.sections && Occupying(secs, last) &&
                secs[last].End() == inner.hdr.offset + inner.hdr.filesz;
    assert last in outer.sections;
    var end :| end in outer.sections && Occupying(secs, end) &&
               secs[end].End() == outer.hdr.offset + outer.hdr.filesz;
  }

  /** Where an included segment starts: at its first section, or at 0 if that is the null section. */
  lemma InnerStarts(e: Elf, outer: nat, inner: nat)
    requires Fitting(e) && outer < |e.segments| && inner < |e.segments| && Includes(e, outer, inner)
    ensures inner < |LaidOut(e).segments| && |LaidOut(e).sections| == |e.sections|
    ensures LaidOut(e).segments[inner].hdr.offset ==
            if StartsWithNull(e.segments[inner], e.sections) then 0
            else LaidOut(e).sections[e.segments[inner].sections[0]].hdr.offset
  {
    hide LaidOut, AfterSegments, LayoutFits, TopLevel, Laminar, SegShape, Order;
    LayoutResult(e);
    InnerIsNested(e, outer, inner);
    assert SegmentDone(e, Position(e, inner), AfterSegments(e).pos, LaidOut(e).sections, LaidOut(e).segments[inner]);
  }

  lemma BytesMove(e: Elf, f: Elf, k: nat)
    requires k < |e.segments| && HasBytes(e, k) && Frozen.AllMoved(e.sections, f.sections)
    ensures exists a :: a in e.segments[k].sections && Occupying(f.sections, a)
  {
    var a :| a in e.segments[k].sections && Occupying(e.sections, a);
    assert e.sections[a].Moved(f.sections[a]) && Occupying(f.sections, a);
  }

  /** A segment that begins with a null section starts at offset 0. */
  lemma NullStart(e: Elf, k: nat)
    requires Fitting(e) && k < |e.segments| && StartsWithNull(e.segments[k], e.sections)
    ensures k < |LaidOut(e).segments| && LaidOut(e).segments[k].hdr.offset == 0
  {
    hide LaidOut, AfterSegments, Order, TopLevel, LayoutFits, SectionsResult;
    Frozen.LayoutMoves(e);
    var p := Membership.SegmentFacts(e, k);
  }

  /** A segment with bytes ends inside every earlier one that has its sections, and with it if they have
      the same ones. */
  lemma EndsInEarlier(e: Elf, outer: nat, inner: nat)
    requires Fitting(e) && outer < |e.segments| && inner < |e.segments|
    requires Includes(e, outer, inner) && HasBytes(e, inner)
    ensures |LaidOut(e).segments| == |e.segments|
    ensures var f := LaidOut(e);
            var i, o := f.segments[inner].hdr, f.segments[outer].hdr;
            && i.offset + i.filesz <= o.offset + o.filesz
            && (e.segments[inner].sections == e.segments[outer].sections ==>
                  i.offset + i.filesz == o.offset + o.filesz)
  {
    hide LaidOut, LayoutFits, Laminar, Order, FileExact, MemoryExact, Ascending, AfterSections, AfterSegments,
         Includes, HasBytes;
    var f := LaidOut(e);
    Frozen.LayoutMoves(e);
    BytesMove(e, f, inner);
    SegmentsAreExact(e, inner);
    SegmentsAreExact(e, outer);
    IncludedIsSubset(e, outer, inner);
    EndsInside(f.sections, f.segments[outer], f.segments[inner]);
  }

  /** A segment with bytes whose sections belong to an earlier one lies inside it in the file: unless it
      alone begins with a null section, and so at offset 0. */
  lemma InsideEarlier(e: Elf, outer: nat, inner: nat)
    requires Fitting(e) && outer < |e.segments| && inner < |e.segments| && e.hdr.ehsize > 0
    requires Includes(e, outer, inner) && HasBytes(e, inner)
    ensures |LaidOut(e).segments| == |e.segments|
    ensures Inside(LaidOut(e).segments[inner].hdr, LaidOut(e).segments[outer].hdr) <==>
            (StartsWithNull(e.segments[inner], e.sections) ==> StartsWithNull(e.segments[outer], e.sections))
  {
    hide LaidOut, LayoutFits, Laminar, Order, AfterSections, AfterSegments, Includes, HasBytes;
    EndsInEarlier(e, outer, inner);
    Reload.ZeroOffset(e, inner);
    Reload.ZeroOffset(e, outer);
    if !StartsWithNull(e.segments[inner], e.sections) {
      StartsInside(e, outer, inner);
    }
  }

  lemma IncludedIsSubset(e: Elf, outer: nat, inner: nat)
    requires outer < |e.segments| && inner < |e.segments| && Includes(e, outer, inner)
    ensures Ordering.Subset(e.segments[inner].sections, e.segments[outer].sections)
  {
  }

  lemma StartsInside(e: Elf, outer: nat, inner: nat)
    requires Fitting(e) && outer < |e.segments| && inner < |e.segments|
    requires Includes(e, outer, inner) && HasBytes(e, inner) && !StartsWithNull(e.segments[inner], e.sections)
    ensures |LaidOut(e).segments| == |e.segments| && |LaidOut(e).sections| == |e.sections|
    ensures LaidOut(e).segments[outer].hdr.offset <= LaidOut(e).segments[inner].hdr.offset
    ensures LaidOut(e).segments[inner].hdr.offset == LaidOut(e).sections[e.segments[inner].sections[0]].hdr.offset
  {
    hide LaidOut, LayoutFits, Laminar, Order, MemoryExact, Ascending, AfterSections, AfterSegments, TopLevel;
    Frozen.LayoutMoves(e);
    InnerStarts(e, outer, inner);
    SegmentsAreExact(e, outer);
    FirstHasBytes(e, inner);
    var first := e.segments[inner].sections[0];
    assert e.sections[first].Moved(LaidOut(e).sections[first]);
    assert first in e.segments[outer].sections;
  }

  lemma FirstHasBytes(e: Elf, k: nat)
    requires WellFormed(e) && k < |e.segments| && HasBytes(e, k) && !StartsWithNull(e.segments[k], e.sections)
    ensures e.segments[k].sections != [] && Occupying(e.sections, e.segments[k].sections[0])
    ensures e.segments[k].sections[0] in e.segments[k].sections
  {
    var list := e.segments[k].sections;
    assert SegShape(e.sections, e.segments[k]);
    var a :| a in list && Occupying(e.sections, a);
    var j :| 0 <= j < |list| && list[j] == a;
  }

  /** The extent of a segment strictly included in another lies inside the other's, if it has bytes and
      begins with section 0 when it begins with a null section. */
  lemma NestedInsideParent(e: Elf, inner: nat, outer: nat)
    requires Fitting(e) && inner < |e.segments| && outer < |e.segments|
    requires Ordering.IsSubsequenceOf(e.segments[inner].sections, e.segments[outer].sections)
    requires HasBytes(e, inner)
    requires StartsWithNull(e.segments[inner], e.sections) ==> e.segments[inner].sections[0] == 0
    ensures |LaidOut(e).segments| == |e.segments|
    ensures Inside(LaidOut(e).segments[inner].hdr, LaidOut(e).segments[outer].hdr)
  {
    hide LaidOut, LayoutFits, Laminar, Order, AfterSections, AfterSegments, Includes;
    var a :| a in e.segments[inner].sections && Occupying(e.sections, a);
    StrictlyIncludes(e, outer, inner);
    EndsInEarlier(e, outer, inner);
    if StartsWithNull(e.segments[inner], e.sections) {
      ZeroIncluded(e, outer, inner);
      NullStart(e, inner);
      NullStart(e, outer);
    } else {
      StartsInside(e, outer, inner);
    }
  }

  lemma ZeroIncluded(e: Elf, outer: nat, inner: nat)
    requires WellFormed(e) && inner < |e.segments| && outer < |e.segments| && Includes(e, outer, inner)
    requires StartsWithNull(e.segments[inner], e.sections) && e.segments[inner].sections[0] == 0
    ensures StartsWithNull(e.segments[outer], e.sections)
  {
    assert 0 in e.segments[inner].sections;
    var list := e.segments[outer].sections;
    assert SegShape(e.sections, e.segments[outer]);
    var j :| 0 <= j < |list| && list[j] == 0;
  }

  /** Two segments with the same sections: the later one has the same extent exactly if the earlier one
      starts at its first section or at 0. */
  lemma SameSections(e: Elf, outer: nat, inner: nat)
    requires Fitting(e) && outer < |e.segments| && inner < |e.segments|
    requires Includes(e, outer, inner) && HasBytes(e, inner) && e.segments[inner].sections == e.segments[outer].sections
    ensures |LaidOut(e).segments| == |e.segments| && |LaidOut(e).sections| == |e.sections|
    ensures var f := LaidOut(e);
            var i, o := f.segments[inner].hdr, f.segments[outer].hdr;
            Inside(i, o) &&
            (i.offset == o.offset && i.filesz == o.filesz <==>
               StartsWithNull(e.segments[inner], e.sections) ||
               o.offset == f.sections[e.segments[inner].sections[0]].hdr.offset)
  {
    hide LaidOut, LayoutFits, Laminar, Order, AfterSections, AfterSegments, Includes, HasBytes;
    Frozen.LayoutMoves(e);
    EndsInEarlier(e, outer, inner);
    if StartsWithNull(e.segments[inner], e.sections) {
      NullStart(e, inner);
      NullStart(e, outer);
    } else {
      StartsInside(e, outer, inner);
    }
  }

  // ----- segments without bytes

  /** A walk over sections without bytes does not change the file size. */
  lemma {:induction false} WalkWithoutBytes(cls: ElfClass, f: Frame, c: Cursor, list: seq<nat>)
    requires |c.gen| == |c.secs| && Within(list, |c.secs|)
    requires forall j :: 0 <= j < |list| ==> !c.secs[list[j]].Occupies()
    ensures PlaceAll(cls, f, c, list).filesz == c.filesz
  {
    if list != [] {
      WalkWithoutBytes(cls, f, c, list[..|list| - 1]);
      Frozen.WalkMoves(cls, f, c, list[..|list| - 1]);
      assert c.secs[list[|list| - 1]].Moved(PlaceAll(cls, f, c, list[..|list| - 1]).secs[list[|list| - 1]]);
    }
  }

  /** A nested segment without bytes has file size 0; but one that begins with a null section, and so at
      offset 0, reaches to where the cursor is when its turn comes. */
  lemma SizeWithoutBytes(e: Elf, k: nat)
    requires Fitting(e) && k < |e.segments| && !HasBytes(e, k) && e.segments[k].sections != []
    requires !TopLevel(e, Position(e, k))
    ensures k < |LaidOut(e).segments|
    ensures LaidOut(e).segments[k].hdr.filesz ==
            if StartsWithNull(e.segments[k], e.sections) then StateAt(e, Position(e, k)).pos else 0
  {
    hide LaidOut, LayoutFits, Laminar, Order, AfterSections, AfterSegments, TopLevel, StateAt, PlaceAll;
    var p := Position(e, k);
    var st := StateAt(e, p);
    SegmentsAreLaid(e, p);
    assert st.segs[k] == e.segments[k];
    TypesKept(e, p, st);
    NestedStands(e, p, st);
    var list := e.segments[k].sections;
    assert st.gen[list[0]];
    forall j | 0 <= j < |list|
      ensures !st.secs[list[j]].Occupies()
    {
      assert list[j] in list && !Occupying(e.sections, list[j]) && e.sections[list[j]].Moved(st.secs[list[j]]);
    }
    var (f, c) := Open(Prepared(e), st, st.segs[k]);
    WalkWithoutBytes(e.cls, f, c, list);
    StateStep(e, p);
    StoredFields(e.cls, Prepared(e), st, k);
    Frozen.DoneIsFinal(e, p);
    Frozen.LayoutMoves(e);
  }

  /** A segment that holds nothing but a NOBITS section stands at that section, and so inside a segment
      around it that has bytes exactly if no padding stands before the section. */
  lemma OnlyNobits(e: Elf, outer: nat, inner: nat, t: nat)
    requires Fitting(e) && outer < |e.segments| && inner < |e.segments| && Includes(e, outer, inner)
    requires e.segments[inner].sections == [t] && e.sections[t].IsNobits() && HasBytes(e, outer)
    ensures |LaidOut(e).segments| == |e.segments| && |LaidOut(e).sections| == |e.sections|
    ensures var f := LaidOut(e);
            Inside(f.segments[inner].hdr, f.segments[outer].hdr) <==>
            f.sections[t].hdr.offset == f.segments[outer].hdr.offset + f.segments[outer].hdr.filesz
  {
    hide LaidOut, LayoutFits, Laminar, Order, AfterSections, AfterSegments, TopLevel, MemoryExact, StateAt;
    var f := LaidOut(e);
    Frozen.LayoutMoves(e);
    InnerStarts(e, outer, inner);
    InnerIsNested(e, outer, inner);
    SizeWithoutBytes(e, inner);
    SegmentsAreExact(e, outer);
    BytesMove(e, f, outer);
    BehindBytes(e, f, outer, t);
  }

  /** The last section of a segment, if it is NOBITS, stands behind the segment's bytes. */
  lemma BehindBytes(e: Elf, f: Elf, k: nat, t: nat)
    requires WellFormed(e) && k < |e.segments| && |f.segments| == |e.segments| &&
               Frozen.AllMoved(e.sections, f.sections)
    requires t in e.segments[k].sections && t < |e.sections| && e.sections[t].IsNobits()
    requires f.segments[k].sections == e.segments[k].sections && FileExact(f.sections, f.segments[k])
    requires Ascending(f.sections, Elems(e.segments[k].sections))
    requires exists a :: a in e.segments[k].sections && Occupying(f.sections, a)
    ensures f.segments[k].hdr.offset <= f.segments[k].hdr.offset + f.segments[k].hdr.filesz <= f.sections[t].hdr.offset
  {
    var list := e.segments[k].sections;
    assert SegShape(e.sections, e.segments[k]);
    var last :| last in list && Occupying(f.sections, last) &&
                f.sections[last].End() == f.segments[k].hdr.offset + f.segments[k].hdr.filesz;
    assert e.sections[last].Moved(f.sections[last]) && e.sections[t].Moved(f.sections[t]);
    var i :| 0 <= i < |list| && list[i] == last;
    var j :| 0 <= j < |list| && list[j] == t;
    assert j == |list| - 1 && i < j;
    assert last in Elems(list) && t in Elems(list) && NonNull(f.sections, last) && NonNull(f.sections, t);
  }

  /** The same as a condition on the object, when the outer segment places its sections and their
      alignments divide its own: its bytes must end at an address aligned for the NOBITS section. */
  lemma OnlyNobitsPlanned(e: Elf, outer: nat, inner: nat, t: nat)
    requires Fitting(e) && outer < |e.segments| && inner < |e.segments| && Includes(e, outer, inner)
    requires e.segments[inner].sections == [t] && e.sections[t].IsNobits() && !e.sections[t].addressSet
    requires TopLevel(e, Position(e, outer)) && |e.segments[outer].sections| > 1
    requires forall j :: 0 <= j < |e.segments[outer].sections| ==> !e.sections[e.segments[outer].sections[j]].IsNull()
    requires Dividing(e.sections, e.segments[outer].sections, e.segments[outer].hdr.align)
    ensures |LaidOut(e).segments| == |e.segments| && |LaidOut(e).sections| == |e.sections|
    ensures var list := e.segments[outer].sections;
            var end := EndAddress(e.sections, list[..|list| - 1], e.segments[outer].hdr.vaddr);
            Inside(LaidOut(e).segments[inner].hdr, LaidOut(e).segments[outer].hdr) <==>
            e.sections[t].hdr.addrAlign == 0 || end % e.sections[t].hdr.addrAlign == 0
  {
    hide LaidOut, LayoutFits, Laminar, Order, AfterSections, AfterSegments, TopLevel, MemoryExact, Includes,
         EndAddress, Planned.Planned, Dividing, Inside, SegShape, HasBytes, Position, FileExact, Ascending;
    NobitsIsLast(e, outer, inner, t);
    OnlyNobits(e, outer, inner, t);
    PlannedEnds(e, outer, t);
    PlanEnds(e.sections, e.segments[outer].sections, e.segments[outer].hdr.vaddr);
  }

  /** Where the bytes of a segment with a NOBITS section behind them end, and where that section goes. */
  lemma PlannedEnds(e: Elf, k: nat, t: nat)
    requires Fitting(e) && k < |e.segments| && TopLevel(e, Position(e, k))
    requires var list := e.segments[k].sections;
             |list| > 1 && list[|list| - 1] == t && e.sections[t].IsNobits() && Occupying(e.sections, list[|list| - 2])
    requires !StartsWithNull(e.segments[k], e.sections)
    requires Dividing(e.sections, e.segments[k].sections, e.segments[k].hdr.align)
    ensures |LaidOut(e).segments| == |e.segments| && |LaidOut(e).sections| == |e.sections|
    ensures var f, list, vaddr := LaidOut(e), e.segments[k].sections, e.segments[k].hdr.vaddr;
            && f.sections[t].hdr.offset - f.segments[k].hdr.offset + vaddr ==
                 Planned.Planned(e.sections, list, |list| - 1, vaddr)
            && f.segments[k].hdr.filesz + vaddr ==
                 Planned.Planned(e.sections, list, |list| - 2, vaddr) + e.sections[list[|list| - 2]].hdr.size
  {
    hide LaidOut, LayoutFits, Laminar, Order, AfterSections, AfterSegments, TopLevel, MemoryExact, Planned.Planned,
         Dividing, SegShape, Position, StartsWithNull;
    var list := e.segments[k].sections;
    AddressesArePlanned(e, Position(e, k), |list| - 1);
    AddressesArePlanned(e, Position(e, k), |list| - 2);
    SegmentsAreExact(e, k);
    Frozen.LayoutMoves(e);
    EndsWithLast(e, LaidOut(e), k, t);
    assert e.sections[list[|list| - 2]].Moved(LaidOut(e).sections[list[|list| - 2]]);
  }

  /** Where the plan puts a last section without bytes, compared with the end of the one before it. */
  lemma PlanEnds(secs: seq<SectionState>, list: seq<nat>, vaddr: nat)
    requires Within(list, |secs|) && |list| > 1 && secs[list[|list| - 2]].Occupies() &&
               !HasOwnPlace(secs[list[|list| - 1]])
    ensures var n, align := |list| - 1, secs[list[|list| - 1]].hdr.addrAlign;
            var end := EndAddress(secs, list[..n], vaddr);
            && end == Planned.Planned(secs, list, n - 1, vaddr) + secs[list[n - 1]].hdr.size
            && (Planned.Planned(secs, list, n, vaddr) == end <==> align == 0 || end % align == 0)
  {
    var n := |list| - 1;
    var init := list[..n];
    assert init[..n - 1] == list[..n - 1];
    PadIsZero(EndAddress(secs, init, vaddr), secs[list[n]].hdr.addrAlign);
  }

  lemma PadIsZero(pos: nat, align: nat)
    ensures Pad(pos, align) == 0 <==> align == 0 || pos % align == 0
  {
    if align > 0 {
      if pos % align == 0 {
        assert align == 0 + 1 * align;
        ModShift(0, 1, align);
        ModOfSmall(0, align);
      } else {
        ModOfSmall(align - pos % align, align);
      }
    }
  }

  lemma NobitsIsLast(e: Elf, outer: nat, inner: nat, t: nat)
    requires WellFormed(e) && outer < |e.segments| && inner < |e.segments| && Includes(e, outer, inner)
    requires e.segments[inner].sections == [t] && e.sections[t].IsNobits() && |e.segments[outer].sections| > 1
    requires forall j :: 0 <= j < |e.segments[outer].sections| ==> !e.sections[e.segments[outer].sections[j]].IsNull()
    ensures var list := e.segments[outer].sections;
            && list[|list| - 1] == t && HasBytes(e, outer) && Occupying(e.sections, list[|list| - 2])
  {
    var list := e.segments[outer].sections;
    assert SegShape(e.sections, e.segments[outer]);
    assert t in e.segments[inner].sections && t in list;
    var j :| 0 <= j < |list| && list[j] == t;
    assert list[|list| - 2] in list && Occupying(e.sections, list[|list| - 2]);
  }

  /** The bytes of a segment with a NOBITS section behind them end with the section before that. */
  lemma EndsWithLast(e: Elf, f: Elf, k: nat, t: nat)
    requires WellFormed(e) && k < |e.segments| && |f.segments| == |e.segments| &&
               Frozen.AllMoved(e.sections, f.sections)
    requires var list := e.segments[k].sections;
             |list| > 1 && list[|list| - 1] == t && e.sections[t].IsNobits() && Occupying(e.sections, list[|list| - 2])
    requires f.segments[k].sections == e.segments[k].sections && FileExact(f.sections, f.segments[k])
    requires Ascending(f.sections, Elems(e.segments[k].sections))
    ensures var list := e.segments[k].sections;
            f.segments[k].hdr.offset + f.segments[k].hdr.filesz == f.sections[list[|list| - 2]].End()
  {
    hide Laminar;
    var list := e.segments[k].sections;
    var u := list[|list| - 2];
    assert SegShape(e.sections, e.segments[k]);
    assert u in list && e.sections[u].Moved(f.sections[u]) && Occupying(f.sections, u);
    var last :| last in list && Occupying(f.sections, last) &&
                f.sections[last].End() == f.segments[k].hdr.offset + f.segments[k].hdr.filesz;
    assert e.sections[last].Moved(f.sections[last]);
    var i :| 0 <= i < |list| && list[i] == last;
    assert last in Elems(list) && u in Elems(list) && NonNull(f.sections, last) && NonNull(f.sections, u);
  }

  /** Both segments begin with the null section and the inner one has no bytes: it reaches to where the cursor
      is when its turn comes. */
  lemma NullByCursor(e: Elf, outer: nat, inner: nat)
    requires Fitting(e) && outer < |e.segments| && inner < |e.segments| && Includes(e, outer, inner)
    requires StartsWithNull(e.segments[inner], e.sections) && StartsWithNull(e.segments[outer], e.sections)
    requires !HasBytes(e, inner)
    ensures |LaidOut(e).segments| == |e.segments|
    ensures LaidOut(e).segments[outer].hdr.offset == 0
    ensures Inside(LaidOut(e).segments[inner].hdr, LaidOut(e).segments[outer].hdr) <==>
            StateAt(e, Position(e, inner)).pos <= LaidOut(e).segments[outer].hdr.filesz
  {
    hide LaidOut, LayoutFits, Laminar, Order, AfterSections, AfterSegments, TopLevel, StateAt;
    Frozen.LayoutMoves(e);
    InnerIsNested(e, outer, inner);
    SizeWithoutBytes(e, inner);
    NullStart(e, inner);
    NullStart(e, outer);
  }

  // ----- what moves the cursor between two turns

  /** No segment between the two positions of the order places sections. */
  predicate NothingBetween(e: Elf, n: nat, p: nat) {
    forall q {:trigger PlacerAt(e, q)} :: n < q < p ==> !PlacerAt(e, q)
  }

  /** Every segment between them that does has bytes. */
  predicate BytesBetween(e: Elf, n: nat, p: nat)
    requires p <= |e.segments|
  {
    forall q {:trigger PlacerAt(e, q)} :: n < q < p && PlacerAt(e, q) ==>
      exists a :: 0 <= a < |e.sections| && Reload.OwnsBytes(e, Order(e.segments)[q], a)
  }

  lemma RestsBetween(e: Elf, n: nat, p: nat)
    requires Fitting(e) && n < p <= |e.segments| && NothingBetween(e, n, p)
    ensures StateAt(e, p).pos == StateAt(e, n + 1).pos
  {
    hide Order, Laminar, LayoutFits, StateAt, PlacerAt;
    forall m | n + 1 <= m < p
      ensures !Relayout.Placer(e, Order(e.segments)[m])
    {
      PositionIs(e, m);
      assert !PlacerAt(e, m);
    }
    Relayout.CursorRests(e, n + 1, p);
  }

  /** A segment that places bytes moves the cursor. */
  lemma BytesMoveCursor(e: Elf, q: nat, a: nat)
    requires Fitting(e) && PlacerAt(e, q) && Reload.OwnsBytes(e, Order(e.segments)[q], a)
    ensures StateAt(e, q).pos < StateAt(e, q + 1).pos
  {
    hide Order, Laminar, LayoutFits, StateAt, LaidOut, TopLevel;
    Reload.LaterStarts(e, q, a);
    Reload.EarlierEnds(e, q, q + 1, a);
    Frozen.LayoutMoves(e);
    assert e.sections[a].Moved(LaidOut(e).sections[a]);
  }

  lemma RestsExactly(e: Elf, n: nat, p: nat)
    requires Fitting(e) && n < p <= |e.segments| && BytesBetween(e, n, p)
    ensures StateAt(e, n + 1).pos <= StateAt(e, p).pos
    ensures StateAt(e, p).pos == StateAt(e, n + 1).pos <==> NothingBetween(e, n, p)
  {
    hide Order, Fitting, StateAt, PlacerAt, Reload.OwnsBytes, ElfOk;
    CursorGrows(e, n + 1, p);
    if NothingBetween(e, n, p) {
      RestsBetween(e, n, p);
    } else {
      var q: nat :| n < q < p && PlacerAt(e, q);
      var a :| 0 <= a < |e.sections| && Reload.OwnsBytes(e, Order(e.segments)[q], a);
      CursorGrows(e, n + 1, q);
      BytesMoveCursor(e, q, a);
      CursorGrows(e, q + 1, p);
    }
  }

  /** A walk leaves the cursor at the end of its last section. */
  lemma WalkEndsAtLast(cls: ElfClass, f: Frame, c: Cursor, list: seq<nat>)
    requires |c.gen| == |c.secs| && Within(list, |c.secs|) && Ordering.Sorted(list) && list != []
    requires Indexed(c.secs) && NobitsLast(c.secs, list) && NoneGenerated(c, list)
    requires f.start <= c.pos < cls.Limit() && c.filesz == c.memsz == c.pos - f.start && RunFits(cls, f, c, list)
    requires !c.secs[list[|list| - 1]].IsNull()
    ensures PlaceAll(cls, f, c, list).pos == PlaceAll(cls, f, c, list).secs[list[|list| - 1]].End()
  {
    hide PlaceOne, Fits;
    var init, i := list[..|list| - 1], list[|list| - 1];
    LastOf(c, list);
    WalkAll(cls, f, c, init);
    SameTypes(cls, f, c, PlaceAll(cls, f, c, init), Elems(init));
    Frozen.WalkTouches(cls, f, c, init, i);
    PlacedFacts(cls, f, PlaceAll(cls, f, c, init), c.pos, i);
  }

  lemma NobitsEnds(e: Elf, k: nat, t: nat)
    requires WellFormed(e) && k < |e.segments| && t in e.segments[k].sections && t < |e.sections|
    requires e.sections[t].IsNobits()
    ensures var list := e.segments[k].sections; list != [] && list[|list| - 1] == t
  {
    assert SegShape(e.sections, e.segments[k]);
    var list := e.segments[k].sections;
    var j :| 0 <= j < |list| && list[j] == t;
  }

  /** The walk of the segment at position n, which places its sections. */
  lemma PlacerWalk(e: Elf, n: nat) returns (f: Frame, c: Cursor)
    requires Fitting(e) && PlacerAt(e, n)
    ensures var k, st := Order(e.segments)[n], StateAt(e, n);
            var list := e.segments[k].sections;
            && (f, c) == Open(Prepared(e), st, st.segs[k]) && st.segs[k] == e.segments[k]
            && c.secs == st.secs && c.gen == st.gen && |st.secs| == |e.sections| && Within(list, |c.secs|)
            && Ordering.Sorted(list) && Indexed(c.secs) && NobitsLast(c.secs, list) && NoneGenerated(c, list)
            && f.start <= c.pos < e.cls.Limit() && c.filesz == c.memsz == c.pos - f.start && RunFits(e.cls, f, c, list)
            && (forall j :: 0 <= j < |list| ==> c.secs[list[j]] == e.sections[list[j]])
            && StateAt(e, n + 1).pos == PlaceAll(e.cls, f, c, list).pos
            && StateAt(e, n + 1).secs == PlaceAll(e.cls, f, c, list).secs
  {
    hide Order, Laminar, StateAt, TopLevel, Open, PlaceAll;
    var k, st := Order(e.segments)[n], StateAt(e, n);
    SegmentsAreLaid(e, n);
    ReadyParts(e, n, st);
    assert FitsAt(e, n);
    OpenFresh(e.cls, Prepared(e), st, k);
    StateStep(e, n);
    var r := Open(Prepared(e), st, st.segs[k]);
    f, c := r.0, r.1;
  }

  /** Behind the turn of the segment that places it the cursor is at a NOBITS section. */
  lemma CursorAtNobits(e: Elf, n: nat, t: nat)
    requires Fitting(e) && PlacerAt(e, n) && t in e.segments[Order(e.segments)[n]].sections
    requires t < |e.sections| && e.sections[t].IsNobits()
    ensures |LaidOut(e).sections| == |e.sections|
    ensures StateAt(e, n + 1).pos == LaidOut(e).sections[t].hdr.offset
  {
    hide Order, Laminar, LayoutFits, StateAt, TopLevel, Open, PlaceAll, LaidOut, RunFits;
    var k := Order(e.segments)[n];
    var list := e.segments[k].sections;
    NobitsEnds(e, k, t);
    var f, c := PlacerWalk(e, n);
    WalkEndsAtLast(e.cls, f, c, list);
    Relayout.TurnIsFinal(e, n, |list| - 1);
    Frozen.LayoutMoves(e);
    assert e.sections[t].Moved(LaidOut(e).sections[t]);
  }

  lemma OwnerIsEarlier(e: Elf, n: nat, k: nat, t: nat)
    requires PlacerAt(e, n) && k < |e.segments| && !TopLevel(e, Position(e, k))
    requires t in e.segments[Order(e.segments)[n]].sections && t in e.segments[k].sections
    ensures n < Position(e, k)
  {
    if Position(e, k) < n {
      EarlierHas(e, Position(e, k), n, t);
    }
  }

  lemma EarlierHas(e: Elf, p: nat, n: nat, t: nat)
    requires p < n <= |e.segments| && t in e.segments[Order(e.segments)[p]].sections
    ensures InSome(Lists(e.segments), Order(e.segments)[..n], t)
  {
    assert Order(e.segments)[..n][p] == Order(e.segments)[p];
  }

  /** Both segments begin with the null section, and the inner one has a NOBITS section but no bytes. It is
      inside exactly if no padding stands before that section and nothing is placed between the turn that
      places it, at n, and the inner segment's. */
  lemma NullWithoutBytes(e: Elf, outer: nat, inner: nat, t: nat, n: nat)
    requires Fitting(e) && outer < |e.segments| && inner < |e.segments| && Includes(e, outer, inner)
    requires StartsWithNull(e.segments[inner], e.sections) && StartsWithNull(e.segments[outer], e.sections)
    requires !HasBytes(e, inner) && HasBytes(e, outer)
    requires t in e.segments[inner].sections && t < |e.sections| && e.sections[t].IsNobits()
    requires PlacerAt(e, n) && t in e.segments[Order(e.segments)[n]].sections
    requires BytesBetween(e, n, Position(e, inner))
    ensures |LaidOut(e).segments| == |e.segments| && |LaidOut(e).sections| == |e.sections|
    ensures var f := LaidOut(e);
            Inside(f.segments[inner].hdr, f.segments[outer].hdr) <==>
            f.sections[t].hdr.offset == f.segments[outer].hdr.filesz && NothingBetween(e, n, Position(e, inner))
  {
    hide LaidOut, LayoutFits, Laminar, Order, AfterSections, AfterSegments, TopLevel, StateAt, PlacerAt, NothingBetween,
         BytesBetween, MemoryExact, StartsWithNull, Inside, Position, SegShape;
    var f, p := LaidOut(e), Position(e, inner);
    NullByCursor(e, outer, inner);
    InnerIsNested(e, outer, inner);
    OwnerIsEarlier(e, n, inner, t);
    CursorAtNobits(e, n, t);
    RestsExactly(e, n, p);
    SegmentsAreExact(e, outer);
    Frozen.LayoutMoves(e);
    BytesMove(e, f, outer);
    BehindBytes(e, f, outer, t);
  }

  /** A NOBITS section of a segment that begins with the null section and places it. */
  lemma NobitsBehind(e: Elf, k: nat, t: nat)
    requires Fitting(e) && k < |e.segments| && TopLevel(e, Position(e, k)) && StartsWithNull(e.segments[k], e.sections)
    requires t in e.segments[k].sections && t < |e.sections| && e.sections[t].IsNobits()
    ensures |LaidOut(e).segments| == |e.segments| && |LaidOut(e).sections| == |e.sections|
    ensures var size := LaidOut(e).segments[k].hdr.filesz;
            LaidOut(e).sections[t].hdr.offset == size + Pad(size, e.sections[t].hdr.addrAlign)
  {
    hide Order, Laminar, LayoutFits, StateAt, TopLevel, PlaceAll, LaidOut, RunFits, Pad, Layout.PlaceSegment;
    var n := Position(e, k);
    var list := e.segments[k].sections;
    var st := StateAt(e, n);
    NobitsEnds(e, k, t);
    var f, c := PlacerWalk(e, n);
    Overlap.SameFirst(e.segments[k], e.sections, st.secs);
    NobitsTurn(e.cls, f, c, list);
    Relayout.TurnIsFinal(e, n, |list| - 1);
    Frozen.LayoutMoves(e);
    Frozen.DoneIsFinal(e, n);
    StateStep(e, n);
    StoredFields(e.cls, Prepared(e), st, k);
  }

  lemma NobitsTurn(cls: ElfClass, f: Frame, c: Cursor, list: seq<nat>)
    requires |c.gen| == |c.secs| && Within(list, |c.secs|) && Ordering.Sorted(list) && list != []
    requires Indexed(c.secs) && NobitsLast(c.secs, list) && NoneGenerated(c, list)
    requires f.start <= c.pos < cls.Limit() && c.filesz == c.memsz == c.pos - f.start && RunFits(cls, f, c, list)
    requires c.secs[list[|list| - 1]].IsNobits()
    ensures var r, t := PlaceAll(cls, f, c, list), list[|list| - 1];
            && f.start + r.filesz < cls.Limit()
            && r.secs[t].hdr.offset == f.start + r.filesz + Pad(f.start + r.filesz, c.secs[t].hdr.addrAlign)
  {
    hide Fits, PlaceOne, Pad, NobitsLast, NoneGenerated;
    var init, i := list[..|list| - 1], list[|list| - 1];
    BytesOnly(cls, f, c, list);
    Frozen.WalkTouches(cls, f, c, init, i);
    NobitsOne(cls, f, PlaceAll(cls, f, c, init), i);
  }

  /** Before the last section all have bytes, and the cursor is where they end. */
  lemma BytesOnly(cls: ElfClass, f: Frame, c: Cursor, list: seq<nat>)
    requires |c.gen| == |c.secs| && Within(list, |c.secs|) && Ordering.Sorted(list) && list != []
    requires Indexed(c.secs) && NobitsLast(c.secs, list) && NoneGenerated(c, list)
    requires f.start <= c.pos < cls.Limit() && c.filesz == c.memsz == c.pos - f.start && RunFits(cls, f, c, list)
    requires c.secs[list[|list| - 1]].IsNobits()
    ensures var d, i := PlaceAll(cls, f, c, list[..|list| - 1]), list[|list| - 1];
            && d.pos == f.start + d.filesz && f.start <= d.pos < cls.Limit() && Indexed(d.secs)
            && i !in list[..|list| - 1] && !c.gen[i] && Fits(cls, f, d, i)
  {
    hide Fits, PlaceAll, MemoryImage, Placed, Ascending, EndsAt;
    var init := list[..|list| - 1];
    LastOf(c, list);
    WalkAll(cls, f, c, init);
    SameTypes(cls, f, c, PlaceAll(cls, f, c, init), Elems(init));
  }

  lemma NobitsOne(cls: ElfClass, f: Frame, d: Cursor, i: nat)
    requires d.Has(i) && Indexed(d.secs) && d.secs[i].IsNobits() && !d.gen[i]
    requires f.start <= d.pos < cls.Limit() && Fits(cls, f, d, i)
    ensures var r := PlaceOne(cls, f, d, i);
            r.filesz == d.filesz && r.secs[i].hdr.offset == d.pos + Pad(d.pos, d.secs[i].hdr.addrAlign)
  {
    hide Fits, Pad;
    PlacedFacts(cls, f, d, d.pos, i);
  }

  /** If the outer segment places its sections and the NOBITS section is not aligned, that is a condition on
      the object: no segment is placed between the two turns. */
  lemma NullWithoutBytesPlanned(e: Elf, outer: nat, inner: nat, t: nat)
    requires Fitting(e) && outer < |e.segments| && inner < |e.segments| && Includes(e, outer, inner)
    requires StartsWithNull(e.segments[inner], e.sections) && StartsWithNull(e.segments[outer], e.sections)
    requires !HasBytes(e, inner) && HasBytes(e, outer) && TopLevel(e, Position(e, outer))
    requires t in e.segments[inner].sections && t < |e.sections| && e.sections[t].IsNobits()
    requires e.sections[t].hdr.addrAlign <= 1 && BytesBetween(e, Position(e, outer), Position(e, inner))
    ensures |LaidOut(e).segments| == |e.segments|
    ensures Inside(LaidOut(e).segments[inner].hdr, LaidOut(e).segments[outer].hdr) <==>
            NothingBetween(e, Position(e, outer), Position(e, inner))
  {
    hide LaidOut, LayoutFits, Laminar, Order, TopLevel, NothingBetween, BytesBetween, StartsWithNull, Inside, Position,
         SegShape, HasBytes;
    assert t in e.segments[outer].sections;
    NobitsBehind(e, outer, t);
    NullWithoutBytes(e, outer, inner, t, Position(e, outer));
  }
}
