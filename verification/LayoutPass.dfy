/** The invariant of the segment loop of the layout, from the first segment to the last. */
module LayoutPass {
  import opened Arith
  import opened ElfTypes
  import opened ElfState
  import opened Layout
  import opened FreshRun
  import opened SegmentPass
  import opened SegmentOrder
  /** What a caller of `save` has to provide. */
  predicate WellFormed(e: Elf) {
    && ElfOk(e) && Indexed(e.sections) && e.sections != []
    && (forall m :: 0 <= m < |e.segments| ==> SegShape(e.sections, e.segments[m]))
    && Laminar(Lists(e.segments))
    && |e.segments| < U16 && |e.sections| < U16
    && Base(e) < e.cls.Limit()
  }

  /** End of the ELF header and the program header table. */
  function Base(e: Elf): nat {
    e.hdr.ehsize + e.hdr.phentsize * (|e.segments| % U16)
  }

  /** The layout state after the first n segments of the computed order. */
  function StateAt(e: Elf, n: nat): (r: LayState)
    requires ElfOk(e) && n <= |e.segments|
    ensures LayOk(r) && |r.secs| == |e.sections| && |r.segs| == |e.segments|
  {
    PlaceSegments(e.cls, Prepared(e), InitialState(e), Order(e.segments)[..n])
  }

  lemma StateStep(e: Elf, n: nat)
    requires ElfOk(e) && n < |e.segments|
    ensures StateAt(e, n + 1) == PlaceSegment(e.cls, Prepared(e), StateAt(e, n), Order(e.segments)[n])
  {
    var order := Order(e.segments);
    assert order[..n + 1][..n] == order[..n];
  }

  /** Every segment finds room when its turn comes. */
  predicate LayoutFits(e: Elf)
    requires ElfOk(e)
  {
    forall n :: 0 <= n < |e.segments| ==> FitsAt(e, n)
  }

  predicate FitsAt(e: Elf, n: nat)
    requires ElfOk(e) && n < |e.segments|
  {
    SegmentFits(e.cls, Prepared(e), StateAt(e, n), Order(e.segments)[n])
  }

  /** No two placed sections overlap in the file. */
  predicate Apart(secs: seq<SectionState>, placed: seq<bool>) {
    |placed| == |secs| &&
    forall i, j :: 0 <= i < |secs| && 0 <= j < |secs| && i != j &&
                   Extent(secs, placed, i) && Extent(secs, placed, j) ==>
      secs[i].End() <= secs[j].hdr.offset || secs[j].End() <= secs[i].hdr.offset
  }

  predicate Extent(secs: seq<SectionState>, placed: seq<bool>, i: nat)
    requires i < |secs| == |placed|
  {
    placed[i] && !secs[i].IsNull()
  }

  /** Segment k's sections occur in none of the segments treated before it. */
  predicate TopLevel(e: Elf, n: nat)
    requires n < |e.segments|
  {
    var order := Order(e.segments);
    forall i :: i in e.segments[order[n]].sections ==> !InSome(Lists(e.segments), order[..n], i)
  }

  /** The sections of the state, compared with the ones the layout began with. */
  predicate SectionsLaid(e: Elf, n: nat, st: LayState)
    requires n <= |e.segments|
  {
    && |st.secs| == |st.gen| == |e.sections|
    && (forall i :: 0 <= i < |st.gen| ==>
          (st.gen[i] <==> InSome(Lists(e.segments), Order(e.segments)[..n], i)))
    && (forall i :: 0 <= i < |st.secs| && (!st.gen[i] || e.sections[i].IsNull()) ==> st.secs[i] == e.sections[i])
    && (forall i :: 0 <= i < |st.secs| && st.gen[i] && !e.sections[i].IsNull() ==>
          NewlyPlaced(e.cls, Base(e), st.pos, e.sections[i], st.secs[i]))
    && Apart(st.secs, st.gen)
  }

  /** The result for the segment at position m of the order. */
  predicate SegmentDone(e: Elf, m: nat, pos: nat, secs: seq<SectionState>, seg: SegmentState)
    requires m < |e.segments| && |secs| == |e.sections|
  {
    var k := Order(e.segments)[m];
    && SegLaid(secs, e.segments[k], seg)
    && seg.hdr.offset + seg.hdr.filesz <= pos
    && (ElfOk(e) && seg.sections != [] ==>
          (if TopLevel(e, m) then FreshLaid(e.sections, secs, seg) else NestedStart(e.sections, secs, seg)))
  }

  /** A nested segment starts where its first section stands. */
  predicate NestedStart(secs0: seq<SectionState>, secs: seq<SectionState>, seg: SegmentState)
    requires |secs| == |secs0| && seg.sections != [] && SegmentOk(seg, |secs|)
  {
    seg.hdr.offset == if StartsWithNull(seg, secs0) then 0 else secs[seg.sections[0]].hdr.offset
  }

  predicate SegmentsLaid(e: Elf, n: nat, st: LayState)
    requires n <= |e.segments| && |st.secs| == |e.sections|
  {
    && |st.segs| == |e.segments|
    && (forall m :: n <= m < |e.segments| ==>
          st.segs[Order(e.segments)[m]] == e.segments[Order(e.segments)[m]])
    && (forall m :: 0 <= m < n ==> SegmentDone(e, m, st.pos, st.secs, st.segs[Order(e.segments)[m]]))
  }

  predicate Laid(e: Elf, n: nat, st: LayState)
    requires n <= |e.segments|
  {
    && Base(e) <= st.pos < e.cls.Limit()
    && SectionsLaid(e, n, st)
    && SegmentsLaid(e, n, st)
  }

  lemma InitiallyLaid(e: Elf)
    requires WellFormed(e)
    ensures Laid(e, 0, StateAt(e, 0))
  {
    var st := StateAt(e, 0);
    assert Order(e.segments)[..0] == [];
    assert st == InitialState(e);
    forall i | 0 <= i < |st.gen|
      ensures !InSome(Lists(e.segments), Order(e.segments)[..0], i)
    {
    }
  }

  // ----- what stays as it was

  /** A finished segment stays finished as long as its sections stay where they are. */
  lemma DoneStays(e: Elf, m: nat, pos: nat, pos': nat, secs: seq<SectionState>, secs': seq<SectionState>,
      seg: SegmentState)
    requires m < |e.segments| && |secs| == |secs'| == |e.sections| && pos <= pos'
    requires SegmentDone(e, m, pos, secs, seg)
    requires forall i :: 0 <= i < |secs| && i in seg.sections ==> secs'[i] == secs[i]
    ensures SegmentDone(e, m, pos', secs', seg)
  {
    LaidStays(secs, secs', e.segments[Order(e.segments)[m]], seg);
  }

  lemma DoneKeepsList(e: Elf, m: nat, pos: nat, secs: seq<SectionState>, seg: SegmentState)
    requires m < |e.segments| && |secs| == |e.sections| && SegmentDone(e, m, pos, secs, seg)
    ensures seg.sections == e.segments[Order(e.segments)[m]].sections
  {
  }

  lemma LaidStays(secs: seq<SectionState>, secs': seq<SectionState>, seg0: SegmentState, seg: SegmentState)
    requires |secs| == |secs'| && SegLaid(secs, seg0, seg)
    requires forall i :: 0 <= i < |secs| && i in seg.sections ==> secs'[i] == secs[i]
    ensures SegLaid(secs', seg0, seg)
  {
    forall a, b | a in Elems(seg.sections) && b in Elems(seg.sections) && a < b && NonNull(secs', a) &&
        NonNull(secs', b)
      ensures secs'[a].End() <= secs'[b].hdr.offset
    {
      assert NonNull(secs, a) && NonNull(secs, b);
    }
    if a :| a in seg.sections && Occupying(secs', a) {
      assert Occupying(secs, a);
      var b :| b in seg.sections && Occupying(secs, b) && secs[b].End() == seg.hdr.offset + seg.hdr.filesz;
      assert Occupying(secs', b);
    }
    forall a | a in seg.sections && Occupying(secs', a)
      ensures seg.hdr.offset <= secs'[a].hdr.offset && secs'[a].End() <= seg.hdr.offset + seg.hdr.filesz
    {
      assert Occupying(secs, a);
    }
    if AllCounted(FrameOf(seg), secs', Elems(seg.sections)) {
      forall a | a in Elems(seg.sections) && NonNull(secs, a)
        ensures Counted(FrameOf(seg), secs[a])
      {
        assert NonNull(secs', a);
      }
      assert AllCounted(FrameOf(seg), secs, Elems(seg.sections));
      forall a | a in seg.sections && NonNull(secs', a)
        ensures seg.hdr.offset <= secs'[a].hdr.offset
        ensures secs'[a].hdr.offset + secs'[a].hdr.size <= seg.hdr.offset + seg.hdr.memsz
      {
        assert NonNull(secs, a);
      }
    }
  }

  // ----- the three cases of one more segment

  /** Placing sections changes neither their types nor their indexes. */
  lemma TypesKept(e: Elf, n: nat, st: LayState)
    requires WellFormed(e) && n <= |e.segments| && SectionsLaid(e, n, st)
    ensures forall i :: 0 <= i < |st.secs| ==> e.sections[i].Moved(st.secs[i])
    ensures Indexed(st.secs)
    ensures forall m :: 0 <= m < |e.segments| ==> SegShape(st.secs, e.segments[m])
  {
  }

  /** The marks after one more segment. */
  lemma MarksStep(e: Elf, n: nat, st: LayState, gen: seq<bool>)
    requires WellFormed(e) && n < |e.segments| && SectionsLaid(e, n, st) && |gen| == |st.gen|
    requires forall i :: 0 <= i < |gen| ==>
               (gen[i] <==> st.gen[i] || i in e.segments[Order(e.segments)[n]].sections)
    ensures forall i :: 0 <= i < |gen| ==>
              (gen[i] <==> InSome(Lists(e.segments), Order(e.segments)[..n + 1], i))
  {
    forall i | 0 <= i < |gen|
      ensures gen[i] <==> InSome(Lists(e.segments), Order(e.segments)[..n + 1], i)
    {
      InSomeStep(Lists(e.segments), Order(e.segments), n, i);
    }
  }

  lemma FreshSections(e: Elf, n: nat, st: LayState, r: LayState)
    requires WellFormed(e) && n < |e.segments| && Base(e) <= st.pos && SectionsLaid(e, n, st)
    requires var list := e.segments[Order(e.segments)[n]].sections;
             FreshStep(e.cls, st, r, list) && NoneMarked(st, list) && Within(list, |st.secs|)
    ensures SectionsLaid(e, n + 1, r)
  {
    var list := e.segments[Order(e.segments)[n]].sections;
    MarksStep(e, n, st, r.gen);
    forall i | i in list
      ensures i < |st.secs| && !st.gen[i]
    {
    }
    forall i | 0 <= i < |r.secs| && r.gen[i] && !e.sections[i].IsNull()
      ensures NewlyPlaced(e.cls, Base(e), r.pos, e.sections[i], r.secs[i])
    {
      if i in list {
        assert st.secs[i] == e.sections[i] && NonNull(st.secs, i);
      }
    }
    FreshApart(e, n, st, r, list);
  }

  lemma FreshApart(e: Elf, n: nat, st: LayState, r: LayState, list: seq<nat>)
    requires WellFormed(e) && n < |e.segments| && SectionsLaid(e, n, st)
    requires FreshStep(e.cls, st, r, list) && forall i :: i in list ==> i < |st.secs| && !st.gen[i]
    ensures Apart(r.secs, r.gen)
  {
    forall i, j | 0 <= i < |r.secs| && 0 <= j < |r.secs| && i != j && Extent(r.secs, r.gen, i) &&
        Extent(r.secs, r.gen, j)
      ensures r.secs[i].End() <= r.secs[j].hdr.offset || r.secs[j].End() <= r.secs[i].hdr.offset
    {
      if i in list && j in list {
        assert i in Elems(list) && j in Elems(list) && NonNull(r.secs, i) && NonNull(r.secs, j);
      } else if i !in list && j !in list {
        assert Extent(st.secs, st.gen, i) && Extent(st.secs, st.gen, j);
      } else if i in list {
        assert NewlyPlaced(e.cls, Base(e), st.pos, e.sections[j], st.secs[j]) && NonNull(st.secs, i);
      } else {
        assert NewlyPlaced(e.cls, Base(e), st.pos, e.sections[i], st.secs[i]) && NonNull(st.secs, j);
      }
    }
  }

  /** The other segments after one more. */
  lemma SegmentsStep(e: Elf, n: nat, st: LayState, r: LayState)
    requires WellFormed(e) && n < |e.segments| && |st.secs| == |e.sections| == |r.secs| && SegmentsLaid(e, n, st)
    requires var k := Order(e.segments)[n];
             k < |st.segs| && |r.segs| == |st.segs| && r.segs == st.segs[k := r.segs[k]] && st.pos <= r.pos
             && SegmentDone(e, n, r.pos, r.secs, r.segs[k])
    requires forall m :: 0 <= m < n ==>
               forall i :: 0 <= i < |st.secs| && i in e.segments[Order(e.segments)[m]].sections ==>
                   r.secs[i] == st.secs[i]
    ensures SegmentsLaid(e, n + 1, r)
  {
    hide SegmentDone, Order, Laminar, SegShape;
    OrderFacts(e.segments);
    var order := Order(e.segments);
    forall m | 0 <= m < n + 1
      ensures SegmentDone(e, m, r.pos, r.secs, r.segs[order[m]])
    {
      if m < n {
        assert order[m] != order[n];
        var seg := st.segs[order[m]];
        assert SegmentDone(e, m, st.pos, st.secs, seg);
        DoneKeepsList(e, m, st.pos, st.secs, seg);
        DoneStays(e, m, st.pos, r.pos, st.secs, r.secs, seg);
      }
    }
    forall m | n + 1 <= m < |e.segments|
      ensures r.segs[order[m]] == e.segments[order[m]]
    {
      assert order[m] != order[n];
    }
  }

  /** Sections of earlier segments are marked. */
  lemma EarlierMarked(e: Elf, n: nat, st: LayState, m: nat, i: nat)
    requires WellFormed(e) && m < n <= |e.segments| && SectionsLaid(e, n, st)
    requires i in e.segments[Order(e.segments)[m]].sections && i < |st.secs|
    ensures st.gen[i]
  {
    var prefix := Order(e.segments)[..n];
    assert prefix[m] == Order(e.segments)[m];
    assert i in Lists(e.segments)[prefix[m]];
  }

  lemma FreshCase(e: Elf, n: nat, st: LayState)
    requires WellFormed(e) && LayOk(st) && n < |e.segments| && Laid(e, n, st) && TopLevel(e, n)
    requires e.segments[Order(e.segments)[n]].sections != []
    requires SegmentFits(e.cls, Prepared(e), st, Order(e.segments)[n])
    ensures Laid(e, n + 1, PlaceSegment(e.cls, Prepared(e), st, Order(e.segments)[n]))
    ensures st.pos <= PlaceSegment(e.cls, Prepared(e), st, Order(e.segments)[n]).pos
  {
    var k := Order(e.segments)[n];
    var list := e.segments[k].sections;
    var r := PlaceSegment(e.cls, Prepared(e), st, k);
    assert st.segs[k] == e.segments[k];
    TypesKept(e, n, st);
    forall j | 0 <= j < |list|
      ensures !st.gen[list[j]]
    {
      assert list[j] in list;
    }
    FreshSegment(e.cls, Prepared(e), st, k);
    FreshSections(e, n, st, r);
    assert FreshLaid(e.sections, r.secs, r.segs[k]) by {
      forall a | a in list
        ensures a < |st.secs| && st.secs[a] == e.sections[a]
      {
      }
    }
    forall m, i | 0 <= m < n && 0 <= i < |st.secs| && i in e.segments[Order(e.segments)[m]].sections
      ensures r.secs[i] == st.secs[i]
    {
      EarlierMarked(e, n, st, m, i);
    }
    SegmentsStep(e, n, st, r);
  }

  /** Sections that an earlier segment has placed stand in increasing order. */
  lemma NestedStands(e: Elf, n: nat, st: LayState)
    requires WellFormed(e) && n < |e.segments| && Laid(e, n, st) && !TopLevel(e, n)
    ensures AllMarked(st, e.segments[Order(e.segments)[n]].sections)
    ensures Stand(e.cls, st, e.segments[Order(e.segments)[n]].sections)
  {
    OrderFacts(e.segments);
    var order, lists := Order(e.segments), Lists(e.segments);
    var list := e.segments[order[n]].sections;
    AllOrNone(lists, order, n);
    var i :| i in list && InSome(lists, order[..n], i);
    var m := FirstOwner(lists, order, n, i);
    var owner := e.segments[order[m]].sections;
    assert SegmentDone(e, m, st.pos, st.secs, st.segs[order[m]]);
    assert st.segs[order[m]].sections == owner;
    forall j | 0 <= j < |list|
      ensures st.gen[list[j]]
    {
      assert list[j] in list;
    }
    forall a | a in list && NonNull(st.secs, a)
      ensures st.secs[a].hdr.offset + st.secs[a].hdr.size < e.cls.Limit() && st.secs[a].End() <= st.pos
    {
      TypesKept(e, n, st);
      assert NewlyPlaced(e.cls, Base(e), st.pos, e.sections[a], st.secs[a]);
    }
    assert Ascending(st.secs, Elems(list)) by {
      forall a, b | a in Elems(list) && b in Elems(list) && a < b && NonNull(st.secs, a) && NonNull(st.secs, b)
        ensures st.secs[a].End() <= st.secs[b].hdr.offset
      {
        assert a in list && b in list;
        assert a in Elems(owner) && b in Elems(owner);
      }
    }
  }

  /** Nothing moves when the segment's sections were placed before, or there are none. */
  lemma UnmovedSections(e: Elf, n: nat, st: LayState, r: LayState)
    requires WellFormed(e) && n < |e.segments| && SectionsLaid(e, n, st)
    requires r.secs == st.secs && r.gen == st.gen && r.pos == st.pos
    requires forall i :: i in e.segments[Order(e.segments)[n]].sections ==> i < |st.gen| && st.gen[i]
    ensures SectionsLaid(e, n + 1, r)
  {
    MarksStep(e, n, st, r.gen);
  }

  lemma NestedCase(e: Elf, n: nat, st: LayState)
    requires WellFormed(e) && LayOk(st) && n < |e.segments| && Laid(e, n, st) && !TopLevel(e, n)
    ensures Laid(e, n + 1, PlaceSegment(e.cls, Prepared(e), st, Order(e.segments)[n]))
    ensures st.pos <= PlaceSegment(e.cls, Prepared(e), st, Order(e.segments)[n]).pos
  {
    hide Order, Layout.PlaceSegment, Stand, AllMarked, SegLaid;
    var k := Order(e.segments)[n];
    var r := PlaceSegment(e.cls, Prepared(e), st, k);
    assert st.segs[k] == e.segments[k];
    TypesKept(e, n, st);
    NestedStands(e, n, st);
    assert e.segments[k].sections != [];
    NestedSegment(e.cls, Prepared(e), st, k);
    NestedDone(e, n, st, r);
  }

  lemma NestedDone(e: Elf, n: nat, st: LayState, r: LayState)
    requires WellFormed(e) && n < |e.segments| && Laid(e, n, st) && !TopLevel(e, n)
    requires var k := Order(e.segments)[n];
             && k < |st.segs| == |r.segs| && st.segs[k] == e.segments[k] && AllMarked(st, e.segments[k].sections)
             && r.pos == st.pos && r.secs == st.secs && r.gen == st.gen && r.segs == st.segs[k := r.segs[k]]
             && SegLaid(r.secs, e.segments[k], r.segs[k])
             && r.segs[k].hdr.offset + r.segs[k].hdr.filesz <= r.pos
             && SegmentOk(e.segments[k], |st.secs|) && e.segments[k].sections != []
             && r.segs[k].hdr.offset == (if StartsWithNull(e.segments[k], e.sections) then 0
                                         else st.secs[e.segments[k].sections[0]].hdr.offset)
    ensures Laid(e, n + 1, r)
  {
    hide Order, Laminar, SegShape, SegLaid, TopLevel;
    var k := Order(e.segments)[n];
    var list := e.segments[k].sections;
    forall i | i in list
      ensures i < |st.gen| && st.gen[i]
    {
      var j :| 0 <= j < |list| && list[j] == i;
    }
    UnmovedSections(e, n, st, r);
    NestedIsDone(e, n, st.secs, r.pos, r.segs[k]);
    SegmentsStep(e, n, st, r);
  }

  lemma NestedIsDone(e: Elf, n: nat, secs: seq<SectionState>, pos: nat, seg: SegmentState)
    requires ElfOk(e) && n < |e.segments| && |secs| == |e.sections| && !TopLevel(e, n)
    requires var list := e.segments[Order(e.segments)[n]].sections;
             && list != [] && SegLaid(secs, e.segments[Order(e.segments)[n]], seg)
             && seg.hdr.offset + seg.hdr.filesz <= pos && SegmentOk(e.segments[Order(e.segments)[n]], |secs|)
             && seg.hdr.offset == (if StartsWithNull(e.segments[Order(e.segments)[n]], e.sections) then 0
                                   else secs[list[0]].hdr.offset)
    ensures SegmentDone(e, n, pos, secs, seg)
  {
    hide TopLevel, Order;
  }

  /** The program header table lies between the ELF header and the first section. */
  lemma TableBounds(e: Elf)
    requires WellFormed(e)
    ensures var h := Prepared(e);
            && h.phnum == |e.segments| && h.shnum == |e.sections|
            && h.phoff + h.phentsize * h.phnum <= Base(e)
            && h.phoff < e.cls.Limit() && h.phentsize * h.phnum < e.cls.Limit()
  {
  }

  lemma EmptyCase(e: Elf, n: nat, st: LayState)
    requires WellFormed(e) && LayOk(st) && n < |e.segments| && Laid(e, n, st)
    requires e.segments[Order(e.segments)[n]].sections == []
    ensures Laid(e, n + 1, PlaceSegment(e.cls, Prepared(e), st, Order(e.segments)[n]))
    ensures st.pos <= PlaceSegment(e.cls, Prepared(e), st, Order(e.segments)[n]).pos
  {
    var k := Order(e.segments)[n];
    var r := PlaceSegment(e.cls, Prepared(e), st, k);
    assert st.segs[k] == e.segments[k];
    TableBounds(e);
    EmptySegment(e.cls, Prepared(e), st, k);
    UnmovedSections(e, n, st, r);
    assert SegmentDone(e, n, r.pos, r.secs, r.segs[k]);
    SegmentsStep(e, n, st, r);
  }

  lemma OneMore(e: Elf, n: nat)
    requires WellFormed(e) && n < |e.segments| && FitsAt(e, n) && LaidAt(e, n)
    ensures LaidAt(e, n + 1) && StateAt(e, n).pos <= StateAt(e, n + 1).pos
  {
    StateStep(e, n);
    var st := StateAt(e, n);
    if e.segments[Order(e.segments)[n]].sections == [] {
      EmptyCase(e, n, st);
    } else if TopLevel(e, n) {
      FreshCase(e, n, st);
    } else {
      NestedCase(e, n, st);
    }
  }

  ghost predicate LaidAt(e: Elf, n: nat) {
    ElfOk(e) && n <= |e.segments| && Laid(e, n, StateAt(e, n))
  }

  lemma InitiallyLaidAt(e: Elf)
    requires WellFormed(e)
    ensures LaidAt(e, 0)
  {
    InitiallyLaid(e);
  }

  /** The invariant holds after every segment. */
  lemma {:induction false} SegmentsAreLaid(e: Elf, n: nat)
    requires WellFormed(e) && LayoutFits(e) && n <= |e.segments|
    ensures LaidAt(e, n)
  {
    hide LaidAt, FitsAt, Laminar, SegShape;
    if n == 0 {
      InitiallyLaidAt(e);
    } else {
      SegmentsAreLaid(e, n - 1);
      assert FitsAt(e, n - 1);
      OneMore(e, n - 1);
    }
  }
}
