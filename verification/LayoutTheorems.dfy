/** What `save` guarantees about the file it lays out. */
module LayoutTheorems {
  import opened Arith
  import opened ElfTypes
  import opened ElfState
  import opened Layout
  import opened FreshRun
  import opened SegmentPass
  import opened SegmentOrder
  import opened LayoutPass
  import opened LoosePass
  /** An object whose parts fit: well formed, with room for every part when its turn comes. */
  predicate Fitting(e: Elf) {
    && WellFormed(e) && LayoutFits(e)
    && LooseFits(e.cls, AfterSegments(e))
    && AfterSections(e).pos + 4 <= e.cls.Limit()
  }

  /** While the segments are laid out the cursor never goes back. */
  lemma {:induction false} CursorGrows(e: Elf, p: nat, q: nat)
    requires Fitting(e) && p <= q <= |e.segments|
    ensures ElfOk(e) && StateAt(e, p).pos <= StateAt(e, q).pos < e.cls.Limit()
    decreases q
  {
    hide StateAt, Fitting, ElfOk;
    CursorStep(e, q);
    if p < q {
      CursorGrows(e, p, q - 1);
    }
  }

  lemma CursorStep(e: Elf, q: nat)
    requires Fitting(e) && q <= |e.segments|
    ensures ElfOk(e) && StateAt(e, q).pos < e.cls.Limit()
    ensures q > 0 ==> StateAt(e, q - 1).pos <= StateAt(e, q).pos
  {
    hide StateAt, Order, Laminar, SegShape, SectionsLaid, SegmentsLaid, FitsAt, AfterSections, AfterSegments;
    SegmentsAreLaid(e, q);
    if q > 0 {
      SegmentsAreLaid(e, q - 1);
      assert FitsAt(e, q - 1);
      OneMore(e, q - 1);
    }
  }

  function AllPlaced(n: nat): (m: seq<bool>)
    ensures |m| == n
  {
    seq(n, _ => true)
  }

  /** The sections of the finished layout; `mid` is where the segments end and the rest begins. */
  predicate SectionsResult(e0: Elf, e: Elf, mid: nat) {
    && |e.sections| == |e0.sections|
    && (forall i :: 0 <= i < |e.sections| ==> e0.sections[i].Moved(e.sections[i]))
    && (forall i :: 0 <= i < |e.sections| && !e0.sections[i].IsNull() && !IsLoose(e0.segments, i) ==>
          NewlyPlaced(e0.cls, Base(e0), mid, e0.sections[i], e.sections[i]))
    && (forall i :: 0 <= i < |e.sections| && IsLoose(e0.segments, i) ==>
          LooselyPlaced(e0.cls, mid, e.hdr.shoff, e0.sections[i], e.sections[i]))
    && (forall i :: 0 <= i < |e.sections| && e0.sections[i].IsNull() && !IsLoose(e0.segments, i) ==>
          e.sections[i] == e0.sections[i])
    && Apart(e.sections, AllPlaced(|e.sections|))
  }

  predicate SegmentsResult(e0: Elf, e: Elf, mid: nat) {
    && |e.sections| == |e0.sections| && |e.segments| == |e0.segments|
    && forall p :: 0 <= p < |e0.segments| ==>
         SegmentDone(e0, p, mid, e.sections, e.segments[Order(e0.segments)[p]])
  }

  predicate Result(e0: Elf, e: Elf, mid: nat) {
    && e.cls == e0.cls && e.conv == e0.conv && e.hdr == Prepared(e0).(shoff := e.hdr.shoff)
    && Base(e0) <= mid <= e.hdr.shoff < e0.cls.Limit() && e.hdr.shoff % 4 == 0
    && SectionsResult(e0, e, mid)
    && SegmentsResult(e0, e, mid)
  }

  lemma LooseKept(e: Elf, st: LayState)
    requires WellFormed(e) && Laid(e, |e.segments|, st)
    ensures forall i :: IsLoose(e.segments, i) <==> IsLoose(st.segs, i)
  {
    ListsKept(e, st);
    forall i
      ensures IsLoose(e.segments, i) <==> IsLoose(st.segs, i)
    {
    }
  }

  lemma SectionsFinish(e: Elf, st0: LayState, st: LayState, r: Elf)
    requires WellFormed(e) && Laid(e, |e.segments|, st0) && SegmentsFinished(st0)
    requires LooseLaid(e.cls, st0, |e.sections|, st) && st.pos <= r.hdr.shoff && r.sections == st.secs
    ensures SectionsResult(e, r, st0.pos)
  {
    hide Order, NewlyPlaced, SegmentsLaid, Laminar;
    LooseKept(e, st0);
    TypesKept(e, |e.segments|, st0);
    forall i | 0 <= i < |e.sections|
      ensures IsLoose(e.segments, i) <==> IsLoose(st0.segs, i)
      ensures st0.gen[i] <==> !IsLoose(e.segments, i)
      ensures IsLoose(e.segments, i) ==> st0.secs[i] == e.sections[i]
    {
    }
    assert PlacedMask(st0, |e.sections|) == AllPlaced(|e.sections|);
  }

  lemma SegmentsFinish(e: Elf, st0: LayState, st: LayState, r: Elf)
    requires WellFormed(e) && Laid(e, |e.segments|, st0) && SegmentsFinished(st0)
    requires LooseLaid(e.cls, st0, |e.sections|, st) && r.sections == st.secs && r.segments == st.segs
    ensures SegmentsResult(e, r, st0.pos)
  {
    ListsKept(e, st0);
    forall p | 0 <= p < |e.segments|
      ensures SegmentDone(e, p, st0.pos, st.secs, st.segs[Order(e.segments)[p]])
    {
      var seg := st0.segs[Order(e.segments)[p]];
      assert SegmentDone(e, p, st0.pos, st0.secs, seg);
      forall i | 0 <= i < |st.secs| && i in seg.sections
        ensures st.secs[i] == st0.secs[i]
      {
      }
      DoneStays(e, p, st0.pos, st0.pos, st0.secs, st.secs, seg);
    }
  }

  /** Everything the three passes establish together. */
  lemma LayoutResult(e: Elf)
    requires Fitting(e)
    ensures Result(e, LaidOut(e), AfterSegments(e).pos)
  {
    var st0, st := AfterSegments(e), AfterSections(e);
    assert Laid(e, |e.segments|, st0) by {
      SegmentsAreLaid(e, |e.segments|);
      assert Order(e.segments)[..|e.segments|] == Order(e.segments);
    }
    Assemble(e, st0, st, LaidOut(e));
  }

  /** The section table goes to the next multiple of four. */
  lemma TableFits(cls: ElfClass, pos: nat, shoff: nat)
    requires pos + 4 <= cls.Limit() && shoff == cls.Trunc(TablePosition(pos))
    ensures pos <= shoff < cls.Limit() && shoff % 4 == 0
  {
    assert cls.Limit() <= U64;
    assert shoff == pos + Pad(pos, 4);
  }

  lemma Assemble(e: Elf, st0: LayState, st: LayState, r: Elf)
    requires WellFormed(e) && Laid(e, |e.segments|, st0) && LooseFits(e.cls, st0)
    requires st == PlaceLooseUpTo(e.cls, st0, |e.sections|) && st.pos + 4 <= e.cls.Limit()
    requires r == e.(hdr := Prepared(e).(shoff := r.hdr.shoff), sections := st.secs, segments := st.segs)
    requires r.hdr.shoff == e.cls.Trunc(TablePosition(st.pos))
    ensures Result(e, r, st0.pos)
  {
    hide WellFormed, LooseFits, PlaceLooseUpTo, SectionsResult, SegmentsResult, Pad, TablePosition;
    Finished(e, st0);
    LooseAreLaid(e.cls, st0, |e.sections|);
    TableFits(e.cls, st.pos, r.hdr.shoff);
    SectionsFinish(e, st0, st, r);
    SegmentsFinish(e, st0, st, r);
  }

  // ----- theorems

  /** Headers, sections i and j, and the section table follow each other without overlap. */
  predicate PartsApart(f: Elf, i: nat, j: nat)
    requires i < |f.sections| && j < |f.sections|
  {
    && f.hdr.ehsize + f.hdr.phentsize * f.hdr.phnum <= f.sections[i].hdr.offset
    && (f.sections[i].End() <= f.sections[j].hdr.offset || f.sections[j].End() <= f.sections[i].hdr.offset)
    && f.sections[i].End() <= f.hdr.shoff && f.hdr.shoff % 4 == 0
    && (f.hdr.phnum != 0 ==> f.hdr.phoff == f.hdr.ehsize)
  }

  lemma PartsFromResult(e0: Elf, e: Elf, mid: nat, i: nat, j: nat)
    requires Result(e0, e, mid) && i < |e0.sections| && j < |e0.sections| && i != j
    requires !e0.sections[i].IsNull() && !e0.sections[j].IsNull()
    ensures PartsApart(e, i, j)
  {
    assert Extent(e.sections, AllPlaced(|e.sections|), i) && Extent(e.sections, AllPlaced(|e.sections|), j);
    OneFromResult(e0, e, mid, i);
  }

  lemma OneFromResult(e0: Elf, e: Elf, mid: nat, i: nat)
    requires Result(e0, e, mid) && i < |e0.sections| && !e0.sections[i].IsNull()
    ensures Base(e0) <= e.sections[i].hdr.offset && e.sections[i].End() <= e.hdr.shoff
    ensures e.sections[i].hdr.offset + e.sections[i].hdr.size < e0.cls.Limit()
  {
    if IsLoose(e0.segments, i) {
      assert LooselyPlaced(e0.cls, mid, e.hdr.shoff, e0.sections[i], e.sections[i]);
    } else {
      assert NewlyPlaced(e0.cls, Base(e0), mid, e0.sections[i], e.sections[i]);
    }
  }

  /** The file's parts do not overlap: the ELF header and the program header table lie before every
      section, the sections' extents are pairwise disjoint, and the section header table starts
      4-aligned behind all of them. */
  lemma PartsDoNotOverlap(e: Elf, i: nat, j: nat)
    requires Fitting(e) && i < |e.sections| && j < |e.sections| && i != j
    requires !e.sections[i].IsNull() && !e.sections[j].IsNull()
    ensures PartsApart(LaidOut(e), i, j)
  {
    LayoutResult(e);
    PartsFromResult(e, LaidOut(e), AfterSegments(e).pos, i, j);
  }

  /** Position of segment k in the computed order. */
  lemma PositionOf(e: Elf, k: nat) returns (p: nat)
    requires k < |e.segments|
    ensures p < |e.segments| && Order(e.segments)[p] == k
  {
    OrderFacts(e.segments);
    assert k in Order(e.segments);
    p :| 0 <= p < |e.segments| && Order(e.segments)[p] == k;
  }

  /** Every segment holds all its file-occupying sections, in index order and without overlap, and its
      file image ends exactly where the last of them ends; its memory image covers them. */
  lemma SegmentsAreExact(e: Elf, k: nat)
    requires Fitting(e) && k < |e.segments|
    ensures var f := LaidOut(e);
            && Resized(e.segments[k], f.segments[k])
            && Ascending(f.sections, Elems(e.segments[k].sections))
            && FileExact(f.sections, f.segments[k]) && MemoryExact(f.sections, f.segments[k])
            && f.segments[k].hdr.offset + f.segments[k].hdr.filesz <= f.hdr.shoff
  {
    LayoutResult(e);
    var p := PositionOf(e, k);
    assert SegmentDone(e, p, AfterSegments(e).pos, LaidOut(e).sections, LaidOut(e).segments[k]);
  }

  /** When its turn comes a segment finds its sections either all generated or none of them. */
  lemma SectionsAllOrNone(e: Elf, p: nat)
    requires WellFormed(e) && LayoutFits(e) && p < |e.segments|
    ensures var list, gen := e.segments[Order(e.segments)[p]].sections, StateAt(e, p).gen;
            (forall i :: i in list && i < |gen| ==> gen[i]) || (forall i :: i in list && i < |gen| ==> !gen[i])
  {
    OrderFacts(e.segments);
    SegmentsAreLaid(e, p);
    AllOrNone(Lists(e.segments), Order(e.segments), p);
  }

  /** Sections and the segment that placed them: file positions and addresses run in step, and the
      segment starts congruent to its virtual address modulo its alignment. A segment that begins with
      the null section starts at 0, so it does that exactly if its address is a multiple. */
  lemma PlacedCongruently(e: Elf, p: nat)
    requires Fitting(e) && p < |e.segments| && TopLevel(e, p)
    requires e.segments[Order(e.segments)[p]].sections != []
    ensures var f, k := LaidOut(e), Order(e.segments)[p];
            && |f.sections| == |e.sections| && SegmentOk(f.segments[k], |e.sections|) && f.segments[k].sections != []
            && FreshLaid(e.sections, f.sections, f.segments[k]) && StartsCongruent(e.sections, f.segments[k])
  {
    hide LaidOut, AfterSegments, LayoutFits, TopLevel, Order;
    LayoutResult(e);
    var k := Order(e.segments)[p];
    assert SegmentDone(e, p, AfterSegments(e).pos, LaidOut(e).sections, LaidOut(e).segments[k]);
    StartOfPlacer(e.sections, LaidOut(e).sections, LaidOut(e).segments[k]);
  }

  /** The condition under which the segment's offset and address agree modulo its alignment. */
  predicate StartsCongruent(secs0: seq<SectionState>, seg: SegmentState)
    requires SegmentOk(seg, |secs0|) && seg.sections != []
  {
    seg.hdr.offset % seg.hdr.align == seg.hdr.vaddr % seg.hdr.align <==>
    (StartsWithNull(seg, secs0) ==> seg.hdr.vaddr % seg.hdr.align == 0)
  }

  lemma StartOfPlacer(secs0: seq<SectionState>, secs: seq<SectionState>, seg: SegmentState)
    requires |secs| == |secs0| && SegmentOk(seg, |secs|) && seg.sections != [] && FreshLaid(secs0, secs, seg)
    ensures StartsCongruent(secs0, seg)
  {
    hide Congruent;
    ModOfSmall(0, seg.hdr.align);
  }
}
