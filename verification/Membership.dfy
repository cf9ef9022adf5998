/** `load_segments` recomputes which sections belong to a segment from addresses, offsets and sizes
    alone. When does it find what the segment had before it was saved? */
module Membership {
  import opened ElfTypes
  import opened ElfState
  import opened Layout
  import opened FreshRun
  import opened SegmentPass
  import opened SegmentOrder
  import opened LayoutPass
  import opened LoosePass
  import opened LayoutTheorems
  import opened FileFormat
  import opened SaveLoad
  import opened SaveRoundTrip
  import Ordering

  /** The segment's sections stand at the same distance from its start in memory and in the file. */
  predicate Anchored(secs: seq<SectionState>, seg: SegmentState) {
    forall a :: a in seg.sections && NonNull(secs, a) ==>
      secs[a].hdr.offset - seg.hdr.offset == secs[a].hdr.addr - seg.hdr.vaddr
  }

  /** Every section of the segment takes part in its memory image. */
  predicate Loaded(secs: seq<SectionState>, seg: SegmentState) {
    AllCounted(FrameOf(seg), secs, Elems(seg.sections))
  }

  lemma LoadedStays(secs0: seq<SectionState>, secs: seq<SectionState>, seg0: SegmentState, seg: SegmentState)
    requires |secs| == |secs0| && forall i :: 0 <= i < |secs| ==> secs0[i].Moved(secs[i])
    requires Resized(seg0, seg) && Loaded(secs0, seg0)
    ensures Loaded(secs, seg)
  {
    forall a | a in Elems(seg.sections) && NonNull(secs, a)
      ensures Counted(FrameOf(seg), secs[a])
    {
      assert NonNull(secs0, a);
    }
  }

  /** The section's addresses lie inside those of the segment, and nothing wraps. */
  predicate InsideMemory(h: Phdr, s: SectionState) {
    h.vaddr <= s.hdr.addr && s.hdr.addr + s.hdr.size <= h.vaddr + h.memsz < U64
  }

  /** The comparison of wrapped ends decides just that: a segment whose own end wraps matches nothing. */
  lemma MatchesInMemory(h: Phdr, s: SectionState)
    requires s.IsAlloc() && s.hdr.addr + s.hdr.size < U64 && h.vaddr < U64 && h.memsz < U64
    ensures Matches(h, s) <==> InsideMemory(h, s)
  {
    assert h.vaddr + h.memsz >= U64 ==> Wrap(h.vaddr + h.memsz) == h.vaddr + h.memsz - U64;
  }

  /** A section of an anchored segment whose sections all count lies inside the segment in memory. */
  lemma OwnIsInside(secs: seq<SectionState>, seg: SegmentState, a: nat)
    requires Anchored(secs, seg) && MemoryExact(secs, seg) && Loaded(secs, seg)
    requires a in seg.sections && NonNull(secs, a) && seg.hdr.vaddr + seg.hdr.memsz < U64
    ensures InsideMemory(seg.hdr, secs[a])
  {
    assert a in Elems(seg.sections) && Counted(FrameOf(seg), secs[a]);
  }

  /** What the finished layout says about segment k. */
  lemma SegmentFacts(e: Elf, k: nat) returns (p: nat)
    requires Fitting(e) && k < |e.segments|
    ensures Result(e, LaidOut(e), AfterSegments(e).pos)
    ensures p < |e.segments| && Order(e.segments)[p] == k
    ensures SegmentDone(e, p, AfterSegments(e).pos, LaidOut(e).sections, LaidOut(e).segments[k])
  {
    LayoutResult(e);
    p := PositionOf(e, k);
  }

  // ----- which segments are anchored

  /** A segment that placed its sections is, as long as no NOBITS section came with an address. */
  lemma PlacerIsAnchored(e: Elf, p: nat)
    requires Fitting(e) && p < |e.segments| && TopLevel(e, p)
    requires e.segments[Order(e.segments)[p]].sections != []
    requires forall a :: a in e.segments[Order(e.segments)[p]].sections && NonNull(e.sections, a) ==>
               Follows(e.sections[a])
    ensures Anchored(LaidOut(e).sections, LaidOut(e).segments[Order(e.segments)[p]])
  {
    var k := Order(e.segments)[p];
    PlacedCongruently(e, p);
    SegmentsAreExact(e, k);
    LayoutResult(e);
  }

  /** A segment nested in an anchored one is, exactly if its own address is that of its first section. */
  lemma NestedIsAnchored(e: Elf, p: nat, outer: nat)
    requires Fitting(e) && p < |e.segments| && !TopLevel(e, p) && outer < |e.segments|
    requires Ordering.Subset(e.segments[Order(e.segments)[p]].sections, e.segments[outer].sections)
    requires e.segments[Order(e.segments)[p]].sections != []
    requires NonNull(e.sections, e.segments[Order(e.segments)[p]].sections[0])
    requires Anchored(LaidOut(e).sections, LaidOut(e).segments[outer])
    ensures var f, k := LaidOut(e), Order(e.segments)[p];
            Anchored(f.sections, f.segments[k]) <==>
              f.segments[k].hdr.vaddr == f.sections[e.segments[k].sections[0]].hdr.addr
  {
    var k := Order(e.segments)[p];
    LayoutResult(e);
    var f, mid := LaidOut(e), AfterSegments(e).pos;
    assert SegmentDone(e, p, mid, f.sections, f.segments[k]);
    SegmentsAreExact(e, outer);
    var first := e.segments[k].sections[0];
    assert first in e.segments[k].sections && NonNull(f.sections, first);
    StartOfNested(e.sections, f.sections, f.segments[k], f.segments[outer]);
  }

  lemma StartOfNested(secs0: seq<SectionState>, secs: seq<SectionState>, seg: SegmentState, outer: SegmentState)
    requires |secs| == |secs0| && seg.sections != [] && SegmentOk(seg, |secs|)
    requires NestedStart(secs0, secs, seg) && NonNull(secs0, seg.sections[0]) && NonNull(secs, seg.sections[0])
    requires Anchored(secs, outer) && Ordering.Subset(seg.sections, outer.sections)
    ensures Anchored(secs, seg) <==> seg.hdr.vaddr == secs[seg.sections[0]].hdr.addr
  {
    var first := seg.sections[0];
    assert first in seg.sections && first in outer.sections;
    assert secs[first].hdr.offset - outer.hdr.offset == secs[first].hdr.addr - outer.hdr.vaddr;
  }

  // ----- when nothing else becomes a member

  /** The null section as `create_mandatory_sections` makes it, and no other section empty. */
  predicate NoEmptySections(e: Elf) {
    && (e.sections != [] ==> e.sections[0].hdr.offset == 0 && e.sections[0].hdr.size == 0 && !e.sections[0].IsAlloc())
    && forall i :: 0 < i < |e.sections| ==> !e.sections[i].IsNull() && e.sections[i].hdr.size > 0
  }

  /** Segments hold allocated sections, and perhaps the null section. */
  predicate Listable(e: Elf) {
    forall m, a :: 0 <= m < |e.segments| && a in e.segments[m].sections && a < |e.sections| ==>
      a == 0 || e.sections[a].IsAlloc()
  }

  /** Every section of segment k lies inside it in memory. */
  predicate OwnInside(f: Elf, k: nat)
    requires k < |f.segments|
  {
    forall a :: a in f.segments[k].sections && NonNull(f.sections, a) ==> InsideMemory(f.segments[k].hdr, f.sections[a])
  }

  /** No section outside segment k has its addresses inside those of the segment. */
  predicate NoStrangers(f: Elf, k: nat)
    requires k < |f.segments|
  {
    forall b :: 0 <= b < |f.sections| && b !in f.segments[k].sections && f.sections[b].IsAlloc() ==>
      f.sections[b].hdr.addr < f.segments[k].hdr.vaddr ||
      Wrap(f.segments[k].hdr.vaddr + f.segments[k].hdr.memsz) < Wrap(f.sections[b].hdr.addr + f.sections[b].hdr.size)
  }

  /** The null section is in the list of exactly those segments that begin with it. */
  lemma ZeroIsFirst(e: Elf, k: nat)
    requires WellFormed(e) && NoEmptySections(e) && k < |e.segments|
    ensures 0 in e.segments[k].sections <==> StartsWithNull(e.segments[k], e.sections)
  {
    var list := e.segments[k].sections;
    assert SegShape(e.sections, e.segments[k]);
    if 0 in list {
      var j :| 0 <= j < |list| && list[j] == 0;
    }
  }

  /** A laid-out segment, as far as its section list is concerned: where it starts, and where it ends. */
  predicate Standing(e0: Elf, e: Elf, mid: nat, k: nat)
    requires ElfOk(e0) && k < |e.segments| && k < |e0.segments| && |e.sections| == |e0.sections|
  {
    && Resized(e0.segments[k], e.segments[k])
    && (e.segments[k].hdr.offset == 0 <==> StartsWithNull(e0.segments[k], e0.sections))
    && e.segments[k].hdr.offset + e.segments[k].hdr.filesz <= mid
    && e.segments[k].hdr.vaddr < U64 && e.segments[k].hdr.memsz < U64
  }

  /** The null section is matched by its offset, by the segments at offset 0. */
  lemma NullSectionMatches(e0: Elf, e: Elf, mid: nat, k: nat)
    requires WellFormed(e0) && Result(e0, e, mid) && NoEmptySections(e0)
    requires k < |e.segments| == |e0.segments| && Standing(e0, e, mid, k)
    ensures Matches(e.segments[k].hdr, e.sections[0]) <==> 0 in e0.segments[k].sections
  {
    hide SegmentsResult, Apart;
    ZeroIsFirst(e0, k);
    assert e0.sections[0].index == 0;
    if IsLoose(e0.segments, 0) {
      assert LooselyPlaced(e0.cls, mid, e.hdr.shoff, e0.sections[0], e.sections[0]);
    }
    assert e.sections[0] == e0.sections[0];
  }

  /** Sections that are not allocated lie behind every segment, so none takes them in. */
  lemma UnallocatedIsOutside(e0: Elf, e: Elf, mid: nat, k: nat, b: nat)
    requires Result(e0, e, mid) && ElfOk(e0) && NoEmptySections(e0) && Listable(e0)
    requires k < |e.segments| == |e0.segments| && Standing(e0, e, mid, k)
    requires 0 < b < |e.sections| && !e.sections[b].IsAlloc()
    ensures b !in e0.segments[k].sections && !Matches(e.segments[k].hdr, e.sections[b])
  {
    hide SegmentsResult, Apart;
    assert e0.cls.Limit() <= U64;
    assert e0.sections[b].Moved(e.sections[b]);
    assert LooselyPlaced(e0.cls, mid, e.hdr.shoff, e0.sections[b], e.sections[b]);
  }

  /** An own section matches exactly if it lies inside. */
  lemma OwnMatches(e0: Elf, e: Elf, mid: nat, k: nat, a: nat)
    requires Result(e0, e, mid) && ElfOk(e0) && NoEmptySections(e0) && Listable(e0)
    requires k < |e.segments| == |e0.segments| && Standing(e0, e, mid, k)
    requires a in e0.segments[k].sections && 0 < a < |e.sections|
    ensures NonNull(e.sections, a)
    ensures Matches(e.segments[k].hdr, e.sections[a]) <==> InsideMemory(e.segments[k].hdr, e.sections[a])
  {
    hide SegmentsResult, Apart;
    assert e0.cls.Limit() <= U64;
    assert e0.sections[a].Moved(e.sections[a]) && e0.sections[a].IsAlloc();
    assert !IsLoose(e0.segments, a);
    assert NewlyPlaced(e0.cls, Base(e0), mid, e0.sections[a], e.sections[a]);
    MatchesInMemory(e.segments[k].hdr, e.sections[a]);
  }

  /** If its own sections lie inside it and no others do, exactly its own sections match a segment. */
  lemma ExactlyOwn(e0: Elf, e: Elf, mid: nat, k: nat, b: nat)
    requires WellFormed(e0) && Result(e0, e, mid) && NoEmptySections(e0) && Listable(e0)
    requires k < |e.segments| == |e0.segments| && Standing(e0, e, mid, k)
    requires b < |e.sections| && OwnInside(e, k) && NoStrangers(e, k)
    ensures Matches(e.segments[k].hdr, e.sections[b]) <==> b in e0.segments[k].sections
  {
    hide Result, WellFormed, Listable, NoEmptySections;
    if b == 0 {
      NullSectionMatches(e0, e, mid, k);
    } else if b in e0.segments[k].sections {
      SameLists(e0, e, mid, k);
      OwnMatches(e0, e, mid, k, b);
    } else if !e.sections[b].IsAlloc() {
      SameLists(e0, e, mid, k);
      UnallocatedIsOutside(e0, e, mid, k, b);
    }
  }

  lemma SameLists(e0: Elf, e: Elf, mid: nat, k: nat)
    requires WellFormed(e0) && Result(e0, e, mid) && k < |e.segments| == |e0.segments| && Standing(e0, e, mid, k)
    ensures ElfOk(e0) && e.segments[k].sections == e0.segments[k].sections && |e.sections| == |e0.sections|
  {
  }
}
