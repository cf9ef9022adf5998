/** What a section takes of the memory of its segment, in the terms of the two headers: everything allocated,
    but zero-initialised thread-local data only in the segment for thread-local storage. */
module ThreadLocals {
  import opened ElfTypes
  import opened ElfState
  import opened Layout
  import opened FreshRun
  import opened SegmentPass
  import opened SegmentOrder
  import opened LayoutPass
  import opened LayoutTheorems
  import opened Planned
  import Frozen

  /** SHF_ALLOC is bit 1 of the flags, SHF_TLS bit 10, SHT_NOBITS is 8, PT_TLS is 7. */
  predicate TakesMemory(seg: Phdr, s: Shdr) {
    s.flags / 2 % 2 == 1 && !ForeignTbss(seg, s)
  }

  /** A .tbss in a segment that is not for thread-local storage. */
  predicate ForeignTbss(seg: Phdr, s: Shdr) {
    s.flags / 0x400 % 2 == 1 && s.typ == 8 && seg.typ != 7
  }

  lemma CountedTakesMemory(seg: SegmentState, s: SectionState)
    ensures Counted(FrameOf(seg), s) <==> TakesMemory(seg.hdr, s.hdr)
  {
  }

  /** The listed sections that are not null take memory. */
  predicate AllTakeMemory(e: Elf, k: nat)
    requires k < |e.segments|
  {
    forall a :: a in e.segments[k].sections && NonNull(e.sections, a) ==>
      TakesMemory(e.segments[k].hdr, e.sections[a].hdr)
  }

  /** Then the segment's memory in the finished layout reaches exactly to the end of the last of them, whether
      it has bytes or not. */
  predicate MemoryReaches(secs: seq<SectionState>, seg: SegmentState) {
    && (forall a :: a in seg.sections && NonNull(secs, a) ==>
          secs[a].hdr.offset + secs[a].hdr.size <= seg.hdr.offset + seg.hdr.memsz)
    && exists a :: a in seg.sections && NonNull(secs, a) &&
                   secs[a].hdr.offset + secs[a].hdr.size == seg.hdr.offset + seg.hdr.memsz
  }

  lemma MemoryEnds(e: Elf, k: nat, b: nat)
    requires Fitting(e) && k < |e.segments| && AllTakeMemory(e, k)
    requires b in e.segments[k].sections && NonNull(e.sections, b)
    ensures |LaidOut(e).segments| == |e.segments| && MemoryReaches(LaidOut(e).sections, LaidOut(e).segments[k])
  {
    hide LaidOut, LayoutFits, Laminar, SegShape, Order, FileExact, Ascending, TakesMemory, Counted;
    SegmentsAreExact(e, k);
    Frozen.LayoutMoves(e);
    var f := LaidOut(e);
    assert e.sections[b].Moved(f.sections[b]);
    forall a | a in Elems(f.segments[k].sections) && NonNull(f.sections, a)
      ensures Counted(FrameOf(f.segments[k]), f.sections[a])
    {
      assert e.sections[a].Moved(f.sections[a]) && NonNull(e.sections, a);
      SameKindTakes(e.segments[k].hdr, f.segments[k].hdr, e.sections[a], f.sections[a]);
      CountedTakesMemory(f.segments[k], f.sections[a]);
    }
  }

  lemma SameKindTakes(h: Phdr, h': Phdr, s: SectionState, s': SectionState)
    requires h'.typ == h.typ && s.Moved(s')
    ensures TakesMemory(h', s'.hdr) == TakesMemory(h, s.hdr)
  {
  }

  /** The memory image of a segment for thread-local storage has room for a .tbss at its end. */
  lemma TlsMemory(e: Elf, k: nat, b: nat)
    requires Fitting(e) && k < |e.segments| && e.segments[k].hdr.typ == 7
    requires forall a :: a in e.segments[k].sections && NonNull(e.sections, a) ==> e.sections[a].hdr.flags / 2 % 2 == 1
    requires b in e.segments[k].sections && NonNull(e.sections, b)
    ensures |LaidOut(e).segments| == |e.segments| && MemoryReaches(LaidOut(e).sections, LaidOut(e).segments[k])
  {
    MemoryEnds(e, k, b);
  }

  /** The last section of a segment that places its sections, all allocated: the memory ends with it if it is not
      a .tbss in a foreign segment, and before it otherwise. */
  lemma LastTakesMemory(e: Elf, p: nat) returns (from: nat)
    requires Fitting(e) && p < |e.segments| && TopLevel(e, p) && AllAllocated(e, Order(e.segments)[p])
    ensures var k := Order(e.segments)[p];
            var f, list := LaidOut(e), e.segments[k].sections;
            var t := list[|list| - 1];
            && k < |f.segments| && |f.sections| == |e.sections| && from <= f.sections[t].hdr.offset
            && (forall a :: a in list && a != t && NonNull(e.sections, a) ==>
                  f.sections[a].hdr.offset + f.sections[a].hdr.size <= from)
            && f.segments[k].hdr.offset + f.segments[k].hdr.memsz ==
                 (if ForeignTbss(e.segments[k].hdr, e.sections[t].hdr) then from
                  else f.sections[t].hdr.offset + f.sections[t].hdr.size)
            && f.segments[k].hdr.offset <= from
            && (!StartsWithNull(e.segments[k], e.sections) && Dividing(e.sections, list, e.segments[k].hdr.align) ==>
                  from - f.segments[k].hdr.offset + e.segments[k].hdr.vaddr ==
                  EndAddress(e.sections, list[..|list| - 1], e.segments[k].hdr.vaddr))
  {
    hide LaidOut, LayoutFits, Laminar, SegShape, Order, TopLevel, Dividing, EndAddress;
    from := PlacerMemory(e, p);
    var k := Order(e.segments)[p];
    var list := e.segments[k].sections;
    SegmentsAreExact(e, k);
    CountedTakesMemory(e.segments[k], e.sections[list[|list| - 1]]);
  }
}
