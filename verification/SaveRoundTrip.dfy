/** From the object a user builds to the file `save` writes and the object `load` makes of it. */
module SaveRoundTrip {
  import opened Convertor
  import opened ElfTypes
  import opened ElfState
  import opened Layout
  import opened FreshRun
  import opened SegmentPass
  import opened LayoutPass
  import opened LoosePass
  import opened LayoutTheorems
  import opened FileFormat
  import opened SaveLoad
  import Bytes

  // ----- the layout stores only values that fit their fields

  predicate SectionBounded(cls: ElfClass, s: SectionState) {
    s.hdr.addr < cls.Limit() && s.hdr.offset < cls.Limit()
  }

  predicate SectionsBounded(cls: ElfClass, secs: seq<SectionState>) {
    forall i :: 0 <= i < |secs| ==> SectionBounded(cls, secs[i])
  }

  predicate SegmentBounded(cls: ElfClass, seg: SegmentState) {
    seg.hdr.offset < cls.Limit() && seg.hdr.filesz < cls.Limit() && seg.hdr.memsz < cls.Limit()
  }

  predicate SegmentsBounded(cls: ElfClass, segs: seq<SegmentState>) {
    forall k :: 0 <= k < |segs| ==> SegmentBounded(cls, segs[k])
  }

  lemma {:induction false} WalkBounded(cls: ElfClass, f: Frame, c: Cursor, list: seq<nat>)
    requires |c.gen| == |c.secs| && Within(list, |c.secs|) && SectionsBounded(cls, c.secs)
    ensures SectionsBounded(cls, PlaceAll(cls, f, c, list).secs)
  {
    if list != [] {
      WalkBounded(cls, f, c, list[..|list| - 1]);
    }
  }

  lemma {:induction false} SegmentPassBounded(cls: ElfClass, h: Ehdr, st: LayState, order: seq<nat>)
    requires LayOk(st) && Within(order, |st.segs|)
    requires SectionsBounded(cls, st.secs) && SegmentsBounded(cls, st.segs)
    ensures SectionsBounded(cls, PlaceSegments(cls, h, st, order).secs)
    ensures SegmentsBounded(cls, PlaceSegments(cls, h, st, order).segs)
  {
    if order != [] {
      SegmentPassBounded(cls, h, st, order[..|order| - 1]);
      var before := PlaceSegments(cls, h, st, order[..|order| - 1]);
      var (f, c) := Open(h, before, before.segs[order[|order| - 1]]);
      WalkBounded(cls, f, c, before.segs[order[|order| - 1]].sections);
    }
  }

  lemma {:induction false} LoosePassBounded(cls: ElfClass, st: LayState, n: nat)
    requires n <= |st.secs| && SectionsBounded(cls, st.secs)
    ensures SectionsBounded(cls, PlaceLooseUpTo(cls, st, n).secs)
  {
    if n > 0 {
      LoosePassBounded(cls, st, n - 1);
    }
  }

  lemma LaidOutBounded(e: Elf)
    requires ElfOk(e) && SectionsBounded(e.cls, e.sections) && SegmentsBounded(e.cls, e.segments)
    ensures SectionsBounded(e.cls, LaidOut(e).sections) && SegmentsBounded(e.cls, LaidOut(e).segments)
    ensures LaidOut(e).hdr.shoff < e.cls.Limit()
  {
    SegmentPassBounded(e.cls, Prepared(e), InitialState(e), Order(e.segments));
    LoosePassBounded(e.cls, AfterSegments(e), |e.sections|);
  }

  // ----- the object a user hands to save

  /** The identification names the class and the byte order, and the record sizes are the class's. */
  predicate StandardHeader(e: Elf) {
    && EhdrFits(e.cls, e.hdr)
    && e.hdr.ident[..4] == MAGIC && ClassOf(e.hdr.ident[EI_CLASS]) == Some(e.cls)
    && e.conv == Setup(e.conv.host, e.hdr.ident[EI_DATA])
    && e.hdr.ehsize == e.cls.EhdrSize() && e.hdr.phentsize == e.cls.PhdrSize() && e.hdr.shentsize == e.cls.ShdrSize()
  }

  /** The section's data has the size its header says, and every field fits its width. */
  predicate StandardSection(e: Elf, i: nat)
    requires i < |e.sections|
  {
    ShdrFits(e.cls, e.sections[i].hdr) && (e.sections[i].Occupies() ==> |e.sections[i].data| == e.sections[i].hdr.size)
  }

  predicate StandardSegment(e: Elf, k: nat)
    requires k < |e.segments|
  {
    PhdrFits(e.cls, e.segments[k].hdr) && e.segments[k].index == k
  }

  predicate StandardParts(e: Elf) {
    && (forall i {:trigger StandardSection(e, i)} :: 0 <= i < |e.sections| ==> StandardSection(e, i))
    && (forall k {:trigger StandardSegment(e, k)} :: 0 <= k < |e.segments| ==> StandardSegment(e, k))
  }

  predicate Saveable(e: Elf) {
    Fitting(e) && StandardHeader(e) && StandardParts(e) && NamesResolve(e)
  }

  lemma SaveableIsOk(e: Elf)
    requires Saveable(e)
    ensures ElfOk(e) && Fitting(e)
  {
  }

  lemma PartsBounded(e: Elf)
    requires StandardParts(e)
    ensures SectionsBounded(e.cls, e.sections) && SegmentsBounded(e.cls, e.segments)
  {
    assert forall i :: 0 <= i < |e.sections| ==> StandardSection(e, i) && SectionBounded(e.cls, e.sections[i]);
    assert forall k :: 0 <= k < |e.segments| ==> StandardSegment(e, k) && SegmentBounded(e.cls, e.segments[k]);
  }

  // ----- the finished layout, as the writer needs it

  lemma TablesFirst(e0: Elf, e: Elf, mid: nat)
    requires WellFormed(e0) && Result(e0, e, mid)
    ensures TableEnd(e) <= Base(e0) && e.hdr.shnum == |e.sections| && e.hdr.phnum == |e.segments|
    ensures e.segments != [] ==> e.hdr.phoff == e.hdr.ehsize
  {
    hide SectionsResult, SegmentsResult;
    assert |e.sections| == |e0.sections| && |e.segments| == |e0.segments| by {
      SameCounts(e0, e, mid);
    }
  }

  lemma SameCounts(e0: Elf, e: Elf, mid: nat)
    requires Result(e0, e, mid)
    ensures |e.sections| == |e0.sections| && |e.segments| == |e0.segments|
  {
  }

  lemma ArrangedFrom(e: Elf, i: nat, s: SectionState)
    requires i < |e.sections| && s.Moved(e.sections[i]) && s.index == i
    requires s.Occupies() ==> |s.data| == s.hdr.size
    requires !s.IsNull() ==> TableEnd(e) <= e.sections[i].hdr.offset && e.sections[i].End() <= e.hdr.shoff
    ensures ArrangedSection(e, i)
  {
  }

  lemma FinishedSection(e0: Elf, e: Elf, mid: nat, i: nat)
    requires WellFormed(e0) && Result(e0, e, mid) && StandardParts(e0) && i < |e.sections|
    ensures ArrangedSection(e, i)
  {
    hide SegmentsResult, Base, TableEnd, LayoutPass.Apart, NewlyPlaced, LooselyPlaced, ArrangedSection;
    TablesFirst(e0, e, mid);
    if !e0.sections[i].IsNull() {
      OneFromResult(e0, e, mid, i);
    }
    assert StandardSection(e0, i);
    ArrangedFrom(e, i, e0.sections[i]);
  }

  lemma FinishedSections(e0: Elf, e: Elf, mid: nat)
    requires WellFormed(e0) && Result(e0, e, mid) && StandardParts(e0)
    ensures forall i :: 0 <= i < |e.sections| ==> ArrangedSection(e, i)
    ensures DataApart(e)
  {
    hide WellFormed, SegmentsResult, Base, TableEnd, LayoutPass.Apart, NewlyPlaced, LooselyPlaced, ArrangedSection;
    forall i | 0 <= i < |e.sections|
      ensures ArrangedSection(e, i)
    {
      FinishedSection(e0, e, mid, i);
    }
    forall i, j | 0 <= i < |e.sections| && 0 <= j < |e.sections| && i != j &&
                  WritesData(e.sections[i]) && WritesData(e.sections[j])
      ensures e.sections[i].End() <= e.sections[j].hdr.offset || e.sections[j].End() <= e.sections[i].hdr.offset
    {
      assert e0.sections[i].Moved(e.sections[i]) && e0.sections[j].Moved(e.sections[j]);
      PartsFromResult(e0, e, mid, i, j);
    }
  }

  lemma FinishedSegments(e0: Elf, e: Elf, mid: nat)
    requires Result(e0, e, mid)
    ensures |e.segments| == |e0.segments|
    ensures forall k :: 0 <= k < |e.segments| ==> Resized(e0.segments[k], e.segments[k])
    ensures forall k :: 0 <= k < |e.segments| ==>
              e.segments[k].hdr.offset + e.segments[k].hdr.filesz <= e.hdr.shoff
  {
    forall k | 0 <= k < |e.segments|
      ensures Resized(e0.segments[k], e.segments[k])
      ensures e.segments[k].hdr.offset + e.segments[k].hdr.filesz <= e.hdr.shoff
    {
      var p := PositionOf(e0, k);
      assert SegmentDone(e0, p, mid, e.sections, e.segments[k]);
    }
  }

  lemma FinishedArranged(e0: Elf, e: Elf, mid: nat)
    requires WellFormed(e0) && Result(e0, e, mid) && StandardHeader(e0) && StandardParts(e0)
    ensures Arranged(e)
  {
    hide LayoutPass.Apart, SectionsResult, SegmentsResult, ArrangedSection, DataApart;
    TablesFirst(e0, e, mid);
    FinishedSections(e0, e, mid);
    FinishedSegments(e0, e, mid);
    forall k | 0 <= k < |e.segments|
      ensures e.segments[k].index == k
    {
      assert StandardSegment(e0, k) && Resized(e0.segments[k], e.segments[k]);
    }
  }

  lemma FinishedEncodable(e0: Elf, e: Elf, mid: nat)
    requires WellFormed(e0) && Result(e0, e, mid) && StandardHeader(e0) && StandardParts(e0)
    requires SectionsBounded(e.cls, e.sections) && SegmentsBounded(e.cls, e.segments)
    ensures Encodable(e)
  {
    TableBounds(e0);
    forall i | 0 <= i < |e.sections|
      ensures ShdrFits(e.cls, e.sections[i].hdr)
    {
      assert StandardSection(e0, i);
      assert SectionBounded(e.cls, e.sections[i]) && e0.sections[i].Moved(e.sections[i]);
    }
    FinishedSegments(e0, e, mid);
    forall k | 0 <= k < |e.segments|
      ensures PhdrFits(e.cls, e.segments[k].hdr)
    {
      assert StandardSegment(e0, k);
      assert SegmentBounded(e.cls, e.segments[k]) && Resized(e0.segments[k], e.segments[k]);
    }
  }

  /** Moving sections does not change what their name offsets resolve to. */
  lemma NamesStay(e0: Elf, e: Elf)
    requires NamesResolve(e0) && |e.sections| == |e0.sections| && e.hdr.shstrndx == e0.hdr.shstrndx
    requires forall i :: 0 <= i < |e.sections| ==> e0.sections[i].Moved(e.sections[i])
    ensures NamesResolve(e)
  {
    hide NameResolves;
    forall i | 0 <= i < |e.sections|
      ensures NameResolves(e, i)
    {
      assert NameResolves(e0, i);
      NameStays(e0, e, i);
    }
  }

  lemma NameStays(e0: Elf, e: Elf, i: nat)
    requires |e.sections| == |e0.sections| && e.hdr.shstrndx == e0.hdr.shstrndx
    requires forall i :: 0 <= i < |e.sections| ==> e0.sections[i].Moved(e.sections[i])
    requires i < |e.sections| && NameResolves(e0, i)
    ensures NameResolves(e, i)
  {
    assert e0.sections[i].Moved(e.sections[i]);
    var x := e0.hdr.shstrndx;
    if x < |e.sections| {
      assert e0.sections[x].Moved(e.sections[x]);
    }
  }

  /** What the user chose of the ELF header stays; only where the tables are and how many records they have is
      filled in. */
  predicate HeaderKept(h0: Ehdr, h: Ehdr, segments: nat, sections: nat) {
    && h.ident == h0.ident && h.typ == h0.typ && h.machine == h0.machine && h.version == h0.version
    && h.entry == h0.entry && h.flags == h0.flags && h.shstrndx == h0.shstrndx
    && h.ehsize == h0.ehsize && h.phentsize == h0.phentsize && h.shentsize == h0.shentsize
    && h.phnum == segments && h.shnum == sections
    && h.phoff == if segments > 0 then h0.ehsize else 0
  }

  lemma LayoutKeepsHeader(e: Elf)
    requires ElfOk(e) && |e.segments| < 0x1_0000 && |e.sections| < 0x1_0000
    ensures HeaderKept(e.hdr, LaidOut(e).hdr, |e.segments|, |e.sections|)
    ensures LaidOut(e).cls == e.cls && LaidOut(e).conv == e.conv
    ensures |LaidOut(e).segments| == |e.segments| && |LaidOut(e).sections| == |e.sections|
  {
    hide AfterSections;
  }

  /** The file of a laid-out object can be read back: what `save` places, `load` finds again, and the header
      is the one the user built. */
  lemma SaveThenLoad(e: Elf)
    requires Saveable(e)
    ensures |LaidOut(e).hdr.ident| == EI_NIDENT
    ensures var file := Image(LaidOut(e));
            var r := LoadFrom(e.conv.host, file);
            && r.Some? && r.value.0 == Reloaded(LaidOut(e), file) && r.value.1.ok
            && HeaderKept(e.hdr, r.value.0.hdr, |e.segments|, |e.sections|)
            && r.value.0.cls == e.cls && r.value.0.conv == e.conv
            && |r.value.0.segments| == |e.segments| && |r.value.0.sections| == |e.sections|
    ensures forall i :: 0 <= i < |e.sections| ==>
              e.sections[i].Moved(LaidOut(e).sections[i])
    ensures forall k :: 0 <= k < |e.segments| ==>
              Resized(e.segments[k], LaidOut(e).segments[k])
  {
    hide LaidOut, AfterSegments, FileFormat.Image, LoadFrom, Reloaded, NamesResolve, SectionsBounded,
         SegmentsBounded, LayoutFits, HeaderKept;
    LayoutResult(e);
    PartsBounded(e);
    LaidOutBounded(e);
    LoadOfFinished(e, LaidOut(e), AfterSegments(e).pos);
    LayoutKeepsHeader(e);
    ReloadedShape(LaidOut(e), Image(LaidOut(e)));
  }

  lemma ReloadedShape(f: Elf, file: seq<Bytes.byte>)
    ensures var g := Reloaded(f, file);
            && g.hdr == f.hdr && g.cls == f.cls && g.conv == f.conv
            && |g.segments| == |f.segments| && |g.sections| == |f.sections|
  {
  }

  lemma LoadOfFinished(e0: Elf, e: Elf, mid: nat)
    requires WellFormed(e0) && Result(e0, e, mid) && StandardHeader(e0) && StandardParts(e0) && NamesResolve(e0)
    requires SectionsBounded(e.cls, e.sections) && SegmentsBounded(e.cls, e.segments)
    ensures |e.hdr.ident| == EI_NIDENT
    ensures var r := LoadFrom(e.conv.host, Image(e));
            r.Some? && r.value.0 == Reloaded(e, Image(e)) && r.value.1.ok
    ensures forall k :: 0 <= k < |e.segments| ==> Resized(e0.segments[k], e.segments[k])
  {
    hide FileFormat.Image, LoadFrom, Reloaded, NamesResolve, SectionsBounded, SegmentsBounded, Arranged,
         SegmentsResult;
    FinishedArranged(e0, e, mid);
    FinishedEncodable(e0, e, mid);
    FinishedSegments(e0, e, mid);
    NamesStay(e0, e);
    LoadOfSave(e);
  }
}
