/** What laying out one segment establishes, in the three situations a segment can be in. */
module SegmentPass {
  import opened Arith
  import opened ElfTypes
  import opened ElfState
  import opened Layout
  import opened FreshRun
  import NestedRun
  import Ordering

  lemma SegmentGapIsGap(pos: nat, vaddr: nat, align: nat)
    requires 0 < align && 2 * align <= U64
    ensures SegmentGap(pos, vaddr, align) == Gap(pos, vaddr, align)
  {
    GapDoesNotWrap(align, vaddr % align, pos % align);
  }

  lemma GapDoesNotWrap(align: nat, a: nat, b: nat)
    requires a < align && b < align && 2 * align <= U64
    ensures Wrap(align + Wrap(a - b)) == align + a - b
  {
    WrapAdd(align, a - b);
  }

  // ----- what is true of a segment once it is laid out

  /** Only offset and sizes were computed. */
  predicate Resized(seg0: SegmentState, seg: SegmentState) {
    && seg.hdr == seg0.hdr.(offset := seg.hdr.offset, filesz := seg.hdr.filesz, memsz := seg.hdr.memsz)
    && seg == seg0.(hdr := seg.hdr, offsetSet := true)
  }

  function FrameOf(seg: SegmentState): Frame {
    Frame(seg.hdr.typ, seg.hdr.vaddr, seg.hdr.offset)
  }

  /** All file-occupying sections lie inside the segment, and it ends exactly where the last one ends. */
  predicate FileExact(secs: seq<SectionState>, seg: SegmentState) {
    && (forall a :: a in seg.sections && Occupying(secs, a) ==>
          seg.hdr.offset <= secs[a].hdr.offset && secs[a].End() <= seg.hdr.offset + seg.hdr.filesz)
    && ((exists a :: a in seg.sections && Occupying(secs, a)) ==>
          exists a :: a in seg.sections && Occupying(secs, a) && secs[a].End() == seg.hdr.offset + seg.hdr.filesz)
  }

  /** If all its sections count, the memory image covers them and ends exactly where the last one ends. */
  predicate MemoryExact(secs: seq<SectionState>, seg: SegmentState) {
    AllCounted(FrameOf(seg), secs, Elems(seg.sections)) ==>
      && (forall a :: a in seg.sections && NonNull(secs, a) ==>
            && seg.hdr.offset <= secs[a].hdr.offset
            && secs[a].hdr.offset + secs[a].hdr.size <= seg.hdr.offset + seg.hdr.memsz)
      && ((exists a :: a in seg.sections && NonNull(secs, a)) ==>
            exists a :: a in seg.sections && NonNull(secs, a) &&
                        secs[a].hdr.offset + secs[a].hdr.size == seg.hdr.offset + seg.hdr.memsz)
  }

  /** File positions and addresses of the sections run in step. */
  predicate Congruent(secs0: seq<SectionState>, secs: seq<SectionState>, seg: SegmentState)
    requires |secs| == |secs0|
  {
    forall a :: a in seg.sections && NonNull(secs0, a) && Follows(secs0[a]) ==>
      secs[a].hdr.offset - seg.hdr.offset == secs[a].hdr.addr - seg.hdr.vaddr
  }

  predicate SegLaid(secs: seq<SectionState>, seg0: SegmentState, seg: SegmentState) {
    && Resized(seg0, seg)
    && Ascending(secs, Elems(seg.sections))
    && FileExact(secs, seg)
    && MemoryExact(secs, seg)
  }

  /** What holds in addition for a segment whose sections were all placed by it. */
  predicate FreshLaid(secs0: seq<SectionState>, secs: seq<SectionState>, seg: SegmentState)
    requires |secs| == |secs0| && SegmentOk(seg, |secs|)
  {
    && Congruent(secs0, secs, seg)
    && (seg.sections != [] && !StartsWithNull(seg, secs0) ==>
          seg.hdr.offset % seg.hdr.align == seg.hdr.vaddr % seg.hdr.align)
    && (StartsWithNull(seg, secs0) ==> seg.hdr.offset == 0)
  }

  /** A segment as the user must supply it: increasing section indexes, NOBITS last, and not
      just a null section. */
  predicate SegShape(secs: seq<SectionState>, seg: SegmentState) {
    && SegmentOk(seg, |secs|)
    && (|seg.sections| == 1 ==> !secs[seg.sections[0]].IsNull())
    && Ordering.Sorted(seg.sections)
    && NobitsLast(secs, seg.sections)
  }

  predicate NoneMarked(st: LayState, list: seq<nat>) {
    forall k :: 0 <= k < |list| && list[k] < |st.gen| ==> !st.gen[list[k]]
  }

  predicate AllMarked(st: LayState, list: seq<nat>) {
    forall k :: 0 <= k < |list| && list[k] < |st.gen| ==> st.gen[list[k]]
  }

  /** Room for a new segment: its padding and every section in turn, below the class's limit. */
  predicate SegmentFits(cls: ElfClass, h: Ehdr, st: LayState, k: nat)
    requires LayOk(st) && k < |st.segs|
  {
    var seg := st.segs[k];
    var (f, c) := Open(h, st, seg);
    seg.sections != [] && NoneMarked(st, seg.sections) ==>
      && (StartsWithNull(seg, st.secs) ||
          (2 * seg.hdr.align <= U64 && st.pos + Gap(st.pos, seg.hdr.vaddr, seg.hdr.align) < cls.Limit()))
      && RunFits(cls, f, c, seg.sections)
  }

  /** How a new segment begins. */
  lemma OpenFresh(cls: ElfClass, h: Ehdr, st: LayState, k: nat)
    requires LayOk(st) && k < |st.segs| && st.pos < cls.Limit()
    requires st.segs[k].sections != [] && NoneMarked(st, st.segs[k].sections) && SegmentFits(cls, h, st, k)
    ensures var seg := st.segs[k];
            var (f, c) := Open(h, st, seg);
            && f.start <= c.pos < cls.Limit() && st.pos <= c.pos
            && c.filesz == c.memsz == c.pos - f.start
            && (!StartsWithNull(seg, st.secs) ==>
                  f.start == c.pos && f.start % seg.hdr.align == seg.hdr.vaddr % seg.hdr.align)
  {
    var seg := st.segs[k];
    assert cls.Limit() <= U64;
    if !StartsWithNull(seg, st.secs) {
      SegmentGapIsGap(st.pos, seg.hdr.vaddr, seg.hdr.align);
      assert StartsNew(seg, st.gen);
    }
  }

  /** The state after a new segment, in the terms of the walk over its sections. */
  lemma FreshWalk(cls: ElfClass, h: Ehdr, st: LayState, k: nat)
    requires LayOk(st) && k < |st.segs| && st.pos < cls.Limit()
    requires Indexed(st.secs) && SegShape(st.secs, st.segs[k])
    requires st.segs[k].sections != [] && NoneMarked(st, st.segs[k].sections) && SegmentFits(cls, h, st, k)
    ensures var seg := st.segs[k];
            var (f, c) := Open(h, st, seg);
            Walked(cls, f, c, PlaceAll(cls, f, c, seg.sections), Elems(seg.sections))
  {
    OpenFresh(cls, h, st, k);
    var (f, c) := Open(h, st, st.segs[k]);
    WalkAll(cls, f, c, st.segs[k].sections);
  }

  /** The fields stored for a segment are the loop's results, when these fit the class. */
  lemma StoredFields(cls: ElfClass, h: Ehdr, st: LayState, k: nat)
    requires LayOk(st) && k < |st.segs|
    ensures var seg := st.segs[k];
            var (f, c) := Open(h, st, seg);
            var done, r := PlaceAll(cls, f, c, seg.sections), PlaceSegment(cls, h, st, k);
            && r.pos == done.pos && r.secs == done.secs && r.gen == done.gen
            && r.segs == st.segs[k := r.segs[k]] && Resized(seg, r.segs[k])
            && (f.start < cls.Limit() ==> r.segs[k].hdr.offset == f.start)
            && (done.filesz < cls.Limit() ==> r.segs[k].hdr.filesz == done.filesz)
            && (done.memsz < cls.Limit() ==> r.segs[k].hdr.memsz == done.memsz)
  {
  }

  /** Sizes of the loop state, read as facts about the segment. */
  lemma SizesToSegment(cls: ElfClass, f: Frame, secs: seq<SectionState>, seg: SegmentState,
                       filesz: nat, memsz: nat, empty: nat)
    requires f == FrameOf(seg)
    requires EndsAt(secs, Elems(seg.sections), f.start + filesz, empty)
    requires MemoryImage(cls, f, secs, Elems(seg.sections), filesz, memsz)
    requires forall a :: a in seg.sections && NonNull(secs, a) ==> f.start <= secs[a].hdr.offset
    requires (exists a :: a in seg.sections && Occupying(secs, a)) ==> seg.hdr.filesz == filesz
    requires AllCounted(f, secs, Elems(seg.sections)) ==> seg.hdr.memsz == memsz
    ensures FileExact(secs, seg) && MemoryExact(secs, seg)
  {
    if a :| a in seg.sections && Occupying(secs, a) {
      assert a in Elems(seg.sections);
      var b :| b in Elems(seg.sections) && Occupying(secs, b) && secs[b].End() == f.start + filesz;
      assert b in seg.sections && Occupying(secs, b) && secs[b].End() == seg.hdr.offset + seg.hdr.filesz;
    }
    forall a | a in seg.sections && Occupying(secs, a)
      ensures seg.hdr.offset <= secs[a].hdr.offset && secs[a].End() <= seg.hdr.offset + seg.hdr.filesz
    {
      assert a in Elems(seg.sections) && NonNull(secs, a);
    }
  }

  /** What a section placed by this segment looks like. */
  predicate NewlyPlaced(cls: ElfClass, from: nat, to: nat, s0: SectionState, s: SectionState) {
    && s0.Moved(s) && s.addressSet
    && (s0.addressSet ==> s.hdr.addr == s0.hdr.addr)
    && from <= s.hdr.offset && s.End() <= to
    && s.hdr.offset + s.hdr.size < cls.Limit() && s.hdr.addr + s.hdr.size < cls.Limit()
  }

  /** The change of the whole state when a segment places its sections. */
  predicate FreshStep(cls: ElfClass, st: LayState, r: LayState, list: seq<nat>) {
    && st.pos <= r.pos < cls.Limit()
    && |r.secs| == |st.secs| == |r.gen| == |st.gen|
    && (forall i :: 0 <= i < |st.secs| && (i !in list || st.secs[i].IsNull()) ==> r.secs[i] == st.secs[i])
    && (forall i :: 0 <= i < |st.secs| ==> (r.gen[i] <==> st.gen[i] || i in list))
    && (forall a :: a in list && NonNull(st.secs, a) ==> NewlyPlaced(cls, st.pos, r.pos, st.secs[a], r.secs[a]))
    && Ascending(r.secs, Elems(list))
  }

  lemma FreshSegment(cls: ElfClass, h: Ehdr, st: LayState, k: nat)
    requires LayOk(st) && k < |st.segs| && st.pos < cls.Limit()
    requires Indexed(st.secs) && SegShape(st.secs, st.segs[k])
    requires st.segs[k].sections != [] && NoneMarked(st, st.segs[k].sections) && SegmentFits(cls, h, st, k)
    ensures var r := PlaceSegment(cls, h, st, k);
            && FreshStep(cls, st, r, st.segs[k].sections)
            && r.segs == st.segs[k := r.segs[k]]
            && SegLaid(r.secs, st.segs[k], r.segs[k]) && FreshLaid(st.secs, r.secs, r.segs[k])
            && r.segs[k].hdr.offset + r.segs[k].hdr.filesz <= r.pos
            && (StartsWithNull(st.segs[k], st.secs) ==> r.segs[k].hdr.offset == 0)
  {
    OpenFresh(cls, h, st, k);
    FreshWalk(cls, h, st, k);
    StoredFields(cls, h, st, k);
    var seg := st.segs[k];
    var (f, c) := Open(h, st, seg);
    var done := PlaceAll(cls, f, c, seg.sections);
    var r := PlaceSegment(cls, h, st, k);
    WalkedSizes(cls, f, c, done, Elems(seg.sections));
    WalkedSegment(cls, f, c, done, r.segs[k]);
    WalkedStep(cls, f, st, c, done, r, seg.sections);
  }

  /** A finished walk, read as facts about the segment whose fields hold its results. */
  lemma WalkedSegment(cls: ElfClass, f: Frame, c0: Cursor, c: Cursor, seg: SegmentState)
    requires Walked(cls, f, c0, c, Elems(seg.sections)) && f == FrameOf(seg)
    requires seg.hdr.filesz == c.filesz && (c.memsz < cls.Limit() ==> seg.hdr.memsz == c.memsz)
    ensures Ascending(c.secs, Elems(seg.sections)) && FileExact(c.secs, seg) && MemoryExact(c.secs, seg)
    ensures Congruent(c0.secs, c.secs, seg)
  {
    forall a | a in seg.sections && NonNull(c.secs, a)
      ensures f.start <= c.secs[a].hdr.offset
    {
      assert a in Elems(seg.sections) && NonNull(c0.secs, a);
    }
    SizesToSegment(cls, f, c.secs, seg, c.filesz, c.memsz, c0.pos);
    forall a | a in seg.sections && NonNull(c0.secs, a) && Follows(c0.secs[a])
      ensures c.secs[a].hdr.offset - seg.hdr.offset == c.secs[a].hdr.addr - seg.hdr.vaddr
    {
      assert a in Elems(seg.sections);
    }
  }

  lemma WalkedSizes(cls: ElfClass, f: Frame, c0: Cursor, c: Cursor, done: set<nat>)
    requires Walked(cls, f, c0, c, done)
    ensures f.start + c.filesz <= c.pos
  {
    if a :| a in done && Occupying(c.secs, a) && c.secs[a].End() == f.start + c.filesz {
      assert NonNull(c0.secs, a);
    }
  }

  lemma WalkedStep(cls: ElfClass, f: Frame, st: LayState, c0: Cursor, c: Cursor, r: LayState, list: seq<nat>)
    requires Walked(cls, f, c0, c, Elems(list)) && c0.secs == st.secs && c0.gen == st.gen && st.pos <= c0.pos
    requires r.pos == c.pos && r.secs == c.secs && r.gen == c.gen
    ensures FreshStep(cls, st, r, list)
  {
    forall a | a in list && NonNull(st.secs, a)
      ensures NewlyPlaced(cls, st.pos, r.pos, st.secs[a], r.secs[a])
    {
      assert a in Elems(list) && NonNull(c0.secs, a);
    }
  }

  // ----- a segment inside an earlier one

  /** The sections of the list stand in the file in increasing order. */
  predicate Stand(cls: ElfClass, st: LayState, list: seq<nat>) {
    && (forall a :: a in list && NonNull(st.secs, a) ==>
          st.secs[a].hdr.offset + st.secs[a].hdr.size < cls.Limit() && st.secs[a].End() <= st.pos)
    && Ascending(st.secs, Elems(list))
  }

  lemma NestedSegment(cls: ElfClass, h: Ehdr, st: LayState, k: nat)
    requires LayOk(st) && k < |st.segs| && st.pos < cls.Limit()
    requires SegShape(st.secs, st.segs[k]) && Stand(cls, st, st.segs[k].sections)
    requires st.segs[k].sections != [] && AllMarked(st, st.segs[k].sections)
    ensures var r := PlaceSegment(cls, h, st, k);
            && r.pos == st.pos && r.secs == st.secs && r.gen == st.gen
            && r.segs == st.segs[k := r.segs[k]]
            && SegLaid(r.secs, st.segs[k], r.segs[k])
            && r.segs[k].hdr.offset + r.segs[k].hdr.filesz <= r.pos
            && r.segs[k].hdr.offset == (if StartsWithNull(st.segs[k], st.secs) then 0
                                        else st.secs[st.segs[k].sections[0]].hdr.offset)
  {
    StoredFields(cls, h, st, k);
    var seg := st.segs[k];
    var (f, c) := Open(h, st, seg);
    var done := PlaceAll(cls, f, c, seg.sections);
    var r := PlaceSegment(cls, h, st, k);
    NestedStanding(cls, h, st, k);
    NestedRun.RevisitAll(cls, f, c, seg.sections);
    hide PlaceOne, Pad, SecAlign;
    assert done.gen == st.gen;
    assert f == FrameOf(r.segs[k]);
    if b :| b in Elems(seg.sections) && Occupying(st.secs, b) && st.secs[b].End() == f.start + done.filesz {
      assert NonNull(st.secs, b);
    }
    SizesToSegment(cls, f, r.secs, r.segs[k], done.filesz, done.memsz, f.start + c.filesz);
  }

  lemma NestedStanding(cls: ElfClass, h: Ehdr, st: LayState, k: nat)
    requires LayOk(st) && k < |st.segs| && st.pos < cls.Limit()
    requires SegShape(st.secs, st.segs[k]) && Stand(cls, st, st.segs[k].sections)
    requires st.segs[k].sections != [] && AllMarked(st, st.segs[k].sections)
    ensures var seg := st.segs[k];
            var (f, c) := Open(h, st, seg);
            && NestedRun.Standing(cls, f, c, Elems(seg.sections))
            && c.memsz == c.filesz && f.start + c.memsz <= st.pos
  {
    var seg := st.segs[k];
    var list := seg.sections;
    var (f, c) := Open(h, st, seg);
    var first := list[0];
    assert first in Elems(list) && st.gen[first];
    forall a | a in Elems(list) && NonNull(c.secs, a)
      ensures c.gen[a] && f.start <= c.secs[a].hdr.offset
    {
      var j :| 0 <= j < |list| && list[j] == a;
      if !StartsWithNull(seg, st.secs) && j > 0 {
        assert first < a && NonNull(st.secs, first);
      }
    }
  }

  // ----- a segment without sections

  lemma EmptySegment(cls: ElfClass, h: Ehdr, st: LayState, k: nat)
    requires LayOk(st) && k < |st.segs| && st.segs[k].sections == []
    requires st.pos < cls.Limit() && h.phoff < cls.Limit() && h.phentsize * h.phnum < cls.Limit()
    ensures var r := PlaceSegment(cls, h, st, k);
            && r.pos == st.pos && r.secs == st.secs && r.gen == st.gen
            && r.segs == st.segs[k := r.segs[k]]
            && SegLaid(r.secs, st.segs[k], r.segs[k])
            && (if st.segs[k].hdr.typ == 6
                then r.segs[k].hdr.offset == h.phoff &&
                    r.segs[k].hdr.filesz == r.segs[k].hdr.memsz == h.phentsize * h.phnum
                else r.segs[k].hdr.offset == st.pos && r.segs[k].hdr.filesz == 0 && r.segs[k].hdr.memsz == 0)
  {
    StoredFields(cls, h, st, k);
  }

  // ----- a segment of one null section

  /** It has no size, and is aligned like others if the section is new to the layout; the section stays. */
  lemma NullOnlySegment(cls: ElfClass, h: Ehdr, st: LayState, k: nat, i: nat)
    requires LayOk(st) && k < |st.segs| && st.segs[k].sections == [i] && i < |st.secs|
    requires 2 * st.segs[k].hdr.align <= U64 && st.pos + st.segs[k].hdr.align <= cls.Limit()
    requires st.secs[i].IsNull() && st.secs[i].hdr.offset < cls.Limit()
    ensures var seg, r := st.segs[k], PlaceSegment(cls, h, st, k);
            && r.secs == st.secs && r.gen == st.gen[i := true] && r.segs == st.segs[k := r.segs[k]]
            && Resized(seg, r.segs[k]) && r.segs[k].hdr.filesz == 0 && r.segs[k].hdr.memsz == 0
            && (st.gen[i] ==> r.pos == st.pos && r.segs[k].hdr.offset == st.secs[i].hdr.offset)
            && (!st.gen[i] ==>
                  && r.pos == r.segs[k].hdr.offset && st.pos <= r.pos < st.pos + seg.hdr.align
                  && r.pos % seg.hdr.align == seg.hdr.vaddr % seg.hdr.align)
  {
    hide Gap;
    StoredFields(cls, h, st, k);
    var seg := st.segs[k];
    var (f, c) := Open(h, st, seg);
    SegmentGapIsGap(st.pos, seg.hdr.vaddr, seg.hdr.align);
    assert cls.Limit() <= U64;
    assert seg.sections[..0] == [];
    assert PlaceAll(cls, f, c, seg.sections) == PlaceOne(cls, f, c, i);
  }
}
