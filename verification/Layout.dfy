/** The three layout passes of elfio.hpp as functions on the states of sections and segments.
    Every 64-bit computation is reduced with `Wrap`, every stored field with `Trunc`. */
module Layout {
  import opened Arith
  import opened ElfTypes
  import opened ElfState
  import Ordering

  /** Reducing an operand first does not change a reduced sum. */
  lemma WrapAdd(x: int, y: int)
    ensures Wrap(x + Wrap(y)) == Wrap(x + y)
  {
    var k := y / U64;
    assert y == k * U64 + y % U64;
    assert Wrap(y) == y % U64 by {
      if 0 <= y < U64 {
        ModOfSmall(y, U64);
      }
    }
    assert x + Wrap(y) == (x + y) + (-k) * U64;
    ModShift(x + y, -k, U64);
    WrapIsMod(x + y);
    WrapIsMod(x + Wrap(y));
  }

  lemma WrapIsMod(v: int)
    ensures Wrap(v) == v % U64
  {
    if 0 <= v < U64 {
      ModOfSmall(v, U64);
    }
  }

  // ----- one section inside a segment

  /** The loop state of `layout_segments_and_their_sections` while it walks one segment. */
  datatype Cursor = Cursor(pos: nat, secs: seq<SectionState>, gen: seq<bool>, filesz: nat, memsz: nat) {
    predicate Has(i: nat) {
      i < |secs| && |gen| == |secs|
    }
  }

  /** What the section loop knows about its segment. */
  datatype Frame = Frame(typ: nat, vaddr: nat, start: nat)

  /** Bytes skipped before section i. */
  function SecAlign(f: Frame, c: Cursor, i: nat): nat
    requires c.Has(i)
  {
    var s := c.secs[i];
    if !c.gen[i] && s.addressSet && !s.IsNobits() then
      Wrap(Wrap(s.hdr.addr - f.vaddr) - Wrap(c.pos - f.start))
    else if !c.gen[i] then Pad(c.pos, s.hdr.addrAlign)
    else Wrap(s.hdr.offset - f.start - c.filesz)
  }

  /** Sections that take up room in the segment's memory image: .tbss does only in a TLS segment. */
  predicate Counted(f: Frame, s: SectionState) {
    s.IsAlloc() && !(s.IsTls() && f.typ != PT_TLS && s.IsNobits())
  }

  /** One turn of the section loop. */
  function PlaceOne(cls: ElfClass, f: Frame, c: Cursor, i: nat): (r: Cursor)
    requires c.Has(i)
    ensures |r.secs| == |c.secs| && |r.gen| == |c.gen|
  {
    var s := c.secs[i];
    if s.IsNull() then c.(gen := c.gen[i := true])
    else
      var skip := SecAlign(f, c, i);
      var memsz := if Counted(f, s) then Wrap(c.memsz + s.hdr.size + skip) else c.memsz;
      var filesz := if s.IsNobits() then c.filesz else Wrap(c.filesz + s.hdr.size + skip);
      if c.gen[i] then c.(filesz := filesz, memsz := memsz)
      else
        var pos := Wrap(c.pos + skip);
        var addressed := if s.addressSet then s else s.WithAddress(cls.Trunc(Wrap(f.vaddr + pos - f.start)));
        var placed := if s.index != 0 then addressed.WithOffset(cls.Trunc(pos)) else addressed;
        Cursor(if s.IsNobits() then pos else Wrap(pos + s.hdr.size),
               c.secs[i := placed], c.gen[i := true], filesz, memsz)
  }

  predicate Within(list: seq<nat>, n: nat) {
    forall k :: 0 <= k < |list| ==> list[k] < n
  }

  /** The section loop over a whole list. */
  function PlaceAll(cls: ElfClass, f: Frame, c: Cursor, list: seq<nat>): (r: Cursor)
    requires |c.gen| == |c.secs| && Within(list, |c.secs|)
    ensures |r.secs| == |c.secs| && |r.gen| == |c.gen|
  {
    if list == [] then c
    else PlaceOne(cls, f, PlaceAll(cls, f, c, list[..|list| - 1]), list[|list| - 1])
  }

  // ----- one segment

  datatype LayState = LayState(pos: nat, secs: seq<SectionState>, gen: seq<bool>, segs: seq<SegmentState>)

  predicate SegmentOk(seg: SegmentState, n: nat) {
    Within(seg.sections, n) && (seg.sections != [] ==> seg.hdr.align > 0)
  }

  /** The sizes agree, every segment lists existing sections, and no aligned segment has alignment 0. */
  predicate LayOk(st: LayState) {
    && |st.gen| == |st.secs|
    && forall m :: 0 <= m < |st.segs| ==> SegmentOk(st.segs[m], |st.secs|)
  }

  /** Bytes skipped so that a new segment starts congruent to its virtual address. */
  function SegmentGap(pos: nat, vaddr: nat, align: nat): nat
    requires align > 0
  {
    Wrap(align + Wrap(vaddr % align - pos % align)) % align
  }

  predicate IsBarePhdr(seg: SegmentState) {
    seg.hdr.typ == PT_PHDR && seg.sections == []
  }

  predicate StartsWithNull(seg: SegmentState, secs: seq<SectionState>)
    requires Within(seg.sections, |secs|)
  {
    |seg.sections| > 1 && secs[seg.sections[0]].IsNull()
  }

  /** The first section exists and has not been generated by an earlier segment. */
  predicate StartsNew(seg: SegmentState, gen: seq<bool>)
    requires Within(seg.sections, |gen|)
  {
    seg.sections != [] && !gen[seg.sections[0]]
  }

  /** The cursor with which the section loop of a segment begins, and the segment's start. */
  function Open(h: Ehdr, st: LayState, seg: SegmentState): (r: (Frame, Cursor))
    requires |st.gen| == |st.secs| && SegmentOk(seg, |st.secs|)
    ensures r.1.secs == st.secs && r.1.gen == st.gen
    ensures r.0.typ == seg.hdr.typ && r.0.vaddr == seg.hdr.vaddr
  {
    var typ, vaddr := seg.hdr.typ, seg.hdr.vaddr;
    if IsBarePhdr(seg) then
      var table := h.phentsize * h.phnum;
      (Frame(typ, vaddr, h.phoff), Cursor(st.pos, st.secs, st.gen, table, table))
    else if StartsWithNull(seg, st.secs) then
      (Frame(typ, vaddr, 0), Cursor(st.pos, st.secs, st.gen, st.pos, st.pos))
    else if StartsNew(seg, st.gen) then
      var pos := Wrap(st.pos + SegmentGap(st.pos, vaddr, seg.hdr.align));
      (Frame(typ, vaddr, pos), Cursor(pos, st.secs, st.gen, 0, 0))
    else if seg.sections != [] then
      (Frame(typ, vaddr, st.secs[seg.sections[0]].hdr.offset), Cursor(st.pos, st.secs, st.gen, 0, 0))
    else (Frame(typ, vaddr, st.pos), Cursor(st.pos, st.secs, st.gen, 0, 0))
  }

  /** One turn of the segment loop. */
  function PlaceSegment(cls: ElfClass, h: Ehdr, st: LayState, k: nat): (r: LayState)
    requires LayOk(st) && k < |st.segs|
    ensures LayOk(r) && |r.secs| == |st.secs| && |r.segs| == |st.segs|
  {
    var seg := st.segs[k];
    var (f, c) := Open(h, st, seg);
    var done := PlaceAll(cls, f, c, seg.sections);
    var placed := seg.WithLayout(cls.Trunc(f.start), cls.Trunc(done.filesz), cls.Trunc(done.memsz));
    LayState(done.pos, done.secs, done.gen, st.segs[k := placed])
  }

  function PlaceSegments(cls: ElfClass, h: Ehdr, st: LayState, order: seq<nat>): (r: LayState)
    requires LayOk(st) && Within(order, |st.segs|)
    ensures LayOk(r) && |r.secs| == |st.secs| && |r.segs| == |st.segs|
  {
    if order == [] then st
    else PlaceSegment(cls, h, PlaceSegments(cls, h, st, order[..|order| - 1]), order[|order| - 1])
  }

  // ----- sections without segments

  predicate IsLoose(segs: seq<SegmentState>, i: nat) {
    forall m :: 0 <= m < |segs| ==> i !in segs[m].sections
  }

  /** One turn of `layout_sections_without_segments`. */
  function PlaceLoose(cls: ElfClass, st: LayState, i: nat): (r: LayState)
    requires i < |st.secs|
    ensures |r.secs| == |st.secs| && r.gen == st.gen && r.segs == st.segs
  {
    var s := st.secs[i];
    if !IsLoose(st.segs, i) then st
    else
      var pos := Wrap(st.pos + Pad(st.pos, s.hdr.addrAlign));
      var placed := if s.index != 0 then s.WithOffset(cls.Trunc(pos)) else s;
      st.(pos := if s.Occupies() then Wrap(pos + s.hdr.size) else pos, secs := st.secs[i := placed])
  }

  /** The first n turns of that loop. */
  function PlaceLooseUpTo(cls: ElfClass, st: LayState, n: nat): (r: LayState)
    requires n <= |st.secs|
    ensures |r.secs| == |st.secs| && r.gen == st.gen && r.segs == st.segs
  {
    if n == 0 then st else PlaceLoose(cls, PlaceLooseUpTo(cls, st, n - 1), n - 1)
  }

  // ----- the whole layout, as `save` runs it

  function Lists(segs: seq<SegmentState>): (r: seq<seq<nat>>)
    ensures |r| == |segs|
    ensures forall m :: 0 <= m < |segs| ==> r[m] == segs[m].sections
  {
    seq(|segs|, m requires 0 <= m < |segs| => segs[m].sections)
  }

  function Zeros(segs: seq<SegmentState>): (r: seq<bool>)
    ensures |r| == |segs|
    ensures forall m :: 0 <= m < |segs| ==> r[m] == segs[m].AtZero()
  {
    seq(|segs|, m requires 0 <= m < |segs| => segs[m].AtZero())
  }

  function Order(segs: seq<SegmentState>): (order: seq<nat>)
    ensures |order| == |segs| && Within(order, |segs|)
  {
    Ordering.OrderedIsTopological(Lists(segs), Zeros(segs));
    var order := Ordering.Ordered(Lists(segs), Zeros(segs));
    assert |multiset(order)| == |multiset(Ordering.Range(|segs|))|;
    order
  }

  predicate ElfOk(e: Elf) {
    forall m :: 0 <= m < |e.segments| ==> SegmentOk(e.segments[m], |e.sections|)
  }

  /** The header fields `save` fixes before the layout. */
  function Prepared(e: Elf): Ehdr {
    var phnum := |e.segments| % U16;
    e.hdr.(phnum := phnum, phoff := if phnum != 0 then e.hdr.ehsize else 0,
           shnum := |e.sections| % U16, shoff := 0)
  }

  /** The first section goes right after the program header table. */
  function InitialState(e: Elf): LayState {
    LayState(e.hdr.ehsize + e.hdr.phentsize * (|e.segments| % U16), e.sections,
             seq(|e.sections|, _ => false), e.segments)
  }

  /** After the segments, the sections without segments, and the section table at the end. */
  function AfterSegments(e: Elf): (r: LayState)
    requires ElfOk(e)
    ensures LayOk(r) && |r.secs| == |e.sections| && |r.segs| == |e.segments|
  {
    PlaceSegments(e.cls, Prepared(e), InitialState(e), Order(e.segments))
  }

  function AfterSections(e: Elf): (r: LayState)
    requires ElfOk(e)
    ensures LayOk(r) && |r.secs| == |e.sections| && |r.segs| == |e.segments|
  {
    PlaceLooseUpTo(e.cls, AfterSegments(e), |e.sections|)
  }

  function TablePosition(pos: nat): nat {
    Wrap(pos + Pad(pos, 4))
  }

  function LaidOut(e: Elf): Elf
    requires ElfOk(e)
  {
    var st := AfterSections(e);
    e.(hdr := Prepared(e).(shoff := e.cls.Trunc(TablePosition(st.pos))), sections := st.secs, segments := st.segs)
  }
}
