/** Segments with two addressed sections: addresses that overlap, and addresses that only descend. */
module Pairs {
  import opened Bytes
  import opened Convertor
  import opened ElfTypes
  import opened ElfState
  import opened Arith
  import opened Layout
  import opened FreshRun
  import opened SegmentPass
  import opened SegmentOrder
  import opened LayoutPass
  import opened LayoutTheorems
  import opened Budget
  import opened Overlap
  import opened Scatter
  import opened AddressPlan
  import opened SmallObjects
  import opened FileImage
  import FileFormat
  import Frozen
  import Records

  /** Two sections of one segment at addresses x and y. */
  function Pair(x: nat, m: nat, y: nat, n: nat): Elf {
    Object(Filled(1, x, true, 1, m), Filled(2, y, true, 1, n), [Segment(0, 0x1000, 1, [1, 2])])
  }

  predicate InPage(x: nat, m: nat) {
    0x1000 <= x < 0x8000 && m < 0x1000
  }

  lemma PairIsAddressed(x: nat, m: nat, y: nat, n: nat)
    requires InPage(x, m) && InPage(y, n)
    ensures var e := Pair(x, m, y, n);
            && Addressed(e) && Base(e) == 84 && PlacerAt(e, 0) &&
                 e.segments[Layout.Order(e.segments)[0]] == e.segments[0]
            && CursorBefore(e, 1) == 84 + (y - 0x1000) + n
  {
    hide LaidOut;
    var e := Pair(x, m, y, n);
    assert e.segments[0].sections == [1, 2];
    assert WellFormed(e);
    OrderFacts(e.segments);
    assert Layout.Order(e.segments) == [0] && Layout.Order(e.segments)[..0] == [] && TopLevel(e, 0);
    var both: seq<nat> := [1, 2];
    assert both[..1] == [1] && both[..1][..0] == [];
    assert Reach(e.sections, 0x1000, both[..1], 0) == x - 0x1000 + m;
    assert Bound(e, 0) == Base(e) && Bound(e, 1) < 0x1_0000;
    LooseCostOfThree(e.sections);
  }

  /** A segment that is the only one, with sections 1 and 2. */
  predicate Sole(e: Elf) {
    && |e.sections| == 3 && |e.segments| == 1 && e.segments[0].sections == [1, 2] && e.segments[0].hdr.align == 1
    && e.sections[0].IsNull() && e.sections[0].hdr.addrAlign == 0 && !e.sections[1].IsNull() && !e.sections[2].IsNull()
  }

  lemma PairStart(e: Elf)
    requires Sole(e) && Addressed(e) && PlacerAt(e, 0) && e.segments[Layout.Order(e.segments)[0]] == e.segments[0]
    ensures StartAt(e, 0) == Base(e)
  {
    assert CursorBefore(e, 0) == Base(e);
    assert SegmentGap(Base(e), e.segments[0].hdr.vaddr, 1) == 0;
  }

  lemma SolePlace(e: Elf, a: nat)
    requires Sole(e) && Addressed(e) && PlacerAt(e, 0) && e.segments[Layout.Order(e.segments)[0]] == e.segments[0]
    requires a == 1 || a == 2
    ensures |LaidOut(e).sections| == 3 && e.segments[0].hdr.vaddr <= e.sections[a].hdr.addr
    ensures LaidOut(e).sections[a] ==
              e.sections[a].WithOffset(Base(e) + (e.sections[a].hdr.addr - e.segments[0].hdr.vaddr))
  {
    hide LaidOut, PlacerAt, Layout.Order, CursorBefore, StartAt;
    PairStart(e);
    assert e.segments[0].sections[a - 1] == a;
    PlacedAsPlanned(e, 0, a);
  }

  lemma SoleTable(e: Elf)
    requires Sole(e) && Addressed(e)
    ensures |LaidOut(e).sections| == 3 && LaidOut(e).sections[0].IsNull()
    ensures LaidOut(e).hdr == Prepared(e).(shoff := CursorBefore(e, 1) + Pad(CursorBefore(e, 1), 4))
  {
    hide LaidOut, PlacerAt, Layout.Order, CursorBefore, Pad, Addressed;
    TableAsPlanned(e);
    PairLoose(e, CursorBefore(e, 1));
    Frozen.LayoutMoves(e);
    assert e.sections[0].Moved(LaidOut(e).sections[0]);
  }

  /** Where the layout puts the two sections and the section table. */
  lemma PairPlaces(x: nat, m: nat, y: nat, n: nat)
    requires InPage(x, m) && InPage(y, n)
    ensures var e := Pair(x, m, y, n);
            var end := 84 + (y - 0x1000) + n;
            ElfOk(e) && var f := LaidOut(e);
              && f.hdr == Prepared(e).(shoff := end + Pad(end, 4)) && |f.sections| == 3
              && f.sections[0].IsNull()
              && f.sections[1] == e.sections[1].WithOffset(84 + (x - 0x1000))
              && f.sections[2] == e.sections[2].WithOffset(84 + (y - 0x1000))
  {
    hide LaidOut, Addressed, PlacerAt, Layout.Order, CursorBefore, Pad, Prepared, Base;
    var e := Pair(x, m, y, n);
    PairIsAddressed(x, m, y, n);
    SolePlace(e, 1);
    SolePlace(e, 2);
    SoleTable(e);
  }

  lemma PairLoose(e: Elf, pos: nat)
    requires Sole(e)
    ensures LooseEnd(e, pos, 3) == pos
  {
    assert 1 in e.segments[0].sections by { assert e.segments[0].sections[0] == 1; }
    assert 2 in e.segments[0].sections by { assert e.segments[0].sections[1] == 2; }
    assert LooseEnd(e, pos, 0) == pos && LooseEnd(e, pos, 1) == pos;
    assert LooseEnd(e, pos, 2) == LooseEnd(e, pos, 1);
  }

  /** The two overlap in the file exactly if their addresses do; in which order these come does not matter.
      But the table overlaps neither exactly if the second section, behind which it goes, ends highest, but
      for what the table's alignment leaves. */
  lemma PairDecided(x: nat, m: nat, y: nat, n: nat)
    requires InPage(x, m) && InPage(y, n)
    ensures ElfOk(Pair(x, m, y, n)) && |LaidOut(Pair(x, m, y, n)).sections| == 3
    ensures var f := LaidOut(Pair(x, m, y, n));
            FileApart(f.sections[1], f.sections[2]) <==> x + m <= y || y + n <= x
    ensures var f, end := LaidOut(Pair(x, m, y, n)), 84 + (y - 0x1000) + n;
            FileClear(f) <==> (x + m <= y || y + n <= x) && 84 + (x - 0x1000) + m <= end + Pad(end, 4)
  {
    hide LaidOut, Pad;
    PairPlaces(x, m, y, n);
    var end := 84 + (y - 0x1000) + n;
    TableFits(Class32, end, Class32.Trunc(TablePosition(end)));
    TableIs(Class32, end);
  }

  /** Sixteen bytes at 0x1000 and at 0x1008 overlap in the file as well. Four bytes at 0x1064 and five at
      0x100A do not, but the section table is put over the first ones. */
  lemma OverlapAndDescent()
    ensures var f := LaidOut(Pair(0x1000, 16, 0x1008, 16));
            |f.sections| == 3 && !FileApart(f.sections[1], f.sections[2])
    ensures var e := Pair(0x1064, 4, 0x100A, 5);
            var f := LaidOut(e);
            && |f.sections| == 3 && FileApart(f.sections[1], f.sections[2]) && !Roomy(e.sections, 0x1000, [1, 2], 0)
            && f.hdr.shoff == 100 && f.hdr.shentsize == 40 && f.hdr.shnum == 3
            && f.sections[1].hdr.offset == 184 && f.sections[1].End() == 188
            && !PartsApart(f, 1, 2) && !FileClear(f)
  {
    hide LaidOut;
    PairDecided(0x1000, 16, 0x1008, 16);
    PairDecided(0x1064, 4, 0x100A, 5);
    PairPlaces(0x1064, 4, 0x100A, 5);
    assert Pad(99, 4) == 1;
    var e := Pair(0x1064, 4, 0x100A, 5);
    var both: seq<nat> := [1, 2];
    assert both[..1] == [1] && both[..1][..0] == [];
    assert Reach(e.sections, 0x1000, both[..1], 0) == 0x68;
  }

  // ----- what that does to the file

  /** The type of a section in its encoded header. */
  lemma TypeAt(c: ElfClass, order: Order, h: Shdr)
    ensures EncodeShdr(c, order, h)[4..8] == Store(order, 4, h.typ)
  {
    var w, v := ShdrWidths(c), h.Values();
    assert w[0] == w[1] == 4 && v[1] == h.typ;
    var a, b, rest := Store(order, 4, v[0]), Store(order, 4, v[1]), Records.Pack(order, w[1..][1..], v[1..][1..]);
    assert w[1..][0] == w[1] && v[1..][0] == v[1];
    assert Records.Pack(order, w, v) == a + (b + rest);
    assert (a + (b + rest))[4..8] == b;
  }

  lemma OneAsWord()
    ensures Store(Little, 4, 1) == [1, 0, 0, 0]
  {
    assert ToLittle(0, 0) == [] && ToLittle(1, 0) == [0] && ToLittle(2, 0) == [0, 0] && ToLittle(3, 0) == [0, 0, 0];
  }

  /** The last section's header stays in the file, if neither its data nor a segment's header is written over it. */
  lemma LastHeaderHeld(f: Elf)
    requires |f.hdr.ident| == EI_NIDENT && |f.sections| == 3 && |f.segments| == 1
    requires var s, at := f.sections[2], FileFormat.RecordPlace(f.hdr.shoff, f.sections[2].index, f.hdr.shentsize);
             && Clear(s.hdr.offset, |s.data|, at, f.cls.ShdrSize())
             && Clear(FileFormat.RecordPlace(f.hdr.phoff, f.segments[0].index, f.hdr.phentsize), f.cls.PhdrSize(),
                      at, f.cls.ShdrSize())
    ensures Holds(FileFormat.Image(f), FileFormat.RecordPlace(f.hdr.shoff, f.sections[2].index, f.hdr.shentsize),
                  EncodeShdr(f.cls, f.conv.FileOrder(), f.sections[2].hdr))
  {
    hide WriteAt, Holds, EncodeShdr, EncodePhdr, EncodeEhdr;
    var h := FileFormat.HeadersOf(f);
    var at := FileFormat.RecordPlace(f.hdr.shoff, f.sections[2].index, f.hdr.shentsize);
    var before := FileFormat.SaveSections(f, h, WriteAt([], 0, h.ehdr), 2);
    var written := WriteAt(before, at, h.shdrs[2]);
    WriteHolds(before, at, h.shdrs[2]);
    WriteKeeps(written, f.sections[2].hdr.offset, f.sections[2].data, at, h.shdrs[2]);
    var all := FileFormat.SaveSections(f, h, WriteAt([], 0, h.ehdr), 3);
    assert all == FileFormat.SaveSection(f, h, before, 2);
    WriteKeeps(all, FileFormat.RecordPlace(f.hdr.phoff, f.segments[0].index, f.hdr.phentsize), h.phdrs[0], at,
        h.shdrs[2]);
    assert FileFormat.SaveSegments(f, h, all, 0) == all;
    assert FileFormat.SaveSegments(f, h, all, 1) == FileFormat.SaveSegment(f, h, all, 0);
  }

  lemma SoleSegment(e: Elf)
    requires Sole(e) && Addressed(e) && PlacerAt(e, 0)
    ensures |LaidOut(e).segments| == 1 && LaidOut(e).segments[0].index == e.segments[0].index
    ensures LaidOut(e).cls == e.cls && LaidOut(e).conv == e.conv
  {
    hide AfterSections, PlacerAt, StartAt, Addressed;
    StartsAsPlanned(e, 0);
  }

  /** In the file that is written, part of a section header stands where the first section's four zeros should
      be. */
  lemma DataIsLost()
    ensures var f := LaidOut(Pair(0x1064, 4, 0x100A, 5));
            && |f.sections| == 3 && |f.hdr.ident| == EI_NIDENT
            && f.sections[1].hdr.offset == 184 && f.sections[1].data == [0, 0, 0, 0]
            && Holds(FileFormat.Image(f), 184, [1, 0, 0, 0])
  {
    hide LaidOut, FileFormat.Image, EncodeShdr, Addressed, PlacerAt, CursorBefore, Layout.Order;
    var e := Pair(0x1064, 4, 0x100A, 5);
    var f := LaidOut(e);
    PairPlaces(0x1064, 4, 0x100A, 5);
    PairIsAddressed(0x1064, 4, 0x100A, 5);
    SoleSegment(e);
    assert Pad(99, 4) == 1;
    LastHeaderHeld(f);
    TypeAt(f.cls, f.conv.FileOrder(), f.sections[2].hdr);
    OneAsWord();
    HoldsPart(FileFormat.Image(f), 180, EncodeShdr(f.cls, f.conv.FileOrder(), f.sections[2].hdr), 4, 8);
  }
}
