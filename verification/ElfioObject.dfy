/** The `elfio` class of elfio.hpp: it owns sections and segments, lays them out, saves and loads. */
module ElfioObject {
  import opened Arith
  import opened ElfTypes
  import opened ElfState
  import opened Layout
  import opened SectionObject
  import opened SegmentObject
  import Bytes
  import Convertor
  import FileFormat
  import FileImage
  import Frozen
  import GrowableBuffer
  import Naming
  import Ordering
  import Strings

  /** A section after the layout has reached it. */
  function PlacedAt(s: SectionState, addr: nat, offset: nat): SectionState {
    var addressed := if s.addressSet then s else s.WithAddress(addr);
    if s.index != 0 then addressed.WithOffset(offset) else addressed
  }

  function FileSizeAfter(s: SectionState, filesz: nat, skip: nat): nat {
    if s.IsNobits() then filesz else Wrap(filesz + s.hdr.size + skip)
  }

  function MemorySizeAfter(f: Frame, s: SectionState, memsz: nat, skip: nat): nat {
    if Counted(f, s) then Wrap(memsz + s.hdr.size + skip) else memsz
  }

  function PositionAfter(s: SectionState, pos: nat): nat {
    if s.IsNobits() then pos else Wrap(pos + s.hdr.size)
  }

  /** The turn of a section that is generated already. */
  lemma OldTurn(cls: ElfClass, f: Frame, c: Cursor, i: nat, r: Cursor)
    requires c.Has(i) && !c.secs[i].IsNull() && c.gen[i]
    requires r == c.(filesz := FileSizeAfter(c.secs[i], c.filesz, SecAlign(f, c, i)),
                     memsz := MemorySizeAfter(f, c.secs[i], c.memsz, SecAlign(f, c, i)))
    ensures r == PlaceOne(cls, f, c, i)
  {
    assert c.gen[i := true] == c.gen;
  }

  /** The cursor r after section i has been counted and placed behind `skip` bytes. */
  predicate Generated(cls: ElfClass, f: Frame, c: Cursor, i: nat, skip: nat, r: Cursor)
    requires c.Has(i)
  {
    var s, pos := c.secs[i], Wrap(c.pos + skip);
    && r.gen == c.gen[i := true]
    && r.filesz == FileSizeAfter(s, c.filesz, skip) && r.memsz == MemorySizeAfter(f, s, c.memsz, skip)
    && r.pos == PositionAfter(s, pos)
    && r.secs == c.secs[i := PlacedAt(s, cls.Trunc(Wrap(f.vaddr + pos - f.start)), cls.Trunc(pos))]
  }

  /** The turn of a section that is placed. */
  lemma NewTurn(cls: ElfClass, f: Frame, c: Cursor, i: nat)
    requires c.Has(i) && !c.secs[i].IsNull() && !c.gen[i]
    ensures Generated(cls, f, c, i, SecAlign(f, c, i), PlaceOne(cls, f, c, i))
  {
  }

  /** The state r after segment k was walked to the cursor `done` and the results were stored. */
  predicate FilledIn(cls: ElfClass, st: LayState, k: nat, f: Frame, done: Cursor, r: LayState)
    requires k < |st.segs|
  {
    && r.pos == done.pos && r.secs == done.secs && r.gen == done.gen
    && r.segs == st.segs[k := st.segs[k].WithLayout(cls.Trunc(f.start), cls.Trunc(done.filesz), cls.Trunc(done.memsz))]
  }

  /** The turn of a segment, put together from its beginning, its section loop and what it stores. */
  lemma SegmentTurn(cls: ElfClass, h: Ehdr, st: LayState, k: nat, f: Frame, c: Cursor)
    requires LayOk(st) && k < |st.segs| && (f, c) == Open(h, st, st.segs[k])
    ensures FilledIn(cls, st, k, f, PlaceAll(cls, f, c, st.segs[k].sections), PlaceSegment(cls, h, st, k))
  {
  }

  function NoneGenerated(n: nat): (gen: seq<bool>)
    ensures |gen| == n
  {
    seq(n, _ => false)
  }

  function WithPosition(s: SectionState, offset: nat): SectionState {
    if s.index != 0 then s.WithOffset(offset) else s
  }

  /** The state r after section i was put behind the padding at the cursor. */
  predicate Put(cls: ElfClass, st: LayState, i: nat, r: LayState)
    requires i < |st.secs|
  {
    var s, pos := st.secs[i], Wrap(st.pos + Pad(st.pos, st.secs[i].hdr.addrAlign));
    && r.gen == st.gen && r.segs == st.segs
    && r.secs == st.secs[i := WithPosition(s, cls.Trunc(pos))]
    && r.pos == if s.Occupies() then Wrap(pos + s.hdr.size) else pos
  }

  /** The turn of a section without a segment. */
  lemma LooseTurn(cls: ElfClass, st: LayState, i: nat)
    requires i < |st.secs| && IsLoose(st.segs, i)
    ensures Put(cls, st, i, PlaceLoose(cls, st, i))
  {
  }

  /** Before the first section a segment has no members and its own alignment. */
  /** What one more matching section adds to a segment. */
  lemma OneMoreMember(h: Phdr, secs: seq<SectionState>, j: nat)
    requires j < |secs|
    ensures var before := FileFormat.Members(h, secs, j);
            if FileFormat.Matches(h, secs[j])
            then && FileFormat.Members(h, secs, j + 1) == before + [j]
                 && var align := FileFormat.RaisedAlign(h.align, secs, before);
                    FileFormat.RaisedAlign(h.align, secs, before + [j]) ==
                      if secs[j].hdr.addrAlign > align then secs[j].hdr.addrAlign else align
            else FileFormat.Members(h, secs, j + 1) == before
  {
    hide FileFormat.Matches;
    var before := FileFormat.Members(h, secs, j);
    assert (before + [j])[..|before|] == before;
  }

  /** The value of an object with one more section, part by part. */
  lemma WithSectionParts(e: Elf, name: seq<Bytes.byte>)
    requires e.hdr.shstrndx <= |e.sections| < U16
    ensures var x, n := e.hdr.shstrndx, |e.sections|;
            var secs := e.sections + [Naming.NewSection(n)];
            var s1 := secs[n := secs[n].(name := name)];
            var s2 := s1[x := Naming.TableWith(s1[x], name)];
            Naming.WithSection(e, name) ==
              e.(sections := s2[n := s2[n].(hdr := s2[n].hdr.(name := Strings.NextOffset(s1[x].data)))])
  {
  }

  lemma NoMembers(h: Phdr, secs: seq<SectionState>)
    ensures FileFormat.Members(h, secs, 0) == [] && h == h.(align := FileFormat.RaisedAlign(h.align, secs, []))
  {
  }

  method PlaceAt(sec: Section, addr: nat, offset: nat)
    modifies sec`hdr, sec`addressSet
    ensures sec.View() == PlacedAt(old(sec.View()), sec.cls.Trunc(addr), sec.cls.Trunc(offset))
  {
    if !sec.addressSet {
      sec.SetAddress(addr);
    }
    if sec.index != 0 {
      sec.SetOffset(offset);
    }
  }

  /** Reads the identification bytes and checks them: the magic number, then the class. */
  method ReadIdentification(bytes: seq<Bytes.byte>) returns (c: FileFormat.Option<ElfClass>)
    ensures c == FileFormat.Identify(bytes)
  {
    var ident: seq<Bytes.byte> := FileImage.Open(bytes).Read(EI_NIDENT).0;
    if |ident| != EI_NIDENT || ident[0] != 0x7F || ident[1] != 0x45 || ident[2] != 0x4C || ident[3] != 0x46 {
      return FileFormat.None;
    }
    assert bytes[..4] == ident[..4] == [ident[0], ident[1], ident[2], ident[3]];
    if ident[EI_CLASS] != ELFCLASS64 && ident[EI_CLASS] != ELFCLASS32 {
      return FileFormat.None;
    }
    c := FileFormat.Some(if ident[EI_CLASS] == ELFCLASS64 then Class64 else Class32);
  }

  /** Reads the ELF header of a file of class c. */
  method ReadHeader(c: ElfClass, conv: Convertor.Conv, bytes: seq<Bytes.byte>)
    returns (r: FileFormat.Option<(Ehdr, FileImage.Stream)>)
    ensures r == FileFormat.LoadHeader(c, conv, bytes)
  {
    var (bs, s) := FileImage.Open(bytes).Read(c.EhdrSize());
    r := if s.ok then FileFormat.Some((DecodeEhdr(c, conv.FileOrder(), bs), s)) else FileFormat.None;
  }

  class Elfio {
    var cls: ElfClass
    var conv: Convertor.Conv
    var hdr: Ehdr
    var sections: seq<Section>
    var segments: seq<Segment>
    var currentFilePos: nat
    /** Which section a buffer belongs to. */
    ghost var owner: map<array<Bytes.byte>, nat>

    /** Sections and segments know their position; so no two positions hold the same object. */
    ghost predicate Valid()
      reads this`cls, this`conv, this`sections, this`segments, sections`index, segments`index
    {
      && (forall i :: 0 <= i < |sections| ==>
           sections[i].index == i && sections[i].cls == cls && sections[i].conv == conv)
      && (forall k :: 0 <= k < |segments| ==>
           segments[k].index == k && segments[k].cls == cls && segments[k].conv == conv)
    }

    /** The sections' values are these. */
    ghost predicate HasSections(secs: seq<SectionState>)
      reads this`sections, sections
    {
      |secs| == |sections| && forall i :: 0 <= i < |sections| ==> sections[i].View() == secs[i]
    }

    ghost predicate HasSegments(segs: seq<SegmentState>)
      reads this`segments, segments
    {
      |segs| == |segments| && forall k :: 0 <= k < |segments| ==> segments[k].View() == segs[k]
    }

    /** The object's value is e. */
    ghost predicate Is(e: Elf)
      reads this`cls, this`conv, this`hdr, this`sections, this`segments, sections, segments
    {
      cls == e.cls && conv == e.conv && hdr == e.hdr && HasSections(e.sections) && HasSegments(e.segments)
    }

    /** The section loop stands where c says. */
    ghost predicate Walks(c: Cursor, gen: seq<bool>, filesz: nat, memsz: nat)
      reads this`currentFilePos, this`sections, sections
    {
      && |gen| == |sections| && HasSections(c.secs)
      && c.pos == currentFilePos && c.gen == gen && c.filesz == filesz && c.memsz == memsz
    }

    /** The layout stands where st says. */
    ghost predicate At(st: LayState, gen: seq<bool>)
      reads this`currentFilePos, this`sections, this`segments, sections, segments
    {
      && |gen| == |sections| && st.gen == gen && st.pos == currentFilePos
      && HasSections(st.secs) && HasSegments(st.segs)
    }

    // ----- layout_segments_and_their_sections

    /** The bytes skipped before section i. */
    method AlignSection(f: Frame, sec: Section, i: nat, gen: seq<bool>, filesz: nat, ghost c: Cursor)
      returns (secAlign: nat)
      requires i < |sections| && sec == sections[i] && Walks(c, gen, filesz, c.memsz)
      ensures secAlign == SecAlign(f, c, i)
    {
      assert c.secs[i] == sec.View();
      if !gen[i] && sec.addressSet && sec.hdr.typ != SHT_NOBITS {
        var reqOffset: int := Wrap(sec.hdr.addr - f.vaddr);
        var curOffset: int := Wrap(currentFilePos - f.start);
        secAlign := Wrap(reqOffset - curOffset);
      } else if !gen[i] {
        secAlign := Pad(currentFilePos, sec.hdr.addrAlign);
      } else {
        secAlign := Wrap(sec.hdr.offset - f.start - filesz);
      }
    }

    /** Gives a section its address, if it has none, and its place in the file. */
    method MoveSection(sec: Section, i: nat, addr: nat, offset: nat, ghost secs: seq<SectionState>)
      requires Valid() && i < |sections| && sec == sections[i] && HasSections(secs)
      modifies sec`hdr, sec`addressSet
      ensures HasSections(secs[i := PlacedAt(secs[i], cls.Trunc(addr), cls.Trunc(offset))])
    {
      PlaceAt(sec, addr, offset);
    }

    /** The sizes of the segment with one more section. */
    method SizeSegment(f: Frame, sec: Section, filesz: nat, memsz: nat, secAlign: nat)
      returns (filesz': nat, memsz': nat)
      ensures filesz' == FileSizeAfter(sec.View(), filesz, secAlign)
      ensures memsz' == MemorySizeAfter(f, sec.View(), memsz, secAlign)
    {
      filesz', memsz' := filesz, memsz;
      if sec.hdr.flags / SHF_ALLOC % 2 == 1 &&
         !(sec.hdr.flags / SHF_TLS % 2 == 1 && f.typ != PT_TLS && sec.hdr.typ == SHT_NOBITS) {
        memsz' := Wrap(memsz + sec.hdr.size + secAlign);
      }
      if sec.hdr.typ != SHT_NOBITS {
        filesz' := Wrap(filesz + sec.hdr.size + secAlign);
      }
    }

    /** Moves the cursor over the skipped bytes, places section i there and moves on behind it. */
    method AdvanceOver(f: Frame, sec: Section, i: nat, secAlign: nat, ghost secs: seq<SectionState>)
      requires Valid() && i < |sections| && sec == sections[i] && HasSections(secs)
      modifies this`currentFilePos, sec`hdr, sec`addressSet
      ensures var pos := Wrap(old(currentFilePos) + secAlign);
              && currentFilePos == PositionAfter(secs[i], pos)
              && HasSections(secs[i := PlacedAt(secs[i], cls.Trunc(Wrap(f.vaddr + pos - f.start)), cls.Trunc(pos))])
    {
      var pos := Wrap(currentFilePos + secAlign);
      assert secs[i] == sec.View();
      currentFilePos := if sec.hdr.typ != SHT_NOBITS then Wrap(pos + sec.hdr.size) else pos;
      MoveSection(sec, i, Wrap(f.vaddr + pos - f.start), pos, secs);
    }

    /** Counts section i in and places it behind secAlign bytes; r is the cursor afterwards. */
    method CountAndPlace(f: Frame, sec: Section, i: nat, gen: seq<bool>, filesz: nat, memsz: nat, secAlign: nat,
                         ghost c: Cursor, ghost r: Cursor)
      returns (filesz': nat, memsz': nat)
      requires Valid() && i < |sections| && sec == sections[i] && Walks(c, gen, filesz, memsz)
      requires Generated(cls, f, c, i, secAlign, r)
      modifies this`currentFilePos, sec`hdr, sec`addressSet
      ensures Walks(r, gen[i := true], filesz', memsz')
    {
      hide FileSizeAfter, MemorySizeAfter, PlacedAt, PositionAfter, Wrap, Counted;
      assert c.secs[i] == sec.View();
      filesz', memsz' := SizeSegment(f, sec, filesz, memsz, secAlign);
      AdvanceOver(f, sec, i, secAlign, c.secs);
    }

    /** The turn of a section that is not generated yet. */
    method GenerateSection(f: Frame, sec: Section, i: nat, gen: seq<bool>, filesz: nat, memsz: nat, ghost c: Cursor)
      returns (filesz': nat, memsz': nat)
      requires Valid() && i < |sections| && sec == sections[i] && Walks(c, gen, filesz, memsz)
      requires sec.hdr.typ != SHT_NULL && !gen[i]
      modifies this`currentFilePos, sec`hdr, sec`addressSet
      ensures Walks(PlaceOne(cls, f, c, i), gen[i := true], filesz', memsz')
    {
      assert c.secs[i] == sec.View();
      NewTurn(cls, f, c, i);
      var secAlign := AlignSection(f, sec, i, gen, filesz, c);
      filesz', memsz' := CountAndPlace(f, sec, i, gen, filesz, memsz, secAlign, c, PlaceOne(cls, f, c, i));
    }

    /** One turn of the section loop. */
    method PlaceSection(f: Frame, sec: Section, i: nat, gen: seq<bool>, filesz: nat, memsz: nat, ghost c: Cursor)
      returns (gen': seq<bool>, filesz': nat, memsz': nat)
      requires Valid() && i < |sections| && sec == sections[i] && Walks(c, gen, filesz, memsz)
      modifies this`currentFilePos, sec`hdr, sec`addressSet
      ensures Walks(PlaceOne(cls, f, c, i), gen', filesz', memsz')
    {
      gen', filesz', memsz' := gen[i := true], filesz, memsz;
      assert c.secs[i] == sec.View();
      if sec.hdr.typ == SHT_NULL {
      } else if gen[i] {
        var secAlign := AlignSection(f, sec, i, gen, filesz, c);
        filesz', memsz' := SizeSegment(f, sec, filesz, memsz, secAlign);
        assert gen[i := true] == gen;
        OldTurn(cls, f, c, i, Cursor(currentFilePos, c.secs, gen', filesz', memsz'));
      } else {
        filesz', memsz' := GenerateSection(f, sec, i, gen, filesz, memsz, c);
      }
    }

    /** The section loop of one segment. */
    method PlaceSections(f: Frame, list: seq<nat>, gen: seq<bool>, filesz: nat, memsz: nat, ghost c: Cursor)
      returns (gen': seq<bool>, filesz': nat, memsz': nat)
      requires Valid() && Within(list, |sections|) && Walks(c, gen, filesz, memsz)
      modifies this`currentFilePos, sections`hdr, sections`addressSet
      ensures Walks(PlaceAll(cls, f, c, list), gen', filesz', memsz')
    {
      gen', filesz', memsz' := gen, filesz, memsz;
      assert list[..0] == [];
      for j := 0 to |list|
        invariant Walks(PlaceAll(cls, f, c, list[..j]), gen', filesz', memsz')
      {
        assert list[..j + 1][..j] == list[..j];
        gen', filesz', memsz' :=
          PlaceSection(f, sections[list[j]], list[j], gen', filesz', memsz', PlaceAll(cls, f, c, list[..j]));
      }
      assert list[..|list|] == list;
    }

    /** Where a segment starts, and with what sizes. */
    method OpenSegment(seg: Segment, gen: seq<bool>, ghost st: LayState) returns (start: nat, filesz: nat, memsz: nat)
      requires At(st, gen) && SegmentOk(seg.View(), |sections|)
      modifies this`currentFilePos
      ensures var (f, c) := Open(hdr, st, seg.View());
              f == Frame(seg.hdr.typ, seg.hdr.vaddr, start) && Walks(c, gen, filesz, memsz)
    {
      start, filesz, memsz := currentFilePos, 0, 0;
      if seg.hdr.typ == PT_PHDR && |seg.sections| == 0 {
        start := hdr.phoff;
        filesz := hdr.phentsize * hdr.phnum;
        memsz := filesz;
      } else if |seg.sections| > 1 && sections[seg.sections[0]].hdr.typ == SHT_NULL {
        start, filesz, memsz := 0, currentFilePos, currentFilePos;
      } else if |seg.sections| != 0 && !gen[seg.sections[0]] {
        currentFilePos := Wrap(currentFilePos + SegmentGap(currentFilePos, seg.hdr.vaddr, seg.hdr.align));
        start := currentFilePos;
      } else if |seg.sections| != 0 {
        start := sections[seg.sections[0]].hdr.offset;
      }
    }

    /** Opens a segment and runs the section loop over it. */
    method FillSegment(seg: Segment, gen: seq<bool>, ghost st: LayState, ghost begun: (Frame, Cursor))
      returns (start: nat, gen': seq<bool>, filesz: nat, memsz: nat)
      requires Valid() && At(st, gen) && SegmentOk(seg.View(), |sections|) && begun == Open(hdr, st, seg.View())
      modifies this`currentFilePos, sections`hdr, sections`addressSet
      ensures start == begun.0.start && Walks(PlaceAll(cls, begun.0, begun.1, seg.sections), gen', filesz, memsz)
    {
      start, filesz, memsz := OpenSegment(seg, gen, st);
      gen', filesz, memsz :=
        PlaceSections(Frame(seg.hdr.typ, seg.hdr.vaddr, start), seg.sections, gen, filesz, memsz, begun.1);
    }

    /** Fills segment k and stores the results in it; r is the state of the layout afterwards. */
    method FillAndStore(seg: Segment, k: nat, gen: seq<bool>, ghost st: LayState, ghost begun: (Frame, Cursor),
                        ghost r: LayState)
      returns (gen': seq<bool>)
      requires Valid() && k < |segments| && seg == segments[k] && At(st, gen) && SegmentOk(seg.View(), |sections|)
      requires begun == Open(hdr, st, seg.View())
      requires FilledIn(cls, st, k, begun.0, PlaceAll(cls, begun.0, begun.1, seg.sections), r)
      modifies this`currentFilePos, sections`hdr, sections`addressSet, seg`hdr, seg`offsetSet
      ensures At(r, gen')
    {
      assert st.segs[k] == seg.View();
      var start, filesz, memsz;
      start, gen', filesz, memsz := FillSegment(seg, gen, st, begun);
      seg.SetLayout(start, filesz, memsz);
    }

    /** One turn of the segment loop. */
    method PlaceSegment(seg: Segment, k: nat, gen: seq<bool>, ghost st: LayState) returns (gen': seq<bool>)
      requires Valid() && k < |segments| && seg == segments[k] && At(st, gen) && LayOk(st)
      modifies this`currentFilePos, sections`hdr, sections`addressSet, seg`hdr, seg`offsetSet
      ensures At(Layout.PlaceSegment(cls, hdr, st, k), gen')
    {
      assert st.segs[k] == seg.View();
      ghost var begun := Open(hdr, st, seg.View());
      SegmentTurn(cls, hdr, st, k, begun.0, begun.1);
      gen' := FillAndStore(seg, k, gen, st, begun, Layout.PlaceSegment(cls, hdr, st, k));
    }

    method GetOrderedSegments(ghost segs: seq<SegmentState>) returns (worklist: seq<nat>)
      requires HasSegments(segs)
      ensures worklist == Layout.Order(segs)
    {
      var lists := seq(|segments|, k requires 0 <= k < |segments| reads this, segments => segments[k].sections);
      var zeros := seq(|segments|, k requires 0 <= k < |segments| reads this, segments =>
                       segments[k].offsetSet && segments[k].hdr.offset == 0);
      assert lists == Lists(segs) && zeros == Zeros(segs);
      worklist := Ordering.GetOrderedSegments(lists, zeros);
    }

    /** The segment loop. */
    method PlaceInOrder(worklist: seq<nat>, gen: seq<bool>, ghost st: LayState) returns (gen': seq<bool>)
      requires Valid() && At(st, gen) && LayOk(st) && Within(worklist, |segments|)
      modifies this`currentFilePos, sections`hdr, sections`addressSet, segments`hdr, segments`offsetSet
      ensures At(PlaceSegments(cls, hdr, st, worklist), gen')
    {
      gen' := gen;
      assert worklist[..0] == [];
      for n := 0 to |worklist|
        invariant At(PlaceSegments(cls, hdr, st, worklist[..n]), gen')
      {
        assert worklist[..n + 1][..n] == worklist[..n];
        gen' := PlaceSegment(segments[worklist[n]], worklist[n], gen', PlaceSegments(cls, hdr, st, worklist[..n]));
      }
      assert worklist[..|worklist|] == worklist;
    }

    method LayoutSegmentsAndTheirSections(ghost st: LayState) returns (ghost gen: seq<bool>)
      requires Valid() && At(st, NoneGenerated(|sections|)) && LayOk(st)
      modifies this`currentFilePos, sections`hdr, sections`addressSet, segments`hdr, segments`offsetSet
      ensures At(PlaceSegments(cls, hdr, st, Layout.Order(st.segs)), gen)
    {
      var sectionGenerated := NoneGenerated(|sections|);
      var worklist := GetOrderedSegments(st.segs);
      gen := PlaceInOrder(worklist, sectionGenerated, st);
    }

    // ----- layout_sections_without_segments

    method IsSectionWithoutSegment(i: nat, ghost segs: seq<SegmentState>) returns (without: bool)
      requires HasSegments(segs)
      ensures without == IsLoose(segs, i)
    {
      var j := 0;
      while j < |segments|
        invariant j <= |segments|
        invariant forall m :: 0 <= m < j ==> i !in segments[m].sections
      {
        assert segs[j] == segments[j].View();
        if i in segments[j].sections {
          return false;
        }
        j := j + 1;
      }
      return true;
    }

    /** Puts section i at the cursor; r is the state of the layout afterwards. */
    method PutAtCursor(sec: Section, i: nat, ghost st: LayState, ghost r: LayState)
      requires Valid() && i < |sections| && sec == sections[i] && At(st, st.gen) && Put(cls, st, i, r)
      modifies this`currentFilePos, sec`hdr
      ensures At(r, st.gen)
    {
      assert st.secs[i] == sec.View();
      currentFilePos := Wrap(currentFilePos + Pad(currentFilePos, sec.hdr.addrAlign));
      if sec.index != 0 {
        sec.SetOffset(currentFilePos);
      }
      if sec.hdr.typ != SHT_NOBITS && sec.hdr.typ != SHT_NULL {
        currentFilePos := Wrap(currentFilePos + sec.hdr.size);
      }
    }

    /** One turn of the loop: a section without a segment goes to the cursor. */
    method PlaceLooseSection(sec: Section, i: nat, ghost st: LayState)
      requires Valid() && i < |sections| && sec == sections[i] && At(st, st.gen)
      modifies this`currentFilePos, sec`hdr
      ensures At(PlaceLoose(cls, st, i), st.gen)
    {
      var without := IsSectionWithoutSegment(i, st.segs);
      if without {
        LooseTurn(cls, st, i);
        PutAtCursor(sec, i, st, PlaceLoose(cls, st, i));
      }
    }

    method LayoutSectionsWithoutSegments(ghost st: LayState)
      requires Valid() && At(st, st.gen)
      modifies this`currentFilePos, sections`hdr
      ensures At(PlaceLooseUpTo(cls, st, |sections|), st.gen)
    {
      hide PlaceLoose;
      for i := 0 to |sections|
        invariant At(PlaceLooseUpTo(cls, st, i), st.gen)
      {
        PlaceLooseSection(sections[i], i, PlaceLooseUpTo(cls, st, i));
      }
    }

    method LayoutSectionTable()
      modifies this`currentFilePos, this`hdr
      ensures currentFilePos == TablePosition(old(currentFilePos))
      ensures hdr == old(hdr).(shoff := cls.Trunc(TablePosition(old(currentFilePos))))
    {
      currentFilePos := Wrap(currentFilePos + (4 - currentFilePos % 4) % 4);
      hdr := hdr.(shoff := cls.Trunc(currentFilePos));
    }

    // ----- save

    /** Defines the header fields and the position with which the layout begins. */
    method Prepare(ghost e: Elf)
      requires Is(e)
      modifies this`currentFilePos, this`hdr
      ensures hdr == Prepared(e) && At(InitialState(e), NoneGenerated(|sections|))
    {
      var phnum := |segments| % U16;
      hdr := hdr.(phnum := phnum, phoff := if phnum != 0 then hdr.ehsize else 0, shnum := |sections| % U16, shoff := 0);
      currentFilePos := hdr.ehsize + hdr.phentsize * hdr.phnum;
      assert NoneGenerated(|sections|) == InitialState(e).gen;
    }

    /** The second and third layout passes. */
    method FinishLayout(ghost st: LayState, ghost r: LayState)
      requires Valid() && At(st, st.gen) && r == PlaceLooseUpTo(cls, st, |st.secs|)
      modifies this`currentFilePos, this`hdr, sections`hdr
      ensures HasSections(r.secs) && HasSegments(r.segs)
      ensures hdr == old(hdr).(shoff := cls.Trunc(TablePosition(r.pos)))
    {
      LayoutSectionsWithoutSegments(st);
      LayoutSectionTable();
    }

    /** The three layout passes, from state st through st1 to st2. */
    method RunPasses(ghost st: LayState, ghost st1: LayState, ghost st2: LayState)
      requires Valid() && At(st, NoneGenerated(|sections|)) && LayOk(st)
      requires st1 == PlaceSegments(cls, hdr, st, Layout.Order(st.segs))
      requires st2 == PlaceLooseUpTo(cls, st1, |st1.secs|)
      modifies this`currentFilePos, this`hdr, sections`hdr, sections`addressSet, segments`hdr, segments`offsetSet
      ensures HasSections(st2.secs) && HasSegments(st2.segs)
      ensures hdr == old(hdr).(shoff := cls.Trunc(TablePosition(st2.pos)))
    {
      ghost var gen := LayoutSegmentsAndTheirSections(st);
      FinishLayout(st1, st2);
    }

    /** The first half of `save`: header fields and the three layout passes. */
    method LayOut(ghost e: Elf)
      requires Valid() && Is(e) && ElfOk(e)
      modifies this`currentFilePos, this`hdr, sections`hdr, sections`addressSet, segments`hdr, segments`offsetSet
      ensures Is(LaidOut(e))
    {
      Prepare(e);
      RunPasses(InitialState(e), AfterSegments(e), AfterSections(e));
    }

    /** The encoded headers of all sections. */
    ghost predicate SectionRecords(h: FileFormat.Headers)
      reads this`sections, sections`hdr
    {
      |h.shdrs| == |sections| && forall i :: 0 <= i < |sections| ==> h.shdrs[i] == sections[i].Record()
    }

    ghost predicate SegmentRecords(h: FileFormat.Headers)
      reads this`segments, segments`hdr
    {
      |h.phdrs| == |segments| && forall k :: 0 <= k < |segments| ==> h.phdrs[k] == segments[k].Record()
    }

    /** Buffers hold what they should, and as much as the headers say. */
    ghost predicate BuffersValid()
      reads this`sections, sections`hdr, sections`data, sections`bytes,
            set i | 0 <= i < |sections| :: sections[i].data
    {
      forall i :: 0 <= i < |sections| ==>
        sections[i].Valid() &&
        (sections[i].Sized() || sections[i].hdr.typ == SHT_NOBITS || sections[i].hdr.typ == SHT_NULL)
    }

    method SaveSection(sec: Section, i: nat, file: seq<Bytes.byte>, ghost h: FileFormat.Headers, ghost e: Elf)
      returns (r: seq<Bytes.byte>)
      requires i < |e.sections| == |h.shdrs| && sec.View() == e.sections[i] && h.shdrs[i] == sec.Record() &&
                 hdr == e.hdr
      requires sec.Valid() && (sec.Sized() || sec.hdr.typ == SHT_NOBITS || sec.hdr.typ == SHT_NULL)
      ensures r == FileFormat.SaveSection(e, h, file, i)
    {
      r := sec.Save(file, hdr.shoff + sec.index * hdr.shentsize, sec.hdr.offset);
    }

    method SaveSections(file: seq<Bytes.byte>, ghost h: FileFormat.Headers, ghost e: Elf) returns (r: seq<Bytes.byte>)
      requires BuffersValid() && SectionRecords(h) && hdr == e.hdr && HasSections(e.sections)
      ensures r == FileFormat.SaveSections(e, h, file, |sections|)
    {
      hide FileFormat.SaveSection, Section.Record;
      r := file;
      for i := 0 to |sections|
        invariant r == FileFormat.SaveSections(e, h, file, i)
      {
        r := SaveSection(sections[i], i, r, h, e);
      }
    }

    method SaveSegment(seg: Segment, k: nat, file: seq<Bytes.byte>, ghost h: FileFormat.Headers, ghost e: Elf)
      returns (r: seq<Bytes.byte>)
      requires k < |e.segments| == |h.phdrs| && seg.View() == e.segments[k] && h.phdrs[k] == seg.Record() &&
                 hdr == e.hdr
      ensures r == FileFormat.SaveSegment(e, h, file, k)
    {
      r := seg.Save(file, hdr.phoff + seg.index * hdr.phentsize, seg.hdr.offset);
    }

    method SaveSegments(file: seq<Bytes.byte>, ghost h: FileFormat.Headers, ghost e: Elf) returns (r: seq<Bytes.byte>)
      requires SegmentRecords(h) && hdr == e.hdr && HasSegments(e.segments)
      ensures r == FileFormat.SaveSegments(e, h, file, |segments|)
    {
      hide FileFormat.SaveSegment, Segment.Record;
      r := file;
      for k := 0 to |segments|
        invariant r == FileFormat.SaveSegments(e, h, file, k)
      {
        r := SaveSegment(segments[k], k, r, h, e);
      }
    }

    /** Writes sections and segments. */
    method WriteParts(file: seq<Bytes.byte>, ghost h: FileFormat.Headers, ghost e: Elf) returns (r: seq<Bytes.byte>)
      requires BuffersValid() && SectionRecords(h) && SegmentRecords(h)
      requires hdr == e.hdr && HasSections(e.sections) && HasSegments(e.segments)
      ensures r == FileFormat.SaveSegments(e, h, FileFormat.SaveSections(e, h, file, |sections|), |segments|)
    {
      r := SaveSections(file, h, e);
      r := SaveSegments(r, h, e);
    }

    /** Writes header, sections and segments. */
    method Write(ghost e: Elf) returns (file: seq<Bytes.byte>)
      requires Valid() && BuffersValid() && Is(e) && |e.hdr.ident| == EI_NIDENT
      ensures file == FileFormat.Image(e)
    {
      RecordsOf(e);
      file := FileImage.WriteAt([], 0, EncodeEhdr(cls, conv.FileOrder(), hdr));
      file := WriteParts(file, FileFormat.HeadersOf(e), e);
    }

    lemma RecordsOf(e: Elf)
      requires Valid() && Is(e) && |e.hdr.ident| == EI_NIDENT
      ensures SectionRecords(FileFormat.HeadersOf(e)) && SegmentRecords(FileFormat.HeadersOf(e))
    {
      forall i | 0 <= i < |sections|
        ensures sections[i].View() == e.sections[i]
      {
      }
      forall k | 0 <= k < |segments|
        ensures segments[k].View() == e.segments[k]
      {
      }
    }

    /** The layout leaves the buffers as they are, and the sizes that go with them. */
    method LayOutKeepingBuffers(ghost e: Elf, ghost f: Elf)
      requires Valid() && BuffersValid() && Is(e) && ElfOk(e) && f == LaidOut(e)
      modifies this`currentFilePos, this`hdr, sections`hdr, sections`addressSet, segments`hdr, segments`offsetSet
      ensures Is(f) && BuffersValid() && f.hdr.ident == e.hdr.ident
    {
      LayOut(e);
      Frozen.LayoutMoves(e);
      forall i | 0 <= i < |sections|
        ensures sections[i].hdr.size == old(sections[i].hdr.size) && sections[i].hdr.typ == old(sections[i].hdr.typ)
      {
        assert old(sections[i].View()) == e.sections[i] && sections[i].View() == f.sections[i];
        assert e.sections[i].Moved(f.sections[i]);
      }
    }

    /** Writing leaves the object as it is. */
    method WriteKept(ghost e: Elf) returns (file: seq<Bytes.byte>)
      requires Valid() && BuffersValid() && Is(e) && |e.hdr.ident| == EI_NIDENT
      ensures Is(e) && file == FileFormat.Image(e)
    {
      hide FileFormat.Image;
      file := Write(e);
    }

    /** Lays the object out and writes it: f is the object as it was, laid out. */
    method Save(ghost e: Elf, ghost f: Elf) returns (file: seq<Bytes.byte>)
      requires Valid() && BuffersValid() && Is(e) && ElfOk(e) && |e.hdr.ident| == EI_NIDENT && f == LaidOut(e)
      modifies this`currentFilePos, this`hdr, sections`hdr, sections`addressSet, segments`hdr, segments`offsetSet
      ensures Is(f) && |f.hdr.ident| == EI_NIDENT
      ensures file == FileFormat.Image(f)
    {
      LayOutKeepingBuffers(e, f);
      file := WriteKept(f);
    }

    // ----- sections.add

    /** No two sections share a buffer. */
    ghost predicate Unshared()
      reads this`sections, this`owner, sections`data
    {
      forall i :: 0 <= i < |sections| ==> sections[i].data in owner && owner[sections[i].data] == i
    }

    ghost predicate Sound()
      reads this`cls, this`conv, this`sections, this`segments, this`owner,
            sections`index, sections`hdr, sections`data, sections`bytes, segments`index,
            set i | 0 <= i < |sections| :: sections[i].data
    {
      Valid() && BuffersValid() && Unshared()
    }

    /** A new section with the next index, not yet in the list. */
    method NextSection() returns (sec: Section)
      ensures fresh(sec) && fresh(sec.data) && sec.Valid() && sec.Sized()
      ensures sec.Buffer() == GrowableBuffer.Buffer([], 0, 0) && sec.View() == Naming.NewSection(|sections|)
      ensures sec.index == |sections| && sec.cls == cls && sec.conv == conv && sec.hdr.typ == SHT_NULL
    {
      sec := new Section(cls, conv);
      sec.index := |sections|;
    }

    /** A new section at the end, still without a name. */
    method CreateSection(ghost secs: seq<SectionState>) returns (sec: Section)
      requires Sound() && HasSections(secs)
      modifies this`sections, this`owner
      ensures fresh(sec) && fresh(sec.data) && sections == old(sections) + [sec]
      ensures sec.Sized() && sec.Buffer() == GrowableBuffer.Buffer([], 0, 0)
      ensures Sound()
      ensures HasSections(secs + [Naming.NewSection(|secs|)])
    {
      hide Naming.NewSection, Section.View;
      sec := NextSection();
      owner := owner[sec.data := |sections|];
      sections := sections + [sec];
    }

    /** The string section can take up a name of this length. */
    ghost predicate TableReady(x: nat, len: nat)
      requires x < |sections|
      reads this`sections, sections
    {
      var table := sections[x];
      table.Sized() && table.hdr.typ != SHT_NOBITS && table.Buffer().Sound() &&
          |table.Contents()| + len + 2 < 0x2000_0000
    }

    method SetName(sec: Section, n: nat, name: seq<Bytes.byte>, len: nat, ghost secs: seq<SectionState>)
      requires Sound() && n < |sections| && sec == sections[n] && HasSections(secs)
      requires hdr.shstrndx < |sections| && TableReady(hdr.shstrndx, len)
      modifies sec`name
      ensures Sound() && HasSections(secs[n := secs[n].(name := name)]) && TableReady(hdr.shstrndx, len)
    {
      sec.name := name;
    }

    method SetNameStringOffset(sec: Section, n: nat, offset: nat, ghost secs: seq<SectionState>)
      requires Sound() && n < |sections| && sec == sections[n] && HasSections(secs)
      modifies sec`hdr
      ensures Sound() && HasSections(secs[n := secs[n].(hdr := secs[n].hdr.(name := offset))])
    {
      sec.hdr := sec.hdr.(name := offset);
    }

    /** Adds a name to the string section. */
    method AddToTable(table: Section, x: nat, name: seq<Bytes.byte>,
                      ghost secs: seq<SectionState>)
      returns (offset: nat)
      requires Sound() && x < |sections| && table == sections[x] && HasSections(secs) && TableReady(x, |name|)
      modifies table, table.data, this`owner
      ensures Sound()
      ensures HasSections(secs[x := Naming.TableWith(secs[x], name)])
      ensures offset == Strings.NextOffset(secs[x].data)
    {
      assert secs[x] == table.View();
      offset := Strings.AddString(table, name);
      owner := owner[table.data := x];
    }

    /** Names section n; s1 and s2 are the values of the sections on the way. */
    method NameSection(sec: Section, n: nat, name: seq<Bytes.byte>,
                       ghost secs: seq<SectionState>, ghost s1: seq<SectionState>, ghost s2: seq<SectionState>)
      requires Sound() && HasSections(secs) && hdr.shstrndx < |sections| && n < |sections|
      requires sec == sections[n] && TableReady(hdr.shstrndx, |name|)
      requires s1 == secs[n := secs[n].(name := name)]
      requires s2 == s1[hdr.shstrndx := Naming.TableWith(s1[hdr.shstrndx], name)]
      modifies sec`name, sec`hdr, sections[hdr.shstrndx], sections[hdr.shstrndx].data, this`owner
      ensures Sound()
      ensures HasSections(s2[n := s2[n].(hdr := s2[n].hdr.(name := Strings.NextOffset(s1[hdr.shstrndx].data)))])
    {
      SetName(sec, n, name, |name|, secs);
      var pos := AddToTable(sections[hdr.shstrndx], hdr.shstrndx, name, s1);
      SetNameStringOffset(sec, n, pos, s2);
    }

    /** A new section with a name, in a list of sections whose values are secs. */
    method AddNamed(name: seq<Bytes.byte>, ghost secs: seq<SectionState>, ghost after: seq<SectionState>)
      returns (sec: Section)
      requires Sound() && HasSections(secs) && hdr.shstrndx <= |secs|
      requires |name| + 2 < 0x2000_0000 && (hdr.shstrndx < |sections| ==> TableReady(hdr.shstrndx, |name|))
      requires var x, n := hdr.shstrndx, |secs|;
               var s0 := secs + [Naming.NewSection(n)];
               var s1 := s0[n := s0[n].(name := name)];
               var s2 := s1[x := Naming.TableWith(s1[x], name)];
               after == s2[n := s2[n].(hdr := s2[n].hdr.(name := Strings.NextOffset(s1[x].data)))]
      modifies this`sections, this`owner,
               if hdr.shstrndx < |sections| then {sections[hdr.shstrndx], sections[hdr.shstrndx].data} else {}
      ensures Sound() && HasSections(after) && sections == old(sections) + [sec] && fresh(sec)
    {
      hide Naming.TableWith;
      sec := CreateSection(secs);
      ghost var x, n := hdr.shstrndx, |secs|;
      ghost var s0 := secs + [Naming.NewSection(n)];
      ghost var s1 := s0[n := s0[n].(name := name)];
      NameSection(sec, |sections| - 1, name, s0, s1, s1[x := Naming.TableWith(s1[x], name)]);
    }

    /** A new section with a name. */
    method AddSection(name: seq<Bytes.byte>, ghost e: Elf, ghost r: Elf) returns (sec: Section)
      requires Sound() && Is(e) && e.hdr.shstrndx <= |e.sections| < U16 && r == Naming.WithSection(e, name)
      requires |name| + 2 < 0x2000_0000 && (hdr.shstrndx < |sections| ==> TableReady(hdr.shstrndx, |name|))
      modifies this`sections, this`owner,
               if hdr.shstrndx < |sections| then {sections[hdr.shstrndx], sections[hdr.shstrndx].data} else {}
      ensures Sound() && Is(r) && sections == old(sections) + [sec] && fresh(sec)
    {
      WithSectionParts(e, name);
      hide Naming.WithSection, Naming.TableWith;
      sec := AddNamed(name, e.sections, r.sections);
    }

    // ----- segments.add

    /** A new segment at the end, without sections. */
    method AddSegment(ghost segs: seq<SegmentState>) returns (seg: Segment)
      requires Valid() && HasSegments(segs) && |segments| < U16
      modifies this`segments
      ensures Valid() && fresh(seg) && segments == old(segments) + [seg]
      ensures HasSegments(segs + [SegmentState(ZeroPhdr, |segs|, [], false, [])])
    {
      seg := new Segment(cls, conv);
      seg.index := |segments|;
      segments := segments + [seg];
    }

    // ----- load

    /** Takes a section just read into the list. */
    method AddLoaded(sec: Section, ghost secs: seq<SectionState>, ghost known: bool, ghost after: seq<SectionState>)
      requires Sound() && AlignsFit() && sec.Valid() &&
                 (sec.Sized() || sec.hdr.typ == SHT_NOBITS || sec.hdr.typ == SHT_NULL)
      requires sec.index == |sections| && sec.cls == cls && sec.conv == conv && sec.hdr.addrAlign < cls.Limit()
      requires sec !in sections && (forall i :: 0 <= i < |sections| ==> sections[i].data != sec.data)
      requires known ==> HasSections(secs) && after == secs + [sec.View()]
      modifies this`sections, this`owner
      ensures Sound() && AlignsFit() && sections == old(sections) + [sec]
      ensures known ==> HasSections(after)
    {
      owner := owner[sec.data := |sections|];
      sections := sections + [sec];
    }

    /** A new object with what stands at the given place. */
    method MakeSection(s: FileImage.Stream, i: nat, place: nat, ghost want: (SectionState, FileImage.Stream))
      returns (sec: Section, r: FileImage.Stream)
      requires want == FileFormat.LoadSection(cls, conv, s, place, i)
      ensures fresh(sec) && fresh(sec.data) && sec.index == i && sec.cls == cls && sec.conv == conv
      ensures sec.Valid() && (sec.Sized() || sec.hdr.typ == SHT_NOBITS || sec.hdr.typ == SHT_NULL)
      ensures sec.hdr.addrAlign < cls.Limit()
      ensures r == want.1 && (r.ok ==> sec.View() == want.0)
      ensures r.ok ==> s.ok
    {
      sec := new Section(cls, conv);
      r := sec.LoadFixed(s, place, i);
    }

    /** Reads the next section, by a reader that knows where its record is, and takes it into the list. */
    method LoadSection(s: FileImage.Stream, i: nat, ghost read: FileImage.Reader<SectionState>,
                       ghost secs: seq<SectionState>, ghost after: seq<SectionState>)
      returns (sec: Section, r: FileImage.Stream)
      requires Sound() && AlignsFit() && |sections| == i && (s.ok ==> HasSections(secs))
      requires FileFormat.ReadsSections(cls, conv, hdr, read) && after == secs + [read(s, i).0]
      modifies this`sections, this`owner
      ensures Sound() && AlignsFit() && sections == old(sections) + [sec] && fresh(sec)
      ensures r == read(s, i).1 && (r.ok ==> HasSections(after))
    {
      hide FileFormat.LoadSection;
      ghost var want := FileFormat.LoadSection(cls, conv, s, FileFormat.RecordPlace(hdr.shoff, i, hdr.shentsize), i);
      assert read(s, i) == want;
      sec, r := MakeSection(s, i, hdr.shoff + i * hdr.shentsize, want);
      AddLoaded(sec, secs, r.ok, after);
    }

    /** Reads the section table and every section's data. */
    method LoadSections(s: FileImage.Stream, ghost read: FileImage.Reader<SectionState>) returns (r: FileImage.Stream)
      requires sections == [] && segments == []
      requires FileFormat.ReadsSections(cls, conv, hdr, read)
      modifies this`sections, this`owner
      ensures Sound() && AlignsFit() && |sections| == hdr.shnum && fresh(sections)
      ensures r == FileImage.ReadAll(read, s, hdr.shnum).1
      ensures r.ok ==> HasSections(FileImage.ReadAll(read, s, hdr.shnum).0)
    {
      r := s;
      for i := 0 to hdr.shnum
        invariant Sound() && |sections| == i && AlignsFit() && fresh(sections)
        invariant r == FileImage.ReadAll(read, s, i).1
        invariant r.ok ==> HasSections(FileImage.ReadAll(read, s, i).0)
      {
        var _, next := LoadSection(r, i, read, FileImage.ReadAll(read, s, i).0, FileImage.ReadAll(read, s, i + 1).0);
        r := next;
      }
    }

    /** No alignment is wider than its field. */
    ghost predicate AlignsFit()
      reads this`cls, this`sections, sections`hdr
    {
      forall i :: 0 <= i < |sections| ==> sections[i].hdr.addrAlign < cls.Limit()
    }

    /** Looks up the name of section i. */
    method ResolveName(sec: Section, i: nat, x: nat, ghost secs: seq<SectionState>, ghost want: SectionState)
      requires i < |sections| == |secs| && sec == sections[i] && sec.View() == secs[i]
      requires x < |sections| ==> sections[x].Valid() && sections[x].View() == secs[x].(name := sections[x].name)
      requires want == FileFormat.Named(secs, x, secs[i])
      modifies sec`name
      ensures sec.View() == want
    {
      if x != SHN_UNDEF && x < |sections| {
        var p := sections[x].GetString(sec.hdr.name);
        if p.Some? {
          sec.name := p.value;
        }
      }
    }

    /** The first i sections have the one value, the others still the other. */
    ghost predicate HasChanged(new': seq<SectionState>, secs: seq<SectionState>, i: nat)
      reads this`sections, sections
    {
      && |new'| == |secs| == |sections|
      && forall j :: 0 <= j < |sections| ==> sections[j].View() == if j < i then new'[j] else secs[j]
    }

    /** Looks up every section's name in the section name string table. */
    method ResolveNames(ghost secs: seq<SectionState>, ghost named: seq<SectionState>)
      requires Valid() && HasSections(secs) && |named| == |secs|
      requires hdr.shstrndx < |sections| ==> sections[hdr.shstrndx].Valid()
      requires forall i {:trigger FileFormat.Named(secs, hdr.shstrndx, secs[i])} :: 0 <= i < |secs| ==>
                 named[i] == FileFormat.Named(secs, hdr.shstrndx, secs[i])
      modifies sections`name
      ensures HasSections(named)
    {
      hide FileFormat.Named;
      for i := 0 to |sections|
        invariant HasChanged(named, secs, i)
      {
        ResolveName(sections[i], i, hdr.shstrndx, secs, FileFormat.Named(secs, hdr.shstrndx, secs[i]));
      }
    }

    // ----- load_segments

    method IsMember(seg: Segment, sec: Section) returns (matches: bool)
      ensures matches == FileFormat.Matches(seg.hdr, sec.View())
    {
      if sec.hdr.flags / SHF_ALLOC % 2 == 1 {
        matches := seg.hdr.vaddr <= sec.hdr.addr &&
          Wrap(sec.hdr.addr + sec.hdr.size) <= Wrap(seg.hdr.vaddr + seg.hdr.memsz);
      } else {
        matches := seg.hdr.offset <= sec.hdr.offset &&
          Wrap(sec.hdr.offset + sec.hdr.size) <= Wrap(seg.hdr.offset + seg.hdr.filesz);
      }
    }

    /** The segment has the members found among the first j sections. */
    ghost predicate HasMembers(seg: Segment, h: Phdr, secs: seq<SectionState>, j: nat)
      requires j <= |secs|
      reads seg`sections, seg`hdr
    {
      && seg.sections == FileFormat.Members(h, secs, j)
      && seg.hdr == h.(align := FileFormat.RaisedAlign(h.align, secs, FileFormat.Members(h, secs, j)))
    }

    /** Adds section j if it matches. */
    method AddIfMember(seg: Segment, sec: Section, j: nat, ghost h: Phdr, ghost secs: seq<SectionState>)
      requires j < |secs| && sec.View() == secs[j] && sec.index == j && sec.hdr.addrAlign < seg.cls.Limit()
      requires HasMembers(seg, h, secs, j)
      modifies seg`sections, seg`hdr
      ensures HasMembers(seg, h, secs, j + 1)
    {
      var matches := IsMember(seg, sec);
      assert matches == FileFormat.Matches(h, secs[j]);
      OneMoreMember(h, secs, j);
      hide FileFormat.Members, FileFormat.RaisedAlign, FileFormat.Matches;
      if matches {
        var _ := seg.AddSectionIndex(sec.index, sec.hdr.addrAlign);
      }
    }

    /** Adds the sections that match the segment. */
    method AddMembers(seg: Segment, ghost h: Phdr, ghost secs: seq<SectionState>)
      requires Valid() && HasSections(secs) && AlignsFit() && seg.sections == [] && seg.hdr == h && seg.cls == cls
      modifies seg`sections, seg`hdr
      ensures HasMembers(seg, h, secs, |secs|)
    {
      hide FileFormat.Members, FileFormat.RaisedAlign, FileFormat.Matches;
      NoMembers(h, secs);
      for j := 0 to |sections|
        invariant HasMembers(seg, h, secs, j)
      {
        AddIfMember(seg, sections[j], j, h, secs);
      }
    }

    /** Reads segment k and finds its sections. */
    method LoadSegmentAt(s: FileImage.Stream, k: nat, place: nat, ghost secs: seq<SectionState>)
      returns (seg: Segment, r: FileImage.Stream)
      requires Valid() && HasSections(secs) && AlignsFit()
      ensures fresh(seg) && seg.cls == cls && seg.conv == conv && seg.index == k
      ensures (seg.View(), r) == FileFormat.LoadSegment(cls, conv, secs, s, place, k)
    {
      hide FileImage.Stream.Read, FileImage.Stream.Seek;
      seg := new Segment(cls, conv);
      seg.index := k;
      r := seg.Load(s, place);
      ghost var h := seg.hdr;
      AddMembers(seg, h, secs);
    }

    /** Takes a segment just read into the list. */
    method AddLoadedSegment(seg: Segment, ghost segs: seq<SegmentState>, ghost r: seq<SegmentState>)
      requires Valid() && HasSegments(segs) && seg.index == |segments| && seg.cls == cls && seg.conv == conv
      requires seg !in segments && r == segs + [seg.View()]
      modifies this`segments
      ensures Valid() && HasSegments(r)
    {
      segments := segments + [seg];
    }

    /** Reads segment k and takes it into the list. */
    method LoadSegment(s: FileImage.Stream, k: nat, place: nat, ghost secs: seq<SectionState>,
                       ghost segs: seq<SegmentState>, ghost want: (SegmentState, FileImage.Stream),
                       ghost after: seq<SegmentState>)
      returns (r: FileImage.Stream)
      requires Valid() && HasSections(secs) && AlignsFit() && HasSegments(segs) && |segs| == k
      requires want == FileFormat.LoadSegment(cls, conv, secs, s, place, k) && after == segs + [want.0]
      modifies this`segments
      ensures Valid() && HasSegments(after) && r == want.1
    {
      var seg;
      seg, r := LoadSegmentAt(s, k, place, secs);
      AddLoadedSegment(seg, segs, after);
    }

    /** Reads the next segment, by a reader that knows where its record is. */
    method LoadNextSegment(s: FileImage.Stream, k: nat, ghost read: FileImage.Reader<SegmentState>,
                           ghost secs: seq<SectionState>, ghost segs: seq<SegmentState>, ghost after: seq<SegmentState>)
      returns (r: FileImage.Stream)
      requires Valid() && HasSections(secs) && AlignsFit() && HasSegments(segs) && |segs| == k
      requires FileFormat.ReadsSegments(cls, conv, hdr, secs, read) && after == segs + [read(s, k).0]
      modifies this`segments
      ensures Valid() && HasSegments(after) && r == read(s, k).1
    {
      ghost var want :=
        FileFormat.LoadSegment(cls, conv, secs, s, FileFormat.RecordPlace(hdr.phoff, k, hdr.phentsize), k);
      assert read(s, k) == want;
      r := LoadSegment(s, k, hdr.phoff + k * hdr.phentsize, secs, segs, want, after);
    }

    method LoadSegments(s: FileImage.Stream, ghost read: FileImage.Reader<SegmentState>, ghost secs: seq<SectionState>)
      returns (r: FileImage.Stream)
      requires Valid() && HasSections(secs) && AlignsFit() && segments == []
      requires FileFormat.ReadsSegments(cls, conv, hdr, secs, read)
      modifies this`segments
      ensures Valid() && HasSegments(FileImage.ReadAll(read, s, hdr.phnum).0)
      ensures r == FileImage.ReadAll(read, s, hdr.phnum).1
    {
      r := s;
      for k := 0 to hdr.phnum
        invariant Valid() && HasSegments(FileImage.ReadAll(read, s, k).0)
        invariant r == FileImage.ReadAll(read, s, k).1
      {
        r := LoadNextSegment(r, k, read, secs, FileImage.ReadAll(read, s, k).0, FileImage.ReadAll(read, s, k + 1).0);
      }
    }

    /** Finds names, then segments, after the sections have been read. */
    method LoadNamesAndSegments(s: FileImage.Stream, ghost secs: seq<SectionState>, ghost named: seq<SectionState>,
                                ghost read: FileImage.Reader<SegmentState>)
      returns (r: FileImage.Stream)
      requires Sound() && AlignsFit() && HasSections(secs) && segments == [] && |named| == |secs|
      requires forall i {:trigger FileFormat.Named(secs, hdr.shstrndx, secs[i])} :: 0 <= i < |secs| ==>
                 named[i] == FileFormat.Named(secs, hdr.shstrndx, secs[i])
      requires FileFormat.ReadsSegments(cls, conv, hdr, named, read)
      modifies this`segments, sections`name
      ensures Valid() && HasSections(named) && HasSegments(FileImage.ReadAll(read, s, hdr.phnum).0)
      ensures r == FileImage.ReadAll(read, s, hdr.phnum).1
    {
      ResolveNames(secs, named);
      r := LoadSegments(s, read, named);
    }

    /** Reads the sections, then their names, then the segments. */
    method LoadTables(s: FileImage.Stream) returns (r: FileImage.Stream)
      requires sections == [] && segments == []
      modifies this`sections, this`segments, this`owner
      ensures Valid()
      ensures var (secs, segs, s1) := FileFormat.LoadTables(cls, conv, hdr, s);
              s1.ok ==> HasSections(secs) && HasSegments(segs) && r == s1
    {
      ghost var read := FileFormat.SectionReader(cls, conv, hdr);
      FileFormat.SectionReaderReads(cls, conv, hdr);
      r := LoadSections(s, read);
      ghost var secs := if r.ok then FileImage.ReadAll(read, s, hdr.shnum).0 else Views();
      ghost var named := FileFormat.NamedSections(secs, hdr.shstrndx);
      FileFormat.TablesFail(cls, conv, hdr, s);
      FileFormat.SegmentReaderReads(cls, conv, hdr, named);
      r := LoadNamesAndSegments(r, secs, named, FileFormat.SegmentReader(cls, conv, hdr, named));
    }

    /** The values of the sections. */
    ghost function Views(): (secs: seq<SectionState>)
      reads this, sections
      ensures HasSections(secs)
    {
      seq(|sections|, i requires 0 <= i < |sections| reads this, sections => sections[i].View())
    }

    /** Reads everything behind the header h of a file of class c. */
    method LoadBehind(c: ElfClass, cv: Convertor.Conv, h: Ehdr, s: FileImage.Stream,
                      ghost want: (seq<SectionState>, seq<SegmentState>, FileImage.Stream))
      requires sections == [] && segments == [] && want == FileFormat.LoadTables(c, cv, h, s)
      modifies this
      ensures Valid() && cls == c && conv == cv && hdr == h
      ensures want.2.ok ==> HasSections(want.0) && HasSegments(want.1)
    {
      hide FileFormat.LoadTables;
      cls, conv, hdr := c, cv, h;
      var _ := LoadTables(s);
    }

    /** Reads a file of class c. */
    method LoadAs(c: ElfClass, bytes: seq<Bytes.byte>) returns (ok: bool)
      requires sections == [] && segments == [] && |bytes| >= EI_NIDENT
      modifies this
      ensures Valid() && conv.host == old(conv.host)
      ensures var r := FileFormat.LoadAs(conv.host, c, bytes);
              ok == r.Some? && (ok && r.value.1.ok ==> Is(r.value.0))
      ensures !ok ==> sections == [] && segments == []
    {
      hide FileFormat.LoadHeader, FileFormat.LoadTables;
      var cv := Convertor.Setup(conv.host, bytes[EI_DATA]);
      var h := ReadHeader(c, cv, bytes);
      ok := h.Some?;
      if ok {
        LoadBehind(c, cv, h.value.0, h.value.1, FileFormat.LoadTables(c, cv, h.value.0, h.value.1));
      }
    }

    /** Replaces the object by what the file holds; a file that is not an ELF file leaves it empty. If
        every read was complete, the object is what `LoadFrom` describes. */
    method Load(bytes: seq<Bytes.byte>) returns (ok: bool)
      modifies this
      ensures Valid() && conv.host == old(conv.host)
      ensures ok == FileFormat.LoadFrom(conv.host, bytes).Some?
      ensures ok && FileFormat.LoadFrom(conv.host, bytes).value.1.ok ==>
                Is(FileFormat.LoadFrom(conv.host, bytes).value.0)
      ensures !ok ==> sections == [] && segments == []
    {
      hide FileFormat.LoadAs;
      sections, segments := [], [];
      ok := false;
      var c := ReadIdentification(bytes);
      if c.Some? {
        ok := LoadAs(c.value, bytes);
      }
    }

    // ----- create

    /** Makes the null section and the section name string table, which names itself. */
    method CreateMandatorySections(ghost bare: Elf, ghost e: Elf)
      requires Sound() && sections == [] && segments == [] && hdr.shstrndx == 1
      requires bare == Elf(cls, conv, hdr, [Naming.NewSection(0)], []) &&
                 e == Naming.WithSection(bare, Naming.SHSTRTAB_NAME)
      modifies this`sections, this`owner
      ensures Sound() && |sections| == 2 == |e.sections|
      ensures HasSections(e.sections[1 := e.sections[1].(hdr := e.sections[1].hdr.(typ := SHT_STRTAB, addrAlign := 1))])
    {
      var _ := CreateSection([]);
      assert [] + [Naming.NewSection(0)] == bare.sections;
      var table := AddSection(Naming.SHSTRTAB_NAME, bare, e);
      SetTypeAndAlign(table, 1, SHT_STRTAB, 1, e.sections);
    }

    /** A new object of the given class and byte order, with its two mandatory sections. */
    constructor (host: Bytes.Order, c: ElfClass, encoding: Bytes.byte)
      ensures Sound() && Is(Naming.Created(host, c, encoding))
    {
      cls, conv, hdr := c, Convertor.Setup(host, encoding), Naming.NewHeader(c, encoding);
      sections, segments, currentFilePos, owner := [], [], 0, map[];
      new;
      ghost var bare := Naming.OnlyNull(host, c, encoding);
      CreateMandatorySections(bare, Naming.WithSection(bare, Naming.SHSTRTAB_NAME));
    }

    method SetTypeAndAlign(sec: Section, n: nat, typ: nat, align: nat, ghost secs: seq<SectionState>)
      requires Sound() && n < |sections| && sec == sections[n] && HasSections(secs) && sec.Sized()
      modifies sec`hdr
      ensures Sound() && HasSections(secs[n := secs[n].(hdr := secs[n].hdr.(typ := typ, addrAlign := align))])
    {
      sec.hdr := sec.hdr.(typ := typ);
      sec.hdr := sec.hdr.(addrAlign := align);
    }
  }
}
