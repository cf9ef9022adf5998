/** What `load` makes of any file at all: where in its bytes every value of the object comes from. */
module LoadedFile {
  import opened Bytes
  import opened Convertor
  import opened ElfTypes
  import opened ElfState
  import opened FileImage
  import opened FileFormat
  import ElfHash

  // ----- reading a table

  /** Reading leaves the bytes of the stream alone and never repairs it. */
  ghost predicate Tame<T(!new)>(read: Reader<T>) {
    forall s: Stream, i: nat :: read(s, i).1.bytes == s.bytes && (read(s, i).1.ok ==> s.ok)
  }

  /** If all records could be read, record i is what was read from some position of the file. */
  lemma {:induction false} RecordRead<T(!new)>(read: Reader<T>, s: Stream, n: nat, i: nat) returns (t: Stream)
    requires Tame(read) && i < n && ReadAll(read, s, n).1.ok
    ensures t.ok && t.bytes == s.bytes && read(t, i).1.ok && ReadAll(read, s, n).0[i] == read(t, i).0
  {
    StreamStays(read, s, n - 1);
    if i == n - 1 {
      t := ReadAll(read, s, n - 1).1;
    } else {
      t := RecordRead(read, s, n - 1, i);
    }
  }

  lemma {:induction false} StreamStays<T(!new)>(read: Reader<T>, s: Stream, n: nat)
    requires Tame(read)
    ensures ReadAll(read, s, n).1.bytes == s.bytes && (ReadAll(read, s, n).1.ok ==> s.ok)
    ensures ReadAll(read, s, n + 1).1.ok ==> ReadAll(read, s, n).1.ok
  {
    if n > 0 {
      StreamStays(read, s, n - 1);
    }
  }

  // ----- one record

  /** The bytes from a to b, if the file has them. */
  predicate Has(bytes: seq<byte>, a: nat, b: nat) {
    a <= b <= |bytes|
  }

  /** Section i of a file whose section header table stands at shoff, in records of shentsize bytes. */
  predicate SectionFrom(bytes: seq<byte>, c: ElfClass, order: Order, h: Ehdr, i: nat, s: SectionState) {
    var at := h.shoff + i * h.shentsize;
    && Has(bytes, at, at + c.ShdrSize()) && s.hdr == DecodeShdr(c, order, bytes[at..at + c.ShdrSize()])
    && s.index == i && s.addressSet
    && (if s.hdr.typ == 0 || s.hdr.typ == 8 || s.hdr.size == 0 then s.data == []
        else Has(bytes, s.hdr.offset, s.hdr.offset + s.hdr.size) &&
             s.data == bytes[s.hdr.offset..s.hdr.offset + s.hdr.size])
  }

  lemma SectionRead(c: ElfClass, conv: Conv, h: Ehdr, t: Stream, i: nat)
    requires t.ok && LoadSection(c, conv, t, RecordPlace(h.shoff, i, h.shentsize), i).1.ok
    ensures var s := LoadSection(c, conv, t, RecordPlace(h.shoff, i, h.shentsize), i).0;
            SectionFrom(t.bytes, c, conv.FileOrder(), h, i, s) && s.name == []
  {
    hide DecodeShdr;
    var at := RecordPlace(h.shoff, i, h.shentsize);
    var (bs, s1) := t.Seek(at).Read(c.ShdrSize());
    assert bs == t.bytes[at..at + c.ShdrSize()] && ZeroFilled(bs, c.ShdrSize()) == bs;
  }

  /** Segment k likewise; its alignment and section list are settled later. */
  predicate SegmentFrom(bytes: seq<byte>, c: ElfClass, order: Order, h: Ehdr, k: nat, seg: SegmentState) {
    var at := h.phoff + k * h.phentsize;
    && Has(bytes, at, at + c.PhdrSize())
    && var p := DecodePhdr(c, order, bytes[at..at + c.PhdrSize()]);
       && seg.hdr == p.(align := seg.hdr.align) && seg.index == k && seg.offsetSet
       && (if p.typ == 0 || p.filesz == 0 then seg.data == []
           else Has(bytes, p.offset, p.offset + p.filesz) && seg.data == bytes[p.offset..p.offset + p.filesz])
  }

  /** The alignment is the largest of the header's and those of the segment's sections. */
  predicate IsLargest(align: nat, own: nat, secs: seq<SectionState>, list: seq<nat>)
    requires forall j :: 0 <= j < |list| ==> list[j] < |secs|
  {
    && own <= align && (forall j :: 0 <= j < |list| ==> secs[list[j]].hdr.addrAlign <= align)
    && (align == own || exists j :: 0 <= j < |list| && secs[list[j]].hdr.addrAlign == align)
  }

  lemma {:induction false} RaisedIsLargest(align: nat, secs: seq<SectionState>, list: seq<nat>)
    requires forall j :: 0 <= j < |list| ==> list[j] < |secs|
    ensures IsLargest(RaisedAlign(align, secs, list), align, secs, list)
  {
    if list != [] {
      var init := list[..|list| - 1];
      RaisedIsLargest(align, secs, init);
      var before := RaisedAlign(align, secs, init);
      forall j | 0 <= j < |list|
        ensures secs[list[j]].hdr.addrAlign <= RaisedAlign(align, secs, list)
      {
        assert j < |init| ==> init[j] == list[j];
      }
      if before != align && before == RaisedAlign(align, secs, list) {
        var j :| 0 <= j < |init| && secs[init[j]].hdr.addrAlign == before;
        assert list[j] == init[j];
      }
    }
  }

  /** The header and the data of a segment that was read. */
  predicate SegmentParts(bytes: seq<byte>, at: nat, size: nat, p: Phdr, data: seq<byte>) {
    && Has(bytes, at, at + size)
    && if p.typ == 0 || p.filesz == 0 then data == []
       else Has(bytes, p.offset, p.offset + p.filesz) && data == bytes[p.offset..p.offset + p.filesz]
  }

  lemma HeaderRead(c: ElfClass, conv: Conv, secs: seq<SectionState>, t: Stream, at: nat, k: nat)
    returns (p: Phdr, data: seq<byte>)
    requires t.ok && LoadSegment(c, conv, secs, t, at, k).1.ok
    ensures SegmentParts(t.bytes, at, c.PhdrSize(), p, data)
    ensures p == DecodePhdr(c, conv.FileOrder(), t.bytes[at..at + c.PhdrSize()])
    ensures LoadSegment(c, conv, secs, t, at, k).0 == WithMembers(p, k, secs, data)
  {
    hide DecodePhdr, WithMembers, Stream.Read;
    var (bs, s1) := t.Seek(at).Read(c.PhdrSize());
    ReadComplete(t, at, c.PhdrSize());
    assert s1.ok;
    WholeRecord(bs, c.PhdrSize());
    p := DecodePhdr(c, conv.FileOrder(), bs);
    ReadComplete(s1, p.offset, p.filesz);
    data := if p.typ == 0 || p.filesz == 0 then [] else s1.Seek(p.offset).Read(p.filesz).0;
  }

  lemma WholeRecord(bs: seq<byte>, n: nat)
    requires |bs| == n
    ensures ZeroFilled(bs, n) == bs
  {
  }

  lemma SegmentRead(c: ElfClass, conv: Conv, h: Ehdr, secs: seq<SectionState>, t: Stream, k: nat)
    requires t.ok && LoadSegment(c, conv, secs, t, RecordPlace(h.phoff, k, h.phentsize), k).1.ok
    ensures var at := h.phoff + k * h.phentsize;
            var seg := LoadSegment(c, conv, secs, t, RecordPlace(h.phoff, k, h.phentsize), k).0;
            && SegmentFrom(t.bytes, c, conv.FileOrder(), h, k, seg)
            && var p := DecodePhdr(c, conv.FileOrder(), t.bytes[at..at + c.PhdrSize()]);
               && seg.sections == Members(p, secs, |secs|)
               && seg.hdr.align == RaisedAlign(p.align, secs, seg.sections)
  {
    hide DecodePhdr, WithMembers, LoadSegment, SegmentFrom;
    var p, data := HeaderRead(c, conv, secs, t, RecordPlace(h.phoff, k, h.phentsize), k);
    MembersGiven(p, k, secs, data);
    SegmentIs(t.bytes, c, conv.FileOrder(), h, k, WithMembers(p, k, secs, data), p);
  }

  /** A read that leaves the stream good is complete. */
  lemma ReadComplete(t: Stream, at: nat, n: nat)
    requires t.ok
    ensures var (bs, s) := t.Seek(at).Read(n);
            s.bytes == t.bytes && (s.ok ==> Has(t.bytes, at, at + n) && bs == t.bytes[at..at + n])
  {
  }

  lemma SegmentIs(bytes: seq<byte>, c: ElfClass, order: Order, h: Ehdr, k: nat, seg: SegmentState, p: Phdr)
    requires var at := h.phoff + k * h.phentsize;
             Has(bytes, at, at + c.PhdrSize()) && p == DecodePhdr(c, order, bytes[at..at + c.PhdrSize()])
    requires seg.hdr == p.(align := seg.hdr.align) && seg.index == k && seg.offsetSet
    requires if p.typ == 0 || p.filesz == 0 then seg.data == []
             else Has(bytes, p.offset, p.offset + p.filesz) && seg.data == bytes[p.offset..p.offset + p.filesz]
    ensures SegmentFrom(bytes, c, order, h, k, seg)
  {
    hide DecodePhdr;
  }

  lemma MembersGiven(p: Phdr, k: nat, secs: seq<SectionState>, data: seq<byte>)
    ensures var seg := WithMembers(p, k, secs, data);
            && seg.hdr == p.(align := seg.hdr.align) && seg.index == k && seg.offsetSet && seg.data == data
            && seg.sections == Members(p, secs, |secs|) && seg.hdr.align == RaisedAlign(p.align, secs, seg.sections)
  {
  }

  // ----- the whole file

  /** A name is the string at the section's name offset in the section name string table: everything before the
      first NUL there; it stays empty if there is no such table or place. */
  predicate NameFrom(secs: seq<SectionState>, shstrndx: nat, s: SectionState) {
    if shstrndx == 0 || shstrndx >= |secs| || s.hdr.name >= secs[shstrndx].hdr.size ||
       s.hdr.name >= |secs[shstrndx].data|
    then s.name == []
    else
      var table, end := secs[shstrndx].data, s.hdr.name + |s.name|;
      && end <= |table| && s.name == table[s.hdr.name..end] && 0 !in s.name
      && (end == |table| || table[end] == 0)
  }

  /** Bit 1 of the flags is set, and the section's addresses lie inside the segment's memory, or it is not and
      its place lies inside the segment's part of the file; both ends are computed on 64 bits. */
  predicate Inside(p: Phdr, s: Shdr) {
    if s.flags / 2 % 2 == 1
    then p.vaddr <= s.addr && OnLongs(s.addr + s.size) <= OnLongs(p.vaddr + p.memsz)
    else p.offset <= s.offset && OnLongs(s.offset + s.size) <= OnLongs(p.offset + p.filesz)
  }

  function OnLongs(n: nat): nat {
    n % 0x1_0000_0000_0000_0000
  }

  /** A segment has exactly the sections inside it, in increasing order, and is aligned for all of them. */
  predicate MembersFrom(p: Phdr, secs: seq<SectionState>, seg: SegmentState) {
    && (forall j :: 0 <= j < |seg.sections| ==> seg.sections[j] < |secs|)
    && (forall j, k :: 0 <= j < k < |seg.sections| ==> seg.sections[j] < seg.sections[k])
    && (forall i :: 0 <= i < |secs| ==> (i in seg.sections <==> Inside(p, secs[i].hdr)))
    && IsLargest(seg.hdr.align, p.align, secs, seg.sections)
  }

  lemma MembersRead(p: Phdr, secs: seq<SectionState>, seg: SegmentState)
    requires seg.sections == Members(p, secs, |secs|) && seg.hdr.align == RaisedAlign(p.align, secs, seg.sections)
    ensures MembersFrom(p, secs, seg)
  {
    hide Matches, IsLargest, RaisedAlign;
    RaisedIsLargest(p.align, secs, seg.sections);
    forall i | 0 <= i < |secs|
      ensures i in seg.sections <==> Inside(p, secs[i].hdr)
    {
      MatchIsInside(p, secs[i]);
    }
  }

  lemma MatchIsInside(p: Phdr, s: SectionState)
    ensures Matches(p, s) <==> Inside(p, s.hdr)
  {
    Reduced(0, s.hdr.addr + s.hdr.size);
    Reduced(0, p.vaddr + p.memsz);
    Reduced(0, s.hdr.offset + s.hdr.size);
    Reduced(0, p.offset + p.filesz);
    hide Wrap;
  }

  /** The names are looked up in the sections before they are named, whose headers and data are the same. */
  lemma NameRead(secs: seq<SectionState>, shstrndx: nat, i: nat)
    requires i < |secs| && secs[i].name == []
    ensures NameFrom(NamedSections(secs, shstrndx), shstrndx, NamedSections(secs, shstrndx)[i])
  {
    hide ElfHash.CString;
    if 0 < shstrndx < |secs| {
      var table := secs[shstrndx];
      assert NamedSections(secs, shstrndx)[shstrndx].data == table.data;
      if secs[i].hdr.name < table.hdr.size && secs[i].hdr.name < |table.data| {
        StringEnds(table.data, secs[i].hdr.name);
      }
    }
  }

  lemma StringEnds(table: seq<byte>, at: nat)
    requires at < |table|
    ensures var name := ElfHash.CString(table[at..]);
            var end := at + |name|;
            end <= |table| && name == table[at..end] && 0 !in name && (end == |table| || table[end] == 0)
  {
  }

  /** The byte order a file's words have: the one byte 5 names. */
  predicate OrderFrom(bytes: seq<byte>, order: Order)
    requires |bytes| >= 16
  {
    (bytes[5] == 1 ==> order == Little) && (bytes[5] == 2 ==> order == Big)
  }

  /** The header: the magic number, a class in byte 4, a byte order in byte 5, and the record at the beginning. */
  predicate HeaderFrom(bytes: seq<byte>, g: Elf) {
    && |bytes| >= 16 && bytes[..4] == [0x7F, 0x45, 0x4C, 0x46]
    && bytes[4] == (if g.cls == Class32 then 1 else 2) && OrderFrom(bytes, g.conv.FileOrder())
    && Has(bytes, 0, g.cls.EhdrSize()) && g.hdr == DecodeEhdr(g.cls, g.conv.FileOrder(), bytes[..g.cls.EhdrSize()])
  }

  /** Loading fails exactly if the identification is not acceptable or the header is cut off. */
  lemma LoadAccepts(host: Order, bytes: seq<byte>)
    ensures var size := if |bytes| > 4 && bytes[4] == 1 then 52 else 64;
            LoadFrom(host, bytes).Some? <==>
            |bytes| >= size && bytes[..4] == [0x7F, 0x45, 0x4C, 0x46] && (bytes[4] == 1 || bytes[4] == 2)
    ensures LoadFrom(host, bytes).Some? ==> HeaderFrom(bytes, LoadFrom(host, bytes).value.0)
  {
    hide LoadTables, DecodeEhdr;
  }

  // ----- the tables of a file

  lemma SectionsTame(c: ElfClass, conv: Conv, h: Ehdr)
    ensures Tame(SectionReader(c, conv, h))
  {
    var read := SectionReader(c, conv, h);
    forall s: Stream, i: nat
      ensures read(s, i).1.bytes == s.bytes && (read(s, i).1.ok ==> s.ok)
    {
    }
  }

  lemma SegmentsTame(c: ElfClass, conv: Conv, h: Ehdr, secs: seq<SectionState>)
    ensures Tame(SegmentReader(c, conv, h, secs))
  {
    var read := SegmentReader(c, conv, h, secs);
    forall s: Stream, k: nat
      ensures read(s, k).1.bytes == s.bytes && (read(s, k).1.ok ==> s.ok)
    {
    }
  }

  /** Section i as the table has it, with its name. */
  predicate NamedFrom(bytes: seq<byte>, g: Elf, i: nat)
    requires i < |g.sections|
  {
    && SectionFrom(bytes, g.cls, g.conv.FileOrder(), g.hdr, i, g.sections[i])
    && NameFrom(g.sections, g.hdr.shstrndx, g.sections[i])
  }

  /** Segment k as the table has it, with its sections. */
  predicate ListedFrom(bytes: seq<byte>, g: Elf, k: nat)
    requires k < |g.segments|
  {
    var at := g.hdr.phoff + k * g.hdr.phentsize;
    && SegmentFrom(bytes, g.cls, g.conv.FileOrder(), g.hdr, k, g.segments[k])
    && MembersFrom(DecodePhdr(g.cls, g.conv.FileOrder(), bytes[at..at + g.cls.PhdrSize()]), g.sections, g.segments[k])
  }

  /** Whatever file is loaded, if it has everything its headers point to, every header, name, section and segment
      of the object is what stands at its place in the file. */
  lemma LoadReads(host: Order, bytes: seq<byte>)
    requires LoadFrom(host, bytes).Some? && LoadFrom(host, bytes).value.1.ok
    ensures var g := LoadFrom(host, bytes).value.0;
            && HeaderFrom(bytes, g) && |g.sections| == g.hdr.shnum && |g.segments| == g.hdr.phnum
            && (forall i :: 0 <= i < |g.sections| ==> NamedFrom(bytes, g, i))
            && (forall k :: 0 <= k < |g.segments| ==> ListedFrom(bytes, g, k))
  {
    hide LoadTables, NamedFrom, ListedFrom, HeaderFrom;
    LoadAccepts(host, bytes);
    var (g, s1) := LoadFrom(host, bytes).value;
    var s := LoadHeader(g.cls, g.conv, bytes).value.1;
    TablesRead(bytes, g, s, s1);
  }

  lemma TablesRead(bytes: seq<byte>, g: Elf, s: Stream, s1: Stream)
    requires LoadTables(g.cls, g.conv, g.hdr, s) == (g.sections, g.segments, s1) && s1.ok && s.bytes == bytes
    ensures |g.sections| == g.hdr.shnum && |g.segments| == g.hdr.phnum
    ensures forall i :: 0 <= i < |g.sections| ==> NamedFrom(bytes, g, i)
    ensures forall k :: 0 <= k < |g.segments| ==> ListedFrom(bytes, g, k)
  {
    hide NamedFrom, ListedFrom, SectionReader, SegmentReader, NamedSections;
    var readSections := SectionReader(g.cls, g.conv, g.hdr);
    var readSegments := SegmentReader(g.cls, g.conv, g.hdr, g.sections);
    var (secs, s2) := ReadAll(readSections, s, g.hdr.shnum);
    SectionsTame(g.cls, g.conv, g.hdr);
    SegmentsTame(g.cls, g.conv, g.hdr, g.sections);
    StreamStays(readSections, s, g.hdr.shnum);
    StreamStays(readSegments, s2, g.hdr.phnum);
    forall i | 0 <= i < |g.sections|
      ensures NamedFrom(bytes, g, i)
    {
      var t := RecordRead(readSections, s, g.hdr.shnum, i);
      OneSection(bytes, g, t, secs, i);
    }
    forall k | 0 <= k < |g.segments|
      ensures ListedFrom(bytes, g, k)
    {
      var t := RecordRead(readSegments, s2, g.hdr.phnum, k);
      OneSegment(bytes, g, t, k);
    }
  }

  lemma OneSection(bytes: seq<byte>, g: Elf, t: Stream, secs: seq<SectionState>, i: nat)
    requires t.ok && t.bytes == bytes && i < |secs| && g.sections == NamedSections(secs, g.hdr.shstrndx)
    requires SectionReader(g.cls, g.conv, g.hdr)(t, i).1.ok && SectionReader(g.cls, g.conv, g.hdr)(t, i).0 == secs[i]
    ensures NamedFrom(bytes, g, i)
  {
    hide LoadSection, Named, NameFrom;
    SectionRead(g.cls, g.conv, g.hdr, t, i);
    NameRead(secs, g.hdr.shstrndx, i);
    OnlyNamed(secs, g.hdr.shstrndx, secs[i]);
  }

  lemma OnlyNamed(secs: seq<SectionState>, shstrndx: nat, s: SectionState)
    ensures Named(secs, shstrndx, s) == s.(name := Named(secs, shstrndx, s).name)
  {
  }

  lemma OneSegment(bytes: seq<byte>, g: Elf, t: Stream, k: nat)
    requires t.ok && t.bytes == bytes && k < |g.segments|
    requires SegmentReader(g.cls, g.conv, g.hdr, g.sections)(t, k).1.ok
    requires SegmentReader(g.cls, g.conv, g.hdr, g.sections)(t, k).0 == g.segments[k]
    ensures ListedFrom(bytes, g, k)
  {
    hide LoadSegment, MembersFrom, Members, RaisedAlign, DecodePhdr;
    SegmentRead(g.cls, g.conv, g.hdr, g.sections, t, k);
    var at := g.hdr.phoff + k * g.hdr.phentsize;
    MembersRead(DecodePhdr(g.cls, g.conv.FileOrder(), bytes[at..at + g.cls.PhdrSize()]), g.sections, g.segments[k]);
  }
}
