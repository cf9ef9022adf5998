/** Loading the bytes that `save` writes gives back the object. */
module SaveLoad {
  import opened Bytes
  import opened Convertor
  import opened ElfTypes
  import opened ElfState
  import opened FileImage
  import opened FileFormat
  import Arith

  // ----- what the writes need

  function TableEnd(e: Elf): nat {
    e.hdr.ehsize + e.hdr.phentsize * e.hdr.phnum
  }

  /** Where `save` writes the parts of the object, its own record sizes and counts are used. */
  predicate Arranged(e: Elf) {
    && e.hdr.ehsize == e.cls.EhdrSize() && e.hdr.phentsize == e.cls.PhdrSize() && e.hdr.shentsize == e.cls.ShdrSize()
    && e.hdr.shnum == |e.sections| && e.hdr.phnum == |e.segments|
    && (e.segments != [] ==> e.hdr.phoff == e.hdr.ehsize)
    && TableEnd(e) <= e.hdr.shoff
    && (forall i :: 0 <= i < |e.sections| ==> ArrangedSection(e, i))
    && (forall k :: 0 <= k < |e.segments| ==> e.segments[k].index == k)
    && DataApart(e)
  }

  /** The section's data is what its size says and stands between the two header tables. */
  predicate ArrangedSection(e: Elf, i: nat)
    requires i < |e.sections|
  {
    var s := e.sections[i];
    && s.index == i
    && (s.Occupies() ==> |s.data| == s.hdr.size)
    && (WritesData(s) ==> TableEnd(e) <= s.hdr.offset && s.End() <= e.hdr.shoff)
  }

  predicate DataApart(e: Elf) {
    forall i, j :: 0 <= i < |e.sections| && 0 <= j < |e.sections| && i != j &&
                   WritesData(e.sections[i]) && WritesData(e.sections[j]) ==>
      e.sections[i].End() <= e.sections[j].hdr.offset || e.sections[j].End() <= e.sections[i].hdr.offset
  }

  /** Every field fits its width, and the identification names the object's class and byte order. */
  predicate Encodable(e: Elf) {
    && EhdrFits(e.cls, e.hdr)
    && e.hdr.ident[..4] == MAGIC && ClassOf(e.hdr.ident[EI_CLASS]) == Some(e.cls)
    && e.conv == Setup(e.conv.host, e.hdr.ident[EI_DATA])
    && (forall i :: 0 <= i < |e.sections| ==> ShdrFits(e.cls, e.sections[i].hdr))
    && (forall k :: 0 <= k < |e.segments| ==> PhdrFits(e.cls, e.segments[k].hdr))
  }

  // ----- what the file holds while it is written

  function ShdrPlace(e: Elf, i: nat): nat {
    RecordPlace(e.hdr.shoff, i, e.hdr.shentsize)
  }

  function PhdrPlace(e: Elf, k: nat): nat {
    RecordPlace(e.hdr.phoff, k, e.hdr.phentsize)
  }

  predicate Shaped(e: Elf, h: Headers) {
    && |h.ehdr| == e.cls.EhdrSize()
    && |h.shdrs| == |e.sections| && (forall i :: 0 <= i < |e.sections| ==> |h.shdrs[i]| == e.cls.ShdrSize())
    && |h.phdrs| == |e.segments| && (forall k :: 0 <= k < |e.segments| ==> |h.phdrs[k]| == e.cls.PhdrSize())
  }

  predicate SectionHeld(e: Elf, h: Headers, file: seq<byte>, i: nat)
    requires i < |e.sections| == |h.shdrs|
  {
    && Holds(file, ShdrPlace(e, i), h.shdrs[i])
    && (WritesData(e.sections[i]) ==> Holds(file, e.sections[i].hdr.offset, e.sections[i].data))
  }

  predicate SegmentHeld(e: Elf, h: Headers, file: seq<byte>, k: nat)
    requires k < |h.phdrs|
  {
    Holds(file, PhdrPlace(e, k), h.phdrs[k])
  }

  /** After n sections and m segments. */
  predicate Held(e: Elf, h: Headers, file: seq<byte>, n: nat, m: nat) {
    && Shaped(e, h) && n <= |e.sections| && m <= |e.segments|
    && Holds(file, 0, h.ehdr)
    && (forall i :: 0 <= i < n ==> SectionHeld(e, h, file, i))
    && (forall k :: 0 <= k < m ==> SegmentHeld(e, h, file, k))
  }

  /** Records of one size at consecutive places do not overlap. */
  lemma RecordsClear(base: nat, i: nat, j: nat, size: nat)
    requires i != j
    ensures Clear(base + i * size, size, base + j * size, size)
  {
    if i < j {
      Arith.MulSucc(i, size);
      Arith.MulMonotone(i + 1, j, size);
    } else {
      Arith.MulSucc(j, size);
      Arith.MulMonotone(j + 1, i, size);
    }
  }

  /** The records of a table lie between its start and its end. */
  lemma RecordInTable(base: nat, i: nat, n: nat, size: nat)
    requires i < n
    ensures base <= base + i * size && base + i * size + size <= base + n * size
  {
    Arith.MulSucc(i, size);
    Arith.MulMonotone(i + 1, n, size);
    Arith.MulMonotone(0, i, size);
  }

  /** A write that stays clear of everything the file holds keeps it. */
  lemma KeepSections(e: Elf, h: Headers, file: seq<byte>, n: nat, offset: nat, bs: seq<byte>)
    requires Held(e, h, file, n, 0)
    requires Clear(offset, |bs|, 0, |h.ehdr|)
    requires forall i :: 0 <= i < n ==> ClearOf(e, offset, |bs|, i)
    ensures Held(e, h, WriteAt(file, offset, bs), n, 0)
  {
    WriteKeeps(file, offset, bs, 0, h.ehdr);
    forall i | 0 <= i < n
      ensures SectionHeld(e, h, WriteAt(file, offset, bs), i)
    {
      assert SectionHeld(e, h, file, i) && ClearOf(e, offset, |bs|, i);
      WriteKeeps(file, offset, bs, ShdrPlace(e, i), h.shdrs[i]);
      if WritesData(e.sections[i]) {
        WriteKeeps(file, offset, bs, e.sections[i].hdr.offset, e.sections[i].data);
      }
    }
  }

  /** The range avoids the header record and the data of section i. */
  predicate ClearOf(e: Elf, offset: nat, len: nat, i: nat)
    requires i < |e.sections|
  {
    && Clear(offset, len, ShdrPlace(e, i), e.cls.ShdrSize())
    && (WritesData(e.sections[i]) ==> Clear(offset, len, e.sections[i].hdr.offset, |e.sections[i].data|))
  }

  /** Section header records avoid the data and the other records. */
  lemma RecordClear(e: Elf, n: nat, i: nat)
    requires Arranged(e) && n < |e.sections| && i < |e.sections| && i != n
    ensures ClearOf(e, ShdrPlace(e, n), e.cls.ShdrSize(), i)
  {
    Arith.MulMonotone(0, n, e.hdr.shentsize);
    RecordsClear(e.hdr.shoff, n, i, e.hdr.shentsize);
    assert ArrangedSection(e, i);
  }

  /** Section data avoids the other data and all records of the section table. */
  lemma DataClear(e: Elf, n: nat, i: nat)
    requires Arranged(e) && n < |e.sections| && i < |e.sections| && WritesData(e.sections[n])
    ensures Clear(e.sections[n].hdr.offset, |e.sections[n].data|, ShdrPlace(e, i), e.cls.ShdrSize())
    ensures i != n ==> ClearOf(e, e.sections[n].hdr.offset, |e.sections[n].data|, i)
    ensures Clear(e.sections[n].hdr.offset, |e.sections[n].data|, 0, e.cls.EhdrSize())
  {
    Arith.MulMonotone(0, i, e.hdr.shentsize);
    assert ArrangedSection(e, n) && ArrangedSection(e, i);
  }

  /** Program header records lie between the ELF header and everything else. */
  lemma PhdrClear(e: Elf, k: nat, i: nat)
    requires Arranged(e) && k < |e.segments| && i < |e.sections|
    ensures ClearOf(e, PhdrPlace(e, k), e.cls.PhdrSize(), i)
    ensures Clear(PhdrPlace(e, k), e.cls.PhdrSize(), 0, e.cls.EhdrSize())
  {
    RecordInTable(e.hdr.phoff, k, |e.segments|, e.hdr.phentsize);
    Arith.MulMonotone(0, i, e.hdr.shentsize);
    assert ArrangedSection(e, i);
  }

  lemma SectionStep(e: Elf, h: Headers, file: seq<byte>, n: nat)
    requires Arranged(e) && n < |e.sections| && Held(e, h, file, n, 0)
    ensures Held(e, h, SaveSection(e, h, file, n), n + 1, 0)
  {
    var s := e.sections[n];
    assert ArrangedSection(e, n);
    Arith.MulMonotone(0, n, e.hdr.shentsize);
    forall i | 0 <= i < n
      ensures ClearOf(e, ShdrPlace(e, n), |h.shdrs[n]|, i)
    {
      RecordClear(e, n, i);
    }
    KeepSections(e, h, file, n, ShdrPlace(e, n), h.shdrs[n]);
    var f := WriteAt(file, ShdrPlace(e, n), h.shdrs[n]);
    WriteHolds(file, ShdrPlace(e, n), h.shdrs[n]);
    if WritesData(s) {
      DataStep(e, h, f, n);
    }
  }

  lemma DataStep(e: Elf, h: Headers, f: seq<byte>, n: nat)
    requires Arranged(e) && n < |e.sections| && Held(e, h, f, n, 0) && WritesData(e.sections[n])
    requires Holds(f, ShdrPlace(e, n), h.shdrs[n])
    ensures Held(e, h, WriteAt(f, e.sections[n].hdr.offset, e.sections[n].data), n + 1, 0)
  {
    var s := e.sections[n];
    forall i | 0 <= i <= n
      ensures i < n ==> ClearOf(e, s.hdr.offset, |s.data|, i)
    {
      DataClear(e, n, i);
    }
    DataClear(e, n, n);
    KeepSections(e, h, f, n, s.hdr.offset, s.data);
    WriteHolds(f, s.hdr.offset, s.data);
    WriteKeeps(f, s.hdr.offset, s.data, ShdrPlace(e, n), h.shdrs[n]);
  }

  lemma SegmentStep(e: Elf, h: Headers, file: seq<byte>, n: nat)
    requires Arranged(e) && n < |e.segments| && Held(e, h, file, |e.sections|, n)
    ensures Held(e, h, SaveSegment(e, h, file, n), |e.sections|, n + 1)
  {
    var place, bs := PhdrPlace(e, n), h.phdrs[n];
    forall i | 0 <= i < |e.sections|
      ensures ClearOf(e, place, |bs|, i)
    {
      PhdrClear(e, n, i);
    }
    RecordInTable(e.hdr.phoff, n, |e.segments|, e.hdr.phentsize);
    KeepSections(e, h, file, |e.sections|, place, bs);
    WriteHolds(file, place, bs);
    forall k | 0 <= k < n
      ensures SegmentHeld(e, h, WriteAt(file, place, bs), k)
    {
      assert SegmentHeld(e, h, file, k);
      RecordsClear(e.hdr.phoff, n, k, e.hdr.phentsize);
      WriteKeeps(file, place, bs, PhdrPlace(e, k), h.phdrs[k]);
    }
  }

  lemma {:induction false} SectionsHeld(e: Elf, h: Headers, file: seq<byte>, n: nat)
    requires Arranged(e) && n <= |e.sections| == |h.shdrs| && Held(e, h, file, 0, 0)
    ensures Held(e, h, SaveSections(e, h, file, n), n, 0)
  {
    hide Held, SaveSection, Arranged;
    if n > 0 {
      SectionsHeld(e, h, file, n - 1);
      SectionStep(e, h, SaveSections(e, h, file, n - 1), n - 1);
    }
  }

  lemma {:induction false} SegmentsHeld(e: Elf, h: Headers, file: seq<byte>, n: nat)
    requires Arranged(e) && n <= |e.segments| == |h.phdrs| && Held(e, h, file, |e.sections|, 0)
    ensures Held(e, h, SaveSegments(e, h, file, n), |e.sections|, n)
  {
    hide Held, SaveSegment, Arranged;
    if n > 0 {
      SegmentsHeld(e, h, file, n - 1);
      SegmentStep(e, h, SaveSegments(e, h, file, n - 1), n - 1);
    }
  }

  /** No write of `save` destroys another: the finished file holds every header and all data. */
  lemma ImageHolds(e: Elf)
    requires Arranged(e) && |e.hdr.ident| == EI_NIDENT
    ensures Held(e, HeadersOf(e), Image(e), |e.sections|, |e.segments|)
  {
    var h := HeadersOf(e);
    var f0 := WriteAt([], 0, h.ehdr);
    WriteHolds([], 0, h.ehdr);
    SectionsHeld(e, h, f0, |e.sections|);
    SegmentsHeld(e, h, SaveSections(e, h, f0, |e.sections|), |e.segments|);
  }

  // ----- loading what the file holds

  /** A section as loading finds it before names are resolved. */
  function Stripped(s: SectionState): SectionState {
    s.(name := [], data := if s.Occupies() then s.data else [], addressSet := true)
  }

  function StrippedSections(e: Elf): (r: seq<SectionState>)
    ensures |r| == |e.sections| && forall i :: 0 <= i < |r| ==> r[i] == Stripped(e.sections[i])
  {
    seq(|e.sections|, i requires 0 <= i < |e.sections| => Stripped(e.sections[i]))
  }

  /** Section i's name is the string at its name offset in the section name string table. */
  predicate NameResolves(e: Elf, i: nat)
    requires i < |e.sections|
  {
    Named(StrippedSections(e), e.hdr.shstrndx, Stripped(e.sections[i])).name == e.sections[i].name
  }

  predicate NamesResolve(e: Elf) {
    forall i {:trigger NameResolves(e, i)} :: 0 <= i < |e.sections| ==> NameResolves(e, i)
  }

  /** The object that comes back: the same sections with their addresses marked as set, and segments
      whose section lists were recomputed and whose data is their part of the file. */
  function ReloadedSections(e: Elf): (r: seq<SectionState>)
    ensures |r| == |e.sections|
    ensures forall i :: 0 <= i < |r| ==>
              r[i] == e.sections[i].(data := if e.sections[i].Occupies() then e.sections[i].data
                  else [], addressSet := true)
  {
    seq(|e.sections|, i requires 0 <= i < |e.sections| =>
        e.sections[i].(data := if e.sections[i].Occupies() then e.sections[i].data else [], addressSet := true))
  }

  function SegmentData(h: Phdr, file: seq<byte>): seq<byte> {
    if h.typ != PT_NULL && h.filesz != 0 && h.offset + h.filesz <= |file|
    then file[h.offset..h.offset + h.filesz] else []
  }

  function ReloadedSegments(e: Elf, file: seq<byte>): (r: seq<SegmentState>)
    ensures |r| == |e.segments|
    ensures forall k :: 0 <= k < |r| ==>
              r[k] == WithMembers(e.segments[k].hdr, k, ReloadedSections(e), SegmentData(e.segments[k].hdr, file))
  {
    seq(|e.segments|, k requires 0 <= k < |e.segments| =>
        WithMembers(e.segments[k].hdr, k, ReloadedSections(e), SegmentData(e.segments[k].hdr, file)))
  }

  function Reloaded(e: Elf, file: seq<byte>): Elf {
    e.(sections := ReloadedSections(e), segments := ReloadedSegments(e, file))
  }

  /** The record that reads back as section i's header. */
  lemma SectionBack(e: Elf, h: Headers, s: Stream, i: nat)
    requires s.ok && i < |e.sections| == |h.shdrs| && SectionHeld(e, h, s.bytes, i)
    requires |h.shdrs[i]| == e.cls.ShdrSize()
    requires DecodeShdr(e.cls, e.conv.FileOrder(), h.shdrs[i]) == e.sections[i].hdr
    requires e.sections[i].index == i && (e.sections[i].Occupies() ==> |e.sections[i].data| == e.sections[i].hdr.size)
    ensures var (sec, s') := LoadSection(e.cls, e.conv, s, ShdrPlace(e, i), i);
            sec == Stripped(e.sections[i]) && s'.ok && s'.bytes == s.bytes
  {
    ReadHeld(s, ShdrPlace(e, i), h.shdrs[i]);
    assert ZeroFilled(h.shdrs[i], e.cls.ShdrSize()) == h.shdrs[i];
    var s1 := s.Seek(ShdrPlace(e, i)).Read(e.cls.ShdrSize()).1;
    if WritesData(e.sections[i]) {
      ReadHeld(s1, e.sections[i].hdr.offset, e.sections[i].data);
    }
  }

  /** The encoded headers decode to the object's headers. */
  predicate Decodes(e: Elf, h: Headers)
    requires Shaped(e, h)
  {
    && DecodeEhdr(e.cls, e.conv.FileOrder(), h.ehdr) == e.hdr
    && (forall i :: 0 <= i < |e.sections| ==> DecodeShdr(e.cls, e.conv.FileOrder(), h.shdrs[i]) == e.sections[i].hdr)
    && (forall k :: 0 <= k < |e.segments| ==> DecodePhdr(e.cls, e.conv.FileOrder(), h.phdrs[k]) == e.segments[k].hdr)
  }

  lemma HeadersDecode(e: Elf)
    requires Encodable(e)
    ensures Shaped(e, HeadersOf(e)) && Decodes(e, HeadersOf(e))
  {
    EhdrRoundTrip(e.cls, e.conv.FileOrder(), e.hdr);
    forall i | 0 <= i < |e.sections|
      ensures DecodeShdr(e.cls, e.conv.FileOrder(), HeadersOf(e).shdrs[i]) == e.sections[i].hdr
    {
      ShdrRoundTrip(e.cls, e.conv.FileOrder(), e.sections[i].hdr);
    }
    forall k | 0 <= k < |e.segments|
      ensures DecodePhdr(e.cls, e.conv.FileOrder(), HeadersOf(e).phdrs[k]) == e.segments[k].hdr
    {
      PhdrRoundTrip(e.cls, e.conv.FileOrder(), e.segments[k].hdr);
    }
  }

  lemma SegmentBack(e: Elf, h: Headers, secs: seq<SectionState>, s: Stream, k: nat)
    requires s.ok && k < |e.segments| == |h.phdrs| && SegmentHeld(e, h, s.bytes, k)
    requires |h.phdrs[k]| == e.cls.PhdrSize()
    requires DecodePhdr(e.cls, e.conv.FileOrder(), h.phdrs[k]) == e.segments[k].hdr
    requires e.segments[k].hdr.offset + e.segments[k].hdr.filesz <= |s.bytes|
    ensures var (seg, s') := LoadSegment(e.cls, e.conv, secs, s, PhdrPlace(e, k), k);
            && seg == WithMembers(e.segments[k].hdr, k, secs, SegmentData(e.segments[k].hdr, s.bytes))
            && s'.ok && s'.bytes == s.bytes
  {
    ReadHeld(s, PhdrPlace(e, k), h.phdrs[k]);
    assert ZeroFilled(h.phdrs[k], e.cls.PhdrSize()) == h.phdrs[k];
  }

  /** A file that holds the object can be read at all its places. */
  lemma SectionsReadable(e: Elf, h: Headers, file: seq<byte>)
    requires Arranged(e) && Held(e, h, file, |e.sections|, |e.segments|) && Decodes(e, h)
    ensures forall i :: 0 <= i < |e.sections| ==>
              Readable(SectionReader(e.cls, e.conv, e.hdr), file, i, StrippedSections(e)[i])
  {
    var read := SectionReader(e.cls, e.conv, e.hdr);
    forall i, p: nat | 0 <= i < |e.sections|
      ensures var (sec, s') := read(Stream(file, p, true), i);
              sec == StrippedSections(e)[i] && s'.ok && s'.bytes == file
    {
      assert SectionHeld(e, h, file, i) && ArrangedSection(e, i);
      SectionBack(e, h, Stream(file, p, true), i);
    }
  }

  lemma SegmentsReadable(e: Elf, h: Headers, file: seq<byte>)
    requires Arranged(e) && Held(e, h, file, |e.sections|, |e.segments|) && Decodes(e, h) && e.sections != []
    requires forall k :: 0 <= k < |e.segments| ==>
               e.segments[k].hdr.offset + e.segments[k].hdr.filesz <= e.hdr.shoff
    ensures forall k :: 0 <= k < |e.segments| ==>
              Readable(SegmentReader(e.cls, e.conv, e.hdr, ReloadedSections(e)), file, k, ReloadedSegments(e, file)[k])
  {
    assert SectionHeld(e, h, file, 0);
    var read := SegmentReader(e.cls, e.conv, e.hdr, ReloadedSections(e));
    forall k, p: nat | 0 <= k < |e.segments|
      ensures var (seg, s') := read(Stream(file, p, true), k);
              seg == ReloadedSegments(e, file)[k] && s'.ok && s'.bytes == file
    {
      assert SegmentHeld(e, h, file, k);
      SegmentBack(e, h, ReloadedSections(e), Stream(file, p, true), k);
    }
  }

  lemma NamesBack(e: Elf)
    requires NamesResolve(e)
    ensures NamedSections(StrippedSections(e), e.hdr.shstrndx) == ReloadedSections(e)
  {
    hide GetString;
    var named := NamedSections(StrippedSections(e), e.hdr.shstrndx);
    forall i | 0 <= i < |e.sections|
      ensures named[i] == ReloadedSections(e)[i]
    {
      assert NameResolves(e, i);
    }
    assert named == ReloadedSections(e);
  }

  /** Loading what `save` wrote gives back every section, with its name and data, and every segment
      header, for both classes and both byte orders, on a machine of either byte order. */
  lemma LoadOfSave(e: Elf)
    requires Arranged(e) && Encodable(e) && NamesResolve(e) && e.sections != []
    requires forall k :: 0 <= k < |e.segments| ==>
               e.segments[k].hdr.offset + e.segments[k].hdr.filesz <= e.hdr.shoff
    ensures var r := LoadFrom(e.conv.host, Image(e));
            r.Some? && r.value.0 == Reloaded(e, Image(e)) && r.value.1.ok
  {
    hide Image, HeadersOf, NamesResolve, DecodeEhdr, ArrangedSection, DataApart, TableEnd, LoadTables, Held,
         Decodes, SectionReader, SegmentReader;
    var file, h := Image(e), HeadersOf(e);
    ImageHolds(e);
    HeadersDecode(e);
    HeaderBack(e, file);
    SectionsReadable(e, h, file);
    SegmentsReadable(e, h, file);
    BothTables(e, file, Stream(file, e.cls.EhdrSize(), true));
  }

  /** Sections, then names, then segments, as `load` reads them. */
  lemma BothTables(e: Elf, file: seq<byte>, s: Stream)
    requires s.ok && s.bytes == file && NamesResolve(e)
    requires e.hdr.shnum == |e.sections| && e.hdr.phnum == |e.segments|
    requires forall i :: 0 <= i < |e.sections| ==>
               Readable(SectionReader(e.cls, e.conv, e.hdr), file, i, StrippedSections(e)[i])
    requires forall k :: 0 <= k < |e.segments| ==>
               Readable(SegmentReader(e.cls, e.conv, e.hdr, ReloadedSections(e)), file, k, ReloadedSegments(e, file)[k])
    ensures var (secs, segs, s1) := LoadTables(e.cls, e.conv, e.hdr, s);
            secs == ReloadedSections(e) && segs == ReloadedSegments(e, file) && s1.ok
  {
    ReadAllBack(SectionReader(e.cls, e.conv, e.hdr), s, StrippedSections(e), |e.sections|);
    assert StrippedSections(e)[..|e.sections|] == StrippedSections(e);
    NamesBack(e);
    var s1 := ReadAll(SectionReader(e.cls, e.conv, e.hdr), s, |e.sections|).1;
    ReadAllBack(SegmentReader(e.cls, e.conv, e.hdr, ReloadedSections(e)), s1, ReloadedSegments(e, file), |e.segments|);
    assert ReloadedSegments(e, file)[..|e.segments|] == ReloadedSegments(e, file);
  }

  /** The identification and the header record are found at the start of the file. */
  lemma HeaderBack(e: Elf, file: seq<byte>)
    requires Encodable(e) && Holds(file, 0, HeadersOf(e).ehdr)
    ensures Identify(file) == Some(e.cls) && Setup(e.conv.host, file[EI_DATA]) == e.conv
    ensures FileImage.Open(file).Read(e.cls.EhdrSize()) == (HeadersOf(e).ehdr, Stream(file, e.cls.EhdrSize(), true))
  {
    hide HeadersOf;
    var bs := HeadersOf(e).ehdr;
    EncodedIdent(e);
    ReadHeld(FileImage.Open(file), 0, bs);
    assert file[..|bs|] == bs;
    assert file[..EI_NIDENT] == e.hdr.ident;
    assert file[..4] == e.hdr.ident[..4];
  }

  lemma EncodedIdent(e: Elf)
    requires |e.hdr.ident| == EI_NIDENT
    ensures HeadersOf(e).ehdr[..EI_NIDENT] == e.hdr.ident
  {
    hide EhdrWidths;
  }
}
