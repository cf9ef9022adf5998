/** `save_header`, `save_sections`, `save_segments` and their inverse `load` as functions on states. */
module FileFormat {
  import opened Bytes
  import opened Convertor
  import opened ElfTypes
  import opened ElfState
  import opened FileImage
  import ElfHash

  datatype Option<T> = None | Some(value: T)

  /** Place of record i in a table of records of one size. */
  function RecordPlace(base: nat, i: nat, size: nat): nat {
    base + i * size
  }

  // ----- save

  /** Sections whose bytes `section_impl::save` writes. */
  predicate WritesData(s: SectionState) {
    s.Occupies() && s.hdr.size != 0 && s.data != []
  }

  /** The encoded header records of an object. */
  datatype Headers = Headers(ehdr: seq<byte>, shdrs: seq<seq<byte>>, phdrs: seq<seq<byte>>)

  function HeadersOf(e: Elf): (h: Headers)
    requires |e.hdr.ident| == EI_NIDENT
    ensures |h.ehdr| == e.cls.EhdrSize()
    ensures |h.shdrs| == |e.sections| && forall i :: 0 <= i < |e.sections| ==>
              h.shdrs[i] == EncodeShdr(e.cls, e.conv.FileOrder(), e.sections[i].hdr) && |h.shdrs[i]| == e.cls.ShdrSize()
    ensures |h.phdrs| == |e.segments| && forall k :: 0 <= k < |e.segments| ==>
              h.phdrs[k] == EncodePhdr(e.cls, e.conv.FileOrder(), e.segments[k].hdr) && |h.phdrs[k]| == e.cls.PhdrSize()
  {
    Headers(EncodeEhdr(e.cls, e.conv.FileOrder(), e.hdr),
            seq(|e.sections|, i requires 0 <= i < |e.sections| =>
                EncodeShdr(e.cls, e.conv.FileOrder(), e.sections[i].hdr)),
            seq(|e.segments|, k requires 0 <= k < |e.segments| =>
                EncodePhdr(e.cls, e.conv.FileOrder(), e.segments[k].hdr)))
  }

  function SaveSection(e: Elf, h: Headers, file: seq<byte>, i: nat): seq<byte>
    requires i < |e.sections| == |h.shdrs|
  {
    var s := e.sections[i];
    var f := WriteAt(file, RecordPlace(e.hdr.shoff, s.index, e.hdr.shentsize), h.shdrs[i]);
    if WritesData(s) then WriteAt(f, s.hdr.offset, s.data) else f
  }

  function SaveSections(e: Elf, h: Headers, file: seq<byte>, n: nat): seq<byte>
    requires n <= |e.sections| == |h.shdrs|
  {
    if n == 0 then file else SaveSection(e, h, SaveSections(e, h, file, n - 1), n - 1)
  }

  function SaveSegment(e: Elf, h: Headers, file: seq<byte>, k: nat): seq<byte>
    requires k < |e.segments| == |h.phdrs|
  {
    WriteAt(file, RecordPlace(e.hdr.phoff, e.segments[k].index, e.hdr.phentsize), h.phdrs[k])
  }

  function SaveSegments(e: Elf, h: Headers, file: seq<byte>, n: nat): seq<byte>
    requires n <= |e.segments| == |h.phdrs|
  {
    if n == 0 then file else SaveSegment(e, h, SaveSegments(e, h, file, n - 1), n - 1)
  }

  /** The file that `save` writes for an object whose layout is done. */
  function Image(e: Elf): seq<byte>
    requires |e.hdr.ident| == EI_NIDENT
  {
    var h := HeadersOf(e);
    SaveSegments(e, h, SaveSections(e, h, WriteAt([], 0, h.ehdr), |e.sections|), |e.segments|)
  }

  // ----- load

  const MAGIC: seq<byte> := [0x7F, 0x45, 0x4C, 0x46]

  /** The class byte, if it names one. */
  function ClassOf(b: nat): Option<ElfClass> {
    if b == ELFCLASS64 then Some(Class64) else if b == ELFCLASS32 then Some(Class32) else None
  }

  /** What a short read leaves of a zero-filled record. */
  function ZeroFilled(bs: seq<byte>, n: nat): (r: seq<byte>)
    requires |bs| <= n
    ensures |r| == n && bs <= r
  {
    bs + Zeros(n - |bs|)
  }

  /** `section_impl::load` into a fresh object, with the marking of its address that follows it. */
  function LoadSection(c: ElfClass, conv: Conv, s: Stream, offset: nat, i: nat): (r: (SectionState, Stream))
    ensures r.1.ok ==> s.ok
  {
    var (bs, s1) := s.Seek(offset).Read(c.ShdrSize());
    var hdr := DecodeShdr(c, conv.FileOrder(), ZeroFilled(bs, c.ShdrSize()));
    var sec := SectionState(hdr, i, [], [], true);
    if sec.Occupies() && hdr.size != 0 then
      var (data, s2) := s1.Seek(hdr.offset).Read(hdr.size);
      (sec.(data := data), s2)
    else (sec, s1)
  }

  function SectionReader(c: ElfClass, conv: Conv, h: Ehdr): Reader<SectionState> {
    (s: Stream, i: nat) => LoadSection(c, conv, s, RecordPlace(h.shoff, i, h.shentsize), i)
  }

  /** Record i is a section header of the table that h describes. */
  ghost predicate ReadsSections(c: ElfClass, conv: Conv, h: Ehdr, read: Reader<SectionState>) {
    forall s: Stream, i: nat {:trigger LoadSection(c, conv, s, RecordPlace(h.shoff, i, h.shentsize), i)} ::
      read(s, i) == LoadSection(c, conv, s, RecordPlace(h.shoff, i, h.shentsize), i)
  }

  lemma SectionReaderReads(c: ElfClass, conv: Conv, h: Ehdr)
    ensures ReadsSections(c, conv, h, SectionReader(c, conv, h))
  {
  }

  /** `string_section_accessor::get_string`: None stands for the null pointer. */
  function GetString(s: SectionState, index: nat): Option<seq<byte>> {
    if index < s.hdr.size && index < |s.data| then Some(ElfHash.CString(s.data[index..])) else None
  }

  function Named(secs: seq<SectionState>, shstrndx: nat, s: SectionState): SectionState {
    if shstrndx == SHN_UNDEF || shstrndx >= |secs| then s
    else
      match GetString(secs[shstrndx], s.hdr.name)
      case None => s
      case Some(name) => s.(name := name)
  }

  function NamedSections(secs: seq<SectionState>, shstrndx: nat): (r: seq<SectionState>)
    ensures |r| == |secs|
    ensures forall i :: 0 <= i < |secs| ==> r[i] == Named(secs, shstrndx, secs[i])
  {
    seq(|secs|, i requires 0 <= i < |secs| => Named(secs, shstrndx, secs[i]))
  }

  /** Whether `load_segments` adds section s to a segment with header h: allocated sections are
      matched by address, the others by file offset. */
  predicate Matches(h: Phdr, s: SectionState) {
    if s.IsAlloc() then h.vaddr <= s.hdr.addr && Wrap(s.hdr.addr + s.hdr.size) <= Wrap(h.vaddr + h.memsz)
    else h.offset <= s.hdr.offset && Wrap(s.hdr.offset + s.hdr.size) <= Wrap(h.offset + h.filesz)
  }

  /** The indexes of the first n sections that match. */
  function Members(h: Phdr, secs: seq<SectionState>, n: nat): (m: seq<nat>)
    requires n <= |secs|
    ensures forall j :: 0 <= j < |m| ==> m[j] < n
    ensures forall i: nat :: i in m <==> i < n && Matches(h, secs[i])
    ensures forall j, k :: 0 <= j < k < |m| ==> m[j] < m[k]
  {
    if n == 0 then []
    else if Matches(h, secs[n - 1]) then Members(h, secs, n - 1) + [n - 1]
    else Members(h, secs, n - 1)
  }

  /** `add_section_index` raises the segment's alignment to that of its sections. */
  function RaisedAlign(align: nat, secs: seq<SectionState>, list: seq<nat>): nat
    requires forall j :: 0 <= j < |list| ==> list[j] < |secs|
  {
    if list == [] then align
    else
      var before, own := RaisedAlign(align, secs, list[..|list| - 1]), secs[list[|list| - 1]].hdr.addrAlign;
      if own > before then own else before
  }

  function WithMembers(h: Phdr, k: nat, secs: seq<SectionState>, data: seq<byte>): SegmentState {
    var list := Members(h, secs, |secs|);
    SegmentState(h.(align := RaisedAlign(h.align, secs, list)), k, list, true, data)
  }

  function LoadSegment(c: ElfClass, conv: Conv, secs: seq<SectionState>, s: Stream, offset: nat, k: nat):
    (r: (SegmentState, Stream))
    ensures r.1.ok ==> s.ok
  {
    var (bs, s1) := s.Seek(offset).Read(c.PhdrSize());
    var hdr := DecodePhdr(c, conv.FileOrder(), ZeroFilled(bs, c.PhdrSize()));
    if hdr.typ != PT_NULL && hdr.filesz != 0 then
      var (data, s2) := s1.Seek(hdr.offset).Read(hdr.filesz);
      (WithMembers(hdr, k, secs, data), s2)
    else (WithMembers(hdr, k, secs, []), s1)
  }

  function SegmentReader(c: ElfClass, conv: Conv, h: Ehdr, secs: seq<SectionState>): Reader<SegmentState> {
    (s: Stream, k: nat) => LoadSegment(c, conv, secs, s, RecordPlace(h.phoff, k, h.phentsize), k)
  }

  /** Record k is a program header of the table that h describes. */
  ghost predicate ReadsSegments(c: ElfClass, conv: Conv, h: Ehdr, secs: seq<SectionState>, read: Reader<SegmentState>) {
    forall s: Stream, k: nat {:trigger LoadSegment(c, conv, secs, s, RecordPlace(h.phoff, k, h.phentsize), k)} ::
      read(s, k) == LoadSegment(c, conv, secs, s, RecordPlace(h.phoff, k, h.phentsize), k)
  }

  lemma SegmentReaderReads(c: ElfClass, conv: Conv, h: Ehdr, secs: seq<SectionState>)
    ensures ReadsSegments(c, conv, h, secs, SegmentReader(c, conv, h, secs))
  {
  }

  /** The identification bytes, if the file starts with an acceptable ELF identification. */
  function Identify(bytes: seq<byte>): Option<ElfClass> {
    if |bytes| < EI_NIDENT || bytes[..4] != MAGIC then None else ClassOf(bytes[EI_CLASS])
  }

  /** What `load` reads behind the header: sections, their names, then segments. */
  function LoadTables(c: ElfClass, conv: Conv, h: Ehdr, s: Stream): (seq<SectionState>, seq<SegmentState>, Stream) {
    var (secs, s1) := ReadAll(SectionReader(c, conv, h), s, h.shnum);
    var named := NamedSections(secs, h.shstrndx);
    var (segs, s2) := ReadAll(SegmentReader(c, conv, h, named), s1, h.phnum);
    (named, segs, s2)
  }

  /** If the sections could not be read, the stream is not good at the end either. */
  lemma TablesFail(c: ElfClass, conv: Conv, h: Ehdr, s: Stream)
    ensures LoadTables(c, conv, h, s).2.ok ==> ReadAll(SectionReader(c, conv, h), s, h.shnum).1.ok
  {
    var (secs, s1) := ReadAll(SectionReader(c, conv, h), s, h.shnum);
    var read := SegmentReader(c, conv, h, NamedSections(secs, h.shstrndx));
    forall t: Stream, k: nat
      ensures read(t, k).1.ok ==> t.ok
    {
      assert read(t, k) == LoadSegment(c, conv, NamedSections(secs, h.shstrndx), t,
          RecordPlace(h.phoff, k, h.phentsize), k);
    }
    ReadAllFails(read, s1, h.phnum);
  }

  /** The ELF header of a file, and the stream behind it. */
  function LoadHeader(c: ElfClass, conv: Conv, bytes: seq<byte>): Option<(Ehdr, Stream)> {
    var (bs, s) := Open(bytes).Read(c.EhdrSize());
    if s.ok then Some((DecodeEhdr(c, conv.FileOrder(), bs), s)) else None
  }

  /** `load` of a file whose identification names class c. */
  function LoadAs(host: Order, c: ElfClass, bytes: seq<byte>): Option<(Elf, Stream)>
    requires |bytes| >= EI_NIDENT
  {
    var conv := Setup(host, bytes[EI_DATA]);
    match LoadHeader(c, conv, bytes)
    case None => None
    case Some((h, s)) =>
      var (secs, segs, s1) := LoadTables(c, conv, h, s);
      Some((Elf(c, conv, h, secs, segs), s1))
  }

  /** `load`, on a machine of byte order `host`: the object, and the stream's state at the end.
      None stands for the result false. */
  function LoadFrom(host: Order, bytes: seq<byte>): Option<(Elf, Stream)> {
    match Identify(bytes)
    case None => None
    case Some(c) => LoadAs(host, c, bytes)
  }
}
