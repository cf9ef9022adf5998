/** What the file that `save` writes has at which byte, in terms of the object the user built. */
module SavedFile {
  import opened Bytes
  import opened ElfTypes
  import opened ElfState
  import opened Layout
  import opened LayoutPass
  import opened LayoutTheorems
  import opened FileFormat
  import opened SaveLoad
  import opened SaveRoundTrip
  import opened LoadedFile
  import Frozen
  import RecordFields

  /** Section i's header stands in record i of the table, its data at its offset. */
  predicate SectionIn(file: seq<byte>, f: Elf, i: nat)
    requires i < |f.sections|
  {
    var at, s := f.hdr.shoff + i * f.hdr.shentsize, f.sections[i];
    && Has(file, at, at + f.cls.ShdrSize())
    && DecodeShdr(f.cls, f.conv.FileOrder(), file[at..at + f.cls.ShdrSize()]) == s.hdr
    && (s.hdr.typ != 0 && s.hdr.typ != 8 && s.data != [] ==>
          Has(file, s.hdr.offset, s.hdr.offset + s.hdr.size) &&
          file[s.hdr.offset..s.hdr.offset + s.hdr.size] == s.data)
  }

  /** Segment k's header stands in record k of the table behind the ELF header. */
  predicate SegmentIn(file: seq<byte>, f: Elf, k: nat)
    requires k < |f.segments|
  {
    var at := f.hdr.ehsize + k * f.hdr.phentsize;
    && Has(file, at, at + f.cls.PhdrSize())
    && DecodePhdr(f.cls, f.conv.FileOrder(), file[at..at + f.cls.PhdrSize()]) == f.segments[k].hdr
  }

  /** The ELF header stands at the beginning. */
  predicate HeaderIn(file: seq<byte>, f: Elf) {
    && Has(file, 0, f.cls.EhdrSize())
    && DecodeEhdr(f.cls, f.conv.FileOrder(), file[..f.cls.EhdrSize()]) == f.hdr
  }

  lemma ImageHas(f: Elf)
    requires Arranged(f) && Encodable(f)
    ensures HeaderIn(Image(f), f)
    ensures forall i :: 0 <= i < |f.sections| ==> SectionIn(Image(f), f, i)
    ensures forall k :: 0 <= k < |f.segments| ==> SegmentIn(Image(f), f, k)
  {
    hide Image, HeadersOf, DecodeEhdr, DecodeShdr, DecodePhdr, EncodeEhdr, EncodeShdr, EncodePhdr;
    var file, h := Image(f), HeadersOf(f);
    ImageHolds(f);
    HeadersDecode(f);
    assert file[..|h.ehdr|] == h.ehdr;
    forall i | 0 <= i < |f.sections|
      ensures SectionIn(file, f, i)
    {
      assert SectionHeld(f, h, file, i) && ArrangedSection(f, i);
    }
    forall k | 0 <= k < |f.segments|
      ensures SegmentIn(file, f, k)
    {
      assert SegmentHeld(f, h, file, k);
    }
  }

  /** In the saved file every header is in its place, and the bytes of every section are the ones it was given. */
  lemma SavedFileHas(e: Elf)
    requires Saveable(e)
    ensures |LaidOut(e).hdr.ident| == EI_NIDENT
    ensures var f, file := LaidOut(e), Image(LaidOut(e));
            && HeaderIn(file, f) && HeaderKept(e.hdr, f.hdr, |e.segments|, |e.sections|)
            && |f.sections| == |e.sections| && |f.segments| == |e.segments|
            && (forall i :: 0 <= i < |f.sections| ==> SectionIn(file, f, i) && f.sections[i].data == e.sections[i].data)
            && (forall k :: 0 <= k < |f.segments| ==> SegmentIn(file, f, k))
  {
    hide LaidOut, AfterSegments, Image, NamesResolve, SectionsBounded, SegmentsBounded, LayoutFits, HeaderKept,
         HeaderIn, SectionIn, SegmentIn, Arranged, Encodable;
    LayoutResult(e);
    PartsBounded(e);
    LaidOutBounded(e);
    FinishedArranged(e, LaidOut(e), AfterSegments(e).pos);
    FinishedEncodable(e, LaidOut(e), AfterSegments(e).pos);
    LayoutKeepsHeader(e);
    ImageHas(LaidOut(e));
    Frozen.LayoutMoves(e);
    forall i | 0 <= i < |LaidOut(e).sections|
      ensures LaidOut(e).sections[i].data == e.sections[i].data
    {
      assert e.sections[i].Moved(LaidOut(e).sections[i]);
    }
    SaveThenLoad(e);
  }

  /** What the user chose, byte by byte: type, machine and the entry point of the program. */
  lemma EntryIsSaved(e: Elf)
    requires Saveable(e)
    ensures |LaidOut(e).hdr.ident| == EI_NIDENT
    ensures var file, order := Image(LaidOut(e)), e.conv.FileOrder();
            && |file| >= (if e.cls.Class32? then 52 else 64) && file[..16] == e.hdr.ident
            && RecordFields.Word(order, file, 16, 18) == e.hdr.typ
            && RecordFields.Word(order, file, 18, 20) == e.hdr.machine
            && RecordFields.Word(order, file, 24, if e.cls.Class32? then 28 else 32) == e.hdr.entry
  {
    hide LaidOut, Image, SectionIn, SegmentIn, HeaderIn, RecordFields.Word, Saveable;
    SavedFileHas(e);
    SaveableIsOk(e);
    LayoutKeepsClass(e);
    HeaderBytes(Image(LaidOut(e)), LaidOut(e));
  }

  lemma LayoutKeepsClass(e: Elf)
    requires ElfOk(e)
    ensures LaidOut(e).cls == e.cls && LaidOut(e).conv == e.conv
  {
    hide AfterSections;
  }

  lemma HeaderBytes(file: seq<byte>, f: Elf)
    requires HeaderIn(file, f)
    ensures var order := f.conv.FileOrder();
            && |file| >= (if f.cls.Class32? then 52 else 64) && file[..16] == f.hdr.ident
            && RecordFields.Word(order, file, 16, 18) == f.hdr.typ
            && RecordFields.Word(order, file, 18, 20) == f.hdr.machine
            && RecordFields.Word(order, file, 24, if f.cls.Class32? then 28 else 32) == f.hdr.entry
  {
    hide DecodeEhdr, Load;
    var bs := file[..f.cls.EhdrSize()];
    RecordFields.EhdrFields(f.conv.FileOrder(), bs);
    assert bs[..16] == file[..16] && bs[16..18] == file[16..18] && bs[18..20] == file[18..20];
    assert f.cls.Class32? ==> bs[24..28] == file[24..28];
    assert f.cls.Class64? ==> bs[24..32] == file[24..32];
  }
}
