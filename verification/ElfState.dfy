/** Values of the objects an elfio instance owns: what its sections, segments and header hold. */
module ElfState {
  import opened Bytes
  import opened Convertor
  import opened ElfTypes

  /** A section: `section_impl`'s header, index, name, data and address flag.
      `data` is what the data pointer gives access to; it is empty for a null pointer. */
  datatype SectionState = SectionState(hdr: Shdr, index: nat, name: seq<byte>, data: seq<byte>, addressSet: bool) {
    predicate IsNull() { hdr.typ == SHT_NULL }
    predicate IsNobits() { hdr.typ == SHT_NOBITS }

    /** True for the sections whose bytes are in the file. */
    predicate Occupies() { !IsNull() && !IsNobits() }

    predicate IsAlloc() { hdr.flags / SHF_ALLOC % 2 == 1 }
    predicate IsTls() { hdr.flags / SHF_TLS % 2 == 1 }

    /** End of the section's extent in the file. */
    function End(): nat {
      hdr.offset + if Occupies() then hdr.size else 0
    }

    function WithOffset(v: nat): SectionState {
      this.(hdr := hdr.(offset := v))
    }

    function WithAddress(v: nat): SectionState {
      this.(hdr := hdr.(addr := v), addressSet := true)
    }

    /** The same section, placed at some address and offset. */
    predicate Moved(s: SectionState) {
      s == this.(hdr := hdr.(addr := s.hdr.addr, offset := s.hdr.offset), addressSet := s.addressSet)
    }
  }

  /** A segment: `segment_impl`'s header, index, section list, offset flag and data. */
  datatype SegmentState = SegmentState(hdr: Phdr, index: nat, sections: seq<nat>, offsetSet: bool, data: seq<byte>) {
    predicate AtZero() { offsetSet && hdr.offset == 0 }

    function WithLayout(offset: nat, filesz: nat, memsz: nat): SegmentState {
      this.(hdr := hdr.(offset := offset, filesz := filesz, memsz := memsz), offsetSet := true)
    }
  }

  datatype Elf = Elf(cls: ElfClass, conv: Conv, hdr: Ehdr, sections: seq<SectionState>, segments: seq<SegmentState>)
}
