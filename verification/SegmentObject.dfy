/** `segment_impl` of elfio_segment.hpp. */
module SegmentObject {
  import opened Bytes
  import opened Convertor
  import opened ElfTypes
  import opened ElfState
  import opened FileImage
  import FileFormat

  class Segment {
    const cls: ElfClass
    const conv: Conv
    var hdr: Phdr
    var index: nat
    var sections: seq<nat>
    var offsetSet: bool
    var data: seq<byte>

    ghost function View(): SegmentState
      reads this
    {
      SegmentState(hdr, index, sections, offsetSet, data)
    }

    /** The header as it stands in a file. */
    ghost function Record(): seq<byte>
      reads this`hdr
    {
      EncodePhdr(cls, conv.FileOrder(), hdr)
    }

    constructor (cls: ElfClass, conv: Conv)
      ensures this.cls == cls && this.conv == conv
      ensures View() == SegmentState(ZeroPhdr, 0, [], false, [])
    {
      this.cls, this.conv := cls, conv;
      hdr, index, sections, offsetSet, data := ZeroPhdr, 0, [], false, [];
    }

    /** Adds a section at the end of the list; the segment is at least as aligned as the section. */
    method AddSectionIndex(i: nat, addrAlign: nat) returns (count: nat)
      modifies this`sections, this`hdr
      ensures sections == old(sections) + [i] && count == |sections| % U16
      ensures hdr == old(hdr).(align := if addrAlign > old(hdr).align then cls.Trunc(addrAlign) else old(hdr).align)
    {
      sections := sections + [i];
      if addrAlign > hdr.align {
        hdr := hdr.(align := cls.Trunc(addrAlign));
      }
      count := |sections| % U16;
    }

    method SetLayout(offset: nat, filesz: nat, memsz: nat)
      modifies this`hdr, this`offsetSet
      ensures View() == old(View()).WithLayout(cls.Trunc(offset), cls.Trunc(filesz), cls.Trunc(memsz))
    {
      hdr := hdr.(filesz := cls.Trunc(filesz));
      hdr := hdr.(memsz := cls.Trunc(memsz));
      hdr := hdr.(offset := cls.Trunc(offset));
      offsetSet := true;
    }

    /** Reads the header and, unless there is none, the segment's part of the file. Which sections
        belong to the segment is found out afterwards. */
    method Load(s: Stream, headerOffset: nat) returns (r: Stream)
      requires sections == [] && data == []
      modifies this`hdr, this`offsetSet, this`data
      ensures (View(), r) == FileFormat.LoadSegment(cls, conv, [], s, headerOffset, index)
    {
      var (bs, s1) := s.Seek(headerOffset).Read(cls.PhdrSize());
      hdr := DecodePhdr(cls, conv.FileOrder(), FileFormat.ZeroFilled(bs, cls.PhdrSize()));
      offsetSet := true;
      r := s1;
      if hdr.typ != PT_NULL && hdr.filesz != 0 {
        var (bytes, s2) := s1.Seek(hdr.offset).Read(hdr.filesz);
        data := bytes;
        r := s2;
      }
    }

    /** Writes the header record, into which its caller's offset, the segment's own, was stored. */
    method Save(file: seq<byte>, headerOffset: nat, dataOffset: nat) returns (r: seq<byte>)
      requires dataOffset == hdr.offset
      ensures r == WriteAt(file, headerOffset, Record())
    {
      r := WriteAt(file, headerOffset, EncodePhdr(cls, conv.FileOrder(), hdr));
    }
  }
}
