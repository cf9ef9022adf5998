/** `section_impl` of elfio_section.hpp: a section header and a growable data buffer. */
module SectionObject {
  import opened Bytes
  import opened Convertor
  import opened ElfTypes
  import opened ElfState
  import opened FileImage
  import ElfHash
  import FileFormat
  import GrowableBuffer

  class Section {
    const cls: ElfClass
    const conv: Conv
    var hdr: Shdr
    var index: nat
    var name: seq<byte>
    /** The data pointer; a null pointer is an array of length 0. Its length is `data_size`. */
    var data: array<byte>
    var addressSet: bool
    /** What is in the buffer, kept so that the section's value does not depend on the array. */
    ghost var bytes: seq<byte>
    /** Bytes moved by reallocations of `data`. */
    ghost var copied: nat

    ghost predicate Valid()
      reads this`data, this`bytes, data
    {
      bytes == data[..]
    }

    /** The buffer has room for what the header says is in it. */
    ghost predicate Sized()
      reads this`hdr, this`bytes
    {
      hdr.size <= |bytes|
    }

    /** The bytes of the section: as many as the header says, as far as there is data. */
    ghost function Contents(): seq<byte>
      reads this
    {
      if hdr.size <= |bytes| then bytes[..hdr.size] else bytes
    }

    /** The section as a value. */
    ghost function View(): SectionState
      reads this
    {
      SectionState(hdr, index, name, Contents(), addressSet)
    }

    /** The header as it stands in a file. */
    ghost function Record(): seq<byte>
      reads this`hdr
    {
      EncodeShdr(cls, conv.FileOrder(), hdr)
    }

    ghost function Buffer(): GrowableBuffer.Buffer
      reads this
    {
      GrowableBuffer.Buffer(Contents(), |bytes|, copied)
    }

    constructor (cls: ElfClass, conv: Conv)
      ensures this.cls == cls && this.conv == conv && fresh(data)
      ensures View() == SectionState(ZeroShdr, 0, [], [], false)
      ensures Valid() && Sized() && Buffer() == GrowableBuffer.Buffer([], 0, 0)
    {
      this.cls, this.conv := cls, conv;
      hdr, index, name, addressSet := ZeroShdr, 0, [], false;
      data := new byte[0];
      bytes, copied := [], 0;
    }

    method SetAddress(v: nat)
      modifies this`hdr, this`addressSet
      ensures hdr == old(hdr).(addr := cls.Trunc(v)) && addressSet
    {
      hdr := hdr.(addr := cls.Trunc(v));
      addressSet := true;
    }

    method SetOffset(v: nat)
      modifies this`hdr
      ensures hdr == old(hdr).(offset := cls.Trunc(v))
    {
      hdr := hdr.(offset := cls.Trunc(v));
    }

    method SetSize(v: nat)
      modifies this`hdr
      ensures hdr == old(hdr).(size := cls.Trunc(v))
    {
      hdr := hdr.(size := cls.Trunc(v));
    }

    /** The contents become the given bytes, unless the section is NOBITS: then only its size changes. */
    method SetData(raw: seq<byte>)
      requires Valid() && |raw| < U32
      modifies this, data
      ensures Valid() && hdr == old(hdr).(size := |raw|)
      ensures index == old(index) && name == old(name) && addressSet == old(addressSet)
      ensures hdr.typ != SHT_NOBITS ==> fresh(data) && Buffer() == GrowableBuffer.Buffer(raw, |raw|, 0)
      ensures hdr.typ == SHT_NOBITS ==> data == old(data) && bytes == old(bytes)
    {
      if hdr.typ != SHT_NOBITS {
        data := new byte[|raw|](i requires 0 <= i < |raw| => raw[i]);
        bytes, copied := raw, 0;
      }
      SetSize(|raw|);
    }

    /** The bytes are added at the end, in place if there is room, else in a buffer twice as large. */
    method AppendData(raw: seq<byte>)
      requires Valid() && (hdr.typ != SHT_NOBITS ==> Sized() && 2 * (data.Length + |raw|) < U32)
      modifies this, data
      ensures Valid() && hdr == old(hdr).(size := hdr.size)
      ensures index == old(index) && name == old(name) && addressSet == old(addressSet)
      ensures data == old(data) || fresh(data)
      ensures hdr.typ != SHT_NOBITS ==> Sized() && Buffer() == GrowableBuffer.Append(old(Buffer()), raw)
      ensures hdr.typ != SHT_NOBITS ==>
                if old(hdr.size) + |raw| < old(data.Length) then data == old(data)
                else fresh(data) && data.Length == 2 * (old(data.Length) + |raw|)
      ensures hdr.typ == SHT_NOBITS ==> hdr == old(hdr) && data == old(data) && bytes == old(bytes)
    {
      if hdr.typ != SHT_NOBITS {
        var size := hdr.size;
        if size + |raw| < data.Length {
          forall i | 0 <= i < |raw| {
            data[size + i] := raw[i];
          }
        } else {
          var dataSize := 2 * (data.Length + |raw|);
          var newData := new byte[dataSize];
          forall i | 0 <= i < size {
            newData[i] := data[i];
          }
          forall i | 0 <= i < |raw| {
            newData[size + i] := raw[i];
          }
          copied := copied + size;
          data := newData;
        }
        bytes := data[..];
        assert bytes[..size + |raw|] == old(bytes[..hdr.size]) + raw;
        SetSize(size + |raw|);
      }
    }

    /** Appending to a sound buffer whose contents stay below 2^29 bytes needs no thought about room. */
    method AppendSmall(raw: seq<byte>)
      requires Valid() && Sized() && hdr.typ != SHT_NOBITS && Buffer().Sound()
      requires |Contents()| + |raw| < 0x2000_0000
      modifies this, data
      ensures Valid() && Sized() && Buffer().Sound()
      ensures Contents() == old(Contents()) + raw && hdr.size == |Contents()|
      ensures hdr == old(hdr).(size := hdr.size)
      ensures index == old(index) && name == old(name) && addressSet == old(addressSet)
      ensures data == old(data) || fresh(data)
    {
      GrowableBuffer.SmallContentsDoNotWrap(Buffer(), raw);
      AppendData(raw);
    }

    /** Reads the header at the given place and the data where the header says. If every read was
        complete, the section is what `LoadSection` describes, except for index and address flag. */
    method Load(s: Stream, headerOffset: nat) returns (r: Stream)
      requires Valid() && data.Length == 0
      modifies this
      ensures Valid()
      ensures r == FileFormat.LoadSection(cls, conv, s, headerOffset, index).1
      ensures r.ok ==> View() == FileFormat.LoadSection(cls, conv, s, headerOffset, index).0.
                                   (name := name, addressSet := addressSet)
      ensures hdr.typ != SHT_NULL && hdr.typ != SHT_NOBITS ==>
                Sized() && Buffer() == GrowableBuffer.Buffer(Contents(), hdr.size, 0)
      ensures ShdrFits(cls, hdr)
      ensures index == old(index) && name == old(name) && addressSet == old(addressSet)
      ensures data == old(data) || fresh(data)
    {
      var (bs, s1) := s.Seek(headerOffset).Read(cls.ShdrSize());
      hdr := DecodeShdr(cls, conv.FileOrder(), FileFormat.ZeroFilled(bs, cls.ShdrSize()));
      DecodedShdrFits(cls, conv.FileOrder(), FileFormat.ZeroFilled(bs, cls.ShdrSize()));
      r := s1;
      copied := 0;
      if hdr.typ != SHT_NULL && hdr.typ != SHT_NOBITS {
        data := new byte[hdr.size];
        if hdr.size != 0 {
          var (read, s2) := s1.Seek(hdr.offset).Read(hdr.size);
          forall i | 0 <= i < |read| {
            data[i] := read[i];
          }
          r := s2;
        }
        bytes := data[..];
      }
    }

    /** Loads section i of a file into a fresh object; its address counts as set from then on. */
    method LoadFixed(s: Stream, headerOffset: nat, i: nat) returns (r: Stream)
      requires Valid() && data.Length == 0 && name == []
      modifies this
      ensures Valid() && (Sized() || hdr.typ == SHT_NOBITS || hdr.typ == SHT_NULL)
      ensures index == i && hdr.addrAlign < cls.Limit()
      ensures data == old(data) || fresh(data)
      ensures r == FileFormat.LoadSection(cls, conv, s, headerOffset, i).1
      ensures r.ok ==> View() == FileFormat.LoadSection(cls, conv, s, headerOffset, i).0
    {
      index := i;
      r := Load(s, headerOffset);
      SetAddress(hdr.addr);
    }

    /** `string_section_accessor::get_string` on this section. A string without a NUL ends here with the
        section; the pointer that the original returns does not say where it ends. */
    method GetString(offset: nat) returns (s: FileFormat.Option<seq<byte>>)
      requires Valid()
      ensures s == FileFormat.GetString(View(), offset)
    {
      if offset < hdr.size && offset < data.Length {
        s := FileFormat.Some(ElfHash.CString(if hdr.size <= data.Length then data[offset..hdr.size]
            else data[offset..]));
      } else {
        s := FileFormat.None;
      }
    }

    /** Writes the header record and, for sections with data, the data. Its caller passes the section's
        own offset as the place of the data, so storing that in the header changes nothing. */
    method Save(file: seq<byte>, headerOffset: nat, dataOffset: nat) returns (r: seq<byte>)
      requires Valid() && (Sized() || hdr.typ == SHT_NOBITS || hdr.typ == SHT_NULL)
      requires dataOffset == hdr.offset
      ensures var f := WriteAt(file, headerOffset, Record());
              r == if FileFormat.WritesData(View()) then WriteAt(f, dataOffset, Contents()) else f
    {
      r := WriteAt(file, headerOffset, EncodeShdr(cls, conv.FileOrder(), hdr));
      if hdr.typ != SHT_NOBITS && hdr.typ != SHT_NULL && hdr.size != 0 && data.Length != 0 {
        r := WriteAt(r, dataOffset, data[..hdr.size]);
      }
    }
  }
}
