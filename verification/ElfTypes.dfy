/** The record types of elf_types.hpp for both file classes, and their images in a file. */
module ElfTypes {
  import opened Bytes
  import opened Records

  datatype ElfClass = Class32 | Class64 {
    /** Width of an address, offset or Xword-sized field. */
    function Wide(): nat {
      if Class32? then 4 else 8
    }

    /** Assigning a 64-bit value to such a field keeps it modulo the field's range. */
    function Trunc(v: nat): (r: nat)
      ensures r < Limit()
      ensures v < Limit() ==> r == v
    {
      if v < Limit() then v else v % Limit()
    }

    function Limit(): (l: nat)
      ensures l > 0
    {
      if Class32? then 0x1_0000_0000 else 0x1_0000_0000_0000_0000
    }

    function EhdrSize(): nat { if Class32? then 52 else 64 }
    function PhdrSize(): nat { if Class32? then 32 else 56 }
    function ShdrSize(): nat { if Class32? then 40 else 64 }
    function SymSize(): nat { if Class32? then 16 else 24 }
  }

  const ELFCLASS32: nat := 1
  const ELFCLASS64: nat := 2
  const EI_CLASS: nat := 4
  const EI_DATA: nat := 5
  const EI_NIDENT: nat := 16
  const EV_CURRENT: nat := 1

  const SHT_NULL: nat := 0
  const SHT_STRTAB: nat := 3
  const SHT_NOBITS: nat := 8
  const SHF_ALLOC: nat := 0x2
  const SHF_TLS: nat := 0x400
  const PT_NULL: nat := 0
  const PT_PHDR: nat := 6
  const PT_TLS: nat := 7
  const SHN_UNDEF: nat := 0

  const U16: nat := 0x1_0000
  const U32: nat := 0x1_0000_0000
  const U64: nat := 0x1_0000_0000_0000_0000

  /** Reduction of a 64-bit unsigned computation: v modulo 2^64. */
  function Wrap(v: int): (r: nat)
    ensures 0 <= v < U64 ==> r == v
    ensures r < U64
  {
    if 0 <= v < U64 then v else v % U64
  }

  /** Both reductions, for any value. */
  lemma Reduced(v: nat, x: int)
    ensures Class32.Trunc(v) == v % 0x1_0000_0000 && Class64.Trunc(v) == v % 0x1_0000_0000_0000_0000
    ensures Wrap(x) == x % 0x1_0000_0000_0000_0000
  {
  }

  // ----- ELF header

  datatype Ehdr = Ehdr(ident: seq<byte>, typ: nat, machine: nat, version: nat, entry: nat, phoff: nat, shoff: nat,
                       flags: nat, ehsize: nat, phentsize: nat, phnum: nat, shentsize: nat, shnum: nat, shstrndx: nat)
  {
    function Values(): seq<nat> {
      [typ, machine, version, entry, phoff, shoff, flags, ehsize, phentsize, phnum, shentsize, shnum, shstrndx]
    }
  }

  function EhdrWidths(c: ElfClass): (w: seq<nat>)
    ensures |w| == 13 && Total(w) == c.EhdrSize() - EI_NIDENT
  {
    var w := [2, 2, 4, c.Wide(), c.Wide(), c.Wide(), 4, 2, 2, 2, 2, 2, 2];
    TotalUnrolled(w);
    w
  }

  /** Every field can be held in its width. */
  predicate EhdrFits(c: ElfClass, h: Ehdr) {
    && |h.ident| == EI_NIDENT && h.typ < U16 && h.machine < U16 && h.version < U32
    && h.entry < c.Limit() && h.phoff < c.Limit() && h.shoff < c.Limit() && h.flags < U32
    && h.ehsize < U16 && h.phentsize < U16 && h.phnum < U16
    && h.shentsize < U16 && h.shnum < U16 && h.shstrndx < U16
  }

  lemma EhdrFitsRecord(c: ElfClass, h: Ehdr)
    requires EhdrFits(c, h)
    ensures Fit(EhdrWidths(c), h.Values())
  {
    hide Pow256, Total;
    WideLimit(c);
  }

  function EncodeEhdr(c: ElfClass, order: Order, h: Ehdr): (bs: seq<byte>)
    requires |h.ident| == EI_NIDENT
    ensures |bs| == c.EhdrSize()
  {
    h.ident + Pack(order, EhdrWidths(c), h.Values())
  }

  function DecodeEhdr(c: ElfClass, order: Order, bs: seq<byte>): (h: Ehdr)
    requires |bs| == c.EhdrSize()
  {
    var v := Unpack(order, EhdrWidths(c), bs[EI_NIDENT..]);
    Ehdr(bs[..EI_NIDENT], v[0], v[1], v[2], v[3], v[4], v[5], v[6], v[7], v[8], v[9], v[10], v[11], v[12])
  }

  lemma EhdrRoundTrip(c: ElfClass, order: Order, h: Ehdr)
    requires EhdrFits(c, h)
    ensures DecodeEhdr(c, order, EncodeEhdr(c, order, h)) == h
  {
    EhdrFitsRecord(c, h);
    PackUnpack(order, EhdrWidths(c), h.Values());
    var bs := EncodeEhdr(c, order, h);
    assert bs[..EI_NIDENT] == h.ident && bs[EI_NIDENT..] == Pack(order, EhdrWidths(c), h.Values());
  }

  // ----- section header

  datatype Shdr = Shdr(name: nat, typ: nat, flags: nat, addr: nat, offset: nat, size: nat,
                       link: nat, info: nat, addrAlign: nat, entSize: nat)
  {
    function Values(): seq<nat> {
      [name, typ, flags, addr, offset, size, link, info, addrAlign, entSize]
    }
  }

  const ZeroShdr := Shdr(0, 0, 0, 0, 0, 0, 0, 0, 0, 0)

  function ShdrWidths(c: ElfClass): (w: seq<nat>)
    ensures |w| == 10 && Total(w) == c.ShdrSize()
  {
    var w := [4, 4, c.Wide(), c.Wide(), c.Wide(), c.Wide(), 4, 4, c.Wide(), c.Wide()];
    TotalUnrolled(w);
    w
  }

  predicate ShdrFits(c: ElfClass, h: Shdr) {
    && h.name < U32 && h.typ < U32 && h.link < U32 && h.info < U32
    && h.flags < c.Limit() && h.addr < c.Limit() && h.offset < c.Limit() && h.size < c.Limit()
    && h.addrAlign < c.Limit() && h.entSize < c.Limit()
  }

  lemma ShdrFitsRecord(c: ElfClass, h: Shdr)
    ensures ShdrFits(c, h) <==> Fit(ShdrWidths(c), h.Values())
  {
    hide Pow256, Total;
    WideLimit(c);
    var w, v := ShdrWidths(c), h.Values();
    if Fit(w, v) {
      assert forall i :: 0 <= i < 10 ==> v[i] < Pow256(w[i]);
      assert v[0] < Pow256(w[0]) && v[1] < Pow256(w[1]) && v[2] < Pow256(w[2]) && v[3] < Pow256(w[3]);
      assert v[4] < Pow256(w[4]) && v[5] < Pow256(w[5]) && v[6] < Pow256(w[6]) && v[7] < Pow256(w[7]);
      assert v[8] < Pow256(w[8]) && v[9] < Pow256(w[9]);
    }
  }

  function EncodeShdr(c: ElfClass, order: Order, h: Shdr): (bs: seq<byte>)
    ensures |bs| == c.ShdrSize()
  {
    Pack(order, ShdrWidths(c), h.Values())
  }

  function DecodeShdr(c: ElfClass, order: Order, bs: seq<byte>): (h: Shdr)
    requires |bs| == c.ShdrSize()
  {
    var v := Unpack(order, ShdrWidths(c), bs);
    Shdr(v[0], v[1], v[2], v[3], v[4], v[5], v[6], v[7], v[8], v[9])
  }

  lemma DecodedShdrFits(c: ElfClass, order: Order, bs: seq<byte>)
    requires |bs| == c.ShdrSize()
    ensures ShdrFits(c, DecodeShdr(c, order, bs))
  {
    UnpackFits(order, ShdrWidths(c), bs);
    assert DecodeShdr(c, order, bs).Values() == Unpack(order, ShdrWidths(c), bs);
    ShdrFitsRecord(c, DecodeShdr(c, order, bs));
  }

  lemma ShdrRoundTrip(c: ElfClass, order: Order, h: Shdr)
    requires ShdrFits(c, h)
    ensures DecodeShdr(c, order, EncodeShdr(c, order, h)) == h
  {
    ShdrFitsRecord(c, h);
    PackUnpack(order, ShdrWidths(c), h.Values());
  }

  // ----- program header; the flags word moves between the two classes

  datatype Phdr = Phdr(typ: nat, flags: nat, offset: nat, vaddr: nat, paddr: nat,
                       filesz: nat, memsz: nat, align: nat)

  const ZeroPhdr := Phdr(0, 0, 0, 0, 0, 0, 0, 0)

  function PhdrWidths(c: ElfClass): (w: seq<nat>)
    ensures |w| == 8 && Total(w) == c.PhdrSize()
  {
    var w := if c.Class32? then [4, 4, 4, 4, 4, 4, 4, 4] else [4, 4, 8, 8, 8, 8, 8, 8];
    TotalUnrolled(w);
    w
  }

  function PhdrValues(c: ElfClass, h: Phdr): (v: seq<nat>)
    ensures |v| == 8
  {
    if c.Class32? then [h.typ, h.offset, h.vaddr, h.paddr, h.filesz, h.memsz, h.flags, h.align]
    else [h.typ, h.flags, h.offset, h.vaddr, h.paddr, h.filesz, h.memsz, h.align]
  }

  predicate PhdrFits(c: ElfClass, h: Phdr) {
    && h.typ < U32 && h.flags < U32 && h.offset < c.Limit() && h.vaddr < c.Limit() && h.paddr < c.Limit()
    && h.filesz < c.Limit() && h.memsz < c.Limit() && h.align < c.Limit()
  }

  lemma PhdrFitsRecord(c: ElfClass, h: Phdr)
    requires PhdrFits(c, h)
    ensures Fit(PhdrWidths(c), PhdrValues(c, h))
  {
    hide Pow256, Total;
    WideLimit(c);
  }

  function EncodePhdr(c: ElfClass, order: Order, h: Phdr): (bs: seq<byte>)
    ensures |bs| == c.PhdrSize()
  {
    Pack(order, PhdrWidths(c), PhdrValues(c, h))
  }

  function DecodePhdr(c: ElfClass, order: Order, bs: seq<byte>): (h: Phdr)
    requires |bs| == c.PhdrSize()
  {
    var v := Unpack(order, PhdrWidths(c), bs);
    if c.Class32? then Phdr(v[0], v[6], v[1], v[2], v[3], v[4], v[5], v[7])
    else Phdr(v[0], v[1], v[2], v[3], v[4], v[5], v[6], v[7])
  }

  lemma PhdrRoundTrip(c: ElfClass, order: Order, h: Phdr)
    requires PhdrFits(c, h)
    ensures DecodePhdr(c, order, EncodePhdr(c, order, h)) == h
  {
    PhdrFitsRecord(c, h);
    PackUnpack(order, PhdrWidths(c), PhdrValues(c, h));
  }

  // ----- what fits the records fits the class

  lemma WideLimit(c: ElfClass)
    ensures Pow256(c.Wide()) == c.Limit()
    ensures Pow256(2) == U16 && Pow256(4) == U32
  {
    Pow256Values();
  }
}
