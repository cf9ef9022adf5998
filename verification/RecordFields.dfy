/** Which bytes of a file hold which field of a record, for any bytes, both classes and both orders. */
module RecordFields {
  import opened Bytes
  import opened Records
  import opened ElfTypes
  import Convertor
  import Dynamics
  import Relocations
  import Symbols

  /** The word in bytes a to b. */
  function Word(order: Order, bs: seq<byte>, a: nat, b: nat): nat
    requires a <= b <= |bs|
  {
    Load(order, bs[a..b])
  }

  /** A word of a record that stands in a larger piece. */
  lemma WordIn(order: Order, data: seq<byte>, at: nat, n: nat, a: nat, b: nat)
    requires at + n <= |data| && a <= b <= n
    ensures Word(order, data[at..at + n], a, b) == Load(order, data[at + a..at + b])
  {
    var whole, part, same := data[at..at + n], data[at..at + n][a..b], data[at + a..at + b];
    forall k | 0 <= k < b - a
      ensures part[k] == same[k]
    {
      assert part[k] == whole[a + k] == data[at + (a + k)];
    }
    assert part == same;
  }

  /** One field of a record, and where the next one begins. */
  lemma FieldAt(order: Order, widths: seq<nat>, bs: seq<byte>, i: nat, at: nat)
    requires |bs| == Total(widths) && i < |widths| && at == Start(widths, i)
    ensures at + widths[i] <= |bs| && Unpack(order, widths, bs)[i] == Word(order, bs, at, at + widths[i])
    ensures Start(widths, i + 1) == at + widths[i]
  {
    UnpackAt(order, widths, bs, i);
    StartStep(widths, i);
  }

  lemma FirstAt(widths: seq<nat>)
    ensures Start(widths, 0) == 0
  {
  }

  /** The same for a record behind the identification bytes. */
  lemma FieldBehind(order: Order, widths: seq<nat>, bs: seq<byte>, i: nat, at: nat)
    requires |bs| == EI_NIDENT + Total(widths) && i < |widths| && at == EI_NIDENT + Start(widths, i)
    ensures at + widths[i] <= |bs|
    ensures Unpack(order, widths, bs[EI_NIDENT..])[i] == Word(order, bs, at, at + widths[i])
    ensures EI_NIDENT + Start(widths, i + 1) == at + widths[i]
  {
    hide Unpack, Start, Load;
    FieldAt(order, widths, bs[EI_NIDENT..], i, at - EI_NIDENT);
    SliceBehind(bs, EI_NIDENT, at - EI_NIDENT, widths[i]);
  }

  /** The program header: the flags word stands behind the type in 64-bit files and behind the sizes in
      32-bit ones. */
  lemma PhdrFields(order: Order, bs: seq<byte>)
    ensures |bs| == 32 ==>
              var h := DecodePhdr(Class32, order, bs);
              && h.typ == Word(order, bs, 0, 4) && h.offset == Word(order, bs, 4, 8)
              && h.vaddr == Word(order, bs, 8, 12) && h.paddr == Word(order, bs, 12, 16)
              && h.filesz == Word(order, bs, 16, 20) && h.memsz == Word(order, bs, 20, 24)
              && h.flags == Word(order, bs, 24, 28) && h.align == Word(order, bs, 28, 32)
    ensures |bs| == 56 ==>
              var h := DecodePhdr(Class64, order, bs);
              && h.typ == Word(order, bs, 0, 4) && h.flags == Word(order, bs, 4, 8)
              && h.offset == Word(order, bs, 8, 16) && h.vaddr == Word(order, bs, 16, 24)
              && h.paddr == Word(order, bs, 24, 32) && h.filesz == Word(order, bs, 32, 40)
              && h.memsz == Word(order, bs, 40, 48) && h.align == Word(order, bs, 48, 56)
  {
    hide Unpack, Word, Total, Start;
    if |bs| == 32 {
      var w := PhdrWidths(Class32);
      FirstAt(w);
      FieldAt(order, w, bs, 0, 0);
      FieldAt(order, w, bs, 1, 4);
      FieldAt(order, w, bs, 2, 8);
      FieldAt(order, w, bs, 3, 12);
      FieldAt(order, w, bs, 4, 16);
      FieldAt(order, w, bs, 5, 20);
      FieldAt(order, w, bs, 6, 24);
      FieldAt(order, w, bs, 7, 28);
    } else if |bs| == 56 {
      var w := PhdrWidths(Class64);
      FirstAt(w);
      FieldAt(order, w, bs, 0, 0);
      FieldAt(order, w, bs, 1, 4);
      FieldAt(order, w, bs, 2, 8);
      FieldAt(order, w, bs, 3, 16);
      FieldAt(order, w, bs, 4, 24);
      FieldAt(order, w, bs, 5, 32);
      FieldAt(order, w, bs, 6, 40);
      FieldAt(order, w, bs, 7, 48);
    }
  }

  /** The section header. */
  lemma ShdrFields(order: Order, bs: seq<byte>)
    ensures |bs| == 40 ==>
              var h := DecodeShdr(Class32, order, bs);
              && h.name == Word(order, bs, 0, 4) && h.typ == Word(order, bs, 4, 8)
              && h.flags == Word(order, bs, 8, 12) && h.addr == Word(order, bs, 12, 16)
              && h.offset == Word(order, bs, 16, 20) && h.size == Word(order, bs, 20, 24)
              && h.link == Word(order, bs, 24, 28) && h.info == Word(order, bs, 28, 32)
              && h.addrAlign == Word(order, bs, 32, 36) && h.entSize == Word(order, bs, 36, 40)
    ensures |bs| == 64 ==>
              var h := DecodeShdr(Class64, order, bs);
              && h.name == Word(order, bs, 0, 4) && h.typ == Word(order, bs, 4, 8)
              && h.flags == Word(order, bs, 8, 16) && h.addr == Word(order, bs, 16, 24)
              && h.offset == Word(order, bs, 24, 32) && h.size == Word(order, bs, 32, 40)
              && h.link == Word(order, bs, 40, 44) && h.info == Word(order, bs, 44, 48)
              && h.addrAlign == Word(order, bs, 48, 56) && h.entSize == Word(order, bs, 56, 64)
  {
    hide Unpack, Word, Total, Start;
    if |bs| == 40 {
      var w := ShdrWidths(Class32);
      FirstAt(w);
      FieldAt(order, w, bs, 0, 0);
      FieldAt(order, w, bs, 1, 4);
      FieldAt(order, w, bs, 2, 8);
      FieldAt(order, w, bs, 3, 12);
      FieldAt(order, w, bs, 4, 16);
      FieldAt(order, w, bs, 5, 20);
      FieldAt(order, w, bs, 6, 24);
      FieldAt(order, w, bs, 7, 28);
      FieldAt(order, w, bs, 8, 32);
      FieldAt(order, w, bs, 9, 36);
    } else if |bs| == 64 {
      var w := ShdrWidths(Class64);
      FirstAt(w);
      FieldAt(order, w, bs, 0, 0);
      FieldAt(order, w, bs, 1, 4);
      FieldAt(order, w, bs, 2, 8);
      FieldAt(order, w, bs, 3, 16);
      FieldAt(order, w, bs, 4, 24);
      FieldAt(order, w, bs, 5, 32);
      FieldAt(order, w, bs, 6, 40);
      FieldAt(order, w, bs, 7, 44);
      FieldAt(order, w, bs, 8, 48);
      FieldAt(order, w, bs, 9, 56);
    }
  }

  /** The ELF header, behind its sixteen identification bytes. */
  lemma EhdrFields(order: Order, bs: seq<byte>)
    ensures |bs| == 52 ==>
              var h := DecodeEhdr(Class32, order, bs);
              && h.ident == bs[..16]
              && h.typ == Word(order, bs, 16, 18) && h.machine == Word(order, bs, 18, 20)
              && h.version == Word(order, bs, 20, 24) && h.entry == Word(order, bs, 24, 28)
              && h.phoff == Word(order, bs, 28, 32) && h.shoff == Word(order, bs, 32, 36)
              && h.flags == Word(order, bs, 36, 40) && h.ehsize == Word(order, bs, 40, 42)
              && h.phentsize == Word(order, bs, 42, 44) && h.phnum == Word(order, bs, 44, 46)
              && h.shentsize == Word(order, bs, 46, 48) && h.shnum == Word(order, bs, 48, 50)
              && h.shstrndx == Word(order, bs, 50, 52)
    ensures |bs| == 64 ==>
              var h := DecodeEhdr(Class64, order, bs);
              && h.ident == bs[..16]
              && h.typ == Word(order, bs, 16, 18) && h.machine == Word(order, bs, 18, 20)
              && h.version == Word(order, bs, 20, 24) && h.entry == Word(order, bs, 24, 32)
              && h.phoff == Word(order, bs, 32, 40) && h.shoff == Word(order, bs, 40, 48)
              && h.flags == Word(order, bs, 48, 52) && h.ehsize == Word(order, bs, 52, 54)
              && h.phentsize == Word(order, bs, 54, 56) && h.phnum == Word(order, bs, 56, 58)
              && h.shentsize == Word(order, bs, 58, 60) && h.shnum == Word(order, bs, 60, 62)
              && h.shstrndx == Word(order, bs, 62, 64)
  {
    hide Unpack, Word, Total, Start;
    if |bs| == 52 {
      var w := EhdrWidths(Class32);
      FirstAt(w);
      FieldBehind(order, w, bs, 0, 16);
      FieldBehind(order, w, bs, 1, 18);
      FieldBehind(order, w, bs, 2, 20);
      FieldBehind(order, w, bs, 3, 24);
      FieldBehind(order, w, bs, 4, 28);
      FieldBehind(order, w, bs, 5, 32);
      FieldBehind(order, w, bs, 6, 36);
      FieldBehind(order, w, bs, 7, 40);
      FieldBehind(order, w, bs, 8, 42);
      FieldBehind(order, w, bs, 9, 44);
      FieldBehind(order, w, bs, 10, 46);
      FieldBehind(order, w, bs, 11, 48);
      FieldBehind(order, w, bs, 12, 50);
    } else if |bs| == 64 {
      var w := EhdrWidths(Class64);
      FirstAt(w);
      FieldBehind(order, w, bs, 0, 16);
      FieldBehind(order, w, bs, 1, 18);
      FieldBehind(order, w, bs, 2, 20);
      FieldBehind(order, w, bs, 3, 24);
      FieldBehind(order, w, bs, 4, 32);
      FieldBehind(order, w, bs, 5, 40);
      FieldBehind(order, w, bs, 6, 48);
      FieldBehind(order, w, bs, 7, 52);
      FieldBehind(order, w, bs, 8, 54);
      FieldBehind(order, w, bs, 9, 56);
      FieldBehind(order, w, bs, 10, 58);
      FieldBehind(order, w, bs, 11, 60);
      FieldBehind(order, w, bs, 12, 62);
    }
  }

  /** The symbol: value and size stand behind the name in 32-bit files and at the end in 64-bit ones. */
  lemma SymbolFields(order: Order, bs: seq<byte>)
    ensures |bs| == 16 ==>
              var s := Symbols.Decode(Class32, order, bs);
              && s.name == Word(order, bs, 0, 4) && s.value == Word(order, bs, 4, 8)
              && s.size == Word(order, bs, 8, 12) && s.info == Word(order, bs, 12, 13)
              && s.other == Word(order, bs, 13, 14) && s.shndx == Word(order, bs, 14, 16)
    ensures |bs| == 24 ==>
              var s := Symbols.Decode(Class64, order, bs);
              && s.name == Word(order, bs, 0, 4) && s.info == Word(order, bs, 4, 5)
              && s.other == Word(order, bs, 5, 6) && s.shndx == Word(order, bs, 6, 8)
              && s.value == Word(order, bs, 8, 16) && s.size == Word(order, bs, 16, 24)
  {
    hide Unpack, Word, Total, Start;
    if |bs| == 16 {
      var w := Symbols.Widths(Class32);
      FirstAt(w);
      FieldAt(order, w, bs, 0, 0);
      FieldAt(order, w, bs, 1, 4);
      FieldAt(order, w, bs, 2, 8);
      FieldAt(order, w, bs, 3, 12);
      FieldAt(order, w, bs, 4, 13);
      FieldAt(order, w, bs, 5, 14);
    } else if |bs| == 24 {
      var w := Symbols.Widths(Class64);
      FirstAt(w);
      FieldAt(order, w, bs, 0, 0);
      FieldAt(order, w, bs, 1, 4);
      FieldAt(order, w, bs, 2, 5);
      FieldAt(order, w, bs, 3, 6);
      FieldAt(order, w, bs, 4, 8);
      FieldAt(order, w, bs, 5, 16);
    }
  }

  /** Binding is the upper half of the info byte, type the lower one. */
  lemma SymbolInfo(bind: nat, typ: nat)
    requires bind < 16 && typ < 16
    ensures Symbols.Info(bind, typ) == 16 * bind + typ
    ensures Symbols.Bind(16 * bind + typ) == bind && Symbols.Type(16 * bind + typ) == typ
  {
  }

  /** A word of two's complement with this many values. */
  function Signed(w: nat, values: nat): int {
    if 2 * w < values then w else w - values
  }

  /** The relocation: symbol above and type in the lower 8 or 32 bits of the second word, the signed addend
      in the third one, if there is one. */
  lemma RelocationFields(order: Order, kind: Relocations.Kind, bs: seq<byte>)
    ensures |bs| == (if kind.Rel? then 8 else 12) ==>
              var e := Relocations.Decode(Class32, order, kind, bs);
              && e.offset == Word(order, bs, 0, 4)
              && e.symbol == Word(order, bs, 4, 8) / 0x100 && e.typ == Word(order, bs, 4, 8) % 0x100
              && e.addend == if kind.Rel? then 0 else Signed(Word(order, bs, 8, 12), 0x1_0000_0000)
    ensures |bs| == (if kind.Rel? then 16 else 24) ==>
              var e := Relocations.Decode(Class64, order, kind, bs);
              && e.offset == Word(order, bs, 0, 8)
              && e.symbol == Word(order, bs, 8, 16) / 0x1_0000_0000 && e.typ == Word(order, bs, 8, 16) % 0x1_0000_0000
              && e.addend == if kind.Rel? then 0 else Signed(Word(order, bs, 16, 24), 0x1_0000_0000_0000_0000)
  {
    hide Unpack, Word, Total, Start;
    if |bs| == (if kind.Rel? then 8 else 12) {
      var w := Relocations.Widths(Class32, kind);
      FirstAt(w);
      FieldAt(order, w, bs, 0, 0);
      FieldAt(order, w, bs, 1, 4);
      if kind.Rela? {
        FieldAt(order, w, bs, 2, 8);
      }
    }
    if |bs| == (if kind.Rel? then 16 else 24) {
      var w := Relocations.Widths(Class64, kind);
      FirstAt(w);
      FieldAt(order, w, bs, 0, 0);
      FieldAt(order, w, bs, 1, 8);
      if kind.Rela? {
        FieldAt(order, w, bs, 2, 16);
      }
    }
  }

  /** The tags whose value is read as 0: DT_NULL, DT_SYMBOLIC, DT_TEXTREL and DT_BIND_NOW. */
  predicate HasNoValue(tag: nat) {
    tag == 0 || tag == 16 || tag == 22 || tag == 24
  }

  /** The dynamic entry: the tag, whose sign a 32-bit file extends, and the value. */
  lemma DynamicFields(conv: Convertor.Conv, bs: seq<byte>)
    ensures |bs| == 8 ==>
              var tag := Dynamics.DecodeTag(Class32, conv, bs);
              && tag == (var w := Word(conv.FileOrder(), bs, 0, 4);
                         if w < 0x8000_0000 then w else w + 0xFFFF_FFFF_0000_0000)
              && Dynamics.DecodeValue(Class32, conv, bs) ==
                   if HasNoValue(tag) then 0 else Word(conv.FileOrder(), bs, 4, 8)
    ensures |bs| == 16 ==>
              var tag := Dynamics.DecodeTag(Class64, conv, bs);
              && tag == Word(conv.FileOrder(), bs, 0, 8)
              && Dynamics.DecodeValue(Class64, conv, bs) ==
                   if HasNoValue(tag) then 0 else Word(conv.FileOrder(), bs, 8, 16)
  {
    hide Load;
    if |bs| == 8 {
      Convertor.ConvertedLoad(conv, bs[..4]);
      Convertor.ConvertedLoad(conv, bs[4..]);
      assert bs[..4] == bs[0..4] && bs[4..] == bs[4..8];
    } else if |bs| == 16 {
      Convertor.ConvertedLoad(conv, bs[..8]);
      Convertor.ConvertedLoad(conv, bs[8..]);
      assert bs[..8] == bs[0..8] && bs[8..] == bs[8..16];
    }
  }

  /** Bytes as digits to the base 256, the lowest first. */
  lemma Digits(bs: seq<byte>)
    ensures |bs| == 1 ==> FromLittle(bs) == bs[0]
    ensures |bs| == 2 ==> FromLittle(bs) == bs[0] as nat + 0x100 * bs[1] as nat
    ensures |bs| == 4 ==>
              FromLittle(bs) ==
                bs[0] as nat + 0x100 * bs[1] as nat + 0x1_0000 * bs[2] as nat + 0x100_0000 * bs[3] as nat
  {
    assert |bs| >= 2 ==> bs[1..][1..] == bs[2..];
    assert |bs| >= 3 ==> bs[2..][1..] == bs[3..];
    assert |bs| >= 4 ==> bs[3..][1..] == bs[4..];
    assert forall k :: 0 <= k < |bs| ==> FromLittle(bs[k..]) == bs[k] + 256 * FromLittle(bs[k..][1..]);
  }

  /** The value of a word of up to four bytes: its first byte is the lowest digit in little-endian order and the
      highest one in big-endian order. */
  lemma WordValue(bs: seq<byte>)
    ensures |bs| == 1 ==> Load(Little, bs) == Load(Big, bs) == bs[0]
    ensures |bs| == 2 ==>
              && Load(Little, bs) == bs[0] as nat + 0x100 * bs[1] as nat
              && Load(Big, bs) == bs[1] as nat + 0x100 * bs[0] as nat
    ensures |bs| == 4 ==>
              && Load(Little, bs) ==
                   bs[0] as nat + 0x100 * bs[1] as nat + 0x1_0000 * bs[2] as nat + 0x100_0000 * bs[3] as nat
              && Load(Big, bs) ==
                   bs[3] as nat + 0x100 * bs[2] as nat + 0x1_0000 * bs[1] as nat + 0x100_0000 * bs[0] as nat
  {
    Digits(bs);
    Digits(Reverse(bs));
  }

  /** A word of eight bytes consists of two of four. */
  lemma LongValue(bs: seq<byte>)
    requires |bs| == 8
    ensures Load(Little, bs) == Load(Little, bs[..4]) + 0x1_0000_0000 * Load(Little, bs[4..])
    ensures Load(Big, bs) == Load(Big, bs[4..]) + 0x1_0000_0000 * Load(Big, bs[..4])
  {
    hide FromLittle, Reverse;
    var a, b := bs[..4], bs[4..];
    assert bs == a + b;
    Dynamics.FromLittleConcat(a, b);
    Dynamics.ReverseConcat(a, b);
    Dynamics.FromLittleConcat(Reverse(b), Reverse(a));
    Pow256Values();
  }
}
