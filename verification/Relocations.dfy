/** `relocation_section_accessor` of elfio_relocation.hpp: packed symbol and type, signed addends. */
module Relocations {
  import opened Bytes
  import opened ElfTypes
  import opened Records
  import opened SectionObject
  import Arith
  import Entries

  /** SHT_REL sections have no addends, SHT_RELA sections do. */
  datatype Kind = Rel | Rela

  /** A relocation entry in the widths of the accessor's interface. */
  datatype Entry = Entry(offset: nat, symbol: nat, typ: nat, addend: int)

  predicate Typed(e: Entry) {
    e.offset < U64 && e.symbol < U32 && e.typ < 256 && -0x8000_0000_0000_0000 <= e.addend < 0x8000_0000_0000_0000
  }

  // ----- r_info

  /** ELF32_R_INFO or ELF64_R_INFO, as stored in the record. */
  function Info(c: ElfClass, symbol: nat, typ: nat): (i: nat)
    ensures i < c.Limit()
  {
    if c.Class32? then c.Trunc(symbol * 0x100 + typ % 0x100)
    else c.Trunc(symbol * 0x1_0000_0000 + typ % 0x1_0000_0000)
  }

  function SymbolOf(c: ElfClass, info: nat): nat {
    if c.Class32? then info / 0x100 else info / 0x1_0000_0000
  }

  function TypeOf(c: ElfClass, info: nat): nat {
    if c.Class32? then info % 0x100 else info % 0x1_0000_0000
  }

  /** The 24+8 and 32+32 bit packings give back symbol and type, exactly if the symbol fits its part. */
  lemma InfoUnpacks(c: ElfClass, symbol: nat, typ: nat)
    requires symbol < U32 && typ < 256
    ensures SymbolOf(c, Info(c, symbol, typ)) == symbol && TypeOf(c, Info(c, symbol, typ)) == typ <==>
            c.Class64? || symbol < 0x100_0000
  {
    if c.Class32? {
      Arith.DivModUnique(symbol * 0x100 + typ, 0x100, symbol, typ);
    } else {
      Arith.DivModUnique(symbol * 0x1_0000_0000 + typ, 0x1_0000_0000, symbol, typ);
    }
  }

  // ----- signed words

  /** Half the range of a wide field: signed values run from -Half to Half - 1. */
  function Half(c: ElfClass): nat {
    if c.Class32? then 0x8000_0000 else 0x8000_0000_0000_0000
  }

  /** A signed value in a field of the class's width, as an unsigned word. */
  function Unsigned(c: ElfClass, v: int): (w: nat)
    ensures w < c.Limit()
  {
    v % c.Limit()
  }

  function Signed(c: ElfClass, w: nat): int {
    if w < Half(c) then w else w - c.Limit()
  }

  predicate InHalf(c: ElfClass, v: int) {
    0 <= v + Half(c) < c.Limit()
  }

  /** An addend survives exactly if the field can hold it. */
  lemma SignedSurvives(c: ElfClass, v: int)
    requires -0x8000_0000_0000_0000 <= v < 0x8000_0000_0000_0000
    ensures Signed(c, Unsigned(c, v)) == v <==> InHalf(c, v)
  {
    if 0 <= v < c.Limit() {
      Arith.ModOfSmall(v, c.Limit());
    } else if 0 <= v + c.Limit() < c.Limit() {
      Arith.ModShift(v, 1, c.Limit());
      Arith.ModOfSmall(v + c.Limit(), c.Limit());
    }
  }

  // ----- records

  function Widths(c: ElfClass, k: Kind): (w: seq<nat>)
    ensures |w| == (if k.Rel? then 2 else 3) && Total(w) == EntrySize(c, k)
  {
    var w := if k.Rel? then [c.Wide(), c.Wide()] else [c.Wide(), c.Wide(), c.Wide()];
    TotalUnrolled(w);
    w
  }

  function EntrySize(c: ElfClass, k: Kind): nat {
    if k.Rel? then 2 * c.Wide() else 3 * c.Wide()
  }

  function Values(c: ElfClass, k: Kind, e: Entry): (v: seq<nat>)
    ensures |v| == if k.Rel? then 2 else 3
  {
    var v := [c.Trunc(e.offset), Info(c, e.symbol, e.typ)];
    if k.Rel? then v else v + [Unsigned(c, e.addend)]
  }

  function Encode(c: ElfClass, order: Order, k: Kind, e: Entry): (bs: seq<byte>)
    ensures |bs| == EntrySize(c, k)
  {
    Pack(order, Widths(c, k), Values(c, k, e))
  }

  /** `generic_get_entry_rel` and `generic_get_entry_rela`. */
  function Decode(c: ElfClass, order: Order, k: Kind, bs: seq<byte>): Entry
    requires |bs| == EntrySize(c, k)
  {
    var v := Unpack(order, Widths(c, k), bs);
    Entry(v[0], SymbolOf(c, v[1]), TypeOf(c, v[1]), if k.Rel? then 0 else Signed(c, v[2]))
  }

  /** The record of this class and kind can hold the entry. */
  predicate Holds(c: ElfClass, k: Kind, e: Entry) {
    && e.offset < c.Limit() && (c.Class64? || e.symbol < 0x100_0000)
    && if k.Rel? then e.addend == 0 else InHalf(c, e.addend)
  }

  /** An entry reads back exactly if every part of it fits. */
  lemma EntryRoundTrip(c: ElfClass, order: Order, k: Kind, e: Entry)
    requires Typed(e)
    ensures Decode(c, order, k, Encode(c, order, k, e)) == e <==> Holds(c, k, e)
  {
    Pow256Values();
    var v := Values(c, k, e);
    assert Fit(Widths(c, k), v);
    PackUnpack(order, Widths(c, k), v);
    hide Pack, Unpack, Fit, Info, SymbolOf, TypeOf, Unsigned, Signed, Widths;
    InfoUnpacks(c, e.symbol, e.typ);
    SignedSurvives(c, e.addend);
  }

  // ----- the section

  function Encoded(c: ElfClass, order: Order, k: Kind, entries: seq<Entry>): (r: seq<seq<byte>>)
    ensures |r| == |entries|
    ensures forall i :: 0 <= i < |r| ==> r[i] == Encode(c, order, k, entries[i]) && |r[i]| == EntrySize(c, k)
  {
    seq(|entries|, i requires 0 <= i < |entries| => Encode(c, order, k, entries[i]))
  }

  /** `get_entry(i)` of a table whose entries have the record's size. */
  predicate ReadsAs(c: ElfClass, order: Order, k: Kind, table: seq<byte>, i: nat, e: Entry) {
    && i < |table| / EntrySize(c, k)
    && i * EntrySize(c, k) + EntrySize(c, k) <= |table|
    && Decode(c, order, k, Entries.RecordAt(table, EntrySize(c, k), i)) == e
  }

  /** After any run of `add_entry` on a table of n entries, entry n + i is the i-th one added, exactly
      if the record can hold it. */
  lemma EntriesReadBack(c: ElfClass, order: Order, k: Kind, table: seq<byte>, n: nat, entries: seq<Entry>, i: nat)
    requires Entries.Holds(table, EntrySize(c, k), n) && i < |entries| && Typed(entries[i])
    ensures ReadsAs(c, order, k, Entries.AppendAll(table, Encoded(c, order, k, entries)), n + i, entries[i]) <==>
            Holds(c, k, entries[i])
  {
    hide Encode, Decode, Typed;
    var records := Encoded(c, order, k, entries);
    Entries.AllReadBack(table, EntrySize(c, k), n, records);
    Entries.CountOfSize(EntrySize(c, k), n + |entries|);
    EntryRoundTrip(c, order, k, entries[i]);
  }

  /** Adds an entry to a relocation section. */
  method AddEntry(sec: Section, k: Kind, e: Entry)
    requires sec.Valid() && sec.Sized() && sec.hdr.typ != SHT_NOBITS && sec.Buffer().Sound() && Typed(e)
    requires |sec.Contents()| + 24 < 0x2000_0000
    modifies sec, sec.data
    ensures sec.Valid() && sec.Sized() && sec.Buffer().Sound()
    ensures sec.hdr == old(sec.hdr).(size := sec.hdr.size) && sec.index == old(sec.index) && sec.name == old(sec.name)
    ensures sec.Contents() == old(sec.Contents()) + Encode(sec.cls, sec.conv.FileOrder(), k, e)
  {
    sec.AppendSmall(Encode(sec.cls, sec.conv.FileOrder(), k, e));
  }
}
