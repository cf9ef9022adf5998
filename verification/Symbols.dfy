/** `symbol_section_accessor` of elfio_symbols.hpp: a symbol table and the lookup through its hash table. */
module Symbols {
  import opened Bytes
  import opened ElfTypes
  import opened ElfState
  import opened FileFormat
  import opened Records
  import opened SectionObject
  import Entries

  datatype Symbol = Symbol(name: nat, value: nat, size: nat, info: nat, other: nat, shndx: nat)

  const NULL_SYMBOL := Symbol(0, 0, 0, 0, 0, 0)

  // ----- st_info

  /** ELF_ST_INFO, stored in a byte. */
  function Info(bind: nat, typ: nat): nat {
    (bind * 16 + typ % 16) % 256
  }

  function Bind(info: nat): nat { info / 16 }
  function Type(info: nat): nat { info % 16 }

  /** Binding and type survive packing exactly if each fits its four bits. */
  lemma InfoUnpacks(bind: nat, typ: nat)
    requires bind < 256 && typ < 256
    ensures Bind(Info(bind, typ)) == bind && Type(Info(bind, typ)) == typ <==> bind < 16 && typ < 16
  {
  }

  // ----- records

  function Widths(c: ElfClass): (w: seq<nat>)
    ensures |w| == 6 && Total(w) == c.SymSize()
  {
    var w := if c.Class32? then [4, 4, 4, 1, 1, 2] else [4, 1, 1, 2, 8, 8];
    TotalUnrolled(w);
    w
  }

  function Values(c: ElfClass, s: Symbol): (v: seq<nat>)
    ensures |v| == 6
  {
    if c.Class32? then [s.name, s.value, s.size, s.info, s.other, s.shndx]
    else [s.name, s.info, s.other, s.shndx, s.value, s.size]
  }

  function Encode(c: ElfClass, order: Order, s: Symbol): (bs: seq<byte>)
    ensures |bs| == c.SymSize()
  {
    Pack(order, Widths(c), Values(c, s))
  }

  function Decode(c: ElfClass, order: Order, bs: seq<byte>): Symbol
    requires |bs| == c.SymSize()
  {
    var v := Unpack(order, Widths(c), bs);
    if c.Class32? then Symbol(v[0], v[1], v[2], v[3], v[4], v[5])
    else Symbol(v[0], v[4], v[5], v[1], v[2], v[3])
  }

  /** The arguments of `add_symbol` have the types of the 64-bit record. */
  predicate Typed(s: Symbol) {
    && s.name < U32 && s.value < U64 && s.size < U64
    && s.info < 256 && s.other < 256 && s.shndx < U16
  }

  /** What the record of this class can hold of a symbol. */
  function Stored(c: ElfClass, s: Symbol): Symbol {
    s.(value := c.Trunc(s.value), size := c.Trunc(s.size))
  }

  lemma RecordRoundTrip(c: ElfClass, order: Order, s: Symbol)
    requires Typed(s)
    ensures Decode(c, order, Encode(c, order, Stored(c, s))) == Stored(c, s)
  {
    Pow256Values();
    var w, v := Widths(c), Values(c, Stored(c, s));
    assert Fit(w, v);
    PackUnpack(order, w, v);
  }

  // ----- adding symbols

  /** The table to which a symbol is added: an empty one first gets the null symbol. */
  function Started(c: ElfClass, order: Order, table: seq<byte>): seq<byte> {
    if table == [] then Encode(c, order, NULL_SYMBOL) else table
  }

  function WithSymbol(c: ElfClass, order: Order, table: seq<byte>, s: Symbol): seq<byte> {
    Started(c, order, table) + Encode(c, order, Stored(c, s))
  }

  function WithSymbols(c: ElfClass, order: Order, table: seq<byte>, symbols: seq<Symbol>): seq<byte> {
    if symbols == [] then table
    else WithSymbol(c, order, WithSymbols(c, order, table, symbols[..|symbols| - 1]), symbols[|symbols| - 1])
  }

  /** The index `add_symbol` returns. */
  function IndexAfter(c: ElfClass, table: seq<byte>): int {
    |table| / c.SymSize() - 1
  }

  function Encoded(c: ElfClass, order: Order, symbols: seq<Symbol>): (r: seq<seq<byte>>)
    ensures |r| == |symbols|
    ensures forall i :: 0 <= i < |r| ==> r[i] == Encode(c, order, Stored(c, symbols[i])) && |r[i]| == c.SymSize()
  {
    seq(|symbols|, i requires 0 <= i < |symbols| => Encode(c, order, Stored(c, symbols[i])))
  }

  lemma {:induction false} RunIsAppend(c: ElfClass, order: Order, table: seq<byte>, symbols: seq<Symbol>)
    requires symbols != []
    ensures WithSymbols(c, order, table, symbols) ==
              Entries.AppendAll(Started(c, order, table), Encoded(c, order, symbols))
  {
    var init := symbols[..|symbols| - 1];
    assert Encoded(c, order, symbols)[..|init|] == Encoded(c, order, init);
    if init != [] {
      RunIsAppend(c, order, table, init);
      assert Entries.AppendAll(Started(c, order, table), Encoded(c, order, init)) != [] by {
        NotEmpty(Started(c, order, table), Encoded(c, order, init));
      }
    }
  }

  lemma {:induction false} NotEmpty(table: seq<byte>, records: seq<seq<byte>>)
    requires table != []
    ensures Entries.AppendAll(table, records) != []
  {
    if records != [] {
      NotEmpty(table, records[..|records| - 1]);
    }
  }

  /** A symbol as an entry of this class keeps it: value and size lose what a 32-bit field cannot hold. */
  function Cut(c: ElfClass, s: Symbol): (r: Symbol)
    ensures r.name == s.name
  {
    match c
    case Class32 => s.(value := s.value % 0x1_0000_0000, size := s.size % 0x1_0000_0000)
    case Class64 => s
  }

  lemma StoredIsCut(c: ElfClass, s: Symbol)
    requires Typed(s)
    ensures Stored(c, s) == Cut(c, s)
  {
  }

  /** Over any run of `add_symbol` on an empty section or a table of n symbols, the index returned for
      symbol i reads back that symbol when the run is over. */
  lemma SymbolReadsBack(c: ElfClass, order: Order, table: seq<byte>, n: nat, symbols: seq<Symbol>, i: nat)
    requires Entries.Holds(Started(c, order, table), c.SymSize(), n) && i < |symbols| && Typed(symbols[i])
    ensures IndexAfter(c, WithSymbols(c, order, table, symbols[..i + 1])) == n + i
    ensures ReadsAs(c, order, WithSymbols(c, order, table, symbols), n + i, Cut(c, symbols[i]))
  {
    hide Encode, Decode, Cut, WithSymbols, Started;
    StoredIsCut(c, symbols[i]);
    RunIsAppend(c, order, table, symbols);
    Entries.AllReadBack(Started(c, order, table), c.SymSize(), n, Encoded(c, order, symbols));
    RecordRoundTrip(c, order, symbols[i]);
    ReturnedIndex(c, order, table, n, symbols[..i + 1]);
  }

  /** The count is right after any run, and a table that began empty starts with the null symbol. */
  lemma SymbolsCounted(c: ElfClass, order: Order, table: seq<byte>, n: nat, symbols: seq<Symbol>)
    requires Entries.Holds(Started(c, order, table), c.SymSize(), n) && symbols != []
    ensures Entries.Holds(WithSymbols(c, order, table, symbols), c.SymSize(), n + |symbols|)
    ensures table == [] ==>
              n == 1 && ReadsAs(c, order, WithSymbols(c, order, table, symbols), 0, Symbol(0, 0, 0, 0, 0, 0))
  {
    RunIsAppend(c, order, table, symbols);
    Entries.AllReadBack(Started(c, order, table), c.SymSize(), n, Encoded(c, order, symbols));
    if table == [] {
      NullFirst(c, order, n);
    }
  }

  lemma NullFirst(c: ElfClass, order: Order, n: nat)
    requires Entries.Holds(Encode(c, order, NULL_SYMBOL), c.SymSize(), n)
    ensures n == 1 && ReadsAs(c, order, Encode(c, order, NULL_SYMBOL), 0, NULL_SYMBOL)
  {
    Entries.CountOfSize(c.SymSize(), n);
    hide Encode, Decode;
    RecordRoundTrip(c, order, NULL_SYMBOL);
    assert Entries.RecordAt(Encode(c, order, NULL_SYMBOL), c.SymSize(), 0) == Encode(c, order, NULL_SYMBOL);
  }

  lemma ReturnedIndex(c: ElfClass, order: Order, table: seq<byte>, n: nat, symbols: seq<Symbol>)
    requires Entries.Holds(Started(c, order, table), c.SymSize(), n) && symbols != []
    ensures IndexAfter(c, WithSymbols(c, order, table, symbols)) == n + |symbols| - 1
  {
    RunIsAppend(c, order, table, symbols);
    Entries.AllReadBack(Started(c, order, table), c.SymSize(), n, Encoded(c, order, symbols));
    Entries.CountOfSize(c.SymSize(), n + |symbols|);
  }

  /** Record i of the table decodes to this symbol. */
  predicate ReadsAs(c: ElfClass, order: Order, table: seq<byte>, i: nat, s: Symbol) {
    && i * c.SymSize() + c.SymSize() <= |table|
    && Decode(c, order, Entries.RecordAt(table, c.SymSize(), i)) == s
  }

  /** Adds a symbol to a section and returns its index. */
  method AddSymbol(sec: Section, s: Symbol) returns (index: int)
    requires sec.Valid() && sec.Sized() && sec.hdr.typ != SHT_NOBITS && sec.Buffer().Sound() && Typed(s)
    requires |sec.Contents()| + 2 * sec.cls.SymSize() < 0x2000_0000
    modifies sec, sec.data
    ensures sec.Valid() && sec.Sized() && sec.Buffer().Sound()
    ensures sec.hdr == old(sec.hdr).(size := sec.hdr.size) && sec.index == old(sec.index) && sec.name == old(sec.name)
    ensures sec.Contents() == WithSymbol(sec.cls, sec.conv.FileOrder(), old(sec.Contents()), s)
    ensures index == IndexAfter(sec.cls, sec.Contents())
  {
    hide Encode, Stored;
    if sec.hdr.size == 0 {
      sec.AppendSmall(Encode(sec.cls, sec.conv.FileOrder(), NULL_SYMBOL));
    }
    sec.AppendSmall(Encode(sec.cls, sec.conv.FileOrder(), Stored(sec.cls, s)));
    index := sec.hdr.size / sec.cls.SymSize() - 1;
  }
}
