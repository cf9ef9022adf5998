/** `get_symbol` by index and by name: the walk along a hash chain finds what a scan of the table finds. */
module SymbolLookup {
  import opened Bytes
  import opened ElfTypes
  import opened ElfState
  import opened FileFormat
  import opened SectionObject
  import opened Symbols
  import ElfHash
  import Entries
  import RecordFields
  import Strings

  /** A symbol table section as the accessor sees it, with the string section it links to, if any. */
  datatype Table = Table(cls: ElfClass, order: Order, data: seq<byte>, entSize: nat, strings: Option<SectionState>) {

    /** `get_symbols_num`. */
    function Count(): nat {
      if entSize != 0 then |data| / entSize else 0
    }

    /** Entries are no smaller than a symbol, so every counted entry holds one. */
    predicate Shaped() {
      entSize != 0 ==> cls.SymSize() <= entSize
    }

    function SymbolAt(i: nat): Option<Symbol>
      requires Shaped()
    {
      if i < Count() then
        EntryInside(|data|, entSize, cls.SymSize(), i);
        Some(Decode(cls, order, data[i * entSize..i * entSize + cls.SymSize()]))
      else None
    }

    /** The string the symbol's name offset points to; None if there is no such symbol or string. */
    function NameOf(i: nat): Option<seq<byte>>
      requires Shaped()
    {
      match (SymbolAt(i), strings)
      case (Some(s), Some(sec)) => GetString(sec, s.name)
      case _ => None
    }

    /** `generic_get_symbol`: an unknown index leaves everything, a missing string leaves the name. */
    function GetSymbol(i: nat, name: seq<byte>): (r: (Option<Symbol>, seq<byte>))
      requires Shaped()
      ensures r.1 == if NameOf(i).Some? then NameOf(i).value else name
      ensures r.0 == SymbolAt(i)
    {
      (SymbolAt(i), match NameOf(i) case Some(s) => s case None => name)
    }
  }

  lemma EntryInside(len: nat, entSize: nat, size: nat, i: nat)
    requires entSize != 0 && i < len / entSize && size <= entSize
    ensures i * entSize + size <= len
  {
    assert len == (len / entSize) * entSize + len % entSize;
    Entries.InTable(entSize, i, len / entSize);
  }

  // ----- the hash section

  /** Word k of the hash section, read in the machine's own byte order. */
  function Word(host: Order, hash: seq<byte>, k: nat): nat
    requires 4 * k + 4 <= |hash|
  {
    Load(host, hash[4 * k..4 * k + 4])
  }

  /** From symbol y the chain runs through exactly these symbols and ends; `next` is its step. */
  predicate Chain(next: nat -> nat, nchain: nat, y: nat, path: seq<nat>)
    decreases |path|
  {
    if path == [] then y == 0 else y == path[0] && 0 < y < nchain && Chain(next, nchain, next(y), path[1..])
  }

  /** The chain words of the hash section. */
  function ChainStep(host: Order, hash: seq<byte>, nbucket: nat): nat -> nat {
    (y: nat) => ChainWord(host, hash, nbucket, y)
  }

  function ChainWord(host: Order, hash: seq<byte>, nbucket: nat, y: nat): nat {
    if 4 * (2 + nbucket + y) + 4 <= |hash| then Word(host, hash, 2 + nbucket + y) else 0
  }

  /** The names of the symbols, as a function of their indexes. */
  type Names = nat -> Option<seq<byte>>

  function NamesOf(t: Table): Names {
    (i: nat) => if t.Shaped() then t.NameOf(i) else None
  }

  predicate HasName(names: Names, i: nat, name: seq<byte>) {
    names(i) == Some(name)
  }

  /** The hash table of chapter 5 of the System V ABI for `count` symbols: a bucket for each hash value,
      from which a finite chain runs through the symbols that hash to it. `paths` are the chains. */
  predicate Hashed(names: Names, count: nat, host: Order, hash: seq<byte>, paths: seq<seq<nat>>) {
    && |hash| >= 8
    && Word(host, hash, 0) == |paths| > 0 && Word(host, hash, 1) == count
    && 4 * (2 + |paths| + count) <= |hash|
    && (forall b :: 0 <= b < |paths| ==>
         Chain(ChainStep(host, hash, |paths|), count, Word(host, hash, 2 + b), paths[b]))
    && (forall i :: 0 < i < count ==> Reached(names, paths, i))
    && (names(0).Some? ==> names(0).value == [])
  }

  /** A symbol with a name lies on the chain of its name's hash value. */
  predicate Reached(names: Names, paths: seq<seq<nat>>, i: nat)
    requires |paths| > 0
  {
    match names(i)
    case None => true
    case Some(name) => name != [] ==> i in paths[ElfHash.Hash(name) % |paths|]
  }

  ghost predicate WellFormedHash(names: Names, count: nat, host: Order, hash: seq<byte>) {
    exists paths :: Hashed(names, count, host, hash, paths)
  }

  /** What a scan of the whole table finds. */
  ghost predicate InTable(names: Names, count: nat, name: seq<byte>) {
    exists i :: 0 <= i < count && HasName(names, i, name)
  }

  /** The lookup before it reaches position k of the chain: no symbol on the way has the name. */
  predicate Passed(names: Names, path: seq<nat>, k: nat, name: seq<byte>)
    requires k <= |path|
  {
    forall j :: 0 <= j < k ==> !HasName(names, path[j], name)
  }

  /** If no symbol of the chain has the name, no symbol of the table has. */
  lemma NotOnChain(names: Names, count: nat, host: Order, hash: seq<byte>, paths: seq<seq<nat>>, name: seq<byte>)
    requires Hashed(names, count, host, hash, paths) && name != []
    requires var path := paths[ElfHash.Hash(name) % |paths|]; Passed(names, path, |path|, name)
    ensures !InTable(names, count, name)
  {
    forall i | 0 <= i < count
      ensures !HasName(names, i, name)
    {
      assert i > 0 ==> Reached(names, paths, i);
    }
  }

  /** `get_symbol` for a given table: what it leaves in its out-parameters. */
  type Getter = (nat, seq<byte>) -> (Option<Symbol>, seq<byte>)

  ghost predicate Gets(get: Getter, names: Names, symbols: nat -> Option<Symbol>) {
    forall i: nat, name: seq<byte> ::
      && get(i, name) == (symbols(i), if names(i).Some? then names(i).value else name)
      && (names(i).Some? ==> symbols(i).Some?)
  }

  /** The walk along a chain, up to a symbol with the name. */
  method WalkChain(get: Getter, next: nat -> nat, nchain: nat, first: nat, name: seq<byte>,
                   ghost names: Names, ghost symbols: nat -> Option<Symbol>, ghost path: seq<nat>)
    returns (ret: bool, symbol: Option<Symbol>, ghost y': nat)
    requires Gets(get, names, symbols) && Chain(next, nchain, first, path)
    requires names(0).Some? ==> names(0).value == []
    ensures name != [] && ret ==> y' < nchain && HasName(names, y', name) && symbol == symbols(y')
    ensures name != [] && !ret ==> Passed(names, path, |path|, name)
  {
    var y: nat := first;
    var got := get(y, []);
    symbol := got.0;
    var str: seq<byte> := got.1;
    ghost var k: nat := 0;
    assert path[0..] == path;
    while str != name && y != 0 && y < nchain
      invariant 0 <= k <= |path| && Chain(next, nchain, y, path[k..])
      invariant name != [] ==> Passed(names, path, k, name)
      invariant name != [] ==> (str == name <==> HasName(names, y, name))
      invariant str == name && name != [] ==> symbol == symbols(y)
      decreases |path| - k
    {
      assert path[k..][0] == path[k] && path[k..][1..] == path[k + 1..];
      assert name != [] ==> !HasName(names, path[k], name);
      y := next(y);
      got := get(y, str);
      symbol := if got.0.Some? then got.0 else symbol;
      str := got.1;
      k := k + 1;
    }
    ret := str == name;
    y' := y;
  }

  /** Lookup by name through the hash section; `hashIndex` is 0 if there is none. For a name that is
      not empty it succeeds exactly if a scan of the table finds the name, and then returns a symbol of
      that name. */
  method GetSymbolByName(t: Table, host: Order, hashIndex: nat, hash: seq<byte>, name: seq<byte>)
    returns (ret: bool, symbol: Option<Symbol>)
    requires t.Shaped() && 0 !in name
    requires hashIndex != 0 ==> WellFormedHash(NamesOf(t), t.Count(), host, hash)
    ensures hashIndex == 0 ==> !ret
    ensures hashIndex != 0 && name != [] ==> (ret <==> InTable(NamesOf(t), t.Count(), name))
    ensures ret && name != [] ==>
              exists i :: 0 <= i < t.Count() && HasName(NamesOf(t), i, name) && symbol == t.SymbolAt(i)
  {
    ret, symbol := false, None;
    if hashIndex != 0 {
      ghost var paths :| Hashed(NamesOf(t), t.Count(), host, hash, paths);
      var nbucket, nchain := Word(host, hash, 0), Word(host, hash, 1);
      var val := ElfHash.ElfHash(name + [0]);
      ElfHash.CStringOf(name, []);
      assert name + [0] + [] == name + [0];
      var get := (i: nat, str: seq<byte>) => if t.Shaped() then t.GetSymbol(i, str) else (None, str);
      ghost var symbols := (i: nat) => if t.Shaped() then t.SymbolAt(i) else None;
      ghost var y;
      ret, symbol, y := WalkChain(get, ChainStep(host, hash, nbucket), nchain, Word(host, hash, 2 + val % nbucket),
          name,
                                  NamesOf(t), symbols, paths[val % nbucket]);
      if name != [] && !ret {
        NotOnChain(NamesOf(t), t.Count(), host, hash, paths, name);
      }
    }
  }

  /** `find_hash_section`: the first section behind section 0 that links to the symbol table. It looks at
      links only, and relocation sections link to their symbol table as well, so what it finds need not be
      a hash section. */
  method FindHashSection(sections: seq<SectionState>, symbolIndex: nat) returns (hashIndex: nat)
    ensures hashIndex == 0 ==> forall i :: 0 < i < |sections| ==> sections[i].hdr.link != symbolIndex
    ensures hashIndex != 0 ==> hashIndex < |sections| && sections[hashIndex].hdr.link == symbolIndex
    ensures forall i :: 0 < i < hashIndex ==> sections[i].hdr.link != symbolIndex
  {
    hashIndex := 0;
    var i := 0;
    while i < |sections| && hashIndex == 0
      invariant 0 <= i <= |sections|
      invariant hashIndex == 0 ==> forall j :: 0 < j < i ==> sections[j].hdr.link != symbolIndex
      invariant hashIndex != 0 ==> hashIndex == i - 1 && sections[hashIndex].hdr.link == symbolIndex
      invariant forall j :: 0 < j < hashIndex ==> sections[j].hdr.link != symbolIndex
    {
      if sections[i].hdr.link == symbolIndex {
        hashIndex := i;
      }
      i := i + 1;
    }
  }

  // ----- what the bytes say

  /** The number of symbols is that of whole entries, and symbol i is made of the bytes from i entries on. */
  lemma SymbolFrom(t: Table, i: nat)
    requires t.Shaped()
    ensures t.SymbolAt(i).Some? <==> t.entSize > 0 && i < |t.data| / t.entSize
    ensures t.SymbolAt(i).Some? ==> SymbolIn(t.cls, t.order, t.data, i * t.entSize, t.SymbolAt(i).value)
  {
    hide Decode, Load, SymbolIn;
    if t.SymbolAt(i).Some? {
      EntryInside(|t.data|, t.entSize, t.cls.SymSize(), i);
      SymbolIsIn(t.cls, t.order, t.data, i * t.entSize);
    }
  }

  /** The fields of a symbol, and where behind `at` their bytes are. */
  predicate SymbolIn(c: ElfClass, order: Order, data: seq<byte>, at: nat, s: Symbol) {
    match c
    case Class32 =>
      && at + 16 <= |data|
      && s.name == Load(order, data[at..at + 4]) && s.value == Load(order, data[at + 4..at + 8])
      && s.size == Load(order, data[at + 8..at + 12]) && s.info == Load(order, data[at + 12..at + 13])
      && s.other == Load(order, data[at + 13..at + 14]) && s.shndx == Load(order, data[at + 14..at + 16])
    case Class64 =>
      && at + 24 <= |data|
      && s.name == Load(order, data[at..at + 4]) && s.info == Load(order, data[at + 4..at + 5])
      && s.other == Load(order, data[at + 5..at + 6]) && s.shndx == Load(order, data[at + 6..at + 8])
      && s.value == Load(order, data[at + 8..at + 16]) && s.size == Load(order, data[at + 16..at + 24])
  }

  lemma SymbolIsIn(c: ElfClass, order: Order, data: seq<byte>, at: nat)
    requires at + c.SymSize() <= |data|
    ensures SymbolIn(c, order, data, at, Decode(c, order, data[at..at + c.SymSize()]))
  {
    hide Decode, Load, RecordFields.Word;
    RecordFields.SymbolFields(order, data[at..at + c.SymSize()]);
    match c
    case Class32 =>
      RecordFields.WordIn(order, data, at, 16, 0, 4);
      RecordFields.WordIn(order, data, at, 16, 4, 8);
      RecordFields.WordIn(order, data, at, 16, 8, 12);
      RecordFields.WordIn(order, data, at, 16, 12, 13);
      RecordFields.WordIn(order, data, at, 16, 13, 14);
      RecordFields.WordIn(order, data, at, 16, 14, 16);
    case Class64 =>
      RecordFields.WordIn(order, data, at, 24, 0, 4);
      RecordFields.WordIn(order, data, at, 24, 4, 5);
      RecordFields.WordIn(order, data, at, 24, 5, 6);
      RecordFields.WordIn(order, data, at, 24, 6, 8);
      RecordFields.WordIn(order, data, at, 24, 8, 16);
      RecordFields.WordIn(order, data, at, 24, 16, 24);
  }

  /** Words 0 and 1 of a hash section count its buckets and its chain words, which follow in this order: a
      bucket names the first symbol of its chain, a chain word the symbol behind its own, and 0 ends it. */
  predicate AbiHash(count: nat, host: Order, hash: seq<byte>, paths: seq<seq<nat>>) {
    && |paths| > 0 && 8 + 4 * |paths| + 4 * count <= |hash|
    && Load(host, hash[0..4]) == |paths| && Load(host, hash[4..8]) == count
    && forall b :: 0 <= b < |paths| ==>
         && Load(host, hash[8 + 4 * b..12 + 4 * b]) == (if paths[b] == [] then 0 else paths[b][0])
         && forall k :: 0 <= k < |paths[b]| ==>
              && 0 < paths[b][k] < count
              && var at := 8 + 4 * |paths| + 4 * paths[b][k];
                 Load(host, hash[at..at + 4]) == if k + 1 < |paths[b]| then paths[b][k + 1] else 0
  }

  /** Such a section, with every named symbol on the chain of its name's hash value, is one through which
      the lookup finds what a scan finds. */
  lemma AbiHashIsHashed(names: Names, count: nat, host: Order, hash: seq<byte>, paths: seq<seq<nat>>)
    requires AbiHash(count, host, hash, paths) && (names(0).Some? ==> names(0).value == [])
    requires forall i :: 0 < i < count && names(i).Some? && names(i).value != [] ==>
               i in paths[ElfHash.Hash(names(i).value) % |paths|]
    ensures WellFormedHash(names, count, host, hash)
  {
    hide Load;
    var next := ChainStep(host, hash, |paths|);
    forall b | 0 <= b < |paths|
      ensures Chain(next, count, Word(host, hash, 2 + b), paths[b])
    {
      assert Word(host, hash, 2 + b) == Load(host, hash[8 + 4 * b..12 + 4 * b]);
      forall k | 0 <= k < |paths[b]|
        ensures StepsOn(next, count, paths[b], k)
      {
        assert 4 * (2 + |paths| + paths[b][k]) == 8 + 4 * |paths| + 4 * paths[b][k];
      }
      StepsAreChain(next, count, Word(host, hash, 2 + b), paths[b]);
    }
    assert Hashed(names, count, host, hash, paths);
  }

  /** From symbol k of the path one step leads to the symbol behind it, or to the end. */
  predicate StepsOn(next: nat -> nat, count: nat, path: seq<nat>, k: nat)
    requires k < |path|
  {
    0 < path[k] < count && next(path[k]) == if k + 1 < |path| then path[k + 1] else 0
  }

  lemma {:induction false} StepsAreChain(next: nat -> nat, count: nat, y: nat, path: seq<nat>)
    requires y == if path == [] then 0 else path[0]
    requires forall k :: 0 <= k < |path| ==> StepsOn(next, count, path, k)
    ensures Chain(next, count, y, path)
    decreases |path|
  {
    if path != [] {
      var rest := path[1..];
      forall k | 0 <= k < |rest|
        ensures StepsOn(next, count, rest, k)
      {
        assert StepsOn(next, count, path, k + 1);
      }
      assert StepsOn(next, count, path, 0);
      StepsAreChain(next, count, next(y), rest);
    }
  }

  // ----- adding symbols by name

  /** The arguments of `add_symbol` with a string writer. */
  datatype NamedSymbol = NamedSymbol(name: seq<byte>, value: nat, size: nat, bind: nat, typ: nat, other: nat,
      shndx: nat)

  predicate TypedName(s: NamedSymbol) {
    s.value < U64 && s.size < U64 && s.bind < 256 && s.typ < 256 && s.other < 256 && s.shndx < U16
  }

  function GivenNames(adds: seq<NamedSymbol>): (r: seq<seq<byte>>)
    ensures |r| == |adds| && forall i :: 0 <= i < |r| ==> r[i] == adds[i].name
  {
    seq(|adds|, i requires 0 <= i < |adds| => adds[i].name)
  }

  /** The symbol that addition i of the run makes: its name is where the string table has the string. */
  function SymbolOf(strings: seq<byte>, adds: seq<NamedSymbol>, i: nat): Symbol
    requires i < |adds|
  {
    Symbol(Strings.OffsetOf(strings, GivenNames(adds), i), adds[i].value, adds[i].size,
           Info(adds[i].bind, adds[i].typ), adds[i].other, adds[i].shndx)
  }

  function SymbolsOf(strings: seq<byte>, adds: seq<NamedSymbol>): (r: seq<Symbol>)
    ensures |r| == |adds| && forall i :: 0 <= i < |r| ==> r[i] == SymbolOf(strings, adds, i)
  {
    seq(|adds|, i requires 0 <= i < |adds| => SymbolOf(strings, adds, i))
  }

  /** The table and its strings after a run of `add_symbol` with a string writer on both sections. */
  function TableAfter(c: ElfClass, order: Order, table: seq<byte>, strings: SectionState,
      adds: seq<NamedSymbol>): Table {
    var after := Strings.WithStrings(strings.data, GivenNames(adds));
    Table(c, order, WithSymbols(c, order, table, SymbolsOf(strings.data, adds)), c.SymSize(),
          Some(strings.(data := after, hdr := strings.hdr.(size := |after|))))
  }

  /** The symbol has these values, as far as the class's record and the four bits of each half of
      st_info can hold them. */
  predicate HasValues(c: ElfClass, s: Symbol, given: NamedSymbol) {
    && s.value == (if c.Class32? then given.value % 0x1_0000_0000 else given.value)
    && s.size == (if c.Class32? then given.size % 0x1_0000_0000 else given.size)
    && s.other == given.other && s.shndx == given.shndx
    && (Bind(s.info) == given.bind && Type(s.info) == given.typ <==> given.bind < 16 && given.typ < 16)
  }

  /** After any run of additions by name, whatever is added later, `get_symbol` at the returned index gives
      the name, up to its first NUL, and the values of the symbol, whatever `name` held before. */
  lemma NamedSymbolReadsBack(c: ElfClass, order: Order, table: seq<byte>, n: nat, strings: SectionState,
                             adds: seq<NamedSymbol>, i: nat, name: seq<byte>)
    requires Entries.Holds(Started(c, order, table), c.SymSize(), n) && i < |adds| && TypedName(adds[i])
    requires |Strings.WithStrings(strings.data, GivenNames(adds))| < U32
    ensures var t := TableAfter(c, order, table, strings, adds);
            && t.Shaped() && t.GetSymbol(n + i, name).0.Some?
            && t.GetSymbol(n + i, name).1 == ElfHash.CString(adds[i].name)
            && HasValues(c, t.GetSymbol(n + i, name).0.value, adds[i])
    ensures IndexAfter(c, WithSymbols(c, order, table, SymbolsOf(strings.data, adds)[..i + 1])) == n + i
  {
    hide WithSymbols, Strings.WithStrings, Strings.OffsetOf, Strings.StringAt, HasValues, Cut, Started, IndexAfter;
    var names, symbols := GivenNames(adds), SymbolsOf(strings.data, adds);
    Strings.OffsetsAreStable(strings.data, names, i);
    OffsetInside(strings.data, names, i);
    SymbolIsTyped(strings.data, adds, i);
    SymbolReadsBack(c, order, table, n, symbols, i);
    SymbolsCounted(c, order, table, n, symbols);
    Entries.CountOfSize(c.SymSize(), n + |adds|);
    var t := TableAfter(c, order, table, strings, adds);
    SymbolFound(t, n + i, Cut(c, symbols[i]));
    NameFound(t, n + i, Cut(c, symbols[i]), ElfHash.CString(names[i]), name);
    CutHasValues(c, strings.data, adds, i);
  }

  lemma CutHasValues(c: ElfClass, strings: seq<byte>, adds: seq<NamedSymbol>, i: nat)
    requires i < |adds| && TypedName(adds[i])
    ensures HasValues(c, Cut(c, SymbolOf(strings, adds, i)), adds[i])
  {
    hide Info, Bind, Type, Strings.OffsetOf;
    InfoUnpacks(adds[i].bind, adds[i].typ);
  }

  /** `add_symbol` with a string writer: the name goes to the string section, and its offset to the symbol. */
  method AddNamedSymbol(sec: Section, strings: Section, s: NamedSymbol) returns (index: int)
    requires sec.Valid() && sec.Sized() && sec.hdr.typ != SHT_NOBITS && sec.Buffer().Sound() && TypedName(s)
    requires strings.Valid() && strings.Sized() && strings.hdr.typ != SHT_NOBITS && strings.Buffer().Sound()
    requires sec != strings && sec.data != strings.data
    requires |sec.Contents()| + 2 * sec.cls.SymSize() < 0x2000_0000
    requires |strings.Contents()| + |s.name| + 2 < 0x2000_0000
    modifies sec, sec.data, strings, strings.data
    ensures sec.Valid() && sec.Sized() && sec.Buffer().Sound()
    ensures strings.Valid() && strings.Sized() && strings.Buffer().Sound()
    ensures sec.hdr == old(sec.hdr).(size := sec.hdr.size) && sec.index == old(sec.index) && sec.name == old(sec.name)
    ensures strings.hdr == old(strings.hdr).(size := strings.hdr.size)
    ensures strings.Contents() == Strings.WithString(old(strings.Contents()), s.name)
    ensures sec.Contents() == WithSymbol(sec.cls, sec.conv.FileOrder(), old(sec.Contents()),
                                         SymbolOf(old(strings.Contents()), [s], 0))
    ensures index == IndexAfter(sec.cls, sec.Contents())
  {
    hide WithSymbol;
    assert GivenNames([s])[..0] == [];
    var offset := Strings.AddString(strings, s.name);
    index := AddSymbol(sec, Symbol(offset, s.value, s.size, Info(s.bind, s.typ), s.other, s.shndx));
  }

  lemma SymbolIsTyped(strings: seq<byte>, adds: seq<NamedSymbol>, i: nat)
    requires i < |adds| && TypedName(adds[i]) && Strings.OffsetOf(strings, GivenNames(adds), i) < U32
    ensures Typed(SymbolOf(strings, adds, i))
  {
    hide Strings.OffsetOf;
  }

  lemma NameFound(t: Table, i: nat, s: Symbol, found: seq<byte>, name: seq<byte>)
    requires t.Shaped() && t.SymbolAt(i) == Some(s) && t.strings.Some?
    requires t.strings.value.hdr.size == |t.strings.value.data|
    requires Strings.StringAt(t.strings.value.data, s.name) == Some(found)
    ensures t.GetSymbol(i, name) == (Some(s), found)
  {
    Strings.GetStringIsStringAt(t.strings.value, s.name);
  }

  lemma OffsetInside(table: seq<byte>, names: seq<seq<byte>>, i: nat)
    requires i < |names|
    ensures Strings.OffsetOf(table, names, i) < |Strings.WithStrings(table, names)|
  {
    Strings.OffsetsAreStable(table, names, i);
  }

  /** A record of the add side is an entry of the lookup side. */
  lemma SymbolFound(t: Table, i: nat, s: Symbol)
    requires t.entSize == t.cls.SymSize() && i < t.Count() && ReadsAs(t.cls, t.order, t.data, i, s)
    ensures t.SymbolAt(i) == Some(s)
  {
  }
}
