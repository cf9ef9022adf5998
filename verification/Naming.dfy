/** `create_section`, `Sections::add` and `create_mandatory_sections` of elfio.hpp on values: section
    names live in a string section that also holds its own name. */
module Naming {
  import opened Bytes
  import opened Convertor
  import opened ElfTypes
  import opened ElfState
  import opened FileFormat
  import opened Strings
  import ElfHash
  import SaveLoad

  /** The header the constructor of `elf_header_impl` makes. */
  function NewHeader(c: ElfClass, encoding: byte): (h: Ehdr)
    ensures |h.ident| == EI_NIDENT && h.ident[..4] == MAGIC
    ensures ClassOf(h.ident[EI_CLASS]) == Some(c) && h.ident[EI_DATA] == encoding
  {
    var ident := MAGIC + [if c.Class32? then ELFCLASS32
        else ELFCLASS64, encoding, EV_CURRENT, 0, 0, 0, 0, 0, 0, 0, 0, 0];
    Ehdr(ident, 0, 0, EV_CURRENT, 0, 0, 0, 0, c.EhdrSize(), c.PhdrSize(), 0, c.ShdrSize(), 0, 1)
  }

  function NewSection(index: nat): SectionState {
    SectionState(ZeroShdr, index, [], [], false)
  }

  /** The string section with one more name. */
  function TableWith(table: SectionState, name: seq<byte>): (t: SectionState)
    ensures t == table.(hdr := table.hdr.(size := t.hdr.size), data := t.data)
    ensures t.data == WithString(table.data, name) && t.hdr.size == |t.data|
  {
    var data := WithString(table.data, name);
    table.(hdr := table.hdr.(size := |data|), data := data)
  }

  /** The last section gets a name, which the string section, possibly itself, takes up. */
  function WithLastNamed(e: Elf, name: seq<byte>): (r: Elf)
    requires e.hdr.shstrndx < |e.sections|
    ensures |r.sections| == |e.sections| && r.hdr == e.hdr
  {
    var x, n := e.hdr.shstrndx, |e.sections| - 1;
    var secs := e.sections[n := e.sections[n].(name := name)];
    var filled := secs[x := TableWith(secs[x], name)];
    e.(sections := filled[n := filled[n].(hdr := filled[n].hdr.(name := NextOffset(secs[x].data)))])
  }

  /** `Sections::add`. */
  function WithSection(e: Elf, name: seq<byte>): (r: Elf)
    requires e.hdr.shstrndx <= |e.sections| < U16
    ensures |r.sections| == |e.sections| + 1 && r.hdr == e.hdr
  {
    WithLastNamed(e.(sections := e.sections + [NewSection(|e.sections|)]), name)
  }

  function WithSections(e: Elf, names: seq<seq<byte>>): (r: Elf)
    requires e.hdr.shstrndx <= |e.sections| && |e.sections| + |names| <= U16
    ensures |r.sections| == |e.sections| + |names| && r.hdr == e.hdr
  {
    if names == [] then e else WithSection(WithSections(e, names[..|names| - 1]), names[|names| - 1])
  }

  /** An object with nothing but the null section. */
  function OnlyNull(host: Order, c: ElfClass, encoding: byte): Elf {
    Elf(c, Setup(host, encoding), NewHeader(c, encoding), [NewSection(0)], [])
  }

  /** `create`: a null section, and a string table for section names, which is added like any other. */
  function Created(host: Order, c: ElfClass, encoding: byte): (e: Elf)
    ensures |e.sections| == 2 && e.hdr == NewHeader(c, encoding) && e.segments == []
  {
    var e := WithSection(OnlyNull(host, c, encoding), SHSTRTAB_NAME);
    e.(sections := e.sections[1 := e.sections[1].(hdr := e.sections[1].hdr.(typ := SHT_STRTAB, addrAlign := 1))])
  }

  const SHSTRTAB_NAME: seq<byte> := [0x2E, 0x73, 0x68, 0x73, 0x74, 0x72, 0x74, 0x61, 0x62]

  /** What a new object holds: the identification, the version and the record sizes; a null section without
      anything; and section 1, of type SHT_STRTAB, whose eleven bytes are a NUL and ".shstrtab" with its NUL. */
  lemma CreatedFields(host: Order, c: ElfClass, encoding: byte)
    ensures var e := Created(host, c, encoding);
            var name := [0x2E, 0x73, 0x68, 0x73, 0x74, 0x72, 0x74, 0x61, 0x62];
            && e.hdr.ident == [0x7F, 0x45, 0x4C, 0x46, if c.Class32? then 1 else 2, encoding, 1,
                               0, 0, 0, 0, 0, 0, 0, 0, 0]
            && e.hdr == Ehdr(e.hdr.ident, 0, 0, 1, 0, 0, 0, 0, if c.Class32? then 52 else 64,
                             if c.Class32? then 32 else 56, 0, if c.Class32? then 40 else 64, 0, 1)
            && e.cls == c && e.segments == [] && |e.sections| == 2
            && e.sections[0] == SectionState(Shdr(0, 0, 0, 0, 0, 0, 0, 0, 0, 0), 0, [], [], false)
            && e.sections[1] == SectionState(Shdr(1, 3, 0, 0, 0, 11, 0, 0, 1, 0), 1, name, [0] + name + [0], false)
  {
    hide ElfHash.CString, Setup;
    NoNulIsWhole(SHSTRTAB_NAME);
  }

  /** What adding a section changes: a section without anything but its name at the end, and in the string
      table of names that name behind all others. */
  lemma AddedFields(e: Elf, name: seq<byte>)
    requires e.hdr.shstrndx < |e.sections| < U16 && 0 !in name
    ensures var r, n, x := WithSection(e, name), |e.sections|, e.hdr.shstrndx;
            var held := if e.sections[x].data == [] then [0] else e.sections[x].data;
            && r.cls == e.cls && r.conv == e.conv && r.hdr == e.hdr && r.segments == e.segments
            && |r.sections| == n + 1
            && r.sections[n] == SectionState(Shdr(|held|, 0, 0, 0, 0, 0, 0, 0, 0, 0), n, name, [], false)
            && r.sections[x].data == held + name + [0]
            && r.sections[x] == e.sections[x].(data := r.sections[x].data,
                                  hdr := e.sections[x].hdr.(size := |held| + |name| + 1))
            && forall i :: 0 <= i < n && i != x ==> r.sections[i] == e.sections[i]
  {
    hide ElfHash.CString;
    NoNulIsWhole(name);
  }

  /** Every section's name stands in the string section at its name offset. */
  predicate NamesHeld(e: Elf) {
    && e.hdr.shstrndx < |e.sections|
    && e.sections[e.hdr.shstrndx].hdr.size == |e.sections[e.hdr.shstrndx].data|
    && forall i :: 0 <= i < |e.sections| ==>
         HoldsString(e.sections[e.hdr.shstrndx].data, e.sections[i].hdr.name, e.sections[i].name)
  }

  lemma AddKeepsNames(e: Elf, name: seq<byte>)
    requires NamesHeld(e) && |e.sections| < U16 && 0 !in name
    ensures NamesHeld(WithSection(e, name)) && WithSection(e, name).sections[|e.sections|].name == name
  {
    var x := e.hdr.shstrndx;
    var table := e.sections[x].data;
    var r := WithSection(e, name);
    NoNulIsWhole(name);
    AddedIsHeld(table, name);
    assert table != [] by {
      assert HoldsString(table, e.sections[0].hdr.name, e.sections[0].name);
    }
    assert r.sections[x].data == table + (ElfHash.CString(name) + [0]);
    forall i | 0 <= i < |r.sections|
      ensures HoldsString(r.sections[x].data, r.sections[i].hdr.name, r.sections[i].name)
    {
      if i < |e.sections| {
        HeldStays(table, ElfHash.CString(name) + [0], e.sections[i].hdr.name, e.sections[i].name);
      }
    }
  }

  lemma {:induction false} NoNulIsWhole(name: seq<byte>)
    requires 0 !in name
    ensures ElfHash.CString(name) == name
  {
    if name != [] {
      NoNulIsWhole(name[1..]);
      assert name == [name[0]] + name[1..];
    }
  }

  /** A new object's names are held, the string table's own among them. */
  lemma CreatedHoldsNames(host: Order, c: ElfClass, encoding: byte)
    ensures NamesHeld(Created(host, c, encoding))
    ensures Created(host, c, encoding).sections[1].name == SHSTRTAB_NAME
    ensures Created(host, c, encoding).sections[1].hdr.name == 1
  {
    hide ElfHash.CString, Setup;
    var e := Created(host, c, encoding);
    NoNulIsWhole(SHSTRTAB_NAME);
    AddedIsHeld([], SHSTRTAB_NAME);
    assert HoldsString(e.sections[1].data, 0, []);
  }

  /** Over any run of `Sections::add` every section's name, old or new, is the string at its offset. */
  lemma {:induction false} NamesAreHeld(e: Elf, names: seq<seq<byte>>)
    requires NamesHeld(e) && |e.sections| + |names| <= U16
    requires forall k :: 0 <= k < |names| ==> 0 !in names[k]
    ensures NamesGiven(e, names, WithSections(e, names))
  {
    if names != [] {
      var init := names[..|names| - 1];
      NamesAreHeld(e, init);
      OneMoreName(e, init, names[|names| - 1], WithSections(e, init), WithSections(e, names));
      assert init + [names[|names| - 1]] == names;
    }
  }

  /** All names are held, and the sections behind those of e are named as listed. */
  predicate NamesGiven(e: Elf, names: seq<seq<byte>>, r: Elf) {
    && NamesHeld(r) && |r.sections| == |e.sections| + |names|
    && forall k :: 0 <= k < |names| ==> r.sections[|e.sections| + k].name == names[k]
  }

  lemma OneMoreName(e: Elf, names: seq<seq<byte>>, name: seq<byte>, r: Elf, next: Elf)
    requires NamesGiven(e, names, r) && |r.sections| < U16 && 0 !in name && next == WithSection(r, name)
    ensures NamesGiven(e, names + [name], next)
  {
    AddKeepsNames(r, name);
  }

  /** Held names are the ones `load` resolves. */
  lemma HeldNamesResolve(e: Elf)
    requires NamesHeld(e) && e.sections[e.hdr.shstrndx].Occupies() && e.hdr.shstrndx != SHN_UNDEF
    ensures SaveLoad.NamesResolve(e)
  {
    var x := e.hdr.shstrndx;
    forall i | 0 <= i < |e.sections|
      ensures SaveLoad.NameResolves(e, i)
    {
      HeldIsFound(e.sections[x].data, e.sections[i].hdr.name, e.sections[i].name);
      GetStringIsStringAt(SaveLoad.StrippedSections(e)[x], e.sections[i].hdr.name);
    }
  }
}
