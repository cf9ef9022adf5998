/** `string_section_accessor` of elfio_strings.hpp: NUL-terminated strings, addressed by offset. */
module Strings {
  import opened Bytes
  import opened ElfTypes
  import opened ElfState
  import opened FileFormat
  import opened SectionObject
  import ElfHash

  /** What `get_string` finds at an offset of a table; None stands for the null pointer. */
  function StringAt(table: seq<byte>, offset: nat): Option<seq<byte>> {
    if offset < |table| then Some(ElfHash.CString(table[offset..])) else None
  }

  /** Where the next string goes: offset 0 belongs to the empty string. */
  function NextOffset(table: seq<byte>): nat {
    if table == [] then 1 else |table|
  }

  /** The table after one `add_string`; of `s` only what precedes its first NUL counts. */
  function WithString(table: seq<byte>, s: seq<byte>): seq<byte> {
    (if table == [] then [0] else table) + (ElfHash.CString(s) + [0])
  }

  function WithStrings(table: seq<byte>, strings: seq<seq<byte>>): seq<byte> {
    if strings == [] then table
    else WithString(WithStrings(table, strings[..|strings| - 1]), strings[|strings| - 1])
  }

  /** The offset `add_string` returned for string i of a run. */
  function OffsetOf(table: seq<byte>, strings: seq<seq<byte>>, i: nat): nat
    requires i < |strings|
  {
    NextOffset(WithStrings(table, strings[..i]))
  }

  /** The table holds string s at the offset, with its terminating NUL. */
  predicate HoldsString(table: seq<byte>, offset: nat, s: seq<byte>) {
    offset + |s| < |table| && table[offset..offset + |s|] == s && table[offset + |s|] == 0 && 0 !in s
  }

  lemma HeldIsFound(table: seq<byte>, offset: nat, s: seq<byte>)
    requires HoldsString(table, offset, s)
    ensures StringAt(table, offset) == Some(s)
  {
    var rest := table[offset + |s| + 1..];
    ElfHash.CStringOf(s, rest);
    assert table[offset..] == s + [0] + rest;
  }

  /** Growing a table at its end keeps the strings in it. */
  lemma HeldStays(table: seq<byte>, more: seq<byte>, offset: nat, s: seq<byte>)
    requires HoldsString(table, offset, s)
    ensures HoldsString(table + more, offset, s)
  {
    assert (table + more)[offset..offset + |s|] == table[offset..offset + |s|];
  }

  lemma AddedIsHeld(table: seq<byte>, s: seq<byte>)
    ensures HoldsString(WithString(table, s), NextOffset(table), ElfHash.CString(s))
    ensures (if table == [] then [0] else table) <= WithString(table, s)
  {
    var c, r, p := ElfHash.CString(s), WithString(table, s), NextOffset(table);
    assert r[p..p + |c|] == c;
  }

  /** Every offset returned in a run resolves, at its end, to the string it was returned for; and in a
      table that began empty offset 0 is the empty string. */
  lemma {:induction false} OffsetsAreStable(table: seq<byte>, strings: seq<seq<byte>>, i: nat)
    requires i < |strings|
    ensures StringAt(WithStrings(table, strings), OffsetOf(table, strings, i)) == Some(ElfHash.CString(strings[i]))
    ensures table == [] || table[0] == 0 ==> StringAt(WithStrings(table, strings), 0) == Some([])
  {
    AllHeld(table, strings, i);
    HeldIsFound(WithStrings(table, strings), OffsetOf(table, strings, i), ElfHash.CString(strings[i]));
    if table == [] || table[0] == 0 {
      HeldIsFound(WithStrings(table, strings), 0, []);
    }
  }

  lemma {:induction false} AllHeld(table: seq<byte>, strings: seq<seq<byte>>, i: nat)
    requires i < |strings|
    ensures HoldsString(WithStrings(table, strings), OffsetOf(table, strings, i), ElfHash.CString(strings[i]))
    ensures table == [] || table[0] == 0 ==> HoldsString(WithStrings(table, strings), 0, [])
  {
    var init := strings[..|strings| - 1];
    var before := WithStrings(table, init);
    AddedIsHeld(before, strings[|strings| - 1]);
    var more := WithString(before, strings[|strings| - 1])[|before|..];
    assert before <= WithStrings(table, strings);
    assert WithStrings(table, strings) == before + more;
    if i < |init| {
      AllHeld(table, init, i);
      assert init[..i] == strings[..i] && init[i] == strings[i];
      HeldStays(before, more, OffsetOf(table, strings, i), ElfHash.CString(strings[i]));
      if table == [] || table[0] == 0 {
        HeldStays(before, more, 0, []);
      }
    } else {
      assert strings[..i] == init;
      if table == [] || table[0] == 0 {
        FirstByte(table, strings);
      }
    }
  }

  lemma {:induction false} FirstByte(table: seq<byte>, strings: seq<seq<byte>>)
    requires table == [] || table[0] == 0
    ensures WithStrings(table, strings) != [] ==> WithStrings(table, strings)[0] == 0
  {
    if strings != [] {
      FirstByte(table, strings[..|strings| - 1]);
    }
  }

  /** A string section's bytes resolve as `get_string` resolves them. */
  lemma GetStringIsStringAt(s: SectionState, offset: nat)
    requires |s.data| == s.hdr.size
    ensures GetString(s, offset) == StringAt(s.data, offset)
  {
  }

  // ----- the accessor's methods

  /** Adds a string and returns its offset. The contents stay small enough for 32-bit sizes. */
  method AddString(sec: Section, s: seq<byte>) returns (offset: nat)
    requires sec.Valid() && sec.Sized() && sec.hdr.typ != SHT_NOBITS && sec.Buffer().Sound()
    requires |sec.Contents()| + |s| + 2 < 0x2000_0000
    modifies sec, sec.data
    ensures sec.Valid() && sec.Sized() && sec.Buffer().Sound()
    ensures sec.hdr == old(sec.hdr).(size := sec.hdr.size)
    ensures sec.index == old(sec.index) && sec.name == old(sec.name) && sec.addressSet == old(sec.addressSet)
    ensures sec.data == old(sec.data) || fresh(sec.data)
    ensures offset == NextOffset(old(sec.Contents()))
    ensures sec.Contents() == WithString(old(sec.Contents()), s) && sec.hdr.size == |sec.Contents()|
  {
    offset := sec.hdr.size;
    if offset == 0 {
      sec.AppendSmall([0]);
      offset := 1;
    }
    sec.AppendSmall(ElfHash.CString(s) + [0]);
  }
}
