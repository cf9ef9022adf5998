/** `dynamic_section_accessor` of elfio_dynamic.hpp. Adding converts tag and value as 64-bit words before
    they are narrowed to the record's fields, so a 32-bit file of the foreign byte order gets the wrong
    halves: entries survive there only in degenerate cases. */
module Dynamics {
  import opened Bytes
  import opened Convertor
  import opened ElfTypes
  import opened FileFormat
  import opened SectionObject
  import Arith
  import ElfHash
  import Entries
  import Strings

  const DT_NULL: nat := 0
  const DT_NEEDED: nat := 1
  const DT_SONAME: nat := 14
  const DT_RPATH: nat := 15
  const DT_SYMBOLIC: nat := 16
  const DT_TEXTREL: nat := 22
  const DT_BIND_NOW: nat := 24
  const DT_RUNPATH: nat := 29

  /** Tags whose value is ignored: it is stored and read as 0. */
  predicate Valueless(tag: nat) {
    tag == DT_NULL || tag == DT_SYMBOLIC || tag == DT_TEXTREL || tag == DT_BIND_NOW
  }

  predicate NamesString(tag: nat) {
    tag == DT_NEEDED || tag == DT_SONAME || tag == DT_RPATH || tag == DT_RUNPATH
  }

  // ----- one record

  function RecordSize(c: ElfClass): nat {
    2 * c.Wide()
  }

  /** A 64-bit value converted and narrowed to a field, as the machine stores it. */
  function Narrowed(c: ElfClass, conv: Conv, v: nat): (bs: seq<byte>)
    ensures |bs| == c.Wide()
  {
    Store(conv.host, c.Wide(), conv.Apply(8, v) % c.Limit())
  }

  function Encode(c: ElfClass, conv: Conv, tag: nat, value: nat): (bs: seq<byte>)
    ensures |bs| == RecordSize(c)
  {
    Narrowed(c, conv, tag) + Narrowed(c, conv, if Valueless(tag) then 0 else value)
  }

  /** A field of the record, converted in its own width. */
  function Field(c: ElfClass, conv: Conv, bs: seq<byte>): nat
    requires |bs| == c.Wide()
  {
    conv.Apply(c.Wide(), Load(conv.host, bs))
  }

  /** Assigning the signed tag field to a 64-bit word extends its sign. */
  function Extended(c: ElfClass, w: nat): nat {
    if c.Class32? && w >= 0x8000_0000 then w + (U64 - U32) else w
  }

  function DecodeTag(c: ElfClass, conv: Conv, bs: seq<byte>): nat
    requires |bs| == RecordSize(c)
  {
    Extended(c, Field(c, conv, bs[..c.Wide()]))
  }

  function DecodeValue(c: ElfClass, conv: Conv, bs: seq<byte>): nat
    requires |bs| == RecordSize(c)
  {
    if Valueless(DecodeTag(c, conv, bs)) then 0 else Field(c, conv, bs[c.Wide()..])
  }

  // ----- reversing eight bytes, half of which are kept

  /** The bytes above the low n ones. */
  function Above(n: nat, v: nat): nat
    decreases n
  {
    if n == 0 then v else Above(n - 1, v / 256)
  }

  lemma {:induction false} ToLittleSplit(n: nat, m: nat, v: nat)
    ensures ToLittle(n + m, v) == ToLittle(n, v) + ToLittle(m, Above(n, v))
  {
    if n > 0 {
      ToLittleSplit(n - 1, m, v / 256);
    }
  }

  lemma AboveFour(v: nat)
    ensures Above(4, v) == v / U32
  {
    assert Above(4, v) == Above(3, v / 256) == Above(2, v / 256 / 256) == Above(1, v / 256 / 256 / 256);
  }

  lemma {:induction false} FromLittleConcat(a: seq<byte>, b: seq<byte>)
    ensures FromLittle(a + b) == FromLittle(a) + Pow256(|a|) * FromLittle(b)
  {
    if a == [] {
      assert a + b == b;
    } else {
      FromLittleConcat(a[1..], b);
      assert (a + b)[1..] == a[1..] + b;
      assert 256 * (Pow256(|a| - 1) * FromLittle(b)) == Pow256(|a|) * FromLittle(b);
    }
  }

  lemma ReverseConcat(a: seq<byte>, b: seq<byte>)
    ensures Reverse(a + b) == Reverse(b) + Reverse(a)
  {
  }

  /** The low half of a byte-swapped 64-bit word is the swapped high half of the word. */
  lemma LowHalfOfSwap(conv: Conv, v: nat)
    requires v < U64 && conv.needConversion
    ensures conv.Apply(8, v) % U32 == conv.Apply(4, v / U32)
  {
    Pow256Values();
    var lo, hi := ToLittle(4, v), ToLittle(4, v / U32);
    ToLittleSplit(4, 4, v);
    AboveFour(v);
    ReverseConcat(lo, hi);
    FromLittleConcat(Reverse(hi), Reverse(lo));
    var h, l := FromLittle(Reverse(hi)), FromLittle(Reverse(lo));
    assert conv.Apply(8, v) == h + U32 * l && h < U32;
    Arith.DivModUnique(conv.Apply(8, v), U32, l, h);
  }

  /** What the field holds of a value, after adding and reading back. */
  function Kept(c: ElfClass, conv: Conv, v: nat): nat {
    if c.Class64? then v else if conv.needConversion then v / U32 else v % U32
  }

  lemma FieldKeeps(c: ElfClass, conv: Conv, v: nat)
    requires v < U64
    ensures Field(c, conv, Narrowed(c, conv, v)) == Kept(c, conv, v)
  {
    Pow256Values();
    var w := conv.Apply(8, v);
    StoreLoad(conv.host, c.Wide(), w % c.Limit());
    if c.Class64? {
      Arith.ModOfSmall(w, U64);
      ApplyTwice(conv, 8, v);
    } else if conv.needConversion {
      LowHalfOfSwap(conv, v);
      HighHalf(v);
      ApplyTwice(conv, 4, v / U32);
    }
  }

  lemma HighHalf(v: nat)
    requires v < U64
    ensures v / U32 < U32
  {
  }

  /** When `get_entry` returns what `add_entry` was given: always in 64-bit files; in 32-bit files of the
      machine's byte order if the tag is a signed and the value an unsigned 32-bit number; in 32-bit
      files of the other byte order only for an all-zero or all-one tag with value 0. */
  predicate Survives(c: ElfClass, conv: Conv, tag: nat, value: nat) {
    c.Class64? ||
    (if conv.needConversion
     then (tag == 0 || tag == U64 - 1) && (Valueless(tag) || value == 0)
     else (tag < 0x8000_0000 || U64 - 0x8000_0000 <= tag) && (Valueless(tag) || value < U32))
  }

  lemma EntryRoundTrip(c: ElfClass, conv: Conv, tag: nat, value: nat)
    requires tag < U64 && value < U64
    ensures var bs := Encode(c, conv, tag, value);
            DecodeTag(c, conv, bs) == tag && DecodeValue(c, conv, bs) == (if Valueless(tag) then 0 else value) <==>
            Survives(c, conv, tag, value)
  {
    var stored := if Valueless(tag) then 0 else value;
    FieldKeeps(c, conv, tag);
    FieldKeeps(c, conv, stored);
    var bs := Encode(c, conv, tag, value);
    assert bs[..c.Wide()] == Narrowed(c, conv, tag) && bs[c.Wide()..] == Narrowed(c, conv, stored);
    HighHalf(tag);
    HighHalf(stored);
    TagSurvives(c, conv, tag);
    ValueSurvives(c, conv, stored);
  }

  lemma TagSurvives(c: ElfClass, conv: Conv, tag: nat)
    requires tag < U64
    ensures Extended(c, Kept(c, conv, tag)) == tag <==>
            c.Class64? || (if conv.needConversion then tag == 0 || tag == U64 - 1
                           else tag < 0x8000_0000 || U64 - 0x8000_0000 <= tag)
  {
  }

  lemma ValueSurvives(c: ElfClass, conv: Conv, v: nat)
    requires v < U64
    ensures Kept(c, conv, v) == v <==> c.Class64? || (if conv.needConversion then v == 0 else v < U32)
  {
  }

  /** A concrete entry that is lost: DT_NEEDED with value 1 in a 32-bit file of the other byte order. */
  lemma ForeignEntryIsLost(host: Order)
    ensures DecodeTag(Class32, Conv(host, true), Encode(Class32, Conv(host, true), DT_NEEDED, 1)) != DT_NEEDED
  {
    FieldKeeps(Class32, Conv(host, true), DT_NEEDED);
    var bs := Encode(Class32, Conv(host, true), DT_NEEDED, 1);
    assert bs[..4] == Narrowed(Class32, Conv(host, true), DT_NEEDED);
  }

  // ----- the section

  datatype Entry = Entry(tag: nat, value: nat)

  function Encoded(c: ElfClass, conv: Conv, entries: seq<Entry>): (r: seq<seq<byte>>)
    ensures |r| == |entries|
    ensures forall i :: 0 <= i < |r| ==>
              r[i] == Encode(c, conv, entries[i].tag, entries[i].value) && |r[i]| == RecordSize(c)
  {
    seq(|entries|, i requires 0 <= i < |entries| => Encode(c, conv, entries[i].tag, entries[i].value))
  }

  /** `generic_get_entry_dyn` on a section whose entries have the record's size: None if there is no
      entry i. */
  function EntryAt(c: ElfClass, conv: Conv, table: seq<byte>, i: nat): Option<Entry> {
    if i * RecordSize(c) + RecordSize(c) <= |table| then
      var bs := Entries.RecordAt(table, RecordSize(c), i);
      Some(Entry(DecodeTag(c, conv, bs), DecodeValue(c, conv, bs)))
    else None
  }

  /** After any run of `add_entry` on a table of n entries, entry n + i is the i-th one added, with the
      value of a valueless tag zeroed, exactly if it survives its conversion. */
  lemma EntriesReadBack(c: ElfClass, conv: Conv, table: seq<byte>, n: nat, entries: seq<Entry>, i: nat)
    requires Entries.Holds(table, RecordSize(c), n) && i < |entries|
    requires entries[i].tag < U64 && entries[i].value < U64
    ensures var e := entries[i];
            (EntryAt(c, conv, Entries.AppendAll(table, Encoded(c, conv, entries)), n + i) ==
             Some(e.(value := if Valueless(e.tag) then 0 else e.value))) <==> Survives(c, conv, e.tag, e.value)
  {
    Entries.AllReadBack(table, RecordSize(c), n, Encoded(c, conv, entries));
    EntryRoundTrip(c, conv, entries[i].tag, entries[i].value);
  }

  /** `get_entry` with the string of a string-valued tag; None stands for the result false. */
  function EntryWithString(c: ElfClass, conv: Conv, table: seq<byte>, i: nat, strings: seq<byte>):
    Option<(Entry, seq<byte>)>
  {
    match EntryAt(c, conv, table, i)
    case None => None
    case Some(e) =>
      if NamesString(e.tag) then
        match Strings.StringAt(strings, e.value % U32)
        case None => None
        case Some(s) => Some((e, s))
      else Some((e, []))
  }

  /** The tags with strings are DT_NEEDED, DT_SONAME, DT_RPATH and DT_RUNPATH: for them the string runs from
      the offset, the low 32 bits of the value, to the first NUL, and an offset behind the table is an
      error; every other tag comes without a string. */
  lemma StringTags(c: ElfClass, conv: Conv, table: seq<byte>, i: nat, strings: seq<byte>)
    requires EntryAt(c, conv, table, i).Some?
    ensures var e, r := EntryAt(c, conv, table, i).value, EntryWithString(c, conv, table, i, strings);
            var at := e.value % 0x1_0000_0000;
            if e.tag == 1 || e.tag == 14 || e.tag == 15 || e.tag == 29 then
              if at >= |strings| then r == None
              else
                && r.Some? && r.value.0 == e && 0 !in r.value.1 && at + |r.value.1| <= |strings|
                && r.value.1 == strings[at..at + |r.value.1|]
                && (at + |r.value.1| < |strings| ==> strings[at + |r.value.1|] == 0)
            else r == Some((e, []))
  {
    var e := EntryAt(c, conv, table, i).value;
    var at := e.value % U32;
    hide EntryAt;
    if at < |strings| {
      var s := ElfHash.CString(strings[at..]);
      assert s == strings[at..at + |s|];
    }
  }

  /** A string added with a string-valued tag is found again through the entry, whatever strings and
      entries were added before and after it. */
  lemma StringEntryReadsBack(c: ElfClass, conv: Conv, table: seq<byte>, n: nat, entries: seq<Entry>, i: nat,
                             strings: seq<byte>, added: seq<seq<byte>>, j: nat)
    requires Entries.Holds(table, RecordSize(c), n) && i < |entries| && j < |added|
    requires NamesString(entries[i].tag) && entries[i].value == Strings.OffsetOf(strings, added, j) < U32
    requires c.Class64? || !conv.needConversion
    ensures EntryWithString(c, conv, Entries.AppendAll(table, Encoded(c, conv, entries)), n + i,
                            Strings.WithStrings(strings, added)) ==
            Some((entries[i], ElfHash.CString(added[j])))
  {
    EntriesReadBack(c, conv, table, n, entries, i);
    Strings.OffsetsAreStable(strings, added, j);
    Arith.ModOfSmall(entries[i].value, U32);
  }

  /** Adds an entry to a dynamic section. */
  method AddEntry(sec: Section, tag: nat, value: nat)
    requires sec.Valid() && sec.Sized() && sec.hdr.typ != SHT_NOBITS && sec.Buffer().Sound()
    requires |sec.Contents()| + 16 < 0x2000_0000
    modifies sec, sec.data
    ensures sec.Valid() && sec.Sized() && sec.Buffer().Sound()
    ensures sec.hdr == old(sec.hdr).(size := sec.hdr.size) && sec.index == old(sec.index) && sec.name == old(sec.name)
    ensures sec.Contents() == old(sec.Contents()) + Encode(sec.cls, sec.conv, tag, value)
  {
    sec.AppendSmall(Encode(sec.cls, sec.conv, tag, value));
  }
}
