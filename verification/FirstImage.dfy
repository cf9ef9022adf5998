/** The shortest complete uses of the library: create an object, add a section with data and a segment
    that holds it, with or without the file's headers, save. The results meet every condition of the
    theorems about saving and loading. */
module FirstImage {
  import opened Bytes
  import opened Convertor
  import opened ElfTypes
  import opened ElfState
  import opened Layout
  import opened FreshRun
  import opened SegmentPass
  import opened LayoutPass
  import opened SegmentOrder
  import opened SaveLoad
  import opened SaveRoundTrip
  import opened Membership
  import opened Naming
  import opened Strings
  import opened Budget
  import opened Reload
  import opened ReloadConditions
  import opened SingleSections
  import FileFormat
  import Frozen
  const CODE_TYPE := 1

  function CodeHeader(size: nat): Shdr {
    ZeroShdr.(typ := CODE_TYPE, flags := SHF_ALLOC, addrAlign := 1, size := size)
  }

  /** What a program makes of the third section: its header fields but the name, whether an address was
      set, and its bytes. */
  datatype Part = Part(hdr: Shdr, addressSet: bool, data: seq<byte>)

  function CodePart(data: seq<byte>): Part {
    Part(CodeHeader(|data|), false, data)
  }

  /** Section 2 of an object becomes the given part, and the given segments are made. */
  function WithPart(e: Elf, part: Part, segs: seq<SegmentState>): Elf
    requires |e.sections| == 3
  {
    var s := e.sections[2];
    e.(sections := e.sections[2 := s.(hdr := part.hdr.(name := s.hdr.name), data := part.data,
                                      addressSet := part.addressSet)],
       segments := segs)
  }

  /** How a program begins: the class, the machine's and the file's byte order, and a section's name. */
  datatype Start = Start(host: Order, cls: ElfClass, encoding: byte, name: seq<byte>)

  function PartObject(b: Start, part: Part, segs: seq<SegmentState>): Elf {
    WithPart(WithSection(Created(b.host, b.cls, b.encoding), b.name), part, segs)
  }

  /** One segment with header h and the given sections. */
  function OneSegment(h: Phdr, list: seq<nat>): seq<SegmentState> {
    [SegmentState(h, 0, list, false, [])]
  }

  /** What the object consists of. */
  predicate Composition(e: Elf, b: Start, part: Part, segs: seq<SegmentState>) {
    && e.cls == b.cls && e.hdr == NewHeader(b.cls, b.encoding) && e.conv == Setup(b.host, b.encoding)
    && |e.sections| == 3 && e.segments == segs
    && e.sections[0] == NewSection(0)
    && (var t := e.sections[1];
        && t.hdr == ZeroShdr.(name := 1, typ := SHT_STRTAB, addrAlign := 1, size := |t.data|)
        && 0 < |t.data| <= 12 + |b.name| && t.index == 1 && !t.addressSet)
    && (var s := e.sections[2];
        && s == SectionState(part.hdr.(name := s.hdr.name), 2, b.name, part.data, part.addressSet)
        && s.hdr.name <= 12)
  }

  lemma PartComposition(b: Start, part: Part, segs: seq<SegmentState>)
    requires 0 !in b.name
    ensures var e := PartObject(b, part, segs);
            Composition(e, b, part, segs) && NamesHeld(e)
  {
    PartShape(b, part, segs);
    PartNames(b, part, segs);
  }

  lemma PartShape(b: Start, part: Part, segs: seq<SegmentState>)
    requires 0 !in b.name
    ensures Composition(PartObject(b, part, segs), b, part, segs)
  {
    NoNulIsWhole(b.name);
    NoNulIsWhole(SHSTRTAB_NAME);
  }

  lemma PartNames(b: Start, part: Part, segs: seq<SegmentState>)
    requires 0 !in b.name
    ensures NamesHeld(PartObject(b, part, segs))
  {
    hide Created, WithSection;
    var bare := Created(b.host, b.cls, b.encoding);
    CreatedHoldsNames(b.host, b.cls, b.encoding);
    AddKeepsNames(bare, b.name);
    PartKeepsNames(WithSection(bare, b.name), part, segs);
  }

  /** Filling section 2 changes neither names nor the string table. */
  lemma PartKeepsNames(e: Elf, part: Part, segs: seq<SegmentState>)
    requires |e.sections| == 3 && e.hdr.shstrndx == 1 && NamesHeld(e)
    ensures NamesHeld(WithPart(e, part, segs))
  {
    var r := WithPart(e, part, segs);
    forall i | 0 <= i < 3
      ensures HoldsString(r.sections[1].data, r.sections[i].hdr.name, r.sections[i].name)
    {
      assert HoldsString(e.sections[1].data, e.sections[i].hdr.name, e.sections[i].name);
    }
  }

  /** A name and a part of moderate size, with bytes as many as it says, and headers that fit. */
  predicate Chosen(b: Start, part: Part, segs: seq<SegmentState>) {
    && 0 !in b.name && |b.name| < 0x1_0000
    && ShdrFits(b.cls, part.hdr) && part.hdr.typ != SHT_NULL
    && 0 < part.hdr.size < 0x100_0000 && part.hdr.addrAlign < 0x100
    && (part.hdr.typ == SHT_NOBITS || |part.data| == part.hdr.size)
    && part.hdr.addr + part.hdr.size < b.cls.Limit()
    && |segs| <= 2
    && forall k :: 0 <= k < |segs| ==>
         && segs[k].index == k && PhdrFits(b.cls, segs[k].hdr) && 0 < segs[k].hdr.align < 0x1_0000
         && !segs[k].AtZero() && segs[k].hdr.vaddr + part.hdr.addrAlign + part.hdr.size < b.cls.Limit()
  }

  lemma PartIsStandard(e: Elf, b: Start, part: Part, segs: seq<SegmentState>)
    requires Composition(e, b, part, segs) && Chosen(b, part, segs)
    ensures StandardHeader(e) && StandardParts(e)
  {
  }

  // ----- one section in every segment

  lemma PartIsSingle(e: Elf, b: Start, part: Part, segs: seq<SegmentState>)
    requires Composition(e, b, part, segs) && Chosen(b, part, segs) && NamesHeld(e)
    requires part.addressSet ==> part.hdr.typ == SHT_NOBITS
    requires forall k :: 0 <= k < |segs| ==> segs[k].sections == [2]
    ensures SingleSectioned(e)
  {
    hide PhdrFits, NamesHeld, StandardHeader, StandardParts, NamesResolve;
    PartIsStandard(e, b, part, segs);
    HeldNamesResolve(e);
    forall k | 0 <= k < |e.segments|
      ensures Single(e, k)
    {
    }
  }

  /** What the sections take at most if none of them is in a segment. */
  lemma LooseIsSmall(e: Elf, b: Start, part: Part, segs: seq<SegmentState>)
    requires Composition(e, b, part, segs) && Chosen(b, part, segs)
    ensures LooseCost(e.sections, |e.sections|) <= 1 + 12 + |b.name| + part.hdr.addrAlign + part.hdr.size
    ensures Base(e) <= 64 + 56 * |segs|
  {
    hide PhdrFits, ShdrFits;
    LooseCostOfThree(e.sections);
  }

  /** Everything together takes less than the smallest class has. */
  lemma PartIsSmall(e: Elf, b: Start, part: Part, segs: seq<SegmentState>)
    requires Composition(e, b, part, segs) && Chosen(b, part, segs) && SingleSectioned(e)
    requires forall k :: 0 <= k < |segs| ==> segs[k].sections == [2]
    ensures ElfOk(e) && Small(e)
  {
    hide PhdrFits, ShdrFits;
    LooseIsSmall(e, b, part, segs);
    forall k | 0 <= k < |e.segments|
      ensures SegmentOk(e.segments[k], |e.sections|)
      ensures Reach(e.sections, e.segments[k].hdr.vaddr, e.segments[k].sections, 0) ==
                part.hdr.addrAlign + part.hdr.size
    {
      assert Single(e, k);
      SingleReach(e, k);
    }
    assert TotalCost(e) <= 2 * (0x1_0000 + part.hdr.addrAlign + part.hdr.size) by {
      SumOfTwo(Costs(e), 0x1_0000 + part.hdr.addrAlign + part.hdr.size);
    }
  }

  /** An object with one part, in every segment alone, can be saved. */
  lemma PartIsSaveable(b: Start, part: Part, segs: seq<SegmentState>)
    requires Chosen(b, part, segs) && (part.addressSet ==> part.hdr.typ == SHT_NOBITS)
    requires forall k :: 0 <= k < |segs| ==> segs[k].sections == [2]
    ensures var e := PartObject(b, part, segs);
            Composition(e, b, part, segs) && SingleSectioned(e) && ElfOk(e) && Small(e) && Saveable(e)
  {
    hide PartObject, Composition, Chosen, SingleSectioned, NamesHeld, Saveable, Small;
    var e := PartObject(b, part, segs);
    ChosenName(b, part, segs);
    PartComposition(b, part, segs);
    PartIsSingle(e, b, part, segs);
    PartIsSmall(e, b, part, segs);
    SingleIsSaveable(e);
  }

  lemma ChosenName(b: Start, part: Part, segs: seq<SegmentState>)
    requires Chosen(b, part, segs)
    ensures 0 !in b.name
  {
  }

  lemma CodeIsDurable(b: Start, data: seq<byte>, h: Phdr)
    requires Chosen(b, CodePart(data), OneSegment(h, [2]))
    ensures var e := PartObject(b, CodePart(data), OneSegment(h, [2]));
            Durable(e) && Composition(e, b, CodePart(data), OneSegment(h, [2]))
  {
    hide PartObject, SingleSectioned, Small, Durable, Saveable;
    var e := PartObject(b, CodePart(data), OneSegment(h, [2]));
    PartIsSaveable(b, CodePart(data), OneSegment(h, [2]));
    CodeIsLasting(e, b, data, h);
    SingleIsDurable(e);
  }

  lemma CodeIsLasting(e: Elf, b: Start, data: seq<byte>, h: Phdr)
    requires Chosen(b, CodePart(data), OneSegment(h, [2]))
    requires Composition(e, b, CodePart(data), OneSegment(h, [2])) && SingleSectioned(e)
    ensures AllLasting(e)
  {
    hide PhdrFits, ShdrFits, StandardHeader, StandardParts, NamesResolve;
    assert Single(e, 0) && Lasting(e, 0);
    assert 2 in e.segments[0].sections;
  }

  // ----- a segment that holds the headers as well

  /** A segment that begins with the null section: it covers the file from its start. */
  lemma HeadersAreAffordable(e: Elf, b: Start, data: seq<byte>, h: Phdr)
    requires Chosen(b, CodePart(data), OneSegment(h, [0, 2])) && h.vaddr + 0x1000 + |data| < b.cls.Limit()
    requires Composition(e, b, CodePart(data), OneSegment(h, [0, 2]))
    ensures Affordable(e) && Window(e, 0) == Base(e) + 1 + |data|
    ensures StartsWithNull(e.segments[0], e.sections)
  {
    hide PhdrFits, ShdrFits;
    LooseIsSmall(e, b, CodePart(data), OneSegment(h, [0, 2]));
    HeadersAreWellFormed(e, b, data, h);
    OrderFacts(e.segments);
    assert Layout.Order(e.segments) == [0];
    assert TopLevel(e, 0);
    HeadersReach(e.sections, h.vaddr, Base(e), |data|);
    assert Bound(e, 0) == Base(e) && Bound(e, 1) == Base(e) + 1 + |data|;
    assert Composed(e, 0);
  }

  lemma HeadersReach(secs: seq<SectionState>, vaddr: nat, from: nat, size: nat)
    requires |secs| == 3 && secs[0].IsNull() && !secs[2].IsNull() && !secs[2].addressSet
    requires secs[2].hdr.addrAlign == 1 && secs[2].hdr.size == size
    ensures Reach(secs, vaddr, [0, 2], from) == from + 1 + size && Roomy(secs, vaddr, [0, 2], from)
  {
    var list: seq<nat> := [0, 2];
    assert list[..1] == [0] && list[..1][..0] == [];
    assert Reach(secs, vaddr, list[..1], from) == from;
  }

  lemma HeadersAreWellFormed(e: Elf, b: Start, data: seq<byte>, h: Phdr)
    requires Chosen(b, CodePart(data), OneSegment(h, [0, 2]))
    requires Composition(e, b, CodePart(data), OneSegment(h, [0, 2]))
    ensures WellFormed(e)
  {
    hide PhdrFits, ShdrFits;
    LooseIsSmall(e, b, CodePart(data), OneSegment(h, [0, 2]));
  }

  lemma HeadersAreDurable(b: Start, data: seq<byte>, h: Phdr)
    requires Chosen(b, CodePart(data), OneSegment(h, [0, 2])) && h.vaddr + 0x1000 + |data| < b.cls.Limit()
    ensures var e := PartObject(b, CodePart(data), OneSegment(h, [0, 2]));
            Durable(e) && Composition(e, b, CodePart(data), OneSegment(h, [0, 2]))
  {
    hide PartObject, NamesHeld, StandardHeader, StandardParts, NamesResolve, Affordable;
    var e := PartObject(b, CodePart(data), OneSegment(h, [0, 2]));
    PartComposition(b, CodePart(data), OneSegment(h, [0, 2]));
    PartIsStandard(e, b, CodePart(data), OneSegment(h, [0, 2]));
    HeldNamesResolve(e);
    HeadersAreAffordable(e, b, data, h);
    HeadersAreReloadable(e, b, data, h);
    OrderIsKept(e);
  }

  lemma HeadersAreReloadable(e: Elf, b: Start, data: seq<byte>, h: Phdr)
    requires Chosen(b, CodePart(data), OneSegment(h, [0, 2])) && h.vaddr + 0x1000 + |data| < b.cls.Limit()
    requires Composition(e, b, CodePart(data), OneSegment(h, [0, 2])) && ElfOk(e)
    requires Window(e, 0) == Base(e) + 1 + |data|
    ensures SegmentReloadable(e, 0) && NoEmptySections(e)
  {
    hide PhdrFits, ShdrFits, Window;
    LooseIsSmall(e, b, CodePart(data), OneSegment(h, [0, 2]));
    assert e.cls.Limit() <= U64;
    assert 2 in e.segments[0].sections;
  }

  // ----- theorems

  /** The object r has the chosen name, bytes and segment. */
  predicate HasCode(r: Elf, name: seq<byte>, data: seq<byte>, h: Phdr, list: seq<nat>) {
    && |r.sections| == 3 && r.sections[2].name == name && r.sections[2].data == data
    && |r.segments| == 1 && r.segments[0].sections == list
    && r.segments[0].hdr.vaddr == h.vaddr && r.segments[0].hdr.typ == h.typ && r.segments[0].hdr.flags == h.flags
  }

  /** So what is created, filled and saved this way is found in the file again, for either class, either
      byte order of the file and of the machine, and every name, contents and address; and loading the
      file and saving it once more changes nothing. */
  lemma CodeSurvives(b: Start, data: seq<byte>, h: Phdr)
    requires Chosen(b, CodePart(data), OneSegment(h, [2]))
    ensures var e := PartObject(b, CodePart(data), OneSegment(h, [2]));
            && ElfOk(e) && |LaidOut(e).hdr.ident| == EI_NIDENT
            && var file := FileFormat.Image(LaidOut(e));
               var r := FileFormat.LoadFrom(b.host, file);
               ComesBack(e, LaidOut(e), file, r) && HasCode(r.value.0, b.name, data, h, [2])
  {
    hide PartObject, LaidOut, FileFormat.Image, FileFormat.LoadFrom, Durable, HasCode, Composition, Chosen;
    CodeIsDurable(b, data, h);
    DurableCode(PartObject(b, CodePart(data), OneSegment(h, [2])), b, data, h, [2]);
  }

  /** The same for a segment that also holds the file's headers, as the first one of an executable does. */
  lemma HeadersSurvive(b: Start, data: seq<byte>, h: Phdr)
    requires Chosen(b, CodePart(data), OneSegment(h, [0, 2])) && h.vaddr + 0x1000 + |data| < b.cls.Limit()
    ensures var e := PartObject(b, CodePart(data), OneSegment(h, [0, 2]));
            && ElfOk(e) && |LaidOut(e).hdr.ident| == EI_NIDENT
            && var file := FileFormat.Image(LaidOut(e));
               var r := FileFormat.LoadFrom(b.host, file);
               ComesBack(e, LaidOut(e), file, r) && HasCode(r.value.0, b.name, data, h, [0, 2])
  {
    hide PartObject, LaidOut, FileFormat.Image, FileFormat.LoadFrom, Durable, HasCode, Composition, Chosen;
    HeadersAreDurable(b, data, h);
    DurableCode(PartObject(b, CodePart(data), OneSegment(h, [0, 2])), b, data, h, [0, 2]);
  }

  lemma DurableCode(e: Elf, b: Start, data: seq<byte>, h: Phdr, list: seq<nat>)
    requires Durable(e) && Composition(e, b, CodePart(data), OneSegment(h, list))
    ensures ElfOk(e) && |LaidOut(e).hdr.ident| == EI_NIDENT
    ensures var file := FileFormat.Image(LaidOut(e));
            var r := FileFormat.LoadFrom(b.host, file);
            ComesBack(e, LaidOut(e), file, r) && HasCode(r.value.0, b.name, data, h, list)
  {
    hide LaidOut, FileFormat.Image, FileFormat.LoadFrom, StandardHeader, StandardParts, NamesResolve,
         NoEmptySections, SegmentReloadable, HasCode, LayoutFits, OrderKept, Affordable;
    AffordableIsOk(e);
    DurableSurvives(e);
    RetentiveIsSaveable(e);
    SaveThenLoad(e);
    Frozen.LayoutMoves(e);
    CodeFound(e, LaidOut(e), FileFormat.Image(LaidOut(e)), b, data, h, list);
  }

  lemma CodeFound(e: Elf, f: Elf, file: seq<byte>, b: Start, data: seq<byte>, h: Phdr, list: seq<nat>)
    requires Composition(e, b, CodePart(data), OneSegment(h, list))
    requires |f.sections| == 3 && e.sections[2].Moved(f.sections[2])
    requires |f.segments| == 1 && Resized(e.segments[0], f.segments[0])
    requires Reloaded(f, file).segments[0].sections == list
    ensures HasCode(Reloaded(f, file), b.name, data, h, list)
  {
    hide FileFormat.Members, FileFormat.RaisedAlign, SegmentData;
  }
}
