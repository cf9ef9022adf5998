/** Inputs for which a segment does not get back a section it had when it was saved: complete objects,
    built the shortest way, for each of the conditions of MembersKept. */
module LostMembers {
  import opened Arith
  import opened ElfTypes
  import opened ElfState
  import opened Layout
  import opened FreshRun
  import opened SegmentPass
  import opened SegmentOrder
  import opened LayoutPass
  import opened LayoutTheorems
  import opened SaveRoundTrip
  import opened SingleSections
  import opened Membership
  import opened MembersKept
  import opened Planned
  import opened ThreadLocals
  import opened FirstImage
  import Budget
  import Bytes
  import Frozen
  import Ordering

  /** The parts are allocated sections, and the object has only these. */
  lemma PartIsOrdinary(b: Start, part: Part, segs: seq<SegmentState>)
    requires Chosen(b, part, segs) && (part.addressSet ==> part.hdr.typ == SHT_NOBITS)
    requires forall k :: 0 <= k < |segs| ==> segs[k].sections == [2]
    requires part.hdr.flags / SHF_ALLOC % 2 == 1
    ensures Ordinary(PartObject(b, part, segs)) && Composition(PartObject(b, part, segs), b, part, segs)
  {
    hide PartObject, Saveable, Small, SingleSectioned;
    PartIsSaveable(b, part, segs);
  }

  lemma OneIsTopLevel(e: Elf)
    requires ElfOk(e) && |e.segments| == 1
    ensures Layout.Order(e.segments) == [0] && TopLevel(e, 0)
  {
    OrderFacts(e.segments);
  }

  // ----- .tbss in an ordinary segment

  function TbssPart(size: nat): Part {
    Part(ZeroShdr.(typ := SHT_NOBITS, flags := SHF_ALLOC + SHF_TLS, addrAlign := 1, size := size), false, [])
  }

  /** A .tbss takes no memory in a segment that is not for thread-local storage, type 7, so it ends behind it; in
      one that is it takes its size. */
  lemma TbssIsLost(b: Start, size: nat, h: Phdr)
    requires Chosen(b, TbssPart(size), OneSegment(h, [2]))
    ensures var e := PartObject(b, TbssPart(size), OneSegment(h, [2]));
            && ElfOk(e) && |LaidOut(e).segments| == 1 && (Returns(e, 0, 2) <==> h.typ == 7)
            && LaidOut(e).segments[0].hdr.memsz == if h.typ == 7 then size else 0
  {
    hide PartObject, Saveable, Returns, Chosen, LaidOut;
    var e := PartObject(b, TbssPart(size), OneSegment(h, [2]));
    PartIsOrdinary(b, TbssPart(size), OneSegment(h, [2]));
    SaveableIsOk(e);
    OneIsTopLevel(e);
    assert 2 in e.segments[0].sections;
    PlacerKeeps(e, 0, 2);
    var from := LastTakesMemory(e, 0);
    assert e.segments[0].sections[..0] == [];
    assert EndAddress(e.sections, [], h.vaddr) == h.vaddr;
    AddressesArePlanned(e, 0, 0);
    Frozen.LayoutMoves(e);
    assert e.sections[2].Moved(LaidOut(e).sections[2]);
  }

  // ----- a NOBITS section with an address

  function BssPart(addr: nat, size: nat): Part {
    Part(ZeroShdr.(typ := SHT_NOBITS, flags := SHF_ALLOC, addr := addr, addrAlign := 1, size := size), true, [])
  }

  /** Alone in its segment, a NOBITS section with an address returns exactly if this is the segment's. */
  lemma AddressedBss(b: Start, addr: nat, size: nat, h: Phdr)
    requires Chosen(b, BssPart(addr, size), OneSegment(h, [2]))
    ensures var e := PartObject(b, BssPart(addr, size), OneSegment(h, [2]));
            ElfOk(e) && (Returns(e, 0, 2) <==> addr == h.vaddr)
  {
    hide PartObject, Saveable, Returns;
    var e := PartObject(b, BssPart(addr, size), OneSegment(h, [2]));
    PartIsOrdinary(b, BssPart(addr, size), OneSegment(h, [2]));
    SaveableIsOk(e);
    OneIsTopLevel(e);
    assert e.cls.Limit() <= U64;
    assert e.segments[0].sections[..0] == [];
    assert EndAddress(e.sections, [], h.vaddr) == h.vaddr;
    PlannedNobits(e, 0, 2);
  }

  // ----- a second segment for the same section

  function TwoViews(h: Phdr, h': Phdr): seq<SegmentState> {
    [SegmentState(h, 0, [2], false, []), SegmentState(h', 1, [2], false, [])]
  }

  lemma TwoInOrder(e: Elf)
    requires ElfOk(e) && |e.segments| == 2 && e.segments[0].sections == e.segments[1].sections == [2]
    requires !e.segments[0].AtZero() && !e.segments[1].AtZero()
    ensures Layout.Order(e.segments) == [0, 1] && TopLevel(e, 0) && !TopLevel(e, 1)
  {
    var lists, all := Lists(e.segments), Ordering.Range(2);
    Ordering.OrderedByLists(lists, Zeros(e.segments));
    assert all == [0, 1];
    Ordering.DrainTwo(lists, 0, 1);
    var order := Layout.Order(e.segments);
    assert order == [0, 1];
    assert order[..0] == [] && order[..1] == [0];
    assert 2 in e.segments[1].sections && InSome(lists, order[..1], 2) by {
      assert order[..1][0] == 0 && 2 in lists[0];
    }
  }

  /** The second of two segments with the same section has it after loading exactly if both have the same
      address. */
  lemma SecondView(b: Start, data: seq<Bytes.byte>, h: Phdr, h': Phdr)
    requires Chosen(b, CodePart(data), TwoViews(h, h'))
    ensures var e := PartObject(b, CodePart(data), TwoViews(h, h'));
            ElfOk(e) && (Returns(e, 1, 2) <==> h'.vaddr == h.vaddr)
  {
    hide PartObject, Saveable, Returns, LaidOut, Fitting;
    var e := PartObject(b, CodePart(data), TwoViews(h, h'));
    PartIsOrdinary(b, CodePart(data), TwoViews(h, h'));
    SaveableIsOk(e);
    TwoInOrder(e);
    Budget.PositionIs(e, 0);
    Budget.PositionIs(e, 1);
    assert e.segments[0].sections[..0] == [];
    assert EndAddress(e.sections, [], h.vaddr) == h.vaddr;
    AddressesArePlanned(e, 0, 0);
    assert Loaded(e.sections, e.segments[1]);
    NestedKeepsProper(e, 1, 0);
    assert 2 in e.segments[1].sections && NonNull(e.sections, 2);
  }
}
