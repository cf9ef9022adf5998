/** When an object fits: a condition that can be checked before the layout runs. */
module Budget {
  import opened Arith
  import opened ElfTypes
  import opened ElfState
  import opened Layout
  import opened FreshRun
  import opened SegmentPass
  import opened SegmentOrder
  import opened LayoutPass
  import opened LoosePass
  import opened LayoutTheorems
  import Frozen
  import Ordering

  // ----- one segment

  /** How far the listed sections reach from the segment's start, at most, if they begin `from` bytes
      behind it: to the end of the last addressed section, and beyond that by size and alignment of
      every other one. */
  function Reach(secs: seq<SectionState>, vaddr: nat, list: seq<nat>, from: nat): (r: nat)
    requires Within(list, |secs|)
    ensures r >= from
  {
    if list == [] then from
    else
      var before, s := Reach(secs, vaddr, list[..|list| - 1], from), secs[list[|list| - 1]];
      if s.IsNull() then before
      else if s.addressSet && !s.IsNobits() then
        var end := s.hdr.addr - vaddr + s.hdr.size;
        if end < before then before else end
      else before + s.hdr.addrAlign + s.hdr.size
  }

  /** Every section with an address has one behind what comes before it: ascending, without overlap,
      and not below the first `from` bytes. Sections without addresses make no demands. */
  predicate Roomy(secs: seq<SectionState>, vaddr: nat, list: seq<nat>, from: nat)
    requires Within(list, |secs|)
  {
    list == [] ||
    (var init, s := list[..|list| - 1], secs[list[|list| - 1]];
     && Roomy(secs, vaddr, init, from)
     && (!s.IsNull() && s.addressSet && !s.IsNobits() ==> vaddr + Reach(secs, vaddr, init, from) <= s.hdr.addr))
  }

  /** Beginning earlier leaves more room. */
  lemma {:induction false} EarlierIsRoomier(secs: seq<SectionState>, vaddr: nat, list: seq<nat>, from: nat, later: nat)
    requires Within(list, |secs|) && from <= later
    ensures Reach(secs, vaddr, list, from) <= Reach(secs, vaddr, list, later)
    ensures Roomy(secs, vaddr, list, later) ==> Roomy(secs, vaddr, list, from)
  {
    if list != [] {
      EarlierIsRoomier(secs, vaddr, list[..|list| - 1], from, later);
    }
  }

  /** Sections with addresses end within the reach. */
  lemma {:induction false} AddressesWithinReach(secs: seq<SectionState>, vaddr: nat, list: seq<nat>, from: nat, j: nat)
    requires Within(list, |secs|) && j < |list| && secs[list[j]].addressSet && secs[list[j]].Occupies()
    ensures secs[list[j]].hdr.addr + secs[list[j]].hdr.size <= vaddr + Reach(secs, vaddr, list, from)
  {
    if j < |list| - 1 {
      AddressesWithinReach(secs, vaddr, list[..|list| - 1], from, j);
    }
  }

  /** Addresses of NOBITS sections do not overflow. */
  predicate NobitsSmall(cls: ElfClass, secs: seq<SectionState>, list: seq<nat>)
    requires Within(list, |secs|)
  {
    forall j :: 0 <= j < |list| && secs[list[j]].IsNobits() ==>
        secs[list[j]].hdr.addr + secs[list[j]].hdr.size < cls.Limit()
  }

  /** One more section: it fits, and the cursor stays within the reach. */
  lemma OneFits(cls: ElfClass, f: Frame, c: Cursor, i: nat, before: nat, after: nat)
    requires c.Has(i) && Indexed(c.secs) && f.start <= c.pos <= f.start + before && c.pos < cls.Limit()
    requires !c.secs[i].IsNull() && !c.gen[i] && before <= after
    requires var s := c.secs[i];
             if s.addressSet && !s.IsNobits() then f.vaddr + before <= s.hdr.addr &&
                 after == s.hdr.addr - f.vaddr + s.hdr.size
             else after == before + s.hdr.addrAlign + s.hdr.size
    requires f.start + after < cls.Limit() && f.vaddr + after < cls.Limit()
    requires c.secs[i].IsNobits() ==> c.secs[i].hdr.addr + c.secs[i].hdr.size < cls.Limit()
    ensures Fits(cls, f, c, i) && PlaceOne(cls, f, c, i).pos <= f.start + after
    ensures var s := PlaceOne(cls, f, c, i).secs[i]; s.hdr.offset + s.hdr.size <= f.start + after
  {
    TurnIsIdeal(cls, f, c, i);
  }

  /** A new segment about to place roomy sections within its budget, behind what it holds already. */
  predicate RoomyReady(cls: ElfClass, f: Frame, c0: Cursor, list: seq<nat>) {
    && |c0.gen| == |c0.secs| && Within(list, |c0.secs|) && Ordering.Sorted(list)
    && Indexed(c0.secs) && NobitsLast(c0.secs, list) && NoneGenerated(c0, list)
    && f.start <= c0.pos < cls.Limit() && c0.filesz == c0.memsz == c0.pos - f.start
    && Roomy(c0.secs, f.vaddr, list, c0.filesz) && NobitsSmall(cls, c0.secs, list)
    && f.start + Reach(c0.secs, f.vaddr, list, c0.filesz) < cls.Limit()
    && f.vaddr + Reach(c0.secs, f.vaddr, list, c0.filesz) < cls.Limit()
  }

  lemma RoomyInit(cls: ElfClass, f: Frame, c0: Cursor, list: seq<nat>)
    requires RoomyReady(cls, f, c0, list) && list != []
    ensures RoomyReady(cls, f, c0, list[..|list| - 1]) && Next(c0, Elems(list[..|list| - 1]), list[|list| - 1])
    ensures Reach(c0.secs, f.vaddr, list[..|list| - 1], c0.filesz) <= Reach(c0.secs, f.vaddr, list, c0.filesz)
  {
    LastOf(c0, list);
  }

  /** The turn of the last section of a roomy list. */
  lemma RoomyLast(cls: ElfClass, f: Frame, c0: Cursor, list: seq<nat>)
    requires RoomyReady(cls, f, c0, list) && list != []
    requires var init := list[..|list| - 1];
             && Within(init, |c0.secs|) && RunFits(cls, f, c0, init)
             && PlaceAll(cls, f, c0, init).pos <= f.start + Reach(c0.secs, f.vaddr, init, c0.filesz)
    ensures var c, i := PlaceAll(cls, f, c0, list[..|list| - 1]), list[|list| - 1];
            var end := f.start + Reach(c0.secs, f.vaddr, list, c0.filesz);
            && c.Has(i) && Fits(cls, f, c, i) && PlaceOne(cls, f, c, i).pos <= end
            && var s := PlaceOne(cls, f, c, i).secs[i]; s.IsNull() || s.hdr.offset + s.hdr.size <= end
  {
    var init, i := list[..|list| - 1], list[|list| - 1];
    RoomyInit(cls, f, c0, list);
    WalkAll(cls, f, c0, init);
    var c := PlaceAll(cls, f, c0, init);
    SameTypes(cls, f, c0, c, Elems(init));
    if !c0.secs[i].IsNull() {
      OneFits(cls, f, c, i, Reach(c0.secs, f.vaddr, init, c0.filesz), Reach(c0.secs, f.vaddr, list, c0.filesz));
    }
  }

  /** A roomy segment with a budget fits where it starts, and ends within its reach. */
  lemma {:induction false} RoomyFits(cls: ElfClass, f: Frame, c0: Cursor, list: seq<nat>)
    requires RoomyReady(cls, f, c0, list)
    ensures RunFits(cls, f, c0, list)
    ensures PlaceAll(cls, f, c0, list).pos <= f.start + Reach(c0.secs, f.vaddr, list, c0.filesz)
  {
    hide PlaceOne, Fits;
    if list != [] {
      RoomyInit(cls, f, c0, list);
      RoomyFits(cls, f, c0, list[..|list| - 1]);
      RoomyLast(cls, f, c0, list);
    }
  }

  /** The listed sections end, also in memory, at `end` at the latest. */
  predicate EndBy(secs: seq<SectionState>, list: seq<nat>, end: nat) {
    forall j :: 0 <= j < |list| && NonNull(secs, list[j]) ==> secs[list[j]].hdr.offset + secs[list[j]].hdr.size <= end
  }

  lemma {:induction false} RoomyEnds(cls: ElfClass, f: Frame, c0: Cursor, list: seq<nat>)
    requires RoomyReady(cls, f, c0, list)
    ensures EndBy(PlaceAll(cls, f, c0, list).secs, list, f.start + Reach(c0.secs, f.vaddr, list, c0.filesz))
  {
    hide PlaceOne, Fits;
    if list != [] {
      var init := list[..|list| - 1];
      RoomyInit(cls, f, c0, list);
      RoomyEnds(cls, f, c0, init);
      RoomyFits(cls, f, c0, init);
      RoomyLast(cls, f, c0, list);
      OneMoreEnds(cls, f, PlaceAll(cls, f, c0, init), list, f.start + Reach(c0.secs, f.vaddr, list, c0.filesz));
    }
  }

  lemma OneMoreEnds(cls: ElfClass, f: Frame, c: Cursor, list: seq<nat>, end: nat)
    requires list != [] && |c.gen| == |c.secs| && Within(list, |c.secs|) && EndBy(c.secs, list[..|list| - 1], end)
    requires var i := list[|list| - 1];
             var s := PlaceOne(cls, f, c, i).secs[i];
             s.IsNull() || s.hdr.offset + s.hdr.size <= end
    ensures EndBy(PlaceOne(cls, f, c, list[|list| - 1]).secs, list, end)
  {
    var i := list[|list| - 1];
    var r := PlaceOne(cls, f, c, i);
    forall j | 0 <= j < |list| && NonNull(r.secs, list[j])
      ensures r.secs[list[j]].hdr.offset + r.secs[list[j]].hdr.size <= end
    {
      assert list[j] != i ==> r.secs[list[j]] == c.secs[list[j]] && j < |list| - 1 && list[..|list| - 1][j] == list[j];
    }
  }

  // ----- all segments, in layout order

  /** Where a segment that places its sections ends, at most, if everything before ends at `before`. */
  function EndOf(secs: seq<SectionState>, seg: SegmentState, before: nat): (r: nat)
    requires SegmentOk(seg, |secs|)
    ensures r >= before
  {
    if StartsWithNull(seg, secs) then Reach(secs, seg.hdr.vaddr, seg.sections, before)
    else before + seg.hdr.align + Reach(secs, seg.hdr.vaddr, seg.sections, 0)
  }

  /** Where the first n segments of the computed order end, at most. */
  function Bound(e: Elf, n: nat): (b: nat)
    requires ElfOk(e) && n <= |e.segments|
  {
    if n == 0 then Base(e)
    else
      var seg := e.segments[Order(e.segments)[n - 1]];
      if seg.sections == [] || !TopLevel(e, n - 1) then Bound(e, n - 1)
      else EndOf(e.sections, seg, Bound(e, n - 1))
  }

  /** Position of segment k in the computed order. */
  function Position(e: Elf, k: nat): (p: nat)
    requires k < |e.segments|
    ensures p < |e.segments| && Order(e.segments)[p] == k
  {
    OrderFacts(e.segments);
    IndexIn(Order(e.segments), k)
  }

  lemma PositionIs(e: Elf, p: nat)
    requires p < |e.segments|
    ensures Position(e, Order(e.segments)[p]) == p
  {
    OrderFacts(e.segments);
    var q := Position(e, Order(e.segments)[p]);
    assert Order(e.segments)[q] == Order(e.segments)[p];
  }

  /** The segment at position n of the order places the sections it lists. */
  predicate PlacerAt(e: Elf, n: nat) {
    n < |e.segments| && e.segments[Order(e.segments)[n]].sections != [] && TopLevel(e, n)
  }

  /** Bytes between the start of the segment at position n and its first section, at most: a segment
      that begins with the null section covers everything before it. */
  function Lead(e: Elf, n: nat): nat
    requires ElfOk(e) && n < |e.segments|
  {
    if StartsWithNull(e.segments[Order(e.segments)[n]], e.sections) then Bound(e, n) else 0
  }

  /** What the sections take at most if none of them is in a segment. */
  function LooseCost(secs: seq<SectionState>, n: nat): nat
    requires n <= |secs|
  {
    if n == 0 then 0 else LooseCost(secs, n - 1) + secs[n - 1].hdr.addrAlign + secs[n - 1].hdr.size
  }

  /** The segment at position n of the order has its addresses in order, above all that it covers, and
      does not overflow. */
  predicate Composed(e: Elf, n: nat)
    requires ElfOk(e) && n < |e.segments|
  {
    var seg := e.segments[Order(e.segments)[n]];
    seg.sections != [] && TopLevel(e, n) ==>
      && (StartsWithNull(seg, e.sections) || 2 * seg.hdr.align <= U64)
      && Roomy(e.sections, seg.hdr.vaddr, seg.sections, Lead(e, n)) && NobitsSmall(e.cls, e.sections, seg.sections)
      && seg.hdr.vaddr + Reach(e.sections, seg.hdr.vaddr, seg.sections, Lead(e, n)) < e.cls.Limit()
  }

  lemma LooseCostOfThree(secs: seq<SectionState>)
    requires |secs| == 3
    ensures LooseCost(secs, 3) == secs[0].hdr.addrAlign + secs[0].hdr.size + secs[1].hdr.addrAlign +
                                  secs[1].hdr.size + secs[2].hdr.addrAlign + secs[2].hdr.size
  {
    assert LooseCost(secs, 0) == 0;
    assert LooseCost(secs, 1) == secs[0].hdr.addrAlign + secs[0].hdr.size;
    assert LooseCost(secs, 2) == LooseCost(secs, 1) + secs[1].hdr.addrAlign + secs[1].hdr.size;
  }

  predicate AllComposed(e: Elf)
    requires ElfOk(e)
  {
    forall n {:trigger Composed(e, n)} :: 0 <= n < |e.segments| ==> Composed(e, n)
  }

  /** Well-formed and composed segments, and an end below the class's limit. */
  predicate Affordable(e: Elf) {
    && WellFormed(e) && AllComposed(e)
    && Bound(e, |e.segments|) + LooseCost(e.sections, |e.sections|) + 4 < e.cls.Limit()
  }

  predicate WithinBudget(e: Elf, n: nat)
    requires ElfOk(e) && n <= |e.segments|
  {
    StateAt(e, n).pos <= Bound(e, n)
  }

  lemma {:induction false} BoundGrows(e: Elf, n: nat, m: nat)
    requires ElfOk(e) && n <= m <= |e.segments|
    ensures Bound(e, n) <= Bound(e, m)
    decreases m
  {
    if n < m {
      BoundGrows(e, n, m - 1);
    }
  }

  /** The segment at position n of the order is ready to be walked when everything before it stayed
      within the bound. */
  lemma SegmentReady(e: Elf, n: nat, st: LayState)
    requires WellFormed(e) && n < |e.segments| && Composed(e, n) && LayOk(st) && Laid(e, n, st) && TopLevel(e, n)
    requires e.segments[Order(e.segments)[n]].sections != []
    requires st.pos <= Bound(e, n) && Bound(e, n + 1) < e.cls.Limit()
    ensures var seg := e.segments[Order(e.segments)[n]];
            var (f, c) := Open(Prepared(e), st, seg);
            && st.segs[Order(e.segments)[n]] == seg && StartsNew(seg, st.gen)
            && StartsWithNull(seg, st.secs) == StartsWithNull(seg, e.sections)
            && RoomyReady(e.cls, f, c, seg.sections) && f.vaddr == seg.hdr.vaddr
            && Reach(c.secs, f.vaddr, seg.sections, c.filesz) <=
                 Reach(e.sections, seg.hdr.vaddr, seg.sections, Lead(e, n))
            && (if StartsWithNull(seg, e.sections) then f.start == 0
                else 2 * seg.hdr.align <= U64 && f.start == st.pos + Gap(st.pos, seg.hdr.vaddr, seg.hdr.align))
  {
    hide Order, Laminar, Reach, Roomy, TopLevel;
    var k := Order(e.segments)[n];
    var seg := e.segments[k];
    ReadyParts(e, n, st);
    var (f, c) := Open(Prepared(e), st, seg);
    assert e.cls.Limit() <= U64;
    if !StartsWithNull(seg, e.sections) {
      SegmentGapIsGap(st.pos, seg.hdr.vaddr, seg.hdr.align);
    }
    SameReach(e.sections, st.secs, seg.hdr.vaddr, seg.sections, c.filesz);
    EarlierIsRoomier(e.sections, seg.hdr.vaddr, seg.sections, c.filesz, Lead(e, n));
  }

  /** The sections of a segment that is first to have them are untouched. */
  lemma ReadyParts(e: Elf, n: nat, st: LayState)
    requires WellFormed(e) && n < |e.segments| && LayOk(st) && Laid(e, n, st) && TopLevel(e, n)
    ensures var k := Order(e.segments)[n];
            && st.segs[k] == e.segments[k] && Indexed(st.secs) && SegShape(st.secs, e.segments[k])
            && (forall j :: 0 <= j < |e.segments[k].sections| ==>
                  var i := e.segments[k].sections[j]; !st.gen[i] && st.secs[i] == e.sections[i])
  {
    var k := Order(e.segments)[n];
    TypesKept(e, n, st);
    forall j | 0 <= j < |e.segments[k].sections|
      ensures var i := e.segments[k].sections[j]; !st.gen[i] && st.secs[i] == e.sections[i]
    {
      assert e.segments[k].sections[j] in e.segments[k].sections;
    }
  }

  /** The segment at position n of the order fits, and stays within the bound. */
  lemma SegmentAffords(e: Elf, n: nat, st: LayState)
    requires WellFormed(e) && n < |e.segments| && Composed(e, n) && LayOk(st) && Laid(e, n, st) && TopLevel(e, n)
    requires e.segments[Order(e.segments)[n]].sections != []
    requires st.pos <= Bound(e, n) && Bound(e, n + 1) < e.cls.Limit()
    ensures SegmentFits(e.cls, Prepared(e), st, Order(e.segments)[n])
    ensures PlaceSegment(e.cls, Prepared(e), st, Order(e.segments)[n]).pos <= Bound(e, n + 1)
  {
    hide Order, Laminar, Reach, Roomy, TopLevel, Composed, RoomyReady, PlaceAll, RunFits;
    SegmentReady(e, n, st);
    var seg := e.segments[Order(e.segments)[n]];
    var (f, c) := Open(Prepared(e), st, seg);
    RoomyFits(e.cls, f, c, seg.sections);
    ReadyStart(e.cls, f, c, seg.sections);
  }

  lemma ReadyStart(cls: ElfClass, f: Frame, c: Cursor, list: seq<nat>)
    requires RoomyReady(cls, f, c, list)
    ensures f.start <= c.pos < cls.Limit()
  {
  }

  /** Reach and room depend on the listed sections only. */
  lemma {:induction false} SameReach(secs: seq<SectionState>, secs': seq<SectionState>, vaddr: nat, list: seq<nat>,
      from: nat)
    requires |secs'| == |secs| && Within(list, |secs|)
    requires forall j :: 0 <= j < |list| ==> secs'[list[j]] == secs[list[j]]
    ensures Reach(secs', vaddr, list, from) == Reach(secs, vaddr, list, from)
    ensures Roomy(secs', vaddr, list, from) == Roomy(secs, vaddr, list, from)
  {
    if list != [] {
      SameReach(secs, secs', vaddr, list[..|list| - 1], from);
    }
  }

  /** The first n segments fit, and stay within their costs. */
  ghost predicate Afforded(e: Elf, n: nat) {
    LaidAt(e, n) && WithinBudget(e, n) && forall m :: 0 <= m < n ==> FitsAt(e, m)
  }

  lemma NoneAfforded(e: Elf)
    requires WellFormed(e)
    ensures Afforded(e, 0)
  {
    InitiallyLaid(e);
    assert Order(e.segments)[..0] == [];
  }

  lemma {:induction false} SegmentsAfford(e: Elf, n: nat)
    requires Affordable(e) && n <= |e.segments|
    ensures Afforded(e, n)
  {
    hide LaidAt, WithinBudget, FitsAt, Composed, Bound, Laminar, SegShape;
    if n == 0 {
      NoneAfforded(e);
    } else {
      SegmentsAfford(e, n - 1);
      OneMoreAfforded(e, n - 1);
    }
  }

  lemma OneMoreAfforded(e: Elf, n: nat)
    requires Affordable(e) && n < |e.segments| && Afforded(e, n)
    ensures Afforded(e, n + 1)
  {
    BoundGrows(e, n + 1, |e.segments|);
    TurnAffords(e, n);
    OneMore(e, n);
  }

  lemma TurnAffords(e: Elf, n: nat)
    requires Affordable(e) && n < |e.segments| && LaidAt(e, n) && WithinBudget(e, n)
    requires Bound(e, n + 1) <= Bound(e, |e.segments|)
    ensures FitsAt(e, n) && WithinBudget(e, n + 1)
  {
    hide Order, Laminar, TopLevel, Laid, Layout.PlaceSegment, SegmentFits;
    StateStep(e, n);
    var st, k := StateAt(e, n), Order(e.segments)[n];
    assert Composed(e, n);
    if e.segments[k].sections == [] {
      EmptyAffords(e, n, st);
    } else if TopLevel(e, n) {
      SegmentAffords(e, n, st);
    } else {
      NestedAffords(e, n, st);
    }
  }

  lemma EmptyAffords(e: Elf, n: nat, st: LayState)
    requires WellFormed(e) && n < |e.segments| && LayOk(st) && Laid(e, n, st)
    requires e.segments[Order(e.segments)[n]].sections == []
    ensures SegmentFits(e.cls, Prepared(e), st, Order(e.segments)[n])
    ensures PlaceSegment(e.cls, Prepared(e), st, Order(e.segments)[n]).pos == st.pos
  {
    assert st.segs[Order(e.segments)[n]] == e.segments[Order(e.segments)[n]];
    TableBounds(e);
    EmptySegment(e.cls, Prepared(e), st, Order(e.segments)[n]);
  }

  lemma NestedAffords(e: Elf, n: nat, st: LayState)
    requires WellFormed(e) && n < |e.segments| && LayOk(st) && Laid(e, n, st) && !TopLevel(e, n)
    requires e.segments[Order(e.segments)[n]].sections != []
    ensures SegmentFits(e.cls, Prepared(e), st, Order(e.segments)[n])
    ensures PlaceSegment(e.cls, Prepared(e), st, Order(e.segments)[n]).pos == st.pos
  {
    var k := Order(e.segments)[n];
    assert st.segs[k] == e.segments[k];
    TypesKept(e, n, st);
    NestedStands(e, n, st);
    assert st.gen[e.segments[k].sections[0]];
    NestedSegment(e.cls, Prepared(e), st, k);
  }

  // ----- the other sections

  lemma {:induction false} LooseAffords(cls: ElfClass, st: LayState, secs: seq<SectionState>, n: nat)
    requires n <= |st.secs| == |secs| && Frozen.AllMoved(secs, st.secs)
    requires st.pos + LooseCost(secs, |secs|) < cls.Limit()
    ensures LooseAfforded(cls, st, secs, n)
  {
    if n > 0 {
      hide LooseAfforded;
      LooseAffords(cls, st, secs, n - 1);
      LooseCostsGrow(secs, n);
      LooseAffordsMore(cls, st, secs, n - 1);
    }
  }

  lemma LooseAffordsMore(cls: ElfClass, st: LayState, secs: seq<SectionState>, n: nat)
    requires n < |st.secs| == |secs| && Frozen.AllMoved(secs, st.secs) && LooseAfforded(cls, st, secs, n)
    requires st.pos + LooseCost(secs, n + 1) < cls.Limit()
    ensures LooseAfforded(cls, st, secs, n + 1)
  {
    hide LooseFitsAt, PlaceLoose;
    Frozen.LoosePassMoves(cls, st, n);
    assert st.secs[n].Moved(PlaceLooseUpTo(cls, st, n).secs[n]) && secs[n].Moved(st.secs[n]);
    OneMoreLoose(cls, PlaceLooseUpTo(cls, st, n), secs, n, st.pos + LooseCost(secs, n));
  }

  predicate LooseAfforded(cls: ElfClass, st: LayState, secs: seq<SectionState>, n: nat) {
    && n <= |st.secs| == |secs|
    && PlaceLooseUpTo(cls, st, n).pos <= st.pos + LooseCost(secs, n)
    && forall m :: 0 <= m < n ==> LooseFitsAt(cls, PlaceLooseUpTo(cls, st, m), m)
  }

  lemma OneMoreLoose(cls: ElfClass, st: LayState, secs: seq<SectionState>, i: nat, spent: nat)
    requires i < |st.secs| == |secs| && st.pos <= spent
    requires st.secs[i].hdr.size == secs[i].hdr.size && st.secs[i].hdr.addrAlign == secs[i].hdr.addrAlign
    requires spent + secs[i].hdr.addrAlign + secs[i].hdr.size < cls.Limit()
    ensures LooseFitsAt(cls, st, i)
    ensures PlaceLoose(cls, st, i).pos <= spent + secs[i].hdr.addrAlign + secs[i].hdr.size
  {
    assert cls.Limit() <= U64;
  }

  lemma {:induction false} LooseCostsGrow(secs: seq<SectionState>, n: nat)
    requires n <= |secs|
    ensures LooseCost(secs, n) <= LooseCost(secs, |secs|)
    decreases |secs| - n
  {
    if n < |secs| {
      LooseCostsGrow(secs, n + 1);
    }
  }

  /** What a caller can check beforehand is enough: an affordable object fits. */
  lemma AffordableFits(e: Elf)
    requires Affordable(e)
    ensures Fitting(e)
  {
    hide Composed, StateAt, AfterSegments, Laminar, SegShape, PlaceLooseUpTo, Laid;
    SegmentsAfford(e, |e.segments|);
    Frozen.AllStates(e);
    AllAffordRest(e, AfterSegments(e));
  }

  /** Behind the segments there is room for the other sections and the table. */
  lemma AllAffordRest(e: Elf, st: LayState)
    requires Affordable(e) && LayOk(st) && Laid(e, |e.segments|, st) && st.pos <= Bound(e, |e.segments|)
    ensures LooseFits(e.cls, st)
    ensures PlaceLooseUpTo(e.cls, st, |e.sections|).pos + 4 <= e.cls.Limit()
  {
    hide Composed, Bound, Laminar, SegShape;
    TypesKept(e, |e.segments|, st);
    LooseAffords(e.cls, st, e.sections, |e.sections|);
  }

  // ----- a sum that does not depend on the order

  /** What segment k takes from the file at most. */
  function Cost(e: Elf, k: nat): nat
    requires ElfOk(e) && k < |e.segments|
  {
    e.segments[k].hdr.align + Reach(e.sections, e.segments[k].hdr.vaddr, e.segments[k].sections, 0)
  }

  function Costs(e: Elf): (costs: seq<nat>)
    requires ElfOk(e)
    ensures |costs| == |e.segments| && forall k :: 0 <= k < |costs| ==> costs[k] == Cost(e, k)
  {
    seq(|e.segments|, k requires 0 <= k < |e.segments| => Cost(e, k))
  }

  /** The sum of the listed costs. */
  function SumOf(costs: seq<nat>, list: seq<nat>): nat
    requires Within(list, |costs|)
  {
    if list == [] then 0 else SumOf(costs, list[..|list| - 1]) + costs[list[|list| - 1]]
  }

  /** What all segments take at most. */
  function TotalCost(e: Elf): nat
    requires ElfOk(e)
  {
    SumOf(Costs(e), Ordering.Range(|e.segments|))
  }

  /** What the first n segments of the computed order take at most. */
  function CostUpTo(e: Elf, n: nat): nat
    requires ElfOk(e) && n <= |e.segments|
  {
    SumOf(Costs(e), Order(e.segments)[..n])
  }

  lemma {:induction false} SumWithout(costs: seq<nat>, list: seq<nat>, j: nat)
    requires Within(list, |costs|) && j < |list|
    ensures SumOf(costs, list) == SumOf(costs, list[..j] + list[j + 1..]) + costs[list[j]]
  {
    var last := |list| - 1;
    if j == last {
      assert list[..j] + list[j + 1..] == list[..last];
    } else {
      SumWithout(costs, list[..last], j);
      var rest := list[..j] + list[j + 1..];
      assert rest[..|rest| - 1] == list[..last][..j] + list[..last][j + 1..];
    }
  }

  /** The sum does not depend on the order. */
  lemma {:induction false} SumPermutes(costs: seq<nat>, a: seq<nat>, b: seq<nat>)
    requires Within(a, |costs|) && Within(b, |costs|) && multiset(a) == multiset(b)
    ensures SumOf(costs, a) == SumOf(costs, b)
    decreases |a|
  {
    if a == [] {
      assert |multiset(b)| == 0;
    } else {
      assert a[|a| - 1] in multiset(b);
      var j :| 0 <= j < |b| && b[j] == a[|a| - 1];
      SameRest(a, b, j);
      SumPermutes(costs, a[..|a| - 1], b[..j] + b[j + 1..]);
      SumWithout(costs, b, j);
    }
  }

  lemma SameRest(a: seq<nat>, b: seq<nat>, j: nat)
    requires multiset(a) == multiset(b) && a != [] && j < |b| && b[j] == a[|a| - 1]
    ensures multiset(a[..|a| - 1]) == multiset(b[..j] + b[j + 1..])
  {
    assert a == a[..|a| - 1] + [b[j]];
    assert b == b[..j] + [b[j]] + b[j + 1..];
    assert multiset(a[..|a| - 1]) == multiset(a) - multiset{b[j]};
    assert multiset(b[..j] + b[j + 1..]) == multiset(b) - multiset{b[j]};
  }

  lemma SumOfTwo(costs: seq<nat>, most: nat)
    requires |costs| <= 2 && forall k :: 0 <= k < |costs| ==> costs[k] <= most
    ensures SumOf(costs, Ordering.Range(|costs|)) <= 2 * most
  {
    var all := Ordering.Range(|costs|);
    if |costs| == 1 {
      assert all[..0] == [] && SumOf(costs, all[..0]) == 0;
    } else if |costs| == 2 {
      var init := all[..1];
      assert init[..0] == [] && SumOf(costs, init[..0]) == 0;
      assert SumOf(costs, init) == costs[0];
    }
  }

  lemma {:induction false} SumGrows(costs: seq<nat>, list: seq<nat>, n: nat)
    requires Within(list, |costs|) && n <= |list|
    ensures SumOf(costs, list[..n]) <= SumOf(costs, list)
  {
    if n == |list| {
      assert list[..n] == list;
    } else {
      assert list[..|list| - 1][..n] == list[..n];
      SumGrows(costs, list[..|list| - 1], n);
    }
  }

  /** The first segments of the order cost no more than all segments. */
  lemma CostsGrow(e: Elf, n: nat)
    requires ElfOk(e) && n <= |e.segments|
    ensures CostUpTo(e, n) <= TotalCost(e)
  {
    Ordering.OrderedIsTopological(Lists(e.segments), Zeros(e.segments));
    SumGrows(Costs(e), Order(e.segments), n);
    SumPermutes(Costs(e), Order(e.segments), Ordering.Range(|e.segments|));
  }

  lemma CostStep(e: Elf, n: nat)
    requires ElfOk(e) && n < |e.segments|
    ensures CostUpTo(e, n + 1) == CostUpTo(e, n) + Cost(e, Order(e.segments)[n])
  {
    assert Order(e.segments)[..n + 1][..n] == Order(e.segments)[..n];
  }

  /** Segment k begins with a section proper, has its addresses in order, and does not overflow. */
  predicate Plain(e: Elf, k: nat)
    requires ElfOk(e) && k < |e.segments|
  {
    var seg := e.segments[k];
    seg.sections != [] ==>
      && !StartsWithNull(seg, e.sections) && 2 * seg.hdr.align <= U64
      && Roomy(e.sections, seg.hdr.vaddr, seg.sections, 0) && NobitsSmall(e.cls, e.sections, seg.sections)
      && seg.hdr.vaddr + Reach(e.sections, seg.hdr.vaddr, seg.sections, 0) < e.cls.Limit()
  }

  /** Well-formed and plain segments, with a total below the class's limit. */
  predicate Cheap(e: Elf) {
    && WellFormed(e) && (forall k {:trigger Plain(e, k)} :: 0 <= k < |e.segments| ==> Plain(e, k))
    && Base(e) + TotalCost(e) + LooseCost(e.sections, |e.sections|) + 4 < e.cls.Limit()
  }

  lemma {:induction false} BoundWithinCosts(e: Elf, n: nat)
    requires ElfOk(e) && n <= |e.segments| && forall k {:trigger Plain(e, k)} :: 0 <= k < |e.segments| ==> Plain(e, k)
    ensures Bound(e, n) <= Base(e) + CostUpTo(e, n)
  {
    hide Order, TopLevel, Reach, Roomy;
    if n == 0 {
    } else {
      BoundWithinCosts(e, n - 1);
      CostStep(e, n - 1);
      assert Plain(e, Order(e.segments)[n - 1]);
    }
  }

  /** Without segments that begin with the null section, the sum of all costs decides, in any order. */
  lemma CheapIsAffordable(e: Elf)
    requires Cheap(e)
    ensures Affordable(e)
  {
    hide Order, TopLevel, Reach, Roomy, Laminar, SegShape, TotalCost, CostUpTo;
    BoundWithinCosts(e, |e.segments|);
    CostsGrow(e, |e.segments|);
    forall n | 0 <= n < |e.segments|
      ensures Composed(e, n)
    {
      assert Plain(e, Order(e.segments)[n]);
    }
  }
}
