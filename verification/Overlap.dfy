/** What the layout does with addresses that leave no room: where the sections of a segment go then, and
    exactly when they overlap in the file. Nothing here assumes that anything fits. */
module Overlap {
  import opened Arith
  import opened ElfTypes
  import opened ElfState
  import opened Layout
  import opened FreshRun
  import opened SegmentPass
  import opened SegmentOrder
  import opened LayoutPass
  import opened Budget
  import Frozen
  import Ordering
  import WalkAgain

  // ----- what a run touches, with or without room

  /** After n segments: the sections of treated segments are generated, the others untouched, and so are
      the segments whose turn has not come. */
  ghost predicate Touched(e: Elf, n: nat, i: nat)
    requires ElfOk(e) && n <= |e.segments| && i < |e.sections|
  {
    var st, order := StateAt(e, n), Order(e.segments);
    && (st.gen[i] <==> InSome(Lists(e.segments), order[..n], i))
    && (!st.gen[i] ==> st.secs[i] == e.sections[i])
    && (forall m :: 0 <= m < |e.segments| ==> st.segs[m].sections == e.segments[m].sections)
    && (forall p :: n <= p < |e.segments| ==> st.segs[order[p]] == e.segments[order[p]])
  }

  lemma {:induction false} RunTouches(e: Elf, n: nat, i: nat)
    requires ElfOk(e) && n <= |e.segments| && i < |e.sections|
    ensures Touched(e, n, i)
  {
    if n == 0 {
      assert Order(e.segments)[..0] == [];
    } else {
      RunTouches(e, n - 1, i);
      TurnTouches(e, n - 1, i);
    }
  }

  lemma TurnTouches(e: Elf, n: nat, i: nat)
    requires ElfOk(e) && n < |e.segments| && i < |e.sections| && Touched(e, n, i)
    ensures Touched(e, n + 1, i)
  {
    hide StateAt, PlaceAll, Open;
    var st, order := StateAt(e, n), Order(e.segments);
    StateStep(e, n);
    OrderFacts(e.segments);
    InSomeStep(Lists(e.segments), order, n, i);
    SegmentTouches(e.cls, Prepared(e), st, order[n], i);
  }

  lemma SegmentTouches(cls: ElfClass, h: Ehdr, st: LayState, k: nat, i: nat)
    requires LayOk(st) && k < |st.segs| && i < |st.secs|
    ensures var r := PlaceSegment(cls, h, st, k);
            && (r.gen[i] <==> st.gen[i] || i in st.segs[k].sections)
            && (i !in st.segs[k].sections ==> r.secs[i] == st.secs[i])
            && r.segs == st.segs[k := r.segs[k]] && r.segs[k].sections == st.segs[k].sections
  {
    var (f, c) := Open(h, st, st.segs[k]);
    Frozen.WalkTouches(cls, f, c, st.segs[k].sections, i);
  }

  /** Where a section of a segment stands after the segment's turn, it stays. */
  lemma TurnIsLast(e: Elf, p: nat, i: nat)
    requires ElfOk(e) && p < |e.segments| && i < |e.sections| && i in e.segments[Order(e.segments)[p]].sections
    ensures LaidOut(e).sections[i] == StateAt(e, p + 1).secs[i]
  {
    hide StateAt, PlaceAll, Open, PlaceLooseUpTo;
    RunTouches(e, p + 1, i);
    RunTouches(e, |e.segments|, i);
    InSomeStep(Lists(e.segments), Order(e.segments), p, i);
    assert StateAt(e, p + 1).gen[i];
    Frozen.StateKeeps(e, p + 1, |e.segments|, i);
    Frozen.AllStates(e);
    assert !IsLoose(AfterSegments(e).segs, i);
    Frozen.LooseKeeps(e.cls, AfterSegments(e), 0, |e.sections|, i);
    FirstLoose(e.cls, AfterSegments(e));
  }

  lemma FirstLoose(cls: ElfClass, st: LayState)
    ensures PlaceLooseUpTo(cls, st, 0) == st
  {
  }

  // ----- where an addressed section goes

  /** The section has an address and bytes. */
  predicate Pinned(s: SectionState) {
    s.addressSet && s.Occupies()
  }

  /** The skip before an addressed section is the distance to its place, even where that is negative. */
  lemma PinnedSkip(f: Frame, c: Cursor, i: nat)
    requires c.Has(i) && !c.gen[i] && Pinned(c.secs[i])
    ensures SecAlign(f, c, i) == Wrap((c.secs[i].hdr.addr - f.vaddr) - (c.pos - f.start))
  {
    var req, cur := c.secs[i].hdr.addr - f.vaddr, c.pos - f.start;
    WrapAdd(-cur, req);
    WrapOfDifference(Wrap(req), cur);
  }

  /** Whatever the cursor, the turn of an addressed section puts it at the start plus its distance. */
  lemma PinnedTurn(cls: ElfClass, f: Frame, c: Cursor, i: nat)
    requires c.Has(i) && !c.gen[i] && Pinned(c.secs[i]) && c.secs[i].index != 0
    ensures PlaceOne(cls, f, c, i).secs[i] ==
              c.secs[i].WithOffset(cls.Trunc(Wrap(f.start + c.secs[i].hdr.addr - f.vaddr)))
  {
    PinnedSkip(f, c, i);
    WrapAdd(c.pos, (c.secs[i].hdr.addr - f.vaddr) - (c.pos - f.start));
  }

  /** In particular, it is placed behind the cursor exactly if its address leaves room for what the segment
      holds already. */
  lemma BehindCursor(cls: ElfClass, f: Frame, c: Cursor, i: nat)
    requires c.Has(i) && !c.gen[i] && Pinned(c.secs[i]) && c.secs[i].index != 0
    requires f.start <= c.pos < cls.Limit() && 0 <= f.start + c.secs[i].hdr.addr - f.vaddr < cls.Limit()
    ensures c.pos <= PlaceOne(cls, f, c, i).secs[i].hdr.offset <==> f.vaddr + (c.pos - f.start) <= c.secs[i].hdr.addr
  {
    assert cls.Limit() <= U64;
    PinnedTurn(cls, f, c, i);
  }

  lemma WrapOfDifference(x: int, y: int)
    ensures Wrap(x - Wrap(y)) == Wrap(x - y)
  {
    var k := y / U64;
    assert y == k * U64 + y % U64;
    WrapIsMod(y);
    assert x - Wrap(y) == (x - y) + k * U64;
    ModShift(x - y, k, U64);
    WrapIsMod(x - y);
    WrapIsMod(x - Wrap(y));
  }

  lemma {:induction false} PinnedWalk(cls: ElfClass, f: Frame, c: Cursor, list: seq<nat>, m: nat)
    requires |c.gen| == |c.secs| && Within(list, |c.secs|) && Ordering.Sorted(list) && Indexed(c.secs)
    requires m < |list| && !c.gen[list[m]] && Pinned(c.secs[list[m]])
    ensures var s := c.secs[list[m]];
            PlaceAll(cls, f, c, list).secs[list[m]] == s.WithOffset(cls.Trunc(Wrap(f.start + s.hdr.addr - f.vaddr)))
  {
    var init := list[..|list| - 1];
    if m < |init| {
      PinnedWalk(cls, f, c, init, m);
      Frozen.PrefixKept(cls, f, c, list, m);
    } else {
      assert list[m] !in init;
      Frozen.WalkTouches(cls, f, c, init, list[m]);
      PinnedTurn(cls, f, PlaceAll(cls, f, c, init), list[m]);
    }
  }

  /** Truncation to the class's width can be done before or after the 64-bit one. */
  lemma TruncOfWrap(cls: ElfClass, start: nat, d: int)
    requires 0 <= cls.Trunc(start) + d < cls.Limit()
    ensures cls.Trunc(Wrap(start + d)) == cls.Trunc(start) + d
  {
    var m, t := cls.Limit(), cls.Trunc(start);
    TruncIsMod(cls, start);
    var k := start / m;
    assert start == k * m + t;
    WrapIsMod(start + d);
    TruncIsMod(cls, Wrap(start + d));
    WrapThenMod(cls, start + d);
    assert start + d == (t + d) + k * m;
    ModShift(t + d, k, m);
    ModOfSmall(t + d, m);
  }

  lemma TruncIsMod(cls: ElfClass, v: nat)
    ensures cls.Trunc(v) == v % cls.Limit()
  {
    if v < cls.Limit() {
      ModOfSmall(v, cls.Limit());
    }
  }

  lemma WrapThenMod(cls: ElfClass, v: int)
    ensures (v % U64) % cls.Limit() == v % cls.Limit()
  {
    var q := v / U64;
    assert v == q * U64 + v % U64;
    var k := if cls.Class32? then q * 0x1_0000_0000 else q;
    assert v == v % U64 + k * cls.Limit();
    ModShift(v % U64, k, cls.Limit());
  }

  /** Section a's place relative to segment k, in memory, fits behind the segment's start in the file. */
  predicate InRange(cls: ElfClass, seg: SegmentState, s: SectionState) {
    0 <= seg.hdr.offset + s.hdr.addr - seg.hdr.vaddr &&
        seg.hdr.offset + s.hdr.addr - seg.hdr.vaddr + s.hdr.size < cls.Limit()
  }

  lemma AllIndexed(e: Elf, p: nat)
    requires ElfOk(e) && Indexed(e.sections) && p <= |e.segments|
    ensures Indexed(StateAt(e, p).secs)
  {
    Frozen.SegmentPassMoves(e.cls, Prepared(e), InitialState(e), Order(e.segments)[..p]);
  }

  lemma PinnedInTurn(cls: ElfClass, h: Ehdr, st: LayState, k: nat, a: nat)
    requires LayOk(st) && k < |st.segs| && a < |st.secs| && Indexed(st.secs)
    requires Ordering.Sorted(st.segs[k].sections) && a in st.segs[k].sections && !st.gen[a] && Pinned(st.secs[a])
    ensures var start := Open(h, st, st.segs[k]).0.start;
            PlaceSegment(cls, h, st, k).secs[a] ==
              st.secs[a].WithOffset(cls.Trunc(Wrap(start + st.secs[a].hdr.addr - st.segs[k].hdr.vaddr)))
  {
    var (f, c) := Open(h, st, st.segs[k]);
    var list := st.segs[k].sections;
    var m :| 0 <= m < |list| && list[m] == a;
    PinnedWalk(cls, f, c, list, m);
  }

  lemma ShiftInRange(cls: ElfClass, seg: SegmentState, start: nat, s: SectionState)
    requires seg.hdr.offset == cls.Trunc(start) && InRange(cls, seg, s)
    ensures cls.Trunc(Wrap(start + s.hdr.addr - seg.hdr.vaddr)) == seg.hdr.offset + s.hdr.addr - seg.hdr.vaddr
  {
    TruncOfWrap(cls, start, s.hdr.addr - seg.hdr.vaddr);
  }

  /** In the finished layout an addressed section stands as far behind the start of the segment that placed
      it as in memory, whether there was room for it or not. */
  lemma PinnedPlace(e: Elf, p: nat, a: nat)
    requires ElfOk(e) && Indexed(e.sections) && p < |e.segments| && TopLevel(e, p)
    requires var seg := e.segments[Order(e.segments)[p]];
             Ordering.Sorted(seg.sections) && a in seg.sections && a < |e.sections| && Pinned(e.sections[a])
    requires |LaidOut(e).segments| == |e.segments|
    requires InRange(e.cls, LaidOut(e).segments[Order(e.segments)[p]], e.sections[a])
    ensures var f := LaidOut(e);
            var seg := f.segments[Order(e.segments)[p]];
            f.sections[a] == e.sections[a].WithOffset(seg.hdr.offset + e.sections[a].hdr.addr - seg.hdr.vaddr)
  {
    hide LaidOut, StateAt, PlaceAll, InRange;
    var k, st := Order(e.segments)[p], StateAt(e, p);
    RunTouches(e, p, a);
    assert !st.gen[a] && st.secs[a] == e.sections[a] && st.segs[k] == e.segments[k];
    StateStep(e, p);
    Frozen.DoneIsFinal(e, p);
    TurnIsLast(e, p, a);
    AllIndexed(e, p);
    PinnedInTurn(e.cls, Prepared(e), st, k, a);
    var start := Open(Prepared(e), st, st.segs[k]).0.start;
    ShiftInRange(e.cls, LaidOut(e).segments[k], start, e.sections[a]);
  }

  // ----- overlap in the file and in memory

  predicate FileApart(s: SectionState, t: SectionState) {
    s.End() <= t.hdr.offset || t.End() <= s.hdr.offset
  }

  predicate MemoryApart(s: SectionState, t: SectionState) {
    s.hdr.addr + s.hdr.size <= t.hdr.addr || t.hdr.addr + t.hdr.size <= s.hdr.addr
  }

  /** Two addressed sections of a segment overlap in the file exactly if their addresses overlap: the
      layout neither notices nor mends it. */
  lemma OverlapAlike(e: Elf, p: nat, a: nat, b: nat)
    requires ElfOk(e) && Indexed(e.sections) && p < |e.segments| && TopLevel(e, p)
    requires var seg := e.segments[Order(e.segments)[p]];
             && Ordering.Sorted(seg.sections) && a in seg.sections && b in seg.sections
             && a < |e.sections| && b < |e.sections| && Pinned(e.sections[a]) && Pinned(e.sections[b])
    requires |LaidOut(e).segments| == |e.segments|
    requires InRange(e.cls, LaidOut(e).segments[Order(e.segments)[p]], e.sections[a])
    requires InRange(e.cls, LaidOut(e).segments[Order(e.segments)[p]], e.sections[b])
    ensures |LaidOut(e).sections| == |e.sections|
    ensures FileApart(LaidOut(e).sections[a], LaidOut(e).sections[b]) <==> MemoryApart(e.sections[a], e.sections[b])
  {
    hide LaidOut, Order, TopLevel;
    PinnedPlace(e, p, a);
    PinnedPlace(e, p, b);
    Frozen.LayoutMoves(e);
  }

  // ----- how far the cursor can come, with or without room

  /** No section of the list has an address below vaddr. */
  predicate NoneBelow(secs: seq<SectionState>, vaddr: nat, list: seq<nat>)
    requires Within(list, |secs|)
  {
    forall j :: 0 <= j < |list| && Pinned(secs[list[j]]) ==> vaddr <= secs[list[j]].hdr.addr
  }

  /** An addressed section in reach goes to its place, and takes the cursor to its end. */
  lemma PinnedGoes(cls: ElfClass, f: Frame, c: Cursor, i: nat)
    requires c.Has(i) && !c.gen[i] && Pinned(c.secs[i]) && c.secs[i].index != 0
    requires f.vaddr <= c.secs[i].hdr.addr && f.start + c.secs[i].hdr.addr - f.vaddr + c.secs[i].hdr.size < cls.Limit()
    ensures var s, r := c.secs[i], PlaceOne(cls, f, c, i);
            var place := f.start + s.hdr.addr - f.vaddr;
            r.secs == c.secs[i := s.WithOffset(place)] && r.pos == place + s.hdr.size && |r.gen| == |c.gen|
  {
    assert cls.Limit() <= U64;
    PinnedSkip(f, c, i);
    WrapAdd(c.pos, (c.secs[i].hdr.addr - f.vaddr) - (c.pos - f.start));
  }

  /** Any other section goes behind the cursor. */
  lemma PaddedGoes(cls: ElfClass, f: Frame, c: Cursor, i: nat)
    requires c.Has(i) && !c.gen[i] && !c.secs[i].IsNull() && !Pinned(c.secs[i]) && c.secs[i].index != 0
    requires c.pos + c.secs[i].hdr.addrAlign + c.secs[i].hdr.size < cls.Limit()
    ensures var s, r := c.secs[i], PlaceOne(cls, f, c, i);
            && r.secs == c.secs[i := r.secs[i]] && s.Moved(r.secs[i]) && |r.gen| == |c.gen|
            && c.pos <= r.secs[i].hdr.offset <= r.secs[i].End() == r.pos <= c.pos + s.hdr.addrAlign + s.hdr.size
  {
    assert cls.Limit() <= U64;
  }

  /** One more section, placed wherever its address says, or padded behind the cursor. */
  lemma TurnBounded(cls: ElfClass, f: Frame, c: Cursor, i: nat, before: nat, after: nat)
    requires c.Has(i) && !c.gen[i] && !c.secs[i].IsNull() && c.secs[i].index != 0
    requires c.pos <= f.start + before && before <= after && f.start + after < cls.Limit()
    requires var s := c.secs[i];
             if Pinned(s) then f.vaddr <= s.hdr.addr && s.hdr.addr - f.vaddr + s.hdr.size <= after
             else after == before + s.hdr.addrAlign + s.hdr.size
    ensures PlaceOne(cls, f, c, i).pos <= f.start + after
  {
    hide PlaceOne;
    if Pinned(c.secs[i]) {
      PinnedGoes(cls, f, c, i);
    } else {
      PaddedGoes(cls, f, c, i);
    }
  }

  lemma {:induction false} WalkBounded(cls: ElfClass, f: Frame, c: Cursor, list: seq<nat>, from: nat)
    requires |c.gen| == |c.secs| && Within(list, |c.secs|) && Ordering.Sorted(list) && Indexed(c.secs)
    requires (forall j :: 0 <= j < |list| ==> !c.gen[list[j]]) && NoneBelow(c.secs, f.vaddr, list)
    requires c.pos <= f.start + from && f.start + Reach(c.secs, f.vaddr, list, from) < cls.Limit()
    ensures PlaceAll(cls, f, c, list).pos <= f.start + Reach(c.secs, f.vaddr, list, from)
  {
    if list != [] {
      var init, i := list[..|list| - 1], list[|list| - 1];
      WalkBounded(cls, f, c, init, from);
      var d := PlaceAll(cls, f, c, init);
      assert i !in init;
      Frozen.WalkTouches(cls, f, c, init, i);
      if !c.secs[i].IsNull() {
        TurnBounded(cls, f, d, i, Reach(c.secs, f.vaddr, init, from), Reach(c.secs, f.vaddr, list, from));
      }
    }
  }

  /** Addresses may overlap, but none lies below that of the segment that places the section, and the end
      of everything, counted from addresses and sizes, is below the class's limit. */
  predicate Bounded(e: Elf) {
    && WellFormed(e) && Bound(e, |e.segments|) < e.cls.Limit()
    && forall n :: 0 <= n < |e.segments| && TopLevel(e, n) ==>
         var seg := e.segments[Order(e.segments)[n]]; NoneBelow(e.sections, seg.hdr.vaddr, seg.sections)
  }

  /** The state after n segments, as far as the cursor is concerned. */
  predicate CursorAt(e: Elf, n: nat)
    requires ElfOk(e) && n <= |e.segments|
  {
    StateAt(e, n).pos <= Bound(e, n)
  }

  lemma {:induction false} CursorBounded(e: Elf, n: nat)
    requires Bounded(e) && n <= |e.segments|
    ensures CursorAt(e, n)
  {
    hide Laminar, SegShape, Order, TopLevel;
    if n == 0 {
      NoSegments(e);
    } else {
      CursorBounded(e, n - 1);
      CursorTurn(e, n - 1);
    }
  }

  lemma NoSegments(e: Elf)
    requires ElfOk(e)
    ensures StateAt(e, 0) == InitialState(e)
  {
    assert Order(e.segments)[..0] == [];
  }

  /** When its turn comes a segment is as it was, and so are its sections if it is the first to have them. */
  lemma TurnFinds(e: Elf, n: nat)
    requires WellFormed(e) && n < |e.segments|
    ensures var st, k := StateAt(e, n), Order(e.segments)[n];
            && st.segs[k] == e.segments[k] && Indexed(st.secs)
            && forall j :: 0 <= j < |e.segments[k].sections| ==>
                 var i := e.segments[k].sections[j];
                 if TopLevel(e, n) then !st.gen[i] && st.secs[i] == e.sections[i] else st.gen[i]
  {
    hide Laminar, SegShape, StateAt, Indexed;
    var k, st := Order(e.segments)[n], StateAt(e, n);
    AllIndexed(e, n);
    RunTouches(e, n, 0);
    forall j | 0 <= j < |e.segments[k].sections|
      ensures var i := e.segments[k].sections[j];
              if TopLevel(e, n) then !st.gen[i] && st.secs[i] == e.sections[i] else st.gen[i]
    {
      var i := e.segments[k].sections[j];
      assert i in e.segments[k].sections;
      RunTouches(e, n, i);
      if !TopLevel(e, n) {
        AllShared(e, n, i);
      }
    }
  }

  lemma AllShared(e: Elf, n: nat, i: nat)
    requires WellFormed(e) && n < |e.segments| && !TopLevel(e, n) && i in e.segments[Order(e.segments)[n]].sections
    ensures InSome(Lists(e.segments), Order(e.segments)[..n], i)
  {
    OrderFacts(e.segments);
    AllOrNone(Lists(e.segments), Order(e.segments), n);
  }

  lemma CursorTurn(e: Elf, n: nat)
    requires Bounded(e) && n < |e.segments| && CursorAt(e, n)
    ensures CursorAt(e, n + 1)
  {
    hide Laminar, SegShape, Order, TopLevel, StateAt, Reach, PlaceAll, Open;
    var k, st := Order(e.segments)[n], StateAt(e, n);
    var list := e.segments[k].sections;
    StateStep(e, n);
    TurnFinds(e, n);
    BoundGrows(e, n + 1, |e.segments|);
    var (f, c) := Open(Prepared(e), st, st.segs[k]);
    if TopLevel(e, n) && list != [] {
      PlacerStart(e, n);
      SegmentIsSorted(e, k);
      WalkBounded(e.cls, f, c, list, Lead(e, n));
    } else {
      CursorStays(e.cls, Prepared(e), st, k);
    }
  }

  lemma SegmentIsSorted(e: Elf, k: nat)
    requires WellFormed(e) && k < |e.segments|
    ensures Ordering.Sorted(e.segments[k].sections)
  {
    assert SegShape(e.sections, e.segments[k]);
  }

  lemma CursorStays(cls: ElfClass, h: Ehdr, st: LayState, k: nat)
    requires LayOk(st) && k < |st.segs| && forall j :: 0 <= j < |st.segs[k].sections| ==> st.gen[st.segs[k].sections[j]]
    ensures PlaceSegment(cls, h, st, k).pos == st.pos
  {
    hide PlaceAll;
    var (f, c) := Open(h, st, st.segs[k]);
    WalkAgain.VisitsOnly(cls, f, c, st.segs[k].sections);
  }

  lemma NothingMoves(cls: ElfClass, h: Ehdr, st: LayState, k: nat)
    requires LayOk(st) && k < |st.segs| && forall j :: 0 <= j < |st.segs[k].sections| ==> st.gen[st.segs[k].sections[j]]
    ensures var r := PlaceSegment(cls, h, st, k); r.secs == st.secs && r.gen == st.gen
  {
    var (f, c) := Open(h, st, st.segs[k]);
    var r := PlaceSegment(cls, h, st, k);
    forall i | 0 <= i < |st.secs|
      ensures r.secs[i] == st.secs[i] && r.gen[i] == st.gen[i]
    {
      Frozen.WalkTouches(cls, f, c, st.segs[k].sections, i);
      if i in st.segs[k].sections {
        Frozen.WalkKeeps(cls, f, c, st.segs[k].sections, i);
      }
    }
  }

  /** Where a segment that places its sections starts, and what its reach is measured from. */
  lemma PlacerStart(e: Elf, n: nat)
    requires Bounded(e) && n < |e.segments| && CursorAt(e, n) && TopLevel(e, n)
    requires e.segments[Order(e.segments)[n]].sections != []
    ensures var k, st := Order(e.segments)[n], StateAt(e, n);
            var (f, c) := Open(Prepared(e), st, st.segs[k]);
            var reach := Reach(e.sections, e.segments[k].hdr.vaddr, e.segments[k].sections, Lead(e, n));
            && st.pos <= c.pos <= f.start + Lead(e, n) && f.start + reach <= Bound(e, n + 1) < e.cls.Limit()
            && Reach(c.secs, f.vaddr, e.segments[k].sections, Lead(e, n)) == reach
            && NoneBelow(c.secs, f.vaddr, e.segments[k].sections)
  {
    hide Laminar, SegShape, Order, TopLevel, StateAt, Reach, Open, Indexed, Bound, NoneBelow, StartsWithNull;
    var k, st := Order(e.segments)[n], StateAt(e, n);
    var list, vaddr := e.segments[k].sections, e.segments[k].hdr.vaddr;
    TurnFinds(e, n);
    BoundGrows(e, n + 1, |e.segments|);
    BoundStep(e, n);
    assert e.cls.Limit() <= U64;
    SameReach(e.sections, st.secs, vaddr, list, Lead(e, n));
    SameFirst(e.segments[k], st.secs, e.sections);
    SameNoneBelow(e.sections, st.secs, vaddr, list);
    OpenStart(Prepared(e), st, st.segs[k]);
  }

  lemma BoundStep(e: Elf, n: nat)
    requires ElfOk(e) && n < |e.segments| && TopLevel(e, n) && e.segments[Order(e.segments)[n]].sections != []
    ensures var seg := e.segments[Order(e.segments)[n]];
            Bound(e, n + 1) == (if StartsWithNull(seg, e.sections) then 0 else Bound(e, n) + seg.hdr.align) +
                               Reach(e.sections, seg.hdr.vaddr, seg.sections, Lead(e, n))
  {
    hide Order, TopLevel, Reach;
  }

  lemma SameNoneBelow(secs: seq<SectionState>, secs': seq<SectionState>, vaddr: nat, list: seq<nat>)
    requires |secs'| == |secs| && Within(list, |secs|) && NoneBelow(secs, vaddr, list)
    requires forall j :: 0 <= j < |list| ==> secs'[list[j]] == secs[list[j]]
    ensures NoneBelow(secs', vaddr, list)
  {
  }

  /** A segment with new sections starts at 0 or less than its alignment behind the cursor. */
  lemma OpenStart(h: Ehdr, st: LayState, seg: SegmentState)
    requires |st.gen| == |st.secs| && SegmentOk(seg, |st.secs|) && StartsNew(seg, st.gen)
    requires StartsWithNull(seg, st.secs) || st.pos + seg.hdr.align < U64
    ensures var (f, c) := Open(h, st, seg);
            if StartsWithNull(seg, st.secs) then f.start == 0 && c.pos == st.pos
            else f.start == c.pos && st.pos <= c.pos < st.pos + seg.hdr.align
  {
  }

  lemma SameFirst(seg: SegmentState, secs: seq<SectionState>, secs': seq<SectionState>)
    requires |secs| == |secs'| && Within(seg.sections, |secs|)
    requires forall j :: 0 <= j < |seg.sections| ==> secs[seg.sections[j]] == secs'[seg.sections[j]]
    ensures StartsWithNull(seg, secs) == StartsWithNull(seg, secs')
  {
  }

  /** So addressed sections of a bounded object are in range. */
  lemma BoundedInRange(e: Elf, p: nat, a: nat)
    requires Bounded(e) && p < |e.segments| && TopLevel(e, p)
    requires a in e.segments[Order(e.segments)[p]].sections && a < |e.sections| && Pinned(e.sections[a])
    ensures |LaidOut(e).segments| == |e.segments|
    ensures InRange(e.cls, LaidOut(e).segments[Order(e.segments)[p]], e.sections[a])
  {
    hide Laminar, SegShape, Order, TopLevel, StateAt, Reach, LaidOut, PlaceAll, Open;
    var k, st := Order(e.segments)[p], StateAt(e, p);
    var list := e.segments[k].sections;
    CursorBounded(e, p);
    PlacerStart(e, p);
    TurnFinds(e, p);
    StateStep(e, p);
    Frozen.DoneIsFinal(e, p);
    Frozen.LayoutMoves(e);
    StoredFields(e.cls, Prepared(e), st, k);
    var j :| 0 <= j < |list| && list[j] == a;
    AddressesWithinReach(e.sections, e.segments[k].hdr.vaddr, list, Lead(e, p), j);
  }

  /** Any two of the sections that are not null and not the same. */
  predicate TwoOf(secs: seq<SectionState>, list: seq<nat>, a: nat, b: nat) {
    a in list && b in list && a != b && NonNull(secs, a) && NonNull(secs, b)
  }

  /** In a segment whose sections all have addresses and bytes, no two overlap in the file exactly if no
      two of the addresses its user gave overlap. */
  lemma OverlapDecided(e: Elf, p: nat)
    requires Bounded(e) && p < |e.segments| && TopLevel(e, p)
    requires forall a :: a in e.segments[Order(e.segments)[p]].sections && NonNull(e.sections, a) ==>
               Pinned(e.sections[a])
    ensures |LaidOut(e).sections| == |e.sections|
    ensures var f, list := LaidOut(e), e.segments[Order(e.segments)[p]].sections;
            (forall a: nat, b: nat :: TwoOf(e.sections, list, a, b) ==> FileApart(f.sections[a], f.sections[b])) <==>
            (forall a: nat, b: nat :: TwoOf(e.sections, list, a, b) ==> MemoryApart(e.sections[a], e.sections[b]))
  {
    hide LaidOut, Order, TopLevel, Laminar, FileApart, MemoryApart;
    var list := e.segments[Order(e.segments)[p]].sections;
    Frozen.LayoutMoves(e);
    SegmentIsSorted(e, Order(e.segments)[p]);
    forall a: nat, b: nat | TwoOf(e.sections, list, a, b)
      ensures FileApart(LaidOut(e).sections[a], LaidOut(e).sections[b]) <==> MemoryApart(e.sections[a], e.sections[b])
    {
      BoundedInRange(e, p, a);
      BoundedInRange(e, p, b);
      OverlapAlike(e, p, a, b);
    }
  }
}
