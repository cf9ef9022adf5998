/** When laying out again what was read back changes nothing: exactly if the segments that place sections
    are treated in their old order, for objects in which these have bytes. */
module Reorder {
  import opened ElfTypes
  import opened ElfState
  import opened Layout
  import opened FreshRun
  import opened SegmentPass
  import opened SegmentOrder
  import opened LayoutPass
  import opened LayoutTheorems
  import opened Budget
  import opened WalkAgain
  import opened Relayout
  import opened FileFormat
  import opened SaveLoad
  import opened SaveRoundTrip
  import opened Reload
  import CursorTold
  import Frozen
  import Ordering
  import Overlap

  // ----- objects whose order can be seen in the file

  /** Every segment that nothing includes has bytes and a list of its own. */
  predicate Visible(e: Elf)
    requires ElfOk(e)
  {
    var lists := Lists(e.segments);
    forall k :: 0 <= k < |e.segments| && OutermostIn(lists, k) ==>
      && (exists a :: 0 <= a < |e.sections| && OwnsBytes(e, k, a))
      && (forall m :: 0 <= m < |e.segments| && m != k ==> lists[m] != lists[k])
  }

  lemma OutermostIsPlacer(e: Elf, g: Elf, k: nat)
    requires WellFormed(e) && Visible(e) && Lists(g.segments) == Lists(e.segments)
    ensures Placer(g, k) <==> OutermostIn(Lists(e.segments), k)
  {
    hide Placer, Order, Laminar, Steady, PlacesIn, OutermostIn;
    OrderIsSound(e);
    OrderFacts(g.segments);
    assert |g.segments| == |Lists(g.segments)| == |e.segments|;
    if k < |e.segments| {
      PlacerIsPlacing(g, k);
      if OutermostIn(Lists(e.segments), k) {
        OutermostPlaces(Lists(g.segments), Order(g.segments), k);
      }
      if PlacesIn(Lists(g.segments), Order(g.segments), k) {
        PlacesIsOutermost(Lists(g.segments), Order(g.segments), k);
      }
    } else {
      NeitherPlaces(e, g, k);
    }
  }

  lemma NeitherPlaces(e: Elf, g: Elf, k: nat)
    requires |g.segments| == |e.segments| <= k
    ensures !Placer(g, k) && !OutermostIn(Lists(e.segments), k)
  {
  }

  /** Such a segment places its sections in both layouts, among them one with bytes. */
  lemma PlacesInBoth(e: Elf, g: Elf, k: nat) returns (a: nat)
    requires Fitting(e) && Visible(e) && Returned(e, g) && OutermostIn(Lists(e.segments), k)
    ensures a < |e.sections| && k < |e.segments| && k < |g.segments| && Places(e, k, a) && Places(g, k, a)
  {
    hide Order, Laminar, Steady, OutermostIn, LaidOut, TopLevel, LayoutFits;
    ListsAgain(e, g);
    OutermostIsPlacer(e, e, k);
    OutermostIsPlacer(e, g, k);
    a :| 0 <= a < |e.sections| && OwnsBytes(e, k, a);
    Frozen.LayoutMoves(e);
    assert Same(LaidOut(e).sections[a], g.sections[a]) && e.sections[a].Moved(LaidOut(e).sections[a]);
    assert Lists(g.segments)[k] == g.segments[k].sections;
  }

  /** If two layouts that fit agree on where everything is, they treat these segments in the same order, and
      those that take their sizes from the cursor in the same place among them. */
  lemma FixpointOrders(e: Elf, g: Elf)
    requires Fitting(e) && Visible(e) && Returned(e, g) && Fitting(g) && LaidOut(g) == g
    ensures MainOrder(e, Order(g.segments))
  {
    hide Order, OutermostIn, LaidOut, Fitting, Returned, Steady, OwnsBytes, MainOrder, Visible;
    FittingIsFormed(e);
    HeadersAgain(e, g);
    forall k: nat, m: nat | k < |e.segments| && OutermostIn(Lists(e.segments), m) && k != m &&
                            (OutermostIn(Lists(e.segments), k) || !Steady(e, k))
      ensures Earlier(Order(g.segments), k, m) <==> Earlier(Order(e.segments), k, m)
    {
      PairOrders(e, g, k, m);
      PositionsOrder(e, k, m);
      PositionsOrder(g, k, m);
    }
    OutermostOrder(e, Order(g.segments));
  }

  lemma FittingIsFormed(e: Elf)
    requires Fitting(e)
    ensures WellFormed(e)
  {
  }

  lemma PairOrders(e: Elf, g: Elf, k: nat, m: nat)
    requires Fitting(e) && Visible(e) && Returned(e, g) && Fitting(g) && LaidOut(g) == g && k != m && k < |e.segments|
    requires OutermostIn(Lists(e.segments), m) && (OutermostIn(Lists(e.segments), k) || !Steady(e, k))
    ensures m < |e.segments| == |g.segments|
    ensures Position(g, k) < Position(g, m) <==> Position(e, k) < Position(e, m)
  {
    hide Order, OutermostIn, LaidOut, Fitting, Returned, Visible, Places, Position, Steady;
    var b := PlacesInBoth(e, g, m);
    HeadersAgain(e, g);
    if OutermostIn(Lists(e.segments), k) {
      var a := PlacesInBoth(e, g, k);
      FixpointKeepsOrder(e, g, k, m, a, b);
    } else {
      NestedInBoth(e, g, k);
      FitTells(e, g, k);
      SideOf(e, k, m, b);
      SideOf(g, k, m, b);
    }
  }

  lemma NestedInBoth(e: Elf, g: Elf, k: nat)
    requires Fitting(e) && Visible(e) && Returned(e, g) && k < |e.segments| && !OutermostIn(Lists(e.segments), k)
    ensures !Placer(e, k) && !Placer(g, k) && PlacersAgree(e, g)
  {
    hide Order, Laminar, Steady, OutermostIn, LaidOut, Placer, LayoutFits, Visible, RereadSegment;
    ListsAgain(e, g);
    OutermostIsPlacer(e, e, k);
    OutermostIsPlacer(e, g, k);
    PlacersStand(e, g);
  }

  /** Whether segment k comes before one that places section b shows in the cursor at its turn. */
  lemma SideOf(e: Elf, k: nat, m: nat, b: nat)
    requires Fitting(e) && k < |e.segments| && m < |e.segments| && k != m && Places(e, m, b)
    ensures b < |LaidOut(e).sections|
    ensures Position(e, k) < Position(e, m) <==> StateAt(e, Position(e, k)).pos <= LaidOut(e).sections[b].hdr.offset
  {
    hide Order, Laminar, LayoutFits, StateAt, LaidOut, TopLevel;
    var p, q := Position(e, k), Position(e, m);
    DifferentPlaces(e, k, m);
    Frozen.LayoutMoves(e);
    assert e.sections[b].Moved(LaidOut(e).sections[b]);
    if p < q {
      CursorGrows(e, p, q);
      LaterStarts(e, q, b);
    } else {
      EarlierEnds(e, q, p, b);
    }
  }

  /** In a layout that fits and changes nothing, every state has the sections and segments already. */
  lemma FixpointStates(g: Elf, n: nat)
    requires Fitting(g) && LaidOut(g) == g && n <= |g.segments|
    ensures StateAt(g, n).secs == g.sections && StateAt(g, n).segs == g.segments && MarksOf(g, n)
    ensures StateAt(g, n).pos < g.cls.Limit()
  {
    hide Order, Laminar, LayoutFits, StateAt, LaidOut, SegShape, TopLevel, NewlyPlaced;
    SegmentsAreLaid(g, n);
    OrderFacts(g.segments);
    forall i | 0 <= i < |g.sections|
      ensures StateAt(g, n).secs[i] == g.sections[i]
    {
      if StateAt(g, n).gen[i] {
        Frozen.GeneratedIsFinal(g, n, i);
      }
    }
    forall k | 0 <= k < |g.segments|
      ensures StateAt(g, n).segs[k] == g.segments[k]
    {
      var p := Position(g, k);
      if p < n {
        Frozen.SegmentsKeep(g, p, n);
        Frozen.DoneIsFinal(g, p);
      }
    }
  }

  /** A segment that takes its sizes from the cursor finds it in the same place in both layouts. */
  lemma FitTells(e: Elf, g: Elf, k: nat)
    requires Fitting(e) && Returned(e, g) && PlacersAgree(e, g) && Fitting(g) && LaidOut(g) == g
    requires k < |e.segments| && !Placer(e, k) && !Steady(e, k)
    ensures k < |g.segments| && StateAt(g, Position(g, k)).pos == StateAt(e, Position(e, k)).pos
  {
    hide Order, Laminar, LayoutFits, StateAt, LaidOut, Placer, Steady, MarksOf, Repeats, Layout.PlaceSegment,
         PlacersAgree, RereadSegment, Same;
    var n := Position(g, k);
    FixpointStates(g, n);
    FixpointStates(g, n + 1);
    TurnRepeats(e, g, n);
    StateStep(g, n);
    CursorTold.NestedTells(e, StateAt(g, n), k);
  }

  lemma HeadersAgain(e: Elf, g: Elf)
    requires Fitting(e) && Returned(e, g) && LaidOut(g) == g
    ensures |LaidOut(e).sections| == |LaidOut(g).sections| && |g.segments| == |e.segments|
    ensures forall i :: 0 <= i < |LaidOut(e).sections| ==> LaidOut(g).sections[i].hdr == LaidOut(e).sections[i].hdr
  {
    hide LaidOut;
    Frozen.LayoutMoves(e);
    forall i | 0 <= i < |LaidOut(e).sections|
      ensures LaidOut(g).sections[i].hdr == LaidOut(e).sections[i].hdr
    {
      assert Same(LaidOut(e).sections[i], g.sections[i]);
    }
  }

  lemma PositionsOrder(e: Elf, k: nat, m: nat)
    requires k < |e.segments| && m < |e.segments|
    ensures Earlier(Order(e.segments), k, m) <==> Position(e, k) < Position(e, m)
  {
    OrderFacts(e.segments);
  }

  // ----- the object read back, without asking whether it fits

  /** There is room for the alignment of one more segment behind all of them. */
  predicate Spacious(e: Elf)
    requires ElfOk(e)
  {
    forall k :: 0 <= k < |e.segments| ==> AfterSegments(e).pos + e.segments[k].hdr.align < e.cls.Limit()
  }

  /** Of the segments that nothing includes, one that begins with the null section comes first. */
  predicate NullLeads(e: Elf, order: seq<nat>)
    requires ElfOk(e)
  {
    var lists := Lists(e.segments);
    forall k, m {:trigger Earlier(order, k, m)} ::
      (0 <= k < |e.segments| && 0 <= m < |e.segments| && k != m && OutermostIn(lists, k) && OutermostIn(lists, m)
       && StartsWithNull(e.segments[k], e.sections)) ==> Earlier(order, k, m)
  }

  /** Laying out the object read back changes nothing. */
  predicate Stands(e: Elf, g: Elf) {
    && Fitting(e) && Visible(e) && Spacious(e) && Returned(e, g) && NullLeads(e, Order(g.segments)) && LaidOut(g) == g
  }

  /** After n segments the second run has moved nothing, and its cursor is where the first run's was behind
      the last of the segments that have placed sections. */
  ghost predicate Chained(e: Elf, g: Elf, n: nat, q: nat)
    requires ElfOk(e) && ElfOk(g) && |g.segments| == |e.segments|
  {
    && n <= |e.segments| && q <= |e.segments|
    && StateAt(g, n).secs == g.sections && StateAt(g, n).segs == g.segments && StateAt(g, n).pos == StateAt(e, q).pos
    && MarksOf(g, n)
    && (forall k: nat {:trigger Placer(e, k)} :: Placer(e, k) && Position(g, k) < n ==> Position(e, k) < q)
    && (q == 0 || exists k: nat :: Placer(e, k) && Position(g, k) < n && Position(e, k) == q - 1)
  }

  // ----- a segment that begins with the null section, from another cursor

  /** The first section of the list that is not null is the j-th, and has bytes. */
  predicate BytesFirst(secs: seq<SectionState>, list: seq<nat>, j: nat)
    requires Within(list, |secs|)
  {
    j < |list| && (forall i :: 0 <= i < j ==> secs[list[i]].IsNull()) && secs[list[j]].Occupies()
  }

  /** It takes either cursor to where it ends. */
  lemma JoinTurn(cls: ElfClass, f: Frame, c: Cursor, d: Cursor, i: nat)
    requires c.Has(i) && d.Has(i) && f.start == 0
    requires Turnable(cls, f, c, i) && !c.gen[i] && !d.gen[i] && c.secs[i].Occupies()
    requires Same(PlaceOne(cls, f, c, i).secs[i], d.secs[i])
    ensures PlaceOne(cls, f, d, i).pos == PlaceOne(cls, f, c, i).pos && PlaceOne(cls, f, d, i).secs == d.secs
  {
    hide PlaceOne, Turnable;
    JoinPlace(cls, f, c, i, d.secs[i]);
    Overlap.PinnedGoes(cls, f, d, i);
    assert d.secs[i] == d.secs[i].WithOffset(d.secs[i].hdr.offset);
  }

  lemma JoinPlace(cls: ElfClass, f: Frame, c: Cursor, i: nat, t: SectionState)
    requires c.Has(i) && f.start == 0 && Turnable(cls, f, c, i) && !c.gen[i] && c.secs[i].Occupies()
    requires Same(PlaceOne(cls, f, c, i).secs[i], t)
    ensures t.Occupies() && t.index != 0 && t.addressSet
    ensures t.hdr.offset == t.hdr.addr - f.vaddr && t.hdr.offset + t.hdr.size < cls.Limit()
    ensures PlaceOne(cls, f, c, i).pos == t.hdr.offset + t.hdr.size
  {
    PlacedFacts(cls, f, c, c.pos, i);
    SameKind(cls, f, c, i, t);
  }

  /** A section that is not generated goes where the cursor takes it, whatever the sizes are by then. */
  lemma TurnAlong(cls: ElfClass, f: Frame, c: Cursor, d: Cursor, i: nat)
    requires |c.secs| == |c.gen| == |d.secs| == |d.gen| && c.Has(i) && d.pos == c.pos && !c.gen[i] && !d.gen[i]
    requires Turnable(cls, f, c, i) && Same(PlaceOne(cls, f, c, i).secs[i], d.secs[i])
    ensures PlaceOne(cls, f, d, i).pos == PlaceOne(cls, f, c, i).pos && PlaceOne(cls, f, d, i).secs == d.secs
  {
    var c' := c.(filesz := d.filesz, memsz := d.memsz);
    SizesDoNotMatter(cls, f, c, i, d.filesz, d.memsz);
    hide PlaceOne, Turnable;
    TurnAgain(cls, f, c', d, i);
  }

  lemma SizesDoNotMatter(cls: ElfClass, f: Frame, c: Cursor, i: nat, filesz: nat, memsz: nat)
    requires c.Has(i) && !c.gen[i]
    ensures var c' := c.(filesz := filesz, memsz := memsz);
            && Turnable(cls, f, c', i) == Turnable(cls, f, c, i)
            && PlaceOne(cls, f, c', i).pos == PlaceOne(cls, f, c, i).pos
            && PlaceOne(cls, f, c', i).secs == PlaceOne(cls, f, c, i).secs
  {
    hide Wrap;
    assert SecAlign(f, c.(filesz := filesz, memsz := memsz), i) == SecAlign(f, c, i);
    hide SecAlign, Counted;
  }

  lemma {:induction false} RunJoins(cls: ElfClass, f: Frame, c: Cursor, d: Cursor, list: seq<nat>, j: nat)
    requires |c.secs| == |c.gen| == |d.secs| == |d.gen| && f.start == 0 && Within(list, |c.secs|) &&
               Ordering.Sorted(list)
    requires RunTurnable(cls, f, c, list) && BytesFirst(c.secs, list, j)
    requires forall m :: 0 <= m < |list| ==>
               !c.gen[list[m]] && !d.gen[list[m]] && Same(PlaceAll(cls, f, c, list).secs[list[m]], d.secs[list[m]])
    ensures PlaceAll(cls, f, d, list).pos == PlaceAll(cls, f, c, list).pos && PlaceAll(cls, f, d, list).secs == d.secs
  {
    hide PlaceOne, Same;
    var init, i := list[..|list| - 1], list[|list| - 1];
    forall m | 0 <= m < |init|
      ensures Same(PlaceAll(cls, f, c, init).secs[init[m]], d.secs[init[m]])
    {
      Frozen.PrefixKept(cls, f, c, list, m);
      assert init[m] == list[m];
    }
    assert i !in init;
    Frozen.WalkTouches(cls, f, c, init, i);
    Frozen.WalkTouches(cls, f, d, init, i);
    var c', d' := PlaceAll(cls, f, c, init), PlaceAll(cls, f, d, init);
    if j < |init| {
      RunJoins(cls, f, c, d, init, j);
      TurnAlong(cls, f, c', d', i);
    } else {
      NullsOnly(cls, f, c, init);
      NullsAgain(cls, f, c, d, init);
      JoinTurn(cls, f, c', d', i);
    }
  }

  lemma NullsAgain(cls: ElfClass, f: Frame, c: Cursor, d: Cursor, list: seq<nat>)
    requires |c.secs| == |c.gen| == |d.secs| == |d.gen| && Within(list, |c.secs|)
    requires forall m :: 0 <= m < |list| ==>
               c.secs[list[m]].IsNull() && Same(PlaceAll(cls, f, c, list).secs[list[m]], d.secs[list[m]])
    ensures PlaceAll(cls, f, d, list).secs == d.secs
  {
    NullsOnly(cls, f, c, list);
    NullsOnly(cls, f, d, list);
  }

  /** The turn of a segment that begins with the null section, whatever the cursor. */
  lemma SegmentJoins(cls: ElfClass, h: Ehdr, st: LayState, su: LayState, k: nat, j: nat)
    requires Repeats(cls, h, st, su, k) && StartsWithNull(st.segs[k], st.secs) && Ordering.Sorted(st.segs[k].sections)
    requires var (f, c) := Open(h, st, st.segs[k]); RunTurnable(cls, f, c, st.segs[k].sections)
    requires BytesFirst(st.secs, st.segs[k].sections, j)
    requires forall m :: 0 <= m < |st.segs[k].sections| ==> !st.gen[st.segs[k].sections[m]]
    ensures var r := PlaceSegment(cls, h, su, k); r.secs == su.secs && r.pos == PlaceSegment(cls, h, st, k).pos
  {
    var (f, c) := Open(h, st, st.segs[k]);
    var (f', d) := Open(h, su, su.segs[k]);
    assert f' == f && f.start == 0;
    hide Open, RunTurnable;
    RunJoins(cls, f, c, d, st.segs[k].sections, j);
  }

  /** A segment that does not begin with the null section and is left where it is starts where it did. */
  lemma SameStart(cls: ElfClass, h: Ehdr, st: LayState, su: LayState, k: nat)
    requires Repeats(cls, h, st, su, k) && !StartsWithNull(st.segs[k], st.secs) && StartsNew(st.segs[k], st.gen)
    requires Open(h, st, st.segs[k]).0.start < cls.Limit() && su.pos + su.segs[k].hdr.align < cls.Limit()
    requires PlaceSegment(cls, h, su, k).segs[k].hdr.offset == su.segs[k].hdr.offset
    ensures var (f, c) := Open(h, st, st.segs[k]);
            var (f', d) := Open(h, su, su.segs[k]);
            f' == f && Retraces(c, d) && su.pos <= f.start == su.segs[k].hdr.offset
  {
    assert cls.Limit() <= U64;
    var list := st.segs[k].sections;
    assert su.gen[list[0]] == st.gen[list[0]];
    assert StartsNew(su.segs[k], su.gen) && !StartsWithNull(su.segs[k], su.secs);
    StoredFields(cls, h, st, k);
    StoredFields(cls, h, su, k);
    Overlap.OpenStart(h, su, su.segs[k]);
    hide Layout.PlaceSegment;
  }

  // ----- one more segment of the second run

  /** What is left where it is by the whole layout is left where it is by its own turn. */
  lemma TurnStands(e: Elf, g: Elf, n: nat)
    requires Stands(e, g) && n < |g.segments| && StateAt(g, n).segs == g.segments
    ensures StateAt(g, n + 1) == PlaceSegment(e.cls, Prepared(e), StateAt(g, n), Order(g.segments)[n])
    ensures StateAt(g, n + 1).segs == g.segments
  {
    hide StateAt, LaidOut, Layout.PlaceSegment;
    StateStep(g, n);
    Frozen.DoneIsFinal(g, n);
    OthersKept(g.cls, Prepared(g), StateAt(g, n), Order(g.segments)[n]);
  }

  lemma OthersKept(cls: ElfClass, h: Ehdr, st: LayState, k: nat)
    requires LayOk(st) && k < |st.segs|
    ensures var r := PlaceSegment(cls, h, st, k); r.segs == st.segs[k := r.segs[k]]
  {
  }

  lemma StartIsBelow(e: Elf, k: nat)
    requires Fitting(e) && Placer(e, k)
    ensures var p := Position(e, k);
            var st := StateAt(e, p);
            && LaidAt(e, p) && st.segs[k] == e.segments[k] && Open(Prepared(e), st, st.segs[k]).0.start < e.cls.Limit()
            && StartsWithNull(st.segs[k], st.secs) == StartsWithNull(e.segments[k], e.sections)
            && forall m :: 0 <= m < |st.segs[k].sections| ==>
                 !st.gen[st.segs[k].sections[m]] &&
                     st.secs[st.segs[k].sections[m]] == e.sections[st.segs[k].sections[m]]
  {
    hide Order, Laminar, LayoutFits, StateAt, Open, StartsWithNull, TopLevel;
    var p := Position(e, k);
    SegmentsAreLaid(e, p);
    ReadyParts(e, p, StateAt(e, p));
    FitsHere(e, p);
    OpenFresh(e.cls, Prepared(e), StateAt(e, p), k);
    Overlap.SameFirst(e.segments[k], e.sections, StateAt(e, p).secs);
  }

  lemma FitsHere(e: Elf, p: nat)
    requires Fitting(e) && p < |e.segments|
    ensures SegmentFits(e.cls, Prepared(e), StateAt(e, p), Order(e.segments)[p])
  {
    hide StateAt, Order, SegmentFits;
    assert FitsAt(e, p);
  }

  /** A segment that places its sections and does not begin with the null section starts where it did, so
      behind whatever was placed before it. */
  lemma StartsAgain(e: Elf, g: Elf, n: nat, q: nat, k: nat)
    requires Stands(e, g) && n < |e.segments| && Chained(e, g, n, q) && k == Order(g.segments)[n]
    requires Placer(e, k) && !StartsWithNull(e.segments[k], e.sections)
    requires Repeats(e.cls, Prepared(e), StateAt(e, Position(e, k)), StateAt(g, n), k)
    ensures var st, su := StateAt(e, Position(e, k)), StateAt(g, n);
            var (f, c) := Open(Prepared(e), st, st.segs[k]);
            var (f', d) := Open(Prepared(e), su, su.segs[k]);
            f' == f && Retraces(c, d) && StateAt(e, q).pos <= LaidOut(e).segments[k].hdr.offset
  {
    hide Order, Laminar, LayoutFits, StateAt, LaidOut, Open, StartsWithNull, TopLevel, Layout.PlaceSegment,
         AfterSegments, MarksOf, Repeats, Visible, NullLeads;
    StartIsBelow(e, k);
    TurnStands(e, g, n);
    CursorGrows(e, q, |e.segments|);
    Frozen.AllStates(e);
    assert RereadSegment(e, g, k);
    SameStart(e.cls, Prepared(e), StateAt(e, Position(e, k)), StateAt(g, n), k);
  }

  /** Behind segment k's turn the cursor has left its start behind. */
  lemma PassedItsStart(e: Elf, k: nat, q: nat)
    requires Fitting(e) && Visible(e) && Placer(e, k) && Position(e, k) < q <= |e.segments|
    ensures k < |LaidOut(e).segments| && LaidOut(e).segments[k].hdr.offset < StateAt(e, q).pos
  {
    hide Order, Laminar, LayoutFits, StateAt, LaidOut, TopLevel, Steady, OutermostIn;
    PlacerIsOutermost(e, k);
    var a :| 0 <= a < |e.sections| && OwnsBytes(e, k, a);
    Frozen.LayoutMoves(e);
    assert e.sections[a].Moved(LaidOut(e).sections[a]);
    SegmentsAreExact(e, k);
    assert Occupying(LaidOut(e).sections, a);
    CursorGrows(e, q, |e.segments|);
    EarlierEnds(e, Position(e, k), q, a);
  }

  /** So none that came later in the first run has come before it in the second. */
  lemma ComesBehind(e: Elf, g: Elf, n: nat, q: nat, k: nat)
    requires Stands(e, g) && n < |e.segments| && Chained(e, g, n, q) && k == Order(g.segments)[n] && Placer(e, k)
    requires Repeats(e.cls, Prepared(e), StateAt(e, Position(e, k)), StateAt(g, n), k)
    ensures q <= Position(e, k)
  {
    hide Order, StateAt, LaidOut, Placer, Visible, Returned, Repeats, MarksOf, Spacious;
    if StartsWithNull(e.segments[k], e.sections) {
      NoneBefore(e, g, n, q, k);
    } else if Position(e, k) < q {
      StartsAgain(e, g, n, q, k);
      PassedItsStart(e, k, q);
    }
  }

  lemma NoneBefore(e: Elf, g: Elf, n: nat, q: nat, k: nat)
    requires Stands(e, g) && n < |e.segments| && Chained(e, g, n, q) && k == Order(g.segments)[n] && Placer(e, k)
    requires StartsWithNull(e.segments[k], e.sections)
    ensures q == 0
  {
    hide Order, StateAt, LaidOut, Placer, Visible, Fitting, MarksOf, Spacious, StartsWithNull, OutermostIn,
         RereadSegment, Position, Same;
    FittingIsFormed(e);
    if q > 0 {
      var m: nat :| Placer(e, m) && Position(g, m) < n;
      PositionIs(g, n);
      assert m != k;
      BothOutermost(e, k, m);
      assert Earlier(Order(g.segments), k, m);
      PositionsOrder(g, k, m);
    }
  }

  lemma BothOutermost(e: Elf, k: nat, m: nat)
    requires WellFormed(e) && Placer(e, k) && Placer(e, m)
    ensures k < |e.segments| && m < |e.segments|
    ensures OutermostIn(Lists(e.segments), k) && OutermostIn(Lists(e.segments), m)
  {
    hide WellFormed, OutermostIn, TopLevel;
    PlacerIsOutermost(e, m);
    PlacerIsOutermost(e, k);
  }

  lemma PlacersStand(e: Elf, g: Elf)
    requires WellFormed(e) && Visible(e) && Returned(e, g)
    ensures PlacersAgree(e, g)
  {
    hide Placer, Visible, Returned;
    ListsAgain(e, g);
    forall k: nat
      ensures Placer(g, k) <==> Placer(e, k)
    {
      OutermostIsPlacer(e, e, k);
      OutermostIsPlacer(e, g, k);
    }
  }

  /** Whatever segment's turn it is, it moves nothing. */
  predicate TurnRests(st: LayState, r: LayState, pos: nat) {
    r.secs == st.secs && r.pos == pos
  }

  /** The turn of a segment that places its sections takes the cursor where it took it. */
  lemma PlacerStands(e: Elf, g: Elf, n: nat, q: nat, k: nat)
    requires Stands(e, g) && n < |e.segments| && Chained(e, g, n, q) && k == Order(g.segments)[n] && Placer(e, k)
    requires Repeats(e.cls, Prepared(e), StateAt(e, Position(e, k)), StateAt(g, n), k)
    ensures TurnRests(StateAt(g, n), StateAt(g, n + 1), StateAt(e, Position(e, k) + 1).pos)
  {
    hide Order, Laminar, LayoutFits, StateAt, LaidOut, TopLevel, Layout.PlaceSegment, AfterSegments, MarksOf, Repeats,
         NullLeads, OutermostIn, Open, StartsWithNull, RunTurnable, SegShape, Spacious;
    TurnStands(e, g, n);
    if StartsWithNull(e.segments[k], e.sections) {
      NullStands(e, StateAt(g, n), k);
    } else {
      StartsAgain(e, g, n, q, k);
      PlainStands(e, StateAt(g, n), k);
    }
  }

  /** A segment with bytes begins with a section with bytes, but for null sections. */
  lemma FirstBytes(e: Elf, k: nat) returns (j: nat)
    requires WellFormed(e) && Visible(e) && Placer(e, k)
    ensures BytesFirst(e.sections, e.segments[k].sections, j)
  {
    hide Placer, OutermostIn;
    PlacerIsOutermost(e, k);
    var a :| 0 <= a < |e.sections| && OwnsBytes(e, k, a);
    var list := e.segments[k].sections;
    assert SegShape(e.sections, e.segments[k]);
    var i :| 0 <= i < |list| && list[i] == a;
    j := FirstProper(e.sections, list, i);
    assert j < |list| - 1 || j == i;
  }

  /** The first section that is not null, up to the i-th. */
  lemma {:induction false} FirstProper(secs: seq<SectionState>, list: seq<nat>, i: nat) returns (j: nat)
    requires Within(list, |secs|) && i < |list| && !secs[list[i]].IsNull()
    ensures j <= i && !secs[list[j]].IsNull() && forall m :: 0 <= m < j ==> secs[list[m]].IsNull()
  {
    if m :| 0 <= m < i && !secs[list[m]].IsNull() {
      j := FirstProper(secs, list, m);
    } else {
      j := i;
    }
  }

  lemma NullStands(e: Elf, su: LayState, k: nat)
    requires Fitting(e) && Visible(e) && Placer(e, k) && StartsWithNull(e.segments[k], e.sections)
    requires Repeats(e.cls, Prepared(e), StateAt(e, Position(e, k)), su, k)
    ensures TurnRests(su, PlaceSegment(e.cls, Prepared(e), su, k), StateAt(e, Position(e, k) + 1).pos)
  {
    hide Order, LayoutFits, StateAt, TopLevel, Layout.PlaceSegment, Repeats, Open, StartsWithNull, RunTurnable,
         SegShape, Visible, LaidAt, BytesFirst, ElfOk;
    FittingIsFormed(e);
    FormedIsOk(e);
    hide Fitting, WellFormed, Placer;
    var p := Position(e, k);
    StartIsBelow(e, k);
    StateStep(e, p);
    CanTurn(e, p);
    var j := FirstBytes(e, k);
    SameBytesFirst(e.sections, StateAt(e, p).secs, e.segments[k].sections, j);
    Overlap.SegmentIsSorted(e, k);
    SegmentJoins(e.cls, Prepared(e), StateAt(e, p), su, k, j);
  }

  lemma SameBytesFirst(secs: seq<SectionState>, secs': seq<SectionState>, list: seq<nat>, j: nat)
    requires |secs'| == |secs| && Within(list, |secs|) && BytesFirst(secs, list, j)
    requires forall m :: 0 <= m < |list| ==> secs'[list[m]] == secs[list[m]]
    ensures BytesFirst(secs', list, j)
  {
  }

  lemma FormedIsOk(e: Elf)
    requires WellFormed(e)
    ensures ElfOk(e)
  {
  }

  lemma PlainStands(e: Elf, su: LayState, k: nat)
    requires Fitting(e) && Placer(e, k) && Repeats(e.cls, Prepared(e), StateAt(e, Position(e, k)), su, k)
    requires var st := StateAt(e, Position(e, k));
             var (f, c) := Open(Prepared(e), st, st.segs[k]);
             var (f', d) := Open(Prepared(e), su, su.segs[k]);
             f' == f && Retraces(c, d)
    ensures TurnRests(su, PlaceSegment(e.cls, Prepared(e), su, k), StateAt(e, Position(e, k) + 1).pos)
  {
    hide Order, Laminar, LayoutFits, StateAt, TopLevel, Layout.PlaceSegment, Repeats, Open, StartsWithNull,
         RunTurnable, SegShape;
    var p := Position(e, k);
    StartIsBelow(e, k);
    StateStep(e, p);
    CanTurn(e, p);
    OpenedAgain(e.cls, Prepared(e), StateAt(e, p), su, k);
  }

  /** The turn of any other segment leaves the cursor where it is. */
  lemma RestStands(e: Elf, g: Elf, n: nat, k: nat)
    requires Stands(e, g) && n < |e.segments| && k == Order(g.segments)[n] && !Placer(e, k) && PlacersAgree(e, g)
    requires StateAt(g, n).segs == g.segments && MarksOf(g, n)
    ensures TurnRests(StateAt(g, n), StateAt(g, n + 1), StateAt(g, n).pos)
  {
    hide Order, Laminar, LayoutFits, StateAt, LaidOut, TopLevel, Layout.PlaceSegment, NullLeads, MarksOf, Visible,
         Spacious, PlacersAgree, RereadSegment, Same, Placer;
    TurnStands(e, g, n);
    MarksAgree(e, g, n);
    SameListOf(e, g, k);
    Overlap.CursorStays(e.cls, Prepared(e), StateAt(g, n), k);
    Overlap.NothingMoves(e.cls, Prepared(e), StateAt(g, n), k);
  }

  lemma StandsRepeats(e: Elf, g: Elf, n: nat)
    requires Stands(e, g) && n < |e.segments| && MarksOf(g, n)
    requires StateAt(g, n).secs == g.sections && StateAt(g, n).segs == g.segments
    ensures var k := Order(g.segments)[n];
            Repeats(e.cls, Prepared(e), StateAt(e, Position(e, k)), StateAt(g, n), k) && LaidAt(e, Position(e, k))
  {
    hide Order, StateAt, LaidOut, MarksOf, Repeats, PlacersAgree, Visible, NullLeads, Spacious, LayoutFits, Laminar,
         Returned;
    PlacersStand(e, g);
    TurnRepeats(e, g, n);
  }

  lemma ChainStep(e: Elf, g: Elf, n: nat, q: nat) returns (q': nat)
    requires Stands(e, g) && n < |e.segments| && Chained(e, g, n, q)
    ensures Chained(e, g, n + 1, q')
    ensures Placer(e, Order(g.segments)[n]) ==> q <= Position(e, Order(g.segments)[n])
  {
    hide Order, StateAt, Placer, Repeats, Stands, LaidAt, Position, ElfOk, PlacersAgree, WellFormed, Visible, Returned,
         MarksOf, Fitting, TurnRests;
    StandsSizes(e, g);
    var k := Order(g.segments)[n];
    PlacersStand(e, g);
    StandsRepeats(e, g, n);
    MarksOneMore(g, n);
    TurnStands(e, g, n);
    if Placer(e, k) {
      ComesBehind(e, g, n, q, k);
      PlacerStands(e, g, n, q, k);
      q' := Position(e, k) + 1;
    } else {
      RestStands(e, g, n, k);
      q' := q;
    }
    ChainGrows(e, g, n, q, q');
  }

  lemma ChainGrows(e: Elf, g: Elf, n: nat, q: nat, q': nat)
    requires ElfOk(e) && ElfOk(g) && n < |e.segments| == |g.segments| && Chained(e, g, n, q) && q <= q' <= |e.segments|
    requires if Placer(e, Order(g.segments)[n]) then q' == Position(e, Order(g.segments)[n]) + 1 else q' == q
    requires TurnRests(StateAt(g, n), StateAt(g, n + 1), StateAt(e, q').pos)
    requires StateAt(g, n + 1).segs == g.segments && MarksOf(g, n + 1)
    ensures Chained(e, g, n + 1, q')
  {
    hide Order, StateAt, MarksOf, Placer, Position, ElfOk;
    PlacersSoFar(e, g, n, q, q');
  }

  lemma PlacersSoFar(e: Elf, g: Elf, n: nat, q: nat, q': nat)
    requires ElfOk(e) && ElfOk(g) && n < |e.segments| == |g.segments| && Chained(e, g, n, q) && q <= q'
    requires if Placer(e, Order(g.segments)[n]) then q' == Position(e, Order(g.segments)[n]) + 1 else q' == q
    ensures forall k: nat {:trigger Placer(e, k)} :: Placer(e, k) && Position(g, k) < n + 1 ==> Position(e, k) < q'
    ensures q' == 0 || exists k: nat :: Placer(e, k) && Position(g, k) < n + 1 && Position(e, k) == q' - 1
  {
    hide Order, StateAt, MarksOf, TopLevel;
    PositionIs(g, n);
    forall k: nat | Placer(e, k) && Position(g, k) < n + 1
      ensures Position(e, k) < q'
    {
      if k != Order(g.segments)[n] {
        DifferentPlaces(g, k, Order(g.segments)[n]);
      }
    }
  }

  lemma {:induction false} Chain(e: Elf, g: Elf, n: nat) returns (q: nat)
    requires Stands(e, g) && n <= |e.segments|
    ensures Chained(e, g, n, q)
  {
    hide Chained, Stands, ElfOk, Fitting, WellFormed, Visible, Returned;
    StandsSizes(e, g);
    if n == 0 {
      q := 0;
      ChainStart(e, g);
    } else {
      q := Chain(e, g, n - 1);
      q := ChainStep(e, g, n - 1, q);
    }
  }

  lemma ChainStart(e: Elf, g: Elf)
    requires ElfOk(e) && Returned(e, g)
    ensures Chained(e, g, 0, 0)
  {
    assert Order(e.segments)[..0] == [] && Order(g.segments)[..0] == [];
  }

  /** Whatever comes first in the second run came first in the first one. */
  lemma StandsInTurn(e: Elf, g: Elf, k: nat, m: nat)
    requires Stands(e, g) && Placer(e, k) && Placer(e, m) && k < |g.segments| && m < |g.segments|
    requires Position(g, k) < Position(g, m)
    ensures Position(e, k) < Position(e, m)
  {
    hide Stands, Placer, Position;
    var n := Position(g, m);
    StandsSizes(e, g);
    var q := Chain(e, g, n);
    var q' := ChainStep(e, g, n, q);
  }

  lemma StandsSizes(e: Elf, g: Elf)
    requires Stands(e, g)
    ensures Fitting(e) && ElfOk(e) && ElfOk(g) && |g.segments| == |e.segments|
    ensures WellFormed(e) && Visible(e) && Returned(e, g)
  {
  }

  /** A segment that takes its sizes from the cursor keeps its place among those that place sections. */
  lemma StandsAside(e: Elf, g: Elf, k: nat, m: nat)
    requires Stands(e, g) && k < |e.segments| && !Placer(e, k) && !Steady(e, k) && Placer(e, m)
    ensures m < |e.segments| == |g.segments|
    ensures Position(g, k) < Position(g, m) <==> Position(e, k) < Position(e, m)
  {
    hide Stands, Placer, Position, Order, StateAt, Steady, LaidOut, Chained, Fitting, ElfOk, WellFormed, Visible,
         Returned, Places;
    StandsSizes(e, g);
    var n := Position(g, k);
    var q := Chain(e, g, n);
    var b := PlacerBytes(e, m);
    CursorFound(e, g, k, n, q);
    DifferentPlaces(g, k, m);
    SideOf(e, k, m, b);
    if Position(g, m) < n {
      ChainedPast(e, g, m, n, q);
      EndsByThen(e, m, q, b);
    } else {
      StillAhead(e, g, m, n, q, b);
    }
  }

  lemma ChainedPast(e: Elf, g: Elf, m: nat, n: nat, q: nat)
    requires ElfOk(e) && ElfOk(g) && |g.segments| == |e.segments| && Chained(e, g, n, q)
    requires m < |e.segments| && Placer(e, m) && Position(g, m) < n
    ensures Position(e, m) < q <= |e.segments|
  {
    hide Placer, Position, StateAt, MarksOf;
  }

  lemma PlacerBytes(e: Elf, m: nat) returns (b: nat)
    requires WellFormed(e) && Visible(e) && Placer(e, m)
    ensures m < |e.segments| && Places(e, m, b)
  {
    hide Order, Laminar, OutermostIn, TopLevel;
    PlacerIsOutermost(e, m);
    b :| 0 <= b < |e.sections| && OwnsBytes(e, m, b);
  }

  /** It finds the cursor in the same place in both runs. */
  lemma CursorFound(e: Elf, g: Elf, k: nat, n: nat, q: nat)
    requires Stands(e, g) && k < |e.segments| && !Placer(e, k) && !Steady(e, k)
    requires n == Position(g, k) && Chained(e, g, n, q)
    ensures StateAt(e, Position(e, k)).pos == StateAt(e, q).pos
  {
    hide Order, Laminar, LayoutFits, StateAt, LaidOut, Placer, Steady, MarksOf, Repeats, Layout.PlaceSegment, Returned,
         Visible, Spacious, NullLeads, Stands, SectionsLaid, SegmentsLaid;
    StandsSizes(e, g);
    StandsRepeats(e, g, n);
    TurnStands(e, g, n);
    CursorGrows(e, q, |e.segments|);
    SameClass(e, g);
    CursorTold.NestedTells(e, StateAt(g, n), k);
  }

  lemma SameClass(e: Elf, g: Elf)
    requires ElfOk(e) && Returned(e, g)
    ensures g.cls == e.cls && Prepared(g) == Prepared(e)
  {
  }

  lemma EndsByThen(e: Elf, m: nat, q: nat, b: nat)
    requires Fitting(e) && m < |e.segments| && Places(e, m, b) && Position(e, m) < q <= |e.segments|
    ensures b < |LaidOut(e).sections| && LaidOut(e).sections[b].hdr.offset < StateAt(e, q).pos
  {
    hide Order, Laminar, LayoutFits, StateAt, LaidOut, TopLevel;
    EarlierEnds(e, Position(e, m), q, b);
    Frozen.LayoutMoves(e);
    assert e.sections[b].Moved(LaidOut(e).sections[b]);
  }

  /** What places its sections later in the second run does so behind that cursor. */
  lemma StillAhead(e: Elf, g: Elf, m: nat, n: nat, q: nat, b: nat)
    requires Stands(e, g) && Placer(e, m) && m < |g.segments| && Places(e, m, b) && n < Position(g, m)
    requires Chained(e, g, n, q)
    ensures b < |LaidOut(e).sections| && StateAt(e, q).pos <= LaidOut(e).sections[b].hdr.offset
  {
    hide Order, Laminar, LayoutFits, StateAt, LaidOut, TopLevel, MarksOf, Returned, Visible, Spacious, NullLeads,
         Position;
    StandsSizes(e, g);
    if q > 0 {
      var y: nat :| Placer(e, y) && Position(g, y) < n && Position(e, y) == q - 1;
      StandsInTurn(e, g, y, m);
    }
    CursorGrows(e, q, Position(e, m));
    LaterStarts(e, Position(e, m), b);
  }

  /** If laying out what was read back changes nothing, the order is kept. */
  lemma StandsInOrder(e: Elf, g: Elf)
    requires Stands(e, g)
    ensures ElfOk(e) && MainOrder(e, Order(g.segments))
  {
    hide Stands, Order, OutermostIn, Steady, Position, WellFormed, Returned, OwnsBytes, MainOrder, Placer, Visible;
    StandsSizes(e, g);
    forall k: nat, m: nat | k < |e.segments| && OutermostIn(Lists(e.segments), m) && k != m &&
                            (OutermostIn(Lists(e.segments), k) || !Steady(e, k))
      ensures Earlier(Order(g.segments), k, m) <==> Earlier(Order(e.segments), k, m)
    {
      StandsPair(e, g, k, m);
      PositionsOrder(e, k, m);
      PositionsOrder(g, k, m);
    }
    OutermostOrder(e, Order(g.segments));
  }

  lemma StandsPair(e: Elf, g: Elf, k: nat, m: nat)
    requires Stands(e, g) && k < |e.segments| && OutermostIn(Lists(e.segments), m) && k != m
    requires OutermostIn(Lists(e.segments), k) || !Steady(e, k)
    ensures m < |e.segments| == |g.segments|
    ensures Position(g, k) < Position(g, m) <==> Position(e, k) < Position(e, m)
  {
    hide Stands, Order, OutermostIn, Steady, Position, WellFormed, Returned, OwnsBytes, Placer, Visible;
    StandsSizes(e, g);
    OutermostIsPlacer(e, e, k);
    OutermostIsPlacer(e, e, m);
    OutermostExists(e, m);
    if OutermostIn(Lists(e.segments), k) {
      DifferentPlaces(g, k, m);
      if Position(g, k) < Position(g, m) {
        StandsInTurn(e, g, k, m);
      } else {
        StandsInTurn(e, g, m, k);
      }
    } else {
      StandsAside(e, g, k, m);
    }
  }

  lemma OutermostExists(e: Elf, m: nat)
    requires OutermostIn(Lists(e.segments), m)
    ensures m < |e.segments|
  {
  }

  // ----- when the null section leads

  /** After reading, the swap loop brings all segments that begin with the null section to the front; this is
      section 0. */
  predicate NullInFront(e: Elf)
    requires ElfOk(e)
  {
    && (forall k :: 0 <= k < |e.segments| && StartsWithNull(e.segments[k], e.sections) ==>
         e.segments[k].sections[0] == 0)
    && Ordering.ZerosFirst(NullFirsts(e), Ordering.FrontZeros(NullFirsts(e), Ordering.Range(|e.segments|), 0, 0))
  }

  /** Two segments that begin with section 0, of which nothing includes the one: it includes the other. */
  lemma IncludesOthers(lists: seq<seq<nat>>, k: nat, x: nat)
    requires Laminar(lists) && AllSorted(lists) && OutermostIn(lists, k) && x < |lists| && lists[x] != lists[k]
    requires 0 in lists[k] && 0 in lists[x]
    ensures Ordering.IsSubsequenceOf(lists[x], lists[k])
  {
    assert !Disjoint(lists[x], lists[k]);
    if !Ordering.IsSubsequenceOf(lists[x], lists[k]) {
      if Ordering.Subset(lists[k], lists[x]) {
        NotStrictlyIncluded(lists[k], lists[x]);
      } else {
        NotStrictlyIncluded(lists[x], lists[k]);
      }
      SortedIsUnique(lists[x], lists[k]);
    }
  }

  /** Then the one of them that nothing includes comes first. */
  lemma FrontIsTaken(e: Elf, k: nat)
    requires WellFormed(e) && Visible(e) && NullInFront(e) && k < |e.segments|
    requires OutermostIn(Lists(e.segments), k) && StartsWithNull(e.segments[k], e.sections)
    ensures OrderAgain(e) != [] && OrderAgain(e)[0] == k
  {
    hide Ordering.Drain, Ordering.FrontZeros, Ordering.IsSubsequenceOf, Laminar, OwnsBytes, SegShape;
    var lists, zero, all := Lists(e.segments), NullFirsts(e), Ordering.Range(|e.segments|);
    var work := Ordering.FrontZeros(zero, all, 0, 0);
    OrderIsSound(e);
    Ordering.FrontPermutes(zero, all, 0, 0);
    PermutationIsDistinct(work, |e.segments|);
    var i := IndexIn(work, k);
    assert Ordering.Indexes(lists, work);
    assert Ordering.Free(lists, k, work);
    forall j | 0 <= j < i
      ensures !Ordering.Free(lists, work[j], work)
    {
      var x := work[j];
      assert zero[work[i]] && zero[x] && x != k;
      assert e.segments[k].sections[0] == 0 && e.segments[x].sections[0] == 0;
      IncludesOthers(lists, k, x);
      assert Ordering.IsSubsequenceOf(lists[x], lists[work[i]]);
    }
    Ordering.DrainTakes(lists, work, i);
  }

  lemma FrontLeads(e: Elf)
    requires WellFormed(e) && Visible(e) && NullInFront(e)
    ensures NullLeads(e, OrderAgain(e))
  {
    hide OrderAgain, OutermostIn, StartsWithNull, NullInFront, Visible, Laminar, SegShape, Order;
    OrderAgainHasAll(e);
    forall k, m | 0 <= k < |e.segments| && 0 <= m < |e.segments| && k != m && OutermostIn(Lists(e.segments), k) &&
                  StartsWithNull(e.segments[k], e.sections)
      ensures Earlier(OrderAgain(e), k, m)
    {
      FrontIsTaken(e, k);
      FirstIsEarlier(OrderAgain(e), k, m);
    }
  }

  lemma FirstIsEarlier(order: seq<nat>, k: nat, m: nat)
    requires order != [] && order[0] == k && m in order && m != k
    ensures Earlier(order, k, m)
  {
  }

  // ----- theorems

  lemma ReadBack(e: Elf) returns (g: Elf)
    requires Recovered(e)
    ensures |LaidOut(e).hdr.ident| == EI_NIDENT
    ensures var r := LoadFrom(e.conv.host, FileFormat.Image(LaidOut(e))); r.Some? && r.value.0 == g
    ensures Fitting(e) && Returned(e, g) && g.hdr == LaidOut(e).hdr && Order(g.segments) == OrderAgain(e)
  {
    hide LaidOut, FileFormat.Image, LoadFrom, Returned, OrderAgain, Order;
    SaveThenLoad(e);
    g := Reloaded(LaidOut(e), FileFormat.Image(LaidOut(e)));
    ReturnedAfterLoad(e, LaidOut(e), g, FileFormat.Image(LaidOut(e)));
  }

  lemma InOrderStands(e: Elf, g: Elf)
    requires Fitting(e) && Returned(e, g) && g.hdr == LaidOut(e).hdr && MainOrder(e, Order(g.segments))
    ensures Fitting(g) && LaidOut(g) == g
  {
    hide LaidOut, Returned, MainOrder, Order, Laminar, SegShape, FitsAt, AfterSegments, AfterSections;
    assert Reread(e, g);
    LayoutAgain(e, g);
    FittingAgain(e, g);
  }

  /** What was read back fits, and its layout does not change any more, exactly if the order is kept. */
  lemma FixpointWithRoom(e: Elf)
    requires Recovered(e) && Visible(e)
    ensures |LaidOut(e).hdr.ident| == EI_NIDENT
    ensures var r := LoadFrom(e.conv.host, FileFormat.Image(LaidOut(e)));
            && r.Some? && ElfOk(r.value.0)
            && (Fitting(r.value.0) && LaidOut(r.value.0) == r.value.0 <==> OrderKept(e))
  {
    hide LaidOut, FileFormat.Image, LoadFrom, MainOrder, Order, Fitting, Visible, OrderAgain, Recovered;
    RecoveredIsOk(e);
    var g := ReadBack(e);
    if OrderKept(e) {
      InOrderStands(e, g);
    }
    if Fitting(g) && LaidOut(g) == g {
      FixpointOrders(e, g);
    }
  }

  lemma RecoveredIsOk(e: Elf)
    requires Recovered(e)
    ensures ElfOk(e)
  {
  }

  /** Nor need one ask whether it fits, if the swap loop brings the segments that begin with the null section
      to the front and the end is not close to the class's limit. */
  lemma FixpointExactly(e: Elf)
    requires Recovered(e) && Visible(e) && Spacious(e) && NullInFront(e)
    ensures |LaidOut(e).hdr.ident| == EI_NIDENT
    ensures var r := LoadFrom(e.conv.host, FileFormat.Image(LaidOut(e)));
            r.Some? && ElfOk(r.value.0) && (LaidOut(r.value.0) == r.value.0 <==> OrderKept(e))
  {
    hide LaidOut, FileFormat.Image, LoadFrom, MainOrder, Order, Fitting, Visible, OrderAgain, Recovered, Spacious,
         NullLeads, NullInFront;
    RecoveredIsOk(e);
    var g := ReadBack(e);
    if OrderKept(e) {
      InOrderStands(e, g);
    }
    if LaidOut(g) == g {
      FittingIsFormed(e);
      FrontLeads(e);
      StandsInOrder(e, g);
    }
  }
}
