/** Laying out again what was just read back from a laid-out file changes nothing. */
module Relayout {
  import opened Arith
  import opened ElfTypes
  import opened ElfState
  import opened Layout
  import opened FreshRun
  import opened SegmentPass
  import opened SegmentOrder
  import opened LayoutPass
  import opened LoosePass
  import opened LayoutTheorems
  import opened Budget
  import opened WalkAgain
  import Frozen
  import Ordering

  /** The sizes of segment k do not depend on the cursor: it does not begin with the null section, or its
      first section proper has bytes and counts. */
  predicate Steady(e: Elf, k: nat)
    requires ElfOk(e) && k < |e.segments|
  {
    var seg := e.segments[k];
    StartsWithNull(seg, e.sections) ==>
      exists j :: 0 <= j < |seg.sections| && SteadyAt(FrameOf(seg), e.sections, seg.sections, j)
  }

  /** Segments that place their sections stand in this order as in the layout's, relative to each other, to
      others with the same sections, and to those that take their sizes from the cursor. */
  predicate MainOrder(e: Elf, again: seq<nat>)
    requires ElfOk(e)
  {
    var lists, order := Lists(e.segments), Order(e.segments);
    forall k: nat, m: nat {:trigger Earlier(again, k, m)} ::
      (k < |lists| && m < |lists| && k != m && PlacesIn(lists, order, m)
       && (PlacesIn(lists, order, k) || lists[k] == lists[m] || !Steady(e, k)))
        ==> (Earlier(again, k, m) <==> Earlier(order, k, m))
  }

  /** Object g is the laid-out object e as it was read back, with the same section lists. */
  predicate Returned(e: Elf, g: Elf)
    requires ElfOk(e)
  {
    && ElfOk(g) && g.cls == e.cls && Prepared(g) == Prepared(e)
    && InitialState(g).pos == InitialState(e).pos
    && |g.sections| == |e.sections| && |g.segments| == |e.segments|
    && (forall i :: 0 <= i < |e.sections| ==> Same(LaidOut(e).sections[i], g.sections[i]))
    && (forall k :: 0 <= k < |e.segments| ==> RereadSegment(e, g, k))
  }

  /** And its segments are treated in the order that matters. */
  predicate Reread(e: Elf, g: Elf)
    requires ElfOk(e)
  {
    Returned(e, g) && MainOrder(e, Order(g.segments))
  }

  predicate RereadSegment(e: Elf, g: Elf, k: nat)
    requires ElfOk(e) && k < |g.segments| && k < |e.segments|
  {
    && SameSegment(e.segments[k], g.segments[k])
    && g.segments[k].hdr.offset == LaidOut(e).segments[k].hdr.offset
    && g.segments[k].hdr.filesz == LaidOut(e).segments[k].hdr.filesz
    && g.segments[k].hdr.memsz == LaidOut(e).segments[k].hdr.memsz
  }

  // ----- which segments place sections

  /** Segment k places the sections it lists. */
  predicate Placer(e: Elf, k: nat) {
    k < |e.segments| && PlacerAt(e, Position(e, k))
  }

  lemma OrderIsSound(e: Elf)
    requires WellFormed(e)
    ensures var lists := Lists(e.segments);
            Laminar(lists) && AllSorted(lists) && Orders(lists, Order(e.segments))
  {
    OrderFacts(e.segments);
    forall m | 0 <= m < |e.segments|
      ensures Ordering.Sorted(Lists(e.segments)[m])
    {
      assert SegShape(e.sections, e.segments[m]);
    }
  }

  lemma PlacerIsPlacing(e: Elf, k: nat)
    requires k < |e.segments|
    ensures Placer(e, k) <==> PlacesIn(Lists(e.segments), Order(e.segments), k)
  {
    OrderFacts(e.segments);
    if e.segments[k].sections != [] {
      PlacesByPosition(Lists(e.segments), Order(e.segments), Position(e, k));
    }
  }

  /** After reading, the same segments place sections. */
  lemma PlacerAgain(e: Elf, g: Elf, k: nat)
    requires WellFormed(e) && Lists(g.segments) == Lists(e.segments) && MainOrder(e, Order(g.segments))
    ensures Placer(g, k) <==> Placer(e, k)
  {
    hide Placer, Order, Laminar, Steady;
    var lists, order, again := Lists(e.segments), Order(e.segments), Order(g.segments);
    OrderIsSound(e);
    OrderFacts(g.segments);
    if k < |e.segments| {
      PlacerIsPlacing(e, k);
      PlacerIsPlacing(g, k);
      PlacesAgain(lists, order, again, k);
    } else {
      NoPlacer(e, g, k);
    }
  }

  /** The same segments place sections in both layouts. */
  ghost predicate PlacersAgree(e: Elf, g: Elf) {
    forall k: nat :: Placer(g, k) <==> Placer(e, k)
  }

  lemma RereadPlacers(e: Elf, g: Elf)
    requires WellFormed(e) && Reread(e, g)
    ensures PlacersAgree(e, g)
  {
    hide Placer, Returned;
    ListsAgain(e, g);
    forall k: nat
      ensures Placer(g, k) <==> Placer(e, k)
    {
      PlacerAgain(e, g, k);
    }
  }

  lemma NoPlacer(e: Elf, g: Elf, k: nat)
    requires |g.segments| == |e.segments| <= k
    ensures !Placer(e, k) && !Placer(g, k)
  {
  }

  lemma PlacerIsOutermost(e: Elf, k: nat)
    requires WellFormed(e) && Placer(e, k)
    ensures OutermostIn(Lists(e.segments), k)
  {
    OrderIsSound(e);
    PlacerIsPlacing(e, k);
    PlacesIsOutermost(Lists(e.segments), Order(e.segments), k);
  }

  /** It is enough that the outermost segments keep their order, and those that take their sizes from the
      cursor keep theirs relative to them. */
  lemma OutermostOrder(e: Elf, again: seq<nat>)
    requires WellFormed(e)
    requires forall k: nat, m: nat {:trigger Earlier(again, k, m)} ::
               k < |e.segments| && OutermostIn(Lists(e.segments), m) && k != m &&
               (OutermostIn(Lists(e.segments), k) || !Steady(e, k)) ==>
               (Earlier(again, k, m) <==> Earlier(Order(e.segments), k, m))
    ensures MainOrder(e, again)
  {
    hide Order, Steady, Laminar, PlacesIn;
    OrderIsSound(e);
    var lists, order := Lists(e.segments), Order(e.segments);
    forall k: nat, m: nat | k < |lists| && m < |lists| && k != m && PlacesIn(lists, order, m) &&
                            (PlacesIn(lists, order, k) || lists[k] == lists[m] || !Steady(e, k))
      ensures Earlier(again, k, m) <==> Earlier(order, k, m)
    {
      PlacesIsOutermost(lists, order, m);
      if PlacesIn(lists, order, k) {
        PlacesIsOutermost(lists, order, k);
      }
    }
  }

  /** The cursor only moves when a segment places sections. */
  lemma {:induction false} CursorRests(e: Elf, p: nat, q: nat)
    requires Fitting(e) && p <= q <= |e.segments|
    requires forall n :: p <= n < q ==> !Placer(e, Order(e.segments)[n])
    ensures StateAt(e, q).pos == StateAt(e, p).pos
    decreases q
  {
    hide Placer, StateAt, Order, Laminar, LayoutFits;
    if p < q {
      CursorRests(e, p, q - 1);
      RestsOnce(e, q - 1);
    }
  }

  lemma RestsOnce(e: Elf, n: nat)
    requires Fitting(e) && n < |e.segments| && !Placer(e, Order(e.segments)[n])
    ensures StateAt(e, n + 1).pos == StateAt(e, n).pos
  {
    hide StateAt, Order, Laminar, LayoutFits, TopLevel, Laid, Layout.PlaceSegment;
    PositionIs(e, n);
    SegmentsAreLaid(e, n);
    StateStep(e, n);
    if e.segments[Order(e.segments)[n]].sections == [] {
      EmptyAffords(e, n, StateAt(e, n));
    } else {
      NestedAffords(e, n, StateAt(e, n));
    }
  }

  /** In the first run, the segment whose turn it is could place its sections. */
  lemma TurnsWork(e: Elf, n: nat, st: LayState)
    requires WellFormed(e) && n < |e.segments| && LayOk(st) && Laid(e, n, st)
    requires SegmentFits(e.cls, Prepared(e), st, Order(e.segments)[n])
    ensures var k := Order(e.segments)[n];
            var (f, c) := Open(Prepared(e), st, st.segs[k]);
            RunTurnable(e.cls, f, c, st.segs[k].sections)
  {
    var k := Order(e.segments)[n];
    assert st.segs[k] == e.segments[k];
    if e.segments[k].sections == [] {
      OldSegmentTurns(e.cls, Prepared(e), st, k);
    } else if TopLevel(e, n) {
      NewTurnWorks(e, n, st);
    } else {
      NestedStands(e, n, st);
      OldSegmentTurns(e.cls, Prepared(e), st, k);
    }
  }

  lemma NewTurnWorks(e: Elf, n: nat, st: LayState)
    requires WellFormed(e) && n < |e.segments| && LayOk(st) && Laid(e, n, st) && TopLevel(e, n)
    requires st.segs[Order(e.segments)[n]] == e.segments[Order(e.segments)[n]]
    requires e.segments[Order(e.segments)[n]].sections != []
    requires SegmentFits(e.cls, Prepared(e), st, Order(e.segments)[n])
    ensures var k := Order(e.segments)[n];
            var (f, c) := Open(Prepared(e), st, st.segs[k]);
            RunTurnable(e.cls, f, c, st.segs[k].sections)
  {
    var k := Order(e.segments)[n];
    var list := e.segments[k].sections;
    TypesKept(e, n, st);
    forall j | 0 <= j < |list|
      ensures !st.gen[list[j]]
    {
      assert list[j] in list;
    }
    NewSegmentTurns(e.cls, Prepared(e), st, k);
  }

  /** After its turn every section of the segment is where the finished layout has it. */
  lemma TurnIsFinal(e: Elf, n: nat, m: nat)
    requires Fitting(e) && n < |e.segments| && m < |e.segments[Order(e.segments)[n]].sections|
    requires StateAt(e, n).segs[Order(e.segments)[n]] == e.segments[Order(e.segments)[n]]
    ensures var i := e.segments[Order(e.segments)[n]].sections[m];
            StateAt(e, n + 1).secs[i] == LaidOut(e).sections[i]
  {
    var k := Order(e.segments)[n];
    StateStep(e, n);
    var (f, c) := Open(Prepared(e), StateAt(e, n), e.segments[k]);
    Frozen.WalkMarks(e.cls, f, c, e.segments[k].sections, m);
    Frozen.GeneratedIsFinal(e, n + 1, e.segments[k].sections[m]);
  }

  // ----- the second run, in its own order

  /** After n segments of its own order the second run has moved nothing, and its cursor is where the first
      run's was when just the same segments had placed their sections. */
  ghost predicate Mirrored(e: Elf, g: Elf, n: nat, q: nat)
    requires ElfOk(e) && ElfOk(g) && |g.segments| == |e.segments|
  {
    && n <= |e.segments| && q <= |e.segments|
    && (forall k: nat {:trigger Placer(e, k)} :: Placer(e, k) ==> (Position(e, k) < q <==> Position(g, k) < n))
    && StateAt(g, n).secs == g.sections && StateAt(g, n).segs == g.segments && StateAt(g, n).pos == StateAt(e, q).pos
    && MarksOf(g, n)
  }

  /** Exactly the sections of the segments treated are generated. */
  predicate MarksOf(g: Elf, n: nat)
    requires ElfOk(g) && n <= |g.segments|
  {
    forall i :: 0 <= i < |g.sections| ==>
      (StateAt(g, n).gen[i] <==> InSome(Lists(g.segments), Order(g.segments)[..n], i))
  }

  lemma MarksOneMore(g: Elf, n: nat)
    requires ElfOk(g) && n < |g.segments| && MarksOf(g, n) && StateAt(g, n).segs == g.segments
    ensures MarksOf(g, n + 1)
  {
    hide StateAt, Order, Layout.PlaceSegment;
    StateStep(g, n);
    SegmentMarks(g.cls, Prepared(g), StateAt(g, n), Order(g.segments)[n]);
    OrderFacts(g.segments);
    var after := Order(g.segments)[..n + 1];
    forall i | 0 <= i < |g.sections|
      ensures StateAt(g, n + 1).gen[i] <==> InSome(Lists(g.segments), after, i)
    {
      InSomeStep(Lists(g.segments), Order(g.segments), n, i);
    }
  }

  /** Whether segment k finds its sections generated is the same in both runs. */
  lemma MarksAgree(e: Elf, g: Elf, n: nat)
    requires Fitting(e) && Returned(e, g) && PlacersAgree(e, g) && n < |e.segments| && MarksOf(g, n)
    ensures var k := Order(g.segments)[n];
            forall m :: 0 <= m < |e.segments[k].sections| ==>
              var i := e.segments[k].sections[m];
              StateAt(g, n).gen[i] == StateAt(e, Position(e, k)).gen[i] == !Placer(e, k)
  {
    hide Order, Laminar, LayoutFits, StateAt, LaidOut, Same, SegShape, Indexed, LaidAt;
    var k := Order(g.segments)[n];
    var p := Position(e, k);
    assert RereadSegment(e, g, k) && (Placer(g, k) <==> Placer(e, k));
    ListsAgain(e, g);
    PositionIs(g, n);
    SegmentsAreLaid(e, p);
    MarkedOrNot(e, p, k);
    OrderIsSound(e);
    OrderFacts(g.segments);
    AllOrNone(Lists(g.segments), Order(g.segments), n);
    forall m | 0 <= m < |e.segments[k].sections|
      ensures var i := e.segments[k].sections[m];
              StateAt(g, n).gen[i] == StateAt(e, p).gen[i] == !Placer(e, k)
    {
      assert e.segments[k].sections[m] in e.segments[k].sections;
    }
  }

  lemma ListsAgain(e: Elf, g: Elf)
    requires ElfOk(e) && Returned(e, g)
    ensures Lists(g.segments) == Lists(e.segments)
  {
    hide LaidOut;
    forall k | 0 <= k < |e.segments|
      ensures g.segments[k].sections == e.segments[k].sections
    {
      assert RereadSegment(e, g, k);
    }
  }

  /** In the first run a segment finds all its sections generated unless it places them. */
  lemma MarkedOrNot(e: Elf, p: nat, k: nat)
    requires WellFormed(e) && p < |e.segments| && LaidAt(e, p) && k == Order(e.segments)[p]
    ensures forall m :: 0 <= m < |e.segments[k].sections| ==>
              StateAt(e, p).gen[e.segments[k].sections[m]] == !Placer(e, k)
  {
    hide Order, Laminar, StateAt;
    PositionIs(e, p);
    forall m | 0 <= m < |e.segments[k].sections|
      ensures StateAt(e, p).gen[e.segments[k].sections[m]] == !Placer(e, k)
    {
      assert e.segments[k].sections[m] in e.segments[k].sections;
      if !TopLevel(e, p) {
        NestedStands(e, p, StateAt(e, p));
      }
    }
  }

  /** The second turn of segment k has before it what the first one left. */
  lemma TurnRepeats(e: Elf, g: Elf, n: nat)
    requires Fitting(e) && Returned(e, g) && PlacersAgree(e, g) && n < |e.segments| && MarksOf(g, n)
    requires StateAt(g, n).secs == g.sections && StateAt(g, n).segs == g.segments
    ensures var k := Order(g.segments)[n];
            Repeats(e.cls, Prepared(e), StateAt(e, Position(e, k)), StateAt(g, n), k)
    ensures LaidAt(e, Position(e, Order(g.segments)[n]))
  {
    hide Order, Laminar, LayoutFits, StateAt, LaidOut, Layout.PlaceSegment, AfterSegments, PlacersAgree;
    var k := Order(g.segments)[n];
    var p := Position(e, k);
    var st := StateAt(e, p);
    SegmentsAreLaid(e, p);
    assert st.segs[k] == e.segments[k] && RereadSegment(e, g, k);
    MarksAgree(e, g, n);
    StateStep(e, p);
    Frozen.DoneIsFinal(e, p);
    ListReturns(e, g, p);
    if e.segments[k].sections != [] {
      SameType(e, g, p, e.segments[k].sections[0]);
    }
  }

  /** Every section of the segment at position p is read back as its turn leaves it, and as it was before
      that if it was generated. */
  lemma ListReturns(e: Elf, g: Elf, p: nat)
    requires Fitting(e) && Returned(e, g) && p < |e.segments| && LaidAt(e, p)
    requires StateAt(e, p).segs[Order(e.segments)[p]] == e.segments[Order(e.segments)[p]]
    ensures var st, list := StateAt(e, p), e.segments[Order(e.segments)[p]].sections;
            && Within(list, |e.sections|) && |st.secs| == |st.gen| == |e.sections| == |g.sections|
            && |StateAt(e, p + 1).secs| == |e.sections|
            && forall m :: 0 <= m < |list| ==>
                 && Same(StateAt(e, p + 1).secs[list[m]], g.sections[list[m]])
                 && (st.gen[list[m]] ==> g.sections[list[m]].hdr == st.secs[list[m]].hdr)
  {
    hide Order, Laminar, LayoutFits, StateAt, LaidOut, AfterSegments, RereadSegment;
    var list := e.segments[Order(e.segments)[p]].sections;
    SegmentsAreLaid(e, p + 1);
    forall m | 0 <= m < |list|
      ensures Same(StateAt(e, p + 1).secs[list[m]], g.sections[list[m]])
      ensures StateAt(e, p).gen[list[m]] ==> g.sections[list[m]].hdr == StateAt(e, p).secs[list[m]].hdr
    {
      TurnIsFinal(e, p, m);
      if StateAt(e, p).gen[list[m]] {
        Frozen.GeneratedIsFinal(e, p, list[m]);
      }
    }
  }

  lemma SameType(e: Elf, g: Elf, p: nat, i: nat)
    requires Fitting(e) && Returned(e, g) && p <= |e.segments| && i < |e.sections| && LaidAt(e, p)
    ensures StateAt(e, p).secs[i].IsNull() == g.sections[i].IsNull()
  {
    hide LaidOut, StateAt, Laminar;
    TypesKept(e, p, StateAt(e, p));
    Frozen.LayoutMoves(e);
    assert e.sections[i].Moved(LaidOut(e).sections[i]);
  }

  /** The segments that had placed sections before segment k's turn are the same in both runs, if k's turn
      depends on them. */
  lemma SameCursor(e: Elf, g: Elf, n: nat, q: nat, k: nat)
    requires Fitting(e) && Reread(e, g) && Mirrored(e, g, n, q) && n < |e.segments| && k == Order(g.segments)[n]
    requires Placer(e, k) || !Steady(e, k) || e.segments[k].sections == []
    ensures StateAt(g, n).pos == StateAt(e, Position(e, k)).pos
  {
    hide Order, Laminar, LayoutFits, StateAt, LaidOut, Placer, Steady, MarksOf;
    var p := Position(e, k);
    PositionIs(g, n);
    forall m: nat | Placer(e, m)
      ensures Position(e, m) < q <==> Position(e, m) < p
    {
      if m != k {
        SameBefore(e, g, k, m);
      }
    }
    if p <= q {
      CursorRestsBetween(e, p, q);
    } else {
      CursorRestsBetween(e, q, p);
    }
  }

  lemma CursorRestsBetween(e: Elf, p: nat, q: nat)
    requires Fitting(e) && p <= q <= |e.segments|
    requires forall m: nat {:trigger Placer(e, m)} :: Placer(e, m) ==> (Position(e, m) < q <==> Position(e, m) < p)
    ensures StateAt(e, q).pos == StateAt(e, p).pos
  {
    hide Order, StateAt, Placer, LayoutFits;
    forall n | p <= n < q
      ensures !Placer(e, Order(e.segments)[n])
    {
      PositionIs(e, n);
    }
    CursorRests(e, p, q);
  }

  lemma SameBefore(e: Elf, g: Elf, k: nat, m: nat)
    requires WellFormed(e) && Reread(e, g) && k < |e.segments| && m < |e.segments| && k != m
    requires Placer(e, m) && (Placer(e, k) || !Steady(e, k) || e.segments[k].sections == [])
    ensures Position(g, k) < Position(g, m) <==> Position(e, k) < Position(e, m)
  {
    hide Order, Laminar, LaidOut, Steady, TopLevel;
    ListsAgain(e, g);
    PlacerIsPlacing(e, k);
    PlacerIsPlacing(e, m);
    OrderFacts(e.segments);
    OrderFacts(g.segments);
    assert Earlier(Order(g.segments), k, m) <==> Position(g, k) < Position(g, m);
    assert Earlier(Order(e.segments), k, m) <==> Position(e, k) < Position(e, m);
    if e.segments[k].sections == [] {
      EmptyComesLast(Lists(e.segments), Order(e.segments), k, m);
      EmptyComesLast(Lists(e.segments), Order(g.segments), k, m);
    }
  }

  /** A segment without sections comes after all others. */
  lemma EmptyComesLast(lists: seq<seq<nat>>, order: seq<nat>, k: nat, m: nat)
    requires Orders(lists, order) && k < |lists| && m < |lists| && k != m && lists[k] == [] && lists[m] != []
    ensures Earlier(order, m, k) && !Earlier(order, k, m)
  {
    NotBoth(order, k, m);
    if Earlier(order, k, m) {
      NotIncludedLater(lists, order, k, m);
    }
  }

  /** One more segment of the second run. */
  lemma MirrorStep(e: Elf, g: Elf, n: nat, q: nat) returns (q': nat)
    requires Fitting(e) && Reread(e, g) && n < |e.segments| && Mirrored(e, g, n, q)
    ensures Mirrored(e, g, n + 1, q')
  {
    hide Order, Laminar, LayoutFits, StateAt, LaidOut, MarksOf, Placer, Repeats, Layout.PlaceSegment, MainOrder, Same,
         PlacersAgree, RereadSegment, SegShape, Indexed, LaidAt, Position;
    var k := Order(g.segments)[n];
    var p := Position(e, k);
    RereadPlacers(e, g);
    TurnRepeats(e, g, n);
    MarksOneMore(g, n);
    StateStep(g, n);
    PositionIs(g, n);
    if Placer(e, k) {
      PlacerTurn(e, g, n, q, k);
      q' := p + 1;
      SamePlacers(e, g, n, q, k);
    } else {
      RestTurn(e, g, n, q, k);
      q' := q;
      OthersAsBefore(e, g, n, q, k);
    }
  }

  /** The turn of a segment that places sections takes the cursor where it took it. */
  lemma PlacerTurn(e: Elf, g: Elf, n: nat, q: nat, k: nat)
    requires Fitting(e) && Reread(e, g) && n < |e.segments| && Mirrored(e, g, n, q) && k == Order(g.segments)[n]
    requires Placer(e, k) && LaidAt(e, Position(e, k))
    requires Repeats(e.cls, Prepared(e), StateAt(e, Position(e, k)), StateAt(g, n), k)
    ensures Unmoved(StateAt(g, n), StateAt(g, n + 1), StateAt(e, Position(e, k) + 1).pos, e.segments[k].sections)
  {
    hide Order, Laminar, LayoutFits, StateAt, LaidOut, MarksOf, Steady, Placer, Repeats, Layout.PlaceSegment,
         MainOrder, Same, Laid;
    var p := Position(e, k);
    SameCursor(e, g, n, q, k);
    StateStep(e, p);
    StateStep(g, n);
    CanTurn(e, p);
    SegmentAgain(e.cls, Prepared(e), StateAt(e, p), StateAt(g, n), k);
  }

  lemma CanTurn(e: Elf, p: nat)
    requires Fitting(e) && p < |e.segments| && LaidAt(e, p)
    ensures var k, st := Order(e.segments)[p], StateAt(e, p);
            var (f, c) := Open(Prepared(e), st, st.segs[k]);
            st.segs[k] == e.segments[k] && RunTurnable(e.cls, f, c, st.segs[k].sections)
  {
    hide StateAt, Laminar;
    assert FitsAt(e, p);
    TurnsWork(e, p, StateAt(e, p));
  }

  /** The turn of any other segment leaves the cursor where it is. */
  lemma RestTurn(e: Elf, g: Elf, n: nat, q: nat, k: nat)
    requires Fitting(e) && Reread(e, g) && n < |e.segments| && Mirrored(e, g, n, q) && k == Order(g.segments)[n]
    requires !Placer(e, k) && LaidAt(e, Position(e, k))
    requires Repeats(e.cls, Prepared(e), StateAt(e, Position(e, k)), StateAt(g, n), k)
    ensures Unmoved(StateAt(g, n), StateAt(g, n + 1), StateAt(g, n).pos, e.segments[k].sections)
  {
    hide Order, Laminar, LayoutFits, StateAt, LaidOut, Placer, Repeats, Layout.PlaceSegment,
         MainOrder, Same, Laid;
    var p := Position(e, k);
    var st := StateAt(e, p);
    StateStep(e, p);
    StateStep(g, n);
    RestsOnce(e, p);
    CanTurn(e, p);
    if e.segments[k].sections == [] || !Steady(e, k) {
      SameCursor(e, g, n, q, k);
      SegmentAgain(e.cls, Prepared(e), st, StateAt(g, n), k);
    } else {
      NestedTurn(e, StateAt(g, n), k);
    }
  }

  /** So does that of a nested segment that does not take its sizes from it, wherever it is. */
  lemma NestedTurn(e: Elf, su: LayState, k: nat)
    requires Fitting(e) && k < |e.segments| && LaidAt(e, Position(e, k))
    requires !Placer(e, k) && Steady(e, k) && e.segments[k].sections != []
    requires Repeats(e.cls, Prepared(e), StateAt(e, Position(e, k)), su, k)
    ensures Unmoved(su, PlaceSegment(e.cls, Prepared(e), su, k), su.pos, e.segments[k].sections)
  {
    hide Order, Laminar, LayoutFits, StateAt, Placer, Repeats, Layout.PlaceSegment, Laid;
    var p := Position(e, k);
    CanTurn(e, p);
    MarkedOrNot(e, p, k);
    var j := SteadyFirst(e, p, k);
    NestedAgain(e.cls, Prepared(e), StateAt(e, p), su, k, j);
  }

  lemma SteadyFirst(e: Elf, p: nat, k: nat) returns (j: nat)
    requires WellFormed(e) && p <= |e.segments| && k < |e.segments| && LaidAt(e, p) && Steady(e, k)
    requires StateAt(e, p).segs[k] == e.segments[k]
    ensures StartsWithNull(e.segments[k], StateAt(e, p).secs) ==>
              SteadyAt(FrameOf(e.segments[k]), StateAt(e, p).secs, e.segments[k].sections, j)
  {
    hide StateAt, Laminar, SegShape, SteadyAt;
    TypesKept(e, p, StateAt(e, p));
    j := 0;
    if StartsWithNull(e.segments[k], e.sections) {
      j :| 0 <= j < |e.segments[k].sections| && SteadyAt(FrameOf(e.segments[k]), e.sections, e.segments[k].sections, j);
      SteadyMoves(FrameOf(e.segments[k]), e.sections, StateAt(e, p).secs, e.segments[k].sections, j);
    }
  }

  lemma SteadyMoves(f: Frame, secs: seq<SectionState>, secs': seq<SectionState>, list: seq<nat>, j: nat)
    requires |secs'| == |secs| && (forall i :: 0 <= i < |secs'| ==> secs[i].Moved(secs'[i]))
    requires Within(list, |secs|) && SteadyAt(f, secs, list, j)
    ensures SteadyAt(f, secs', list, j)
  {
  }

  lemma SamePlacers(e: Elf, g: Elf, n: nat, q: nat, k: nat)
    requires Fitting(e) && Reread(e, g) && Mirrored(e, g, n, q) && n < |e.segments| && k == Order(g.segments)[n]
    requires Placer(e, k)
    ensures forall m: nat {:trigger Placer(e, m)} ::
              Placer(e, m) ==> (Position(e, m) < Position(e, k) + 1 <==> Position(g, m) < n + 1)
  {
    hide Order, Laminar, LayoutFits, StateAt, LaidOut, Placer, Steady, MarksOf, MainOrder;
    PositionIs(g, n);
    forall m: nat | Placer(e, m)
      ensures Position(e, m) < Position(e, k) + 1 <==> Position(g, m) < n + 1
    {
      if m != k {
        SameBefore(e, g, m, k);
        DifferentPlaces(e, m, k);
        DifferentPlaces(g, m, k);
      }
    }
  }

  lemma DifferentPlaces(e: Elf, k: nat, m: nat)
    requires k < |e.segments| && m < |e.segments| && k != m
    ensures Position(e, k) != Position(e, m)
  {
    assert Order(e.segments)[Position(e, k)] != Order(e.segments)[Position(e, m)];
  }

  lemma OthersAsBefore(e: Elf, g: Elf, n: nat, q: nat, k: nat)
    requires ElfOk(e) && Reread(e, g) && Mirrored(e, g, n, q) && n < |e.segments| && k == Order(g.segments)[n]
    requires !Placer(e, k)
    ensures forall m: nat {:trigger Placer(e, m)} :: Placer(e, m) ==> (Position(e, m) < q <==> Position(g, m) < n + 1)
  {
    hide Order, StateAt, LaidOut, MarksOf, MainOrder, TopLevel;
    PositionIs(g, n);
    forall m: nat | Placer(e, m)
      ensures Position(e, m) < q <==> Position(g, m) < n + 1
    {
      DifferentPlaces(g, m, k);
    }
  }

  lemma {:induction false} Mirror(e: Elf, g: Elf, n: nat) returns (q: nat)
    requires Fitting(e) && Reread(e, g) && n <= |e.segments|
    ensures Mirrored(e, g, n, q)
  {
    hide LaidOut, MainOrder, Laminar, LayoutFits;
    if n == 0 {
      q := 0;
      assert Order(e.segments)[..0] == [] && Order(g.segments)[..0] == [];
    } else {
      q := Mirror(e, g, n - 1);
      hide Mirrored, Reread;
      q := MirrorStep(e, g, n - 1, q);
    }
  }

  // ----- sections without segments

  /** The second pass from state su, whose sections are where the first pass, from st, puts them. */
  lemma {:induction false} LooseAgain(cls: ElfClass, st: LayState, su: LayState, n: nat)
    requires n <= |st.secs| == |su.secs| && su.pos == st.pos
    requires forall i :: 0 <= i < |su.secs| ==> IsLoose(su.segs, i) == IsLoose(st.segs, i)
    requires forall i :: 0 <= i < |su.secs| ==> Same(PlaceLooseUpTo(cls, st, |su.secs|).secs[i], su.secs[i])
    ensures PlaceLooseUpTo(cls, su, n) == su.(pos := PlaceLooseUpTo(cls, st, n).pos)
  {
    hide PlaceLoose;
    if n > 0 {
      LooseAgain(cls, st, su, n - 1);
      Frozen.LooseKeeps(cls, st, n, |su.secs|, n - 1);
      assert Same(PlaceLooseUpTo(cls, st, n).secs[n - 1], su.secs[n - 1]);
      LooseTurnAgain(cls, PlaceLooseUpTo(cls, st, n - 1), PlaceLooseUpTo(cls, su, n - 1), n - 1);
    }
  }

  lemma LooseTurnAgain(cls: ElfClass, st: LayState, su: LayState, i: nat)
    requires i < |st.secs| == |su.secs| && IsLoose(su.segs, i) == IsLoose(st.segs, i) && su.pos == st.pos
    requires Same(PlaceLoose(cls, st, i).secs[i], su.secs[i])
    ensures PlaceLoose(cls, su, i) == su.(pos := PlaceLoose(cls, st, i).pos)
  {
    hide Wrap, Pad;
    assert su.secs[i].hdr.addrAlign == st.secs[i].hdr.addrAlign && su.secs[i].hdr.size == st.secs[i].hdr.size;
    assert PlaceLoose(cls, su, i).secs == su.secs[i := PlaceLoose(cls, su, i).secs[i]];
  }

  lemma SameLoose(e: Elf, g: Elf)
    requires Fitting(e) && Reread(e, g)
    ensures forall i :: 0 <= i < |e.sections| ==> IsLoose(g.segments, i) == IsLoose(AfterSegments(e).segs, i)
  {
    Frozen.AllStates(e);
    SegmentsAreLaid(e, |e.segments|);
    ListsKept(e, AfterSegments(e));
    forall k | 0 <= k < |e.segments|
      ensures g.segments[k].sections == AfterSegments(e).segs[k].sections
    {
      assert RereadSegment(e, g, k);
    }
  }

  /** The second layout finds every section and segment in its place. */
  lemma LayoutAgain(e: Elf, g: Elf)
    requires Fitting(e) && Reread(e, g)
    ensures LaidOut(g) == g.(hdr := LaidOut(e).hdr)
  {
    hide Mirrored, Order, MainOrder, StateAt, Laminar, LayoutFits, AfterSegments;
    Frozen.AllStates(e);
    Frozen.AllStates(g);
    var q := Mirror(e, g, |e.segments|);
    SameEnd(e, g, q);
    SameLoose(e, g);
    LooseAgain(e.cls, AfterSegments(e), AfterSegments(g), |e.sections|);
  }

  /** Both runs end with the same cursor. */
  lemma SameEnd(e: Elf, g: Elf, q: nat)
    requires Fitting(e) && ElfOk(g) && |g.segments| == |e.segments| && Mirrored(e, g, |e.segments|, q)
    ensures StateAt(g, |e.segments|).pos == StateAt(e, |e.segments|).pos
    ensures StateAt(g, |e.segments|).secs == g.sections && StateAt(g, |e.segments|).segs == g.segments
  {
    hide Order, StateAt, Laminar, LayoutFits, MarksOf;
    CursorRestsBetween(e, q, |e.segments|);
  }

  // ----- the object read back fits again

  lemma TurnFitsAgain(cls: ElfClass, f: Frame, c: Cursor, d: Cursor, i: nat)
    requires c.Has(i) && d.Has(i) && Indexed(c.secs) && f.start <= c.pos < cls.Limit() && Fits(cls, f, c, i)
    requires d.pos == c.pos && d.gen[i] == c.gen[i] && Same(PlaceOne(cls, f, c, i).secs[i], d.secs[i])
    ensures Fits(cls, f, d, i)
  {
    if !c.secs[i].IsNull() && !c.gen[i] {
      PlacedFacts(cls, f, c, c.pos, i);
    }
  }

  lemma {:induction false} RunFitsAgain(cls: ElfClass, f: Frame, c: Cursor, d: Cursor, list: seq<nat>)
    requires Retraces(c, d) && Within(list, |c.secs|) && Ordering.Sorted(list)
    requires Indexed(c.secs) && NobitsLast(c.secs, list) && NoneGenerated(c, list)
    requires f.start <= c.pos < cls.Limit() && c.filesz == c.memsz == c.pos - f.start && RunFits(cls, f, c, list)
    requires forall m :: 0 <= m < |list| ==>
               d.gen[list[m]] == c.gen[list[m]] && Same(PlaceAll(cls, f, c, list).secs[list[m]], d.secs[list[m]])
    ensures RunFits(cls, f, d, list)
  {
    hide PlaceOne, Fits;
    if list != [] {
      var init, i := list[..|list| - 1], list[|list| - 1];
      LastOf(c, list);
      forall m | 0 <= m < |init|
        ensures d.gen[init[m]] == c.gen[init[m]] && Same(PlaceAll(cls, f, c, init).secs[init[m]], d.secs[init[m]])
      {
        Frozen.PrefixKept(cls, f, c, list, m);
        assert init[m] == list[m];
      }
      RunFitsAgain(cls, f, c, d, init);
      FreshTurnable(cls, f, c, init);
      RunAgain(cls, f, c, d, init);
      WalkAll(cls, f, c, init);
      SameTypes(cls, f, c, PlaceAll(cls, f, c, init), Elems(init));
      Frozen.WalkTouches(cls, f, c, init, i);
      Frozen.WalkTouches(cls, f, d, init, i);
      TurnFitsAgain(cls, f, PlaceAll(cls, f, c, init), PlaceAll(cls, f, d, init), i);
    }
  }

  /** A segment that fitted where the cursor stood fits there again. */
  lemma SegmentFitsAgain(cls: ElfClass, h: Ehdr, st: LayState, su: LayState, k: nat)
    requires Repeats(cls, h, st, su, k) && su.pos == st.pos && st.pos < cls.Limit()
    requires Indexed(st.secs) && SegShape(st.secs, st.segs[k]) && st.segs[k].sections != []
    requires NoneMarked(st, st.segs[k].sections) && SegmentFits(cls, h, st, k)
    ensures SegmentFits(cls, h, su, k)
  {
    OpenFresh(cls, h, st, k);
    var (f, c) := Open(h, st, st.segs[k]);
    var (f', d) := Open(h, su, su.segs[k]);
    assert f' == f && Retraces(c, d);
    hide Open;
    RunFitsAgain(cls, f, c, d, st.segs[k].sections);
  }

  lemma FitsAtAgain(e: Elf, g: Elf, n: nat, q: nat)
    requires Fitting(e) && Reread(e, g) && n < |e.segments| && Mirrored(e, g, n, q)
    ensures FitsAt(g, n)
  {
    hide Order, Laminar, StateAt, LaidOut, MarksOf, Steady, Repeats, MainOrder, Same, TopLevel, SegmentFits,
         Prepared;
    var k := Order(g.segments)[n];
    var p := Position(e, k);
    RereadPlacers(e, g);
    TurnRepeats(e, g, n);
    MarksAgree(e, g, n);
    SameListOf(e, g, k);
    if Placer(e, k) {
      SameCursor(e, g, n, q, k);
      assert FitsAt(e, p);
      ReadyParts(e, p, StateAt(e, p));
      SegmentFitsAgain(e.cls, Prepared(e), StateAt(e, p), StateAt(g, n), k);
    } else {
      NothingToFit(e.cls, Prepared(e), StateAt(g, n), k);
    }
  }

  lemma SameListOf(e: Elf, g: Elf, k: nat)
    requires ElfOk(e) && Returned(e, g) && k < |e.segments|
    ensures g.segments[k].sections == e.segments[k].sections && g.cls == e.cls && Prepared(g) == Prepared(e)
  {
    assert RereadSegment(e, g, k);
  }

  lemma NothingToFit(cls: ElfClass, h: Ehdr, st: LayState, k: nat)
    requires LayOk(st) && k < |st.segs|
    requires forall m :: 0 <= m < |st.segs[k].sections| ==> st.gen[st.segs[k].sections[m]]
    ensures SegmentFits(cls, h, st, k)
  {
    var list := st.segs[k].sections;
    assert list != [] ==> st.gen[list[0]];
  }

  lemma WellFormedAgain(e: Elf, g: Elf)
    requires Fitting(e) && Reread(e, g)
    ensures WellFormed(g)
  {
    hide Order, LaidOut, MainOrder, LayoutFits;
    ListsAgain(e, g);
    Frozen.LayoutMoves(e);
    forall i | 0 <= i < |e.sections|
      ensures g.sections[i].hdr.typ == e.sections[i].hdr.typ && g.sections[i].index == i
    {
      assert Same(LaidOut(e).sections[i], g.sections[i]) && e.sections[i].Moved(LaidOut(e).sections[i]);
    }
    forall k | 0 <= k < |e.segments|
      ensures SegShape(g.sections, g.segments[k])
    {
      assert SegShape(e.sections, e.segments[k]) && g.segments[k].sections == Lists(e.segments)[k];
    }
  }

  /** The object read back has room for everything, as the one it was made from. */
  lemma FittingAgain(e: Elf, g: Elf)
    requires Fitting(e) && Reread(e, g)
    ensures Fitting(g)
  {
    hide Order, LaidOut, MainOrder, LayoutPass.FitsAt, StateAt, Laminar, SegShape, Mirrored, AfterSegments, LooseFitsAt,
         Same, RereadSegment;
    WellFormedAgain(e, g);
    forall n | 0 <= n < |g.segments|
      ensures FitsAt(g, n)
    {
      var q := Mirror(e, g, n);
      FitsAtAgain(e, g, n, q);
    }
    Frozen.AllStates(e);
    Frozen.AllStates(g);
    var q := Mirror(e, g, |e.segments|);
    SameEnd(e, g, q);
    SameLoose(e, g);
    LooseStand(e, g);
    LooseFitsAgain(e.cls, AfterSegments(e), AfterSegments(g));
    LooseAgain(e.cls, AfterSegments(e), AfterSegments(g), |e.sections|);
  }

  lemma LooseStand(e: Elf, g: Elf)
    requires Fitting(e) && Reread(e, g)
    ensures forall i :: 0 <= i < |e.sections| ==>
              Same(PlaceLooseUpTo(e.cls, AfterSegments(e), |e.sections|).secs[i], g.sections[i])
  {
    hide MainOrder, AfterSegments, Same;
    forall i | 0 <= i < |e.sections|
      ensures Same(PlaceLooseUpTo(e.cls, AfterSegments(e), |e.sections|).secs[i], g.sections[i])
    {
      assert Same(LaidOut(e).sections[i], g.sections[i]);
    }
  }

  lemma LooseFitsAgain(cls: ElfClass, st: LayState, su: LayState)
    requires |su.secs| == |st.secs| && su.pos == st.pos && LooseFits(cls, st)
    requires forall i :: 0 <= i < |su.secs| ==> IsLoose(su.segs, i) == IsLoose(st.segs, i)
    requires forall i :: 0 <= i < |su.secs| ==> Same(PlaceLooseUpTo(cls, st, |su.secs|).secs[i], su.secs[i])
    ensures LooseFits(cls, su)
  {
    hide Same;
    forall n | 0 <= n < |su.secs|
      ensures LooseFitsAt(cls, PlaceLooseUpTo(cls, su, n), n)
    {
      LooseAgain(cls, st, su, n);
      assert LooseFitsAt(cls, PlaceLooseUpTo(cls, st, n), n);
      Frozen.LoosePassMoves(cls, st, n);
      Frozen.LoosePassMoves(cls, st, |su.secs|);
      SameSize(st.secs[n], PlaceLooseUpTo(cls, st, n).secs[n], PlaceLooseUpTo(cls, st, |su.secs|).secs[n], su.secs[n]);
    }
  }

  lemma SameSize(s0: SectionState, s: SectionState, t: SectionState, u: SectionState)
    requires s0.Moved(s) && s0.Moved(t) && Same(t, u)
    ensures u.hdr.addrAlign == s.hdr.addrAlign && u.hdr.size == s.hdr.size
  {
  }
}
