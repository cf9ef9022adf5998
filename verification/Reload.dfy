/** Save, load, and lay out again: the object read back has the sections its segments had, its layout
    is a fixpoint, and saving it once more writes the same bytes. */
module Reload {
  import opened ElfTypes
  import opened ElfState
  import opened Layout
  import opened FreshRun
  import opened SegmentPass
  import opened SegmentOrder
  import opened LayoutPass
  import opened LayoutTheorems
  import opened FileFormat
  import opened SaveLoad
  import opened SaveRoundTrip
  import opened Membership
  import opened WalkAgain
  import opened Relayout
  import Budget
  import Frozen
  import Ordering

  /** Unless it begins with a null section, a segment starts behind the ELF header. */
  lemma StartsBehindHeader(e: Elf, p: nat)
    requires Fitting(e) && p < |e.segments| && e.hdr.ehsize > 0
    requires !StartsWithNull(e.segments[Order(e.segments)[p]], e.sections)
    ensures LaidOut(e).segments[Order(e.segments)[p]].hdr.offset >= e.hdr.ehsize
  {
    var k, st := Order(e.segments)[p], StateAt(e, p);
    SegmentsAreLaid(e, p);
    assert st.segs[k] == e.segments[k];
    assert FitsAt(e, p);
    Frozen.DoneIsFinal(e, p);
    StateStep(e, p);
    StoredFields(e.cls, Prepared(e), st, k);
    StartOf(e, p, st);
  }

  lemma StartOf(e: Elf, p: nat, st: LayState)
    requires WellFormed(e) && p < |e.segments| && LayOk(st) && Laid(e, p, st)
    requires var k := Order(e.segments)[p];
             && st.segs[k] == e.segments[k] && !StartsWithNull(e.segments[k], e.sections)
             && SegmentFits(e.cls, Prepared(e), st, k)
    ensures var f := Open(Prepared(e), st, st.segs[Order(e.segments)[p]]).0;
            e.hdr.ehsize <= f.start < e.cls.Limit()
  {
    hide Layout.Order, Laminar, SegLaid, Apart, SegmentDone, RunFits, TopLevel, SegmentFits;
    var k := Order(e.segments)[p];
    TableBounds(e);
    assert e.hdr.ehsize <= Base(e);
    if e.segments[k].sections != [] {
      if TopLevel(e, p) {
        NewStart(e, p, st);
      } else {
        OldStart(e, p, st);
      }
    }
  }

  lemma OldStart(e: Elf, p: nat, st: LayState)
    requires WellFormed(e) && p < |e.segments| && LayOk(st) && Laid(e, p, st) && !TopLevel(e, p)
    requires var k := Order(e.segments)[p];
             st.segs[k] == e.segments[k] && e.segments[k].sections != [] && !StartsWithNull(e.segments[k], e.sections)
    ensures var f := Open(Prepared(e), st, st.segs[Order(e.segments)[p]]).0;
            Base(e) <= f.start < e.cls.Limit()
  {
    hide Layout.Order, Laminar, SegLaid, Apart, SegmentDone, TopLevel;
    var first := e.segments[Order(e.segments)[p]].sections[0];
    TypesKept(e, p, st);
    NestedStands(e, p, st);
    assert !e.sections[first].IsNull() && st.gen[first];
    assert NewlyPlaced(e.cls, Base(e), st.pos, e.sections[first], st.secs[first]);
  }

  lemma NewStart(e: Elf, p: nat, st: LayState)
    requires WellFormed(e) && p < |e.segments| && LayOk(st) && Laid(e, p, st) && TopLevel(e, p)
    requires var k := Order(e.segments)[p];
             && st.segs[k] == e.segments[k] && e.segments[k].sections != [] &&
                  !StartsWithNull(e.segments[k], e.sections)
             && SegmentFits(e.cls, Prepared(e), st, k)
    ensures var f := Open(Prepared(e), st, st.segs[Order(e.segments)[p]]).0;
            Base(e) <= f.start < e.cls.Limit()
  {
    var k := Order(e.segments)[p];
    var list := e.segments[k].sections;
    TypesKept(e, p, st);
    forall j | 0 <= j < |list|
      ensures !st.gen[list[j]]
    {
      assert list[j] in list;
    }
    OpenFresh(e.cls, Prepared(e), st, k);
  }

  /** The layout puts a segment at offset 0 exactly if it begins with the null section. */
  lemma ZeroOffset(e: Elf, k: nat)
    requires Fitting(e) && k < |e.segments| && e.hdr.ehsize > 0
    ensures |LaidOut(e).segments| == |e.segments|
    ensures LaidOut(e).segments[k].hdr.offset == 0 <==> StartsWithNull(e.segments[k], e.sections)
  {
    hide LaidOut, AfterSegments, Layout.Order, TopLevel, LayoutFits, SectionsResult;
    var p := SegmentFacts(e, k);
    if !StartsWithNull(e.segments[k], e.sections) {
      StartsBehindHeader(e, p);
    }
  }

  // ----- the section lists

  lemma StandingSegment(e: Elf, k: nat)
    requires Saveable(e) && k < |e.segments|
    ensures Result(e, LaidOut(e), AfterSegments(e).pos)
    ensures |LaidOut(e).segments| == |e.segments| && Standing(e, LaidOut(e), AfterSegments(e).pos, k)
  {
    hide LaidOut, AfterSegments, Layout.Order, LayoutFits, SectionsResult, NamesResolve, FileExact, MemoryExact,
         FreshLaid, NestedStart, Ascending;
    assert e.cls.Limit() <= U64;
    ZeroOffset(e, k);
    var p := SegmentFacts(e, k);
    PartsBounded(e);
    LaidOutBounded(e);
    assert SegmentBounded(e.cls, LaidOut(e).segments[k]);
    assert StandardSegment(e, k);
  }

  /** A segment gets back the list it had exactly if its own sections lie inside it in memory and no
      others do. */
  lemma MembersExact(e: Elf, k: nat)
    requires Saveable(e) && NoEmptySections(e) && Listable(e) && k < |e.segments|
    ensures |LaidOut(e).hdr.ident| == EI_NIDENT
    ensures var r := LoadFrom(e.conv.host, FileFormat.Image(LaidOut(e)));
            r.Some? && k < |r.value.0.segments| && k < |LaidOut(e).segments| &&
            (r.value.0.segments[k].sections == e.segments[k].sections <==>
               OwnInside(LaidOut(e), k) && NoStrangers(LaidOut(e), k))
  {
    hide LaidOut, AfterSegments, LoadFrom, FileFormat.Image, StandardHeader, StandardParts, NamesResolve, LayoutFits,
         Result, Standing;
    SaveThenLoad(e);
    StandingSegment(e, k);
    RecomputedList(e, LaidOut(e), AfterSegments(e).pos, k);
  }

  /** The recomputed list, if exactly the listed sections match. */
  lemma FoundList(h: Phdr, secs: seq<SectionState>, list: seq<nat>)
    requires Ordering.Sorted(list) && Within(list, |secs|)
    requires forall b :: 0 <= b < |secs| ==> (Matches(h, secs[b]) <==> b in list)
    ensures Members(h, secs, |secs|) == list
  {
    SortedIsUnique(Members(h, secs, |secs|), list);
  }

  /** Whether a section matches depends on its header alone. */
  lemma MatchesByHeader(h: Phdr, s: SectionState, t: SectionState)
    requires s.hdr == t.hdr
    ensures Matches(h, s) == Matches(h, t)
  {
  }

  /** The list that loading the laid-out object f computes for segment k is the one it had in e. */
  predicate ListKept(e: Elf, f: Elf, k: nat)
    requires k < |e.segments|
  {
    k < |f.segments| && Members(f.segments[k].hdr, ReloadedSections(f), |f.sections|) == e.segments[k].sections
  }

  lemma OwnListFound(e0: Elf, e: Elf, mid: nat, k: nat)
    requires WellFormed(e0) && Result(e0, e, mid) && NoEmptySections(e0) && Listable(e0)
    requires k < |e.segments| == |e0.segments| && Standing(e0, e, mid, k)
    requires OwnInside(e, k) && NoStrangers(e, k)
    ensures ListKept(e0, e, k)
  {
    hide Result, NoStrangers, OwnInside, Standing, Matches;
    var h, secs := e.segments[k].hdr, ReloadedSections(e);
    SameLists(e0, e, mid, k);
    forall b | 0 <= b < |secs|
      ensures Matches(h, secs[b]) <==> b in e0.segments[k].sections
    {
      ExactlyOwn(e0, e, mid, k, b);
      MatchesByHeader(h, secs[b], e.sections[b]);
    }
    assert SegShape(e0.sections, e0.segments[k]);
    FoundList(h, secs, e0.segments[k].sections);
  }

  lemma KeptMatches(e0: Elf, e: Elf, k: nat, b: nat)
    requires k < |e0.segments| && ListKept(e0, e, k) && b < |e.sections|
    ensures Matches(e.segments[k].hdr, e.sections[b]) <==> b in e0.segments[k].sections
  {
    MatchesByHeader(e.segments[k].hdr, ReloadedSections(e)[b], e.sections[b]);
  }

  lemma KeptListIsOwn(e0: Elf, e: Elf, mid: nat, k: nat)
    requires WellFormed(e0) && Result(e0, e, mid) && NoEmptySections(e0) && Listable(e0)
    requires k < |e.segments| == |e0.segments| && Standing(e0, e, mid, k) && ListKept(e0, e, k)
    ensures OwnInside(e, k) && NoStrangers(e, k)
  {
    hide Result, Listable, NoEmptySections, InsideMemory, ListKept, Standing;
    SameLists(e0, e, mid, k);
    forall a | a in e.segments[k].sections && NonNull(e.sections, a)
      ensures InsideMemory(e.segments[k].hdr, e.sections[a])
    {
      KeptMatches(e0, e, k, a);
      ListedIsPositive(e0, e, mid, a);
      OwnMatches(e0, e, mid, k, a);
    }
    forall b | 0 <= b < |e.sections| && b !in e.segments[k].sections && e.sections[b].IsAlloc()
      ensures !Matches(e.segments[k].hdr, e.sections[b])
    {
      KeptMatches(e0, e, k, b);
    }
  }

  lemma ListedIsPositive(e0: Elf, e: Elf, mid: nat, a: nat)
    requires WellFormed(e0) && Result(e0, e, mid) && NonNull(e.sections, a)
    ensures 0 < a
  {
    assert e0.sections[0].Moved(e.sections[0]);
  }

  lemma RecomputedList(e0: Elf, e: Elf, mid: nat, k: nat)
    requires WellFormed(e0) && Result(e0, e, mid) && NoEmptySections(e0) && Listable(e0)
    requires k < |e.segments| == |e0.segments| && Standing(e0, e, mid, k)
    ensures ListKept(e0, e, k) <==> OwnInside(e, k) && NoStrangers(e, k)
  {
    hide Result, Listable, NoEmptySections, WellFormed, OwnInside, NoStrangers, Standing, ListKept;
    if OwnInside(e, k) && NoStrangers(e, k) {
      OwnListFound(e0, e, mid, k);
    }
    if ListKept(e0, e, k) {
      KeptListIsOwn(e0, e, mid, k);
    }
  }

  // ----- the fixpoint

  /** Which segments begin with the null section. */
  function NullFirsts(e: Elf): (r: seq<bool>)
    requires ElfOk(e)
    ensures |r| == |e.segments| && forall k :: 0 <= k < |r| ==> r[k] == StartsWithNull(e.segments[k], e.sections)
  {
    seq(|e.segments|, k requires 0 <= k < |e.segments| => StartsWithNull(e.segments[k], e.sections))
  }

  /** The order in which the segments are treated after loading: those that begin with the null section
      are found at offset 0. */
  function OrderAgain(e: Elf): seq<nat>
    requires ElfOk(e)
  {
    Ordering.Ordered(Lists(e.segments), NullFirsts(e))
  }

  /** It is the layout's order, as far as the layout depends on it. */
  predicate OrderKept(e: Elf)
    requires ElfOk(e)
  {
    MainOrder(e, OrderAgain(e))
  }

  /** The segments with sections in the order in which the swap loop leaves them. */
  function MainFront(lists: seq<seq<nat>>, zero: seq<bool>): seq<nat>
    requires |lists| == |zero|
  {
    Ordering.Main(lists, Ordering.FrontZeros(zero, Ordering.Range(|zero|), 0, 0))
  }

  /** No other segment is at offset 0 or begins with the null section, and only segments without sections
      stand before this one. */
  predicate Leads(e: Elf, z: nat)
    requires ElfOk(e) && z < |e.segments|
  {
    && (forall k :: 0 <= k < |e.segments| && k != z ==>
          !e.segments[k].AtZero() && !StartsWithNull(e.segments[k], e.sections))
    && (forall k :: 0 <= k < z ==> e.segments[k].sections == [])
  }

  /** It is if the swap loop brings the segments with sections into the same order, as for every object that
      was read from a file the layout wrote; if the first segment with sections is the only one that is at
      offset 0 or begins with the null section, as in an executable whose first loaded segment holds the
      headers; and if one segment includes all others and none takes its sizes from the cursor. */
  lemma OrderIsKept(e: Elf)
    requires ElfOk(e)
    requires
      || MainFront(Lists(e.segments), Zeros(e.segments)) == MainFront(Lists(e.segments), NullFirsts(e))
      || (exists z :: 0 <= z < |e.segments| && Leads(e, z))
      || (&& WellFormed(e) && (forall k :: 0 <= k < |e.segments| ==> Steady(e, k))
          && forall k, m :: OutermostIn(Lists(e.segments), k) && OutermostIn(Lists(e.segments), m) ==> k == m)
    ensures OrderKept(e)
  {
    hide WellFormed, Steady, OutermostIn, OrderAgain, Layout.Order, MainFront, NullFirsts, MainOrder;
    var lists := Lists(e.segments);
    if MainFront(lists, Zeros(e.segments)) == MainFront(lists, NullFirsts(e)) {
      SameMainOrder(e);
    } else if z :| 0 <= z < |e.segments| && Leads(e, z) {
      LeadingKeeps(e, z);
      SameMainOrder(e);
    } else {
      OutermostOrder(e, OrderAgain(e));
    }
  }

  lemma LeadingKeeps(e: Elf, z: nat)
    requires ElfOk(e) && z < |e.segments| && Leads(e, z)
    ensures MainFront(Lists(e.segments), Zeros(e.segments)) == MainFront(Lists(e.segments), NullFirsts(e))
  {
    Ordering.FrontKeepsMain(Lists(e.segments), Zeros(e.segments), z);
    Ordering.FrontKeepsMain(Lists(e.segments), NullFirsts(e), z);
  }

  lemma MainOfOrdered(lists: seq<seq<nat>>, zero: seq<bool>)
    requires |lists| == |zero|
    ensures Ordering.Indexes(lists, Ordering.Ordered(lists, zero))
    ensures Ordering.Main(lists, Ordering.Ordered(lists, zero)) == Ordering.Drain(lists, MainFront(lists, zero), [])
  {
    hide Ordering.Drain, Ordering.FrontZeros;
    var start := Ordering.FrontZeros(zero, Ordering.Range(|zero|), 0, 0);
    assert Ordering.Indexes(lists, start);
    Ordering.DrainMain(lists, start, []);
  }

  lemma SameMainOrder(e: Elf)
    requires ElfOk(e)
    requires MainFront(Lists(e.segments), Zeros(e.segments)) == MainFront(Lists(e.segments), NullFirsts(e))
    ensures OrderKept(e)
  {
    hide MainFront, OrderAgain, Layout.Order, MainOrder;
    var lists, order, again := Lists(e.segments), Layout.Order(e.segments), OrderAgain(e);
    MainsAgree(e);
    OrderFacts(e.segments);
    OrderAgainHasAll(e);
    forall k: nat, m: nat | k < |lists| && m < |lists| && lists[k] != [] && lists[m] != []
      ensures Earlier(again, k, m) <==> Earlier(order, k, m)
    {
      EarlierInMain(lists, order, k, m);
      EarlierInMain(lists, again, k, m);
    }
    MainIsEnough(e, again);
  }

  lemma MainsAgree(e: Elf)
    requires ElfOk(e)
    requires MainFront(Lists(e.segments), Zeros(e.segments)) == MainFront(Lists(e.segments), NullFirsts(e))
    ensures var lists, order, again := Lists(e.segments), Layout.Order(e.segments), OrderAgain(e);
            && Ordering.Indexes(lists, order) && Ordering.Indexes(lists, again)
            && Ordering.Main(lists, order) == Ordering.Main(lists, again)
  {
    hide MainFront, Ordering.Ordered, Ordering.Main;
    MainOfOrdered(Lists(e.segments), Zeros(e.segments));
    MainOfOrdered(Lists(e.segments), NullFirsts(e));
  }

  lemma MainIsEnough(e: Elf, again: seq<nat>)
    requires ElfOk(e)
    requires forall k: nat, m: nat {:trigger Earlier(again, k, m)} ::
               (k < |e.segments| && m < |e.segments| && e.segments[k].sections != [] && e.segments[m].sections != [])
                 ==> (Earlier(again, k, m) <==> Earlier(Layout.Order(e.segments), k, m))
    ensures MainOrder(e, again)
  {
    hide Layout.Order, SteadyAt;
  }

  lemma OrderAgainHasAll(e: Elf)
    requires ElfOk(e)
    ensures forall k :: 0 <= k < |e.segments| ==> k in OrderAgain(e)
  {
    hide Ordering.Ordered;
    Ordering.OrderedIsTopological(Lists(e.segments), NullFirsts(e));
    PermutationIsDistinct(OrderAgain(e), |e.segments|);
  }

  /** What has to hold of a segment so that reading it back gives the segment again: it gets its list,
      and none of its sections raises its alignment. */
  predicate Faithful(e: Elf, f: Elf, k: nat)
    requires ElfOk(e) && k < |e.segments|
  {
    && ListKept(e, f, k)
    && forall j :: 0 <= j < |e.segments[k].sections| ==>
         e.sections[e.segments[k].sections[j]].hdr.addrAlign <= e.segments[k].hdr.align
  }

  predicate Recovered(e: Elf) {
    && Saveable(e)
    && forall k {:trigger Faithful(e, LaidOut(e), k)} :: 0 <= k < |e.segments| ==> Faithful(e, LaidOut(e), k)
  }

  predicate Reloadable(e: Elf) {
    Recovered(e) && OrderKept(e)
  }

  lemma {:induction false} AlignKept(align: nat, secs: seq<SectionState>, list: seq<nat>)
    requires forall j :: 0 <= j < |list| ==> list[j] < |secs| && secs[list[j]].hdr.addrAlign <= align
    ensures RaisedAlign(align, secs, list) == align
  {
    if list != [] {
      AlignKept(align, secs, list[..|list| - 1]);
    }
  }

  /** Segment k as it is read back. */
  lemma SegmentBackExactly(e: Elf, f: Elf, k: nat, file: seq<Bytes.byte>)
    requires ElfOk(e) && k < |e.segments| && Faithful(e, f, k) && Frozen.AllMoved(e.sections, f.sections)
    requires Resized(e.segments[k], f.segments[k])
    ensures var seg := ReloadedSegments(f, file)[k];
            seg.sections == e.segments[k].sections && seg.offsetSet && seg.index == k && seg.hdr == f.segments[k].hdr
  {
    hide Members, Matches;
    forall j | 0 <= j < |e.segments[k].sections|
      ensures e.segments[k].sections[j] < |f.sections|
      ensures ReloadedSections(f)[e.segments[k].sections[j]].hdr.addrAlign <= e.segments[k].hdr.align
    {
      assert e.sections[e.segments[k].sections[j]].Moved(f.sections[e.segments[k].sections[j]]);
    }
    AlignKept(e.segments[k].hdr.align, ReloadedSections(f), e.segments[k].sections);
  }

  lemma RereadParts(e: Elf, f: Elf, g: Elf, k: nat)
    requires ElfOk(e) && f == LaidOut(e) && |g.sections| == |f.sections| == |e.sections|
    requires k < |e.segments| && k < |f.segments| && k < |g.segments|
    requires g.segments[k].sections == e.segments[k].sections && g.segments[k].offsetSet
    requires g.segments[k].hdr == f.segments[k].hdr && Resized(e.segments[k], f.segments[k])
    ensures RereadSegment(e, g, k) && SegmentOk(g.segments[k], |g.sections|)
  {
    hide LaidOut;
  }

  /** What the layout says about segment k, as far as reading it back is concerned. */
  predicate Readable(e: Elf, f: Elf, k: nat)
    requires ElfOk(e) && k < |e.segments|
  {
    && |f.segments| == |e.segments| && Frozen.AllMoved(e.sections, f.sections)
    && Faithful(e, f, k) && Resized(e.segments[k], f.segments[k]) && f.segments[k].index == k
    && (f.segments[k].hdr.offset == 0 <==> StartsWithNull(e.segments[k], e.sections))
  }

  lemma SegmentReadable(e: Elf, f: Elf, k: nat)
    requires Recovered(e) && k < |e.segments| && f == LaidOut(e)
    ensures Readable(e, f, k)
  {
    hide LaidOut, NamesResolve, LayoutFits, SegShape, Laminar, Layout.Order, FileExact, MemoryExact, Ascending,
         Faithful, AfterSections, AfterSegments, Frozen.AllMoved;
    assert Faithful(e, f, k) && StandardSegment(e, k);
    Frozen.LayoutMoves(e);
    ZeroOffset(e, k);
    SegmentsAreExact(e, k);
  }

  /** Segment k of the object read back: the laid-out one, at offset 0 exactly if it begins with the
      null section. */
  lemma RereadSegmentBack(e: Elf, f: Elf, g: Elf, k: nat, file: seq<Bytes.byte>)
    requires ElfOk(e) && k < |e.segments| && f == LaidOut(e) && g == Reloaded(f, file) && Readable(e, f, k)
    ensures |g.segments| == |e.segments| == |f.segments| && |g.sections| == |e.sections|
    ensures RereadSegment(e, g, k) && SegmentOk(g.segments[k], |g.sections|)
    ensures g.segments[k].AtZero() == StartsWithNull(e.segments[k], e.sections)
    ensures g.segments[k].hdr == f.segments[k].hdr && g.segments[k].sections == e.segments[k].sections
    ensures g.segments[k].index == f.segments[k].index
  {
    hide LaidOut, RereadSegment, Faithful, StartsWithNull;
    SegmentBackExactly(e, f, k, file);
    RereadParts(e, f, g, k);
  }

  lemma RereadSegmentsBack(e: Elf, f: Elf, g: Elf, file: seq<Bytes.byte>)
    requires Recovered(e) && f == LaidOut(e) && g == Reloaded(f, file)
    ensures |g.segments| == |e.segments| == |f.segments| && |g.sections| == |e.sections|
    ensures forall k :: 0 <= k < |e.segments| ==>
              && RereadSegment(e, g, k) && SegmentOk(g.segments[k], |g.sections|)
              && g.segments[k].hdr == f.segments[k].hdr && g.segments[k].index == f.segments[k].index
    ensures Layout.Order(g.segments) == OrderAgain(e)
  {
    hide LaidOut, Reloaded, StandardHeader, StandardParts, NamesResolve, LayoutFits, RereadSegment, Faithful,
         SegShape, Laminar, Layout.Order, AfterSections, AfterSegments, Readable;
    Frozen.LayoutMoves(e);
    forall k | 0 <= k < |e.segments|
      ensures |g.segments| == |e.segments| && |g.sections| == |e.sections|
      ensures RereadSegment(e, g, k) && SegmentOk(g.segments[k], |g.sections|)
      ensures g.segments[k].AtZero() == StartsWithNull(e.segments[k], e.sections)
      ensures g.segments[k].hdr == f.segments[k].hdr && g.segments[k].sections == e.segments[k].sections
      ensures g.segments[k].index == f.segments[k].index
    {
      SegmentReadable(e, f, k);
      RereadSegmentBack(e, f, g, k, file);
    }
    ReloadedCounts(f, g, file);
    SameOrder(e, g.segments);
  }

  lemma SameOrder(e: Elf, segs: seq<SegmentState>)
    requires ElfOk(e) && |segs| == |e.segments|
    requires forall k :: 0 <= k < |segs| ==> segs[k].sections == e.segments[k].sections
    requires forall k :: 0 <= k < |segs| ==> segs[k].AtZero() == StartsWithNull(e.segments[k], e.sections)
    ensures Layout.Order(segs) == OrderAgain(e)
  {
    assert Lists(segs) == Lists(e.segments) && Zeros(segs) == NullFirsts(e);
  }

  lemma ReloadedCounts(f: Elf, g: Elf, file: seq<Bytes.byte>)
    requires g == Reloaded(f, file)
    ensures |g.segments| == |f.segments| && |g.sections| == |f.sections|
  {
  }

  lemma ReturnedFrom(e: Elf, f: Elf, g: Elf, mid: nat)
    requires WellFormed(e) && Result(e, f, mid) && f == LaidOut(e)
    requires g.cls == f.cls && g.hdr == f.hdr && |g.sections| == |f.sections| &&
               |g.segments| == |e.segments| == |f.segments|
    requires forall i :: 0 <= i < |f.sections| ==> Same(f.sections[i], g.sections[i])
    requires forall k :: 0 <= k < |e.segments| ==> RereadSegment(e, g, k) && SegmentOk(g.segments[k], |g.sections|)
    ensures Returned(e, g)
  {
    hide LaidOut, Layout.Order, RereadSegment;
  }

  lemma ReturnedAfterLoad(e: Elf, f: Elf, g: Elf, file: seq<Bytes.byte>)
    requires Recovered(e) && f == LaidOut(e) && g == Reloaded(f, file)
    ensures Returned(e, g) && Layout.Order(g.segments) == OrderAgain(e)
    ensures forall k :: 0 <= k < |e.segments| ==>
              g.segments[k].hdr == f.segments[k].hdr && g.segments[k].index == f.segments[k].index
  {
    hide LaidOut, AfterSegments, Layout.Order, Result, RereadSegment, StandardHeader, StandardParts,
         NamesResolve, Faithful;
    LayoutResult(e);
    RereadSegmentsBack(e, f, g, file);
    ReturnedFrom(e, f, g, AfterSegments(e).pos);
  }

  // ----- the bytes

  /** Two sections for which the same bytes go to the same places. */
  predicate WritesAlike(s: SectionState, t: SectionState) {
    t.hdr == s.hdr && t.index == s.index && (s.Occupies() ==> t.data == s.data)
  }

  lemma {:induction false} SameSectionWrites(e: Elf, g: Elf, h: Headers, file: seq<Bytes.byte>, n: nat)
    requires n <= |e.sections| == |g.sections| == |h.shdrs| && g.hdr == e.hdr
    requires forall i :: 0 <= i < |e.sections| ==> WritesAlike(e.sections[i], g.sections[i])
    ensures SaveSections(g, h, file, n) == SaveSections(e, h, file, n)
  {
    hide SaveSection, WritesAlike;
    if n > 0 {
      SameSectionWrites(e, g, h, file, n - 1);
      SameSectionWrite(e, g, h, SaveSections(e, h, file, n - 1), n - 1);
    }
  }

  lemma SameSectionWrite(e: Elf, g: Elf, h: Headers, file: seq<Bytes.byte>, i: nat)
    requires i < |e.sections| == |g.sections| == |h.shdrs| && g.hdr == e.hdr
    requires WritesAlike(e.sections[i], g.sections[i])
    ensures SaveSection(g, h, file, i) == SaveSection(e, h, file, i)
  {
    hide FileImage.WriteAt;
  }

  lemma {:induction false} SameSegmentWrites(e: Elf, g: Elf, h: Headers, file: seq<Bytes.byte>, n: nat)
    requires n <= |e.segments| == |g.segments| == |h.phdrs| && g.hdr == e.hdr
    requires forall k :: 0 <= k < |e.segments| ==> g.segments[k].index == e.segments[k].index
    ensures SaveSegments(g, h, file, n) == SaveSegments(e, h, file, n)
  {
    if n > 0 {
      SameSegmentWrites(e, g, h, file, n - 1);
    }
  }

  lemma SameHeaders(e: Elf, g: Elf)
    requires |e.hdr.ident| == EI_NIDENT && g.hdr == e.hdr && g.cls == e.cls && g.conv == e.conv
    requires |g.sections| == |e.sections| && |g.segments| == |e.segments|
    requires forall i :: 0 <= i < |e.sections| ==> g.sections[i].hdr == e.sections[i].hdr
    requires forall k :: 0 <= k < |e.segments| ==> g.segments[k].hdr == e.segments[k].hdr
    ensures HeadersOf(g) == HeadersOf(e)
  {
    hide EncodeEhdr, EncodeShdr, EncodePhdr;
    assert HeadersOf(g).shdrs == HeadersOf(e).shdrs;
    assert HeadersOf(g).phdrs == HeadersOf(e).phdrs;
  }

  lemma SameImage(e: Elf, g: Elf)
    requires |e.hdr.ident| == EI_NIDENT && g.hdr == e.hdr && g.cls == e.cls && g.conv == e.conv
    requires |g.sections| == |e.sections| && |g.segments| == |e.segments|
    requires forall i :: 0 <= i < |e.sections| ==> WritesAlike(e.sections[i], g.sections[i])
    requires forall k :: 0 <= k < |e.segments| ==>
               g.segments[k].hdr == e.segments[k].hdr && g.segments[k].index == e.segments[k].index
    ensures FileFormat.Image(g) == FileFormat.Image(e)
  {
    hide HeadersOf, SaveSections, SaveSegments, FileImage.WriteAt, WritesData, EncodeEhdr, EncodeShdr, EncodePhdr;
    SameHeaders(e, g);
    var h := HeadersOf(e);
    var f0 := FileImage.WriteAt([], 0, h.ehdr);
    SameSectionWrites(e, g, h, f0, |e.sections|);
    SameSegmentWrites(e, g, h, SaveSections(e, h, f0, |e.sections|), |e.segments|);
  }

  lemma SameFile(e: Elf, f: Elf, g: Elf, file: seq<Bytes.byte>)
    requires Reloadable(e) && f == LaidOut(e) && g == Reloaded(f, file) && |f.hdr.ident| == EI_NIDENT
    ensures ElfOk(g) && LaidOut(g) == g
    ensures FileFormat.Image(g) == FileFormat.Image(f)
  {
    ReturnedAfterLoad(e, f, g, file);
    LayoutAgain(e, g);
    assert |f.segments| == |e.segments|;
    forall i | 0 <= i < |f.sections|
      ensures WritesAlike(f.sections[i], g.sections[i])
    {
    }
    SameImage(f, g);
  }

  // ----- theorems

  /** Sections of earlier segments end before the cursor. */
  lemma EarlierEnds(e: Elf, p: nat, q: nat, a: nat)
    requires Fitting(e) && p < q <= |e.segments|
    requires a in e.segments[Layout.Order(e.segments)[p]].sections && NonNull(e.sections, a)
    ensures |LaidOut(e).sections| == |e.sections| && LaidOut(e).sections[a].End() <= StateAt(e, q).pos
  {
    hide LaidOut, AfterSegments, Layout.Order, TopLevel, Laminar, LayoutFits, StateAt, SegShape, SegmentsLaid;
    var st := StateAt(e, q);
    SegmentsAreLaid(e, q);
    EarlierMarked(e, q, st, p, a);
    assert NewlyPlaced(e.cls, Base(e), st.pos, e.sections[a], st.secs[a]);
    Frozen.GeneratedIsFinal(e, q, a);
    Frozen.LayoutMoves(e);
  }

  /** What a segment places stands behind the cursor. */
  lemma LaterStarts(e: Elf, q: nat, b: nat)
    requires Fitting(e) && q < |e.segments| && TopLevel(e, q)
    requires b in e.segments[Layout.Order(e.segments)[q]].sections && NonNull(e.sections, b)
    ensures |LaidOut(e).sections| == |e.sections| && StateAt(e, q).pos <= LaidOut(e).sections[b].hdr.offset
  {
    hide LaidOut, AfterSegments, Layout.Order, TopLevel, StateAt, Layout.PlaceSegment, SegLaid, FreshLaid, Laminar,
         SegmentsLaid, SegmentFits, Ascending;
    var k, st := Layout.Order(e.segments)[q], StateAt(e, q);
    SegmentsAreLaid(e, q);
    Budget.ReadyParts(e, q, st);
    assert FitsAt(e, q);
    FreshSegment(e.cls, Prepared(e), st, k);
    StateStep(e, q);
    var j :| 0 <= j < |e.segments[k].sections| && e.segments[k].sections[j] == b;
    TurnIsFinal(e, q, j);
    Frozen.LayoutMoves(e);
  }

  /** A section of an earlier segment stands before every section that a later one places. */
  lemma FirstComesFirst(e: Elf, p: nat, q: nat, a: nat, b: nat)
    requires Fitting(e) && p < q < |e.segments| && TopLevel(e, q)
    requires a in e.segments[Layout.Order(e.segments)[p]].sections && NonNull(e.sections, a)
    requires b in e.segments[Layout.Order(e.segments)[q]].sections && NonNull(e.sections, b)
    ensures |LaidOut(e).sections| == |e.sections|
    ensures LaidOut(e).sections[a].End() <= LaidOut(e).sections[b].hdr.offset
  {
    EarlierEnds(e, p, q, a);
    LaterStarts(e, q, b);
  }

  /** Section a is one of segment k's and takes room in the file. */
  predicate OwnsBytes(e: Elf, k: nat, a: nat)
    requires k < |e.segments|
  {
    a in e.segments[k].sections && Occupying(e.sections, a) && e.sections[a].hdr.size > 0
  }

  /** And the segment places it. */
  predicate Places(e: Elf, k: nat, a: nat)
    requires k < |e.segments|
  {
    TopLevel(e, Budget.Position(e, k)) && OwnsBytes(e, k, a)
  }

  lemma PlacesInOrder(e: Elf, k: nat, m: nat, a: nat, b: nat)
    requires Fitting(e) && k < |e.segments| && m < |e.segments| && k != m && Places(e, k, a) && Places(e, m, b)
    ensures |LaidOut(e).sections| == |e.sections|
    ensures Budget.Position(e, k) < Budget.Position(e, m) <==>
            LaidOut(e).sections[a].End() <= LaidOut(e).sections[b].hdr.offset
  {
    hide LaidOut, TopLevel, Layout.Order;
    Frozen.LayoutMoves(e);
    var p, q := Budget.Position(e, k), Budget.Position(e, m);
    assert e.sections[a].Moved(LaidOut(e).sections[a]) && e.sections[b].Moved(LaidOut(e).sections[b]);
    if p < q {
      FirstComesFirst(e, p, q, a, b);
    } else {
      FirstComesFirst(e, q, p, b, a);
    }
  }

  /** The other way round: if laying out g moves nothing, any two segments that place sections are treated
      in the order in which e's layout treated them. */
  lemma FixpointKeepsOrder(e: Elf, g: Elf, k: nat, m: nat, a: nat, b: nat)
    requires Fitting(e) && Fitting(g) && |g.segments| == |e.segments| && k < |e.segments| && m < |e.segments| && k != m
    requires Places(e, k, a) && Places(e, m, b) && Places(g, k, a) && Places(g, m, b)
    requires |LaidOut(g).sections| == |LaidOut(e).sections|
    requires forall i :: 0 <= i < |LaidOut(e).sections| ==> LaidOut(g).sections[i].hdr == LaidOut(e).sections[i].hdr
    ensures Budget.Position(g, k) < Budget.Position(g, m) <==> Budget.Position(e, k) < Budget.Position(e, m)
  {
    hide LaidOut, Places;
    Frozen.LayoutMoves(e);
    Frozen.LayoutMoves(g);
    PlacesInOrder(e, k, m, a, b);
    PlacesInOrder(g, k, m, a, b);
    PlacesExists(e, k, a);
    PlacesExists(e, m, b);
  }

  lemma PlacesExists(e: Elf, k: nat, a: nat)
    requires k < |e.segments| && Places(e, k, a)
    ensures a < |e.sections|
  {
  }

  /** Laying out again an object just read back gives the same offsets, sizes and addresses: the layout
      is a fixpoint, although every address is initialised now and every segment that begins with the
      null section is one at offset 0. */
  lemma LayoutIsFixpoint(e: Elf)
    requires Reloadable(e)
    ensures |LaidOut(e).hdr.ident| == EI_NIDENT
    ensures var r := LoadFrom(e.conv.host, FileFormat.Image(LaidOut(e)));
            r.Some? && ElfOk(r.value.0) && LaidOut(r.value.0) == r.value.0
  {
    SaveThenLoad(e);
    var file := FileFormat.Image(LaidOut(e));
    SameFile(e, LaidOut(e), Reloaded(LaidOut(e), file), file);
  }

  /** Loading a file and saving it unchanged writes the same file. */
  lemma SaveIsIdempotent(e: Elf)
    requires Reloadable(e)
    ensures |LaidOut(e).hdr.ident| == EI_NIDENT
    ensures var file := FileFormat.Image(LaidOut(e));
            var r := LoadFrom(e.conv.host, file);
            && r.Some? && ElfOk(r.value.0) && |LaidOut(r.value.0).hdr.ident| == EI_NIDENT
            && FileFormat.Image(LaidOut(r.value.0)) == file
  {
    SaveThenLoad(e);
    var file := FileFormat.Image(LaidOut(e));
    SameFile(e, LaidOut(e), Reloaded(LaidOut(e), file), file);
  }
}
