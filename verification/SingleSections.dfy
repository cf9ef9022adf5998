/** Objects with one section per segment, as the image signer builds them: conditions without layout
    terms under which they can be saved, and under which they survive saving and reloading. */
module SingleSections {
  import opened ElfTypes
  import opened ElfState
  import opened Layout
  import opened FreshRun
  import opened SegmentPass
  import opened SegmentOrder
  import opened LayoutPass
  import opened SaveLoad
  import opened SaveRoundTrip
  import opened Membership
  import opened Budget
  import opened Reload
  import opened ReloadConditions
  import Ordering

  /** Segment k holds one section, which has no address yet unless it is without bytes. */
  predicate Single(e: Elf, k: nat)
    requires k < |e.segments|
  {
    var seg := e.segments[k];
    && |seg.sections| == 1 && seg.sections[0] < |e.sections| && 0 < seg.hdr.align && 2 * seg.hdr.align <= U64
    && var s := e.sections[seg.sections[0]];
       && !s.IsNull() && (!s.addressSet || s.IsNobits())
       && seg.hdr.vaddr + s.hdr.addrAlign + s.hdr.size < e.cls.Limit()
       && s.hdr.addr + s.hdr.size < e.cls.Limit()
  }

  /** That section is a loaded one without an address, aligned no more than the segment. */
  predicate Lasting(e: Elf, k: nat)
    requires k < |e.segments| && Single(e, k)
  {
    var seg := e.segments[k];
    var s := e.sections[seg.sections[0]];
    !seg.AtZero() && !s.addressSet && Counted(FrameOf(seg), s) && s.hdr.addrAlign <= seg.hdr.align
  }

  /** The memory that the section of segment k can take, alignment included. */
  function Span(e: Elf, k: nat): nat
    requires k < |e.segments| && Single(e, k)
  {
    var s := e.sections[e.segments[k].sections[0]];
    s.hdr.addrAlign + s.hdr.size
  }

  /** Two segments hold different sections, with room for both. */
  predicate Spaced(e: Elf, k: nat, m: nat)
    requires k < |e.segments| && m < |e.segments| && Single(e, k) && Single(e, m)
  {
    && e.segments[k].sections[0] != e.segments[m].sections[0]
    && (e.segments[k].hdr.vaddr + Span(e, k) <= e.segments[m].hdr.vaddr ||
        e.segments[m].hdr.vaddr + Span(e, m) <= e.segments[k].hdr.vaddr)
  }

  /** Every loaded section is in a segment. */
  predicate AllHoused(e: Elf) {
    forall b :: 0 <= b < |e.sections| && e.sections[b].IsAlloc() ==> !IsLoose(e.segments, b)
  }

  predicate SingleSectioned(e: Elf) {
    && (forall k {:trigger Single(e, k)} :: 0 <= k < |e.segments| ==> Single(e, k))
    && Indexed(e.sections) && e.sections != [] && |e.segments| < U16 && |e.sections| < U16
    && StandardHeader(e) && StandardParts(e) && NamesResolve(e)
  }

  /** The segments are apart and keep their sections, and there are no others that are loaded. */
  predicate AllLasting(e: Elf)
    requires SingleSectioned(e)
  {
    && (forall k {:trigger Lasting(e, k)} :: 0 <= k < |e.segments| ==> Lasting(e, k))
    && (forall k, m :: 0 <= k < |e.segments| && 0 <= m < |e.segments| && k != m ==> Spaced(e, k, m))
    && AllHoused(e) && NoEmptySections(e)
  }

  /** The headers, the padding and all sections together stay below the class's limit. */
  predicate Small(e: Elf)
    requires ElfOk(e)
  {
    Base(e) + TotalCost(e) + LooseCost(e.sections, |e.sections|) + 4 < e.cls.Limit()
  }

  lemma SingleReach(e: Elf, k: nat)
    requires k < |e.segments| && Single(e, k)
    ensures SegmentOk(e.segments[k], |e.sections|)
    ensures Reach(e.sections, e.segments[k].hdr.vaddr, e.segments[k].sections, 0) == Span(e, k)
    ensures Roomy(e.sections, e.segments[k].hdr.vaddr, e.segments[k].sections, 0)
  {
    assert e.segments[k].sections[..0] == [];
  }

  lemma SingleWellFormed(e: Elf)
    requires SingleSectioned(e) && Base(e) < e.cls.Limit()
    ensures WellFormed(e)
  {
    hide StandardHeader, StandardParts, NamesResolve;
    forall k | 0 <= k < |e.segments|
      ensures SegShape(e.sections, e.segments[k]) && |e.segments[k].sections| == 1
    {
      SingleReach(e, k);
    }
    var lists := Lists(e.segments);
    forall m, n | 0 <= m < |lists| && 0 <= n < |lists|
      ensures Disjoint(lists[m], lists[n]) || Ordering.Subset(lists[m], lists[n])
    {
      OneEach(lists[m], lists[n]);
    }
  }

  lemma OneEach(a: seq<nat>, b: seq<nat>)
    requires |a| == |b| == 1
    ensures if a == b then Ordering.Subset(a, b) else Disjoint(a, b)
  {
    if a != b {
      forall x | x in a
        ensures x !in b
      {
        assert x == a[0] != b[0];
      }
    }
  }

  lemma SinglePlain(e: Elf, k: nat)
    requires SingleSectioned(e) && ElfOk(e) && k < |e.segments|
    ensures Plain(e, k) && Window(e, k) == Span(e, k)
  {
    hide StandardHeader, StandardParts, NamesResolve, Position, Bound;
    assert Single(e, k);
    SingleReach(e, k);
  }

  lemma SingleIsCheap(e: Elf)
    requires SingleSectioned(e) && ElfOk(e) && Small(e)
    ensures Cheap(e)
  {
    hide StandardHeader, StandardParts, NamesResolve, TotalCost, Base, LooseCost, WellFormed, Plain;
    SingleWellFormed(e);
    forall k | 0 <= k < |e.segments|
      ensures Plain(e, k)
    {
      SinglePlain(e, k);
    }
  }

  /** An object with one section per segment, below the limit, can be saved. */
  lemma SingleIsSaveable(e: Elf)
    requires SingleSectioned(e) && ElfOk(e) && Small(e)
    ensures Saveable(e)
  {
    hide StandardHeader, StandardParts, NamesResolve, Cheap, Small, Affordable;
    SingleIsCheap(e);
    CheapIsAffordable(e);
    AffordableFits(e);
  }

  lemma SingleReloadable(e: Elf, k: nat)
    requires SingleSectioned(e) && AllLasting(e) && ElfOk(e) && k < |e.segments|
    ensures SegmentReloadable(e, k)
  {
    hide StandardHeader, StandardParts, NamesResolve, NoEmptySections, Window;
    assert e.cls.Limit() <= U64;
    assert Single(e, k) && Lasting(e, k);
    SinglePlain(e, k);
    forall m | 0 <= m < |e.segments|
      ensures m != k ==> Spaced(e, m, k) && Spaced(e, k, m) && Disjoint(e.segments[m].sections, e.segments[k].sections)
      ensures Window(e, m) == Span(e, m)
    {
      SinglePlain(e, m);
      assert Single(e, m);
      if m != k {
        OneEach(e.segments[m].sections, e.segments[k].sections);
      }
    }
    forall b | 0 <= b < |e.sections| && b !in e.segments[k].sections && e.sections[b].IsAlloc()
      ensures Outside(e, k, b)
    {
      assert !IsLoose(e.segments, b);
      var m :| 0 <= m < |e.segments| && b in e.segments[m].sections;
      assert m != k && WindowsApart(e, k, m);
    }
  }

  /** If its segments are apart and keep their sections, it can be saved, loaded, laid out and saved
      again. */
  lemma SingleIsDurable(e: Elf)
    requires SingleSectioned(e) && AllLasting(e) && ElfOk(e) && Small(e)
    ensures Durable(e)
  {
    hide StandardHeader, StandardParts, NamesResolve, NoEmptySections, Small, SegmentReloadable, Cheap, Affordable,
         OrderKept, AllHoused, Indexed;
    SingleIsCheap(e);
    CheapIsAffordable(e);
    forall k | 0 <= k < |e.segments|
      ensures SegmentReloadable(e, k)
    {
      SingleReloadable(e, k);
    }
    NoneAtZero(e);
    OrderIsKept(e);
  }

  lemma NoneAtZero(e: Elf)
    requires SingleSectioned(e) && AllLasting(e) && ElfOk(e)
    ensures Zeros(e.segments) == NullFirsts(e)
  {
    forall k | 0 <= k < |e.segments|
      ensures !e.segments[k].AtZero() && !StartsWithNull(e.segments[k], e.sections)
    {
      assert Lasting(e, k);
    }
  }
}
