/** The pass over sections that belong to no segment. */
module LoosePass {
  import opened Arith
  import opened ElfTypes
  import opened ElfState
  import opened Layout
  import opened FreshRun
  import opened SegmentPass
  import opened SegmentOrder
  import opened LayoutPass

  /** Room for section n, if it has no segment. */
  predicate LooseFitsAt(cls: ElfClass, st: LayState, n: nat)
    requires n < |st.secs|
  {
    IsLoose(st.segs, n) ==> st.pos + Pad(st.pos, st.secs[n].hdr.addrAlign) + st.secs[n].hdr.size < cls.Limit()
  }

  /** Every section without a segment finds room when its turn comes. */
  predicate LooseFits(cls: ElfClass, st: LayState) {
    forall n :: 0 <= n < |st.secs| ==> LooseFitsAt(cls, PlaceLooseUpTo(cls, st, n), n)
  }

  /** Where the pass puts a section without a segment. */
  predicate LooselyPlaced(cls: ElfClass, from: nat, to: nat, s0: SectionState, s: SectionState) {
    && s == s0.WithOffset(s.hdr.offset)
    && (s0.index == 0 ==> s == s0)
    && (!s0.IsNull() ==> from <= s.hdr.offset && s.End() <= to && s.hdr.offset + s.hdr.size < cls.Limit())
  }

  function PlacedMask(st: LayState, n: nat): (m: seq<bool>)
    ensures |m| == |st.gen|
  {
    seq(|st.gen|, i requires 0 <= i < |st.gen| => st.gen[i] || (i < n && IsLoose(st.segs, i)))
  }

  /** Marked sections have a segment and stand before the cursor, apart from each other. */
  predicate SegmentsFinished(st: LayState) {
    && |st.gen| == |st.secs| && Indexed(st.secs)
    && (forall i :: 0 <= i < |st.gen| ==> (st.gen[i] <==> !IsLoose(st.segs, i)))
    && (forall i :: 0 <= i < |st.secs| && st.gen[i] && !st.secs[i].IsNull() ==> st.secs[i].End() <= st.pos)
    && Apart(st.secs, st.gen)
  }

  predicate LooseLaid(cls: ElfClass, st0: LayState, n: nat, st: LayState) {
    && |st.secs| == |st0.secs| == |st0.gen| && st.gen == st0.gen && st.segs == st0.segs
    && st0.pos <= st.pos < cls.Limit()
    && (forall i :: 0 <= i < |st.secs| && (i >= n || !IsLoose(st0.segs, i)) ==> st.secs[i] == st0.secs[i])
    && (forall i :: 0 <= i < n && i < |st.secs| && IsLoose(st0.segs, i) ==>
          LooselyPlaced(cls, st0.pos, st.pos, st0.secs[i], st.secs[i]))
    && Apart(st.secs, PlacedMask(st0, n))
  }

  lemma LooseTurn(cls: ElfClass, st0: LayState, n: nat, st: LayState)
    requires SegmentsFinished(st0) && n < |st0.secs| && LooseLaid(cls, st0, n, st) && LooseFitsAt(cls, st, n)
    ensures LooseLaid(cls, st0, n + 1, PlaceLoose(cls, st, n))
    ensures st.pos <= PlaceLoose(cls, st, n).pos
  {
    assert cls.Limit() <= U64;
    var r := PlaceLoose(cls, st, n);
    assert st.secs[n] == st0.secs[n] && (st.secs[n].index != 0 || st.secs[n].IsNull());
    if IsLoose(st0.segs, n) {
      LooseApart(cls, st0, n, st, r);
    } else {
      assert PlacedMask(st0, n + 1) == PlacedMask(st0, n);
    }
  }

  lemma LooseApart(cls: ElfClass, st0: LayState, n: nat, st: LayState, r: LayState)
    requires SegmentsFinished(st0) && n < |st0.secs| && LooseLaid(cls, st0, n, st) && IsLoose(st0.segs, n)
    requires |r.secs| == |st.secs| && r.secs == st.secs[n := r.secs[n]]
    requires !r.secs[n].IsNull() ==> st.pos <= r.secs[n].hdr.offset
    ensures Apart(r.secs, PlacedMask(st0, n + 1))
  {
    var mask, mask' := PlacedMask(st0, n), PlacedMask(st0, n + 1);
    forall i | 0 <= i < |r.secs| && i != n && Extent(r.secs, mask', i) && !r.secs[n].IsNull()
      ensures r.secs[i].End() <= r.secs[n].hdr.offset
    {
      assert r.secs[i] == st.secs[i] && Extent(st.secs, mask, i);
      assert st.secs[i].End() <= st.pos;
    }
    forall i, j | 0 <= i < |r.secs| && 0 <= j < |r.secs| && i != j && Extent(r.secs, mask', i) &&
        Extent(r.secs, mask', j)
      ensures r.secs[i].End() <= r.secs[j].hdr.offset || r.secs[j].End() <= r.secs[i].hdr.offset
    {
      if i != n && j != n {
        assert Extent(st.secs, mask, i) && Extent(st.secs, mask, j);
      }
    }
  }

  /** After any number of turns the placed sections are still apart, behind the segments' sections. */
  lemma {:induction false} LooseAreLaid(cls: ElfClass, st0: LayState, n: nat)
    requires SegmentsFinished(st0) && st0.pos < cls.Limit() && LooseFits(cls, st0) && n <= |st0.secs|
    ensures LooseLaid(cls, st0, n, PlaceLooseUpTo(cls, st0, n))
  {
    if n == 0 {
      assert PlacedMask(st0, 0) == st0.gen;
    } else {
      LooseAreLaid(cls, st0, n - 1);
      assert LooseFitsAt(cls, PlaceLooseUpTo(cls, st0, n - 1), n - 1);
      LooseTurn(cls, st0, n - 1, PlaceLooseUpTo(cls, st0, n - 1));
    }
  }

  // ----- from the segment pass to this one

  /** The layout changes no segment's section list. */
  lemma ListsKept(e: Elf, st: LayState)
    requires ElfOk(e) && |st.secs| == |e.sections| && SegmentsLaid(e, |e.segments|, st)
    ensures forall k :: 0 <= k < |e.segments| ==> Resized(e.segments[k], st.segs[k])
  {
    OrderFacts(e.segments);
    forall k | 0 <= k < |e.segments|
      ensures Resized(e.segments[k], st.segs[k])
    {
      assert k in Order(e.segments);
      var p :| 0 <= p < |e.segments| && Order(e.segments)[p] == k;
      assert SegmentDone(e, p, st.pos, st.secs, st.segs[Order(e.segments)[p]]);
    }
  }

  /** A section is without a segment exactly if no segment of the order has it. */
  lemma LooseOrSome(e: Elf, i: nat)
    ensures IsLoose(e.segments, i) <==> !InSome(Lists(e.segments), Order(e.segments)[..|e.segments|], i)
  {
    OrderFacts(e.segments);
    var order := Order(e.segments);
    assert order[..|e.segments|] == order;
    if !IsLoose(e.segments, i) {
      var m :| 0 <= m < |e.segments| && i in e.segments[m].sections;
      assert m in order;
      var p :| 0 <= p < |order| && order[p] == m;
      assert i in Lists(e.segments)[order[p]];
    }
    if InSome(Lists(e.segments), order, i) {
      var p :| 0 <= p < |order| && order[p] < |e.segments| && i in Lists(e.segments)[order[p]];
      assert i in e.segments[order[p]].sections;
    }
  }

  lemma Finished(e: Elf, st: LayState)
    requires WellFormed(e) && Laid(e, |e.segments|, st)
    ensures SegmentsFinished(st)
  {
    ListsKept(e, st);
    forall i | 0 <= i < |st.gen|
      ensures st.gen[i] <==> !IsLoose(st.segs, i)
    {
      LooseOrSome(e, i);
      assert IsLoose(st.segs, i) <==> IsLoose(e.segments, i);
    }
    TypesKept(e, |e.segments|, st);
  }
}
