/** A segment that takes its sizes from the cursor tells by them where the cursor was. */
module CursorTold {
  import opened Arith
  import opened ElfTypes
  import opened ElfState
  import opened Layout
  import opened FreshRun
  import opened SegmentPass
  import opened SegmentOrder
  import opened LayoutPass
  import opened LayoutTheorems
  import opened Budget
  import opened WalkAgain
  import opened Relayout
  import Frozen
  import Overlap

  /** Two walks that began with sizes p and q have come to the same file size, and to memory sizes that differ
      by as much. */
  predicate Parallel(c: Cursor, d: Cursor, p: nat, q: nat) {
    d.filesz == c.filesz && d.memsz == Wrap(c.memsz + (q - p))
  }

  /** They have done so or still have the sizes they began with. */
  predicate Drifted(c: Cursor, d: Cursor, p: nat, q: nat) {
    (c.filesz == c.memsz == p && d.filesz == d.memsz == q) || Parallel(c, d, p, q)
  }

  /** The two walks visit the same sections, all generated. */
  predicate Alike(c: Cursor, d: Cursor, list: seq<nat>) {
    && |c.secs| == |c.gen| == |d.secs| == |d.gen| && Within(list, |c.secs|)
    && forall m :: 0 <= m < |list| ==>
         c.gen[list[m]] && d.gen[list[m]] && d.secs[list[m]].hdr == c.secs[list[m]].hdr
  }

  /** Once parallel they stay so. */
  lemma StaysParallel(cls: ElfClass, f: Frame, c: Cursor, d: Cursor, i: nat, p: nat, q: nat)
    requires Parallel(c, d, p, q) && c.Has(i) && d.Has(i) && c.gen[i] && d.gen[i] && d.secs[i].hdr == c.secs[i].hdr
    ensures Parallel(PlaceOne(cls, f, c, i), PlaceOne(cls, f, d, i), p, q)
  {
    var s := c.secs[i];
    assert Counted(f, d.secs[i]) == Counted(f, s) && SecAlign(f, d, i) == SecAlign(f, c, i);
    hide Counted, Wrap;
    MemoryDrifts(c.memsz, q - p, s.hdr.size + SecAlign(f, c, i));
  }

  /** The first section with bytes sets the file size; if it does not count, that makes them parallel. */
  lemma BecomesParallel(cls: ElfClass, f: Frame, c: Cursor, d: Cursor, i: nat, p: nat, q: nat)
    requires c.filesz == c.memsz == p && d.filesz == d.memsz == q && f.start == 0 && p < U64 && q < U64
    requires c.Has(i) && d.Has(i) && c.gen[i] && d.gen[i] && d.secs[i].hdr == c.secs[i].hdr
    requires c.secs[i].Occupies() && !Counted(f, c.secs[i])
    ensures Parallel(PlaceOne(cls, f, c, i), PlaceOne(cls, f, d, i), p, q)
  {
    var s := c.secs[i];
    assert Counted(f, d.secs[i]) == Counted(f, s);
    hide Counted;
    WrapAdd(p + s.hdr.size, s.hdr.offset - p);
    WrapAdd(q + s.hdr.size, s.hdr.offset - q);
  }

  lemma NullStays(cls: ElfClass, f: Frame, c: Cursor, i: nat)
    requires c.Has(i) && c.secs[i].IsNull()
    ensures var r := PlaceOne(cls, f, c, i); r.filesz == c.filesz && r.memsz == c.memsz
  {
  }

  lemma MemoryDrifts(m: nat, more: int, n: nat)
    ensures Wrap(Wrap(m + more) + n) == Wrap(Wrap(m + n) + more)
  {
    WrapAdd(n, m + more);
    WrapAdd(more, m + n);
  }

  lemma {:induction false} WalkDrifts(cls: ElfClass, f: Frame, c: Cursor, d: Cursor, list: seq<nat>, p: nat, q: nat)
    requires Alike(c, d, list) && f.start == 0 && p < U64 && q < U64
    requires c.filesz == c.memsz == p && d.filesz == d.memsz == q
    requires forall m :: 0 <= m < |list| ==> !c.secs[list[m]].IsNobits()
    requires forall j :: 0 <= j < |list| ==> !SteadyAt(f, c.secs, list, j)
    ensures var c', d' := PlaceAll(cls, f, c, list), PlaceAll(cls, f, d, list);
            if forall m :: 0 <= m < |list| ==> c.secs[list[m]].IsNull()
            then c'.filesz == c'.memsz == p && d'.filesz == d'.memsz == q
            else Parallel(c', d', p, q)
  {
    hide PlaceOne, Counted, Parallel;
    if list != [] {
      var init, i := list[..|list| - 1], list[|list| - 1];
      assert forall m :: 0 <= m < |init| ==> init[m] == list[m];
      forall j | 0 <= j < |init|
        ensures !SteadyAt(f, c.secs, init, j)
      {
        assert !SteadyAt(f, c.secs, list, j);
      }
      WalkDrifts(cls, f, c, d, init, p, q);
      Frozen.WalkKeeps(cls, f, c, init, i);
      Frozen.WalkKeeps(cls, f, d, init, i);
      var c', d' := PlaceAll(cls, f, c, init), PlaceAll(cls, f, d, init);
      if !(forall m :: 0 <= m < |init| ==> c.secs[init[m]].IsNull()) {
        StaysParallel(cls, f, c', d', i, p, q);
      } else if c.secs[i].IsNull() {
        NullStays(cls, f, c', i);
        NullStays(cls, f, d', i);
      } else {
        assert !SteadyAt(f, c.secs, list, |init|);
        BecomesParallel(cls, f, c', d', i, p, q);
      }
    }
  }

  /** Numbers below the limit that differ by nothing the width can show are equal. */
  lemma TruncTells(cls: ElfClass, m: nat, p: nat, q: nat)
    requires p < cls.Limit() && q < cls.Limit() && cls.Trunc(Wrap(m + (q - p))) == cls.Trunc(m)
    ensures p == q
  {
    var l, t := cls.Limit(), cls.Trunc(m);
    Overlap.TruncIsMod(cls, m);
    Overlap.TruncIsMod(cls, Wrap(m + (q - p)));
    WrapIsMod(m + (q - p));
    Overlap.WrapThenMod(cls, m + (q - p));
    assert (m + (q - p)) % l == m % l;
    var a, b := m / l, (m + (q - p)) / l;
    assert m == a * l + t && m + (q - p) == b * l + t;
    assert q - p == (b - a) * l;
    SmallMultiple(b - a, l, q - p);
  }

  lemma SmallMultiple(k: int, l: int, d: int)
    requires l > 0 && d == k * l && -l < d < l
    ensures d == 0
  {
    if k > 0 {
      MulMonotone(1, k, l);
    } else if k < 0 {
      MulMonotone(k, -1, l);
    }
  }

  /** If the two walks come to the same sizes, they began with the same. */
  lemma WalkTells(cls: ElfClass, f: Frame, c: Cursor, d: Cursor, list: seq<nat>)
    requires Alike(c, d, list) && f.start == 0 && list != [] && NobitsLast(c.secs, list)
    requires c.filesz == c.memsz < cls.Limit() && d.filesz == d.memsz < cls.Limit()
    requires forall j :: 0 <= j < |list| ==> !SteadyAt(f, c.secs, list, j)
    requires var c', d' := PlaceAll(cls, f, c, list), PlaceAll(cls, f, d, list);
             cls.Trunc(d'.filesz) == cls.Trunc(c'.filesz) && cls.Trunc(d'.memsz) == cls.Trunc(c'.memsz)
    ensures d.filesz == c.filesz
  {
    hide PlaceOne, Counted, Wrap;
    var p, q := c.filesz, d.filesz;
    var init, i := list[..|list| - 1], list[|list| - 1];
    assert cls.Limit() <= U64;
    assert forall m :: 0 <= m < |init| ==> init[m] == list[m];
    forall j | 0 <= j < |init|
      ensures !SteadyAt(f, c.secs, init, j)
    {
      assert !SteadyAt(f, c.secs, list, j);
    }
    if c.secs[i].IsNobits() {
      WalkDrifts(cls, f, c, d, init, p, q);
      Frozen.WalkKeeps(cls, f, c, init, i);
      Frozen.WalkKeeps(cls, f, d, init, i);
      NobitsTells(cls, f, PlaceAll(cls, f, c, init), PlaceAll(cls, f, d, init), i, p, q);
    } else {
      WalkDrifts(cls, f, c, d, list, p, q);
      DriftTells(cls, PlaceAll(cls, f, c, list), PlaceAll(cls, f, d, list), p, q);
    }
  }

  lemma DriftTells(cls: ElfClass, c: Cursor, d: Cursor, p: nat, q: nat)
    requires Drifted(c, d, p, q) && p < cls.Limit() && q < cls.Limit()
    requires cls.Trunc(d.filesz) == cls.Trunc(c.filesz) && cls.Trunc(d.memsz) == cls.Trunc(c.memsz)
    ensures p == q
  {
    if Parallel(c, d, p, q) {
      TruncTells(cls, c.memsz, p, q);
    }
  }

  /** A NOBITS section at the end leaves the file sizes alone. */
  lemma NobitsTells(cls: ElfClass, f: Frame, c: Cursor, d: Cursor, i: nat, p: nat, q: nat)
    requires Drifted(c, d, p, q) && c.Has(i) && d.Has(i) && c.gen[i] && d.gen[i] && d.secs[i].hdr == c.secs[i].hdr
    requires c.secs[i].IsNobits() && p < cls.Limit() && q < cls.Limit()
    requires var c', d' := PlaceOne(cls, f, c, i), PlaceOne(cls, f, d, i);
             cls.Trunc(d'.filesz) == cls.Trunc(c'.filesz) && cls.Trunc(d'.memsz) == cls.Trunc(c'.memsz)
    ensures p == q
  {
    if Parallel(c, d, p, q) {
      StaysParallel(cls, f, c, d, i, p, q);
      TruncTells(cls, PlaceOne(cls, f, c, i).memsz, p, q);
    }
  }

  // ----- segments

  /** A segment that begins with the null section, whose sections are all generated and the first of them with
      bytes does not set both sizes: the cursor can be told from its sizes. */
  lemma SegmentTells(cls: ElfClass, h: Ehdr, st: LayState, su: LayState, k: nat)
    requires LayOk(st) && LayOk(su) && k < |st.segs| == |su.segs| && |su.secs| == |st.secs|
    requires su.segs[k].sections == st.segs[k].sections
    requires su.segs[k].hdr.typ == st.segs[k].hdr.typ && su.segs[k].hdr.vaddr == st.segs[k].hdr.vaddr
    requires StartsWithNull(st.segs[k], st.secs) && StartsWithNull(su.segs[k], su.secs)
    requires NobitsLast(st.secs, st.segs[k].sections) && st.pos < cls.Limit() && su.pos < cls.Limit()
    requires forall m :: 0 <= m < |st.segs[k].sections| ==>
               var i := st.segs[k].sections[m]; st.gen[i] && su.gen[i] && su.secs[i].hdr == st.secs[i].hdr
    requires forall j :: 0 <= j < |st.segs[k].sections| ==>
               !SteadyAt(FrameOf(st.segs[k]), st.secs, st.segs[k].sections, j)
    requires var r, r' := PlaceSegment(cls, h, st, k), PlaceSegment(cls, h, su, k);
             r'.segs[k].hdr.filesz == r.segs[k].hdr.filesz && r'.segs[k].hdr.memsz == r.segs[k].hdr.memsz
    ensures su.pos == st.pos
  {
    hide PlaceAll;
    var (f, c) := Open(h, st, st.segs[k]);
    var (f', d) := Open(h, su, su.segs[k]);
    assert f' == f && Alike(c, d, st.segs[k].sections);
    forall j | 0 <= j < |st.segs[k].sections|
      ensures !SteadyAt(f, c.secs, st.segs[k].sections, j)
    {
      assert !SteadyAt(FrameOf(st.segs[k]), st.secs, st.segs[k].sections, j);
    }
    WalkTells(cls, f, c, d, st.segs[k].sections);
  }

  /** So if the second run leaves such a segment's sizes alone, it comes to it with the first one's cursor. */
  lemma NestedTells(e: Elf, su: LayState, k: nat)
    requires Fitting(e) && k < |e.segments| && !Placer(e, k) && !Steady(e, k)
    requires Repeats(e.cls, Prepared(e), StateAt(e, Position(e, k)), su, k) && su.pos < e.cls.Limit()
    requires var r := PlaceSegment(e.cls, Prepared(e), su, k);
             r.segs[k].hdr.filesz == su.segs[k].hdr.filesz && r.segs[k].hdr.memsz == su.segs[k].hdr.memsz
    ensures su.pos == StateAt(e, Position(e, k)).pos
  {
    hide Order, Laminar, LayoutFits, StateAt, Layout.PlaceSegment, SegmentsLaid, SteadyAt, Placer;
    var p := Position(e, k);
    SegmentsAreLaid(e, p);
    MarkedOrNot(e, p, k);
    UnsteadyStays(e, p, k);
    SegmentTells(e.cls, Prepared(e), StateAt(e, p), su, k);
  }

  lemma UnsteadyStays(e: Elf, p: nat, k: nat)
    requires WellFormed(e) && p <= |e.segments| && k < |e.segments| && LaidAt(e, p) && !Steady(e, k)
    requires p == Position(e, k)
    ensures var st := StateAt(e, p);
            && st.segs[k] == e.segments[k] && StartsWithNull(st.segs[k], st.secs) &&
                 NobitsLast(st.secs, st.segs[k].sections)
            && forall j :: 0 <= j < |st.segs[k].sections| ==>
                 !SteadyAt(FrameOf(st.segs[k]), st.secs, st.segs[k].sections, j)
  {
    hide Order, StateAt, Laminar, SteadyAt;
    var st := StateAt(e, p);
    TypesKept(e, p, st);
    assert SegShape(st.secs, e.segments[k]);
    forall j | 0 <= j < |e.segments[k].sections|
      ensures !SteadyAt(FrameOf(e.segments[k]), st.secs, e.segments[k].sections, j)
    {
      if SteadyAt(FrameOf(e.segments[k]), st.secs, e.segments[k].sections, j) {
        SteadyWas(FrameOf(e.segments[k]), e.sections, st.secs, e.segments[k].sections, j);
      }
    }
  }

  lemma SteadyWas(f: Frame, secs: seq<SectionState>, secs': seq<SectionState>, list: seq<nat>, j: nat)
    requires |secs'| == |secs| && (forall i :: 0 <= i < |secs'| ==> secs[i].Moved(secs'[i]))
    requires Within(list, |secs|) && SteadyAt(f, secs', list, j)
    ensures SteadyAt(f, secs, list, j)
  {
  }
}
