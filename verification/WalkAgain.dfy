/** The section loop, run over sections that already stand where the first run put them. Their
    addresses are initialised now, so the second run takes another alignment branch than the first. */
module WalkAgain {
  import opened Arith
  import opened ElfTypes
  import opened ElfState
  import opened Layout
  import opened FreshRun
  import opened SegmentPass
  import Frozen
  import Ordering

  /** t is the section s as it was read back. */
  predicate Same(s: SectionState, t: SectionState) {
    t.hdr == s.hdr && t.index == s.index && t.addressSet
  }

  /** Section i needs no placing, or fits where the cursor stands. */
  predicate Turnable(cls: ElfClass, f: Frame, c: Cursor, i: nat)
    requires c.Has(i)
  {
    c.secs[i].IsNull() || c.gen[i] ||
    (Indexed(c.secs) && f.start <= c.pos < cls.Limit() && Fits(cls, f, c, i))
  }

  predicate RunTurnable(cls: ElfClass, f: Frame, c: Cursor, list: seq<nat>)
    requires |c.gen| == |c.secs| && Within(list, |c.secs|)
  {
    list == [] ||
    (&& RunTurnable(cls, f, c, list[..|list| - 1])
     && Turnable(cls, f, PlaceAll(cls, f, c, list[..|list| - 1]), list[|list| - 1]))
  }

  lemma {:induction false} FreshTurnable(cls: ElfClass, f: Frame, c0: Cursor, list: seq<nat>)
    requires |c0.gen| == |c0.secs| && Within(list, |c0.secs|) && Ordering.Sorted(list)
    requires Indexed(c0.secs) && NobitsLast(c0.secs, list) && NoneGenerated(c0, list)
    requires f.start <= c0.pos < cls.Limit() && c0.filesz == c0.memsz == c0.pos - f.start
    requires RunFits(cls, f, c0, list)
    ensures RunTurnable(cls, f, c0, list)
  {
    if list != [] {
      var init := list[..|list| - 1];
      LastOf(c0, list);
      FreshTurnable(cls, f, c0, init);
      WalkAll(cls, f, c0, init);
      SameTypes(cls, f, c0, PlaceAll(cls, f, c0, init), Elems(init));
    }
  }

  lemma {:induction false} MarkedTurnable(cls: ElfClass, f: Frame, c: Cursor, list: seq<nat>)
    requires |c.gen| == |c.secs| && Within(list, |c.secs|)
    requires forall m :: 0 <= m < |list| ==> c.gen[list[m]]
    ensures RunTurnable(cls, f, c, list)
  {
    if list != [] {
      MarkedTurnable(cls, f, c, list[..|list| - 1]);
      Frozen.WalkKeeps(cls, f, c, list[..|list| - 1], list[|list| - 1]);
    }
  }

  /** The skip computed from a section's own address is the skip that gave it this address. */
  lemma SkipAgain(cls: ElfClass, f: Frame, c: Cursor, secs: seq<SectionState>, i: nat)
    requires c.Has(i) && Turnable(cls, f, c, i) && !c.secs[i].IsNull() && !c.gen[i]
    requires |secs| == |c.secs| && Same(PlaceOne(cls, f, c, i).secs[i], secs[i])
    ensures SecAlign(f, c.(secs := secs), i) == SecAlign(f, c, i)
  {
    PlacedFacts(cls, f, c, c.pos, i);
    SkipIsIdeal(cls, f, c, i);
    assert cls.Limit() <= U64;
    assert secs[i].hdr == PlaceOne(cls, f, c, i).secs[i].hdr;
  }

  /** Cursor d goes where c goes, over sections that already are where c puts them. */
  predicate Retraces(c: Cursor, d: Cursor) {
    && |c.secs| == |c.gen| == |d.secs| == |d.gen|
    && d.pos == c.pos && d.filesz == c.filesz && d.memsz == c.memsz
  }

  lemma TurnAgain(cls: ElfClass, f: Frame, c: Cursor, d: Cursor, i: nat)
    requires Retraces(c, d) && c.Has(i) && Turnable(cls, f, c, i)
    requires d.gen[i] == c.gen[i] && Same(PlaceOne(cls, f, c, i).secs[i], d.secs[i])
    ensures Retraces(PlaceOne(cls, f, c, i), PlaceOne(cls, f, d, i)) && PlaceOne(cls, f, d, i).secs == d.secs
  {
    if c.secs[i].IsNull() {
    } else if c.gen[i] {
      assert d.secs[i].hdr == c.secs[i].hdr;
    } else {
      SkipAgain(cls, f, c, d.secs, i);
      NewTurnAgain(cls, f, c, d, i);
    }
  }

  lemma NewTurnAgain(cls: ElfClass, f: Frame, c: Cursor, d: Cursor, i: nat)
    requires Retraces(c, d) && c.Has(i) && !c.secs[i].IsNull() && !c.gen[i] && !d.gen[i]
    requires Same(PlaceOne(cls, f, c, i).secs[i], d.secs[i])
    requires SecAlign(f, c.(secs := d.secs), i) == SecAlign(f, c, i)
    ensures Retraces(PlaceOne(cls, f, c, i), PlaceOne(cls, f, d, i)) && PlaceOne(cls, f, d, i).secs == d.secs
  {
    var s, t := c.secs[i], d.secs[i];
    assert SecAlign(f, d, i) == SecAlign(f, c, i);
    hide SecAlign, Wrap;
    SameKind(cls, f, c, i, t);
    hide Counted;
    PlacedAgain(cls, f, c, d, i);
  }

  lemma SameKind(cls: ElfClass, f: Frame, c: Cursor, i: nat, t: SectionState)
    requires c.Has(i) && Same(PlaceOne(cls, f, c, i).secs[i], t)
    ensures var s := c.secs[i];
            && t.hdr.typ == s.hdr.typ && t.hdr.flags == s.hdr.flags && t.hdr.size == s.hdr.size && t.index == s.index
            && Counted(f, t) == Counted(f, s)
  {
    hide SecAlign, Wrap;
  }

  lemma PlacedAgain(cls: ElfClass, f: Frame, c: Cursor, d: Cursor, i: nat)
    requires c.Has(i) && d.Has(i) && d.pos == c.pos && !c.secs[i].IsNull() && !d.secs[i].IsNull()
    requires !c.gen[i] && !d.gen[i] && d.secs[i].index == c.secs[i].index
    requires Same(PlaceOne(cls, f, c, i).secs[i], d.secs[i]) && SecAlign(f, d, i) == SecAlign(f, c, i)
    ensures PlaceOne(cls, f, d, i).secs == d.secs
  {
    hide SecAlign, Wrap, Counted;
    assert PlaceOne(cls, f, d, i).secs[i] == d.secs[i];
  }

  /** The second walk may find other sections generated, as long as it does not visit them. */
  lemma {:induction false} RunAgain(cls: ElfClass, f: Frame, c: Cursor, d: Cursor, list: seq<nat>)
    requires Retraces(c, d) && Within(list, |c.secs|) && RunTurnable(cls, f, c, list)
    requires forall m :: 0 <= m < |list| ==>
               d.gen[list[m]] == c.gen[list[m]] && Same(PlaceAll(cls, f, c, list).secs[list[m]], d.secs[list[m]])
    ensures Retraces(PlaceAll(cls, f, c, list), PlaceAll(cls, f, d, list)) && PlaceAll(cls, f, d, list).secs == d.secs
  {
    if list != [] {
      var init, i := list[..|list| - 1], list[|list| - 1];
      forall m | 0 <= m < |init|
        ensures d.gen[init[m]] == c.gen[init[m]] && Same(PlaceAll(cls, f, c, init).secs[init[m]], d.secs[init[m]])
      {
        Frozen.PrefixKept(cls, f, c, list, m);
        assert init[m] == list[m];
      }
      RunAgain(cls, f, c, d, init);
      Frozen.WalkTouches(cls, f, c, init, i);
      Frozen.WalkTouches(cls, f, d, init, i);
      TurnAgain(cls, f, PlaceAll(cls, f, c, init), PlaceAll(cls, f, d, init), i);
    }
  }

  // ----- sections that are all generated: where the cursor stands does not matter

  /** The first section of the list that is not null is the j-th; it has bytes and counts. */
  predicate SteadyAt(f: Frame, secs: seq<SectionState>, list: seq<nat>, j: nat)
    requires Within(list, |secs|)
  {
    && j < |list| && (forall i :: 0 <= i < j ==> secs[list[i]].IsNull())
    && secs[list[j]].Occupies() && Counted(f, secs[list[j]])
  }

  lemma {:induction false} NullsOnly(cls: ElfClass, f: Frame, c: Cursor, list: seq<nat>)
    requires |c.gen| == |c.secs| && Within(list, |c.secs|) && forall m :: 0 <= m < |list| ==> c.secs[list[m]].IsNull()
    ensures PlaceAll(cls, f, c, list).secs == c.secs && PlaceAll(cls, f, c, list).pos == c.pos
    ensures PlaceAll(cls, f, c, list).filesz == c.filesz && PlaceAll(cls, f, c, list).memsz == c.memsz
  {
    if list != [] {
      NullsOnly(cls, f, c, list[..|list| - 1]);
    }
  }

  /** Generated sections are left alone, and so is the cursor. */
  lemma {:induction false} VisitsOnly(cls: ElfClass, f: Frame, c: Cursor, list: seq<nat>)
    requires |c.gen| == |c.secs| && Within(list, |c.secs|) && forall m :: 0 <= m < |list| ==> c.gen[list[m]]
    ensures PlaceAll(cls, f, c, list).secs == c.secs && PlaceAll(cls, f, c, list).pos == c.pos
  {
    if list != [] {
      VisitsOnly(cls, f, c, list[..|list| - 1]);
      Frozen.WalkKeeps(cls, f, c, list[..|list| - 1], list[|list| - 1]);
    }
  }

  /** A generated section with bytes that counts sets both sizes to where it ends, whatever they were. */
  lemma VisitSets(cls: ElfClass, f: Frame, c: Cursor, i: nat)
    requires c.Has(i) && c.gen[i] && c.secs[i].Occupies() && Counted(f, c.secs[i]) && c.memsz == c.filesz
    ensures var r, s := PlaceOne(cls, f, c, i), c.secs[i];
            r.filesz == r.memsz == Wrap(s.hdr.size + s.hdr.offset - f.start)
  {
    var s := c.secs[i];
    WrapAdd(c.filesz + s.hdr.size, s.hdr.offset - f.start - c.filesz);
  }

  /** Two walks over the same generated sections come to the same sizes, if they begin with the same ones
      or the first section sets them. */
  lemma {:induction false} SizesAgain(cls: ElfClass, f: Frame, c: Cursor, d: Cursor, list: seq<nat>, j: nat)
    requires |c.secs| == |c.gen| == |d.secs| == |d.gen| && Within(list, |c.secs|)
    requires forall m :: 0 <= m < |list| ==>
               c.gen[list[m]] && d.gen[list[m]] && d.secs[list[m]].hdr == c.secs[list[m]].hdr
    requires c.memsz == c.filesz && d.memsz == d.filesz
    requires c.filesz == d.filesz || SteadyAt(f, c.secs, list, j)
    ensures PlaceAll(cls, f, d, list).filesz == PlaceAll(cls, f, c, list).filesz
    ensures PlaceAll(cls, f, d, list).memsz == PlaceAll(cls, f, c, list).memsz
  {
    hide PlaceOne;
    if list != [] {
      var init, i := list[..|list| - 1], list[|list| - 1];
      VisitsOnly(cls, f, c, init);
      VisitsOnly(cls, f, d, init);
      Frozen.WalkKeeps(cls, f, c, init, i);
      Frozen.WalkKeeps(cls, f, d, init, i);
      if c.filesz != d.filesz && j == |list| - 1 {
        NullsOnly(cls, f, c, init);
        NullsOnly(cls, f, d, init);
        VisitSets(cls, f, PlaceAll(cls, f, c, init), i);
        VisitSets(cls, f, PlaceAll(cls, f, d, init), i);
      } else {
        SizesAgain(cls, f, c, d, init, j);
        VisitAgain(cls, f, PlaceAll(cls, f, c, init), PlaceAll(cls, f, d, init), i);
      }
    }
  }

  lemma VisitAgain(cls: ElfClass, f: Frame, c: Cursor, d: Cursor, i: nat)
    requires c.Has(i) && d.Has(i) && c.gen[i] && d.gen[i] && d.secs[i].hdr == c.secs[i].hdr
    requires d.filesz == c.filesz && d.memsz == c.memsz
    ensures PlaceOne(cls, f, d, i).filesz == PlaceOne(cls, f, c, i).filesz
    ensures PlaceOne(cls, f, d, i).memsz == PlaceOne(cls, f, c, i).memsz
  {
  }

  // ----- segments

  /** seg is the segment seg0 as it was read back, with the same sections. */
  predicate SameSegment(seg0: SegmentState, seg: SegmentState) {
    && seg.sections == seg0.sections && seg.offsetSet
    && seg.hdr == seg0.hdr.(offset := seg.hdr.offset, filesz := seg.hdr.filesz, memsz := seg.hdr.memsz)
  }

  /** The turn of segment k in state su, which has it as state st left it. */
  predicate Repeats(cls: ElfClass, h: Ehdr, st: LayState, su: LayState, k: nat) {
    && LayOk(st) && LayOk(su) && k < |st.segs| == |su.segs| && |su.secs| == |st.secs|
    && SameSegment(st.segs[k], su.segs[k])
    && StartsWithNull(su.segs[k], su.secs) == StartsWithNull(st.segs[k], st.secs)
    && (forall m :: 0 <= m < |st.segs[k].sections| ==>
          var i := st.segs[k].sections[m];
          && su.gen[i] == st.gen[i]
          && Same(PlaceSegment(cls, h, st, k).secs[i], su.secs[i])
          && (st.gen[i] ==> su.secs[i].hdr == st.secs[i].hdr))
    && var r := PlaceSegment(cls, h, st, k);
       && su.segs[k].hdr.offset == r.segs[k].hdr.offset && su.segs[k].hdr.filesz == r.segs[k].hdr.filesz
       && su.segs[k].hdr.memsz == r.segs[k].hdr.memsz
  }

  /** It moves nothing; only the cursor and the marks change. */
  predicate Unmoved(st: LayState, r: LayState, pos: nat, list: seq<nat>) {
    && r.secs == st.secs && r.segs == st.segs && r.pos == pos && |r.gen| == |st.gen|
    && forall i :: 0 <= i < |r.gen| ==> (r.gen[i] <==> st.gen[i] || i in list)
  }

  lemma SegmentMarks(cls: ElfClass, h: Ehdr, st: LayState, k: nat)
    requires LayOk(st) && k < |st.segs|
    ensures var r := PlaceSegment(cls, h, st, k);
            |r.gen| == |st.gen| && forall i :: 0 <= i < |r.gen| ==>
                (r.gen[i] <==> st.gen[i] || i in st.segs[k].sections)
  {
    var (f, c) := Open(h, st, st.segs[k]);
    forall i | 0 <= i < |st.gen|
      ensures PlaceAll(cls, f, c, st.segs[k].sections).gen[i] <==> st.gen[i] || i in st.segs[k].sections
    {
      Frozen.WalkTouches(cls, f, c, st.segs[k].sections, i);
    }
  }

  /** If the walk over its sections repeats, so does the turn. */
  lemma TurnUnmoved(cls: ElfClass, h: Ehdr, st: LayState, su: LayState, k: nat)
    requires Repeats(cls, h, st, su, k)
    requires var (f, c) := Open(h, st, st.segs[k]);
             var (f', d) := Open(h, su, su.segs[k]);
             var r := PlaceAll(cls, f', d, st.segs[k].sections);
             f' == f && Retraces(PlaceAll(cls, f, c, st.segs[k].sections), r) && r.secs == su.secs
    ensures Unmoved(su, PlaceSegment(cls, h, su, k), PlaceSegment(cls, h, st, k).pos, st.segs[k].sections)
  {
    hide Open, PlaceAll;
    SegmentMarks(cls, h, su, k);
    assert su.segs[k := su.segs[k]] == su.segs;
  }

  /** From the same cursor, the turn repeats what it did. */
  lemma SegmentAgain(cls: ElfClass, h: Ehdr, st: LayState, su: LayState, k: nat)
    requires Repeats(cls, h, st, su, k) && su.pos == st.pos
    requires var (f, c) := Open(h, st, st.segs[k]); RunTurnable(cls, f, c, st.segs[k].sections)
    ensures Unmoved(su, PlaceSegment(cls, h, su, k), PlaceSegment(cls, h, st, k).pos, st.segs[k].sections)
  {
    OpenedAgain(cls, h, st, su, k);
  }

  /** All that matters is the cursor with which the walk begins. */
  lemma OpenedAgain(cls: ElfClass, h: Ehdr, st: LayState, su: LayState, k: nat)
    requires Repeats(cls, h, st, su, k)
    requires var (f, c) := Open(h, st, st.segs[k]);
             var (f', d) := Open(h, su, su.segs[k]);
             RunTurnable(cls, f, c, st.segs[k].sections) && f' == f && Retraces(c, d)
    ensures Unmoved(su, PlaceSegment(cls, h, su, k), PlaceSegment(cls, h, st, k).pos, st.segs[k].sections)
  {
    hide Open, RunTurnable;
    var (f, c) := Open(h, st, st.segs[k]);
    var (f', d) := Open(h, su, su.segs[k]);
    RunAgain(cls, f, c, d, st.segs[k].sections);
    TurnUnmoved(cls, h, st, su, k);
  }

  /** A segment whose sections are all generated repeats from any cursor, unless it begins with the null
      section and takes its sizes from the cursor. */
  lemma NestedAgain(cls: ElfClass, h: Ehdr, st: LayState, su: LayState, k: nat, j: nat)
    requires Repeats(cls, h, st, su, k) && st.segs[k].sections != []
    requires forall m :: 0 <= m < |st.segs[k].sections| ==> st.gen[st.segs[k].sections[m]]
    requires StartsWithNull(st.segs[k], st.secs) ==> SteadyAt(FrameOf(st.segs[k]), st.secs, st.segs[k].sections, j)
    ensures Unmoved(su, PlaceSegment(cls, h, su, k), su.pos, st.segs[k].sections)
  {
    var list := st.segs[k].sections;
    var (f, c) := Open(h, st, st.segs[k]);
    var (f', d) := Open(h, su, su.segs[k]);
    assert list[0] in list && f' == f && c.filesz == c.memsz && d.filesz == d.memsz;
    hide Open;
    SizesAgain(cls, f, c, d, list, j);
    VisitsOnly(cls, f, d, list);
    SegmentMarks(cls, h, su, k);
    assert su.segs[k := su.segs[k]] == su.segs;
  }

  /** A new segment with room, and a segment whose sections are all generated, can be walked. */
  lemma NewSegmentTurns(cls: ElfClass, h: Ehdr, st: LayState, k: nat)
    requires LayOk(st) && k < |st.segs| && st.pos < cls.Limit()
    requires Indexed(st.secs) && SegShape(st.secs, st.segs[k])
    requires st.segs[k].sections != [] && NoneMarked(st, st.segs[k].sections) && SegmentFits(cls, h, st, k)
    ensures var (f, c) := Open(h, st, st.segs[k]); RunTurnable(cls, f, c, st.segs[k].sections)
  {
    OpenFresh(cls, h, st, k);
    var (f, c) := Open(h, st, st.segs[k]);
    FreshTurnable(cls, f, c, st.segs[k].sections);
  }

  lemma OldSegmentTurns(cls: ElfClass, h: Ehdr, st: LayState, k: nat)
    requires LayOk(st) && k < |st.segs| && AllMarked(st, st.segs[k].sections)
    ensures var (f, c) := Open(h, st, st.segs[k]); RunTurnable(cls, f, c, st.segs[k].sections)
  {
    var (f, c) := Open(h, st, st.segs[k]);
    MarkedTurnable(cls, f, c, st.segs[k].sections);
  }
}
