/** Walking a segment all of whose sections were generated by an earlier segment. */
module NestedRun {
  import opened ElfTypes
  import opened ElfState
  import opened Layout
  import opened FreshRun
  import Ordering

  /** The listed sections stand in the file, behind the segment's start. */
  predicate Standing(cls: ElfClass, f: Frame, c: Cursor, list: set<nat>) {
    && (forall a :: a in list ==> c.Has(a))
    && (forall a :: a in list && NonNull(c.secs, a) ==>
          c.gen[a] && f.start <= c.secs[a].hdr.offset && c.secs[a].hdr.offset + c.secs[a].hdr.size < cls.Limit())
    && Ascending(c.secs, list)
  }

  /** What a walk over sections that already stand in the file has computed. */
  predicate Revisited(cls: ElfClass, f: Frame, c0: Cursor, c: Cursor, done: set<nat>) {
    && c.pos == c0.pos && c.secs == c0.secs && |c.gen| == |c0.gen| == |c0.secs|
    && (forall i :: 0 <= i < |c.gen| ==> (c.gen[i] <==> c0.gen[i] || i in done))
    && EndsAt(c.secs, done, f.start + c.filesz, f.start + c0.filesz)
    && MemoryImage(cls, f, c.secs, done, c.filesz, c.memsz)
  }

  /** Each turn moves the sizes to the end of the section it visits. */
  lemma VisitSizes(cls: ElfClass, f: Frame, c: Cursor, i: nat)
    requires c.Has(i) && c.gen[i] && !c.secs[i].IsNull()
    requires f.start <= c.secs[i].hdr.offset && c.secs[i].hdr.offset + c.secs[i].hdr.size < cls.Limit()
    ensures var s, r := c.secs[i], PlaceOne(cls, f, c, i);
            && r == c.(filesz := r.filesz, memsz := r.memsz)
            && r.filesz == (if s.IsNobits() then c.filesz else s.hdr.offset + s.hdr.size - f.start)
            && (Counted(f, s) && c.memsz == c.filesz ==> r.memsz == s.hdr.offset + s.hdr.size - f.start)
  {
    assert cls.Limit() <= U64;
    var s := c.secs[i];
    WrapAdd(c.filesz + s.hdr.size, s.hdr.offset - f.start - c.filesz);
  }

  lemma VisitTurn(cls: ElfClass, f: Frame, c0: Cursor, c: Cursor, done: set<nat>, i: nat)
    requires Revisited(cls, f, c0, c, done) && Standing(cls, f, c0, done + {i})
    requires forall a :: a in done ==> a < i
    requires !c0.secs[i].IsNull() ==> NoNobits(c0.secs, done)
    ensures Revisited(cls, f, c0, PlaceOne(cls, f, c, i), done + {i})
  {
    hide EndsAt, MemoryImage, SecAlign;
    var r := PlaceOne(cls, f, c, i);
    assert i in done + {i};
    if c.secs[i].IsNull() {
      NullSizes(cls, f, c, done, i, f.start + c0.filesz);
    } else {
      VisitStanding(cls, f, c0, c, done, i);
    }
  }

  lemma VisitStanding(cls: ElfClass, f: Frame, c0: Cursor, c: Cursor, done: set<nat>, i: nat)
    requires Revisited(cls, f, c0, c, done) && Standing(cls, f, c0, done + {i})
    requires forall a :: a in done ==> a < i
    requires NonNull(c0.secs, i) && NoNobits(c0.secs, done)
    ensures Revisited(cls, f, c0, PlaceOne(cls, f, c, i), done + {i})
  {
    hide EndsAt, MemoryImage, SecAlign;
    var r := PlaceOne(cls, f, c, i);
    assert i in done + {i};
    VisitSizes(cls, f, c, i);
    hide PlaceOne;
    VisitEnd(f, c, done, i, f.start + c.filesz, f.start + r.filesz, f.start + c0.filesz);
    VisitImage(cls, f, c, r, done, i);
  }

  lemma VisitEnd(f: Frame, c: Cursor, done: set<nat>, i: nat, end: nat, end': nat, empty: nat)
    requires EndsAt(c.secs, done, end, empty) && NonNull(c.secs, i) && Ascending(c.secs, done + {i})
    requires forall a :: a in done ==> a < i
    requires end' == if c.secs[i].IsNobits() then end else c.secs[i].End()
    ensures EndsAt(c.secs, done + {i}, end', empty)
  {
    assert i in done + {i};
    if c.secs[i].IsNobits() {
      EndsAtSkip(c.secs, done, i, end, empty);
    } else {
      assert Occupying(c.secs, i);
      forall a | a in done + {i} && Occupying(c.secs, a)
        ensures c.secs[a].End() <= end'
      {
        if a != i {
          assert a in done + {i} && NonNull(c.secs, a);
        }
      }
    }
  }

  lemma VisitImage(cls: ElfClass, f: Frame, c: Cursor, r: Cursor, done: set<nat>, i: nat)
    requires MemoryImage(cls, f, c.secs, done, c.filesz, c.memsz) && NoNobits(c.secs, done)
    requires r.secs == c.secs && NonNull(c.secs, i) && Ascending(c.secs, done + {i})
    requires c.secs[i].hdr.offset + c.secs[i].hdr.size < cls.Limit() && forall a :: a in done ==> a < i
    requires Counted(f, c.secs[i]) && c.memsz == c.filesz ==>
               f.start + r.memsz == c.secs[i].hdr.offset + c.secs[i].hdr.size
    requires !c.secs[i].IsNobits() ==> f.start + r.filesz == c.secs[i].hdr.offset + c.secs[i].hdr.size
    ensures MemoryImage(cls, f, r.secs, done + {i}, r.filesz, r.memsz)
  {
    forall a | a in done && NonNull(c.secs, a)
      ensures c.secs[a].End() <= c.secs[i].hdr.offset
    {
      assert a in done + {i} && i in done + {i};
    }
    NewImage(cls, f, c, r, done, i);
  }

  lemma {:induction false} RevisitAll(cls: ElfClass, f: Frame, c0: Cursor, list: seq<nat>)
    requires |c0.gen| == |c0.secs| && Within(list, |c0.secs|) && Ordering.Sorted(list)
    requires NobitsLast(c0.secs, list) && Standing(cls, f, c0, Elems(list))
    requires c0.memsz == c0.filesz && f.start + c0.memsz < cls.Limit()
    ensures Revisited(cls, f, c0, PlaceAll(cls, f, c0, list), Elems(list))
  {
    if list == [] {
    } else {
      var init, i := list[..|list| - 1], list[|list| - 1];
      assert Elems(list) == Elems(init) + {i} by {
        assert list == init + [i];
      }
      RevisitAll(cls, f, c0, init);
      VisitTurn(cls, f, c0, PlaceAll(cls, f, c0, init), Elems(init), i);
    }
  }
}
