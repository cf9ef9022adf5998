/** Walking a segment none of whose sections has been generated yet. */
module FreshRun {
  import opened Arith
  import opened ElfTypes
  import opened ElfState
  import opened Layout
  import Ordering

  /** Sections know their own position, and only the first one has index 0 and is the null section. */
  predicate Indexed(secs: seq<SectionState>) {
    && (forall i :: 0 <= i < |secs| ==> secs[i].index == i)
    && (secs != [] ==> secs[0].IsNull())
  }

  /** Sections the layout moves to their address, or whose address it derives from the file position. */
  predicate Follows(s: SectionState) {
    !s.addressSet || s.Occupies()
  }

  /** The skip before a section that is not generated yet, in unbounded arithmetic. */
  function IdealSkip(f: Frame, c: Cursor, i: nat): int
    requires c.Has(i)
  {
    var s := c.secs[i];
    if s.addressSet && !s.IsNobits() then (s.hdr.addr - f.vaddr) - (c.pos - f.start)
    else Pad(c.pos, s.hdr.addrAlign)
  }

  /** The section's address leaves room for what the segment already holds, and nothing overflows. */
  predicate Fits(cls: ElfClass, f: Frame, c: Cursor, i: nat)
    requires c.Has(i)
  {
    var s := c.secs[i];
    s.IsNull() || c.gen[i] ||
    (&& (s.addressSet && !s.IsNobits() ==> f.vaddr + (c.pos - f.start) <= s.hdr.addr)
     && c.pos + IdealSkip(f, c, i) + s.hdr.size < cls.Limit()
     && (if s.addressSet then s.hdr.addr
         else f.vaddr + (c.pos + IdealSkip(f, c, i) - f.start)) + s.hdr.size < cls.Limit())
  }

  /** Every section of the list fits when its turn comes. */
  predicate RunFits(cls: ElfClass, f: Frame, c: Cursor, list: seq<nat>)
    requires |c.gen| == |c.secs| && Within(list, |c.secs|)
  {
    list == [] ||
    (&& RunFits(cls, f, c, list[..|list| - 1])
     && Fits(cls, f, PlaceAll(cls, f, c, list[..|list| - 1]), list[|list| - 1]))
  }

  // ----- one turn, without wrap-around

  /** Where section i of the cursor goes. */
  function PlacedSection(f: Frame, c: Cursor, i: nat): (s: SectionState)
    requires c.Has(i)
  {
    var s := c.secs[i];
    var pos := c.pos + IdealSkip(f, c, i);
    if pos < f.start then s
    else (if s.addressSet then s else s.WithAddress(f.vaddr + (pos - f.start))).WithOffset(pos)
  }

  /** With room and no overflow the machine's skip is the unbounded one. */
  lemma SkipIsIdeal(cls: ElfClass, f: Frame, c: Cursor, i: nat)
    requires c.Has(i) && f.start <= c.pos < cls.Limit()
    requires !c.secs[i].IsNull() && !c.gen[i] && Fits(cls, f, c, i)
    ensures SecAlign(f, c, i) == IdealSkip(f, c, i)
  {
    assert cls.Limit() <= U64;
  }

  /** So is the rest of the turn. */
  lemma TurnIsIdeal(cls: ElfClass, f: Frame, c: Cursor, i: nat)
    requires c.Has(i) && Indexed(c.secs) && f.start <= c.pos < cls.Limit()
    requires !c.secs[i].IsNull() && !c.gen[i] && Fits(cls, f, c, i)
    ensures IdealSkip(f, c, i) >= 0
    ensures var s, r := c.secs[i], PlaceOne(cls, f, c, i);
            var skip := IdealSkip(f, c, i);
            && r.pos == c.pos + skip + (if s.IsNobits() then 0 else s.hdr.size)
            && r.secs == c.secs[i := PlacedSection(f, c, i)]
            && r.gen == c.gen[i := true]
            && (c.filesz + s.hdr.size + skip < U64 ==>
                  r.filesz == c.filesz + if s.IsNobits() then 0 else s.hdr.size + skip)
            && (c.memsz + s.hdr.size + skip < U64 ==>
                  r.memsz == c.memsz + if Counted(f, s) then s.hdr.size + skip else 0)
  {
    SkipIsIdeal(cls, f, c, i);
    assert cls.Limit() <= U64;
    assert c.secs[i].index != 0;
  }

  // ----- the state after some of the sections

  /** What has happened to a section the walk has placed. */
  predicate Placed(cls: ElfClass, f: Frame, from: nat, s0: SectionState, s: SectionState) {
    && s0.Moved(s) && s.addressSet
    && (s0.addressSet ==> s.hdr.addr == s0.hdr.addr)
    && f.start <= s.hdr.offset && from <= s.hdr.offset
    && s.hdr.offset + s.hdr.size < cls.Limit() && s.hdr.addr + s.hdr.size < cls.Limit()
    && (Follows(s0) ==> s.hdr.offset - f.start == s.hdr.addr - f.vaddr)
  }

  predicate NonNull(secs: seq<SectionState>, a: nat) {
    a < |secs| && !secs[a].IsNull()
  }

  predicate Occupying(secs: seq<SectionState>, a: nat) {
    a < |secs| && secs[a].Occupies()
  }

  /** The listed sections stand in the file in the order of their indexes, without overlap. */
  predicate Ascending(secs: seq<SectionState>, list: set<nat>) {
    forall a, b :: a in list && b in list && a < b && NonNull(secs, a) && NonNull(secs, b) ==>
      secs[a].End() <= secs[b].hdr.offset
  }

  /** `end` is where the last file-occupying section of the list ends; `empty` if there is none. */
  predicate EndsAt(secs: seq<SectionState>, list: set<nat>, end: nat, empty: nat) {
    && (forall a :: a in list && Occupying(secs, a) ==> secs[a].End() <= end)
    && ((exists a :: a in list && Occupying(secs, a) && secs[a].End() == end) ||
        (end == empty && forall a :: a in list ==> !Occupying(secs, a)))
  }

  predicate NoNobits(secs: seq<SectionState>, list: set<nat>) {
    forall a :: a in list && a < |secs| ==> !secs[a].IsNobits()
  }

  predicate AllCounted(f: Frame, secs: seq<SectionState>, list: set<nat>) {
    forall a :: a in list && NonNull(secs, a) ==> Counted(f, secs[a])
  }

  /** When every listed section counts, the memory size reaches exactly to where the last of them ends,
      and equals the file size as long as there is no NOBITS section. */
  predicate MemoryImage(cls: ElfClass, f: Frame, secs: seq<SectionState>, list: set<nat>, filesz: nat, memsz: nat) {
    AllCounted(f, secs, list) ==>
      && f.start + memsz < cls.Limit()
      && (NoNobits(secs, list) ==> memsz == filesz)
      && (forall a :: a in list && NonNull(secs, a) ==> secs[a].hdr.offset + secs[a].hdr.size <= f.start + memsz)
      && ((exists a :: a in list && NonNull(secs, a)) ==>
            exists a :: a in list && NonNull(secs, a) && secs[a].hdr.offset + secs[a].hdr.size == f.start + memsz)
  }

  predicate Sections(cls: ElfClass, f: Frame, c0: Cursor, c: Cursor, done: set<nat>) {
    && |c.secs| == |c.gen| == |c0.secs| == |c0.gen|
    && (forall i :: 0 <= i < |c.secs| && (i !in done || c0.secs[i].IsNull()) ==> c.secs[i] == c0.secs[i])
    && (forall i :: 0 <= i < |c.secs| ==> (c.gen[i] <==> c0.gen[i] || i in done))
    && (forall a :: a in done && NonNull(c0.secs, a) ==>
          Placed(cls, f, c0.pos, c0.secs[a], c.secs[a]) && c.secs[a].End() <= c.pos)
    && Ascending(c.secs, done)
  }

  predicate FileSize(f: Frame, c0: Cursor, c: Cursor, done: set<nat>) {
    && EndsAt(c.secs, done, f.start + c.filesz, c0.pos)
    && (NoNobits(c.secs, done) ==> f.start + c.filesz == c.pos)
  }

  /** The state of a walk that began at cursor c0 and has seen the sections `done`. */
  predicate Walked(cls: ElfClass, f: Frame, c0: Cursor, c: Cursor, done: set<nat>) {
    && f.start <= c0.pos <= c.pos < cls.Limit()
    && Sections(cls, f, c0, c, done)
    && FileSize(f, c0, c, done)
    && MemoryImage(cls, f, c.secs, done, c.filesz, c.memsz)
  }

  /** The next section of the list: not seen yet, and behind no NOBITS section. */
  predicate Next(c0: Cursor, done: set<nat>, i: nat) {
    && c0.Has(i)
    && (forall a :: a in done ==> a < i)
    && (!c0.secs[i].IsNull() ==> !c0.gen[i] && NoNobits(c0.secs, done))
  }

  // ----- a null section changes nothing but its mark

  /** Adding a section that occupies nothing leaves the end where it is. */
  lemma EndsAtSkip(secs: seq<SectionState>, done: set<nat>, i: nat, end: nat, empty: nat)
    requires EndsAt(secs, done, end, empty) && i < |secs| && !secs[i].Occupies()
    ensures EndsAt(secs, done + {i}, end, empty)
  {
    if a :| a in done && Occupying(secs, a) && secs[a].End() == end {
      assert a in done + {i};
    }
  }

  lemma NullTurn(cls: ElfClass, f: Frame, c0: Cursor, c: Cursor, done: set<nat>, i: nat)
    requires Walked(cls, f, c0, c, done) && Next(c0, done, i) && c0.secs[i].IsNull()
    ensures Walked(cls, f, c0, PlaceOne(cls, f, c, i), done + {i})
  {
    assert c.secs[i] == c0.secs[i];
    var r := PlaceOne(cls, f, c, i);
    assert r.secs == c.secs && r.pos == c.pos && r.filesz == c.filesz && r.memsz == c.memsz;
    assert r.gen == c.gen[i := true];
    assert Sections(cls, f, c0, r, done + {i}) by {
      NullSections(cls, f, c0, c, r, done, i);
    }
    NullSizes(cls, f, c, done, i, c0.pos);
  }

  lemma NullSizes(cls: ElfClass, f: Frame, c: Cursor, done: set<nat>, i: nat, empty: nat)
    requires i < |c.secs| && c.secs[i].IsNull()
    requires EndsAt(c.secs, done, f.start + c.filesz, empty) && MemoryImage(cls, f, c.secs, done, c.filesz, c.memsz)
    ensures EndsAt(c.secs, done + {i}, f.start + c.filesz, empty)
    ensures MemoryImage(cls, f, c.secs, done + {i}, c.filesz, c.memsz)
    ensures NoNobits(c.secs, done + {i}) <==> NoNobits(c.secs, done)
  {
    EndsAtSkip(c.secs, done, i, f.start + c.filesz, empty);
    assert AllCounted(f, c.secs, done + {i}) ==> AllCounted(f, c.secs, done);
    if a :| a in done && NonNull(c.secs, a) && c.secs[a].hdr.offset + c.secs[a].hdr.size == f.start + c.memsz {
      assert a in done + {i};
    }
  }

  lemma NullSections(cls: ElfClass, f: Frame, c0: Cursor, c: Cursor, r: Cursor, done: set<nat>, i: nat)
    requires Sections(cls, f, c0, c, done) && c0.Has(i) && c0.secs[i].IsNull()
    requires r == c.(gen := c.gen[i := true])
    ensures Sections(cls, f, c0, r, done + {i})
  {
    assert c.secs[i].IsNull();
  }

  // ----- a new section is placed behind everything so far

  lemma PlacedFacts(cls: ElfClass, f: Frame, c: Cursor, from: nat, i: nat)
    requires c.Has(i) && Indexed(c.secs) && f.start <= c.pos < cls.Limit() && from <= c.pos
    requires !c.secs[i].IsNull() && !c.gen[i] && Fits(cls, f, c, i)
    ensures var s, r := c.secs[i], PlaceOne(cls, f, c, i);
            var p := r.secs[i];
            && Placed(cls, f, from, s, p)
            && c.pos <= p.hdr.offset
            && p.End() == r.pos
            && p.hdr.offset == c.pos + IdealSkip(f, c, i)
  {
    TurnIsIdeal(cls, f, c, i);
  }

  lemma NewSections(cls: ElfClass, f: Frame, c0: Cursor, c: Cursor, r: Cursor, done: set<nat>, i: nat)
    requires Sections(cls, f, c0, c, done) && Next(c0, done, i)
    requires !c0.secs[i].IsNull() && |r.secs| == |c.secs|
    requires r.secs == c.secs[i := r.secs[i]] && r.gen == c.gen[i := true]
    requires Placed(cls, f, c0.pos, c0.secs[i], r.secs[i])
    requires c.pos <= r.secs[i].hdr.offset && r.secs[i].End() <= r.pos && c.pos <= r.pos
    ensures Sections(cls, f, c0, r, done + {i})
  {
    assert i !in done;
    forall a | a in done + {i} && NonNull(c0.secs, a)
      ensures Placed(cls, f, c0.pos, c0.secs[a], r.secs[a]) && r.secs[a].End() <= r.pos
    {
    }
    assert Ascending(r.secs, done + {i}) by {
      forall a, b | a in done + {i} && b in done + {i} && a < b && NonNull(r.secs, a) && NonNull(r.secs, b)
        ensures r.secs[a].End() <= r.secs[b].hdr.offset
      {
        assert a in done;
        assert r.secs[a] == c.secs[a];
        assert NonNull(c0.secs, a);
      }
    }
  }

  lemma NewFileSize(f: Frame, c0: Cursor, c: Cursor, r: Cursor, done: set<nat>, i: nat)
    requires FileSize(f, c0, c, done) && i < |c.secs| == |r.secs| && i !in done
    requires r.secs == c.secs[i := r.secs[i]] && c.secs[i].hdr.typ == r.secs[i].hdr.typ && !c.secs[i].IsNull()
    requires NoNobits(c.secs, done)
    requires if r.secs[i].IsNobits() then r.filesz == c.filesz
             else r.secs[i].End() == r.pos == f.start + r.filesz
    requires c.pos <= r.pos
    ensures FileSize(f, c0, r, done + {i})
  {
    if r.secs[i].IsNobits() {
      assert EndsAt(r.secs, done, f.start + c.filesz, c0.pos) by {
        EndsAtFrame(c.secs, r.secs, done, f.start + c.filesz, c0.pos);
      }
      EndsAtSkip(r.secs, done, i, f.start + c.filesz, c0.pos);
      assert !NoNobits(r.secs, done + {i}) by {
        assert i in done + {i};
      }
    } else {
      assert i in done + {i} && Occupying(r.secs, i);
    }
  }

  lemma EndsAtFrame(secs: seq<SectionState>, secs': seq<SectionState>, done: set<nat>, end: nat, empty: nat)
    requires EndsAt(secs, done, end, empty) && |secs| == |secs'|
    requires forall a :: a in done && a < |secs| ==> secs[a] == secs'[a]
    ensures EndsAt(secs', done, end, empty)
  {
    if a :| a in done && Occupying(secs, a) && secs[a].End() == end {
      assert Occupying(secs', a);
    }
  }

  /** A section placed behind sections without NOBITS takes the image to its own end. */
  lemma NewImage(cls: ElfClass, f: Frame, c: Cursor, r: Cursor, done: set<nat>, i: nat)
    requires MemoryImage(cls, f, c.secs, done, c.filesz, c.memsz) && NoNobits(c.secs, done)
    requires |r.secs| == |c.secs| && i < |c.secs| && i !in done && r.secs == c.secs[i := r.secs[i]]
    requires NonNull(r.secs, i) && r.secs[i].hdr.offset + r.secs[i].hdr.size < cls.Limit()
    requires forall a :: a in done && NonNull(c.secs, a) ==> c.secs[a].End() <= r.secs[i].hdr.offset
    requires Counted(f, r.secs[i]) && c.memsz == c.filesz ==>
               f.start + r.memsz == r.secs[i].hdr.offset + r.secs[i].hdr.size
    requires !r.secs[i].IsNobits() ==> f.start + r.filesz == r.secs[i].hdr.offset + r.secs[i].hdr.size
    ensures MemoryImage(cls, f, r.secs, done + {i}, r.filesz, r.memsz)
  {
    assert i in done + {i};
    if AllCounted(f, r.secs, done + {i}) {
      assert Counted(f, r.secs[i]);
      assert AllCounted(f, c.secs, done) by {
        forall a | a in done && NonNull(c.secs, a) ensures Counted(f, c.secs[a]) {
          assert a in done + {i} && NonNull(r.secs, a);
        }
      }
      forall a | a in done + {i} && NonNull(r.secs, a)
        ensures r.secs[a].hdr.offset + r.secs[a].hdr.size <= f.start + r.memsz
      {
        if a != i {
          assert a in done && NonNull(c.secs, a) && !c.secs[a].IsNobits();
        }
      }
    }
  }

  lemma NewTurn(cls: ElfClass, f: Frame, c0: Cursor, c: Cursor, done: set<nat>, i: nat)
    requires Walked(cls, f, c0, c, done) && Next(c0, done, i) && !c0.secs[i].IsNull()
    requires Indexed(c.secs) && Fits(cls, f, c, i)
    ensures Walked(cls, f, c0, PlaceOne(cls, f, c, i), done + {i})
  {
    var r := PlaceOne(cls, f, c, i);
    assert i !in done && c.secs[i] == c0.secs[i] && !c.gen[i];
    assert NoNobits(c.secs, done) by {
      SameTypes(cls, f, c0, c, done);
    }
    TurnIsIdeal(cls, f, c, i);
    PlacedFacts(cls, f, c, c0.pos, i);
    NewSections(cls, f, c0, c, r, done, i);
    NewFileSize(f, c0, c, r, done, i);
    forall a | a in done && NonNull(c.secs, a)
      ensures c.secs[a].End() <= r.secs[i].hdr.offset
    {
      assert NonNull(c0.secs, a);
    }
    NewImage(cls, f, c, r, done, i);
  }

  lemma SameTypes(cls: ElfClass, f: Frame, c0: Cursor, c: Cursor, done: set<nat>)
    requires Sections(cls, f, c0, c, done)
    ensures forall a :: 0 <= a < |c.secs| ==> c0.secs[a].Moved(c.secs[a])
    ensures NoNobits(c0.secs, done) ==> NoNobits(c.secs, done)
    ensures Indexed(c0.secs) ==> Indexed(c.secs)
  {
    forall a | 0 <= a < |c.secs|
      ensures c0.secs[a].Moved(c.secs[a])
    {
      if a in done && !c0.secs[a].IsNull() {
        assert NonNull(c0.secs, a);
      }
    }
  }

  // ----- the whole list

  function Elems(list: seq<nat>): (s: set<nat>)
    ensures forall x :: x in s <==> x in list
  {
    set x | x in list
  }

  /** A NOBITS section can only be the last one of its segment. */
  predicate NobitsLast(secs: seq<SectionState>, list: seq<nat>) {
    forall k :: 0 <= k < |list| - 1 && list[k] < |secs| ==> !secs[list[k]].IsNobits()
  }

  predicate NoneGenerated(c: Cursor, list: seq<nat>) {
    forall k :: 0 <= k < |list| && c.Has(list[k]) && !c.secs[list[k]].IsNull() ==> !c.gen[list[k]]
  }

  /** A list splits into what comes before its last section and that section. */
  lemma LastOf(c0: Cursor, list: seq<nat>)
    requires |c0.gen| == |c0.secs| && Within(list, |c0.secs|) && Ordering.Sorted(list) && list != []
    requires NobitsLast(c0.secs, list) && NoneGenerated(c0, list)
    ensures var init, i := list[..|list| - 1], list[|list| - 1];
            && Elems(list) == Elems(init) + {i}
            && Next(c0, Elems(init), i)
            && NobitsLast(c0.secs, init) && NoneGenerated(c0, init)
  {
    var init, i := list[..|list| - 1], list[|list| - 1];
    assert list == init + [i];
    forall k | 0 <= k < |init| && c0.Has(init[k]) && !c0.secs[init[k]].IsNull()
      ensures !c0.gen[init[k]]
    {
      assert init[k] == list[k];
    }
  }

  /** One more section, null or new. */
  lemma WalkOne(cls: ElfClass, f: Frame, c0: Cursor, c: Cursor, done: set<nat>, i: nat)
    requires Walked(cls, f, c0, c, done) && Next(c0, done, i) && Indexed(c0.secs) && Fits(cls, f, c, i)
    ensures Walked(cls, f, c0, PlaceOne(cls, f, c, i), done + {i})
  {
    SameTypes(cls, f, c0, c, done);
    if c0.secs[i].IsNull() {
      NullTurn(cls, f, c0, c, done, i);
    } else {
      NewTurn(cls, f, c0, c, done, i);
    }
  }

  /** The section loop over a segment whose sections are all new. */
  lemma {:induction false} WalkAll(cls: ElfClass, f: Frame, c0: Cursor, list: seq<nat>)
    requires |c0.gen| == |c0.secs| && Within(list, |c0.secs|) && Ordering.Sorted(list)
    requires Indexed(c0.secs) && NobitsLast(c0.secs, list) && NoneGenerated(c0, list)
    requires f.start <= c0.pos < cls.Limit() && c0.filesz == c0.memsz == c0.pos - f.start
    requires RunFits(cls, f, c0, list)
    ensures Walked(cls, f, c0, PlaceAll(cls, f, c0, list), Elems(list))
  {
    if list == [] {
      assert Walked(cls, f, c0, c0, {});
    } else {
      var init, i := list[..|list| - 1], list[|list| - 1];
      LastOf(c0, list);
      WalkAll(cls, f, c0, init);
      WalkOne(cls, f, c0, PlaceAll(cls, f, c0, init), Elems(init), i);
    }
  }
}
