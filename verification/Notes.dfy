/** `note_section_accessor` of elfio_note.hpp: notes appended to a section and found again by scanning it. */
module Notes {
  import opened Bytes
  import opened ElfTypes
  import opened FileFormat
  import opened FileImage
  import opened SectionObject
  import Arith

  datatype Note = Note(typ: nat, name: seq<byte>, desc: seq<byte>)

  /** Sizes and type fit 32-bit words, also after rounding up. */
  predicate Fits(n: Note) {
    n.typ < U32 && |n.name| + 4 < U32 && |n.desc| + 3 < U32
  }

  /** A 32-bit size rounded up to a multiple of 4, in 32-bit arithmetic. */
  function RoundUp(v: nat): nat {
    (v + 3) % U32 / 4 * 4
  }

  /** Padding behind n bytes. */
  function Padding(n: nat): (p: seq<byte>)
    ensures |p| < 4 && (n + |p|) % 4 == 0
  {
    Zeros((4 - n % 4) % 4)
  }

  lemma RoundUpPads(v: nat)
    requires v + 3 < U32
    ensures RoundUp(v) == v + |Padding(v)|
  {
  }

  /** The three words at the beginning of a note. */
  datatype Head = Head(namesz: seq<byte>, descsz: seq<byte>, typ: seq<byte>)

  function HeadOf(order: Order, n: Note): (h: Head)
    ensures |h.namesz| == |h.descsz| == |h.typ| == 4
  {
    Head(Store(order, 4, |n.name| + 1), Store(order, 4, |n.desc|), Store(order, 4, n.typ))
  }

  function Assembled(h: Head, n: Note): seq<byte> {
    h.namesz + h.descsz + h.typ + (n.name + [0] + Padding(|n.name| + 1))
    + (if n.desc == [] then [] else n.desc + Padding(|n.desc|))
  }

  function Encode(order: Order, n: Note): (bs: seq<byte>)
    ensures |bs| >= 12
  {
    Assembled(HeadOf(order, n), n)
  }

  function Size(n: Note): nat {
    12 + RoundUp(|n.name| + 1) + RoundUp(|n.desc|)
  }

  /** The word at an offset of the section. */
  function Word(order: Order, data: seq<byte>, at: nat): nat
    requires at + 4 <= |data|
  {
    Load(order, data[at..at + 4])
  }

  // ----- the scan

  /** Where the note after the one at `at` starts. */
  function Next(order: Order, data: seq<byte>, at: nat): (n: nat)
    requires at + 12 <= |data|
    ensures n >= at + 12
  {
    at + 12 + RoundUp(Word(order, data, at)) + RoundUp(Word(order, data, at + 4))
  }

  /** The step from one note to the next, as a function of the position. */
  type Step = nat -> nat

  function StepOf(order: Order, data: seq<byte>): Step {
    (at: nat) => if at + 12 <= |data| then Next(order, data, at) else at + 12
  }

  /** The note positions from `at` on, in a section of `size` bytes. */
  function Positions(next: Step, size: nat, at: nat): seq<nat>
    decreases size - at
  {
    if at + 12 <= size && at < next(at) then [at] + Positions(next, size, next(at)) else []
  }

  /** From `at` on the section consists of whole notes. */
  predicate Whole(next: Step, size: nat, at: nat)
    decreases size - at
  {
    at == size || (at + 12 <= size && at < next(at) && Whole(next, size, next(at)))
  }

  /** The loop of `process_section`. It ends on any bytes, because every step passes at least 12. */
  method ProcessSection(order: Order, data: seq<byte>) returns (starts: seq<nat>)
    ensures starts == Positions(StepOf(order, data), |data|, 0)
  {
    starts := [];
    if data == [] {
      return;
    }
    var current: nat := 0;
    while current + 12 <= |data|
      invariant starts + Positions(StepOf(order, data), |data|, current) == Positions(StepOf(order, data), |data|, 0)
      decreases |data| - current
    {
      hide Word, RoundUp, Next;
      starts := starts + [current];
      current := Next(order, data, current);
    }
  }

  // ----- one note

  /** The section has this note at `at`. */
  predicate HasNote(order: Order, data: seq<byte>, at: nat, n: Note) {
    FileImage.Holds(data, at, Encode(order, n))
  }

  /** `get_note` at a start position; None stands for the result false, and for sizes that lead past the
      end of the section. */
  function NoteAt(order: Order, data: seq<byte>, at: nat): Option<Note>
    requires at + 12 <= |data|
  {
    var namesz, descsz := Word(order, data, at), Word(order, data, at + 4);
    var room := (|data| - at) % U32;
    var descAt := at + 12 + RoundUp(namesz);
    if namesz > room || (namesz + descsz) % U32 > room then None
    else if namesz == 0 || at + 12 + namesz > |data| || descAt + descsz > |data| then None
    else Some(Note(Word(order, data, at + 8), data[at + 12..at + 12 + namesz - 1],
                   if descsz == 0 then [] else data[descAt..descAt + descsz]))
  }

  /** The words and strings of a note stand at their places. */
  predicate PartsAt(data: seq<byte>, at: nat, h: Head, n: Note) {
    var d := at + 12 + RoundUp(|n.name| + 1);
    && at + Size(n) <= |data| && d + |n.desc| <= |data| && at + 12 + |n.name| + 1 <= |data|
    && data[at..at + 4] == h.namesz && data[at + 4..at + 8] == h.descsz && data[at + 8..at + 12] == h.typ
    && data[at + 12..at + 12 + |n.name|] == n.name && data[d..d + |n.desc|] == n.desc
  }

  lemma AssembledParts(h: Head, n: Note)
    requires Fits(n) && |h.namesz| == |h.descsz| == |h.typ| == 4
    ensures |Assembled(h, n)| == Size(n) && Size(n) % 4 == 0
    ensures PartsAt(Assembled(h, n), 0, h, n)
  {
    hide Padding, RoundUp;
    RoundUpPads(|n.name| + 1);
    RoundUpPads(|n.desc|);
    RoundedSum(|n.name| + 1, |n.desc|);
    var words := h.namesz + h.descsz + h.typ;
    var name, desc := n.name + [0] + Padding(|n.name| + 1), if n.desc == [] then [] else n.desc + Padding(|n.desc|);
    var e, d := words + name + desc, 12 + RoundUp(|n.name| + 1);
    assert e[..12] == words && e[12..d] == name && e[d..] == desc;
    assert words[0..4] == h.namesz && words[4..8] == h.descsz && words[8..12] == h.typ;
    assert e[0..4] == words[0..4] && e[4..8] == words[4..8] && e[8..12] == words[8..12];
    assert e[12..12 + |n.name|] == name[..|n.name|] == n.name;
    assert e[d..d + |n.desc|] == desc[..|n.desc|] == n.desc;
  }

  lemma RoundedSum(a: nat, b: nat)
    ensures (12 + RoundUp(a) + RoundUp(b)) % 4 == 0
  {
  }

  lemma PartsMove(e: seq<byte>, data: seq<byte>, at: nat, h: Head, n: Note)
    requires PartsAt(e, 0, h, n) && FileImage.Holds(data, at, e)
    ensures PartsAt(data, at, h, n)
  {
    var d := 12 + RoundUp(|n.name| + 1);
    HoldsPart(data, at, e, 0, 4);
    HoldsPart(data, at, e, 4, 8);
    HoldsPart(data, at, e, 8, 12);
    HoldsPart(data, at, e, 12, 12 + |n.name|);
    HoldsPart(data, at, e, d, d + |n.desc|);
  }

  lemma WordIs(order: Order, data: seq<byte>, at: nat, v: nat)
    requires at + 4 <= |data| && data[at..at + 4] == Store(order, 4, v) && v < U32
    ensures Word(order, data, at) == v
  {
    Pow256Values();
    StoreLoad(order, 4, v);
  }

  /** What the words of a note in place say. */
  lemma PartsSay(order: Order, data: seq<byte>, at: nat, n: Note)
    requires Fits(n) && PartsAt(data, at, HeadOf(order, n), n)
    ensures Word(order, data, at) == |n.name| + 1 && Word(order, data, at + 4) == |n.desc|
    ensures Word(order, data, at + 8) == n.typ
    ensures Next(order, data, at) == at + Size(n)
  {
    WordIs(order, data, at, |n.name| + 1);
    WordIs(order, data, at + 4, |n.desc|);
    WordIs(order, data, at + 8, n.typ);
  }

  /** A note that the section has stands there with all its parts. */
  lemma HasParts(order: Order, data: seq<byte>, at: nat, n: Note)
    requires Fits(n) && HasNote(order, data, at, n)
    ensures PartsAt(data, at, HeadOf(order, n), n) && |Encode(order, n)| == Size(n) && Size(n) % 4 == 0
  {
    AssembledParts(HeadOf(order, n), n);
    PartsMove(Encode(order, n), data, at, HeadOf(order, n), n);
  }

  /** Reading where a note was written gives the note. */
  lemma NoteReadsBack(order: Order, data: seq<byte>, at: nat, n: Note)
    requires Fits(n) && HasNote(order, data, at, n) && |data| < U32
    ensures at + 12 <= |data| && NoteAt(order, data, at) == Some(n)
  {
    HasParts(order, data, at, n);
    PartsSay(order, data, at, n);
    Unread(order, data, at, n, HeadOf(order, n));
  }

  lemma Unread(order: Order, data: seq<byte>, at: nat, n: Note, h: Head)
    requires Fits(n) && PartsAt(data, at, h, n) && |data| < U32
    requires Word(order, data, at) == |n.name| + 1 && Word(order, data, at + 4) == |n.desc|
    requires Word(order, data, at + 8) == n.typ
    ensures NoteAt(order, data, at) == Some(n)
  {
    hide Word, RoundUp, Padding, NoteAt, HeadOf;
    RoundUpPads(|n.name| + 1);
    RoundUpPads(|n.desc|);
    NoteFound(order, data, at, |n.name| + 1, |n.desc|);
    assert n.desc == [] ==> n == Note(n.typ, n.name, []);
  }

  /** What `get_note` returns when the sizes at `at` lead nowhere past the end. */
  lemma NoteFound(order: Order, data: seq<byte>, at: nat, namesz: nat, descsz: nat)
    requires at + 12 <= |data| < U32 && namesz > 0 && namesz <= RoundUp(namesz)
    requires Word(order, data, at) == namesz && Word(order, data, at + 4) == descsz
    requires at + 12 + RoundUp(namesz) + descsz <= |data|
    ensures NoteAt(order, data, at) ==
            Some(Note(Word(order, data, at + 8), data[at + 12..at + 12 + namesz - 1],
                      if descsz == 0 then [] else data[at + 12 + RoundUp(namesz)..at + 12 + RoundUp(namesz) + descsz]))
  {
    hide Word, RoundUp;
    Arith.ModOfSmall(|data| - at, U32);
    Arith.ModOfSmall(namesz + descsz, U32);
  }

  // ----- adding notes

  /** The step within a section is not changed by bytes behind it. */
  lemma NextStays(order: Order, data: seq<byte>, more: seq<byte>, at: nat)
    requires at + 12 <= |data|
    ensures StepOf(order, data + more)(at) == StepOf(order, data)(at)
  {
    var longer := data + more;
    assert longer[at..at + 4] == data[at..at + 4];
    assert longer[at + 4..at + 8] == data[at + 4..at + 8];
  }

  /** A scan goes on where the shorter section ended, if from there one step leads to the end. */
  lemma {:induction false} OneMoreStep(next: Step, next': Step, size: nat, size': nat, at: nat)
    requires Whole(next, size, at) && next'(size) == size' && size + 12 <= size'
    requires forall a: nat :: a + 12 <= size ==> next'(a) == next(a)
    ensures Positions(next', size', at) == Positions(next, size, at) + [size]
    ensures Whole(next', size', at)
    decreases size - at
  {
    if at != size {
      OneMoreStep(next, next', size, size', next(at));
    }
  }

  /** A whole section with one more note: the scan finds the old positions and the new note's. */
  lemma OneMoreNote(order: Order, data: seq<byte>, n: Note, e: seq<byte>)
    requires Fits(n) && Whole(StepOf(order, data), |data|, 0) && e == Encode(order, n)
    ensures Positions(StepOf(order, data + e), |data + e|, 0) == Positions(StepOf(order, data), |data|, 0) + [|data|]
    ensures Whole(StepOf(order, data + e), |data + e|, 0)
  {
    forall a: nat | a + 12 <= |data|
      ensures StepOf(order, data + e)(a) == StepOf(order, data)(a)
    {
      NextStays(order, data, e, a);
    }
    LastNote(order, data, n, e);
    OneMoreStep(StepOf(order, data), StepOf(order, data + e), |data|, |data + e|, 0);
  }

  /** From the start of the last note one step leads to the end. */
  lemma LastNote(order: Order, data: seq<byte>, n: Note, e: seq<byte>)
    requires Fits(n) && e == Encode(order, n)
    ensures StepOf(order, data + e)(|data|) == |data + e|
  {
    NewNote(order, data, n, e);
    HasParts(order, data + e, |data|, n);
    PartsSay(order, data + e, |data|, n);
  }

  lemma NewNote(order: Order, data: seq<byte>, n: Note, e: seq<byte>)
    requires e == Encode(order, n)
    ensures HasNote(order, data + e, |data|, n)
  {
    assert (data + e)[|data|..|data| + |e|] == e;
  }

  function WithNotes(order: Order, notes: seq<Note>): seq<byte> {
    if notes == [] then [] else WithNotes(order, notes[..|notes| - 1]) + Encode(order, notes[|notes| - 1])
  }

  /** Where each note of a run begins. */
  function Starts(order: Order, notes: seq<Note>): (s: seq<nat>)
    ensures |s| == |notes|
  {
    seq(|notes|, i requires 0 <= i < |notes| => |WithNotes(order, notes[..i])|)
  }

  /** The scan finds exactly these positions, and the notes stand there. */
  predicate FoundAt(order: Order, notes: seq<Note>, starts: seq<nat>, data: seq<byte>) {
    && Whole(StepOf(order, data), |data|, 0) && |data| % 4 == 0
    && Positions(StepOf(order, data), |data|, 0) == starts
    && Aligned(starts) && NotesAt(order, notes, starts, data)
  }

  predicate Aligned(starts: seq<nat>) {
    forall i :: 0 <= i < |starts| ==> starts[i] % 4 == 0
  }

  predicate NotesAt(order: Order, notes: seq<Note>, starts: seq<nat>, data: seq<byte>) {
    && |starts| == |notes|
    && forall i {:trigger HasNote(order, data, starts[i], notes[i])} :: 0 <= i < |notes| ==>
         HasNote(order, data, starts[i], notes[i])
  }

  /** After any run of `add_note` on an empty section, a fresh scan finds exactly the positions the run
      recorded, all of them multiples of 4, and the notes stand there. */
  lemma {:induction false} ScanFindsNotes(order: Order, notes: seq<Note>)
    requires forall i :: 0 <= i < |notes| ==> Fits(notes[i])
    ensures FoundAt(order, notes, Starts(order, notes), WithNotes(order, notes))
  {
    hide Fits, Encode, Starts;
    if notes != [] {
      var init, last := notes[..|notes| - 1], notes[|notes| - 1];
      assert forall i :: 0 <= i < |init| ==> init[i] == notes[i];
      ScanFindsNotes(order, init);
      OneMoreFound(order, init, Starts(order, init), last, WithNotes(order, init), Encode(order, last));
      OneMoreStart(order, init, last);
      assert init + [last] == notes;
    }
  }

  lemma OneMoreFound(order: Order, notes: seq<Note>, starts: seq<nat>, n: Note, data: seq<byte>, e: seq<byte>)
    requires Fits(n) && FoundAt(order, notes, starts, data) && e == Encode(order, n)
    ensures FoundAt(order, notes + [n], starts + [|data|], data + e)
  {
    OneMoreNote(order, data, n, e);
    EncodedIsAligned(order, n, e);
    SumIsAligned(|data|, |e|);
    OneMoreAt(order, notes, starts, data, n, e);
  }

  lemma EncodedIsAligned(order: Order, n: Note, e: seq<byte>)
    requires Fits(n) && e == Encode(order, n)
    ensures |e| % 4 == 0
  {
    AssembledParts(HeadOf(order, n), n);
  }

  lemma SumIsAligned(a: nat, b: nat)
    requires a % 4 == 0 && b % 4 == 0
    ensures (a + b) % 4 == 0
  {
  }

  lemma OneMoreAt(order: Order, notes: seq<Note>, starts: seq<nat>, data: seq<byte>, n: Note, e: seq<byte>)
    requires NotesAt(order, notes, starts, data) && e == Encode(order, n)
    ensures NotesAt(order, notes + [n], starts + [|data|], data + e)
  {
    var all, allStarts := notes + [n], starts + [|data|];
    forall i | 0 <= i < |all|
      ensures HasNote(order, data + e, allStarts[i], all[i])
    {
      if i < |notes| {
        assert HasNote(order, data, starts[i], notes[i]);
        NoteStays(data, e, starts[i], Encode(order, notes[i]));
      } else {
        NewNote(order, data, n, e);
      }
    }
  }

  lemma OneMoreStart(order: Order, notes: seq<Note>, n: Note)
    ensures Starts(order, notes + [n]) == Starts(order, notes) + [|WithNotes(order, notes)|]
  {
    var all := notes + [n];
    assert all[..|notes|] == notes;
    assert forall i :: 0 <= i < |notes| ==> all[..i] == notes[..i];
  }

  lemma NoteStays(data: seq<byte>, more: seq<byte>, at: nat, e: seq<byte>)
    requires FileImage.Holds(data, at, e)
    ensures FileImage.Holds(data + more, at, e)
  {
    assert (data + more)[at..at + |e|] == data[at..at + |e|];
  }

  /** Every note of a run reads back at the position a scan finds for it. */
  lemma NotesReadBack(order: Order, notes: seq<Note>, i: nat)
    requires forall k :: 0 <= k < |notes| ==> Fits(notes[k])
    requires i < |notes| && |WithNotes(order, notes)| < U32
    ensures var data := WithNotes(order, notes);
            var starts := Positions(StepOf(order, data), |data|, 0);
            |starts| == |notes| && starts[i] + 12 <= |data| && NoteAt(order, data, starts[i]) == Some(notes[i])
  {
    ScanFindsNotes(order, notes);
    assert HasNote(order, WithNotes(order, notes), Starts(order, notes)[i], notes[i]);
    NoteReadsBack(order, WithNotes(order, notes), Starts(order, notes)[i], notes[i]);
  }

  // ----- the accessor

  /** The body of `get_note` for one start position. */
  method ReadNote(order: Order, data: seq<byte>, at: nat) returns (r: Option<Note>)
    requires at + 12 <= |data|
    ensures r == NoteAt(order, data, at)
  {
    hide Word;
    var typ, namesz, descSize := Word(order, data, at + 8), Word(order, data, at), Word(order, data, at + 4);
    var maxNameSize := (|data| - at) % U32;
    if namesz > maxNameSize || (namesz + descSize) % U32 > maxNameSize {
      return None;
    }
    var nameSpace := (namesz + 3) % U32 / 4 * 4;
    assert nameSpace == RoundUp(namesz);
    hide RoundUp;
    var descAt := at + 12 + nameSpace;
    if namesz == 0 || at + 12 + namesz > |data| || descAt + descSize > |data| {
      return None;
    }
    r := Some(Note(typ, data[at + 12..at + 12 + namesz - 1], if descSize == 0 then []
        else data[descAt..descAt + descSize]));
  }

  class NoteAccessor {
    const section: Section
    var starts: seq<nat>

    /** The recorded positions are what a scan of the section finds. */
    ghost predicate Valid()
      reads this, section, section.data
    {
      && section.Valid() && section.Sized()
      && starts == Positions(StepOf(section.conv.FileOrder(), section.Contents()), |section.Contents()|, 0)
    }

    /** The section consists of whole notes. */
    ghost predicate IsWhole()
      reads section
    {
      Whole(StepOf(section.conv.FileOrder(), section.Contents()), |section.Contents()|, 0)
    }

    constructor (section: Section)
      requires section.Valid() && section.Sized()
      ensures this.section == section && Valid()
    {
      this.section := section;
      new;
      starts := ProcessSection(section.conv.FileOrder(), section.data[..section.hdr.size]);
    }

    method AddNote(n: Note)
      requires Valid() && Fits(n) && section.hdr.typ != SHT_NOBITS && section.Buffer().Sound()
      requires |section.Contents()| + |Encode(section.conv.FileOrder(), n)| < 0x2000_0000
      requires IsWhole()
      modifies this, section, section.data
      ensures Valid() && section.Buffer().Sound()
      ensures section.Contents() == old(section.Contents()) + Encode(section.conv.FileOrder(), n)
      ensures starts == old(starts) + [|old(section.Contents())|]
      ensures IsWhole()
    {
      OneMoreNote(section.conv.FileOrder(), section.Contents(), n, Encode(section.conv.FileOrder(), n));
      starts := starts + [section.hdr.size];
      section.AppendSmall(Encode(section.conv.FileOrder(), n));
    }

    /** Note `index`. Comparing the index with the section's size, as the source does, turns no
        recorded note away, because every note is larger than one byte. */
    method GetNote(index: nat) returns (r: Option<Note>)
      requires Valid() && index < |starts|
      ensures starts[index] + 12 <= |section.Contents()|
      ensures r == NoteAt(section.conv.FileOrder(), section.Contents(), starts[index])
    {
      PositionsInside(StepOf(section.conv.FileOrder(), section.Contents()), |section.Contents()|, 0, index);
      if index >= section.hdr.size {
        return None;
      }
      r := ReadNote(section.conv.FileOrder(), section.data[..section.hdr.size], starts[index]);
    }
  }

  lemma {:induction false} PositionsInside(next: Step, size: nat, at: nat, i: nat)
    requires i < |Positions(next, size, at)|
    ensures at + i <= Positions(next, size, at)[i] && Positions(next, size, at)[i] + 12 <= size
    decreases size - at
  {
    if i > 0 {
      PositionsInside(next, size, next(at), i - 1);
    }
  }
}
