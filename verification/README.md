# ELFIO and the qdl flasher

A Dafny model of two parts of the repository, with proofs:

- **ELFIO**, the ELF reader, editor and writer vendored with the image signer
  (`devices/cici/bootloader/signlk/signer/ELFIO/elfio`): file layout, saving and loading, and the symbol,
  string, note, relocation and dynamic accessors.
- **qdl**, the flasher (`devices/cici/bootloader/qdl`): streaming of images, two-phase UFS provisioning and
  the sequence of a whole run.

`dafny verify dfyconfig.toml` checks everything.

## How it is built

The objects of the original are classes with its fields and methods: `Section` (SectionObject), `Segment`
(SegmentObject), `Elfio` (ElfioObject), `NoteAccessor` (Notes), `Target` (FlashTarget), `Ufs` (Provisioning) and
`Host` (FirehoseRun). Each method is proved against a function on values: a section is a `SectionState`, a
segment a `SegmentState`, the whole object an `Elf` (ElfState). What the program promises is then proved about
these functions.

| modules | subject |
|---|---|
| Bytes, Words, Convertor, Records, ElfTypes, RecordFields, ElfHash | words and byte orders, records of both classes and the bytes of their fields, the hash |
| Ordering, SegmentOrder | the order of segments |
| Layout, FreshRun, NestedRun, SegmentPass, LayoutPass, LoosePass, LayoutTheorems, ThreadLocals, SectionAlignment, Frozen, Budget, Planned | the three layout passes, what they establish, and what can be computed before |
| Nesting, Overlap, Scatter, AddressPlan | segments inside segments; addresses without room, or in any order |
| FileImage, FileFormat, SaveLoad, SaveRoundTrip, SavedFile, LoadedFile | the written file, the object read from it, and what load makes of any file |
| Membership, MembersKept, WalkAgain, Relayout, Reload, CursorTold, Reorder | section lists after reading; when the layout is a fixpoint |
| ReloadConditions, SingleSections, FirstImage | conditions a program can check before it saves, and complete uses |
| LostMembers, SmallObjects, Pairs | inputs on which something is lost, moved or overlaps |
| GrowableBuffer, SectionObject, SegmentObject, Strings, Naming, ElfioObject | the objects |
| Entries, Symbols, SymbolLookup, Notes, NoteLayout, Relocations, Dynamics | the accessors |
| FlashTarget, Streaming, Provisioning, Flashing, Selection, FirehoseRun | the flasher |

Conventions:

- Every 64-bit computation of the layout is reduced modulo 2^64 (`Wrap`), every stored field to the class's
  width (`Trunc`), every count to 16 bits. That nothing wraps is never assumed of a computation: it is derived
  from the room that `Fitting` asks for, and `Fitting` from `Affordable`, a condition on the object alone.
- Header fields are kept as logical values. The original keeps them in file order and converts in every getter
  and setter; `Convertor.ApplyTwice`, `ConvertedStore` and `ConvertedLoad` justify the difference.
- A null data pointer is an empty array. Results that the original returns as false or as a null pointer are
  `None`.
- The target of the flasher is a function from everything sent so far to the next reply; runs are compared with
  scripts, sequences of commands of which a run sends a beginning (`Exec`).
- Well-formed input (`WellFormed`): section lists strictly increasing, any two disjoint, equal or nested;
  alignment positive where there are sections; a NOBITS section only as the last of its segment. Addressed and
  unaddressed sections may be mixed, and segments may begin with the null section.

## Where the code does not do what it says

- The swap loop of `get_ordered_segments` is meant to bring all segments at offset 0 to the front
  (elfio.hpp:514). When the first segment is one of them, another one can stay behind:
  `Ordering.FrontLeavesBehind`; `Ordering.ZerosFirstExactly` says exactly when it works.
- `dynamic_section_accessor::add_entry` converts tag and value as 64-bit words and narrows afterwards
  (elfio_dynamic.hpp:220-240). In 32-bit files of the other byte order entries are lost:
  `Dynamics.ForeignEntryIsLost`; `Dynamics.EntryRoundTrip` says exactly which survive.
- A section whose address leaves no room for what its segment already holds is moved back by the wrapping
  subtraction, to the place its address asks for. Nothing is checked: two sections of a segment overlap in the
  file exactly if the addresses given for them overlap (`Overlap.OverlapDecided`). The cursor goes back too, so
  what is placed next can land on a section placed before. The second object of `Pairs.OverlapAndDescent` has disjoint
  address ranges, but its section header table covers its first section, whose data is lost in the file
  (`Pairs.DataIsLost`). `AddressPlan.ClearAsPlanned` says exactly when no two parts of the file overlap, for
  objects whose sections in segments all have addresses; where some have none, `Scatter.ScatteredIsClear` gives
  a condition that suffices.
- Section lists are recomputed on loading. A segment gets back the list it had exactly if its own sections lie
  inside it in memory and no others do (`Reload.MembersExact`). Its own sections do, exactly: without preset
  addresses or with bytes, if they are not a .tbss outside a TLS segment (`MembersKept.PlacerKeeps`); a NOBITS section with an address, if this
  is not behind the planned one (`MembersKept.PlannedNobits`); in a nested segment, if its address is its first
  section's (`MembersKept.NestedKeepsProper`). `LostMembers` has an input for each.
- After loading, a segment that begins with the null section counts as one at offset 0, which can change the
  order of segments and so move sections in the next layout: `SmallObjects.TwoLoadsMove`. If the segments that
  place sections keep their order (`Reload.OrderKept`; segments without sections play no part in it),
  the layout is a fixpoint (`Reload.LayoutIsFixpoint`), and if they have bytes, only then
  (`Reorder.FixpointWithRoom`, `Reorder.FixpointExactly`).
- A segment that holds only a NOBITS section can lie outside the segment that includes it:
  `SmallObjects.PaddedBssIsOutside`; `Nesting.OnlyNobitsPlanned` and `Nesting.NullWithoutBytesPlanned` say exactly
  when.
- `bConfigDescrLock` is never sent to the target, whatever the file says (firehose.c:499):
  `Provisioning.LockIsNeverSent`.

## Model

| member | source | states |
|---|---|---|
| Convertor.SwapsAreApply | devices/cici/bootloader/signlk/signer/ELFIO/elfio/elfio_utils.hpp:77-168 | at 16, 32 and 64 bits the mask-and-shift operators reverse the bytes of the word: they are one operation, whatever the width |
| Convertor.ApplyTwice | devices/cici/bootloader/signlk/signer/ELFIO/elfio/elfio_utils.hpp:31-46 | setter and getter use the same operator and undo each other on every word of the field's width |
| Convertor.ConvertedStore | devices/cici/bootloader/signlk/signer/ELFIO/elfio/elfio_utils.hpp:31-36 | storing a converted word in the machine's order puts the word into memory in the file's order; this is why the model may keep header fields as plain values |
| Convertor.ConvertedLoad | devices/cici/bootloader/signlk/signer/ELFIO/elfio/elfio_utils.hpp:26-30 | converting a word read in the machine's order gives the word that the file's order means |
| Convertor.SetupFollowsEncoding | devices/cici/bootloader/signlk/signer/ELFIO/elfio/elfio_utils.hpp:70-74 | on a machine of either order, the file gets the order that EI_DATA names; one that names none is taken for a file of the other order than the machine's |
| Records.PackUnpack | devices/cici/bootloader/signlk/signer/ELFIO/elfio/elf_types.hpp:584-745 | packing a record of fitting values and unpacking it gives every field back, for any widths and either order |
| ElfTypes.EhdrRoundTrip | devices/cici/bootloader/signlk/signer/ELFIO/elfio/elf_types.hpp:584-617 | the ELF header decodes from its encoding, for both classes and orders |
| ElfTypes.ShdrRoundTrip | devices/cici/bootloader/signlk/signer/ELFIO/elfio/elf_types.hpp:620-645 | the section header decodes from its encoding |
| ElfTypes.PhdrRoundTrip | devices/cici/bootloader/signlk/signer/ELFIO/elfio/elf_types.hpp:648-668 | the program header decodes from its encoding, although the flags word moves between the classes |
| RecordFields.PhdrFields | devices/cici/bootloader/signlk/signer/ELFIO/elfio/elf_types.hpp:648-668 | which bytes of any 32 or 56 bytes hold which field of a program header, in either order: the flags word stands at 24 in a 32-bit record and at 4 in a 64-bit one, offset at 4 and 8, address at 8 and 16 |
| RecordFields.ShdrFields | devices/cici/bootloader/signlk/signer/ELFIO/elfio/elf_types.hpp:620-645 | the same for the section header |
| RecordFields.EhdrFields | devices/cici/bootloader/signlk/signer/ELFIO/elfio/elf_types.hpp:584-617 | the same for the ELF header behind its sixteen identification bytes |
| RecordFields.SymbolFields | devices/cici/bootloader/signlk/signer/ELFIO/elfio/elf_types.hpp:671-688 | the same for a symbol, whose value and size stand at 4 and 8 or at 8 and 16 |
| RecordFields.SymbolInfo | devices/cici/bootloader/signlk/signer/ELFIO/elfio/elf_types.hpp:691-693 | binding is the upper half of the info byte, type the lower one |
| RecordFields.RelocationFields | devices/cici/bootloader/signlk/signer/ELFIO/elfio/elf_types.hpp:696-728 | the same for relocations with and without addend: symbol above and type in the lower 8 or 32 bits of the second word, the addend in two's complement |
| RecordFields.DynamicFields | devices/cici/bootloader/signlk/signer/ELFIO/elfio/elfio_dynamic.hpp:125-186 | the same for a dynamic entry: a 32-bit tag is extended with its sign, and tags 0, 16, 22 and 24 are read with value 0 |
| RecordFields.WordValue | devices/cici/bootloader/signlk/signer/ELFIO/elfio/elfio_utils.hpp:26-36 | the value of a word of one, two or four bytes in either order, as a sum of its bytes |
| RecordFields.LongValue | devices/cici/bootloader/signlk/signer/ELFIO/elfio/elfio_utils.hpp:26-36 | a word of eight bytes consists of two of four, the lower one first in little-endian order |
| ElfTypes.Reduced | devices/cici/bootloader/signlk/signer/ELFIO/elfio/elf_types.hpp:30-60 | values stored in a field are reduced modulo 2^32 or 2^64, and computations modulo 2^64, for any value |
| ElfHash.ElfHash | devices/cici/bootloader/signlk/signer/ELFIO/elfio/elfio_utils.hpp:192-205 | the loop with its masks, shifts and conditional exclusive-or returns the arithmetic hash `Hash` of everything before the first NUL |
| ElfHash.TurnIsFold | devices/cici/bootloader/signlk/signer/ELFIO/elfio/elfio_utils.hpp:197-203 | one turn computes (16 h + c) modulo 2^32 with the top nibble folded into bits 4 to 7, and leaves a word below 2^28 even when the addition wraps |
| ElfHash.HashIsShort | devices/cici/bootloader/signlk/signer/ELFIO/elfio/elfio_utils.hpp:194-205 | every byte string hashes below 2^28 |
| ElfHash.HashGrows | devices/cici/bootloader/signlk/signer/ELFIO/elfio/elfio_utils.hpp:197-203 | the hash of a name with one more character, bit by bit: shifted in on 32 bits, the top four bits cleared and turning over bits 4 to 7 |
| ElfHash.ShortNames | devices/cici/bootloader/signlk/signer/ELFIO/elfio/elfio_utils.hpp:192-205 | a name whose bytes, as digits to the base 16, add up to less than 2^28 hashes to that sum: the empty name to 0, and every name of up to five bytes |
| ElfHash.OperatorsAreBitwise | devices/cici/bootloader/signlk/signer/ELFIO/elfio/elfio_utils.hpp:198-202 | the recursive And and Xor of the model satisfy the bit laws from which the facts about masks are derived |
| Ordering.IncludesIsSubset | devices/cici/bootloader/signlk/signer/ELFIO/elfio/elfio.hpp:489-502 | on increasing index lists the merge pass of std::includes answers true if and only if the one set contains the other |
| Ordering.OrderedIsTopological | devices/cici/bootloader/signlk/signer/ELFIO/elfio/elfio.hpp:505-542 | the ordered list is a permutation of the segments, and none comes before a segment that strictly includes it by `is_subsequence_of`, for any section lists |
| Ordering.GetOrderedSegments | devices/cici/bootloader/signlk/signer/ELFIO/elfio/elfio.hpp:505-542 | the two loops compute the specified order; the rotation terminates by (segments left, distance to the first one that nothing includes) |
| Ordering.RotationApproaches | devices/cici/bootloader/signlk/signer/ELFIO/elfio/elfio.hpp:524-539 | pushing an included segment to the back brings the next free one strictly nearer to the front: the measure of the worklist loop |
| Ordering.LongestIsFree | devices/cici/bootloader/signlk/signer/ELFIO/elfio/elfio.hpp:528-538 | in a nonempty worklist a segment with a longest list is free: no other strictly includes it, so the rotation finds one |
| Ordering.FrontPermutes | devices/cici/bootloader/signlk/signer/ELFIO/elfio/elfio.hpp:515-522 | the swap loop permutes the segments |
| Ordering.ZerosFirstExactly | devices/cici/bootloader/signlk/signer/ELFIO/elfio/elfio.hpp:514-522 | the swap loop brings the segments at offset 0 before all others if and only if the first segment is not one of them, or following their positions (from 0 to the position with that number, and so on) ends with their number |
| Ordering.FrontPattern | devices/cici/bootloader/signlk/signer/ELFIO/elfio/elfio.hpp:515-522 | where the segments at offset 0 stand after the loop: in the first n slots, and one more in the slot `Leftover` names |
| Ordering.FrontLeavesBehind | devices/cici/bootloader/signlk/signer/ELFIO/elfio/elfio.hpp:514-522 | counterexample to the comment: of three segments with the first and third at offset 0, the third stays behind the second |
| Ordering.BringZerosToFront | devices/cici/bootloader/signlk/signer/ELFIO/elfio/elfio.hpp:515-522 | the loop refines the recursive specification of the swaps |
| SegmentOrder.AllOrNone | devices/cici/bootloader/signlk/signer/ELFIO/elfio/elfio.hpp:578-582 | in a laminar family treated in this order, earlier segments own all sections of a segment or none |
| SegmentOrder.EarlierIncludes | devices/cici/bootloader/signlk/signer/ELFIO/elfio/elfio.hpp:578-582 | an earlier segment that shares one section with a later one has all of its sections |
| FreshRun.TurnIsIdeal | devices/cici/bootloader/signlk/signer/ELFIO/elfio/elfio.hpp:631-683 | for a section that finds room the wrapping 64-bit computations of a turn equal the ones on unbounded integers |
| FreshRun.WalkAll | devices/cici/bootloader/signlk/signer/ELFIO/elfio/elfio.hpp:620-684 | after the section loop over new sections: all are placed ascending and disjoint behind the start, offsets run in step with addresses, file size ends exactly with the last file-occupying section and, if all sections count, memory size with the last section |
| NestedRun.RevisitAll | devices/cici/bootloader/signlk/signer/ELFIO/elfio/elfio.hpp:652-668 | the loop over sections that are generated already moves nothing, and its sizes end exactly where the last of them ends |
| SegmentPass.FreshSegment | devices/cici/bootloader/signlk/signer/ELFIO/elfio/elfio.hpp:597-688 | the whole turn of a segment with new sections, NULL-first segments included: what changes, where its sections go, exact sizes, congruence |
| SegmentPass.NestedSegment | devices/cici/bootloader/signlk/signer/ELFIO/elfio/elfio.hpp:597-688 | the whole turn of a nested segment: nothing moves, and it starts at its first section, or at 0 if that is the null section |
| SegmentPass.EmptySegment | devices/cici/bootloader/signlk/signer/ELFIO/elfio/elfio.hpp:588-594 | a PHDR segment without sections covers exactly the program header table; any other empty segment gets size 0 at the cursor |
| SegmentPass.NullOnlySegment | devices/cici/bootloader/signlk/signer/ELFIO/elfio/elfio.hpp:597-688 | a segment of one null section has no size; it starts at the next position congruent to its address if no earlier segment had the section, else where that is, and nothing moves |
| LayoutPass.SegmentsAreLaid | devices/cici/bootloader/signlk/signer/ELFIO/elfio/elfio.hpp:582-689 | the invariant of the segment loop after every number of segments: cursor in range, generated sections exactly those of treated segments, no overlap, every treated segment exact |
| LoosePass.LooseAreLaid | devices/cici/bootloader/signlk/signer/ELFIO/elfio/elfio.hpp:546-569 | the invariant of the second pass: sections without a segment go behind everything placed before, aligned and without overlap |
| LayoutTheorems.LayoutResult | devices/cici/bootloader/signlk/signer/ELFIO/elfio/elfio.hpp:165-176 | what the three passes establish together about the finished object |
| LayoutTheorems.PartsDoNotOverlap | devices/cici/bootloader/signlk/signer/ELFIO/elfio/elfio.hpp:165-176 | ELF header and program header table, the extents of any two sections that are not null, and the section header table are pairwise disjoint; the table starts 4-aligned behind all data |
| LayoutTheorems.SegmentsAreExact | devices/cici/bootloader/signlk/signer/ELFIO/elfio/elfio.hpp:657-688 | every segment contains its file-occupying sections in index order, its file image ends exactly with the last of them and, if all its sections count, its memory image with its last section |
| ThreadLocals.MemoryEnds | devices/cici/bootloader/signlk/signer/ELFIO/elfio/elfio.hpp:653-659 | in the terms of the headers: if every listed section has bit 1 of its flags set and none is a .tbss (bit 10 set, type 8) in a segment of another type than 7, the memory of the segment reaches exactly to the end of the last section |
| ThreadLocals.TlsMemory | devices/cici/bootloader/signlk/signer/ELFIO/elfio/elfio.hpp:655-659 | so the memory of a segment of type 7 whose sections are all allocated includes a .tbss at its end |
| ThreadLocals.LastTakesMemory | devices/cici/bootloader/signlk/signer/ELFIO/elfio/elfio.hpp:653-659 | the memory image of a segment of allocated sections ends with the last section, unless that is a .tbss in a segment of another type than 7; then it ends before it |
| SectionAlignment.PlacedIsAligned | devices/cici/bootloader/signlk/signer/ELFIO/elfio/elfio.hpp:642-651 | a section without an address (or NOBITS) stands at the first multiple of its alignment behind the section before it, or where its segment starts |
| SectionAlignment.SegmentStartsNext | devices/cici/bootloader/signlk/signer/ELFIO/elfio/elfio.hpp:606-614 | a segment that places its sections starts at the first position congruent to its address, modulo its alignment, behind the end of the header table or of some section |
| SectionAlignment.LooseStandsNext | devices/cici/bootloader/signlk/signer/ELFIO/elfio/elfio.hpp:546-566 | a section without a segment stands at the first multiple of its alignment behind such an end |
| SectionAlignment.TableStandsNext | devices/cici/bootloader/signlk/signer/ELFIO/elfio/elfio.hpp:695-702 | and so does the section header table, at a multiple of four |
| SectionAlignment.SectionIsAligned | devices/cici/bootloader/signlk/signer/ELFIO/elfio/elfio.hpp:546-669 | in the finished layout the offset of every section that does not follow an address of its own is a multiple of its alignment |
| LayoutTheorems.SectionsAllOrNone | devices/cici/bootloader/signlk/signer/ELFIO/elfio/elfio.hpp:604-617 | when its turn comes, a segment finds its sections all generated or none of them |
| Nesting.NestedInsideParent | devices/cici/bootloader/signlk/signer/ELFIO/elfio/elfio.hpp:489-502 | the file extent of a strictly included segment that has bytes lies inside the other's, also when both begin with section 0 |
| Nesting.InsideEarlier | devices/cici/bootloader/signlk/signer/ELFIO/elfio/elfio.hpp:597-617 | the same for any segment whose sections belong to an earlier one: inside if and only if it does not alone begin with a null section |
| Nesting.SameSections | devices/cici/bootloader/signlk/signer/ELFIO/elfio/elfio.hpp:615-617 | of two segments with the same sections the later one lies inside the earlier one and ends with it; they have one extent if and only if the earlier one starts at its first section or at 0 |
| Nesting.OnlyNobits | devices/cici/bootloader/signlk/signer/ELFIO/elfio/elfio.hpp:615-662 | a segment that holds only a NOBITS section lies inside one that includes it if and only if no padding stands before the section |
| Nesting.OnlyNobitsPlanned | devices/cici/bootloader/signlk/signer/ELFIO/elfio/elfio.hpp:615-662 | as a condition on the object, when alignments divide the outer segment's: if and only if its bytes end at an address aligned for the NOBITS section |
| Nesting.NullWithoutBytes | devices/cici/bootloader/signlk/signer/ELFIO/elfio/elfio.hpp:597-603 | a segment of the null section and a NOBITS section lies inside one that begins so too and has bytes if and only if no padding stands before the NOBITS section and no segment is placed between the turn that places that section and its own, as long as the segments placed there have bytes |
| Nesting.NullWithoutBytesPlanned | devices/cici/bootloader/signlk/signer/ELFIO/elfio/elfio.hpp:597-603 | as a condition on the object, when the outer segment places its sections and the NOBITS section is not aligned: if and only if no segment is placed between the two turns |
| SmallObjects.PaddedBssIsOutside | devices/cici/bootloader/signlk/signer/ELFIO/elfio/elfio.hpp:489-502 | counterexample: the segment of a .bss behind four bytes of padding lies outside the segment that strictly includes it |
| LayoutTheorems.PlacedCongruently | devices/cici/bootloader/signlk/signer/ELFIO/elfio/elfio.hpp:597-679 | offset minus segment offset equals address minus segment address for every section a segment placed (except NOBITS with a preset address); offset and address of the segment agree modulo its alignment, and for one that begins with the null section if and only if its address is a multiple |
| Overlap.BehindCursor | devices/cici/bootloader/signlk/signer/ELFIO/elfio/elfio.hpp:636-641 | a section with an address is placed behind the cursor if and only if its address leaves room for what the segment holds |
| Overlap.PinnedPlace | devices/cici/bootloader/signlk/signer/ELFIO/elfio/elfio.hpp:636-678 | with or without room, an addressed section stands in the finished file as far behind the start of its segment as in memory: the wrapping subtraction moves the cursor back |
| Overlap.CursorBounded | devices/cici/bootloader/signlk/signer/ELFIO/elfio/elfio.hpp:573-692 | without assuming room, the cursor stays within a bound computed from addresses, sizes and alignments |
| Overlap.OverlapDecided | devices/cici/bootloader/signlk/signer/ELFIO/elfio/elfio.hpp:631-683 | in a segment of addressed sections no two of these overlap in the finished file if and only if no two of their address ranges overlap, whatever their order; what the rest of the file does to them is decided by AddressPlan.ClearAsPlanned |
| Scatter.ScatteredIsClear | devices/cici/bootloader/signlk/signer/ELFIO/elfio/elfio.hpp:573-702 | addresses in any order: if the ranges within each segment are disjoint and above what it covers, the last listed section ends highest, sections without addresses come behind the highest end, and everything ends below the limit, then headers, all sections and the section header table are pairwise disjoint |
| Scatter.AffordableLeavesRoom | devices/cici/bootloader/signlk/signer/ELFIO/elfio/elfio.hpp:573-702 | ascending addresses are a special case of this condition |
| AddressPlan.PlacedAsPlanned | devices/cici/bootloader/signlk/signer/ELFIO/elfio/elfio.hpp:631-683 | if the sections of all segments have addresses, every one stands where a plan computed from the object alone has it, with or without room |
| AddressPlan.TableAsPlanned | devices/cici/bootloader/signlk/signer/ELFIO/elfio/elfio.hpp:546-569 | so does the section header table, behind the cursor of the last section listed, wherever the others are |
| AddressPlan.SizesAsPlanned | devices/cici/bootloader/signlk/signer/ELFIO/elfio/elfio.hpp:653-688 | the file image of a segment of addressed sections ends with the last one listed, and so does its memory image if all count |
| AddressPlan.CoveredExactly | devices/cici/bootloader/signlk/signer/ELFIO/elfio/elfio.hpp:653-688 | so such a section lies inside the segment that places it if and only if it does not end behind the last one listed |
| AddressPlan.ClearAsPlanned | devices/cici/bootloader/signlk/signer/ELFIO/elfio/elfio.hpp:573-702 | for any number of such segments and any sections without one: no two parts of the file overlap if and only if addresses within a segment are disjoint, planned places of different segments and of loose sections are disjoint, and every section goes behind the headers and ends before the planned table |
| AddressPlan.OneClearAsPlanned | devices/cici/bootloader/signlk/signer/ELFIO/elfio/elfio.hpp:573-702 | with one segment that places sections, in closed form: ranges disjoint, none below the headers, none across a loose section, and none ending behind the 4-aligned place where the table starts |
| Pairs.PairDecided | devices/cici/bootloader/signlk/signer/ELFIO/elfio/elfio.hpp:631-702 | for two sections at any addresses x and y: their extents in the file overlap exactly if [x, x + m) and [y, y + n) do, and no two parts of the file overlap exactly if these do not and the first does not end behind the table that follows the second |
| Pairs.OverlapAndDescent | devices/cici/bootloader/signlk/signer/ELFIO/elfio/elfio.hpp:636-702 | inputs: two sections that overlap in the file; and two whose addresses only descend, which do not overlap each other, but the section header table covers the first |
| Pairs.DataIsLost | devices/cici/bootloader/signlk/signer/ELFIO/elfio/elfio.hpp:444-457 | in the file written for the second, four bytes of a section header stand where the data of the first section belongs |
| Budget.AffordableFits | devices/cici/bootloader/signlk/signer/ELFIO/elfio/elfio.hpp:573-702 | a condition on the object alone suffices for every later assumption about room and overflow: addresses ascending behind what the segment holds by then (for one that begins with the null section, everything before it) and the end of everything, added up in layout order, below the class's limit |
| Budget.RoomyFits | devices/cici/bootloader/signlk/signer/ELFIO/elfio/elfio.hpp:631-683 | sections whose addresses ascend without overlap, behind the bytes the segment begins with, fit when their turn comes, and the segment ends within its reach |
| Budget.SumPermutes | devices/cici/bootloader/signlk/signer/ELFIO/elfio/elfio.hpp:580-582 | the sum of what the segments take does not depend on the order in which they are treated |
| Budget.CheapIsAffordable | devices/cici/bootloader/signlk/signer/ELFIO/elfio/elfio.hpp:573-702 | without segments that begin with the null section, this sum below the limit is enough, whatever the order |
| Planned.AddressesArePlanned | devices/cici/bootloader/signlk/signer/ELFIO/elfio/elfio.hpp:631-679 | when the alignments of its sections divide that of the segment, every section gets the address computed from the object alone, wherever in the file the segment lands |
| Planned.PlacerMemory | devices/cici/bootloader/signlk/signer/ELFIO/elfio/elfio.hpp:653-662 | the memory image of a segment of allocated sections ends with its last section if that counts, and otherwise with the one before |
| Frozen.GeneratedIsFinal | devices/cici/bootloader/signlk/signer/ELFIO/elfio/elfio.hpp:666-683 | a section generated by any segment is never moved again by later segments or the second pass |
| Frozen.DoneIsFinal | devices/cici/bootloader/signlk/signer/ELFIO/elfio/elfio.hpp:686-688 | a segment's offset and sizes are final after its own turn |
| Frozen.LayoutMoves | devices/cici/bootloader/signlk/signer/ELFIO/elfio/elfio.hpp:573-702 | the layout changes nothing of a section but address, offset and the address flag |
| FileImage.WriteKeeps | devices/cici/bootloader/signlk/signer/ELFIO/elfio/elfio_section.hpp:266-281 | a write at one place of the file keeps whatever is held elsewhere |
| FileImage.BytesWritten | devices/cici/bootloader/signlk/signer/ELFIO/elfio/elfio_section.hpp:266-281 | byte by byte what a file holds after a write: the written bytes, the old ones elsewhere, zeros in a gap |
| SaveLoad.ImageHolds | devices/cici/bootloader/signlk/signer/ELFIO/elfio/elfio.hpp:438-470 | no write of save destroys another: the finished file holds the ELF header, every section and program header and every section's data at its place |
| SaveLoad.HeaderBack | devices/cici/bootloader/signlk/signer/ELFIO/elfio/elfio.hpp:116-142 | a saved file passes the identification checks and names its own class and byte order |
| SaveLoad.LoadOfSave | devices/cici/bootloader/signlk/signer/ELFIO/elfio/elfio.hpp:110-185 | load of what save wrote gives every section with name, header and data and every program header, on a machine of either byte order |
| LoadedFile.LoadAccepts | devices/cici/bootloader/signlk/signer/ELFIO/elfio/elfio.hpp:110-142 | load accepts a file exactly if it begins with 7F 45 4C 46, byte 4 is 1 or 2 and it has the 52 or 64 bytes of the header; the header is then the record at its beginning, in the order byte 5 names |
| LoadedFile.LoadReads | devices/cici/bootloader/signlk/signer/ELFIO/elfio/elfio.hpp:353-435 | whatever file is loaded: if it has what its headers point to, every section and segment is decoded from its record, its data are the bytes at its offset, its name is the string at its name offset, and its list are exactly the sections inside it, by address or by file offset, with the largest alignment |
| SaveRoundTrip.SaveThenLoad | devices/cici/bootloader/signlk/signer/ELFIO/elfio/elfio.hpp:110-185 | save, with its layout, followed by load gives the laid-out object back; the layout changed only addresses, offsets and segment sizes of what the user built, and the header read back has identification, type, machine, version, entry point, flags, record sizes and string table index that the user chose, and the right counts |
| SaveRoundTrip.LayoutKeepsHeader | devices/cici/bootloader/signlk/signer/ELFIO/elfio/elfio.hpp:165-168 | save changes of the ELF header only the counts of segments and sections, the offset of the program headers (the header's size if there are segments, 0 if there are none) and that of the section headers |
| SavedFile.SavedFileHas | devices/cici/bootloader/signlk/signer/ELFIO/elfio/elfio.hpp:438-470 | in the saved file the ELF header, every section and program header stand in their records, and the bytes at every section's offset are the data it was given |
| SavedFile.EntryIsSaved | devices/cici/bootloader/signlk/signer/ELFIO/elfio/elfio.hpp:438-441 | the identification bytes, type, machine and the entry point the user chose stand at bytes 0, 16, 18 and 24 of the file |
| SaveRoundTrip.LaidOutBounded | devices/cici/bootloader/signlk/signer/ELFIO/elfio/elfio.hpp:674-688 | every value the layout stores fits its field in the class's width |
| FileFormat.Members | devices/cici/bootloader/signlk/signer/ELFIO/elfio/elfio.hpp:413-428 | the recomputed list of a segment consists, in increasing order, of exactly the sections that match by address or by offset |
| Membership.PlacerIsAnchored | devices/cici/bootloader/signlk/signer/ELFIO/elfio/elfio.hpp:633-679 | a segment that placed its sections keeps them at equal distances in file and memory, unless a NOBITS section came with an address |
| Membership.NestedIsAnchored | devices/cici/bootloader/signlk/signer/ELFIO/elfio/elfio.hpp:615-617 | a nested segment does so if and only if its address is that of its first section |
| Reload.MembersExact | devices/cici/bootloader/signlk/signer/ELFIO/elfio/elfio.hpp:408-428 | the reloaded list of a segment, null section included, equals the saved one if and only if its own sections lie inside it in memory and no other allocated section does |
| MembersKept.PlacerKeeps | devices/cici/bootloader/signlk/signer/ELFIO/elfio/elfio.hpp:408-428 | a section without a preset address, or with one and bytes, returns to the segment that placed it if and only if it is not a .tbss (flags with bit 10, type 8) in a segment of another type than 7 |
| MembersKept.AddressedNobits | devices/cici/bootloader/signlk/signer/ELFIO/elfio/elfio.hpp:408-428 | a NOBITS section with a preset address returns if and only if this is neither below the segment's nor behind the place that belongs to its file position |
| MembersKept.BeforeAddressed | devices/cici/bootloader/signlk/signer/ELFIO/elfio/elfio.hpp:408-428 | the sections before such a NOBITS section return if and only if the end of the segment in memory does not wrap |
| MembersKept.PlannedNobits | devices/cici/bootloader/signlk/signer/ELFIO/elfio/elfio.hpp:408-428 | as a condition on the object, when alignments divide the segment's: if and only if the address lies between the segment's and the one the section would have been given |
| MembersKept.NestedKeepsProper | devices/cici/bootloader/signlk/signer/ELFIO/elfio/elfio.hpp:408-428 | all sections of a nested segment return to it if and only if its address is its first section's |
| MembersKept.NestedKeeps | devices/cici/bootloader/signlk/signer/ELFIO/elfio/elfio.hpp:408-428 | the same for nested segments that may begin with the null section: if and only if its address lies between the place that belongs to its offset and its first proper section, and its end does not wrap |
| LostMembers.TbssIsLost | devices/cici/bootloader/signlk/signer/ELFIO/elfio/elfio.hpp:653-657 | input: a .tbss alone in a segment is found in it again if and only if that is of type 7, for thread-local storage; the memory size of the segment is its size then, and 0 otherwise |
| LostMembers.AddressedBss | devices/cici/bootloader/signlk/signer/ELFIO/elfio/elfio.hpp:642-646 | input: a NOBITS section with an address, alone in its segment, is found again if and only if the address is the segment's |
| LostMembers.SecondView | devices/cici/bootloader/signlk/signer/ELFIO/elfio/elfio.hpp:408-428 | input: of two segments with the same section the second has it again if and only if both have the same address |
| Reload.LayoutIsFixpoint | devices/cici/bootloader/signlk/signer/ELFIO/elfio/elfio.hpp:573-702 | laying out a reloaded object changes nothing, although every address is set now, another alignment branch runs and segments that begin with the null section are at offset 0: if all lists come back, no section raises an alignment, and the segments that place sections keep their order relative to each other, to others with the same sections and to segments that take their sizes from the cursor |
| Reload.OrderIsKept | devices/cici/bootloader/signlk/signer/ELFIO/elfio/elfio.hpp:514-542 | that order stays if the swap loop leaves the segments with sections in the same order; if only segments without sections stand before the only one that is at offset 0 or begins with the null section; or if one segment includes all others |
| Ordering.DrainMain | devices/cici/bootloader/signlk/signer/ELFIO/elfio/elfio.hpp:524-539 | segments without sections do not influence the order of the others |
| Ordering.DrainTakes | devices/cici/bootloader/signlk/signer/ELFIO/elfio/elfio.hpp:524-539 | of the worklist, the first segment that nothing includes comes first in the result |
| Ordering.DrainNext | devices/cici/bootloader/signlk/signer/ELFIO/elfio/elfio.hpp:524-539 | what the loop does until it takes a segment: the segments before the first free one go behind the others, in their order, and that one goes to the result |
| SegmentOrder.OrderOfOthers | devices/cici/bootloader/signlk/signer/ELFIO/elfio/elfio.hpp:509-522 | segments without an offset, or with another than 0, enter the worklist in the order they were added |
| SegmentOrder.OrderWithZero | devices/cici/bootloader/signlk/signer/ELFIO/elfio/elfio.hpp:514-522 | a single segment at offset 0 changes places with the first one |
| SegmentOrder.PlacesAgain | devices/cici/bootloader/signlk/signer/ELFIO/elfio/elfio.hpp:578-582 | in two such orders the same segments have their sections first, unless one with the same list has moved before one of these |
| Reload.FirstComesFirst | devices/cici/bootloader/signlk/signer/ELFIO/elfio/elfio.hpp:580-582 | sections of earlier segments stand before every section a later one places |
| Reorder.FixpointWithRoom | devices/cici/bootloader/signlk/signer/ELFIO/elfio/elfio.hpp:573-702 | for the object read back from the saved file, when every segment that nothing includes has bytes and a list of its own: it fits and laying it out changes nothing if and only if the order is kept |
| Reorder.FixpointExactly | devices/cici/bootloader/signlk/signer/ELFIO/elfio/elfio.hpp:573-702 | laying it out changes nothing if and only if the order is kept, without asking whether it fits, if the swap loop brings the segments that begin with section 0 to the front and the end is not close to the limit |
| Reorder.FrontIsTaken | devices/cici/bootloader/signlk/signer/ELFIO/elfio/elfio.hpp:514-542 | where the swap loop does what its comment says, the segment with the headers that nothing includes comes first after loading |
| CursorTold.NestedTells | devices/cici/bootloader/signlk/signer/ELFIO/elfio/elfio.hpp:597-668 | the sizes of a segment that takes them from the cursor determine where the cursor was |
| Relayout.FittingAgain | devices/cici/bootloader/signlk/signer/ELFIO/elfio/elfio.hpp:573-702 | what was read back has room for everything if the object it was made from had, and the order is kept |
| ReloadConditions.RetentiveIsFinal | devices/cici/bootloader/signlk/signer/ELFIO/elfio/elfio.hpp:110-185 | as a condition on the object before save: for an object whose lists come back the second layout changes nothing if and only if the order is kept |
| SmallObjects.TwoLoadsMove | devices/cici/bootloader/signlk/signer/ELFIO/elfio/elfio.hpp:514-522 | counterexample: all lists come back, but the segment with the headers, listed second, is treated first after loading, and the layout moves the other one's section |
| SmallObjects.TwoLoadsDecided | devices/cici/bootloader/signlk/signer/ELFIO/elfio/elfio.hpp:514-522 | this object meets every condition of ReloadConditions.RetentiveIsFinal, and does not keep the order: both sides of the equivalence occur |
| Reload.ZeroOffset | devices/cici/bootloader/signlk/signer/ELFIO/elfio/elfio.hpp:597-603 | the layout puts a segment at offset 0 if and only if it begins with the null section |
| Reload.SaveIsIdempotent | devices/cici/bootloader/signlk/signer/ELFIO/elfio/elfio.hpp:110-185 | load followed by save writes the same bytes |
| WalkAgain.RunAgain | devices/cici/bootloader/signlk/signer/ELFIO/elfio/elfio.hpp:620-684 | the section loop over sections that stand where the first layout put them computes the same cursor and sizes and moves nothing |
| Relayout.LayoutAgain | devices/cici/bootloader/signlk/signer/ELFIO/elfio/elfio.hpp:573-702 | the second layout repeats the first one, segment by segment and section by section, in any order that keeps what matters |
| ReloadConditions.RetentiveList | devices/cici/bootloader/signlk/signer/ELFIO/elfio/elfio.hpp:353-435 | a condition on the object before save (disjoint or fixed-address segments, address windows apart) suffices for a segment to get its list back, NULL-first segments included |
| ReloadConditions.DurableIsReloadable | devices/cici/bootloader/signlk/signer/ELFIO/elfio/elfio.hpp:353-435 | with the order kept it suffices for the fixpoint |
| ReloadConditions.InWindow | devices/cici/bootloader/signlk/signer/ELFIO/elfio/elfio.hpp:657-687 | the memory image of every segment stays within the window computed from the object before the layout |
| ReloadConditions.EveryAnchored | devices/cici/bootloader/signlk/signer/ELFIO/elfio/elfio.hpp:573-689 | by induction over the order, every segment of such an object has its sections at equal distances in file and memory |
| ReloadConditions.DurableSurvives | devices/cici/bootloader/signlk/signer/ELFIO/elfio/elfio.hpp:110-185 | such an object comes back with all names, data and section lists, is laid out for good, and is saved to the same file again |
| SingleSections.SingleIsDurable | devices/cici/bootloader/signlk/signer/signlk.cpp:140-230 | objects with one section of their own per segment, as the image signer builds them, meet that condition if address ranges are apart and the total is below the limit |
| FirstImage.CodeIsDurable | devices/cici/bootloader/signlk/signer/ELFIO/elfio/elfio.hpp:89-95 | a created object with one filled section and a segment for it meets every condition of the theorems about saving and loading: they are not vacuous |
| FirstImage.CodeSurvives | devices/cici/bootloader/signlk/signer/ELFIO/elfio/elfio.hpp:89-185 | create, add a section with a NUL-free name below 64 KiB and up to 16 MiB of bytes, and a segment for it, save and load: name, bytes and segment are found in the file, for every class, byte order and machine |
| FirstImage.HeadersSurvive | devices/cici/bootloader/signlk/signer/ELFIO/elfio/elfio.hpp:89-185 | the same for a segment that begins with the null section and so holds the file's headers, as the first one of an executable does |
| Strings.OffsetsAreStable | devices/cici/bootloader/signlk/signer/ELFIO/elfio/elfio_strings.hpp:44-79 | every offset add_string returned resolves to its string after any later additions, and offset 0 is the empty string |
| Strings.AddString | devices/cici/bootloader/signlk/signer/ELFIO/elfio/elfio_strings.hpp:61-79 | appends the NUL-terminated string, first an empty one to an empty section, and returns where it starts |
| SectionObject.Section.GetString | devices/cici/bootloader/signlk/signer/ELFIO/elfio/elfio_strings.hpp:44-57 | the string at an offset, up to its NUL or the section's end, or the null pointer for an offset outside or a section without data |
| Naming.NamesAreHeld | devices/cici/bootloader/signlk/signer/ELFIO/elfio/elfio.hpp:753-765 | over any run of Sections::add every section's name, old or new, is the string at its name offset |
| Naming.CreatedHoldsNames | devices/cici/bootloader/signlk/signer/ELFIO/elfio/elfio.hpp:337-350 | in a new object the string table holds its own name, at offset 1 |
| Naming.CreatedFields | devices/cici/bootloader/signlk/signer/ELFIO/elfio/elfio.hpp:89-95 | every field of a new object: identification bytes, version, record sizes, the null section, and a section 1 of type 3 with eleven bytes |
| Naming.AddedFields | devices/cici/bootloader/signlk/signer/ELFIO/elfio/elfio.hpp:753-765 | what adding a section changes: a section at the end with nothing but its index, name and name offset; its name, with a NUL, at the end of the string table; nothing else |
| Naming.AddKeepsNames | devices/cici/bootloader/signlk/signer/ELFIO/elfio/elfio.hpp:753-765 | adding one section keeps all names resolvable and names the new one |
| Naming.HeldNamesResolve | devices/cici/bootloader/signlk/signer/ELFIO/elfio/elfio.hpp:368-379 | names held this way are the ones load resolves |
| GrowableBuffer.AppendsConcatenate | devices/cici/bootloader/signlk/signer/ELFIO/elfio/elfio_section.hpp:173-199 | any run of append_data adds up to one concatenation, with size <= capacity <= 4 size and all reallocation copying together at most the capacity |
| GrowableBuffer.SmallContentsDoNotWrap | devices/cici/bootloader/signlk/signer/ELFIO/elfio/elfio_section.hpp:182 | below 2^29 bytes of contents the 32-bit capacity does not wrap |
| SectionObject.Section.constructor | devices/cici/bootloader/signlk/signer/ELFIO/elfio/elfio_section.hpp:73-79 | a zero header, no data, address not set |
| SectionObject.Section.SetAddress | devices/cici/bootloader/signlk/signer/ELFIO/elfio/elfio_section.hpp:122-128 | the address in the class's width, and the flag |
| SectionObject.Section.SetData | devices/cici/bootloader/signlk/signer/ELFIO/elfio/elfio_section.hpp:145-164 | replaces buffer, contents and size; of a NOBITS section the size only |
| SectionObject.Section.AppendData | devices/cici/bootloader/signlk/signer/ELFIO/elfio/elfio_section.hpp:173-199 | the array operations realise the buffer specification: in place if there is room, else in a new array of twice the size; nothing for NOBITS |
| SectionObject.Section.AppendSmall | devices/cici/bootloader/signlk/signer/ELFIO/elfio/elfio_section.hpp:173-199 | without any assumption on capacities, small contents grow by exactly the appended bytes and the buffer stays sound |
| SectionObject.Section.Load | devices/cici/bootloader/signlk/signer/ELFIO/elfio/elfio_section.hpp:220-243 | header and data from a stream, for complete reads the section specified by `LoadSection`; short reads leave a zero-filled header |
| SectionObject.Section.LoadFixed | devices/cici/bootloader/signlk/signer/ELFIO/elfio/elfio.hpp:360-365 | the loaded section counts as having its address set |
| SectionObject.Section.Save | devices/cici/bootloader/signlk/signer/ELFIO/elfio/elfio_section.hpp:245-281 | writes the header record and the data of sections that have any |
| SegmentObject.Segment.AddSectionIndex | devices/cici/bootloader/signlk/signer/ELFIO/elfio/elfio_segment.hpp:110-120 | appends the index, raises the alignment to the section's, returns the 16-bit count |
| SegmentObject.Segment.SetLayout | devices/cici/bootloader/signlk/signer/ELFIO/elfio/elfio.hpp:686-688 | stores sizes and offset in the class's width and sets the offset flag |
| SegmentObject.Segment.Load | devices/cici/bootloader/signlk/signer/ELFIO/elfio/elfio_segment.hpp:174-195 | header and data from a stream, no data for PT_NULL or an empty file image |
| SegmentObject.Segment.Save | devices/cici/bootloader/signlk/signer/ELFIO/elfio/elfio_segment.hpp:197-206 | writes the header record |
| ElfioObject.Elfio.constructor | devices/cici/bootloader/signlk/signer/ELFIO/elfio/elfio.hpp:89-95 | a new object with the null section and a string table that names itself, all sound |
| ElfioObject.Elfio.AddSection | devices/cici/bootloader/signlk/signer/ELFIO/elfio/elfio.hpp:753-765 | the objects take the value `WithSection` of their old value; only the new section and the string section change |
| ElfioObject.Elfio.AddSegment | devices/cici/bootloader/signlk/signer/ELFIO/elfio/elfio.hpp:807-810 | a new segment at the end, without sections |
| ElfioObject.Elfio.PlaceSection | devices/cici/bootloader/signlk/signer/ELFIO/elfio/elfio.hpp:620-684 | one turn of the section loop on the objects is one turn of the specification |
| ElfioObject.Elfio.PlaceSegment | devices/cici/bootloader/signlk/signer/ELFIO/elfio/elfio.hpp:582-689 | one turn of the segment loop on the objects is one turn of the specification |
| ElfioObject.Elfio.LayoutSegmentsAndTheirSections | devices/cici/bootloader/signlk/signer/ELFIO/elfio/elfio.hpp:573-692 | the first pass on the objects, in computed order, reaches the specified state |
| ElfioObject.Elfio.IsSectionWithoutSegment | devices/cici/bootloader/signlk/signer/ELFIO/elfio/elfio.hpp:473-486 | true if and only if no segment lists the section |
| ElfioObject.Elfio.LayoutSectionsWithoutSegments | devices/cici/bootloader/signlk/signer/ELFIO/elfio/elfio.hpp:546-569 | the second pass on the objects reaches the specified state |
| ElfioObject.Elfio.LayoutSectionTable | devices/cici/bootloader/signlk/signer/ELFIO/elfio/elfio.hpp:695-702 | the section table goes to the next multiple of four |
| ElfioObject.Elfio.LayOut | devices/cici/bootloader/signlk/signer/ELFIO/elfio/elfio.hpp:161-176 | header fields and the three passes leave the objects with the value `LaidOut` of their old value |
| ElfioObject.Elfio.Save | devices/cici/bootloader/signlk/signer/ELFIO/elfio/elfio.hpp:151-185 | lays out and writes: the returned bytes are `Image` of the laid-out value, and the objects keep that value |
| ElfioObject.ReadIdentification | devices/cici/bootloader/signlk/signer/ELFIO/elfio/elfio.hpp:114-132 | None exactly for files that are too short, have another magic number or name no class |
| ElfioObject.Elfio.LoadSections | devices/cici/bootloader/signlk/signer/ELFIO/elfio/elfio.hpp:353-366 | reads the section table and all data, as far as every read is complete |
| ElfioObject.Elfio.ResolveNames | devices/cici/bootloader/signlk/signer/ELFIO/elfio/elfio.hpp:368-379 | names all sections from the string table, which may be renamed on the way |
| ElfioObject.Elfio.AddMembers | devices/cici/bootloader/signlk/signer/ELFIO/elfio/elfio.hpp:408-428 | adds exactly the matching sections and raises the alignment accordingly |
| ElfioObject.Elfio.LoadSegments | devices/cici/bootloader/signlk/signer/ELFIO/elfio/elfio.hpp:385-435 | reads every program header and recomputes every section list |
| ElfioObject.Elfio.Load | devices/cici/bootloader/signlk/signer/ELFIO/elfio/elfio.hpp:110-148 | false exactly for files without an acceptable identification or header; after complete reads the objects have the value `LoadFrom` describes, whatever they held before |
| Symbols.SymbolReadsBack | devices/cici/bootloader/signlk/signer/ELFIO/elfio/elfio_symbols.hpp:113-139 | over any run of add_symbol the returned index reads back name, info, other and section index, and value and size modulo 2^32 in a 32-bit file, when the run is over, for both classes and orders |
| Symbols.SymbolsCounted | devices/cici/bootloader/signlk/signer/ELFIO/elfio/elfio_symbols.hpp:113-139 | the count grows by one per call, and a table that began empty starts with a symbol all of whose fields are 0 |
| Symbols.InfoUnpacks | devices/cici/bootloader/signlk/signer/ELFIO/elfio/elf_types.hpp:691-693 | binding and type survive st_info if and only if each fits four bits |
| Symbols.AddSymbol | devices/cici/bootloader/signlk/signer/ELFIO/elfio/elfio_symbols.hpp:113-139 | appends the null symbol to an empty section, then the symbol, and returns its index |
| SymbolLookup.NamedSymbolReadsBack | devices/cici/bootloader/signlk/signer/ELFIO/elfio/elfio_symbols.hpp:151-169 | over any run of adding symbols by name, each is found at its index with the name, through the string table, and with binding and type if and only if these fit four bits |
| SymbolLookup.AddNamedSymbol | devices/cici/bootloader/signlk/signer/ELFIO/elfio/elfio_symbols.hpp:151-169 | adds the name to the string section and a symbol with its offset to the table: one step of such a run, on the sections themselves |
| SymbolLookup.GetSymbolByName | devices/cici/bootloader/signlk/signer/ELFIO/elfio/elfio_symbols.hpp:78-110 | through a well-formed hash section a nonempty name is found if and only if a scan of the table finds it, with the fields of a symbol of that name; the walk terminates |
| SymbolLookup.SymbolFrom | devices/cici/bootloader/signlk/signer/ELFIO/elfio/elfio_symbols.hpp:225-266 | symbol i exists exactly if i whole entries and one more fit the data, and which bytes behind i entries hold which of its fields, for any bytes and any entry size not below the record's |
| SymbolLookup.AbiHashIsHashed | devices/cici/bootloader/signlk/signer/ELFIO/elfio/elfio_symbols.hpp:86-103 | a section whose words are the number of buckets, that of chain words, the buckets and the chain words, with every named symbol on the chain of its hash value, is well-formed in the sense of GetSymbolByName |
| SymbolLookup.WalkChain | devices/cici/bootloader/signlk/signer/ELFIO/elfio/elfio_symbols.hpp:95-106 | the loop visits the chain in order and stops at the first symbol with the name, although unknown symbols leave the string of the one before |
| SymbolLookup.NotOnChain | devices/cici/bootloader/signlk/signer/ELFIO/elfio/elfio_symbols.hpp:95-103 | if no symbol on the chain of the name's hash has the name, no symbol of the table has |
| SymbolLookup.FindHashSection | devices/cici/bootloader/signlk/signer/ELFIO/elfio/elfio_symbols.hpp:175-187 | the first section behind section 0 that links to the symbol table, or 0 |
| Notes.ScanFindsNotes | devices/cici/bootloader/signlk/signer/ELFIO/elfio/elfio_note.hpp:95-155 | after any run of add_note on an empty section a fresh scan finds exactly the recorded positions, all multiples of four, and the notes stand there |
| Notes.NotesReadBack | devices/cici/bootloader/signlk/signer/ELFIO/elfio/elfio_note.hpp:59-92 | every note of the run reads back type, name and descriptor at the position the scan finds for it |
| Notes.NoteReadsBack | devices/cici/bootloader/signlk/signer/ELFIO/elfio/elfio_note.hpp:59-92 | get_note inverts add_note wherever a note stands |
| NoteLayout.NoteIsWritten | devices/cici/bootloader/signlk/signer/ELFIO/elfio/elfio_note.hpp:95-125 | the bytes of a written note: name size with the NUL, descriptor size, type, name, zeros to a multiple of four, descriptor, zeros to a multiple of four |
| NoteLayout.NoteIsRead | devices/cici/bootloader/signlk/signer/ELFIO/elfio/elfio_note.hpp:59-92 | of any bytes: a note is found exactly if its sizes lead nowhere past the end of the section; which bytes are its type, name and descriptor; and where the next one starts |
| Notes.ProcessSection | devices/cici/bootloader/signlk/signer/ELFIO/elfio/elfio_note.hpp:129-155 | the scan yields the specified positions and ends on any bytes, because every step passes at least 12 |
| Notes.NoteAccessor.constructor | devices/cici/bootloader/signlk/signer/ELFIO/elfio/elfio_note.hpp:45-49 | a new accessor has scanned the section |
| Notes.NoteAccessor.AddNote | devices/cici/bootloader/signlk/signer/ELFIO/elfio/elfio_note.hpp:95-125 | appends the encoded note and records where it starts; the recorded positions remain what a scan would find |
| Notes.ReadNote | devices/cici/bootloader/signlk/signer/ELFIO/elfio/elfio_note.hpp:70-92 | the branches of get_note with their 32-bit arithmetic compute the specified note or None |
| Notes.NoteAccessor.GetNote | devices/cici/bootloader/signlk/signer/ELFIO/elfio/elfio_note.hpp:59-92 | returns the note at a recorded position; comparing the index with the section's size turns none away |
| Relocations.InfoUnpacks | devices/cici/bootloader/signlk/signer/ELFIO/elfio/elf_types.hpp:722-728 | r_info gives symbol and type back if and only if the symbol fits its 24 or 32 bits |
| Relocations.SignedSurvives | devices/cici/bootloader/signlk/signer/ELFIO/elfio/elfio_relocation.hpp:343-359 | an addend survives if and only if the field of the class can hold it |
| Relocations.EntryRoundTrip | devices/cici/bootloader/signlk/signer/ELFIO/elfio/elfio_relocation.hpp:286-359 | one entry reads back if and only if every part of it fits |
| Relocations.EntriesReadBack | devices/cici/bootloader/signlk/signer/ELFIO/elfio/elfio_relocation.hpp:100-255 | after any run of add_entry, entry i is the i-th one added if and only if the record can hold it |
| Relocations.AddEntry | devices/cici/bootloader/signlk/signer/ELFIO/elfio/elfio_relocation.hpp:203-255 | appends the encoded entry to the section |
| Dynamics.EntryRoundTrip | devices/cici/bootloader/signlk/signer/ELFIO/elfio/elfio_dynamic.hpp:125-243 | an entry survives if and only if the file is 64-bit, or in the machine's order with 32-bit tag and value, or all zero or all one: adding converts before it narrows |
| Dynamics.EntriesReadBack | devices/cici/bootloader/signlk/signer/ELFIO/elfio/elfio_dynamic.hpp:53-113 | the same for every entry of a run, with the value of a valueless tag read as 0 |
| Dynamics.StringTags | devices/cici/bootloader/signlk/signer/ELFIO/elfio/elfio_dynamic.hpp:66-85 | tags 1, 14, 15 and 29 come with the string at the offset their value names, up to its NUL, or with the result false if that is outside the table; every other tag comes without a string |
| Dynamics.LowHalfOfSwap | devices/cici/bootloader/signlk/signer/ELFIO/elfio/elfio_dynamic.hpp:196-240 | the low half of a byte-swapped 64-bit word is the swapped high half: why foreign 32-bit entries are lost |
| Dynamics.ForeignEntryIsLost | devices/cici/bootloader/signlk/signer/ELFIO/elfio/elfio_dynamic.hpp:190-243 | counterexample: DT_NEEDED in a 32-bit file of the other byte order reads back as another tag |
| Dynamics.StringEntryReadsBack | devices/cici/bootloader/signlk/signer/ELFIO/elfio/elfio_dynamic.hpp:70-113 | a string added with a string-valued tag is found again through its entry, whatever is added to either section before or after |
| Dynamics.AddEntry | devices/cici/bootloader/signlk/signer/ELFIO/elfio/elfio_dynamic.hpp:91-102 | appends the encoded entry to the section |
| Entries.AllReadBack | devices/cici/bootloader/signlk/signer/ELFIO/elfio/elfio_relocation.hpp:327-359 | records of one size appended in any run all read back at their index, and so do the old ones |
| FlashTarget.ExecSendsPrefix | devices/cici/bootloader/qdl/firehose.c:604-654 | what reaches the target is a beginning of the script, all of whose commands but the last were accepted; success means the whole script was sent and accepted |
| Streaming.ProgramImage | devices/cici/bootloader/qdl/firehose.c:322-422 | announces, sends and awaits; the payload writes are whole sectors, each but the last as long as the limit allows, and together carry the file from its offset, padded with zeros or cut off to exactly the announced sectors; the loop terminates |
| Streaming.EveryByte | devices/cici/bootloader/qdl/firehose.c:382-402 | byte j of chunk i is the byte of the file as far behind sector offset times sector size as everything sent before it, or zero behind the end of the file; the last chunk completes the announced sectors |
| Streaming.ImageCommands | devices/cici/bootloader/qdl/firehose.c:354-409 | by position: the program command with the number of sectors, the chunks in order, the wait for the reply |
| Streaming.SectorsAreFewest | devices/cici/bootloader/qdl/firehose.c:337-350 | the announced number of sectors is the smallest that holds the file, or the partition's size if that is too small |
| Streaming.SendChunks | devices/cici/bootloader/qdl/firehose.c:382-402 | the concatenated chunks are the window of the file, for every file size, offset and payload limit of at least a sector |
| Streaming.WindowIsFileThenZeros | devices/cici/bootloader/qdl/firehose.c:387-392 | the window is the file's bytes as far as they go, and zeros |
| Flashing.LoadList | devices/cici/bootloader/qdl/program.c:94-131 | the list grows by the usable elements in document order |
| Selection.UsableChosen | devices/cici/bootloader/qdl/program.c:94-131 | the listed elements stand at increasing positions of the document, each is an element read without errors, and none of these is missing |
| Flashing.ExecutePrograms | devices/cici/bootloader/qdl/program.c:138-173 | images are sent in list order until one is refused; programs without a file or with one that cannot be opened send nothing |
| Selection.ImagesInOrder | devices/cici/bootloader/qdl/program.c:138-173 | where the commands of every program stand in the script: one image behind the other in list order, nothing for a program without a file that can be opened |
| Flashing.ExecutePatches | devices/cici/bootloader/qdl/patch.c:120-135 | patches of the disk are applied in list order until one is refused |
| Selection.PatchesChosen | devices/cici/bootloader/qdl/patch.c:120-135 | the patches sent stand at increasing positions of the list, each names the file DISK, and none of these is missing |
| Flashing.FindBootablePartition | devices/cici/bootloader/qdl/program.c:184-202 | the partition of the only xbl or sbl1 program, one error for none and another for several |
| Selection.BootPartitionFound | devices/cici/bootloader/qdl/program.c:184-202 | if exactly one program has the label xbl or sbl1 the answer is its partition, without one it is -2, with two or more -22 |
| Provisioning.Ufs.Load | devices/cici/bootloader/qdl/ufs.c:162-289 | succeeds if and only if the file is intact, has one common and one finalizing tag and at least one unit, and its lock flag agrees with the command line; then it holds exactly these elements |
| Selection.CompleteExactly | devices/cici/bootloader/qdl/ufs.c:162-289 | a file is complete if and only if no element is unknown or corrupted, exactly one is a common tag, with the lock flag asked for, exactly one the finalizing tag, and one or more are units |
| Selection.BodiesChosen | devices/cici/bootloader/qdl/ufs.c:204-222 | the units held are those of the file, each once and in document order |
| Provisioning.Ufs.Execute | devices/cici/bootloader/qdl/ufs.c:291-335 | what is sent has, as far as it goes, the common tag without its lock first, the n units in order, the finalizing tag without commit at n + 1, and the same again with commit at the end; it ends with the first refused command, and succeeds exactly if all 2n + 4 were accepted |
| Provisioning.SentInOrder | devices/cici/bootloader/qdl/ufs.c:291-335 | the same for every run of the script, whatever the target answers |
| Provisioning.CommitComesLast | devices/cici/bootloader/qdl/ufs.c:291-335 | a committing command is only ever the last one sent, at 2n + 3; before it came common tag, all units in document order and the finalizing tag without commit, and the same once more, and every one of these commands was accepted |
| Provisioning.LockIsNeverSent | devices/cici/bootloader/qdl/firehose.c:484-506 | no common command of any provisioning run asks for the configuration lock, whatever the file says |
| FirehoseRun.Negotiate | devices/cici/bootloader/qdl/firehose.c:294-317 | one or two offers, and what is agreed: on success the size in force is the one the target replied with last |
| FirehoseRun.Offers | devices/cici/bootloader/qdl/firehose.c:294-317 | the first offer is the host's own size; there is a second one if and only if the first reply is not negative and another size, and it is that size with the same flag; the last reply is the error or the agreed size |
| FirehoseRun.Host.Configure | devices/cici/bootloader/qdl/firehose.c:294-317 | the method sends exactly these offers and keeps the agreed size |
| FirehoseRun.Host.Run | devices/cici/bootloader/qdl/firehose.c:604-654 | the trace and result of a run are greeting, negotiation and then either the provisioning script or programs, patches, boot partition and reset |
| FirehoseRun.RunInOrder | devices/cici/bootloader/qdl/firehose.c:604-654 | a run greets; only behind an acknowledged greeting it negotiates, skipping storage initialisation exactly for provisioning; only behind an agreement it sends a beginning of its script, up to the first refusal, whose reply is the result of flashing and -22 that of provisioning; only behind a flashing script accepted as a whole come the final commands |
| FirehoseRun.FinalCommands | devices/cici/bootloader/qdl/firehose.c:645-651 | the final commands are a reset, preceded by marking the boot partition if and only if exactly one boot loader was listed |
| FirehoseRun.ProvisioningOnly | devices/cici/bootloader/qdl/firehose.c:620-631 | a provisioning run sends no program, patch or reset |
| FirehoseRun.ResetComesLast | devices/cici/bootloader/qdl/firehose.c:633-653 | reset is sent only as the last command of a flashing run, after every command of the script was acknowledged, for any script without a reset |
| FirehoseRun.RunsEndWithReset | devices/cici/bootloader/qdl/firehose.c:604-654 | so for the programs and patches that a run really sends; a provisioning run sends no reset |

## Left out

- ElfioObject.Elfio.Load: after an incomplete read nothing is said about the contents; the original goes on with whatever the stream left, and its error bits are not looked at.
- SectionObject.Section.AppendData: requires that twice the new size stays below 2^32; the original's capacity wraps beyond that, and GrowableBuffer.SmallContentsDoNotWrap says when it cannot.
- SectionObject.Section.GetString: a string without a NUL ends with the section; the original's pointer lets its user read on.
- SectionObject.Section.Save: models a call with the section's own offset only, which is what save_sections passes.
- SegmentObject.Segment.Save: models a call with the segment's own offset only, which is what save_segments passes.
- ElfioObject.Elfio.AddSection: requires fewer than 2^16 sections, a string table index that exists and a string table below 2^29 bytes; otherwise the original's index or capacity wraps, or there is no section to write the name to.
- SymbolLookup.GetSymbolByName: says which symbols are found, not which one of several with the same name; says nothing about the empty name, or about hash sections with cyclic or leaving chains, on which the original may not end or reads outside the section.
- SymbolLookup.FindHashSection: the first section that links to the symbol table can be a relocation section; the original takes its bytes for a hash table, which no theorem here covers.
- Notes.NoteAccessor.GetNote: requires an index below the number of notes; the original compares it with the section's size and reads outside its list of positions for an index between the two. An entry whose sizes lead past the end of the section counts as the result false; the original returns a pointer to a descriptor that is partly outside, and computes the length of a name of size 0 as -1.
- Notes.NoteAccessor.AddNote: requires a section of whole notes; behind a truncated note a new one is not found again by a scan.
- Streaming.ProgramImage: requires that a sector is no larger than the payload limit, otherwise the original's loop does not end; requires files to be read without short reads before their end, and leaves out the 32-bit wrap of byte counts and products.
- Provisioning.Ufs.Load: says nothing about what is kept after a refused file; the original frees what it had collected but keeps its pointers.
- FirehoseRun.Host.Run: leaves out waiting for the first message and draining the input (firehose.c:609-614).
- SectionAlignment.LooseStandsNext: requires that section 0 asks for no alignment, as the null section of every object made by create does; otherwise the cursor skips padding without placing anything.
- LoadedFile.LoadReads: says nothing about files that are cut off before something their headers point to.
- Reload.MembersExact: requires that no section but section 0 is null or empty, and that segments list allocated sections besides section 0; an empty section also matches a segment that it only touches.
- MembersKept.NestedKeeps: says nothing of an inner segment with a section that does not count in it, or with an addressed NOBITS section.
- Nesting.OnlyNobits: says nothing of an outer segment that has no bytes either.
- Nesting.InsideEarlier: says nothing of segments without sections, which have size 0 at the cursor (SegmentPass.EmptySegment).
- Nesting.NullWithoutBytes: says nothing of an outer segment without bytes, of an inner one of null sections only, or when a segment without bytes is placed between the two turns.
- Overlap.OverlapDecided: decides pairs within one segment, and says nothing of sections without an address or without bytes among the addressed ones.
- AddressPlan.ClearAsPlanned: requires that all sections of segments have addresses and bytes; Scatter.ScatteredIsClear, which does not, is sufficient only.
- Reorder.FixpointWithRoom: says nothing of objects in which a segment that nothing includes has no bytes, or another one has the same list.
- Reorder.FixpointExactly: requires that the swap loop brings the segments that begin with section 0 to the front, and room for one more alignment below the limit; Reorder.FixpointWithRoom does not.
- Allocation failure, errors of files, streams and the cable, timeouts: not modelled; files are byte sequences and every command gets a reply.
- Reading XML and extracting attributes: the flasher's model starts with elements whose attributes have been read, each intact or corrupted.
- The search for an image in the include directory (program.c:151-156): a map from names to contents stands for it.
- relocation_section_accessor::get_entry with calculated values (elfio_relocation.hpp:136-200): each case is settled by its own branch.
- Objects outside WellFormed (partially overlapping segments, NOBITS in the middle, alignment 0): the layout guarantees nothing for them.
- Plain field getters and setters, lookup of a section by name, elfio_dump.hpp, the examples, util.c: nothing beyond their bodies to state.
- sahara.c, qdl.c and the Python and shell scripts: packet plumbing, argument parsing and glue.
