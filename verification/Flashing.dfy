/** program.c, patch.c and the sequencing of firehose.c: what is sent to the target, and in which order. */
module Flashing {
  import opened Bytes
  import opened FlashTarget
  import opened FileFormat
  import opened Provisioning
  import opened Streaming

  const ENOENT: int := 2

  // ----- the lists

  /** A `program` or `patch` element after its attributes were read; None is one with errors, Other a
      tag of another name. */
  datatype Tag<T> = Other | Element(value: Option<T>)

  /** The usable elements, in document order. */
  function Usable<T>(tags: seq<Tag<T>>): seq<T> {
    if tags == [] then []
    else
      Usable(tags[..|tags| - 1]) +
      match tags[|tags| - 1]
      case Element(Some(v)) => [v]
      case _ => []
  }

  /** Appends the usable elements to a list, first come first served. */
  method LoadList<T>(list: seq<T>, tags: seq<Tag<T>>) returns (r: seq<T>)
    ensures r == list + Usable(tags)
  {
    r := list;
    assert tags[..0] == [];
    for n := 0 to |tags|
      invariant r == list + Usable(tags[..n])
    {
      assert tags[..n + 1][..n] == tags[..n];
      match tags[n] {
        case Element(Some(v)) => r := r + [v];
        case _ =>
      }
    }
    assert tags[..|tags|] == tags;
  }

  // ----- programs

  /** The files that can be opened. */
  type Files = map<seq<char>, seq<byte>>

  predicate Writable(p: Program, files: Files) {
    p.filename != [] && p.filename in files
  }

  /** Programs whose sectors fit the payload limit. */
  predicate Sendable(programs: seq<Program>, maxPayload: nat) {
    forall i :: 0 <= i < |programs| ==> 0 < programs[i].sectorSize <= maxPayload
  }

  /** The script of all programs with a file, in list order; `chunks` holds the transfer of each. */
  function ProgramScript(programs: seq<Program>, files: Files, chunks: seq<seq<seq<byte>>>): seq<Command>
    requires |chunks| == |programs| && forall i :: 0 <= i < |programs| ==> programs[i].sectorSize > 0
  {
    if programs == [] then []
    else
      var last := |programs| - 1;
      ProgramScript(programs[..last], files, chunks[..last]) +
      if Writable(programs[last], files)
      then ScriptOf(programs[last], SectorsOf(programs[last], files[programs[last].filename]), chunks[last])
      else []
  }

  /** Every transfer carries its image. */
  predicate AllCarried(programs: seq<Program>, files: Files, maxPayload: nat, chunks: seq<seq<seq<byte>>>)
    requires forall i :: 0 <= i < |programs| ==> programs[i].sectorSize > 0
  {
    && |chunks| == |programs|
    && forall i :: 0 <= i < |programs| && Writable(programs[i], files) ==>
         Carries(programs[i], files[programs[i].filename], maxPayload, chunks[i])
  }

  /** `program_execute`: programs one after the other, until one is refused. */
  method ExecutePrograms(target: Target, programs: seq<Program>, files: Files, maxPayload: nat)
    returns (ret: int, ghost chunks: seq<seq<seq<byte>>>)
    requires Sendable(programs, maxPayload)
    modifies target`trace
    ensures AllCarried(programs, files, maxPayload, chunks)
    ensures Outcome(target.trace, ret) ==
              Exec(target.replies, old(target.trace), ProgramScript(programs, files, chunks))
  {
    ret, chunks := 0, [];
    ghost var start := target.trace;
    var n := 0;
    assert programs[..0] == [];
    assert Outcome(target.trace, ret) == Exec(target.replies, start, ProgramScript(programs[..0], files, chunks));
    hide Exec, ProgramScript, AllCarried;
    while n < |programs| && ret == 0
      invariant 0 <= n <= |programs| && AllCarried(programs[..n], files, maxPayload, chunks)
      invariant Outcome(target.trace, ret) == Exec(target.replies, start, ProgramScript(programs[..n], files, chunks))
    {
      var p := programs[n];
      ghost var cs: seq<seq<byte>> := [];
      ghost var before := Outcome(target.trace, ret);
      if Writable(p, files) {
        ret, cs := ProgramImage(target, p, files[p.filename], maxPayload);
      }
      OneMoreSent(target.replies, start, programs, files, maxPayload, chunks, cs, n, before,
          Outcome(target.trace, ret));
      chunks := chunks + [cs];
      n := n + 1;
    }
    if ret != 0 {
      chunks := RestCarried(target.replies, start, programs, files, maxPayload, chunks, n);
    }
    assert programs[..|programs|] == programs;
  }

  lemma ScriptGrows(programs: seq<Program>, files: Files, chunks: seq<seq<seq<byte>>>, cs: seq<seq<byte>>, n: nat)
    requires n < |programs| && |chunks| == n && forall i :: 0 <= i < |programs| ==> programs[i].sectorSize > 0
    ensures ProgramScript(programs[..n + 1], files, chunks + [cs]) ==
            ProgramScript(programs[..n], files, chunks) +
            if Writable(programs[n], files)
                then ScriptOf(programs[n], SectorsOf(programs[n], files[programs[n].filename]), cs)
            else []
  {
    assert programs[..n + 1][..n] == programs[..n] && (chunks + [cs])[..n] == chunks;
  }

  /** The turn of program n, from one outcome to the next. */
  lemma OneMoreSent(replies: Replies, start: seq<Command>, programs: seq<Program>, files: Files, maxPayload: nat,
                    chunks: seq<seq<seq<byte>>>, cs: seq<seq<byte>>, n: nat, before: Outcome, after: Outcome)
    requires Sendable(programs, maxPayload) && n < |programs| && AllCarried(programs[..n], files, maxPayload, chunks)
    requires before == Exec(replies, start, ProgramScript(programs[..n], files, chunks)) && before.ret == 0
    requires var p := programs[n];
             if Writable(p, files)
             then Carries(p, files[p.filename], maxPayload, cs) &&
                  after == Exec(replies, before.trace, ScriptOf(p, SectorsOf(p, files[p.filename]), cs))
             else after == before
    ensures AllCarried(programs[..n + 1], files, maxPayload, chunks + [cs])
    ensures after == Exec(replies, start, ProgramScript(programs[..n + 1], files, chunks + [cs]))
  {
    hide Carries, ScriptOf, SectorsOf, Exec;
    CarriedGrows(programs, files, maxPayload, chunks, cs, n);
    ScriptGrows(programs, files, chunks, cs, n);
    var script, p := ProgramScript(programs[..n], files, chunks), programs[n];
    if Writable(p, files) {
      ExecConcat(replies, start, script, ScriptOf(p, SectorsOf(p, files[p.filename]), cs));
    } else {
      assert script + [] == script;
    }
  }

  /** Programs behind a refused one do not change the outcome. */
  lemma {:induction false} RestCarried(replies: Replies, start: seq<Command>, programs: seq<Program>, files: Files,
                                       maxPayload: nat, chunks: seq<seq<seq<byte>>>, n: nat)
    returns (all: seq<seq<seq<byte>>>)
    requires Sendable(programs, maxPayload) && n <= |programs|
    requires AllCarried(programs[..n], files, maxPayload, chunks)
    requires Exec(replies, start, ProgramScript(programs[..n], files, chunks)).ret != 0
    ensures AllCarried(programs, files, maxPayload, all)
    ensures Exec(replies, start, ProgramScript(programs, files, all)) ==
            Exec(replies, start, ProgramScript(programs[..n], files, chunks))
    decreases |programs| - n
  {
    if n == |programs| {
      all := chunks;
      assert programs[..n] == programs;
    } else {
      var more := OneMoreCarried(replies, start, programs, files, maxPayload, chunks, n);
      all := RestCarried(replies, start, programs, files, maxPayload, more, n + 1);
    }
  }

  lemma OneMoreCarried(replies: Replies, start: seq<Command>, programs: seq<Program>, files: Files,
                       maxPayload: nat, chunks: seq<seq<seq<byte>>>, n: nat)
    returns (all: seq<seq<seq<byte>>>)
    requires Sendable(programs, maxPayload) && n < |programs|
    requires AllCarried(programs[..n], files, maxPayload, chunks)
    requires Exec(replies, start, ProgramScript(programs[..n], files, chunks)).ret != 0
    ensures AllCarried(programs[..n + 1], files, maxPayload, all)
    ensures Exec(replies, start, ProgramScript(programs[..n + 1], files, all)) ==
            Exec(replies, start, ProgramScript(programs[..n], files, chunks))
  {
    var p := programs[n];
    var cs := if Writable(p, files) then ChunksFor(p, files[p.filename], maxPayload) else [];
    CarriedGrows(programs, files, maxPayload, chunks, cs, n);
    all := chunks + [cs];
    ScriptGrows(programs, files, chunks, cs, n);
    ExecConcat(replies, start, ProgramScript(programs[..n], files, chunks),
               if Writable(p, files) then ScriptOf(p, SectorsOf(p, files[p.filename]), cs) else []);
  }

  lemma CarriedGrows(programs: seq<Program>, files: Files, maxPayload: nat, chunks: seq<seq<seq<byte>>>,
                     cs: seq<seq<byte>>, n: nat)
    requires Sendable(programs, maxPayload) && n < |programs|
    requires AllCarried(programs[..n], files, maxPayload, chunks)
    requires Writable(programs[n], files) ==> Carries(programs[n], files[programs[n].filename], maxPayload, cs)
    ensures AllCarried(programs[..n + 1], files, maxPayload, chunks + [cs])
  {
    forall i | 0 <= i < n + 1 && Writable(programs[i], files)
      ensures Carries(programs[i], files[programs[i].filename], maxPayload, (chunks + [cs])[i])
    {
      if i < n {
        assert programs[..n][i] == programs[i];
      }
    }
  }

  /** The programs that hold a boot loader, in list order. */
  function BootLoaders(programs: seq<Program>): seq<Program> {
    if programs == [] then []
    else
      var last := programs[|programs| - 1];
      BootLoaders(programs[..|programs| - 1]) + if last.title == "xbl" || last.title == "sbl1" then [last] else []
  }

  /** The partition of the only boot loader; an error if there is none, another if there are several. */
  function BootPartition(programs: seq<Program>): int {
    var found := BootLoaders(programs);
    if |found| == 0 then -ENOENT else if |found| == 1 then found[0].partition else -EINVAL
  }

  /** `program_find_bootable_partition`. */
  method FindBootablePartition(programs: seq<Program>) returns (part: int)
    ensures part == BootPartition(programs)
  {
    part := -ENOENT;
    assert programs[..0] == [];
    for n := 0 to |programs|
      invariant var found := BootLoaders(programs[..n]);
                |found| <= 1 && part == if |found| == 0 then -ENOENT else found[0].partition
    {
      assert programs[..n + 1][..n] == programs[..n];
      if programs[n].title == "xbl" || programs[n].title == "sbl1" {
        if part != -ENOENT {
          MoreBootLoaders(programs, n + 1);
          return -EINVAL;
        }
        part := programs[n].partition;
      }
    }
    assert programs[..|programs|] == programs;
  }

  lemma {:induction false} MoreBootLoaders(programs: seq<Program>, n: nat)
    requires n <= |programs|
    ensures |BootLoaders(programs[..n])| <= |BootLoaders(programs)|
    decreases |programs|
  {
    if n < |programs| {
      assert programs[..|programs| - 1][..n] == programs[..n];
      MoreBootLoaders(programs[..|programs| - 1], n);
    } else {
      assert programs[..n] == programs;
    }
  }

  // ----- patches

  /** Patches of the disk itself, in list order. */
  function PatchScript(patches: seq<Patch>): seq<Command> {
    if patches == [] then []
    else
      PatchScript(patches[..|patches| - 1]) +
      if patches[|patches| - 1].filename == "DISK" then [ApplyPatch(patches[|patches| - 1])] else []
  }

  /** `patch_execute`. */
  method ExecutePatches(target: Target, patches: seq<Patch>) returns (ret: int)
    modifies target`trace
    ensures Outcome(target.trace, ret) == Exec(target.replies, old(target.trace), PatchScript(patches))
  {
    ret := 0;
    ghost var start := target.trace;
    var n := 0;
    assert patches[..0] == [];
    assert Outcome(target.trace, ret) == Exec(target.replies, start, PatchScript(patches[..0]));
    hide Exec, PatchScript;
    while n < |patches| && ret == 0
      invariant 0 <= n <= |patches|
      invariant Outcome(target.trace, ret) == Exec(target.replies, start, PatchScript(patches[..n]))
    {
      ghost var before := Outcome(target.trace, ret);
      if patches[n].filename == "DISK" {
        ret := target.Send(ApplyPatch(patches[n]));
      }
      OneMorePatch(target.replies, start, patches, n, before, Outcome(target.trace, ret));
      n := n + 1;
    }
    if ret != 0 {
      PatchesStop(target.replies, start, patches, n);
    }
    assert patches[..|patches|] == patches;
  }

  /** The turn of patch n, from one outcome to the next. */
  lemma OneMorePatch(replies: Replies, start: seq<Command>, patches: seq<Patch>, n: nat, before: Outcome,
      after: Outcome)
    requires n < |patches| && before == Exec(replies, start, PatchScript(patches[..n])) && before.ret == 0
    requires if patches[n].filename == "DISK"
             then var sent := before.trace + [ApplyPatch(patches[n])];
                  after == Outcome(sent, if Replied(ApplyPatch(patches[n])) then replies(sent) else 0)
             else after == before
    ensures after == Exec(replies, start, PatchScript(patches[..n + 1]))
  {
    hide Exec;
    assert patches[..n + 1][..n] == patches[..n];
    if patches[n].filename == "DISK" {
      ExecOneMore(replies, start, PatchScript(patches[..n]), ApplyPatch(patches[n]));
    } else {
      assert PatchScript(patches[..n]) + [] == PatchScript(patches[..n]);
    }
  }

  lemma {:induction false} PatchesStop(replies: Replies, start: seq<Command>, patches: seq<Patch>, n: nat)
    requires n <= |patches| && Exec(replies, start, PatchScript(patches[..n])).ret != 0
    ensures Exec(replies, start, PatchScript(patches)) == Exec(replies, start, PatchScript(patches[..n]))
    decreases |patches|
  {
    if n < |patches| {
      var init := patches[..|patches| - 1];
      assert init[..n] == patches[..n];
      PatchesStop(replies, start, init, n);
      var last := patches[|patches| - 1];
      ExecConcat(replies, start, PatchScript(init), if last.filename == "DISK" then [ApplyPatch(last)] else []);
    } else {
      assert patches[..n] == patches;
    }
  }
}
