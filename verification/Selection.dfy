/** Which elements of a description file are acted upon: exactly the ones meant, once each, in document order. */
module Selection {
  import opened FlashTarget
  import opened FileFormat
  import opened Bytes
  import opened Flashing
  import opened Streaming
  import opened Provisioning

  predicate Increasing(at: seq<nat>) {
    forall i, j :: 0 <= i < j < |at| ==> at[i] < at[j]
  }

  predicate IsUsable<T(!new)>(tag: Tag<T>) {
    tag.Element? && tag.value.Some?
  }

  lemma UsableGrows<T(!new)>(tags: seq<Tag<T>>, last: nat)
    requires |tags| == last + 1
    ensures Usable(tags) == Usable(tags[..last]) + if IsUsable(tags[last]) then [tags[last].value.value] else []
  {
  }

  /** Every element that was read without errors is taken, and none else. */
  lemma {:induction false} UsableChosen<T(!new)>(tags: seq<Tag<T>>) returns (at: seq<nat>)
    ensures Increasing(at) && |at| == |Usable(tags)|
    ensures forall j :: 0 <= j < |at| ==> at[j] < |tags| && tags[at[j]] == Element(Some(Usable(tags)[j]))
    ensures forall k :: 0 <= k < |tags| && IsUsable(tags[k]) ==> k in at
  {
    at := [];
    if tags != [] {
      var last := |tags| - 1;
      var init, tag := tags[..last], tags[last];
      var before := UsableChosen(init);
      UsableGrows(tags, last);
      assert IsUsable(tag) ==> tag == Element(Some(tag.value.value));
      hide Usable, IsUsable;
      at := before + if IsUsable(tag) then [last] else [];
    }
  }

  predicate OfDisk(p: Patch) {
    p.filename == "DISK"
  }

  lemma PatchesGrow(patches: seq<Patch>, last: nat)
    requires |patches| == last + 1
    ensures PatchScript(patches) ==
            PatchScript(patches[..last]) + if OfDisk(patches[last]) then [ApplyPatch(patches[last])] else []
  {
  }

  /** Every patch of the disk itself is applied, and none else. */
  lemma {:induction false} PatchesChosen(patches: seq<Patch>) returns (at: seq<nat>)
    ensures Increasing(at) && |at| == |PatchScript(patches)|
    ensures forall j :: 0 <= j < |at| ==>
              at[j] < |patches| && OfDisk(patches[at[j]]) && PatchScript(patches)[j] == ApplyPatch(patches[at[j]])
    ensures forall k :: 0 <= k < |patches| && OfDisk(patches[k]) ==> k in at
  {
    at := [];
    if patches != [] {
      var last := |patches| - 1;
      var init := patches[..last];
      var before := PatchesChosen(init);
      PatchesGrow(patches, last);
      hide PatchScript, OfDisk;
      at := before + if OfDisk(patches[last]) then [last] else [];
    }
  }

  /** Where the commands of the programs stand: those of program i from at[i] to at[i + 1], one image after
      the other in list order, and nothing for a program without a file that can be opened. */
  lemma {:induction false} ImagesInOrder(programs: seq<Program>, files: Files, chunks: seq<seq<seq<byte>>>)
    returns (at: seq<nat>)
    requires |chunks| == |programs| && forall i :: 0 <= i < |programs| ==> programs[i].sectorSize > 0
    ensures |at| == |programs| + 1 && at[0] == 0 && at[|programs|] == |ProgramScript(programs, files, chunks)|
    ensures forall i :: 0 <= i < |programs| ==>
              ImageAt(ProgramScript(programs, files, chunks), programs[i], files, chunks[i], at[i], at[i + 1])
  {
    at := [0];
    if programs != [] {
      var last := |programs| - 1;
      var init := ProgramScript(programs[..last], files, chunks[..last]);
      var script := ProgramScript(programs, files, chunks);
      at := ImagesInOrder(programs[..last], files, chunks[..last]);
      at := at + [|script|];
      assert init <= script;
      forall i | 0 <= i < last
        ensures ImageAt(script, programs[i], files, chunks[i], at[i], at[i + 1])
      {
        assert ImageAt(init, programs[..last][i], files, chunks[..last][i], at[i], at[i + 1]);
        ImageStays(init, script, programs[i], files, chunks[i], at[i], at[i + 1]);
      }
      LastImage(programs, files, chunks, last);
    }
  }

  /** From position `from` up to position `end`: what is sent for one program. */
  predicate ImageAt(script: seq<Command>, p: Program, files: Files, chunks: seq<seq<byte>>, from: nat, end: nat)
    requires p.sectorSize > 0
  {
    && from <= end <= |script|
    && if p.filename == [] || p.filename !in files then end == from
       else
         && end == from + |chunks| + 2
         && script[from] == BeginProgram(p, SectorsOf(p, files[p.filename]))
         && (forall j :: 0 <= j < |chunks| ==> script[from + 1 + j] == Data(chunks[j]))
         && script[end - 1] == Await
  }

  lemma ImageStays(init: seq<Command>, script: seq<Command>, p: Program, files: Files, chunks: seq<seq<byte>>,
                   from: nat, end: nat)
    requires p.sectorSize > 0 && init <= script && ImageAt(init, p, files, chunks, from, end)
    ensures ImageAt(script, p, files, chunks, from, end)
  {
    assert forall k :: 0 <= k < |init| ==> script[k] == init[k];
  }

  lemma LastImage(programs: seq<Program>, files: Files, chunks: seq<seq<seq<byte>>>, last: nat)
    requires |chunks| == |programs| == last + 1 && forall i :: 0 <= i < |programs| ==> programs[i].sectorSize > 0
    ensures ImageAt(ProgramScript(programs, files, chunks), programs[last], files, chunks[last],
                    |ProgramScript(programs[..last], files, chunks[..last])|, |ProgramScript(programs, files, chunks)|)
  {
    var init := ProgramScript(programs[..last], files, chunks[..last]);
    var script, p := ProgramScript(programs, files, chunks), programs[last];
    hide ImageAt, ScriptOf, SectorsOf;
    if Writable(p, files) {
      var file := files[p.filename];
      assert script == init + ScriptOf(p, SectorsOf(p, file), chunks[last]);
      ImageBehind(init, p, files, chunks[last]);
    } else {
      assert script == init + [] == init;
      NoImage(init, p, files, chunks[last]);
    }
  }

  lemma NoImage(init: seq<Command>, p: Program, files: Files, chunks: seq<seq<byte>>)
    requires p.sectorSize > 0 && !Writable(p, files)
    ensures ImageAt(init, p, files, chunks, |init|, |init|)
  {
  }

  lemma ImageBehind(init: seq<Command>, p: Program, files: Files, chunks: seq<seq<byte>>)
    requires p.sectorSize > 0 && Writable(p, files)
    ensures var script := init + ScriptOf(p, SectorsOf(p, files[p.filename]), chunks);
            ImageAt(script, p, files, chunks, |init|, |script|)
  {
    var image := ScriptOf(p, SectorsOf(p, files[p.filename]), chunks);
    ImageCommands(p, files[p.filename], chunks);
    hide ScriptOf, SectorsOf;
    var script := init + image;
    assert forall k :: 0 <= k < |image| ==> script[|init| + k] == image[k];
    forall j | 0 <= j < |chunks|
      ensures script[|init| + 1 + j] == Data(chunks[j])
    {
      assert script[|init| + (1 + j)] == image[1 + j];
    }
    assert script[|init| + (|chunks| + 1)] == image[|chunks| + 1];
  }

  predicate IsBootLoader(p: Program) {
    p.title == "xbl" || p.title == "sbl1"
  }

  predicate OnlyBootLoader(programs: seq<Program>, k: nat) {
    && k < |programs| && IsBootLoader(programs[k])
    && forall i :: 0 <= i < |programs| && i != k ==> !IsBootLoader(programs[i])
  }

  predicate OneBootLoader(programs: seq<Program>) {
    exists k :: 0 <= k < |programs| && OnlyBootLoader(programs, k)
  }

  lemma BootLoadersGrow(programs: seq<Program>, last: nat)
    requires |programs| == last + 1
    ensures BootLoaders(programs) ==
            BootLoaders(programs[..last]) + if IsBootLoader(programs[last]) then [programs[last]] else []
  {
  }

  lemma {:induction false} BootLoadersChosen(programs: seq<Program>) returns (at: seq<nat>)
    ensures Increasing(at) && |at| == |BootLoaders(programs)|
    ensures forall j :: 0 <= j < |at| ==>
              at[j] < |programs| && IsBootLoader(programs[at[j]]) && BootLoaders(programs)[j] == programs[at[j]]
    ensures forall k :: 0 <= k < |programs| && IsBootLoader(programs[k]) ==> k in at
  {
    at := [];
    if programs != [] {
      var last := |programs| - 1;
      var init := programs[..last];
      var before := BootLoadersChosen(init);
      BootLoadersGrow(programs, last);
      hide BootLoaders, IsBootLoader;
      at := before + if IsBootLoader(programs[last]) then [last] else [];
    }
  }

  /** The partition to boot from is that of the only boot loader; without one it is unknown, and with
      several the answer is an error of its own. */
  lemma BootPartitionFound(programs: seq<Program>)
    ensures forall k: nat :: OnlyBootLoader(programs, k) ==> BootPartition(programs) == programs[k].partition
    ensures (forall k :: 0 <= k < |programs| ==> !IsBootLoader(programs[k])) ==> BootPartition(programs) == -2
    ensures forall i, j :: 0 <= i < j < |programs| && IsBootLoader(programs[i]) && IsBootLoader(programs[j]) ==>
              BootPartition(programs) == -22
    ensures OneBootLoader(programs) <==> BootPartition(programs) >= 0
  {
    var at := BootLoadersChosen(programs);
    assert |at| > 1 ==> at[0] < at[1];
    assert at != [] ==> IsBootLoader(programs[at[0]]);
    if |at| == 1 {
      assert OnlyBootLoader(programs, at[0]);
    }
    forall k: nat | OnlyBootLoader(programs, k)
      ensures |at| == 1
    {
      assert k in at;
      assert forall j :: 0 <= j < |at| ==> at[j] == k;
    }
    forall i, j | 0 <= i < j < |programs| && IsBootLoader(programs[i]) && IsBootLoader(programs[j])
      ensures |at| > 1
    {
      assert i in at && j in at;
    }
  }

  predicate IsUnit(node: Node) {
    node.BodyTag? && node.body.Some?
  }

  lemma BodiesGrow(nodes: seq<Node>, last: nat)
    requires |nodes| == last + 1
    ensures Bodies(nodes) == Bodies(nodes[..last]) + if IsUnit(nodes[last]) then [nodes[last].body.value] else []
  {
  }

  /** The logical units of a provisioning file, each once and in document order. */
  lemma {:induction false} BodiesChosen(nodes: seq<Node>) returns (at: seq<nat>)
    ensures Increasing(at) && |at| == |Bodies(nodes)|
    ensures forall j :: 0 <= j < |at| ==> at[j] < |nodes| && nodes[at[j]] == BodyTag(Some(Bodies(nodes)[j]))
    ensures forall k :: 0 <= k < |nodes| && IsUnit(nodes[k]) ==> k in at
  {
    at := [];
    if nodes != [] {
      var last := |nodes| - 1;
      var init, node := nodes[..last], nodes[last];
      var before := BodiesChosen(init);
      BodiesGrow(nodes, last);
      assert IsUnit(node) ==> node == BodyTag(Some(node.body.value));
      hide Bodies, IsUnit;
      at := before + if IsUnit(node) then [last] else [];
    }
  }

  predicate OnlyCommonTag(nodes: seq<Node>, k: nat) {
    && k < |nodes| && nodes[k].CommonTag?
    && forall i :: 0 <= i < |nodes| && i != k ==> !nodes[i].CommonTag?
  }

  predicate OnlyEpilogueTag(nodes: seq<Node>, k: nat) {
    && k < |nodes| && nodes[k].EpilogueTag?
    && forall i :: 0 <= i < |nodes| && i != k ==> !nodes[i].EpilogueTag?
  }

  /** A file is accepted exactly if it consists of readable elements, one of them the common tag, one the
      finalizing tag and at least one a logical unit, and its lock flag is the one asked for. */
  lemma CompleteExactly(nodes: seq<Node>, finalize: bool)
    ensures Complete(nodes, finalize) <==>
            && (forall k :: 0 <= k < |nodes| ==>
                  && nodes[k] != Unknown && nodes[k] != CommonTag(None) && nodes[k] != BodyTag(None)
                  && nodes[k] != EpilogueTag(None))
            && (exists k: nat :: OnlyCommonTag(nodes, k) && nodes[k].common.Some? &&
                                 nodes[k].common.value.configDescrLock == finalize)
            && (exists k: nat :: OnlyEpilogueTag(nodes, k))
            && exists k :: 0 <= k < |nodes| && nodes[k].BodyTag?
  {
    OneCommon(nodes);
    OneEpilogue(nodes);
    var at := BodiesChosen(nodes);
    if Bodies(nodes) != [] {
      assert nodes[at[0]].BodyTag?;
    }
    hide Commons, Epilogues, Bodies;
  }

  lemma {:induction false} OneCommon(nodes: seq<Node>)
    ensures Commons(nodes) == 1 <==> exists k: nat :: OnlyCommonTag(nodes, k)
    ensures Commons(nodes) == 0 <==> forall k :: 0 <= k < |nodes| ==> !nodes[k].CommonTag?
  {
    if nodes != [] {
      var last := |nodes| - 1;
      var init := nodes[..last];
      OneCommon(init);
      if nodes[last].CommonTag? {
        if Commons(init) == 0 {
          assert OnlyCommonTag(nodes, last);
        }
      } else {
        forall k: nat | k < last
          ensures OnlyCommonTag(nodes, k) <==> OnlyCommonTag(init, k)
        {
        }
        assert !OnlyCommonTag(nodes, last);
      }
    }
  }

  lemma {:induction false} OneEpilogue(nodes: seq<Node>)
    ensures Epilogues(nodes) == 1 <==> exists k: nat :: OnlyEpilogueTag(nodes, k)
    ensures Epilogues(nodes) == 0 <==> forall k :: 0 <= k < |nodes| ==> !nodes[k].EpilogueTag?
  {
    if nodes != [] {
      var last := |nodes| - 1;
      var init := nodes[..last];
      OneEpilogue(init);
      if nodes[last].EpilogueTag? {
        if Epilogues(init) == 0 {
          assert OnlyEpilogueTag(nodes, last);
        }
      } else {
        forall k: nat | k < last
          ensures OnlyEpilogueTag(nodes, k) <==> OnlyEpilogueTag(init, k)
        {
        }
        assert !OnlyEpilogueTag(nodes, last);
      }
    }
  }
}
