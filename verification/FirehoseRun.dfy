/** `firehose_configure` and `firehose_run`: negotiation, then either provisioning or flashing. */
module FirehoseRun {
  import opened Bytes
  import opened FlashTarget
  import opened FileFormat
  import opened Flashing
  import opened Selection
  import Provisioning

  // ----- negotiation of the payload size

  datatype Agreement = Agreement(trace: seq<Command>, ret: int, maxPayload: nat)

  /** The host offers its size; if the target names another one, that one is offered. A negative reply
      is an error, any other is the size the target supports. */
  function Negotiate(replies: Replies, trace: seq<Command>, maxPayload: nat, skip: bool): (a: Agreement)
    ensures a.ret == 0 ==> a.maxPayload == replies(a.trace)
    ensures a.ret != 0 ==> a.ret == replies(a.trace) < 0 && a.maxPayload == maxPayload
    ensures 1 <= |a.trace| - |trace| <= 2 && trace <= a.trace
    ensures forall k :: |trace| <= k < |a.trace| ==> a.trace[k].Configure?
  {
    var t1 := trace + [Configure(maxPayload, skip)];
    var r1 := replies(t1);
    if r1 < 0 then Agreement(t1, r1, maxPayload)
    else if r1 == maxPayload then Agreement(t1, 0, maxPayload)
    else
      var t2 := t1 + [Configure(r1, skip)];
      var r2 := replies(t2);
      if r2 < 0 then Agreement(t2, r2, maxPayload) else Agreement(t2, 0, r2)
  }

  /** What the negotiation sends, and what comes of it: the host's own size first; then, exactly if the
      target answered with another one, that size; the last answer decides. */
  predicate Offered(replies: Replies, trace: seq<Command>, sent: seq<Command>, maxPayload: nat, skip: bool,
                    ret: int, agreed: nat)
  {
    && 1 <= |sent| <= 2
    && sent[0] == Configure(maxPayload, skip)
    && (|sent| == 2 <==> replies(trace + sent[..1]) >= 0 && replies(trace + sent[..1]) != maxPayload)
    && (|sent| == 2 ==> sent[1] == Configure(replies(trace + sent[..1]), skip))
    && (replies(trace + sent) < 0 ==> ret == replies(trace + sent) && agreed == maxPayload)
    && (replies(trace + sent) >= 0 ==> ret == 0 && agreed == replies(trace + sent))
  }

  lemma Offers(replies: Replies, trace: seq<Command>, maxPayload: nat, skip: bool) returns (sent: seq<Command>)
    ensures var a := Negotiate(replies, trace, maxPayload, skip);
            a.trace == trace + sent && Offered(replies, trace, sent, maxPayload, skip, a.ret, a.maxPayload)
  {
    var a := Negotiate(replies, trace, maxPayload, skip);
    sent := a.trace[|trace|..];
    assert a.trace == trace + sent;
    assert sent[..1] == [Configure(maxPayload, skip)];
    assert |sent| == 2 ==> sent == sent[..1] + [sent[1]] && trace + sent == trace + sent[..1] + [sent[1]];
    assert |sent| == 1 ==> sent == sent[..1];
  }

  // ----- a whole run

  /** What a run sends: NOP, negotiation, the script, and after a flashing script that succeeded the
      final commands, whose replies do not matter. */
  function RunOf(replies: Replies, trace: seq<Command>, maxPayload: nat, provisioning: bool,
                 script: seq<Command>, final: seq<Command>): Outcome
  {
    var greeted := trace + [Nop];
    if replies(greeted) != 0 then Outcome(greeted, replies(greeted))
    else
      var agreed := Negotiate(replies, greeted, maxPayload, provisioning);
      if agreed.ret != 0 then Outcome(agreed.trace, agreed.ret)
      else
        var r := Exec(replies, agreed.trace, script);
        if provisioning then Outcome(r.trace, if r.ret != 0 then -Provisioning.EINVAL else 0)
        else if r.ret != 0 then r
        else Outcome(r.trace + final, 0)
  }

  /** The commands that end a run: mark the boot partition, if one was found, and reset. */
  function Final(part: int): seq<Command> {
    if part < 0 then [Reset] else [SetBootable(part), Reset]
  }

  class Host {
    var maxPayloadSize: nat

    constructor ()
      ensures maxPayloadSize == 1048576
    {
      maxPayloadSize := 1048576;
    }

    /** `firehose_configure`. */
    method Configure(target: Target, skip: bool) returns (ret: int)
      modifies this, target`trace
      ensures Agreement(target.trace, ret, maxPayloadSize) ==
              Negotiate(target.replies, old(target.trace), old(maxPayloadSize), skip)
      ensures old(target.trace) <= target.trace
      ensures Offered(target.replies, old(target.trace), target.trace[|old(target.trace)|..], old(maxPayloadSize),
                      skip, ret, maxPayloadSize)
    {
      ghost var sent := Offers(target.replies, target.trace, maxPayloadSize, skip);
      assert (target.trace + sent)[|target.trace|..] == sent;
      ret := target.Send(FlashTarget.Configure(maxPayloadSize, skip));
      if ret < 0 {
        return;
      }
      if ret != maxPayloadSize {
        ret := target.Send(FlashTarget.Configure(ret, skip));
        if ret < 0 {
          return;
        }
        maxPayloadSize := ret;
      }
      ret := 0;
    }

    /** `firehose_run`. Every sector fits the size that is agreed on; otherwise the transfer would not end. */
    method Run(target: Target, ufs: Provisioning.Ufs, programs: seq<Program>, files: Files, patches: seq<Patch>)
      returns (ret: int, ghost script: seq<Command>, ghost chunks: seq<seq<seq<byte>>>)
      requires ufs.NeedProvisioning() ==> ufs.common.Some?
      requires !ufs.NeedProvisioning() ==>
                 Sendable(programs, Negotiate(target.replies, target.trace + [Nop], maxPayloadSize, false).maxPayload)
      modifies this, target`trace
      ensures ufs.NeedProvisioning() ==>
                script == Provisioning.Script(ufs.common.value, ufs.bodies, ufs.epilogue.value)
      ensures !ufs.NeedProvisioning() ==>
                && (forall i :: 0 <= i < |programs| ==> programs[i].sectorSize > 0) && |chunks| == |programs|
                && script == ProgramScript(programs, files, chunks) + PatchScript(patches)
      ensures !ufs.NeedProvisioning() && target.replies(old(target.trace) + [Nop]) == 0 &&
              Negotiate(target.replies, old(target.trace) + [Nop], old(maxPayloadSize), false).ret == 0 ==>
                AllCarried(programs, files, maxPayloadSize, chunks)
      ensures Outcome(target.trace, ret) ==
              RunOf(target.replies, old(target.trace), old(maxPayloadSize), ufs.NeedProvisioning(), script,
                    Final(BootPartition(programs)))
    {
      chunks := seq(|programs|, _ => []);
      script := if ufs.NeedProvisioning() then Provisioning.Script(ufs.common.value, ufs.bodies, ufs.epilogue.value)
                else ProgramScript(programs, files, chunks) + PatchScript(patches);
      ret := target.Send(Nop);
      if ret == 0 {
        var provisioning := ufs.NeedProvisioning();
        ret := Configure(target, provisioning);
        if ret == 0 {
          if provisioning {
            ret := ufs.Execute(target);
          } else {
            ret, chunks := Flash(target, programs, files, patches);
            script := ProgramScript(programs, files, chunks) + PatchScript(patches);
          }
        }
      }
    }

    /** Programs, patches, then the final commands. */
    method Flash(target: Target, programs: seq<Program>, files: Files, patches: seq<Patch>)
      returns (ret: int, ghost chunks: seq<seq<seq<byte>>>)
      requires Sendable(programs, maxPayloadSize)
      modifies target`trace
      ensures |chunks| == |programs| && AllCarried(programs, files, maxPayloadSize, chunks)
      ensures var r := Exec(target.replies, old(target.trace), ProgramScript(programs, files, chunks) +
                PatchScript(patches));
              Outcome(target.trace, ret) == if r.ret != 0 then r
                  else Outcome(r.trace + Final(BootPartition(programs)), 0)
    {
      ghost var start := target.trace;
      ret, chunks := ExecutePrograms(target, programs, files, maxPayloadSize);
      ExecConcat(target.replies, start, ProgramScript(programs, files, chunks), PatchScript(patches));
      if ret != 0 {
        return;
      }
      ret := ExecutePatches(target, patches);
      if ret != 0 {
        return;
      }
      var part := FindBootablePartition(programs);
      ghost var sent := target.trace;
      if part >= 0 {
        var _ := target.Send(SetBootable(part));
      }
      var _ := target.Send(Reset);
      assert target.trace == sent + Final(part);
    }
  }

  // ----- what is sent in a run, by position

  /** A run greets; only if that is acknowledged it negotiates; only if a size is agreed on it sends a
      beginning of its script, up to the first refusal; and only behind a flashing script that was
      accepted as a whole it sends the final commands. */
  lemma RunInOrder(replies: Replies, trace: seq<Command>, maxPayload: nat, provisioning: bool,
                   script: seq<Command>, final: seq<Command>)
    returns (offers: seq<Command>, agreed: nat, negotiated: int, n: nat)
    ensures var r := RunOf(replies, trace, maxPayload, provisioning, script, final);
            && (replies(trace + [Nop]) != 0 ==> r.trace == trace + [Nop] && r.ret == replies(trace + [Nop]))
            && (replies(trace + [Nop]) == 0 ==>
                  && Offered(replies, trace + [Nop], offers, maxPayload, provisioning, negotiated, agreed)
                  && (negotiated != 0 ==> r.trace == trace + [Nop] + offers && r.ret == negotiated)
                  && (negotiated == 0 ==>
                        var before := trace + [Nop] + offers;
                        && n <= |script| && (script != [] ==> n > 0)
                        && Accepted(replies, before, script, if n == 0 then 0 else n - 1)
                        && (r.ret == 0 <==> n == |script| && Accepted(replies, before, script, n))
                        && (r.ret != 0 ==> r.ret == if provisioning then -22 else replies(r.trace))
                        && r.trace == before + script[..n] + if provisioning || r.ret != 0 then [] else final))
  {
    var r := RunOf(replies, trace, maxPayload, provisioning, script, final);
    offers, agreed, negotiated, n := [], 0, 0, 0;
    if replies(trace + [Nop]) == 0 {
      var a := Negotiate(replies, trace + [Nop], maxPayload, provisioning);
      offers := Offers(replies, trace + [Nop], maxPayload, provisioning);
      agreed, negotiated := a.maxPayload, a.ret;
      if negotiated == 0 {
        n := ExecSendsPrefix(replies, a.trace, script);
        if r.ret != 0 {
          Provisioning.RefusedLast(replies, a.trace, script);
        }
        assert a.trace + script[..n] + [] == a.trace + script[..n];
      }
    }
  }

  /** A flashing run ends with a reset, and before it marks a partition exactly if one boot loader, and
      no second one, was written. */
  lemma FinalCommands(programs: seq<Program>)
    ensures var final := Final(BootPartition(programs));
            && (forall k: nat :: OnlyBootLoader(programs, k) ==> final == [SetBootable(programs[k].partition), Reset])
            && (!OneBootLoader(programs) ==> final == [Reset])
  {
    BootPartitionFound(programs);
    hide BootPartition;
  }

  // ----- what cannot happen in a run

  predicate Provisions(c: Command) {
    c.Nop? || c.Configure? || c.ApplyCommon? || c.ApplyBody? || c.ApplyEpilogue?
  }

  /** A provisioning run sends nothing but greeting, negotiation and provisioning commands. */
  lemma ProvisioningOnly(replies: Replies, trace: seq<Command>, maxPayload: nat, common: UfsCommon,
      bodies: seq<UfsBody>,
                         epilogue: UfsEpilogue, final: seq<Command>, k: nat)
    requires var r := RunOf(replies, trace, maxPayload, true, Provisioning.Script(common, bodies, epilogue), final);
             |trace| <= k < |r.trace|
    ensures Provisions(RunOf(replies, trace, maxPayload, true, Provisioning.Script(common, bodies, epilogue),
              final).trace[k])
  {
    var script := Provisioning.Script(common, bodies, epilogue);
    var agreed := Negotiate(replies, trace + [Nop], maxPayload, true);
    var n := ExecSendsPrefix(replies, agreed.trace, script);
    assert forall i :: 0 <= i < |script| ==> Provisions(script[i]);
  }

  predicate Flashes(c: Command) {
    c.BeginProgram? || c.Data? || c.Await? || c.ApplyPatch?
  }

  lemma {:induction false} ProgramsFlash(programs: seq<Program>, files: Files, chunks: seq<seq<seq<byte>>>)
    requires |chunks| == |programs| && forall i :: 0 <= i < |programs| ==> programs[i].sectorSize > 0
    ensures forall c :: c in ProgramScript(programs, files, chunks) ==> Flashes(c)
  {
    if programs != [] {
      ProgramsFlash(programs[..|programs| - 1], files, chunks[..|programs| - 1]);
    }
  }

  lemma {:induction false} PatchesFlash(patches: seq<Patch>)
    ensures forall c :: c in PatchScript(patches) ==> Flashes(c)
  {
    if patches != [] {
      PatchesFlash(patches[..|patches| - 1]);
    }
  }

  /** The target is reset only as the last command of a flashing run, after every program and every
      patch was acknowledged. */
  lemma ResetComesLast(replies: Replies, trace: seq<Command>, maxPayload: nat, provisioning: bool,
                       script: seq<Command>, part: int, k: nat)
    requires forall c :: c in script ==> Flashes(c) || Provisions(c)
    requires var r := RunOf(replies, trace, maxPayload, provisioning, script, Final(part));
             |trace| <= k < |r.trace| && r.trace[k] == Reset
    ensures !provisioning
    ensures var agreed := Negotiate(replies, trace + [Nop], maxPayload, provisioning);
            var r := RunOf(replies, trace, maxPayload, provisioning, script, Final(part));
            && k == |r.trace| - 1 && r.ret == 0
            && r.trace == agreed.trace + script + Final(part) && Accepted(replies, agreed.trace, script, |script|)
  {
    var agreed := Negotiate(replies, trace + [Nop], maxPayload, provisioning);
    var n := ExecSendsPrefix(replies, agreed.trace, script);
    var r := RunOf(replies, trace, maxPayload, provisioning, script, Final(part));
    forall i | 0 <= i < |script|
      ensures script[i] != Reset
    {
      assert script[i] in script;
    }
    assert script[..|script|] == script;
  }

  /** The script of a run, as `Host.Run` chooses it. */
  function RunScript(ufs: Option<(UfsCommon, seq<UfsBody>, UfsEpilogue)>, programs: seq<Program>, files: Files,
                     chunks: seq<seq<seq<byte>>>, patches: seq<Patch>): seq<Command>
    requires |chunks| == |programs| && forall i :: 0 <= i < |programs| ==> programs[i].sectorSize > 0
  {
    match ufs
    case Some((common, bodies, epilogue)) => Provisioning.Script(common, bodies, epilogue)
    case None => ProgramScript(programs, files, chunks) + PatchScript(patches)
  }

  /** In every run of the flasher, whatever it was given and however the target replies, a reset is the
      last command; no provisioning file was given, and every program and patch was acknowledged. */
  lemma RunsEndWithReset(replies: Replies, trace: seq<Command>, maxPayload: nat,
                         ufs: Option<(UfsCommon, seq<UfsBody>, UfsEpilogue)>, programs: seq<Program>, files: Files,
                         chunks: seq<seq<seq<byte>>>, patches: seq<Patch>, part: int, k: nat)
    requires |chunks| == |programs| && forall i :: 0 <= i < |programs| ==> programs[i].sectorSize > 0
    requires var r := RunOf(replies, trace, maxPayload, ufs.Some?, RunScript(ufs, programs, files, chunks, patches),
               Final(part));
             |trace| <= k < |r.trace| && r.trace[k] == Reset
    ensures ufs == None
    ensures var agreed := Negotiate(replies, trace + [Nop], maxPayload, false);
            var script := ProgramScript(programs, files, chunks) + PatchScript(patches);
            var r := RunOf(replies, trace, maxPayload, false, script, Final(part));
            && k == |r.trace| - 1 && r.ret == 0
            && r.trace == agreed.trace + script + Final(part) && Accepted(replies, agreed.trace, script, |script|)
  {
    ProgramsFlash(programs, files, chunks);
    PatchesFlash(patches);
    if ufs.Some? {
      ScriptProvisions(ufs.value.0, ufs.value.1, ufs.value.2);
    }
    ResetComesLast(replies, trace, maxPayload, ufs.Some?, RunScript(ufs, programs, files, chunks, patches), part, k);
  }

  lemma ScriptProvisions(common: UfsCommon, bodies: seq<UfsBody>, epilogue: UfsEpilogue)
    ensures forall c :: c in Provisioning.Script(common, bodies, epilogue) ==> Provisions(c)
  {
    var script := Provisioning.Script(common, bodies, epilogue);
    assert forall i :: 0 <= i < |script| ==> Provisions(script[i]);
  }
}
