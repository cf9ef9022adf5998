/** The device on the other end of the cable: what it is sent, and when a sequence of commands stops. */
module FlashTarget {
  import opened Bytes

  datatype UfsCommon = UfsCommon(params: seq<nat>, configDescrLock: bool)
  datatype UfsBody = UfsBody(params: seq<nat>)
  datatype UfsEpilogue = UfsEpilogue(lunToGrow: nat)

  /** A `program` element: what is to be written where. No file name means nothing is to be written. */
  datatype Program = Program(sectorSize: nat, fileOffset: nat, filename: seq<char>, title: seq<char>, numSectors: nat,
                             partition: nat, startSector: seq<char>)

  datatype Patch = Patch(sectorSize: nat, byteOffset: nat, filename: seq<char>, partition: nat, sizeInBytes: nat,
                         startSector: seq<char>, value: seq<char>)

  /** What goes over the cable. `Await` stands for waiting for the reply to a finished transfer. */
  datatype Command =
    | Nop
    | Configure(payload: nat, skipStorageInit: bool)
    | BeginProgram(program: Program, sectors: nat)
    | Data(bytes: seq<byte>)
    | Await
    | ApplyPatch(patch: Patch)
    | ApplyCommon(common: UfsCommon)
    | ApplyBody(body: UfsBody)
    | ApplyEpilogue(epilogue: UfsEpilogue, commit: bool)
    | SetBootable(part: nat)
    | Reset

  /** The reply to the last command of a conversation: 0 is ACK. It may depend on everything sent. */
  type Replies = seq<Command> -> int

  /** Raw data is not replied to. */
  predicate Replied(c: Command) {
    !c.Data?
  }

  // ----- sequences of commands that stop at the first refusal

  datatype Outcome = Outcome(trace: seq<Command>, ret: int)

  function Exec(replies: Replies, trace: seq<Command>, script: seq<Command>): Outcome {
    if script == [] then Outcome(trace, 0)
    else
      var before := Exec(replies, trace, script[..|script| - 1]);
      if before.ret != 0 then before
      else
        var sent := before.trace + [script[|script| - 1]];
        Outcome(sent, if Replied(script[|script| - 1]) then replies(sent) else 0)
  }

  /** Every command among the first n was accepted. */
  predicate Accepted(replies: Replies, trace: seq<Command>, script: seq<Command>, n: nat)
    requires n <= |script|
  {
    forall k :: 0 <= k < n && Replied(script[k]) ==> replies(trace + script[..k + 1]) == 0
  }

  /** What was sent is a beginning of the script, all of whose commands but the last were accepted; the
      outcome is success exactly if the whole script was sent and accepted. */
  lemma {:induction false} ExecSendsPrefix(replies: Replies, trace: seq<Command>, script: seq<Command>) returns (n: nat)
    ensures n <= |script| && Exec(replies, trace, script).trace == trace + script[..n]
    ensures script != [] ==> n > 0
    ensures Accepted(replies, trace, script, if n == 0 then 0 else n - 1)
    ensures Exec(replies, trace, script).ret == 0 <==> n == |script| && Accepted(replies, trace, script, n)
  {
    if script == [] {
      n := 0;
      assert trace + script[..0] == trace;
    } else {
      var init := script[..|script| - 1];
      var m := ExecSendsPrefix(replies, trace, init);
      assert forall k :: 0 <= k < |init| ==> init[k] == script[k] && init[..k + 1] == script[..k + 1];
      assert init[..m] == script[..m];
      if Exec(replies, trace, init).ret != 0 {
        n := m;
      } else {
        n := |script|;
        assert trace + script[..|init|] + [script[|init|]] == trace + script[..n];
      }
    }
  }

  /** Two scripts one after the other: the second begins only after the first succeeded. */
  lemma {:induction false} ExecConcat(replies: Replies, trace: seq<Command>, first: seq<Command>, second: seq<Command>)
    ensures var r := Exec(replies, trace, first);
            Exec(replies, trace, first + second) == if r.ret != 0 then r else Exec(replies, r.trace, second)
  {
    if second == [] {
      assert first + second == first;
    } else {
      var init := second[..|second| - 1];
      assert (first + second)[..|first + second| - 1] == first + init;
      ExecConcat(replies, trace, first, init);
    }
  }

  /** One more command after a script that succeeded. */
  lemma ExecOneMore(replies: Replies, trace: seq<Command>, script: seq<Command>, c: Command)
    requires Exec(replies, trace, script).ret == 0
    ensures var sent := Exec(replies, trace, script).trace + [c];
            Exec(replies, trace, script + [c]) == Outcome(sent, if Replied(c) then replies(sent) else 0)
  {
    assert (script + [c])[..|script|] == script;
  }

  /** The connection to a target: the conversation so far, and how the target replies. */
  class Target {
    const replies: Replies
    var trace: seq<Command>

    constructor (replies: Replies)
      ensures this.replies == replies && trace == []
    {
      this.replies, trace := replies, [];
    }

    /** Sends a command and waits for the reply, unless it is raw data. */
    method Send(c: Command) returns (ret: int)
      modifies this`trace
      ensures trace == old(trace) + [c]
      ensures ret == if Replied(c) then replies(trace) else 0
    {
      trace := trace + [c];
      ret := if Replied(c) then replies(trace) else 0;
    }
  }
}
