/** ufs.c: a provisioning file is checked as a whole, and carried out only after a dry run. */
module Provisioning {
  import opened FlashTarget
  import opened FileFormat

  const EINVAL: int := 22
  const EEXIST: int := 17

  /** An element of the provisioning file, after its attributes were read; None is a corrupted one. */
  datatype Node =
    | Ignored
    | CommonTag(common: Option<UfsCommon>)
    | BodyTag(body: Option<UfsBody>)
    | EpilogueTag(epilogue: Option<UfsEpilogue>)
    | Unknown

  // ----- what a file has to contain

  function Commons(nodes: seq<Node>): nat {
    if nodes == [] then 0
    else Commons(nodes[..|nodes| - 1]) + if nodes[|nodes| - 1].CommonTag? then 1 else 0
  }

  function Epilogues(nodes: seq<Node>): nat {
    if nodes == [] then 0
    else Epilogues(nodes[..|nodes| - 1]) + if nodes[|nodes| - 1].EpilogueTag? then 1 else 0
  }

  /** The bodies in document order. */
  function Bodies(nodes: seq<Node>): seq<UfsBody> {
    if nodes == [] then []
    else
      Bodies(nodes[..|nodes| - 1]) +
      match nodes[|nodes| - 1]
      case BodyTag(Some(b)) => [b]
      case _ => []
  }

  predicate Intact(n: Node) {
    match n
    case Ignored => true
    case CommonTag(c) => c.Some?
    case BodyTag(b) => b.Some?
    case EpilogueTag(e) => e.Some?
    case Unknown => false
  }

  /** Intact elements only, one common and one finalizing tag, at least one logical unit, and a lock
      flag that agrees with the command line. */
  predicate Complete(nodes: seq<Node>, finalize: bool) {
    && (forall k :: 0 <= k < |nodes| ==> Intact(nodes[k]))
    && Commons(nodes) == 1 && Epilogues(nodes) == 1 && Bodies(nodes) != []
    && forall k :: 0 <= k < |nodes| && nodes[k].CommonTag? ==> nodes[k].common.value.configDescrLock == finalize
  }

  /** The element of its kind, among the first n. */
  predicate CommonAmong(nodes: seq<Node>, n: nat, c: Option<UfsCommon>)
    requires n <= |nodes|
  {
    match c
    case None => forall k :: 0 <= k < n ==> !nodes[k].CommonTag?
    case Some(_) => exists k :: 0 <= k < n && nodes[k] == CommonTag(c)
  }

  predicate EpilogueAmong(nodes: seq<Node>, n: nat, e: Option<UfsEpilogue>)
    requires n <= |nodes|
  {
    match e
    case None => forall k :: 0 <= k < n ==> !nodes[k].EpilogueTag?
    case Some(_) => exists k :: 0 <= k < n && nodes[k] == EpilogueTag(e)
  }

  /** What has been collected after n intact elements. */
  predicate Collected(nodes: seq<Node>, n: nat, c: Option<UfsCommon>, b: seq<UfsBody>, e: Option<UfsEpilogue>)
    requires n <= |nodes|
  {
    && (forall k :: 0 <= k < n ==> Intact(nodes[k]))
    && Commons(nodes[..n]) == (if c.Some? then 1 else 0) && CommonAmong(nodes, n, c)
    && Epilogues(nodes[..n]) == (if e.Some? then 1 else 0) && EpilogueAmong(nodes, n, e)
    && b == Bodies(nodes[..n])
  }

  /** Counts only grow with more elements. */
  lemma {:induction false} CountsGrow(nodes: seq<Node>, n: nat)
    requires n <= |nodes|
    ensures Commons(nodes[..n]) <= Commons(nodes) && Epilogues(nodes[..n]) <= Epilogues(nodes)
    decreases |nodes|
  {
    if n < |nodes| {
      var init := nodes[..|nodes| - 1];
      assert init[..n] == nodes[..n];
      CountsGrow(init, n);
    } else {
      assert nodes[..n] == nodes;
    }
  }

  /** With a single common tag, the one collected decides about the lock. */
  lemma {:induction false} OnlyCommon(nodes: seq<Node>, i: nat, j: nat)
    requires i < |nodes| && j < |nodes| && nodes[i].CommonTag? && nodes[j].CommonTag? && Commons(nodes) == 1
    ensures i == j
  {
    var init := nodes[..|nodes| - 1];
    if i < |init| && j < |init| {
      SomeCommon(init, i);
      OnlyCommon(init, i, j);
    } else if i < |init| {
      SomeCommon(init, i);
    } else if j < |init| {
      SomeCommon(init, j);
    }
  }

  lemma {:induction false} SomeCommon(nodes: seq<Node>, i: nat)
    requires i < |nodes| && nodes[i].CommonTag?
    ensures Commons(nodes) >= 1
  {
    if i < |nodes| - 1 {
      SomeCommon(nodes[..|nodes| - 1], i);
    }
  }

  class Ufs {
    var common: Option<UfsCommon>
    var bodies: seq<UfsBody>
    var epilogue: Option<UfsEpilogue>

    constructor ()
      ensures common == None && bodies == [] && epilogue == None
    {
      common, bodies, epilogue := None, [], None;
    }

    /** `ufs_need_provisioning`. */
    predicate NeedProvisioning()
      reads this
    {
      epilogue.Some?
    }

    /** Collects the elements of one provisioning file. It succeeds exactly for a complete file. */
    method Load(nodes: seq<Node>, finalize: bool) returns (ret: int)
      requires common == None ==> bodies == [] && epilogue == None
      modifies this
      ensures old(common).Some? ==>
                ret == -EEXIST && common == old(common) && bodies == old(bodies) && epilogue == old(epilogue)
      ensures old(common) == None ==> (ret == 0 <==> Complete(nodes, finalize))
      ensures old(common) == None && ret == 0 ==>
                && common.Some? && CommonTag(common) in nodes && common.value.configDescrLock == finalize
                && bodies == Bodies(nodes) && bodies != []
                && epilogue.Some? && EpilogueTag(epilogue) in nodes
    {
      if common.Some? {
        return -EEXIST;
      }
      ret := 0;
      var n := 0;
      while n < |nodes| && ret == 0
        invariant 0 <= n <= |nodes|
        invariant ret == 0 ==> Collected(nodes, n, common, bodies, epilogue)
        invariant ret != 0 ==> ret == -EINVAL && !Complete(nodes, finalize)
      {
        ret := TakeNext(nodes, n, finalize);
        n := n + 1;
      }
      if ret == 0 {
        assert nodes[..|nodes|] == nodes;
        if common == None || bodies == [] || epilogue == None {
          return -EINVAL;
        }
        LockDecides(nodes, common, bodies, epilogue, finalize);
        if finalize != common.value.configDescrLock {
          return -EINVAL;
        }
      }
    }

    /** Takes element n up, or finds that the file is not complete. */
    method TakeNext(nodes: seq<Node>, n: nat, ghost finalize: bool) returns (ret: int)
      requires n < |nodes| && Collected(nodes, n, common, bodies, epilogue)
      modifies this
      ensures ret == 0 ==> Collected(nodes, n + 1, common, bodies, epilogue)
      ensures ret != 0 ==> ret == -EINVAL && !Complete(nodes, finalize)
    {
      ghost var c, b, e := common, bodies, epilogue;
      ret := Take(nodes[n]);
      OneMore(nodes, n, c, b, e, finalize);
    }

    /** Takes one element up, or refuses it. */
    method Take(node: Node) returns (ret: int)
      modifies this
      ensures ret == 0 <==> Acceptable(node, old(common), old(epilogue))
      ensures ret == 0 || ret == -EINVAL
      ensures ret == 0 ==>
                && common == (if node.CommonTag? then node.common else old(common))
                && bodies == (if node.BodyTag? && node.body.Some? then old(bodies) + [node.body.value] else old(bodies))
                && epilogue == (if node.EpilogueTag? then node.epilogue else old(epilogue))
    {
      ret := 0;
      match node
      case Ignored =>
      case CommonTag(c) =>
        if common.Some? {
          return -EINVAL;
        }
        common := c;
        if c == None {
          return -EINVAL;
        }
      case BodyTag(b) =>
        if b == None {
          return -EINVAL;
        }
        bodies := bodies + [b.value];
      case EpilogueTag(e) =>
        if epilogue.Some? {
          return -EINVAL;
        }
        epilogue := e;
        if e == None {
          return -EINVAL;
        }
      case Unknown =>
        return -EINVAL;
    }

    /** Sends a command on behalf of the provisioning; any refusal counts as -EINVAL. */
    method Apply(target: Target, c: Command) returns (ret: int)
      requires Replied(c)
      modifies target`trace
      ensures target.trace == old(target.trace) + [c]
      ensures ret == if target.replies(target.trace) != 0 then -EINVAL else 0
    {
      ret := target.Send(c);
      if ret != 0 {
        ret := -EINVAL;
      }
    }

    /** The common tag, the bodies in order and the finalizing tag, stopping at the first refusal. */
    method ApplyAll(target: Target, commit: bool) returns (ret: int)
      requires common.Some? && epilogue.Some?
      modifies target`trace
      ensures var r := Exec(target.replies, old(target.trace), Pass(common.value, bodies, epilogue.value, commit));
              target.trace == r.trace && ret == if r.ret != 0 then -EINVAL else 0
    {
      ghost var start := target.trace;
      ghost var script := Pass(common.value, bodies, epilogue.value, commit);
      ret := Apply(target, ApplyCommon(Unlocked(common.value)));
      assert script[..1] == [ApplyCommon(Unlocked(common.value))];
      assert Exec(target.replies, start, []) == Outcome(start, 0);
      var i := 0;
      while i < |bodies| && ret == 0
        invariant 0 <= i <= |bodies|
        invariant var r := Exec(target.replies, start, script[..i + 1]);
                  target.trace == r.trace && ret == if r.ret != 0 then -EINVAL else 0
      {
        assert script[..i + 2][..i + 1] == script[..i + 1] && script[..i + 2][i + 1] == ApplyBody(bodies[i]);
        ret := Apply(target, ApplyBody(bodies[i]));
        i := i + 1;
      }
      if ret == 0 {
        assert script[..|script| - 1] == script[..|bodies| + 1];
        ret := Apply(target, ApplyEpilogue(epilogue.value, commit));
      } else {
        StoppedEarly(target.replies, start, script, i + 1);
      }
    }

    /** Asks the target to check everything, and only if it agrees, carries it out. */
    method Execute(target: Target) returns (ret: int)
      requires common.Some? && epilogue.Some?
      modifies target`trace
      ensures var r := Exec(target.replies, old(target.trace), Script(common.value, bodies, epilogue.value));
              target.trace == r.trace && ret == if r.ret != 0 then -EINVAL else 0
      ensures old(target.trace) <= target.trace && (ret == 0 || ret == -EINVAL)
      ensures DryThenReal(target.trace[|old(target.trace)|..], common.value, bodies, epilogue.value)
      ensures StopsAtRefusal(target.replies, old(target.trace), target.trace[|old(target.trace)|..],
                             2 * |bodies| + 4, ret == 0)
    {
      ghost var sent := SentInOrder(target.replies, target.trace, common.value, bodies, epilogue.value);
      assert (target.trace + sent)[|target.trace|..] == sent;
      ExecConcat(target.replies, target.trace, Pass(common.value, bodies, epilogue.value, false),
                 Pass(common.value, bodies, epilogue.value, true));
      ret := ApplyAll(target, false);
      if ret == 0 {
        ret := ApplyAll(target, true);
      }
    }
  }

  predicate Acceptable(node: Node, c: Option<UfsCommon>, e: Option<UfsEpilogue>) {
    Intact(node) && (node.CommonTag? ==> c == None) && (node.EpilogueTag? ==> e == None)
  }

  /** One more element keeps what has been collected, or shows that the file is not complete. */
  lemma OneMore(nodes: seq<Node>, n: nat, c: Option<UfsCommon>, b: seq<UfsBody>, e: Option<UfsEpilogue>, finalize: bool)
    requires n < |nodes| && Collected(nodes, n, c, b, e)
    ensures Acceptable(nodes[n], c, e) ==>
              Collected(nodes, n + 1, if nodes[n].CommonTag? then nodes[n].common else c,
                        if nodes[n].BodyTag? && nodes[n].body.Some? then b + [nodes[n].body.value] else b,
                        if nodes[n].EpilogueTag? then nodes[n].epilogue else e)
    ensures !Acceptable(nodes[n], c, e) ==> !Complete(nodes, finalize)
  {
    assert nodes[..n + 1][..n] == nodes[..n];
    CountsGrow(nodes, n + 1);
  }

  /** For an otherwise complete collection the file is complete exactly if the lock flag agrees. */
  lemma LockDecides(nodes: seq<Node>, c: Option<UfsCommon>, b: seq<UfsBody>, e: Option<UfsEpilogue>, finalize: bool)
    requires Collected(nodes, |nodes|, c, b, e) && c.Some? && b != [] && e.Some?
    ensures Complete(nodes, finalize) <==> c.value.configDescrLock == finalize
  {
    assert nodes[..|nodes|] == nodes;
    var k :| 0 <= k < |nodes| && nodes[k] == CommonTag(c);
    forall j | 0 <= j < |nodes| && nodes[j].CommonTag?
      ensures nodes[j].common == c
    {
      OnlyCommon(nodes, j, k);
    }
  }

  // ----- the trace

  function BodyCommands(bodies: seq<UfsBody>): (s: seq<Command>)
    ensures |s| == |bodies| && forall i :: 0 <= i < |bodies| ==> s[i] == ApplyBody(bodies[i])
  {
    seq(|bodies|, i requires 0 <= i < |bodies| => ApplyBody(bodies[i]))
  }

  /** The lock flag is never sent, whatever the file says. */
  function Unlocked(c: UfsCommon): UfsCommon {
    c.(configDescrLock := false)
  }

  function Pass(c: UfsCommon, bodies: seq<UfsBody>, e: UfsEpilogue, commit: bool): seq<Command> {
    [ApplyCommon(Unlocked(c))] + BodyCommands(bodies) + [ApplyEpilogue(e, commit)]
  }

  /** The dry run and the real run. */
  function Script(c: UfsCommon, bodies: seq<UfsBody>, e: UfsEpilogue): seq<Command> {
    Pass(c, bodies, e, false) + Pass(c, bodies, e, true)
  }

  /** A refusal in a beginning of a script is the outcome of the script. */
  lemma {:induction false} StoppedEarly(replies: Replies, trace: seq<Command>, script: seq<Command>, n: nat)
    requires n <= |script| && Exec(replies, trace, script[..n]).ret != 0
    ensures Exec(replies, trace, script) == Exec(replies, trace, script[..n])
  {
    assert script[..n] + script[n..] == script;
    ExecConcat(replies, trace, script[..n], script[n..]);
  }

  /** What has been sent, by position: the common tag without its lock, the bodies in document order, the
      finalizing tag without commit; then the same again, with commit. */
  predicate DryThenReal(sent: seq<Command>, c: UfsCommon, bodies: seq<UfsBody>, e: UfsEpilogue) {
    var n := |bodies|;
    && |sent| <= 2 * n + 4
    && (0 < |sent| ==> sent[0] == ApplyCommon(c.(configDescrLock := false)))
    && (forall i :: 0 <= i < n && 1 + i < |sent| ==> sent[1 + i] == ApplyBody(bodies[i]))
    && (n + 1 < |sent| ==> sent[n + 1] == ApplyEpilogue(e, false))
    && (n + 2 < |sent| ==> sent[n + 2] == ApplyCommon(c.(configDescrLock := false)))
    && (forall i :: 0 <= i < n && n + 3 + i < |sent| ==> sent[n + 3 + i] == ApplyBody(bodies[i]))
    && (2 * n + 3 < |sent| ==> sent[2 * n + 3] == ApplyEpilogue(e, true))
  }

  /** Every command but the last was accepted; the last one was, and nothing is missing, exactly on success. */
  predicate StopsAtRefusal(replies: Replies, trace: seq<Command>, sent: seq<Command>, all: nat, success: bool) {
    && 0 < |sent| <= all
    && (forall t :: 0 < t < |sent| ==> replies(trace + sent[..t]) == 0)
    && (success <==> |sent| == all && replies(trace + sent) == 0)
    && (!success ==> replies(trace + sent) != 0)
  }

  /** What a run of the provisioning sends, whatever the target answers. */
  lemma SentInOrder(replies: Replies, trace: seq<Command>, c: UfsCommon, bodies: seq<UfsBody>, e: UfsEpilogue)
    returns (sent: seq<Command>)
    ensures var r := Exec(replies, trace, Script(c, bodies, e));
            && r.trace == trace + sent && DryThenReal(sent, c, bodies, e)
            && StopsAtRefusal(replies, trace, sent, 2 * |bodies| + 4, r.ret == 0)
  {
    var script := Script(c, bodies, e);
    var n := ExecSendsPrefix(replies, trace, script);
    sent := script[..n];
    ScriptByPosition(c, bodies, e);
    var r := Exec(replies, trace, script);
    forall t | 0 < t < n
      ensures replies(trace + sent[..t]) == 0
    {
      assert Replied(script[t - 1]) && sent[..t] == script[..t - 1 + 1];
    }
    LastDecides(replies, trace, script, n);
  }

  lemma ScriptByPosition(c: UfsCommon, bodies: seq<UfsBody>, e: UfsEpilogue)
    ensures var script := Script(c, bodies, e);
            && |script| == 2 * |bodies| + 4 && DryThenReal(script, c, bodies, e)
            && forall k :: 0 <= k < |script| ==> Replied(script[k])
  {
    var dry, carried := Pass(c, bodies, e, false), Pass(c, bodies, e, true);
    PassByPosition(c, bodies, e, false);
    PassByPosition(c, bodies, e, true);
    hide Pass;
    var script, n := dry + carried, |bodies|;
    assert script == Script(c, bodies, e);
    assert forall k :: 0 <= k < n + 2 ==> script[k] == dry[k];
    assert forall k :: 0 <= k < n + 2 ==> script[n + 2 + k] == carried[k];
  }

  lemma PassByPosition(c: UfsCommon, bodies: seq<UfsBody>, e: UfsEpilogue, commit: bool)
    ensures var pass := Pass(c, bodies, e, commit);
            && |pass| == |bodies| + 2 && pass[0] == ApplyCommon(c.(configDescrLock := false))
            && (forall i :: 0 <= i < |bodies| ==> pass[1 + i] == ApplyBody(bodies[i]))
            && pass[|bodies| + 1] == ApplyEpilogue(e, commit)
            && forall k :: 0 <= k < |pass| ==> Replied(pass[k])
  {
    var pass, n := Pass(c, bodies, e, commit), |bodies|;
    assert pass[1..n + 1] == BodyCommands(bodies);
    assert forall i :: 0 <= i < n ==> pass[1 + i] == BodyCommands(bodies)[i];
  }

  /** The reply to the last command sent decides about success. */
  lemma LastDecides(replies: Replies, trace: seq<Command>, script: seq<Command>, n: nat)
    requires 0 < n <= |script| && Exec(replies, trace, script).trace == trace + script[..n]
    requires Accepted(replies, trace, script, n - 1) && forall k :: 0 <= k < |script| ==> Replied(script[k])
    requires Exec(replies, trace, script).ret == 0 <==> n == |script| && Accepted(replies, trace, script, n)
    ensures Exec(replies, trace, script).ret == 0 <==> n == |script| && replies(trace + script[..n]) == 0
    ensures Exec(replies, trace, script).ret != 0 ==> replies(trace + script[..n]) != 0
  {
    assert script[..n - 1 + 1] == script[..n];
    if Exec(replies, trace, script).ret != 0 && n < |script| {
      RefusedLast(replies, trace, script);
    }
  }

  /** A script that fails stops with a refused command. */
  lemma {:induction false} RefusedLast(replies: Replies, trace: seq<Command>, script: seq<Command>)
    requires Exec(replies, trace, script).ret != 0
    ensures replies(Exec(replies, trace, script).trace) == Exec(replies, trace, script).ret
  {
    if Exec(replies, trace, script[..|script| - 1]).ret != 0 {
      RefusedLast(replies, trace, script[..|script| - 1]);
    }
  }

  predicate Commits(c: Command) {
    c.ApplyEpilogue? && c.commit
  }

  lemma OnlyLastCommits(sent: seq<Command>, c: UfsCommon, bodies: seq<UfsBody>, e: UfsEpilogue, at: nat)
    requires DryThenReal(sent, c, bodies, e) && at < |sent|
    ensures Commits(sent[at]) <==> at == 2 * |bodies| + 3
  {
    var n := |bodies|;
    if 1 <= at <= n {
      assert sent[1 + (at - 1)] == ApplyBody(bodies[at - 1]);
    } else if n + 3 <= at < 2 * n + 3 {
      assert sent[n + 3 + (at - n - 3)] == ApplyBody(bodies[at - n - 3]);
    }
  }

  /** A committing command is sent only as the last one of a run, after the target has accepted the same
      provisioning without commit and everything else: the dry run comes first. */
  lemma CommitComesLast(replies: Replies, trace: seq<Command>, c: UfsCommon, bodies: seq<UfsBody>, e: UfsEpilogue,
      k: nat)
    requires |trace| <= k < |Exec(replies, trace, Script(c, bodies, e)).trace|
    requires Commits(Exec(replies, trace, Script(c, bodies, e)).trace[k])
    ensures var all, n := Exec(replies, trace, Script(c, bodies, e)).trace, |bodies|;
            && k == |all| - 1 == |trace| + 2 * n + 3 && DryThenReal(all[|trace|..], c, bodies, e)
            && forall i :: |trace| < i <= k ==> replies(all[..i]) == 0
  {
    var sent := SentInOrder(replies, trace, c, bodies, e);
    var all := trace + sent;
    OnlyLastCommits(sent, c, bodies, e, k - |trace|);
    hide Exec;
    assert all[|trace|..] == sent && all[k] == sent[k - |trace|];
    forall i | |trace| < i <= k
      ensures replies(all[..i]) == 0
    {
      assert all[..i] == trace + sent[..i - |trace|];
    }
  }

  /** No run of the provisioning locks the configuration of the device, whatever the file says. */
  lemma LockIsNeverSent(replies: Replies, trace: seq<Command>, c: UfsCommon, bodies: seq<UfsBody>, e: UfsEpilogue,
      k: nat)
    requires |trace| <= k < |Exec(replies, trace, Script(c, bodies, e)).trace|
    requires Exec(replies, trace, Script(c, bodies, e)).trace[k].ApplyCommon?
    ensures !Exec(replies, trace, Script(c, bodies, e)).trace[k].common.configDescrLock
  {
    var script := Script(c, bodies, e);
    var n := ExecSendsPrefix(replies, trace, script);
    assert Exec(replies, trace, script).trace[k] == script[k - |trace|];
    assert forall i :: 0 <= i < |script| && script[i].ApplyCommon? ==> script[i] == ApplyCommon(Unlocked(c));
  }
}
