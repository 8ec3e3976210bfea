/**
 The operating system as the process pool sees it: children run, end, and are reaped by a wait
 or a successful poll. When a child ends, in what order, and how, is left open.
 */
module Processes {
  import opened Wrappers

  const ECHILD := 10

  datatype Status = Exited(code: nat) | Signalled(signal: nat)

  /** `WEXITSTATUS`: the exit code's low byte, and 0 for a child that a signal ended. */
  function WExitStatus(s: Status): int {
    match s
    case Exited(code) => code % 256
    case Signalled(_) => 0
  }

  /** A child that was not reaped. `fate` is how it ends, unknown to anyone until then. */
  datatype Child = Child(fate: Status, ended: bool)

  type Children = map<nat, Child>

  /** Time may end children, but does not change how, and reaps none. */
  ghost predicate Later(before: Children, after: Children) {
    && after.Keys == before.Keys
    && forall p :: p in before ==> after[p].fate == before[p].fate && (before[p].ended ==> after[p].ended)
  }

  /** Some children were reaped while time passed. */
  ghost predicate Fewer(before: Children, after: Children) {
    && after.Keys <= before.Keys
    && forall p :: p in after ==> after[p].fate == before[p].fate && (before[p].ended ==> after[p].ended)
  }

  lemma ReapingLeavesFewer(before: Children, atReap: Children, pid: nat)
    requires Later(before, atReap) && pid in atReap
    ensures pid in before && before[pid].fate == atReap[pid].fate
    ensures Fewer(before, atReap - {pid}) && (atReap - {pid}).Keys == before.Keys - {pid}
  {
  }

  class Os {
    var children: Children
    /** The command lines of all children so far. */
    var started: seq<seq<string>>
    /** How often no child could be made, and how often a child was waited for. */
    ghost var failedForks: nat
    ghost var waits: nat

    constructor ()
      ensures children == map[] && started == [] && failedForks == 0 && waits == 0
    {
      children := map[];
      started := [];
      failedForks, waits := 0, 0;
    }

    method Pass()
      modifies this`children
      ensures Later(old(children), children)
    {
      var ended: set<nat> := *;
      children := map p | p in children :: Child(children[p].fate, children[p].ended || p in ended);
    }

    /** `fork`: a process id no unreaped child has, or a failure. */
    method Fork(args: seq<string>) returns (pid: Option<nat>)
      modifies this`children, this`started, this`failedForks
      ensures pid.None? ==> children == old(children) && started == old(started) && failedForks == old(failedForks) + 1
      ensures pid.Some? ==>
        && failedForks == old(failedForks)
        && started == old(started) + [args]
        && pid.value !in old(children)
        && pid.value in children && children == old(children)[pid.value := children[pid.value]]
    {
      var p: nat := *;
      var fails: bool := *;
      if fails || p in children {
        failedForks := failedForks + 1;
        return None;
      }
      var fate: Status := *;
      children := children[p := Child(fate, false)];
      started := started + [args];
      return Some(p);
    }

    /**
     `waitpid(-1)`: fails without children, and otherwise blocks until some child has ended and
     reaps it. `atReap` is how things stand at that moment.
     */
    method WaitAny() returns (r: Result<(nat, Status), int>, ghost atReap: Children)
      modifies this`children, this`waits
      ensures waits == old(waits) + 1
      ensures r.Err? <==> old(children) == map[]
      ensures r.Err? ==> r.error == ECHILD && children == map[]
      ensures Later(old(children), atReap)
      ensures r.Ok? ==>
        var (pid, status) := r.value;
        && pid in atReap && atReap[pid] == Child(status, true)
        && children == atReap - {pid}
    {
      Pass();
      atReap := children;
      waits := waits + 1;
      if children == map[] {
        return Err(ECHILD), atReap;
      }
      assert children.Keys != {};
      var pid :| pid in children.Keys;
      // If this child has not ended yet, it ends while the call blocks.
      children := children[pid := Child(children[pid].fate, true)];
      atReap := children;
      r := Ok((pid, children[pid].fate));
      children := children - {pid};
    }

    /** `waitpid` with WNOHANG: fails for a reaped child, otherwise reaps the child if it has ended. */
    method Poll(pid: nat) returns (r: Result<Option<Status>, int>, ghost atPoll: Children)
      modifies this`children
      ensures r.Err? <==> pid !in old(children)
      ensures r.Err? ==> r.error == ECHILD
      ensures Later(old(children), atPoll)
      ensures r.Ok? ==> r.value == if atPoll[pid].ended then Some(atPoll[pid].fate) else None
      ensures children == if r.Ok? && r.value.Some? then atPoll - {pid} else atPoll
    {
      Pass();
      atPoll := children;
      if pid !in children {
        return Err(ECHILD), atPoll;
      }
      if !children[pid].ended {
        return Ok(None), atPoll;
      }
      r := Ok(Some(children[pid].fate));
      children := children - {pid};
    }

    /** `kill` with SIGKILL: a child still running is ended by it. */
    method Kill(pid: nat)
      modifies this`children
      ensures children.Keys == old(children.Keys)
      ensures forall p :: p in children && p != pid ==> children[p].fate == old(children)[p].fate
      ensures forall p :: p in children && old(children)[p].ended ==> children[p].ended
      ensures pid in children ==> children[pid].ended && (children[pid].fate == old(children)[pid].fate || children[pid].fate == Signalled(9))
    {
      Pass();
      if pid in children && !children[pid].ended {
        children := children[pid := Child(Signalled(9), true)];
      }
    }
  }
}
