/**
 The bounded pool of background jobs, against every behaviour of the operating system's
 processes.
 */
module ProcessPool {
  import opened Wrappers
  import opened Processes
  import opened Sequences

  const ENOSYS := 38
  const EAGAIN := 11

  lemma FewerKeys<T, U>(a: map<T, U>, b: map<T, U>, k: T)
    requires b.Keys <= a.Keys && k in a && k !in b
    ensures |b| < |a|
  {
    SubsetSize(b.Keys, a.Keys - {k});
    assert |b.Keys| == |b| && |a.Keys| == |a|;
  }

  type Pids = map<nat, nat>
  type Codes = map<nat, int>
  type Fates = map<nat, Status>

  /** Every job is running or completed, never both, and a completed one has its own exit status. */
  ghost predicate Consistent(pids: Pids, completed: Codes, pidIndex: nat, fates: Fates, children: Children) {
    && (forall id: nat :: id in fates <==> id < pidIndex)
    && pids.Keys !! completed.Keys && pids.Keys + completed.Keys == fates.Keys
    && (forall id :: id in pids ==> Alive(pids[id], fates[id], children))
    && Distinct(pids)
    && (forall id :: id in completed ==> completed[id] == WExitStatus(fates[id]))
  }

  ghost predicate Alive(pid: nat, fate: Status, children: Children) {
    pid in children && children[pid].fate == fate
  }

  /** Every job that had ended before and was looked at is to be removed. */
  ghost predicate Collected(pids: Pids, before: Children, remaining: set<nat>, toRemove: Codes) {
    forall id :: id in pids && id !in remaining && IsEnded(pids[id], before) ==> id in toRemove
  }

  predicate IsEnded(pid: nat, children: Children) {
    pid in children && children[pid].ended
  }

  ghost predicate Distinct(pids: Pids) {
    forall i, j :: i in pids && j in pids && i != j ==> pids[i] != pids[j]
  }

  /** No process but the jobs' own is a child. */
  ghost predicate OnlyJobs(pids: Pids, children: Children) {
    forall p :: p in children ==> p in pids.Values
  }

  /**
   Part of the way through looking at the jobs after a wait: those in `remaining` are still to be
   looked at, those in `toRemove` were found to have ended, all others are alive.
   */
  ghost predicate Swept(pids: Pids, fates: Fates, children: Children, finishedPid: nat, finished: Status,
          remaining: set<nat>, toRemove: Codes) {
    && remaining <= pids.Keys && toRemove.Keys <= pids.Keys && pids.Keys <= fates.Keys
    && finishedPid !in children
    && (forall id :: id in toRemove ==> pids[id] !in children)
    && forall id :: id in pids ==>
         if pids[id] == finishedPid then fates[id] == finished && (id in toRemove ==> toRemove[id] == WExitStatus(finished)) && (id in remaining || id in toRemove)
         else if id in toRemove then id !in remaining && toRemove[id] == WExitStatus(fates[id])
         else Alive(pids[id], fates[id], children)
  }

  /** Nothing but the jobs in `toRemove` and the child waited for was reaped. */
  ghost predicate Reaped(pids: Pids, before: Children, children: Children, finishedPid: nat, toRemove: Codes) {
    && Fewer(before, children) && finishedPid in before && finishedPid !in children
    && forall p :: p in before && p !in children && p != finishedPid ==> exists id :: id in toRemove && id in pids && pids[id] == p
  }

  lemma SweepAlive(pids: Pids, fates: Fates, children: Children, later: Children, finishedPid: nat, finished: Status,
                   remaining: set<nat>, toRemove: Codes, index: nat)
    requires Swept(pids, fates, children, finishedPid, finished, remaining, toRemove)
    requires Later(children, later) && index in remaining && pids[index] in children
    ensures Swept(pids, fates, later, finishedPid, finished, remaining - {index}, toRemove)
  {
  }

  lemma SweepEnded(pids: Pids, fates: Fates, children: Children, later: Children, finishedPid: nat, finished: Status,
                   remaining: set<nat>, toRemove: Codes, index: nat)
    requires Swept(pids, fates, children, finishedPid, finished, remaining, toRemove) && Distinct(pids)
    requires index in remaining && pids[index] in children
    requires Fewer(children, later) && later.Keys == children.Keys - {pids[index]}
    ensures Swept(pids, fates, later, finishedPid, finished, remaining - {index}, toRemove[index := WExitStatus(children[pids[index]].fate)])
  {
  }

  /** A poll fails only for the job that the wait itself reaped. */
  lemma SweepReaped(pids: Pids, fates: Fates, children: Children, later: Children, finishedPid: nat, finished: Status,
                    remaining: set<nat>, toRemove: Codes, index: nat)
    requires Swept(pids, fates, children, finishedPid, finished, remaining, toRemove)
    requires Later(children, later) && index in remaining && pids[index] !in children
    ensures Swept(pids, fates, later, finishedPid, finished, remaining - {index}, toRemove[index := WExitStatus(finished)])
  {
  }

  /** A poll leaves a job alone only if it had not ended before either. */
  lemma CollectedAlive(pids: Pids, before: Children, children: Children, later: Children, finishedPid: nat,
                       remaining: set<nat>, toRemove: Codes, index: nat)
    requires Collected(pids, before, remaining, toRemove) && Reaped(pids, before, children, finishedPid, toRemove)
    requires Later(children, later) && index in remaining && index in pids
    requires pids[index] in children && !later[pids[index]].ended
    ensures Collected(pids, before, remaining - {index}, toRemove)
  {
  }

  lemma CollectedEnded(pids: Pids, before: Children, remaining: set<nat>, toRemove: Codes, index: nat, code: int)
    requires Collected(pids, before, remaining, toRemove)
    ensures Collected(pids, before, remaining - {index}, toRemove[index := code])
  {
  }

  lemma LaterIsFewer(before: Children, after: Children)
    requires Later(before, after)
    ensures Fewer(before, after)
  {
  }

  lemma ReapedStep(pids: Pids, before: Children, children: Children, later: Children, finishedPid: nat,
          toRemove: Codes, toRemove': Codes)
    requires Reaped(pids, before, children, finishedPid, toRemove)
    requires Fewer(children, later) && toRemove.Keys <= toRemove'.Keys
    requires forall p :: p in children && p !in later ==> exists id :: id in toRemove' && id in pids && pids[id] == p
    ensures Reaped(pids, before, later, finishedPid, toRemove')
  {
    forall p | p in before && p !in later && p != finishedPid ensures exists id :: id in toRemove' && id in pids && pids[id] == p {
      if p !in children {
        var id :| id in toRemove && id in pids && pids[id] == p;
        assert id in toRemove';
      }
    }
  }

  /** The state right after the wait, with or without a reported job. */
  lemma SweepStarts(pids: Pids, completed: Codes, pidIndex: nat, fates: Fates, before: Children, children: Children,
                    finishedPid: nat, finished: Status, toRemove: Codes)
    requires Consistent(pids, completed, pidIndex, fates, before)
    requires finishedPid in before && finished == before[finishedPid].fate
    requires Fewer(before, children) && children.Keys == before.Keys - {finishedPid}
    requires toRemove.Keys <= pids.Keys && forall id :: id in toRemove ==> pids[id] == finishedPid && toRemove[id] == WExitStatus(finished)
    ensures Swept(pids, fates, children, finishedPid, finished, pids.Keys, toRemove)
    ensures Reaped(pids, before, children, finishedPid, toRemove)
    ensures Collected(pids, before, pids.Keys, toRemove)
  {
    forall id | id in pids && pids[id] != finishedPid ensures Alive(pids[id], fates[id], children) {
      assert Alive(pids[id], fates[id], before);
    }
    forall id | id in pids && pids[id] == finishedPid ensures fates[id] == finished {
      assert Alive(pids[id], fates[id], before);
    }
  }

  lemma RetiringIsConsistent(pids: Pids, completed: Codes, pidIndex: nat, fates: Fates, before: Children, children: Children,
                             finishedPid: nat, finished: Status, toRemove: Codes)
    requires Consistent(pids, completed, pidIndex, fates, before)
    requires Swept(pids, fates, children, finishedPid, finished, {}, toRemove)
    ensures Consistent(pids - toRemove.Keys, completed + toRemove, pidIndex, fates, children)
  {
    hide Alive, WExitStatus;
    var left, done := pids - toRemove.Keys, completed + toRemove;
    assert left.Keys == pids.Keys - toRemove.Keys && done.Keys == completed.Keys + toRemove.Keys;
    assert forall id :: id in left ==> left[id] == pids[id];
  }

  lemma WaitMakesProgress(pids: Pids, before: Children, children: Children, finishedPid: nat, toRemove: Codes)
    requires Reaped(pids, before, children, finishedPid, toRemove)
    requires forall id :: id in pids && pids[id] == finishedPid ==> id in toRemove
    requires forall id :: id in toRemove && id in pids ==> pids[id] !in children
    ensures |children| < |before|
    ensures OnlyJobs(pids, before) ==> OnlyJobs(pids - toRemove.Keys, children)
    ensures OnlyJobs(pids, before) ==> |pids - toRemove.Keys| < |pids|
  {
    FewerKeys(before, children, finishedPid);
    if OnlyJobs(pids, before) {
      var left := pids - toRemove.Keys;
      assert finishedPid in pids.Values;
      var job :| job in pids && pids[job] == finishedPid;
      FewerKeys(pids, left, job);
      forall p | p in children ensures p in left.Values {
        assert p in pids.Values;
        var id :| id in pids && pids[id] == p;
        assert id in left && left[id] == p;
      }
    }
  }

  /** When every job was looked at, those to remove are exactly those no longer alive. */
  lemma SweepIsComplete(pids: Pids, fates: Fates, children: Children, finishedPid: nat, finished: Status, toRemove: Codes)
    requires Swept(pids, fates, children, finishedPid, finished, {}, toRemove)
    ensures forall id :: id in pids && pids[id] == finishedPid ==> id in toRemove
    ensures forall id :: id in toRemove && id in pids ==> pids[id] !in children
  {
  }

  lemma SweepEnds(pids: Pids, completed: Codes, pidIndex: nat, fates: Fates, before: Children, children: Children,
                  finishedPid: nat, finished: Status, toRemove: Codes)
    requires Consistent(pids, completed, pidIndex, fates, before)
    requires Swept(pids, fates, children, finishedPid, finished, {}, toRemove)
    requires Reaped(pids, before, children, finishedPid, toRemove)
    ensures Consistent(pids - toRemove.Keys, completed + toRemove, pidIndex, fates, children)
    ensures |children| < |before|
    ensures OnlyJobs(pids, before) ==> OnlyJobs(pids - toRemove.Keys, children) && |pids - toRemove.Keys| < |pids|
  {
    hide *;
    RetiringIsConsistent(pids, completed, pidIndex, fates, before, children, finishedPid, finished, toRemove);
    SweepIsComplete(pids, fates, children, finishedPid, finished, toRemove);
    WaitMakesProgress(pids, before, children, finishedPid, toRemove);
  }

  lemma RetiringOnlyMoves(pids: Pids, completed: Codes, before: Children, toRemove: Codes)
    requires pids.Keys !! completed.Keys && toRemove.Keys <= pids.Keys && Collected(pids, before, {}, toRemove)
    ensures forall id :: id in pids && IsEnded(pids[id], before) ==> id in completed + toRemove
    ensures pids - toRemove.Keys == pids - (completed + toRemove).Keys
    ensures forall id :: id in completed ==> id in completed + toRemove && (completed + toRemove)[id] == completed[id]
  {
  }

  lemma JobsAreChildren(pids: Pids, completed: Codes, pidIndex: nat, fates: Fates, children: Children)
    requires Consistent(pids, completed, pidIndex, fates, children)
    ensures pids != map[] ==> children != map[]
    ensures Distinct(pids) && pids.Keys !! completed.Keys
  {
    if pids != map[] {
      var some :| some in pids;
      assert Alive(pids[some], fates[some], children);
    }
  }

  class ParallelExecutionPool {
    const os: Os
    var pids: Pids
    var completed: Codes
    var pidIndex: nat
    const maxConcurrent: nat
    /** How each job started so far ends, whether or not it has. */
    ghost var fates: Fates
    /** What was completed when each job was asked for. */
    ghost var asked: map<nat, Codes>

    ghost predicate Valid()
      reads this, os
    {
      Consistent(pids, completed, pidIndex, fates, os.children)
    }

    constructor (os: Os, maxConcurrent: nat)
      ensures Valid() && this.os == os && this.maxConcurrent == maxConcurrent
      ensures pids == map[] && completed == map[] && pidIndex == 0 && asked == map[]
    {
      this.os := os;
      pids := map[];
      completed := map[];
      pidIndex := 0;
      this.maxConcurrent := maxConcurrent;
      fates := map[];
      asked := map[];
    }

    /** A job's exit status once it has completed. */
    method Status(id: nat) returns (status: Option<int>)
      requires Valid()
      ensures status == if id in completed then Some(WExitStatus(fates[id])) else None
    {
      if id in completed {
        return Some(completed[id]);
      }
      return None;
    }

    /**
     Waits for a child, then looks at every job. A wait needs a job to wait for; it then succeeds,
     reaps at least one child, completes every job that had ended before, and if all children are
     jobs, at least one.
     */
    method WaitForAnyJobToComplete() returns (r: Result<(), int>)
      requires Valid()
      modifies this`pids, this`completed, os`children, os`waits
      ensures Valid()
      ensures old(pids) == map[] ==> r == Err(ENOSYS) && pids == old(pids) && completed == old(completed) && os.children == old(os.children) && os.waits == old(os.waits)
      ensures old(pids) != map[] ==> r == Ok(()) && |os.children| < |old(os.children)| && os.waits == old(os.waits) + 1
      ensures old(pids) != map[] ==> forall id :: id in old(pids) && IsEnded(old(pids)[id], old(os.children)) ==> id in completed
      ensures pids == old(pids) - completed.Keys
      ensures forall id :: id in old(completed) ==> id in completed && completed[id] == old(completed)[id]
      ensures OnlyJobs(old(pids), old(os.children)) ==> OnlyJobs(pids, os.children)
      ensures OnlyJobs(old(pids), old(os.children)) && old(pids) != map[] ==> |pids| < |old(pids)|
    {
      if pids == map[] {
        assert pids == old(pids) - completed.Keys;
        return Err(ENOSYS);
      }
      WaitForAChild();
      r := Ok(());
    }

    method WaitForAChild()
      requires Valid() && pids != map[]
      modifies this`pids, this`completed, os`children, os`waits
      ensures Valid() && |os.children| < |old(os.children)| && os.waits == old(os.waits) + 1
      ensures forall id :: id in old(pids) && IsEnded(old(pids)[id], old(os.children)) ==> id in completed
      ensures pids == old(pids) - completed.Keys
      ensures forall id :: id in old(completed) ==> id in completed && completed[id] == old(completed)[id]
      ensures OnlyJobs(old(pids), old(os.children)) ==> OnlyJobs(pids, os.children) && |pids| < |old(pids)|
    {
      JobsAreChildren(pids, completed, pidIndex, fates, os.children);
      hide Consistent, OnlyJobs, Collected, IsEnded, Distinct;
      ghost var jobs, codes, before := pids, completed, os.children;
      var toRemove := WaitAndSweep();
      RetiringOnlyMoves(jobs, codes, before, toRemove);
      Retire(toRemove);
    }

    /** The jobs a wait finds to have ended, with their statuses. */
    method WaitAndSweep() returns (toRemove: Codes)
      requires Valid() && pids != map[]
      modifies os`children, os`waits
      ensures toRemove.Keys <= pids.Keys && os.waits == old(os.waits) + 1
      ensures Collected(pids, old(os.children), {}, toRemove)
      ensures Consistent(pids - toRemove.Keys, completed + toRemove, pidIndex, fates, os.children)
      ensures |os.children| < |old(os.children)|
      ensures OnlyJobs(pids, old(os.children)) ==> OnlyJobs(pids - toRemove.Keys, os.children) && |pids - toRemove.Keys| < |pids|
    {
      ghost var before := os.children;
      JobsAreChildren(pids, completed, pidIndex, fates, before);
      hide Consistent, Swept, Reaped, Collected, Distinct, OnlyJobs;
      var finishedPid, finished, reported := Wait();
      toRemove := Sweep(finishedPid, finished, reported, before);
      SweepEnds(pids, completed, pidIndex, fates, before, os.children, finishedPid, finished, toRemove);
    }

    /** A child that has ended; some systems also report which job it is, some do not. */
    method Wait() returns (finishedPid: nat, finished: Status, reported: Codes)
      requires Valid() && pids != map[]
      modifies os`children, os`waits
      ensures reported.Keys <= pids.Keys && os.waits == old(os.waits) + 1
      ensures Swept(pids, fates, os.children, finishedPid, finished, pids.Keys, reported)
      ensures Reaped(pids, old(os.children), os.children, finishedPid, reported)
      ensures Collected(pids, old(os.children), pids.Keys, reported)
    {
      ghost var before := os.children;
      JobsAreChildren(pids, completed, pidIndex, fates, before);
      hide Consistent, Swept, Reaped, Collected, Distinct, Fewer, WExitStatus;
      var waited, atReap := os.WaitAny();
      finishedPid, finished := waited.value.0, waited.value.1;
      ReapingLeavesFewer(before, atReap, finishedPid);
      reported := map[];
      var key: nat := *;
      if key in pids && pids[key] == finishedPid {
        reported := reported[key := WExitStatus(finished)];
      }
      SweepStarts(pids, completed, pidIndex, fates, before, os.children, finishedPid, finished, reported);
    }

    /** Polls every job, in any order; one whose poll fails gets the status the wait returned. */
    method Sweep(finishedPid: nat, finished: Status, reported: Codes, ghost before: Children) returns (toRemove: Codes)
      requires Distinct(pids) && reported.Keys <= pids.Keys
      requires Swept(pids, fates, os.children, finishedPid, finished, pids.Keys, reported)
      requires Reaped(pids, before, os.children, finishedPid, reported)
      requires Collected(pids, before, pids.Keys, reported)
      modifies os`children
      ensures toRemove.Keys <= pids.Keys
      ensures Swept(pids, fates, os.children, finishedPid, finished, {}, toRemove)
      ensures Reaped(pids, before, os.children, finishedPid, toRemove)
      ensures Collected(pids, before, {}, toRemove)
    {
      hide Swept, Reaped, Collected, Distinct, Later, Fewer, WExitStatus;
      toRemove := reported;
      var remaining := pids.Keys;
      while remaining != {}
        invariant remaining <= pids.Keys && toRemove.Keys <= pids.Keys
        invariant Swept(pids, fates, os.children, finishedPid, finished, remaining, toRemove)
        invariant Reaped(pids, before, os.children, finishedPid, toRemove)
        invariant Collected(pids, before, remaining, toRemove)
        decreases remaining
      {
        var index: nat :| index in remaining;
        ghost var children, found := os.children, toRemove;
        var status, atPoll := os.Poll(pids[index]);
        if status.Err? {
          SweepReaped(pids, fates, children, os.children, finishedPid, finished, remaining, toRemove, index);
          CollectedEnded(pids, before, remaining, toRemove, index, WExitStatus(finished));
          toRemove := toRemove[index := WExitStatus(finished)];
          LaterIsFewer(children, os.children);
        } else if status.value.Some? {
          ReapingLeavesFewer(children, atPoll, pids[index]);
          SweepEnded(pids, fates, children, os.children, finishedPid, finished, remaining, toRemove, index);
          CollectedEnded(pids, before, remaining, toRemove, index, WExitStatus(status.value.value));
          toRemove := toRemove[index := WExitStatus(status.value.value)];
        } else {
          SweepAlive(pids, fates, children, os.children, finishedPid, finished, remaining, toRemove, index);
          CollectedAlive(pids, before, children, os.children, finishedPid, remaining, toRemove, index);
          LaterIsFewer(children, os.children);
        }
        ReapedStep(pids, before, children, os.children, finishedPid, found, toRemove);
        remaining := remaining - {index};
      }
    }

    method Retire(toRemove: Codes)
      requires toRemove.Keys <= pids.Keys && pids.Keys !! completed.Keys
      modifies this`pids, this`completed
      ensures pids == old(pids) - toRemove.Keys
      ensures completed == old(completed) + toRemove
    {
      var left := toRemove.Keys;
      while left != {}
        invariant left <= toRemove.Keys
        invariant pids == old(pids) - (toRemove.Keys - left)
        invariant completed == old(completed) + (toRemove - left)
        decreases left
      {
        var index: nat :| index in left;
        pids := pids - {index};
        completed := completed[index := toRemove[index]];
        left := left - {index};
      }
    }

    /**
     Starts a job, after one wait if the pool is full and after none if it has room. It fails only if
     no child can be made, or if a pool for no jobs at all has none to wait for. Jobs are numbered in
     order, and none stops running but by a wait.
     */
    method Run(args: seq<string>) returns (r: Result<nat, int>)
      requires Valid()
      modifies this, os
      ensures Valid()
      ensures r.Ok? ==> r.value == old(pidIndex) && pidIndex == old(pidIndex) + 1 && r.value in pids
      ensures r.Ok? ==> fates == old(fates)[r.value := fates[r.value]] && os.started == old(os.started) + [args]
      ensures r.Ok? ==> asked == old(asked)[r.value := old(completed)] && os.failedForks == old(os.failedForks)
      ensures r.Err? ==> pidIndex == old(pidIndex) && fates == old(fates) && os.started == old(os.started) && asked == old(asked)
      ensures maxConcurrent == 0 && old(pids) == map[] <==> r == Err(ENOSYS)
      ensures r.Err? ==> r.error == if os.failedForks == old(os.failedForks) + 1 then EAGAIN else ENOSYS
      ensures os.failedForks == old(os.failedForks) + if r == Err(EAGAIN) then 1 else 0
      ensures |old(pids)| < maxConcurrent ==>
        && completed == old(completed) && os.waits == old(os.waits)
        && (r.Ok? ==> Joined(old(pids), pids, r.value, old(os.children), os.children))
        && (r.Err? ==> pids == old(pids) && os.children == old(os.children))
      ensures |old(pids)| >= maxConcurrent && old(pids) != map[] ==>
        && os.waits == old(os.waits) + 1
        && forall id :: id in old(pids) && IsEnded(old(pids)[id], old(os.children)) ==> id in completed
      ensures forall id :: id in old(pids) && id !in completed ==> id in pids && pids[id] == old(pids)[id]
      ensures forall id :: id in old(completed) ==> id in completed && completed[id] == old(completed)[id]
      ensures OnlyJobs(old(pids), old(os.children)) ==> OnlyJobs(pids, os.children)
      ensures OnlyJobs(old(pids), old(os.children)) && 1 <= maxConcurrent && |old(pids)| <= maxConcurrent ==> |pids| <= maxConcurrent
    {
      hide Consistent, OnlyJobs, Joined, IsEnded;
      ghost var done := completed;
      if |pids| >= maxConcurrent {
        var waited := WaitForAnyJobToComplete();
        if waited.Err? {
          return Err(waited.error);
        }
      }
      r := Start(args, done);
    }

    method Start(args: seq<string>, ghost done: Codes) returns (r: Result<nat, int>)
      requires Valid()
      modifies this`pids, this`pidIndex, this`fates, this`asked, os`children, os`started, os`failedForks
      ensures Valid()
      ensures r.Ok? ==> r.value == old(pidIndex) && pidIndex == old(pidIndex) + 1 && r.value in pids
      ensures r.Ok? ==> fates == old(fates)[r.value := fates[r.value]] && os.started == old(os.started) + [args]
      ensures r.Ok? ==> asked == old(asked)[r.value := done] && os.failedForks == old(os.failedForks)
      ensures r.Ok? ==> Joined(old(pids), pids, r.value, old(os.children), os.children) && r.value !in old(pids)
      ensures r.Err? ==> r.error == EAGAIN && pids == old(pids) && pidIndex == old(pidIndex) && fates == old(fates) && asked == old(asked)
      ensures r.Err? ==> os.started == old(os.started) && os.children == old(os.children) && os.failedForks == old(os.failedForks) + 1
      ensures OnlyJobs(old(pids), old(os.children)) ==> OnlyJobs(pids, os.children)
      ensures |pids| <= |old(pids)| + 1
      ensures forall id :: id in old(pids) ==> id in pids && pids[id] == old(pids)[id]
    {
      hide Consistent, OnlyJobs;
      ghost var before := os.children;
      var pid := os.Fork(args);
      if pid.None? {
        return Err(EAGAIN);
      }
      var id := pidIndex;
      pidIndex := pidIndex + 1;
      StartingIsConsistent(pids, completed, id, fates, before, os.children, pid.value);
      NoMoreThan(pids, id, pid.value);
      pids := pids[id := pid.value];
      fates := fates[id := os.children[pid.value].fate];
      asked := asked[id := done];
      r := Ok(id);
    }

    /** Waits until no job is running; each wait reaps a child, so this ends. */
    method WaitForAllJobsToComplete() returns (r: Result<(), int>)
      requires Valid()
      modifies this`pids, this`completed, os`children, os`waits
      ensures Valid() && r == Ok(()) && pids == map[]
      ensures forall id: nat :: id in completed <==> id < pidIndex
      ensures forall id :: id in old(completed) ==> completed[id] == old(completed)[id]
      ensures OnlyJobs(old(pids), old(os.children)) ==> OnlyJobs(pids, os.children)
    {
      ghost var jobs, codes, children := pids, completed, os.children;
      while pids != map[]
        invariant Valid()
        invariant forall id :: id in codes ==> id in completed && completed[id] == codes[id]
        invariant OnlyJobs(jobs, children) ==> OnlyJobs(pids, os.children)
        decreases |os.children|
      {
        hide Consistent, OnlyJobs;
        r := WaitForAnyJobToComplete();
        if r.Err? {
          return;
        }
      }
      assert pids.Keys == {};
      r := Ok(());
    }

    /** Kills the jobs still running, so that all have ended; what has completed stays recorded. */
    method KillAll()
      requires Valid()
      modifies this`fates, os`children
      ensures Valid()
      ensures forall id :: id in pids ==> IsEnded(pids[id], os.children)
      ensures forall id :: id in pids ==> fates[id] == old(fates)[id] || fates[id] == Signalled(9)
      ensures forall id :: id in completed ==> fates[id] == old(fates)[id]
    {
      var left := pids.Keys;
      while left != {}
        invariant left <= pids.Keys && Valid()
        invariant Killed(pids, old(fates), fates, os.children, left)
        decreases left
      {
        hide Consistent, Killed;
        var id: nat :| id in left;
        ghost var children := os.children;
        os.Kill(pids[id]);
        KillingIsConsistent(pids, completed, pidIndex, fates, children, os.children, id);
        KilledOneMore(pids, old(fates), fates, children, os.children, left, id);
        fates := fates[id := os.children[pids[id]].fate];
        left := left - {id};
      }
    }

    lemma StatusesAreTrue()
      requires Valid()
      ensures forall id :: id in completed ==> id in fates && completed[id] == WExitStatus(fates[id])
    {
      assert completed.Keys <= fates.Keys;
    }

    lemma AllCompleted()
      requires Valid() && pids == map[]
      ensures forall id :: id in fates ==> id in completed
    {
      assert fates.Keys == completed.Keys;
    }

    method AnyFailed() returns (failed: bool)
      ensures failed <==> exists id :: id in completed && completed[id] != 0
    {
      var left := completed.Keys;
      while left != {}
        invariant left <= completed.Keys
        invariant forall id :: id in completed && id !in left ==> completed[id] == 0
        decreases left
      {
        var id: nat :| id in left;
        if completed[id] != 0 {
          return true;
        }
        left := left - {id};
      }
      return false;
    }
  }

  /** Job `id` runs as the only new child, beside the jobs already running. */
  ghost predicate Joined(before: Pids, after: Pids, id: nat, children: Children, later: Children) {
    && id in after && after[id] !in children && after[id] in later
    && after == before[id := after[id]] && later == children[after[id] := later[after[id]]]
  }

  lemma StartingIsConsistent(pids: Pids, completed: Codes, id: nat, fates: Fates, before: Children, children: Children, pid: nat)
    requires Consistent(pids, completed, id, fates, before)
    requires pid !in before && pid in children && children == before[pid := children[pid]]
    ensures Consistent(pids[id := pid], completed, id + 1, fates[id := children[pid].fate], children) && id !in pids
    ensures Joined(pids, pids[id := pid], id, before, children)
    ensures OnlyJobs(pids, before) ==> OnlyJobs(pids[id := pid], children)
  {
    var pids', fates' := pids[id := pid], fates[id := children[pid].fate];
    assert id !in fates && id !in pids && id !in completed;
    forall j | j in pids' ensures Alive(pids'[j], fates'[j], children) {
      if j != id {
        assert Alive(pids[j], fates[j], before);
      }
    }
    if OnlyJobs(pids, before) {
      forall p | p in children ensures p in pids'.Values {
        if p == pid {
          assert pids'[id] == p;
        } else {
          assert p in pids.Values;
          var j :| j in pids && pids[j] == p;
          assert pids'[j] == p;
        }
      }
    }
  }

  /** The jobs outside `left` have ended, and no fate but theirs has changed. */
  ghost predicate Killed(pids: Pids, before: Fates, fates: Fates, children: Children, left: set<nat>) {
    && (forall id :: id in pids && id !in left ==> IsEnded(pids[id], children))
    && fates.Keys == before.Keys
    && forall id :: id in before ==> fates[id] == before[id] || (id in pids && fates[id] == Signalled(9))
  }

  lemma KilledOneMore(pids: Pids, before: Fates, fates: Fates, children: Children, later: Children, left: set<nat>, id: nat)
    requires Killed(pids, before, fates, children, left) && id in pids && id in fates
    requires pids[id] in children && children[pids[id]].fate == fates[id]
    requires later.Keys == children.Keys && forall p :: p in children && children[p].ended ==> later[p].ended
    requires later[pids[id]].ended && (later[pids[id]].fate == children[pids[id]].fate || later[pids[id]].fate == Signalled(9))
    ensures Killed(pids, before, fates[id := later[pids[id]].fate], later, left - {id})
  {
  }

  lemma NoMoreThan(pids: Pids, id: nat, pid: nat)
    ensures |pids[id := pid]| <= |pids| + 1
  {
    SubsetSize(pids[id := pid].Keys, pids.Keys + {id});
    assert |pids[id := pid].Keys| == |pids[id := pid]| && |pids.Keys| == |pids|;
  }

  lemma KillingIsConsistent(pids: Pids, completed: Codes, pidIndex: nat, fates: Fates, before: Children,
          children: Children, id: nat)
    requires Consistent(pids, completed, pidIndex, fates, before) && id in pids
    requires children.Keys == before.Keys && forall p :: p in children && p != pids[id] ==> children[p].fate == before[p].fate
    ensures pids[id] in before && id in fates && before[pids[id]].fate == fates[id]
    ensures Consistent(pids, completed, pidIndex, fates[id := children[pids[id]].fate], children)
  {
    assert Alive(pids[id], fates[id], before);
    var fates' := fates[id := children[pids[id]].fate];
    forall j | j in pids ensures Alive(pids[j], fates'[j], children) {
      assert Alive(pids[j], fates[j], before);
    }
  }
}
