/** Compiling a list of files with one background job each. */
module Building {
  import opened Wrappers
  import opened Processes
  import opened ProcessPool
  import opened Sequences

  /** `CompilationFailed` is errno 1; the other codes come from the callees. */
  datatype BuildError = CompilationFailed | FromPool(code: int) | FromCaller(code: int)

  /** How a source file is compiled: the object's path and the compiler's command line, or an error making them. */
  datatype Plan = Plan(objectOf: string -> Result<string, int>, invocation: (string, string) -> Result<seq<string>, int>)

  predicate Plans(plan: Plan, file: string) {
    plan.objectOf(file).Ok? && plan.invocation(file, plan.objectOf(file).value).Ok?
  }

  /** The error in planning a file: that of its object's path, or else that of its command line. */
  function PlanError(plan: Plan, file: string): Option<int> {
    var path := plan.objectOf(file);
    if path.Err? then Some(path.error)
    else
      var command := plan.invocation(file, path.value);
      if command.Err? then Some(command.error) else None
  }

  function ObjectOf(plan: Plan, file: string): string {
    if plan.objectOf(file).Ok? then plan.objectOf(file).value else ""
  }

  function CommandOf(plan: Plan, file: string): seq<string> {
    if Plans(plan, file) then plan.invocation(file, ObjectOf(plan, file)).value else []
  }

  /** The objects of `files`, in order. */
  function Objects(plan: Plan, files: seq<string>): seq<string> {
    seq(|files|, i requires 0 <= i < |files| => ObjectOf(plan, files[i]))
  }

  function Commands(plan: Plan, files: seq<string>): seq<seq<string>> {
    seq(|files|, i requires 0 <= i < |files| => CommandOf(plan, files[i]))
  }

  lemma NoFiles(plan: Plan)
    ensures Objects(plan, []) == [] && Commands(plan, []) == []
  {
  }

  lemma OneMoreFile(plan: Plan, files: seq<string>, i: nat)
    requires i < |files|
    ensures Objects(plan, files[..i + 1]) == Objects(plan, files[..i]) + [ObjectOf(plan, files[i])]
    ensures Commands(plan, files[..i + 1]) == Commands(plan, files[..i]) + [CommandOf(plan, files[i])]
    ensures forall f :: f in files[..i + 1] <==> f in files[..i] || f == files[i]
  {
    assert files[..i + 1] == files[..i] + [files[i]];
  }

  predicate AllSucceeded(completed: Codes) {
    forall id :: id in completed ==> completed[id] == 0
  }

  class Builder {
    var linkedFiles: seq<string>
    var filesToCompile: seq<string>
    const pool: ParallelExecutionPool

    constructor (files: seq<string>, maxConcurrent: nat, os: Os)
      ensures linkedFiles == [] && filesToCompile == files
      ensures fresh(pool) && pool.Valid() && pool.os == os && pool.maxConcurrent == maxConcurrent && pool.pids == map[]
    {
      linkedFiles := [];
      filesToCompile := files;
      pool := new ParallelExecutionPool(os, maxConcurrent);
    }

    /**
     Starts a job for every file, in order, and waits for all of them. It returns normally exactly when no
     planning, start or compilation failed; otherwise the error is the first one met, and the objects
     listed and jobs started are those of the files before it. Nothing is started once a failure was seen.
     */
    method BuildAll(plan: Plan) returns (r: Result<(), BuildError>)
      requires pool.Valid()
      modifies this, pool, pool.os
      ensures pool.Valid()
      ensures var files, n := old(filesToCompile), pool.pidIndex - old(pool.pidIndex);
        && 0 <= n <= |files| && (forall f :: f in files[..n] ==> Plans(plan, f))
        && pool.os.started == old(pool.os.started) + Commands(plan, files[..n])
        && (forall id :: old(pool.pidIndex) <= id < pool.pidIndex ==> id in pool.asked && AllSucceeded(pool.asked[id]))
        && match r {
             case Ok(_) =>
               n == |files| && linkedFiles == old(linkedFiles) + Objects(plan, files)
               && filesToCompile == [] && pool.pids == map[]
               && forall id :: id in pool.fates ==> WExitStatus(pool.fates[id]) == 0
             case Err(CompilationFailed) =>
               filesToCompile == files && linkedFiles == old(linkedFiles) + Objects(plan, files[..n])
               && (exists id :: id in pool.completed && WExitStatus(pool.fates[id]) != 0)
               && forall id :: id in pool.pids ==> IsEnded(pool.pids[id], pool.os.children)
             case Err(FromCaller(code)) =>
               filesToCompile == files && n < |files| && PlanError(plan, files[n]) == Some(code)
               && linkedFiles == old(linkedFiles) + Objects(plan, files[..if plan.objectOf(files[n]).Ok? then n + 1 else n])
               && AllSucceeded(pool.completed)
             case Err(FromPool(code)) =>
               filesToCompile == files && n < |files| && Plans(plan, files[n])
               && linkedFiles == old(linkedFiles) + Objects(plan, files[..n + 1])
               && (code == EAGAIN || (code == ENOSYS && pool.maxConcurrent == 0))
           }
      ensures pool.os.failedForks == old(pool.os.failedForks) + if r == Err(FromPool(EAGAIN)) then 1 else 0
      ensures (forall f :: f in old(filesToCompile) ==> Plans(plan, f)) && 1 <= pool.maxConcurrent && pool.os.failedForks == old(pool.os.failedForks) ==>
        r == if forall id :: id in pool.fates ==> WExitStatus(pool.fates[id]) == 0 then Ok(()) else Err(CompilationFailed)
    {
      hide Consistent, OnlyJobs, Joined, IsEnded, Objects, Commands;
      assert Objects(plan, []) == [] && Commands(plan, []) == [] by {
        NoFiles(plan);
      }
      var i := 0;
      while i < |filesToCompile|
        invariant pool.Valid() && filesToCompile == old(filesToCompile)
        invariant i <= |filesToCompile| && forall f :: f in filesToCompile[..i] ==> Plans(plan, f)
        invariant linkedFiles == old(linkedFiles) + Objects(plan, filesToCompile[..i])
        invariant pool.os.started == old(pool.os.started) + Commands(plan, filesToCompile[..i])
        invariant pool.pidIndex == old(pool.pidIndex) + i && pool.os.failedForks == old(pool.os.failedForks)
        invariant forall id :: old(pool.pidIndex) <= id < pool.pidIndex ==> id in pool.asked && AllSucceeded(pool.asked[id])
      {
        var file := filesToCompile[i];
        OneMoreFile(plan, filesToCompile, i);
        Associative(old(linkedFiles), Objects(plan, filesToCompile[..i]), [ObjectOf(plan, file)]);
        Associative(old(pool.os.started), Commands(plan, filesToCompile[..i]), [CommandOf(plan, file)]);
        var failed := pool.AnyFailed();
        if failed {
          ghost var id :| id in pool.completed && pool.completed[id] != 0;
          pool.KillAll();
          pool.StatusesAreTrue();
          assert id in pool.completed;
          return Err(CompilationFailed);
        }
        var started := StartJob(plan, file);
        if started.Err? {
          return started;
        }
        i := i + 1;
      }
      assert filesToCompile[..i] == filesToCompile;
      // Waiting for all jobs fails only when a wait does, and that needs a job to be missing.
      var _ := pool.WaitForAllJobsToComplete();
      pool.StatusesAreTrue();
      var failed := pool.AnyFailed();
      if failed {
        return Err(CompilationFailed);
      }
      pool.AllCompleted();
      filesToCompile := [];
      r := Ok(());
    }

    /** Plans the compilation of a file and starts it; its object is listed before its command line is made. */
    method StartJob(plan: Plan, file: string) returns (r: Result<(), BuildError>)
      requires pool.Valid()
      modifies this`linkedFiles, pool, pool.os
      ensures pool.Valid()
      ensures PlanError(plan, file).Some? <==> r.Err? && r.error.FromCaller?
      ensures PlanError(plan, file).Some? ==>
        && r.error.code == PlanError(plan, file).value && pool.completed == old(pool.completed)
        && linkedFiles == old(linkedFiles) + if plan.objectOf(file).Ok? then [ObjectOf(plan, file)] else []
      ensures PlanError(plan, file).None? ==> Plans(plan, file) && linkedFiles == old(linkedFiles) + [ObjectOf(plan, file)]
      ensures r.Err? ==>
        && pool.pidIndex == old(pool.pidIndex) && pool.os.started == old(pool.os.started) && pool.asked == old(pool.asked)
      ensures r.Err? ==> r.error.FromCaller? || r.error == FromPool(EAGAIN) || (r.error == FromPool(ENOSYS) && pool.maxConcurrent == 0)
      ensures r.Ok? ==>
        && pool.pidIndex == old(pool.pidIndex) + 1 && pool.os.started == old(pool.os.started) + [CommandOf(plan, file)]
        && pool.asked == old(pool.asked)[old(pool.pidIndex) := old(pool.completed)]
      ensures pool.os.failedForks == old(pool.os.failedForks) + if r == Err(FromPool(EAGAIN)) then 1 else 0
    {
      hide Consistent, OnlyJobs, Joined, IsEnded;
      var builtObject := plan.objectOf(file);
      if builtObject.Err? {
        return Err(FromCaller(builtObject.error));
      }
      linkedFiles := linkedFiles + [builtObject.value];
      var args := plan.invocation(file, builtObject.value);
      if args.Err? {
        return Err(FromCaller(args.error));
      }
      var id := pool.Run(args.value);
      if id.Err? {
        return Err(FromPool(id.error));
      }
      r := Ok(());
    }
  }

  /**
   A normal return means that every compiler exited with code 0 only if none was ended by a signal:
   the recorded status of a compiler that crashed is 0 as well.
   */
  lemma NormalReturnMeans(fates: Fates)
    requires forall id :: id in fates ==> WExitStatus(fates[id]) == 0
    requires forall id :: id in fates && fates[id].Exited? ==> fates[id].code < 256
    ensures (forall id :: id in fates ==> fates[id] == Exited(0)) <==> (forall id :: id in fates ==> !fates[id].Signalled?)
    ensures WExitStatus(Signalled(11)) == WExitStatus(Exited(0))
  {
    if forall id :: id in fates ==> !fates[id].Signalled? {
      forall id | id in fates ensures fates[id] == Exited(0) {
        assert fates[id].Exited?;
      }
    }
  }
}
