/**
 Command queues and fences as objects
 (umd/level_zero_driver/source/cmdqueue.cpp, fence.cpp).  Each method is proved to be a
 step of QueueProtocol on the state its objects represent.  The device is a script of
 completions, so that what it does during a call is arbitrary but fixed in advance.
 */
module CommandQueues {
  import opened Jobs
  import opened QueueProtocol

  /** Completes the pending submissions named in done. */
  function Complete(log: Log, done: map<nat, nat>): (r: Log)
    ensures Progress(log, r)
  {
    seq(|log|, i requires 0 <= i < |log| =>
      if log[i].state.Pending? && i in done then log[i].(state := Done(done[i])) else log[i])
  }

  class Device {
    var log: Log
    var script: seq<map<nat, nat>>

    constructor (script: seq<map<nat, nat>>)
      ensures log == []
    {
      log, this.script := [], script;
    }

    method Run()
      modifies this
      ensures Progress(old(log), log)
    {
      if script != [] {
        log, script := Complete(log, script[0]), script[1..];
      }
    }

    method Submit(job: JobId)
      modifies this
      ensures Submitted(old(log), [job], log)
    {
      ghost var before := log;
      log := log + [Submission(job, Pending)];
      assert log[..|before|] == before;
      Run();
    }

    /** True when the job has completed by the deadline. */
    method WaitForCompletion(job: JobId) returns (done: bool)
      modifies this
      ensures Progress(old(log), log) && (done <==> !IsPending(log, job))
    {
      Run();
      done := !IsPending(log, job);
    }
  }

  /** CommandQueue::waitForJobs: wait for each job in turn, then report on all of them. */
  method WaitForAll(device: Device, jobs: seq<JobId>) returns (r: ZeResult)
    modifies device
    ensures Progress(old(device.log), device.log) && WaitResult(device.log, jobs, r)
  {
    for i := 0 to |jobs|
      invariant Progress(old(device.log), device.log)
      invariant !HasPending(device.log, jobs[..i])
    {
      ghost var before := device.log;
      var done := device.WaitForCompletion(jobs[i]);
      ProgressTrans(old(device.log), before, device.log);
      if !done {
        return NotReady;
      }
      NotPendingStable(before, device.log, jobs[..i]);
      assert jobs[..i + 1] == jobs[..i] + [jobs[i]];
    }
    assert jobs[..|jobs|] == jobs;
    r := JobStatusToResult(device.log, jobs);
  }

  /** The loop of Device::jobStatusToResult over the jobs. */
  method JobStatusToResult(log: Log, jobs: seq<JobId>) returns (r: ZeResult)
    requires !HasPending(log, jobs)
    ensures r == StatusToResult(Statuses(log, jobs)) && r != NotReady
  {
    hide StatusOf, StatusToResult, LatestIndex;
    ghost var ss := Statuses(log, jobs);
    FirstFailureDecides(ss);
    for i := 0 to |jobs|
      invariant forall k :: 0 <= k < i ==> ss[k] == STATUS_SUCCESS
    {
      assert !IsPending(log, jobs[i]);
      var status := StatusOf(log, jobs[i]);
      if status == STATUS_SUCCESS {
      } else if status == STATUS_ABORTED {
        return DeviceLost;
      } else {
        return Unknown;
      }
    }
    r := Success;
  }

  lemma NotPendingStable(a: Log, b: Log, jobs: seq<JobId>)
    requires Progress(a, b) && !HasPending(a, jobs)
    ensures !HasPending(b, jobs)
  {
    forall i | 0 <= i < |jobs|
      ensures !IsPending(b, jobs[i])
    {
      assert !IsPending(a, jobs[i]);
      LatestProgress(a, b, jobs[i]);
    }
  }

  /** A successful wait stays successful while the device runs on. */
  lemma WaitSuccessStable(a: Log, b: Log, jobs: seq<JobId>)
    requires Progress(a, b) && WaitResult(a, jobs, Success)
    ensures WaitResult(b, jobs, Success)
  {
    NotPendingStable(a, b, jobs);
    forall i | 0 <= i < |jobs|
      ensures StatusOf(b, jobs[i]) == StatusOf(a, jobs[i])
    {
      assert !IsPending(a, jobs[i]) && !IsPending(b, jobs[i]);
      LatestProgress(a, b, jobs[i]);
    }
    assert Statuses(a, jobs) == Statuses(b, jobs);
  }

  class Fence {
    var signaled: bool
    var trackedJobs: seq<JobId>
    ghost var latest: seq<nat>

    ghost function State(): (f: FenceState)
      reads this
    {
      FenceState(signaled, trackedJobs, latest)
    }

    constructor (signaled: bool)
      ensures State() == FenceState(signaled, [], [])
    {
      this.signaled, trackedJobs, latest := signaled, [], [];
    }

    method SetTrackedJobs(jobs: seq<JobId>, ghost positions: seq<nat>)
      modifies this
      ensures State() == SetTracked(old(State()), jobs, positions)
    {
      if jobs == [] {
        signaled := true;
      }
      trackedJobs := jobs;
      latest := positions;
    }

    method Reset() returns (r: ZeResult)
      modifies this
      ensures r == Success && State() == old(State()).(signaled := false, latest := [])
    {
      signaled, latest := false, [];
      r := Success;
    }

    method WaitForJobs(device: Device) returns (r: ZeResult)
      modifies this, device
      ensures Progress(old(device.log), device.log)
      ensures old(trackedJobs) == [] ==> r == Success && State() == old(State())
      ensures old(trackedJobs) != [] ==>
                && WaitResult(device.log, old(trackedJobs), r)
                && State() == if r == Success then Drained(old(State())) else old(State())
    {
      if trackedJobs == [] {
        return Success;
      }
      r := WaitForAll(device, trackedJobs);
      if r != Success {
        return;
      }
      trackedJobs := [];
      signaled := true;
    }
  }

  datatype FenceDesc = FenceDesc(validType: bool, signaled: bool)

  class CommandQueue {
    const device: Device
    const synchronous: bool
    var trackedJobs: seq<JobId>
    var fences: map<FenceId, Fence>

    /** Handles name different fence objects. */
    ghost predicate Valid()
      reads this
    {
      forall a, b :: a in fences && b in fences && a != b ==> fences[a] != fences[b]
    }

    ghost function World(): (w: World)
      reads this, device, fences.Values
    {
      QueueProtocol.World(device.log, trackedJobs, map f | f in fences :: fences[f].State())
    }

    constructor (device: Device, synchronous: bool)
      requires device.log == []
      ensures Valid() && World() == INITIAL_WORLD && this.device == device && this.synchronous == synchronous
    {
      this.device, this.synchronous := device, synchronous;
      trackedJobs, fences := [], map[];
    }

    method CreateFence(desc: Option<FenceDesc>, handle: Option<FenceId>) returns (r: ZeResult)
      requires Valid() && (handle.Some? ==> handle.value !in fences)
      modifies this`fences
      ensures Valid()
      ensures if desc.Some? && handle.Some? && desc.value.validType
              then r == Success && Next(old(World()), Event.CreateFence(handle.value, desc.value.signaled), World())
              else fences == old(fences)
                   && r == if desc.None? || handle.None? then InvalidNullPointer else InvalidArgument
    {
      if desc.None? { return InvalidNullPointer; }
      if handle.None? { return InvalidNullPointer; }
      if !desc.value.validType { return InvalidArgument; }
      var fence := new Fence(desc.value.signaled);
      fences := fences[handle.value := fence];
      return Success;
    }

    method DestroyFence(id: FenceId)
      requires Valid()
      modifies this`fences
      ensures Valid() && Next(old(World()), Event.DestroyFence(id), World())
    {
      fences := fences - {id};
    }

    method SynchronizeFence(id: FenceId) returns (r: ZeResult)
      requires Valid() && id in fences
      modifies device, fences[id]
      ensures FenceSyncStep(old(World()), id, r, World())
    {
      var fence := fences[id];
      if fence.signaled { return Success; }
      if fence.trackedJobs == [] { return NotReady; }
      r := fence.WaitForJobs(device);
      assert forall f :: f in fences && f != id ==> fences[f].State() == old(fences[f].State());
    }

    method ResetFence(id: FenceId) returns (r: ZeResult)
      requires Valid() && id in fences
      modifies fences[id]
      ensures r == Success && Next(old(World()), Event.FenceReset(id), World())
    {
      ghost var w := World();
      r := fences[id].Reset();
      assert forall f :: f in fences && f != id ==> World().fences[f] == w.fences[f];
      assert World().fences == w.fences[id := w.fences[id].(signaled := false, latest := [])];
    }

    /** The validation loop of executeCommandLists. */
    method ValidateLists(lists: seq<ListArg>) returns (r: ZeResult)
      ensures r == ValidateFrom(lists, 0)
    {
      for i := 0 to |lists|
        invariant ValidateFrom(lists, 0) == ValidateFrom(lists, i)
      {
        if lists[i].NullList? { return InvalidNullPointer; }
        if !lists[i].closed { return Uninitialized; }
      }
      r := Success;
    }

    /** The submission loop of executeCommandLists. */
    method SubmitLists(lists: seq<ListArg>, outcomes: seq<Outcome>) returns (jobs: seq<JobId>, r: ZeResult)
      requires |lists| == |outcomes|
      modifies device
      ensures SubmitRun(jobs, r) == SubmitFrom(lists, outcomes, 0)
      ensures Submitted(old(device.log), jobs, device.log)
    {
      hide Submitted, SubmitFrom;
      jobs := [];
      ProgressRefl(device.log);
      SubmitsNoMore(lists, outcomes);
      for i := 0 to |lists|
        invariant SubmitFrom(lists, outcomes, 0)
               == SubmitRun(jobs + SubmitFrom(lists, outcomes, i).jobs, SubmitFrom(lists, outcomes, i).result)
        invariant Submitted(old(device.log), jobs, device.log)
      {
        SubmitsNext(lists, outcomes, i);
        if lists[i].NullList? { return jobs, InvalidNullPointer; }
        if lists[i].numCommands == 0 { continue; }
        match outcomes[i] {
          case UpdateFailed => return jobs, Unknown;
          case SubmitFailed(lost) => return jobs, if lost then DeviceLost else Unknown;
          case Accepted =>
        }
        ghost var before := device.log;
        device.Submit(lists[i].job);
        SubmittedAppend(old(device.log), jobs, before, lists[i].job, device.log);
        jobs := jobs + [lists[i].job];
      }
      r := Success;
    }

    /** The jobs of a call are handed to one of the queue's fences. */
    method TrackOnFence(id: FenceId, jobs: seq<JobId>, ghost positions: seq<nat>)
      requires Valid() && id in fences
      modifies fences[id]
      ensures var w := old(World());
              World() == w.(fences := w.fences[id := SetTracked(w.fences[id], jobs, positions)])
    {
      ghost var w := World();
      fences[id].SetTrackedJobs(jobs, positions);
      assert forall f :: f in fences && f != id ==> World().fences[f] == w.fences[f];
    }

    /** executeCommandLists on an asynchronous queue, or up to the final wait on a synchronous one. */
    method ExecuteAsync(a: ExecArgs) returns (r: ZeResult)
      requires Valid() && a.Valid()
      modifies this`trackedJobs, device
      modifies if a.fence.Some? && a.fence.value in fences then {fences[a.fence.value]} else {}
      ensures Valid() && ExecStep(old(World()), a, r, World())
    {
      hide Submitted, SubmitFrom, ValidateFrom, Positions, SubmitsOf, ExecStep;
      ghost var w := World();
      ProgressRefl(w.log);
      if a.lists.None? || a.lists.value == [] {
        r := if a.lists.None? then InvalidNullPointer else InvalidSize;
        Rejected(w, a, r);
        return;
      }
      r := ValidateLists(a.lists.value);
      if r != Success {
        Rejected(w, a, r);
        return;
      }
      var jobs;
      jobs, r := SubmitLists(a.lists.value, a.outcomes);
      ghost var log := device.log;
      SubmitsAll(a, jobs, r);
      assert World() == w.(log := log);
      if r != Success {
        Submits(w, a, jobs, r, log);
        return;
      }
      Submits(w, a, jobs, Success, log);
      if a.fence.Some? {
        if a.fence.value !in fences { return InvalidSynchronizationObject; }
        TrackOnFence(a.fence.value, jobs, Positions(|w.log|, |jobs|));
      } else {
        trackedJobs := trackedJobs + jobs;
        assert World() == w.(log := log, tracked := w.tracked + jobs);
      }
    }

    method ExecuteCommandLists(a: ExecArgs) returns (r: ZeResult)
      requires Valid() && a.Valid()
      modifies this`trackedJobs, device, fences.Values
      ensures Valid()
      ensures !synchronous ==> ExecStep(old(World()), a, r, World())
      ensures synchronous ==>
                || (ExecStep(old(World()), a, r, World()) && r != Success)
                || exists w :: ExecStep(old(World()), a, Success, w) && SyncStep(w, r, World())
    {
      r := ExecuteAsync(a);
      if r == Success && synchronous {
        r := Synchronize();
      }
    }

    method WaitForFence(f: FenceId) returns (r: ZeResult)
      requires Valid() && f in fences
      modifies device, fences[f]
      ensures FenceWait(old(World()), f, r, World())
    {
      ghost var w := World();
      r := fences[f].WaitForJobs(device);
      assert forall g :: g in fences && g != f ==> World().fences[g] == w.fences[g];
    }

    /** The loop over the fences in synchronize; the order of the map is not specified. */
    method WaitForFences() returns (r: ZeResult)
      requires Valid()
      modifies device, fences.Values
      ensures FencesStep(old(World()), r, World())
    {
      hide FencesStep, FenceWait, PartWaited;
      ghost var w := World();
      ghost var cur := w;
      WaitsBegin(w);
      var todo := fences.Keys;
      assert todo == w.fences.Keys;
      while todo != {}
        invariant todo <= fences.Keys && cur == World() && PartWaited(w, cur, todo)
      {
        var f :| f in todo;
        r := WaitForFence(f);
        WaitsStep(w, cur, todo, f, r, World());
        if r != Success {
          return;
        }
        todo := todo - {f};
        cur := World();
      }
      r := Success;
      WaitsEnd(w, cur);
    }

    method Synchronize() returns (r: ZeResult)
      requires Valid()
      modifies this`trackedJobs, device, fences.Values
      ensures Valid() && SyncStep(old(World()), r, World())
    {
      hide FencesStep, SyncStep, WaitResult, Progress;
      ghost var w := World();
      if trackedJobs == [] && fences == map[] {
        NothingToWaitFor(w);
        return Success;
      }
      r := WaitForFences();
      ghost var mid := World();
      if r != Success {
        FencesBlock(w, r, mid);
        return;
      }
      r := WaitForAll(device, trackedJobs);
      ghost var last := World();
      assert last.fences == mid.fences;
      QueueWaits(w, mid, r, last);
      if r != Success {
        return;
      }
      trackedJobs := [];
      assert World() == last.(tracked := []);
    }
  }

  /** Fence::waitForJobs on one of the queue's fences. */
  ghost predicate FenceWait(w: World, f: FenceId, r: ZeResult, w': World)
    requires f in w.fences
  {
    && Progress(w.log, w'.log) && w'.tracked == w.tracked && w'.fences.Keys == w.fences.Keys
    && (forall g :: g in w.fences && g != f ==> w'.fences[g] == w.fences[g])
    && if w.fences[f].tracked == [] then r == Success && w'.fences[f] == w.fences[f]
       else WaitResult(w'.log, w.fences[f].tracked, r)
            && w'.fences[f] == if r == Success then Drained(w.fences[f]) else w.fences[f]
  }

  /** The loop has waited for the fences outside todo. */
  ghost predicate PartWaited(w: World, cur: World, todo: set<FenceId>)
  {
    && Progress(w.log, cur.log) && cur.tracked == w.tracked && cur.fences.Keys == w.fences.Keys
    && todo <= w.fences.Keys
    && (forall f :: f in w.fences ==> MaybeDrained(w.fences[f], cur.log, cur.fences[f]))
    && (forall f :: f in w.fences && f !in todo ==> cur.fences[f].tracked == [])
    && (forall f :: f in w.fences && f in todo ==> cur.fences[f] == w.fences[f])
  }

  lemma WaitsBegin(w: World)
    ensures PartWaited(w, w, w.fences.Keys)
  {
  }

  lemma WaitsStep(w: World, cur: World, todo: set<FenceId>, f: FenceId, r: ZeResult, w': World)
    requires PartWaited(w, cur, todo) && f in todo && FenceWait(cur, f, r, w')
    ensures if r == Success then PartWaited(w, w', todo - {f}) else FencesStep(w, r, w')
  {
    hide WaitResult, Progress;
    ProgressTrans(w.log, cur.log, w'.log);
    forall g | g in w.fences
      ensures MaybeDrained(w.fences[g], w'.log, w'.fences[g])
    {
      DrainedStable(w.fences[g], cur.log, w'.log, cur.fences[g]);
    }
  }

  lemma WaitsEnd(w: World, w': World)
    requires PartWaited(w, w', {})
    ensures FencesStep(w, Success, w')
  {
  }

  /** What the loop over the fences does. */
  ghost predicate FencesStep(w: World, r: ZeResult, w': World)
  {
    && Progress(w.log, w'.log)
    && w'.tracked == w.tracked
    && w'.fences.Keys == w.fences.Keys
    && (forall f :: f in w.fences ==> MaybeDrained(w.fences[f], w'.log, w'.fences[f]))
    && if r == Success then forall f :: f in w.fences ==> w'.fences[f].tracked == []
       else exists f :: f in w'.fences && WaitResult(w'.log, w'.fences[f].tracked, r)
  }

  lemma NothingToWaitFor(w: World)
    requires w.tracked == [] && w.fences == map[]
    ensures SyncStep(w, Success, w)
  {
    FirstFailureDecides(Statuses(w.log, []));
  }

  lemma FencesBlock(w: World, r: ZeResult, w': World)
    requires FencesStep(w, r, w') && r != Success
    ensures SyncStep(w, r, w')
  {
    hide WaitResult, MaybeDrained, Progress;
    var f :| f in w'.fences && WaitResult(w'.log, w'.fences[f].tracked, r);
    assert Blames(w', w'.fences[f].tracked);
  }

  lemma QueueWaits(w: World, mid: World, r: ZeResult, w': World)
    requires FencesStep(w, Success, mid)
    requires Progress(mid.log, w'.log) && w'.tracked == mid.tracked && w'.fences == mid.fences
    requires WaitResult(w'.log, w.tracked, r)
    ensures SyncStep(w, r, if r == Success then w'.(tracked := []) else w')
  {
    hide WaitResult, Progress;
    ProgressTrans(w.log, mid.log, w'.log);
    forall f | f in w.fences
      ensures MaybeDrained(w.fences[f], w'.log, w'.fences[f])
    {
      DrainedStable(w.fences[f], mid.log, w'.log, mid.fences[f]);
    }
    assert Blames(w', w.tracked);
  }

  lemma ProgressRefl(log: Log)
    ensures Progress(log, log) && Submitted(log, [], log)
  {
    assert log[..|log|] == log;
  }

  lemma SubmitsNoMore(lists: seq<ListArg>, outcomes: seq<Outcome>)
    requires |lists| == |outcomes|
    ensures SubmitFrom(lists, outcomes, |lists|) == SubmitRun([], Success)
  {
  }

  /** One round of the submission loop. */
  lemma SubmitsNext(lists: seq<ListArg>, outcomes: seq<Outcome>, i: nat)
    requires i < |lists| == |outcomes|
    ensures var run, rest := SubmitFrom(lists, outcomes, i), SubmitFrom(lists, outcomes, i + 1);
            if lists[i].NullList? then run == SubmitRun([], InvalidNullPointer)
            else if lists[i].numCommands == 0 then run == rest
            else match outcomes[i]
              case UpdateFailed => run == SubmitRun([], Unknown)
              case SubmitFailed(lost) => run == SubmitRun([], if lost then DeviceLost else Unknown)
              case Accepted => run == SubmitRun([lists[i].job] + rest.jobs, rest.result)
  {
  }

  lemma SubmittedAppend(a: Log, js: seq<JobId>, b: Log, j: JobId, c: Log)
    requires Submitted(a, js, b) && Submitted(b, [j], c)
    ensures Submitted(a, js + [j], c)
  {
    forall k | 0 <= k < |a|
      ensures a[k].job == c[..|a|][k].job && (a[k].state.Done? ==> a[k] == c[..|a|][k])
    {
      assert b[..|a|][k] == b[k] && c[..|b|][k] == c[k];
    }
    forall i | 0 <= i < |js + [j]|
      ensures c[|a| + i].job == (js + [j])[i]
    {
      if i < |js| { assert c[..|b|][|a| + i].job == b[|a| + i].job; }
    }
  }

  lemma DrainedStable(f: FenceState, a: Log, b: Log, f': FenceState)
    requires Progress(a, b) && MaybeDrained(f, a, f')
    ensures MaybeDrained(f, b, f')
  {
    if f' != f { WaitSuccessStable(a, b, f.tracked); }
  }

  lemma Rejected(w: World, a: ExecArgs, r: ZeResult)
    requires a.Valid() && Validate(a.lists) == r != Success
    ensures ExecStep(w, a, r, w)
  {
    ProgressRefl(w.log);
  }

  lemma SubmitsAll(a: ExecArgs, jobs: seq<JobId>, r: ZeResult)
    requires a.Valid() && Validate(a.lists) == Success
    requires SubmitRun(jobs, r) == SubmitFrom(a.lists.value, a.outcomes, 0)
    ensures SubmitsOf(a) == SubmitRun(jobs, r)
  {
  }

  /** The possible ends of a call whose submissions are known. */
  lemma Submits(w: World, a: ExecArgs, jobs: seq<JobId>, r: ZeResult, log: Log)
    requires a.Valid() && SubmitsOf(a) == SubmitRun(jobs, r) && Submitted(w.log, jobs, log)
    ensures r != Success ==> ExecStep(w, a, r, w.(log := log))
    ensures r == Success && !KnownFence(w, a.fence) ==> ExecStep(w, a, InvalidSynchronizationObject, w.(log := log))
    ensures r == Success && a.fence.None? ==> ExecStep(w, a, Success, w.(log := log, tracked := w.tracked + jobs))
    ensures r == Success && a.fence.Some? && a.fence.value in w.fences ==>
              ExecStep(w, a, Success,
                       w.(log := log, fences := w.fences[a.fence.value :=
                            SetTracked(w.fences[a.fence.value], jobs, Positions(|w.log|, |jobs|))]))
  {
    hide SubmitsOf, Submitted, Positions;
  }
}
