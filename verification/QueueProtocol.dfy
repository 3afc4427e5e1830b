/**
 The protocol between command queue, fences and jobs as a state machine
 (umd/level_zero_driver/source/cmdqueue.cpp, fence.cpp).  Host calls on one queue
 are serialised; the device makes progress before, during and after every call.
 The classes of CommandQueues implement these steps.
 */
module QueueProtocol {
  import opened Jobs

  type FenceId = nat

  /** latest: log positions of the last submission given to the fence since its last reset. */
  datatype FenceState = FenceState(signaled: bool, tracked: seq<JobId>, latest: seq<nat>)

  datatype World = World(log: Log, tracked: seq<JobId>, fences: map<FenceId, FenceState>)

  const INITIAL_WORLD := World([], [], map[])

  // --------------------------------------------------------------- arguments of execute

  datatype ListArg = NullList | CmdList(job: JobId, closed: bool, numCommands: nat)

  /** What updateOnSubmit and the device queue answer for one list. */
  datatype Outcome = Accepted | UpdateFailed | SubmitFailed(lost: bool)

  datatype ExecArgs = ExecArgs(lists: Option<seq<ListArg>>, outcomes: seq<Outcome>, fence: Option<FenceId>)
  {
    ghost predicate Valid() { lists.Some? ==> |outcomes| == |lists.value| }
  }

  /** The checks made before anything is submitted, on the lists from position i. */
  function ValidateFrom(lists: seq<ListArg>, i: nat): (r: ZeResult)
    requires i <= |lists|
    decreases |lists| - i
  {
    if i == |lists| then Success
    else if lists[i].NullList? then InvalidNullPointer
    else if !lists[i].closed then Uninitialized
    else ValidateFrom(lists, i + 1)
  }

  function Validate(lists: Option<seq<ListArg>>): (r: ZeResult)
  {
    if lists.None? then InvalidNullPointer
    else if lists.value == [] then InvalidSize
    else ValidateFrom(lists.value, 0)
  }

  datatype SubmitRun = SubmitRun(jobs: seq<JobId>, result: ZeResult)

  /** The submission loop from position i: jobs handed to the device, and how it ended. */
  function SubmitFrom(lists: seq<ListArg>, outcomes: seq<Outcome>, i: nat): (run: SubmitRun)
    requires i <= |lists| == |outcomes|
    decreases |lists| - i
  {
    if i == |lists| then SubmitRun([], Success)
    else if lists[i].NullList? then SubmitRun([], InvalidNullPointer)
    else if lists[i].numCommands == 0 then SubmitFrom(lists, outcomes, i + 1)
    else match outcomes[i]
      case UpdateFailed => SubmitRun([], Unknown)
      case SubmitFailed(lost) => SubmitRun([], if lost then DeviceLost else Unknown)
      case Accepted =>
        var rest := SubmitFrom(lists, outcomes, i + 1);
        SubmitRun([lists[i].job] + rest.jobs, rest.result)
  }

  /** Everything the call hands to the device. */
  function SubmitsOf(a: ExecArgs): (run: SubmitRun)
    requires a.Valid()
  {
    var v := Validate(a.lists);
    if v != Success then SubmitRun([], v) else SubmitFrom(a.lists.value, a.outcomes, 0)
  }

  // -------------------------------------------------------------------------- the steps

  function SetTracked(f: FenceState, jobs: seq<JobId>, positions: seq<nat>): (r: FenceState)
  {
    FenceState(jobs == [] || f.signaled, jobs, positions)
  }

  function Positions(from: nat, count: nat): (r: seq<nat>)
    ensures |r| == count && forall k: nat :: k in r <==> from <= k < from + count
  {
    if count == 0 then [] else Positions(from, count - 1) + [from + count - 1]
  }

  predicate KnownFence(w: World, fence: Option<FenceId>)
  {
    fence.Some? ==> fence.value in w.fences
  }

  ghost predicate ExecStep(w: World, a: ExecArgs, r: ZeResult, w': World)
    requires a.Valid()
  {
    var run := SubmitsOf(a);
    && Submitted(w.log, run.jobs, w'.log)
    && if run.result != Success || !KnownFence(w, a.fence) then
         && r == (if run.result != Success then run.result else InvalidSynchronizationObject)
         && w'.tracked == w.tracked && w'.fences == w.fences
       else
         && r == Success
         && if a.fence.Some? then
              && w'.tracked == w.tracked
              && w'.fences == w.fences[a.fence.value :=
                   SetTracked(w.fences[a.fence.value], run.jobs, Positions(|w.log|, |run.jobs|))]
            else
              w'.tracked == w.tracked + run.jobs && w'.fences == w.fences
  }

  ghost predicate HasPending(log: Log, jobs: seq<JobId>)
  {
    exists i :: 0 <= i < |jobs| && IsPending(log, jobs[i])
  }

  ghost function Statuses(log: Log, jobs: seq<JobId>): (ss: seq<nat>)
    requires !HasPending(log, jobs)
    ensures |ss| == |jobs| && forall i :: 0 <= i < |jobs| ==> ss[i] == StatusOf(log, jobs[i])
  {
    seq(|jobs|, i requires 0 <= i < |jobs| => StatusOf(log, jobs[i]))
  }

  /** What waiting for the jobs until a deadline returns, in terms of the log afterwards. */
  ghost predicate WaitResult(log: Log, jobs: seq<JobId>, r: ZeResult)
  {
    if r == NotReady then HasPending(log, jobs)
    else !HasPending(log, jobs) && r == StatusToResult(Statuses(log, jobs))
  }

  function Drained(f: FenceState): (r: FenceState)
  {
    FenceState(true, [], f.latest)
  }

  /** One fence before and after a wait for its jobs. */
  ghost predicate MaybeDrained(f: FenceState, log': Log, f': FenceState)
  {
    f' == f || (f.tracked != [] && f' == Drained(f) && WaitResult(log', f.tracked, Success))
  }

  /** Jobs whose wait made synchronize give up. */
  ghost predicate Blames(w: World, jobs: seq<JobId>)
  {
    jobs == w.tracked || exists f :: f in w.fences && jobs == w.fences[f].tracked
  }

  ghost predicate SyncStep(w: World, r: ZeResult, w': World)
  {
    && Progress(w.log, w'.log)
    && w'.fences.Keys == w.fences.Keys
    && (forall f :: f in w.fences ==> MaybeDrained(w.fences[f], w'.log, w'.fences[f]))
    && if r == Success then
         && w'.tracked == [] && WaitResult(w'.log, w.tracked, Success)
         && forall f :: f in w.fences ==> w'.fences[f].tracked == []
       else
         && w'.tracked == w.tracked
         && exists jobs :: Blames(w', jobs) && WaitResult(w'.log, jobs, r)
  }

  ghost predicate FenceSyncStep(w: World, f: FenceId, r: ZeResult, w': World)
    requires f in w.fences
  {
    && Progress(w.log, w'.log)
    && w'.tracked == w.tracked
    && if w.fences[f].signaled then r == Success && w'.fences == w.fences
       else if w.fences[f].tracked == [] then r == NotReady && w'.fences == w.fences
       else
         && WaitResult(w'.log, w.fences[f].tracked, r)
         && w'.fences == (if r == Success then w.fences[f := Drained(w.fences[f])] else w.fences)
  }

  datatype Event =
    | CreateFence(id: FenceId, signaled: bool)
    | DestroyFence(id: FenceId)
    | Execute(args: ExecArgs, result: ZeResult)
    | Synchronize(result: ZeResult)
    | FenceSynchronize(id: FenceId, result: ZeResult)
    | FenceReset(id: FenceId)
    | DeviceRuns

  ghost predicate Next(w: World, e: Event, w': World)
  {
    match e
    case CreateFence(id, signaled) =>
      id !in w.fences && w' == w.(fences := w.fences[id := FenceState(signaled, [], [])])
    case DestroyFence(id) =>
      w' == w.(fences := w.fences - {id})
    case Execute(a, r) =>
      a.Valid() && ExecStep(w, a, r, w')
    case Synchronize(r) =>
      SyncStep(w, r, w')
    case FenceSynchronize(id, r) =>
      id in w.fences && FenceSyncStep(w, id, r, w')
    case FenceReset(id) =>
      id in w.fences && w' == w.(fences := w.fences[id := w.fences[id].(signaled := false, latest := [])])
    case DeviceRuns =>
      Progress(w.log, w'.log) && w' == w.(log := w'.log)
  }

  // ----------------------------------------------------------------- tracking invariant

  ghost predicate Held(w: World, j: JobId)
  {
    j in w.tracked || exists f :: f in w.fences && j in w.fences[f].tracked
  }

  ghost predicate CoveredAt(w: World, k: nat)
    requires k < |w.log|
  {
    w.log[k].state == COMPLETED || (IsLatest(w.log, k) && Held(w, w.log[k].job))
  }

  /** Every submission has completed with success or is one the queue will still look at. */
  ghost predicate Covered(w: World)
  {
    forall k :: 0 <= k < |w.log| ==> CoveredAt(w, k)
  }

  /** Is j held once the call is over?  Depends on the state before the call only. */
  ghost predicate HeldAfter(w: World, a: ExecArgs, j: JobId)
    requires a.Valid()
  {
    var run := SubmitsOf(a);
    if run.result != Success || !KnownFence(w, a.fence) then Held(w, j)
    else if a.fence.None? then Held(w, j) || j in run.jobs
    else
      || j in run.jobs
      || j in w.tracked
      || exists f :: f in w.fences && f != a.fence.value && j in w.fences[f].tracked
  }

  ghost predicate Distinct(js: seq<JobId>)
  {
    forall i, k :: 0 <= i < k < |js| ==> js[i] != js[k]
  }

  /**
   The caller's side of execute: no job twice in the call, every job's previous
   submission has succeeded, and no job that may not have succeeded is let go of.
   */
  ghost predicate ExecGuard(w: World, a: ExecArgs)
    requires a.Valid()
  {
    var js := SubmitsOf(a).jobs;
    && Distinct(js)
    && (forall j :: j in js ==> Succeeded(w.log, j) && HeldAfter(w, a, j))
    && (forall j :: Held(w, j) && !HeldAfter(w, a, j) ==> Succeeded(w.log, j))
  }

  ghost predicate HeldWithout(w: World, id: FenceId, j: JobId)
  {
    j in w.tracked || exists f :: f in w.fences && f != id && j in w.fences[f].tracked
  }

  ghost predicate DestroyGuard(w: World, id: FenceId)
  {
    id in w.fences ==>
      forall j :: j in w.fences[id].tracked && !HeldWithout(w, id, j) ==> Succeeded(w.log, j)
  }

  lemma HeldAfterCall(w: World, a: ExecArgs, r: ZeResult, w': World, j: JobId)
    requires a.Valid() && ExecStep(w, a, r, w')
    ensures Held(w', j) <==> HeldAfter(w, a, j)
  {
    hide SubmitsOf, Submitted;
    var run := SubmitsOf(a);
    if run.result == Success && KnownFence(w, a.fence) && a.fence.Some? {
      var id := a.fence.value;
      assert w'.fences[id].tracked == run.jobs;
      assert forall f :: f in w'.fences && f != id ==> w'.fences[f] == w.fences[f];
    }
  }

  lemma ExecKeepsCover(w: World, a: ExecArgs, r: ZeResult, w': World)
    requires Covered(w) && a.Valid() && ExecStep(w, a, r, w') && ExecGuard(w, a)
    ensures Covered(w')
  {
    hide SubmitsOf, HeldAfter;
    var js := SubmitsOf(a).jobs;
    forall k | 0 <= k < |w'.log|
      ensures CoveredAt(w', k)
    {
      var j := w'.log[k].job;
      HeldAfterCall(w, a, r, w', j);
      if k < |w.log| {
        assert CoveredAt(w, k);
        assert w'.log[..|w.log|][k] == w'.log[k] && w.log[k].job == j;
        if j !in js { LatestAfterSubmit(w.log, js, w'.log, j); }
      } else {
        assert js[k - |w.log|] == j;
        forall m | k < m < |w'.log|
          ensures w'.log[m].job != j
        {
          assert w'.log[m].job == js[m - |w.log|];
        }
        LatestUnique(w'.log, j, k);
      }
    }
  }

  /** The call on a device that completes nothing meanwhile. */
  ghost function Idle(w: World, a: ExecArgs): (w': World)
    requires a.Valid()
  {
    var js := SubmitsOf(a).jobs;
    var log := w.log + seq(|js|, i requires 0 <= i < |js| => Submission(js[i], Pending));
    var run := SubmitsOf(a);
    if run.result != Success || !KnownFence(w, a.fence) then w.(log := log)
    else if a.fence.Some? then
      World(log, w.tracked,
            w.fences[a.fence.value := SetTracked(w.fences[a.fence.value], js, Positions(|w.log|, |js|))])
    else World(log, w.tracked + js, w.fences)
  }

  ghost function ResultOf(w: World, a: ExecArgs): (r: ZeResult)
    requires a.Valid()
  {
    var run := SubmitsOf(a);
    if run.result != Success then run.result
    else if !KnownFence(w, a.fence) then InvalidSynchronizationObject
    else Success
  }

  lemma IdleIsAStep(w: World, a: ExecArgs)
    requires a.Valid()
    ensures ExecStep(w, a, ResultOf(w, a), Idle(w, a))
    ensures Idle(w, a).log[..|w.log|] == w.log
    ensures |Idle(w, a).log| == |w.log| + |SubmitsOf(a).jobs|
    ensures forall i :: 0 <= i < |SubmitsOf(a).jobs| ==>
              Idle(w, a).log[|w.log| + i] == Submission(SubmitsOf(a).jobs[i], Pending)
  {
    hide SubmitsOf;
  }

  /** Without the guard some device behaviour loses track of a submission. */
  lemma ExecGuardNeeded(w: World, a: ExecArgs)
    requires a.Valid() && Covered(w) && Covered(Idle(w, a))
    ensures ExecGuard(w, a)
  {
    hide SubmitsOf, HeldAfter, Held, Idle;
    var w', r, js := Idle(w, a), ResultOf(w, a), SubmitsOf(a).jobs;
    IdleIsAStep(w, a);
    forall i | 0 <= i < |js|
      ensures forall k :: i < k < |js| ==> js[i] != js[k]
      ensures Succeeded(w.log, js[i]) && HeldAfter(w, a, js[i])
    {
      var n := |w.log| + i;
      assert CoveredAt(w', n);
      assert forall k :: i < k < |js| ==> w'.log[|w.log| + k].job == js[k];
      HeldAfterCall(w, a, r, w', js[i]);
      var p := LatestIndex(w.log, js[i]);
      if p >= 0 {
        assert CoveredAt(w', p) && w'.log[..|w.log|][p] == w.log[p];
      }
    }
    forall j | Held(w, j) && !HeldAfter(w, a, j)
      ensures Succeeded(w.log, j)
    {
      HeldAfterCall(w, a, r, w', j);
      var p := LatestIndex(w.log, j);
      if p >= 0 {
        assert CoveredAt(w', p) && w'.log[..|w.log|][p] == w.log[p];
      }
    }
  }

  /** execute keeps the tracking invariant whatever the device does, exactly under its guard. */
  lemma ExecGuardExact(w: World, a: ExecArgs)
    requires a.Valid() && Covered(w)
    ensures (forall r, w' :: ExecStep(w, a, r, w') ==> Covered(w')) <==> ExecGuard(w, a)
  {
    if ExecGuard(w, a) {
      forall r, w' | ExecStep(w, a, r, w')
        ensures Covered(w')
      {
        ExecKeepsCover(w, a, r, w');
      }
    }
    if forall r, w' :: ExecStep(w, a, r, w') ==> Covered(w') {
      IdleIsAStep(w, a);
      ExecGuardNeeded(w, a);
    }
  }

  // ------------------------------------------------- the guard as the caller can check it

  /** The jobs of the non-empty lists from position i. */
  function JobsFrom(lists: seq<ListArg>, i: nat): (js: seq<JobId>)
    requires i <= |lists|
    decreases |lists| - i
  {
    if i == |lists| then []
    else if lists[i].NullList? || lists[i].numCommands == 0 then JobsFrom(lists, i + 1)
    else [lists[i].job] + JobsFrom(lists, i + 1)
  }

  /** What a call may submit: nothing when it is rejected. */
  function JobsOf(lists: Option<seq<ListArg>>): (js: seq<JobId>)
  {
    if Validate(lists) == Success then JobsFrom(lists.value, 0) else []
  }

  /**
   What the caller has to see to before execute, whatever the device will answer: no job twice,
   every job's previous submission has succeeded, every job but the last is held already, the
   last one too if the fence is not the queue's, and what the fence lets go of has succeeded.
   */
  ghost predicate CallGuard(w: World, lists: Option<seq<ListArg>>, fence: Option<FenceId>)
  {
    var js := JobsOf(lists);
    && Distinct(js)
    && (forall i :: 0 <= i < |js| ==> Succeeded(w.log, js[i]))
    && (forall i :: 0 <= i < |js| && (i < |js| - 1 || !KnownFence(w, fence)) ==> Held(w, js[i]))
    && (Validate(lists) == Success && fence.Some? && fence.value in w.fences ==>
          forall j :: j in w.fences[fence.value].tracked && j !in js && !HeldWithout(w, fence.value, j) ==>
                        Succeeded(w.log, j))
  }

  lemma {:induction false} ValidatedFrom(lists: seq<ListArg>, i: nat)
    requires i <= |lists| && ValidateFrom(lists, i) == Success
    ensures forall k :: i <= k < |lists| ==> !lists[k].NullList?
    decreases |lists| - i
  {
    if i < |lists| { ValidatedFrom(lists, i + 1); }
  }

  /** Whatever is answered, a prefix of the jobs is submitted: all of them exactly on success. */
  lemma {:induction false} SubmitsPrefix(lists: seq<ListArg>, outcomes: seq<Outcome>, i: nat)
    requires i <= |lists| == |outcomes| && forall k :: i <= k < |lists| ==> !lists[k].NullList?
    ensures var run, js := SubmitFrom(lists, outcomes, i), JobsFrom(lists, i);
            && run.jobs <= js
            && (run.result == Success <==> run.jobs == js)
    decreases |lists| - i
  {
    if i < |lists| {
      var rest, more := SubmitFrom(lists, outcomes, i + 1), JobsFrom(lists, i + 1);
      SubmitsPrefix(lists, outcomes, i + 1);
      assert forall j :: [j] + rest.jobs <= [j] + more;
      assert forall j: JobId :: [j] + rest.jobs == [j] + more ==> rest.jobs == ([j] + more)[1..];
    }
  }

  lemma {:induction false} SubmitsAccepted(lists: seq<ListArg>, outcomes: seq<Outcome>, i: nat)
    requires i <= |lists| == |outcomes| && forall k :: i <= k < |lists| ==> !lists[k].NullList?
    requires forall k :: i <= k < |lists| ==> outcomes[k] == Accepted
    ensures SubmitFrom(lists, outcomes, i) == SubmitRun(JobsFrom(lists, i), Success)
    decreases |lists| - i
  {
    if i < |lists| { SubmitsAccepted(lists, outcomes, i + 1); }
  }

  function LastJob(lists: seq<ListArg>, i: nat): (p: nat)
    requires i <= |lists| && JobsFrom(lists, i) != []
    ensures i <= p < |lists| && !lists[p].NullList? && lists[p].numCommands > 0 && JobsFrom(lists, p + 1) == []
    decreases |lists| - i
  {
    if JobsFrom(lists, i + 1) == [] then i else LastJob(lists, i + 1)
  }

  /** If only the last job is refused, all others have been submitted. */
  lemma {:induction false} SubmitsAllButLast(lists: seq<ListArg>, outcomes: seq<Outcome>, i: nat, p: nat)
    requires i <= p < |lists| == |outcomes| && forall k :: i <= k < |lists| ==> !lists[k].NullList?
    requires lists[p].numCommands > 0 && JobsFrom(lists, p + 1) == []
    requires outcomes[p] == UpdateFailed && forall k :: i <= k < |lists| && k != p ==> outcomes[k] == Accepted
    ensures var js := JobsFrom(lists, i);
            js != [] && SubmitFrom(lists, outcomes, i) == SubmitRun(js[..|js| - 1], Unknown)
    decreases p - i
  {
    if i < p {
      SubmitsAllButLast(lists, outcomes, i + 1, p);
    }
  }

  lemma CallRuns(a: ExecArgs)
    requires a.Valid()
    ensures var run, js := SubmitsOf(a), JobsOf(a.lists);
            && run.jobs <= js
            && (run.result == Success ==> Validate(a.lists) == Success && run.jobs == js)
            && (run.result != Success ==> js == [] || |run.jobs| < |js|)
  {
    hide SubmitFrom, JobsFrom, ValidateFrom;
    if Validate(a.lists) == Success {
      ValidatedFrom(a.lists.value, 0);
      SubmitsPrefix(a.lists.value, a.outcomes, 0);
    }
  }

  /** The caller's guard covers every answer of the device. */
  lemma CallGuardSuffices(w: World, a: ExecArgs)
    requires a.Valid() && CallGuard(w, a.lists, a.fence)
    ensures ExecGuard(w, a)
  {
    hide SubmitsOf, JobsOf, Validate, Succeeded;
    CallRuns(a);
    var run, js := SubmitsOf(a), JobsOf(a.lists);
    forall j | j in run.jobs ensures Succeeded(w.log, j) && HeldAfter(w, a, j) {
      var i :| 0 <= i < |run.jobs| && run.jobs[i] == j;
      assert js[i] == j;
    }
    assert forall i :: 0 <= i < |run.jobs| ==> run.jobs[i] == js[i];
  }

  lemma Unguarded(w: World, a: ExecArgs)
    requires a.Valid() && !ExecGuard(w, a)
    ensures !CallGuard(w, a.lists, a.fence)
  {
    hide ExecGuard, CallGuard;
    if CallGuard(w, a.lists, a.fence) { CallGuardSuffices(w, a); }
  }

  /** The calls in which the device accepts everything, and everything but the last job. */
  function Answers(lists: seq<ListArg>, refused: int): (outcomes: seq<Outcome>)
    ensures |outcomes| == |lists|
  {
    seq(|lists|, i => if i == refused then UpdateFailed else Accepted)
  }

  /** What the guard says of a call in which everything is accepted. */
  lemma GuardOfAccepted(w: World, a: ExecArgs, js: seq<JobId>)
    requires a.Valid() && ExecGuard(w, a) && SubmitsOf(a) == SubmitRun(js, Success)
    ensures Distinct(js) && forall i :: 0 <= i < |js| ==> Succeeded(w.log, js[i])
    ensures !KnownFence(w, a.fence) ==> forall i :: 0 <= i < |js| ==> Held(w, js[i])
    ensures a.fence.Some? && a.fence.value in w.fences ==>
              forall j :: j in w.fences[a.fence.value].tracked && j !in js && !HeldWithout(w, a.fence.value, j) ==>
                            Succeeded(w.log, j)
  {
    hide SubmitsOf, Succeeded;
    assert forall i :: 0 <= i < |js| ==> js[i] in js;
    if a.fence.Some? && a.fence.value in w.fences {
      forall j | j in w.fences[a.fence.value].tracked && j !in js && !HeldWithout(w, a.fence.value, j)
        ensures Succeeded(w.log, j)
      {
        assert Held(w, j) && !HeldAfter(w, a, j);
      }
    }
  }

  lemma GuardOfRefused(w: World, a: ExecArgs, js: seq<JobId>)
    requires a.Valid() && ExecGuard(w, a) && SubmitsOf(a).jobs == js && SubmitsOf(a).result != Success
    ensures forall i :: 0 <= i < |js| ==> Held(w, js[i])
  {
    hide SubmitsOf, Succeeded, Held;
    assert forall i :: 0 <= i < |js| ==> js[i] in js;
  }

  lemma CallGuardNeeded(w: World, lists: Option<seq<ListArg>>, fence: Option<FenceId>)
    requires forall outcomes :: ExecArgs(lists, outcomes, fence).Valid() ==>
               ExecGuard(w, ExecArgs(lists, outcomes, fence))
    ensures CallGuard(w, lists, fence)
  {
    hide SubmitFrom, JobsFrom, ValidateFrom, Succeeded, Held, HeldWithout, ExecGuard, Distinct;
    var js := JobsOf(lists);
    if Validate(lists) == Success {
      var ls := lists.value;
      ValidatedFrom(ls, 0);
      var all := ExecArgs(lists, Answers(ls, -1), fence);
      SubmitsAccepted(ls, all.outcomes, 0);
      assert all.Valid();
      GuardOfAccepted(w, all, js);
      if js != [] {
        var p := LastJob(ls, 0);
        var most := ExecArgs(lists, Answers(ls, p), fence);
        SubmitsAllButLast(ls, most.outcomes, 0, p);
        assert most.Valid();
        GuardOfRefused(w, most, js[..|js| - 1]);
        assert forall i :: 0 <= i < |js| - 1 ==> js[..|js| - 1][i] == js[i];
      }
    } else {
      NoJobsDistinct();
    }
  }

  lemma NoJobsDistinct()
    ensures Distinct([])
  {
  }

  /** The call ends like this for some answers of the device. */
  ghost predicate Executes(w: World, lists: Option<seq<ListArg>>, outcomes: seq<Outcome>, fence: Option<FenceId>,
                           r: ZeResult, w': World)
  {
    ExecArgs(lists, outcomes, fence).Valid() && ExecStep(w, ExecArgs(lists, outcomes, fence), r, w')
  }

  /**
   Execute keeps track of every submission, whatever the device answers and does, exactly
   under a condition on the queue, the lists and the fence before the call.
   */
  lemma CallGuardExact(w: World, lists: Option<seq<ListArg>>, fence: Option<FenceId>)
    requires Covered(w)
    ensures (forall outcomes, r, w' :: Executes(w, lists, outcomes, fence, r, w') ==> Covered(w'))
            <==> CallGuard(w, lists, fence)
  {
    hide ExecStep, Covered, CallGuard, ExecGuard;
    if CallGuard(w, lists, fence) {
      forall outcomes, r, w' | Executes(w, lists, outcomes, fence, r, w') ensures Covered(w') {
        CallGuardSuffices(w, ExecArgs(lists, outcomes, fence));
        ExecKeepsCover(w, ExecArgs(lists, outcomes, fence), r, w');
      }
    }
    if forall outcomes, r, w' :: Executes(w, lists, outcomes, fence, r, w') ==> Covered(w') {
      forall outcomes | ExecArgs(lists, outcomes, fence).Valid()
        ensures ExecGuard(w, ExecArgs(lists, outcomes, fence))
      {
        var a := ExecArgs(lists, outcomes, fence);
        assert forall r, w' :: ExecStep(w, a, r, w') ==> Executes(w, lists, outcomes, fence, r, w');
        ExecGuardExact(w, a);
      }
      CallGuardNeeded(w, lists, fence);
    }
  }

  lemma DestroyGuardExact(w: World, id: FenceId)
    requires Covered(w)
    ensures Covered(w.(fences := w.fences - {id})) <==> DestroyGuard(w, id)
  {
    var w' := w.(fences := w.fences - {id});
    forall j
      ensures Held(w', j) <==> HeldWithout(w, id, j)
    {
      assert forall f :: f in w'.fences <==> f in w.fences && f != id;
    }
    if Covered(w') && id in w.fences {
      forall j | j in w.fences[id].tracked && !HeldWithout(w, id, j)
        ensures Succeeded(w.log, j)
      {
        var p := LatestIndex(w.log, j);
        if p >= 0 { assert CoveredAt(w', p); }
      }
    }
    if DestroyGuard(w, id) {
      forall k | 0 <= k < |w.log|
        ensures CoveredAt(w', k)
      {
        assert CoveredAt(w, k);
      }
    }
  }

  /** A call with a null or an unclosed list among its lists submits and tracks nothing. */
  lemma RejectedSubmitsNothing(w: World, a: ExecArgs, r: ZeResult, w': World, i: nat)
    requires a.Valid() && ExecStep(w, a, r, w')
    requires a.lists.Some? && i < |a.lists.value|
    requires a.lists.value[i].NullList? || !a.lists.value[i].closed
    ensures r != Success && Progress(w.log, w'.log) && w'.tracked == w.tracked && w'.fences == w.fences
  {
    RejectsBefore(a.lists.value, 0, i);
    assert w'.log[..|w.log|] == w'.log;
  }

  lemma {:induction false} RejectsBefore(lists: seq<ListArg>, i: nat, k: nat)
    requires i <= k < |lists| && (lists[k].NullList? || !lists[k].closed)
    ensures ValidateFrom(lists, i) != Success
    decreases k - i
  {
    if i < k { RejectsBefore(lists, i + 1, k); }
  }

  lemma WaitedSucceeded(log: Log, jobs: seq<JobId>)
    requires WaitResult(log, jobs, Success)
    ensures AllSucceeded(log, jobs)
  {
    FirstFailureDecides(Statuses(log, jobs));
    forall j | j in jobs
      ensures Succeeded(log, j)
    {
      var i :| 0 <= i < |jobs| && jobs[i] == j;
      assert Statuses(log, jobs)[i] == StatusOf(log, j);
    }
  }

  lemma CoverSurvivesProgress(w: World, w': World)
    requires Covered(w) && Progress(w.log, w'.log)
    requires forall j :: Held(w, j) && !Held(w', j) ==> Succeeded(w'.log, j)
    ensures Covered(w')
  {
    hide Held;
    forall k | 0 <= k < |w'.log|
      ensures CoveredAt(w', k)
    {
      assert CoveredAt(w, k);
      LatestProgress(w.log, w'.log, w'.log[k].job);
    }
  }

  /** synchronize and fence waits let go only of jobs they have seen succeed. */
  lemma SyncLetsGoOfSuccesses(w: World, r: ZeResult, w': World, j: JobId)
    requires SyncStep(w, r, w') && Held(w, j)
    ensures Held(w', j) || Succeeded(w'.log, j)
    ensures r == Success ==> Succeeded(w'.log, j)
  {
    hide WaitResult, Succeeded;
    if j in w.tracked {
      if r == Success { WaitedSucceeded(w'.log, w.tracked); }
    } else {
      var f :| f in w.fences && j in w.fences[f].tracked;
      assert MaybeDrained(w.fences[f], w'.log, w'.fences[f]);
      if w'.fences[f] != w.fences[f] { WaitedSucceeded(w'.log, w.fences[f].tracked); }
    }
  }

  lemma FenceSyncLetsGoOfSuccesses(w: World, f: FenceId, r: ZeResult, w': World, j: JobId)
    requires f in w.fences && FenceSyncStep(w, f, r, w') && Held(w, j)
    ensures Held(w', j) || Succeeded(w'.log, j)
  {
    hide WaitResult, Succeeded;
    if r == Success && !w.fences[f].signaled && w.fences[f].tracked != [] {
      WaitedSucceeded(w'.log, w.fences[f].tracked);
      if j !in w.tracked && j !in w.fences[f].tracked {
        var g :| g in w.fences && j in w.fences[g].tracked;
        assert w'.fences[g] == w.fences[g];
      }
    }
  }

  // ------------------------------------------------------------------------------- runs

  ghost predicate Guarded(w: World, e: Event)
  {
    match e
    case Execute(a, _) => a.Valid() && ExecGuard(w, a)
    case DestroyFence(id) => DestroyGuard(w, id)
    case _ => true
  }

  ghost predicate IsRun(ws: seq<World>, es: seq<Event>)
  {
    && |ws| == |es| + 1 && ws[0] == INITIAL_WORLD
    && forall i :: 0 <= i < |es| ==> Next(ws[i], es[i], ws[i + 1])
  }

  ghost predicate AllCompleted(log: Log)
  {
    forall k :: 0 <= k < |log| ==> log[k].state == COMPLETED
  }

  lemma StepKeepsCover(w: World, e: Event, w': World)
    requires Covered(w) && Next(w, e, w') && Guarded(w, e)
    ensures Covered(w')
  {
    hide Covered, Succeeded, ExecGuard, DestroyGuard, ExecStep, SyncStep, FenceSyncStep;
    match e
    case CreateFence(id, _) =>
      forall j | Held(w, j)
        ensures Held(w', j)
      {
        if j !in w.tracked {
          var f :| f in w.fences && j in w.fences[f].tracked;
          assert w'.fences[f] == w.fences[f];
        }
      }
      CoverSurvivesProgress(w, w');
    case DestroyFence(id) => DestroyGuardExact(w, id);
    case Execute(a, r) => ExecKeepsCover(w, a, r, w');
    case Synchronize(r) =>
      SyncProgresses(w, r, w');
      forall j | Held(w, j)
        ensures Held(w', j) || Succeeded(w'.log, j)
      {
        SyncLetsGoOfSuccesses(w, r, w', j);
      }
      CoverSurvivesProgress(w, w');
    case FenceSynchronize(id, r) =>
      FenceSyncProgresses(w, id, r, w');
      forall j | Held(w, j)
        ensures Held(w', j) || Succeeded(w'.log, j)
      {
        FenceSyncLetsGoOfSuccesses(w, id, r, w', j);
      }
      CoverSurvivesProgress(w, w');
    case FenceReset(id) =>
      forall j | Held(w, j)
        ensures Held(w', j)
      {
        if j !in w.tracked {
          var f :| f in w.fences && j in w.fences[f].tracked;
          assert w'.fences[f].tracked == w.fences[f].tracked;
        }
      }
      CoverSurvivesProgress(w, w');
    case DeviceRuns => CoverSurvivesProgress(w, w');
  }

  lemma SyncProgresses(w: World, r: ZeResult, w': World)
    requires SyncStep(w, r, w')
    ensures Progress(w.log, w'.log)
  {
  }

  lemma FenceSyncProgresses(w: World, f: FenceId, r: ZeResult, w': World)
    requires f in w.fences && FenceSyncStep(w, f, r, w')
    ensures Progress(w.log, w'.log)
  {
  }

  lemma {:induction false} RunCovered(ws: seq<World>, es: seq<Event>, n: nat)
    requires IsRun(ws, es) && n <= |es| && forall i :: 0 <= i < n ==> Guarded(ws[i], es[i])
    ensures Covered(ws[n])
  {
    if n > 0 {
      RunCovered(ws, es, n - 1);
      StepKeepsCover(ws[n - 1], es[n - 1], ws[n]);
    }
  }

  /**
   In every guarded run, a synchronize that returns Success has every submission
   made so far completed with success.
   */
  lemma SynchronizeMeansAllDone(ws: seq<World>, es: seq<Event>, n: nat)
    requires IsRun(ws, es) && n < |es| && forall i :: 0 <= i <= n ==> Guarded(ws[i], es[i])
    requires es[n] == Synchronize(Success)
    ensures AllCompleted(ws[n + 1].log)
  {
    RunCovered(ws, es, n);
    var w, w' := ws[n], ws[n + 1];
    assert Next(w, es[n], w');
    forall k | 0 <= k < |w'.log|
      ensures w'.log[k].state == COMPLETED
    {
      assert CoveredAt(w, k);
      var j := w.log[k].job;
      if w.log[k].state != COMPLETED {
        SyncLetsGoOfSuccesses(w, Success, w', j);
        LatestProgress(w.log, w'.log, j);
      }
    }
  }

  /** The caller's side of a run, in terms of what is known before each call. */
  ghost predicate CallerGuarded(w: World, e: Event)
  {
    match e
    case Execute(a, _) => a.Valid() && CallGuard(w, a.lists, a.fence)
    case DestroyFence(id) => DestroyGuard(w, id)
    case _ => true
  }

  /** The same for callers that check CallGuard before every execute. */
  lemma CallersSynchronize(ws: seq<World>, es: seq<Event>, n: nat)
    requires IsRun(ws, es) && n < |es| && forall i :: 0 <= i <= n ==> CallerGuarded(ws[i], es[i])
    requires es[n] == Synchronize(Success)
    ensures AllCompleted(ws[n + 1].log)
  {
    hide IsRun, ExecGuard, CallGuard, AllCompleted;
    RunLengths(ws, es);
    forall i | 0 <= i <= n ensures Guarded(ws[i], es[i]) {
      assert CallerGuarded(ws[i], es[i]);
      if es[i].Execute? { CallGuardSuffices(ws[i], es[i].args); }
    }
    SynchronizeMeansAllDone(ws, es, n);
  }

  lemma RunLengths(ws: seq<World>, es: seq<Event>)
    requires IsRun(ws, es)
    ensures |ws| == |es| + 1
  {
  }

  // ------------------------------------------------------------------------------ fences

  ghost predicate FenceSound(log: Log, f: FenceState)
  {
    && (f.signaled ==> f.tracked == [])
    && forall k :: k in f.latest ==>
         && k < |log|
         && (log[k].state == COMPLETED || (IsLatest(log, k) && log[k].job in f.tracked))
  }

  /** signaled implies no tracked jobs; the last submission has succeeded or is still tracked. */
  ghost predicate FencesSound(w: World)
  {
    forall f :: f in w.fences ==> FenceSound(w.log, w.fences[f])
  }

  /** Does the call hand its jobs to this fence? */
  ghost predicate GoesTo(w: World, a: ExecArgs, f: FenceId)
    requires a.Valid()
  {
    SubmitsOf(a).result == Success && a.fence == Some(f) && f in w.fences
  }

  /**
   The caller's side of execute with respect to fences: a non-empty submission goes to an
   unsignalled fence with no job twice, and jobs some other fence reports on are not
   submitted again before they succeeded.
   */
  ghost predicate FenceGuard(w: World, a: ExecArgs)
    requires a.Valid()
  {
    var js := SubmitsOf(a).jobs;
    forall f :: f in w.fences ==>
      if GoesTo(w, a, f) then Distinct(js) && (js == [] || !w.fences[f].signaled)
      else forall k :: k in w.fences[f].latest && k < |w.log| && w.log[k].job in js ==> w.log[k].state == COMPLETED
  }

  lemma ExecOtherFence(log: Log, js: seq<JobId>, log': Log, f: FenceState)
    requires FenceSound(log, f) && Submitted(log, js, log')
    requires forall k :: k in f.latest && log[k].job in js ==> log[k].state == COMPLETED
    ensures FenceSound(log', f)
  {
    forall k | k in f.latest
      ensures k < |log'| && (log'[k].state == COMPLETED || (IsLatest(log', k) && log'[k].job in f.tracked))
    {
      assert log'[..|log|][k] == log'[k] && log[k].job == log'[k].job;
      if log[k].job !in js { LatestAfterSubmit(log, js, log', log[k].job); }
    }
  }

  lemma ExecTargetFence(log: Log, js: seq<JobId>, log': Log, f: FenceState)
    requires FenceSound(log, f) && Submitted(log, js, log') && Distinct(js) && (js == [] || !f.signaled)
    ensures FenceSound(log', SetTracked(f, js, Positions(|log|, |js|)))
  {
    forall k: nat | |log| <= k < |log| + |js|
      ensures IsLatest(log', k) && log'[k].job in js
    {
      assert log'[k].job == js[k - |log|];
      assert forall m :: k < m < |log'| ==> log'[m].job == js[m - |log|];
      LatestUnique(log', log'[k].job, k);
    }
  }

  lemma ExecKeepsFences(w: World, a: ExecArgs, r: ZeResult, w': World)
    requires FencesSound(w) && a.Valid() && ExecStep(w, a, r, w') && FenceGuard(w, a)
    ensures FencesSound(w')
  {
    hide FenceSound, Submitted, SubmitsOf, Distinct;
    var js := SubmitsOf(a).jobs;
    forall f | f in w'.fences
      ensures FenceSound(w'.log, w'.fences[f])
    {
      if GoesTo(w, a, f) {
        ExecTargetFence(w.log, js, w'.log, w.fences[f]);
      } else {
        FenceSoundBounds(w.log, w.fences[f]);
        ExecOtherFence(w.log, js, w'.log, w.fences[f]);
      }
    }
  }

  lemma FenceSoundBounds(log: Log, f: FenceState)
    requires FenceSound(log, f)
    ensures forall k :: k in f.latest ==> k < |log|
  {
  }

  /** All of js pending at the end of log'. */
  ghost predicate PendingTail(log: Log, js: seq<JobId>, log': Log)
  {
    && |log'| == |log| + |js| && log'[..|log|] == log
    && forall i :: 0 <= i < |js| ==> log'[|log| + i] == Submission(js[i], Pending)
  }

  lemma TargetNeedsGuard(log: Log, js: seq<JobId>, log': Log, f: FenceState)
    requires PendingTail(log, js, log')
    requires FenceSound(log', SetTracked(f, js, Positions(|log|, |js|)))
    ensures Distinct(js) && (js == [] || !f.signaled)
  {
    forall i, k | 0 <= i < k < |js|
      ensures js[i] != js[k]
    {
      assert |log| + i in Positions(|log|, |js|);
      assert log'[|log| + k].job == js[k];
    }
  }

  lemma OtherNeedsGuard(log: Log, js: seq<JobId>, log': Log, f: FenceState, k: nat)
    requires PendingTail(log, js, log') && FenceSound(log', f)
    requires k in f.latest && k < |log| && log[k].job in js
    ensures log[k].state == COMPLETED
  {
    assert log'[..|log|][k] == log[k];
    var i :| 0 <= i < |js| && js[i] == log[k].job;
    assert log'[|log| + i].job == log'[k].job;
  }

  lemma FenceGuardNeeded(w: World, a: ExecArgs)
    requires a.Valid() && FencesSound(w) && FencesSound(Idle(w, a))
    ensures FenceGuard(w, a)
  {
    hide SubmitsOf, FenceSound, Distinct;
    var w', js := Idle(w, a), SubmitsOf(a).jobs;
    assert PendingTail(w.log, js, w'.log);
    forall f | f in w.fences
      ensures if GoesTo(w, a, f) then Distinct(js) && (js == [] || !w.fences[f].signaled)
              else forall k :: k in w.fences[f].latest && k < |w.log| && w.log[k].job in js ==>
                                 w.log[k].state == COMPLETED
    {
      assert FenceSound(w'.log, w'.fences[f]);
      if GoesTo(w, a, f) {
        TargetNeedsGuard(w.log, js, w'.log, w.fences[f]);
      } else {
        assert w'.fences[f] == w.fences[f];
        forall k | k in w.fences[f].latest && k < |w.log| && w.log[k].job in js
          ensures w.log[k].state == COMPLETED
        {
          OtherNeedsGuard(w.log, js, w'.log, w.fences[f], k);
        }
      }
    }
  }

  /** execute keeps every fence truthful whatever the device does, exactly under its guard. */
  lemma FenceGuardExact(w: World, a: ExecArgs)
    requires a.Valid() && FencesSound(w)
    ensures (forall r, w' :: ExecStep(w, a, r, w') ==> FencesSound(w')) <==> FenceGuard(w, a)
  {
    if FenceGuard(w, a) {
      forall r, w' | ExecStep(w, a, r, w')
        ensures FencesSound(w')
      {
        ExecKeepsFences(w, a, r, w');
      }
    }
    if forall r, w' :: ExecStep(w, a, r, w') ==> FencesSound(w') {
      IdleIsAStep(w, a);
      FenceGuardNeeded(w, a);
    }
  }

  // ----------------------------------------- the fence guard as the caller can check it

  /** No job of js has a submission the fence reports on that has not succeeded. */
  ghost predicate Reported(w: World, f: FenceId, js: seq<JobId>)
    requires f in w.fences
  {
    forall k :: k in w.fences[f].latest && k < |w.log| && w.log[k].job in js ==> w.log[k].state == COMPLETED
  }

  function AllButLast(js: seq<JobId>): (r: seq<JobId>)
  {
    if js == [] then [] else js[..|js| - 1]
  }

  /** FenceGuard for every answer of the device, in terms of the queue, the lists and the fence. */
  ghost predicate CallFenceGuard(w: World, lists: Option<seq<ListArg>>, fence: Option<FenceId>)
  {
    var js := JobsOf(lists);
    forall f :: f in w.fences ==>
      if Validate(lists) == Success && fence == Some(f)
      then Distinct(js) && (js == [] || !w.fences[f].signaled) && Reported(w, f, AllButLast(js))
      else Reported(w, f, js)
  }

  lemma CallFenceGuardSuffices(w: World, a: ExecArgs)
    requires a.Valid() && CallFenceGuard(w, a.lists, a.fence)
    ensures FenceGuard(w, a)
  {
    hide SubmitsOf, JobsOf, Validate, Distinct;
    CallRuns(a);
    var run, js := SubmitsOf(a), JobsOf(a.lists);
    assert forall i :: 0 <= i < |run.jobs| ==> run.jobs[i] == js[i];
    if run.result != Success {
      assert run.jobs <= AllButLast(js);
    }
  }

  lemma CallFenceGuardNeeded(w: World, lists: Option<seq<ListArg>>, fence: Option<FenceId>)
    requires forall outcomes :: ExecArgs(lists, outcomes, fence).Valid() ==>
               FenceGuard(w, ExecArgs(lists, outcomes, fence))
    ensures CallFenceGuard(w, lists, fence)
  {
    hide SubmitFrom, JobsFrom, ValidateFrom, Distinct;
    var js := JobsOf(lists);
    if Validate(lists) == Success {
      var ls := lists.value;
      ValidatedFrom(ls, 0);
      var all := ExecArgs(lists, Answers(ls, -1), fence);
      SubmitsAccepted(ls, all.outcomes, 0);
      assert all.Valid() && SubmitsOf(all) == SubmitRun(js, Success) && FenceGuard(w, all);
      if js != [] {
        var p := LastJob(ls, 0);
        var most := ExecArgs(lists, Answers(ls, p), fence);
        SubmitsAllButLast(ls, most.outcomes, 0, p);
        assert most.Valid() && SubmitsOf(most) == SubmitRun(AllButLast(js), Unknown) && FenceGuard(w, most);
      }
    }
  }

  /** Execute keeps every fence truthful, whatever the device answers and does, exactly under the caller's guard. */
  lemma CallFenceGuardExact(w: World, lists: Option<seq<ListArg>>, fence: Option<FenceId>)
    requires FencesSound(w)
    ensures (forall outcomes, r, w' :: Executes(w, lists, outcomes, fence, r, w') ==> FencesSound(w'))
            <==> CallFenceGuard(w, lists, fence)
  {
    hide ExecStep, FencesSound, CallFenceGuard, FenceGuard;
    if CallFenceGuard(w, lists, fence) {
      forall outcomes, r, w' | Executes(w, lists, outcomes, fence, r, w') ensures FencesSound(w') {
        CallFenceGuardSuffices(w, ExecArgs(lists, outcomes, fence));
        ExecKeepsFences(w, ExecArgs(lists, outcomes, fence), r, w');
      }
    }
    if forall outcomes, r, w' :: Executes(w, lists, outcomes, fence, r, w') ==> FencesSound(w') {
      forall outcomes | ExecArgs(lists, outcomes, fence).Valid()
        ensures FenceGuard(w, ExecArgs(lists, outcomes, fence))
      {
        var a := ExecArgs(lists, outcomes, fence);
        assert forall r, w' :: ExecStep(w, a, r, w') ==> Executes(w, lists, outcomes, fence, r, w');
        FenceGuardExact(w, a);
      }
      CallFenceGuardNeeded(w, lists, fence);
    }
  }

  // ------------------------------------------------------- signalled fences track nothing

  ghost predicate SignalledIdle(w: World)
  {
    forall f :: f in w.fences && w.fences[f].signaled ==> w.fences[f].tracked == []
  }

  /** A non-empty submission to a fence is made while it is unsignalled. */
  ghost predicate UnsignalledTarget(w: World, e: Event)
  {
    e.Execute? && e.args.Valid() && SubmitsOf(e.args).jobs != [] ==>
      forall f :: GoesTo(w, e.args, f) ==> !w.fences[f].signaled
  }

  lemma StepKeepsSignalledIdle(w: World, e: Event, w': World)
    requires SignalledIdle(w) && Next(w, e, w') && UnsignalledTarget(w, e)
    ensures SignalledIdle(w')
  {
    hide SubmitsOf, Submitted, Progress, WaitResult;
    if e.Execute? {
      var a := e.args;
      if SubmitsOf(a).result == Success && a.fence.Some? && a.fence.value in w.fences {
        assert GoesTo(w, a, a.fence.value);
      }
    }
  }

  /**
   In every run in which non-empty submissions go to unsignalled fences, and nothing else is
   asked of the caller, a signalled fence tracks no job.
   */
  lemma {:induction false} SignalledTracksNothing(ws: seq<World>, es: seq<Event>, n: nat)
    requires IsRun(ws, es) && n <= |es| && forall i :: 0 <= i < n ==> UnsignalledTarget(ws[i], es[i])
    ensures SignalledIdle(ws[n])
  {
    hide Next, UnsignalledTarget;
    if n > 0 {
      SignalledTracksNothing(ws, es, n - 1);
      StepKeepsSignalledIdle(ws[n - 1], es[n - 1], ws[n]);
    }
  }

  lemma FenceSurvivesProgress(log: Log, log': Log, f: FenceState)
    requires FenceSound(log, f) && Progress(log, log')
    ensures FenceSound(log', f)
  {
    forall k | k in f.latest
      ensures k < |log'| && (log'[k].state == COMPLETED || (IsLatest(log', k) && log'[k].job in f.tracked))
    {
      LatestProgress(log, log', log[k].job);
    }
  }

  lemma DrainSound(log: Log, log': Log, f: FenceState)
    requires FenceSound(log, f) && Progress(log, log') && WaitResult(log', f.tracked, Success)
    ensures FenceSound(log', Drained(f))
    ensures forall k :: k in f.latest ==> k < |log'| && log'[k].state == COMPLETED
  {
    FenceSurvivesProgress(log, log', f);
    WaitedSucceeded(log', f.tracked);
  }

  ghost predicate FenceGuarded(w: World, e: Event)
  {
    e.Execute? ==> e.args.Valid() && FenceGuard(w, e.args)
  }

  lemma StepKeepsFences(w: World, e: Event, w': World)
    requires FencesSound(w) && Next(w, e, w') && FenceGuarded(w, e)
    ensures FencesSound(w')
  {
    hide WaitResult, Progress, FenceGuard, ExecStep;
    match e
    case Execute(a, r) => ExecKeepsFences(w, a, r, w');
    case CreateFence(id, _) =>
    case DestroyFence(id) =>
    case FenceReset(id) =>
    case Synchronize(_) =>
      forall f | f in w.fences
        ensures FenceSound(w'.log, w'.fences[f])
      {
        FenceSurvivesProgress(w.log, w'.log, w.fences[f]);
        if w'.fences[f] != w.fences[f] { DrainSound(w.log, w'.log, w.fences[f]); }
      }
    case FenceSynchronize(id, r) =>
      forall f | f in w.fences
        ensures FenceSound(w'.log, w'.fences[f])
      {
        FenceSurvivesProgress(w.log, w'.log, w.fences[f]);
        if w'.fences[f] != w.fences[f] { DrainSound(w.log, w'.log, w.fences[f]); }
      }
    case DeviceRuns =>
      forall f | f in w.fences
        ensures FenceSound(w'.log, w'.fences[f])
      {
        FenceSurvivesProgress(w.log, w'.log, w.fences[f]);
      }
  }

  lemma {:induction false} RunFencesSound(ws: seq<World>, es: seq<Event>, n: nat)
    requires IsRun(ws, es) && n <= |es| && forall i :: 0 <= i < n ==> FenceGuarded(ws[i], es[i])
    ensures FencesSound(ws[n])
  {
    if n > 0 {
      RunFencesSound(ws, es, n - 1);
      StepKeepsFences(ws[n - 1], es[n - 1], ws[n]);
    }
  }

  /**
   In every run whose executes respect FenceGuard: a fence that reports Success has all
   jobs of the last submission it was given since its reset completed with success,
   whether the fence itself or the queue did the waiting.
   */
  lemma FenceSuccessMeansDone(ws: seq<World>, es: seq<Event>, n: nat, f: FenceId)
    requires IsRun(ws, es) && n < |es| && forall i :: 0 <= i <= n ==> FenceGuarded(ws[i], es[i])
    requires es[n] == FenceSynchronize(f, Success)
    ensures f in ws[n].fences && f in ws[n + 1].fences
    ensures forall k :: k in ws[n].fences[f].latest ==>
              k < |ws[n + 1].log| && ws[n + 1].log[k].state == COMPLETED
    ensures ws[n + 1].fences[f].signaled && ws[n + 1].fences[f].tracked == []
  {
    RunFencesSound(ws, es, n);
    var w, w' := ws[n], ws[n + 1];
    assert Next(w, es[n], w');
    var fence := w.fences[f];
    assert FenceSound(w.log, fence);
    if !fence.signaled {
      DrainSound(w.log, w'.log, fence);
    } else {
      FenceSurvivesProgress(w.log, w'.log, fence);
    }
  }

  // ------------------------------------------------------------------- why the guards

  function OneList(job: JobId, fence: Option<FenceId>): (a: ExecArgs)
  {
    ExecArgs(Some([CmdList(job, true, 1)]), [Accepted], fence)
  }

  lemma OneListSubmits(job: JobId, fence: Option<FenceId>)
    ensures OneList(job, fence).Valid()
    ensures SubmitsOf(OneList(job, fence)) == SubmitRun([job], Success)
  {
    var a := OneList(job, fence);
    assert SubmitFrom(a.lists.value, a.outcomes, 1) == SubmitRun([], Success);
    assert SubmitFrom(a.lists.value, a.outcomes, 0).jobs == [job] + [];
    assert ValidateFrom(a.lists.value, 1) == Success;
  }

  lemma OneListStep(w: World, j: JobId)
    ensures Next(w, Execute(OneList(j, None), Success),
                 World(w.log + [Submission(j, Pending)], w.tracked + [j], w.fences))
  {
    hide SubmitsOf;
    OneListSubmits(j, None);
    assert (w.log + [Submission(j, Pending)])[..|w.log|] == w.log;
  }

  lemma SyncOverResubmission(log: Log)
    requires log == [Submission(0, Done(1)), Submission(0, COMPLETED)]
    ensures Next(World(log, [0, 0], map[]), Synchronize(Success), World(log, [], map[]))
  {
    LatestUnique(log, 0, 1);
    FirstFailureDecides(Statuses(log, [0, 0]));
  }

  /**
   "Not resubmitted while pending" is not enough: a job that failed, was submitted again
   and then succeeded makes synchronize return Success over the failed submission.
   */
  lemma FailedResubmissionHidden() returns (ws: seq<World>, es: seq<Event>)
    ensures IsRun(ws, es)
    ensures |es| == 5 && es[0] == es[2] == Execute(OneList(0, None), Success) && es[4] == Synchronize(Success)
    ensures !IsPending(ws[0].log, 0) && !IsPending(ws[2].log, 0)
    ensures ws[5].log == [Submission(0, Done(1)), Submission(0, COMPLETED)]
  {
    hide Next;
    var failed, again := Submission(0, Done(1)), Submission(0, COMPLETED);
    var w1, w2 := World([] + [Submission(0, Pending)], [] + [0], map[]), World([failed], [0], map[]);
    var w3 := World([failed] + [Submission(0, Pending)], [0] + [0], map[]);
    var w4, w5 := World([failed, again], [0, 0], map[]), World([failed, again], [], map[]);
    var run := Execute(OneList(0, None), Success);
    OneListStep(INITIAL_WORLD, 0);
    DeviceStep(w1, w2);
    OneListStep(w2, 0);
    DeviceStep(w3, w4);
    SyncOverResubmission(w4.log);
    ws := [INITIAL_WORLD, w1, w2, w3, w4, w5];
    es := [run, DeviceRuns, run, DeviceRuns, Synchronize(Success)];
    RunOf(ws, es);
  }

  /** A failure in the middle of the submission loop leaves the first job untracked. */
  lemma MidLoopFailureLosesJob() returns (a: ExecArgs, w: World)
    ensures a.Valid() && Next(INITIAL_WORLD, Execute(a, Unknown), w) && !ExecGuard(INITIAL_WORLD, a)
    ensures w.log == [Submission(0, Pending)] && Next(w, Synchronize(Success), w)
    ensures !CallGuard(INITIAL_WORLD, a.lists, a.fence)
  {
    hide CallGuard;
    a := ExecArgs(Some([CmdList(0, true, 1), CmdList(1, true, 1)]), [Accepted, UpdateFailed], None);
    w := World([Submission(0, Pending)], [], map[]);
    assert SubmitFrom(a.lists.value, a.outcomes, 1) == SubmitRun([], Unknown);
    assert SubmitsOf(a) == SubmitRun([0] + [], Unknown) by {
      assert ValidateFrom(a.lists.value, 2) == Success;
    }
    assert 0 in SubmitsOf(a).jobs && !HeldAfter(INITIAL_WORLD, a, 0);
    Unguarded(INITIAL_WORLD, a);
    FirstFailureDecides(Statuses(w.log, []));
  }

  /** A non-empty submission to a signalled fence makes the fence report too early. */
  lemma SignalledFenceReportsEarly() returns (ws: seq<World>, es: seq<Event>)
    ensures IsRun(ws, es) && |es| == 3
    ensures es[1] == Execute(OneList(0, Some(7)), Success) && es[2] == FenceSynchronize(7, Success)
    ensures ws[3].log == [Submission(0, Pending)]
  {
    hide SubmitsOf;
    OneListSubmits(0, Some(7));
    var w1 := World([], [], map[7 := FenceState(true, [], [])]);
    var w2 := World([Submission(0, Pending)], [], map[7 := FenceState(true, [0], Positions(0, 1))]);
    ws := [INITIAL_WORLD, w1, w2, w2];
    es := [CreateFence(7, true), Execute(OneList(0, Some(7)), Success), FenceSynchronize(7, Success)];
    assert w2.fences == w1.fences[7 := SetTracked(w1.fences[7], [0], Positions(0, 1))];
    assert Next(INITIAL_WORLD, es[0], w1) && Next(w1, es[1], w2) && Next(w2, es[2], w2);
  }

  /**
   Unsignalled targets are not enough for the fence's report: a job that failed, was submitted
   again through the queue and then succeeded makes its fence succeed over the failed submission.
   */
  lemma FenceSucceedsOverFailure() returns (ws: seq<World>, es: seq<Event>)
    ensures IsRun(ws, es) && |es| == 6 && forall i :: 0 <= i < 6 ==> UnsignalledTarget(ws[i], es[i])
    ensures es[5] == FenceSynchronize(7, Success) && 7 in ws[5].fences && ws[5].fences[7].latest == [0]
    ensures ws[6].log == [Submission(0, Done(1)), Submission(0, COMPLETED)]
  {
    hide Next, UnsignalledTarget;
    var failed, again := Submission(0, Done(1)), Submission(0, COMPLETED);
    var idle, busy := FenceState(false, [], []), FenceState(false, [0], [0]);
    var w1 := World([], [], map[7 := idle]);
    var w2, w3 := World([] + [Submission(0, Pending)], [], map[7 := busy]), World([failed], [], map[7 := busy]);
    var w4 := World([failed] + [Submission(0, Pending)], [] + [0], map[7 := busy]);
    var w5 := World([failed, again], [0], map[7 := busy]);
    var w6 := w5.(fences := map[7 := Drained(busy)]);
    var toFence, toQueue := Execute(OneList(0, Some(7)), Success), Execute(OneList(0, None), Success);
    CreateStep(w1, 7);
    FenceStep(w1, w2);
    DeviceStep(w2, w3);
    OneListStep(w3, 0);
    DeviceStep(w4, w5);
    FenceWaitOverResubmission(w5, busy);
    UnsignalledSteps(w1, w3);
    ws := [INITIAL_WORLD, w1, w2, w3, w4, w5, w6];
    es := [CreateFence(7, false), toFence, DeviceRuns, toQueue, DeviceRuns, FenceSynchronize(7, Success)];
    RunOf(ws, es);
    OtherEventsFree(ws, es);
  }

  /** A run given by its steps. */
  lemma RunOf(ws: seq<World>, es: seq<Event>)
    requires |ws| == |es| + 1 <= 7 && ws[0] == INITIAL_WORLD
    requires |es| > 0 ==> Next(ws[0], es[0], ws[1])
    requires |es| > 1 ==> Next(ws[1], es[1], ws[2])
    requires |es| > 2 ==> Next(ws[2], es[2], ws[3])
    requires |es| > 3 ==> Next(ws[3], es[3], ws[4])
    requires |es| > 4 ==> Next(ws[4], es[4], ws[5])
    requires |es| > 5 ==> Next(ws[5], es[5], ws[6])
    ensures IsRun(ws, es)
  {
    hide Next;
  }

  lemma CreateStep(w: World, id: FenceId)
    requires w == World([], [], map[id := FenceState(false, [], [])])
    ensures Next(INITIAL_WORLD, CreateFence(id, false), w)
  {
    assert map[][id := FenceState(false, [], [])] == w.fences;
  }

  lemma DeviceStep(w: World, w': World)
    requires Progress(w.log, w'.log) && w' == w.(log := w'.log)
    ensures Next(w, DeviceRuns, w')
  {
  }

  lemma FenceStep(w1: World, w2: World)
    requires w1 == World([], [], map[7 := FenceState(false, [], [])])
    requires w2 == World([] + [Submission(0, Pending)], [], map[7 := FenceState(false, [0], [0])])
    ensures Next(w1, Execute(OneList(0, Some(7)), Success), w2)
  {
    hide SubmitsOf;
    OneListSubmits(0, Some(7));
    assert Positions(0, 1) == [0];
    assert w2.fences == w1.fences[7 := SetTracked(w1.fences[7], [0], Positions(0, 1))];
  }

  lemma FenceWaitOverResubmission(w: World, busy: FenceState)
    requires w == World([Submission(0, Done(1)), Submission(0, COMPLETED)], [0], map[7 := busy])
    requires busy == FenceState(false, [0], [0])
    ensures Next(w, FenceSynchronize(7, Success), w.(fences := map[7 := Drained(busy)]))
  {
    LatestUnique(w.log, 0, 1);
    FirstFailureDecides(Statuses(w.log, [0]));
    assert w.fences[7 := Drained(busy)] == map[7 := Drained(busy)];
  }

  lemma UnsignalledSteps(w1: World, w3: World)
    requires 7 in w1.fences && !w1.fences[7].signaled
    ensures UnsignalledTarget(w1, Execute(OneList(0, Some(7)), Success))
    ensures UnsignalledTarget(w3, Execute(OneList(0, None), Success))
  {
    hide SubmitsOf;
  }

  lemma OtherEventsFree(ws: seq<World>, es: seq<Event>)
    requires |es| < |ws|
    ensures forall i :: 0 <= i < |es| && !es[i].Execute? ==> UnsignalledTarget(ws[i], es[i])
  {
  }
}
