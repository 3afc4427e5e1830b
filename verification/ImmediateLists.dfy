/**
 Immediate command lists (umd/level_zero_driver/source/immediate_cmdlist.cpp): every
 append waits for the previous job, builds a job of its own and submits it to a queue
 that belongs to the list alone.
 */
module ImmediateLists {
  import opened Jobs
  import opened QueueProtocol
  import opened CommandLists
  import CommandQueues

  /** content: the commands of every job the list has handed to its queue. */
  datatype ImmState = ImmState(world: World, job: Job, id: JobId, nextId: JobId, content: map<JobId, seq<Command>>)

  const FRESH_STATE := ImmState(INITIAL_WORLD, NEW_JOB, 0, 1, map[])

  /** A new VPUJob object in place of the current one. */
  function NextJob(s: ImmState): (r: ImmState)
  {
    s.(job := NEW_JOB, id := s.nextId, nextId := s.nextId + 1)
  }

  function ReopenJob(s: ImmState): (r: ImmState)
  {
    if s.job.closed then NextJob(s) else s
  }

  /** The environment of one append: the first buffer that cannot be built, and the device's answer. */
  datatype Env = Env(failAt: nat, outcome: Outcome)

  function CallArgs(id: JobId, numCommands: nat, outcome: Outcome): (a: ExecArgs)
    ensures a.Valid()
  {
    ExecArgs(Some([CmdList(id, true, numCommands)]), [outcome], None)
  }

  /** executeCommandLists on a queue that may be synchronous. */
  ghost predicate ExecAndWait(w: World, synchronous: bool, a: ExecArgs, r: ZeResult, w': World)
    requires a.Valid()
  {
    || (ExecStep(w, a, r, w') && (r == Success ==> !synchronous))
    || (synchronous && exists mid :: ExecStep(w, a, Success, mid) && SyncStep(mid, r, w'))
  }

  /** What an append does once checkCommandAppendCondition has synchronised the queue. */
  ghost predicate AfterCheck(s1: ImmState, op: Append, synchronous: bool, env: Env, r: ZeResult, s': ImmState)
  {
    var pushed := PushAll(s1.job, Items(op));
    if pushed.result != Success then r == pushed.result && s' == s1.(job := pushed.job)
    else
      var (closed, ok) := CloseJob(pushed.job, env.failAt);
      if !ok then r == InvalidSynchronizationObject && s' == s1.(job := closed)
      else
        && ExecAndWait(s1.world, synchronous, CallArgs(s1.id, |closed.commands|, env.outcome), r, s'.world)
        && var s2 := s1.(world := s'.world, job := closed, content := s1.content[s1.id := closed.commands]);
           s' == if r == Success then NextJob(s2) else s2
  }

  /** checkCommandAppendCondition. */
  ghost predicate CheckStep(s: ImmState, r: ZeResult, s1: ImmState)
  {
    SyncStep(s.world, r, s1.world) && s1 == ReopenJob(s).(world := s1.world)
  }

  ghost predicate AppendStep(s: ImmState, op: Append, synchronous: bool, env: Env, r: ZeResult, s': ImmState)
  {
    || (CheckStep(s, r, s') && r != Success)
    || exists s1 :: CheckStep(s, Success, s1) && AfterCheck(s1, op, synchronous, env, r, s')
  }

  ghost predicate HostSyncStep(s: ImmState, r: ZeResult, s': ImmState)
  {
    && SyncStep(s.world, r, s'.world)
    && s' == (if r == Success then NextJob(s) else s).(world := s'.world)
  }

  class ImmediateCommandList {
    const queue: CommandQueues.CommandQueue
    const list: CommandList
    var jobId: JobId
    var nextId: JobId
    ghost var content: map<JobId, seq<Command>>

    ghost predicate Valid()
      reads this, queue
    {
      queue.Valid() && queue.fences == map[]
    }

    ghost function State(): (s: ImmState)
      requires Valid()
      reads this, list, queue, queue.device, queue.fences.Values
    {
      ImmState(queue.World(), list.vpuJob, jobId, nextId, content)
    }

    constructor (queue: CommandQueues.CommandQueue)
      requires queue.Valid() && queue.World() == INITIAL_WORLD
      ensures this.queue == queue && Valid() && State() == FRESH_STATE
    {
      this.queue := queue;
      list := new CommandList(false);
      jobId, nextId, content := 0, 1, map[];
      new;
      assert queue.World().fences.Keys == queue.fences.Keys;
    }

    method Reset()
      requires Valid()
      modifies this, list
      ensures Valid() && State() == NextJob(old(State()))
    {
      var _ := list.Reset();
      jobId, nextId := nextId, nextId + 1;
    }

    method CheckCommandAppendCondition() returns (r: ZeResult)
      requires Valid()
      modifies this, list, queue`trackedJobs, queue.device
      ensures Valid() && CheckStep(old(State()), r, State())
    {
      hide SyncStep;
      r := queue.Synchronize();
      if list.vpuJob.closed {
        Reset();
      }
    }

    method HostSynchronize() returns (r: ZeResult)
      requires Valid()
      modifies this, list, queue`trackedJobs, queue.device
      ensures Valid() && HostSyncStep(old(State()), r, State())
    {
      hide SyncStep;
      r := queue.Synchronize();
      if r == Success {
        Reset();
      }
    }

    method PostAppend(env: Env) returns (r: ZeResult)
      requires Valid()
      modifies this, list, queue`trackedJobs, queue.device
      ensures Valid()
      ensures var s := old(State());
              var (closed, ok) := CloseJob(s.job, env.failAt);
              if !ok then r == InvalidSynchronizationObject && State() == s.(job := closed)
              else
                && ExecAndWait(s.world, queue.synchronous, CallArgs(s.id, |closed.commands|, env.outcome), r,
                               State().world)
                && var s2 := s.(world := State().world, job := closed, content := s.content[s.id := closed.commands]);
                   State() == if r == Success then NextJob(s2) else s2
    {
      hide SyncStep, ExecStep;
      var closing := CloseJob(list.vpuJob, env.failAt);
      list.vpuJob := closing.0;
      if !closing.1 { return InvalidSynchronizationObject; }
      content := content[jobId := list.vpuJob.commands];
      r := queue.ExecuteCommandLists(CallArgs(jobId, |list.vpuJob.commands|, env.outcome));
      if r != Success { return; }
      Reset();
    }

    method AppendWithEvents(op: Append, env: Env) returns (r: ZeResult)
      requires Valid()
      modifies this, list, queue`trackedJobs, queue.device
      ensures Valid() && AppendStep(old(State()), op, queue.synchronous, env, r, State())
    {
      hide CheckStep, ExecAndWait, PushAll, CloseJob;
      r := CheckCommandAppendCondition();
      if r != Success { return; }
      ghost var s1 := State();
      r := list.Push(Items(op));
      if r != Success {
        assert AfterCheck(s1, op, queue.synchronous, env, r, State());
        return;
      }
      r := PostAppend(env);
      assert AfterCheck(s1, op, queue.synchronous, env, r, State());
    }
  }

  // ------------------------------------------------------------------------------- runs

  datatype ImmEvent =
    | AppendEvent(op: Append, env: Env, result: ZeResult)
    | CheckEvent(result: ZeResult)
    | HostSyncEvent(result: ZeResult)
    | ResetEvent
    | DeviceEvent

  ghost predicate Step(s: ImmState, synchronous: bool, e: ImmEvent, s': ImmState)
  {
    match e
    case AppendEvent(op, env, r) => AppendStep(s, op, synchronous, env, r, s')
    case CheckEvent(r) => CheckStep(s, r, s')
    case HostSyncEvent(r) => HostSyncStep(s, r, s')
    case ResetEvent => s' == NextJob(s)
    case DeviceEvent => Progress(s.world.log, s'.world.log) && s' == s.(world := s.world.(log := s'.world.log))
  }

  ghost predicate IsImmRun(ss: seq<ImmState>, synchronous: bool, es: seq<ImmEvent>)
  {
    && |ss| == |es| + 1 && ss[0] == FRESH_STATE
    && forall i :: 0 <= i < |es| ==> Step(ss[i], synchronous, es[i], ss[i + 1])
  }

  // -------------------------------------------------------- serial, fail-stop execution

  /** Only the last submission may still be undecided, and then the queue tracks it. */
  ghost predicate OneAtATime(w: World)
  {
    && w.fences == map[]
    && (forall k :: 0 <= k < |w.log| - 1 ==> w.log[k].state == COMPLETED)
    && (forall i, k :: 0 <= i < k < |w.log| ==> w.log[i].job != w.log[k].job)
    && if w.tracked == [] then w.log == [] || w.log[|w.log| - 1].state == COMPLETED
       else w.log != [] && w.tracked == [w.log[|w.log| - 1].job]
  }

  /** Job objects in use were allocated earlier; the one under construction is not submitted. */
  ghost predicate FreshIds(s: ImmState)
  {
    && s.id < s.nextId
    && forall k :: 0 <= k < |s.world.log| ==>
         && s.world.log[k].job < s.nextId
         && s.world.log[k].job in s.content
         && (s.world.log[k].job == s.id ==> s.job.closed)
  }

  ghost predicate Inv(s: ImmState)
  {
    OneAtATime(s.world) && FreshIds(s)
  }

  lemma ProgressKeeps(w: World, w': World)
    requires OneAtATime(w) && Progress(w.log, w'.log) && w'.tracked == w.tracked && w'.fences == w.fences
    ensures OneAtATime(w')
  {
    forall i, k | 0 <= i < k < |w'.log|
      ensures w'.log[i].job != w'.log[k].job
    {
      assert w.log[i].job == w'.log[i].job && w.log[k].job == w'.log[k].job;
    }
  }

  /** A successful synchronize leaves every submission of the list completed with success. */
  lemma SyncStepSerial(w: World, r: ZeResult, w': World)
    requires OneAtATime(w) && SyncStep(w, r, w')
    ensures OneAtATime(w') && Progress(w.log, w'.log)
    ensures r == Success ==> AllCompleted(w'.log) && w'.tracked == []
    ensures r != Success ==> w'.tracked == w.tracked
  {
    assert w'.fences == map[];
    ProgressKeeps(w, w'.(tracked := w.tracked));
    if r == Success {
      WaitedSucceeded(w'.log, w.tracked);
      if w.tracked != [] {
        var last := |w'.log| - 1;
        LatestUnique(w'.log, w'.log[last].job, last);
        assert w.log[last].job == w'.log[last].job;
        assert Succeeded(w'.log, w'.log[last].job);
      }
    }
  }

  lemma OneCallSubmits(id: JobId, n: nat, outcome: Outcome)
    ensures SubmitsOf(CallArgs(id, n, outcome)).jobs == (if n > 0 && outcome.Accepted? then [id] else [])
    ensures SubmitsOf(CallArgs(id, n, outcome)).result == Success <==> n == 0 || outcome.Accepted?
  {
    var a := CallArgs(id, n, outcome);
    var lists, outcomes := a.lists.value, a.outcomes;
    assert ValidateFrom(lists, 1) == Success;
    assert ValidateFrom(lists, 0) == Success;
    assert SubmitFrom(lists, outcomes, 1) == SubmitRun([], Success);
    assert [id] + [] == [id];
  }

  /** Submission of the one job onto a queue whose earlier jobs have all succeeded. */
  lemma ExecSerial(w: World, id: JobId, n: nat, outcome: Outcome, r: ZeResult, w': World)
    requires OneAtATime(w) && w.tracked == [] && AllCompleted(w.log)
    requires forall k :: 0 <= k < |w.log| ==> w.log[k].job != id
    requires ExecStep(w, CallArgs(id, n, outcome), r, w')
    ensures OneAtATime(w') && w'.fences == map[]
    ensures |w'.log| == |w.log| + (if n > 0 && outcome.Accepted? then 1 else 0)
    ensures forall k :: 0 <= k < |w.log| ==> w'.log[k] == w.log[k]
    ensures |w'.log| > |w.log| ==> w'.log[|w.log|].job == id
    ensures r == Success <==> n == 0 || outcome.Accepted?
  {
    hide SubmitsOf, Submitted, OneAtATime;
    OneCallSubmits(id, n, outcome);
    var js := SubmitsOf(CallArgs(id, n, outcome)).jobs;
    SubmittedToDone(w.log, js, w'.log);
    OneMore(w, w', js);
  }

  /** On a log of completed submissions the device has nothing left to do but the new ones. */
  lemma SubmittedToDone(log: Log, js: seq<JobId>, log': Log)
    requires Submitted(log, js, log') && AllCompleted(log)
    ensures |log'| == |log| + |js| && forall k :: 0 <= k < |log| ==> log'[k] == log[k]
    ensures forall i :: 0 <= i < |js| ==> log'[|log| + i].job == js[i]
  {
    forall k | 0 <= k < |log| ensures log'[k] == log[k] {
      assert log'[..|log|][k] == log'[k];
    }
  }

  lemma OneMore(w: World, w': World, js: seq<JobId>)
    requires OneAtATime(w) && w.tracked == [] && AllCompleted(w.log) && |js| <= 1
    requires forall k :: 0 <= k < |w.log| ==> w.log[k].job !in js
    requires |w'.log| == |w.log| + |js| && forall k :: 0 <= k < |w.log| ==> w'.log[k] == w.log[k]
    requires js != [] ==> w'.log[|w.log|].job == js[0]
    requires w'.fences == w.fences && w'.tracked == js
    ensures OneAtATime(w') && w'.fences == map[]
  {
  }

  /** Submission followed by the wait of a synchronous queue. */
  lemma ExecAndWaitSerial(w: World, synchronous: bool, id: JobId, n: nat, outcome: Outcome, r: ZeResult, w': World)
    requires OneAtATime(w) && w.tracked == [] && AllCompleted(w.log)
    requires forall k :: 0 <= k < |w.log| ==> w.log[k].job != id
    requires ExecAndWait(w, synchronous, CallArgs(id, n, outcome), r, w')
    ensures OneAtATime(w')
    ensures |w'.log| == |w.log| + (if n > 0 && outcome.Accepted? then 1 else 0)
    ensures forall k :: 0 <= k < |w.log| ==> w'.log[k] == w.log[k]
    ensures |w'.log| > |w.log| ==> w'.log[|w.log|].job == id
    ensures r == Success ==> n == 0 || outcome.Accepted?
  {
    hide ExecStep, SyncStep, OneAtATime;
    var a := CallArgs(id, n, outcome);
    if ExecStep(w, a, r, w') && (r == Success ==> !synchronous) {
      ExecSerial(w, id, n, outcome, r, w');
    } else {
      var mid :| ExecStep(w, a, Success, mid) && SyncStep(mid, r, w');
      ExecSerial(w, id, n, outcome, Success, mid);
      SyncStepSerial(mid, r, w');
    }
  }

  lemma CheckKeeps(s: ImmState, r: ZeResult, s1: ImmState)
    requires Inv(s) && CheckStep(s, r, s1)
    ensures Inv(s1) && !s1.job.closed && |s1.world.log| == |s.world.log| && s1.content == s.content
    ensures r == Success ==> AllCompleted(s1.world.log) && s1.world.tracked == []
    ensures r != Success ==> s1.world.tracked == s.world.tracked
    ensures forall k :: 0 <= k < |s1.world.log| ==> s1.world.log[k].job == s.world.log[k].job
  {
    hide OneAtATime, SyncStep;
    SyncStepSerial(s.world, r, s1.world);
  }

  /** How much an append adds to the log: a job exactly when it has commands and all went well. */
  lemma AfterCheckKeeps(s1: ImmState, op: Append, synchronous: bool, env: Env, r: ZeResult, s': ImmState)
    requires Inv(s1) && !s1.job.closed && AllCompleted(s1.world.log) && s1.world.tracked == []
    requires AfterCheck(s1, op, synchronous, env, r, s')
    ensures Inv(s')
    ensures |s1.world.log| <= |s'.world.log| <= |s1.world.log| + 1
    ensures forall k :: 0 <= k < |s1.world.log| ==> s'.world.log[k] == s1.world.log[k]
  {
    hide OneAtATime, ExecAndWait, PushAll, Items;
    var pushed := PushAll(s1.job, Items(op));
    if pushed.result == Success {
      var (closed, ok) := CloseJob(pushed.job, env.failAt);
      if ok {
        ExecAndWaitSerial(s1.world, synchronous, s1.id, |closed.commands|, env.outcome, r, s'.world);
      }
    }
  }

  lemma StepKeepsInv(s: ImmState, synchronous: bool, e: ImmEvent, s': ImmState)
    requires Inv(s) && Step(s, synchronous, e, s')
    ensures Inv(s')
    ensures |s.world.log| <= |s'.world.log| <= |s.world.log| + 1
    ensures |s'.world.log| > |s.world.log| ==>
              forall k :: 0 <= k < |s.world.log| ==> s'.world.log[k].state == COMPLETED
  {
    hide OneAtATime, SyncStep, CheckStep, AfterCheck;
    match e
    case AppendEvent(op, env, r) =>
      if CheckStep(s, r, s') && r != Success {
        CheckKeeps(s, r, s');
      } else {
        var s1 :| CheckStep(s, Success, s1) && AfterCheck(s1, op, synchronous, env, r, s');
        CheckKeeps(s, Success, s1);
        AfterCheckKeeps(s1, op, synchronous, env, r, s');
      }
    case CheckEvent(r) => CheckKeeps(s, r, s');
    case HostSyncEvent(r) => SyncStepSerial(s.world, r, s'.world);
    case ResetEvent =>
    case DeviceEvent => ProgressKeeps(s.world, s'.world);
  }

  lemma {:induction false} RunInv(ss: seq<ImmState>, synchronous: bool, es: seq<ImmEvent>, n: nat)
    requires IsImmRun(ss, synchronous, es) && n <= |es|
    ensures Inv(ss[n])
  {
    hide Step;
    if n > 0 {
      RunInv(ss, synchronous, es, n - 1);
      StepKeepsInv(ss[n - 1], synchronous, es[n - 1], ss[n]);
    }
  }

  /**
   Serial: when a job is submitted, every earlier job of the list has completed with success.
   This rests on a refused submission leaving nothing on the device: a job of several buffers
   is taken to be submitted as a whole or not at all.
   */
  lemma SubmissionsAreSerial(ss: seq<ImmState>, synchronous: bool, es: seq<ImmEvent>, n: nat)
    requires IsImmRun(ss, synchronous, es) && n < |es|
    requires |ss[n + 1].world.log| > |ss[n].world.log|
    ensures |ss[n + 1].world.log| == |ss[n].world.log| + 1
    ensures forall k {:trigger ss[n + 1].world.log[k]} :: 0 <= k < |ss[n].world.log| ==>
              ss[n + 1].world.log[k].state == COMPLETED
  {
    RunInv(ss, synchronous, es, n);
    StepKeepsInv(ss[n], synchronous, es[n], ss[n + 1]);
  }

  ghost predicate Failed(s: ImmState)
  {
    exists k :: FailedAt(s.world.log, k)
  }

  ghost predicate FailedAt(log: Log, k: nat)
  {
    k < |log| && log[k].state.Done? && log[k].state != COMPLETED
  }

  /** A failed job stays in the queue's list, so synchronize keeps reporting it. */
  lemma FailedSync(w: World, r: ZeResult, w': World, k: nat)
    requires OneAtATime(w) && SyncStep(w, r, w') && FailedAt(w.log, k)
    ensures r != Success && FailedAt(w'.log, k) && |w'.log| == |w.log|
  {
    SyncStepSerial(w, r, w');
    assert w'.log[k] == w.log[k];
  }

  lemma FailedBlocks(s: ImmState, synchronous: bool, e: ImmEvent, s': ImmState)
    requires Inv(s) && Failed(s) && Step(s, synchronous, e, s')
    ensures Failed(s') && |s'.world.log| == |s.world.log|
  {
    hide OneAtATime, SyncStep, AfterCheck;
    var k :| FailedAt(s.world.log, k);
    match e
    case AppendEvent(op, env, r) =>
      if CheckStep(s, r, s') {
        FailedSync(s.world, r, s'.world, k);
      } else {
        var s1 :| CheckStep(s, Success, s1) && AfterCheck(s1, op, synchronous, env, r, s');
        FailedSync(s.world, Success, s1.world, k);
      }
    case CheckEvent(r) => FailedSync(s.world, r, s'.world, k);
    case HostSyncEvent(r) => FailedSync(s.world, r, s'.world, k);
    case ResetEvent => assert FailedAt(s'.world.log, k);
    case DeviceEvent => assert FailedAt(s'.world.log, k);
  }

  /** Fail-stop: once a job has failed the list never submits another one. */
  lemma {:induction false} NothingAfterFailure(ss: seq<ImmState>, synchronous: bool, es: seq<ImmEvent>, n: nat, m: nat)
    requires IsImmRun(ss, synchronous, es) && n <= m <= |es| && Failed(ss[n])
    ensures Failed(ss[m]) && |ss[m].world.log| == |ss[n].world.log|
    decreases m
  {
    hide Step, Failed, Inv;
    if n < m {
      NothingAfterFailure(ss, synchronous, es, n, m - 1);
      RunInv(ss, synchronous, es, m - 1);
      FailedBlocks(ss[m - 1], synchronous, es[m - 1], ss[m]);
    }
  }

  // ------------------------------------------------------- refinement of a regular list

  /** Everything the list has submitted, in submission order. */
  ghost function Flat(log: Log, content: map<JobId, seq<Command>>): (cs: seq<Command>)
    requires forall k :: 0 <= k < |log| ==> log[k].job in content
  {
    if log == [] then []
    else Flat(log[..|log| - 1], content) + content[log[|log| - 1].job]
  }

  lemma {:induction false} FlatStable(a: Log, c: map<JobId, seq<Command>>, b: Log, d: map<JobId, seq<Command>>)
    requires |a| == |b| && forall k :: 0 <= k < |a| ==> a[k].job == b[k].job
    requires forall k :: 0 <= k < |a| ==> a[k].job in c && b[k].job in d && c[a[k].job] == d[b[k].job]
    ensures Flat(a, c) == Flat(b, d)
    decreases |a|
  {
    if a != [] { FlatStable(a[..|a| - 1], c, b[..|b| - 1], d); }
  }

  ghost function Output(s: ImmState): (cs: seq<Command>)
    requires Inv(s)
  {
    Flat(s.world.log, s.content)
  }

  /**
   A successful append on an open job: one job with what was left in it and the commands of the
   append, none at all when there are none, and again an open empty job.
   */
  lemma AppendOutput(s: ImmState, op: Append, synchronous: bool, env: Env, s': ImmState)
    requires Inv(s) && Open(s.job) && AppendStep(s, op, synchronous, env, Success, s')
    ensures Inv(s') && s'.job == NEW_JOB && Intact(Items(op))
    ensures var cs := s.job.commands + Effective(Items(op));
            && Output(s') == Output(s) + cs
            && |s'.world.log| == |s.world.log| + (if cs == [] then 0 else 1)
            && (cs != [] ==> s'.content[s'.world.log[|s.world.log|].job] == cs)
  {
    hide OneAtATime, CheckStep, ExecAndWait, Items, Intact, Effective;
    var s1 :| CheckStep(s, Success, s1) && AfterCheck(s1, op, synchronous, env, Success, s');
    CheckKeeps(s, Success, s1);
    CheckOpenJob(s, Success, s1);
    FlatStable(s.world.log, s.content, s1.world.log, s1.content);
    AfterCheckOutput(s1, op, synchronous, env, s');
  }

  lemma CheckOpenJob(s: ImmState, r: ZeResult, s1: ImmState)
    requires CheckStep(s, r, s1) && Open(s.job)
    ensures s1.job == s.job
  {
  }

  lemma AfterCheckOutput(s1: ImmState, op: Append, synchronous: bool, env: Env, s': ImmState)
    requires Inv(s1) && Open(s1.job) && AllCompleted(s1.world.log) && s1.world.tracked == []
    requires AfterCheck(s1, op, synchronous, env, Success, s')
    ensures Inv(s') && s'.job == NEW_JOB && Intact(Items(op))
    ensures var cs := s1.job.commands + Effective(Items(op));
            && Output(s') == Output(s1) + cs
            && |s'.world.log| == |s1.world.log| + (if cs == [] then 0 else 1)
            && (cs != [] ==> s'.content[s'.world.log[|s1.world.log|].job] == cs)
  {
    hide OneAtATime, ExecAndWait, Items, Intact, Effective, PushAll;
    AfterCheckKeeps(s1, op, synchronous, env, Success, s');
    PushAllSpec(s1.job, Items(op));
    var cs := s1.job.commands + Effective(Items(op));
    ExecAndWaitSerial(s1.world, synchronous, s1.id, |cs|, env.outcome, Success, s'.world);
    var n := |s1.world.log|;
    FlatStable(s1.world.log, s1.content, s'.world.log[..n], s'.content);
    if cs == [] {
      assert s'.world.log[..n] == s'.world.log;
    }
  }

  /** The appends of a run, in order. */
  function Ops(es: seq<ImmEvent>): (ops: seq<Append>)
  {
    if es == [] then []
    else Ops(es[..|es| - 1]) + (if es[|es| - 1].AppendEvent? then [es[|es| - 1].op] else [])
  }

  const EMPTY_LIST := ListState(NEW_JOB, map[], false)

  /** A regular list given the same appends. */
  function RegularRun(ops: seq<Append>): (s: ListState)
  {
    if ops == [] then EMPTY_LIST else RegularAppend(RegularRun(ops[..|ops| - 1]), ops[|ops| - 1]).0
  }

  lemma RegularRunSnoc(ops: seq<Append>, op: Append)
    requires Open(RegularRun(ops).job) && Intact(Items(op))
    ensures Open(RegularRun(ops + [op]).job)
    ensures RegularRun(ops + [op]).job.commands == RegularRun(ops).job.commands + Effective(Items(op))
  {
    hide Items, Intact, Effective, PushAll;
    assert (ops + [op])[..|ops|] == ops;
    PushAllSpec(RegularRun(ops).job, Items(op));
  }

  ghost predicate AppendsSucceed(es: seq<ImmEvent>, n: nat)
    requires n <= |es|
  {
    forall i :: 0 <= i < n && es[i].AppendEvent? ==> es[i].result == Success
  }

  lemma StepOutput(s: ImmState, synchronous: bool, e: ImmEvent, s': ImmState)
    requires Inv(s) && s.job == NEW_JOB && Step(s, synchronous, e, s') && !e.AppendEvent?
    ensures Inv(s') && s'.job == NEW_JOB && Output(s') == Output(s)
  {
    StepKeepsInv(s, synchronous, e, s');
    assert |s'.world.log| == |s.world.log| && s'.content == s.content;
    FlatStable(s.world.log, s.content, s'.world.log, s'.content);
  }

  /**
   Refinement: over every run whose appends succeed, with waits and device progress
   anywhere in between, what the list has submitted is the command sequence a regular
   list builds from the same appends.
   */
  lemma {:induction false} ImmediateRefinesRegular(ss: seq<ImmState>, synchronous: bool, es: seq<ImmEvent>, n: nat)
    requires IsImmRun(ss, synchronous, es) && n <= |es| && AppendsSucceed(es, n)
    ensures Inv(ss[n]) && ss[n].job == NEW_JOB && Open(RegularRun(Ops(es[..n])).job)
    ensures Output(ss[n]) == RegularRun(Ops(es[..n])).job.commands
  {
    hide Output, Inv, Step, RegularRun, Open;
    RunInv(ss, synchronous, es, n);
    if n == 0 {
      FreshOutput();
      assert es[..0] == [];
    } else {
      ImmediateRefinesRegular(ss, synchronous, es, n - 1);
      var e := es[n - 1];
      assert es[..n][..n - 1] == es[..n - 1] && es[..n][n - 1] == e;
      StepMatchesRegular(ss[n - 1], synchronous, e, ss[n], Ops(es[..n - 1]));
    }
  }

  lemma FreshOutput()
    ensures Inv(FRESH_STATE) && Output(FRESH_STATE) == RegularRun([]).job.commands && Open(RegularRun([]).job)
  {
  }

  lemma StepMatchesRegular(s: ImmState, synchronous: bool, e: ImmEvent, s': ImmState, ops: seq<Append>)
    requires Inv(s) && s.job == NEW_JOB && Step(s, synchronous, e, s') && (e.AppendEvent? ==> e.result == Success)
    requires Open(RegularRun(ops).job) && Output(s) == RegularRun(ops).job.commands
    ensures Inv(s') && s'.job == NEW_JOB
    ensures var ops' := ops + (if e.AppendEvent? then [e.op] else []);
            Open(RegularRun(ops').job) && Output(s') == RegularRun(ops').job.commands
  {
    hide Output, Inv, RegularRun, Open, AppendStep;
    if e.AppendEvent? {
      assert Open(s.job) by { NewJobOpen(); }
      AppendOutput(s, e.op, synchronous, e.env, s');
      assert NEW_JOB.commands + Effective(Items(e.op)) == Effective(Items(e.op));
      RegularRunSnoc(ops, e.op);
    } else {
      StepOutput(s, synchronous, e, s');
      assert ops + [] == ops;
    }
  }

  lemma NewJobOpen()
    ensures Open(NEW_JOB)
  {
  }

  // ------------------------------------------------- refinement with failing appends

  /** The append fails while its commands are pushed; what was pushed stays in the open job. */
  ghost predicate PushesFail(s: ImmState, op: Append, r: ZeResult, s': ImmState)
  {
    exists s1 :: CheckStep(s, Success, s1) && PushedOnto(s1, op, r, s')
  }

  ghost predicate PushedOnto(s1: ImmState, op: Append, r: ZeResult, s': ImmState)
  {
    var pushed := PushAll(s1.job, Items(op));
    pushed.result == r != Success && s' == s1.(job := pushed.job)
  }

  /** Nothing is thrown away: appends succeed or fail in their pushes, and only empty jobs are replaced. */
  ghost predicate LosesNothing(s: ImmState, e: ImmEvent, s': ImmState)
  {
    match e
    case AppendEvent(op, _, r) => r == Success || PushesFail(s, op, r, s')
    case HostSyncEvent(r) => r == Success ==> s.job.commands == []
    case ResetEvent => s.job.commands == []
    case _ => true
  }

  ghost predicate Together(s: ImmState, regular: ListState)
  {
    && Inv(s) && Open(s.job) && Open(regular.job)
    && Output(s) + s.job.commands == regular.job.commands
  }

  lemma RegularRunPushed(ops: seq<Append>, op: Append)
    requires Open(RegularRun(ops).job)
    ensures Open(RegularRun(ops + [op]).job)
    ensures RegularRun(ops + [op]).job.commands == RegularRun(ops).job.commands + Pushed(Items(op))
  {
    hide Items, PushAll, Pushed;
    assert (ops + [op])[..|ops|] == ops;
    PushAllAdds(RegularRun(ops).job, Items(op));
  }

  lemma FailedPushTogether(s: ImmState, op: Append, r: ZeResult, s': ImmState, ops: seq<Append>)
    requires Together(s, RegularRun(ops)) && PushesFail(s, op, r, s')
    ensures Together(s', RegularRun(ops + [op]))
  {
    hide OneAtATime, CheckStep, RegularRun, PushAll, Items, Pushed;
    var s1 :| CheckStep(s, Success, s1) && PushedOnto(s1, op, r, s');
    CheckKeeps(s, Success, s1);
    CheckOpenJob(s, Success, s1);
    FlatStable(s.world.log, s.content, s1.world.log, s1.content);
    PushAllAdds(s.job, Items(op));
    RegularRunPushed(ops, op);
    assert Output(s') == Output(s);
    assert Output(s) + (s.job.commands + Pushed(Items(op))) == Output(s) + s.job.commands + Pushed(Items(op));
  }

  lemma OtherStepTogether(s: ImmState, synchronous: bool, e: ImmEvent, s': ImmState, regular: ListState)
    requires Together(s, regular) && Step(s, synchronous, e, s') && !e.AppendEvent? && LosesNothing(s, e, s')
    ensures Together(s', regular)
  {
    hide OneAtATime, SyncStep;
    StepKeepsInv(s, synchronous, e, s');
    OtherStepSize(s, synchronous, e, s');
    FlatStable(s.world.log, s.content, s'.world.log, s'.content);
    assert s'.job.commands == s.job.commands;
  }

  lemma OtherStepSize(s: ImmState, synchronous: bool, e: ImmEvent, s': ImmState)
    requires Inv(s) && Step(s, synchronous, e, s') && !e.AppendEvent?
    ensures |s'.world.log| == |s.world.log| && s'.content == s.content
    ensures forall k :: 0 <= k < |s.world.log| ==> s'.world.log[k].job == s.world.log[k].job
  {
    hide OneAtATime, SyncStep;
    match e
    case CheckEvent(r) => SyncStepSerial(s.world, r, s'.world);
    case HostSyncEvent(r) => SyncStepSerial(s.world, r, s'.world);
    case ResetEvent =>
    case DeviceEvent =>
  }

  lemma SuccessTogether(s: ImmState, op: Append, synchronous: bool, env: Env, s': ImmState, ops: seq<Append>)
    requires Together(s, RegularRun(ops)) && AppendStep(s, op, synchronous, env, Success, s')
    ensures Together(s', RegularRun(ops + [op]))
  {
    hide OneAtATime, FreshIds, AppendStep, RegularRun, Items, Effective, Intact, Output;
    AppendOutput(s, op, synchronous, env, s');
    RegularRunSnoc(ops, op);
    NewJobOpen();
    var out, left, added := Output(s), s.job.commands, Effective(Items(op));
    assert out + (left + added) + [] == out + left + added;
  }

  /**
   Refinement with failures: over every run in which appends succeed or fail in their pushes and
   no commands are thrown away, what the list has submitted together with its open job is the
   command sequence a regular list holds after the same appends.  What a failed append left
   behind goes out with the next job.
   */
  lemma {:induction false} LeftoversGoOut(ss: seq<ImmState>, synchronous: bool, es: seq<ImmEvent>, n: nat)
    requires IsImmRun(ss, synchronous, es) && n <= |es|
    requires forall i :: 0 <= i < n ==> LosesNothing(ss[i], es[i], ss[i + 1])
    ensures Together(ss[n], RegularRun(Ops(es[..n])))
  {
    hide Together, Step, RegularRun, LosesNothing;
    if n == 0 {
      assert es[..0] == [];
      FreshTogether();
    } else {
      LeftoversGoOut(ss, synchronous, es, n - 1);
      var e := es[n - 1];
      assert es[..n][..n - 1] == es[..n - 1] && es[..n][n - 1] == e;
      assert LosesNothing(ss[n - 1], e, ss[n - 1 + 1]);
      TogetherStep(ss[n - 1], synchronous, e, ss[n], Ops(es[..n - 1]));
    }
  }

  lemma FreshTogether()
    ensures Together(FRESH_STATE, RegularRun([]))
  {
  }

  lemma TogetherStep(s: ImmState, synchronous: bool, e: ImmEvent, s': ImmState, ops: seq<Append>)
    requires Together(s, RegularRun(ops)) && Step(s, synchronous, e, s') && LosesNothing(s, e, s')
    ensures Together(s', RegularRun(ops + (if e.AppendEvent? then [e.op] else [])))
  {
    hide Together, RegularRun, AppendStep, PushesFail, CheckStep, HostSyncStep;
    if e.AppendEvent? {
      if e.result == Success {
        SuccessTogether(s, e.op, synchronous, e.env, s', ops);
      } else {
        FailedPushTogether(s, e.op, e.result, s', ops);
      }
    } else {
      assert ops + [] == ops;
      OtherStepTogether(s, synchronous, e, s', RegularRun(ops));
    }
  }
}
