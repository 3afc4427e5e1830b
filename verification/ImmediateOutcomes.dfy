/**
 What calls on an immediate list return and leave behind
 (umd/level_zero_driver/source/immediate_cmdlist.cpp).
 */
module ImmediateOutcomes {
  import opened Jobs
  import opened QueueProtocol
  import opened CommandLists
  import opened ImmediateLists
  import QueueOutcomes

  lemma SubmittedAndWaited(w: World, a: ExecArgs, w': World)
    requires a.Valid() && OneAtATime(w) && ExecAndWait(w, true, a, Success, w')
    requires forall mid :: ExecStep(w, a, Success, mid) ==> OneAtATime(mid)
    ensures AllCompleted(w'.log)
  {
    hide ExecStep, SyncStep, OneAtATime;
    var mid :| ExecStep(w, a, Success, mid) && SyncStep(mid, Success, w');
    SyncStepSerial(mid, Success, w');
  }

  /** On a synchronous queue a successful append returns only when its job, and every earlier one, succeeded. */
  lemma SynchronousAppendDone(s: ImmState, op: Append, env: Env, s': ImmState)
    requires Inv(s) && AppendStep(s, op, true, env, Success, s')
    ensures AllCompleted(s'.world.log)
  {
    hide OneAtATime, CheckStep, ExecAndWait, ExecStep, PushAll, Items, AllCompleted;
    var s1 :| CheckStep(s, Success, s1) && AfterCheck(s1, op, true, env, Success, s');
    CheckKeeps(s, Success, s1);
    var (closed, ok) := CloseJob(PushAll(s1.job, Items(op)).job, env.failAt);
    var a := CallArgs(s1.id, |closed.commands|, env.outcome);
    NotYetSubmitted(s1);
    forall mid | ExecStep(s1.world, a, Success, mid) ensures OneAtATime(mid) {
      ExecSerial(s1.world, s1.id, |closed.commands|, env.outcome, Success, mid);
    }
    SubmittedAndWaited(s1.world, a, s'.world);
  }

  lemma NotYetSubmitted(s: ImmState)
    requires Inv(s) && !s.job.closed
    ensures OneAtATime(s.world) && forall k :: 0 <= k < |s.world.log| ==> s.world.log[k].job != s.id
  {
    hide OneAtATime;
  }

  /** The commands an append would submit from this job. */
  function Combined(job: Job, op: Append): (cs: seq<Command>)
  {
    PushAll(job, Items(op)).job.commands
  }

  lemma AsynchronousResult(w: World, id: JobId, n: nat, outcome: Outcome, r: ZeResult, w': World)
    requires ExecAndWait(w, false, CallArgs(id, n, outcome), r, w')
    ensures r == if n > 0 && outcome != Accepted then QueueOutcomes.ErrorOf(outcome) else Success
  {
    var a := CallArgs(id, n, outcome);
    var lists, outcomes := a.lists.value, a.outcomes;
    assert ValidateFrom(lists, 1) == Success && ValidateFrom(lists, 0) == Success;
    assert SubmitFrom(lists, outcomes, 1) == SubmitRun([], Success);
  }

  /**
   The result of an append once the earlier jobs have succeeded, on an open job and an
   asynchronous queue: the error of its pushes, then that of its buffers, then that of its
   submission, which an empty job does not need.
   */
  lemma AppendResult(s1: ImmState, op: Append, env: Env, r: ZeResult, s': ImmState)
    requires Open(s1.job) && AfterCheck(s1, op, false, env, r, s')
    ensures var pushed := PushAll(s1.job, Items(op)).result;
            r == if pushed != Success then pushed
                 else if env.failAt < BufferCount(Combined(s1.job, op)) then InvalidSynchronizationObject
                 else if Combined(s1.job, op) != [] && env.outcome != Accepted then QueueOutcomes.ErrorOf(env.outcome)
                 else Success
  {
    hide ExecAndWait, Items;
    var pushed := PushAll(s1.job, Items(op));
    PushAllAdds(s1.job, Items(op));
    hide PushAll;
    if pushed.result == Success {
      var (closed, ok) := CloseJob(pushed.job, env.failAt);
      if ok { AsynchronousResult(s1.world, s1.id, |closed.commands|, env.outcome, r, s'.world); }
    }
  }

  /** A successful wait of the host leaves every job succeeded and an empty open job; another one changes no job. */
  lemma HostSynchronizeMeans(s: ImmState, r: ZeResult, s': ImmState)
    requires Inv(s) && HostSyncStep(s, r, s')
    ensures r == Success ==> AllCompleted(s'.world.log) && s'.job == NEW_JOB && s'.id != s.id
    ensures r != Success ==> s'.job == s.job && s'.id == s.id
    ensures s'.content == s.content && |s'.world.log| == |s.world.log|
  {
    hide OneAtATime, SyncStep;
    SyncStepSerial(s.world, r, s'.world);
  }

  /** Before an append, a job that was closed is replaced by an empty one, and an open one is kept. */
  lemma CheckMeans(s: ImmState, r: ZeResult, s1: ImmState)
    requires CheckStep(s, r, s1)
    ensures s.job.closed ==> s1.job == NEW_JOB && s1.id == s.nextId
    ensures !s.job.closed ==> s1.job == s.job && s1.id == s.id
  {
    hide SyncStep;
  }
}
