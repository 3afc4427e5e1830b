/**
 What the calls of the queue protocol return and leave behind, in terms of their arguments
 and the log alone (umd/level_zero_driver/source/cmdqueue.cpp, fence.cpp).
 */
module QueueOutcomes {
  import opened Jobs
  import opened QueueProtocol

  // --------------------------------------------------------------------- results of execute

  /** The list can be executed. */
  predicate Good(list: ListArg)
  {
    list.CmdList? && list.closed
  }

  /** The first list that is null or open decides the error; without one the call is valid. */
  lemma {:induction false} ValidationDecides(lists: seq<ListArg>, i: nat)
    requires i <= |lists|
    ensures ValidateFrom(lists, i) == Success <==> forall k :: i <= k < |lists| ==> Good(lists[k])
    ensures forall p :: i <= p < |lists| && !Good(lists[p]) && (forall k :: i <= k < p ==> Good(lists[k])) ==>
              ValidateFrom(lists, i) == if lists[p].NullList? then InvalidNullPointer else Uninitialized
    decreases |lists| - i
  {
    if i < |lists| && Good(lists[i]) { ValidationDecides(lists, i + 1); }
  }

  lemma {:induction false} JobsOfMore(lists: seq<ListArg>, more: ListArg, i: nat)
    requires i <= |lists|
    ensures JobsFrom(lists + [more], i) ==
            JobsFrom(lists, i) + (if more.CmdList? && more.numCommands > 0 then [more.job] else [])
    decreases |lists| - i
  {
    if i < |lists| {
      JobsOfMore(lists, more, i + 1);
    } else {
      assert JobsFrom(lists + [more], |lists| + 1) == [];
    }
  }

  /** The list has commands and the device does not take them. */
  predicate Refused(list: ListArg, outcome: Outcome)
  {
    list.CmdList? && list.numCommands > 0 && outcome != Accepted
  }

  function ErrorOf(outcome: Outcome): (r: ZeResult)
  {
    if outcome == SubmitFailed(true) then DeviceLost else Unknown
  }

  /** The first refused list decides: the jobs before it have been submitted, and its error is returned. */
  lemma {:induction false} SubmissionDecides(lists: seq<ListArg>, outcomes: seq<Outcome>, i: nat, p: nat)
    requires i <= p < |lists| == |outcomes| && forall k :: i <= k < |lists| ==> Good(lists[k])
    requires Refused(lists[p], outcomes[p]) && forall k :: i <= k < p ==> !Refused(lists[k], outcomes[k])
    ensures SubmitFrom(lists, outcomes, i) == SubmitRun(JobsFrom(lists[..p], i), ErrorOf(outcomes[p]))
    decreases p - i
  {
    if i < p { SubmissionDecides(lists, outcomes, i + 1, p); }
  }

  lemma {:induction false} NothingRefused(lists: seq<ListArg>, outcomes: seq<Outcome>, i: nat)
    requires i <= |lists| == |outcomes| && forall k :: i <= k < |lists| ==> Good(lists[k])
    requires forall k :: i <= k < |lists| ==> !Refused(lists[k], outcomes[k])
    ensures SubmitFrom(lists, outcomes, i) == SubmitRun(JobsFrom(lists, i), Success)
    decreases |lists| - i
  {
    if i < |lists| { NothingRefused(lists, outcomes, i + 1); }
  }

  /** All lists can be executed and the device takes all that have commands. */
  ghost predicate Taken(a: ExecArgs)
    requires a.Valid()
  {
    && a.lists.Some? && a.lists.value != []
    && (forall i :: 0 <= i < |a.lists.value| ==> Good(a.lists.value[i]))
    && (forall i :: 0 <= i < |a.lists.value| ==> !Refused(a.lists.value[i], a.outcomes[i]))
  }

  lemma TakenExactly(a: ExecArgs)
    requires a.Valid()
    ensures SubmitsOf(a).result == Success <==> Taken(a)
    ensures SubmitsOf(a).result != InvalidSynchronizationObject
    ensures Taken(a) ==> SubmitsOf(a).jobs == JobsFrom(a.lists.value, 0)
  {
    hide SubmitFrom, JobsFrom, ValidateFrom;
    if a.lists.Some? && a.lists.value != [] {
      var lists := a.lists.value;
      ValidationDecides(lists, 0);
      if forall k :: 0 <= k < |lists| ==> Good(lists[k]) {
        if p :| 0 <= p < |lists| && Refused(lists[p], a.outcomes[p]) {
          var q := FirstRefused(lists, a.outcomes, p);
          SubmissionDecides(lists, a.outcomes, 0, q);
        } else {
          NothingRefused(lists, a.outcomes, 0);
        }
      } else {
        var p :| 0 <= p < |lists| && !Good(lists[p]);
        var q := FirstBad(lists, p);
        assert ValidateFrom(lists, 0) == if lists[q].NullList? then InvalidNullPointer else Uninitialized;
      }
    }
  }

  lemma {:induction false} FirstRefused(lists: seq<ListArg>, outcomes: seq<Outcome>, p: nat) returns (q: nat)
    requires p < |lists| == |outcomes| && Refused(lists[p], outcomes[p])
    ensures q < |lists| && Refused(lists[q], outcomes[q]) && forall k :: 0 <= k < q ==> !Refused(lists[k], outcomes[k])
    decreases p
  {
    if k :| 0 <= k < p && Refused(lists[k], outcomes[k]) {
      q := FirstRefused(lists, outcomes, k);
    } else {
      q := p;
    }
  }

  lemma {:induction false} FirstBad(lists: seq<ListArg>, p: nat) returns (q: nat)
    requires p < |lists| && !Good(lists[p])
    ensures q < |lists| && !Good(lists[q]) && forall k :: 0 <= k < q ==> Good(lists[k])
    decreases p
  {
    if k :| 0 <= k < p && !Good(lists[k]) {
      q := FirstBad(lists, k);
    } else {
      q := p;
    }
  }

  /** Exactly when execute succeeds, and when the fence is to blame. */
  lemma ExecuteSucceedsExactly(w: World, a: ExecArgs, r: ZeResult, w': World)
    requires a.Valid() && ExecStep(w, a, r, w')
    ensures r == Success <==> Taken(a) && (a.fence.Some? ==> a.fence.value in w.fences)
    ensures r == InvalidSynchronizationObject <==> Taken(a) && a.fence.Some? && a.fence.value !in w.fences
  {
    hide SubmitsOf, Taken, Submitted;
    TakenExactly(a);
  }

  /** Which error execute returns, and what has been submitted by then. */
  lemma ExecuteErrors(w: World, a: ExecArgs, r: ZeResult, w': World, p: nat)
    requires a.Valid() && ExecStep(w, a, r, w')
    ensures a.lists.None? ==> r == InvalidNullPointer && |w'.log| == |w.log|
    ensures a.lists == Some([]) ==> r == InvalidSize && |w'.log| == |w.log|
    ensures a.lists.Some? && p < |a.lists.value| && !Good(a.lists.value[p])
              && (forall k :: 0 <= k < p ==> Good(a.lists.value[k])) ==>
              && r == (if a.lists.value[p].NullList? then InvalidNullPointer else Uninitialized)
              && |w'.log| == |w.log|
    ensures a.lists.Some? && p < |a.lists.value| && (forall k :: 0 <= k < |a.lists.value| ==> Good(a.lists.value[k]))
              && Refused(a.lists.value[p], a.outcomes[p])
              && (forall k :: 0 <= k < p ==> !Refused(a.lists.value[k], a.outcomes[k])) ==>
              && r == ErrorOf(a.outcomes[p]) && Submitted(w.log, JobsFrom(a.lists.value[..p], 0), w'.log)
              && w'.tracked == w.tracked && w'.fences == w.fences
  {
    hide SubmitFrom, JobsFrom, ValidateFrom, Submitted;
    SubmittedSize(w.log, SubmitsOf(a).jobs, w'.log);
    if a.lists.Some? && p < |a.lists.value| {
      var lists := a.lists.value;
      ValidationDecides(lists, 0);
      if (forall k :: 0 <= k < |lists| ==> Good(lists[k])) && Refused(lists[p], a.outcomes[p])
        && forall k :: 0 <= k < p ==> !Refused(lists[k], a.outcomes[k])
      {
        SubmissionDecides(lists, a.outcomes, 0, p);
      }
    }
  }

  lemma SubmittedSize(log: Log, js: seq<JobId>, log': Log)
    requires Submitted(log, js, log')
    ensures |log'| == |log| + |js|
  {
  }

  /** A successful execute of empty lists signals its fence at once, and the fence has nothing to wait for. */
  lemma EmptySubmissionSignals(w: World, a: ExecArgs, r: ZeResult, w': World, f: FenceId)
    requires a.Valid() && ExecStep(w, a, r, w') && r == Success && a.fence == Some(f)
    requires a.lists.Some? && forall i :: 0 <= i < |a.lists.value| ==>
               a.lists.value[i].CmdList? && a.lists.value[i].numCommands == 0
    ensures f in w.fences && f in w'.fences && w'.fences[f].signaled && w'.fences[f].tracked == []
    ensures Progress(w.log, w'.log)
  {
    hide SubmitFrom, ValidateFrom;
    TakenExactly(a);
    NoJobs(a.lists.value, 0);
    assert w'.log[..|w.log|] == w'.log;
  }

  lemma {:induction false} NoJobs(lists: seq<ListArg>, i: nat)
    requires i <= |lists| && forall k :: i <= k < |lists| ==> lists[k].CmdList? && lists[k].numCommands == 0
    ensures JobsFrom(lists, i) == []
    decreases |lists| - i
  {
    if i < |lists| { NoJobs(lists, i + 1); }
  }

  // ------------------------------------------------------------------ results of the waits

  /** Waiting for jobs: success for all succeeded, not ready for one pending, else the failures decide. */
  lemma WaitExactly(log: Log, jobs: seq<JobId>, r: ZeResult)
    requires WaitResult(log, jobs, r)
    ensures r == Success <==> AllSucceeded(log, jobs)
    ensures r == NotReady <==> exists j :: j in jobs && IsPending(log, j)
    ensures r == DeviceLost ==> exists j :: j in jobs && !IsPending(log, j) && StatusOf(log, j) == STATUS_ABORTED
    ensures r == Success || r == NotReady || r == DeviceLost || r == Unknown
  {
    hide StatusOf, IsPending;
    if r == NotReady {
      var i :| 0 <= i < |jobs| && IsPending(log, jobs[i]);
      assert jobs[i] in jobs;
    } else {
      var ss := Statuses(log, jobs);
      NonePending(log, jobs);
      FirstFailureDecides(ss);
      if r == Success {
        WaitedSucceeded(log, jobs);
      } else {
        var i := FirstFailure(ss);
        assert jobs[i] in jobs && !Succeeded(log, jobs[i]);
      }
    }
  }

  lemma NonePending(log: Log, jobs: seq<JobId>)
    requires !HasPending(log, jobs)
    ensures forall j :: j in jobs ==> !IsPending(log, j)
  {
    hide IsPending;
    forall j | j in jobs ensures !IsPending(log, j) {
      var i :| 0 <= i < |jobs| && jobs[i] == j;
      assert !IsPending(log, jobs[i]);
    }
  }

  lemma {:induction false} FirstFailure(ss: seq<nat>) returns (i: nat)
    requires StatusToResult(ss) != Success
    ensures i < |ss| && ss[i] != STATUS_SUCCESS && forall k :: 0 <= k < i ==> ss[k] == STATUS_SUCCESS
    ensures StatusToResult(ss) == if ss[i] == STATUS_ABORTED then DeviceLost else Unknown
  {
    if ss[0] != STATUS_SUCCESS {
      i := 0;
    } else {
      var rest := FirstFailure(ss[1..]);
      i := rest + 1;
    }
  }

  /** Synchronizing an unsignalled fence succeeds exactly when it has jobs and all of them succeeded. */
  lemma FenceSynchronizeExactly(w: World, f: FenceId, r: ZeResult, w': World)
    requires f in w.fences && FenceSyncStep(w, f, r, w')
    ensures w.fences[f].signaled ==> r == Success
    ensures !w.fences[f].signaled ==>
              var jobs := w.fences[f].tracked;
              && (r == Success <==> jobs != [] && AllSucceeded(w'.log, jobs))
              && (r == NotReady <==> jobs == [] || exists j :: j in jobs && IsPending(w'.log, j))
  {
    hide WaitResult, AllSucceeded, IsPending;
    if !w.fences[f].signaled && w.fences[f].tracked != [] {
      WaitExactly(w'.log, w.fences[f].tracked, r);
    }
  }

  /** Synchronize succeeds exactly when every job held by the queue or a fence has succeeded by then. */
  lemma SynchronizeExactly(w: World, r: ZeResult, w': World)
    requires SyncStep(w, r, w')
    ensures r == Success <==> forall j :: Held(w, j) ==> Succeeded(w'.log, j)
    ensures r == NotReady ==> exists j :: Held(w, j) && IsPending(w'.log, j)
    ensures r == DeviceLost ==>
              exists j :: Held(w, j) && !IsPending(w'.log, j) && StatusOf(w'.log, j) == STATUS_ABORTED
  {
    hide WaitResult, IsPending, StatusOf;
    if r == Success {
      forall j | Held(w, j) ensures Succeeded(w'.log, j) { SuccessFrees(w, w', j); }
    } else {
      var jobs :| Blames(w', jobs) && WaitResult(w'.log, jobs, r);
      WaitExactly(w'.log, jobs, r);
      forall j | j in jobs ensures Held(w, j) { BlamedHeld(w, r, w', jobs, j); }
    }
  }

  lemma SuccessFrees(w: World, w': World, j: JobId)
    requires SyncStep(w, Success, w') && Held(w, j)
    ensures Succeeded(w'.log, j)
  {
    hide WaitResult;
    if j in w.tracked {
      WaitedSucceeded(w'.log, w.tracked);
    } else {
      var f :| f in w.fences && j in w.fences[f].tracked;
      assert MaybeDrained(w.fences[f], w'.log, w'.fences[f]);
      WaitedSucceeded(w'.log, w.fences[f].tracked);
    }
  }

  lemma BlamedHeld(w: World, r: ZeResult, w': World, jobs: seq<JobId>, j: JobId)
    requires SyncStep(w, r, w') && r != Success && Blames(w', jobs) && j in jobs
    ensures Held(w, j)
  {
    hide WaitResult;
    if jobs != w'.tracked {
      var f :| f in w'.fences && jobs == w'.fences[f].tracked;
      assert f in w.fences && MaybeDrained(w.fences[f], w'.log, w'.fences[f]);
    }
  }

  // ------------------------------------------------------------- when a fence is signalled

  predicate EmptyExecute(e: Event, f: FenceId)
  {
    && e.Execute? && e.result == Success && e.args.fence == Some(f) && e.args.lists.Some?
    && forall i :: 0 <= i < |e.args.lists.value| ==>
         e.args.lists.value[i].CmdList? && e.args.lists.value[i].numCommands == 0
  }

  /** The step signals the fence: at its creation, by an empty submission, or by waiting for its jobs. */
  ghost predicate Signals(w: World, e: Event, w': World, f: FenceId)
  {
    || e == CreateFence(f, true)
    || EmptyExecute(e, f)
    || (f in w.fences && f in w'.fences && w.fences[f].tracked != [] && w'.fences[f].tracked == []
        && (e.Synchronize? || e == FenceSynchronize(f, Success)))
  }

  predicate Unsignals(e: Event, f: FenceId)
  {
    e == FenceReset(f) || e == DestroyFence(f) || e == CreateFence(f, false)
  }

  ghost predicate Signalled(w: World, f: FenceId)
  {
    f in w.fences && w.fences[f].signaled
  }

  lemma ExecuteSignals(w: World, e: Event, w': World, f: FenceId)
    requires Next(w, e, w') && e.Execute?
    ensures Signalled(w', f) <==> EmptyExecute(e, f) || Signalled(w, f)
  {
    hide SubmitFrom, ValidateFrom, Submitted, JobsFrom;
    var a := e.args;
    TakenExactly(a);
    if Taken(a) {
      if forall i :: 0 <= i < |a.lists.value| ==> a.lists.value[i].numCommands == 0 {
        NoJobs(a.lists.value, 0);
      } else {
        SomeJobs(a.lists.value, 0);
      }
    }
  }

  lemma {:induction false} SomeJobs(lists: seq<ListArg>, i: nat)
    requires i <= |lists| && exists k :: i <= k < |lists| && lists[k].CmdList? && lists[k].numCommands != 0
    ensures JobsFrom(lists, i) != []
    decreases |lists| - i
  {
    if !(lists[i].CmdList? && lists[i].numCommands != 0) { SomeJobs(lists, i + 1); }
  }

  lemma SignalStep(w: World, e: Event, w': World, f: FenceId)
    requires Next(w, e, w')
    ensures Signalled(w', f) <==> Signals(w, e, w', f) || (Signalled(w, f) && !Unsignals(e, f))
  {
    hide WaitResult, Progress, ExecStep;
    match e
    case Execute(_, _) => ExecuteSignals(w, e, w', f);
    case CreateFence(_, _) =>
    case DestroyFence(_) =>
    case FenceReset(_) =>
    case Synchronize(_) => if f in w.fences { assert MaybeDrained(w.fences[f], w'.log, w'.fences[f]); }
    case FenceSynchronize(_, _) =>
    case DeviceRuns =>
  }

  /** Step k signalled the fence and nothing before state n took the signal back. */
  ghost predicate SignalledAt(ws: seq<World>, es: seq<Event>, n: nat, f: FenceId, k: nat)
    requires n <= |es| < |ws|
  {
    k < n && Signals(ws[k], es[k], ws[k + 1], f) && forall m :: k < m < n ==> !Unsignals(es[m], f)
  }

  /**
   In every run a fence is signalled if and only if some step signalled it and nothing since
   has reset, destroyed or newly created it.
   */
  lemma {:induction false} SignalledExactly(ws: seq<World>, es: seq<Event>, n: nat, f: FenceId)
    requires IsRun(ws, es) && n <= |es|
    ensures |ws| == |es| + 1
    ensures Signalled(ws[n], f) <==> exists k :: SignalledAt(ws, es, n, f, k)
  {
    hide Next, Signals, Unsignals;
    if n > 0 {
      var before := n - 1;
      SignalledExactly(ws, es, before, f);
      SignalStep(ws[before], es[before], ws[n], f);
      if !Unsignals(es[before], f) && exists k :: SignalledAt(ws, es, before, f, k) {
        var k :| SignalledAt(ws, es, before, f, k);
        assert SignalledAt(ws, es, n, f, k);
      }
      if Signals(ws[before], es[before], ws[n], f) {
        assert SignalledAt(ws, es, n, f, before);
      }
      forall k: nat | SignalledAt(ws, es, n, f, k) && k < before ensures SignalledAt(ws, es, before, f, k) {
        assert !Unsignals(es[before], f);
      }
    }
  }

  /**
   After a successful execute of empty lists, synchronizing its fence succeeds in every run
   until the fence is reset or destroyed.
   */
  lemma EmptySubmissionReports(ws: seq<World>, es: seq<Event>, k: nat, n: nat, f: FenceId, r: ZeResult)
    requires IsRun(ws, es) && k < n < |es| && EmptyExecute(es[k], f) && es[n] == FenceSynchronize(f, r)
    requires forall m :: k < m < n ==> !Unsignals(es[m], f)
    ensures r == Success
  {
    hide ExecStep, SyncStep, IsPending, WaitResult;
    SignalledExactly(ws, es, n, f);
    assert SignalledAt(ws, es, n, f, k);
    assert Next(ws[n], es[n], ws[n + 1]);
  }

  /** The submission a fence reports on is the last one it was given, until it is reset. */
  lemma ReportedSubmission(w: World, e: Event, w': World, f: FenceId)
    requires Next(w, e, w') && f in w'.fences
    ensures var latest := w'.fences[f].latest;
            if e.Execute? && e.result == Success && e.args.fence == Some(f) then
              |latest| == |w'.log| - |w.log| && forall k: nat :: k in latest <==> |w.log| <= k < |w'.log|
            else if e == FenceReset(f) || (e.CreateFence? && e.id == f) then latest == []
            else f in w.fences && latest == w.fences[f].latest
  {
    hide WaitResult, Progress, SubmitFrom, ValidateFrom, JobsFrom;
    if e.Execute? {
      TakenExactly(e.args);
      SubmittedSize(w.log, SubmitsOf(e.args).jobs, w'.log);
    } else if e.Synchronize? {
      assert f in w.fences && MaybeDrained(w.fences[f], w'.log, w'.fences[f]);
    }
  }

  // ------------------------------------------------------------------- order of the tracking

  /** The queue's own jobs are submissions of the log, in the order they were made. */
  ghost predicate InOrder(w: World, ps: seq<nat>)
  {
    && |ps| == |w.tracked|
    && (forall i :: 0 <= i < |ps| ==> ps[i] < |w.log| && w.log[ps[i]].job == w.tracked[i])
    && (forall i, j :: 0 <= i < j < |ps| ==> ps[i] < ps[j])
  }

  lemma OrderStep(w: World, e: Event, w': World, ps: seq<nat>) returns (ps': seq<nat>)
    requires Next(w, e, w') && InOrder(w, ps)
    ensures InOrder(w', ps')
  {
    hide WaitResult, SubmitsOf, MaybeDrained, Blames, FenceSyncStep;
    ps' := ps;
    match e
    case Execute(a, r) =>
      var js, n := SubmitsOf(a).jobs, |w.log|;
      assert forall k :: 0 <= k < n ==> w'.log[..n][k].job == w.log[k].job == w'.log[k].job;
      if w'.tracked != w.tracked {
        ps' := ps + seq(|js|, i => n + i);
        assert w'.tracked == w.tracked + js;
      }
    case Synchronize(r) =>
      if r == Success { ps' := []; }
    case FenceSynchronize(id, r) => FenceSyncKeepsQueue(w, id, r, w');
    case CreateFence(_, _) =>
    case DestroyFence(_) =>
    case FenceReset(_) =>
    case DeviceRuns =>
  }

  lemma FenceSyncKeepsQueue(w: World, f: FenceId, r: ZeResult, w': World)
    requires f in w.fences && FenceSyncStep(w, f, r, w')
    ensures Progress(w.log, w'.log) && w'.tracked == w.tracked
  {
    hide WaitResult;
  }

  /** In every run the queue tracks its jobs in submission order, so failures are reported in that order. */
  lemma {:induction false} TrackedInOrder(ws: seq<World>, es: seq<Event>, n: nat) returns (ps: seq<nat>)
    requires IsRun(ws, es) && n <= |es|
    ensures InOrder(ws[n], ps)
  {
    hide Next, InOrder;
    if n == 0 {
      ps := [];
      StartsInOrder();
    } else {
      ps := TrackedInOrder(ws, es, n - 1);
      ps := OrderStep(ws[n - 1], es[n - 1], ws[n], ps);
    }
  }

  lemma StartsInOrder()
    ensures InOrder(INITIAL_WORLD, [])
  {
  }
}
