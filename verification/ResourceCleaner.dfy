/**
 The idle-time cleaner of a context (umd/level_zero_driver/source/context.cpp): a worker
 thread with a mutex, a condition variable and a timer, driven by calls that the context
 serialises with a second mutex.  Every step below is atomic; steps of the worker, of the
 calling threads and of the clock interleave freely, and the worker may wake for no reason.
 */
module ResourceCleaner {
  import opened Jobs

  // ------------------------------------------------------------------------------ the state

  datatype Request = Nop | PruneAfterTimeout | Break

  datatype Holder = Free | ByWorker | ByCaller

  /** The time point the worker waits until: never, or a time read plus a timeout read. */
  datatype Timer = Never | Armed(at: nat, after: nat)

  datatype Worker =
    | Starting
    | Checking(timer: Timer)
    | Waiting(timer: Timer)
    | Woken(timer: Timer)
    | Got(timer: Timer, timedOut: bool)
    | Exited

  /** unseen: a setIdle was made that the worker has not reacted to.  early: it came before the first wait. */
  datatype Cleaner = Cleaner(id: nat, action: Request, idleTimeout: nat, mutex: Holder, worker: Worker,
                             unseen: bool, early: bool)

  datatype Shared = Shared(now: nat, idleTimeout: nat, created: nat, cleaner: Option<Cleaner>)

  /** Where a thread is inside a call that holds the context's cleaner mutex. */
  datatype Call =
    | Outside
    | IdleLock | IdleWritten | IdleNotify
    | BreakLock | BreakWritten | BreakNotify | Joining
    | TimeoutNotify

  datatype Action =
    | Tick
    | WriteTimeout(ms: nat)
    | Enable
    | Disable
    | SetIdle
    | ApplyTimeout
    | Advance
    | Work(timedOut: bool)

  // ------------------------------------------------------------------------------ the steps

  function Fresh(id: nat, idleTimeout: nat): (c: Cleaner)
  {
    Cleaner(id, Nop, idleTimeout, Free, Starting, false, false)
  }

  function Expired(timer: Timer, now: nat): (b: bool)
  {
    timer.Armed? && timer.at + timer.after <= now
  }

  /** One step of the worker; None when it is blocked or has ended. */
  function WorkerStep(c: Cleaner, now: nat, timedOut: bool): (r: Option<Cleaner>)
  {
    match c.worker
    case Starting =>
      if c.mutex == Free then Some(c.(mutex := ByWorker, worker := Checking(Never))) else None
    case Checking(t) =>
      Some(c.(mutex := Free, worker := if c.action == Break then Exited else Waiting(t)))
    case Waiting(t) =>
      Some(c.(worker := Woken(t)))
    case Woken(t) =>
      if c.mutex == Free && (timedOut ==> Expired(t, now))
      then Some(c.(mutex := ByWorker, worker := Got(t, timedOut)))
      else None
    case Got(t, expired) =>
      if expired then Some(c.(worker := Checking(Never), unseen := false))
      else if c.action == PruneAfterTimeout
      then Some(c.(worker := Checking(Armed(now, c.idleTimeout)), unseen := false))
      else Some(c.(worker := Checking(t)))
    case Exited => None
  }

  function Notify(c: Cleaner): (c': Cleaner)
  {
    if c.worker.Waiting? then c.(worker := Woken(c.worker.timer)) else c
  }

  /** The next step of a thread inside a call; None when it is blocked. */
  function CallStep(c: Cleaner, call: Call): (r: Option<(Option<Cleaner>, Call)>)
  {
    match call
    case Outside => None
    case IdleLock =>
      if c.mutex != Free then None
      else Some((Some(c.(mutex := ByCaller, action := PruneAfterTimeout, unseen := true, early := c.worker.Starting?)),
                 IdleWritten))
    case IdleWritten => Some((Some(c.(mutex := Free)), IdleNotify))
    case IdleNotify => Some((Some(Notify(c)), Outside))
    case BreakLock =>
      if c.mutex != Free then None else Some((Some(c.(mutex := ByCaller, action := Break)), BreakWritten))
    case BreakWritten => Some((Some(c.(mutex := Free)), BreakNotify))
    case BreakNotify => Some((Some(Notify(c)), Joining))
    case Joining => if c.worker.Exited? then Some((None, Outside)) else None
    case TimeoutNotify => Some((Some(Notify(c)), Outside))
  }

  /** A step with at most one call inside the cleaner mutex. */
  function Step(sh: Shared, call: Call, a: Action): (r: Option<(Shared, Call)>)
  {
    match a
    case Tick => Some((sh.(now := sh.now + 1), call))
    case WriteTimeout(ms) => Some((sh.(idleTimeout := ms), call))
    case Enable =>
      if call != Outside then None
      else if sh.cleaner.Some? then Some((sh, Outside))
      else Some((sh.(created := sh.created + 1, cleaner := Some(Fresh(sh.created, sh.idleTimeout))), Outside))
    case Disable =>
      if call != Outside then None else Some((sh, if sh.cleaner.Some? then BreakLock else Outside))
    case SetIdle =>
      if call != Outside then None else Some((sh, if sh.cleaner.Some? then IdleLock else Outside))
    case ApplyTimeout =>
      if call != Outside then None
      else if sh.cleaner.None? then Some((sh, Outside))
      else Some((sh.(cleaner := Some(sh.cleaner.value.(idleTimeout := sh.idleTimeout))), TimeoutNotify))
    case Advance =>
      if sh.cleaner.None? then None
      else
        var next := CallStep(sh.cleaner.value, call);
        if next.None? then None else Some((sh.(cleaner := next.value.0), next.value.1))
    case Work(timedOut) =>
      if sh.cleaner.None? then None
      else
        var next := WorkerStep(sh.cleaner.value, sh.now, timedOut);
        if next.None? then None else Some((sh.(cleaner := next), call))
  }

  const INITIAL := Shared(0, 30000, 0, None)

  // ------------------------------------------------------------------------- the invariant

  predicate HoldsMutex(w: Worker)
  {
    w.Checking? || w.Got?
  }

  predicate CallerHolds(call: Call)
  {
    call == IdleWritten || call == BreakWritten
  }

  predicate Breaking(call: Call)
  {
    call == BreakWritten || call == BreakNotify || call == Joining
  }

  ghost predicate CleanerInv(c: Cleaner, now: nat, call: Call)
  {
    && (c.mutex == ByWorker <==> HoldsMutex(c.worker))
    && (c.mutex == ByCaller <==> CallerHolds(call))
    && (c.action == Break <==> Breaking(call))
    // a worker that went to sleep before the break is still owed its wake-up
    && (c.worker.Waiting? && c.action == Break ==> call == BreakWritten || call == BreakNotify)
    && (c.worker.Exited? ==> c.action == Break)
    // a setIdle the worker will not be woken for came before its first wait
    && (c.unseen && c.action == PruneAfterTimeout && !c.early ==>
          c.worker.Woken? || c.worker.Got? || (c.worker.Waiting? && (call == IdleWritten || call == IdleNotify)))
    && (c.unseen ==> c.action != Nop)
    && (c.worker.Got? && c.worker.timedOut ==> Expired(c.worker.timer, now))
  }

  ghost predicate Inv(sh: Shared, call: Call)
  {
    && (sh.cleaner.None? ==> call == Outside)
    && (sh.cleaner.Some? ==> CleanerInv(sh.cleaner.value, sh.now, call) && sh.cleaner.value.id < sh.created)
  }

  lemma WorkerKeepsInv(c: Cleaner, now: nat, call: Call, timedOut: bool)
    requires CleanerInv(c, now, call) && WorkerStep(c, now, timedOut).Some?
    ensures CleanerInv(WorkerStep(c, now, timedOut).value, now, call)
    ensures WorkerStep(c, now, timedOut).value.id == c.id
  {
  }

  lemma CallKeepsInv(c: Cleaner, now: nat, call: Call)
    requires CleanerInv(c, now, call) && CallStep(c, call).Some?
    ensures var next := CallStep(c, call).value;
            && (next.0.None? ==> next.1 == Outside)
            && (next.0.Some? ==> CleanerInv(next.0.value, now, next.1) && next.0.value.id == c.id)
  {
  }

  lemma StepKeepsInv(sh: Shared, call: Call, a: Action)
    requires Inv(sh, call) && Step(sh, call, a).Some?
    ensures Inv(Step(sh, call, a).value.0, Step(sh, call, a).value.1)
  {
    hide WorkerStep, CallStep;
    if a.Advance? {
      CallKeepsInv(sh.cleaner.value, sh.now, call);
    } else if a.Work? {
      WorkerKeepsInv(sh.cleaner.value, sh.now, call, a.timedOut);
    }
  }

  // ---------------------------------------------------------------------- many calling threads

  /** pcs says where each thread is; owner is the thread that holds the cleaner mutex. */
  datatype System = System(sh: Shared, owner: Option<nat>, pcs: seq<Call>)

  datatype Event = Event(thread: nat, action: Action)

  predicate Entering(a: Action)
  {
    a.Enable? || a.Disable? || a.SetIdle? || a.ApplyTimeout?
  }

  /** A call begins by taking the cleaner mutex and goes on from its own place in the code. */
  function SysStep(s: System, e: Event): (r: Option<System>)
  {
    if Entering(e.action) then
      if e.thread >= |s.pcs| || s.pcs[e.thread] != Outside || s.owner.Some? then None
      else
        var next := Step(s.sh, Outside, e.action);
        if next.None? then None else Some(Moved(s, e.thread, next.value))
    else if e.action.Advance? then
      if e.thread >= |s.pcs| || s.pcs[e.thread] == Outside then None
      else
        var next := Step(s.sh, s.pcs[e.thread], Advance);
        if next.None? then None else Some(Moved(s, e.thread, next.value))
    else
      var next := Step(s.sh, Outside, e.action);
      if next.None? then None else Some(s.(sh := next.value.0))
  }

  function Moved(s: System, thread: nat, next: (Shared, Call)): (s': System)
    requires thread < |s.pcs|
  {
    System(next.0, if next.1 == Outside then None else Some(thread), s.pcs[thread := next.1])
  }

  /** Only the owner of the cleaner mutex is inside a call. */
  ghost predicate Exclusive(s: System)
  {
    forall t :: 0 <= t < |s.pcs| ==> (s.pcs[t] != Outside <==> s.owner == Some(t))
  }

  function CurrentCall(s: System): (call: Call)
  {
    if s.owner.Some? && s.owner.value < |s.pcs| then s.pcs[s.owner.value] else Outside
  }

  /** With the mutex, the threads together make the steps of one call at a time. */
  lemma ThreadsRefineOneCall(s: System, e: Event)
    requires Exclusive(s) && (s.owner.Some? ==> s.owner.value < |s.pcs|) && SysStep(s, e).Some?
    ensures var s' := SysStep(s, e).value;
            && Exclusive(s') && (s'.owner.Some? ==> s'.owner.value < |s'.pcs|)
            && Step(s.sh, CurrentCall(s), e.action) == Some((s'.sh, CurrentCall(s')))
  {
    hide CallStep, WorkerStep;
  }

  function StartSystem(threads: nat): (s: System)
  {
    System(INITIAL, None, seq(threads, _ => Outside))
  }

  ghost predicate IsRun(ss: seq<System>, es: seq<Event>)
  {
    && |ss| == |es| + 1 && ss[0] == StartSystem(|ss[0].pcs|)
    && forall n :: 0 <= n < |es| ==> SysStep(ss[n], es[n]) == Some(ss[n + 1])
  }

  ghost predicate Sound(s: System)
  {
    && Exclusive(s) && (s.owner.Some? ==> s.owner.value < |s.pcs|)
    && Inv(s.sh, CurrentCall(s))
  }

  lemma {:induction false} RunSound(ss: seq<System>, es: seq<Event>, n: nat)
    requires IsRun(ss, es) && n <= |es|
    ensures Sound(ss[n])
  {
    hide Step, SysStep, Inv, Exclusive;
    if n == 0 {
      InitialSound(|ss[0].pcs|);
    } else {
      RunSound(ss, es, n - 1);
      assert SysStep(ss[n - 1], es[n - 1]) == Some(ss[n - 1 + 1]);
      ThreadsRefineOneCall(ss[n - 1], es[n - 1]);
      StepKeepsInv(ss[n - 1].sh, CurrentCall(ss[n - 1]), es[n - 1].action);
    }
  }

  lemma InitialSound(threads: nat)
    ensures Sound(StartSystem(threads))
  {
  }

  lemma StepOf(ss: seq<System>, es: seq<Event>, n: nat)
    requires IsRun(ss, es) && n < |es|
    ensures Sound(ss[n]) && Sound(ss[n + 1])
    ensures Step(ss[n].sh, CurrentCall(ss[n]), es[n].action) == Some((ss[n + 1].sh, CurrentCall(ss[n + 1])))
  {
    hide Step, SysStep, Inv, Exclusive;
    RunSound(ss, es, n);
    RunSound(ss, es, n + 1);
    ThreadsRefineOneCall(ss[n], es[n]);
  }

  // --------------------------------------------------------------------- break and join

  /** Cleaner id is there and told to break. */
  predicate Broken(s: System, id: nat)
  {
    s.sh.cleaner.Some? && s.sh.cleaner.value.id == id && s.sh.cleaner.value.action == Break
  }

  predicate Alive(s: System, id: nat)
  {
    s.sh.cleaner.Some? && s.sh.cleaner.value.id == id
  }

  /** A cleaner told to break is told nothing else until it is gone. */
  lemma {:induction false} BreakIsFinal(ss: seq<System>, es: seq<Event>, n: nat, m: nat, id: nat)
    requires IsRun(ss, es) && n <= m <= |es| && Broken(ss[n], id) && Alive(ss[m], id)
    ensures Broken(ss[m], id)
    decreases m
  {
    hide SysStep, Inv, Step;
    if n < m {
      AliveBefore(ss, es, n, m - 1, id);
      BreakIsFinal(ss, es, n, m - 1, id);
      StepOf(ss, es, m - 1);
      BreakStep(ss[m - 1].sh, CurrentCall(ss[m - 1]), es[m - 1].action);
    }
  }

  lemma BreakStep(sh: Shared, call: Call, a: Action)
    requires Inv(sh, call) && Step(sh, call, a).Some? && sh.cleaner.Some? && sh.cleaner.value.action == Break
    ensures var sh' := Step(sh, call, a).value.0;
            sh'.cleaner.Some? ==> sh'.cleaner.value.action == Break && sh'.cleaner.value.id == sh.cleaner.value.id
  {
  }

  /** Ids are not used twice: a cleaner that is there again was there all the time. */
  lemma {:induction false} AliveBefore(ss: seq<System>, es: seq<Event>, n: nat, m: nat, id: nat)
    requires IsRun(ss, es) && n <= m < |es| && Alive(ss[n], id) && Alive(ss[m + 1], id)
    ensures Alive(ss[m], id)
  {
    hide SysStep, WorkerStep, CallStep, Step;
    StepOf(ss, es, m);
    CreatedGrows(ss, es, n, m);
    RunSound(ss, es, n);
    IdStep(ss[m].sh, CurrentCall(ss[m]), es[m].action);
  }

  lemma IdStep(sh: Shared, call: Call, a: Action)
    requires Step(sh, call, a).Some? && Step(sh, call, a).value.0.cleaner.Some?
    ensures var c := Step(sh, call, a).value.0.cleaner.value;
            c.id == sh.created || (sh.cleaner.Some? && sh.cleaner.value.id == c.id)
    ensures sh.created <= Step(sh, call, a).value.0.created
  {
  }

  lemma {:induction false} CreatedGrows(ss: seq<System>, es: seq<Event>, n: nat, m: nat)
    requires IsRun(ss, es) && n <= m <= |es|
    ensures ss[n].sh.created <= ss[m].sh.created
    decreases m
  {
    hide SysStep, WorkerStep, CallStep;
    if n < m {
      CreatedGrows(ss, es, n, m - 1);
      StepOf(ss, es, m - 1);
    }
  }

  /** No thread ever joins a worker that sleeps: the wake-up for the break cannot be lost. */
  lemma NoLostWakeUp(ss: seq<System>, es: seq<Event>, n: nat, t: nat)
    requires IsRun(ss, es) && n <= |es| && t < |ss[n].pcs| && ss[n].pcs[t] == Joining
    ensures ss[n].sh.cleaner.Some? && !ss[n].sh.cleaner.value.worker.Waiting?
    ensures ss[n].sh.cleaner.value.mutex != ByCaller
  {
    hide SysStep;
    RunSound(ss, es, n);
    assert CurrentCall(ss[n]) == Joining;
  }

  /** Worker steps left until the worker has ended, once it is told to break. */
  function StepsToEnd(w: Worker): (k: nat)
  {
    match w
    case Starting => 2
    case Woken(_) => 3
    case Got(_, _) => 2
    case Checking(_) => 1
    case Waiting(_) => 4
    case Exited => 0
  }

  /**
   A join ends: while a thread joins, the worker can always take a step, every step of it
   brings it nearer to its end, nothing else moves it, and once it has ended the join returns.
   */
  lemma JoinEnds(ss: seq<System>, es: seq<Event>, n: nat, t: nat)
    requires IsRun(ss, es) && n <= |es| && t < |ss[n].pcs| && ss[n].pcs[t] == Joining
    ensures ss[n].sh.cleaner.Some?
    ensures var c := ss[n].sh.cleaner.value;
            && StepsToEnd(c.worker) <= 3
            && (c.worker.Exited? ==> SysStep(ss[n], Event(t, Advance)).Some?)
            && (!c.worker.Exited? ==> WorkerStep(c, ss[n].sh.now, false).Some?)
            && (forall o :: WorkerStep(c, ss[n].sh.now, o).Some? ==>
                  StepsToEnd(WorkerStep(c, ss[n].sh.now, o).value.worker) < StepsToEnd(c.worker))
            && (n < |es| && !es[n].action.Work? && ss[n + 1].sh.cleaner.Some? ==>
                  ss[n + 1].sh.cleaner.value.worker == c.worker)
  {
    hide Step;
    RunSound(ss, es, n);
    assert CurrentCall(ss[n]) == Joining;
    JoinNear(ss[n].sh.cleaner.value, ss[n].sh.now);
    JoinCanReturn(ss[n], t);
    if n < |es| {
      StepOf(ss, es, n);
      OthersKeepWorker(ss[n].sh, es[n].action);
    }
  }

  lemma JoinNear(c: Cleaner, now: nat)
    requires CleanerInv(c, now, Joining)
    ensures StepsToEnd(c.worker) <= 3 && (!c.worker.Exited? ==> WorkerStep(c, now, false).Some?)
    ensures forall o :: WorkerStep(c, now, o).Some? ==>
              StepsToEnd(WorkerStep(c, now, o).value.worker) < StepsToEnd(c.worker)
  {
  }

  lemma JoinCanReturn(s: System, t: nat)
    requires t < |s.pcs| && s.pcs[t] == Joining && s.sh.cleaner.Some?
    ensures s.sh.cleaner.value.worker.Exited? ==> SysStep(s, Event(t, Advance)).Some?
  {
  }

  lemma OthersKeepWorker(sh: Shared, a: Action)
    requires sh.cleaner.Some? && Step(sh, Joining, a).Some?
    ensures var sh' := Step(sh, Joining, a).value.0;
            !a.Work? && sh'.cleaner.Some? ==> sh'.cleaner.value.worker == sh.cleaner.value.worker
  {
  }

  // ------------------------------------------------------------------------------ pruning

  /** The worker releases memory in this step. */
  predicate Prunes(s: System, e: Event)
  {
    e.action.Work? && s.sh.cleaner.Some? && s.sh.cleaner.value.worker.Got? && s.sh.cleaner.value.worker.timedOut
  }

  /** The worker reads the clock and the idle timeout and sets its timer. */
  predicate Arms(s: System, e: Event)
  {
    && e.action.Work? && s.sh.cleaner.Some? && s.sh.cleaner.value.worker.Got? && !s.sh.cleaner.value.worker.timedOut
    && s.sh.cleaner.value.action == PruneAfterTimeout
  }

  /** A setIdle call writes its request. */
  predicate Requests(s: System, e: Event)
  {
    e.action.Advance? && s.sh.cleaner.Some? && CurrentCall(s) == IdleLock
  }

  function TimerOf(w: Worker): (t: Timer)
  {
    if w.Starting? || w.Exited? then Never else w.timer
  }

  lemma TimerStep(s: System, e: Event, s': System)
    requires Sound(s) && Step(s.sh, CurrentCall(s), e.action) == Some((s'.sh, CurrentCall(s')))
    requires s'.sh.cleaner.Some? && TimerOf(s'.sh.cleaner.value.worker).Armed?
    ensures s.sh.cleaner.Some? && s.sh.cleaner.value.id == s'.sh.cleaner.value.id
    ensures var t := TimerOf(s'.sh.cleaner.value.worker);
            || TimerOf(s.sh.cleaner.value.worker) == t
            || (Arms(s, e) && t == Armed(s.sh.now, s.sh.cleaner.value.idleTimeout))
  {
    hide Inv;
  }

  lemma RequestStep(s: System, e: Event, s': System)
    requires Sound(s) && Step(s.sh, CurrentCall(s), e.action) == Some((s'.sh, CurrentCall(s')))
    requires s'.sh.cleaner.Some? && s'.sh.cleaner.value.action == PruneAfterTimeout
    ensures s.sh.cleaner.Some? && s.sh.cleaner.value.id == s'.sh.cleaner.value.id
    ensures s.sh.cleaner.value.action == PruneAfterTimeout || Requests(s, e)
  {
    hide Inv;
  }

  /** A timer that is set was set by an earlier step of the same cleaner. */
  lemma {:induction false} TimerWasArmed(ss: seq<System>, es: seq<Event>, n: nat) returns (k: nat)
    requires IsRun(ss, es) && n <= |es| && ss[n].sh.cleaner.Some? && TimerOf(ss[n].sh.cleaner.value.worker).Armed?
    ensures k < n && Arms(ss[k], es[k]) && Alive(ss[k], ss[n].sh.cleaner.value.id)
    ensures TimerOf(ss[n].sh.cleaner.value.worker) == Armed(ss[k].sh.now, ss[k].sh.cleaner.value.idleTimeout)
  {
    hide Step, SysStep, Sound;
    assert n > 0;
    StepOf(ss, es, n - 1);
    TimerStep(ss[n - 1], es[n - 1], ss[n]);
    if TimerOf(ss[n - 1].sh.cleaner.value.worker) == TimerOf(ss[n].sh.cleaner.value.worker) {
      k := TimerWasArmed(ss, es, n - 1);
    } else {
      k := n - 1;
    }
  }

  lemma {:induction false} RequestWasMade(ss: seq<System>, es: seq<Event>, n: nat) returns (k: nat)
    requires IsRun(ss, es) && n <= |es| && ss[n].sh.cleaner.Some? && ss[n].sh.cleaner.value.action == PruneAfterTimeout
    ensures k < n && Requests(ss[k], es[k]) && Alive(ss[k], ss[n].sh.cleaner.value.id)
  {
    hide Step, SysStep, Sound;
    assert n > 0;
    StepOf(ss, es, n - 1);
    RequestStep(ss[n - 1], es[n - 1], ss[n]);
    if ss[n - 1].sh.cleaner.value.action == PruneAfterTimeout {
      k := RequestWasMade(ss, es, n - 1);
    } else {
      k := n - 1;
    }
  }

  /**
   Memory is released only after a setIdle to the same cleaner, and no earlier than the
   idle timeout that was read when the timer was set, counted from that moment.
   */
  lemma PruneIsDue(ss: seq<System>, es: seq<Event>, n: nat) returns (asked: nat, armed: nat)
    requires IsRun(ss, es) && n < |es| && Prunes(ss[n], es[n])
    ensures asked < armed < n && Requests(ss[asked], es[asked]) && Arms(ss[armed], es[armed])
    ensures var id := ss[n].sh.cleaner.value.id; Alive(ss[asked], id) && Alive(ss[armed], id)
    ensures ss[n].sh.now >= ss[armed].sh.now + ss[armed].sh.cleaner.value.idleTimeout
  {
    hide SysStep, Step;
    RunSound(ss, es, n);
    armed := TimerWasArmed(ss, es, n);
    asked := RequestWasMade(ss, es, armed);
  }

  /** When the worker reacts to a request it releases memory, or it sets its timer from the clock and the timeout. */
  lemma NoticedMeansActed(ss: seq<System>, es: seq<Event>, n: nat)
    requires IsRun(ss, es) && n < |es| && ss[n].sh.cleaner.Some? && ss[n + 1].sh.cleaner.Some?
    requires ss[n].sh.cleaner.value.unseen && !ss[n + 1].sh.cleaner.value.unseen
    ensures var c, c' := ss[n].sh.cleaner.value, ss[n + 1].sh.cleaner.value;
            Prunes(ss[n], es[n]) || TimerOf(c'.worker) == Armed(ss[n].sh.now, c.idleTimeout)
  {
    hide SysStep, Inv;
    StepOf(ss, es, n);
  }

  /** A timer is set exactly by the steps that arm it, to the clock and the timeout of that moment. */
  lemma ArmingSetsTimer(ss: seq<System>, es: seq<Event>, n: nat)
    requires IsRun(ss, es) && n < |es| && Arms(ss[n], es[n])
    ensures ss[n + 1].sh.cleaner.Some?
    ensures TimerOf(ss[n + 1].sh.cleaner.value.worker) == Armed(ss[n].sh.now, ss[n].sh.cleaner.value.idleTimeout)
    ensures !ss[n + 1].sh.cleaner.value.unseen
  {
    hide SysStep, Inv;
    StepOf(ss, es, n);
  }

  /** A set timer that has expired is acted upon: two steps of the worker, and the next one releases memory. */
  lemma ExpiredTimerPrunes(ss: seq<System>, es: seq<Event>, n: nat, at: nat, after: nat)
    requires IsRun(ss, es) && n <= |es| && ss[n].sh.cleaner.Some?
    requires var c := ss[n].sh.cleaner.value; c.worker == Waiting(Armed(at, after)) && c.mutex == Free
    requires ss[n].sh.now >= at + after
    ensures exists s1, s2 :: SysStep(ss[n], Event(0, Work(false))) == Some(s1)
                          && SysStep(s1, Event(0, Work(true))) == Some(s2) && Prunes(s2, Event(0, Work(false)))
  {
    var s := ss[n];
    var c := s.sh.cleaner.value;
    var woken := c.(worker := Woken(Armed(at, after)));
    var got := woken.(mutex := ByWorker, worker := Got(Armed(at, after), true));
    var s1 := s.(sh := s.sh.(cleaner := Some(woken)));
    var s2 := s1.(sh := s1.sh.(cleaner := Some(got)));
    assert SysStep(s, Event(0, Work(false))) == Some(s1);
    assert SysStep(s1, Event(0, Work(true))) == Some(s2);
  }

  /** A worker that has got its mutex back with a request not reacted to reacts in its next step. */
  lemma RequestActedUpon(ss: seq<System>, es: seq<Event>, n: nat, t: bool)
    requires IsRun(ss, es) && n <= |es| && ss[n].sh.cleaner.Some?
    requires var c := ss[n].sh.cleaner.value; c.unseen && c.action == PruneAfterTimeout && c.worker.Got?
    ensures var c := ss[n].sh.cleaner.value;
            && (Prunes(ss[n], Event(0, Work(t))) || Arms(ss[n], Event(0, Work(t))))
            && WorkerStep(c, ss[n].sh.now, t).Some? && !WorkerStep(c, ss[n].sh.now, t).value.unseen
  {
    hide SysStep, IsRun;
  }

  lemma {:induction false} TimerArmedSince(ss: seq<System>, es: seq<Event>, m: nat, n: nat) returns (k: nat)
    requires IsRun(ss, es) && m <= n <= |es| && ss[n].sh.cleaner.Some?
    requires TimerOf(ss[n].sh.cleaner.value.worker).Armed?
    requires ss[m].sh.cleaner.Some? ==> TimerOf(ss[m].sh.cleaner.value.worker) == Never
    ensures m <= k < n && Arms(ss[k], es[k])
    decreases n
  {
    hide Step, SysStep, Sound;
    assert m < n;
    StepOf(ss, es, n - 1);
    TimerStep(ss[n - 1], es[n - 1], ss[n]);
    if TimerOf(ss[n - 1].sh.cleaner.value.worker) == TimerOf(ss[n].sh.cleaner.value.worker) {
      k := TimerArmedSince(ss, es, m, n - 1);
    } else {
      k := n - 1;
    }
  }

  /** Memory is released once for every time the timer is set. */
  lemma PruneOncePerArming(ss: seq<System>, es: seq<Event>, n: nat, n': nat) returns (k: nat)
    requires IsRun(ss, es) && n < n' < |es| && Prunes(ss[n], es[n]) && Prunes(ss[n'], es[n'])
    ensures n < k < n' && Arms(ss[k], es[k])
  {
    hide SysStep;
    RunSound(ss, es, n');
    StepOf(ss, es, n);
    k := TimerArmedSince(ss, es, n + 1, n');
  }

  /** The cleaner's timeout is the context's as of its creation or the last setIdlePruningTimeout applied to it. */
  lemma TimeoutStep(sh: Shared, call: Call, a: Action)
    requires Step(sh, call, a).Some? && Step(sh, call, a).value.0.cleaner.Some?
    ensures var sh' := Step(sh, call, a).value.0;
            sh'.cleaner.value.idleTimeout ==
            if sh.cleaner.None? || a.ApplyTimeout? then sh.idleTimeout else sh.cleaner.value.idleTimeout
    ensures a.WriteTimeout? ==> Step(sh, call, a).value.0.idleTimeout == a.ms
  {
  }

  // ------------------------------------------------------------------- what the calls bring about

  /** Enabling leaves a cleaner: the one there was, or a new one that was asked for nothing. */
  lemma EnableMeans(s: System, t: nat)
    requires t < |s.pcs| && s.pcs[t] == Outside && s.owner.None?
    ensures var s' := SysStep(s, Event(t, Enable));
            && s'.Some? && s'.value.sh.cleaner.Some? && s'.value.pcs[t] == Outside && s'.value.owner.None?
            && (s.sh.cleaner.Some? ==> s'.value.sh.cleaner == s.sh.cleaner)
            && (s.sh.cleaner.None? ==>
                  var c := s'.value.sh.cleaner.value;
                  c.action == Nop && !c.unseen && c.worker == Starting && c.mutex == Free)
  {
  }

  /** Inside a call that ends the cleaner. */
  predicate Ending(call: Call)
  {
    call == BreakLock || Breaking(call)
  }

  /** Disabling without a cleaner changes nothing; with one, the call returns only when the cleaner is gone. */
  lemma DisableMeans(s: System, t: nat)
    requires t < |s.pcs| && s.pcs[t] == Outside && s.owner.None?
    ensures var s' := SysStep(s, Event(t, Disable));
            && s'.Some? && s'.value.sh == s.sh
            && (s.sh.cleaner.None? ==> s'.value == s)
            && (s.sh.cleaner.Some? ==> Ending(s'.value.pcs[t]))
  {
    if s.sh.cleaner.None? { assert s.pcs[t := Outside] == s.pcs; }
  }

  lemma EndingGoesOn(s: System, t: nat)
    requires t < |s.pcs| && Ending(s.pcs[t]) && SysStep(s, Event(t, Advance)).Some?
    ensures var s' := SysStep(s, Event(t, Advance)).value;
            Ending(s'.pcs[t]) || (s'.pcs[t] == Outside && s'.sh.cleaner.None?)
  {
  }

  /** A setIdle with a cleaner returns only after it wrote its request and passed on the notification. */
  lemma SetIdleMeans(s: System, t: nat)
    requires t < |s.pcs| && s.pcs[t] == Outside && s.owner.None?
    ensures var s' := SysStep(s, Event(t, SetIdle));
            && s'.Some? && s'.value.sh == s.sh
            && s'.value.pcs[t] == (if s.sh.cleaner.Some? then IdleLock else Outside)
  {
  }

  lemma SetIdleGoesOn(s: System, t: nat)
    requires t < |s.pcs| && SysStep(s, Event(t, Advance)).Some? && s.sh.cleaner.Some?
    ensures var s' := SysStep(s, Event(t, Advance)).value;
            && (s.pcs[t] == IdleLock ==>
                  && s'.pcs[t] == IdleWritten && s'.sh.cleaner.Some?
                  && s'.sh.cleaner.value.action == PruneAfterTimeout && s'.sh.cleaner.value.unseen)
            && (s.pcs[t] == IdleWritten ==> s'.pcs[t] == IdleNotify && s'.sh.cleaner.Some?)
            && (s.pcs[t] == IdleNotify ==>
                  s'.pcs[t] == Outside && s'.sh.cleaner.Some? && !s'.sh.cleaner.value.worker.Waiting?)
  {
  }

  // ------------------------------------------------------------------- the fate of a setIdle

  /** A request the worker is not going to look at unless it is woken once more. */
  predicate Overlooked(s: System)
  {
    && CurrentCall(s) == Outside && s.sh.cleaner.Some?
    && s.sh.cleaner.value.unseen && s.sh.cleaner.value.worker.Waiting?
  }

  /** A request made after the worker's first wait is never overlooked. */
  lemma OnlyEarlyRequestsOverlooked(ss: seq<System>, es: seq<Event>, n: nat)
    requires IsRun(ss, es) && n <= |es| && Overlooked(ss[n])
    ensures ss[n].sh.cleaner.value.early
  {
    hide SysStep;
    RunSound(ss, es, n);
  }

  // -------------------------------------------- when a setIdle about to write is overlooked

  /** A continuation of the run from s in which no further call is made. */
  ghost predicate Continues(s: System, ss: seq<System>, es: seq<Event>)
  {
    && |ss| == |es| + 1 && ss[0] == s
    && forall n :: 0 <= n < |es| ==> SysStep(ss[n], es[n]) == Some(ss[n + 1]) && !Entering(es[n].action)
  }

  /** A setIdle that finds the worker past its start, until the call is over and after. */
  ghost predicate SeesWorker(s: System)
  {
    && Sound(s) && s.sh.cleaner.Some?
    && var c := s.sh.cleaner.value;
       || (CurrentCall(s) == IdleLock && !c.worker.Starting?)
       || (CurrentCall(s) in {IdleWritten, IdleNotify, Outside} && !c.early)
  }

  lemma SeesWorkerStep(s: System, e: Event, s': System)
    requires SeesWorker(s) && SysStep(s, e) == Some(s') && !Entering(e.action)
    ensures SeesWorker(s')
  {
    hide SysStep, Inv, Exclusive;
    ThreadsRefineOneCall(s, e);
    StepKeepsInv(s.sh, CurrentCall(s), e.action);
  }

  lemma {:induction false} SeenAllAlong(s: System, ss: seq<System>, es: seq<Event>, n: nat)
    requires Continues(s, ss, es) && SeesWorker(s) && n <= |es|
    ensures SeesWorker(ss[n])
  {
    hide SysStep, SeesWorker;
    if n > 0 {
      SeenAllAlong(s, ss, es, n - 1);
      assert SysStep(ss[n - 1], es[n - 1]) == Some(ss[n - 1 + 1]);
      SeesWorkerStep(ss[n - 1], es[n - 1], ss[n]);
    }
  }

  lemma SeenNotOverlooked(s: System)
    requires SeesWorker(s)
    ensures !Overlooked(s)
  {
    hide Exclusive;
  }

  /** The thread inside a call takes its next step. */
  lemma AdvanceStep(s: System, t: nat, c': Cleaner, call': Call)
    requires Sound(s) && s.owner == Some(t) && s.sh.cleaner.Some?
    requires CallStep(s.sh.cleaner.value, CurrentCall(s)) == Some((Some(c'), call'))
    ensures var s' := System(s.sh.(cleaner := Some(c')), if call' == Outside then None else Some(t), s.pcs[t := call']);
            SysStep(s, Event(t, Advance)) == Some(s') && CurrentCall(s') == call'
  {
    hide CallStep, Inv;
  }

  lemma WorkStep(s: System, c': Cleaner)
    requires s.sh.cleaner.Some? && WorkerStep(s.sh.cleaner.value, s.sh.now, false) == Some(c')
    ensures var s' := s.(sh := s.sh.(cleaner := Some(c')));
            SysStep(s, Event(0, Work(false))) == Some(s') && CurrentCall(s') == CurrentCall(s)
  {
    hide WorkerStep;
  }

  /** From a worker still starting, the call can end and the worker go to sleep without noticing. */
  lemma StartingSleeps(s: System) returns (ss: seq<System>, es: seq<Event>)
    requires Sound(s) && CurrentCall(s) == IdleLock && s.sh.cleaner.Some? && s.sh.cleaner.value.worker.Starting?
    ensures Continues(s, ss, es) && Overlooked(ss[|es|])
  {
    hide SysStep, Inv, Exclusive;
    var t, c := s.owner.value, s.sh.cleaner.value;
    assert c.mutex == Free by { StartingFree(s); }
    var asked := c.(action := PruneAfterTimeout, unseen := true, early := true);
    var s1 := System(s.sh.(cleaner := Some(asked.(mutex := ByCaller))), Some(t), s.pcs[t := IdleWritten]);
    AdvanceStep(s, t, asked.(mutex := ByCaller), IdleWritten);
    SoundStep(s, Event(t, Advance), s1);
    var s2 := System(s1.sh.(cleaner := Some(asked)), Some(t), s1.pcs[t := IdleNotify]);
    AdvanceStep(s1, t, asked, IdleNotify);
    SoundStep(s1, Event(t, Advance), s2);
    var s3 := System(s2.sh.(cleaner := Some(asked)), None, s2.pcs[t := Outside]);
    AdvanceStep(s2, t, asked, Outside);
    var checking := asked.(mutex := ByWorker, worker := Checking(Never));
    var s4 := s3.(sh := s3.sh.(cleaner := Some(checking)));
    WorkStep(s3, checking);
    var asleep := asked.(worker := Waiting(Never));
    var s5 := s4.(sh := s4.sh.(cleaner := Some(asleep)));
    WorkStep(s4, asleep);
    var go, work := Event(t, Advance), Event(0, Work(false));
    ss, es := [s, s1, s2, s3, s4, s5], [go, go, go, work, work];
  }

  /** A setIdle that finds the worker asleep can end with the timer set from the clock and the timeout. */
  lemma AsleepIsArmed(s: System) returns (ss: seq<System>, es: seq<Event>)
    requires Sound(s) && CurrentCall(s) == IdleLock && s.sh.cleaner.Some? && s.sh.cleaner.value.worker.Waiting?
    ensures Continues(s, ss, es) && CurrentCall(ss[|es|]) == Outside && ss[|es|].sh.cleaner.Some?
    ensures TimerOf(ss[|es|].sh.cleaner.value.worker) == Armed(s.sh.now, s.sh.cleaner.value.idleTimeout)
  {
    hide SysStep, Inv, Exclusive;
    var t, c := s.owner.value, s.sh.cleaner.value;
    assert c.mutex == Free by { WaitingFree(s); }
    var timer := c.worker.timer;
    var asked := c.(action := PruneAfterTimeout, unseen := true, early := false);
    var s1 := System(s.sh.(cleaner := Some(asked.(mutex := ByCaller))), Some(t), s.pcs[t := IdleWritten]);
    AdvanceStep(s, t, asked.(mutex := ByCaller), IdleWritten);
    SoundStep(s, Event(t, Advance), s1);
    var s2 := System(s1.sh.(cleaner := Some(asked)), Some(t), s1.pcs[t := IdleNotify]);
    AdvanceStep(s1, t, asked, IdleNotify);
    SoundStep(s1, Event(t, Advance), s2);
    var woken := asked.(worker := Woken(timer));
    var s3 := System(s2.sh.(cleaner := Some(woken)), None, s2.pcs[t := Outside]);
    AdvanceStep(s2, t, woken, Outside);
    var got := woken.(mutex := ByWorker, worker := Got(timer, false));
    var s4 := s3.(sh := s3.sh.(cleaner := Some(got)));
    WorkStep(s3, got);
    var armed := got.(worker := Checking(Armed(s.sh.now, c.idleTimeout)), unseen := false);
    var s5 := s4.(sh := s4.sh.(cleaner := Some(armed)));
    WorkStep(s4, armed);
    var go, work := Event(t, Advance), Event(0, Work(false));
    ss, es := [s, s1, s2, s3, s4, s5], [go, go, go, work, work];
  }

  lemma WaitingFree(s: System)
    requires Sound(s) && CurrentCall(s) == IdleLock && s.sh.cleaner.Some? && s.sh.cleaner.value.worker.Waiting?
    ensures s.sh.cleaner.value.mutex == Free
  {
    hide Exclusive;
  }

  lemma StartingFree(s: System)
    requires Sound(s) && CurrentCall(s) == IdleLock && s.sh.cleaner.Some? && s.sh.cleaner.value.worker.Starting?
    ensures s.sh.cleaner.value.mutex == Free
  {
    hide Exclusive;
  }

  lemma SoundStep(s: System, e: Event, s': System)
    requires Sound(s) && SysStep(s, e) == Some(s')
    ensures Sound(s')
  {
    hide SysStep, Step, Inv, Exclusive;
    ThreadsRefineOneCall(s, e);
    StepKeepsInv(s.sh, CurrentCall(s), e.action);
  }

  /**
   In every run, when a setIdle is about to write its request: some continuation without
   further calls leaves the request overlooked if and only if the worker has not yet taken
   its mutex for the first time.
   */
  lemma OverlookedExactly(ss: seq<System>, es: seq<Event>, n: nat)
    requires IsRun(ss, es) && n <= |es| && CurrentCall(ss[n]) == IdleLock
    ensures ss[n].sh.cleaner.Some?
    ensures (exists ss', es' :: Continues(ss[n], ss', es') && Overlooked(ss'[|es'|]))
            <==> ss[n].sh.cleaner.value.worker.Starting?
  {
    hide SysStep, Overlooked;
    RunSound(ss, es, n);
    var s := ss[n];
    if s.sh.cleaner.value.worker.Starting? {
      var ss', es' := StartingSleeps(s);
    } else {
      assert SeesWorker(s);
      forall ss', es' | Continues(s, ss', es') ensures !Overlooked(ss'[|es'|]) {
        SeenAllAlong(s, ss', es', |es'|);
        SeenNotOverlooked(ss'[|es'|]);
      }
    }
  }

  /** A worker that has not run yet sleeps through a setIdle made in the meantime, with no timer set. */
  lemma EarlyRequestOverlooked()
    ensures exists ss: seq<System>, es ::
              IsRun(ss, es) && Overlooked(ss[|es|]) && ss[|es|].sh.cleaner.value.worker == Waiting(Never)
  {
    hide SysStep, At, Overlooked;
    var go, work := Event(0, Advance), Event(0, Work(false));
    var es := [Event(0, Enable), Event(0, SetIdle), go, go, go, work, work];
    var c := Fresh(0, 30000);
    var asked := c.(action := PruneAfterTimeout, unseen := true, early := true);
    var ss := [At(None, Outside), At(Some(c), Outside), At(Some(c), IdleLock),
               At(Some(asked.(mutex := ByCaller)), IdleWritten), At(Some(asked), IdleNotify), At(Some(asked), Outside),
               At(Some(asked.(mutex := ByWorker, worker := Checking(Never))), Outside),
               At(Some(asked.(worker := Waiting(Never))), Outside)];
    EarlyEnable(c);
    EarlyCall(c, asked);
    EarlyWork(asked);
    assert IsRun(ss, es);
    assert Overlooked(ss[|es|]);
  }

  lemma EarlyEnable(c: Cleaner)
    requires c == Fresh(0, 30000)
    ensures At(None, Outside) == StartSystem(1) && |At(None, Outside).pcs| == 1
    ensures SysStep(At(None, Outside), Event(0, Enable)) == Some(At(Some(c), Outside))
    ensures SysStep(At(Some(c), Outside), Event(0, SetIdle)) == Some(At(Some(c), IdleLock))
  {
    assert [Outside][0 := Outside] == [Outside] && [Outside][0 := IdleLock] == [IdleLock];
  }

  lemma EarlyCall(c: Cleaner, asked: Cleaner)
    requires c == Fresh(0, 30000) && asked == c.(action := PruneAfterTimeout, unseen := true, early := true)
    ensures SysStep(At(Some(c), IdleLock), Event(0, Advance)) == Some(At(Some(asked.(mutex := ByCaller)), IdleWritten))
    ensures SysStep(At(Some(asked.(mutex := ByCaller)), IdleWritten), Event(0, Advance))
         == Some(At(Some(asked), IdleNotify))
    ensures SysStep(At(Some(asked), IdleNotify), Event(0, Advance)) == Some(At(Some(asked), Outside))
  {
    assert [IdleLock][0 := IdleWritten] == [IdleWritten] && [IdleWritten][0 := IdleNotify] == [IdleNotify];
    assert [IdleNotify][0 := Outside] == [Outside];
  }

  lemma EarlyWork(asked: Cleaner)
    requires asked == Fresh(0, 30000).(action := PruneAfterTimeout, unseen := true, early := true)
    ensures var checking := asked.(mutex := ByWorker, worker := Checking(Never));
            var asleep := At(Some(asked.(worker := Waiting(Never))), Outside);
            && SysStep(At(Some(asked), Outside), Event(0, Work(false))) == Some(At(Some(checking), Outside))
            && SysStep(At(Some(checking), Outside), Event(0, Work(false))) == Some(asleep)
            && Overlooked(asleep) && asleep.sh.cleaner.value.worker == Waiting(Never)
  {
  }

  /** One thread; time has not moved. */
  function At(c: Option<Cleaner>, call: Call): (s: System)
  {
    System(Shared(0, 30000, if c.Some? then 1 else 0, c), if call == Outside then None else Some(0), [call])
  }
}
