/**
 Jobs under construction, regular command lists and the ids of mutable commands
 (umd/level_zero_driver/source/cmdlist.hpp, cmdlist.cpp,
 umd/vpu_driver/source/command/job.cpp).
 */
module CommandLists {
  import opened Jobs

  type EventId = nat

  datatype Kind =
    | EventWait(e: EventId)
    | EventSignal(e: EventId)
    | EventReset(e: EventId)
    | Barrier
    | Fill(start: nat, size: nat, pattern: nat)
    | Copy(src: nat, dst: nat, size: nat)
    | GraphExecute(graph: nat)
    | Other(what: nat)

  datatype Command = Command(kind: Kind, commitSize: nat)

  function Kinds(cs: seq<Command>): (ks: seq<Kind>)
  {
    seq(|cs|, i requires 0 <= i < |cs| => cs[i].kind)
  }

  /** dirty: an attempt to close left command buffers behind. */
  datatype Job = Job(commands: seq<Command>, closed: bool, dirty: bool)

  const NEW_JOB := Job([], false, false)

  /** VPUJob::appendCommand; commands of size zero are skipped. */
  function PushCommand(job: Job, cmd: Command): (r: Option<Job>)
  {
    if job.closed || job.dirty then None
    else if cmd.commitSize == 0 then Some(job)
    else Some(job.(commands := job.commands + [cmd]))
  }

  // ------------------------------------------------------------------ top-level appends

  /** An event handle: null, or an event whose memory is known to the context or not. */
  datatype EventArg = NullEvent | Event(id: EventId, mapped: bool)

  /** A command the list is asked to append, or the error met while creating it. */
  datatype Item = Item(cmd: Command) | Broken(error: ZeError)

  const FENCE_COMMAND_SIZE := 24

  function WaitItem(e: EventArg): (i: Item)
  {
    match e
    case NullEvent => Broken(InvalidNullHandle)
    case Event(id, mapped) =>
      if mapped then Item(Command(EventWait(id), FENCE_COMMAND_SIZE)) else Broken(Uninitialized)
  }

  function SignalItem(e: EventArg): (i: Item)
  {
    match e
    case NullEvent => Broken(InvalidNullHandle)
    case Event(id, mapped) =>
      if mapped then Item(Command(EventSignal(id), FENCE_COMMAND_SIZE)) else Broken(Uninitialized)
  }

  /**
   One append at the API: events to wait for, the commands proper, the event to signal.
   A signal, a wait or a reset alone is an append with the other parts empty; waits is
   None when a null array comes with a positive count.
   */
  datatype Append = Append(waits: Option<seq<EventArg>>, cmds: seq<Item>, signal: Option<EventArg>)

  function WaitItems(waits: Option<seq<EventArg>>): (items: seq<Item>)
    ensures waits.Some? ==> |items| == |waits.value|
  {
    if waits.None? then [Broken(InvalidSize)]
    else seq(|waits.value|, i requires 0 <= i < |waits.value| => WaitItem(waits.value[i]))
  }

  /** The signal command, if one is asked for. */
  function EventItems(signal: Option<EventArg>): (items: seq<Item>)
  {
    if signal.Some? then [SignalItem(signal.value)] else []
  }

  /** The items in the order the append pushes them. */
  function Items(op: Append): (items: seq<Item>)
  {
    WaitItems(op.waits) + op.cmds + EventItems(op.signal)
  }

  datatype Appended = Appended(job: Job, result: ZeResult)

  /** Push items from the front until one fails; what was pushed before stays. */
  function PushAll(job: Job, items: seq<Item>): (r: Appended)
    ensures r.job.closed == job.closed && r.job.dirty == job.dirty
    decreases |items|
  {
    if items == [] then Appended(job, Success)
    else match items[0]
      case Broken(error) => Appended(job, error)
      case Item(cmd) =>
        var pushed := PushCommand(job, cmd);
        if pushed.None? then Appended(job, Unknown) else PushAll(pushed.value, items[1..])
  }

  /** The commands a sequence of intact items contributes. */
  function Effective(items: seq<Item>): (cs: seq<Command>)
    decreases |items|
  {
    if items == [] then []
    else
      (if items[0].Item? && items[0].cmd.commitSize > 0 then [items[0].cmd] else []) + Effective(items[1..])
  }

  ghost predicate Intact(items: seq<Item>)
  {
    forall i :: 0 <= i < |items| ==> items[i].Item?
  }

  ghost predicate Open(job: Job)
  {
    !job.closed && !job.dirty
  }

  lemma IntactTail(items: seq<Item>)
    requires items != [] && items[0].Item?
    ensures Intact(items) <==> Intact(items[1..])
  {
    if Intact(items[1..]) {
      assert forall i :: 0 < i < |items| ==> items[i] == items[1..][i - 1];
    }
  }

  /** An append to an open job succeeds exactly when every item is intact; it adds their commands. */
  lemma {:induction false} PushAllSpec(job: Job, items: seq<Item>)
    requires Open(job)
    ensures PushAll(job, items).result == Success <==> Intact(items)
    ensures Intact(items) ==> PushAll(job, items).job == job.(commands := job.commands + Effective(items))
    decreases |items|
  {
    hide Intact;
    if items == [] {
      IntactNone();
    } else if items[0].Item? {
      PushAllSpec(PushCommand(job, items[0].cmd).value, items[1..]);
      IntactTail(items);
    } else {
      BrokenFirst(items);
    }
  }

  lemma IntactNone()
    ensures Intact([])
  {
  }

  lemma BrokenFirst(items: seq<Item>)
    requires items != [] && items[0].Broken?
    ensures !Intact(items)
  {
  }

  /** The commands that get into the job before the first broken item. */
  function Pushed(items: seq<Item>): (cs: seq<Command>)
    decreases |items|
  {
    if items == [] || items[0].Broken? then []
    else (if items[0].cmd.commitSize > 0 then [items[0].cmd] else []) + Pushed(items[1..])
  }

  /** What an append adds to an open job, and how it ends, does not depend on what is there. */
  lemma {:induction false} PushAllAdds(job: Job, items: seq<Item>)
    requires Open(job)
    ensures PushAll(job, items).job == job.(commands := job.commands + Pushed(items))
    ensures PushAll(job, items).result == PushAll(NEW_JOB, items).result
    decreases |items|
  {
    if items != [] && items[0].Item? {
      PushAllAdds(PushCommand(job, items[0].cmd).value, items[1..]);
      PushAllAdds(PushCommand(NEW_JOB, items[0].cmd).value, items[1..]);
    }
  }

  lemma {:induction false} EffectiveConcat(a: seq<Item>, b: seq<Item>)
    ensures Effective(a + b) == Effective(a) + Effective(b)
    decreases |a|
  {
    if a == [] {
      assert a + b == b;
    } else {
      assert (a + b)[1..] == a[1..] + b;
      EffectiveConcat(a[1..], b);
    }
  }

  // ----------------------------------------------------------------------- regular lists

  datatype ListState = ListState(job: Job, idMap: map<nat, nat>, mutable: bool)

  function RegularAppend(s: ListState, op: Append): (r: (ListState, ZeResult))
  {
    if s.job.closed then (s, NotAvailable)
    else
      var a := PushAll(s.job, Items(op));
      (s.(job := a.job), a.result)
  }

  /** appendGraphExecute: the id of the command is moved past the wait commands before it. */
  function GraphAppend(s: ListState, waits: Option<seq<EventArg>>, cmd: Item, signal: Option<EventArg>):
    (r: (ListState, ZeResult))
  {
    if s.job.closed then (s, NotAvailable)
    else
      var newId := |s.job.commands|;
      var w := PushAll(s.job, WaitItems(waits));
      if w.result != Success then (s.(job := w.job), w.result)
      else
        var after := |w.job.commands|;
        var idMap := if s.mutable && newId < after && newId !in s.idMap then s.idMap[newId := after] else s.idMap;
        var a := PushAll(w.job, [cmd] + EventItems(signal));
        (ListState(a.job, idMap, s.mutable), a.result)
  }

  class CommandList {
    var vpuJob: Job
    var commandIdMap: map<nat, nat>
    const isMutable: bool

    ghost function State(): (s: ListState)
      reads this
    {
      ListState(vpuJob, commandIdMap, isMutable)
    }

    constructor (isMutable: bool)
      ensures State() == ListState(NEW_JOB, map[], isMutable)
    {
      vpuJob, commandIdMap, this.isMutable := NEW_JOB, map[], isMutable;
    }

    /** The pushes of one append, stopping at the first error. */
    method Push(items: seq<Item>) returns (r: ZeResult)
      modifies this`vpuJob
      ensures Appended(vpuJob, r) == PushAll(old(vpuJob), items)
    {
      for i := 0 to |items|
        invariant PushAll(old(vpuJob), items) == PushAll(vpuJob, items[i..])
      {
        assert items[i..][1..] == items[i + 1..];
        match items[i] {
          case Broken(error) => return error;
          case Item(cmd) =>
            if vpuJob.closed || vpuJob.dirty { return Unknown; }
            if cmd.commitSize != 0 {
              vpuJob := vpuJob.(commands := vpuJob.commands + [cmd]);
            }
        }
      }
      r := Success;
    }

    /** appendCommandWithEvents, and the appends of one event command. */
    method AppendWithEvents(op: Append) returns (r: ZeResult)
      modifies this`vpuJob
      ensures (State(), r) == RegularAppend(old(State()), op)
    {
      if vpuJob.closed { return NotAvailable; }
      r := Push(Items(op));
    }

    method AppendGraphExecute(waits: Option<seq<EventArg>>, cmd: Item, signal: Option<EventArg>) returns (r: ZeResult)
      modifies this
      ensures (State(), r) == GraphAppend(old(State()), waits, cmd, signal)
    {
      if vpuJob.closed { return NotAvailable; }
      var newId := |vpuJob.commands|;
      r := Push(WaitItems(waits));
      if r != Success { return; }
      if isMutable {
        var after := |vpuJob.commands|;
        if newId < after && newId !in commandIdMap {
          commandIdMap := commandIdMap[newId := after];
        }
      }
      r := Push([cmd] + EventItems(signal));
    }

    method GetNextCommandId(flagsSupported: bool) returns (r: ZeResult, id: nat)
      ensures r == Success <==> isMutable && !vpuJob.closed && flagsSupported
      ensures r == Success ==> id == |vpuJob.commands|
      ensures r != Success ==> r == InvalidArgument
    {
      id := 0;
      if !isMutable { return InvalidArgument, id; }
      if vpuJob.closed { return InvalidArgument, id; }
      if !flagsSupported { return InvalidArgument, id; }
      return Success, |vpuJob.commands|;
    }

    method Reset() returns (r: ZeResult)
      modifies this`vpuJob
      ensures r == Success && State() == old(State()).(job := NEW_JOB)
    {
      vpuJob := NEW_JOB;
      r := Success;
    }

    method Close(failAt: nat) returns (r: ZeResult)
      modifies this`vpuJob
      ensures State() == old(State()).(job := CloseJob(old(vpuJob), failAt).0)
      ensures r == if CloseJob(old(vpuJob), failAt).1 then Success else Unknown
    {
      if vpuJob.closed && !isMutable { return Success; }
      var closing := CloseJob(vpuJob, failAt);
      vpuJob := closing.0;
      r := if closing.1 then Success else Unknown;
    }
  }

  /** Number of command buffers a job is cut into: one after every signal, and one for the rest. */
  function BufferCount(cs: seq<Command>): (n: nat)
    ensures n == 0 <==> cs == []
  {
    if cs == [] then 0
    else if |cs| == 1 then 1
    else (if cs[0].kind.EventSignal? then 1 else 0) + BufferCount(cs[1..])
  }

  /**
   VPUJob::closeCommands; failAt is the first buffer that cannot be created, if the job has so
   many.  Buffers created before it stay behind and make the job dirty.
   */
  function CloseJob(job: Job, failAt: nat): (r: (Job, bool))
  {
    if job.closed then (job, true)
    else if job.dirty then (job, false)
    else if failAt >= BufferCount(job.commands) then (job.(closed := true), true)
    else if failAt == 0 then (job, false)
    else (job.(dirty := true), false)
  }

  // ------------------------------------------------------------------------- a run of appends

  /** Appends made one after the other until one fails. */
  function AppendEach(s: ListState, ops: seq<Append>): (r: (ListState, ZeResult))
    decreases |ops|
  {
    if ops == [] then (s, Success)
    else
      var first := RegularAppend(s, ops[0]);
      if first.1 != Success then first else AppendEach(first.0, ops[1..])
  }

  function Contributions(ops: seq<Append>): (cs: seq<Command>)
    decreases |ops|
  {
    if ops == [] then [] else Effective(Items(ops[0])) + Contributions(ops[1..])
  }

  ghost predicate AllIntact(ops: seq<Append>)
  {
    forall i :: 0 <= i < |ops| ==> Intact(Items(ops[i]))
  }

  lemma {:induction false} AppendEachSpec(s: ListState, ops: seq<Append>)
    requires Open(s.job)
    ensures AppendEach(s, ops).1 == Success <==> AllIntact(ops)
    ensures AllIntact(ops) ==>
              AppendEach(s, ops).0 == s.(job := s.job.(commands := s.job.commands + Contributions(ops)))
    decreases |ops|
  {
    hide PushAll, Intact, Items, Effective;
    if ops != [] {
      PushAllSpec(s.job, Items(ops[0]));
      if Intact(Items(ops[0])) {
        var first := RegularAppend(s, ops[0]).0;
        AppendEachSpec(first, ops[1..]);
        assert ops == [ops[0]] + ops[1..];
        assert forall i :: 0 < i < |ops| ==> ops[i] == ops[1..][i - 1];
        assert forall i :: 0 <= i < |ops[1..]| ==> ops[1..][i] == ops[i + 1];
      }
    }
  }

  lemma OneEffective(item: Item)
    ensures Intact([item]) <==> item.Item?
    ensures item.Item? && item.cmd.commitSize > 0 ==> Effective([item]) == [item.cmd]
  {
    assert [item][0] == item && [item][1..] == [];
  }

  lemma IntactConcat(a: seq<Item>, b: seq<Item>)
    ensures Intact(a + b) <==> Intact(a) && Intact(b)
  {
    if Intact(a + b) {
      assert forall i :: 0 <= i < |a| ==> a[i] == (a + b)[i];
      assert forall i :: 0 <= i < |b| ==> b[i] == (a + b)[|a| + i];
    }
  }

  lemma AllIntactCons(op: Append, ops: seq<Append>)
    ensures AllIntact([op] + ops) <==> Intact(Items(op)) && AllIntact(ops)
  {
    hide Intact, Items;
    var all := [op] + ops;
    assert forall i :: 0 <= i < |ops| ==> ops[i] == all[i + 1];
    assert all[0] == op;
  }

  ghost predicate NoMemory(cs: seq<Command>)
  {
    forall i :: 0 <= i < |cs| ==> cs[i].kind.EventWait? || cs[i].kind.EventSignal?
  }

  lemma {:induction false} EventsTouchNothing(items: seq<Item>)
    requires forall i :: 0 <= i < |items| && items[i].Item? ==>
               items[i].cmd.kind.EventWait? || items[i].cmd.kind.EventSignal?
    ensures NoMemory(Effective(items))
    decreases |items|
  {
    if items != [] {
      EventsTouchNothing(items[1..]);
    }
  }

  lemma KindIn(cs: seq<Command>, k: Kind) returns (i: nat)
    requires k in Kinds(cs)
    ensures i < |cs| && cs[i].kind == k
  {
    i :| 0 <= i < |cs| && Kinds(cs)[i] == k;
  }

  lemma OneCommandLayout(item: Item, waits: Option<seq<EventArg>>, signal: Option<EventArg>)
    requires item.Item? ==> item.cmd.commitSize > 0
    ensures var items := Items(Append(waits, [item], signal));
            Intact(items) ==>
              && item.Item?
              && Effective(items) == Effective(WaitItems(waits)) + [item.cmd] + Effective(EventItems(signal))
  {
    hide Effective, Intact;
    var w, e := WaitItems(waits), EventItems(signal);
    IntactConcat(w, [item]);
    IntactConcat(w + [item], e);
    EffectiveConcat(w, [item]);
    EffectiveConcat(w + [item], e);
    OneEffective(item);
  }

  // ------------------------------------------------------------------- mutable command ids

  /** How an id handed out by getNextCommandId is read when commands are updated. */
  function Translate(idMap: map<nat, nat>, id: nat): (r: nat)
  {
    if id in idMap then idMap[id] else id
  }

  datatype ListEvent =
    | AppendEvent(op: Append)
    | GraphEvent(waits: Option<seq<EventArg>>, cmd: Item, signal: Option<EventArg>)
    | ResetEvent
    | CloseEvent(failAt: nat)

  function Apply(s: ListState, e: ListEvent): (r: (ListState, ZeResult))
  {
    match e
    case AppendEvent(op) => RegularAppend(s, op)
    case GraphEvent(waits, cmd, signal) => GraphAppend(s, waits, cmd, signal)
    case ResetEvent => (s.(job := NEW_JOB), Success)
    case CloseEvent(failAt) =>
      var c := CloseJob(s.job, failAt);
      (s.(job := c.0), if c.1 then Success else Unknown)
  }

  function RunList(s: ListState, es: seq<ListEvent>): (r: ListState)
    decreases |es|
  {
    if es == [] then s else RunList(Apply(s, es[0]).0, es[1..])
  }

  /** Keys of the map are ids of commands that exist by now. */
  ghost predicate MapBehind(s: ListState)
  {
    forall id :: id in s.idMap ==> id < |s.job.commands|
  }

  lemma {:induction false} PushAllGrows(job: Job, items: seq<Item>)
    ensures job.commands <= PushAll(job, items).job.commands
    decreases |items|
  {
    if items != [] && items[0].Item? && PushCommand(job, items[0].cmd).Some? {
      PushAllGrows(PushCommand(job, items[0].cmd).value, items[1..]);
    }
  }

  /** Without a reset, a call only extends the job. */
  lemma StepGrows(s: ListState, e: ListEvent)
    requires !e.ResetEvent?
    ensures s.job.commands <= Apply(s, e).0.job.commands && Apply(s, e).0.mutable == s.mutable
  {
    hide PushAll, Items;
    match e
    case AppendEvent(op) => PushAllGrows(s.job, Items(op));
    case GraphEvent(waits, cmd, signal) =>
      var w := PushAll(s.job, WaitItems(waits));
      PushAllGrows(s.job, WaitItems(waits));
      PushAllGrows(w.job, [cmd] + EventItems(signal));
    case CloseEvent(_) =>
  }

  lemma {:induction false} RunGrows(s: ListState, es: seq<ListEvent>)
    requires forall i :: 0 <= i < |es| ==> !es[i].ResetEvent?
    ensures s.job.commands <= RunList(s, es).job.commands && RunList(s, es).mutable == s.mutable
    decreases |es|
  {
    hide Apply;
    if es != [] {
      StepGrows(s, es[0]);
      RunGrows(Apply(s, es[0]).0, es[1..]);
    }
  }

  /** Without a reset, commands and the translation of existing ids never change. */
  lemma StepStable(s: ListState, e: ListEvent)
    requires MapBehind(s) && !e.ResetEvent?
    ensures var t := Apply(s, e).0;
            && MapBehind(t) && s.job.commands <= t.job.commands && t.mutable == s.mutable
            && forall id: nat :: id < |s.job.commands| ==> Translate(t.idMap, id) == Translate(s.idMap, id)
  {
    hide PushAll, Items;
    StepGrows(s, e);
    if e.GraphEvent? {
      var w := PushAll(s.job, WaitItems(e.waits));
      PushAllGrows(w.job, [e.cmd] + EventItems(e.signal));
    }
  }

  lemma {:induction false} RunStable(s: ListState, es: seq<ListEvent>)
    requires MapBehind(s) && forall i :: 0 <= i < |es| ==> !es[i].ResetEvent?
    ensures var t := RunList(s, es);
            && MapBehind(t) && s.job.commands <= t.job.commands && t.mutable == s.mutable
            && forall id: nat :: id < |s.job.commands| ==> Translate(t.idMap, id) == Translate(s.idMap, id)
    decreases |es|
  {
    if es != [] {
      StepStable(s, es[0]);
      RunStable(Apply(s, es[0]).0, es[1..]);
    }
  }

  /** A graph append that puts its command into the job. */
  ghost predicate GraphAppended(s: ListState, waits: Option<seq<EventArg>>, cmd: Item, signal: Option<EventArg>)
  {
    GraphAppend(s, waits, cmd, signal).1 == Success && cmd.Item? && cmd.cmd.commitSize > 0
  }

  /**
   Taken just before a successful graph append, the id translates to the position of the
   graph command, exactly when no stale entry for that id is in the map.
   */
  lemma TranslationExact(s: ListState, waits: Option<seq<EventArg>>, cmd: Item, signal: Option<EventArg>)
    requires s.mutable && GraphAppended(s, waits, cmd, signal)
    ensures waits.Some?
    ensures var t, id, at := GraphAppend(s, waits, cmd, signal).0, |s.job.commands|, |s.job.commands| + |waits.value|;
            && at < |t.job.commands| && t.job.commands[at] == cmd.cmd
            && (Translate(t.idMap, id) == at <==> id in s.idMap ==> s.idMap[id] == at)
  {
    var wi := WaitItems(waits);
    assert waits.None? ==> PushAll(s.job, wi).result == InvalidSize;
    var w := PushAll(s.job, wi);
    WaitsPushed(s.job, waits.value);
    var rest := [cmd] + EventItems(signal);
    var first := PushCommand(w.job, cmd.cmd).value;
    PushAllGrows(first, rest[1..]);
    assert first.commands[|w.job.commands|] == cmd.cmd;
  }

  lemma WaitsPushed(job: Job, waits: seq<EventArg>)
    requires !job.closed && PushAll(job, WaitItems(Some(waits))).result == Success
    ensures |PushAll(job, WaitItems(Some(waits))).job.commands| == |job.commands| + |waits|
  {
    hide PushAll;
    PushWaits(job, WaitItems(Some(waits)));
  }

  lemma PushOne(job: Job, cmd: Command)
    requires Open(job) && cmd.commitSize > 0
    ensures PushAll(job, [Item(cmd)]) == Appended(job.(commands := job.commands + [cmd]), Success)
  {
    assert [Item(cmd)][1..] == [];
  }

  lemma {:induction false} PushWaits(job: Job, items: seq<Item>)
    requires PushAll(job, items).result == Success
    requires forall i :: 0 <= i < |items| && items[i].Item? ==> items[i].cmd.commitSize > 0
    ensures |PushAll(job, items).job.commands| == |job.commands| + |items|
    decreases |items|
  {
    if items != [] {
      PushWaits(PushCommand(job, items[0].cmd).value, items[1..]);
    }
  }

  const EMPTY_MUTABLE := ListState(NEW_JOB, map[], true)

  /**
   In every run of a mutable list without reset: the id taken before a successful graph
   append still finds that graph command after any further calls.
   */
  lemma IdFindsItsCommand(before: seq<ListEvent>, waits: Option<seq<EventArg>>, cmd: Item, signal: Option<EventArg>,
                          later: seq<ListEvent>)
    requires forall i :: 0 <= i < |before| ==> !before[i].ResetEvent?
    requires forall i :: 0 <= i < |later| ==> !later[i].ResetEvent?
    requires GraphAppended(RunList(EMPTY_MUTABLE, before), waits, cmd, signal)
    ensures var s := RunList(EMPTY_MUTABLE, before);
            var t := RunList(GraphAppend(s, waits, cmd, signal).0, later);
            var at := Translate(t.idMap, |s.job.commands|);
            at < |t.job.commands| && t.job.commands[at] == cmd.cmd
  {
    hide RunList, PushAll, Items;
    RunStable(EMPTY_MUTABLE, before);
    var s := RunList(EMPTY_MUTABLE, before);
    var e := GraphEvent(waits, cmd, signal);
    StepStable(s, e);
    TranslationExact(s, waits, cmd, signal);
    RunStable(Apply(s, e).0, later);
  }

  /** Translation is strictly increasing over ids taken before successful graph appends. */
  lemma TranslationIncreases(before: seq<ListEvent>, first: ListEvent, middle: seq<ListEvent>, second: ListEvent,
                             later: seq<ListEvent>)
    requires first.GraphEvent? && second.GraphEvent?
    requires forall i :: 0 <= i < |before| ==> !before[i].ResetEvent?
    requires forall i :: 0 <= i < |middle| ==> !middle[i].ResetEvent?
    requires forall i :: 0 <= i < |later| ==> !later[i].ResetEvent?
    requires var s := RunList(EMPTY_MUTABLE, before);
             GraphAppended(s, first.waits, first.cmd, first.signal)
    requires var u := RunList(Apply(RunList(EMPTY_MUTABLE, before), first).0, middle);
             GraphAppended(u, second.waits, second.cmd, second.signal)
    ensures var s := RunList(EMPTY_MUTABLE, before);
            var u := RunList(Apply(s, first).0, middle);
            var t := RunList(Apply(u, second).0, later);
            && |s.job.commands| < |u.job.commands|
            && Translate(t.idMap, |s.job.commands|) < Translate(t.idMap, |u.job.commands|)
  {
    hide RunList, Translate, Apply, GraphAppended, MapBehind;
    RunStable(EMPTY_MUTABLE, before);
    var s := RunList(EMPTY_MUTABLE, before);
    GraphIdStep(s, first);
    StepStable(s, first);
    RunStable(Apply(s, first).0, middle);
    var u := RunList(Apply(s, first).0, middle);
    GraphIdStep(u, second);
    StepStable(u, second);
    RunStable(Apply(u, second).0, later);
  }

  lemma GraphIdStep(s: ListState, e: ListEvent)
    requires s.mutable && MapBehind(s) && e.GraphEvent? && GraphAppended(s, e.waits, e.cmd, e.signal)
    ensures var t := Apply(s, e).0;
            |s.job.commands| <= Translate(t.idMap, |s.job.commands|) < |t.job.commands|
  {
    TranslationExact(s, e.waits, e.cmd, e.signal);
  }

  /** After a reset the stale map entry sends a new id to the wrong place. */
  lemma ResetLeavesStaleIds(graph: Command, event: EventId)
    requires graph.commitSize > 0
    ensures var g := GraphEvent(Some([Event(event, true)]), Item(graph), None);
            var again := GraphEvent(Some([]), Item(graph), None);
            var t := RunList(EMPTY_MUTABLE, [g, ResetEvent, again]);
            t.job.commands == [graph] && Translate(t.idMap, 0) == 1
  {
    hide PushAll;
    var g := GraphEvent(Some([Event(event, true)]), Item(graph), None);
    var again := GraphEvent(Some([]), Item(graph), None);
    var wait := Command(EventWait(event), FENCE_COMMAND_SIZE);
    assert WaitItems(g.waits) == [Item(wait)] && WaitItems(again.waits) == [];
    assert [Item(graph)] + [] == [Item(graph)];
    PushOne(NEW_JOB, wait);
    PushOne(Job([wait], false, false), graph);
    PushOne(NEW_JOB, graph);
    PushNothing(NEW_JOB);
    var s1 := ListState(Job([wait, graph], false, false), map[0 := 1], true);
    var s2, s3 := s1.(job := NEW_JOB), s1.(job := Job([graph], false, false));
    assert [] + [wait] == [wait] && [wait] + [graph] == [wait, graph] && [] + [graph] == [graph];
    assert Apply(EMPTY_MUTABLE, g).0 == s1;
    assert Apply(s1, ResetEvent).0 == s2;
    assert Apply(s2, again).0 == s3;
    hide Apply;
    assert [g, ResetEvent, again][1..] == [ResetEvent, again];
    assert [ResetEvent, again][1..] == [again] && [again][1..] == [];
    assert RunList(s3, []) == s3;
    assert RunList(s2, [again]) == s3;
    assert RunList(s1, [ResetEvent, again]) == s3;
  }

  lemma PushNothing(job: Job)
    ensures PushAll(job, []) == Appended(job, Success)
  {
  }
}
