/**
 Ordering by events.  A closed job is cut into command buffers at its signal commands and
 the buffers are chained by internal fences (umd/vpu_driver/source/command/job.cpp,
 command_buffer.cpp).  The device runs all buffers concurrently under the wait and signal
 rules of firmware/include/api/vpu_jsm_job_cmd_api.h; commands of one buffer may overlap.
 */
module EventOrder {
  import opened Jobs
  import opened CommandLists
  import opened ListOutcomes

  // event values, from the driver's event commands
  const STATE_DEVICE_RESET: nat := 1
  const STATE_WAIT: nat := 3
  const STATE_DEVICE_SIGNAL: nat := 4

  type Buffer = seq<Kind>

  // ------------------------------------------------------------------------- the device

  datatype Machine = Machine(started: seq<nat>, finished: seq<set<nat>>, mem: map<EventId, nat>)

  datatype Action = Start(b: nat, i: nat) | Finish(b: nat, i: nat) | HostWrite(e: EventId, v: nat)

  function Read(mem: map<EventId, nat>, e: EventId): (v: nat)
  {
    if e in mem then mem[e] else 0
  }

  ghost predicate Shaped(bufs: seq<Buffer>, m: Machine)
  {
    |m.started| == |bufs| == |m.finished|
  }

  /** All commands before position i of the buffer have completed. */
  ghost predicate DoneBefore(m: Machine, b: nat, i: nat)
    requires b < |m.finished|
  {
    forall q: nat :: q < i ==> q in m.finished[b]
  }

  predicate Instant(kind: Kind)
  {
    kind.EventWait? || kind.EventSignal? || kind.EventReset? || kind.Barrier?
  }

  /** When the firmware may begin the command: waits, signals and barriers have conditions. */
  ghost predicate Ready(m: Machine, b: nat, i: nat, kind: Kind)
    requires b < |m.finished|
  {
    match kind
    case EventWait(e) => Read(m.mem, e) >= STATE_WAIT
    case EventSignal(_) => DoneBefore(m, b, i)
    case EventReset(_) => DoneBefore(m, b, i)
    case Barrier => DoneBefore(m, b, i)
    case _ => true
  }

  function Written(mem: map<EventId, nat>, kind: Kind): (mem': map<EventId, nat>)
  {
    match kind
    case EventSignal(e) => mem[e := STATE_DEVICE_SIGNAL]
    case EventReset(e) => mem[e := STATE_DEVICE_RESET]
    case _ => mem
  }

  ghost predicate Step(bufs: seq<Buffer>, m: Machine, a: Action, m': Machine)
  {
    && Shaped(bufs, m)
    && match a
       case Start(b, i) =>
         && b < |bufs| && i == m.started[b] && i < |bufs[b]| && Ready(m, b, i, bufs[b][i])
         && m' == Machine(m.started[b := i + 1],
                          if Instant(bufs[b][i]) then m.finished[b := m.finished[b] + {i}] else m.finished,
                          Written(m.mem, bufs[b][i]))
       case Finish(b, i) =>
         b < |bufs| && i < m.started[b] && m' == m.(finished := m.finished[b := m.finished[b] + {i}])
       case HostWrite(e, v) =>
         m' == m.(mem := m.mem[e := v])
  }

  function Begin(bufs: seq<Buffer>, mem: map<EventId, nat>): (m: Machine)
  {
    Machine(seq(|bufs|, _ => 0), seq(|bufs|, _ => {}), mem)
  }

  ghost predicate IsRun(bufs: seq<Buffer>, mem: map<EventId, nat>, ms: seq<Machine>, acts: seq<Action>)
  {
    && |ms| == |acts| + 1 && ms[0] == Begin(bufs, mem)
    && forall n :: 0 <= n < |acts| ==> Step(bufs, ms[n], acts[n], ms[n + 1])
  }

  // ------------------------------------------------------------------ history of a run

  /** Started commands were started by an earlier step, whose condition held. */
  lemma {:induction false} StartedEarlier(bufs: seq<Buffer>, mem: map<EventId, nat>, ms: seq<Machine>,
                                          acts: seq<Action>, n: nat, b: nat, i: nat) returns (k: nat)
    requires IsRun(bufs, mem, ms, acts) && n <= |acts| && b < |bufs|
    requires Shaped(bufs, ms[n]) && i < ms[n].started[b]
    ensures k < n && acts[k] == Start(b, i) && Shaped(bufs, ms[k]) && i < |bufs[b]| && Ready(ms[k], b, i, bufs[b][i])
    decreases n
  {
    hide Ready, Written;
    assert n > 0;
    assert Step(bufs, ms[n - 1], acts[n - 1], ms[n]);
    if i < ms[n - 1].started[b] {
      k := StartedEarlier(bufs, mem, ms, acts, n - 1, b, i);
    } else {
      k := n - 1;
    }
  }

  lemma {:induction false} RunShaped(bufs: seq<Buffer>, mem: map<EventId, nat>, ms: seq<Machine>,
                                     acts: seq<Action>, n: nat)
    requires IsRun(bufs, mem, ms, acts) && n <= |acts|
    ensures Shaped(bufs, ms[n]) && FinishedStarted(bufs, ms[n])
  {
    hide Ready, Written;
    if n > 0 {
      RunShaped(bufs, mem, ms, acts, n - 1);
      assert Step(bufs, ms[n - 1], acts[n - 1], ms[n]);
    }
  }

  /** Only started commands are finished. */
  ghost predicate FinishedStarted(bufs: seq<Buffer>, m: Machine)
  {
    Shaped(bufs, m) && forall b, i :: 0 <= b < |bufs| && i in m.finished[b] ==> i < m.started[b]
  }

  /** A started signal makes waits for its event pass, a started reset makes them block. */
  lemma EventsAsWritten(bufs: seq<Buffer>, m: Machine, b: nat, i: nat, m': Machine)
    requires Step(bufs, m, Start(b, i), m')
    ensures b < |bufs| && i < |bufs[b]|
    ensures bufs[b][i].EventSignal? ==> Read(m'.mem, bufs[b][i].e) >= STATE_WAIT
    ensures bufs[b][i].EventReset? ==> Read(m'.mem, bufs[b][i].e) < STATE_WAIT
    ensures forall e :: bufs[b][i] != EventSignal(e) && bufs[b][i] != EventReset(e) ==>
              Read(m'.mem, e) == Read(m.mem, e)
  {
  }

  // ------------------------------------------------------ the buffers of a closed job

  /** Length of the part scheduleCommands cuts off: up to and including the first signal. */
  function CutLength(cmds: seq<Kind>): (n: nat)
    ensures n <= |cmds| && (cmds != [] ==> n > 0)
  {
    if cmds == [] then 0
    else if cmds[0].EventSignal? then 1
    else 1 + CutLength(cmds[1..])
  }

  function Split(cmds: seq<Kind>): (chunks: seq<seq<Kind>>)
    decreases |cmds|
  {
    if cmds == [] then [] else [cmds[..CutLength(cmds)]] + Split(cmds[CutLength(cmds)..])
  }

  /** Chunk k with its internal synchronisation; fence + k is the fence of chunk k. */
  function Wrap(chunk: seq<Kind>, k: nat, last: bool, fence: EventId): (b: Buffer)
  {
    (if k > 0 then [EventWait(fence + k - 1)] else []) + chunk + (if last then [] else [EventSignal(fence + k)])
  }

  function Compile(chunks: seq<seq<Kind>>, fence: EventId): (bs: seq<Buffer>)
    ensures |bs| == |chunks|
  {
    seq(|chunks|, k requires 0 <= k < |chunks| => Wrap(chunks[k], k, k == |chunks| - 1, fence))
  }

  /** The loop of closeCommands. */
  method CloseCommands(cmds: seq<Kind>, fence: EventId) returns (bs: seq<Buffer>)
    ensures bs == Compile(Split(cmds), fence)
  {
    hide Wrap, Split, CutLength;
    var it := 0;
    bs := [];
    ghost var chunks := Split(cmds);
    assert cmds[0..] == cmds;
    while it < |cmds|
      invariant it <= |cmds| && |bs| <= |chunks| && chunks[|bs|..] == Split(cmds[it..])
      invariant forall k :: 0 <= k < |bs| ==> bs[k] == Wrap(chunks[k], k, k == |chunks| - 1, fence)
      decreases |cmds| - it
    {
      ghost var k := |bs|;
      var next := ScheduleCommands(cmds, it);
      SplitFrom(cmds, it, next);
      SplitEmpty(cmds[next..]);
      assert chunks[k] == chunks[k..][0] == cmds[it..next];
      assert chunks[k + 1..] == chunks[k..][1..] == Split(cmds[next..]);
      assert next == |cmds| <==> k == |chunks| - 1;
      bs := bs + [Wrap(cmds[it..next], |bs|, next == |cmds|, fence)];
      it := next;
    }
    SplitEmpty(cmds[it..]);
  }

  lemma SplitFrom(cmds: seq<Kind>, it: nat, next: nat)
    requires it < next <= |cmds| && next - it == CutLength(cmds[it..])
    ensures Split(cmds[it..]) == [cmds[it..next]] + Split(cmds[next..])
  {
    hide CutLength;
    assert cmds[it..][..next - it] == cmds[it..next] && cmds[it..][next - it..] == cmds[next..];
  }

  lemma SplitEmpty(cmds: seq<Kind>)
    ensures Split(cmds) == [] <==> cmds == []
  {
  }

  method ScheduleCommands(cmds: seq<Kind>, begin: nat) returns (it: nat)
    requires begin < |cmds|
    ensures begin < it <= |cmds| && it - begin == CutLength(cmds[begin..])
  {
    it := begin;
    while it < |cmds|
      invariant begin <= it <= |cmds|
      invariant CutLength(cmds[begin..]) == it - begin + CutLength(cmds[it..])
    {
      assert cmds[it..][0] == cmds[it] && cmds[it..][1..] == cmds[it + 1..];
      if cmds[it].EventSignal? {
        it := it + 1;
        break;
      }
      it := it + 1;
    }
  }

  // --------------------------------------------------------- positions of a job in its buffers

  function Flatten(chunks: seq<seq<Kind>>): (cmds: seq<Kind>)
  {
    if chunks == [] then [] else chunks[0] + Flatten(chunks[1..])
  }

  ghost predicate NonEmpty(chunks: seq<seq<Kind>>)
  {
    forall k :: 0 <= k < |chunks| ==> chunks[k] != []
  }

  /** Cutting loses nothing, and every part has a command. */
  lemma {:induction false} SplitFlattens(cmds: seq<Kind>)
    ensures Flatten(Split(cmds)) == cmds && NonEmpty(Split(cmds))
    decreases |cmds|
  {
    if cmds != [] {
      var n := CutLength(cmds);
      SplitFlattens(cmds[n..]);
      assert Split(cmds)[1..] == Split(cmds[n..]);
      assert cmds == cmds[..n] + cmds[n..];
    }
  }

  /** Signals end parts, and every part but the last ends with one. */
  ghost predicate EndsAtSignals(chunks: seq<seq<Kind>>)
  {
    forall k :: 0 <= k < |chunks| ==>
      && (forall i :: 0 <= i < |chunks[k]| - 1 ==> !chunks[k][i].EventSignal?)
      && (k < |chunks| - 1 ==> chunks[k] != [] && chunks[k][|chunks[k]| - 1].EventSignal?)
  }

  lemma {:induction false} CutsAtSignal(cmds: seq<Kind>)
    requires cmds != []
    ensures forall i :: 0 <= i < CutLength(cmds) - 1 ==> !cmds[i].EventSignal?
    ensures CutLength(cmds) < |cmds| ==> cmds[CutLength(cmds) - 1].EventSignal?
    decreases |cmds|
  {
    if !cmds[0].EventSignal? && |cmds| > 1 { CutsAtSignal(cmds[1..]); }
  }

  lemma {:induction false} SplitAtSignals(cmds: seq<Kind>)
    ensures EndsAtSignals(Split(cmds))
    decreases |cmds|
  {
    hide CutLength;
    if cmds != [] {
      var n := CutLength(cmds);
      CutsAtSignal(cmds);
      SplitAtSignals(cmds[n..]);
      SplitEmpty(cmds[n..]);
      assert Split(cmds) == [cmds[..n]] + Split(cmds[n..]);
    }
  }

  // ---------------------------------------------- what the buffers hold beside their fences

  /** The command waits for or signals one of the fences. */
  predicate OnFence(c: Kind, fence: EventId, count: nat)
  {
    (c.EventWait? || c.EventSignal?) && fence <= c.e < fence + count
  }

  function Without(cs: seq<Kind>, fence: EventId, count: nat): (r: seq<Kind>)
  {
    if cs == [] then []
    else (if OnFence(cs[0], fence, count) then [] else [cs[0]]) + Without(cs[1..], fence, count)
  }

  ghost predicate KeepsOffFences(cs: seq<Kind>, fence: EventId, count: nat)
  {
    forall i :: 0 <= i < |cs| ==> !OnFence(cs[i], fence, count)
  }

  lemma {:induction false} WithoutConcat(a: seq<Kind>, b: seq<Kind>, fence: EventId, count: nat)
    ensures Without(a + b, fence, count) == Without(a, fence, count) + Without(b, fence, count)
    decreases |a|
  {
    if a == [] {
      assert a + b == b;
    } else {
      assert (a + b)[1..] == a[1..] + b;
      WithoutConcat(a[1..], b, fence, count);
    }
  }

  lemma {:induction false} WithoutNone(cs: seq<Kind>, fence: EventId, count: nat)
    requires KeepsOffFences(cs, fence, count)
    ensures Without(cs, fence, count) == cs
    decreases |cs|
  {
    if cs != [] { WithoutNone(cs[1..], fence, count); }
  }

  lemma WrapWithout(chunk: seq<Kind>, k: nat, last: bool, fence: EventId, count: nat)
    requires k < count && KeepsOffFences(chunk, fence, count)
    ensures Without(Wrap(chunk, k, last, fence), fence, count) == chunk
  {
    hide Without, KeepsOffFences, OnFence;
    var front := if k > 0 then [EventWait(fence + k - 1)] else [];
    var back := if last then [] else [EventSignal(fence + k)];
    WithoutConcat(front + chunk, back, fence, count);
    WithoutConcat(front, chunk, fence, count);
    WithoutNone(chunk, fence, count);
    if k > 0 { WithoutFence(EventWait(fence + k - 1), fence, count); }
    if !last { WithoutFence(EventSignal(fence + k), fence, count); }
    NothingWithout(fence, count);
    assert Wrap(chunk, k, last, fence) == front + chunk + back;
    assert [] + chunk + [] == chunk;
  }

  lemma NothingWithout(fence: EventId, count: nat)
    ensures Without([], fence, count) == []
  {
  }

  lemma WithoutFence(c: Kind, fence: EventId, count: nat)
    requires (c.EventWait? || c.EventSignal?) && fence <= c.e < fence + count
    ensures Without([c], fence, count) == []
  {
    assert [c][1..] == [];
  }

  lemma {:induction false} PartsWithout(chunks: seq<seq<Kind>>, bs: seq<Buffer>, fence: EventId, count: nat)
    requires |chunks| == |bs| && KeepsOffFences(Flatten(chunks), fence, count)
    requires forall k :: 0 <= k < |bs| ==>
               (KeepsOffFences(chunks[k], fence, count) ==> Without(bs[k], fence, count) == chunks[k])
    ensures Without(Flatten(bs), fence, count) == Flatten(chunks)
    decreases |bs|
  {
    hide Without;
    if bs == [] {
      WithoutNone([], fence, count);
    } else {
      var rest := Flatten(chunks[1..]);
      forall i | 0 <= i < |chunks[0]| ensures !OnFence(chunks[0][i], fence, count) {
        assert Flatten(chunks)[i] == chunks[0][i];
      }
      forall i | 0 <= i < |rest| ensures !OnFence(rest[i], fence, count) {
        assert Flatten(chunks)[|chunks[0]| + i] == rest[i];
      }
      PartsWithout(chunks[1..], bs[1..], fence, count);
      WithoutConcat(bs[0], Flatten(bs[1..]), fence, count);
    }
  }

  /** Beside the waits and signals on internal fences, the buffers hold the job's commands in order. */
  lemma BuffersHoldTheJob(cmds: seq<Kind>, fence: EventId)
    requires KeepsOffFences(cmds, fence, |Split(cmds)|)
    ensures Without(Flatten(Compile(Split(cmds), fence)), fence, |Split(cmds)|) == cmds
  {
    hide Without, Wrap, Split;
    var chunks := Split(cmds);
    var bs, n := Compile(chunks, fence), |chunks|;
    SplitFlattens(cmds);
    forall k | 0 <= k < n && KeepsOffFences(chunks[k], fence, n) ensures Without(bs[k], fence, n) == chunks[k] {
      WrapWithout(chunks[k], k, k == n - 1, fence, n);
    }
    PartsWithout(chunks, bs, fence, n);
  }

  /** The buffers counted while closing are the parts of the job. */
  lemma {:induction false} CountsParts(cs: seq<Command>)
    ensures |Split(Kinds(cs))| == BufferCount(cs)
    decreases |cs|
  {
    if cs != [] {
      var ks := Kinds(cs);
      CountsParts(cs[1..]);
      assert ks[1..] == Kinds(cs[1..]);
      if ks[0].EventSignal? {
        assert ks[CutLength(ks)..] == ks[1..];
      } else if |cs| > 1 {
        assert ks[CutLength(ks)..] == ks[1..][CutLength(ks[1..])..];
      }
    }
  }

  /** Where the command at position p of the job went: chunk and offset. */
  function Locate(chunks: seq<seq<Kind>>, p: nat): (at: (nat, nat))
    requires p < |Flatten(chunks)|
    ensures at.0 < |chunks| && at.1 < |chunks[at.0]| && chunks[at.0][at.1] == Flatten(chunks)[p]
  {
    if p < |chunks[0]| then (0, p)
    else
      var rest := Locate(chunks[1..], p - |chunks[0]|);
      (rest.0 + 1, rest.1)
  }

  lemma {:induction false} LocateMono(chunks: seq<seq<Kind>>, p: nat, q: nat)
    requires p < q < |Flatten(chunks)|
    ensures var a, b := Locate(chunks, p), Locate(chunks, q);
            a.0 < b.0 || (a.0 == b.0 && a.1 < b.1)
    decreases |chunks|
  {
    if p >= |chunks[0]| {
      LocateMono(chunks[1..], p - |chunks[0]|, q - |chunks[0]|);
    }
  }

  function Lead(k: nat): (n: nat)
  {
    if k > 0 then 1 else 0
  }

  /** A closed job among the buffers of the device; its internal fences are its own. */
  datatype Placed = Placed(cmds: seq<Kind>, base: nat, fence: EventId)

  function BufferOf(j: Placed, p: nat): (b: nat)
    requires p < |j.cmds|
  {
    SplitFlattens(j.cmds);
    j.base + Locate(Split(j.cmds), p).0
  }

  function SlotOf(j: Placed, p: nat): (i: nat)
    requires p < |j.cmds|
  {
    SplitFlattens(j.cmds);
    var at := Locate(Split(j.cmds), p);
    Lead(at.0) + at.1
  }

  predicate IsFence(j: Placed, e: EventId)
  {
    j.fence <= e < j.fence + |Split(j.cmds)|
  }

  /** The job's buffers are on the device and nothing else writes its internal fences. */
  ghost predicate Holds(bufs: seq<Buffer>, j: Placed)
  {
    var bs := Compile(Split(j.cmds), j.fence);
    && j.base + |bs| <= |bufs|
    && (forall k :: 0 <= k < |bs| ==> bufs[j.base + k] == bs[k])
    && (forall b, i :: 0 <= b < |bufs| && 0 <= i < |bufs[b]| ==> WritesOnlyOwnFence(bufs, j, b, i))
  }

  ghost predicate WritesOnlyOwnFence(bufs: seq<Buffer>, j: Placed, b: nat, i: nat)
    requires b < |bufs| && i < |bufs[b]|
  {
    var c := bufs[b][i];
    (c.EventSignal? || c.EventReset?) && IsFence(j, c.e) ==>
      c.EventSignal? && b == j.base + (c.e - j.fence) && i == |bufs[b]| - 1
  }

  ghost predicate HostKeepsOff(j: Placed, acts: seq<Action>)
  {
    forall n :: 0 <= n < |acts| && acts[n].HostWrite? ==> !IsFence(j, acts[n].e)
  }

  /** Fences a later buffer of the job waits for. */
  predicate Inner(j: Placed, e: EventId)
  {
    j.fence <= e < j.fence + |Split(j.cmds)| - 1
  }

  function Owner(j: Placed, e: EventId): (b: nat)
    requires Inner(j, e)
  {
    j.base + (e - j.fence)
  }

  /** No internal fence is signalled yet, as in newly created buffers. */
  ghost predicate Fresh(j: Placed, mem: map<EventId, nat>)
  {
    forall e :: Inner(j, e) ==> Read(mem, e) < STATE_WAIT
  }

  ghost predicate AllDone(bufs: seq<Buffer>, m: Machine, b: nat)
    requires b < |bufs| && b < |m.finished|
  {
    DoneBefore(m, b, |bufs[b]|)
  }

  ghost predicate Fits(bufs: seq<Buffer>, j: Placed, m: Machine)
  {
    Shaped(bufs, m) && j.base + |Split(j.cmds)| <= |bufs|
  }

  /** A later buffer of the job has started only if the one before it is through. */
  ghost predicate Chained(bufs: seq<Buffer>, j: Placed, m: Machine)
  {
    && Fits(bufs, j, m)
    && forall e :: Inner(j, e) && m.started[Owner(j, e) + 1] > 0 ==> AllDone(bufs, m, Owner(j, e))
  }

  ghost predicate FencesTell(bufs: seq<Buffer>, j: Placed, m: Machine)
  {
    && Fits(bufs, j, m)
    && forall e :: Inner(j, e) && Read(m.mem, e) >= STATE_WAIT ==> AllDone(bufs, m, Owner(j, e))
  }

  /** The first command of a later buffer waits for the fence of the one before. */
  lemma HeadWaits(bufs: seq<Buffer>, j: Placed, e: EventId)
    requires Holds(bufs, j) && Inner(j, e)
    ensures bufs[Owner(j, e) + 1] != [] && bufs[Owner(j, e) + 1][0] == EventWait(e)
  {
    hide WritesOnlyOwnFence;
    var k := e - j.fence + 1;
    assert bufs[j.base + k] == Compile(Split(j.cmds), j.fence)[k];
  }

  lemma DoneStays(bufs: seq<Buffer>, m: Machine, a: Action, m': Machine, b: nat, i: nat)
    requires Step(bufs, m, a, m') && b < |bufs| && DoneBefore(m, b, i)
    ensures Shaped(bufs, m') && DoneBefore(m', b, i)
  {
    hide Ready, Written;
  }

  lemma MemoryStep(bufs: seq<Buffer>, j: Placed, m: Machine, a: Action, m': Machine, e: EventId)
    requires Holds(bufs, j) && Step(bufs, m, a, m') && (a.HostWrite? ==> !IsFence(j, a.e)) && Inner(j, e)
    requires Read(m'.mem, e) >= STATE_WAIT > Read(m.mem, e)
    ensures Shaped(bufs, m') && Fits(bufs, j, m') && AllDone(bufs, m', Owner(j, e))
  {
    assert a.Start? && bufs[a.b][a.i] == EventSignal(e);
    assert WritesOnlyOwnFence(bufs, j, a.b, a.i);
    assert DoneBefore(m, a.b, a.i);
  }

  lemma ChainStep(bufs: seq<Buffer>, j: Placed, m: Machine, a: Action, m': Machine)
    requires Holds(bufs, j) && Step(bufs, m, a, m') && (a.HostWrite? ==> !IsFence(j, a.e))
    requires Chained(bufs, j, m) && FencesTell(bufs, j, m)
    ensures Chained(bufs, j, m') && FencesTell(bufs, j, m')
  {
    hide Written, Holds, AllDone;
    forall e | Inner(j, e) && m'.started[Owner(j, e) + 1] > 0 ensures AllDone(bufs, m', Owner(j, e)) {
      HeadWaits(bufs, j, e);
      assert AllDone(bufs, m, Owner(j, e));
      AllDoneStays(bufs, m, a, m', Owner(j, e));
    }
    forall e | Inner(j, e) && Read(m'.mem, e) >= STATE_WAIT ensures AllDone(bufs, m', Owner(j, e)) {
      if Read(m.mem, e) >= STATE_WAIT {
        AllDoneStays(bufs, m, a, m', Owner(j, e));
      } else {
        MemoryStep(bufs, j, m, a, m', e);
      }
    }
  }

  lemma AllDoneStays(bufs: seq<Buffer>, m: Machine, a: Action, m': Machine, b: nat)
    requires Step(bufs, m, a, m') && b < |bufs| && AllDone(bufs, m, b)
    ensures Shaped(bufs, m') && AllDone(bufs, m', b)
  {
    hide Step;
    assert Shaped(bufs, m) by { StepShaped(bufs, m, a, m'); }
    DoneStays(bufs, m, a, m', b, |bufs[b]|);
  }

  lemma StepShaped(bufs: seq<Buffer>, m: Machine, a: Action, m': Machine)
    requires Step(bufs, m, a, m')
    ensures Shaped(bufs, m) && Shaped(bufs, m')
  {
    hide Ready, Written;
  }

  /** A run of the device with the job on it; the host keeps off its internal fences. */
  ghost predicate JobRun(bufs: seq<Buffer>, j: Placed, mem: map<EventId, nat>, ms: seq<Machine>, acts: seq<Action>)
  {
    Holds(bufs, j) && IsRun(bufs, mem, ms, acts) && HostKeepsOff(j, acts)
  }

  lemma {:induction false} RunChained(bufs: seq<Buffer>, j: Placed, mem: map<EventId, nat>, ms: seq<Machine>,
                                      acts: seq<Action>, n: nat)
    requires JobRun(bufs, j, mem, ms, acts) && Fresh(j, mem) && n <= |acts|
    ensures Chained(bufs, j, ms[n]) && FencesTell(bufs, j, ms[n])
  {
    hide Step, AllDone;
    if n > 0 {
      RunChained(bufs, j, mem, ms, acts, n - 1);
      ChainStep(bufs, j, ms[n - 1], acts[n - 1], ms[n]);
    }
  }

  /**
   The buffers of the job keep their order in every run exactly when its internal fences
   start out unsignalled; a job submitted again with its old fences may overtake itself.
   */
  lemma ChainExact(bufs: seq<Buffer>, j: Placed, mem: map<EventId, nat>)
    requires Holds(bufs, j)
    ensures Fresh(j, mem) <==>
            forall ms, acts :: JobRun(bufs, j, mem, ms, acts) ==> Chained(bufs, j, ms[|acts|])
  {
    if Fresh(j, mem) {
      forall ms, acts | JobRun(bufs, j, mem, ms, acts) ensures Chained(bufs, j, ms[|acts|]) {
        RunChained(bufs, j, mem, ms, acts, |acts|);
      }
    } else {
      var e :| Inner(j, e) && Read(mem, e) >= STATE_WAIT;
      StaleFenceOvertakes(bufs, j, mem, e);
    }
  }

  lemma StaleFenceOvertakes(bufs: seq<Buffer>, j: Placed, mem: map<EventId, nat>, e: EventId)
    requires Holds(bufs, j) && Inner(j, e) && Read(mem, e) >= STATE_WAIT
    ensures exists ms, acts :: JobRun(bufs, j, mem, ms, acts) && !Chained(bufs, j, ms[|acts|])
  {
    var b := Owner(j, e) + 1;
    HeadWaits(bufs, j, e);
    var m := Begin(bufs, mem);
    var m' := Machine(m.started[b := 1], m.finished[b := m.finished[b] + {0}], mem);
    var ms, acts := [m, m'], [Start(b, 0)];
    assert Step(bufs, m, Start(b, 0), m');
    assert JobRun(bufs, j, mem, ms, acts);
    assert bufs[b - 1] != [] by { BufferNonEmpty(bufs, j, e - j.fence); }
    assert 0 !in m'.finished[b - 1];
    assert m'.started[Owner(j, e) + 1] > 0 && !AllDone(bufs, m', Owner(j, e));
    assert !Chained(bufs, j, ms[|acts|]);
  }

  // ---------------------------------------------------------------- what a run leaves behind

  /** The last command of a buffer before another one signals its own fence. */
  lemma TailSignals(bufs: seq<Buffer>, j: Placed, e: EventId)
    requires Holds(bufs, j) && Inner(j, e)
    ensures var b := bufs[Owner(j, e)]; b != [] && b[|b| - 1] == EventSignal(e)
  {
    hide WritesOnlyOwnFence;
    var k := e - j.fence;
    assert bufs[j.base + k] == Compile(Split(j.cmds), j.fence)[k];
  }

  /** Where a buffer of the job has started everything, its fence is signalled. */
  ghost predicate EndsSignalled(bufs: seq<Buffer>, j: Placed, m: Machine)
  {
    && Fits(bufs, j, m)
    && forall e :: Inner(j, e) && m.started[Owner(j, e)] >= |bufs[Owner(j, e)]| ==> Read(m.mem, e) >= STATE_WAIT
  }

  lemma FenceKept(bufs: seq<Buffer>, j: Placed, m: Machine, a: Action, m': Machine, e: EventId)
    requires Holds(bufs, j) && Step(bufs, m, a, m') && (a.HostWrite? ==> !IsFence(j, a.e)) && Inner(j, e)
    requires Read(m.mem, e) >= STATE_WAIT
    ensures Read(m'.mem, e) >= STATE_WAIT
  {
    if a.Start? {
      assert WritesOnlyOwnFence(bufs, j, a.b, a.i);
    }
  }

  lemma EndsSignalledStep(bufs: seq<Buffer>, j: Placed, m: Machine, a: Action, m': Machine)
    requires Holds(bufs, j) && Step(bufs, m, a, m') && (a.HostWrite? ==> !IsFence(j, a.e)) && EndsSignalled(bufs, j, m)
    ensures EndsSignalled(bufs, j, m')
  {
    hide Holds;
    forall e | Inner(j, e) && m'.started[Owner(j, e)] >= |bufs[Owner(j, e)]| ensures Read(m'.mem, e) >= STATE_WAIT {
      TailSignals(bufs, j, e);
      if m.started[Owner(j, e)] >= |bufs[Owner(j, e)]| {
        FenceKept(bufs, j, m, a, m', e);
      }
    }
  }

  lemma {:induction false} RunEndsSignalled(bufs: seq<Buffer>, j: Placed, mem: map<EventId, nat>, ms: seq<Machine>,
                                            acts: seq<Action>, n: nat)
    requires JobRun(bufs, j, mem, ms, acts) && n <= |acts|
    ensures EndsSignalled(bufs, j, ms[n])
  {
    hide Step, WritesOnlyOwnFence;
    if n == 0 {
      forall e | Inner(j, e) ensures bufs[Owner(j, e)] != [] { TailSignals(bufs, j, e); }
    } else {
      RunEndsSignalled(bufs, j, mem, ms, acts, n - 1);
      EndsSignalledStep(bufs, j, ms[n - 1], acts[n - 1], ms[n]);
    }
  }

  /** Every command of the job has been started. */
  ghost predicate AllStarted(bufs: seq<Buffer>, j: Placed, m: Machine)
  {
    && Fits(bufs, j, m)
    && forall k :: j.base <= k < j.base + |Split(j.cmds)| ==> m.started[k] >= |bufs[k]|
  }

  /**
   After any complete run of a job of two or more buffers its fences are stale, so submitted
   again on the memory it left it has a run in which a later buffer overtakes an earlier one.
   */
  lemma ResubmissionOvertakes(bufs: seq<Buffer>, j: Placed, mem: map<EventId, nat>, ms: seq<Machine>, acts: seq<Action>)
    requires JobRun(bufs, j, mem, ms, acts) && AllStarted(bufs, j, ms[|acts|]) && |Split(j.cmds)| >= 2
    ensures !Fresh(j, ms[|acts|].mem)
    ensures exists ms', acts' :: JobRun(bufs, j, ms[|acts|].mem, ms', acts') && !Chained(bufs, j, ms'[|acts'|])
  {
    hide Step, Chained, WritesOnlyOwnFence;
    RunEndsSignalled(bufs, j, mem, ms, acts, |acts|);
    var e := j.fence;
    assert Inner(j, e) && Owner(j, e) == j.base;
    StaleFenceOvertakes(bufs, j, ms[|acts|].mem, e);
  }

  lemma BufferNonEmpty(bufs: seq<Buffer>, j: Placed, k: nat)
    requires Holds(bufs, j) && k < |Split(j.cmds)|
    ensures bufs[j.base + k] != []
  {
    hide WritesOnlyOwnFence;
    SplitFlattens(j.cmds);
    assert bufs[j.base + k] == Compile(Split(j.cmds), j.fence)[k];
  }

  // ------------------------------------------------------------------- order of the commands

  /** The device begins the command at position p of the job. */
  ghost predicate Starts(j: Placed, a: Action, p: nat)
  {
    p < |j.cmds| && a == Start(BufferOf(j, p), SlotOf(j, p))
  }

  ghost predicate Done(bufs: seq<Buffer>, j: Placed, m: Machine, p: nat)
    requires Holds(bufs, j) && Shaped(bufs, m) && p < |j.cmds|
  {
    BufferOf(j, p) < |bufs| && SlotOf(j, p) in m.finished[BufferOf(j, p)]
  }

  lemma Placement(bufs: seq<Buffer>, j: Placed, p: nat)
    requires Holds(bufs, j) && p < |j.cmds|
    ensures var b, i := BufferOf(j, p), SlotOf(j, p);
            && j.base <= b < j.base + |Split(j.cmds)| <= |bufs| && i < |bufs[b]| && bufs[b][i] == j.cmds[p]
  {
    hide WritesOnlyOwnFence;
    SplitFlattens(j.cmds);
    var k := Locate(Split(j.cmds), p).0;
    assert bufs[j.base + k] == Compile(Split(j.cmds), j.fence)[k];
  }

  lemma PlacementMono(j: Placed, p: nat, q: nat)
    requires p < q < |j.cmds|
    ensures BufferOf(j, p) < BufferOf(j, q) || (BufferOf(j, p) == BufferOf(j, q) && SlotOf(j, p) < SlotOf(j, q))
  {
    SplitFlattens(j.cmds);
    LocateMono(Split(j.cmds), p, q);
  }

  /** Once a buffer of the job has started, all buffers of the job before it are through. */
  lemma {:induction false} EarlierBuffersDone(bufs: seq<Buffer>, j: Placed, m: Machine, k: nat, l: nat)
    requires Holds(bufs, j) && Chained(bufs, j, m) && FinishedStarted(bufs, m)
    requires k < l < |Split(j.cmds)| && m.started[j.base + l] > 0
    ensures AllDone(bufs, m, j.base + k)
    decreases l
  {
    hide Holds;
    var e := j.fence + l - 1;
    assert Inner(j, e) && Owner(j, e) == j.base + l - 1;
    assert AllDone(bufs, m, j.base + (l - 1));
    if k < l - 1 {
      BufferNonEmpty(bufs, j, l - 1);
      assert 0 in m.finished[j.base + (l - 1)];
      EarlierBuffersDone(bufs, j, m, k, l - 1);
    }
  }

  /** Everything the device starts in a buffer comes after the earlier buffers of the job. */
  lemma EarlierStarted(bufs: seq<Buffer>, j: Placed, mem: map<EventId, nat>, ms: seq<Machine>, acts: seq<Action>,
                       n: nat, p: nat, q: nat)
    requires JobRun(bufs, j, mem, ms, acts) && Fresh(j, mem)
    requires n < |acts| && p < q && Starts(j, acts[n], q)
    ensures Shaped(bufs, ms[n]) && BufferOf(j, p) < |bufs| && SlotOf(j, p) < ms[n].started[BufferOf(j, p)]
    ensures BufferOf(j, p) < BufferOf(j, q) ==> Done(bufs, j, ms[n], p)
  {
    hide Holds, Ready, Written, BufferOf, SlotOf, AllDone;
    Placement(bufs, j, p);
    Placement(bufs, j, q);
    PlacementMono(j, p, q);
    RunShaped(bufs, mem, ms, acts, n);
    assert Step(bufs, ms[n], acts[n], ms[n + 1]);
    var b, c := BufferOf(j, p), BufferOf(j, q);
    if b < c {
      RunChained(bufs, j, mem, ms, acts, n);
      RunChained(bufs, j, mem, ms, acts, n + 1);
      RunShaped(bufs, mem, ms, acts, n + 1);
      EarlierDone(bufs, j, ms, acts, n, b, c);
      assert AllDone(bufs, ms[n], b);
      DoneAt(bufs, ms[n], b, SlotOf(j, p));
    }
  }

  lemma DoneAt(bufs: seq<Buffer>, m: Machine, b: nat, i: nat)
    requires b < |bufs| && FinishedStarted(bufs, m) && AllDone(bufs, m, b) && i < |bufs[b]|
    ensures i in m.finished[b] && i < m.started[b]
  {
  }

  lemma EarlierDone(bufs: seq<Buffer>, j: Placed, ms: seq<Machine>, acts: seq<Action>, n: nat, b: nat, c: nat)
    requires Holds(bufs, j) && n < |acts| && |ms| == |acts| + 1 && Step(bufs, ms[n], acts[n], ms[n + 1])
    requires Chained(bufs, j, ms[n]) && Chained(bufs, j, ms[n + 1])
    requires FinishedStarted(bufs, ms[n]) && FinishedStarted(bufs, ms[n + 1])
    requires j.base <= b < c < j.base + |Split(j.cmds)| && acts[n].Start? && acts[n].b == c
    ensures AllDone(bufs, ms[n], b)
  {
    hide Holds, Ready, Written, Chained, FinishedStarted, AllDone;
    StepShaped(bufs, ms[n], acts[n], ms[n + 1]);
    EarlierBuffersDone(bufs, j, ms[n + 1], b - j.base, c - j.base);
    OtherBufferKept(bufs, ms[n], acts[n], ms[n + 1], b);
  }

  lemma OtherBufferKept(bufs: seq<Buffer>, m: Machine, a: Action, m': Machine, b: nat)
    requires Step(bufs, m, a, m') && b < |bufs| && a.Start? && a.b != b && Shaped(bufs, m') && AllDone(bufs, m', b)
    ensures AllDone(bufs, m, b)
  {
    hide Ready, Written;
    assert m.finished[b] == m'.finished[b];
  }

  /**
   A command begins only after every wait before it in the job has seen its event
   signalled, in every interleaving with other jobs and the host.
   */
  lemma WaitsComeFirst(bufs: seq<Buffer>, j: Placed, mem: map<EventId, nat>, ms: seq<Machine>, acts: seq<Action>,
                       n: nat, p: nat, q: nat) returns (k: nat)
    requires JobRun(bufs, j, mem, ms, acts) && Fresh(j, mem)
    requires n < |acts| && p < q && Starts(j, acts[n], q) && j.cmds[p].EventWait?
    ensures k < n && Starts(j, acts[k], p) && Read(ms[k].mem, j.cmds[p].e) >= STATE_WAIT
  {
    hide Holds, BufferOf, SlotOf, Step;
    EarlierStarted(bufs, j, mem, ms, acts, n, p, q);
    Placement(bufs, j, p);
    k := StartedEarlier(bufs, mem, ms, acts, n, BufferOf(j, p), SlotOf(j, p));
  }

  /** A signal, a reset or a barrier of the job begins only after all commands before it completed. */
  lemma SignalsComeLast(bufs: seq<Buffer>, j: Placed, mem: map<EventId, nat>, ms: seq<Machine>, acts: seq<Action>,
                        n: nat, p: nat, q: nat)
    requires JobRun(bufs, j, mem, ms, acts) && Fresh(j, mem)
    requires n < |acts| && p < q && Starts(j, acts[n], q)
    requires j.cmds[q].EventSignal? || j.cmds[q].EventReset? || j.cmds[q].Barrier?
    ensures Shaped(bufs, ms[n]) && Done(bufs, j, ms[n], p)
  {
    hide Holds, BufferOf, SlotOf, Written;
    EarlierStarted(bufs, j, mem, ms, acts, n, p, q);
    Placement(bufs, j, p);
    Placement(bufs, j, q);
    PlacementMono(j, p, q);
    assert Step(bufs, ms[n], acts[n], ms[n + 1]);
  }

  // -------------------------------------------------------------------- appends with events

  /** The call appends this command with these events, as a graph execution or as any other append. */
  predicate Adds(e: ListEvent, waits: seq<EventArg>, cmd: Command, signal: Option<EventArg>)
  {
    || e == AppendEvent(Append(Some(waits), [Item(cmd)], signal))
    || e == GraphEvent(Some(waits), Item(cmd), signal)
  }

  /** From position at the job has the waits, the command and the signal, if there is one, of an append. */
  ghost predicate LaidOut(cmds: seq<Kind>, at: nat, waits: seq<EventArg>, cmd: Command, signal: Option<EventArg>)
  {
    && at + |waits| < |cmds| && cmds[at + |waits|] == cmd.kind
    && (forall i :: 0 <= i < |waits| ==> waits[i].Event? && cmds[at + i] == EventWait(waits[i].id))
    && (signal.Some? ==>
          && signal.value.Event? && at + |waits| + 1 < |cmds|
          && cmds[at + |waits| + 1] == EventSignal(signal.value.id))
  }

  /** A successful append puts waits, command and signal into the job in this order, and nothing else. */
  lemma AppendLayout(s: ListState, e: ListEvent, waits: seq<EventArg>, cmd: Command, signal: Option<EventArg>)
    requires Adds(e, waits, cmd, signal) && cmd.commitSize > 0 && Apply(s, e).1 == Success
    ensures var cs, at := Apply(s, e).0.job.commands, |s.job.commands|;
            && s.job.commands <= cs && |cs| == at + |waits| + 1 + (if signal.Some? then 1 else 0)
            && LaidOut(Kinds(cs), at, waits, cmd, signal)
  {
    hide RegularAppend, GraphAppend, Open, LaidOut, Kinds, WaitCommands, GoodEvents, EventError;
    GraphIsAppend(s, Some(waits), Item(cmd), signal);
    SuccessMeansOpen(s, Some(waits), Item(cmd), signal);
    AppendExactly(s, Some(waits), Item(cmd), signal);
    LayoutOf(s.job.commands, waits, cmd, signal);
  }

  lemma LayoutOf(front: seq<Command>, waits: seq<EventArg>, cmd: Command, signal: Option<EventArg>)
    requires GoodEvents(waits, |waits|) && (signal.Some? ==> EventError(signal.value) == Success)
    ensures signal.Some? ==> signal.value.Event?
    ensures var cs := front + WaitCommands(waits) + [cmd]
                      + (if signal.None? then [] else [Command(EventSignal(signal.value.id), FENCE_COMMAND_SIZE)]);
            && |cs| == |front| + |waits| + 1 + (if signal.Some? then 1 else 0)
            && LaidOut(Kinds(cs), |front|, waits, cmd, signal)
  {
    assert forall i :: 0 <= i < |waits| ==> EventError(waits[i]) == Success;
  }

  /** The commands of an append stay where they are whatever is appended later. */
  lemma LayoutStays(s: ListState, e: ListEvent, waits: seq<EventArg>, cmd: Command, signal: Option<EventArg>,
                    later: seq<ListEvent>)
    requires Adds(e, waits, cmd, signal) && cmd.commitSize > 0 && Apply(s, e).1 == Success
    requires forall i :: 0 <= i < |later| ==> !later[i].ResetEvent?
    ensures LaidOut(Kinds(RunList(Apply(s, e).0, later).job.commands), |s.job.commands|, waits, cmd, signal)
  {
    hide RunList, Apply, LaidOut, Kinds;
    AppendLayout(s, e, waits, cmd, signal);
    RunGrows(Apply(s, e).0, later);
    LaidOutPrefix(Apply(s, e).0.job.commands, RunList(Apply(s, e).0, later).job.commands, |s.job.commands|, waits, cmd,
                  signal);
  }

  lemma LaidOutPrefix(a: seq<Command>, b: seq<Command>, at: nat, waits: seq<EventArg>, cmd: Command,
                      signal: Option<EventArg>)
    requires a <= b && LaidOut(Kinds(a), at, waits, cmd, signal)
    ensures LaidOut(Kinds(b), at, waits, cmd, signal)
  {
    assert forall i :: 0 <= i < |a| ==> Kinds(b)[i] == Kinds(a)[i];
  }

  /** Wait i of an append at position at was carried out before step n and saw its event signalled. */
  ghost predicate WaitSaw(j: Placed, at: nat, waits: seq<EventArg>, i: nat, ms: seq<Machine>, acts: seq<Action>, n: nat)
    requires i < |waits| && waits[i].Event?
  {
    exists k :: 0 <= k < n && k < |acts| && k < |ms|
                && Starts(j, acts[k], at + i) && Read(ms[k].mem, waits[i].id) >= STATE_WAIT
  }

  ghost predicate AllWaitsSaw(j: Placed, at: nat, waits: seq<EventArg>, ms: seq<Machine>, acts: seq<Action>, n: nat)
  {
    forall i :: 0 <= i < |waits| && waits[i].Event? ==> WaitSaw(j, at, waits, i, ms, acts, n)
  }

  lemma LaidOutOrdered(at: nat, waits: seq<EventArg>, cmd: Command, signal: Option<EventArg>, bufs: seq<Buffer>,
                       j: Placed, mem: map<EventId, nat>, ms: seq<Machine>, acts: seq<Action>, n: nat)
    requires LaidOut(j.cmds, at, waits, cmd, signal)
    requires JobRun(bufs, j, mem, ms, acts) && Fresh(j, mem) && n < |acts|
    ensures Starts(j, acts[n], at + |waits|) ==> AllWaitsSaw(j, at, waits, ms, acts, n)
    ensures signal.Some? && Starts(j, acts[n], at + |waits| + 1) ==>
              Shaped(bufs, ms[n]) && Done(bufs, j, ms[n], at + |waits|)
  {
    hide Fresh, Starts, Done, IsRun, Holds, HostKeepsOff;
    RunLength(bufs, j, mem, ms, acts);
    if Starts(j, acts[n], at + |waits|) {
      forall i | 0 <= i < |waits| ensures WaitSaw(j, at, waits, i, ms, acts, n) {
        assert j.cmds[at + i] == EventWait(waits[i].id);
        var k := WaitsComeFirst(bufs, j, mem, ms, acts, n, at + i, at + |waits|);
      }
    }
    if signal.Some? && Starts(j, acts[n], at + |waits| + 1) {
      SignalsComeLast(bufs, j, mem, ms, acts, n, at + |waits|, at + |waits| + 1);
    }
  }

  /**
   An append with events, of a graph execution or of any other command, on a list that is later
   closed and executed.  Whatever else is appended and however the device interleaves it with
   other jobs and host writes, the command begins only after each of its wait commands was
   carried out and saw its event signalled, and its signal is written only after the command
   completed.
   */
  lemma AppendOrdered(s: ListState, e: ListEvent, waits: seq<EventArg>, cmd: Command, signal: Option<EventArg>,
                      later: seq<ListEvent>, bufs: seq<Buffer>, j: Placed, mem: map<EventId, nat>, ms: seq<Machine>,
                      acts: seq<Action>, n: nat)
    requires Adds(e, waits, cmd, signal) && cmd.commitSize > 0 && Apply(s, e).1 == Success
    requires forall i :: 0 <= i < |later| ==> !later[i].ResetEvent?
    requires j.cmds == Kinds(RunList(Apply(s, e).0, later).job.commands)
    requires JobRun(bufs, j, mem, ms, acts) && Fresh(j, mem) && n < |acts|
    ensures LaidOut(j.cmds, |s.job.commands|, waits, cmd, signal) && |ms| == |acts| + 1
    ensures var at := |s.job.commands| + |waits|;
            && (Starts(j, acts[n], at) ==> AllWaitsSaw(j, |s.job.commands|, waits, ms, acts, n))
            && (signal.Some? && Starts(j, acts[n], at + 1) ==> Shaped(bufs, ms[n]) && Done(bufs, j, ms[n], at))
  {
    hide *;
    LayoutStays(s, e, waits, cmd, signal, later);
    RunLength(bufs, j, mem, ms, acts);
    LaidOutSize(j.cmds, |s.job.commands|, waits, cmd, signal);
    LaidOutOrdered(|s.job.commands|, waits, cmd, signal, bufs, j, mem, ms, acts, n);
  }

  lemma LaidOutSize(cmds: seq<Kind>, at: nat, waits: seq<EventArg>, cmd: Command, signal: Option<EventArg>)
    requires LaidOut(cmds, at, waits, cmd, signal)
    ensures at + |waits| < |cmds|
  {
  }

  lemma RunLength(bufs: seq<Buffer>, j: Placed, mem: map<EventId, nat>, ms: seq<Machine>, acts: seq<Action>)
    requires JobRun(bufs, j, mem, ms, acts)
    ensures |ms| == |acts| + 1
  {
  }

  // ---------------------------------------------------------------- a job submitted twice

  /** A job of two signals, alone on the device. */
  ghost predicate TwoSignals(bufs: seq<Buffer>, j: Placed, x: EventId, y: EventId)
  {
    && j.cmds == [EventSignal(x), EventSignal(y)] && j.base == 0
    && bufs == [[EventSignal(x), EventSignal(j.fence)], [EventWait(j.fence), EventSignal(y)]]
    && j.fence + 1 < x < y
  }

  lemma TwoSignalsSplit(cmds: seq<Kind>, x: EventId, y: EventId)
    requires cmds == [EventSignal(x), EventSignal(y)]
    ensures Split(cmds) == [[EventSignal(x)], [EventSignal(y)]]
  {
    assert CutLength(cmds[0..]) == 1 && CutLength(cmds[1..]) == 1;
    SplitFrom(cmds, 1, 2);
    SplitFrom(cmds, 0, 1);
    assert cmds[0..] == cmds && cmds[0..1] == [EventSignal(x)] && cmds[1..2] == [EventSignal(y)];
    SplitEmpty(cmds[2..]);
  }

  lemma TwoSignalsHold(bufs: seq<Buffer>, j: Placed, x: EventId, y: EventId)
    requires TwoSignals(bufs, j, x, y)
    ensures |Split(j.cmds)| == 2 && Holds(bufs, j)
    ensures BufferOf(j, 0) == 0 && SlotOf(j, 0) == 0 && BufferOf(j, 1) == 1 && SlotOf(j, 1) == 1
  {
    hide Split, Flatten;
    TwoSignalsSplit(j.cmds, x, y);
    SplitFlattens(j.cmds);
    var chunks := Split(j.cmds);
    assert Wrap(chunks[0], 0, false, j.fence) == bufs[0] && Wrap(chunks[1], 1, true, j.fence) == bufs[1];
    LocateFirst(chunks, 0);
    LocateLater(chunks, 1);
    LocateFirst(chunks[1..], 0);
  }

  lemma LocateFirst(chunks: seq<seq<Kind>>, p: nat)
    requires p < |Flatten(chunks)| && chunks != [] && p < |chunks[0]|
    ensures Locate(chunks, p) == (0, p)
  {
  }

  lemma LocateLater(chunks: seq<seq<Kind>>, p: nat)
    requires p < |Flatten(chunks)| && chunks != [] && |chunks[0]| <= p
    ensures p - |chunks[0]| < |Flatten(chunks[1..])|
    ensures Locate(chunks, p) == (Locate(chunks[1..], p - |chunks[0]|).0 + 1, Locate(chunks[1..], p - |chunks[0]|).1)
  {
  }

  /** The device starts the next command of a buffer, one that completes at once. */
  lemma StartStep(bufs: seq<Buffer>, m: Machine, b: nat, m': Machine)
    requires Shaped(bufs, m) && b < |bufs| && m.started[b] < |bufs[b]|
    requires Instant(bufs[b][m.started[b]]) && Ready(m, b, m.started[b], bufs[b][m.started[b]])
    requires m' == Machine(m.started[b := m.started[b] + 1], m.finished[b := m.finished[b] + {m.started[b]}],
                           Written(m.mem, bufs[b][m.started[b]]))
    ensures Step(bufs, m, Start(b, m.started[b]), m')
  {
  }

  /** The memory the job leaves: both events and the internal fence signalled. */
  function Ran(mem: map<EventId, nat>, j: Placed, x: EventId, y: EventId): (mem': map<EventId, nat>)
  {
    mem[x := STATE_DEVICE_SIGNAL][j.fence := STATE_DEVICE_SIGNAL][y := STATE_DEVICE_SIGNAL]
  }

  /** Submitted on fresh memory, the job runs to its end. */
  lemma FirstRun(bufs: seq<Buffer>, j: Placed, x: EventId, y: EventId, mem: map<EventId, nat>)
    returns (ms: seq<Machine>, acts: seq<Action>)
    requires TwoSignals(bufs, j, x, y)
    ensures JobRun(bufs, j, mem, ms, acts) && AllStarted(bufs, j, ms[|acts|])
    ensures |Split(j.cmds)| == 2 && ms[|acts|].mem == Ran(mem, j, x, y)
  {
    hide Split, Holds, Ready, Written, Step;
    TwoSignalsHold(bufs, j, x, y);
    var mem1 := mem[x := STATE_DEVICE_SIGNAL];
    var mem2 := mem1[j.fence := STATE_DEVICE_SIGNAL];
    var m0, m1 := Machine([0, 0], [{}, {}], mem), Machine([1, 0], [{0}, {}], mem1);
    var m2, m3 := Machine([2, 0], [{0, 1}, {}], mem2), Machine([2, 1], [{0, 1}, {0}], mem2);
    var m4 := Machine([2, 2], [{0, 1}, {0, 1}], Ran(mem, j, x, y));
    FirstSteps(bufs, j, x, y, m0, m1, m2);
    LastSteps(bufs, j, x, y, m2, m3, m4);
    assert m0 == Begin(bufs, mem);
    ms, acts := [m0, m1, m2, m3, m4], [Start(0, 0), Start(0, 1), Start(1, 0), Start(1, 1)];
  }

  lemma FirstSteps(bufs: seq<Buffer>, j: Placed, x: EventId, y: EventId, m0: Machine, m1: Machine, m2: Machine)
    requires TwoSignals(bufs, j, x, y) && m0.started == [0, 0] && m0.finished == [{}, {}]
    requires m1 == Machine([1, 0], [{0}, {}], m0.mem[x := STATE_DEVICE_SIGNAL])
    requires m2 == Machine([2, 0], [{0, 1}, {}], m1.mem[j.fence := STATE_DEVICE_SIGNAL])
    ensures Step(bufs, m0, Start(0, 0), m1) && Step(bufs, m1, Start(0, 1), m2)
  {
    hide Step;
    assert {} + {0} == {0} && {0} + {1} == {0, 1};
    StartStep(bufs, m0, 0, m1);
    StartStep(bufs, m1, 0, m2);
  }

  /** With its fence signalled, the second buffer runs whatever the first one has done. */
  lemma LastSteps(bufs: seq<Buffer>, j: Placed, x: EventId, y: EventId, m2: Machine, m3: Machine, m4: Machine)
    requires TwoSignals(bufs, j, x, y) && |m2.started| == 2 == |m2.finished|
    requires m2.started[1] == 0 && m2.finished[1] == {} && Read(m2.mem, j.fence) >= STATE_WAIT
    requires m3 == Machine(m2.started[1 := 1], m2.finished[1 := {0}], m2.mem)
    requires m4 == Machine(m2.started[1 := 2], m2.finished[1 := {0, 1}], m2.mem[y := STATE_DEVICE_SIGNAL])
    ensures Step(bufs, m2, Start(1, 0), m3) && Step(bufs, m3, Start(1, 1), m4)
  {
    hide Step;
    assert {} + {0} == {0} && {0} + {1} == {0, 1};
    StartStep(bufs, m2, 1, m3);
    assert m3.started[1 := 2] == m4.started && m3.finished[1 := {0, 1}] == m4.finished;
    StartStep(bufs, m3, 1, m4);
  }

  /**
   Submitted again on the memory its first run left, the job signals its second event while the
   command before that signal has not even started.
   */
  lemma SecondRunSignalsEarly(bufs: seq<Buffer>, j: Placed, x: EventId, y: EventId, mem: map<EventId, nat>)
    returns (ms: seq<Machine>, acts: seq<Action>)
    requires TwoSignals(bufs, j, x, y)
    ensures JobRun(bufs, j, Ran(mem, j, x, y), ms, acts) && |acts| == 2 && Starts(j, acts[1], 1)
    ensures Shaped(bufs, ms[1]) && !Done(bufs, j, ms[1], 0)
  {
    hide Split, Holds, Step, BufferOf, SlotOf;
    TwoSignalsHold(bufs, j, x, y);
    var ran := Ran(mem, j, x, y);
    var m0, m1 := Machine([0, 0], [{}, {}], ran), Machine([0, 1], [{}, {0}], ran);
    var m2 := Machine([0, 2], [{}, {0, 1}], ran[y := STATE_DEVICE_SIGNAL]);
    LastSteps(bufs, j, x, y, m0, m1, m2);
    assert m0 == Begin(bufs, ran);
    ms, acts := [m0, m1, m2], [Start(1, 0), Start(1, 1)];
  }
}
