/**
 What appends leave in a job and return, in terms of their arguments
 (umd/level_zero_driver/source/cmdlist.hpp, cmdlist.cpp, umd/vpu_driver/source/command/job.cpp).
 */
module ListOutcomes {
  import opened Jobs
  import opened CommandLists

  // ----------------------------------------------------------------- what an append pushes

  /** Pushing one part after the other is pushing both. */
  lemma {:induction false} PushInTwo(job: Job, a: seq<Item>, b: seq<Item>)
    ensures var first := PushAll(job, a);
            PushAll(job, a + b) == if first.result != Success then first else PushAll(first.job, b)
    decreases |a|
  {
    if a == [] {
      assert a + b == b;
    } else if a[0].Item? && PushCommand(job, a[0].cmd).Some? {
      assert (a + b)[1..] == a[1..] + b;
      PushInTwo(PushCommand(job, a[0].cmd).value, a[1..], b);
    }
  }

  /**
   A graph append leaves the job and the result of any other append with the same waits, command
   and signal, and beside that only notes an id; lists that are not mutable note none.
   */
  lemma GraphIsAppend(s: ListState, waits: Option<seq<EventArg>>, cmd: Item, signal: Option<EventArg>)
    ensures var g, a := GraphAppend(s, waits, cmd, signal), RegularAppend(s, Append(waits, [cmd], signal));
            && g.1 == a.1 && g.0.job == a.0.job && g.0.mutable == s.mutable
            && (forall id :: id in s.idMap ==> id in g.0.idMap && g.0.idMap[id] == s.idMap[id])
            && (!s.mutable ==> g.0.idMap == s.idMap)
  {
    hide PushAll;
    var w, rest := WaitItems(waits), [cmd] + EventItems(signal);
    PushInTwo(s.job, w, rest);
    assert Items(Append(waits, [cmd], signal)) == w + rest;
  }

  /** The first broken item decides: what is before it stays, and its error is returned. */
  lemma {:induction false} FirstBrokenDecides(job: Job, items: seq<Item>, p: nat)
    requires Open(job) && p < |items| && items[p].Broken? && forall k :: 0 <= k < p ==> items[k].Item?
    ensures PushAll(job, items) == Appended(job.(commands := job.commands + Effective(items[..p])), items[p].error)
    decreases p
  {
    if p > 0 {
      FirstBrokenDecides(PushCommand(job, items[0].cmd).value, items[1..], p - 1);
      assert items[..p][0] == items[0] && items[..p][1..] == items[1..][..p - 1];
    }
  }

  /** The error an event handle causes, if any. */
  function EventError(e: EventArg): (r: ZeResult)
  {
    if e.NullEvent? then InvalidNullHandle else if !e.mapped then Uninitialized else Success
  }

  predicate GoodEvents(waits: seq<EventArg>, n: nat)
    requires n <= |waits|
  {
    forall i :: 0 <= i < n ==> EventError(waits[i]) == Success
  }

  /** The commands waiting for events. */
  function WaitCommands(waits: seq<EventArg>): (cs: seq<Command>)
    requires GoodEvents(waits, |waits|)
  {
    seq(|waits|, i requires 0 <= i < |waits| => Command(EventWait(waits[i].id), FENCE_COMMAND_SIZE))
  }

  lemma {:induction false} EffectiveMap(items: seq<Item>, cs: seq<Command>)
    requires |items| == |cs| && forall i :: 0 <= i < |items| ==> items[i] == Item(cs[i]) && cs[i].commitSize > 0
    ensures Effective(items) == cs
    decreases |items|
  {
    if items != [] {
      EffectiveMap(items[1..], cs[1..]);
      assert cs == [cs[0]] + cs[1..];
    }
  }

  lemma WaitsEffective(waits: seq<EventArg>, n: nat)
    requires n <= |waits| && GoodEvents(waits, n)
    ensures Effective(WaitItems(Some(waits))[..n]) == WaitCommands(waits[..n])
  {
    hide Effective;
    EffectiveMap(WaitItems(Some(waits))[..n], WaitCommands(waits[..n]));
  }

  /**
   An append of one command to an open list: it succeeds exactly when the waits are given and
   all events and the command are good.  The job then has the waits, the command unless it is
   empty, and the signal if one was asked for, in this order after what was there.
   */
  lemma AppendExactly(s: ListState, waits: Option<seq<EventArg>>, cmd: Item, signal: Option<EventArg>)
    requires Open(s.job)
    ensures var (t, r) := RegularAppend(s, Append(waits, [cmd], signal));
            && (r == Success <==>
                  && waits.Some? && GoodEvents(waits.value, |waits.value|) && cmd.Item?
                  && (signal.Some? ==> EventError(signal.value) == Success))
            && (r == Success ==>
                  t.job == s.job.(commands := s.job.commands + WaitCommands(waits.value)
                    + (if cmd.cmd.commitSize > 0 then [cmd.cmd] else [])
                    + (if signal.None? then [] else [Command(EventSignal(signal.value.id), FENCE_COMMAND_SIZE)])))
  {
    hide PushAll, Effective, Intact;
    var w, e := WaitItems(waits), EventItems(signal);
    PushAllSpec(s.job, w + [cmd] + e);
    IntactConcat(w + [cmd], e);
    IntactConcat(w, [cmd]);
    EffectiveConcat(w + [cmd], e);
    EffectiveConcat(w, [cmd]);
    OneEffective(cmd);
    WaitsIntact(waits);
    SignalIntact(signal);
    if waits.Some? && GoodEvents(waits.value, |waits.value|) {
      WaitsEffective(waits.value, |waits.value|);
      assert w[..|waits.value|] == w && waits.value[..|waits.value|] == waits.value;
    }
    if cmd.Item? && cmd.cmd.commitSize == 0 { EmptyEffective(cmd); }
  }

  lemma EmptyEffective(item: Item)
    requires item.Item? && item.cmd.commitSize == 0
    ensures Effective([item]) == []
  {
    assert [item][1..] == [];
  }

  lemma WaitsIntact(waits: Option<seq<EventArg>>)
    ensures Intact(WaitItems(waits)) <==> waits.Some? && GoodEvents(waits.value, |waits.value|)
  {
    var items := WaitItems(waits);
    if waits.None? {
      assert items[0].Broken?;
    } else {
      assert forall i :: 0 <= i < |items| ==> (items[i].Item? <==> EventError(waits.value[i]) == Success);
    }
  }

  lemma SignalIntact(signal: Option<EventArg>)
    ensures Intact(EventItems(signal)) <==> signal.Some? ==> EventError(signal.value) == Success
    ensures signal.None? ==> Effective(EventItems(signal)) == []
    ensures signal.Some? && EventError(signal.value) == Success ==>
              Effective(EventItems(signal)) == [Command(EventSignal(signal.value.id), FENCE_COMMAND_SIZE)]
  {
    if signal.Some? {
      var item := SignalItem(signal.value);
      OneEffective(item);
      assert EventItems(signal) == [item];
    } else {
      IntactNone();
    }
  }

  /** The append meets its first bad wait at position p. */
  predicate BadWait(waits: Option<seq<EventArg>>, p: nat)
  {
    && waits.Some? && p < |waits.value|
    && GoodEvents(waits.value, p) && EventError(waits.value[p]) != Success
  }

  predicate WaitsGood(waits: Option<seq<EventArg>>)
  {
    waits.Some? && GoodEvents(waits.value, |waits.value|)
  }

  /** Which error an append to an open list returns, and what it has pushed by then. */
  lemma AppendErrors(s: ListState, waits: Option<seq<EventArg>>, cmd: Item, signal: Option<EventArg>)
    requires Open(s.job)
    ensures var (t, r) := RegularAppend(s, Append(waits, [cmd], signal));
            && (waits.None? ==> r == InvalidSize && t == s)
            && (forall p: nat :: BadWait(waits, p) ==>
                  r == EventError(waits.value[p]) && t.job == AfterWaits(s.job, waits, p))
            && (WaitsGood(waits) && cmd.Broken? ==> r == cmd.error && t.job == AfterWaits(s.job, waits, |waits.value|))
    ensures var r := RegularAppend(s, Append(waits, [cmd], signal)).1;
            WaitsGood(waits) && cmd.Item? && signal.Some? ==>
              EventError(signal.value) != Success ==> r == EventError(signal.value)
  {
    hide PushAll, Effective, Intact;
    var items := Items(Append(waits, [cmd], signal));
    if waits.None? {
      FirstBrokenDecides(s.job, items, 0);
      NoneEffective();
      assert items[..0] == [] && s.job.commands + [] == s.job.commands;
    } else {
      var n := |waits.value|;
      forall p: nat | BadWait(waits, p)
        ensures PushAll(s.job, items) == Appended(AfterWaits(s.job, waits, p), EventError(waits.value[p]))
      {
        FirstBrokenDecides(s.job, items, p);
        WaitsEffective(waits.value, p);
        assert items[..p] == WaitItems(waits)[..p];
      }
      if GoodEvents(waits.value, n) {
        assert items[n] == cmd;
        if cmd.Broken? {
          FirstBrokenDecides(s.job, items, n);
          WaitsEffective(waits.value, n);
          assert items[..n] == WaitItems(waits)[..n];
        } else if signal.Some? && EventError(signal.value) != Success {
          FirstBrokenDecides(s.job, items, n + 1);
        }
      }
    }
  }

  /** The job after the first p waits were pushed. */
  function AfterWaits(job: Job, waits: Option<seq<EventArg>>, p: nat): (r: Job)
    requires waits.Some? && p <= |waits.value| && GoodEvents(waits.value, p)
  {
    job.(commands := job.commands + WaitCommands(waits.value[..p]))
  }

  lemma SuccessMeansOpen(s: ListState, waits: Option<seq<EventArg>>, cmd: Item, signal: Option<EventArg>)
    requires RegularAppend(s, Append(waits, [cmd], signal)).1 == Success
    ensures Open(s.job)
  {
    assert Items(Append(waits, [cmd], signal)) != [];
  }

  lemma NoneEffective()
    ensures Effective([]) == []
  {
  }

  /** On a closed list nothing can be appended, whatever the arguments. */
  lemma ClosedRefuses(s: ListState, waits: Option<seq<EventArg>>, cmd: Item, signal: Option<EventArg>)
    requires s.job.closed
    ensures RegularAppend(s, Append(waits, [cmd], signal)) == (s, NotAvailable)
    ensures GraphAppend(s, waits, cmd, signal) == (s, NotAvailable)
  {
  }

  // -------------------------------------------------------------------------------- closing

  /**
   What a close does, in terms of what can be done afterwards: after a success nothing can be
   appended; after a failure at the first buffer everything goes on as before; after a later
   failure nothing can be appended or closed any more until the list is reset.
   */
  lemma CloseMeans(s: ListState, failAt: nat, waits: Option<seq<EventArg>>, cmd: Command, again: nat)
    requires Open(s.job)
    ensures var (t, r) := Apply(s, CloseEvent(failAt));
            && (r == Success <==> failAt >= BufferCount(s.job.commands))
            && t.job.commands == s.job.commands
            && (r == Success ==> RegularAppend(t, Append(waits, [Item(cmd)], None)).1 == NotAvailable)
            && (r != Success && failAt == 0 ==> t == s && r == Unknown)
            && (r != Success && failAt > 0 ==>
                  && r == Unknown && Apply(t, CloseEvent(again)).1 == Unknown
                  && RegularAppend(t, Append(Some([]), [Item(cmd)], None)).1 == Unknown)
  {
    assert WaitItems(Some([])) == [] && EventItems(None) == [];
    var items := Items(Append(Some([]), [Item(cmd)], None));
    assert items == [Item(cmd)];
  }
}
