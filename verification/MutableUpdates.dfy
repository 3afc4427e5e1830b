/**
 Updating the arguments of mutable graph commands from a chain of descriptors given by the
 caller, which may be long, malformed or cyclic (umd/level_zero_driver/source/cmdlist.cpp,
 umd/level_zero_driver/include/nested_structs_handler.hpp).
 */
module MutableUpdates {
  import opened Jobs
  import opened CommandLists

  type Pointer = nat

  const NULL: Pointer := 0
  const INT64_MAX: nat := 0x7FFF_FFFF_FFFF_FFFF
  const INT32_MAX: nat := 0x7FFF_FFFF
  const NESTED_STRUCTS_LIMIT: nat := 20

  datatype Node =
    | Argument(commandId: nat, argIndex: nat, value: Pointer, next: Pointer)
    | Strides(strides: seq<nat>, next: Pointer)
    | Unsupported

  type Heap = map<Pointer, Node>

  /** The address after a node; an unsupported one is not followed. */
  function NextOf(node: Node): (p: Pointer)
  {
    if node.Unsupported? then NULL else node.next
  }

  /** The caller's pointers are null or point at descriptors. */
  ghost predicate Linked(heap: Heap, p: Pointer)
  {
    && (p != NULL ==> p in heap)
    && forall q :: q in heap && NextOf(heap[q]) != NULL ==> NextOf(heap[q]) in heap
  }

  // ------------------------------------------------------------------------ gathering updates

  datatype Update = Update(ptr: Option<Pointer>, strides: Option<seq<nat>>)

  type Updates = map<nat, map<nat, Update>>

  function Lookup(m: Updates, cmd: nat, arg: nat): (u: Option<Update>)
  {
    if cmd in m && arg in m[cmd] then Some(m[cmd][arg]) else None
  }

  function Entry(m: Updates, cmd: nat, arg: nat): (u: Update)
  {
    if cmd in m && arg in m[cmd] then m[cmd][arg] else Update(None, None)
  }

  function Put(m: Updates, cmd: nat, arg: nat, u: Update): (m': Updates)
    ensures Lookup(m', cmd, arg) == Some(u)
    ensures forall c: nat, a: nat :: (c, a) != (cmd, arg) ==> Lookup(m', c, a) == Lookup(m, c, a)
  {
    m[cmd := (if cmd in m then m[cmd] else map[])[arg := u]]
  }

  /** prev is the argument the next strides descriptor belongs to. */
  datatype Gathering = Gathering(updates: Updates, prev: Option<(nat, nat)>)

  datatype Progress = Going(g: Gathering) | Refused | Threw

  /** getCommandUpdates on one descriptor. */
  function Handle(node: Node, idMap: map<nat, nat>, g: Gathering): (r: Progress)
  {
    match node
    case Argument(id, arg, value, _) =>
      var cmd := Translate(idMap, id);
      var updates := Put(g.updates, cmd, arg, Entry(g.updates, cmd, arg).(ptr := Some(value)));
      if cmd > INT64_MAX || arg > INT32_MAX then Threw else Going(Gathering(updates, Some((cmd, arg))))
    case Strides(strides, _) =>
      if g.prev.None? then Refused
      else
        var (cmd, arg) := g.prev.value;
        Going(Gathering(Put(g.updates, cmd, arg, Entry(g.updates, cmd, arg).(strides := Some(strides))), None))
    case Unsupported => Refused
  }

  /** The descriptors met from p on, at most k of them. */
  function Nodes(heap: Heap, p: Pointer, k: nat): (ns: seq<Node>)
    ensures |ns| <= k
    decreases k
  {
    if p == NULL || k == 0 || p !in heap then [] else [heap[p]] + Nodes(heap, NextOf(heap[p]), k - 1)
  }

  /** Where following k descriptors from p leads. */
  function EndOf(heap: Heap, p: Pointer, k: nat): (q: Pointer)
    decreases k
  {
    if p == NULL || k == 0 || p !in heap then p else EndOf(heap, NextOf(heap[p]), k - 1)
  }

  const NOTHING_YET := Gathering(map[], None)

  /** The state after handling the descriptors in order. */
  function After(ns: seq<Node>, idMap: map<nat, nat>): (r: Progress)
    decreases |ns|
  {
    if ns == [] then Going(NOTHING_YET)
    else
      var before := After(ns[..|ns| - 1], idMap);
      if before.Going? then Handle(ns[|ns| - 1], idMap, before.g) else before
  }

  datatype Gathered = Gathered(updates: Updates) | Failed | Thrown

  /** The result of following at most limit descriptors from p. */
  function GatherResult(heap: Heap, p: Pointer, idMap: map<nat, nat>, limit: nat): (r: Gathered)
  {
    match After(Nodes(heap, p, limit), idMap)
    case Going(g) => if EndOf(heap, p, limit) == NULL then Gathered(g.updates) else Failed
    case Refused => Failed
    case Threw => Thrown
  }

  /** handleNestedStructs with its handler; calls counts the descriptors handled. */
  method GatherCommandUpdates(heap: Heap, start: Pointer, idMap: map<nat, nat>) returns (r: Gathered, calls: nat)
    requires Linked(heap, start)
    ensures r == GatherResult(heap, start, idMap, NESTED_STRUCTS_LIMIT)
    ensures calls <= NESTED_STRUCTS_LIMIT == 20
  {
    hide Handle, Nodes, EndOf, After;
    var pNext, g, limit := start, NOTHING_YET, NESTED_STRUCTS_LIMIT;
    calls := 0;
    ghost var seen: seq<Node>, all := [], Nodes(heap, start, limit);
    AfterNone(idMap);
    while pNext != NULL
      invariant calls <= limit == NESTED_STRUCTS_LIMIT && Linked(heap, pNext)
      invariant all == seen + Nodes(heap, pNext, limit - calls)
      invariant EndOf(heap, start, limit) == EndOf(heap, pNext, limit - calls)
      invariant After(seen, idMap) == Going(g)
      decreases limit - calls, pNext != NULL
    {
      FollowOne(heap, pNext, limit - calls);
      if calls >= limit {
        assert all == seen;
        return Failed, calls;
      }
      var node := heap[pNext];
      var result := Handle(node, idMap, g);
      calls := calls + 1;
      ghost var rest := Nodes(heap, NextOf(node), limit - calls);
      AfterSnoc(seen, node, idMap);
      assert all == (seen + [node]) + rest;
      seen := seen + [node];
      if !result.Going? {
        EndsBad(seen, rest, idMap);
        return if result.Refused? then Failed else Thrown, calls;
      }
      g := result.g;
      pNext := NextOf(node);
    }
    FollowNone(heap, limit - calls);
    assert all == seen;
    r := Gathered(g.updates);
  }

  lemma FollowOne(heap: Heap, p: Pointer, k: nat)
    requires p != NULL && p in heap
    ensures k == 0 ==> Nodes(heap, p, k) == [] && EndOf(heap, p, k) == p
    ensures k > 0 ==> && Nodes(heap, p, k) == [heap[p]] + Nodes(heap, NextOf(heap[p]), k - 1)
                      && EndOf(heap, p, k) == EndOf(heap, NextOf(heap[p]), k - 1)
  {
  }

  lemma FollowNone(heap: Heap, k: nat)
    ensures Nodes(heap, NULL, k) == [] && EndOf(heap, NULL, k) == NULL
  {
  }

  lemma AfterNone(idMap: map<nat, nat>)
    ensures After([], idMap) == Going(NOTHING_YET)
  {
  }

  lemma AfterSnoc(ns: seq<Node>, node: Node, idMap: map<nat, nat>)
    ensures var before := After(ns, idMap);
            After(ns + [node], idMap) == if before.Going? then Handle(node, idMap, before.g) else before
  {
    hide Handle;
    assert (ns + [node])[..|ns|] == ns;
  }

  lemma {:induction false} EndsBad(a: seq<Node>, b: seq<Node>, idMap: map<nat, nat>)
    requires !After(a, idMap).Going?
    ensures After(a + b, idMap) == After(a, idMap)
    decreases |b|
  {
    hide Handle;
    if b == [] {
      assert a + b == a;
    } else {
      var c := b[..|b| - 1];
      EndsBad(a, c, idMap);
      assert (a + b)[..|a + b| - 1] == a + c;
    }
  }

  // ------------------------------------------------------------------- what the chain declares

  predicate FitsCast(node: Node, idMap: map<nat, nat>)
    requires node.Argument?
  {
    Translate(idMap, node.commandId) <= INT64_MAX && node.argIndex <= INT32_MAX
  }

  /** Descriptor i can be handled: an argument, or strides directly after an argument. */
  predicate Acceptable(ns: seq<Node>, idMap: map<nat, nat>, i: nat)
    requires i < |ns|
  {
    match ns[i]
    case Argument(_, _, _, _) => FitsCast(ns[i], idMap)
    case Strides(_, _) => i > 0 && ns[i - 1].Argument?
    case Unsupported => false
  }

  ghost predicate AllAcceptable(ns: seq<Node>, idMap: map<nat, nat>)
  {
    forall i :: 0 <= i < |ns| ==> Acceptable(ns, idMap, i)
  }

  predicate Names(node: Node, idMap: map<nat, nat>, cmd: nat, arg: nat)
  {
    node.Argument? && Translate(idMap, node.commandId) == cmd && node.argIndex == arg
  }

  /** The value in the last descriptor that names the argument. */
  function LastValue(ns: seq<Node>, idMap: map<nat, nat>, cmd: nat, arg: nat): (v: Option<Pointer>)
    decreases |ns|
  {
    if ns == [] then None
    else if Names(ns[|ns| - 1], idMap, cmd, arg) then Some(ns[|ns| - 1].value)
    else LastValue(ns[..|ns| - 1], idMap, cmd, arg)
  }

  /** The strides in the last strides descriptor directly after one that names the argument. */
  function LastStrides(ns: seq<Node>, idMap: map<nat, nat>, cmd: nat, arg: nat): (s: Option<seq<nat>>)
    decreases |ns|
  {
    if |ns| < 2 then None
    else if ns[|ns| - 1].Strides? && Names(ns[|ns| - 2], idMap, cmd, arg) then Some(ns[|ns| - 1].strides)
    else LastStrides(ns[..|ns| - 1], idMap, cmd, arg)
  }

  /** What the chain asks for one argument, or nothing. */
  function Declared(ns: seq<Node>, idMap: map<nat, nat>, cmd: nat, arg: nat): (u: Option<Update>)
  {
    var v := LastValue(ns, idMap, cmd, arg);
    if v.None? then None else Some(Update(v, LastStrides(ns, idMap, cmd, arg)))
  }

  /** LastValue is the value of the last descriptor that names the argument, and none without one. */
  lemma {:induction false} LastValueExactly(ns: seq<Node>, idMap: map<nat, nat>, cmd: nat, arg: nat, i: int)
    requires -1 <= i < |ns| && (i >= 0 ==> Names(ns[i], idMap, cmd, arg))
    requires forall k :: i < k < |ns| ==> !Names(ns[k], idMap, cmd, arg)
    ensures LastValue(ns, idMap, cmd, arg) == if i < 0 then None else Some(ns[i].value)
    decreases |ns|
  {
    if i < |ns| - 1 {
      var before := ns[..|ns| - 1];
      assert forall k :: 0 <= k < |before| ==> before[k] == ns[k];
      LastValueExactly(before, idMap, cmd, arg, i);
    }
  }

  /** Descriptor i holds strides for the argument. */
  predicate StridesFor(ns: seq<Node>, idMap: map<nat, nat>, cmd: nat, arg: nat, i: nat)
    requires i < |ns|
  {
    i > 0 && ns[i].Strides? && Names(ns[i - 1], idMap, cmd, arg)
  }

  lemma StridesBefore(ns: seq<Node>, idMap: map<nat, nat>, cmd: nat, arg: nat, i: nat)
    requires i < |ns| - 1
    ensures StridesFor(ns[..|ns| - 1], idMap, cmd, arg, i) == StridesFor(ns, idMap, cmd, arg, i)
    ensures ns[..|ns| - 1][i] == ns[i]
  {
    if i > 0 { assert ns[..|ns| - 1][i - 1] == ns[i - 1]; }
  }

  /** LastStrides are the strides of the last descriptor directly after one that names the argument. */
  lemma {:induction false} LastStridesExactly(ns: seq<Node>, idMap: map<nat, nat>, cmd: nat, arg: nat, i: int)
    requires -1 <= i < |ns| && (i >= 0 ==> StridesFor(ns, idMap, cmd, arg, i))
    requires forall k :: i < k < |ns| ==> !StridesFor(ns, idMap, cmd, arg, k)
    ensures LastStrides(ns, idMap, cmd, arg) == if i < 0 then None else Some(ns[i].strides)
    decreases |ns|
  {
    hide Names;
    if i < |ns| - 1 {
      var before := ns[..|ns| - 1];
      forall k: nat | k < |before|
        ensures StridesFor(before, idMap, cmd, arg, k) == StridesFor(ns, idMap, cmd, arg, k) && before[k] == ns[k]
      {
        StridesBefore(ns, idMap, cmd, arg, k);
      }
      LastStridesExactly(before, idMap, cmd, arg, i);
      assert !StridesFor(ns, idMap, cmd, arg, |ns| - 1);
    }
  }

  function PrevOf(ns: seq<Node>, idMap: map<nat, nat>): (prev: Option<(nat, nat)>)
  {
    if ns == [] || !ns[|ns| - 1].Argument? then None
    else Some((Translate(idMap, ns[|ns| - 1].commandId), ns[|ns| - 1].argIndex))
  }

  lemma AcceptablePrefix(ns: seq<Node>, idMap: map<nat, nat>)
    requires ns != []
    ensures AllAcceptable(ns, idMap) <==> AllAcceptable(ns[..|ns| - 1], idMap) && Acceptable(ns, idMap, |ns| - 1)
  {
    hide FitsCast;
    var before := ns[..|ns| - 1];
    assert forall i :: 0 <= i < |before| ==> (Acceptable(ns, idMap, i) <==> Acceptable(before, idMap, i));
  }

  lemma {:induction false} StridesNeedValue(ns: seq<Node>, idMap: map<nat, nat>, cmd: nat, arg: nat)
    requires LastValue(ns, idMap, cmd, arg).None?
    ensures LastStrides(ns, idMap, cmd, arg).None?
    decreases |ns|
  {
    if |ns| >= 2 {
      var before := ns[..|ns| - 1];
      assert before[|before| - 1] == ns[|ns| - 2];
      StridesNeedValue(before, idMap, cmd, arg);
    }
  }

  /** The map says exactly what the chain declares. */
  ghost predicate Says(updates: Updates, ns: seq<Node>, idMap: map<nat, nat>)
  {
    forall cmd: nat, arg: nat :: Lookup(updates, cmd, arg) == Declared(ns, idMap, cmd, arg)
  }

  lemma SaysStep(g: Gathering, ns: seq<Node>, idMap: map<nat, nat>)
    requires ns != [] && Says(g.updates, ns[..|ns| - 1], idMap) && g.prev == PrevOf(ns[..|ns| - 1], idMap)
    requires Acceptable(ns, idMap, |ns| - 1)
    ensures var r := Handle(ns[|ns| - 1], idMap, g);
            r.Going? && Says(r.g.updates, ns, idMap) && r.g.prev == PrevOf(ns, idMap)
  {
    var before, node := ns[..|ns| - 1], ns[|ns| - 1];
    var r := Handle(node, idMap, g);
    assert before != [] ==> before[|before| - 1] == ns[|ns| - 2];
    forall cmd: nat, arg: nat ensures Lookup(r.g.updates, cmd, arg) == Declared(ns, idMap, cmd, arg) {
      assert Lookup(g.updates, cmd, arg) == Declared(before, idMap, cmd, arg);
      if LastValue(before, idMap, cmd, arg).None? { StridesNeedValue(before, idMap, cmd, arg); }
    }
  }

  /**
   Gathering succeeds exactly on chains of acceptable descriptors; it then holds, for every
   argument, the last value and the last strides the chain declares for it.
   */
  lemma {:induction false} GatherExact(ns: seq<Node>, idMap: map<nat, nat>)
    ensures After(ns, idMap).Going? <==> AllAcceptable(ns, idMap)
    ensures After(ns, idMap).Going? ==>
              Says(After(ns, idMap).g.updates, ns, idMap) && After(ns, idMap).g.prev == PrevOf(ns, idMap)
    decreases |ns|
  {
    hide Handle, Says, Acceptable;
    if ns == [] {
      NoDescriptors(idMap);
    } else {
      GatherExact(ns[..|ns| - 1], idMap);
      AcceptablePrefix(ns, idMap);
      var before := After(ns[..|ns| - 1], idMap);
      if before.Going? {
        if Acceptable(ns, idMap, |ns| - 1) {
          SaysStep(before.g, ns, idMap);
        } else {
          UnacceptableStops(before.g, ns, idMap);
        }
      }
    }
  }

  lemma NoDescriptors(idMap: map<nat, nat>)
    ensures AllAcceptable([], idMap) && Says(map[], [], idMap)
  {
  }

  /** Only an argument that does not fit the casts throws; everything else is refused. */
  lemma UnacceptableStops(g: Gathering, ns: seq<Node>, idMap: map<nat, nat>)
    requires ns != [] && g.prev == PrevOf(ns[..|ns| - 1], idMap) && !Acceptable(ns, idMap, |ns| - 1)
    ensures Handle(ns[|ns| - 1], idMap, g) == if ns[|ns| - 1].Argument? then Threw else Refused
  {
    var before := ns[..|ns| - 1];
    assert before != [] ==> before[|before| - 1] == ns[|ns| - 2];
  }

  /**
   For every chain, cyclic or not: gathering succeeds exactly when null is reached within
   the limit and all descriptors are acceptable.
   */
  lemma ChainGathered(heap: Heap, start: Pointer, idMap: map<nat, nat>, limit: nat)
    requires Linked(heap, start)
    ensures var ns, r := Nodes(heap, start, limit), GatherResult(heap, start, idMap, limit);
            && (r.Gathered? <==> EndOf(heap, start, limit) == NULL && AllAcceptable(ns, idMap))
            && (r.Gathered? ==> Says(r.updates, ns, idMap))
  {
    hide After, AllAcceptable, Says;
    GatherExact(Nodes(heap, start, limit), idMap);
  }

  /** A chain that leads back to itself never reaches null, so it is never gathered. */
  lemma {:induction false} CycleNeverEnds(heap: Heap, ring: set<Pointer>, p: Pointer, limit: nat)
    requires p in ring && NULL !in ring
    requires forall q :: q in ring ==> q in heap && NextOf(heap[q]) in ring
    ensures EndOf(heap, p, limit) in ring
    decreases limit
  {
    if limit > 0 { CycleNeverEnds(heap, ring, NextOf(heap[p]), limit - 1); }
  }

  // ------------------------------------------------------------------ applying the updates

  /** An argument of a graph command: inputs first, then outputs. */
  datatype Arg = Arg(ptr: Pointer, strides: Option<seq<nat>>)

  function AppliedTo(a: Arg, u: Update): (a': Arg)
  {
    Arg(if u.ptr.Some? then u.ptr.value else a.ptr, u.strides)
  }

  function Applied(args: seq<Arg>, us: map<nat, Update>): (args': seq<Arg>)
    ensures |args'| == |args|
  {
    seq(|args|, i requires 0 <= i < |args| => if i in us then AppliedTo(args[i], us[i]) else args[i])
  }

  /** The updates of one command all name arguments it has. */
  ghost predicate InArgs(args: seq<Arg>, us: map<nat, Update>)
  {
    forall i :: i in us ==> i < |args|
  }

  /** setUpdates of a graph command; the map is visited in no particular order. */
  method SetUpdates(args: seq<Arg>, us: map<nat, Update>) returns (ok: bool, args': seq<Arg>)
    ensures ok <==> InArgs(args, us)
    ensures ok ==> args' == Applied(args, us)
    ensures |args'| == |args|
    ensures forall i :: 0 <= i < |args| && i !in us ==> args'[i] == args[i]
  {
    args' := args;
    var todo := us.Keys;
    while todo != {}
      invariant todo <= us.Keys && |args'| == |args|
      invariant forall i :: i in us && i !in todo ==> i < |args|
      invariant forall i :: 0 <= i < |args| ==>
                  args'[i] == if i in us && i !in todo then AppliedTo(args[i], us[i]) else args[i]
    {
      var i :| i in todo;
      todo := todo - {i};
      if i >= |args| { return false, args'; }
      args' := args'[i := AppliedTo(args[i], us[i])];
    }
    ok := true;
  }

  /** The commands of the closed job: their arguments, or None for a kind without any. */
  type Arguments = seq<Option<seq<Arg>>>

  predicate CanUpdate(cmds: Arguments, cmd: nat, us: map<nat, Update>)
  {
    cmd < |cmds| && cmds[cmd].Some? && forall i :: i in us ==> i < |cmds[cmd].value|
  }

  /** Command c after its updates, if it has any. */
  function Updated(args: Option<seq<Arg>>, updates: Updates, c: nat): (args': Option<seq<Arg>>)
    ensures args.Some? == args'.Some? && (args.Some? ==> |args'.value| == |args.value|)
  {
    if c in updates && args.Some? then Some(Applied(args.value, updates[c])) else args
  }

  /**
   What a successful update does to an argument: it takes the last value and the last
   strides the chain declares for it, and stays as it was when the chain does not name it.
   */
  lemma UpdatedAsDeclared(heap: Heap, start: Pointer, idMap: map<nat, nat>, limit: nat, args: seq<Arg>, c: nat, i: nat)
    requires Linked(heap, start) && GatherResult(heap, start, idMap, limit).Gathered? && i < |args|
    ensures var ns, updates := Nodes(heap, start, limit), GatherResult(heap, start, idMap, limit).updates;
            var arg, v := Updated(Some(args), updates, c).value[i], LastValue(ns, idMap, c, i);
            arg == if v.Some? then Arg(v.value, LastStrides(ns, idMap, c, i)) else args[i]
  {
    hide Nodes, EndOf, AllAcceptable, LastValue, LastStrides;
    ChainGathered(heap, start, idMap, limit);
    var ns, updates := Nodes(heap, start, limit), GatherResult(heap, start, idMap, limit).updates;
    assert Lookup(updates, c, i) == Declared(ns, idMap, c, i);
  }

  class MutableCommands {
    var cmds: Arguments
    const isMutable: bool

    constructor (cmds: Arguments, isMutable: bool)
      ensures this.cmds == cmds && this.isMutable == isMutable
    {
      this.cmds, this.isMutable := cmds, isMutable;
    }

    /** updateMutableCommands. */
    method UpdateMutableCommands(flags: nat, heap: Heap, pNext: Pointer, idMap: map<nat, nat>) returns (r: ZeResult)
      requires Linked(heap, pNext)
      modifies this`cmds
      ensures var g := GatherResult(heap, pNext, idMap, NESTED_STRUCTS_LIMIT);
              && (r == Success <==> && isMutable && flags == 0 && g.Gathered? && g.updates != map[]
                                    && forall c :: c in g.updates ==> CanUpdate(old(cmds), c, g.updates[c]))
              && (r == Unknown <==> isMutable && flags == 0 && g.Thrown?)
              && (r == Success || r == Unknown || r == InvalidArgument)
              && |cmds| == |old(cmds)|
              && (r == Success ==> forall c :: 0 <= c < |cmds| ==> cmds[c] == Updated(old(cmds)[c], g.updates, c))
              && (!isMutable || flags != 0 || !g.Gathered? ==> cmds == old(cmds))
    {
      if !isMutable { return InvalidArgument; }
      if flags != 0 { return InvalidArgument; }
      var g, _ := GatherCommandUpdates(heap, pNext, idMap);
      if g.Thrown? { return Unknown; }
      if g.Failed? || |g.updates| == 0 { return InvalidArgument; }
      r := ApplyUpdates(g.updates);
    }

    method ApplyUpdates(updates: Updates) returns (r: ZeResult)
      modifies this`cmds
      ensures |cmds| == |old(cmds)| && (r == Success || r == InvalidArgument)
      ensures r == Success <==> forall c :: c in updates ==> CanUpdate(old(cmds), c, updates[c])
      ensures r == Success ==> forall c :: 0 <= c < |cmds| ==> cmds[c] == Updated(old(cmds)[c], updates, c)
    {
      var todo := updates.Keys;
      while todo != {}
        invariant todo <= updates.Keys && |cmds| == |old(cmds)|
        invariant forall c :: c in updates && c !in todo ==> CanUpdate(old(cmds), c, updates[c])
        invariant forall c :: 0 <= c < |cmds| && c in todo ==> cmds[c] == old(cmds)[c]
        invariant forall c :: 0 <= c < |cmds| && c !in todo ==> cmds[c] == Updated(old(cmds)[c], updates, c)
      {
        var c :| c in todo;
        todo := todo - {c};
        if c >= |cmds| { return InvalidArgument; }
        if cmds[c].None? { return InvalidArgument; }
        var ok, args := SetUpdates(cmds[c].value, updates[c]);
        cmds := cmds[c := Some(args)];
        if !ok { return InvalidArgument; }
      }
      r := Success;
    }
  }
}
