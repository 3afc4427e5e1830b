/**
 The buffer of a metric query pool (umd/level_zero_driver/source/metric_query.cpp): one slot
 per query, holding a table of addresses for the device and the data area it points at.
 */
module QueryPool {
  import opened Bits
  import opened Jobs

  // ------------------------------------------------------------------------------- layout

  function Align64(x: nat): (r: nat)
    ensures r % 64 == 0 && x <= r < x + 64
  {
    x + 63 - (x + 63) % 64
  }

  /** What the group fixes: number of groups, its own index, size of its data, and the pool size. */
  datatype Layout = Layout(groupCount: nat, groupIndex: nat, allocationSize: nat, poolSize: nat)

  ghost predicate IndexOk(l: Layout)
  {
    l.groupIndex < l.groupCount
  }

  function TableSize(l: Layout): (n: nat)
    ensures n % 64 == 0 && 8 * l.groupCount <= n < 8 * l.groupCount + 64
  {
    Align64(8 * l.groupCount)
  }

  function Stride(l: Layout): (n: nat)
    ensures n % 64 == 0 && TableSize(l) + l.allocationSize <= n < TableSize(l) + l.allocationSize + 64
  {
    Align64(TableSize(l) + l.allocationSize)
  }

  function TableOffset(l: Layout, i: nat): (o: nat)
  {
    i * Stride(l)
  }

  function DataOffset(l: Layout, i: nat): (o: nat)
  {
    TableOffset(l, i) + TableSize(l)
  }

  /** Where the pool writes the address of the data area of slot i. */
  function EntryOffset(l: Layout, i: nat): (o: nat)
  {
    TableOffset(l, i) + 8 * l.groupIndex
  }

  function BufferSize(l: Layout): (n: nat)
  {
    TableOffset(l, l.poolSize)
  }

  lemma MultipleOf64(i: nat, n: nat)
    requires n % 64 == 0
    ensures (i * n) % 64 == 0
  {
    var k := n / 64;
    assert i * n == (i * k) * 64 by { assert n == k * 64; MulAssoc(i, k, 64); }
    DivModUnique(i * n, 64, i * k, 0);
  }

  /** Tables and data areas are aligned, follow each other and end inside the buffer. */
  lemma SlotLayout(l: Layout, i: nat)
    requires i < l.poolSize
    ensures TableOffset(l, i) % 64 == 0 && DataOffset(l, i) % 64 == 0
    ensures TableOffset(l, i) + 8 * l.groupCount <= DataOffset(l, i)
    ensures DataOffset(l, i) + l.allocationSize <= TableOffset(l, i + 1) <= BufferSize(l)
    ensures IndexOk(l) ==> TableOffset(l, i) <= EntryOffset(l, i) && EntryOffset(l, i) + 8 <= DataOffset(l, i)
  {
    hide Align64, TableSize, Stride;
    SlotAligned(l, i);
    NextMultiple(i, Stride(l));
    MulMono(i + 1, l.poolSize, Stride(l));
  }

  lemma SlotAligned(l: Layout, i: nat)
    ensures TableOffset(l, i) % 64 == 0 && DataOffset(l, i) % 64 == 0
  {
    hide Align64, TableSize, Stride;
    MultipleOf64(i, Stride(l));
    SumOf64(TableOffset(l, i), TableSize(l));
  }

  lemma SumOf64(a: nat, b: nat)
    requires a % 64 == 0 && b % 64 == 0
    ensures (a + b) % 64 == 0
  {
  }

  /** No more room than alignment needs: less than 64 bytes after the table and after the data. */
  lemma SlotsTight(l: Layout, i: nat)
    ensures TableOffset(l, 0) == 0 && DataOffset(l, i) - TableOffset(l, i) < 8 * l.groupCount + 64
    ensures TableOffset(l, i + 1) - DataOffset(l, i) < l.allocationSize + 64
  {
    hide Align64;
    NextMultiple(i, Stride(l));
  }

  /** Slots with different numbers share no byte. */
  lemma SlotsDisjoint(l: Layout, i: nat, j: nat)
    requires i < j
    ensures TableOffset(l, i + 1) <= TableOffset(l, j)
  {
    MulMono(i + 1, j, Stride(l));
  }

  // --------------------------------------------------------------------- bytes of the buffer

  /** The bytes with data put at an offset. */
  function Written(bytes: seq<Byte>, at: nat, data: seq<Byte>): (r: seq<Byte>)
    requires at + |data| <= |bytes|
    ensures |r| == |bytes| && r[at..at + |data|] == data
    ensures forall k :: 0 <= k < |bytes| && !(at <= k < at + |data|) ==> r[k] == bytes[k]
  {
    bytes[..at] + data + bytes[at + |data|..]
  }

  function Zeros(n: nat): (z: seq<Byte>)
    ensures |z| == n
  {
    seq(n, _ => 0)
  }

  /** The address the device is given for slot i. */
  function Address(l: Layout, vpuBase: nat, room: nat, i: nat): (a: nat)
  {
    if DataOffset(l, i) < room then vpuBase + DataOffset(l, i) else 0
  }

  datatype Pool = Pool(bytes: seq<Byte>, live: seq<bool>)

  ghost predicate Sized(l: Layout, vpuBase: nat, p: Pool)
  {
    && IndexOk(l) && |p.live| == l.poolSize
    && BufferSize(l) <= |p.bytes| && vpuBase + |p.bytes| <= TWO_64
  }

  ghost predicate InSlot(l: Layout, i: nat, k: int)
  {
    TableOffset(l, i) <= k < TableOffset(l, i + 1)
  }

  ghost function Data(l: Layout, p: Pool, i: nat): (d: seq<Byte>)
    requires i < l.poolSize && BufferSize(l) <= |p.bytes|
    ensures |d| == l.allocationSize
  {
    SlotLayout(l, i);
    p.bytes[DataOffset(l, i)..DataOffset(l, i) + l.allocationSize]
  }

  /** The number the device reads in the table of slot i. */
  ghost function TableEntry(l: Layout, p: Pool, i: nat): (a: nat)
    requires IndexOk(l) && i < l.poolSize && BufferSize(l) <= |p.bytes|
  {
    SlotLayout(l, i);
    FromLe(p.bytes[EntryOffset(l, i)..EntryOffset(l, i) + 8])
  }

  /** The table of every live query leads the device to that query's data area. */
  ghost predicate Valid(l: Layout, vpuBase: nat, p: Pool)
  {
    && Sized(l, vpuBase, p)
    && forall i :: 0 <= i < l.poolSize && p.live[i] ==> TableEntry(l, p, i) == Address(l, vpuBase, |p.bytes|, i)
  }

  /** Everything outside slot i is the same. */
  ghost predicate OnlySlot(l: Layout, p: Pool, p': Pool, i: nat)
  {
    && |p'.bytes| == |p.bytes| && |p'.live| == |p.live|
    && (forall k :: 0 <= k < |p.bytes| && !InSlot(l, i, k) ==> p'.bytes[k] == p.bytes[k])
    && (forall j :: 0 <= j < |p.live| && j != i ==> p'.live[j] == p.live[j])
  }

  lemma SlotKept(l: Layout, p: Pool, p': Pool, i: nat, j: nat)
    requires OnlySlot(l, p, p', i) && i != j && j < l.poolSize && BufferSize(l) <= |p.bytes| && IndexOk(l)
    ensures Data(l, p', j) == Data(l, p, j) && TableEntry(l, p', j) == TableEntry(l, p, j)
  {
    hide FromLe, TableOffset, DataOffset, EntryOffset;
    SlotLayout(l, j);
    if i < j { SlotsDisjoint(l, i, j); } else { SlotsDisjoint(l, j, i); }
    OffsetsNest(l, j);
    forall k | TableOffset(l, j) <= k < TableOffset(l, j + 1) ensures p'.bytes[k] == p.bytes[k] {
      assert !InSlot(l, i, k);
    }
    assert p'.bytes[EntryOffset(l, j)..EntryOffset(l, j) + 8] == p.bytes[EntryOffset(l, j)..EntryOffset(l, j) + 8];
  }

  lemma OffsetsNest(l: Layout, i: nat)
    ensures TableOffset(l, i) <= EntryOffset(l, i) && TableOffset(l, i) <= DataOffset(l, i)
    ensures TableOffset(l, i) <= TableOffset(l, i + 1)
  {
    NextMultiple(i, Stride(l));
  }

  // ---------------------------------------------------------------------------- operations

  datatype Op =
    | Create(i: nat)
    | Reset(i: nat)
    | Destroy(i: nat)
    | DeviceWrites(i: nat, data: seq<Byte>)

  /** When an operation takes effect: create on a free slot, the others on a live query. */
  ghost predicate Applies(l: Layout, p: Pool, op: Op)
  {
    && op.i < l.poolSize == |p.live| && (op.Create? <==> !p.live[op.i])
    && (op.DeviceWrites? ==> |op.data| <= l.allocationSize)
  }

  ghost function Effect(l: Layout, vpuBase: nat, p: Pool, op: Op): (p': Pool)
    requires Sized(l, vpuBase, p) && Applies(l, p, op)
  {
    SlotLayout(l, op.i);
    match op
    case Create(i) =>
      Pool(Written(p.bytes, EntryOffset(l, i), ToLe(Address(l, vpuBase, |p.bytes|, i), 8)), p.live[i := true])
    case Reset(i) => p.(bytes := Written(p.bytes, DataOffset(l, i), Zeros(l.allocationSize)))
    case Destroy(i) => p.(live := p.live[i := false])
    case DeviceWrites(i, data) => p.(bytes := Written(p.bytes, DataOffset(l, i), data))
  }

  lemma EffectLocal(l: Layout, vpuBase: nat, p: Pool, op: Op)
    requires Sized(l, vpuBase, p) && Applies(l, p, op)
    ensures Sized(l, vpuBase, Effect(l, vpuBase, p, op)) && OnlySlot(l, p, Effect(l, vpuBase, p, op), op.i)
  {
    hide TableOffset, DataOffset, EntryOffset, ToLe, Zeros, BufferSize, Address;
    SlotLayout(l, op.i);
    OffsetsNest(l, op.i);
  }

  lemma AddressFits(l: Layout, vpuBase: nat, room: nat, i: nat)
    requires vpuBase + room <= TWO_64
    ensures Address(l, vpuBase, room, i) < TWO_64
  {
    hide DataOffset;
  }

  lemma EightBytes(v: nat)
    requires v < TWO_64
    ensures FromLe(ToLe(v, 8)) == v
  {
    hide FromLe, ToLe, Pow2;
    var n := 8;
    assert Pow2(8 * n) == TWO_64 by {
      Pow2Of8();
      Pow2Add(8, 8);
      Pow2Add(16, 16);
      Pow2Add(32, 32);
    }
    LeRoundTrip(v, n);
  }

  /** The slot an operation works on keeps, or gets, the right table. */
  lemma EntryRight(l: Layout, vpuBase: nat, p: Pool, op: Op)
    requires Valid(l, vpuBase, p) && Applies(l, p, op)
    ensures var p' := Effect(l, vpuBase, p, op);
            && Sized(l, vpuBase, p') && |p'.bytes| == |p.bytes|
            && (p'.live[op.i] ==> TableEntry(l, p', op.i) == Address(l, vpuBase, |p.bytes|, op.i))
  {
    hide TableOffset, DataOffset, EntryOffset, ToLe, FromLe, Zeros, BufferSize, Address;
    SlotLayout(l, op.i);
    EffectLocal(l, vpuBase, p, op);
    var p', e := Effect(l, vpuBase, p, op), EntryOffset(l, op.i);
    if op.Create? {
      AddressFits(l, vpuBase, |p.bytes|, op.i);
      EightBytes(Address(l, vpuBase, |p.bytes|, op.i));
    } else {
      assert p'.bytes[e..e + 8] == p.bytes[e..e + 8];
    }
  }

  lemma EffectKeepsValid(l: Layout, vpuBase: nat, p: Pool, op: Op)
    requires Valid(l, vpuBase, p) && Applies(l, p, op)
    ensures Valid(l, vpuBase, Effect(l, vpuBase, p, op))
  {
    hide TableEntry, Address, Effect, BufferSize;
    var p' := Effect(l, vpuBase, p, op);
    EffectLocal(l, vpuBase, p, op);
    EntryRight(l, vpuBase, p, op);
    forall j | 0 <= j < l.poolSize && p'.live[j] ensures TableEntry(l, p', j) == Address(l, vpuBase, |p'.bytes|, j) {
      if j != op.i { SlotKept(l, p, p', op.i, j); }
    }
  }

  /**
   What each operation does to the query's data: a reset makes it zero, the device's bytes are
   in front of what was there, creating and destroying a query leave it; and which slots are live.
   */
  lemma EffectOnData(l: Layout, vpuBase: nat, p: Pool, op: Op)
    requires Sized(l, vpuBase, p) && Applies(l, p, op)
    ensures var p' := Effect(l, vpuBase, p, op);
            && |p'.bytes| == |p.bytes| && BufferSize(l) <= |p'.bytes| && op.i < |p'.live|
            && (op.Reset? ==> forall k :: 0 <= k < l.allocationSize ==> Data(l, p', op.i)[k] == 0)
            && (op.DeviceWrites? ==>
                  Data(l, p', op.i) == op.data + Data(l, p, op.i)[|op.data|..])
            && (op.Create? || op.Destroy? ==> Data(l, p', op.i) == Data(l, p, op.i))
            && (op.Destroy? ==> p'.bytes == p.bytes)
            && (p'.live[op.i] <==> !op.Destroy?)
  {
    hide TableOffset, DataOffset, EntryOffset, ToLe, Address, BufferSize;
    SlotLayout(l, op.i);
    var p', at := Effect(l, vpuBase, p, op), DataOffset(l, op.i);
    if op.Create? {
      assert forall k :: at <= k < at + l.allocationSize ==> p'.bytes[k] == p.bytes[k];
    } else if op.DeviceWrites? {
      assert p'.bytes[at..at + |op.data|] == op.data;
    } else if op.Reset? {
      assert p'.bytes[at..at + l.allocationSize] == Zeros(l.allocationSize);
    }
  }

  /** A run: each operation applies to the state the previous ones left. */
  ghost predicate IsRun(l: Layout, vpuBase: nat, ps: seq<Pool>, ops: seq<Op>)
  {
    && |ps| == |ops| + 1
    && forall n :: 0 <= n < |ops| ==>
         Sized(l, vpuBase, ps[n]) && Applies(l, ps[n], ops[n]) && ps[n + 1] == Effect(l, vpuBase, ps[n], ops[n])
  }

  /** Throughout a run from a valid pool, the tables of all live queries are right. */
  lemma {:induction false} RunValid(l: Layout, vpuBase: nat, ps: seq<Pool>, ops: seq<Op>, n: nat)
    requires IsRun(l, vpuBase, ps, ops) && n <= |ops| && Valid(l, vpuBase, ps[0])
    ensures Valid(l, vpuBase, ps[n])
  {
    hide Valid, Effect, Applies;
    if n > 0 {
      RunValid(l, vpuBase, ps, ops, n - 1);
      EffectKeepsValid(l, vpuBase, ps[n - 1], ops[n - 1]);
    }
  }

  /** A query's data, table and liveness change only by operations on that query. */
  lemma {:induction false} OtherQueriesKeep(l: Layout, vpuBase: nat, ps: seq<Pool>, ops: seq<Op>, n: nat, i: nat)
    requires IsRun(l, vpuBase, ps, ops) && n <= |ops| && i < l.poolSize && Valid(l, vpuBase, ps[0])
    requires forall k :: 0 <= k < n ==> ops[k].i != i
    ensures Sized(l, vpuBase, ps[n])
    ensures Data(l, ps[n], i) == Data(l, ps[0], i) && TableEntry(l, ps[n], i) == TableEntry(l, ps[0], i)
    ensures ps[n].live[i] == ps[0].live[i]
  {
    hide Data, TableEntry, Effect, Applies, BufferSize;
    if n > 0 {
      OtherQueriesKeep(l, vpuBase, ps, ops, n - 1, i);
      EffectLocal(l, vpuBase, ps[n - 1], ops[n - 1]);
      SlotKept(l, ps[n - 1], ps[n], ops[n - 1].i, i);
    }
  }

  // ------------------------------------------------------------------------------- the pool

  class MetricQueryPool {
    const layout: Layout
    const vpuBase: nat
    const buffer: array<Byte>
    var live: seq<bool>

    ghost function State(): (p: Pool)
      reads this, buffer
    {
      Pool(buffer[..], live)
    }

    ghost predicate Ok()
      reads this, buffer
    {
      Valid(layout, vpuBase, State())
    }

    /** Slots below the pool size fit the buffer. */
    constructor (layout: Layout, vpuBase: nat, buffer: array<Byte>)
      requires IndexOk(layout) && BufferSize(layout) <= buffer.Length && vpuBase + buffer.Length <= TWO_64
      modifies buffer
      ensures Ok() && this.layout == layout && this.vpuBase == vpuBase && this.buffer == buffer
      ensures forall i :: 0 <= i < layout.poolSize ==>
                !live[i] && Data(layout, State(), i) == Zeros(layout.allocationSize)
    {
      this.layout, this.vpuBase, this.buffer := layout, vpuBase, buffer;
      live := seq(layout.poolSize, _ => false);
      new;
      var size := BufferSize(layout);
      forall k | 0 <= k < size { buffer[k] := 0; }
      forall i | 0 <= i < layout.poolSize ensures Data(layout, State(), i) == Zeros(layout.allocationSize) {
        SlotLayout(layout, i);
      }
    }

    /** Stores bytes in the buffer. */
    method Put(at: nat, data: seq<Byte>)
      requires at + |data| <= buffer.Length
      modifies buffer
      ensures buffer[..] == Written(old(buffer[..]), at, data)
    {
      ghost var was := buffer[..];
      forall k | 0 <= k < |data| { buffer[at + k] := data[k]; }
      assert forall k :: at <= k < at + |data| ==> buffer[k] == data[k - at];
    }

    /** createMetricQuery; activated is the state of the metric group, hasHandle tells of the out pointer. */
    method CreateMetricQuery(index: nat, activated: bool, hasHandle: bool) returns (r: ZeResult)
      requires Ok()
      modifies this`live, buffer
      ensures Ok()
      ensures r == Success <==> hasHandle && activated && index < layout.poolSize && !old(live)[index]
      ensures r == Success ==> State() == Effect(layout, vpuBase, old(State()), Create(index))
      ensures r == Success ==>
                var at := TableOffset(layout, index) + 8 * layout.groupIndex;
                && at + 8 <= DataOffset(layout, index) <= buffer.Length && live[index]
                && (layout.allocationSize > 0 ==>
                      FromLe(buffer[at..at + 8]) == vpuBase + DataOffset(layout, index))
      ensures r != Success ==> State() == old(State())
      ensures r == InvalidNullPointer <==> !hasHandle
      ensures r == DependencyUnavailable <==> hasHandle && !activated
      ensures r == InvalidArgument <==> hasHandle && activated && index >= layout.poolSize
      ensures r == ObjectInUse <==> hasHandle && activated && index < layout.poolSize && old(live)[index]
    {
      hide Valid, TableOffset, DataOffset, EntryOffset, Address, ToLe, Written;
      ValidSized(layout, vpuBase, State());
      if !hasHandle { return InvalidNullPointer; }
      if !activated { return DependencyUnavailable; }
      if index >= |live| { return InvalidArgument; }
      if live[index] { return ObjectInUse; }
      EffectKeepsValid(layout, vpuBase, State(), Create(index));
      SlotLayout(layout, index);
      Put(EntryOffset(layout, index), ToLe(Address(layout, vpuBase, buffer.Length, index), 8));
      live := live[index := true];
      EntryPointsAtData(layout, vpuBase, State(), index);
      r := Success;
    }

    method ResetQuery(index: nat) returns (r: ZeResult)
      requires Ok() && index < layout.poolSize && live[index]
      modifies buffer
      ensures Ok() && r == Success && State() == Effect(layout, vpuBase, old(State()), Reset(index))
      ensures forall k :: 0 <= k < layout.allocationSize ==> Data(layout, State(), index)[k] == 0
    {
      hide Valid, TableOffset, DataOffset, EntryOffset, Written, Zeros;
      ValidSized(layout, vpuBase, State());
      EffectKeepsValid(layout, vpuBase, State(), Reset(index));
      EffectOnData(layout, vpuBase, State(), Reset(index));
      SlotLayout(layout, index);
      Put(DataOffset(layout, index), Zeros(layout.allocationSize));
      r := Success;
    }

    method DestroyQuery(index: nat) returns (r: ZeResult)
      requires Ok() && index < layout.poolSize && live[index]
      modifies this`live
      ensures Ok() && r == Success && State() == Effect(layout, vpuBase, old(State()), Destroy(index))
      ensures !live[index] && buffer[..] == old(buffer[..])
    {
      hide Valid;
      ValidSized(layout, vpuBase, State());
      EffectKeepsValid(layout, vpuBase, State(), Destroy(index));
      live := live[index := false];
      r := Success;
    }

    /** The device stores a sample where the table of the query tells it to. */
    method DeviceStores(index: nat, data: seq<Byte>)
      requires Ok() && index < layout.poolSize && live[index] && 0 < |data| <= layout.allocationSize
      modifies buffer
      ensures Ok() && State() == Effect(layout, vpuBase, old(State()), DeviceWrites(index, data))
      ensures Data(layout, State(), index)[..|data|] == data
    {
      hide TableOffset, DataOffset, EntryOffset, Written, FromLe;
      SlotLayout(layout, index);
      EffectKeepsValid(layout, vpuBase, State(), DeviceWrites(index, data));
      EffectOnData(layout, vpuBase, State(), DeviceWrites(index, data));
      assert TableEntry(layout, State(), index) == Address(layout, vpuBase, buffer.Length, index);
      var e := EntryOffset(layout, index);
      var address := FromLe(buffer[e..e + 8]);
      assert buffer[e..e + 8] == buffer[..][e..e + 8];
      Put(address - vpuBase, data);
    }

    /**
     getData: with size zero it reports the size; it copies only into a destination that
     takes all of the query's data, and then gives that data.
     */
    method GetData(index: nat, size: Option<nat>, hasDestination: bool)
      returns (r: ZeResult, newSize: nat, data: Option<seq<Byte>>)
      requires Ok() && index < layout.poolSize && live[index]
      ensures r == InvalidNullPointer <==> size.None?
      ensures r == Unknown <==> size.Some? && 0 < size.value < layout.allocationSize && hasDestination
      ensures r == Success || r == Unknown || r == InvalidNullPointer
      ensures size.Some? ==>
                var all := layout.allocationSize;
                newSize == if size.value == 0 || size.value > all then all else size.value
      ensures data.Some? <==> r == Success && size.value != 0 && hasDestination
      ensures data.Some? ==> data.value == Data(layout, State(), index)
    {
      hide TableOffset, DataOffset, EntryOffset;
      newSize, data := 0, None;
      if size.None? { return InvalidNullPointer, newSize, data; }
      var dataSize := layout.allocationSize;
      newSize := size.value;
      if newSize == 0 {
        return Success, dataSize, data;
      } else if newSize > dataSize {
        newSize := dataSize;
      }
      if hasDestination {
        if dataSize > newSize { return Unknown, newSize, data; }
        SlotLayout(layout, index);
        var at := DataOffset(layout, index);
        data := Some(buffer[at..at + newSize]);
        assert buffer[at..at + newSize] == buffer[..][at..at + newSize];
      }
      r := Success;
    }

    /** The pool can be destroyed exactly when no query is left. */
    method DestroyPool() returns (r: ZeResult)
      ensures r == Success <==> forall i :: 0 <= i < |live| ==> !live[i]
      ensures r == Success || r == ObjectInUse
    {
      for i := 0 to |live|
        invariant forall j :: 0 <= j < i ==> !live[j]
      {
        if live[i] { return ObjectInUse; }
      }
      r := Success;
    }
  }

  /** The entry of a live query is where the device looks for its group, and holds the address of its data. */
  lemma EntryPointsAtData(l: Layout, vpuBase: nat, p: Pool, i: nat)
    requires Valid(l, vpuBase, p) && i < l.poolSize && p.live[i]
    ensures var at := TableOffset(l, i) + 8 * l.groupIndex;
            && at + 8 <= DataOffset(l, i) <= |p.bytes|
            && (l.allocationSize > 0 ==> FromLe(p.bytes[at..at + 8]) == vpuBase + DataOffset(l, i))
  {
    hide TableOffset, DataOffset, FromLe;
    SlotLayout(l, i);
    assert TableEntry(l, p, i) == Address(l, vpuBase, |p.bytes|, i);
  }

  lemma ValidSized(l: Layout, vpuBase: nat, p: Pool)
    requires Valid(l, vpuBase, p)
    ensures Sized(l, vpuBase, p)
  {
  }
}
