/**
 Two-dimensional copies, made row by row with 32-bit offsets
 (umd/level_zero_driver/source/cmdlist.cpp).
 */
module CopyRegion {
  import opened Bits
  import opened Jobs
  import opened CommandLists
  import opened DeviceMemory

  type U32 = n: nat | n < TWO_32

  datatype Region = Region(originX: U32, originY: U32, originZ: U32, width: U32, height: U32, depth: U32)

  // -------------------------------------------------------------------------------- offsets

  /** The offset of row y as the loop computes it, in 32 bits. */
  function RowOffset(x: U32, firstRow: U32, y: U32, pitch: U32): (o: U32)
  {
    (x + (firstRow + y) % TWO_32 * pitch % TWO_32) % TWO_32
  }

  function TrueOffset(x: nat, firstRow: nat, y: nat, pitch: nat): (o: nat)
  {
    x + (firstRow + y) * pitch
  }

  lemma TrueOffsetMono(x: nat, firstRow: nat, y: nat, y': nat, pitch: nat)
    requires y <= y'
    ensures TrueOffset(x, firstRow, y, pitch) <= TrueOffset(x, firstRow, y', pitch)
  {
    MulMono(firstRow + y, firstRow + y', pitch);
  }

  lemma RowOffsetIsMod(x: U32, firstRow: U32, y: U32, pitch: U32)
    ensures RowOffset(x, firstRow, y, pitch) == TrueOffset(x, firstRow, y, pitch) % TWO_32
  {
    var a, n := firstRow + y, TWO_32;
    var q, r := a / n, a % n;
    var u := r * pitch;
    MulRegroupMod(q, n, r, pitch);
    assert a * pitch == q * pitch * n + u;
    AddModMod(x, u, q * pitch, n);
  }

  lemma MulRegroupMod(q: nat, n: nat, r: nat, p: nat)
    ensures (q * n + r) * p == q * p * n + r * p
  {
  }

  lemma AddModMod(x: nat, u: nat, k: nat, n: nat)
    requires n > 0
    ensures (x + u % n) % n == (x + (k * n + u)) % n
  {
    var a := x + u % n;
    DivModUnique(x + (k * n + u), n, a / n + u / n + k, a % n);
  }

  /** Row offsets are exact for all rows exactly when the last one fits 32 bits. */
  lemma OffsetsExact(x: U32, firstRow: U32, height: U32, pitch: U32)
    ensures (forall y: U32 :: y < height ==> RowOffset(x, firstRow, y, pitch) == TrueOffset(x, firstRow, y, pitch))
            <==> (height > 0 ==> TrueOffset(x, firstRow, height - 1, pitch) < TWO_32)
  {
    hide RowOffset, TrueOffset;
    if height > 0 {
      var last: U32 := height - 1;
      if TrueOffset(x, firstRow, last, pitch) < TWO_32 {
        forall y: U32 | y < height ensures RowOffset(x, firstRow, y, pitch) == TrueOffset(x, firstRow, y, pitch) {
          TrueOffsetMono(x, firstRow, y, last, pitch);
          RowOffsetIsMod(x, firstRow, y, pitch);
        }
      } else {
        assert RowOffset(x, firstRow, last, pitch) != TrueOffset(x, firstRow, last, pitch);
      }
    }
  }

  /** Two rows, 2^31 bytes apart from row 1 on: the second one is taken at offset 0. */
  lemma RowWrapsToStart()
    ensures TrueOffset(0, 1, 1, 0x8000_0000) == TWO_32 && RowOffset(0, 1, 1, 0x8000_0000) == 0
    ensures RowOffset(0, 1, 0, 0x8000_0000) == TrueOffset(0, 1, 0, 0x8000_0000) == 0x8000_0000
  {
  }

  // ----------------------------------------------------------------------------- the row loop

  /** findBufferObject: the tracked buffer the pointer lies in. */
  function Find(tracked: seq<BufferObject>, ptr: nat): (bo: Option<BufferObject>)
    ensures bo.Some? ==> bo.value in tracked && InRange(bo.value, ptr) && ptr != 0
    ensures bo.None? && ptr != 0 ==> forall b :: b in tracked ==> !InRange(b, ptr)
  {
    if tracked == [] || ptr == 0 then None
    else if InRange(tracked[0], ptr) then Some(tracked[0])
    else Find(tracked[1..], ptr)
  }

  datatype Request = Request(dstptr: nat, dst: Option<Region>, dstPitch: U32, dstSlicePitch: U32,
                             srcptr: nat, src: Option<Region>, srcPitch: U32, srcSlicePitch: U32)

  /** The checks made before any row, in their order. */
  function Checked(q: Request): (r: ZeResult)
    ensures r == Success ==> q.dst.Some? && q.src.Some? && q.dst.value.height == q.src.value.height
  {
    if q.dstptr == 0 || q.srcptr == 0 || q.dst.None? || q.src.None? then InvalidNullPointer
    else
      var d, s := q.dst.value, q.src.value;
      if d.width != s.width || d.height != s.height || d.depth != s.depth then InvalidSize
      else if d.width == 0 || q.dstPitch < d.width then InvalidSize
      else if q.dstSlicePitch != 0 || q.srcSlicePitch != 0 then UnsupportedFeature
      else if d.depth != 1 then UnsupportedFeature
      else if d.originZ != 0 || s.originZ != 0 then UnsupportedFeature
      else Success
  }

  /** All pointers of the request are given. */
  predicate Given(q: Request)
  {
    q.dstptr != 0 && q.srcptr != 0 && q.dst.Some? && q.src.Some?
  }

  /** The regions have one size, which is not empty and fits the destination's pitch. */
  predicate SizesFit(q: Request)
    requires Given(q)
  {
    var d, s := q.dst.value, q.src.value;
    && d.width == s.width && d.height == s.height && d.depth == s.depth
    && 0 < d.width <= q.dstPitch
  }

  predicate TwoDimensional(q: Request)
    requires Given(q)
  {
    var d, s := q.dst.value, q.src.value;
    && q.dstSlicePitch == 0 && q.srcSlicePitch == 0
    && d.depth == 1 && s.depth == 1 && d.originZ == 0 && s.originZ == 0
  }

  /** Exactly when a request is accepted, and which error another one meets. */
  lemma CheckedExactly(q: Request)
    ensures Checked(q) == Success <==> Given(q) && SizesFit(q) && TwoDimensional(q)
    ensures Checked(q) == InvalidNullPointer <==> !Given(q)
    ensures Checked(q) == InvalidSize <==> Given(q) && !SizesFit(q)
    ensures Checked(q) == UnsupportedFeature <==> Given(q) && SizesFit(q) && !TwoDimensional(q)
  {
  }

  /** Packed rows are accepted: a pitch equal to the width. */
  lemma PackedAccepted(d: Region, s: Region, dstptr: nat, srcptr: nat, srcPitch: U32)
    requires dstptr != 0 && srcptr != 0 && d == s && 0 < d.width && d.depth == 1 && d.originZ == 0
    ensures Checked(Request(dstptr, Some(d), d.width, 0, srcptr, Some(s), srcPitch, 0)) == Success
  {
  }

  function RowItem(tracked: seq<BufferObject>, q: Request, y: U32): (i: Item)
    requires Checked(q) == Success
  {
    var src := q.srcptr + RowOffset(q.src.value.originX, q.src.value.originY, y, q.srcPitch);
    var dst := q.dstptr + RowOffset(q.dst.value.originX, q.dst.value.originY, y, q.dstPitch);
    CopyItem(Find(tracked, src), src, Find(tracked, dst), dst, q.dst.value.width)
  }

  /** One append per row, each with all the events. */
  function RowOps(tracked: seq<BufferObject>, q: Request, waits: Option<seq<EventArg>>, signal: Option<EventArg>):
    (ops: seq<Append>)
    requires Checked(q) == Success
  {
    seq(q.dst.value.height, y requires 0 <= y < q.dst.value.height => Append(waits, [RowItem(tracked, q, y)], signal))
  }

  method AppendMemoryCopyRegion(list: CommandList, tracked: seq<BufferObject>, q: Request,
                                waits: Option<seq<EventArg>>, signal: Option<EventArg>) returns (r: ZeResult)
    modifies list`vpuJob
    ensures Checked(q) != Success ==> list.State() == old(list.State()) && r == Checked(q)
    ensures Checked(q) == Success ==>
              (list.State(), r) == AppendEach(old(list.State()), RowOps(tracked, q, waits, signal))
  {
    hide AppendEach, RowOps;
    if q.dstptr == 0 || q.srcptr == 0 { return InvalidNullPointer; }
    if q.dst.None? || q.src.None? { return InvalidNullPointer; }
    var dst, src := q.dst.value, q.src.value;
    if dst.width != src.width || dst.height != src.height || dst.depth != src.depth { return InvalidSize; }
    if dst.width == 0 { return InvalidSize; }
    if q.dstPitch < dst.width { return InvalidSize; }
    if q.dstSlicePitch != 0 || q.srcSlicePitch != 0 { return UnsupportedFeature; }
    if dst.depth != 1 || src.depth != 1 { return UnsupportedFeature; }
    if dst.originZ != 0 || src.originZ != 0 { return UnsupportedFeature; }
    r := CopyRows(list, tracked, q, waits, signal);
  }

  /** The loop over the rows. */
  method CopyRows(list: CommandList, tracked: seq<BufferObject>, q: Request,
                  waits: Option<seq<EventArg>>, signal: Option<EventArg>) returns (r: ZeResult)
    requires Checked(q) == Success
    modifies list`vpuJob
    ensures (list.State(), r) == AppendEach(old(list.State()), RowOps(tracked, q, waits, signal))
  {
    hide RegularAppend, AppendEach, Checked, RowItem;
    ghost var ops := RowOps(tracked, q, waits, signal);
    r := Success;
    var y: U32 := 0;
    assert ops[0..] == ops;
    while y < q.dst.value.height
      invariant y <= q.dst.value.height && r == Success
      invariant AppendEach(old(list.State()), ops) == AppendEach(list.State(), ops[y..])
    {
      EachFrom(list.State(), ops, y);
      r := CopyRow(list, tracked, q, y, waits, signal);
      if r != Success { break; }
      y := y + 1;
    }
    EachNone(list.State(), ops);
  }

  /** One round: the row's offsets, buffers, copy command and append. */
  method CopyRow(list: CommandList, tracked: seq<BufferObject>, q: Request, y: U32,
                 waits: Option<seq<EventArg>>, signal: Option<EventArg>) returns (r: ZeResult)
    requires Checked(q) == Success
    modifies list`vpuJob
    ensures (list.State(), r) == RegularAppend(old(list.State()), Append(waits, [RowItem(tracked, q, y)], signal))
  {
    hide RegularAppend, RowOffset, Find, Checked, CopyItem;
    var dst, src := q.dst.value, q.src.value;
    var srcOffset := RowOffset(src.originX, src.originY, y, q.srcPitch);
    var dstOffset := RowOffset(dst.originX, dst.originY, y, q.dstPitch);
    var srcBo, dstBo := Find(tracked, q.srcptr + srcOffset), Find(tracked, q.dstptr + dstOffset);
    var row, _ := CreateCopy(srcBo, q.srcptr + srcOffset, dstBo, q.dstptr + dstOffset, dst.width);
    r := list.AppendWithEvents(Append(waits, [row], signal));
  }

  lemma EachFrom(s: ListState, ops: seq<Append>, y: nat)
    requires y < |ops|
    ensures AppendEach(s, ops[y..]) ==
            var first := RegularAppend(s, ops[y]);
            if first.1 != Success then first else AppendEach(first.0, ops[y + 1..])
  {
    hide RegularAppend;
    assert ops[y..][0] == ops[y] && ops[y..][1..] == ops[y + 1..];
  }

  lemma EachNone(s: ListState, ops: seq<Append>)
    ensures AppendEach(s, ops[|ops|..]) == (s, Success)
  {
  }

  // ------------------------------------------------------------------------------- meaning

  /** A rectangle in device memory: height rows of width bytes, pitch bytes apart. */
  datatype Rect = Rect(start: nat, pitch: nat, width: nat, height: nat)

  predicate InRect(r: Rect, a: nat)
  {
    a >= r.start && r.pitch > 0 && (a - r.start) / r.pitch < r.height && (a - r.start) % r.pitch < r.width
  }

  /** The byte of s at the place of address a in d. */
  function SameSpot(d: Rect, s: Rect, a: nat): (b: nat)
    requires InRect(d, a)
  {
    s.start + (a - d.start) / d.pitch * s.pitch + (a - d.start) % d.pitch
  }

  /** The meaning of the copy: the destination rectangle gets the source rectangle, all else stays. */
  function RectCopied(mem: Memory, d: Rect, s: Rect): (mem': Memory)
    ensures |mem'| == |mem|
  {
    seq(|mem|, a requires 0 <= a < |mem| =>
      if InRect(d, a) && SameSpot(d, s, a) < |mem| then mem[SameSpot(d, s, a)] else mem[a])
  }

  /** Row y as a copy of its own. */
  function RowCopy(d: Rect, s: Rect, y: nat): (c: Kind)
  {
    Copy(s.start + y * s.pitch, d.start + y * d.pitch, d.width)
  }

  /** Rows do not overlap because the pitch is at least the width. */
  lemma RowTouches(d: Rect, s: Rect, y: nat, a: nat)
    requires d.width <= d.pitch && y < d.height && Touches(RowCopy(d, s, y), a)
    ensures d.start <= a && InRect(d, a) && (a - d.start) / d.pitch == y
    ensures var c := RowCopy(d, s, y); c.src + (a - c.dst) == SameSpot(d, s, a)
  {
    MulMono(0, y, d.pitch);
    DivModUnique(a - d.start, d.pitch, y, a - d.start - y * d.pitch);
  }

  lemma RowFor(d: Rect, s: Rect, a: nat) returns (y: nat)
    requires InRect(d, a)
    ensures y < d.height && Touches(RowCopy(d, s, y), a)
  {
    y := (a - d.start) / d.pitch;
    assert a - d.start == y * d.pitch + (a - d.start) % d.pitch;
  }

  /** The source rectangle is memory the copy does not write. */
  ghost predicate Apart(d: Rect, s: Rect)
  {
    forall a: nat :: InRect(d, a) ==> !InRect(d, SameSpot(d, s, a))
  }

  /** Commands whose only memory commands are the rows of the rectangle. */
  ghost predicate RowsOnly(cmds: seq<Kind>, d: Rect, s: Rect)
  {
    && (forall c, a: nat :: c in cmds && Touches(c, a) ==> IsRow(c, d, s))
    && (forall y: nat :: y < d.height ==> RowCopy(d, s, y) in cmds)
  }

  ghost predicate IsRow(c: Kind, d: Rect, s: Rect)
  {
    exists y: nat :: y < d.height && c == RowCopy(d, s, y)
  }

  lemma RowsAgree(cmds: seq<Kind>, d: Rect, s: Rect, mem: Memory)
    requires RowsOnly(cmds, d, s) && d.width <= d.pitch && Apart(d, s)
    ensures Independent(cmds) && Agreed(mem, cmds, RectCopied(mem, d, s))
  {
    hide InRect, SameSpot, RowCopy;
    forall a: nat ensures Touched(cmds, a) <==> InRect(d, a) {
      TouchedIsRect(cmds, d, s, a);
    }
    forall c, a: nat | c in cmds && Touches(c, a)
      ensures c.Copy? && InRect(d, a) && c.src + (a - c.dst) == SameSpot(d, s, a)
    {
      assert IsRow(c, d, s);
      var y: nat :| y < d.height && c == RowCopy(d, s, y);
      RowTouches(d, s, y, a);
      RowIsCopy(d, s, y);
    }
  }

  lemma RowIsCopy(d: Rect, s: Rect, y: nat)
    ensures RowCopy(d, s, y).Copy?
  {
  }

  lemma TouchedIsRect(cmds: seq<Kind>, d: Rect, s: Rect, a: nat)
    requires RowsOnly(cmds, d, s) && d.width <= d.pitch
    ensures Touched(cmds, a) <==> InRect(d, a)
  {
    hide InRect, SameSpot, RowCopy, Touches;
    if Touched(cmds, a) {
      var c :| c in cmds && Touches(c, a);
      assert IsRow(c, d, s);
      var y: nat :| y < d.height && c == RowCopy(d, s, y);
      RowTouches(d, s, y, a);
    }
    if InRect(d, a) {
      var y := RowFor(d, s, a);
      assert RowCopy(d, s, y) in cmds;
    }
  }

  /** The rectangles of a request whose rows lie in one buffer each. */
  function DstRect(q: Request, bo: BufferObject): (r: Rect)
    requires Checked(q) == Success
  {
    var d := q.dst.value;
    Rect(VpuAddr(bo, q.dstptr + TrueOffset(d.originX, d.originY, 0, q.dstPitch)), q.dstPitch, d.width, d.height)
  }

  function SrcRect(q: Request, bo: BufferObject): (r: Rect)
    requires Checked(q) == Success
  {
    var s := q.src.value;
    Rect(VpuAddr(bo, q.srcptr + TrueOffset(s.originX, s.originY, 0, q.srcPitch)), q.srcPitch, s.width, s.height)
  }

  /** Where the rectangles lie: at the device addresses of the regions' first bytes. */
  lemma RectanglesAre(q: Request, dBo: BufferObject, sBo: BufferObject)
    requires Checked(q) == Success
    ensures var d, s := q.dst.value, q.src.value;
            var dstAt := q.dstptr + d.originX + d.originY * q.dstPitch;
            var srcAt := q.srcptr + s.originX + s.originY * q.srcPitch;
            && (dBo.base <= dstAt < dBo.base + dBo.allocSize ==>
                  DstRect(q, dBo) == Rect(dBo.vpuBase + (dstAt - dBo.base), q.dstPitch, d.width, d.height))
            && (sBo.base <= srcAt < sBo.base + sBo.allocSize ==>
                  SrcRect(q, sBo) == Rect(sBo.vpuBase + (srcAt - sBo.base), q.srcPitch, d.width, d.height))
  {
    assert (q.dst.value.originY + 0) * q.dstPitch == q.dst.value.originY * q.dstPitch;
    assert (q.src.value.originY + 0) * q.srcPitch == q.src.value.originY * q.srcPitch;
  }

  /** All rows of a region start in the given buffer, and their offsets fit 32 bits. */
  ghost predicate Placed(tracked: seq<BufferObject>, bo: BufferObject, ptr: nat, r: Region, pitch: U32)
  {
    && (r.height > 0 ==> TrueOffset(r.originX, r.originY, r.height - 1, pitch) < TWO_32)
    && forall y: nat :: y < r.height ==> Find(tracked, ptr + TrueOffset(r.originX, r.originY, y, pitch)) == Some(bo)
  }

  lemma RowAddress(tracked: seq<BufferObject>, bo: BufferObject, ptr: nat, r: Region, pitch: U32, y: U32)
    requires Placed(tracked, bo, ptr, r, pitch) && y < r.height
    ensures RowOffset(r.originX, r.originY, y, pitch) == TrueOffset(r.originX, r.originY, y, pitch)
    ensures VpuAddr(bo, ptr + TrueOffset(r.originX, r.originY, y, pitch))
         == VpuAddr(bo, ptr + TrueOffset(r.originX, r.originY, 0, pitch)) + y * pitch
    ensures Find(tracked, ptr + TrueOffset(r.originX, r.originY, y, pitch)) == Some(bo)
  {
    hide RowOffset;
    OffsetsExact(r.originX, r.originY, r.height, pitch);
    assert Find(tracked, ptr + TrueOffset(r.originX, r.originY, 0, pitch)) == Some(bo);
    assert (r.originY + y) * pitch == (r.originY + 0) * pitch + y * pitch;
  }

  lemma RowItemIs(tracked: seq<BufferObject>, q: Request, dBo: BufferObject, sBo: BufferObject, y: U32)
    requires Checked(q) == Success && y < q.dst.value.height
    requires Placed(tracked, dBo, q.dstptr, q.dst.value, q.dstPitch)
    requires Placed(tracked, sBo, q.srcptr, q.src.value, q.srcPitch)
    ensures var row := Command(RowCopy(DstRect(q, dBo), SrcRect(q, sBo), y), COPY_COMMAND_SIZE);
            RowItem(tracked, q, y).Item? ==> RowItem(tracked, q, y).cmd == row
  {
    hide RowOffset, TrueOffset, Placed, Find, VpuAddr, InRange;
    RowAddress(tracked, dBo, q.dstptr, q.dst.value, q.dstPitch, y);
    RowAddress(tracked, sBo, q.srcptr, q.src.value, q.srcPitch, y);
  }

  /** Every op appends one command between the same events. */
  ghost predicate Uniform(ops: seq<Append>, waits: Option<seq<EventArg>>, signal: Option<EventArg>, cs: seq<Command>)
  {
    && |cs| == |ops|
    && forall i :: 0 <= i < |ops| ==> cs[i].commitSize > 0 && ops[i] == Append(waits, [Item(cs[i])], signal)
  }

  /** Repeated events aside, the ops contribute exactly their commands. */
  lemma {:induction false} UniformContributions(ops: seq<Append>, waits: Option<seq<EventArg>>,
                                                signal: Option<EventArg>, cs: seq<Command>)
    requires Uniform(ops, waits, signal, cs) && AllIntact(ops)
    ensures forall i :: 0 <= i < |cs| ==> cs[i] in Contributions(ops)
    ensures forall c :: c in Contributions(ops) ==> c in cs || c.kind.EventWait? || c.kind.EventSignal?
    decreases |ops|
  {
    hide Effective, Intact, Items, NoMemory;
    if ops != [] {
      assert Intact(Items(ops[0]));
      OneCommandLayout(Item(cs[0]), waits, signal);
      EventsOnly(waits, signal);
      assert forall i :: 0 <= i < |ops[1..]| ==> ops[1..][i] == ops[i + 1];
      UniformContributions(ops[1..], waits, signal, cs[1..]);
    }
  }

  lemma EventsOnly(waits: Option<seq<EventArg>>, signal: Option<EventArg>)
    ensures forall c :: c in Effective(WaitItems(waits)) || c in Effective(EventItems(signal)) ==>
                          c.kind.EventWait? || c.kind.EventSignal?
  {
    hide Effective;
    EventsTouchNothing(WaitItems(waits));
    EventsTouchNothing(EventItems(signal));
  }

  /** The row commands of a request. */
  ghost function RowCommands(d: Rect, s: Rect): (cs: seq<Command>)
  {
    seq(d.height, y requires 0 <= y < d.height => Command(RowCopy(d, s, y), COPY_COMMAND_SIZE))
  }

  lemma RowOpsUniform(tracked: seq<BufferObject>, q: Request, dBo: BufferObject, sBo: BufferObject,
                      waits: Option<seq<EventArg>>, signal: Option<EventArg>)
    requires Checked(q) == Success && AllIntact(RowOps(tracked, q, waits, signal))
    requires Placed(tracked, dBo, q.dstptr, q.dst.value, q.dstPitch)
    requires Placed(tracked, sBo, q.srcptr, q.src.value, q.srcPitch)
    ensures Uniform(RowOps(tracked, q, waits, signal), waits, signal, RowCommands(DstRect(q, dBo), SrcRect(q, sBo)))
  {
    hide Placed, RowItem, RowCopy, DstRect, SrcRect;
    var ops := RowOps(tracked, q, waits, signal);
    HeightOf(q, dBo);
    forall y | 0 <= y < |ops|
      ensures var row := Command(RowCopy(DstRect(q, dBo), SrcRect(q, sBo), y), COPY_COMMAND_SIZE);
              ops[y] == Append(waits, [Item(row)], signal)
    {
      assert Intact(Items(ops[y]));
      MiddleIntact(RowItem(tracked, q, y), waits, signal);
      RowItemIs(tracked, q, dBo, sBo, y);
    }
  }

  lemma HeightOf(q: Request, bo: BufferObject)
    requires Checked(q) == Success
    ensures DstRect(q, bo).height == q.dst.value.height && DstRect(q, bo).width <= DstRect(q, bo).pitch
  {
  }

  lemma MiddleIntact(item: Item, waits: Option<seq<EventArg>>, signal: Option<EventArg>)
    requires Intact(Items(Append(waits, [item], signal)))
    ensures item.Item?
  {
    assert Items(Append(waits, [item], signal))[|WaitItems(waits)|] == item;
  }

  lemma RowsFromContributions(cs: seq<Command>, d: Rect, s: Rect)
    requires forall y: nat :: y < d.height ==> RowCommands(d, s)[y] in cs
    requires forall c :: c in cs ==> c in RowCommands(d, s) || c.kind.EventWait? || c.kind.EventSignal?
    ensures RowsOnly(Kinds(cs), d, s)
  {
    hide RowCopy;
    forall k, a: nat | k in Kinds(cs) && Touches(k, a) ensures IsRow(k, d, s) {
      var i := KindIn(cs, k);
      assert cs[i] in cs;
    }
    forall y: nat | y < d.height ensures RowCopy(d, s, y) in Kinds(cs) {
      var i :| 0 <= i < |cs| && cs[i] == RowCommands(d, s)[y];
      assert Kinds(cs)[i] == RowCopy(d, s, y);
    }
  }

  /**
   A region copy that was appended: in whatever order the device works, the destination
   rectangle receives the source rectangle and nothing else changes, provided the row
   offsets fit 32 bits and the two rectangles are apart.
   */
  lemma RegionMeaning(st: ListState, tracked: seq<BufferObject>, q: Request, dBo: BufferObject, sBo: BufferObject,
                      waits: Option<seq<EventArg>>, signal: Option<EventArg>, mem: Memory, mvs: seq<Move>)
    requires Open(st.job) && Checked(q) == Success
    requires Placed(tracked, dBo, q.dstptr, q.dst.value, q.dstPitch)
    requires Placed(tracked, sBo, q.srcptr, q.src.value, q.srcPitch)
    requires Apart(DstRect(q, dBo), SrcRect(q, sBo))
    requires AppendEach(st, RowOps(tracked, q, waits, signal)).1 == Success
    ensures var t := AppendEach(st, RowOps(tracked, q, waits, signal)).0;
            && st.job.commands <= t.job.commands
            && (Carries(mvs, Expand(Kinds(t.job.commands[|st.job.commands|..]))) ==>
                  DoAll(mem, mvs) == RectCopied(mem, DstRect(q, dBo), SrcRect(q, sBo)))
  {
    hide AppendEach, AllIntact, Placed, Apart, Contributions, Carries, Expand, Kinds, DoAll, RectCopied, RowsOnly,
      RowOps, Uniform, RowCommands, Open, DstRect, SrcRect, Independent, Agreed;
    var ops, d, s := RowOps(tracked, q, waits, signal), DstRect(q, dBo), SrcRect(q, sBo);
    var t := AppendEach(st, ops).0;
    AppendEachSpec(st, ops);
    var added := Contributions(ops);
    assert t.job.commands[|st.job.commands|..] == added;
    RowsOfRequest(tracked, q, dBo, sBo, waits, signal);
    HeightOf(q, dBo);
    RowsAgree(Kinds(added), d, s, mem);
    if Carries(mvs, Expand(Kinds(added))) {
      DescriptorsInAnyOrder(mem, Kinds(added), RectCopied(mem, d, s), mvs);
    }
  }

  lemma RowsOfRequest(tracked: seq<BufferObject>, q: Request, dBo: BufferObject, sBo: BufferObject,
                      waits: Option<seq<EventArg>>, signal: Option<EventArg>)
    requires Checked(q) == Success && AllIntact(RowOps(tracked, q, waits, signal))
    requires Placed(tracked, dBo, q.dstptr, q.dst.value, q.dstPitch)
    requires Placed(tracked, sBo, q.srcptr, q.src.value, q.srcPitch)
    ensures RowsOnly(Kinds(Contributions(RowOps(tracked, q, waits, signal))), DstRect(q, dBo), SrcRect(q, sBo))
  {
    hide AllIntact, Placed, Contributions, Kinds, RowsOnly, RowOps, DstRect, SrcRect, RowCopy;
    var ops, d, s := RowOps(tracked, q, waits, signal), DstRect(q, dBo), SrcRect(q, sBo);
    RowOpsUniform(tracked, q, dBo, sBo, waits, signal);
    UniformContributions(ops, waits, signal, RowCommands(d, s));
    RowsFromContributions(Contributions(ops), d, s);
  }
}
