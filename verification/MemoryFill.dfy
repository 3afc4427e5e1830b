/**
 Filling memory with a pattern (umd/level_zero_driver/source/cmdlist.cpp): a run of fill
 commands of at most 8 MB each, or one copy from a buffer that repeats the pattern
 (umd/vpu_driver/source/memory/vpu_buffer_object.cpp).
 */
module MemoryFill {
  import opened Bits
  import opened Jobs
  import opened CommandLists
  import opened DeviceMemory

  predicate PatternSize(n: nat)
  {
    n == 1 || n == 2 || n == 4
  }

  // --------------------------------------------------------------------- the 32-bit pattern

  /** The word given to the device, by pattern size. */
  function FillWord(pattern: seq<Byte>): (w: nat)
    requires PatternSize(|pattern|)
  {
    if |pattern| == 4 then FromLe(pattern)
    else if |pattern| == 2 then
      var w := FromLe(pattern);
      Or(w, Low(Shl(w, 16), 32))
    else FromLe(pattern + pattern + pattern + pattern)
  }

  lemma {:induction false} WordByteOfLe(s: seq<Byte>, i: nat)
    requires i < |s|
    ensures WordByte(FromLe(s), i) == s[i]
    decreases i
  {
    if i > 0 {
      WordByteOfLe(s[1..], i - 1);
    }
  }

  lemma WordOfTwo(pattern: seq<Byte>)
    requires |pattern| == 2
    ensures FillWord(pattern) == FromLe(pattern + pattern)
  {
    hide FromLe, Or, Low, Shl, Pow2;
    var w, k := FromLe(pattern), 16;
    FromLeBound(pattern);
    ShlIsMul(w, k);
    Pow2Add(k, k);
    MulBound(w, Pow2(k), Pow2(k), 0);
    LowOfSmall(Shl(w, k), k + k);
    OrDisjoint(w, w, k);
    FromLeSplit(pattern, pattern);
  }

  /** The word repeats the pattern: byte i of it is byte i mod size of the pattern. */
  lemma WordRepeats(pattern: seq<Byte>, i: nat)
    requires PatternSize(|pattern|) && i < 4
    ensures WordByte(FillWord(pattern), i) == pattern[i % |pattern|]
  {
    hide FromLe, WordByte;
    if |pattern| == 4 {
      WordByteOfLe(pattern, i);
    } else if |pattern| == 2 {
      WordOfTwo(pattern);
      WordByteOfTwo(pattern, i);
    } else {
      WordByteOfLe(pattern + pattern + pattern + pattern, i);
    }
  }

  lemma WordByteOfTwo(pattern: seq<Byte>, i: nat)
    requires |pattern| == 2 && i < 4
    ensures WordByte(FromLe(pattern + pattern), i) == pattern[i % 2]
  {
    WordByteOfLe(pattern + pattern, i);
  }

  // ------------------------------------------------------------------------ the fill commands

  const FILL_COMMAND_SIZE := 32

  function FillItem(bo: BufferObject, ptr: nat, size: nat, word: nat): (i: Item)
    requires size > 0
  {
    if InRange(bo, ptr) && InRange(bo, ptr + size - 1)
    then Item(Command(Fill(VpuAddr(bo, ptr), size, word), FILL_COMMAND_SIZE))
    else Broken(Uninitialized)
  }

  function ChunkSize(left: nat): (n: nat)
  {
    if left < SIZE_LIMIT then left else SIZE_LIMIT
  }

  /** The next append of a fill with left bytes to go: the signal belongs to the last chunk. */
  function FillOp(bo: BufferObject, ptr: nat, word: nat, waits: Option<seq<EventArg>>, signal: Option<EventArg>,
                  offset: nat, left: nat): (op: Append)
    requires left > 0
  {
    Append(waits, [FillItem(bo, ptr + offset, ChunkSize(left), word)], if left <= SIZE_LIMIT then signal else None)
  }

  /** The appends of a fill from a given offset on; the waits belong to the first chunk. */
  function FillOps(bo: BufferObject, ptr: nat, word: nat, waits: Option<seq<EventArg>>, signal: Option<EventArg>,
                   offset: nat, left: nat): (ops: seq<Append>)
    decreases left
  {
    if left == 0 then []
    else
      [FillOp(bo, ptr, word, waits, signal, offset, left)]
      + FillOps(bo, ptr, word, Some([]), signal, offset + ChunkSize(left), left - ChunkSize(left))
  }

  /** appendMemoryFillCmd; bo is the buffer found for ptr. */
  method AppendMemoryFillCmd(list: CommandList, ptr: nat, bo: Option<BufferObject>, pattern: seq<Byte>, size: nat,
                             waits: Option<seq<EventArg>>, signal: Option<EventArg>) returns (r: ZeResult)
    modifies list`vpuJob
    ensures !(|pattern| == 1 || |pattern| == 2 || |pattern| == 4) ==>
              list.State() == old(list.State()) && r == InvalidSize
    ensures PatternSize(|pattern|) <==> |pattern| == 1 || |pattern| == 2 || |pattern| == 4
    ensures PatternSize(|pattern|) && bo.None? ==> list.State() == old(list.State()) && r == OutOfDeviceMemory
    ensures PatternSize(|pattern|) && bo.Some? ==>
              (list.State(), r) ==
              AppendEach(old(list.State()), FillOps(bo.value, ptr, FillWord(pattern), waits, signal, 0, size))
  {
    hide RegularAppend, FillWord, AppendEach, FillOps, FillItem;
    if !PatternSize(|pattern|) { return InvalidSize; }
    var word := FillWord(pattern);
    if bo.None? { return OutOfDeviceMemory; }
    var sizeLeft: nat, offset: nat, w := size, 0, waits;
    r := Success;
    while sizeLeft > 0
      invariant r == Success
      invariant AppendEach(old(list.State()), FillOps(bo.value, ptr, word, waits, signal, 0, size))
             == AppendEach(list.State(), FillOps(bo.value, ptr, word, w, signal, offset, sizeLeft))
    {
      var fillSize := if sizeLeft < SIZE_LIMIT then sizeLeft else SIZE_LIMIT;
      ghost var before := list.State();
      var op := Append(w, [FillItem(bo.value, ptr + offset, fillSize, word)],
                       if sizeLeft <= SIZE_LIMIT then signal else None);
      r := list.AppendWithEvents(op);
      FirstOfEach(before, bo.value, ptr, word, w, signal, offset, sizeLeft);
      if r != Success { break; }
      sizeLeft, offset, w := sizeLeft - fillSize, offset + fillSize, Some([]);
    }
    NothingLeft(list.State(), bo.value, ptr, word, w, signal, offset);
  }

  lemma NothingLeft(s: ListState, bo: BufferObject, ptr: nat, word: nat, waits: Option<seq<EventArg>>,
                    signal: Option<EventArg>, offset: nat)
    ensures AppendEach(s, FillOps(bo, ptr, word, waits, signal, offset, 0)) == (s, Success)
  {
  }

  lemma FirstOfEach(s: ListState, bo: BufferObject, ptr: nat, word: nat, waits: Option<seq<EventArg>>,
                    signal: Option<EventArg>, offset: nat, left: nat)
    requires left > 0
    ensures var first := RegularAppend(s, FillOp(bo, ptr, word, waits, signal, offset, left));
            var n := ChunkSize(left);
            AppendEach(s, FillOps(bo, ptr, word, waits, signal, offset, left)) ==
            if first.1 != Success then first
            else AppendEach(first.0, FillOps(bo, ptr, word, Some([]), signal, offset + n, left - n))
  {
    hide RegularAppend, FillItem;
  }

  // ------------------------------------------------------------------------------- layout

  /** The fill commands alone. */
  function FillCommands(bo: BufferObject, ptr: nat, word: nat, ps: seq<Piece>): (cs: seq<Command>)
  {
    seq(|ps|, i requires 0 <= i < |ps| =>
      Command(Fill(VpuAddr(bo, ptr + ps[i].offset), ps[i].size, word), FILL_COMMAND_SIZE))
  }

  ghost predicate Whole(bo: BufferObject, ptr: nat, offset: nat, left: nat)
  {
    left > 0 ==> InRange(bo, ptr + offset) && InRange(bo, ptr + offset + left - 1)
  }

  lemma OneItem(bo: BufferObject, ptr: nat, word: nat, waits: Option<seq<EventArg>>, signal: Option<EventArg>,
                piece: Piece)
    requires piece.size > 0
    ensures var items := Items(Append(waits, [FillItem(bo, ptr + piece.offset, piece.size, word)], signal));
            && (Intact(items) <==> Intact(WaitItems(waits)) && Intact(EventItems(signal))
                                   && Whole(bo, ptr, piece.offset, piece.size))
            && (Intact(items) ==>
                  Effective(items) ==
                  Effective(WaitItems(waits)) + FillCommands(bo, ptr, word, [piece]) + Effective(EventItems(signal)))
  {
    hide Effective, Intact;
    var w, m, e := WaitItems(waits), [FillItem(bo, ptr + piece.offset, piece.size, word)], EventItems(signal);
    IntactConcat(w, m);
    IntactConcat(w + m, e);
    EffectiveConcat(w, m);
    EffectiveConcat(w + m, e);
    if m[0].Item? {
      assert FillCommands(bo, ptr, word, [piece]) == [m[0].cmd];
    }
    OneEffective(m[0]);
    assert m == [m[0]];
  }

  /**
   The chunks of a fill: all can be appended exactly when the events are good and the range
   lies in the buffer; they contribute the waits, the chunks in order, the signal.
   */
  lemma {:induction false} FillOpsSpec(bo: BufferObject, ptr: nat, word: nat, waits: Option<seq<EventArg>>,
                                       signal: Option<EventArg>, offset: nat, left: nat)
    requires left > 0
    ensures var ops := FillOps(bo, ptr, word, waits, signal, offset, left);
            && (AllIntact(ops) <==>
                  Intact(WaitItems(waits)) && Intact(EventItems(signal)) && Whole(bo, ptr, offset, left))
            && (AllIntact(ops) ==> Contributions(ops) == Effective(WaitItems(waits))
                                   + FillCommands(bo, ptr, word, Pieces(offset, left)) + Effective(EventItems(signal)))
    decreases left
  {
    hide AllIntact, Intact, Effective, Contributions, Whole, FillOps, FillCommands, Pieces, WaitItems, EventItems;
    if left <= SIZE_LIMIT {
      FillOpsLast(bo, ptr, word, waits, signal, offset, left);
    } else {
      FillOpsSpec(bo, ptr, word, Some([]), signal, offset + SIZE_LIMIT, left - SIZE_LIMIT);
      FillOpsStep(bo, ptr, word, waits, signal, offset, left);
    }
  }

  lemma FillOpsLast(bo: BufferObject, ptr: nat, word: nat, waits: Option<seq<EventArg>>, signal: Option<EventArg>,
                    offset: nat, left: nat)
    requires 0 < left <= SIZE_LIMIT
    ensures var ops := FillOps(bo, ptr, word, waits, signal, offset, left);
            && (AllIntact(ops) <==>
                  Intact(WaitItems(waits)) && Intact(EventItems(signal)) && Whole(bo, ptr, offset, left))
            && (AllIntact(ops) ==> Contributions(ops) == Effective(WaitItems(waits))
                                   + FillCommands(bo, ptr, word, Pieces(offset, left)) + Effective(EventItems(signal)))
  {
    hide Intact, Effective, Items, AllIntact, FillItem, Whole, EventItems, WaitItems, FillCommands;
    var op := FillOp(bo, ptr, word, waits, signal, offset, left);
    OneItem(bo, ptr, word, waits, signal, Piece(offset, left));
    AllIntactCons(op, []);
    NoneIntact();
    assert FillOps(bo, ptr, word, waits, signal, offset, left) == [op] + [];
    assert ([op] + [])[1..] == [];
  }

  lemma FillOpsStep(bo: BufferObject, ptr: nat, word: nat, waits: Option<seq<EventArg>>, signal: Option<EventArg>,
                    offset: nat, left: nat)
    requires left > SIZE_LIMIT
    requires var rest := FillOps(bo, ptr, word, Some([]), signal, offset + SIZE_LIMIT, left - SIZE_LIMIT);
             && (AllIntact(rest) <==> Intact(WaitItems(Some([]))) && Intact(EventItems(signal))
                                      && Whole(bo, ptr, offset + SIZE_LIMIT, left - SIZE_LIMIT))
             && (AllIntact(rest) ==> Contributions(rest) == Effective(WaitItems(Some([])))
                                     + FillCommands(bo, ptr, word, Pieces(offset + SIZE_LIMIT, left - SIZE_LIMIT))
                                     + Effective(EventItems(signal)))
    ensures var ops := FillOps(bo, ptr, word, waits, signal, offset, left);
            && (AllIntact(ops) <==>
                  Intact(WaitItems(waits)) && Intact(EventItems(signal)) && Whole(bo, ptr, offset, left))
            && (AllIntact(ops) ==> Contributions(ops) == Effective(WaitItems(waits))
                                   + FillCommands(bo, ptr, word, Pieces(offset, left)) + Effective(EventItems(signal)))
  {
    hide Intact, Effective, Items, AllIntact, FillItem, EventItems, WaitItems, FillCommands, FillOps, Contributions,
      Pieces, Whole;
    var op := FillOp(bo, ptr, word, waits, signal, offset, left);
    var rest := FillOps(bo, ptr, word, Some([]), signal, offset + SIZE_LIMIT, left - SIZE_LIMIT);
    var first, others := Piece(offset, SIZE_LIMIT), Pieces(offset + SIZE_LIMIT, left - SIZE_LIMIT);
    FirstOp(bo, ptr, word, waits, signal, offset, left);
    WholeStep(bo, ptr, offset, left);
    OneItem(bo, ptr, word, waits, None, first);
    AllIntactCons(op, rest);
    NoEvents();
    CommandsOfBoth(bo, ptr, word, [first], others);
    Joined(Effective(WaitItems(waits)), FillCommands(bo, ptr, word, [first]), FillCommands(bo, ptr, word, others),
           Effective(EventItems(signal)));
  }

  lemma FirstOp(bo: BufferObject, ptr: nat, word: nat, waits: Option<seq<EventArg>>, signal: Option<EventArg>,
                offset: nat, left: nat)
    requires left > SIZE_LIMIT
    ensures var op := FillOp(bo, ptr, word, waits, signal, offset, left);
            var rest := FillOps(bo, ptr, word, Some([]), signal, offset + SIZE_LIMIT, left - SIZE_LIMIT);
            && FillOps(bo, ptr, word, waits, signal, offset, left) == [op] + rest
            && Contributions([op] + rest) == Effective(Items(op)) + Contributions(rest)
            && Pieces(offset, left) == [Piece(offset, SIZE_LIMIT)] + Pieces(offset + SIZE_LIMIT, left - SIZE_LIMIT)
  {
    hide Effective, Items, FillOp;
    var op := FillOp(bo, ptr, word, waits, signal, offset, left);
    var rest := FillOps(bo, ptr, word, Some([]), signal, offset + SIZE_LIMIT, left - SIZE_LIMIT);
    assert ([op] + rest)[1..] == rest;
  }

  lemma WholeStep(bo: BufferObject, ptr: nat, offset: nat, left: nat)
    requires left > SIZE_LIMIT
    ensures Whole(bo, ptr, offset, left) <==>
            Whole(bo, ptr, offset, SIZE_LIMIT) && Whole(bo, ptr, offset + SIZE_LIMIT, left - SIZE_LIMIT)
  {
  }

  lemma Joined(w: seq<Command>, a: seq<Command>, b: seq<Command>, e: seq<Command>)
    ensures (w + a + []) + ([] + b + e) == w + (a + b) + e
  {
  }

  lemma CommandsOfBoth(bo: BufferObject, ptr: nat, word: nat, a: seq<Piece>, b: seq<Piece>)
    ensures FillCommands(bo, ptr, word, a + b) == FillCommands(bo, ptr, word, a) + FillCommands(bo, ptr, word, b)
  {
  }

  lemma NoneIntact()
    ensures AllIntact([])
  {
  }

  lemma NoEvents()
    ensures WaitItems(Some([])) == [] && EventItems(None) == []
    ensures Intact([]) && Effective([]) == []
  {
  }

  /** A fill on an open list succeeds exactly for size zero, or good events and a range inside the buffer. */
  lemma FillSucceeds(s: ListState, bo: BufferObject, ptr: nat, word: nat, waits: Option<seq<EventArg>>,
                     signal: Option<EventArg>, size: nat)
    requires Open(s.job)
    ensures AppendEach(s, FillOps(bo, ptr, word, waits, signal, 0, size)).1 == Success <==>
            size == 0 || (&& Intact(WaitItems(waits)) && Intact(EventItems(signal))
                          && bo.base <= ptr && ptr + size <= bo.base + bo.allocSize)
  {
    hide Intact, FillOps, WaitItems, EventItems, AppendEach, AllIntact, Open;
    if size == 0 {
      NothingLeft(s, bo, ptr, word, waits, signal, 0);
    } else {
      FillOpsSpec(bo, ptr, word, waits, signal, 0, size);
      AppendEachSpec(s, FillOps(bo, ptr, word, waits, signal, 0, size));
    }
  }

  /** What a successful fill adds: the waits, the chunks in order, the signal. */
  lemma FillLayout(s: ListState, bo: BufferObject, ptr: nat, word: nat, waits: Option<seq<EventArg>>,
                   signal: Option<EventArg>, size: nat)
    requires Open(s.job) && size > 0
    requires AppendEach(s, FillOps(bo, ptr, word, waits, signal, 0, size)).1 == Success
    ensures Whole(bo, ptr, 0, size)
    ensures forall i :: 0 <= i < |Pieces(0, size)| ==> 0 < Pieces(0, size)[i].size <= 8 * 1024 * 1024
    ensures AppendEach(s, FillOps(bo, ptr, word, waits, signal, 0, size)).0.job.commands ==
            s.job.commands + (Effective(WaitItems(waits)) + FillCommands(bo, ptr, word, Pieces(0, size))
                              + Effective(EventItems(signal)))
  {
    hide Intact, FillOps, WaitItems, EventItems, AppendEach, AllIntact, Open, Effective, Pieces, FillCommands, Whole,
      Contributions;
    FillOpsSpec(bo, ptr, word, waits, signal, 0, size);
    AppendEachSpec(s, FillOps(bo, ptr, word, waits, signal, 0, size));
    forall i | 0 <= i < |Pieces(0, size)| ensures 0 < Pieces(0, size)[i].size <= 8 * 1024 * 1024 {
      PieceAt(0, size, i);
    }
  }

  // ------------------------------------------------------------------------------ meaning

  /** The meaning of a fill: byte i of the range becomes byte i mod size of the pattern. */
  function Filled(mem: Memory, start: nat, size: nat, pattern: seq<Byte>): (mem': Memory)
    requires |pattern| > 0
    ensures |mem'| == |mem|
  {
    seq(|mem|, a requires 0 <= a < |mem| =>
      if start <= a < start + size then pattern[(a - start) % |pattern|] else mem[a])
  }

  /** The chunk at which a byte of the range lies gives it the byte of the pattern. */
  lemma ChunkByte(bo: BufferObject, ptr: nat, pattern: seq<Byte>, size: nat, i: nat, mem: Memory, a: nat)
    requires PatternSize(|pattern|) && Whole(bo, ptr, 0, size) && i < |Pieces(0, size)|
    requires var c := FillCommands(bo, ptr, FillWord(pattern), Pieces(0, size))[i].kind;
             Touches(c, a) && a < |mem|
    ensures var c := FillCommands(bo, ptr, FillWord(pattern), Pieces(0, size))[i].kind;
            && VpuAddr(bo, ptr) <= a < VpuAddr(bo, ptr) + size
            && Produced(mem, c, a) == pattern[(a - VpuAddr(bo, ptr)) % |pattern|]
  {
    hide Pieces, FillWord, WordByte;
    PieceAt(0, size, i);
    var start := VpuAddr(bo, ptr);
    var at := a - start - i * SIZE_LIMIT;
    PhaseKept(a - start, i, |pattern|);
    WordRepeats(pattern, at % 4);
  }

  /** Chunks start at multiples of the pattern size, so the pattern does not slip. */
  lemma PhaseKept(x: nat, i: nat, n: nat)
    requires PatternSize(n) && x >= i * SIZE_LIMIT
    ensures (x - i * SIZE_LIMIT) % 4 % n == x % n
  {
    var y, m := x - i * SIZE_LIMIT, 2097152 * i;
    FourApart(x, y, m);
    RemainderOfFour(x, n);
  }

  lemma RemainderOfFour(x: nat, n: nat)
    requires PatternSize(n)
    ensures x % 4 % n == x % n
  {
    if n == 1 {
    } else if n == 2 {
    } else {
    }
  }

  lemma FourApart(x: nat, y: nat, m: nat)
    requires x == y + 4 * m
    ensures x % 4 == y % 4
  {
  }

  lemma ChunkFor(bo: BufferObject, ptr: nat, word: nat, size: nat, a: nat) returns (i: nat)
    requires Whole(bo, ptr, 0, size) && VpuAddr(bo, ptr) <= a < VpuAddr(bo, ptr) + size
    ensures i < |Pieces(0, size)| && Touches(FillCommands(bo, ptr, word, Pieces(0, size))[i].kind, a)
  {
    hide Pieces;
    i := PieceOf(0, size, a - VpuAddr(bo, ptr));
    PieceAt(0, size, i);
  }

  /** Waits, chunks and signal agree on the filled memory and read nothing. */
  lemma FillAgreed(bo: BufferObject, ptr: nat, pattern: seq<Byte>, size: nat, before: seq<Command>, after: seq<Command>,
                   mem: Memory)
    requires PatternSize(|pattern|) && Whole(bo, ptr, 0, size) && NoMemory(before) && NoMemory(after)
    ensures var cmds := Kinds(before + FillCommands(bo, ptr, FillWord(pattern), Pieces(0, size)) + after);
            Independent(cmds) && Agreed(mem, cmds, Filled(mem, VpuAddr(bo, ptr), size, pattern))
  {
    hide Pieces, FillWord, WordByte, Produced, VpuAddr, Whole, Touches;
    var fills := FillCommands(bo, ptr, FillWord(pattern), Pieces(0, size));
    var all := before + fills + after;
    var cmds, start := Kinds(all), VpuAddr(bo, ptr);
    var target := Filled(mem, start, size, pattern);
    forall c, a: nat | c in cmds && Touches(c, a)
      ensures !c.Copy? && (a < |mem| ==> Produced(mem, c, a) == target[a])
    {
      var i := KindIn(all, c);
      TouchesMemory(c, a);
      var k := i - |before|;
      assert 0 <= k < |fills| && fills[k].kind == c;
      if a < |mem| { ChunkByte(bo, ptr, pattern, size, k, mem, a); }
    }
    forall a: nat | start <= a < start + size ensures Touched(cmds, a) {
      var k := ChunkFor(bo, ptr, FillWord(pattern), size, a);
      assert cmds[|before| + k] == fills[k].kind;
    }
  }

  lemma TouchesMemory(c: Kind, a: nat)
    requires Touches(c, a)
    ensures c.Fill? || c.Copy?
  {
  }

  lemma WholeAddress(bo: BufferObject, ptr: nat, size: nat)
    requires Whole(bo, ptr, 0, size) && size > 0
    ensures bo.base <= ptr && VpuAddr(bo, ptr) == bo.vpuBase + (ptr - bo.base)
  {
  }

  /**
   A successful fill means: in whatever order the device writes the bytes of its commands,
   the range ends up filled with the pattern and no other byte changes.
   */
  lemma FillMeaning(s: ListState, bo: BufferObject, ptr: nat, pattern: seq<Byte>, waits: Option<seq<EventArg>>,
                    signal: Option<EventArg>, size: nat, mem: Memory, mvs: seq<Move>)
    requires PatternSize(|pattern|) && Open(s.job) && size > 0
    requires AppendEach(s, FillOps(bo, ptr, FillWord(pattern), waits, signal, 0, size)).1 == Success
    ensures var t := AppendEach(s, FillOps(bo, ptr, FillWord(pattern), waits, signal, 0, size)).0;
            && s.job.commands <= t.job.commands && bo.base <= ptr
            && (Carries(mvs, Kinds(t.job.commands[|s.job.commands|..])) ==>
                  DoAll(mem, mvs) == Filled(mem, bo.vpuBase + (ptr - bo.base), size, pattern))
  {
    hide FillOps, AppendEach, FillWord, FillCommands, Pieces, Filled, Carries, Kinds, Effective, Whole, Independent,
      Agreed, DoAll, VpuAddr, NoMemory, Open;
    var word := FillWord(pattern);
    var t := AppendEach(s, FillOps(bo, ptr, word, waits, signal, 0, size)).0;
    FillLayout(s, bo, ptr, word, waits, signal, size);
    WholeAddress(bo, ptr, size);
    var before, after := Effective(WaitItems(waits)), Effective(EventItems(signal));
    EventsTouchNothing(WaitItems(waits));
    EventsTouchNothing(EventItems(signal));
    var added := before + FillCommands(bo, ptr, word, Pieces(0, size)) + after;
    assert t.job.commands[|s.job.commands|..] == added;
    FillAgreed(bo, ptr, pattern, size, before, after, mem);
    if Carries(mvs, Kinds(added)) {
      AnyOrder(mem, Kinds(added), Filled(mem, VpuAddr(bo, ptr), size, pattern), mvs);
    }
  }

  // ------------------------------------------------------------- filling by copy (before NPU 40xx)

  /** appendMemoryFillAsCopyCmd; patternBo is the newly made buffer, if it could be made. */
  method AppendMemoryFillAsCopyCmd(list: CommandList, ptr: nat, bo: Option<BufferObject>, pattern: seq<Byte>, size: nat,
                                   patternBo: Option<BufferObject>, waits: Option<seq<EventArg>>,
                                   signal: Option<EventArg>)
    returns (r: ZeResult)
    modifies list`vpuJob
    ensures old(list.vpuJob.closed) ==> r == NotAvailable
    ensures !old(list.vpuJob.closed) && patternBo.None? ==> r == OutOfDeviceMemory
    ensures !old(list.vpuJob.closed) && patternBo.Some? && !PatternSize(|pattern|) ==> r == InvalidSize
    ensures old(list.vpuJob.closed) || patternBo.None? || !PatternSize(|pattern|) ==> list.State() == old(list.State())
    ensures !old(list.vpuJob.closed) && patternBo.Some? && PatternSize(|pattern|) ==>
              (list.State(), r) == RegularAppend(old(list.State()),
                Append(waits, [CopyItem(patternBo, patternBo.value.base, bo, ptr, size)], signal))
  {
    if list.vpuJob.closed { return NotAvailable; }
    if patternBo.None? { return OutOfDeviceMemory; }
    if !PatternSize(|pattern|) { return InvalidSize; }
    r := list.AppendWithEvents(Append(waits, [CopyItem(patternBo, patternBo.value.base, bo, ptr, size)], signal));
  }

  /** fillBuffer: whole patterns from the start of the buffer; a shorter rest is left alone. */
  function PatternWritten(mem: Memory, at: nat, allocSize: nat, pattern: seq<Byte>): (mem': Memory)
    requires |pattern| > 0
    ensures |mem'| == |mem|
  {
    var whole := allocSize / |pattern| * |pattern|;
    seq(|mem|, a requires 0 <= a < |mem| => if at <= a < at + whole then pattern[(a - at) % |pattern|] else mem[a])
  }

  lemma WholePatterns(allocSize: nat, n: nat, size: nat)
    requires PatternSize(n) && allocSize >= size + n
    ensures size <= allocSize / n * n <= allocSize
  {
  }

  /** Waits, the copy from the pattern buffer and the signal agree on the filled memory. */
  lemma CopyAgreed(mem: Memory, at: nat, allocSize: nat, pattern: seq<Byte>, dst: nat, size: nat,
                   before: seq<Command>, copy: Command, after: seq<Command>)
    requires PatternSize(|pattern|) && allocSize >= size + |pattern| && at + allocSize <= |mem|
    requires at + allocSize <= dst || dst + size <= at
    requires NoMemory(before) && NoMemory(after) && copy.kind == Copy(at, dst, size)
    ensures var ready, cmds := PatternWritten(mem, at, allocSize, pattern), Kinds(before + [copy] + after);
            Independent(cmds) && Agreed(ready, cmds, Filled(ready, dst, size, pattern))
  {
    var ready := PatternWritten(mem, at, allocSize, pattern);
    var all := before + [copy] + after;
    var cmds, target := Kinds(all), Filled(ready, dst, size, pattern);
    WholePatterns(allocSize, |pattern|, size);
    forall c, a: nat | c in cmds && Touches(c, a) ensures c == copy.kind && dst <= a < dst + size {
      var i := KindIn(all, c);
    }
    forall a: nat | dst <= a < dst + size ensures Touched(cmds, a) {
      assert cmds[|before|] == copy.kind && Touches(copy.kind, a);
    }
    CopiedBytes(mem, at, allocSize, pattern, dst, size);
    assert Agreed(ready, cmds, target);
  }

  lemma CopiedBytes(mem: Memory, at: nat, allocSize: nat, pattern: seq<Byte>, dst: nat, size: nat)
    requires PatternSize(|pattern|) && size <= allocSize / |pattern| * |pattern| <= allocSize && at + allocSize <= |mem|
    ensures var ready := PatternWritten(mem, at, allocSize, pattern);
            forall a: nat :: a < |mem| && Touches(Copy(at, dst, size), a) ==>
              Produced(ready, Copy(at, dst, size), a) == Filled(ready, dst, size, pattern)[a]
  {
  }

  /**
   A successful fill by copy: the host repeats the pattern in a buffer with room for one
   pattern more than the size, and the copy leaves the memory a fill would leave.
   */
  lemma FillAsCopyMeaning(s: ListState, patternBo: BufferObject, bo: BufferObject, ptr: nat, pattern: seq<Byte>,
                          size: nat, waits: Option<seq<EventArg>>, signal: Option<EventArg>, mem: Memory,
                          mvs: seq<Move>)
    requires PatternSize(|pattern|) && Open(s.job) && size <= TWO_64 - SIZE_LIMIT
    requires patternBo.allocSize >= size + |pattern| && patternBo.vpuBase + patternBo.allocSize <= |mem|
    requires var dst := VpuAddr(bo, ptr);
             patternBo.vpuBase + patternBo.allocSize <= dst || dst + size <= patternBo.vpuBase
    requires var op := Append(waits, [CopyItem(Some(patternBo), patternBo.base, Some(bo), ptr, size)], signal);
             RegularAppend(s, op).1 == Success
    ensures var op := Append(waits, [CopyItem(Some(patternBo), patternBo.base, Some(bo), ptr, size)], signal);
            var t := RegularAppend(s, op).0;
            var ready := PatternWritten(mem, patternBo.vpuBase, patternBo.allocSize, pattern);
            && s.job.commands <= t.job.commands
            && (Carries(mvs, Expand(Kinds(t.job.commands[|s.job.commands|..]))) ==>
                  DoAll(ready, mvs) == Filled(ready, VpuAddr(bo, ptr), size, pattern))
  {
    hide Effective, Intact, PushAll, Filled, PatternWritten, Carries, Expand, Kinds, DoAll, Independent, Agreed,
      NoMemory;
    var item := CopyItem(Some(patternBo), patternBo.base, Some(bo), ptr, size);
    var op := Append(waits, [item], signal);
    var t := RegularAppend(s, op).0;
    PushAllSpec(s.job, Items(op));
    OneCommandLayout(item, waits, signal);
    var before, after := Effective(WaitItems(waits)), Effective(EventItems(signal));
    EventsTouchNothing(WaitItems(waits));
    EventsTouchNothing(EventItems(signal));
    var added := before + [item.cmd] + after;
    assert t.job.commands[|s.job.commands|..] == added;
    var ready := PatternWritten(mem, patternBo.vpuBase, patternBo.allocSize, pattern);
    CopyAgreed(mem, patternBo.vpuBase, patternBo.allocSize, pattern, VpuAddr(bo, ptr), size, before, item.cmd, after);
    if Carries(mvs, Expand(Kinds(added))) {
      DescriptorsInAnyOrder(ready, Kinds(added), Filled(ready, VpuAddr(bo, ptr), size, pattern), mvs);
    }
  }
}
