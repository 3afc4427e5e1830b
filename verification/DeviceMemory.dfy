/**
 What memory commands do to device memory.  The device may work on the bytes of several
 commands in any order and overlap them; a schedule lists the bytes in the order they are
 written (firmware/include/api/vpu_jsm_job_cmd_api.h,
 umd/vpu_driver/source/command/copy_command.hpp).
 */
module DeviceMemory {
  import opened Bits
  import opened Jobs
  import opened CommandLists

  type Memory = seq<Byte>

  predicate Touches(c: Kind, a: nat)
  {
    match c
    case Fill(start, size, _) => start <= a < start + size
    case Copy(_, dst, size) => dst <= a < dst + size
    case _ => false
  }

  /** Byte i of the little-endian word. */
  function WordByte(word: nat, i: nat): (b: Byte)
    decreases i
  {
    if i == 0 then word % 256 else WordByte(word / 256, i - 1)
  }

  /** The byte a command puts at address a: a 32-bit pattern repeats from the start address. */
  function Produced(mem: Memory, c: Kind, a: nat): (b: Byte)
    requires a < |mem| && Touches(c, a)
  {
    match c
    case Fill(start, _, pattern) => WordByte(pattern, (a - start) % 4)
    case Copy(src, dst, _) => if src + (a - dst) < |mem| then mem[src + (a - dst)] else mem[a]
  }

  datatype Move = Move(c: Kind, a: nat)

  function Do(mem: Memory, mv: Move): (mem': Memory)
    ensures |mem'| == |mem|
  {
    if mv.a < |mem| && Touches(mv.c, mv.a) then mem[mv.a := Produced(mem, mv.c, mv.a)] else mem
  }

  function DoAll(mem: Memory, mvs: seq<Move>): (mem': Memory)
    ensures |mem'| == |mem|
    decreases |mvs|
  {
    if mvs == [] then mem else DoAll(Do(mem, mvs[0]), mvs[1..])
  }

  /** The schedule carries out the commands: every byte of each, and no others. */
  ghost predicate Carries(mvs: seq<Move>, cmds: seq<Kind>)
  {
    && (forall i :: 0 <= i < |mvs| ==> mvs[i].c in cmds && Touches(mvs[i].c, mvs[i].a))
    && (forall c, a: nat :: c in cmds && Touches(c, a) ==> Move(c, a) in mvs)
  }

  ghost predicate Touched(cmds: seq<Kind>, a: nat)
  {
    exists c :: c in cmds && Touches(c, a)
  }

  /** No command reads what another one, or itself, writes. */
  ghost predicate Independent(cmds: seq<Kind>)
  {
    forall c, a: nat :: c in cmds && c.Copy? && Touches(c, a) ==> !Touched(cmds, c.src + (a - c.dst))
  }

  /** Target has what each command produces, and the old bytes elsewhere. */
  ghost predicate Agreed(mem: Memory, cmds: seq<Kind>, target: Memory)
  {
    && |target| == |mem|
    && (forall c, a: nat :: c in cmds && Touches(c, a) && a < |mem| ==> Produced(mem, c, a) == target[a])
    && (forall a: nat :: a < |mem| && !Touched(cmds, a) ==> target[a] == mem[a])
  }

  /** cur lies between mem and target. */
  ghost predicate Between(mem: Memory, cur: Memory, cmds: seq<Kind>, target: Memory)
  {
    && |cur| == |mem| == |target|
    && forall a :: 0 <= a < |mem| ==> cur[a] == target[a] || (cur[a] == mem[a] && Touched(cmds, a))
  }

  lemma DoStep(mem: Memory, cur: Memory, cmds: seq<Kind>, target: Memory, mv: Move)
    requires Independent(cmds) && Agreed(mem, cmds, target) && Between(mem, cur, cmds, target)
    requires mv.c in cmds && Touches(mv.c, mv.a)
    ensures Between(mem, Do(cur, mv), cmds, target)
    ensures mv.a < |mem| ==> Do(cur, mv)[mv.a] == target[mv.a]
    ensures forall a :: 0 <= a < |mem| && cur[a] == target[a] ==> Do(cur, mv)[a] == target[a]
  {
    hide WordByte;
    if mv.a < |mem| {
      assert Produced(mem, mv.c, mv.a) == target[mv.a];
      if mv.c.Copy? {
        var s := mv.c.src + (mv.a - mv.c.dst);
        assert !Touched(cmds, s);
        assert s < |mem| ==> cur[s] == target[s] == mem[s];
        assert Touched(cmds, mv.a);
      }
      assert Produced(cur, mv.c, mv.a) == target[mv.a];
    }
  }

  lemma {:induction false} DoAllSettles(mem: Memory, cur: Memory, cmds: seq<Kind>, target: Memory, mvs: seq<Move>)
    requires Independent(cmds) && Agreed(mem, cmds, target) && Between(mem, cur, cmds, target)
    requires forall i :: 0 <= i < |mvs| ==> mvs[i].c in cmds && Touches(mvs[i].c, mvs[i].a)
    ensures Between(mem, DoAll(cur, mvs), cmds, target)
    ensures forall a :: 0 <= a < |mem| && cur[a] == target[a] ==> DoAll(cur, mvs)[a] == target[a]
    ensures forall i :: 0 <= i < |mvs| && mvs[i].a < |mem| ==> DoAll(cur, mvs)[mvs[i].a] == target[mvs[i].a]
    decreases |mvs|
  {
    hide Independent, Agreed, Between, Touches, Do;
    if mvs != [] {
      DoStep(mem, cur, cmds, target, mvs[0]);
      BetweenLength(mem, cur, cmds, target);
      DoAllSettles(mem, Do(cur, mvs[0]), cmds, target, mvs[1..]);
      assert forall i :: 0 < i < |mvs| ==> mvs[i] == mvs[1..][i - 1];
    }
  }

  lemma BetweenLength(mem: Memory, cur: Memory, cmds: seq<Kind>, target: Memory)
    requires Between(mem, cur, cmds, target)
    ensures |cur| == |mem| == |target|
  {
  }

  /**
   Independent commands that agree on the bytes they produce leave the same memory in
   every schedule.
   */
  lemma AnyOrder(mem: Memory, cmds: seq<Kind>, target: Memory, mvs: seq<Move>)
    requires Independent(cmds) && Agreed(mem, cmds, target) && Carries(mvs, cmds)
    ensures DoAll(mem, mvs) == target
  {
    hide Independent, Touches, Produced;
    DoAllSettles(mem, mem, cmds, target, mvs);
    var out := DoAll(mem, mvs);
    forall a | 0 <= a < |mem| ensures out[a] == target[a] {
      if Touched(cmds, a) {
        var c :| c in cmds && Touches(c, a);
        var i :| 0 <= i < |mvs| && mvs[i] == Move(c, a);
      }
    }
  }

  // ------------------------------------------------------------------------ one command at a time

  function MovesOf(c: Kind): (mvs: seq<Move>)
  {
    match c
    case Fill(start, size, _) => seq(size, i requires 0 <= i < size => Move(c, start + i))
    case Copy(_, dst, size) => seq(size, i requires 0 <= i < size => Move(c, dst + i))
    case _ => []
  }

  function InSequence(order: seq<Kind>): (mvs: seq<Move>)
  {
    if order == [] then [] else MovesOf(order[0]) + InSequence(order[1..])
  }

  lemma MovesComplete(c: Kind)
    ensures Carries(MovesOf(c), [c])
  {
    forall a: nat | Touches(c, a) ensures Move(c, a) in MovesOf(c) {
      var i := a - (if c.Fill? then c.start else c.dst);
      assert MovesOf(c)[i] == Move(c, a);
    }
  }

  /** Running whole commands one after the other, in any order, is a schedule. */
  lemma {:induction false} SequenceCarries(order: seq<Kind>)
    ensures Carries(InSequence(order), order)
    decreases |order|
  {
    hide Touches, MovesOf;
    if order != [] {
      MovesComplete(order[0]);
      SequenceCarries(order[1..]);
    }
  }

  /** Permuted commands run one by one give the same memory. */
  lemma PermutedSequence(mem: Memory, cmds: seq<Kind>, target: Memory, order: seq<Kind>)
    requires Independent(cmds) && Agreed(mem, cmds, target) && multiset(order) == multiset(cmds)
    ensures DoAll(mem, InSequence(order)) == target
  {
    hide Independent, Agreed, Touches;
    SequenceCarries(order);
    assert forall c :: c in order <==> c in multiset(order);
    assert forall c :: c in cmds <==> c in multiset(cmds);
    AnyOrder(mem, cmds, target, InSequence(order));
  }

  // ----------------------------------------------------------------- buffers and pieces

  datatype BufferObject = BufferObject(base: nat, vpuBase: nat, allocSize: nat)

  predicate InRange(bo: BufferObject, ptr: nat)
  {
    bo.base <= ptr < bo.base + bo.allocSize
  }

  function VpuAddr(bo: BufferObject, ptr: nat): (a: nat)
  {
    if InRange(bo, ptr) then bo.vpuBase + (ptr - bo.base) else 0
  }

  const SIZE_LIMIT: nat := 8 * 1024 * 1024

  datatype Piece = Piece(offset: nat, size: nat)

  /** A range cut into parts of SIZE_LIMIT bytes, the last one possibly shorter. */
  function Pieces(offset: nat, left: nat): (ps: seq<Piece>)
    ensures ps == [] <==> left == 0
    decreases left
  {
    if left == 0 then []
    else if left <= SIZE_LIMIT then [Piece(offset, left)]
    else [Piece(offset, SIZE_LIMIT)] + Pieces(offset + SIZE_LIMIT, left - SIZE_LIMIT)
  }

  /** The i-th piece starts i limits into the range, and reaches the limit or the end. */
  lemma {:induction false} PieceAt(offset: nat, left: nat, i: nat)
    requires i < |Pieces(offset, left)|
    ensures i * SIZE_LIMIT < left
    ensures Pieces(offset, left)[i].offset == offset + i * SIZE_LIMIT
    ensures var rest := left - i * SIZE_LIMIT;
            Pieces(offset, left)[i].size == if rest <= SIZE_LIMIT then rest else SIZE_LIMIT
    ensures i == |Pieces(offset, left)| - 1 <==> left - i * SIZE_LIMIT <= SIZE_LIMIT
    decreases left
  {
    if left > SIZE_LIMIT && i > 0 {
      PieceAt(offset + SIZE_LIMIT, left - SIZE_LIMIT, i - 1);
    }
  }

  /** Every byte of the range lies in a piece. */
  lemma {:induction false} PieceOf(offset: nat, left: nat, x: nat) returns (i: nat)
    requires offset <= x < offset + left
    ensures i < |Pieces(offset, left)|
    ensures Pieces(offset, left)[i].offset <= x < Pieces(offset, left)[i].offset + Pieces(offset, left)[i].size
    decreases left
  {
    if x < offset + SIZE_LIMIT {
      i := 0;
    } else {
      var rest := PieceOf(offset + SIZE_LIMIT, left - SIZE_LIMIT, x);
      i := rest + 1;
    }
  }

  // --------------------------------------------------------------------- copy descriptors

  /** The descriptors of a copy, each a copy of its own. */
  function Descriptors(src: nat, dst: nat, size: nat): (ds: seq<Kind>)
  {
    var ps := Pieces(0, size);
    seq(|ps|, i requires 0 <= i < |ps| => Copy(src + ps[i].offset, dst + ps[i].offset, ps[i].size))
  }

  function DivUp(x: nat, d: nat): (q: nat)
    requires d > 0
  {
    (x + d - 1) / d
  }

  lemma {:induction false} PieceCount(offset: nat, left: nat)
    ensures |Pieces(offset, left)| == DivUp(left, SIZE_LIMIT)
    decreases left
  {
    if left > SIZE_LIMIT {
      PieceCount(offset + SIZE_LIMIT, left - SIZE_LIMIT);
      assert left + SIZE_LIMIT - 1 == (left - SIZE_LIMIT + SIZE_LIMIT - 1) + SIZE_LIMIT;
    }
  }

  /** Refused: the function returns false.  Thrown: the descriptor count does not fit 32 bits. */
  datatype DescriptorOutcome = Filled(ds: seq<Kind>) | Refused | Thrown

  /** fillDescriptor; the sum in its descriptor count is taken modulo 2^64. */
  method FillDescriptor(src: nat, dst: nat, size: nat) returns (r: DescriptorOutcome)
    requires size < TWO_64
    ensures r.Refused? <==> src == 0 || dst == 0
    ensures r.Thrown? <==> src != 0 && dst != 0 && TWO_32 * SIZE_LIMIT - SIZE_LIMIT < size <= TWO_64 - SIZE_LIMIT
    ensures r.Filled? && size <= TWO_64 - SIZE_LIMIT ==> r.ds == Descriptors(src, dst, size)
    ensures r.Filled? && size > TWO_64 - SIZE_LIMIT ==> r.ds == []
  {
    if src == 0 || dst == 0 { return Refused; }
    var n := DescriptorCount(size);
    CountExact(size);
    if n >= TWO_32 { return Thrown; }
    var ds := BuildDescriptors(src, dst, size, n);
    r := Filled(ds);
  }

  function DescriptorCount(size: nat): (n: nat)
  {
    (size + SIZE_LIMIT - 1) % TWO_64 / SIZE_LIMIT
  }

  lemma CountExact(size: nat)
    requires size < TWO_64
    ensures size <= TWO_64 - SIZE_LIMIT ==> DescriptorCount(size) == |Pieces(0, size)|
    ensures size > TWO_64 - SIZE_LIMIT ==> DescriptorCount(size) == 0
    ensures DescriptorCount(size) >= TWO_32 <==> TWO_32 * SIZE_LIMIT - SIZE_LIMIT < size <= TWO_64 - SIZE_LIMIT
  {
    hide Pieces;
    PieceCount(0, size);
  }

  method BuildDescriptors(src: nat, dst: nat, size: nat, n: nat) returns (ds: seq<Kind>)
    requires n == 0 || n == |Pieces(0, size)|
    ensures ds == if n == 0 then [] else Descriptors(src, dst, size)
  {
    hide Pieces;
    ds := [];
    var sizeLeft, s, d := size, src, dst;
    for i := 0 to n
      invariant n > 0 ==> ds == Descriptors(src, dst, size)[..i]
      invariant n == 0 ==> ds == []
      invariant s == src + i * SIZE_LIMIT && d == dst + i * SIZE_LIMIT
      invariant i < n ==> sizeLeft == size - i * SIZE_LIMIT
    {
      PieceAt(0, size, i);
      if sizeLeft < SIZE_LIMIT {
        ds := ds + [Copy(s, d, sizeLeft)];
      } else {
        ds := ds + [Copy(s, d, SIZE_LIMIT)];
        sizeLeft := sizeLeft - SIZE_LIMIT;
      }
      s, d := s + SIZE_LIMIT, d + SIZE_LIMIT;
    }
  }

  /** What the device really carries out for a command. */
  function Parts(c: Kind): (ps: seq<Kind>)
  {
    if c.Copy? then Descriptors(c.src, c.dst, c.size) else [c]
  }

  function Expand(cmds: seq<Kind>): (ps: seq<Kind>)
  {
    if cmds == [] then [] else Parts(cmds[0]) + Expand(cmds[1..])
  }

  lemma {:induction false} ExpandMember(cmds: seq<Kind>, p: Kind) returns (c: Kind)
    requires p in Expand(cmds)
    ensures c in cmds && p in Parts(c)
    decreases |cmds|
  {
    hide Parts;
    if p in Parts(cmds[0]) {
      c := cmds[0];
    } else {
      c := ExpandMember(cmds[1..], p);
    }
  }

  lemma {:induction false} ExpandHas(cmds: seq<Kind>, c: Kind, p: Kind)
    requires c in cmds && p in Parts(c)
    ensures p in Expand(cmds)
    decreases |cmds|
  {
    hide Parts;
    if c != cmds[0] {
      ExpandHas(cmds[1..], c, p);
    }
  }

  /** A part touches bytes of its command and produces the same values there. */
  lemma PartWithin(c: Kind, p: Kind, a: nat)
    requires p in Parts(c) && Touches(p, a)
    ensures Touches(c, a) && p.Copy? == c.Copy? && (c.Copy? ==> p.src - p.dst == c.src - c.dst)
    ensures forall mem: Memory :: a < |mem| ==> Produced(mem, p, a) == Produced(mem, c, a)
  {
    hide Pieces, WordByte;
    if c.Copy? {
      var i :| 0 <= i < |Parts(c)| && Parts(c)[i] == p;
      PieceAt(0, c.size, i);
    }
  }

  lemma PartFor(c: Kind, a: nat) returns (p: Kind)
    requires Touches(c, a)
    ensures p in Parts(c) && Touches(p, a)
  {
    hide Pieces;
    if c.Copy? {
      var i := PieceOf(0, c.size, a - c.dst);
      p := Parts(c)[i];
    } else {
      p := c;
    }
  }

  lemma TouchedAlike(cmds: seq<Kind>, a: nat)
    ensures Touched(Expand(cmds), a) <==> Touched(cmds, a)
  {
    hide Parts, Expand, Touches;
    if Touched(Expand(cmds), a) {
      var p :| p in Expand(cmds) && Touches(p, a);
      var c := ExpandMember(cmds, p);
      PartWithin(c, p, a);
    }
    if Touched(cmds, a) {
      var c :| c in cmds && Touches(c, a);
      var p := PartFor(c, a);
      ExpandHas(cmds, c, p);
    }
  }

  /** Cutting copies into descriptors keeps independence and the agreed target. */
  lemma ExpandKeeps(mem: Memory, cmds: seq<Kind>, target: Memory)
    requires Independent(cmds) && Agreed(mem, cmds, target)
    ensures Independent(Expand(cmds)) && Agreed(mem, Expand(cmds), target)
  {
    hide Parts, Expand, Touched, Produced;
    forall p, a: nat | p in Expand(cmds) && Touches(p, a)
      ensures p.Copy? ==> !Touched(Expand(cmds), p.src + (a - p.dst))
      ensures a < |mem| ==> Produced(mem, p, a) == target[a]
    {
      var c := ExpandMember(cmds, p);
      PartWithin(c, p, a);
      if c.Copy? {
        TouchedAlike(cmds, c.src + (a - c.dst));
      }
    }
    forall a: nat | a < |mem| && !Touched(Expand(cmds), a) ensures target[a] == mem[a] {
      TouchedAlike(cmds, a);
    }
  }

  /** Whatever order the device takes for the descriptors of the commands, the target is reached. */
  lemma DescriptorsInAnyOrder(mem: Memory, cmds: seq<Kind>, target: Memory, mvs: seq<Move>)
    requires Independent(cmds) && Agreed(mem, cmds, target) && Carries(mvs, Expand(cmds))
    ensures DoAll(mem, mvs) == target
  {
    hide *;
    ExpandKeeps(mem, cmds, target);
    AnyOrder(mem, Expand(cmds), target, mvs);
  }

  // ---------------------------------------------------------------------- creating a copy command

  const COPY_COMMAND_SIZE := 24

  /** The copy an append is asked for, or the error met on the way. */
  function CopyItem(srcBo: Option<BufferObject>, src: nat, dstBo: Option<BufferObject>, dst: nat, size: nat): (i: Item)
  {
    if srcBo.None? || dstBo.None? || src == 0 || dst == 0 then Broken(Uninitialized)
    else if !InRange(dstBo.value, dst) || !InRange(srcBo.value, src) then Broken(Uninitialized)
    else if VpuAddr(srcBo.value, src) == 0 || VpuAddr(dstBo.value, dst) == 0 then Broken(Uninitialized)
    else if TWO_32 * SIZE_LIMIT - SIZE_LIMIT < size <= TWO_64 - SIZE_LIMIT then Broken(Unknown)
    else
      var moved := if size <= TWO_64 - SIZE_LIMIT then size else 0;
      Item(Command(Copy(VpuAddr(srcBo.value, src), VpuAddr(dstBo.value, dst), moved), COPY_COMMAND_SIZE))
  }

  /** The pointer lies in the buffer, and the device knows an address for it. */
  predicate Addressed(bo: Option<BufferObject>, ptr: nat)
  {
    && bo.Some? && ptr != 0 && bo.value.base <= ptr < bo.value.base + bo.value.allocSize
    && bo.value.vpuBase + (ptr - bo.value.base) != 0
  }

  /** Exactly when a copy can be made, which copy it is, and which error another one meets. */
  lemma CopyCreatedExactly(srcBo: Option<BufferObject>, src: nat, dstBo: Option<BufferObject>, dst: nat, size: nat)
    requires size < TWO_64
    ensures var i := CopyItem(srcBo, src, dstBo, dst, size);
            var fits := size <= 0x7F_FFFF_FF80_0000 || size > TWO_64 - 0x80_0000;
            && (i.Item? <==> Addressed(srcBo, src) && Addressed(dstBo, dst) && fits)
            && (i.Item? && size <= TWO_64 - 0x80_0000 ==>
                  i.cmd.kind == Copy(srcBo.value.vpuBase + (src - srcBo.value.base),
                                     dstBo.value.vpuBase + (dst - dstBo.value.base), size))
            && (i == Broken(Unknown) <==> Addressed(srcBo, src) && Addressed(dstBo, dst) && !fits)
            && (i.Broken? ==> i.error == Unknown || i.error == Uninitialized)
  {
  }

  /** VPUCopyCommand::create; an exception surfaces as an unknown error. */
  method CreateCopy(srcBo: Option<BufferObject>, src: nat, dstBo: Option<BufferObject>, dst: nat, size: nat)
    returns (i: Item, ds: seq<Kind>)
    requires size < TWO_64
    ensures i == CopyItem(srcBo, src, dstBo, dst, size)
    ensures i.Item? ==> ds == Parts(i.cmd.kind)
  {
    if src == 0 || dst == 0 || srcBo.None? || dstBo.None? { return Broken(Uninitialized), []; }
    if !InRange(dstBo.value, dst) { return Broken(Uninitialized), []; }
    if !InRange(srcBo.value, src) { return Broken(Uninitialized), []; }
    var s, d := VpuAddr(srcBo.value, src), VpuAddr(dstBo.value, dst);
    var filled := FillDescriptor(s, d, size);
    match filled {
      case Refused => return Broken(Uninitialized), [];
      case Thrown => return Broken(Unknown), [];
      case Filled(made) =>
        ds := made;
        var moved := if size <= TWO_64 - SIZE_LIMIT then size else 0;
        i := Item(Command(Copy(s, d, moved), COPY_COMMAND_SIZE));
    }
  }
}
