/**
 Bit-field extraction from the PMT telemetry buffer
 (tools/intel-npu-smi/src/pmt_telemetry.cpp).  Doubles are modelled as reals.
 */
module Telemetry {
  import opened Bits

  datatype CpuGeneration = MTL | ARL | LNL | PTL | WCL

  datatype RegisterMap = RegisterMap(
    socTemperatures: nat, vpuEnergy: nat, vpuWorkpoint: nat, vpuMemoryBw: nat)

  /** The guard of read: eight bytes are available at the offset. */
  predicate InRange(buffer: seq<Byte>, offset: nat)
  {
    |buffer| >= 8 && offset <= |buffer| - 8
  }

  predicate ValidBits(msb: int, lsb: int)
  {
    0 <= lsb <= msb <= 63
  }

  /** Reference value of a field: integer division and remainder, no bit operation. */
  function FieldValue(buffer: seq<Byte>, offset: nat, msb: int, lsb: int): (r: nat)
  {
    if InRange(buffer, offset) && ValidBits(msb, lsb) then
      FromLe(buffer[offset..offset + 8]) / Pow2(lsb) % Pow2(msb - lsb + 1)
    else
      0
  }

  function Complement64(x: nat): (r: nat)
    requires x < Pow2(64)
  {
    Pow2(64) - 1 - x
  }

  lemma {:induction false} ShlOnes(n: nat, k: nat)
    ensures Shl(Pow2(n) - 1, k) == Pow2(n + k) - Pow2(k)
  {
    if k > 0 { ShlOnes(n, k - 1); }
  }

  lemma {:induction false} ShrOnes(n: nat, k: nat)
    requires k <= n
    ensures Shr(Pow2(n) - 1, k) == Pow2(n - k) - 1
  {
    if k > 0 {
      ShrOnes(n - 1, k - 1);
      assert (Pow2(n) - 1) / 2 == Pow2(n - 1) - 1;
    }
  }

  /** The mask built by read is exactly the bits lsb..msb. */
  lemma MaskBits(msb: nat, lsb: nat)
    requires lsb <= msb <= 63
    ensures Pow2(lsb) <= Pow2(64)
    ensures And(Pow2(msb + 1) - 1, Complement64(Pow2(lsb) - 1)) == Pow2(msb + 1) - Pow2(lsb)
  {
    hide And, Shl, Shr, Low, Pow2;
    Pow2Mono(lsb, 64);
    var ones := Pow2(msb + 1) - 1;
    AndMask(ones, lsb, 64);
    ShrOnes(msb + 1, lsb);
    Pow2Mono(msb + 1 - lsb, 64 - lsb);
    LowOfSmall(Pow2(msb + 1 - lsb) - 1, 64 - lsb);
    ShlOnes(msb + 1 - lsb, lsb);
  }

  lemma OrByte(s: seq<Byte>, b: Byte)
    ensures Or(FromLe(s), Shl(b, 8 * |s|)) == FromLe(s + [b])
  {
    FromLeBound(s);
    OrDisjoint(FromLe(s), b, 8 * |s|);
    FromLeSnoc(s, b);
  }

  lemma ExtractField(data: nat, msb: nat, lsb: nat)
    requires lsb <= msb <= 63
    ensures Shl(1, msb + 1) == Pow2(msb + 1) && Shl(1, lsb) == Pow2(lsb) <= Pow2(64)
    ensures Shr(And(data, And(Pow2(msb + 1) - 1, Complement64(Pow2(lsb) - 1))), lsb)
         == data / Pow2(lsb) % Pow2(msb - lsb + 1)
  {
    hide And, Shl, Shr, Low, Pow2;
    ShlIsMul(1, msb + 1);
    ShlIsMul(1, lsb);
    MaskBits(msb, lsb);
    AndMask(data, lsb, msb + 1);
    ShrShl(Field(data, lsb, msb + 1 - lsb), lsb);
    FieldIsDivMod(data, lsb, msb + 1 - lsb);
  }

  class PmtTelemetry {
    var buffer: seq<Byte>
    const generation: CpuGeneration
    const regs: RegisterMap

    constructor (generation: CpuGeneration, regs: RegisterMap, buffer: seq<Byte>)
      ensures this.generation == generation && this.regs == regs && this.buffer == buffer
    {
      this.generation, this.regs, this.buffer := generation, regs, buffer;
    }

    method Read(offset: nat, msb: int, lsb: int) returns (r: nat)
      ensures r == FieldValue(buffer, offset, msb, lsb)
    {
      hide And, Or, Shl, Shr, Pow2;
      if |buffer| < 8 || offset > |buffer| - 8 { return 0; }
      if msb < 0 || msb > 63 || lsb < 0 || lsb > 63 || lsb > msb { return 0; }
      var data := 0;
      for i := 0 to 8
        invariant data == FromLe(buffer[offset..offset + i])
      {
        OrByte(buffer[offset..offset + i], buffer[offset + i]);
        assert buffer[offset..offset + i + 1] == buffer[offset..offset + i] + [buffer[offset + i]];
        data := Or(data, Shl(buffer[offset + i], i * 8));
      }
      ExtractField(data, msb, lsb);
      var msbMask := if msb == 63 then Pow2(64) - 1 else Shl(1, msb + 1) - 1;
      var lsbMask := Shl(1, lsb) - 1;
      var mask := And(msbMask, Complement64(lsbMask));
      r := Shr(And(data, mask), lsb);
    }

    /** Frequency in GHz from the first byte of the workpoint register. */
    method GetFrequency() returns (f: real)
      ensures InRange(buffer, regs.vpuWorkpoint) ==>
                f == buffer[regs.vpuWorkpoint] as real * (if generation.MTL? then 2.0 / 30.0 else 0.05)
      ensures !InRange(buffer, regs.vpuWorkpoint) ==> f == 0.0
    {
      var raw := Read(regs.vpuWorkpoint, 7, 0);
      ByteOfWord(buffer, regs.vpuWorkpoint, 0);
      if generation == MTL {
        return 2.0 * raw as real / 3.0 / 10.0;
      }
      return 0.05 * raw as real;
    }

    /** Voltage, tile configuration and temperature are single bytes of their register. */
    method GetVoltage() returns (v: nat)
      ensures v == if InRange(buffer, regs.vpuWorkpoint) then buffer[regs.vpuWorkpoint + 1] else 0
    {
      v := Read(regs.vpuWorkpoint, 15, 8);
      ByteOfWord(buffer, regs.vpuWorkpoint, 1);
    }

    method GetTileConfig() returns (v: nat)
      ensures v == if InRange(buffer, regs.vpuWorkpoint) then buffer[regs.vpuWorkpoint + 2] else 0
    {
      v := Read(regs.vpuWorkpoint, 23, 16);
      ByteOfWord(buffer, regs.vpuWorkpoint, 2);
    }

    method GetTemperature() returns (v: nat)
      ensures v == if InRange(buffer, regs.socTemperatures) then buffer[regs.socTemperatures + 5] else 0
    {
      v := Read(regs.socTemperatures, 47, 40);
      ByteOfWord(buffer, regs.socTemperatures, 5);
    }

    /** Integer and fraction parts of the U18.14 reading recombine to raw / 2^14. */
    method GetEnergy() returns (energy: real)
      ensures InRange(buffer, regs.vpuEnergy) ==>
                energy == FromLe(buffer[regs.vpuEnergy..regs.vpuEnergy + 4]) as real / 16384.0
                          * (if generation.WCL? then 100.0 else 1.0)
      ensures !InRange(buffer, regs.vpuEnergy) ==> energy == 0.0
    {
      var val := Read(regs.vpuEnergy, 31, 0);
      LowHalfOfWord(buffer, regs.vpuEnergy);
      var intPart := Shr(val, 14);
      var fracPart := And(val, Shl(1, 14) - 1);
      var scale := Shl(1, 14) as real;
      Fixed14(val);
      energy := intPart as real + fracPart as real / scale;
      assert energy == val as real / 16384.0;
      if generation == WCL {
        energy := energy * 100.0;
      }
    }
  }

  /** The 2^14 fixed-point split used for energy loses nothing. */
  lemma Fixed14(val: nat)
    ensures Shl(1, 14) == 16384
    ensures Shr(val, 14) as real + And(val, Shl(1, 14) - 1) as real / 16384.0 == val as real / 16384.0
  {
    assert Pow2(14) == 16384 by { assert Pow2(7) == 128; Pow2Add(7, 7); }
    ShlIsMul(1, 14);
    ShrIsDiv(val, 14);
    AndMask(val, 0, 14);
    LowIsMod(val, 14);
    assert val == val / 16384 * 16384 + val % 16384;
  }

  lemma {:induction false} ByteField(s: seq<Byte>, i: nat)
    requires i < |s|
    ensures FromLe(s) / Pow2(8 * i) % Pow2(8) == s[i]
    decreases i
  {
    hide Pow2;
    Pow2Of8();
    if i == 0 {
      Pow2Zero();
      assert FromLe(s) == s[0] + 256 * FromLe(s[1..]);
    } else {
      ByteField(s[1..], i - 1);
      Pow2Add(8, 8 * (i - 1));
      DivModChain(FromLe(s), 256, Pow2(8 * (i - 1)));
      assert FromLe(s) / 256 == FromLe(s[1..]);
    }
  }

  lemma ByteOfWord(buffer: seq<Byte>, offset: nat, i: nat)
    requires i < 8
    ensures FieldValue(buffer, offset, 8 * i + 7, 8 * i)
         == if InRange(buffer, offset) then buffer[offset + i] else 0
  {
    if InRange(buffer, offset) {
      ByteField(buffer[offset..offset + 8], i);
    }
  }

  lemma LowHalfOfWord(buffer: seq<Byte>, offset: nat)
    ensures FieldValue(buffer, offset, 31, 0)
         == if InRange(buffer, offset) then FromLe(buffer[offset..offset + 4]) else 0
  {
    if InRange(buffer, offset) {
      var s, t := buffer[offset..offset + 4], buffer[offset + 4..offset + 8];
      assert buffer[offset..offset + 8] == s + t;
      LowBytes(s, t);
    }
  }

  lemma LowBytes(s: seq<Byte>, t: seq<Byte>)
    ensures FromLe(s + t) / Pow2(0) % Pow2(8 * |s|) == FromLe(s)
  {
    hide Shl, Low, Pow2, FromLe;
    FromLeSplit(s, t);
    FromLeBound(s);
    FromLeBound(t);
    FieldOfSum(FromLe(s), FromLe(t), 8 * |s|, 8 * |t|);
    LowIsMod(FromLe(s + t), 8 * |s|);
    Pow2Zero();
    assert FromLe(s + t) / 1 == FromLe(s + t);
  }

  // -------------------------------------------------------- fields reassemble words

  function Sum(widths: seq<nat>): (n: nat)
  {
    if widths == [] then 0 else widths[0] + Sum(widths[1..])
  }

  /** Adjacent fields of the given widths, read separately and packed again. */
  function Assemble(x: nat, lo: nat, widths: seq<nat>): (r: nat)
    decreases |widths|
  {
    if widths == [] then 0
    else Field(x, lo, widths[0]) + Shl(Assemble(x, lo + widths[0], widths[1..]), widths[0])
  }

  lemma {:induction false} AssembleIsField(x: nat, lo: nat, widths: seq<nat>)
    ensures Assemble(x, lo, widths) == Field(x, lo, Sum(widths))
    decreases |widths|
  {
    if widths != [] {
      AssembleIsField(x, lo + widths[0], widths[1..]);
      FieldSplit(x, lo, widths[0], Sum(widths[1..]));
    }
  }

  /** The same with what read returns for each field. */
  function AssembleReads(buffer: seq<Byte>, offset: nat, lo: nat, widths: seq<nat>): (r: nat)
    decreases |widths|
  {
    if widths == [] then 0
    else
      FieldValue(buffer, offset, lo + widths[0] - 1, lo)
      + Shl(AssembleReads(buffer, offset, lo + widths[0], widths[1..]), widths[0])
  }

  lemma {:induction false} ReadsAreFields(buffer: seq<Byte>, offset: nat, lo: nat, widths: seq<nat>)
    requires InRange(buffer, offset) && lo + Sum(widths) <= 64
    ensures AssembleReads(buffer, offset, lo, widths) == Assemble(FromLe(buffer[offset..offset + 8]), lo, widths)
    decreases |widths|
  {
    hide Field, Shl, Pow2, FromLe;
    if widths != [] {
      ReadsAreFields(buffer, offset, lo + widths[0], widths[1..]);
      ReadIsField(buffer, offset, lo, widths[0]);
    }
  }

  lemma ReadIsField(buffer: seq<Byte>, offset: nat, lo: nat, w: nat)
    requires InRange(buffer, offset) && lo + w <= 64
    ensures FieldValue(buffer, offset, lo + w - 1, lo) == Field(FromLe(buffer[offset..offset + 8]), lo, w)
  {
    hide Shr, Pow2, FromLe;
    if w > 0 { FieldIsDivMod(FromLe(buffer[offset..offset + 8]), lo, w); }
  }

  /** However a 64-bit register is cut into adjacent fields, what is read for them rebuilds the word. */
  lemma FieldsRebuildWord(buffer: seq<Byte>, offset: nat, widths: seq<nat>)
    requires InRange(buffer, offset) && Sum(widths) == 64
    ensures AssembleReads(buffer, offset, 0, widths) == FromLe(buffer[offset..offset + 8])
  {
    var w := buffer[offset..offset + 8];
    ReadsAreFields(buffer, offset, 0, widths);
    AssembleIsField(FromLe(w), 0, widths);
    FromLeBound(w);
    LowOfSmall(FromLe(w), 64);
  }
}
