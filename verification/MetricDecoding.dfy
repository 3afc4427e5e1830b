/**
 Turning raw metric samples into typed values and per-metric maxima
 (umd/level_zero_driver/source/metric.cpp).
 */
module MetricDecoding {
  import opened Bits
  import opened Jobs

  datatype ValueType = UInt32 | UInt64 | Float32 | Float64 | Bool8 | Unsupported

  function SizeOf(t: ValueType): (n: nat)
  {
    match t
    case UInt32 => 4
    case Float32 => 4
    case UInt64 => 8
    case Float64 => 8
    case Bool8 => 1
    case Unsupported => 0
  }

  type Types = seq<ValueType>

  /** Where counter c starts within a sample: the sizes of the counters before it. */
  function Offset(ts: Types, c: nat): (o: nat)
    requires c <= |ts|
  {
    if c == 0 then 0 else Offset(ts, c - 1) + SizeOf(ts[c - 1])
  }

  /** Size of one sample, as summed up when the group is loaded. */
  function AllocationSize(ts: Types): (n: nat)
  {
    Offset(ts, |ts|)
  }

  /** The step between two values in the raw data. */
  function Step(ts: Types): (n: nat)
    requires |ts| > 0
  {
    AllocationSize(ts) / |ts|
  }

  ghost predicate Uniform(ts: Types)
  {
    forall i :: 0 <= i < |ts| ==> SizeOf(ts[i]) == SizeOf(ts[0])
  }

  // --------------------------------------------------------------------- positions of values

  lemma {:induction false} UniformOffset(ts: Types, c: nat)
    requires Uniform(ts) && c <= |ts| && |ts| > 0
    ensures Offset(ts, c) == c * SizeOf(ts[0])
    decreases c
  {
    if c > 0 {
      UniformOffset(ts, c - 1);
      assert c * SizeOf(ts[0]) == (c - 1) * SizeOf(ts[0]) + SizeOf(ts[0]);
    }
  }

  lemma UniformStep(ts: Types)
    requires Uniform(ts) && |ts| > 0
    ensures Step(ts) == SizeOf(ts[0]) && AllocationSize(ts) == |ts| * SizeOf(ts[0])
  {
    UniformOffset(ts, |ts|);
    DivModUnique(AllocationSize(ts), |ts|, SizeOf(ts[0]), 0);
  }

  /** The place of value i in the raw data, as the samples lay it out. */
  function Place(ts: Types, i: nat): (p: nat)
    requires |ts| > 0
  {
    i / |ts| * AllocationSize(ts) + Offset(ts, i % |ts|)
  }

  /** With one size for all counters, the decoder reads value i at its place. */
  lemma UniformPlace(ts: Types, i: nat)
    requires Uniform(ts) && |ts| > 0
    ensures Place(ts, i) == i * Step(ts)
  {
    hide Offset, Step, AllocationSize, Uniform;
    var n, s := |ts|, SizeOf(ts[0]);
    UniformStep(ts);
    UniformOffset(ts, i % n);
    Regroup(i / n, n, i % n, s);
  }

  lemma Regroup(q: nat, n: nat, r: nat, s: nat)
    ensures q * (n * s) + r * s == (q * n + r) * s
  {
  }

  /** Reading at multiples of the step is right for two or more samples exactly for uniform groups. */
  lemma PlacesExact(ts: Types, samples: nat)
    requires |ts| > 0 && samples >= 2
    ensures (forall i :: 0 <= i < samples * |ts| ==> Place(ts, i) == i * Step(ts)) <==> Uniform(ts)
  {
    var n, s := |ts|, Step(ts);
    if Uniform(ts) {
      forall i | 0 <= i < samples * n ensures Place(ts, i) == i * s {
        UniformPlace(ts, i);
      }
    }
    if forall i :: 0 <= i < samples * n ==> Place(ts, i) == i * s {
      MulMono(2, samples, n);
      forall c | 0 <= c < n ensures SizeOf(ts[c]) == s {
        PlaceInFirst(ts, c);
        if c + 1 < n { PlaceInFirst(ts, c + 1); } else { PlaceOfSecond(ts); }
        assert Place(ts, c) == c * s && Place(ts, c + 1) == (c + 1) * s;
        assert (c + 1) * s == c * s + s;
      }
    }
  }

  /** For a single sample it is right exactly when all counters but the last have the size of the step. */
  lemma PlacesExactOnce(ts: Types)
    requires |ts| > 0
    ensures (forall i :: 0 <= i < |ts| ==> Place(ts, i) == i * Step(ts))
            <==> (forall c :: 0 <= c < |ts| - 1 ==> SizeOf(ts[c]) == Step(ts))
  {
    hide Step, AllocationSize, Place, SizeOf;
    var n, s := |ts|, Step(ts);
    if forall i :: 0 <= i < n ==> Place(ts, i) == i * s {
      forall c | 0 <= c < n - 1 ensures SizeOf(ts[c]) == s {
        PlaceInFirst(ts, c);
        PlaceInFirst(ts, c + 1);
        NextMultiple(c, s);
        assert Place(ts, c) == c * s && Place(ts, c + 1) == (c + 1) * s;
      }
    }
    if forall c :: 0 <= c < n - 1 ==> SizeOf(ts[c]) == s {
      forall i | 0 <= i < n ensures Place(ts, i) == i * s {
        PlaceInFirst(ts, i);
        StepsAdd(ts, s, i);
      }
    }
  }

  lemma {:induction false} StepsAdd(ts: Types, s: nat, i: nat)
    requires i < |ts| && forall c :: 0 <= c < |ts| - 1 ==> SizeOf(ts[c]) == s
    ensures Offset(ts, i) == i * s
    decreases i
  {
    if i > 0 {
      StepsAdd(ts, s, i - 1);
      NextMultiple(i - 1, s);
    }
  }

  /** A mixed group whose first sample is decoded right, and whose second one is not. */
  lemma MixedGroupMisread(ts: Types, raw: seq<Byte>)
    requires ts == [Bool8, Bool8, Bool8, UInt32] && |raw| == 14
    requires forall k :: 0 <= k < 14 ==> raw[k] == k
    ensures AllocationSize(ts) == 7 && Step(ts) == 1
    ensures (forall i :: 0 <= i < 4 ==> Place(ts, i) == i * Step(ts)) && Place(ts, 4) == 7
    ensures Readable(ts, raw, 4) && CounterInside(ts, 14, 1, 0)
    ensures ReadValue(ts, raw, 4) == 4 && Counter(ts, raw, 1, 0) == 7
  {
    assert Offset(ts, 1) == 1 && Offset(ts, 2) == 2 && Offset(ts, 3) == 3 && Offset(ts, 4) == 7;
    PlacesExactOnce(ts);
    PlaceOfSecond(ts);
    assert raw[4..5] == [4] && raw[7..8] == [7];
    OneByte(4);
    OneByte(7);
  }

  lemma OneByte(b: Byte)
    ensures FromLe([b]) == b
  {
    assert [b][1..] == [];
  }

  lemma PlaceInFirst(ts: Types, c: nat)
    requires c < |ts|
    ensures Place(ts, c) == Offset(ts, c)
  {
    hide Offset;
    DivModUnique(c, |ts|, 0, c);
  }

  lemma PlaceOfSecond(ts: Types)
    requires |ts| > 0
    ensures Place(ts, |ts|) == Offset(ts, |ts|)
  {
    DivModUnique(|ts|, |ts|, 1, 0);
    assert Offset(ts, 0) == 0;
  }

  /** Every value of a whole sample is read inside the raw data of a uniform group. */
  lemma ReadsInside(ts: Types, rawSize: nat, i: nat)
    requires Uniform(ts) && |ts| > 0 && AllocationSize(ts) > 0 && i < rawSize / AllocationSize(ts) * |ts|
    ensures i * Step(ts) + SizeOf(ts[i % |ts|]) <= rawSize
  {
    var n, s, k := |ts|, SizeOf(ts[0]), rawSize / AllocationSize(ts);
    UniformStep(ts);
    assert SizeOf(ts[i % n]) == s;
    MulMono(i + 1, k * n, s);
    assert (i + 1) * s == i * s + s;
    assert k * n * s == k * (n * s) by { MulRegroup(k, n, 0, s, 0); }
  }

  // --------------------------------------------------------------------------- typed values

  /** bits is the 64-bit union; a value of a narrower type sits in its low bytes. */
  datatype TypedValue = TypedValue(kind: ValueType, bits: nat)

  /** One more than the largest number the type's bytes hold. */
  function Range(t: ValueType): (n: nat)
    ensures n > 0
  {
    match t
    case UInt32 => 0x1_0000_0000
    case Float32 => 0x1_0000_0000
    case UInt64 => 0x1_0000_0000_0000_0000
    case Float64 => 0x1_0000_0000_0000_0000
    case Bool8 => 0x100
    case Unsupported => 1
  }

  function Get(bits: nat, t: ValueType): (v: nat)
  {
    bits % Range(t)
  }

  function Set(bits: nat, t: ValueType, v: nat): (bits': nat)
  {
    bits / Range(t) * Range(t) + v
  }

  lemma SetGet(bits: nat, t: ValueType, v: nat)
    requires v < Range(t)
    ensures Get(Set(bits, t, v), t) == v && Set(bits, t, v) / Range(t) == bits / Range(t)
  {
    hide Range;
    DivModUnique(Set(bits, t, v), Range(t), bits / Range(t), v);
  }

  /** The number of the type stored in memory at an offset. */
  function Load(raw: seq<Byte>, at: nat, t: ValueType): (v: nat)
    requires at + SizeOf(t) <= |raw|
  {
    FromLe(raw[at..at + SizeOf(t)])
  }

  lemma LoadFits(raw: seq<Byte>, at: nat, t: ValueType)
    requires at + SizeOf(t) <= |raw|
    ensures Load(raw, at, t) < Range(t)
  {
    hide FromLe, Pow2;
    FromLeBound(raw[at..at + SizeOf(t)]);
    RangeIsPow2(t);
  }

  lemma RangeIsPow2(t: ValueType)
    ensures Range(t) == Pow2(8 * SizeOf(t))
  {
    hide Pow2;
    Pow2Zero();
    Pow2Of8();
    Pow2Add(8, 8);
    Pow2Add(16, 16);
    Pow2Add(32, 32);
  }

  predicate CounterInside(ts: Types, rawSize: nat, j: nat, c: nat)
    requires c < |ts|
  {
    j * AllocationSize(ts) + Offset(ts, c) + SizeOf(ts[c]) <= rawSize
  }

  /** The counter c of sample j, where the samples lie one after the other. */
  function Counter(ts: Types, raw: seq<Byte>, j: nat, c: nat): (v: nat)
    requires c < |ts| && CounterInside(ts, |raw|, j, c)
  {
    Load(raw, j * AllocationSize(ts) + Offset(ts, c), ts[c])
  }

  /** The bytes the decoder reads for value i are there. */
  predicate Readable(ts: Types, raw: seq<Byte>, i: nat)
    requires |ts| > 0
  {
    i * Step(ts) + SizeOf(ts[i % |ts|]) <= |raw|
  }

  /** What the decoder reads for value i. */
  function ReadValue(ts: Types, raw: seq<Byte>, i: nat): (v: nat)
    requires |ts| > 0 && Readable(ts, raw, i)
  {
    Load(raw, i * Step(ts), ts[i % |ts|])
  }

  /** Value i is counter i mod n of sample i div n, read inside the raw data. */
  lemma ValueIsCounter(ts: Types, raw: seq<Byte>, rawSize: nat, i: nat)
    requires Uniform(ts) && |ts| > 0 && AllocationSize(ts) > 0 && rawSize <= |raw|
    requires i < rawSize / AllocationSize(ts) * |ts|
    ensures Readable(ts, raw, i) && CounterInside(ts, rawSize, i / |ts|, i % |ts|)
    ensures CounterInside(ts, |raw|, i / |ts|, i % |ts|)
    ensures ReadValue(ts, raw, i) == Counter(ts, raw, i / |ts|, i % |ts|)
  {
    hide Offset, Step, AllocationSize, Uniform, Load;
    ReadsInside(ts, rawSize, i);
    UniformPlace(ts, i);
  }

  // ---------------------------------------------------------------------------- the decoder

  /** Number of values in the raw data, cut to 32 bits as the driver reports it. */
  function ValueCount(ts: Types, rawSize: nat): (n: nat)
    requires AllocationSize(ts) > 0
    ensures n < TWO_32 && n <= rawSize / AllocationSize(ts) * |ts|
  {
    rawSize / AllocationSize(ts) * |ts| % TWO_32
  }

  /** The decoder never reads more than the eight bytes of a value past the raw data. */
  lemma ReadsNear(ts: Types, rawSize: nat, i: nat)
    requires |ts| > 0 && AllocationSize(ts) > 0 && i < rawSize / AllocationSize(ts) * |ts|
    ensures i * Step(ts) <= rawSize
  {
    var n, a, k := |ts|, AllocationSize(ts), rawSize / AllocationSize(ts);
    hide Offset, AllocationSize, Step;
    StepsFit(ts);
    WholeBelow(rawSize, a);
    ProductsNear(i, k, n, Step(ts), a);
  }

  lemma StepsFit(ts: Types)
    requires |ts| > 0
    ensures |ts| * Step(ts) <= AllocationSize(ts)
  {
    hide AllocationSize;
  }

  lemma WholeBelow(x: nat, a: nat)
    requires a > 0
    ensures x / a * a <= x
  {
  }

  lemma ProductsNear(i: nat, k: nat, n: nat, s: nat, a: nat)
    requires i <= k * n && n * s <= a
    ensures i * s <= k * a
  {
    MulMono(i, k * n, s);
    MulAssoc(k, n, s);
    MulUnder(k, n * s, a);
  }

  lemma MulUnder(k: nat, x: nat, y: nat)
    requires x <= y
    ensures k * x <= k * y
  {
  }

  lemma AllReadable(ts: Types, rawSize: nat, raw: seq<Byte>)
    requires AllocationSize(ts) > 0 && rawSize + 8 <= |raw|
    ensures |ts| > 0 && forall i :: 0 <= i < ValueCount(ts, rawSize) ==> Readable(ts, raw, i)
  {
    hide AllocationSize, Step, ValueCount;
    SomeCounter(ts);
    forall i | 0 <= i < ValueCount(ts, rawSize) ensures Readable(ts, raw, i) {
      ReadsNear(ts, rawSize, i);
    }
  }

  /** Value v as the decoder leaves it: its type, its number, the rest of the union untouched. */
  ghost predicate DecodedAs(ts: Types, raw: seq<Byte>, i: nat, was: TypedValue, v: TypedValue)
    requires |ts| > 0 && Readable(ts, raw, i)
  {
    && v.kind == ts[i % |ts|] && v.bits == Set(was.bits, v.kind, ReadValue(ts, raw, i))
    && Get(v.bits, v.kind) == ReadValue(ts, raw, i) && v.bits / Range(v.kind) == was.bits / Range(v.kind)
  }

  /**
   calculateMetricValues.  The raw data is followed by other memory; count is the caller's
   count, and with zero only the number of values is reported.
   */
  method CalculateMetricValues(ts: Types, rawSize: nat, raw: seq<Byte>, count: nat, values: array<TypedValue>)
    returns (newCount: nat)
    requires AllocationSize(ts) > 0 && rawSize + 8 <= |raw| && count <= values.Length
    modifies values
    ensures count == 0 ==> newCount == ValueCount(ts, rawSize) && values[..] == old(values[..])
    ensures count == 0 ==> newCount == rawSize / AllocationSize(ts) * |ts| % TWO_32
    ensures count > 0 ==> newCount == if count < ValueCount(ts, rawSize) then count else ValueCount(ts, rawSize)
    ensures |ts| > 0
    ensures count > 0 ==> forall i :: 0 <= i < newCount ==>
              Readable(ts, raw, i) && DecodedAs(ts, raw, i, old(values[i]), values[i])
    ensures forall i :: newCount <= i < values.Length ==> values[i] == old(values[i])
  {
    hide AllocationSize, Range, Get, Set, Step, Readable, ReadValue, Load, ValueCount;
    AllReadable(ts, rawSize, raw);
    newCount := ValueCount(ts, rawSize);
    ValuesCounted(ts, rawSize);
    if count == 0 { return; }
    if count < newCount { newCount := count; }
    var p, step := 0, Step(ts);
    for i := 0 to newCount
      invariant p == i * step
      invariant forall j :: 0 <= j < i ==> Readable(ts, raw, j) && DecodedAs(ts, raw, j, old(values[j]), values[j])
      invariant forall j :: i <= j < values.Length ==> values[j] == old(values[j])
    {
      values[i] := DecodeOne(ts, raw, i, p, values[i]);
      p := p + step;
      assert p == (i + 1) * step by { NextMultiple(i, step); }
    }
  }

  lemma ValuesCounted(ts: Types, rawSize: nat)
    requires AllocationSize(ts) > 0
    ensures ValueCount(ts, rawSize) == rawSize / AllocationSize(ts) * |ts| % TWO_32
  {
  }

  /** One round of the loop: value i is read at p. */
  method DecodeOne(ts: Types, raw: seq<Byte>, i: nat, p: nat, was: TypedValue) returns (v: TypedValue)
    requires |ts| > 0 && Readable(ts, raw, i) && p == i * Step(ts)
    ensures DecodedAs(ts, raw, i, was, v)
  {
    hide Step, Range, Get, Set, Load;
    var kind := ts[i % |ts|];
    LoadFits(raw, p, kind);
    SetGet(was.bits, kind, Load(raw, p, kind));
    v := TypedValue(kind, Set(was.bits, kind, Load(raw, p, kind)));
  }

  lemma SomeCounter(ts: Types)
    requires AllocationSize(ts) > 0
    ensures |ts| > 0
  {
  }

  // ------------------------------------------------------------------------- the order of values

  /** Bits of positive infinity; anything larger below the sign bit is not a number. */
  function Infinity(t: ValueType): (n: nat)
  {
    if t == Float32 then 0x7F80_0000 else 0x7FF0_0000_0000_0000
  }

  function SignBit(t: ValueType): (n: nat)
    ensures n > 0
  {
    if t == Float32 then 0x8000_0000 else 0x8000_0000_0000_0000
  }

  predicate NaN(t: ValueType, v: nat)
  {
    (t == Float32 || t == Float64) && v % SignBit(t) > Infinity(t)
  }

  /** A number that orders values as their type does: sign and magnitude for floating point. */
  function Key(t: ValueType, v: nat): (k: int)
  {
    if t == Float32 || t == Float64 then
      if v < SignBit(t) then v else -(v % SignBit(t))
    else v
  }

  /** The comparison std::max makes. */
  predicate Less(t: ValueType, a: nat, b: nat)
  {
    !NaN(t, a) && !NaN(t, b) && Key(t, a) < Key(t, b)
  }

  predicate IsFloat(t: ValueType)
  {
    t == Float32 || t == Float64
  }

  /** Integers and flags are compared as numbers. */
  lemma IntegerOrder(t: ValueType, a: nat, b: nat)
    requires !IsFloat(t)
    ensures Less(t, a, b) <==> a < b
  {
  }

  function Max(t: ValueType, a: nat, b: nat): (m: nat)
  {
    if Less(t, a, b) then b else a
  }

  /** Numbers of one counter among the first k values, with the initial one in front. */
  function Series(ts: Types, init: seq<nat>, vals: seq<nat>, c: nat, k: nat): (s: seq<nat>)
    requires c < |ts| == |init| && k <= |vals|
    decreases k
  {
    if k == 0 then [init[c]]
    else Series(ts, init, vals, c, k - 1) + (if (k - 1) % |ts| == c then [vals[k - 1]] else [])
  }

  /** m is the maximum of the series: from it, exceeded by none, and a NaN in front stays. */
  ghost predicate IsMaximum(t: ValueType, m: nat, s: seq<nat>)
  {
    && s != [] && m in s
    && (forall i :: 0 <= i < |s| ==> !Less(t, m, s[i]))
    && (if NaN(t, s[0]) then m == s[0] else !NaN(t, m))
  }

  lemma MaximumStep(t: ValueType, m: nat, s: seq<nat>, v: nat)
    requires IsMaximum(t, m, s)
    ensures IsMaximum(t, Max(t, m, v), s + [v])
  {
    hide Key, NaN;
    var s' := s + [v];
    forall i | 0 <= i < |s'| ensures !Less(t, Max(t, m, v), s'[i]) {
      if i < |s| { assert s'[i] == s[i]; }
    }
    assert s'[0] == s[0] && s'[|s|] == v && (forall x :: x in s ==> x in s');
  }

  lemma MaximumOfOne(t: ValueType, v: nat)
    ensures IsMaximum(t, v, [v])
  {
  }

  // ----------------------------------------------------------------------------- the maxima

  /** The loop counter of the maximum has eight bits; these are the values it takes. */
  function CounterAt(k: nat): (i: nat)
  {
    k % 256
  }

  /** The loop over the values ends exactly for at most 255 of them. */
  lemma LoopEndsExactly(count: nat)
    ensures (exists k :: CounterAt(k) >= count) <==> count <= 255
  {
    if count <= 255 {
      assert CounterAt(255) >= count;
    }
  }

  /** 256 samples of one flag are 256 values, and the counter stays below that for ever. */
  lemma FlagsNeverEnd(ts: Types)
    requires ts == [Bool8]
    ensures AllocationSize(ts) == 1 && ValueCount(ts, 256) == 256 && forall k :: CounterAt(k) < 256
  {
    assert Offset(ts, 0) == 0;
  }

  /** The numbers held by an array of typed values. */
  ghost function Numbers(ts: Types, vs: seq<TypedValue>): (ns: seq<nat>)
    requires |ts| == |vs|
  {
    seq(|ts|, c requires 0 <= c < |ts| => Get(vs[c].bits, ts[c]))
  }

  ghost function AllReads(ts: Types, raw: seq<Byte>, n: nat): (vals: seq<nat>)
    requires |ts| > 0 && forall i :: 0 <= i < n ==> Readable(ts, raw, i)
  {
    seq(n, i requires 0 <= i < n => ReadValue(ts, raw, i))
  }

  /** One step of the loop: value v for counter c. */
  method TakeMaximum(t: ValueType, was: TypedValue, v: nat) returns (now: TypedValue)
    requires v < Range(t)
    ensures now.kind == t && Get(now.bits, t) == Max(t, Get(was.bits, t), v)
  {
    hide Range;
    var m := Max(t, Get(was.bits, t), v);
    SetGet(was.bits, t, m);
    now := TypedValue(t, Set(was.bits, t, m));
  }

  /** calculateMaxMetricValues, for raw data on which its loop ends. */
  method CalculateMaxMetricValues(ts: Types, rawSize: nat, raw: seq<Byte>, count: nat, values: array<TypedValue>)
    returns (r: ZeResult, newCount: nat)
    requires AllocationSize(ts) > 0 && rawSize + 8 <= |raw| && values.Length >= count
    requires ValueCount(ts, rawSize) <= 255
    modifies values
    ensures |ts| > 0
    ensures count == 0 ==> r == Success && newCount == |ts| && values[..] == old(values[..])
    ensures count != 0 && count != |ts| ==> r == InvalidSize && newCount == count && values[..] == old(values[..])
    ensures count == |ts| ==> r == Success && newCount == count
    ensures count == |ts| ==> MaximaRead(ts, values[..|ts|], old(values[..|ts|]), raw, rawSize)
    ensures count == |ts| && Uniform(ts) && NotCut(ts, rawSize) ==>
              CounterMaxima(ts, values[..|ts|], old(values[..|ts|]), raw, Samples(ts, rawSize))
  {
    hide AllocationSize, Range, Get, Set, Step, Readable, ReadValue, Maxima, ValueCount, Uniform, NotCut,
      CounterMaxima, Samples;
    AllReadable(ts, rawSize, raw);
    var n := |ts|;
    if count == 0 { return Success, n; }
    if count != n { return InvalidSize, count; }
    var none := new TypedValue[0];
    var found := CalculateMetricValues(ts, rawSize, raw, 0, none);
    var metricValues := new TypedValue[found](_ => TypedValue(Unsupported, 0));
    found := CalculateMetricValues(ts, rawSize, raw, found, metricValues);
    ghost var vals := AllReads(ts, raw, found);
    forall i | 0 <= i < found ensures Get(metricValues[i].bits, ts[i % n]) == vals[i] < Range(ts[i % n]) {
      assert DecodedAs(ts, raw, i, TypedValue(Unsupported, 0), metricValues[i]);
      ReadFits(ts, raw, i);
    }
    ghost var was := values[..n];
    MaximumLoop(ts, metricValues[..], vals, values);
    MaximaOfSamples(ts, values[..n], was, raw, rawSize);
    return Success, count;
  }

  lemma ReadFits(ts: Types, raw: seq<Byte>, i: nat)
    requires |ts| > 0 && Readable(ts, raw, i)
    ensures ReadValue(ts, raw, i) < Range(ts[i % |ts|])
  {
    hide Step, Load, Range;
    LoadFits(raw, i * Step(ts), ts[i % |ts|]);
  }

  /** Every counter holds the maximum of what it held before and its first k values. */
  ghost predicate Maxima(ts: Types, vs: seq<TypedValue>, was: seq<TypedValue>, vals: seq<nat>, k: nat)
    requires |vs| == |was| == |ts| && k <= |vals|
  {
    forall c :: 0 <= c < |ts| ==>
      IsMaximum(ts[c], Get(vs[c].bits, ts[c]), Series(ts, Numbers(ts, was), vals, c, k))
  }

  /** The maxima over all values the decoder reads. */
  ghost predicate MaximaRead(ts: Types, vs: seq<TypedValue>, was: seq<TypedValue>, raw: seq<Byte>, rawSize: nat)
    requires AllocationSize(ts) > 0 && |vs| == |was| == |ts|
  {
    && |ts| > 0 && (forall i :: 0 <= i < ValueCount(ts, rawSize) ==> Readable(ts, raw, i))
    && Maxima(ts, vs, was, AllReads(ts, raw, ValueCount(ts, rawSize)), ValueCount(ts, rawSize))
  }

  method MaximumLoop(ts: Types, found: seq<TypedValue>, ghost vals: seq<nat>, values: array<TypedValue>)
    requires 0 < |ts| <= values.Length && |vals| == |found| <= 255
    requires forall i :: 0 <= i < |found| ==> Get(found[i].bits, ts[i % |ts|]) == vals[i] < Range(ts[i % |ts|])
    modifies values
    ensures Maxima(ts, values[..|ts|], old(values[..|ts|]), vals, |found|)
  {
    hide Range, Get, Set, IsMaximum, Series, Maxima, Max;
    ghost var was := values[..|ts|];
    MaximaStart(ts, was, vals);
    var i: nat := 0;
    while i < |found|
      invariant i <= |found| && Maxima(ts, values[..|ts|], was, vals, i)
      decreases |found| - i
    {
      var c := i % |ts|;
      var v := Get(found[i].bits, ts[c]);
      ghost var before := values[..|ts|];
      var now := TakeMaximum(ts[c], values[c], v);
      values[c] := now;
      MaximaStep(ts, before, was, vals, i, now);
      assert values[..|ts|] == before[c := now];
      i := (i + 1) % 256;
    }
  }

  lemma MaximaStart(ts: Types, was: seq<TypedValue>, vals: seq<nat>)
    requires |was| == |ts|
    ensures Maxima(ts, was, was, vals, 0)
  {
    hide IsMaximum;
    forall c | 0 <= c < |ts|
      ensures IsMaximum(ts[c], Get(was[c].bits, ts[c]), Series(ts, Numbers(ts, was), vals, c, 0))
    {
      MaximumOfOne(ts[c], Get(was[c].bits, ts[c]));
    }
  }

  lemma MaximaStep(ts: Types, vs: seq<TypedValue>, was: seq<TypedValue>, vals: seq<nat>, i: nat, now: TypedValue)
    requires |vs| == |was| == |ts| > 0 && i < |vals| && Maxima(ts, vs, was, vals, i)
    requires var c := i % |ts|; Get(now.bits, ts[c]) == Max(ts[c], Get(vs[c].bits, ts[c]), vals[i])
    ensures Maxima(ts, vs[i % |ts| := now], was, vals, i + 1)
  {
    hide IsMaximum, Get, Max;
    var at, init, vs' := i % |ts|, Numbers(ts, was), vs[i % |ts| := now];
    forall c | 0 <= c < |ts| ensures IsMaximum(ts[c], Get(vs'[c].bits, ts[c]), Series(ts, init, vals, c, i + 1)) {
      if c == at { MaximumStep(ts[c], Get(vs[c].bits, ts[c]), Series(ts, init, vals, c, i), vals[i]); }
      assert Series(ts, init, vals, c, i) + [] == Series(ts, init, vals, c, i);
    }
  }

  // ---------------------------------------------------------- maxima of the samples' counters

  lemma {:induction false} SeriesHas(ts: Types, init: seq<nat>, vals: seq<nat>, c: nat, k: nat, i: nat)
    requires c < |ts| == |init| && i < k <= |vals| && i % |ts| == c
    ensures vals[i] in Series(ts, init, vals, c, k)
    decreases k
  {
    if i < k - 1 { SeriesHas(ts, init, vals, c, k - 1, i); }
  }

  /** A member of the series is the initial number or one of the counter's values. */
  lemma {:induction false} SeriesFrom(ts: Types, init: seq<nat>, vals: seq<nat>, c: nat, k: nat, x: nat)
    returns (i: int)
    requires c < |ts| == |init| && k <= |vals| && x in Series(ts, init, vals, c, k)
    ensures i == -1 ==> x == init[c]
    ensures i != -1 ==> 0 <= i < k && i % |ts| == c && vals[i] == x
    decreases k
  {
    if k == 0 {
      i := -1;
    } else if (k - 1) % |ts| == c && vals[k - 1] == x {
      i := k - 1;
    } else {
      i := SeriesFrom(ts, init, vals, c, k - 1, x);
    }
  }

  /** The number of values fits the 32 bits it is counted in. */
  ghost predicate NotCut(ts: Types, rawSize: nat)
    requires AllocationSize(ts) > 0
  {
    rawSize / AllocationSize(ts) * |ts| < TWO_32
  }

  /**
   m is the initial number or a counter of some sample, and neither is larger than m: as numbers
   for integers and flags, in the order of their type for floating point.
   */
  ghost predicate MaximumOfCounters(ts: Types, raw: seq<Byte>, samples: nat, init: nat, c: nat, m: nat)
    requires c < |ts|
  {
    && (m == init || exists j :: 0 <= j < samples && CounterInside(ts, |raw|, j, c) && m == Counter(ts, raw, j, c))
    && !Less(ts[c], m, init)
    && (forall j :: 0 <= j < samples ==> CounterInside(ts, |raw|, j, c) && !Less(ts[c], m, Counter(ts, raw, j, c)))
    && (!IsFloat(ts[c]) ==>
          init <= m && forall j :: 0 <= j < samples ==> CounterInside(ts, |raw|, j, c) && Counter(ts, raw, j, c) <= m)
  }

  function Samples(ts: Types, rawSize: nat): (n: nat)
    requires AllocationSize(ts) > 0
  {
    rawSize / AllocationSize(ts)
  }

  ghost predicate CounterMaxima(ts: Types, vs: seq<TypedValue>, was: seq<TypedValue>, raw: seq<Byte>, samples: nat)
    requires |vs| == |was| == |ts|
  {
    forall c :: 0 <= c < |ts| ==>
      MaximumOfCounters(ts, raw, samples, Get(was[c].bits, ts[c]), c, Get(vs[c].bits, ts[c]))
  }

  /** In uniform groups the maxima are those of the caller's numbers and the counters of all samples. */
  lemma MaximaOfSamples(ts: Types, vs: seq<TypedValue>, was: seq<TypedValue>, raw: seq<Byte>, rawSize: nat)
    requires AllocationSize(ts) > 0 && rawSize + 8 <= |raw| && |vs| == |was| == |ts|
    ensures Uniform(ts) && NotCut(ts, rawSize) && MaximaRead(ts, vs, was, raw, rawSize) ==>
              CounterMaxima(ts, vs, was, raw, Samples(ts, rawSize))
  {
    hide Uniform, MaximumOfCounters, AllocationSize, Readable, IsMaximum, Series, Get, ReadValue, Counter,
      CounterInside;
    if Uniform(ts) && NotCut(ts, rawSize) && MaximaRead(ts, vs, was, raw, rawSize) {
      var k, init := ValueCount(ts, rawSize), Numbers(ts, was);
      var vals := AllReads(ts, raw, k);
      forall i | 0 <= i < k ensures IsCounter(ts, raw, vals, i) {
        ValueIsCounter(ts, raw, rawSize, i);
      }
      forall c | 0 <= c < |ts|
        ensures MaximumOfCounters(ts, raw, Samples(ts, rawSize), Get(was[c].bits, ts[c]), c, Get(vs[c].bits, ts[c]))
      {
        SampleMaximum(ts, raw, Samples(ts, rawSize), init, vals, c, Get(vs[c].bits, ts[c]));
      }
    }
  }

  /** Value i is counter i mod n of sample i div n. */
  ghost predicate IsCounter(ts: Types, raw: seq<Byte>, vals: seq<nat>, i: nat)
    requires |ts| > 0 && i < |vals|
  {
    CounterInside(ts, |raw|, i / |ts|, i % |ts|) && vals[i] == Counter(ts, raw, i / |ts|, i % |ts|)
  }

  /** The values are those of whole samples, in order. */
  ghost predicate AreSamples(ts: Types, raw: seq<Byte>, samples: nat, vals: seq<nat>)
  {
    && |ts| > 0 && |vals| == samples * |ts|
    && forall i :: 0 <= i < |vals| ==> IsCounter(ts, raw, vals, i)
  }

  lemma CounterIsValue(ts: Types, raw: seq<Byte>, samples: nat, vals: seq<nat>, c: nat, j: nat) returns (i: nat)
    requires AreSamples(ts, raw, samples, vals) && c < |ts| && j < samples
    ensures i < |vals| && i % |ts| == c && CounterInside(ts, |raw|, j, c) && vals[i] == Counter(ts, raw, j, c)
  {
    hide CounterInside, Counter;
    i := j * |ts| + c;
    ValueOf(j, |ts|, c, samples);
    assert IsCounter(ts, raw, vals, i);
  }

  lemma ValueIsOfSample(ts: Types, raw: seq<Byte>, samples: nat, vals: seq<nat>, i: nat) returns (j: nat)
    requires AreSamples(ts, raw, samples, vals) && i < |vals|
    ensures j < samples && CounterInside(ts, |raw|, j, i % |ts|) && vals[i] == Counter(ts, raw, j, i % |ts|)
  {
    hide CounterInside, Counter;
    j := i / |ts|;
    SampleOf(i, |ts|, samples);
    assert IsCounter(ts, raw, vals, i);
  }

  lemma SampleMaximum(ts: Types, raw: seq<Byte>, samples: nat, init: seq<nat>, vals: seq<nat>, c: nat, m: nat)
    requires c < |ts| == |init| && IsMaximum(ts[c], m, Series(ts, init, vals, c, |vals|))
    ensures AreSamples(ts, raw, samples, vals) ==> MaximumOfCounters(ts, raw, samples, init[c], c, m)
  {
    hide CounterInside, Counter, Less, Series, NaN, AreSamples;
    if !AreSamples(ts, raw, samples, vals) { return; }
    forall j | 0 <= j < samples
      ensures CounterInside(ts, |raw|, j, c) && !Less(ts[c], m, Counter(ts, raw, j, c))
    {
      var i := CounterIsValue(ts, raw, samples, vals, c, j);
      SeriesHas(ts, init, vals, c, |vals|, i);
    }
    SeriesStartsWith(ts, init, vals, c, |vals|);
    if !IsFloat(ts[c]) {
      IntegerOrder(ts[c], m, init[c]);
      forall j | 0 <= j < samples ensures CounterInside(ts, |raw|, j, c) && Counter(ts, raw, j, c) <= m {
        assert !Less(ts[c], m, Counter(ts, raw, j, c));
        IntegerOrder(ts[c], m, Counter(ts, raw, j, c));
      }
    }
    var i := SeriesFrom(ts, init, vals, c, |vals|, m);
    if i != -1 {
      var j := ValueIsOfSample(ts, raw, samples, vals, i);
    }
  }

  lemma ValueOf(j: nat, n: nat, c: nat, samples: nat)
    requires j < samples && c < n
    ensures j * n + c < samples * n && (j * n + c) / n == j && (j * n + c) % n == c
  {
    DivModUnique(j * n + c, n, j, c);
    MulMono(j + 1, samples, n);
    NextMultiple(j, n);
  }

  lemma SampleOf(i: nat, n: nat, samples: nat)
    requires n > 0 && i < samples * n
    ensures i / n < samples
  {
    if i / n >= samples {
      MulMono(samples, i / n, n);
      assert false;
    }
  }

  lemma {:induction false} SeriesStartsWith(ts: Types, init: seq<nat>, vals: seq<nat>, c: nat, k: nat)
    requires c < |ts| == |init| && k <= |vals|
    ensures Series(ts, init, vals, c, k) != [] && Series(ts, init, vals, c, k)[0] == init[c]
    decreases k
  {
    if k > 0 { SeriesStartsWith(ts, init, vals, c, k - 1); }
  }
}
