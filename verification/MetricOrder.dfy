/**
 The comparison behind metric maxima is the order of the numbers compared
 (umd/level_zero_driver/source/metric.cpp).
 */
module MetricOrder {
  import opened Bits
  import opened MetricDecoding
  import HalfFloat
  import FloatOrder

  lemma Powers()
    ensures Pow2(23) == 0x80_0000 && Pow2(31) == 0x8000_0000 && Pow2(32) == TWO_32
    ensures Pow2(52) == 0x10_0000_0000_0000 && Pow2(63) == 0x8000_0000_0000_0000 && Pow2(64) == TWO_64
  {
    hide Pow2;
    HalfFloat.Pow2Values();
    Pow2Of8();
    Pow2Add(23, 8);
    Pow2Add(16, 16);
    Pow2Add(13, 13);
    Pow2Add(26, 26);
    Pow2Add(32, 31);
    Pow2Add(32, 32);
  }

  /** A number: neither infinite nor a NaN. */
  predicate Finite(t: ValueType, v: nat)
  {
    IsFloat(t) ==> v % SignBit(t) < Infinity(t)
  }

  lemma SignBitOf(v: nat, p: nat)
    requires p > 0 && v < 2 * p
    ensures v / p % 2 == (if v < p then 0 else 1) && (v < p ==> v % p == v)
  {
    DivModUnique(v, p, if v < p then 0 else 1, if v < p then v else v - p);
  }

  lemma KeyIsSignedMagnitude(t: ValueType, v: nat)
    requires IsFloat(t) && v < Range(t)
    ensures Key(t, v) == FloatOrder.SignedMagnitude(v, if t == Float32 then 31 else 63)
  {
    hide Pow2;
    Powers();
    SignBitOf(v, SignBit(t));
  }

  lemma Finite32Is(v: nat)
    requires v < TWO_32
    ensures Finite(Float32, v) <==> HalfFloat.Finite32(v)
  {
    hide Pow2, Field;
    var k, w := 23, 8;
    Powers();
    Pow2Of8();
    FieldIsDivMod(v, k, w);
    FloatOrder.FieldsOfMagnitude(v, k, w);
    assert k + w == 31;
    FractionBelow(v % Pow2(31));
  }

  lemma FractionBelow(mag: nat)
    requires mag < 0x8000_0000
    ensures mag < 0x7F80_0000 <==> mag / 0x80_0000 != 255
  {
  }

  /** Finite binary32 numbers are compared by their exact values. */
  lemma Less32IsLess(a: nat, b: nat)
    requires a < TWO_32 && b < TWO_32 && Finite(Float32, a) && Finite(Float32, b)
    ensures HalfFloat.Finite32(a) && HalfFloat.Finite32(b)
    ensures Less(Float32, a, b) <==> HalfFloat.Value32(a) < HalfFloat.Value32(b)
  {
    hide Key, HalfFloat.Finite32, HalfFloat.Value32, FloatOrder.SignedMagnitude;
    Finite32Is(a);
    Finite32Is(b);
    KeyIsSignedMagnitude(Float32, a);
    KeyIsSignedMagnitude(Float32, b);
    FloatOrder.Order32(a, b);
  }

  /** Finite binary64 numbers are compared by their exact values. */
  lemma Less64IsLess(a: nat, b: nat)
    requires a < TWO_64 && b < TWO_64 && Finite(Float64, a) && Finite(Float64, b)
    ensures Less(Float64, a, b) <==> FloatOrder.Value64(a) < FloatOrder.Value64(b)
  {
    hide Key, FloatOrder.Value64, FloatOrder.SignedMagnitude;
    KeyIsSignedMagnitude(Float64, a);
    KeyIsSignedMagnitude(Float64, b);
    FloatOrder.Order64(a, b);
  }

  /** The infinities lie above and below all numbers, and what is not a number is in no order. */
  lemma InfinitiesAndNaNs(t: ValueType, a: nat, b: nat)
    requires IsFloat(t) && a < Range(t)
    ensures Finite(t, a) ==> Less(t, a, Infinity(t)) && Less(t, SignBit(t) + Infinity(t), a)
    ensures Less(t, SignBit(t) + Infinity(t), Infinity(t))
    ensures a % SignBit(t) > Infinity(t) ==> !Less(t, a, b) && !Less(t, b, a)
  {
    SignBitOf(a, SignBit(t));
    SignBitOf(SignBit(t) + Infinity(t), SignBit(t));
    DivModUnique(SignBit(t) + Infinity(t), SignBit(t), 1, Infinity(t));
    DivModUnique(Infinity(t), SignBit(t), 0, Infinity(t));
  }

  /** Of finite binary32 counters, the maximum has the largest value. */
  lemma LargestValue32(ts: Types, raw: seq<Byte>, samples: nat, init: nat, c: nat, m: nat, j: nat)
    requires c < |ts| && ts[c] == Float32 && MaximumOfCounters(ts, raw, samples, init, c, m) && j < samples
    requires m < TWO_32 && init < TWO_32 && Finite(Float32, m) && Finite(Float32, init)
    ensures HalfFloat.Finite32(m) && HalfFloat.Finite32(init) && CounterInside(ts, |raw|, j, c)
    ensures HalfFloat.Value32(init) <= HalfFloat.Value32(m)
    ensures var v := Counter(ts, raw, j, c);
            v < TWO_32 && Finite(Float32, v) ==> HalfFloat.Finite32(v) && HalfFloat.Value32(v) <= HalfFloat.Value32(m)
  {
    hide Less, HalfFloat.Finite32, HalfFloat.Value32, Counter, CounterInside, Finite;
    Less32IsLess(m, init);
    var v := Counter(ts, raw, j, c);
    if v < TWO_32 && Finite(Float32, v) { Less32IsLess(m, v); }
  }
}
