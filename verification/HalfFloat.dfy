/**
 Conversion of binary16 to binary32 bit patterns and the class index computed
 from the converted values (validation/umd-test/utilities/data_handle.cpp,
 validation/umd-test/graph_utilities.cpp).  Floating-point numbers are their bit
 patterns; their values are exact reals, as in section 3.4 of IEEE 754.
 */
module HalfFloat {
  import opened Bits

  // ------------------------------------------------------------- values of patterns

  predicate Finite16(d: nat) { Field(d, 10, 5) != 31 }

  predicate Finite32(b: nat) { Field(b, 23, 8) != 255 }

  function Signed(sign: nat, magnitude: nat): (r: int)
  {
    if sign == 1 then 0 - magnitude else magnitude
  }

  /**
   Value of a finite binary16 pattern in units of 2^-149: a subnormal is
   m * 2^-24, a normal number (2^10 + m) * 2^(e-25).
   */
  function Units16(d: nat): (r: int)
    requires Finite16(d)
  {
    var e, m := Field(d, 10, 5), Low(d, 10);
    Signed(Field(d, 15, 1), if e == 0 then Shl(m, e + 125) else Shl(1024 + m, e + 124))
  }

  /**
   Value of a finite binary32 pattern in units of 2^-149: a subnormal is
   f * 2^-149, a normal number (2^23 + f) * 2^(e-150).
   */
  function Units32(b: nat): (r: int)
    requires Finite32(b)
  {
    var e, f := Field(b, 23, 8), Low(b, 23);
    Signed(Field(b, 31, 1), if e == 0 then f else Shl(8388608 + f, e - 1))
  }

  /** The exact real values of the patterns. */
  function Value16(d: nat): (r: real)
    requires Finite16(d)
  {
    Units16(d) as real / Pow2(149) as real
  }

  function Value32(b: nat): (r: real)
    requires Finite32(b)
  {
    Units32(b) as real / Pow2(149) as real
  }

  // ------------------------------------------------------------------ the conversion

  function Log2(n: nat): (l: nat)
    requires n > 0
    ensures Pow2(l) <= n < Pow2(l + 1)
  {
    if n == 1 then 0 else 1 + Log2(n / 2)
  }

  /** Pattern with biased exponent and k fraction bits of a number with at most k + 1 bits. */
  function PatternOf(n: nat, k: nat): (b: nat)
    requires 0 < n < Pow2(k + 1)
    ensures Shr(b, k) == 127 + Log2(n)
  {
    LeadingBit(n, k);
    var f := Shl(n, k - Log2(n)) - Pow2(k);
    ShrOfSum(f, 127 + Log2(n), k);
    f + Shl(127 + Log2(n), k)
  }

  lemma LeadingBit(n: nat, k: nat)
    requires 0 < n < Pow2(k + 1)
    ensures Log2(n) <= k && Pow2(k) <= Shl(n, k - Log2(n)) < Pow2(k + 1) == Pow2(k) + Pow2(k)
  {
    hide Log2;
    if Log2(n) > k { Pow2Mono(k + 1, Log2(n)); }
    Normalise(n, k);
  }

  /** Pattern of the float for n, exact for these n (FloatIsExact). */
  function FloatOfNat(n: nat): (b: nat)
    requires 0 < n < Pow2(24)
    ensures Shr(b, 23) == 127 + Log2(n)
  {
    PatternOf(n, 23)
  }

  /** Exponent and fraction of a subnormal half, found through its conversion to float. */
  function SubnormalBits(mantis: nat): (bits: nat)
    requires 0 < mantis < Pow2(24) && Log2(mantis) <= 23
  {
    var v := Shr(FloatOfNat(mantis), 23);
    Or(Shl(v - 37, 23), And(Shl(mantis, 150 - v) % Pow2(32), 0x7FE000))
  }

  /** rawFp16ToFp32: the pattern of the float for the pattern of the half. */
  function RawFp16ToFp32(data: nat): (output: nat)
    requires data < 65536
  {
    var exp := Shr(And(data, 0x7C00), 10);
    var mantis := Shl(And(data, 0x3FF), 13);
    var sign := Shl(And(data, 0x8000), 16);
    if exp != 0 then
      Or(sign, Or(Shl(exp + 0x70, 23), mantis))
    else if mantis != 0 then
      MantisRange(data);
      Or(sign, SubnormalBits(mantis))
    else
      sign
  }

  // --------------------------------------------------------------- bit-level lemmas

  /** Shifting a number's leading bit to position p. */
  lemma Normalise(n: nat, p: nat)
    requires n > 0 && Log2(n) <= p
    ensures Pow2(p) <= Shl(n, p - Log2(n)) < Pow2(p + 1)
  {
    ShlMono(Pow2(Log2(n)), n, Pow2(Log2(n) + 1), p - Log2(n));
    ShlPow2(Log2(n), p - Log2(n));
    ShlPow2(Log2(n) + 1, p - Log2(n));
  }

  lemma {:induction false} ShlMono(a: nat, b: nat, c: nat, k: nat)
    requires a <= b < c
    ensures Shl(a, k) <= Shl(b, k) < Shl(c, k)
  {
    if k > 0 { ShlMono(a, b, c, k - 1); }
  }

  lemma {:induction false} ShlPow2(n: nat, k: nat)
    ensures Shl(Pow2(n), k) == Pow2(n + k)
  {
    if k > 0 { ShlPow2(n, k - 1); }
  }

  lemma {:induction false} ShrOfSum(low: nat, high: nat, k: nat)
    requires low < Pow2(k)
    ensures Shr(low + Shl(high, k), k) == high
  {
    if k > 0 {
      ShrOfSum(low / 2, high, k - 1);
      assert (low + Shl(high, k)) / 2 == low / 2 + Shl(high, k - 1);
    }
  }

  lemma {:induction false} ShlPos(a: nat, k: nat)
    ensures Shl(a, k) == 0 <==> a == 0
  {
    if k > 0 { ShlPos(a, k - 1); }
  }

  lemma Pow2Values()
    ensures Pow2(10) == 1024 && Pow2(13) == 8192 && Pow2(15) == 32768 && Pow2(16) == 65536
    ensures Pow2(23) == 8388608 && Pow2(24) == 16777216
  {
    assert Pow2(5) == 32;
    Pow2Add(5, 5);
    assert Pow2(13) == 8 * Pow2(10) && Pow2(16) == 8 * Pow2(13);
    Pow2Add(10, 13);
  }

  /** The three masked parts are the fields of the half. */
  lemma HalfParts(d: nat)
    requires d < 65536
    ensures Shr(And(d, 0x7C00), 10) == Field(d, 10, 5)
    ensures And(d, 0x3FF) == Low(d, 10) < 1024
    ensures Shl(And(d, 0x8000), 16) == Shl(Field(d, 15, 1), 31)
  {
    Pow2Values();
    AndMask(d, 10, 15);
    ShrShl(Field(d, 10, 5), 10);
    AndMask(d, 0, 10);
    AndMask(d, 15, 16);
    ShlShl(Field(d, 15, 1), 15, 16);
  }

  lemma MantisRange(d: nat)
    requires d < 65536 && Shl(And(d, 0x3FF), 13) != 0
    ensures 0 < Low(d, 10) < 1024 && Shl(And(d, 0x3FF), 13) == Shl(Low(d, 10), 13)
    ensures 0 < Shl(Low(d, 10), 13) < Pow2(24)
    ensures Log2(Shl(Low(d, 10), 13)) == 13 + Log2(Low(d, 10)) <= 22
  {
    HalfParts(d);
    var m := Low(d, 10);
    ShlPos(m, 13);
    Pow2Values();
    ShlIsMul(m, 13);
    Log2Shl(m, 13);
    if Log2(m) >= 10 { Pow2Mono(10, Log2(m)); }
  }

  lemma {:induction false} Log2Shl(n: nat, k: nat)
    requires n > 0
    ensures Shl(n, k) > 0 && Log2(Shl(n, k)) == k + Log2(n)
  {
    if k > 0 {
      Log2Shl(n, k - 1);
      assert Shl(n, k) / 2 == Shl(n, k - 1);
    }
  }

  /** A word packed as low part and shifted high part splits back into the two. */
  lemma PackTwo(low: nat, high: nat, k: nat)
    requires low < Pow2(k)
    ensures Or(Shl(high, k), low) == low + Shl(high, k)
    ensures Low(low + Shl(high, k), k) == low && Shr(low + Shl(high, k), k) == high
  {
    OrComm(Shl(high, k), low);
    OrDisjoint(low, high, k);
    LowOfSum(low, high, k);
    ShrOfSum(low, high, k);
  }

  /** Sign, exponent (w bits) and fraction (k bits) packed by disjunction are read back. */
  lemma PackFields(s: nat, e: nat, f: nat, k: nat, w: nat)
    requires s < 2 && e < Pow2(w) && f < Pow2(k)
    ensures var b := Or(Shl(s, w + k), Or(Shl(e, k), f));
            Field(b, w + k, 1) == s && Field(b, k, w) == e && Low(b, k) == f
  {
    hide Or, Shl, Low, Shr;
    PackTwo(f, e, k);
    var low := f + Shl(e, k);
    PackBound(f, e, k, w);
    PackTwo(low, s, w + k);
    PackRegroup(s, e, f, k, w);
    PackTwo(f, e + Shl(s, w), k);
    PackTwo(e, s, w);
    LowOfSmall(s, 1);
  }

  lemma PackRegroup(s: nat, e: nat, f: nat, k: nat, w: nat)
    ensures f + Shl(e, k) + Shl(s, w + k) == f + Shl(e + Shl(s, w), k)
  {
    ShlShl(s, w, k);
    ShlPlus(e, Shl(s, w), k);
  }

  lemma {:induction false} PackBound(f: nat, e: nat, k: nat, w: nat)
    requires e < Pow2(w) && f < Pow2(k)
    ensures f + Shl(e, k) < Pow2(w + k)
  {
    if k > 0 { PackBound(f / 2, e, k - 1, w); }
  }

  /** PackFields at the widths of binary32. */
  lemma PackFields32(s: nat, e: nat, f: nat)
    requires s < 2 && e < 256 && f < 8388608
    ensures var b := Or(Shl(s, 31), Or(Shl(e, 23), f));
            Field(b, 31, 1) == s && Field(b, 23, 8) == e && Low(b, 23) == f
  {
    var k, w, n := 23, 8, 31;
    Pow2Values();
    Pow2Of8();
    PackFields(s, e, f, k, w);
    assert w + k == n;
  }

  lemma {:induction false} ShlPlus(a: nat, b: nat, k: nat)
    ensures Shl(a + b, k) == Shl(a, k) + Shl(b, k)
  {
    if k > 0 { ShlPlus(a, b, k - 1); }
  }

  /** The float of a number below 2^24 is exactly that number. */
  lemma FloatIsExact(n: nat)
    requires 0 < n < Pow2(24)
    ensures Finite32(FloatOfNat(n)) && Units32(FloatOfNat(n)) == Shl(n, 149)
  {
    hide Shl, Shr, Low, Or, Pow2, Log2, Field, PatternOf;
    var k, l := 23, Log2(n);
    FloatFields(n, k);
    LeadingBit(n, k);
    Pow2Values();
    ShlShl(n, k - l, 126 + l);
  }

  lemma FloatFields(n: nat, k: nat)
    requires k == 23 && 0 < n < Pow2(k + 1)
    ensures Log2(n) <= k
    ensures var b := PatternOf(n, k);
            && Field(b, 31, 1) == 0 && Field(b, 23, 8) == 127 + Log2(n)
            && Low(b, 23) == Shl(n, k - Log2(n)) - Pow2(k)
  {
    hide Shl, Shr, Low, Or, Pow2, Field, Log2;
    LeadingBit(n, k);
    Pow2Values();
    var f := Shl(n, k - Log2(n)) - Pow2(k);
    PackFields32(0, 127 + Log2(n), f);
    PackTwo(f, 127 + Log2(n), k);
    NoSign(Or(Shl(127 + Log2(n), k), f));
  }

  lemma NoSign(x: nat)
    ensures Or(Shl(0, 31), x) == x
  {
    hide Shl;
    ShlPos(0, 31);
  }

  /** Converted pattern of a normal half, of a zero and of a subnormal half. */
  lemma ConvertedNormal(d: nat)
    requires d < 65536 && Field(d, 10, 5) != 0
    ensures var b := RawFp16ToFp32(d);
            && Field(b, 31, 1) == Field(d, 15, 1)
            && Field(b, 23, 8) == Field(d, 10, 5) + 112
            && Low(b, 23) == Low(d, 10) * 8192
  {
    HalfParts(d);
    Pow2Values();
    ShlIsMul(Low(d, 10), 13);
    HalfFieldBounds(d);
    PackFields32(Field(d, 15, 1), Field(d, 10, 5) + 112, Low(d, 10) * 8192);
  }

  lemma ConvertedZero(d: nat)
    requires d < 65536 && Field(d, 10, 5) == 0 && Low(d, 10) == 0
    ensures var b := RawFp16ToFp32(d);
            Field(b, 31, 1) == Field(d, 15, 1) && Field(b, 23, 8) == 0 && Low(b, 23) == 0
  {
    HalfParts(d);
    HalfFieldBounds(d);
    ShlPos(0, 13);
    ShlPos(0, 23);
    PackFields32(Field(d, 15, 1), 0, 0);
    OrComm(Shl(Field(d, 15, 1), 31), 0);
  }

  lemma SubnormalPattern(m: nat)
    requires 0 < m < 1024
    ensures 0 < Shl(m, 13) < Pow2(24) && Log2(Shl(m, 13)) == 13 + Log2(m) <= 22
    ensures 8388608 <= Shl(m, 23 - Log2(m)) < 16777216
    ensures SubnormalBits(Shl(m, 13)) == Or(Shl(103 + Log2(m), 23), Shl(m, 23 - Log2(m)) - 8388608)
  {
    hide Shl, Shr, Pow2, Log2, And, Or, PatternOf;
    SubnormalFraction(m);
    ShiftedMantissa(m, 13);
  }

  lemma ShiftedMantissa(m: nat, k: nat)
    requires 0 < m < 1024 && k == 13
    ensures Log2(m) <= 9 ==> 0 < Shl(m, k) < Pow2(24) && Log2(Shl(m, k)) == k + Log2(m) <= 22
  {
    hide Shl, Pow2, Log2;
    Log2Shl(m, k);
    Pow2Values();
    ShlIsMul(m, k);
  }

  lemma ConvertedSubnormal(d: nat)
    requires d < 65536 && Field(d, 10, 5) == 0 && Low(d, 10) != 0
    ensures var b, m := RawFp16ToFp32(d), Low(d, 10);
            && Log2(m) <= 9
            && Field(b, 31, 1) == Field(d, 15, 1)
            && Field(b, 23, 8) == 103 + Log2(m)
            && Low(b, 23) + 8388608 == Shl(m, 23 - Log2(m))
  {
    hide SubnormalBits, Shl, Or, Log2, Pow2;
    HalfParts(d);
    HalfFieldBounds(d);
    var m := Low(d, 10);
    ShlPos(m, 13);
    SubnormalPattern(m);
    PackFields32(Field(d, 15, 1), 103 + Log2(m), Shl(m, 23 - Log2(m)) - 8388608);
  }

  lemma HalfFieldBounds(d: nat)
    ensures Field(d, 15, 1) < 2 && Field(d, 10, 5) < 32 && Low(d, 10) < 1024
  {
    Pow2Values();
    assert Pow2(5) == 32 && Pow2(1) == 2;
  }

  /** Dropping the leading one of a normalised number k in [2^p, 2^(p+1)). */
  lemma DropLeadingOne(k: nat, p: nat, q: nat)
    requires Pow2(p) <= k < Pow2(p + 1)
    ensures Pow2(p + q) >= Pow2(q)
    ensures And(Shl(k, q), Pow2(p + q) - Pow2(q)) == Shl(k, q) - Pow2(p + q)
  {
    AndMask(Shl(k, q), q, p + q);
    ShrShl(k, q);
    LowLeadingOne(k, p);
    ShlPlus(k - Pow2(p), Pow2(p), q);
    ShlPow2(p, q);
  }

  lemma LowLeadingOne(k: nat, p: nat)
    requires Pow2(p) <= k < Pow2(p + 1)
    ensures Low(k, p) == k - Pow2(p)
  {
    LowIsMod(k, p);
    DivModUnique(k, Pow2(p), 1, k - Pow2(p));
  }

  lemma SubnormalFraction(m: nat)
    requires 0 < m < 1024
    ensures Log2(m) <= 9
    ensures 8388608 <= Shl(m, 23 - Log2(m)) < 16777216
    ensures And(Shl(Shl(m, 13), 150 - (140 + Log2(m))) % Pow2(32), 0x7FE000)
         == Shl(m, 23 - Log2(m)) - 8388608
  {
    hide Shl, Pow2, Log2, And;
    Pow2Values();
    var l, p, q := Log2(m), 10, 13;
    if l >= 10 { Pow2Mono(10, l); }
    Normalise(m, p + q);
    Normalise(m, p);
    var x := Shl(m, p + q - l);
    ShlShl(m, q, p - l);
    ShlShl(m, p - l, q);
    DropLeadingOne(Shl(m, p - l), p, q);
    Pow2Mono(24, 32);
    DivModUnique(x, Pow2(32), 0, x);
  }

  // ---------------------------------------------------------------- exact real value

  lemma NormalMagnitude(m: nat, e: nat)
    requires e > 0
    ensures Shl(8388608 + m * 8192, e + 112 - 1) == Shl(1024 + m, e + 124)
  {
    var j := 13;
    Pow2Values();
    ShlIsMul(1024 + m, j);
    ShlShl(1024 + m, j, e + 111);
  }

  lemma SubnormalMagnitude(m: nat, f: nat, e: nat)
    requires e == 0 && m > 0 && Log2(m) <= 9 && f + 8388608 == Shl(m, 23 - Log2(m))
    ensures Shl(8388608 + f, 103 + Log2(m) - 1) == Shl(m, e + 125)
  {
    ShlShl(m, 23 - Log2(m), 102 + Log2(m));
  }

  /** The conversion preserves the exact value of every finite half, subnormals included. */
  lemma ConversionExact(d: nat)
    requires d < 65536 && Finite16(d)
    ensures Finite32(RawFp16ToFp32(d))
    ensures Value32(RawFp16ToFp32(d)) == Value16(d)
  {
    hide RawFp16ToFp32, Shl, Low, Log2, Pow2, Shr;
    var e, m := Field(d, 10, 5), Low(d, 10);
    HalfFieldBounds(d);
    if e != 0 {
      ConvertedNormal(d);
      NormalMagnitude(m, e);
    } else if m == 0 {
      ConvertedZero(d);
      ShlPos(0, e + 125);
    } else {
      ConvertedSubnormal(d);
      SubnormalMagnitude(m, Low(RawFp16ToFp32(d), 23), e);
    }
  }

  /** Infinities and NaNs come out finite: the class is kept exactly for finite halves. */
  lemma SpecialsBecomeFinite(d: nat)
    requires d < 65536
    ensures Finite32(RawFp16ToFp32(d))
    ensures Finite16(d) <==> Field(RawFp16ToFp32(d), 23, 8) < 143
  {
    HalfFieldBounds(d);
    if Field(d, 10, 5) != 0 {
      ConvertedNormal(d);
    } else if Low(d, 10) == 0 {
      ConvertedZero(d);
    } else {
      ConvertedSubnormal(d);
    }
  }

  // ------------------------------------------------------------------ the class index

  ghost predicate IsFirstMaximum(values: seq<real>, index: nat)
  {
    && index < |values|
    && (forall i :: 0 <= i < |values| ==> values[i] <= values[index])
    && (forall i :: 0 <= i < index ==> values[i] < values[index])
  }

  ghost function Values16(raw: seq<nat>): (vs: seq<real>)
    requires forall i :: 0 <= i < |raw| ==> Finite16(raw[i])
    ensures |vs| == |raw|
  {
    seq(|raw|, i requires 0 <= i < |raw| => Value16(raw[i]))
  }

  ghost predicate AllFinite16(raw: seq<nat>)
  {
    forall i :: 0 <= i < |raw| ==> raw[i] < 65536 && Finite16(raw[i])
  }

  ghost predicate SameValues(output: seq<nat>, raw: seq<nat>)
    requires AllFinite16(raw)
  {
    && |output| == |raw|
    && forall i :: 0 <= i < |raw| ==> Finite32(output[i]) && Value32(output[i]) == Value16(raw[i])
  }

  /** The loop that fills outputData. */
  method DecodeOutput(raw: seq<nat>) returns (output: seq<nat>)
    requires AllFinite16(raw)
    ensures SameValues(output, raw)
  {
    hide Value32, Finite32, Value16, Finite16, RawFp16ToFp32;
    output := [];
    for i := 0 to |raw|
      invariant SameValues(output, raw[..i])
    {
      ConversionExact(raw[i]);
      var b := RawFp16ToFp32(raw[i]);
      assert raw[..i + 1] == raw[..i] + [raw[i]];
      output := output + [b];
    }
    assert raw[..|raw|] == raw;
  }

  /** std::max_element over floats: the index of the first largest element. */
  method MaxElement(output: seq<nat>) returns (index: nat)
    requires forall i :: 0 <= i < |output| ==> Finite32(output[i])
    ensures output == [] ==> index == 0
    ensures output != [] ==>
              && index < |output|
              && (forall i :: 0 <= i < |output| ==> Value32(output[i]) <= Value32(output[index]))
              && (forall i :: 0 <= i < index ==> Value32(output[i]) < Value32(output[index]))
  {
    hide Value32, Finite32;
    index := 0;
    if |output| == 0 { return; }
    for i := 1 to |output|
      invariant index < i
      invariant forall j :: 0 <= j < i ==> Value32(output[j]) <= Value32(output[index])
      invariant forall j :: 0 <= j < index ==> Value32(output[j]) < Value32(output[index])
    {
      if Value32(output[index]) < Value32(output[i]) {
        index := i;
      }
    }
  }

  /** The class chosen for a half-precision output is the first true maximum. */
  method ClassIndex(raw: seq<nat>) returns (index: nat)
    requires AllFinite16(raw)
    ensures raw == [] ==> index == 0
    ensures raw != [] ==> IsFirstMaximum(Values16(raw), index)
  {
    hide Value32, Finite32, Value16, Finite16;
    var output := DecodeOutput(raw);
    index := MaxElement(output);
  }
}
