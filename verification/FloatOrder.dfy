/**
 The order of floating-point numbers by sign and magnitude of their bit patterns, against the
 order of their exact values (section 3.4 of IEEE 754), for any number of fraction bits.
 */
module FloatOrder {
  import opened Bits
  import HalfFloat

  /** Value of exponent field e and fraction f of k bits, in units of the smallest subnormal. */
  function Scaled(e: nat, f: nat, k: nat): (u: nat)
  {
    if e == 0 then f else Shl(Pow2(k) + f, e - 1)
  }

  function Magnitude(mag: nat, k: nat): (u: nat)
  {
    var p: nat := Pow2(k);
    Scaled(Quotient(mag, p), Remainder(mag, p), k)
  }

  function Quotient(a: nat, p: nat): (q: nat)
    requires p > 0
  {
    a / p
  }

  function Remainder(a: nat, p: nat): (r: nat)
    requires p > 0
  {
    a % p
  }

  /** Value of a pattern of n bits below the sign. */
  function Units(b: nat, k: nat, n: nat): (u: int)
  {
    var u := Magnitude(b % Pow2(n), k);
    if b / Pow2(n) % 2 == 1 then 0 - u else u
  }

  /** Sign and magnitude as one number. */
  function SignedMagnitude(b: nat, n: nat): (s: int)
  {
    if b / Pow2(n) % 2 == 1 then 0 - (b % Pow2(n)) else b % Pow2(n)
  }

  lemma {:induction false} ShlGrows(a: nat, i: nat, j: nat)
    requires i <= j
    ensures Shl(a, i) <= Shl(a, j)
    decreases j
  {
    if i < j { ShlGrows(a, i, j - 1); }
  }

  lemma {:induction false} ShlStrict(a: nat, b: nat, i: nat)
    requires a < b
    ensures Shl(a, i) < Shl(b, i)
  {
    if i > 0 { ShlStrict(a, b, i - 1); }
  }

  lemma Parts(mag: nat, k: nat)
    ensures var e, f := mag / Pow2(k), mag % Pow2(k); mag == e * Pow2(k) + f && f < Pow2(k)
  {
  }

  /** A larger exponent outweighs the fraction. */
  lemma ExponentWins(e: nat, f: nat, e': nat, f': nat, k: nat)
    requires e < e' && f < Pow2(k)
    ensures Scaled(e, f, k) < Scaled(e', f', k)
  {
    hide Pow2;
    var p := Pow2(k);
    ShlGrows(p + f', 0, e' - 1);
    if e > 0 {
      ShlStrict(p + f, p + p, e - 1);
      ShlTwice(p, e - 1);
      ShlGrows(p, e, e' - 1);
      if f' > 0 { ShlStrict(p, p + f', e' - 1); }
    }
  }

  lemma ShlTwice(p: nat, i: nat)
    ensures Shl(p + p, i) == Shl(p, i + 1)
  {
    ShlIsMul(p + p, i);
    ShlIsMul(p, i + 1);
    assert (p + p) * Pow2(i) == p * (2 * Pow2(i)) by { Doubling(p, Pow2(i)); }
  }

  lemma Doubling(p: nat, q: nat)
    ensures (p + p) * q == p * (2 * q)
  {
  }

  /** Larger magnitudes have larger values. */
  lemma MagnitudeOrder(a: nat, b: nat, k: nat)
    requires a < b
    ensures Magnitude(a, k) < Magnitude(b, k)
  {
    hide Pow2, Shl;
    Parts(a, k);
    Parts(b, k);
    var e, f, e', f' := a / Pow2(k), a % Pow2(k), b / Pow2(k), b % Pow2(k);
    if e' < e {
      MulMono(e' + 1, e, Pow2(k));
      NextMultiple(e', Pow2(k));
      assert false;
    } else if e < e' {
      ExponentWins(e, f, e', f', k);
    } else if e > 0 {
      ShlStrict(Pow2(k) + f, Pow2(k) + f', e - 1);
    }
  }

  lemma MagnitudeZero(k: nat)
    ensures Magnitude(0, k) == 0
  {
    DivModUnique(0, Pow2(k), 0, 0);
  }

  /** The order by sign and magnitude is the order of the values. */
  lemma ValueOrder(a: nat, b: nat, k: nat, n: nat)
    ensures SignedMagnitude(a, n) < SignedMagnitude(b, n) <==> Units(a, k, n) < Units(b, k, n)
  {
    hide Magnitude, Pow2;
    var x, y := a % Pow2(n), b % Pow2(n);
    MagnitudeZero(k);
    if x < y { MagnitudeOrder(x, y, k); }
    if y < x { MagnitudeOrder(y, x, k); }
    if x > 0 { MagnitudeOrder(0, x, k); }
    if y > 0 { MagnitudeOrder(0, y, k); }
  }

  // -------------------------------------------------------------------- binary32 and binary64

  lemma FieldsOfMagnitude(b: nat, k: nat, w: nat)
    ensures b % Pow2(k + w) / Pow2(k) == b / Pow2(k) % Pow2(w) && b % Pow2(k + w) % Pow2(k) == b % Pow2(k)
  {
    hide Pow2;
    Pow2Add(k, w);
    DivModChain(b, Pow2(k), Pow2(w));
    DivModUnique(b % Pow2(k + w), Pow2(k), b / Pow2(k) % Pow2(w), b % Pow2(k));
  }

  /** The bits of a binary32 value are read here as in HalfFloat. */
  lemma Units32Agree(b: nat)
    requires HalfFloat.Finite32(b)
    ensures Units(b, 23, 31) == HalfFloat.Units32(b)
  {
    hide Pow2, Shl, Low, Field, Scaled;
    var k, w, n := 23, 8, 31;
    HalfFloat.Pow2Values();
    FieldsOfMagnitude(b, k, w);
    FieldIsDivMod(b, n, 1);
    FieldIsDivMod(b, k, w);
    LowIsMod(b, k);
    OneBit();
    assert k + w == n;
    Scaling(b / Pow2(k) % Pow2(w), b % Pow2(k), k);
  }

  lemma OneBit()
    ensures Pow2(1) == 2
  {
  }

  lemma Scaling(e: nat, f: nat, k: nat)
    ensures Scaled(e, f, k) == if e == 0 then f else Shl(Pow2(k) + f, e - 1)
  {
  }

  const SMALLEST_64: nat := 1074

  /** The exact value of a finite binary64 pattern. */
  function Value64(b: nat): (r: real)
  {
    Units(b, 52, 63) as real / Pow2(SMALLEST_64) as real
  }

  lemma QuotientOrder(x: int, y: int, p: nat)
    requires p > 0
    ensures x < y <==> x as real / p as real < y as real / p as real
  {
    var d := p as real;
    assert x as real == x as real / d * d && y as real == y as real / d * d;
  }

  /** Sign and magnitude order finite binary32 patterns by their exact values. */
  lemma Order32(a: nat, b: nat)
    requires HalfFloat.Finite32(a) && HalfFloat.Finite32(b)
    ensures SignedMagnitude(a, 31) < SignedMagnitude(b, 31) <==> HalfFloat.Value32(a) < HalfFloat.Value32(b)
  {
    hide Pow2, SignedMagnitude, Units, HalfFloat.Units32, HalfFloat.Finite32;
    ValueOrder(a, b, 23, 31);
    Units32Agree(a);
    Units32Agree(b);
    QuotientOrder(HalfFloat.Units32(a), HalfFloat.Units32(b), Pow2(149));
  }

  lemma Order64(a: nat, b: nat)
    ensures SignedMagnitude(a, 63) < SignedMagnitude(b, 63) <==> Value64(a) < Value64(b)
  {
    hide Pow2, SignedMagnitude, Units;
    ValueOrder(a, b, 52, 63);
    QuotientOrder(Units(a, 52, 63), Units(b, 52, 63), Pow2(SMALLEST_64));
  }
}
