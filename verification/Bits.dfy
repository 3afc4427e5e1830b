/**
 Powers of two, bitwise operations on unbounded naturals, bit fields and
 little-endian words.  The bitwise operators are defined bit by bit; the lemmas
 turn the mask-and-shift expressions of the driver into division and remainder.
 */
module Bits {

  type Byte = b: nat | b < 256

  const TWO_32: nat := 0x1_0000_0000
  const TWO_64: nat := 0x1_0000_0000_0000_0000

  function Pow2(n: nat): (p: nat)
    ensures p > 0
  {
    if n == 0 then 1 else 2 * Pow2(n - 1)
  }

  /** Bitwise conjunction. */
  function And(a: nat, b: nat): (r: nat)
    decreases a
  {
    if a == 0 then 0 else 2 * And(a / 2, b / 2) + (a % 2) * (b % 2)
  }

  /** Bitwise disjunction. */
  function Or(a: nat, b: nat): (r: nat)
    decreases a + b
  {
    if a == 0 then b
    else if b == 0 then a
    else 2 * Or(a / 2, b / 2) + (if a % 2 == 1 || b % 2 == 1 then 1 else 0)
  }

  /** Shift left: a * 2^k (ShlIsMul). */
  function Shl(a: nat, k: nat): (r: nat)
  {
    if k == 0 then a else 2 * Shl(a, k - 1)
  }

  /** Shift right: a / 2^k (ShrIsDiv). */
  function Shr(a: nat, k: nat): (r: nat)
  {
    if k == 0 then a else Shr(a / 2, k - 1)
  }

  /** The low width bits: a mod 2^width (LowIsMod). */
  function Low(a: nat, width: nat): (r: nat)
    ensures r < Pow2(width)
  {
    if width == 0 then 0 else 2 * Low(a / 2, width - 1) + a % 2
  }

  /** Bits lo, lo+1, ..., lo+width-1 of x, as a number. */
  function Field(x: nat, lo: nat, width: nat): (f: nat)
  {
    Low(Shr(x, lo), width)
  }

  // ---------------------------------------------------------------- arithmetic

  lemma DivModUnique(x: int, d: int, q: int, r: int)
    requires 0 <= r < d && x == q * d + r
    ensures x / d == q && x % d == r
  {
    var q', r' := x / d, x % d;
    assert (q - q') * d == r' - r;
    MulSmall(q - q', d);
  }

  lemma MulSmall(k: int, d: int)
    requires -d < k * d < d
    ensures k == 0
  {
    if k >= 1 {
      MulMono(1, k, d);
    } else if k <= -1 {
      MulMono(k, -1, d);
    }
  }

  lemma MulMono(x: int, y: int, d: int)
    requires x <= y && 0 <= d
    ensures x * d <= y * d
  {
  }

  lemma NextMultiple(i: nat, n: nat)
    ensures (i + 1) * n == i * n + n
  {
  }

  lemma MulAssoc(a: nat, b: nat, c: nat)
    ensures a * (b * c) == a * b * c
  {
  }

  lemma MulRegroup(q: int, b: int, s: int, a: int, r: int)
    ensures (q * b + s) * a + r == q * (a * b) + (r + s * a)
  {
    calc {
      (q * b + s) * a;
      q * b * a + s * a;
      { assert q * b * a == q * (b * a) && b * a == a * b; }
      q * (a * b) + s * a;
    }
  }

  lemma MulBound(s: int, a: int, b: int, r: int)
    requires 0 <= s < b && 0 <= r < a
    ensures 0 <= r + s * a < a * b
  {
    MulMono(0, s, a);
    MulMono(s, b - 1, a);
    assert (b - 1) * a == a * b - a;
  }

  lemma {:induction false} Pow2Add(a: nat, b: nat)
    ensures Pow2(a + b) == Pow2(a) * Pow2(b)
  {
    if a > 0 {
      Pow2Add(a - 1, b);
      MulAssoc(2, Pow2(a - 1), Pow2(b));
    }
  }

  lemma {:induction false} Pow2Mono(a: nat, b: nat)
    requires a <= b
    ensures Pow2(a) <= Pow2(b)
  {
    if a < b { Pow2Mono(a, b - 1); }
  }

  /** Division and remainder by a product, done one factor at a time. */
  lemma DivModChain(x: nat, a: nat, b: nat)
    requires a > 0 && b > 0
    ensures a * b > 0
    ensures x / (a * b) == x / a / b
    ensures x % (a * b) == x % a + x / a % b * a
  {
    var q, r := x / a, x % a;
    var q2, r2 := q / b, q % b;
    MulBound(r2, a, b, r);
    MulRegroup(q2, b, r2, a, r);
    DivModUnique(x, a * b, q2, r + r2 * a);
  }

  // ------------------------------------------- shifts and masks as arithmetic

  lemma {:induction false} ShlIsMul(a: nat, k: nat)
    ensures Shl(a, k) == a * Pow2(k)
  {
    if k > 0 { ShlIsMul(a, k - 1); }
  }

  lemma {:induction false} ShrIsDiv(a: nat, k: nat)
    ensures Shr(a, k) == a / Pow2(k)
  {
    if k > 0 {
      ShrIsDiv(a / 2, k - 1);
      DivModChain(a, 2, Pow2(k - 1));
    }
  }

  lemma {:induction false} LowIsMod(a: nat, width: nat)
    ensures Low(a, width) == a % Pow2(width)
  {
    if width > 0 {
      LowIsMod(a / 2, width - 1);
      DivModChain(a, 2, Pow2(width - 1));
    }
  }

  /** A field is what division and remainder by powers of two leave. */
  lemma FieldIsDivMod(x: nat, lo: nat, width: nat)
    ensures Field(x, lo, width) == x / Pow2(lo) % Pow2(width)
  {
    ShrIsDiv(x, lo);
    LowIsMod(Shr(x, lo), width);
  }

  lemma {:induction false} AndZero(x: nat)
    ensures And(x, 0) == 0
  {
    if x > 0 { AndZero(x / 2); }
  }

  lemma AndStep(x: nat, half: nat, bit: nat)
    requires bit < 2
    ensures And(x, 2 * half + bit) == 2 * And(x / 2, half) + (if bit == 1 then x % 2 else 0)
  {
    var m := 2 * half + bit;
    assert m / 2 == half && m % 2 == bit;
  }

  /** Masking with bits [lo, hi) keeps exactly that field, in place. */
  lemma {:induction false} AndMask(x: nat, lo: nat, hi: nat)
    requires lo <= hi
    ensures Pow2(hi) >= Pow2(lo)
    ensures And(x, Pow2(hi) - Pow2(lo)) == Shl(Field(x, lo, hi - lo), lo)
    decreases hi
  {
    hide And;
    Pow2Mono(lo, hi);
    if hi == 0 {
      AndZero(x);
    } else if lo > 0 {
      AndMask(x / 2, lo - 1, hi - 1);
      AndStep(x, Pow2(hi - 1) - Pow2(lo - 1), 0);
    } else {
      AndMask(x / 2, 0, hi - 1);
      AndStep(x, Pow2(hi - 1) - 1, 1);
    }
  }

  /** Disjunction of a low part and a shifted high part is their sum. */
  lemma {:induction false} OrDisjoint(low: nat, high: nat, k: nat)
    requires low < Pow2(k)
    ensures Or(low, Shl(high, k)) == low + Shl(high, k)
    decreases k
  {
    if k > 0 && low != 0 && Shl(high, k) != 0 {
      OrDisjoint(low / 2, high, k - 1);
    }
  }

  lemma {:induction false} LowOfSum(low: nat, high: nat, k: nat)
    requires low < Pow2(k)
    ensures Low(low + Shl(high, k), k) == low
  {
    if k > 0 {
      LowOfSum(low / 2, high, k - 1);
      var s := low + Shl(high, k);
      assert s / 2 == low / 2 + Shl(high, k - 1) && s % 2 == low % 2;
    }
  }

  /** The two parts of a packed word come back as its fields. */
  lemma {:induction false} FieldOfSum(low: nat, high: nat, k: nat, width: nat)
    requires low < Pow2(k) && high < Pow2(width)
    ensures Field(low + Shl(high, k), k, width) == high
    ensures Low(low + Shl(high, k), k) == low
    decreases k
  {
    LowOfSum(low, high, k);
    if k == 0 {
      LowOfSmall(high, width);
    } else {
      FieldOfSum(low / 2, high, k - 1, width);
      assert (low + Shl(high, k)) / 2 == low / 2 + Shl(high, k - 1);
    }
  }

  lemma {:induction false} LowOfSmall(a: nat, width: nat)
    requires a < Pow2(width)
    ensures Low(a, width) == a
  {
    if width > 0 { LowOfSmall(a / 2, width - 1); }
  }

  lemma {:induction false} ShrShr(a: nat, j: nat, k: nat)
    ensures Shr(Shr(a, j), k) == Shr(a, j + k)
  {
    if j > 0 { ShrShr(a / 2, j - 1, k); }
  }

  lemma {:induction false} ShlShl(a: nat, j: nat, k: nat)
    ensures Shl(Shl(a, j), k) == Shl(a, j + k)
  {
    if k > 0 { ShlShl(a, j, k - 1); }
  }

  lemma {:induction false} OrComm(a: nat, b: nat)
    ensures Or(a, b) == Or(b, a)
    decreases a + b
  {
    if a != 0 && b != 0 { OrComm(a / 2, b / 2); }
  }

  lemma {:induction false} ShrShl(a: nat, k: nat)
    ensures Shr(Shl(a, k), k) == a
  {
    if k > 0 { ShrShl(a, k - 1); }
  }

  lemma {:induction false} LowSplit(a: nat, w1: nat, w2: nat)
    ensures Low(a, w1 + w2) == Low(a, w1) + Shl(Low(Shr(a, w1), w2), w1)
  {
    if w1 > 0 { LowSplit(a / 2, w1 - 1, w2); }
  }

  /** Two adjacent fields put side by side are the wide field. */
  lemma FieldSplit(x: nat, lo: nat, w1: nat, w2: nat)
    ensures Field(x, lo, w1 + w2) == Field(x, lo, w1) + Shl(Field(x, lo + w1, w2), w1)
  {
    LowSplit(Shr(x, lo), w1, w2);
    ShrShr(x, lo, w1);
  }

  // ---------------------------------------------------------- little-endian words

  /** Value of a byte string, least significant byte first. */
  function FromLe(s: seq<Byte>): (v: nat)
    decreases |s|
  {
    if s == [] then 0 else s[0] + 256 * FromLe(s[1..])
  }

  /** The n-byte little-endian encoding of v, truncated to n bytes. */
  function ToLe(v: nat, n: nat): (s: seq<Byte>)
    ensures |s| == n
    decreases n
  {
    if n == 0 then [] else [v % 256] + ToLe(v / 256, n - 1)
  }

  lemma {:induction false} FromLeBound(s: seq<Byte>)
    ensures FromLe(s) < Pow2(8 * |s|)
    decreases |s|
  {
    if s != [] {
      FromLeBound(s[1..]);
      Pow2Add(8, 8 * |s[1..]|);
      assert Pow2(8) == 256 by { Pow2Of8(); }
    }
  }

  lemma Pow2Zero()
    ensures Pow2(0) == 1
  {
  }

  lemma Pow2Of8()
    ensures Pow2(8) == 256
  {
    assert Pow2(4) == 16;
    Pow2Add(4, 4);
  }

  /** Encoding and decoding are inverse on values that fit. */
  lemma {:induction false} LeRoundTrip(v: nat, n: nat)
    requires v < Pow2(8 * n)
    ensures FromLe(ToLe(v, n)) == v
    decreases n
  {
    if n > 0 {
      Pow2Add(8, 8 * (n - 1));
      Pow2Of8();
      LeRoundTrip(v / 256, n - 1);
      assert ToLe(v, n)[1..] == ToLe(v / 256, n - 1);
    }
  }

  /** The high bytes of a word count 2^(8n) times as much, n being the number of low bytes. */
  lemma {:induction false} FromLeSplit(s: seq<Byte>, t: seq<Byte>)
    ensures FromLe(s + t) == FromLe(s) + Shl(FromLe(t), 8 * |s|)
    decreases |s|
  {
    if s == [] {
      assert s + t == t;
    } else {
      assert (s + t)[1..] == s[1..] + t;
      FromLeSplit(s[1..], t);
      var x := Shl(FromLe(t), 8 * |s[1..]|);
      ShlShl(FromLe(t), 8 * |s[1..]|, 8);
      ShlIsMul(x, 8);
      Pow2Of8();
    }
  }

  /** Appending a most significant byte adds its shifted value. */
  lemma FromLeSnoc(s: seq<Byte>, b: Byte)
    ensures FromLe(s + [b]) == FromLe(s) + Shl(b, 8 * |s|)
  {
    FromLeSplit(s, [b]);
    assert [b][1..] == [];
  }
}
