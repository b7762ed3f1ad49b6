/** Bitwise operations on naturals, and the bit-smearing `RoundUpPower2` of the name index. */
module Bits {
  function Pow2(k: nat): (p: nat)
    ensures p > 0
  {
    if k == 0 then 1 else 2 * Pow2(k - 1)
  }

  /** `v >> j`. */
  function Shr(v: nat, j: nat): nat { if j == 0 then v else Shr(v / 2, j - 1) }

  /** The lowest `j` bits of `v`. */
  function Low(v: nat, j: nat): (r: nat)
    ensures r < Pow2(j)
  {
    if j == 0 then 0 else v % 2 + 2 * Low(v / 2, j - 1)
  }

  /** `a | b`. */
  function Or(a: nat, b: nat): nat {
    if a == 0 && b == 0 then 0
    else (if a % 2 == 1 || b % 2 == 1 then 1 else 0) + 2 * Or(a / 2, b / 2)
  }

  /** `a & b`. */
  function And(a: nat, b: nat): nat {
    if a == 0 || b == 0 then 0
    else (if a % 2 == 1 && b % 2 == 1 then 1 else 0) + 2 * And(a / 2, b / 2)
  }

  // ---------- division ----------

  lemma MulSmall(d: int, k: int)
    requires d > 0 && -d < d * k < d
    ensures k == 0
  {
  }

  lemma DivModUnique(a: int, d: int, q: int, r: int)
    requires d > 0 && a == d * q + r && 0 <= r < d
    ensures a / d == q && a % d == r
  {
    assert d * (a / d - q) == r - a % d;
    MulSmall(d, a / d - q);
  }

  lemma HalfMod(h: nat, p: nat)
    requires p > 0
    ensures h % (2 * p) == h % 2 + 2 * ((h / 2) % p)
  {
    var q, r := (h / 2) / p, (h / 2) % p;
    assert h / 2 == q * p + r;
    assert h == (2 * p) * q + (2 * r + h % 2);
    DivModUnique(h, 2 * p, q, 2 * r + h % 2);
  }

  /** The remainder, by repeated subtraction. */
  function Rem(x: nat, a: nat): (r: nat)
    requires a > 0
    ensures r < a
  {
    if x < a then x else Rem(x - a, a)
  }

  lemma {:induction false} RemIsMod(x: nat, a: nat)
    requires a > 0
    ensures Rem(x, a) == x % a
  {
    if x < a {
      DivModUnique(x, a, 0, x);
    } else {
      RemIsMod(x - a, a);
      DivModUnique(x, a, (x - a) / a + 1, (x - a) % a);
    }
  }

  /** The lowest bits are the remainder by a power of two. */
  lemma {:induction false} LowMod(v: nat, k: nat)
    ensures Low(v, k) == v % Pow2(k)
  {
    if k > 0 {
      LowMod(v / 2, k - 1);
      HalfMod(v, Pow2(k - 1));
    }
  }

  /** `a & (a - 1)` is zero only for powers of two. */
  lemma {:induction false} LoneBit(a: nat) returns (k: nat)
    requires a > 0 && And(a, a - 1) == 0
    ensures a == Pow2(k)
  {
    if a == 1 {
      k := 0;
    } else {
      assert a % 2 == 0 by {
        if a % 2 == 1 { AndSelf(a / 2); }
      }
      assert (a - 1) / 2 == a / 2 - 1;
      k := LoneBit(a / 2);
      k := k + 1;
    }
  }

  lemma {:induction false} AndSelf(a: nat)
    ensures And(a, a) == a
  {
    if a > 0 {
      AndSelf(a / 2);
    }
  }

  // ---------- masks ----------

  /** Masking with `2^k - 1` keeps the lowest `k` bits. */
  lemma {:induction false} AndMask(h: nat, k: nat)
    ensures And(h, Pow2(k) - 1) == Low(h, k)
  {
    if h == 0 {
      LowSmall(0, k);
    } else if k > 0 {
      AndMask(h / 2, k - 1);
      assert (Pow2(k) - 1) % 2 == 1 && (Pow2(k) - 1) / 2 == Pow2(k - 1) - 1;
    }
  }

  lemma {:induction false} LowSmall(v: nat, k: nat)
    requires v < Pow2(k)
    ensures Low(v, k) == v
  {
    if k > 0 {
      LowSmall(v / 2, k - 1);
    }
  }

  lemma {:induction false} LowOfPower(k: nat)
    ensures Low(Pow2(k), k) == 0
  {
    if k > 0 {
      LowOfPower(k - 1);
    }
  }

  // ---------- shifts ----------

  lemma {:induction false} ShrAdd(v: nat, i: nat, j: nat)
    ensures Shr(Shr(v, i), j) == Shr(v, i + j)
  {
    if i > 0 {
      ShrAdd(v / 2, i - 1, j);
    }
  }

  lemma {:induction false} ShrZero(j: nat)
    ensures Shr(0, j) == 0
  {
    if j > 0 {
      ShrZero(j - 1);
    }
  }

  lemma {:induction false} ShrOnes(j: nat, i: nat)
    requires i <= j
    ensures Shr(Pow2(j) - 1, i) == Pow2(j - i) - 1
  {
    if i > 0 {
      assert (Pow2(j) - 1) / 2 == Pow2(j - 1) - 1;
      ShrOnes(j - 1, i - 1);
    }
  }

  lemma {:induction false} ShrOr(a: nat, b: nat, j: nat)
    ensures Shr(Or(a, b), j) == Or(Shr(a, j), Shr(b, j))
  {
    if j > 0 {
      assert Or(a, b) / 2 == Or(a / 2, b / 2);
      ShrOr(a / 2, b / 2, j - 1);
    }
  }

  lemma {:induction false} ShrBounds(v: nat, j: nat)
    ensures Shr(v, j) == 0 <==> v < Pow2(j)
  {
    if j > 0 {
      ShrBounds(v / 2, j - 1);
    }
  }

  lemma {:induction false} OrZero(a: nat)
    ensures Or(a, 0) == a
  {
    if a > 0 {
      OrZero(a / 2);
    }
  }

  // ---------- smearing the top bit ----------

  /** Bits `k` down to `k + 1 - j` of `v` are ones, and nothing is above them. */
  ghost predicate TopOnes(v: nat, k: nat, j: nat) {
    j <= k + 1 && Shr(v, k + 1 - j) == Pow2(j) - 1
  }

  /** Or-ing ones into the bits below `j` ones. */
  lemma {:induction false} FillOnes(v: nat, i: nat, j: nat)
    requires Shr(v, i) == Pow2(j) - 1
    ensures Or(v, Pow2(i) - 1) == Pow2(i + j) - 1
  {
    if i == 0 {
      OrZero(v);
    } else {
      FillOnes(v / 2, i - 1, j);
      assert (Pow2(i) - 1) % 2 == 1 && (Pow2(i) - 1) / 2 == Pow2(i - 1) - 1;
    }
  }

  /** One step `v |= v >> j` doubles the run of ones, as far as there are bits. */
  lemma Smear(v: nat, k: nat, j: nat)
    requires TopOnes(v, k, j)
    ensures TopOnes(Or(v, Shr(v, j)), k, if 2 * j <= k + 1 then 2 * j else k + 1)
  {
    var j' := if 2 * j <= k + 1 then 2 * j else k + 1;
    var m, i := k + 1 - j', j' - j;
    var a := Shr(v, m);
    ShrOr(v, Shr(v, j), m);
    ShrAdd(v, j, m);
    ShrAdd(v, m, j);
    ShrAdd(v, m, i);
    assert Shr(a, i) == Pow2(j) - 1;
    ShrAdd(a, i, j - i);
    ShrOnes(j, j - i);
    assert Shr(a, j) == Pow2(i) - 1;
    FillOnes(a, i, j);
  }

  function Smeared(v: nat, j: nat): nat { Or(v, Shr(v, j)) }

  const UINT32_LIMIT: nat := 0x1_0000_0000

  /** The five smearing steps. */
  function Smeared5(v: nat): nat { Smeared(Smeared(Smeared(Smeared(Smeared(v, 1), 2), 4), 8), 16) }

  /** Decrement and increment in 32-bit arithmetic, wrap-around included. */
  function Decrement(v: nat): nat
    requires v < UINT32_LIMIT
  {
    if v == 0 then UINT32_LIMIT - 1 else v - 1
  }

  function Increment(v: nat): nat { (v + 1) % UINT32_LIMIT }

  function RoundUpPower2(val: nat): nat
    requires val < UINT32_LIMIT
  {
    Increment(Smeared5(Decrement(val)))
  }

  /** The position of the highest one. */
  function TopBit(v: nat): (k: nat)
    requires v > 0
    ensures TopOnes(v, k, 1) && Pow2(k) <= v < Pow2(k + 1)
  {
    if v == 1 then 0 else TopBit(v / 2) + 1
  }

  lemma {:induction false} Pow2Monotone(i: nat, j: nat)
    requires i <= j
    ensures Pow2(i) <= Pow2(j)
  {
    if i < j {
      Pow2Monotone(i, j - 1);
    }
  }

  lemma Pow2At()
    ensures Pow2(31) == 0x8000_0000 && Pow2(32) == UINT32_LIMIT
  {
    assert Pow2(8) == 256;
    assert Pow2(16) == 65536;
    assert Pow2(24) == 0x100_0000;
    assert Pow2(31) == 0x8000_0000;
  }

  function Cap(j: nat, k: nat): nat { if j <= k + 1 then j else k + 1 }

  lemma SmearStep(v: nat, k: nat, j: nat)
    requires TopOnes(v, k, Cap(j, k))
    ensures TopOnes(Smeared(v, j), k, Cap(2 * j, k))
  {
    if j <= k + 1 {
      Smear(v, k, j);
    } else {
      ShrAdd(v, k + 1, j - (k + 1));
      ShrOnes(k + 1, k + 1);
      ShrZero(j - (k + 1));
      OrZero(v);
    }
  }

  /** The five smearing steps turn every bit below the highest one into a one. */
  lemma SmearAll(v: nat)
    requires 0 < v < UINT32_LIMIT
    ensures Smeared5(v) == Pow2(TopBit(v) + 1) - 1
    ensures TopBit(v) < 32
  {
    var k := TopBit(v);
    TopBitBelow(v);
    var v1 := Smeared(v, 1);
    var v2 := Smeared(v1, 2);
    var v3 := Smeared(v2, 4);
    var v4 := Smeared(v3, 8);
    SmearStep(v, k, 1);
    SmearStep(v1, k, 2);
    SmearStep(v2, k, 4);
    SmearStep(v3, k, 8);
    SmearStep(v4, k, 16);
    assert Cap(32, k) == k + 1;
  }

  lemma TopBitBelow(v: nat)
    requires 0 < v < UINT32_LIMIT
    ensures TopBit(v) < 32
  {
    Pow2At();
    Pow2Monotone(if TopBit(v) < 32 then 0 else 32, TopBit(v));
  }

  /** The exponent of the least power of two that is not below `val`. */
  function Exponent(val: nat): (e: nat)
    requires val > 0
    ensures val <= Pow2(e) < 2 * val
  {
    if val == 1 then 0 else TopBit(val - 1) + 1
  }

  lemma SmearOfZero()
    ensures Smeared5(0) == 0
  {
    ShrZero(1);
    ShrZero(2);
    ShrZero(4);
    ShrZero(8);
    ShrZero(16);
  }

  /**
   For a positive argument the result is the least power of two that is not smaller, as long as
   there is one below 2^32; above 2^31 the last increment wraps to zero.
   */
  lemma RoundUpIsLeast(val: nat)
    requires 0 < val < UINT32_LIMIT
    ensures val <= 0x8000_0000 ==> RoundUpPower2(val) == Pow2(Exponent(val)) && Exponent(val) < 32
    ensures val > 0x8000_0000 ==> RoundUpPower2(val) == 0
  {
    if val == 1 {
      RoundUpOne();
    } else {
      RoundUpAbove(val, TopBit(val - 1));
    }
  }

  lemma RoundUpOne()
    ensures RoundUpPower2(1) == 1
  {
    SmearOfZero();
    assert Decrement(1) == 0;
  }

  lemma RoundUpAbove(val: nat, k: nat)
    requires 1 < val < UINT32_LIMIT && k == TopBit(val - 1)
    ensures val <= 0x8000_0000 ==> RoundUpPower2(val) == Pow2(k + 1) && k < 31
    ensures val > 0x8000_0000 ==> RoundUpPower2(val) == 0
  {
    RoundUpMore(val, val - 1, Pow2(k + 1) - 1);
    RoundUpTail(val, k);
  }

  lemma RoundUpMore(val: nat, v: nat, ones: nat)
    requires 1 < val < UINT32_LIMIT && v == Decrement(val) && ones == Pow2(TopBit(v) + 1) - 1
    ensures RoundUpPower2(val) == Increment(ones)
  {
    SmearAll(v);
  }

  lemma RoundUpTail(val: nat, k: nat)
    requires 1 < val < UINT32_LIMIT && Pow2(k) <= val - 1 < Pow2(k + 1)
    ensures val <= 0x8000_0000 ==> Increment(Pow2(k + 1) - 1) == Pow2(k + 1) && k < 31
    ensures val > 0x8000_0000 ==> Increment(Pow2(k + 1) - 1) == 0
  {
    Pow2At();
    Pow2Monotone(if k < 32 then 0 else 32, k);
    if k < 31 {
      Pow2Monotone(k + 1, 31);
    }
  }
}
