/** Machine words as numbers: bits, masks and packing. */
module Bits {

  function Pow2(n: nat): (p: nat)
    ensures p > 0
  {
    if n == 0 then 1 else 2 * Pow2(n - 1)
  }

  const WORD32: nat := 0x1_0000_0000

  lemma WordIsPower()
    ensures Pow2(32) == WORD32
  {
    assert Pow2(8) == 256;
    assert Pow2(16) == 0x1_0000;
    assert Pow2(24) == 0x100_0000;
  }

  /** `x` shifted right by `n`. */
  function Shr(x: nat, n: nat): nat {
    if n == 0 then x else Shr(x / 2, n - 1)
  }

  predicate Bit(x: nat, i: nat) {
    Shr(x, i) % 2 == 1
  }

  /** The bits of `val` selected by the lowest `n` bits of `mask`, packed together. */
  function Packed(mask: nat, val: nat, n: nat): nat {
    if n == 0 then 0
    else if mask % 2 == 1 then val % 2 + 2 * Packed(mask / 2, val / 2, n - 1)
    else Packed(mask / 2, val / 2, n - 1)
  }

  lemma PackedNothing(mask: nat, val: nat)
    ensures Packed(mask, val, 0) == 0
  {
  }

  /** Packing takes one bit off the mask and the value. */
  lemma PackedStep(mask: nat, bit: nat, val: nat, low: nat, n: nat)
    requires bit < 2 && low < 2 && n > 0
    ensures Packed(2 * mask + bit, 2 * val + low, n) ==
            if bit == 1 then low + 2 * Packed(mask, val, n - 1) else Packed(mask, val, n - 1)
  {
    assert (2 * mask + bit) / 2 == mask && (2 * val + low) / 2 == val;
  }

  /** The complement of an `n`-bit word. */
  function Not(x: nat, n: nat): nat
    requires x < Pow2(n)
  {
    Pow2(n) - 1 - x
  }

  lemma {:induction false} ShrNext(x: nat, n: nat)
    ensures Shr(x, n + 1) == Shr(x, n) / 2
  {
    if n > 0 {
      ShrNext(x / 2, n - 1);
    }
  }

  lemma {:induction false} ShrIsDivision(x: nat, n: nat)
    ensures Shr(x, n) == Div(x, Pow2(n))
  {
    hide Div, Mod;
    DivideByOne(x);
    if n > 0 {
      ShrIsDivision(x / 2, n - 1);
      DivideTwice(x, Pow2(n - 1));
    }
  }

  // ----- Products and quotients under names, so that proofs can treat them as opaque

  function Mul(a: nat, b: nat): nat {
    a * b
  }

  function Div(x: nat, d: nat): nat
    requires d > 0
  {
    x / d
  }

  function Mod(x: nat, d: nat): nat
    requires d > 0
  {
    x % d
  }

  lemma Divided(x: nat, d: nat)
    requires d > 0
    ensures x == Mul(d, Div(x, d)) + Mod(x, d) && Mod(x, d) < d
  {
  }

  lemma Quotient(d: nat, q: nat, r: nat)
    requires r < d
    ensures Div(Mul(d, q) + r, d) == q && Mod(Mul(d, q) + r, d) == r
  {
    hide Mul, Div, Mod;
    var x := Mul(d, q) + r;
    Divided(x, d);
    OneQuotient(d, q, r, Div(x, d), Mod(x, d));
  }

  lemma OneQuotient(d: nat, q: nat, r: nat, n: nat, m: nat)
    requires r < d && m < d && Mul(d, q) + r == Mul(d, n) + m
    ensures q == n && r == m
  {
    hide Mul;
    if q < n {
      Monotone(d, q + 1, n);
      MulNext(d, q);
    } else if n < q {
      Monotone(d, n + 1, q);
      MulNext(d, n);
    }
  }

  lemma MulNext(d: nat, a: nat)
    ensures Mul(d, a + 1) == Mul(d, a) + d
  {
  }

  lemma {:induction false} Monotone(d: nat, a: nat, b: nat)
    requires a <= b
    ensures Mul(d, a) <= Mul(d, b)
    decreases b
  {
    hide Mul;
    if a < b {
      MulNext(d, b - 1);
      Monotone(d, a, b - 1);
    }
  }

  lemma Distribute(w: nat, a: nat, b: nat)
    ensures Mul(w, a + b) == Mul(w, a) + Mul(w, b)
  {
  }

  lemma Doubled(a: nat, p: nat)
    ensures Mul(a, 2 * p) == 2 * Mul(a, p) && Mul(2 * a, p) == 2 * Mul(a, p) && Mul(a, p) == Mul(p, a)
    ensures Mul(a, 1) == a && Mul(a, 0) == 0
  {
  }

  lemma DivideTwice(x: nat, p: nat)
    requires p > 0
    ensures Div(x / 2, p) == Div(x, 2 * p) && Mod(x, 2 * p) == 2 * Mod(x / 2, p) + x % 2
  {
    hide Mul, Div, Mod;
    Divided(x / 2, p);
    Doubled(p, Div(x / 2, p));
    Quotient(2 * p, Div(x / 2, p), 2 * Mod(x / 2, p) + x % 2);
  }

  lemma DivideByOne(x: nat)
    ensures Div(x, 1) == x && Mod(x, 1) == 0
  {
  }

  lemma Smaller(x: nat, d: nat)
    requires d > 0
    ensures Div(x, d) <= x
  {
    hide Mul, Div, Mod;
    Divided(x, d);
    Monotone(Div(x, d), 1, d);
    Doubled(Div(x, d), d);
  }

  lemma ModAdd(x: nat, y: nat, w: nat)
    requires w > 0
    ensures Mod(Mod(x, w) + y, w) == Mod(x + y, w)
  {
    hide Mul, Div, Mod;
    var q, r := Div(Mod(x, w) + y, w), Mod(Mod(x, w) + y, w);
    Divided(x, w);
    Divided(Mod(x, w) + y, w);
    Distribute(w, Div(x, w), q);
    Quotient(w, Div(x, w) + q, r);
  }

  /** A loop that packs from bit `i` on computes the whole: what is packed so far plus the rest shifted over it. */
  lemma PackStep(result: nat, p: nat, bit: nat, rest: nat)
    ensures result + p * (bit + 2 * rest) == result + bit * p + 2 * p * rest
  {
  }

  /** Selects the bits from `low` up to `high` of `val` that are in `mask`, and packs them together. */
  method PackBits(mask: nat, val: nat, high: nat, low: nat) returns (result: nat)
    requires low <= high
    ensures result == Packed(Shr(mask, low), Shr(val, low), high - low)
  {
    result := 0;
    var pos, i := 0, low;
    while i < high
      invariant low <= i <= high
      invariant result + Pow2(pos) * Packed(Shr(mask, i), Shr(val, i), high - i) ==
                Packed(Shr(mask, low), Shr(val, low), high - low)
    {
      ShrNext(mask, i);
      ShrNext(val, i);
      if Bit(mask, i) {
        var bit := Shr(val, i) % 2;
        PackStep(result, Pow2(pos), bit, Packed(Shr(mask, i + 1), Shr(val, i + 1), high - (i + 1)));
        result := result + bit * Pow2(pos);
        pos := pos + 1;
      }
      i := i + 1;
    }
  }

  /** The range of bits a mask uses, or all 64 when it uses none. */
  ghost predicate Limits(mask: nat, high: nat, low: nat) {
    && low < high <= 64
    && (forall i: nat :: i < 64 && Bit(mask, i) ==> low <= i < high)
    && ((exists i: nat :: i < 64 && Bit(mask, i)) ==> Bit(mask, low) && Bit(mask, high - 1))
  }

  method GetMaskLimit(mask: nat) returns (high: nat, low: nat)
    ensures Limits(mask, high, low)
  {
    high, low := 64, 0;
    var lowFound := false;
    for i := 0 to 64
      invariant low < high <= 64
      invariant !lowFound ==> high == 64 && low == 0 && forall j: nat :: j < i ==> !Bit(mask, j)
      invariant lowFound ==> high <= i && Bit(mask, low) && Bit(mask, high - 1)
      invariant lowFound ==> forall j: nat :: j < i && Bit(mask, j) ==> low <= j < high
    {
      if Bit(mask, i) {
        if lowFound {
          high := i + 1;
        } else {
          high, low, lowFound := i + 1, i, true;
        }
      }
    }
  }

  // ----- Packing within a mask's limits packs everything

  /** Bits above a mask's highest one add nothing. */
  lemma {:induction false} PackedTop(mask: nat, val: nat, n: nat, m: nat)
    requires n <= m && forall i: nat :: n <= i < m ==> !Bit(mask, i)
    ensures Packed(mask, val, m) == Packed(mask, val, n)
    decreases m
  {
    if m == 0 {
    } else if n == 0 {
      assert !Bit(mask, 0);
      forall i: nat | i < m - 1 ensures !Bit(mask / 2, i) {
        assert !Bit(mask, i + 1);
      }
      PackedTop(mask / 2, val / 2, 0, m - 1);
    } else {
      forall i: nat | n - 1 <= i < m - 1 ensures !Bit(mask / 2, i) {
        assert !Bit(mask, i + 1);
      }
      PackedTop(mask / 2, val / 2, n - 1, m - 1);
    }
  }

  /** Bits below a mask's lowest one add nothing. */
  lemma {:induction false} PackedBottom(mask: nat, val: nat, low: nat, n: nat)
    requires low <= n && forall i: nat :: i < low ==> !Bit(mask, i)
    ensures Packed(mask, val, n) == Packed(Shr(mask, low), Shr(val, low), n - low)
    decreases low
  {
    if low > 0 {
      assert !Bit(mask, 0);
      forall i: nat | i < low - 1 ensures !Bit(mask / 2, i) {
        assert !Bit(mask, i + 1);
      }
      PackedBottom(mask / 2, val / 2, low - 1, n - 1);
    }
  }

  lemma LimitsPackAll(mask: nat, val: nat, high: nat, low: nat)
    requires Limits(mask, high, low)
    ensures Packed(Shr(mask, low), Shr(val, low), high - low) == Packed(mask, val, 64)
  {
    hide Bit, Packed, Shr;
    PackedTop(mask, val, high, 64);
    PackedBottom(mask, val, low, high);
  }

  /** Only the lowest `n` bits of the mask and the value count. */
  lemma {:induction false} PackedMod(mask: nat, val: nat, n: nat)
    ensures Packed(Mod(mask, Pow2(n)), val, n) == Packed(mask, val, n)
  {
    hide Mod, Div;
    if n > 0 {
      DivideTwice(mask, Pow2(n - 1));
      PackedMod(mask / 2, val / 2, n - 1);
    }
  }

  /** High zero bits of the value add nothing. */
  lemma {:induction false} PackedSmall(mask: nat, val: nat, m: nat, n: nat)
    requires m <= n && val < Pow2(m)
    ensures Packed(mask, val, m) == Packed(mask, val, n)
  {
    if m > 0 {
      PackedSmall(mask / 2, val / 2, m - 1, n - 1);
    } else if n > 0 {
      PackedSmall(mask / 2, 0, 0, n - 1);
    }
  }

  /** What a mask selects and what its complement selects determine the value. */
  lemma {:induction false} PackedDetermines(mask: nat, a: nat, b: nat, n: nat)
    requires mask < Pow2(n) && a < Pow2(n) && b < Pow2(n)
    requires Packed(mask, a, n) == Packed(mask, b, n)
    requires Packed(Not(mask, n), a, n) == Packed(Not(mask, n), b, n)
    ensures a == b
  {
    if n > 0 {
      assert Not(mask, n) / 2 == Not(mask / 2, n - 1);
      assert Not(mask, n) % 2 == 1 - mask % 2;
      PackedDetermines(mask / 2, a / 2, b / 2, n - 1);
    }
  }

  /** A mask determines exactly the bits it selects. */
  lemma {:induction false} PackedBits(mask: nat, a: nat, b: nat, n: nat)
    ensures Packed(mask, a, n) == Packed(mask, b, n) <==>
            forall i: nat :: i < n && Bit(mask, i) ==> Bit(a, i) == Bit(b, i)
  {
    if n > 0 {
      PackedBits(mask / 2, a / 2, b / 2, n - 1);
      forall i: nat
        ensures Bit(mask, i + 1) == Bit(mask / 2, i) && Bit(a, i + 1) == Bit(a / 2, i) && Bit(b, i + 1) == Bit(b / 2, i)
      {
      }
      if forall i: nat :: i < n && Bit(mask, i) ==> Bit(a, i) == Bit(b, i) {
        assert mask % 2 == 1 ==> Bit(mask, 0);
        forall i: nat | i < n - 1 && Bit(mask / 2, i) ensures Bit(a / 2, i) == Bit(b / 2, i) {
          assert Bit(mask, i + 1);
        }
      }
      if Packed(mask, a, n) == Packed(mask, b, n) {
        forall i: nat | i < n && Bit(mask, i) ensures Bit(a, i) == Bit(b, i) {
          if i > 0 {
            assert Bit(mask / 2, i - 1);
          }
        }
      }
    }
  }

  /** How many of the lowest `n` bits are set. */
  function BitCount(mask: nat, n: nat): nat {
    if n == 0 then 0 else mask % 2 + BitCount(mask / 2, n - 1)
  }

  /** A selected bit lands at the position given by how many bits are selected below it. */
  lemma {:induction false} PackedAt(mask: nat, val: nat, n: nat, i: nat)
    requires i < n && Bit(mask, i)
    ensures Bit(Packed(mask, val, n), BitCount(mask, i)) == Bit(val, i)
  {
    if i > 0 {
      PackedAt(mask / 2, val / 2, n - 1, i - 1);
    }
  }

  /** And there are no bits above those selected. */
  lemma {:induction false} PackedAbove(mask: nat, val: nat, n: nat, k: nat)
    requires k >= BitCount(mask, n)
    ensures !Bit(Packed(mask, val, n), k)
  {
    if n == 0 {
      ZeroBits(k);
    } else if mask % 2 == 1 {
      PackedAbove(mask / 2, val / 2, n - 1, k - 1);
    } else {
      PackedAbove(mask / 2, val / 2, n - 1, k);
    }
  }

  /** Cutting a number to `n` bits keeps the lowest `n`. */
  lemma {:induction false} CutBits(x: nat, n: nat, k: nat)
    ensures Bit(Mod(x, Pow2(n)), k) <==> k < n && Bit(x, k)
  {
    hide Mod, Div;
    if n == 0 {
      DivideByOne(x);
      ZeroBits(k);
    } else {
      DivideTwice(x, Pow2(n - 1));
      if k > 0 {
        CutBits(x / 2, n - 1, k - 1);
      }
    }
  }

  lemma {:induction false} SameBits(a: nat, b: nat, n: nat)
    requires a < Pow2(n) && b < Pow2(n) && forall i: nat :: i < n ==> Bit(a, i) == Bit(b, i)
    ensures a == b
  {
    if n > 0 {
      assert Bit(a, 0) == Bit(b, 0);
      forall i: nat | i < n - 1 ensures Bit(a / 2, i) == Bit(b / 2, i) {
        assert Bit(a, i + 1) == Bit(b, i + 1);
      }
      SameBits(a / 2, b / 2, n - 1);
    }
  }

  lemma {:induction false} ZeroBits(i: nat)
    ensures !Bit(0, i)
  {
    if i > 0 {
      ZeroBits(i - 1);
    }
  }

  lemma {:induction false} PowerBits(i: nat, j: nat)
    ensures Bit(Pow2(i), j) <==> i == j
  {
    if i > 0 && j > 0 {
      PowerBits(i - 1, j - 1);
    } else if j > 0 {
      ZeroBits(j - 1);
    }
  }

  lemma {:induction false} BitIsLarge(x: nat, i: nat)
    requires Bit(x, i)
    ensures x >= Pow2(i)
  {
    if i > 0 {
      BitIsLarge(x / 2, i - 1);
    }
  }

  lemma {:induction false} Pow2Sum(a: nat, b: nat)
    ensures Pow2(a + b) == Mul(Pow2(a), Pow2(b))
  {
    hide Mul;
    Doubled(Pow2(b), 1);
    if a > 0 {
      Pow2Sum(a - 1, b);
      Doubled(Pow2(a - 1), Pow2(b));
    }
  }

  lemma {:induction false} Pow2Monotone(a: nat, b: nat)
    requires a <= b
    ensures Pow2(a) <= Pow2(b)
  {
    if a < b {
      Pow2Monotone(a, b - 1);
    }
  }
}
