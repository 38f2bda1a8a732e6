/**
 Unsigned machine-word operations on natural numbers. Every operator is defined
 bit by bit; shifts and complement carry the word width `w` explicitly. The
 lemmas turn the mask idioms of the address code into arithmetic.
 */
module Bits {

  type Byte = n: nat | n < 256

  /** How many values a 64-bit counter takes before it wraps. */
  const U64_SPACE: nat := 0x1_0000_0000_0000_0000

  function Pow2(k: nat): (p: nat)
    ensures p >= 1
  {
    if k == 0 then 1 else 2 * Pow2(k - 1)
  }

  function And(x: nat, y: nat): nat {
    if x == 0 then 0
    else 2 * And(x / 2, y / 2) + if x % 2 == 1 && y % 2 == 1 then 1 else 0
  }

  function Or(x: nat, y: nat): nat
    decreases x + y
  {
    if x == 0 && y == 0 then 0
    else 2 * Or(x / 2, y / 2) + if x % 2 == 1 || y % 2 == 1 then 1 else 0
  }

  function Not(x: nat, w: nat): nat
    requires x < Pow2(w)
  {
    Pow2(w) - 1 - x
  }

  /** The low `w` bits of `x`: what a `w`-bit word keeps. */
  function LowBits(x: nat, w: nat): (r: nat)
    ensures r < Pow2(w) && r <= x
  {
    if w == 0 then 0 else 2 * LowBits(x / 2, w - 1) + x % 2
  }

  /** `x` with everything below bit `k` cleared: what every prefix mask computes. */
  function ClearLow(x: nat, k: nat): (r: nat)
    ensures r + LowBits(x, k) == x
  {
    if k == 0 then x else 2 * ClearLow(x / 2, k - 1)
  }

  function Shl(x: nat, k: nat, w: nat): nat {
    if k == 0 then LowBits(x, w) else LowBits(2 * Shl(x, k - 1, w), w)
  }

  function Shr(x: nat, k: nat): nat {
    if k == 0 then x else Shr(x / 2, k - 1)
  }

  // ── Powers of two and truncation ───────────────────────────────────────────

  lemma {:induction false} Pow2Mono(a: nat, b: nat)
    requires a <= b
    ensures Pow2(a) <= Pow2(b)
  {
    if a < b { Pow2Mono(a, b - 1); }
  }

  lemma {:induction false} LowBitsId(x: nat, w: nat)
    requires x < Pow2(w)
    ensures LowBits(x, w) == x
  {
    if w > 0 { LowBitsId(x / 2, w - 1); }
  }

  lemma {:induction false} LowBitsCarry(x: nat, w: nat)
    requires Pow2(w) <= x < 2 * Pow2(w)
    ensures LowBits(x, w) == x - Pow2(w)
  {
    if w > 0 { LowBitsCarry(x / 2, w - 1); }
  }

  /** Clearing is idempotent, and numbers that agree above bit `k` clear alike. */
  lemma {:induction false} ClearLowOfSum(a: nat, b: nat, k: nat)
    requires LowBits(a, k) == 0 && b < Pow2(k)
    ensures ClearLow(a + b, k) == a && LowBits(a + b, k) == b
  {
    if k > 0 {
      assert a % 2 == 0 && (a + b) / 2 == a / 2 + b / 2;
      ClearLowOfSum(a / 2, b / 2, k - 1);
    }
  }

  lemma {:induction false} ClearLowIsClear(x: nat, k: nat)
    ensures LowBits(ClearLow(x, k), k) == 0
  {
    if k > 0 {
      ClearLowIsClear(x / 2, k - 1);
      var c := ClearLow(x / 2, k - 1);
      assert 2 * c / 2 == c && 2 * c % 2 == 0;
    }
  }

  /**
   The block of size `Pow2(k)` that starts at `net` is exactly the set of
   numbers whose upper bits are those of `net`.
   */
  lemma BlockIsPrefix(x: nat, net: nat, k: nat)
    requires LowBits(net, k) == 0
    ensures net <= x <= net + (Pow2(k) - 1) <==> ClearLow(x, k) == net
  {
    if net <= x <= net + (Pow2(k) - 1) {
      ClearLowOfSum(net, x - net, k);
    }
  }

  // ── Masks ──────────────────────────────────────────────────────────────────

  lemma {:induction false} AndZero(x: nat)
    ensures And(x, 0) == 0
  {
    if x > 0 { AndZero(x / 2); }
  }

  lemma {:induction false} AndOnes(x: nat, k: nat)
    ensures And(x, Pow2(k) - 1) == LowBits(x, k)
  {
    if k == 0 {
      AndZero(x);
    } else {
      var m := Pow2(k - 1) - 1;
      assert (2 * m + 1) / 2 == m && (2 * m + 1) % 2 == 1;
      AndOnes(x / 2, k - 1);
    }
  }

  lemma {:induction false} AndHighMask(x: nat, k: nat, w: nat)
    requires k <= w && x < Pow2(w)
    ensures Pow2(k) <= Pow2(w)
    ensures And(x, Pow2(w) - Pow2(k)) == ClearLow(x, k)
  {
    hide And, LowBits;
    Pow2Mono(k, w);
    if k == 0 {
      AndOnes(x, w);
      LowBitsId(x, w);
    } else {
      AndHighMask(x / 2, k - 1, w - 1);
      AndEven(x, Pow2(w - 1) - Pow2(k - 1));
    }
  }

  lemma AndEven(x: nat, m: nat)
    ensures And(x, 2 * m) == 2 * And(x / 2, m)
  {
    assert 2 * m / 2 == m && 2 * m % 2 == 0;
  }

  lemma {:induction false} OrZero(a: nat)
    ensures Or(a, 0) == a
  {
    if a > 0 { OrZero(a / 2); }
  }

  /** Or of a number with no bits below `k` and one with none above is their sum. */
  lemma {:induction false} OrDisjoint(a: nat, b: nat, k: nat)
    requires LowBits(a, k) == 0 && b < Pow2(k)
    ensures Or(a, b) == a + b
  {
    if k == 0 {
      OrZero(a);
    } else {
      OrDisjoint(a / 2, b / 2, k - 1);
    }
  }

  /** `!0 << k` in a `w`-bit word has exactly the bits `k..w` set. */
  lemma {:induction false} ShlOnes(k: nat, w: nat)
    requires k <= w
    ensures Pow2(k) <= Pow2(w)
    ensures Shl(Pow2(w) - 1, k, w) == Pow2(w) - Pow2(k)
  {
    Pow2Mono(k, w);
    if k == 0 {
      LowBitsId(Pow2(w) - 1, w);
    } else {
      ShlOnes(k - 1, w);
      LowBitsCarry(2 * (Pow2(w) - Pow2(k - 1)), w);
    }
  }

  /** Shifting right and back left clears the low bits. */
  lemma {:induction false} ShrShl(x: nat, k: nat, w: nat)
    requires x < Pow2(w)
    ensures Shl(Shr(x, k), k, w) == ClearLow(x, k)
  {
    if k == 0 {
      LowBitsId(x, w);
    } else {
      ShrShl(x / 2, k - 1, w);
      LowBitsId(2 * ClearLow(x / 2, k - 1), w);
    }
  }

  // ── Shifts as division ─────────────────────────────────────────────────────

  lemma TwoMore(k: nat)
    ensures Pow2(k + 2) == 4 * Pow2(k)
  {
  }

  lemma PowersOfTwo()
    ensures Pow2(0) == 1 && Pow2(1) == 2 && Pow2(2) == 4 && Pow2(3) == 8 && Pow2(6) == 64
  {
    assert Pow2(4) == 16;
  }

  lemma MulMono(a: nat, b: nat, c: nat)
    ensures a <= b ==> a * c <= b * c
  {
  }

  lemma DivisionIsUnique(x: nat, d: nat, q: nat, r: nat)
    requires r < d && x == q * d + r
    ensures x / d == q && x % d == r
  {
    var q', r' := x / d, x % d;
    assert x == q' * d + r';
    assert (q' + 1) * d == q' * d + d && (q + 1) * d == q * d + d;
    MulMono(q' + 1, q, d);
    MulMono(q + 1, q', d);
  }

  lemma Doubled(q: nat, p: nat)
    ensures q * (2 * p) == 2 * (q * p)
  {
  }

  lemma HalfDivides(x: nat, p: nat)
    requires p >= 1
    ensures x % (2 * p) == 2 * (x / 2 % p) + x % 2 && x / (2 * p) == x / 2 / p
  {
    var h := x / 2;
    var q, r := h / p, h % p;
    var qp := q * p;
    assert h == qp + r && r < p;
    Doubled(q, p);
    DivisionIsUnique(x, 2 * p, q, 2 * r + x % 2);
  }

  lemma {:induction false} ShrDivides(x: nat, k: nat)
    ensures LowBits(x, k) == x % Pow2(k) && Shr(x, k) == x / Pow2(k)
  {
    if k > 0 {
      ShrDivides(x / 2, k - 1);
      HalfDivides(x, Pow2(k - 1));
    }
  }
}
