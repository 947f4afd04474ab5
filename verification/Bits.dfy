/** Machine words as natural numbers, with the bit operators of the source written
    out. `Bit` gives their meaning: bit `k` of a word, counted from the low end. */
module Bits {

  function Pow2(k: nat): (r: nat)
    ensures r > 0
  {
    if k == 0 then 1 else 2 * Pow2(k - 1)
  }

  predicate Bit(x: nat, k: nat) {
    if k == 0 then x % 2 == 1 else Bit(x / 2, k - 1)
  }

  function BitOr(a: nat, b: nat): nat
    decreases a + b
  {
    if a + b == 0 then 0
    else 2 * BitOr(a / 2, b / 2) + if a % 2 == 1 || b % 2 == 1 then 1 else 0
  }

  function BitAnd(a: nat, b: nat): nat
    decreases a + b
  {
    if a + b == 0 then 0
    else 2 * BitAnd(a / 2, b / 2) + if a % 2 == 1 && b % 2 == 1 then 1 else 0
  }

  /** Complement of an `n`-bit word. */
  function BitNot(n: nat, x: nat): nat
    requires x < Pow2(n)
  {
    Pow2(n) - 1 - x
  }

  function ShiftRight(x: nat, k: nat): nat {
    if k == 0 then x else ShiftRight(x / 2, k - 1)
  }

  lemma {:induction false} OrBit(a: nat, b: nat, k: nat)
    ensures Bit(BitOr(a, b), k) == (Bit(a, k) || Bit(b, k))
    decreases k
  {
    if a + b == 0 {
      ZeroBit(k);
    } else if k > 0 {
      OrBit(a / 2, b / 2, k - 1);
    }
  }

  lemma {:induction false} AndBit(a: nat, b: nat, k: nat)
    ensures Bit(BitAnd(a, b), k) == (Bit(a, k) && Bit(b, k))
    decreases k
  {
    if a + b == 0 {
      ZeroBit(k);
    } else if k > 0 {
      AndBit(a / 2, b / 2, k - 1);
    }
  }

  lemma {:induction false} NotBit(n: nat, x: nat, k: nat)
    requires x < Pow2(n) && k < n
    ensures Bit(BitNot(n, x), k) == !Bit(x, k)
    decreases n
  {
    if k > 0 {
      assert BitNot(n, x) / 2 == BitNot(n - 1, x / 2);
      NotBit(n - 1, x / 2, k - 1);
    }
  }

  lemma {:induction false} ZeroBit(k: nat)
    ensures !Bit(0, k)
  {
    if k > 0 {
      ZeroBit(k - 1);
    }
  }

  lemma {:induction false} Pow2Bit(j: nat, k: nat)
    ensures Bit(Pow2(j), k) == (j == k)
  {
    if j == 0 {
      if k > 0 { ZeroBit(k - 1); }
    } else if k > 0 {
      Pow2Bit(j - 1, k - 1);
    }
  }

  lemma {:induction false} ShiftPow2(n: nat, k: nat)
    requires k <= n
    ensures ShiftRight(Pow2(n), k) == Pow2(n - k)
    decreases k
  {
    if k > 0 {
      assert Pow2(n) / 2 == Pow2(n - 1);
      ShiftPow2(n - 1, k - 1);
    }
  }

  /** Masking with one bit tests that bit. */
  lemma {:induction false} MaskTest(x: nat, k: nat)
    ensures BitAnd(x, Pow2(k)) == if Bit(x, k) then Pow2(k) else 0
    decreases k
  {
    if k == 0 {
      AndZero(x / 2);
    } else {
      MaskTest(x / 2, k - 1);
    }
  }

  lemma {:induction false} AndZero(x: nat)
    ensures BitAnd(x, 0) == 0
    decreases x
  {
    if x > 0 { AndZero(x / 2); }
  }

  lemma {:induction false} OrZero(x: nat)
    ensures BitOr(x, 0) == x && BitOr(0, x) == x
    decreases x
  {
    if x > 0 { OrZero(x / 2); }
  }

  /** Setting a clear bit is an addition; setting a set bit changes nothing. */
  lemma {:induction false} OrPow2(x: nat, k: nat)
    ensures BitOr(x, Pow2(k)) == if Bit(x, k) then x else x + Pow2(k)
    decreases k
  {
    if k == 0 {
      OrZero(x / 2);
    } else {
      OrPow2(x / 2, k - 1);
    }
  }

  /** Words of `n` bits are closed under the operators. */
  lemma {:induction false} OrBound(a: nat, b: nat, n: nat)
    requires a < Pow2(n) && b < Pow2(n)
    ensures BitOr(a, b) < Pow2(n)
    decreases n
  {
    if n > 0 { OrBound(a / 2, b / 2, n - 1); }
  }

  lemma {:induction false} AndBound(a: nat, b: nat)
    ensures BitAnd(a, b) <= a
    decreases a + b
  {
    if a + b > 0 { AndBound(a / 2, b / 2); }
  }

  lemma {:induction false} Pow2Monotone(j: nat, k: nat)
    requires j < k
    ensures Pow2(j) < Pow2(k)
    decreases k
  {
    if j < k - 1 { Pow2Monotone(j, k - 1); }
  }

  /** `x << k`, unbounded. */
  function Shl(x: nat, k: nat): nat {
    if k == 0 then x else 2 * Shl(x, k - 1)
  }

  lemma TenMore(x: nat, k: nat)
    ensures Shl(x, k + 10) == 1024 * Shl(x, k)
  {
    assert Shl(x, k + 2) == 4 * Shl(x, k);
    assert Shl(x, k + 4) == 4 * Shl(x, k + 2);
    assert Shl(x, k + 6) == 4 * Shl(x, k + 4);
    assert Shl(x, k + 8) == 4 * Shl(x, k + 6);
  }

  lemma {:induction false} Pow2IsShl(k: nat)
    ensures Pow2(k) == Shl(1, k)
  {
    if k > 0 { Pow2IsShl(k - 1); }
  }

  lemma Doubling(x: nat, k: nat)
    ensures Shl(x, 0) == x && Pow2(0) == 1
    ensures k > 0 ==> Shl(x, k) == 2 * Shl(x, k - 1) && Pow2(k) == 2 * Pow2(k - 1)
  {}

  /** Masking with `k` ones keeps the low part of a word. */
  lemma {:induction false} LowMask(k: nat, hi: nat, lo: nat)
    requires lo < Pow2(k)
    ensures BitAnd(Shl(hi, k) + lo, Pow2(k) - 1) == lo
    decreases k
  {
    hide BitAnd;
    hide Shl;
    hide Pow2;
    Doubling(hi, k);
    if k == 0 {
      AndZero(hi);
    } else {
      LowMask(k - 1, hi, lo / 2);
      AndHalves(Shl(hi, k) + lo, Pow2(k) - 1);
    }
  }

  /** Shifting by `k` keeps the high part. */
  lemma {:induction false} ShiftSplit(k: nat, hi: nat, lo: nat)
    requires lo < Pow2(k)
    ensures ShiftRight(Shl(hi, k) + lo, k) == hi
    decreases k
  {
    if k > 0 {
      ShiftSplit(k - 1, hi, lo / 2);
    }
  }

  lemma {:induction false} BitAbove(j: nat, hi: nat, lo: nat, k: nat)
    requires lo < Pow2(j)
    ensures Bit(Shl(hi, j) + lo, j + k) == Bit(hi, k)
    decreases j
  {
    hide Shl;
    hide Pow2;
    Doubling(hi, j);
    if j > 0 {
      assert (Shl(hi, j) + lo) / 2 == Shl(hi, j - 1) + lo / 2;
      BitAbove(j - 1, hi, lo / 2, k);
    }
  }

  /** Words whose bits are all the same. */
  lemma {:induction false} AllBits(n: nat, x: nat, b: bool)
    requires x < Pow2(n) && forall k: nat :: k < n ==> Bit(x, k) == b
    ensures x == if b then Pow2(n) - 1 else 0
    decreases n
  {
    if n > 0 {
      BitStep(x);
      assert Bit(x, 0) == b;
      forall k: nat | k < n - 1 ensures Bit(x / 2, k) == b { assert Bit(x, k + 1) == b; }
      AllBits(n - 1, x / 2, b);
    }
  }

  lemma {:induction false} BitOfOnes(n: nat, k: nat)
    requires k < n
    ensures Bit(Pow2(n) - 1, k)
    decreases n
  {
    assert (Pow2(n) - 1) / 2 == Pow2(n - 1) - 1;
    if k > 0 { BitOfOnes(n - 1, k - 1); }
  }

  lemma BitStep(x: nat)
    ensures Bit(x, 0) == (x % 2 == 1) && forall k: nat :: k > 0 ==> Bit(x, k) == Bit(x / 2, k - 1)
  {}

  /** The operator works on the high and the low part of its operands separately. */
  lemma {:induction false} OrSplit(k: nat, a: nat, r: nat, b: nat, s: nat)
    requires r < Pow2(k) && s < Pow2(k)
    ensures BitOr(Shl(a, k) + r, Shl(b, k) + s) == Shl(BitOr(a, b), k) + BitOr(r, s)
    decreases k
  {
    hide BitOr;
    hide Shl;
    hide Pow2;
    Doubling(a, k);
    Doubling(b, k);
    Doubling(BitOr(a, b), k);
    if k == 0 {
      OrZero(0);
    } else {
      OrSplit(k - 1, a, r / 2, b, s / 2);
      OrHalves(Shl(a, k) + r, Shl(b, k) + s);
      OrHalves(r, s);
    }
  }

  lemma AndHalves(x: nat, y: nat)
    ensures BitAnd(x, y) == 2 * BitAnd(x / 2, y / 2) + if x % 2 == 1 && y % 2 == 1 then 1 else 0
  {}

  lemma OrHalves(x: nat, y: nat)
    ensures BitOr(x, y) == 2 * BitOr(x / 2, y / 2) + if x % 2 == 1 || y % 2 == 1 then 1 else 0
  {}
}
