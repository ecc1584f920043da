/**
 * Go's uint32 arithmetic. A word is a natural number below 2^32, and the bitwise
 * operators are defined bit by bit, so every fact about them is proved one bit at a time.
 *
 * Each recursive definition F is split into F, which the rest of the model uses, and
 * FStep, which holds the body and calls F again; all but Bit have FGuard between the two.
 * The verifier expands a recursive function at most two calls deep on its own, which
 * takes it from F through FGuard to FStep but not into FStep's body. So a proof sees the
 * body only where it asks for it, by asserting F(x) == FStep(x) or calling FUnfold, and
 * every other proof stays small.
 */
module Words {

  const WordLimit: nat := 0x1_0000_0000

  /** A Go uint32. */
  type Word = x: nat | x < WordLimit

  function Pow2(k: nat): (r: nat)
    ensures r >= 1
    decreases k, 2
  {
    Pow2Guard(k)
  }

  function Pow2Guard(k: nat): (r: nat)
    ensures r >= 1
    decreases k, 1
  {
    Pow2Step(k)
  }

  function Pow2Step(k: nat): (r: nat)
    ensures r >= 1
    decreases k, 0
  {
    if k == 0 then 1 else 2 * Pow2(k - 1)
  }

  lemma Pow2Unfold(k: nat)
    ensures Pow2(k) == if k == 0 then 1 else 2 * Pow2(k - 1)
  {
    assert Pow2(k) == Pow2Step(k);
  }

  /** Bit i of n, counting from the least significant bit. */
  predicate Bit(n: nat, i: nat)
    decreases i, 1
  {
    BitStep(n, i)
  }

  predicate BitStep(n: nat, i: nat)
    decreases i, 0
  {
    if i == 0 then n % 2 == 1 else Bit(n / 2, i - 1)
  }

  lemma BitUnfold(n: nat, i: nat)
    ensures Bit(n, i) == if i == 0 then n % 2 == 1 else Bit(n / 2, i - 1)
  {
    assert Bit(n, i) == BitStep(n, i);
  }

  lemma {:induction false} Pow2Add(a: nat, b: nat)
    ensures Pow2(a + b) == Pow2(a) * Pow2(b)
    decreases a
  {
    Pow2Unfold(a);
    if a > 0 {
      Pow2Unfold(a + b);
      Pow2Add(a - 1, b);
    }
  }

  lemma Pow2Byte()
    ensures Pow2(8) == 0x100
  {
    Pow2Unfold(0);
    Pow2Unfold(1);
    Pow2Unfold(2);
    Pow2Unfold(3);
    Pow2Unfold(4);
    Pow2Unfold(5);
    Pow2Unfold(6);
    Pow2Unfold(7);
    Pow2Unfold(8);
  }

  lemma Pow2Word()
    ensures Pow2(16) == 0x1_0000
    ensures Pow2(24) == 0x100_0000
    ensures Pow2(32) == WordLimit
  {
    Pow2Byte();
    Pow2Add(8, 8);
    Pow2Add(16, 8);
    Pow2Add(16, 16);
  }

  lemma Pow2Half()
    ensures Pow2(31) == 0x8000_0000
  {
    Pow2Word();
    Pow2Unfold(32);
  }

  lemma {:induction false} Pow2Monotone(a: nat, b: nat)
    requires a <= b
    ensures Pow2(a) <= Pow2(b)
    decreases b
  {
    if a < b {
      Pow2Unfold(b);
      Pow2Monotone(a, b - 1);
    }
  }

  /** Go's `x & y` on uint32, bit by bit from the lowest until either operand runs out. */
  function And(x: Word, y: Word): (r: Word)
    ensures r <= x && r <= y
    decreases x + y, 2
  {
    AndGuard(x, y)
  }

  function AndGuard(x: Word, y: Word): (r: Word)
    ensures r <= x && r <= y
    decreases x + y, 1
  {
    AndStep(x, y)
  }

  function AndStep(x: Word, y: Word): (r: Word)
    ensures r <= x && r <= y
    decreases x + y, 0
  {
    if x == 0 || y == 0 then 0
    else 2 * And(x / 2, y / 2) + (if x % 2 == 1 && y % 2 == 1 then 1 else 0)
  }

  /** x | y on naturals, bit by bit from the lowest until both operands run out. */
  function OrNat(x: nat, y: nat): nat
    decreases x + y, 2
  {
    OrNatGuard(x, y)
  }

  function OrNatGuard(x: nat, y: nat): nat
    decreases x + y, 1
  {
    OrNatStep(x, y)
  }

  function OrNatStep(x: nat, y: nat): nat
    decreases x + y, 0
  {
    if x == 0 && y == 0 then 0
    else 2 * OrNat(x / 2, y / 2) + (if x % 2 == 1 || y % 2 == 1 then 1 else 0)
  }

  /** The or of two numbers below 2^k is below 2^k: no bit is set above the operands' bits. */
  lemma {:induction false} OrNatBelow(x: nat, y: nat, k: nat)
    requires x < Pow2(k) && y < Pow2(k)
    ensures OrNat(x, y) < Pow2(k)
    decreases x + y
  {
    assert OrNat(x, y) == OrNatStep(x, y);
    Pow2Unfold(k);
    if x != 0 || y != 0 {
      OrNatBelow(x / 2, y / 2, k - 1);
    }
  }

  /** Go's `x | y` on uint32. */
  function Or(x: Word, y: Word): Word
  {
    Pow2Word();
    OrNatBelow(x, y, 32);
    OrNat(x, y)
  }

  /** Go's `x << 1` on uint32: the top bit falls off. */
  function Shl1(x: Word): Word
  {
    if x < 0x8000_0000 then 2 * x else 2 * x - WordLimit
  }

  /** Go's `x << s` on uint32; a count of 32 or more gives 0. */
  function Shl(x: Word, s: nat): Word
    decreases s, 2
  {
    ShlGuard(x, s)
  }

  function ShlGuard(x: Word, s: nat): Word
    decreases s, 1
  {
    ShlStep(x, s)
  }

  function ShlStep(x: Word, s: nat): Word
    decreases s, 0
  {
    if s == 0 then x else Shl(Shl1(x), s - 1)
  }

  lemma ShlUnfold(x: Word, s: nat)
    ensures Shl(x, s) == if s == 0 then x else Shl(Shl1(x), s - 1)
  {
    assert Shl(x, s) == ShlStep(x, s);
  }

  /** Go's `x >> s` on uint32 (a logical shift). */
  function Shr(x: Word, s: nat): Word
    decreases s, 2
  {
    ShrGuard(x, s)
  }

  function ShrGuard(x: Word, s: nat): Word
    decreases s, 1
  {
    ShrStep(x, s)
  }

  function ShrStep(x: Word, s: nat): Word
    decreases s, 0
  {
    if s == 0 then x else Shr(x / 2, s - 1)
  }

  lemma ShrUnfold(x: Word, s: nat)
    ensures Shr(x, s) == if s == 0 then x else Shr(x / 2, s - 1)
  {
    assert Shr(x, s) == ShrStep(x, s);
  }

  /** Go's `x - y` on uint32, which wraps around below zero. */
  function Sub(x: Word, y: Word): Word
  {
    if x >= y then x - y else x - y + WordLimit
  }

  /** Go's `uint32(1)<<k - 1`: for k >= 32 the shift gives 0 and the subtraction wraps to all ones. */
  function LowMask(k: nat): Word
  {
    Sub(Shl(1, k), 1)
  }

  // ---- bits of natural numbers

  lemma {:induction false} BitZero(i: nat)
    ensures !Bit(0, i)
    decreases i
  {
    BitUnfold(0, i);
    if i > 0 {
      BitZero(i - 1);
    }
  }

  lemma {:induction false} BitBelow(n: nat, k: nat, i: nat)
    requires n < Pow2(k) && k <= i
    ensures !Bit(n, i)
    decreases k
  {
    Pow2Unfold(k);
    if k == 0 {
      assert n == 0;
      BitZero(i);
    } else {
      BitUnfold(n, i);
      BitBelow(n / 2, k - 1, i - 1);
    }
  }

  lemma BitWordHigh(x: Word, i: nat)
    requires 32 <= i
    ensures !Bit(x, i)
  {
    Pow2Word();
    BitBelow(x, 32, i);
  }

  lemma {:induction false} BitAnd(x: Word, y: Word, i: nat)
    ensures Bit(And(x, y), i) == (Bit(x, i) && Bit(y, i))
    decreases x + y
  {
    assert And(x, y) == AndStep(x, y);
    BitUnfold(And(x, y), i);
    BitUnfold(x, i);
    BitUnfold(y, i);
    if x == 0 || y == 0 {
      BitZero(i);
    } else if i > 0 {
      BitAnd(x / 2, y / 2, i - 1);
    }
  }

  lemma {:induction false} BitOr(x: Word, y: Word, i: nat)
    ensures Bit(Or(x, y), i) == (Bit(x, i) || Bit(y, i))
    decreases x + y
  {
    assert Or(x, y) == OrNat(x, y) == OrNatStep(x, y);
    BitUnfold(Or(x, y), i);
    BitUnfold(x, i);
    BitUnfold(y, i);
    if x == 0 && y == 0 {
      BitZero(i);
    } else if i > 0 {
      BitOr(x / 2, y / 2, i - 1);
    }
  }

  /** Removing the top bit k of a number below 2^(k+1) clears exactly that bit. */
  lemma {:induction false} BitDropTop(x: nat, k: nat, i: nat)
    requires Pow2(k) <= x < 2 * Pow2(k)
    ensures Bit(x - Pow2(k), i) == (i != k && Bit(x, i))
    decreases k
  {
    Pow2Unfold(k);
    BitUnfold(x, i);
    BitUnfold(x - Pow2(k), i);
    if k == 0 {
      assert x == 1;
      BitZero(i);
      if i > 0 {
        BitZero(i - 1);
      }
    } else if i > 0 {
      assert (x - Pow2(k)) / 2 == x / 2 - Pow2(k - 1);
      BitDropTop(x / 2, k - 1, i - 1);
    }
  }

  lemma BitShl1(x: Word, i: nat)
    ensures Bit(Shl1(x), i) == (1 <= i < 32 && Bit(x, i - 1))
  {
    Pow2Half();
    BitUnfold(Shl1(x), i);
    if i >= 32 {
      BitWordHigh(Shl1(x), i);
    } else if i > 0 {
      if x >= 0x8000_0000 {
        assert Shl1(x) / 2 == x - Pow2(31);
        BitDropTop(x, 31, i - 1);
      }
    }
  }

  lemma {:induction false} BitShl(x: Word, s: nat, i: nat)
    ensures Bit(Shl(x, s), i) == (s <= i < 32 && Bit(x, i - s))
    decreases s
  {
    ShlUnfold(x, s);
    if s == 0 {
      if i >= 32 {
        BitWordHigh(x, i);
      }
    } else {
      BitShl(Shl1(x), s - 1, i);
      if i >= s - 1 {
        var j := i - (s - 1);
        BitShl1(x, j);
        if j >= 1 {
          assert j - 1 == i - s;
        }
      }
    }
  }

  lemma {:induction false} BitShr(x: Word, s: nat, i: nat)
    ensures Bit(Shr(x, s), i) == Bit(x, s + i)
    decreases s
  {
    ShrUnfold(x, s);
    if s > 0 {
      BitUnfold(x, s + i);
      BitShr(x / 2, s - 1, i);
    }
  }

  /** Numbers below 2^k are equal when their low k bits agree. */
  lemma {:induction false} ExtBits(x: nat, y: nat, k: nat)
    requires x < Pow2(k) && y < Pow2(k)
    requires forall i: nat :: i < k ==> Bit(x, i) == Bit(y, i)
    ensures x == y
    decreases k
  {
    Pow2Unfold(k);
    if k > 0 {
      forall i: nat | i < k - 1
        ensures Bit(x / 2, i) == Bit(y / 2, i)
      {
        BitUnfold(x, i + 1);
        BitUnfold(y, i + 1);
        assert Bit(x, i + 1) == Bit(y, i + 1);
      }
      ExtBits(x / 2, y / 2, k - 1);
      BitUnfold(x, 0);
      BitUnfold(y, 0);
      assert Bit(x, 0) == Bit(y, 0);
    }
  }

  /** Words are equal when their 32 bits agree. */
  lemma Ext(x: Word, y: Word)
    requires forall i: nat :: i < 32 ==> Bit(x, i) == Bit(y, i)
    ensures x == y
  {
    Pow2Word();
    ExtBits(x, y, 32);
  }

  lemma {:induction false} BitPow2Minus1(k: nat, i: nat)
    ensures Bit(Pow2(k) - 1, i) == (i < k)
    decreases k
  {
    Pow2Unfold(k);
    BitUnfold(Pow2(k) - 1, i);
    if k == 0 {
      BitZero(i);
    } else if i > 0 {
      BitPow2Minus1(k - 1, i - 1);
    }
  }

  lemma {:induction false} BitPow2(k: nat, i: nat)
    ensures Bit(Pow2(k), i) == (i == k)
    decreases k
  {
    Pow2Unfold(k);
    BitUnfold(Pow2(k), i);
    if k == 0 {
      if i > 0 {
        BitZero(i - 1);
      }
    } else if i > 0 {
      BitPow2(k - 1, i - 1);
    }
  }

  lemma HalveConcat(hi: nat, lo: nat, p: nat)
    ensures (hi * (2 * p) + lo) / 2 == hi * p + lo / 2
    ensures (hi * (2 * p) + lo) % 2 == lo % 2
  {
    assert hi * (2 * p) == 2 * (hi * p);
  }

  /** Bits of hi * 2^m + lo, where lo fits in m bits: lo supplies the low m bits, hi the rest. */
  lemma {:induction false} BitConcat(hi: nat, lo: nat, m: nat, i: nat)
    requires lo < Pow2(m)
    ensures Bit(hi * Pow2(m) + lo, i) == if i < m then Bit(lo, i) else Bit(hi, i - m)
    decreases m
  {
    Pow2Unfold(m);
    if m > 0 {
      HalveConcat(hi, lo, Pow2(m - 1));
      BitUnfold(hi * Pow2(m) + lo, i);
      BitUnfold(lo, i);
      if i > 0 {
        BitConcat(hi, lo / 2, m - 1, i - 1);
      }
    }
  }

  lemma ShlOnePow2(k: nat)
    ensures Shl(1, k) == if k < 32 then Pow2(k) else 0
  {
    Pow2Word();
    var expected: nat := if k < 32 then Pow2(k) else 0;
    if k < 32 {
      Pow2Monotone(k + 1, 32);
      Pow2Unfold(k + 1);
    }
    forall i: nat | i < 32
      ensures Bit(Shl(1, k), i) == Bit(expected, i)
    {
      BitShl(1, k, i);
      if k <= i {
        BitPow2(0, i - k);
        Pow2Unfold(0);
      }
      if k < 32 {
        BitPow2(k, i);
      } else {
        BitZero(i);
      }
    }
    Ext(Shl(1, k), expected);
  }

  lemma BitLowMask(k: nat, i: nat)
    ensures Bit(LowMask(k), i) == (i < k && i < 32)
  {
    ShlOnePow2(k);
    Pow2Word();
    if k < 32 {
      BitPow2Minus1(k, i);
    } else {
      BitPow2Minus1(32, i);
    }
  }

  lemma BitAllOnes(i: nat)
    ensures Bit(0xFFFF_FFFF, i) == (i < 32)
  {
    Pow2Word();
    BitPow2Minus1(32, i);
  }

  /** Two different numbers below 2^k differ in some bit below k. */
  lemma {:induction false} BitDiffer(n1: nat, n2: nat, k: nat) returns (i: nat)
    requires n1 < Pow2(k) && n2 < Pow2(k) && n1 != n2
    ensures i < k && Bit(n1, i) != Bit(n2, i)
    decreases k
  {
    Pow2Unfold(k);
    if n1 % 2 != n2 % 2 {
      i := 0;
      BitUnfold(n1, 0);
      BitUnfold(n2, 0);
      if k == 0 {
        assert false;
      }
    } else {
      var j := BitDiffer(n1 / 2, n2 / 2, k - 1);
      i := j + 1;
      BitUnfold(n1, i);
      BitUnfold(n2, i);
    }
  }

  /** A number from 2^m up to below 2^w has a set bit at some position from m up to below w. */
  lemma {:induction false} BitAtLeast(n: nat, m: nat, w: nat) returns (k: nat)
    requires Pow2(m) <= n < Pow2(w)
    ensures m <= k < w && Bit(n, k)
    decreases n
  {
    Pow2Unfold(0);
    Pow2Unfold(m);
    Pow2Unfold(w);
    if m == 0 && n % 2 == 1 {
      k := 0;
      BitUnfold(n, 0);
    } else {
      var m' := if m == 0 then 0 else m - 1;
      var k' := BitAtLeast(n / 2, m', w - 1);
      k := k' + 1;
      BitUnfold(n, k);
    }
  }
}
