/**
 Machine words as natural numbers. A word is a `nat`, its width is an explicit
 bound, and the C operators `<<`, `>>`, `&` and `|` are given by recursion on
 binary digits. Every definition divides and multiplies by two only, so the
 facts about masks and fields that the other modules use are linear.
 */
module Bits {

  type Byte = b: int | 0 <= b < 256

  /** 2 to the power n. */
  function Pow2(n: nat): (r: nat)
    ensures r >= 1
  {
    if n == 0 then 1 else 2 * Pow2(n - 1)
  }

  /** x << k, before any truncation to a machine width. */
  function Shl(x: nat, k: nat): (r: nat)
    decreases x, k
  {
    if k == 0 then x else 2 * Shl(x, k - 1)
  }

  /** x >> k */
  function Shr(x: nat, k: nat): (r: nat)
    decreases x, k
  {
    if k == 0 then x else Shr(x / 2, k - 1)
  }

  /** The low k binary digits of x. */
  function Low(x: nat, k: nat): (r: nat)
    decreases x, k
  {
    if k == 0 then 0 else 2 * Low(x / 2, k - 1) + x % 2
  }

  /** The k-th binary digit of x. */
  function Bit(x: nat, k: nat): (b: nat)
    ensures b < 2
  {
    Shr(x, k) % 2
  }

  // ----- Powers and left shifts ---------------------------------------------------

  lemma {:induction false} Pow2Monotone(a: nat, b: nat)
    requires a <= b
    ensures Pow2(a) <= Pow2(b)
    decreases b
  {
    if a < b {
      Pow2Monotone(a, b - 1);
    }
  }

  lemma Pow2Step(k: nat)
    ensures Pow2(k + 1) == 2 * Pow2(k)
  {
  }

  lemma Pow2Values()
    ensures Pow2(0) == 1 && Pow2(1) == 2 && Pow2(2) == 4 && Pow2(3) == 8 && Pow2(4) == 16
    ensures Pow2(5) == 32 && Pow2(6) == 64 && Pow2(7) == 128 && Pow2(8) == 256 && Pow2(9) == 512
    ensures Pow2(10) == 1024 && Pow2(11) == 2048 && Pow2(12) == 4096 && Pow2(13) == 8192
    ensures Pow2(14) == 16384 && Pow2(15) == 32768 && Pow2(16) == 65536
  {
    assert Pow2(4) == 16;
    assert Pow2(8) == 256;
    assert Pow2(12) == 4096;
  }

  lemma Pow2Word()
    ensures Pow2(32) == 0x1_0000_0000
  {
    assert Pow2(16) == 0x1_0000 by { Pow2Values(); }
    assert Pow2(20) == 0x10_0000;
    assert Pow2(24) == 0x100_0000;
    assert Pow2(28) == 0x1000_0000;
  }

  lemma Pow2Large()
    ensures Pow2(40) == 0x100_0000_0000
    ensures Pow2(63) == 0x8000_0000_0000_0000 && Pow2(64) == 0x1_0000_0000_0000_0000
  {
    Pow2Word();
    assert Pow2(40) == 0x100_0000_0000;
    assert Pow2(48) == 0x1_0000_0000_0000;
    assert Pow2(56) == 0x100_0000_0000_0000;
  }

  lemma {:induction false} ShlAdd(x: nat, y: nat, k: nat)
    ensures Shl(x + y, k) == Shl(x, k) + Shl(y, k)
  {
    if k > 0 {
      ShlAdd(x, y, k - 1);
    }
  }

  lemma {:induction false} ShlOne(k: nat)
    ensures Shl(1, k) == Pow2(k) && Shl(0, k) == 0
  {
    if k > 0 {
      ShlOne(k - 1);
    }
  }

  lemma {:induction false} ShlShl(x: nat, j: nat, k: nat)
    ensures Shl(Shl(x, j), k) == Shl(x, j + k)
    decreases k
  {
    if k > 0 {
      ShlShl(x, j, k - 1);
    }
  }

  lemma {:induction false} Pow2Add(a: nat, b: nat)
    ensures Pow2(a + b) == Shl(Pow2(a), b)
    decreases b
  {
    if b > 0 {
      Pow2Add(a, b - 1);
    }
  }

  lemma ShlMonotone(x: nat, y: nat, k: nat)
    requires x <= y
    ensures Shl(x, k) <= Shl(y, k)
    ensures x < y ==> Shl(x, k) + Pow2(k) <= Shl(y, k)
  {
    ShlAdd(x, y - x, k);
    if x < y {
      ShlAdd(1, y - x - 1, k);
      ShlOne(k);
    }
  }

  lemma {:induction false} ShlIsTimes(x: nat, k: nat)
    ensures Shl(x, k) == x * Pow2(k)
  {
    if k > 0 {
      ShlIsTimes(x, k - 1);
    }
  }

  lemma ShlValues(x: nat)
    ensures Shl(x, 1) == 2 * x && Shl(x, 2) == 4 * x && Shl(x, 3) == 8 * x && Shl(x, 8) == 256 * x
    ensures Shl(x, 9) == 512 * x
  {
    assert Shl(x, 1) == 2 * x;
    assert Shl(x, 3) == 8 * x;
    assert Shl(x, 5) == 32 * x;
    assert Shl(x, 7) == 128 * x;
  }

  // ----- Splitting a word at digit k ------------------------------------------------

  lemma {:induction false} LowBound(x: nat, k: nat)
    ensures Low(x, k) < Pow2(k)
    decreases k
  {
    if k > 0 {
      LowBound(x / 2, k - 1);
    }
  }

  lemma {:induction false} Split(x: nat, k: nat)
    ensures x == Shl(Shr(x, k), k) + Low(x, k)
    decreases k
  {
    if k > 0 {
      Split(x / 2, k - 1);
    }
  }

  lemma {:induction false} Join(h: nat, l: nat, k: nat)
    requires l < Pow2(k)
    ensures Shr(Shl(h, k) + l, k) == h && Low(Shl(h, k) + l, k) == l
    decreases k
  {
    if k > 0 {
      Join(h, l / 2, k - 1);
      assert (Shl(h, k) + l) / 2 == Shl(h, k - 1) + l / 2;
      assert (Shl(h, k) + l) % 2 == l % 2;
    }
  }

  lemma LowSmall(x: nat, k: nat)
    requires x < Pow2(k)
    ensures Low(x, k) == x && Shr(x, k) == 0
  {
    ShlOne(k);
    Join(0, x, k);
  }

  lemma ShlBound(x: nat, j: nat, k: nat)
    requires x < Pow2(j)
    ensures Shl(x, k) < Pow2(j + k)
  {
    ShlMonotone(x, Pow2(j), k);
    Pow2Add(j, k);
  }

  lemma {:induction false} ShrShr(x: nat, j: nat, k: nat)
    ensures Shr(Shr(x, j), k) == Shr(x, j + k)
    decreases j
  {
    if j > 0 {
      ShrShr(x / 2, j - 1, k);
    }
  }

  lemma {:induction false} ShrBound(x: nat, k: nat)
    ensures Shr(x, k) <= x
    decreases k
  {
    if k > 0 {
      ShrBound(x / 2, k - 1);
    }
  }

  /** Shifting right divides by a power of two. */
  lemma {:induction false} ShrIsDiv(x: nat, k: nat)
    ensures Shr(x, k) == x / Pow2(k)
    decreases k
  {
    if k > 0 {
      ShrIsDiv(x / 2, k - 1);
      DivTwice(x, Pow2(k - 1));
    }
  }

  lemma DivTwice(x: nat, p: nat)
    requires p > 0
    ensures x / 2 / p == x / (2 * p)
  {
    var q, r := x / 2 / p, x / 2 % p;
    assert x / 2 == q * p + r;
    assert x == q * (2 * p) + (2 * r + x % 2);
    DivUnique(x, 2 * p, q, 2 * r + x % 2);
  }

  lemma DivDiv(x: nat, m: nat, n: nat)
    requires m > 0 && n > 0
    ensures n * m > 0 && x / (n * m) == x / m / n
  {
    var q := x / m / n;
    var r := x / m % n;
    assert x == (q * n + r) * m + x % m;
    assert (q * n + r) * m == q * (n * m) + r * m;
    assert r * m + x % m < n * m by { DigitFits(r, n, x % m, m); }
    DivUnique(x, n * m, q, r * m + x % m);
  }

  lemma DigitFits(r: nat, n: nat, s: nat, m: nat)
    requires r < n && s < m
    ensures r * m + s < n * m
  {
    assert (r + 1) * m <= n * m;
  }

  lemma DivUnique(x: int, d: int, q: int, r: int)
    requires d > 0 && x == q * d + r && 0 <= r < d
    ensures x / d == q && x % d == r
  {
    var q', r' := x / d, x % d;
    assert x == q' * d + r';
    assert (q' - q) * d == r - r';
    if q' > q {
      MulMonotone(1, q' - q, d);
    } else if q' < q {
      MulMonotone(1, q - q', d);
    }
  }

  lemma MulMonotone(a: int, b: int, d: int)
    requires a <= b && d >= 0
    ensures a * d <= b * d
  {
  }

  /** x >> k compared with q, without shifting. */
  lemma ShrCompare(x: nat, q: nat, k: nat)
    ensures Shl(q, k) <= x <==> q <= Shr(x, k)
  {
    Split(x, k);
    LowBound(x, k);
    if q <= Shr(x, k) {
      ShlMonotone(q, Shr(x, k), k);
    } else {
      ShlMonotone(Shr(x, k), q, k);
    }
  }

  // ----- Digits -------------------------------------------------------------------------

  lemma BitShr(x: nat, j: nat, k: nat)
    ensures Bit(Shr(x, j), k) == Bit(x, j + k)
  {
    ShrShr(x, j, k);
  }

  lemma BitHalf(x: nat, k: nat)
    requires k > 0
    ensures Bit(x / 2, k - 1) == Bit(x, k)
  {
  }

  lemma {:induction false} BitShl(x: nat, d: nat, k: nat)
    ensures Bit(Shl(x, d), k) == if k < d then 0 else Bit(x, k - d)
    decreases d
  {
    if d > 0 {
      assert Shl(x, d) / 2 == Shl(x, d - 1);
      if k > 0 {
        BitShl(x, d - 1, k - 1);
        BitHalf(Shl(x, d), k);
      }
    }
  }

  lemma {:induction false} LowStep(x: nat, k: nat)
    ensures Low(x, k + 1) == Low(x, k) + Shl(Bit(x, k), k)
    decreases k
  {
    if k > 0 {
      LowStep(x / 2, k - 1);
      BitHalf(x, k);
    }
  }

  lemma {:induction false} BitLow(x: nat, n: nat, i: nat)
    requires i < n
    ensures Bit(Low(x, n), i) == Bit(x, i)
    decreases n
  {
    var l := Low(x, n);
    assert l % 2 == x % 2 && l / 2 == Low(x / 2, n - 1);
    if i > 0 {
      BitLow(x / 2, n - 1, i - 1);
      BitHalf(l, i);
      BitHalf(x, i);
    }
  }

  lemma HighBitZero(x: nat, n: nat, k: nat)
    requires x < Pow2(n) && n <= k
    ensures Bit(x, k) == 0
  {
    Pow2Monotone(n, k);
    LowSmall(x, k);
  }

  lemma {:induction false} EqualBits(x: nat, y: nat, k: nat)
    requires forall i: nat | i < k :: Bit(x, i) == Bit(y, i)
    ensures Low(x, k) == Low(y, k)
  {
    if k > 0 {
      EqualBits(x, y, k - 1);
      LowStep(x, k - 1);
      LowStep(y, k - 1);
      assert Bit(x, k - 1) == Bit(y, k - 1);
    }
  }

  // ----- And, or ---------------------------------------------------------------------------

  /** One more than the largest 64-bit word. */
  const WORD: nat := 0x1_0000_0000_0000_0000

  /** ~x in 64 bits. */
  function Not64(x: nat): nat {
    if x < WORD then WORD - 1 - x else 0
  }

  /** x & y */
  function And(x: nat, y: nat): (r: nat)
    ensures r <= x && r <= y
  {
    if x == 0 || y == 0 then 0
    else 2 * And(x / 2, y / 2) + (if x % 2 == 1 && y % 2 == 1 then 1 else 0)
  }

  /** x | y */
  function Or(x: nat, y: nat): (r: nat)
    decreases x + y
  {
    if x == 0 then y else if y == 0 then x
    else 2 * Or(x / 2, y / 2) + (if x % 2 == 1 || y % 2 == 1 then 1 else 0)
  }

  lemma AndUnfold(x: nat, y: nat)
    ensures And(x, y) / 2 == And(x / 2, y / 2)
    ensures And(x, y) % 2 == if x % 2 == 1 && y % 2 == 1 then 1 else 0
  {
  }

  lemma OrUnfold(x: nat, y: nat)
    ensures Or(x, y) / 2 == Or(x / 2, y / 2)
    ensures Or(x, y) % 2 == if x % 2 == 1 || y % 2 == 1 then 1 else 0
  {
  }

  lemma {:induction false} AndBit(x: nat, y: nat, k: nat)
    ensures Bit(And(x, y), k) == if Bit(x, k) == 1 && Bit(y, k) == 1 then 1 else 0
    decreases k
  {
    AndUnfold(x, y);
    if k > 0 {
      AndBit(x / 2, y / 2, k - 1);
      BitHalf(x, k);
      BitHalf(y, k);
      BitHalf(And(x, y), k);
    }
  }

  lemma {:induction false} OrBit(x: nat, y: nat, k: nat)
    ensures Bit(Or(x, y), k) == if Bit(x, k) == 1 || Bit(y, k) == 1 then 1 else 0
    decreases k
  {
    OrUnfold(x, y);
    if k > 0 {
      OrBit(x / 2, y / 2, k - 1);
      BitHalf(x, k);
      BitHalf(y, k);
      BitHalf(Or(x, y), k);
    }
  }

  /** Masking with 2^k - 1 keeps the low k digits. */
  lemma {:induction false} AndMask(x: nat, k: nat)
    ensures And(x, Pow2(k) - 1) == Low(x, k)
    decreases k
  {
    if k > 0 {
      AndMask(x / 2, k - 1);
      AndUnfold(x, Pow2(k) - 1);
      assert (Pow2(k) - 1) / 2 == Pow2(k - 1) - 1;
    }
  }

  lemma {:induction false} OrBound(x: nat, y: nat, k: nat)
    requires x < Pow2(k) && y < Pow2(k)
    ensures Or(x, y) < Pow2(k)
    decreases k
  {
    if k > 0 {
      OrBound(x / 2, y / 2, k - 1);
      OrUnfold(x, y);
    }
  }

  lemma LowHalf(x: nat, k: nat)
    requires k > 0
    ensures Low(x, k) / 2 == Low(x / 2, k - 1) && Low(x, k) % 2 == x % 2
  {
  }

  lemma SameHalves(x: nat, y: nat)
    requires x / 2 == y / 2 && x % 2 == y % 2
    ensures x == y
  {
  }

  /** Words split at digit k are combined field by field. */
  lemma {:induction false} OrSplit(x: nat, y: nat, k: nat)
    ensures Shr(Or(x, y), k) == Or(Shr(x, k), Shr(y, k))
    ensures Low(Or(x, y), k) == Or(Low(x, k), Low(y, k))
    decreases k
  {
    if k > 0 {
      OrSplit(x / 2, y / 2, k - 1);
      OrUnfold(x, y);
      assert Low(Or(x, y), k) == Or(Low(x, k), Low(y, k)) by {
        LowHalf(x, k);
        LowHalf(y, k);
        LowHalf(Or(x, y), k);
        OrUnfold(Low(x, k), Low(y, k));
        SameHalves(Low(Or(x, y), k), Or(Low(x, k), Low(y, k)));
      }
    }
  }

  lemma {:induction false} AndSplit(x: nat, y: nat, k: nat)
    ensures Shr(And(x, y), k) == And(Shr(x, k), Shr(y, k))
    ensures Low(And(x, y), k) == And(Low(x, k), Low(y, k))
    decreases k
  {
    if k > 0 {
      AndSplit(x / 2, y / 2, k - 1);
      AndUnfold(x, y);
      assert Low(And(x, y), k) == And(Low(x, k), Low(y, k)) by {
        LowHalf(x, k);
        LowHalf(y, k);
        LowHalf(And(x, y), k);
        AndUnfold(Low(x, k), Low(y, k));
        SameHalves(Low(And(x, y), k), And(Low(x, k), Low(y, k)));
      }
    }
  }

  /** Fields that do not overlap are added by `|`. */
  lemma OrDisjoint(l: nat, h: nat, k: nat)
    requires l < Pow2(k)
    ensures Or(l, Shl(h, k)) == l + Shl(h, k)
  {
    OrSplit(l, Shl(h, k), k);
    LowSmall(l, k);
    Join(h, 0, k);
    Split(Or(l, Shl(h, k)), k);
  }
}
