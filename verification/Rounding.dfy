/** The rounding macros of math.hpp, in 64-bit arithmetic. */
module Rounding {
  import opened Bits

  const HALF: nat := 0x8000_0000_0000_0000

  ghost predicate Power(n: nat) {
    exists k: nat :: n == Pow2(k)
  }

  /** r is the least power of two that is at least n. */
  ghost predicate LeastPower(r: nat, n: nat) {
    Power(r) && n <= r && forall p: nat | Power(p) && n <= p :: r <= p
  }

  lemma PowerOf(k: nat)
    ensures Power(Pow2(k))
  {
  }

  /** The powers of two have nothing between a power and its double. */
  lemma PowerGap(k: nat, n: nat)
    requires Pow2(k) < n <= Pow2(k + 1)
    ensures LeastPower(Pow2(k + 1), n)
  {
    PowerOf(k + 1);
    forall p: nat | Power(p) && n <= p ensures Pow2(k + 1) <= p {
      var j: nat :| p == Pow2(j);
      if j <= k {
        Pow2Monotone(j, k);
      } else {
        Pow2Monotone(k + 1, j);
      }
    }
  }

  lemma PowerSelf(n: nat)
    requires Power(n)
    ensures LeastPower(n, n) && n >= 1
  {
  }

  /** Distinct powers of two are at least a factor of two apart. */
  lemma HalfPower(small: nat, large: nat)
    requires Power(small) && Power(large) && small < large
    ensures large % 2 == 0 && Power(large / 2) && small <= large / 2
  {
    var j: nat :| small == Pow2(j);
    var k: nat :| large == Pow2(k);
    if k <= j {
      Pow2Monotone(k, j);
    }
    assert large / 2 == Pow2(k - 1);
    Pow2Monotone(j, k - 1);
  }

  lemma DoublePower(n: nat)
    requires Power(n)
    ensures Power(2 * n)
  {
    var k: nat :| n == Pow2(k);
    assert 2 * n == Pow2(k + 1);
  }

  /** ALIGN_UP for 64-bit operands. */
  function AlignUp(a: nat, b: nat): nat
    requires 0 < b
  {
    (a + (b - 1)) % WORD / b * b % WORD
  }

  lemma AlignUpLeast(a: nat, b: nat)
    requires 0 < b && a + b <= WORD
    ensures AlignUp(a, b) % b == 0 && a <= AlignUp(a, b) < a + b
  {
    var q, r := (a + (b - 1)) / b, (a + (b - 1)) % b;
    assert a + (b - 1) == q * b + r;
    assert AlignUp(a, b) == q * b;
    DivUnique(q * b, b, q, 0);
  }

  // ----- Clearing the lowest digit ------------------------------------------------------

  /** POWER_OF_2: true for 0 as well. */
  predicate PowerOf2(v: nat) {
    v == 0 || And(v, v - 1) == 0
  }

  /** i & i - 1 drops the lowest digit: below a power of two nothing, above it at least that power. */
  lemma {:induction false} DropLowest(i: nat, k: nat)
    requires Pow2(k) <= i < Pow2(k + 1)
    ensures if i == Pow2(k) then And(i, i - 1) == 0 else Pow2(k) <= And(i, i - 1) < i
    decreases k
  {
    if k > 0 {
      hide And;
      DropOnce(i);
      if i % 2 == 0 {
        DropLowest(i / 2, k - 1);
      }
    }
  }

  /** An odd word loses its last digit, an even one drops the lowest digit of its half. */
  lemma DropOnce(i: nat)
    requires i > 1
    ensures And(i, i - 1) == if i % 2 == 1 then i - 1 else 2 * And(i / 2, i / 2 - 1)
  {
    hide And;
    AndUnfold(i, i - 1);
    AndSelf(i / 2);
    assert (i - 1) / 2 == if i % 2 == 1 then i / 2 else i / 2 - 1;
  }

  lemma {:induction false} AndSelf(x: nat)
    ensures And(x, x) == x
  {
    if x > 0 {
      AndSelf(x / 2);
    }
  }

  lemma {:induction false} TopDigit(n: nat) returns (k: nat)
    requires n > 0
    ensures Pow2(k) <= n < Pow2(k + 1)
  {
    if n == 1 {
      k := 0;
    } else {
      k := TopDigit(n / 2);
      k := k + 1;
    }
  }

  /** POWER_OF_2 says what its name says, except for 0. */
  lemma PowerOf2Meaning(v: nat)
    ensures PowerOf2(v) <==> v == 0 || Power(v)
  {
    if v > 0 {
      var k := TopDigit(v);
      DropLowest(v, k);
      if Power(v) {
        var j: nat :| v == Pow2(j);
        if j > k {
          Pow2Monotone(k + 1, j);
        }
        Pow2Monotone(j, k);
      }
    }
  }

  /** The loop of TO_POWER_OF_2: only the top digit stays. */
  method TopPower(n: nat) returns (i: nat)
    requires n > 0
    ensures Power(i) && i <= n < 2 * i
  {
    hide And;
    i := n;
    ghost var k := TopDigit(i);
    DropLowest(i, k);
    while And(i, i - 1) != 0
      invariant Pow2(k) <= i <= n < Pow2(k + 1)
      decreases i
    {
      DropLowest(i, k);
      i := And(i, i - 1);
    }
    DropLowest(i, k);
  }

  /** TO_POWER_OF_2: the top digit of v - 1, doubled in 64 bits. */
  method ToPowerOf2(v: nat) returns (i: nat)
    requires 2 <= v < WORD
    ensures v <= HALF ==> LeastPower(i, v) && i <= HALF
    ensures v > HALF ==> i == 0
  {
    i := TopPower(v - 1);
    DoubledTop(i, v);
    i := 2 * i % WORD;
  }

  lemma HalfIsPower()
    ensures Power(HALF) && HALF == Pow2(63)
  {
    Pow2Large();
    PowerOf(63);
  }

  lemma DoubledTop(i: nat, v: nat)
    requires Power(i) && i < v <= 2 * i && v < WORD
    ensures v <= HALF ==> LeastPower(2 * i, v) && 2 * i <= HALF
    ensures v > HALF ==> i == HALF
  {
    var k: nat :| i == Pow2(k);
    PowerGap(k, v);
    HalfIsPower();
    if v > HALF && i < HALF {
      HalfPower(i, HALF);
    }
    if i > HALF {
      HalfPower(HALF, i);
    }
  }

  lemma PowerMultiple(p: nat, q: nat)
    requires Power(p) && Power(q) && p <= q
    ensures q % p == 0
  {
    var j: nat :| p == Pow2(j);
    var k: nat :| q == Pow2(k);
    if k < j {
      Pow2Monotone(k + 1, j);
    }
    var f := PowerFactor(j, k);
    DivUnique(q, p, f, 0);
  }

  lemma {:induction false} PowerFactor(j: nat, k: nat) returns (f: nat)
    requires j <= k
    ensures Pow2(k) == f * Pow2(j)
    decreases k
  {
    if k == j {
      f := 1;
    } else {
      f := PowerFactor(j, k - 1);
      Twice(f, Pow2(j));
      f := 2 * f;
    }
  }

  lemma Twice(f: nat, p: nat)
    ensures 2 * (f * p) == (2 * f) * p
  {
  }

  /** ALIGN_UP_2: the least power of two that is at least v and align. */
  method AlignUp2(align: nat, v: nat) returns (a: nat)
    requires Power(align) && align <= HALF && 0 < v <= HALF
    ensures LeastPower(a, if v < align then align else v) && a % align == 0 && a <= HALF
  {
    hide PowerOf2, Power, LeastPower;
    PowerSelf(align);
    a := v;
    ghost var need := if v < align then align else v;
    while a % align != 0 || !PowerOf2(a)
      invariant v <= a <= HALF
      invariant a == v || NoneBelow(a, need)
      invariant a == v || Power(a)
      decreases HALF - a
    {
      NextPower(a, align, need);
      a := a + 1;
      ghost var b := a;
      a := ToPowerOf2(a);
      StepPower(a, b, need);
    }
    FinalPower(a, align, v, need);
  }

  /** No power of two that is large enough lies below a. */
  ghost predicate NoneBelow(a: nat, need: nat) {
    forall p: nat | Power(p) && need <= p :: a <= p
  }

  lemma StepPower(a: nat, b: nat, need: nat)
    requires LeastPower(a, b) && NoneBelow(b, need)
    ensures NoneBelow(a, need) && Power(a) && a >= b
  {
  }

  /** Not yet a multiple of align, or not yet a power: every candidate is larger than a. */
  lemma NextPower(a: nat, align: nat, need: nat)
    requires Power(align) && align <= HALF && 0 < a <= HALF && align <= need
    requires a % align != 0 || !PowerOf2(a)
    requires a <= need || NoneBelow(a, need)
    ensures a < HALF && NoneBelow(a + 1, need)
  {
    HalfIsPower();
    PowerOf2Meaning(a);
    if a == HALF {
      PowerMultiple(align, a);
    }
    forall p: nat | Power(p) && need <= p ensures a + 1 <= p {
      if p == a {
        PowerMultiple(align, a);
      }
    }
  }

  lemma FinalPower(a: nat, align: nat, v: nat, need: nat)
    requires PowerOf2(a) && align > 0 && a % align == 0 && 0 < v <= a && need == if v < align then align else v
    requires a == v || NoneBelow(a, need)
    ensures LeastPower(a, need)
  {
    PowerOf2Meaning(a);
    if a < align {
      LowMod(a, align);
    }
    PowerSelf(a);
  }

  lemma LowMod(a: nat, b: nat)
    requires 0 < a < b
    ensures a % b != 0
  {
  }
}
