/** Bitwise operations on naturals, bit by bit, and what they compute with powers of two. */
module Bits {
  import opened Common

  function Pow2(n: nat): (r: nat)
    ensures r > 0
  {
    if n == 0 then 1 else 2 * Pow2(n - 1)
  }

  function And(x: nat, y: nat): nat {
    if x == 0 || y == 0 then 0
    else (if x % 2 == 1 && y % 2 == 1 then 1 else 0) + 2 * And(x / 2, y / 2)
  }

  function Or(x: nat, y: nat): nat {
    if x == 0 then y else if y == 0 then x
    else (if x % 2 == 1 || y % 2 == 1 then 1 else 0) + 2 * Or(x / 2, y / 2)
  }

  function Xor(x: nat, y: nat): nat {
    if x == 0 then y else if y == 0 then x
    else (if x % 2 != y % 2 then 1 else 0) + 2 * Xor(x / 2, y / 2)
  }

  /** `x >> n` */
  function High(x: nat, n: nat): nat
    decreases n
  {
    if n == 0 then x else High(x / 2, n - 1)
  }

  /** The low `n` bits. */
  function Low(x: nat, n: nat): (r: nat)
    ensures r <= x
    decreases n
  {
    if n == 0 then 0 else x % 2 + 2 * Low(x / 2, n - 1)
  }

  /** `~x` */
  function Not64(x: u64): u64 {
    WORD - 1 - x
  }

  // ---- powers of two ----

  lemma {:induction false} Pow2Add(a: nat, b: nat)
    ensures Pow2(a + b) == Pow2(a) * Pow2(b)
    decreases a
  {
    if a > 0 {
      Pow2Add(a - 1, b);
      Doubled(Pow2(a - 1), Pow2(b));
    }
  }

  lemma Doubled(x: nat, y: nat)
    ensures 2 * x * y == 2 * (x * y)
  {
  }

  lemma {:induction false} Pow2Monotone(a: nat, b: nat)
    requires a <= b
    ensures Pow2(a) <= Pow2(b) && (a < b ==> 2 * Pow2(a) <= Pow2(b))
    decreases b
  {
    if a < b {
      Pow2Monotone(a, b - 1);
    }
  }

  lemma Pow2Is64()
    ensures Pow2(64) == WORD && Pow2(62) == 0x4000_0000_0000_0000 && Pow2(2) == 4 && Pow2(1) == 2
  {
    hide Pow2;
    Pow2Small();
    Pow2Add(8, 8);
    Pow2Add(16, 16);
    Pow2Add(32, 32);
    Pow2Add(62, 2);
  }

  lemma Pow2Small()
    ensures Pow2(1) == 2 && Pow2(2) == 4 && Pow2(8) == 0x100
  {
    assert Pow2(3) == 8 && Pow2(5) == 32;
  }

  // ---- splitting a number ----

  lemma {:induction false} Split(x: nat, n: nat)
    ensures x == High(x, n) * Pow2(n) + Low(x, n) && Low(x, n) < Pow2(n)
    decreases n
  {
    if n > 0 {
      Split(x / 2, n - 1);
      Twice(High(x, n), Pow2(n - 1));
    }
  }

  lemma Twice(q: int, p: int)
    ensures q * (2 * p) == 2 * (q * p)
  {
  }

  lemma MulLe(x: int, y: int, a: nat)
    requires x <= y
    ensures x * a <= y * a
  {
    assert y * a == x * a + (y - x) * a;
  }

  lemma QuotientIs(q: nat, r: nat, q2: nat, r2: nat, p: nat)
    requires q * p + r == q2 * p + r2 && r < p && r2 < p
    ensures q == q2 && r == r2
  {
    if q < q2 {
      MulLe(q + 1, q2, p);
    } else if q2 < q {
      MulLe(q2 + 1, q, p);
    }
  }

  lemma SplitIs(x: nat, n: nat, q: nat, r: nat)
    requires r < Pow2(n) && x == q * Pow2(n) + r
    ensures High(x, n) == q && Low(x, n) == r
  {
    Split(x, n);
    QuotientIs(High(x, n), Low(x, n), q, r, Pow2(n));
  }

  /** Shifting right is dividing. */
  lemma HighIsDiv(x: nat, n: nat)
    ensures High(x, n) == x / Pow2(n) && Low(x, n) == x % Pow2(n)
  {
    hide High, Low, Pow2;
    Split(x, n);
    var p := Pow2(n);
    assert x == x / p * p + x % p && 0 <= x % p < p;
    QuotientIs(High(x, n), Low(x, n), x / p, x % p, p);
  }

  /** Numbers with the same high bits form an aligned interval. */
  lemma SameHigh(x: nat, y: nat, n: nat)
    ensures High(x, n) == High(y, n) <==> y - Low(y, n) <= x < y - Low(y, n) + Pow2(n)
  {
    hide High, Low, Pow2;
    Split(x, n);
    Split(y, n);
    if y - Low(y, n) <= x < y - Low(y, n) + Pow2(n) {
      QuotientIs(High(x, n), Low(x, n), High(y, n), x - (y - Low(y, n)), Pow2(n));
    }
  }

  lemma {:induction false} HighHigh(x: nat, a: nat, b: nat)
    ensures High(High(x, a), b) == High(x, a + b)
    decreases a
  {
    if a > 0 {
      HighHigh(x / 2, a - 1, b);
    }
  }

  /** A multiple of a power of two has no low bits. */
  lemma LowOfMultiple(q: nat, n: nat)
    ensures Low(q * Pow2(n), n) == 0 && High(q * Pow2(n), n) == q
  {
    hide High, Low, Pow2;
    SplitIs(q * Pow2(n), n, q, 0);
  }

  lemma {:induction false} HighZero(x: nat, n: nat)
    requires x < Pow2(n)
    ensures High(x, n) == 0 && Low(x, n) == x
    decreases n
  {
    if n > 0 {
      HighZero(x / 2, n - 1);
    }
  }

  // ---- exclusive or ----

  lemma XorHalf(x: nat, y: nat)
    ensures Xor(x, y) / 2 == Xor(x / 2, y / 2)
    ensures Xor(x, y) % 2 == if x % 2 != y % 2 then 1 else 0
  {
  }

  lemma {:induction false} XorZero(x: nat, y: nat)
    ensures Xor(x, y) == 0 <==> x == y
    decreases x
  {
    if x > 0 && y > 0 {
      XorZero(x / 2, y / 2);
    }
  }

  lemma {:induction false} XorHigh(x: nat, y: nat, n: nat)
    ensures High(Xor(x, y), n) == Xor(High(x, n), High(y, n))
    decreases n
  {
    hide Xor;
    if n > 0 {
      XorHalf(x, y);
      XorHigh(x / 2, y / 2, n - 1);
    }
  }

  lemma {:induction false} XorBound(x: nat, y: nat, n: nat)
    requires x < Pow2(n) && y < Pow2(n)
    ensures Xor(x, y) < Pow2(n)
    decreases n
  {
    hide Xor;
    XorHalf(x, y);
    if n > 0 {
      XorBound(x / 2, y / 2, n - 1);
    } else {
      XorZero(x, y);
    }
  }

  // ---- and ----

  lemma {:induction false} AndSame(x: nat, n: nat)
    requires x < Pow2(n)
    ensures And(x, Pow2(n) - 1) == x
    decreases n
  {
    if x > 0 {
      AndSame(x / 2, n - 1);
    }
  }

  lemma AndHalf(x: nat, y: nat)
    ensures And(x, y) == (if x % 2 == 1 && y % 2 == 1 then 1 else 0) + 2 * And(x / 2, y / 2)
  {
  }

  lemma Pow2Half(n: nat)
    ensures Pow2(n) == if n == 0 then 1 else 2 * Pow2(n - 1)
  {
  }

  lemma LowHalf(x: nat, n: nat)
    ensures Low(x, n) == if n == 0 then 0 else x % 2 + 2 * Low(x / 2, n - 1)
  {
  }

  lemma HalfBelow(x: nat, m: nat)
    requires x < 2 * m
    ensures x / 2 < m
  {
  }

  lemma HalfOfDouble(m: nat)
    ensures 2 * m % 2 == 0 && 2 * m / 2 == m
  {
  }

  /** Clearing the low `n` bits. */
  lemma {:induction false} AndHigh(x: nat, w: nat, n: nat)
    requires n <= w && x < Pow2(w)
    ensures Pow2(n) <= Pow2(w) && And(x, Pow2(w) - Pow2(n)) == x - Low(x, n)
    decreases n
  {
    hide And, Low, Pow2;
    Pow2Monotone(n, w);
    LowHalf(x, n);
    if n == 0 {
      AndSame(x, w);
      Pow2Half(0);
    } else {
      Pow2Half(w);
      Pow2Half(n);
      HalfBelow(x, Pow2(w - 1));
      Pow2Monotone(n - 1, w - 1);
      AndHigh(x / 2, w - 1, n - 1);
      AndHalf(x, Pow2(w) - Pow2(n));
      HalfOfDouble(Pow2(w - 1) - Pow2(n - 1));
    }
  }

  /** Testing bit `n`. */
  lemma {:induction false} AndBit(x: nat, n: nat)
    ensures And(x, Pow2(n)) == if High(x, n) % 2 == 1 then Pow2(n) else 0
    decreases n
  {
    if n == 0 {
      AndOne(x);
    } else if x > 0 {
      AndBit(x / 2, n - 1);
    } else {
      HighZero(0, n);
    }
  }

  lemma AndOne(x: nat)
    ensures And(x, 1) == x % 2
  {
    if x > 0 {
      assert And(x / 2, 0) == 0;
    }
  }

  lemma {:induction false} AndBound(x: nat, y: nat)
    ensures And(x, y) <= x && And(x, y) <= y
    decreases x
  {
    if x > 0 && y > 0 {
      AndBound(x / 2, y / 2);
    }
  }

  // ---- or ----

  /** Or of numbers without a common bit is their sum. */
  lemma {:induction false} OrIsSum(x: nat, y: nat, n: nat)
    requires Low(x, n) == 0 && y < Pow2(n)
    ensures Or(x, y) == x + y
    decreases n
  {
    if n > 0 && x > 0 && y > 0 {
      OrIsSum(x / 2, y / 2, n - 1);
    }
  }

  lemma {:induction false} OrBound(x: nat, y: nat, n: nat)
    requires x < Pow2(n) && y < Pow2(n)
    ensures Or(x, y) < Pow2(n)
    decreases n
  {
    if n > 0 && x > 0 && y > 0 {
      OrBound(x / 2, y / 2, n - 1);
    }
  }

  // ---- trailing ones ----

  /** How many low bits are ones. */
  function Ones(x: nat): nat {
    if x % 2 == 0 then 0 else 1 + Ones(x / 2)
  }

  lemma {:induction false} OnesBound(x: nat, n: nat)
    requires x < Pow2(n)
    ensures Ones(x) <= n
    decreases n
  {
    if x % 2 == 1 && n > 0 {
      OnesBound(x / 2, n - 1);
    }
  }

  lemma {:induction false} AndComplement(x: nat, w: nat)
    requires x < Pow2(w)
    ensures And(x, Pow2(w) - 1 - x) == 0
    decreases w
  {
    if x > 0 && w > 0 {
      AndComplement(x / 2, w - 1);
    }
  }

  /** `x & ~(x + 1)` keeps exactly the trailing ones. */
  lemma {:induction false} TrailingOnes(x: nat, w: nat)
    requires x + 1 < Pow2(w)
    ensures And(x, Pow2(w) - 1 - (x + 1)) == Pow2(Ones(x)) - 1
    decreases w
  {
    if x > 0 && Pow2(w) - 1 - (x + 1) > 0 {
      if x % 2 == 0 {
        AndComplement(x / 2, w - 1);
      } else {
        TrailingOnes(x / 2, w - 1);
      }
    }
  }
}
