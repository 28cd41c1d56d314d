/** Wide multiplication and saturating addition, on machine words with their wrap-around. */
module Arith {
  import opened Common

  const HALF_WORD := 0x1_0000_0000

  type s64 = x: int | -0x8000_0000_0000_0000 <= x < 0x8000_0000_0000_0000

  /** The signed reading of a word. */
  function Signed64(x: u64): s64 {
    if x < 0x8000_0000_0000_0000 then x else x - WORD
  }

  lemma MulBound(x: int, y: int, m: int, n: int)
    requires 0 <= x <= m && 0 <= y <= n
    ensures 0 <= x * y <= m * n
  {
    assert x * y <= m * y && m * y <= m * n;
  }

  /** No product of half words wraps, not even with one half word added; with two neither. */
  lemma PartialSum(x: int, y: int, h: int, k: int)
    requires 0 <= x < HALF_WORD && 0 <= y < HALF_WORD && 0 <= h < HALF_WORD && 0 <= k < HALF_WORD
    ensures 0 <= x * y <= x * y + h <= x * y + h + k < WORD
    ensures Wrap64(x * y) == x * y && Wrap64(x * y + h) == x * y + h && Wrap64(x * y + h + k) == x * y + h + k
  {
    MulBound(x, y, HALF_WORD - 1, HALF_WORD - 1);
    SmallIsItself(x * y);
    SmallIsItself(x * y + h);
    SmallIsItself(x * y + h + k);
  }

  lemma Distribute(a0: int, a1: int, b0: int, b1: int, w: int)
    ensures (a1 * w + a0) * (b1 * w + b0) == a1 * b1 * (w * w) + (a1 * b0 + a0 * b1) * w + a0 * b0
  {
    var x := a1 * w;
    assert (x + a0) * (b1 * w + b0) == x * (b1 * w) + x * b0 + a0 * (b1 * w) + a0 * b0;
    assert x * (b1 * w) == a1 * b1 * (w * w);
    assert x * b0 == a1 * b0 * w && a0 * (b1 * w) == a0 * b1 * w;
  }

  /** Schoolbook multiplication: what the last partial sum is. */
  lemma Schoolbook(a0: int, a1: int, b0: int, b1: int, t1: int, t2: int, t3: int)
    requires 0 <= a0 < HALF_WORD && 0 <= a1 < HALF_WORD && 0 <= b0 < HALF_WORD && 0 <= b1 < HALF_WORD
    requires t1 == a1 * b0 + a0 * b0 / HALF_WORD && t2 == a0 * b1 + t1 % HALF_WORD
    requires t3 == a1 * b1 + t1 / HALF_WORD + t2 / HALF_WORD
    ensures (a1 * HALF_WORD + a0) * (b1 * HALF_WORD + b0) / WORD == t3
  {
    var p, q, r, s := a0 * b0, a1 * b0, a0 * b1, a1 * b1;
    Distribute(a0, a1, b0, b1, HALF_WORD);
    var low := t2 % HALF_WORD * HALF_WORD + p % HALF_WORD;
    assert s * WORD + (q + r) * HALF_WORD + p == t3 * WORD + low;
    DivIs(t3, low);
  }

  /** The last partial sum stays one below the largest word, and comes that close for the largest operands only. */
  lemma LastSum(a0: int, a1: int, b0: int, b1: int, t1: int, t2: int, t3: int)
    requires 0 <= a0 < HALF_WORD && 0 <= a1 < HALF_WORD && 0 <= b0 < HALF_WORD && 0 <= b1 < HALF_WORD
    requires t1 == a1 * b0 + a0 * b0 / HALF_WORD && t2 == a0 * b1 + t1 % HALF_WORD
    requires t3 == a1 * b1 + t1 / HALF_WORD + t2 / HALF_WORD
    ensures 0 <= t3 <= WORD - 2
    ensures t3 == WORD - 2 <==> a1 * HALF_WORD + a0 == WORD - 1 && b1 * HALF_WORD + b0 == WORD - 1
  {
    Schoolbook(a0, a1, b0, b1, t1, t2, t3);
    HighWord(a1 * HALF_WORD + a0, b1 * HALF_WORD + b0);
  }

  /** The high word of a product of two words. */
  lemma HighWord(a: u64, b: u64)
    ensures 0 <= a * b / WORD <= WORD - 2
    ensures a * b / WORD == WORD - 2 <==> a == WORD - 1 && b == WORD - 1
  {
    MulBound(a, b, WORD - 1, WORD - 1);
    DivIs(WORD - 2, 1);
    var p := a * b;
    if a < WORD - 1 {
      MulBound(a, b, WORD - 2, WORD - 1);
      QuotientBelow(p);
    } else if b < WORD - 1 {
      MulBound(a, b, WORD - 1, WORD - 2);
      QuotientBelow(p);
    }
  }

  lemma QuotientBelow(p: int)
    requires 0 <= p <= (WORD - 1) * (WORD - 2)
    ensures 0 <= p / WORD <= WORD - 3
  {
  }

  lemma DivIs(q: int, r: int)
    requires 0 <= r < WORD
    ensures (q * WORD + r) / WORD == q && (q * WORD + r) % WORD == r
  {
  }

  lemma Halves(x: u64)
    ensures 0 <= x % HALF_WORD < HALF_WORD && 0 <= x / HALF_WORD < HALF_WORD
    ensures x == x / HALF_WORD * HALF_WORD + x % HALF_WORD
  {
  }

  /** The high word of the unsigned product. */
  method Mulhu(a: u64, b: u64) returns (r: u64)
    ensures r == a * b / WORD
  {
    hide Wrap64;
    Halves(a);
    Halves(b);
    var a0, a1 := a % HALF_WORD, a / HALF_WORD;
    var b0, b1 := b % HALF_WORD, b / HALF_WORD;
    r := MulhuHalves(a0, a1, b0, b1);
  }

  /** The body of mulhu on the half words of its operands. */
  method MulhuHalves(a0: int, a1: int, b0: int, b1: int) returns (r: u64)
    requires 0 <= a0 < HALF_WORD && 0 <= a1 < HALF_WORD && 0 <= b0 < HALF_WORD && 0 <= b1 < HALF_WORD
    ensures r == (a1 * HALF_WORD + a0) * (b1 * HALF_WORD + b0) / WORD
  {
    hide Wrap64;
    PartialSum(a0, b0, 0, 0);
    var p := Wrap64(a0 * b0);
    Halves(p);
    PartialSum(a1, b0, p / HALF_WORD, 0);
    var t1 := Wrap64(Wrap64(a1 * b0) + p / HALF_WORD);
    Halves(t1);
    var y1 := t1 % HALF_WORD;
    var y2 := t1 / HALF_WORD;
    PartialSum(a0, b1, y1, 0);
    var t2 := Wrap64(Wrap64(a0 * b1) + y1);
    Halves(t2);
    PartialSum(a1, b1, y2, t2 / HALF_WORD);
    var t3 := Wrap64(Wrap64(a1 * b1) + y2 + t2 / HALF_WORD);
    Schoolbook(a0, a1, b0, b1, t1, t2, t3);
    Halves(t3);
    y2 := t3 % HALF_WORD;
    var y3 := t3 / HALF_WORD;
    r := y3 * HALF_WORD + y2;
  }

  lemma SmallIsItself(x: int)
    ensures 0 <= x < WORD ==> Wrap64(x) == x
    ensures 0 < x <= WORD ==> Wrap64(-x) == WORD - x
  {
  }

  /** Bitwise complement of a word. */
  function Not64(x: u64): u64 {
    WORD - 1 - x
  }

  /** The high word of a negated product: the complement, or the negation when the low word is zero. */
  lemma NegatedHigh(p: nat)
    requires p < WORD * WORD
    ensures (0 - p) / WORD == if p % WORD == 0 then 0 - p / WORD else 0 - p / WORD - 1
  {
    var q, r := p / WORD, p % WORD;
    assert p == q * WORD + r;
    if r == 0 {
      DivIs(-q, 0);
    } else {
      DivIs(-q - 1, WORD - r);
    }
  }

  lemma ProductWrap(a: int, b: int)
    ensures Wrap64(Wrap64(a) * b) == Wrap64(a * b)
  {
    var k := a / WORD;
    assert a == k * WORD + Wrap64(a);
    assert a * b == Wrap64(a) * b + (k * b) * WORD;
    ModAdd(Wrap64(a) * b, k * b);
  }

  lemma ModAdd(x: int, k: int)
    ensures (x + k * WORD) % WORD == x % WORD
  {
    var q, r := x / WORD, x % WORD;
    DivIs(q + k, r);
    assert x + k * WORD == (q + k) * WORD + r;
  }

  lemma LowZero(p: int)
    ensures Wrap64(0 - p) == 0 <==> Wrap64(p) == 0
    ensures Wrap64(p) == p % WORD
  {
    var q, r := p / WORD, p % WORD;
    if r == 0 {
      DivIs(-q, 0);
    } else {
      DivIs(-q - 1, WORD - r);
      assert -p == (-q - 1) * WORD + (WORD - r);
    }
  }

  function AbsInt(x: int): nat {
    if x < 0 then -x else x
  }

  /** The last line of mulh and mulhsu: the high word of `a * b` from that of the absolute values. */
  lemma SignedHigh(a: s64, b: int, high: u64, zero: bool)
    requires -0x8000_0000_0000_0000 <= b < WORD
    requires high == AbsInt(a) * AbsInt(b) / WORD && (zero <==> Wrap64(a * b) == 0)
    ensures 0 <= AbsInt(a) * AbsInt(b) <= 0x8000_0000_0000_0000 * (WORD - 1)
    ensures var negate := (a < 0) != (b < 0);
            Signed64(if negate then Wrap64(Not64(high) + (if zero then 1 else 0)) else high) == a * b / WORD
  {
    hide Wrap64, Signed64;
    MulBound(AbsInt(a), AbsInt(b), 0x8000_0000_0000_0000, WORD - 1);
    var p := AbsInt(a) * AbsInt(b);
    HighBound(p);
    if (a < 0) != (b < 0) {
      assert a * b == 0 - p;
      LowZero(p);
      NegatedHigh(p);
      ComplementIs(high, zero);
    } else {
      assert a * b == p;
      SignedSmall(high);
    }
  }

  lemma SignedSmall(x: u64)
    requires x < 0x8000_0000_0000_0000
    ensures Signed64(x) == x
  {
  }

  lemma ComplementIs(high: u64, zero: bool)
    requires high < 0x8000_0000_0000_0000
    ensures Signed64(Wrap64(Not64(high) + (if zero then 1 else 0))) == if zero then 0 - high else 0 - high - 1
  {
    SmallIsItself(Not64(high) + 1);
    if zero && high == 0 {
      DivIs(1, 0);
    }
  }

  lemma HighBound(p: nat)
    requires p <= 0x8000_0000_0000_0000 * (WORD - 1)
    ensures p / WORD < 0x8000_0000_0000_0000
  {
  }

  /** The high word of the signed product; the magnitude of the least word wraps to itself. */
  method Mulh(a: s64, b: s64) returns (r: s64)
    ensures r == a * b / WORD
  {
    var negate := (a < 0) != (b < 0);
    SmallIsItself(AbsInt(a));
    SmallIsItself(AbsInt(b));
    var res := Mulhu(if a < 0 then Wrap64(0 - a) else a, if b < 0 then Wrap64(0 - b) else b);
    var zero := Wrap64(Wrap64(a) * Wrap64(b)) == 0;
    BothWrap(a, b);
    SignedHigh(a, b, res, zero);
    r := Signed64(if negate then Wrap64(Not64(res) + (if zero then 1 else 0)) else res);
  }

  lemma BothWrap(a: int, b: int)
    ensures Wrap64(Wrap64(a) * Wrap64(b)) == Wrap64(a * b)
  {
    ProductWrap(a, Wrap64(b));
    assert a * Wrap64(b) == Wrap64(b) * a;
    ProductWrap(b, a);
    assert b * a == a * b;
  }

  /** The high word of a signed by an unsigned word. */
  method Mulhsu(a: s64, b: u64) returns (r: s64)
    ensures r == a * b / WORD
  {
    var negate := a < 0;
    SmallIsItself(AbsInt(a));
    var res := Mulhu(if a < 0 then Wrap64(0 - a) else a, b);
    var zero := Wrap64(Wrap64(a) * b) == 0;
    ProductWrap(a, b);
    SignedHigh(a, b, res, zero);
    r := Signed64(if negate then Wrap64(Not64(res) + (if zero then 1 else 0)) else res);
  }

  // ---- saturating addition of signed words of any width; `half` is two to the width less one ----

  ghost predicate InRange(half: nat, x: int) {
    0 - half <= x < half
  }

  ghost function Clamp(half: nat, x: int): int {
    if x < 0 - half then 0 - half else if x >= half then half - 1 else x
  }

  /** The unsigned word that holds a signed value. */
  function Unsigned(half: nat, x: int): nat
    requires 0 - half <= x < half
  {
    if x < 0 then x + 2 * half else x
  }

  /** The sign bit. */
  predicate Top(half: nat, u: int) {
    u >= half
  }

  function Signed(half: nat, u: nat): int {
    if Top(half, u) then u - 2 * half else u
  }

  method SatAdd(half: nat, x: int, y: int) returns (r: int, sat: bool)
    requires half > 0 && InRange(half, x) && InRange(half, y)
    ensures r == Clamp(half, x + y) && InRange(half, r)
    ensures sat <==> !InRange(half, x + y)
  {
    var ux, uy := Unsigned(half, x), Unsigned(half, y);
    var res := if ux + uy >= 2 * half then ux + uy - 2 * half else ux + uy;
    sat := false;
    ux := (if Top(half, ux) then 1 else 0) + (half - 1);
    // the sign bit of (ux ^ uy) | ~(uy ^ res)
    if !((Top(half, ux) != Top(half, uy)) || Top(half, uy) == Top(half, res)) {
      res := ux;
      sat := true;
    }
    r := Signed(half, res);
  }

  /** Three operands: the order of the additions is chosen so that no early saturation is undone. */
  method SatAdd3(half: nat, x: int, y: int, z: int) returns (r: int, sat: bool)
    requires half > 0 && InRange(half, x) && InRange(half, y) && InRange(half, z)
    ensures r == Clamp(half, x + y + z)
    ensures sat <==> !InRange(half, x + y + z)
  {
    var a, b := y, z;
    // the sign bit of (y ^ z) & (x ^ z)
    if (y < 0) != (z < 0) && (x < 0) != (z < 0) {
      a, b := z, y;
    }
    var sat1, sat2;
    r, sat1 := SatAdd(half, x, a);
    r, sat2 := SatAdd(half, r, b);
    sat := sat1 || sat2;
  }

  /** Adding in the given order instead fails exactly when the first sum saturates and the third operand points back. */
  lemma OrderMatters(half: nat, x: int, y: int, z: int)
    requires half > 0 && InRange(half, x) && InRange(half, y) && InRange(half, z)
    ensures Clamp(half, Clamp(half, x + y) + z) != Clamp(half, x + y + z) <==>
            (x + y >= half && z < 0) || (x + y < 0 - half && z > 0)
  {
  }
}
