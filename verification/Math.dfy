/**
Powers of two by bit operations. Values are natural numbers; the 64-bit wrap-around is explicit.
*/
module Math {
  const TWO_POW_63: nat := 0x8000_0000_0000_0000
  const TWO_POW_64: nat := 0x1_0000_0000_0000_0000

  function Pow2(k: nat): (r: nat)
    ensures r > 0
  {
    if k == 0 then 1 else 2 * Pow2(k - 1)
  }

  /** The least power of two that is at least `v`. */
  function NextPow2(v: nat): (r: nat)
    requires v > 0
    ensures v <= r < 2 * v
  {
    if v == 1 then 1 else 2 * NextPow2((v + 1) / 2)
  }

  function BitLength(n: nat): nat {
    if n == 0 then 0 else 1 + BitLength(n / 2)
  }

  /** Bitwise or. */
  function Or(a: nat, b: nat): nat
    decreases a + b
  {
    if a == 0 && b == 0 then 0 else 2 * Or(a / 2, b / 2) + if a % 2 == 1 || b % 2 == 1 then 1 else 0
  }

  /** Bitwise and. */
  function And(a: nat, b: nat): nat
    decreases a + b
  {
    if a == 0 || b == 0 then 0 else 2 * And(a / 2, b / 2) + if a % 2 == 1 && b % 2 == 1 then 1 else 0
  }

  function Shl(a: nat, k: nat): nat {
    a * Pow2(k)
  }

  function Shr(a: nat, k: nat): nat {
    DivAtLeast(a, 0, Pow2(k));
    a / Pow2(k)
  }

  lemma DoubleOut(x: nat, y: nat)
    ensures x * (2 * y) == 2 * (x * y)
  {}

  lemma {:induction false} PowAdd(a: nat, b: nat)
    ensures Pow2(a + b) == Pow2(a) * Pow2(b)
    decreases b
  {
    if b > 0 {
      PowAdd(a, b - 1);
      DoubleOut(Pow2(a), Pow2(b - 1));
    }
  }

  lemma {:induction false} PowMono(a: nat, b: nat)
    requires a <= b
    ensures Pow2(a) <= Pow2(b)
    decreases b
  {
    if a < b {
      PowMono(a, b - 1);
    }
  }

  lemma SmallPowers()
    ensures Pow2(3) == 8 && Pow2(4) == 16
  {}

  lemma Powers()
    ensures Pow2(63) == TWO_POW_63 && Pow2(64) == TWO_POW_64
  {
    hide Pow2;
    SmallPowers();
    PowAdd(4, 4);
    PowAdd(8, 8);
    PowAdd(16, 16);
    PowAdd(32, 16);
    PowAdd(48, 8);
    PowAdd(56, 4);
    PowAdd(60, 3);
    PowAdd(60, 4);
  }

  lemma {:induction false} BitLengthBounds(n: nat)
    ensures n < Pow2(BitLength(n)) && (n > 0 ==> Pow2(BitLength(n) - 1) <= n)
  {
    if n > 0 {
      BitLengthBounds(n / 2);
    }
  }

  lemma {:induction false} NextPow2IsPower(v: nat)
    requires v > 0
    ensures NextPow2(v) == Pow2(BitLength(v - 1))
  {
    if v > 1 {
      assert (v + 1) / 2 - 1 == (v - 1) / 2;
      NextPow2IsPower((v + 1) / 2);
    }
  }

  lemma {:induction false} OrZero(a: nat)
    ensures Or(a, 0) == a && Or(0, a) == a
  {
    if a > 0 {
      OrZero(a / 2);
    }
  }

  lemma SmallestPower()
    ensures Pow2(0) == 1
  {}

  lemma OrStep(a: nat, b: nat)
    ensures Or(a, b) == 2 * Or(a / 2, b / 2) + if a % 2 == 1 || b % 2 == 1 then 1 else 0
  {}

  lemma Half(x: nat, low: nat)
    ensures (2 * x + low) / 2 == x + low / 2 && (2 * x + low) % 2 == low % 2
  {}

  lemma PowStep(high: nat, m: nat)
    requires m > 0
    ensures Pow2(m) == 2 * Pow2(m - 1) && high * Pow2(m) == 2 * (high * Pow2(m - 1))
  {}

  /** Low bits do not reach into the high part. */
  lemma {:induction false} OrSplit(high: nat, low: nat, u: nat, m: nat)
    requires low < Pow2(m) && u < Pow2(m)
    ensures Or(high * Pow2(m) + low, u) == high * Pow2(m) + Or(low, u)
    ensures u <= Or(low, u) < Pow2(m)
    decreases m
  {
    hide Or, Pow2;
    if m == 0 {
      SmallestPower();
      OrZero(high);
      OrZero(0);
    } else {
      PowStep(high, m);
      OrSplit(high, low / 2, u / 2, m - 1);
      Half(high * Pow2(m - 1), low);
      OrStep(high * Pow2(m) + low, u);
      OrStep(low, u);
    }
  }

  /** `w` has `length` bits at most, and the top `i` of them are set. */
  ghost predicate TopSet(w: nat, length: nat, i: nat) {
    w < Pow2(length) && Pow2(length) <= w + Pow2(if i <= length then length - i else 0)
  }

  lemma MulLe(x: nat, y: nat, d: nat)
    ensures x <= y ==> x * d <= y * d
  {}

  lemma DivAtLeast(w: nat, c: nat, d: nat)
    requires d > 0 && c * d <= w
    ensures c <= w / d
  {
    var q := w / d;
    MulLe(q + 1, c, d);
  }

  lemma DivLess(w: nat, c: nat, d: nat)
    requires d > 0 && w < c * d
    ensures w / d < c
  {}

  lemma Distribute(a: nat, p: nat)
    requires a > 0
    ensures (a - 1) * p == a * p - p
  {}

  /** The high part is all ones. */
  lemma AllOnes(w: nat, length: nat, i: nat)
    requires TopSet(w, length, i) && i <= length
    ensures w / Pow2(length - i) == Pow2(i) - 1
    ensures w == (Pow2(i) - 1) * Pow2(length - i) + w % Pow2(length - i)
    ensures w / Pow2(i) < Pow2(length - i)
  {
    hide Pow2;
    var m := length - i;
    PowAdd(i, m);
    Distribute(Pow2(i), Pow2(m));
    DivAtLeast(w, Pow2(i) - 1, Pow2(m));
    DivLess(w, Pow2(i), Pow2(m));
    DivLess(w, Pow2(m), Pow2(i));
    assert w == w / Pow2(m) * Pow2(m) + w % Pow2(m);
  }

  /** Or-ing with itself shifted by `i` doubles the number of set bits at the top. */
  lemma Smear(w: nat, length: nat, i: nat)
    requires TopSet(w, length, i) && i > 0
    ensures TopSet(Or(w, Shr(w, i)), length, 2 * i)
  {
    hide Pow2, Or;
    if length < i {
      PowMono(length, i);
      DivLess(w, 1, Pow2(i));
      OrZero(w);
      SmallestPower();
    } else {
      var m := length - i;
      AllOnes(w, length, i);
      var u := Shr(w, i);
      OrSplit(Pow2(i) - 1, w % Pow2(m), u, m);
      SmearedPart(w, length, i);
      PowAdd(i, m);
      Distribute(Pow2(i), Pow2(m));
    }
  }

  /** The shifted copy itself has its top bits set. */
  lemma SmearedPart(w: nat, length: nat, i: nat)
    requires TopSet(w, length, i) && i <= length
    ensures Pow2(length - i) <= w / Pow2(i) + Pow2(if 2 * i <= length then length - 2 * i else 0)
  {
    hide Pow2;
    var m := length - i;
    PowAdd(m, i);
    if i <= m {
      PowAdd(m - i, i);
      PowMono(m - i, m);
      DiffTimes(Pow2(m), Pow2(m - i), Pow2(i));
      DivAtLeast(w, Pow2(m) - Pow2(m - i), Pow2(i));
    } else {
      SmallestPower();
      PowMono(m, i);
      Distribute(Pow2(m), Pow2(i));
      DivAtLeast(w, Pow2(m) - 1, Pow2(i));
    }
  }

  lemma DiffTimes(a: nat, b: nat, p: nat)
    requires b <= a
    ensures (a - b) * p == a * p - b * p
  {}

  /** Rounds up to a power of two in 64-bit arithmetic: 0 for 0, and 0 when the power does not fit. */
  method RoundTowardsPow2(v: nat) returns (r: nat)
    requires v < TWO_POW_64
    ensures r == if 0 < v <= TWO_POW_63 then NextPow2(v) else 0
  {
    hide Pow2, Or, TopSet, NextPow2, BitLength, Shr;
    var w: nat := if v == 0 then TWO_POW_64 - 1 else v - 1;
    ghost var length := BitLength(w);
    StartSmear(w);
    var i := 1;
    while i < 64
      invariant 1 <= i && TopSet(w, length, i)
      decreases 64 - i
    {
      Smear(w, length, i);
      w := Or(w, Shr(w, i));
      i := 2 * i;
    }
    EndSmear(v, w, length, i);
    r := (w + 1) % TWO_POW_64;
  }

  lemma StartSmear(w: nat)
    ensures TopSet(w, BitLength(w), 1)
  {}

  lemma {:induction false} BitLengthFits(n: nat, k: nat)
    ensures n < Pow2(k) <==> BitLength(n) <= k
    decreases k
  {
    if n > 0 && k > 0 {
      BitLengthFits(n / 2, k - 1);
    }
  }

  lemma EndSmear(v: nat, w: nat, length: nat, i: nat)
    requires v < TWO_POW_64 && length == BitLength(if v == 0 then TWO_POW_64 - 1 else v - 1)
    requires TopSet(w, length, i) && i >= 64
    ensures (w + 1) % TWO_POW_64 == if 0 < v <= TWO_POW_63 then NextPow2(v) else 0
  {
    hide Pow2, BitLength, NextPow2;
    Powers();
    SmallestPower();
    var n := if v == 0 then TWO_POW_64 - 1 else v - 1;
    BitLengthFits(n, 64);
    BitLengthFits(n, 63);
    if v > 0 { NextPow2IsPower(v); }
    assert w + 1 == Pow2(length);
    if length <= 63 { PowMono(length, 63); }
  }

  /** The position of the highest set bit. */
  method Log2(v: nat) returns (r: nat)
    requires v > 0
    ensures Pow2(r) <= v < Pow2(r + 1)
  {
    var w := v;
    r := 0;
    while w / 2 > 0
      invariant w > 0 && BitLength(w) + r == BitLength(v)
      decreases w
    {
      w, r := w / 2, r + 1;
    }
    assert BitLength(w) == 1;
    BitLengthBounds(v);
  }

  predicate IsPow2(v: nat) {
    v > 0 && And(v, v - 1) == 0
  }

  lemma AndStep(a: nat, b: nat)
    ensures And(a, b) == 2 * And(a / 2, b / 2) + if a % 2 == 1 && b % 2 == 1 then 1 else 0
  {}

  /** Clearing the lowest set bit leaves nothing exactly for the powers of two. */
  lemma {:induction false} IsPow2Test(v: nat)
    ensures IsPow2(v) <==> v > 0 && v == Pow2(BitLength(v) - 1)
  {
    if v > 1 {
      AndStep(v, v - 1);
      if v % 2 == 0 {
        IsPow2Test(v / 2);
        assert (v - 1) / 2 == v / 2 - 1;
      } else {
        AndSelf(v / 2);
      }
    }
  }

  lemma {:induction false} AndSelf(a: nat)
    ensures And(a, a) == a
  {
    if a > 0 {
      AndSelf(a / 2);
    }
  }

  lemma NoMask(a: nat)
    ensures Pow2(0) == 1 && And(a, 0) == 0 && a % 1 == 0
  {}

  /** Masking with `2^k - 1` is the remainder. */
  lemma {:induction false} MaskIsMod(a: nat, k: nat)
    ensures And(a, Pow2(k) - 1) == a % Pow2(k)
    decreases k
  {
    hide And, Pow2;
    if k == 0 {
      NoMask(a);
    } else {
      PowStep(1, k);
      MaskIsMod(a / 2, k - 1);
      AndStep(a, Pow2(k) - 1);
      ModDouble(a, Pow2(k - 1));
    }
  }

  lemma ModDouble(a: nat, p: nat)
    requires p > 0
    ensures a % (2 * p) == 2 * (a / 2 % p) + a % 2
  {
    var q, r := a / 2 / p, a / 2 % p;
    assert a == 2 * (q * p + r) + a % 2;
    assert a == q * (2 * p) + (2 * r + a % 2);
    ModUnique(a, 2 * p, q, 2 * r + a % 2);
  }

  lemma ModUnique(a: nat, d: nat, q: nat, r: nat)
    requires a == q * d + r && r < d
    ensures a / d == q && a % d == r
  {
    DivAtLeast(a, q, d);
    assert (q + 1) * d == q * d + d;
    DivLess(a, q + 1, d);
  }

  /**
  Addresses of a block store with blocks of `2^k` bytes: shifting, masking and or-ing split an
  address into block and offset and put it together again.
  */
  lemma AddressBits(index: nat, offset: nat, k: nat)
    requires offset < Pow2(k)
    ensures Or(Shl(index, k), offset) == index * Pow2(k) + offset
    ensures Shr(Or(Shl(index, k), offset), k) == index
    ensures And(Or(Shl(index, k), offset), Pow2(k) - 1) == offset
  {
    hide Pow2, Or, And;
    OrSplit(index, 0, offset, k);
    OrZero(offset);
    ModUnique(index * Pow2(k) + offset, Pow2(k), index, offset);
    MaskIsMod(index * Pow2(k) + offset, k);
  }

  /** The number of parts of size `b` that cover `a`. */
  function CeilDiv(a: nat, b: nat): nat
    requires b > 0
  {
    (a + b - 1) / b
  }

  lemma CeilDivCovers(a: nat, b: nat)
    requires b > 0
    ensures a <= CeilDiv(a, b) * b < a + b
  {}

  /** The same in an unsigned type with `end` values, where the sum wraps around. */
  function WrappingCeilDiv(a: nat, b: nat, end: nat): nat
    requires 0 < b <= end
  {
    (a + b - 1) % end / b
  }

  /** The parts cover `a` exactly if the sum does not wrap around; otherwise there are none. */
  lemma WrappingCeilDivCovers(a: nat, b: nat, end: nat)
    requires 0 < b <= end && a < end
    ensures a <= WrappingCeilDiv(a, b, end) * b <==> a + b - 1 < end
    ensures WrappingCeilDiv(a, b, end) == if a + b - 1 < end then CeilDiv(a, b) else 0
  {
    if a + b - 1 < end {
      ModUnique(a + b - 1, end, 0, a + b - 1);
      CeilDivCovers(a, b);
    } else {
      ModUnique(a + b - 1, end, 1, a + b - 1 - end);
      ModUnique(a + b - 1 - end, b, 0, a + b - 1 - end);
    }
  }
}
