/** Bit fields of unbounded non-negative integers, in the shift-and-mask form the
    generator uses, and the laws the page-table proofs rest on. */
module Bits {

  /** x << n */
  function ShiftLeft(x: nat, n: nat): nat {
    if n == 0 then x else 2 * ShiftLeft(x, n - 1)
  }

  /** x >> n */
  function ShiftRight(x: nat, n: nat): nat {
    if n == 0 then x else ShiftRight(x / 2, n - 1)
  }

  /** 2 to the power n. */
  function Pow2(n: nat): (p: nat)
    ensures p > 0
  {
    if n == 0 then 1 else 2 * Pow2(n - 1)
  }

  /** The low n bits of x. */
  function Low(x: nat, n: nat): (r: nat)
    ensures r <= x
  {
    if n == 0 then 0 else 2 * Low(x / 2, n - 1) + x % 2
  }

  /** x & y */
  function And(x: nat, y: nat): nat {
    if x == 0 || y == 0 then 0
    else 2 * And(x / 2, y / 2) + (if x % 2 == 1 && y % 2 == 1 then 1 else 0)
  }

  /** x & ~y */
  function AndNot(x: nat, y: nat): nat {
    if x == 0 then 0
    else 2 * AndNot(x / 2, y / 2) + (if x % 2 == 1 && y % 2 == 0 then 1 else 0)
  }

  /** x | y */
  function Or(x: nat, y: nat): nat
    decreases x + y
  {
    if x == 0 && y == 0 then 0
    else 2 * Or(x / 2, y / 2) + (if x % 2 == 1 || y % 2 == 1 then 1 else 0)
  }

  /** A field from bit `msb` down to bit `lsb`, both included. */
  datatype BitRange = BitRange(msb: nat, lsb: nat) {
    predicate Valid() { lsb <= msb }

    function Width(): nat
      requires Valid()
    {
      msb - lsb + 1
    }

    /** The same field one position lower. */
    function Lower(): BitRange
      requires Valid() && lsb > 0
    {
      BitRange(msb - 1, lsb - 1)
    }
  }

  function Mask(n: nat): nat {
    ShiftOne(n);
    ShiftLeft(1, n) - 1
  }

  function ExtractBits(value: nat, r: BitRange): nat
    requires r.Valid()
  {
    And(ShiftRight(value, r.lsb), Mask(r.Width()))
  }

  function PlaceBits(value: nat, bits: nat, r: BitRange): nat
    requires r.Valid()
  {
    Or(AndNot(value, ShiftLeft(Mask(r.Width()), r.lsb)), ShiftLeft(bits, r.lsb))
  }

  // ---------------------------------------------------------------- powers and shifts

  lemma {:induction false} ShiftOne(n: nat)
    ensures ShiftLeft(1, n) == Pow2(n)
  {
    if n > 0 {
      ShiftOne(n - 1);
    }
  }

  lemma {:induction false} LargePowers()
    ensures Pow2(44) == 0x1000_0000_0000 && Pow2(56) == 0x100_0000_0000_0000
    ensures Pow2(60) == 0x1000_0000_0000_0000 && Pow2(61) == 0x2000_0000_0000_0000
    ensures Pow2(64) == 0x1_0000_0000_0000_0000
  {
    assert Pow2(8) == 256;
    assert Pow2(16) == 65536;
    assert Pow2(24) == 16777216;
    assert Pow2(32) == 0x1_0000_0000;
    assert Pow2(40) == 0x100_0000_0000;
    assert Pow2(48) == 0x1_0000_0000_0000;
    assert Pow2(56) == 0x100_0000_0000_0000;
  }

  lemma {:induction false} Pow2Sum(a: nat, b: nat)
    ensures Pow2(a + b) == Pow2(a) * Pow2(b)
  {
    if a > 0 {
      Pow2Sum(a - 1, b);
      assert Pow2(a + b) == 2 * (Pow2(a - 1) * Pow2(b));
    }
  }

  lemma {:induction false} Pow2Monotone(a: nat, b: nat)
    requires a <= b
    ensures Pow2(a) <= Pow2(b)
  {
    if a < b {
      Pow2Monotone(a, b - 1);
    }
  }

  lemma {:induction false} ShiftRightTwice(x: nat, a: nat, b: nat)
    ensures ShiftRight(x, a + b) == ShiftRight(ShiftRight(x, a), b)
  {
    if a > 0 {
      ShiftRightTwice(x / 2, a - 1, b);
    }
  }

  lemma {:induction false} LowBound(x: nat, n: nat)
    ensures Low(x, n) < Pow2(n)
  {
    if n > 0 {
      LowBound(x / 2, n - 1);
    }
  }

  lemma {:induction false} LowSmall(x: nat, n: nat)
    requires x < Pow2(n)
    ensures Low(x, n) == x && ShiftRight(x, n) == 0
  {
    if n > 0 {
      LowSmall(x / 2, n - 1);
    }
  }

  /** A value is its high part followed by its low part. */
  lemma {:induction false} HighLow(x: nat, n: nat)
    ensures x == ShiftLeft(ShiftRight(x, n), n) + Low(x, n)
  {
    if n > 0 {
      HighLow(x / 2, n - 1);
    }
  }

  /** High and low parts are unique. */
  lemma {:induction false} HighLowUnique(hi: nat, lo: nat, n: nat)
    requires lo < Pow2(n)
    ensures ShiftRight(ShiftLeft(hi, n) + lo, n) == hi
    ensures Low(ShiftLeft(hi, n) + lo, n) == lo
  {
    if n > 0 {
      HighLowUnique(hi, lo / 2, n - 1);
      assert (ShiftLeft(hi, n) + lo) / 2 == ShiftLeft(hi, n - 1) + lo / 2;
    }
  }

  /** The low a+b bits are b bits of the high part followed by a low bits. */
  lemma {:induction false} LowSplit(x: nat, a: nat, b: nat)
    ensures Low(x, a + b) == ShiftLeft(Low(ShiftRight(x, a), b), a) + Low(x, a)
  {
    if a > 0 {
      LowSplit(x / 2, a - 1, b);
    }
  }

  lemma {:induction false} ShiftRightOfLow(x: nat, a: nat, b: nat)
    ensures ShiftRight(Low(x, a + b), a) == Low(ShiftRight(x, a), b)
  {
    if a > 0 {
      ShiftRightOfLow(x / 2, a - 1, b);
    }
  }

  lemma {:induction false} LowOfLow(x: nat, a: nat, b: nat)
    requires a <= b
    ensures Low(Low(x, b), a) == Low(x, a)
  {
    if a > 0 {
      LowOfLow(x / 2, a - 1, b - 1);
    }
  }

  lemma {:induction false} LowMonotone(x: nat, a: nat, b: nat)
    requires a <= b
    ensures Low(x, a) <= Low(x, b)
  {
    if a > 0 {
      LowMonotone(x / 2, a - 1, b - 1);
    }
  }

  /** A value lies in the block of size 2^n that starts at a multiple exactly when its high
      part is the block's number. */
  lemma {:induction false} InBlock(x: nat, block: nat, n: nat)
    ensures ShiftLeft(block, n) <= x < ShiftLeft(block, n) + Pow2(n) <==> ShiftRight(x, n) == block
  {
    if n > 0 {
      InBlock(x / 2, block, n - 1);
    }
  }

  // ---------------------------------------------------------------- masks

  lemma {:induction false} AndMask(x: nat, n: nat)
    ensures And(x, Mask(n)) == Low(x, n)
  {
    ShiftOne(n);
    if n > 0 {
      ShiftOne(n - 1);
      AndMask(x / 2, n - 1);
      assert Mask(n) / 2 == Mask(n - 1);
      if x == 0 {
        LowSmall(0, n);
      }
    }
  }

  lemma {:induction false} AndNotMask(x: nat, n: nat)
    ensures AndNot(x, Mask(n)) == x - Low(x, n)
  {
    ShiftOne(n);
    if n == 0 {
      AndNotZero(x);
    } else {
      ShiftOne(n - 1);
      AndNotMask(x / 2, n - 1);
      assert Mask(n) / 2 == Mask(n - 1);
    }
  }

  lemma {:induction false} AndNotZero(x: nat)
    ensures AndNot(x, 0) == x
  {
    if x > 0 {
      AndNotZero(x / 2);
    }
  }

  lemma {:induction false} OrZero(x: nat)
    ensures Or(x, 0) == x
  {
    if x > 0 {
      OrZero(x / 2);
    }
  }

  /** Where the low bits of the left operand are clear, `or` is addition. */
  lemma {:induction false} OrLow(x: nat, b: nat, n: nat)
    requires Low(x, n) == 0 && b < Pow2(n)
    ensures Or(x, b) == x + b
  {
    if n == 0 {
      OrZero(x);
    } else {
      OrLow(x / 2, b / 2, n - 1);
    }
  }

  /** Replacing the low n bits. */
  function WithLow(x: nat, b: nat, n: nat): nat { x - Low(x, n) + b }

  lemma {:induction false} WithLowParts(x: nat, b: nat, n: nat)
    requires b < Pow2(n)
    ensures Low(WithLow(x, b, n), n) == b
    ensures ShiftRight(WithLow(x, b, n), n) == ShiftRight(x, n)
    ensures Low(x - Low(x, n), n) == 0
  {
    HighLow(x, n);
    HighLowUnique(ShiftRight(x, n), b, n);
    HighLowUnique(ShiftRight(x, n), 0, n);
  }

  // ---------------------------------------------------------------- field laws

  lemma {:induction false} ExtractIs(value: nat, r: BitRange)
    requires r.Valid()
    ensures ExtractBits(value, r) == Low(ShiftRight(value, r.lsb), r.Width()) < Pow2(r.Width())
  {
    AndMask(ShiftRight(value, r.lsb), r.Width());
    LowBound(ShiftRight(value, r.lsb), r.Width());
  }

  lemma {:induction false} PlaceLower(value: nat, bits: nat, r: BitRange)
    requires r.Valid() && r.lsb > 0
    ensures PlaceBits(value, bits, r) == 2 * PlaceBits(value / 2, bits, r.Lower()) + value % 2
  {
    hide And, AndNot, Or, Mask;
    var mask := ShiftLeft(Mask(r.Width()), r.lsb - 1);
    AndNotDouble(value, mask);
    OrDouble(AndNot(value / 2, mask), value % 2, ShiftLeft(bits, r.lsb - 1));
  }

  lemma {:induction false} OrDouble(x: nat, bit: nat, y: nat)
    requires bit < 2
    ensures Or(2 * x + bit, 2 * y) == 2 * Or(x, y) + bit
  {
    Halve(x, bit);
    Halve(y, 0);
  }

  lemma {:induction false} Halve(x: nat, bit: nat)
    requires bit < 2
    ensures (2 * x + bit) / 2 == x && (2 * x + bit) % 2 == bit
  {
  }

  lemma {:induction false} AndNotDouble(x: nat, y: nat)
    ensures AndNot(x, 2 * y) == 2 * AndNot(x / 2, y) + x % 2
  {
    Halve(y, 0);
  }

  lemma {:induction false} PlaceLowest(value: nat, bits: nat, r: BitRange)
    requires r.Valid() && r.lsb == 0 && bits < Pow2(r.Width())
    ensures PlaceBits(value, bits, r) == WithLow(value, bits, r.Width())
  {
    hide And, AndNot, Or, Low, Mask, Pow2;
    AndNotMask(value, r.Width());
    WithLowParts(value, bits, r.Width());
    OrLow(value - Low(value, r.Width()), bits, r.Width());
  }

  /** A placed field: the bits above and below stay, the field holds the bits. */
  lemma {:induction false} PlaceIs(value: nat, bits: nat, r: BitRange)
    requires r.Valid() && bits < Pow2(r.Width())
    ensures PlaceBits(value, bits, r)
         == ShiftLeft(WithLow(ShiftRight(value, r.lsb), bits, r.Width()), r.lsb) + Low(value, r.lsb)
    decreases r.lsb
  {
    if r.lsb == 0 {
      PlaceLowest(value, bits, r);
    } else {
      PlaceLower(value, bits, r);
      PlaceIs(value / 2, bits, r.Lower());
    }
  }

  lemma {:induction false} PlaceParts(value: nat, bits: nat, r: BitRange)
    requires r.Valid() && bits < Pow2(r.Width())
    ensures ShiftRight(PlaceBits(value, bits, r), r.lsb)
         == WithLow(ShiftRight(value, r.lsb), bits, r.Width())
    ensures Low(PlaceBits(value, bits, r), r.lsb) == Low(value, r.lsb)
  {
    PlaceIs(value, bits, r);
    LowBound(value, r.lsb);
    HighLowUnique(WithLow(ShiftRight(value, r.lsb), bits, r.Width()), Low(value, r.lsb), r.lsb);
  }

  /** A field reads back what was placed in it. */
  lemma {:induction false} ExtractPlaced(value: nat, bits: nat, r: BitRange)
    requires r.Valid() && bits < Pow2(r.Width())
    ensures ExtractBits(PlaceBits(value, bits, r), r) == bits
  {
    PlaceParts(value, bits, r);
    ExtractIs(PlaceBits(value, bits, r), r);
    WithLowParts(ShiftRight(value, r.lsb), bits, r.Width());
  }

  /** Placing a field leaves every disjoint field as it was. */
  lemma {:induction false} ExtractOther(value: nat, bits: nat, r: BitRange, other: BitRange)
    requires r.Valid() && other.Valid() && bits < Pow2(r.Width())
    requires r.msb < other.lsb || other.msb < r.lsb
    ensures ExtractBits(PlaceBits(value, bits, r), other) == ExtractBits(value, other)
  {
    var placed := PlaceBits(value, bits, r);
    ExtractIs(placed, other);
    ExtractIs(value, other);
    if r.msb < other.lsb {
      HighKept(value, bits, r, other.lsb);
    } else {
      LowKept(value, bits, r, other.msb + 1);
      ShiftRightOfLow(placed, other.lsb, other.Width());
      ShiftRightOfLow(value, other.lsb, other.Width());
    }
  }

  lemma {:induction false} HighKept(value: nat, bits: nat, r: BitRange, n: nat)
    requires r.Valid() && bits < Pow2(r.Width()) && r.msb < n
    ensures ShiftRight(PlaceBits(value, bits, r), n) == ShiftRight(value, n)
  {
    hide ShiftRight, PlaceBits, WithLow, Pow2, Low, ExtractBits;
    var l, w := r.lsb, r.Width();
    var placed, high := PlaceBits(value, bits, r), ShiftRight(value, l);
    PlaceParts(value, bits, r);
    WithLowParts(high, bits, w);
    ShiftRightTwice(placed, l, n - l);
    ShiftRightTwice(value, l, n - l);
    ShiftRightTwice(WithLow(high, bits, w), w, n - l - w);
    ShiftRightTwice(high, w, n - l - w);
  }

  lemma {:induction false} LowKept(value: nat, bits: nat, r: BitRange, n: nat)
    requires r.Valid() && bits < Pow2(r.Width()) && n <= r.lsb
    ensures Low(PlaceBits(value, bits, r), n) == Low(value, n)
  {
    PlaceParts(value, bits, r);
    LowOfLow(PlaceBits(value, bits, r), n, r.lsb);
    LowOfLow(value, n, r.lsb);
  }

  /** Placing bits in a field that holds zero adds the shifted bits. */
  lemma {:induction false} PlaceInZero(value: nat, bits: nat, r: BitRange)
    requires r.Valid() && bits < Pow2(r.Width()) && ExtractBits(value, r) == 0
    ensures PlaceBits(value, bits, r) == value + ShiftLeft(bits, r.lsb)
  {
    PlaceIs(value, bits, r);
    ExtractIs(value, r);
    HighLow(value, r.lsb);
    ShiftLeftAdd(ShiftRight(value, r.lsb), bits, r.lsb);
  }

  lemma {:induction false} ShiftLeftAdd(x: nat, y: nat, n: nat)
    ensures ShiftLeft(x + y, n) == ShiftLeft(x, n) + ShiftLeft(y, n)
  {
    if n > 0 {
      ShiftLeftAdd(x, y, n - 1);
    }
  }

  /** Placing a field below bit n keeps a value below 2^n. */
  lemma {:induction false} PlaceBound(value: nat, bits: nat, r: BitRange, n: nat)
    requires r.Valid() && r.msb < n && bits < Pow2(r.Width()) && value < Pow2(n)
    ensures PlaceBits(value, bits, r) < Pow2(n)
  {
    LowSmall(value, n);
    HighKept(value, bits, r, n);
    HighLow(PlaceBits(value, bits, r), n);
    LowBound(PlaceBits(value, bits, r), n);
    ShiftLeftZero(n);
  }

  lemma {:induction false} ShiftLeftZero(n: nat)
    ensures ShiftLeft(0, n) == 0
  {
    if n > 0 {
      ShiftLeftZero(n - 1);
    }
  }

  // ---------------------------------------------------------------- shifts as arithmetic

  lemma {:induction false} ShiftLeftIs(x: nat, n: nat)
    ensures ShiftLeft(x, n) == x * Pow2(n)
  {
    if n > 0 {
      ShiftLeftIs(x, n - 1);
    }
  }

  /** Quotient and remainder by a power of two. */
  lemma {:induction false} ShiftRightIs(x: nat, n: nat)
    ensures ShiftRight(x, n) == x / Pow2(n) && Low(x, n) == x % Pow2(n)
  {
    HighLow(x, n);
    LowBound(x, n);
    ShiftLeftIs(ShiftRight(x, n), n);
    DivModUnique(x, Pow2(n), ShiftRight(x, n), Low(x, n));
  }

  /** Quotient and remainder are the only way to write x as q * p + r with 0 <= r < p. */
  lemma {:induction false} DivModUnique(x: int, p: nat, q: int, r: int)
    requires p > 0 && 0 <= r < p && x == q * p + r
    ensures x / p == q && x % p == r
  {
    var d := x / p - q;
    assert d * p == r - x % p by {
      assert x == (x / p) * p + x % p;
      assert d * p == (x / p) * p - q * p;
    }
    MulSign(d, p);
  }

  lemma {:induction false} MulSign(d: int, p: nat)
    ensures d >= 1 ==> d * p >= p
    ensures d <= -1 ==> d * p + p <= 0
  {
  }

  /** A smaller multiplicity leaves room for one more. */
  lemma {:induction false} MulLess(k: nat, n: nat, s: nat)
    requires k < n
    ensures k * s + s <= n * s && k * s >= 0
  {
    MulSign(n - k, s);
    assert (n - k) * s == n * s - k * s;
  }

  lemma {:induction false} MultiplesAlign(x: nat, s: nat, k: nat)
    requires s > 0 && x % s == 0
    ensures (x + k * s) % s == 0
  {
    assert x + k * s == (x / s + k) * s + 0;
    DivModUnique(x + k * s, s, x / s + k, 0);
  }
}
