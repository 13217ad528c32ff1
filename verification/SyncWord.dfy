/** 32-bit words as sets of bits: what the barrier's instructions compute on its sync word. */
module SyncWord {
  import opened Bits

  /** Bit i of a word: shift right, mask with one. */
  predicate Bit(w: nat, i: nat) { ShiftRight(w, i) % 2 == 1 }

  /** The number of trailing zeros of a 64-bit value; 64 when the value is zero. */
  function Ctz(m: nat): nat {
    if m == 0 then 64 else if m % 2 == 1 then 0 else 1 + Ctz(m / 2)
  }

  /** `lw` and the `.w` atomics: a 32-bit word sign-extended to 64 bits. */
  function LoadWord(w: nat): nat {
    if w < 0x8000_0000 then w else w + 0xFFFF_FFFF_0000_0000
  }

  // ---------------------------------------------------------------- words as bit sets

  lemma {:induction false} SetBit(w: nat, i: nat, j: nat)
    ensures Bit(Or(w, ShiftLeft(1, i)), j) <==> Bit(w, j) || i == j
    decreases i + j
  {
    OrHalves(w, ShiftLeft(1, i));
    if i == 0 {
      OrZero(w / 2);
    } else if j > 0 {
      SetBit(w / 2, i - 1, j - 1);
    }
  }

  lemma {:induction false} OrHalves(x: nat, y: nat)
    ensures Or(x, y) / 2 == Or(x / 2, y / 2)
    ensures Or(x, y) % 2 == 1 <==> x % 2 == 1 || y % 2 == 1
  {
  }

  lemma {:induction false} OrBelow(x: nat, y: nat, n: nat)
    requires x < Pow2(n) && y < Pow2(n)
    ensures Or(x, y) < Pow2(n)
  {
    if n > 0 {
      OrHalves(x, y);
      OrBelow(x / 2, y / 2, n - 1);
    }
  }

  /** `and` with a one-bit word tests that bit. */
  lemma {:induction false} TestBit(w: nat, i: nat)
    ensures And(ShiftLeft(1, i), w) != 0 <==> Bit(w, i)
  {
    ShiftOne(i);
    if w == 0 {
      NoBits(i);
    } else if i == 0 {
      assert And(0, w / 2) == 0;
    } else {
      ShiftOne(i - 1);
      TestBit(w / 2, i - 1);
    }
  }

  lemma {:induction false} NoBits(i: nat)
    ensures !Bit(0, i)
  {
    if i > 0 {
      NoBits(i - 1);
    }
  }

  /** Words with the same bits are equal. */
  lemma {:induction false} SameBits(a: nat, b: nat)
    requires forall i: nat :: Bit(a, i) <==> Bit(b, i)
    ensures a == b
    decreases a + b
  {
    assert a % 2 == b % 2 by {
      assert Bit(a, 0) <==> Bit(b, 0);
    }
    if a + b > 0 {
      forall i: nat
        ensures Bit(a / 2, i) <==> Bit(b / 2, i)
      {
        assert Bit(a, i + 1) <==> Bit(b, i + 1);
      }
      SameBits(a / 2, b / 2);
    }
  }

  /** The lowest CPU of a mask is in it, and one-bit words are told apart by their bits. */
  lemma {:induction false} LowestIsSet(m: nat)
    requires m > 0
    ensures Bit(m, Ctz(m))
  {
    if m % 2 == 0 {
      LowestIsSet(m / 2);
    }
  }

  lemma {:induction false} OneBitWords(i: nat, j: nat)
    ensures ShiftLeft(1, i) == ShiftLeft(1, j) <==> i == j
  {
    if i > 0 && j > 0 {
      OneBitWords(i - 1, j - 1);
    }
  }

  /** Sign extension leaves the low 32 bits alone. */
  lemma {:induction false} AddHigh(w: nat, d: nat, k: nat, i: nat)
    requires i < k && d % Pow2(k) == 0
    ensures Bit(w + d, i) <==> Bit(w, i)
  {
    assert Pow2(k) == 2 * Pow2(k - 1);
    var q := d / Pow2(k);
    assert d == Pow2(k) * q;
    assert d == 2 * (Pow2(k - 1) * q) by { MulAssoc(2, Pow2(k - 1), q); }
    assert (w + d) / 2 == w / 2 + Pow2(k - 1) * q;
    assert (w + d) % 2 == w % 2;
    if i > 0 {
      DivModUnique(Pow2(k - 1) * q, Pow2(k - 1), q, 0);
      AddHigh(w / 2, Pow2(k - 1) * q, k - 1, i - 1);
    }
  }

  lemma {:induction false} MulAssoc(a: nat, b: nat, c: nat)
    ensures (a * b) * c == a * (b * c)
  {
  }

  lemma {:induction false} LoadedBit(w: nat, i: nat)
    requires i < 32
    ensures Bit(LoadWord(w), i) <==> Bit(w, i)
  {
    if w >= 0x8000_0000 {
      Pow2Is32();
      AddHigh(w, 0xFFFF_FFFF_0000_0000, 32, i);
    }
  }

  lemma {:induction false} Pow2Is32()
    ensures Pow2(32) == 0x1_0000_0000
  {
    assert Pow2(8) == 256;
    assert Pow2(16) == 65536;
    assert Pow2(24) == 16777216;
  }

  lemma {:induction false} Pow2Strict(a: nat, b: nat)
    requires a < b
    ensures Pow2(a) < Pow2(b)
  {
    Pow2Monotone(a, b - 1);
  }
}
