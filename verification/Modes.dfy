/** The translation modes and their geometry: which address bits index which level,
    and how big the pages and the tables of each level are. */
module Modes {
  import opened Bits

  datatype Mode = Sv39 | Sv48 | Sv39x4 | Sv48x4

  const SIZE_4K: nat := 0x1000
  const SIZE_2M: nat := 0x20_0000
  const SIZE_1G: nat := 0x4000_0000
  const SIZE_512G: nat := 0x80_0000_0000

  const PTE_SIZE: nat := 8

  function NumLevels(m: Mode): nat {
    if m.Sv39? || m.Sv39x4? then 3 else 4
  }

  function VaVpnBits(m: Mode): (s: seq<BitRange>)
    ensures |s| == NumLevels(m)
    ensures forall i :: 0 <= i < |s| ==> s[i].Valid() && s[i].lsb >= 12
  {
    match m
    case Sv39 => [BitRange(38, 30), BitRange(29, 21), BitRange(20, 12)]
    case Sv48 => [BitRange(47, 39), BitRange(38, 30), BitRange(29, 21), BitRange(20, 12)]
    case Sv39x4 => [BitRange(40, 30), BitRange(29, 21), BitRange(20, 12)]
    case Sv48x4 => [BitRange(49, 39), BitRange(38, 30), BitRange(29, 21), BitRange(20, 12)]
  }

  function PaPpnBits(m: Mode): (s: seq<BitRange>)
    ensures |s| == NumLevels(m)
    ensures forall i :: 0 <= i < |s| ==> s[i].Valid()
  {
    if NumLevels(m) == 3
    then [BitRange(55, 30), BitRange(29, 21), BitRange(20, 12)]
    else [BitRange(55, 39), BitRange(38, 30), BitRange(29, 21), BitRange(20, 12)]
  }

  function PtePpnBits(m: Mode): (s: seq<BitRange>)
    ensures |s| == NumLevels(m)
    ensures forall i :: 0 <= i < |s| ==> s[i].Valid()
  {
    if NumLevels(m) == 3
    then [BitRange(53, 28), BitRange(27, 19), BitRange(18, 10)]
    else [BitRange(53, 37), BitRange(36, 28), BitRange(27, 19), BitRange(18, 10)]
  }

  function PageSizes(m: Mode): (s: seq<nat>)
    ensures |s| == NumLevels(m)
  {
    if NumLevels(m) == 3
    then [SIZE_1G, SIZE_2M, SIZE_4K]
    else [SIZE_512G, SIZE_1G, SIZE_2M, SIZE_4K]
  }

  function PagetableSizes(m: Mode): (s: seq<nat>)
    ensures |s| == NumLevels(m)
  {
    match m
    case Sv39 => [SIZE_4K, SIZE_4K, SIZE_4K]
    case Sv48 => [SIZE_4K, SIZE_4K, SIZE_4K, SIZE_4K]
    case Sv39x4 => [4 * SIZE_4K, SIZE_4K, SIZE_4K]
    case Sv48x4 => [4 * SIZE_4K, SIZE_4K, SIZE_4K, SIZE_4K]
  }

  /** Number of low address bits that `va_mask` keeps; for the x4 modes this is one
      fewer than the root index covers. */
  function VaMaskBits(m: Mode): nat {
    match m
    case Sv39 => 39
    case Sv48 => 48
    case Sv39x4 => 40
    case Sv48x4 => 49
  }

  function VaMask(m: Mode): nat { Mask(VaMaskBits(m)) }

  // ---------------------------------------------------------------- geometry

  /** Bytes of address space under one entry of a level-l table. */
  function Span(m: Mode, l: nat): nat
    requires l < NumLevels(m)
  {
    PageSizes(m)[l]
  }

  function Lsb(m: Mode, l: nat): nat
    requires l < NumLevels(m)
  {
    VaVpnBits(m)[l].lsb
  }

  /** Number of low address bits the mode translates. */
  function VaWidth(m: Mode): nat { VaVpnBits(m)[0].msb + 1 }

  /** The index a walk uses at level l. */
  function Idx(m: Mode, va: nat, l: nat): nat
    requires l < NumLevels(m)
  {
    ExtractBits(va, VaVpnBits(m)[l])
  }

  /** The offset of va within its level-l page. */
  function PageOffset(m: Mode, va: nat, l: nat): nat
    requires l < NumLevels(m)
  {
    ExtractBits(va, BitRange(Lsb(m, l) - 1, 0))
  }

  /** The number of the level-l page of va, within the width the mode translates. */
  function Slot(m: Mode, va: nat, l: nat): nat
    requires l < NumLevels(m)
  {
    Geometry(m, l);
    Low(ShiftRight(va, Lsb(m, l)), VaWidth(m) - Lsb(m, l))
  }

  lemma {:induction false} Geometry(m: Mode, l: nat)
    requires l < NumLevels(m)
    ensures 12 <= Lsb(m, l) < VaWidth(m) <= 50
    ensures l == 0 ==> VaVpnBits(m)[l].Width() == VaWidth(m) - Lsb(m, l)
    ensures l == 0 ==> VaVpnBits(m)[l].Width() == if m.Sv39? || m.Sv48? then 9 else 11
    ensures l > 0 ==> VaVpnBits(m)[l].Width() == 9 && VaVpnBits(m)[l].msb + 1 == Lsb(m, l - 1)
    ensures VaMaskBits(m) == if m.Sv39? || m.Sv48? then VaWidth(m) else VaWidth(m) - 1
    ensures l + 1 == NumLevels(m) ==> Lsb(m, l) == 12
    ensures l == 0 ==> Lsb(m, l) == 12 + 9 * (NumLevels(m) - 1)
  {
  }

  lemma {:induction false} SpanIs(m: Mode, l: nat)
    requires l < NumLevels(m)
    ensures Span(m, l) == Pow2(Lsb(m, l)) >= SIZE_4K
  {
    hide Pow2;
    PageSizePowers();
    var depth := NumLevels(m) - 1 - l;
    assert Lsb(m, l) == 12 + 9 * depth;
    if depth == 0 {
      assert Lsb(m, l) == 12;
    } else if depth == 1 {
      assert Lsb(m, l) == 21;
    } else if depth == 2 {
      assert Lsb(m, l) == 30;
    } else {
      assert Lsb(m, l) == 39;
    }
  }

  lemma {:induction false} PageSizePowers()
    ensures Pow2(12) == SIZE_4K && Pow2(21) == SIZE_2M
    ensures Pow2(30) == SIZE_1G && Pow2(39) == SIZE_512G
  {
  }

  /** A table holds one entry for each value of its index. */
  lemma {:induction false} TableHoldsIndices(m: Mode, l: nat, va: nat)
    requires l < NumLevels(m)
    ensures Idx(m, va, l) * PTE_SIZE < PagetableSizes(m)[l]
    ensures l > 0 ==> PagetableSizes(m)[l] == SIZE_4K
    ensures PagetableSizes(m)[l] == SIZE_4K || PagetableSizes(m)[l] == 4 * SIZE_4K
  {
    hide Low, Pow2, And, Mask, ShiftRight;
    Geometry(m, l);
    ExtractIs(va, VaVpnBits(m)[l]);
    NineBits();
  }

  /** The modes with two more bits in the root index. */
  predicate IsX4(m: Mode) { m.Sv39x4? || m.Sv48x4? }

  /** A table is as big as its index has values: one page of 4 KiB, and four for the root table of
      the x4 modes. */
  lemma {:induction false} TableSizeIs(m: Mode, l: nat)
    requires l < NumLevels(m)
    ensures PagetableSizes(m)[l] == PTE_SIZE * Pow2(VaVpnBits(m)[l].Width())
    ensures PagetableSizes(m)[l] == if l == 0 && IsX4(m) then 0x4000 else 0x1000
  {
    hide Pow2;
    NineBits();
  }

  /** Indices and page sizes as numbers: nine bits a level above the twelve of the page offset, and
      eleven at the root of the x4 modes. */
  lemma {:induction false} IndexIs(m: Mode, va: nat, l: nat)
    requires l < NumLevels(m)
    ensures NumLevels(m) == if m == Sv39 || m == Sv39x4 then 3 else 4
    ensures Idx(m, va, l)
         == va / Pow2(12 + 9 * (NumLevels(m) - 1 - l)) % (if l == 0 && IsX4(m) then 2048 else 512)
    ensures PageSizes(m)[l] == Pow2(12 + 9 * (NumLevels(m) - 1 - l))
    ensures VaSpan(m) == Pow2(12 + 9 * NumLevels(m) + if IsX4(m) then 2 else 0)
  {
    hide Low, Pow2, ExtractBits, ShiftRight;
    SpanIs(m, l);
    var r := VaVpnBits(m)[l];
    Geometry(m, l);
    NineBits();
    ExtractIs(va, r);
    ShiftRightIs(va, r.lsb);
    ShiftRightIs(ShiftRight(va, r.lsb), r.Width());
    assert r.lsb == 12 + 9 * (NumLevels(m) - 1 - l);
  }

  lemma {:induction false} PageOffsetIs(m: Mode, va: nat, l: nat)
    requires l < NumLevels(m)
    ensures PageOffset(m, va, l) == Low(va, Lsb(m, l)) == va % Span(m, l)
  {
    Geometry(m, l);
    SpanIs(m, l);
    LowField(va, Lsb(m, l));
  }

  lemma {:induction false} LowField(x: nat, n: nat)
    requires n > 0
    ensures ExtractBits(x, BitRange(n - 1, 0)) == Low(x, n) == x % Pow2(n)
  {
    ExtractIs(x, BitRange(n - 1, 0));
    ShiftRightIs(x, n);
  }

  /** A page number is its parent's page number followed by the walk's index. */
  lemma {:induction false} SlotStep(m: Mode, va: nat, l: nat)
    requires l < NumLevels(m)
    ensures l == 0 ==> Slot(m, va, 0) == Idx(m, va, 0)
    ensures l > 0 ==> Slot(m, va, l) == 512 * Slot(m, va, l - 1) + Idx(m, va, l)
    ensures l > 0 ==> Idx(m, va, l) < 512
  {
    hide Low, Pow2, And, Mask, ShiftRight, ShiftLeft;
    Geometry(m, l);
    ExtractIs(va, VaVpnBits(m)[l]);
    NineBits();
    if l > 0 {
      var x, k := ShiftRight(va, Lsb(m, l)), VaWidth(m) - Lsb(m, l - 1);
      Geometry(m, l - 1);
      LowSplit(x, 9, k);
      ShiftRightTwice(va, Lsb(m, l), 9);
      ShiftLeftIs(Low(ShiftRight(x, 9), k), 9);
    }
  }

  lemma {:induction false} NineBits()
    ensures Pow2(9) == 512 && Pow2(10) == 1024 && Pow2(11) == 2048
  {
  }

  /** Equal page numbers at level l give equal page numbers and indices at every level above. */
  lemma {:induction false} SlotPrefix(m: Mode, va: nat, vb: nat, k: nat, l: nat)
    requires k <= l < NumLevels(m) && Slot(m, va, l) == Slot(m, vb, l)
    ensures Slot(m, va, k) == Slot(m, vb, k) && Idx(m, va, k) == Idx(m, vb, k)
    decreases l
  {
    SlotStep(m, va, l);
    SlotStep(m, vb, l);
    if k < l {
      SameDigits(Slot(m, va, l - 1), Idx(m, va, l), Slot(m, vb, l - 1), Idx(m, vb, l));
      SlotPrefix(m, va, vb, k, l - 1);
    } else if l > 0 {
      SameDigits(Slot(m, va, l - 1), Idx(m, va, l), Slot(m, vb, l - 1), Idx(m, vb, l));
    }
  }

  lemma {:induction false} SameDigits(p: nat, i: nat, q: nat, j: nat)
    requires i < 512 && j < 512 && 512 * p + i == 512 * q + j
    ensures p == q && i == j
  {
  }

  // ---------------------------------------------------------------- address prefixes of tables

  function TableShift(m: Mode, l: nat): nat
    requires l < NumLevels(m)
  {
    VaVpnBits(m)[l].msb + 1
  }

  /** First masked address under the level-l table that serves va. */
  function StartVa(m: Mode, va: nat, l: nat): nat
    requires l < NumLevels(m)
  {
    ShiftLeft(ShiftRight(And(va, VaMask(m)), TableShift(m, l)), TableShift(m, l))
  }

  /** There is one root table, whatever the address. */
  lemma {:induction false} RootStart(m: Mode, va: nat)
    ensures StartVa(m, va, 0) == 0
  {
    Geometry(m, 0);
    AndMask(va, VaMaskBits(m));
    LowBound(va, VaMaskBits(m));
    Pow2Monotone(VaMaskBits(m), TableShift(m, 0));
    LowSmall(And(va, VaMask(m)), TableShift(m, 0));
    ShiftLeftZero(TableShift(m, 0));
  }

  /** Below the root, a table is named by the page number of the entry that points to it,
      provided the root index is one of the first 512. */
  lemma {:induction false} TableStart(m: Mode, va: nat, l: nat)
    requires 0 < l < NumLevels(m)
    requires Idx(m, va, 0) < 512
    ensures StartVa(m, va, l) == ShiftLeft(Slot(m, va, l - 1), Lsb(m, l - 1))
  {
    var s := Lsb(m, l - 1);
    Geometry(m, l);
    Geometry(m, l - 1);
    AndMask(va, VaMaskBits(m));
    ShiftRightOfLow(va, s, VaMaskBits(m) - s);
    MaskedSlot(m, va, l - 1);
  }

  /** The mask of the x4 modes drops the top bit of the root index; this keeps the page number
      when the root index is one of the first 512. */
  lemma {:induction false} MaskedSlot(m: Mode, va: nat, l: nat)
    requires l < NumLevels(m) && Idx(m, va, 0) < 512
    ensures Lsb(m, l) <= VaMaskBits(m)
    ensures Low(ShiftRight(va, Lsb(m, l)), VaMaskBits(m) - Lsb(m, l)) == Slot(m, va, l)
  {
    hide Low, Pow2, And, Mask, ShiftRight;
    Geometry(m, l);
    Geometry(m, 0);
    LsbDescends(m, l);
    if m.Sv39x4? || m.Sv48x4? {
      var a := Lsb(m, 0) - Lsb(m, l);
      ShiftRightTwice(va, Lsb(m, l), a);
      ExtractIs(va, VaVpnBits(m)[0]);
      TopBitsClear(ShiftRight(va, Lsb(m, l)), a);
    }
  }

  lemma {:induction false} TopBitsClear(y: nat, a: nat)
    requires Low(ShiftRight(y, a), 11) < 512
    ensures Low(y, a + 10) == Low(y, a + 11)
  {
    var z := ShiftRight(y, a);
    assert Pow2(10) == 1024;
    LowSmall(Low(z, 11), 10);
    LowOfLow(z, 10, 11);
    LowSplit(y, a, 10);
    LowSplit(y, a, 11);
  }

  lemma {:induction false} LsbDescends(m: Mode, l: nat)
    requires l < NumLevels(m)
    ensures Lsb(m, l) <= Lsb(m, 0)
  {
    Geometry(m, l);
    if l > 0 {
      LsbDescends(m, l - 1);
    }
  }

  /** Tables below the root are told apart by the page numbers above them. */
  lemma {:induction false} SameTableSameSlot(m: Mode, va: nat, vb: nat, l: nat)
    requires 0 < l < NumLevels(m) && Idx(m, va, 0) < 512 && Idx(m, vb, 0) < 512
    ensures StartVa(m, va, l) == StartVa(m, vb, l) <==> Slot(m, va, l - 1) == Slot(m, vb, l - 1)
  {
    TableStart(m, va, l);
    TableStart(m, vb, l);
    HighLowUnique(Slot(m, va, l - 1), 0, Lsb(m, l - 1));
    HighLowUnique(Slot(m, vb, l - 1), 0, Lsb(m, l - 1));
  }

  // ---------------------------------------------------------------- the same, in arithmetic

  /** Size of the address space the mode translates. */
  function VaSpan(m: Mode): (n: nat)
    ensures n > 0
  {
    Pow2(VaWidth(m))
  }

  /** The page number is the quotient of the low address bits by the page size. */
  lemma {:induction false} SlotIs(m: Mode, va: nat, l: nat)
    requires l < NumLevels(m)
    ensures Span(m, l) > 0
    ensures Slot(m, va, l) == va % VaSpan(m) / Span(m, l)
  {
    hide Low, Pow2, ShiftRight, Span, Lsb, VaWidth;
    var s := Lsb(m, l);
    Geometry(m, l);
    SpanIs(m, l);
    ShiftRightOfLow(va, s, VaWidth(m) - s);
    ShiftRightIs(va, VaWidth(m));
    ShiftRightIs(Low(va, VaWidth(m)), s);
  }
}
