/** Page-table entries: how the builder packs one and what a walker reads back. */
module Pte {
  import opened Bits
  import opened Modes
  import opened Wrappers

  const VALID := BitRange(0, 0)
  const XWR := BitRange(3, 1)
  const UMODE := BitRange(4, 4)
  const ACCESSED := BitRange(6, 6)
  const DIRTY := BitRange(7, 7)
  const PBMT := BitRange(62, 61)

  type Bit = b: nat | b < 2
  type Permissions = b: nat | b < 8

  datatype Pbmt = PMA | NC | IO {
    function Encoding(): (e: nat)
      ensures e < 3
    {
      match this
      case PMA => 0
      case NC => 1
      case IO => 2
    }
  }

  /** What a leaf entry says about its page, apart from the address. */
  datatype Attributes = Attributes(xwr: Permissions, umode: Option<Bit>, pbmt: Pbmt, valid: Bit)

  /** The address fields of `pa`, from field `id` on, copied into an entry. */
  function PlacePpn(m: Mode, pte: nat, pa: nat, id: nat): nat
    requires id <= NumLevels(m)
    decreases NumLevels(m) - id
  {
    if id == NumLevels(m) then pte
    else
      var ppn := ExtractBits(pa, PaPpnBits(m)[id]);
      PlacePpn(m, PlaceBits(pte, ppn, PtePpnBits(m)[id]), pa, id + 1)
  }

  /** The address fields of an entry, from field `id` on, added to `a`. */
  function GatherPpn(m: Mode, a: nat, pte: nat, id: nat): nat
    requires id <= NumLevels(m)
    decreases NumLevels(m) - id
  {
    if id == NumLevels(m) then a
    else
      var ppn := ExtractBits(pte, PtePpnBits(m)[id]);
      GatherPpn(m, PlaceBits(a, ppn, PaPpnBits(m)[id]), pte, id + 1)
  }

  function LeafFlags(t: Attributes): nat {
    var v := PlaceBits(PlaceBits(0, 1, VALID), t.xwr, XWR);
    var u := if t.umode.Some? then PlaceBits(v, t.umode.value, UMODE) else v;
    var d := PlaceBits(PlaceBits(u, 1, ACCESSED), 1, DIRTY);
    PlaceBits(PlaceBits(d, t.pbmt.Encoding(), PBMT), t.valid, VALID)
  }

  function LeafPte(m: Mode, pa: nat, t: Attributes): nat {
    PlacePpn(m, LeafFlags(t), pa, 0)
  }

  function NonLeafPte(m: Mode, nextLevelPa: nat): nat {
    PlacePpn(m, PlaceBits(0, 1, VALID), nextLevelPa, 0)
  }

  /** The address a walker reads from an entry. */
  function PteAddress(m: Mode, pte: nat): nat { GatherPpn(m, 0, pte, 0) }

  /** The fields of an entry a walker looks at. */
  datatype Fields = Fields(valid: nat, xwr: nat, accessed: nat, dirty: nat, pbmt: nat, address: nat)

  function ReadFields(m: Mode, pte: nat): Fields {
    Fields(ExtractBits(pte, VALID), ExtractBits(pte, XWR), ExtractBits(pte, ACCESSED),
           ExtractBits(pte, DIRTY), ExtractBits(pte, PBMT), PteAddress(m, pte))
  }

  function LeafFields(page: nat, t: Attributes): Fields {
    Fields(t.valid, t.xwr, 1, 1, t.pbmt.Encoding(), page)
  }

  function NonLeafFields(page: nat): Fields { Fields(1, 0, 0, 0, 0, page) }

  // ---------------------------------------------------------------- reading back

  lemma {:induction false} Widths()
    ensures Pow2(1) == 2 && Pow2(2) == 4 && Pow2(3) == 8 && Pow2(9) == 512 && Pow2(12) == 4096
  {
  }

  predicate OutsidePpn(r: BitRange) { r.Valid() && (r.msb < 10 || r.lsb > 53) }

  /** An address field and its copy in the entry are equally wide and two bits apart. */
  lemma {:induction false} PpnFields(m: Mode, id: nat)
    requires id < NumLevels(m)
    ensures PaPpnBits(m)[id].Width() == PtePpnBits(m)[id].Width()
    ensures PaPpnBits(m)[id].lsb == PtePpnBits(m)[id].lsb + 2
    ensures 10 <= PtePpnBits(m)[id].lsb <= PtePpnBits(m)[id].msb <= 53
    ensures 12 <= PaPpnBits(m)[id].lsb <= PaPpnBits(m)[id].msb <= 55
    ensures id == 0 ==> PaPpnBits(m)[id].msb == 55
    ensures id + 1 < NumLevels(m) ==> PaPpnBits(m)[id + 1].msb + 1 == PaPpnBits(m)[id].lsb
    ensures id + 1 < NumLevels(m) ==> PtePpnBits(m)[id + 1].msb + 1 == PtePpnBits(m)[id].lsb
    ensures id + 1 == NumLevels(m) ==> PaPpnBits(m)[id].lsb == 12
  {
  }

  lemma {:induction false} FieldsDescend(m: Mode, i: nat, j: nat)
    requires i < j < NumLevels(m)
    ensures PaPpnBits(m)[j].msb < PaPpnBits(m)[i].lsb
    ensures PtePpnBits(m)[j].msb < PtePpnBits(m)[i].lsb
    decreases j
  {
    PpnFields(m, j - 1);
    if i < j - 1 {
      FieldsDescend(m, i, j - 1);
    }
  }

  lemma {:induction false} PlacePpnKeeps(m: Mode, pte: nat, pa: nat, id: nat, other: BitRange)
    requires id <= NumLevels(m) && OutsidePpn(other)
    ensures ExtractBits(PlacePpn(m, pte, pa, id), other) == ExtractBits(pte, other)
    decreases NumLevels(m) - id
  {
    hide PlaceBits, ExtractBits, Pow2;
    if id < NumLevels(m) {
      var ppn := ExtractBits(pa, PaPpnBits(m)[id]);
      PpnFields(m, id);
      ExtractIs(pa, PaPpnBits(m)[id]);
      ExtractOther(pte, ppn, PtePpnBits(m)[id], other);
      PlacePpnKeeps(m, PlaceBits(pte, ppn, PtePpnBits(m)[id]), pa, id + 1, other);
    }
  }

  /** Every address field lands in its place, and fields before `id` stay. */
  lemma {:induction false} PlacePpnReads(m: Mode, pte: nat, pa: nat, id: nat, k: nat)
    requires id <= NumLevels(m) && k < NumLevels(m)
    ensures ExtractBits(PlacePpn(m, pte, pa, id), PtePpnBits(m)[k])
         == if k < id then ExtractBits(pte, PtePpnBits(m)[k]) else ExtractBits(pa, PaPpnBits(m)[k])
    decreases NumLevels(m) - id
  {
    hide PlaceBits, ExtractBits, Pow2;
    if id < NumLevels(m) {
      var ppn := ExtractBits(pa, PaPpnBits(m)[id]);
      PpnFields(m, id);
      ExtractIs(pa, PaPpnBits(m)[id]);
      PlacePpnReads(m, PlaceBits(pte, ppn, PtePpnBits(m)[id]), pa, id + 1, k);
      if k == id {
        ExtractPlaced(pte, ppn, PtePpnBits(m)[id]);
      } else if k < id {
        FieldsDescend(m, k, id);
        ExtractOther(pte, ppn, PtePpnBits(m)[id], PtePpnBits(m)[k]);
      }
    }
  }

  lemma {:induction false} PlacePpnBound(m: Mode, pte: nat, pa: nat, id: nat)
    requires id <= NumLevels(m) && pte < Pow2(64)
    ensures PlacePpn(m, pte, pa, id) < Pow2(64)
    decreases NumLevels(m) - id
  {
    hide PlaceBits, ExtractBits, Pow2;
    if id < NumLevels(m) {
      var ppn := ExtractBits(pa, PaPpnBits(m)[id]);
      PpnFields(m, id);
      ExtractIs(pa, PaPpnBits(m)[id]);
      PlaceBound(pte, ppn, PtePpnBits(m)[id], 64);
      PlacePpnBound(m, PlaceBits(pte, ppn, PtePpnBits(m)[id]), pa, id + 1);
    }
  }

  /** Address bits above the page offset and up to the top of field `id`. */
  function PpnPart(m: Mode, pa: nat, id: nat): nat
    requires id <= NumLevels(m)
  {
    if id == NumLevels(m) then 0
    else
      PpnFields(m, id);
      LowMonotone(pa, 12, PaPpnBits(m)[id].msb + 1);
      Low(pa, PaPpnBits(m)[id].msb + 1) - Low(pa, 12)
  }

  /** Gathering the fields of an entry that holds those of `pa` adds the address bits of `pa`. */
  lemma {:induction false} GatherPpnIs(m: Mode, a: nat, pte: nat, pa: nat, id: nat)
    requires id <= NumLevels(m)
    requires forall k :: id <= k < NumLevels(m) ==>
               ExtractBits(pte, PtePpnBits(m)[k]) == ExtractBits(pa, PaPpnBits(m)[k])
    requires forall k :: id <= k < NumLevels(m) ==> ExtractBits(a, PaPpnBits(m)[k]) == 0
    ensures GatherPpn(m, a, pte, id) == a + PpnPart(m, pa, id)
    decreases NumLevels(m) - id
  {
    hide PlaceBits, ExtractBits, Pow2, ShiftLeft;
    if id < NumLevels(m) {
      var r := PaPpnBits(m)[id];
      var ppn := ExtractBits(pa, r);
      var b := PlaceBits(a, ppn, r);
      ExtractIs(pa, r);
      PlaceInZero(a, ppn, r);
      forall k | id + 1 <= k < NumLevels(m)
        ensures ExtractBits(b, PaPpnBits(m)[k]) == 0
      {
        FieldsDescend(m, id, k);
        ExtractOther(a, ppn, r, PaPpnBits(m)[k]);
      }
      GatherPpnIs(m, b, pte, pa, id + 1);
      PpnPartStep(m, pa, id);
    }
  }

  lemma {:induction false} PpnPartStep(m: Mode, pa: nat, id: nat)
    requires id < NumLevels(m)
    ensures PpnPart(m, pa, id)
         == ShiftLeft(ExtractBits(pa, PaPpnBits(m)[id]), PaPpnBits(m)[id].lsb) + PpnPart(m, pa, id + 1)
  {
    var r := PaPpnBits(m)[id];
    PpnFields(m, id);
    ExtractIs(pa, r);
    LowSplit(pa, r.lsb, r.Width());
  }

  lemma {:induction false} ExtractZero(r: BitRange)
    requires r.Valid()
    ensures ExtractBits(0, r) == 0
  {
    ExtractIs(0, r);
    LowSmall(0, r.lsb);
    LowSmall(0, r.Width());
  }

  /** Bits 55 to 12 of an address: what an entry can hold of it. */
  function PageOf(pa: nat): nat {
    LowMonotone(pa, 12, 56);
    Low(pa, 56) - Low(pa, 12)
  }

  /** An offset within a page does not change what the entry holds. */
  lemma {:induction false} PageOfAligned(pa: nat, off: nat)
    requires pa % SIZE_4K == 0 && pa < Pow2(56) && off < SIZE_4K
    ensures PageOf(pa + off) == pa
  {
    hide Low, Pow2;
    SamePageBelow(pa, off, 56);
    LowSmall(pa + off, 56);
    LowTwelve(pa + off);
    DivModUnique(pa + off, SIZE_4K, pa / SIZE_4K, off);
  }

  lemma {:induction false} LowTwelve(x: nat)
    ensures Low(x, 12) == x % SIZE_4K
  {
    PageSizePowers();
    ShiftRightIs(x, 12);
  }

  /** An aligned address below 2^n leaves room for a whole page below 2^n. */
  lemma {:induction false} SamePageBelow(pa: nat, off: nat, n: nat)
    requires n >= 12 && pa % SIZE_4K == 0 && off < SIZE_4K && pa < Pow2(n)
    ensures pa + off < Pow2(n)
  {
    Pow2Multiple(n);
  }

  lemma {:induction false} Pow2Multiple(n: nat)
    requires n >= 12
    ensures Pow2(n) % SIZE_4K == 0
  {
    PageSizePowers();
    if n > 12 {
      Pow2Multiple(n - 1);
    }
  }

  /** A placed address reads back as its page. */
  lemma {:induction false} PlacedAddress(m: Mode, pte: nat, pa: nat)
    ensures PteAddress(m, PlacePpn(m, pte, pa, 0)) == PageOf(pa)
  {
    hide PlaceBits, ExtractBits, PlacePpn, Low;
    var placed := PlacePpn(m, pte, pa, 0);
    forall k | 0 <= k < NumLevels(m)
      ensures ExtractBits(placed, PtePpnBits(m)[k]) == ExtractBits(pa, PaPpnBits(m)[k])
      ensures ExtractBits(0, PaPpnBits(m)[k]) == 0
    {
      PlacePpnReads(m, pte, pa, 0, k);
      ExtractZero(PaPpnBits(m)[k]);
    }
    GatherPpnIs(m, 0, placed, pa, 0);
    PpnFields(m, 0);
  }

  lemma {:induction false} NonLeafReads(m: Mode, pa: nat)
    ensures NonLeafPte(m, pa) < Pow2(64)
    ensures ReadFields(m, NonLeafPte(m, pa)) == NonLeafFields(PageOf(pa))
  {
    hide PlaceBits, ExtractBits, Pow2, PlacePpn, PteAddress;
    Widths();
    var flags := PlaceBits(0, 1, VALID);
    Pow2Monotone(1, 64);
    PlaceBound(0, 1, VALID, 64);
    PlacePpnBound(m, flags, pa, 0);
    ExtractPlaced(0, 1, VALID);
    PlacePpnKeeps(m, flags, pa, 0, VALID);
    FlagIsZero(m, pa, XWR);
    FlagIsZero(m, pa, ACCESSED);
    FlagIsZero(m, pa, DIRTY);
    FlagIsZero(m, pa, PBMT);
    PlacedAddress(m, flags, pa);
  }

  lemma {:induction false} FlagIsZero(m: Mode, pa: nat, r: BitRange)
    requires OutsidePpn(r) && r.lsb > 0
    ensures ExtractBits(NonLeafPte(m, pa), r) == 0
  {
    Widths();
    FlagKept(0, 1, VALID, r);
    ExtractZero(r);
    PlacePpnKeeps(m, PlaceBits(0, 1, VALID), pa, 0, r);
  }

  lemma {:induction false} FlagKept(value: nat, bits: nat, r: BitRange, other: BitRange)
    requires r.Valid() && other.Valid() && bits < Pow2(r.Width())
    requires r.msb < other.lsb || other.msb < r.lsb
    ensures ExtractBits(PlaceBits(value, bits, r), other) == ExtractBits(value, other)
  {
    ExtractOther(value, bits, r, other);
  }

  /** A leaf entry reads back the attributes and the page it was made from. */
  lemma {:induction false} LeafReads(m: Mode, pa: nat, t: Attributes)
    ensures LeafPte(m, pa, t) < Pow2(64)
    ensures ReadFields(m, LeafPte(m, pa, t)) == LeafFields(PageOf(pa), t)
  {
    hide PlaceBits, ExtractBits, Pow2, PlacePpn, PteAddress;
    LeafFlagsRead(t);
    var flags := LeafFlags(t);
    PlacePpnBound(m, flags, pa, 0);
    PlacePpnKeeps(m, flags, pa, 0, VALID);
    PlacePpnKeeps(m, flags, pa, 0, XWR);
    PlacePpnKeeps(m, flags, pa, 0, ACCESSED);
    PlacePpnKeeps(m, flags, pa, 0, DIRTY);
    PlacePpnKeeps(m, flags, pa, 0, PBMT);
    PlacedAddress(m, flags, pa);
  }

  lemma {:induction false} LeafFlagsRead(t: Attributes)
    ensures var flags := LeafFlags(t);
            && flags < Pow2(64)
            && ExtractBits(flags, VALID) == t.valid
            && ExtractBits(flags, XWR) == t.xwr
            && ExtractBits(flags, ACCESSED) == 1
            && ExtractBits(flags, DIRTY) == 1
            && ExtractBits(flags, PBMT) == t.pbmt.Encoding()
  {
    hide PlaceBits, ExtractBits, Pow2;
    Widths();
    Pow2Monotone(1, 64);
    var v0 := PlaceBits(0, 1, VALID);
    PlaceBound(0, 1, VALID, 64);
    var v := PlaceBits(v0, t.xwr, XWR);
    PlaceBound(v0, t.xwr, XWR, 64);
    ExtractPlaced(v0, t.xwr, XWR);
    var u := if t.umode.Some? then PlaceBits(v, t.umode.value, UMODE) else v;
    if t.umode.Some? {
      PlaceBound(v, t.umode.value, UMODE, 64);
      FlagKept(v, t.umode.value, UMODE, XWR);
    }
    var a := PlaceBits(u, 1, ACCESSED);
    PlaceBound(u, 1, ACCESSED, 64);
    FlagKept(u, 1, ACCESSED, XWR);
    ExtractPlaced(u, 1, ACCESSED);
    var d := PlaceBits(a, 1, DIRTY);
    PlaceBound(a, 1, DIRTY, 64);
    FlagKept(a, 1, DIRTY, XWR);
    FlagKept(a, 1, DIRTY, ACCESSED);
    ExtractPlaced(a, 1, DIRTY);
    var p := PlaceBits(d, t.pbmt.Encoding(), PBMT);
    PlaceBound(d, t.pbmt.Encoding(), PBMT, 64);
    ExtractPlaced(d, t.pbmt.Encoding(), PBMT);
    FlagKept(d, t.pbmt.Encoding(), PBMT, XWR);
    FlagKept(d, t.pbmt.Encoding(), PBMT, ACCESSED);
    FlagKept(d, t.pbmt.Encoding(), PBMT, DIRTY);
    PlaceBound(p, t.valid, VALID, 64);
    ExtractPlaced(p, t.valid, VALID);
    FlagKept(p, t.valid, VALID, XWR);
    FlagKept(p, t.valid, VALID, ACCESSED);
    FlagKept(p, t.valid, VALID, DIRTY);
    FlagKept(p, t.valid, VALID, PBMT);
  }

  /** A leaf entry is never a non-leaf entry: only a leaf has its accessed bit set. */
  lemma {:induction false} LeafIsNotNonLeaf(m: Mode, pa: nat, t: Attributes, nextPa: nat)
    ensures LeafPte(m, pa, t) != NonLeafPte(m, nextPa)
  {
    LeafReads(m, pa, t);
    NonLeafReads(m, nextPa);
  }

  // ---------------------------------------------------------------- entries as numbers

  /** Address fields placed in an entry that holds none are added, two bits further down. */
  lemma {:induction false} PlacePpnAdds(m: Mode, pte: nat, pa: nat, id: nat)
    requires id <= NumLevels(m)
    requires forall k :: id <= k < NumLevels(m) ==> ExtractBits(pte, PtePpnBits(m)[k]) == 0
    ensures 4 * PlacePpn(m, pte, pa, id) == 4 * pte + PpnPart(m, pa, id)
    decreases NumLevels(m) - id
  {
    hide PlaceBits, ExtractBits, Pow2, PpnPart;
    if id < NumLevels(m) {
      var r := PtePpnBits(m)[id];
      var ppn := ExtractBits(pa, PaPpnBits(m)[id]);
      var placed := PlaceBits(pte, ppn, r);
      PpnFields(m, id);
      ExtractIs(pa, PaPpnBits(m)[id]);
      PlaceInZero(pte, ppn, r);
      forall k | id + 1 <= k < NumLevels(m)
        ensures ExtractBits(placed, PtePpnBits(m)[k]) == 0
      {
        FieldsDescend(m, id, k);
        ExtractOther(pte, ppn, r, PtePpnBits(m)[k]);
      }
      PlacePpnAdds(m, placed, pa, id + 1);
      PpnPartStep(m, pa, id);
    } else {
      NoPpnPart(m, pa);
    }
  }

  lemma {:induction false} NoPpnPart(m: Mode, pa: nat)
    ensures PpnPart(m, pa, NumLevels(m)) == 0
  {
  }

  /** All address fields together: the page number below 2^44, from bit 10 on. */
  lemma {:induction false} PlacePpnIs(m: Mode, pte: nat, pa: nat)
    requires forall k :: 0 <= k < NumLevels(m) ==> ExtractBits(pte, PtePpnBits(m)[k]) == 0
    ensures PlacePpn(m, pte, pa, 0) == pte + pa % 0x100_0000_0000_0000 / 0x1000 * 0x400
  {
    hide ExtractBits, PlacePpn, Pow2, Low;
    PlacePpnAdds(m, pte, pa, 0);
    PpnFields(m, 0);
    PageOfIs(pa);
  }

  lemma {:induction false} PageOfIs(pa: nat)
    ensures PageOf(pa) == pa % 0x100_0000_0000_0000 / 0x1000 * 0x1000
  {
    hide Pow2, Low;
    LargePowers();
    ShiftRightIs(pa, 56);
    LowOfLow(pa, 12, 56);
    LowTwelve(Low(pa, 56));
  }

  /** A field of bits n and up, as quotient and remainder. */
  lemma {:induction false} FieldIs(value: nat, r: BitRange)
    requires r.Valid()
    ensures ExtractBits(value, r) == value / Pow2(r.lsb) % Pow2(r.Width())
  {
    ExtractIs(value, r);
    ShiftRightIs(value, r.lsb);
    ShiftRightIs(ShiftRight(value, r.lsb), r.Width());
  }

  /** A field above the top bit of a value is zero. */
  lemma {:induction false} FieldAbove(value: nat, r: BitRange, n: nat)
    requires r.Valid() && value < Pow2(n) && n <= r.lsb
    ensures ExtractBits(value, r) == 0
  {
    Pow2Monotone(n, r.lsb);
    LowSmall(value, r.lsb);
    ExtractIs(value, r);
    LowSmall(0, r.Width());
  }

  /** Placing a field above the top bit of a value adds the shifted bits. */
  lemma {:induction false} PlaceAbove(value: nat, bits: nat, r: BitRange, n: nat)
    requires r.Valid() && value < Pow2(n) && n <= r.lsb && bits < Pow2(r.Width())
    ensures PlaceBits(value, bits, r) == value + bits * Pow2(r.lsb)
  {
    FieldAbove(value, r, n);
    PlaceInZero(value, bits, r);
    ShiftLeftIs(bits, r.lsb);
  }

  /** The user bit of a leaf: the one asked for, zero if none is. */
  function UserBit(t: Attributes): Bit { if t.umode.Some? then t.umode.value else 0 }

  lemma {:induction false} LeafFlagsAre(t: Attributes)
    ensures LeafFlags(t) == t.valid + 2 * t.xwr + 16 * UserBit(t) + 0xC0 + t.pbmt.Encoding() * 0x2000_0000_0000_0000
  {
    hide PlaceBits, ExtractBits, Pow2;
    FlagPowers();
    var v0 := PlaceBits(0, 1, VALID);
    PlaceAbove(0, 1, VALID, 0);
    var v := PlaceBits(v0, t.xwr, XWR);
    PlaceAbove(v0, t.xwr, XWR, 1);
    var u := if t.umode.Some? then PlaceBits(v, t.umode.value, UMODE) else v;
    if t.umode.Some? {
      PlaceAbove(v, t.umode.value, UMODE, 4);
    }
    var a := PlaceBits(u, 1, ACCESSED);
    PlaceAbove(u, 1, ACCESSED, 6);
    var d := PlaceBits(a, 1, DIRTY);
    PlaceAbove(a, 1, DIRTY, 7);
    var p := PlaceBits(d, t.pbmt.Encoding(), PBMT);
    PlaceAbove(d, t.pbmt.Encoding(), PBMT, 8);
    PlaceLowest(p, t.valid, VALID);
    ShiftRightIs(p, 1);
  }

  lemma {:induction false} FlagPowers()
    ensures Pow2(0) == 1 && Pow2(1) == 2 && Pow2(2) == 4 && Pow2(3) == 8 && Pow2(4) == 16
    ensures Pow2(6) == 64 && Pow2(7) == 128 && Pow2(8) == 256 && Pow2(10) == 1024
    ensures Pow2(61) == 0x2000_0000_0000_0000
  {
    LargePowers();
  }

  /** A leaf entry as a number: V at 1, R, W and X from 2 on, U at 16, A at 64, D at 128, the page
      number from 2^10 on and the memory type from 2^61 on. */
  lemma {:induction false} LeafIs(m: Mode, pa: nat, t: Attributes)
    ensures var pbmt := match t.pbmt case PMA => 0 case NC => 1 case IO => 2;
            && LeafPte(m, pa, t) == t.valid + 2 * t.xwr + 16 * UserBit(t) + 64 + 128
                                    + pa % 0x100_0000_0000_0000 / 0x1000 * 0x400
                                    + pbmt * 0x2000_0000_0000_0000
  {
    hide ExtractBits, PlacePpn, Pow2, LeafFlags;
    LeafFlagsAre(t);
    forall k | 0 <= k < NumLevels(m)
      ensures ExtractBits(LeafFlags(t), PtePpnBits(m)[k]) == 0
    {
      NoPpnInFlags(m, t, k);
    }
    PlacePpnIs(m, LeafFlags(t), pa);
  }

  lemma {:induction false} NoPpnInFlags(m: Mode, t: Attributes, k: nat)
    requires k < NumLevels(m)
    ensures ExtractBits(LeafFlags(t), PtePpnBits(m)[k]) == 0
  {
    hide PlaceBits, ExtractBits, Pow2, LeafFlags;
    var r := PtePpnBits(m)[k];
    FlagPowers();
    PpnFields(m, k);
    LeafFlagsAre(t);
    var low := t.valid + 2 * t.xwr + 16 * UserBit(t) + 0xC0;
    PlaceAbove(low, t.pbmt.Encoding(), PBMT, 8);
    ExtractOther(low, t.pbmt.Encoding(), PBMT, r);
    FieldAbove(low, r, 8);
  }

  /** An entry that points to a table as a number. */
  lemma {:induction false} NonLeafIs(m: Mode, pa: nat)
    ensures NonLeafPte(m, pa) == 1 + pa % 0x100_0000_0000_0000 / 0x1000 * 0x400
  {
    hide PlaceBits, ExtractBits, PlacePpn, Pow2;
    FlagPowers();
    PlaceAbove(0, 1, VALID, 0);
    forall k | 0 <= k < NumLevels(m)
      ensures ExtractBits(PlaceBits(0, 1, VALID), PtePpnBits(m)[k]) == 0
    {
      PpnFields(m, k);
      FieldAbove(1, PtePpnBits(m)[k], 1);
    }
    PlacePpnIs(m, PlaceBits(0, 1, VALID), pa);
  }

  /** What a walker reads from an entry, as numbers. */
  lemma {:induction false} ReadFieldsAre(m: Mode, pte: nat)
    ensures ReadFields(m, pte)
         == Fields(pte % 2, pte / 2 % 8, pte / 64 % 2, pte / 128 % 2, pte / 0x2000_0000_0000_0000 % 4,
                   pte / 0x400 % 0x1000_0000_0000 * 0x1000)
  {
    hide ExtractBits, Pow2, PteAddress;
    FlagPowers();
    FieldIs(pte, VALID);
    FieldIs(pte, XWR);
    FieldIs(pte, ACCESSED);
    FieldIs(pte, DIRTY);
    FieldIs(pte, PBMT);
    PteAddressIs(m, pte);
  }

  lemma {:induction false} PteAddressIs(m: Mode, pte: nat)
    ensures PteAddress(m, pte) == pte / 0x400 % 0x1000_0000_0000 * 0x1000
  {
    hide ExtractBits, Pow2, PlaceBits, GatherPpn, Low, ShiftRight;
    forall k | 0 <= k < NumLevels(m)
      ensures ExtractBits(pte, PtePpnBits(m)[k]) == ExtractBits(4 * pte, PaPpnBits(m)[k])
      ensures ExtractBits(0, PaPpnBits(m)[k]) == 0
    {
      PpnFields(m, k);
      ExtractIs(pte, PtePpnBits(m)[k]);
      ExtractIs(4 * pte, PaPpnBits(m)[k]);
      ShiftRightFour(pte, PtePpnBits(m)[k].lsb);
      ExtractZero(PaPpnBits(m)[k]);
    }
    GatherPpnIs(m, 0, pte, 4 * pte, 0);
    PpnFields(m, 0);
    PageOfHigh(pte);
  }

  lemma {:induction false} ShiftRightFour(x: nat, n: nat)
    ensures ShiftRight(4 * x, n + 2) == ShiftRight(x, n)
  {
    ShiftRightTwice(4 * x, 2, n);
    assert 4 * x / 2 / 2 == x;
  }

  lemma {:induction false} PageOfHigh(pte: nat)
    ensures PageOf(4 * pte) == pte / 0x400 % 0x1000_0000_0000 * 0x1000
  {
    hide Low, Pow2, ShiftRight;
    var x := 4 * pte;
    FlagPowers();
    LargePowers();
    LowSplit(x, 12, 44);
    ShiftRightFour(pte, 10);
    ShiftRightIs(pte, 10);
    ShiftRightIs(pte / 0x400, 44);
    ShiftLeftIs(Low(pte / 0x400, 44), 12);
    PageSizePowers();
  }
}
