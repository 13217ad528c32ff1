/** The target's own walker, in 64-bit arithmetic over memory that is total: it re-implements the
    generator's walk, keeps a trace of the entries it reads, and adds only the 4K page offset. */
module CWalk {
  import opened Bits
  import opened Modes
  import opened Pte
  import opened TableWalk

  const MAX_NUM_PAGE_TABLE_LEVELS: nat := 4
  const BARE: nat := 0

  predicate IsWord(x: nat) { x < Pow2(64) }

  /** A 64-bit result: the low 64 bits. */
  function Word(x: nat): nat { Low(x, 64) }

  /** place_bits on 64-bit words: the shifted mask and the shifted bits lose what leaves the word. */
  function PlaceWordBits(value: nat, bits: nat, r: BitRange): nat
    requires r.Valid()
  {
    Or(AndNot(value, Word(ShiftLeft(Mask(r.Width()), r.lsb))), Word(ShiftLeft(bits, r.lsb)))
  }

  lemma {:induction false} PlaceWordBitsIs(value: nat, bits: nat, r: BitRange)
    requires r.Valid() && r.msb < 64 && bits < Pow2(r.Width())
    ensures PlaceWordBits(value, bits, r) == PlaceBits(value, bits, r)
  {
    hide And, Or, AndNot, Low, Pow2, ShiftLeft;
    var w := r.Width();
    ShiftOne(w);
    ShiftedBelow(Mask(w), w, r.lsb);
    ShiftedBelow(bits, w, r.lsb);
    Pow2Monotone(w + r.lsb, 64);
    LowSmall(ShiftLeft(Mask(w), r.lsb), 64);
    LowSmall(ShiftLeft(bits, r.lsb), 64);
  }

  lemma {:induction false} ShiftedBelow(x: nat, w: nat, n: nat)
    requires x < Pow2(w)
    ensures ShiftLeft(x, n) < Pow2(w + n)
  {
    if n > 0 {
      ShiftedBelow(x, w, n - 1);
    }
  }

  /** The memory a load sees: what the generator emitted, zero elsewhere. What memory really holds
      elsewhere does not matter to a walk of built tables: see NestedWalk.OnlyTheTablesMatter. */
  function Load(mem: map<nat, nat>, address: nat): nat {
    if address in mem then mem[address] else 0
  }

  /** How a call ends: it returns with or without success, or it stops the diagnostic. */
  datatype Outcome = Success | NotMapped | Failed

  datatype Walk = Walk(outcome: Outcome, pa: nat, addresses: seq<nat>, values: seq<nat>, pbmt: nat)

  /** The generator's address arithmetic, carried out in 64-bit words. */
  function WordPteAddressAt(m: Mode, a: nat, va: nat, level: nat): nat
    requires level < NumLevels(m)
  {
    Word(a + Word(Idx(m, va, level) * PTE_SIZE))
  }

  function GatherWordPpn(m: Mode, a: nat, pte: nat, id: nat): nat
    requires id <= NumLevels(m)
    decreases NumLevels(m) - id
  {
    if id == NumLevels(m) then a
    else
      var ppn := ExtractBits(pte, PtePpnBits(m)[id]);
      GatherWordPpn(m, PlaceWordBits(a, ppn, PaPpnBits(m)[id]), pte, id + 1)
  }

  /** The walk from a table, after the entries already in the trace. */
  function WalkWords(m: Mode, mem: map<nat, nat>, a: nat, level: nat, va: nat): (w: Walk)
    requires level < NumLevels(m)
    ensures 1 <= |w.addresses| == |w.values| <= NumLevels(m) - level
    decreases NumLevels(m) - level
  {
    var address := WordPteAddressAt(m, a, va, level);
    var pte := Load(mem, address);
    var xwr := ExtractBits(pte, XWR);
    var next := GatherWordPpn(m, 0, pte, 0);
    if ExtractBits(pte, VALID) == 0 then Walk(NotMapped, 0, [address], [pte], 0)
    else if Reserved(xwr) then Walk(Failed, 0, [address], [pte], 0)
    else if LeafPermissions(xwr) then
      Walk(Success, Word(next + ExtractBits(va, BitRange(11, 0))), [address], [pte], ExtractBits(pte, PBMT))
    else if ExtractBits(pte, ACCESSED) != 0 || ExtractBits(pte, DIRTY) != 0 || level + 1 >= NumLevels(m) then
      Walk(Failed, 0, [address], [pte], 0)
    else
      var rest := WalkWords(m, mem, next, level + 1, va);
      rest.(addresses := [address] + rest.addresses, values := [pte] + rest.values)
  }

  // ---------------------------------------------------------------- the words stay in range

  lemma {:induction false} GatherWordPpnIs(m: Mode, a: nat, pte: nat, id: nat)
    requires id <= NumLevels(m) && a < Pow2(56)
    ensures GatherWordPpn(m, a, pte, id) == GatherPpn(m, a, pte, id) < Pow2(56)
    decreases NumLevels(m) - id
  {
    hide PlaceBits, PlaceWordBits, ExtractBits, Pow2;
    if id < NumLevels(m) {
      var ppn, r := ExtractBits(pte, PtePpnBits(m)[id]), PaPpnBits(m)[id];
      PpnFields(m, id);
      ExtractIs(pte, PtePpnBits(m)[id]);
      PlaceWordBitsIs(a, ppn, r);
      PlaceBound(a, ppn, r, 56);
      GatherWordPpnIs(m, PlaceBits(a, ppn, r), pte, id + 1);
    }
  }

  lemma {:induction false} SmallIsWord(x: nat)
    requires x < 2 * Pow2(56)
    ensures Word(x) == x
  {
    hide Low;
    Pow2Monotone(57, 64);
    assert Pow2(57) == 2 * Pow2(56);
    LowSmall(x, 64);
  }

  lemma {:induction false} Sixteen()
    ensures Pow2(16) == 0x1_0000 && Pow2(16) <= Pow2(56)
  {
    Pow2Monotone(16, 56);
    assert Pow2(8) == 0x100;
    assert Pow2(12) == 0x1000;
  }

  lemma {:induction false} WordPteAddressIs(m: Mode, a: nat, va: nat, level: nat)
    requires level < NumLevels(m) && a < Pow2(56)
    ensures WordPteAddressAt(m, a, va, level) == PteAddressAt(m, a, va, level)
  {
    hide Idx, Low, Pow2, Word;
    TableHoldsIndices(m, level, va);
    Sixteen();
    SmallIsWord(Idx(m, va, level) * PTE_SIZE);
    SmallIsWord(a + Idx(m, va, level) * PTE_SIZE);
  }

  /** The 4K offset of an address. */
  lemma {:induction false} SmallOffset(va: nat)
    ensures ExtractBits(va, BitRange(11, 0)) == Low(va, 12) == va % SIZE_4K < SIZE_4K
  {
    hide Low, Pow2;
    PageSizePowers();
    LowField(va, 12);
  }

  lemma {:induction false} MemoryType(pte: nat)
    ensures ExtractBits(pte, PBMT) == pte / 0x2000_0000_0000_0000 % 4
  {
    hide ExtractBits, Pow2;
    FlagPowers();
    FieldIs(pte, PBMT);
  }

  // ---------------------------------------------------------------- the two walkers agree

  /** One entry: both walkers read it alike. */
  lemma {:induction false} SameEntry(m: Mode, mem: map<nat, nat>, a: nat, level: nat, va: nat)
    requires level < NumLevels(m) && a < Pow2(56)
    ensures WordPteAddressAt(m, a, va, level) == PteAddressAt(m, a, va, level)
    ensures var pte := Load(mem, PteAddressAt(m, a, va, level));
            GatherWordPpn(m, 0, pte, 0) == PteAddress(m, pte) < Pow2(56)
    ensures PteAddressAt(m, a, va, level) !in mem ==>
              ExtractBits(Load(mem, PteAddressAt(m, a, va, level)), VALID) == 0
  {
    hide Idx, Pow2, ExtractBits;
    WordPteAddressIs(m, a, va, level);
    GatherWordPpnIs(m, 0, Load(mem, PteAddressAt(m, a, va, level)), 0);
    ExtractZero(VALID);
  }

  /** What the two walks of one address from one table have in common: they read the same entries,
      and one succeeds exactly when the other does. The addresses they give differ by the part of
      the offset above 4K, which the target drops. The memory type is that of the last entry. */
  ghost predicate Agree(m: Mode, mem: map<nat, nat>, va: nat, level: nat, c: Walk, py: WalkResult, visited: seq<nat>) {
    && (c.outcome == Success <==> py.Translated?)
    && (c.outcome == NotMapped <==> py.Fault? && (py.reason == NotPresent || py.reason == NotValid))
    && c.addresses == visited
    && |c.values| == |c.addresses| >= 1
    && (forall k :: 0 <= k < |c.values| ==> c.values[k] == Load(mem, c.addresses[k]))
    && (py.Translated? ==>
          && level + |visited| <= NumLevels(m)
          && py.pa - c.pa == PageOffset(m, va, level + |visited| - 1) - va % SIZE_4K
          && c.pbmt == c.values[|c.values| - 1] / 0x2000_0000_0000_0000 % 4)
  }

  lemma {:induction false} AgreeOnward(m: Mode, mem: map<nat, nat>, va: nat, level: nat, c: Walk, py: WalkResult,
                    visited: seq<nat>, address: nat)
    requires Agree(m, mem, va, level + 1, c, py, visited)
    ensures Agree(m, mem, va, level,
                  c.(addresses := [address] + c.addresses, values := [Load(mem, address)] + c.values),
                  py, [address] + visited)
  {
    hide PageOffset, Load;
  }

  /** Where the walks stop, they stop alike. */
  lemma {:induction false} AgreeAtStop(m: Mode, mem: map<nat, nat>, a: nat, level: nat, va: nat)
    requires level < NumLevels(m) && a < Pow2(56)
    requires !WalkStep(m, ReadFields(m, Load(mem, PteAddressAt(m, a, va, level))), level, va).Descend?
    ensures Agree(m, mem, va, level, WalkWords(m, mem, a, level, va), WalkFrom(m, mem, a, level, va),
                  Visited(m, mem, a, level, va))
  {
    hide Idx, ExtractBits, PteAddress, GatherWordPpn, Pow2, PageOffset, WordPteAddressAt, PteAddressAt, Word;
    SameEntry(m, mem, a, level, va);
    SmallOffset(va);
    MemoryType(Load(mem, PteAddressAt(m, a, va, level)));
    var next := PteAddress(m, Load(mem, PteAddressAt(m, a, va, level)));
    Pow2Monotone(12, 56);
    PageSizePowers();
    SmallIsWord(next + va % SIZE_4K);
  }

  lemma {:induction false} AgreeAtDescent(m: Mode, mem: map<nat, nat>, a: nat, level: nat, va: nat, next: nat)
    requires level < NumLevels(m) && a < Pow2(56)
    requires WalkStep(m, ReadFields(m, Load(mem, PteAddressAt(m, a, va, level))), level, va) == Descend(next)
    ensures level + 1 < NumLevels(m) && next < Pow2(56)
    ensures var address, rest := PteAddressAt(m, a, va, level), WalkWords(m, mem, next, level + 1, va);
            WalkWords(m, mem, a, level, va)
            == rest.(addresses := [address] + rest.addresses, values := [Load(mem, address)] + rest.values)
    ensures WalkFrom(m, mem, a, level, va) == WalkFrom(m, mem, next, level + 1, va)
    ensures Visited(m, mem, a, level, va)
         == [PteAddressAt(m, a, va, level)] + Visited(m, mem, next, level + 1, va)
  {
    hide Idx, ExtractBits, PteAddress, GatherWordPpn, Pow2, PageOffset, WordPteAddressAt, PteAddressAt;
    SameEntry(m, mem, a, level, va);
  }

  /** A walk depends only on the entries it reads. */
  lemma {:induction false} SameWords(m: Mode, mem: map<nat, nat>, ram: map<nat, nat>, a: nat, level: nat, va: nat)
    requires level < NumLevels(m) && a < Pow2(56)
    requires forall x :: x in Visited(m, mem, a, level, va) ==> Load(ram, x) == Load(mem, x)
    ensures WalkWords(m, ram, a, level, va) == WalkWords(m, mem, a, level, va)
    decreases NumLevels(m) - level
  {
    hide WalkWords, WalkFrom, WalkStep, ReadFields, PteAddressAt, Pow2, Load;
    var address := PteAddressAt(m, a, va, level);
    assert Visited(m, mem, a, level, va)[0] == address;
    assert Load(ram, address) == Load(mem, address);
    match WalkStep(m, ReadFields(m, Load(mem, address)), level, va) {
      case Stop(_) =>
        SameStop(m, mem, ram, a, level, va);
      case Descend(next) =>
        AgreeAtDescent(m, mem, a, level, va, next);
        AgreeAtDescent(m, ram, a, level, va, next);
        SameWords(m, mem, ram, next, level + 1, va);
    }
  }

  lemma {:induction false} SameStop(m: Mode, mem: map<nat, nat>, ram: map<nat, nat>, a: nat, level: nat, va: nat)
    requires level < NumLevels(m) && a < Pow2(56)
    requires Load(ram, PteAddressAt(m, a, va, level)) == Load(mem, PteAddressAt(m, a, va, level))
    requires !WalkStep(m, ReadFields(m, Load(mem, PteAddressAt(m, a, va, level))), level, va).Descend?
    ensures WalkWords(m, ram, a, level, va) == WalkWords(m, mem, a, level, va)
  {
    hide Idx, ExtractBits, PteAddress, GatherWordPpn, Pow2, PageOffset, WordPteAddressAt, PteAddressAt, Word, Load;
    SameEntry(m, mem, a, level, va);
  }

  /** The two walkers agree. */
  lemma {:induction false} WalkersAgree(m: Mode, mem: map<nat, nat>, a: nat, level: nat, va: nat)
    requires level < NumLevels(m) && a < Pow2(56)
    ensures Agree(m, mem, va, level, WalkWords(m, mem, a, level, va), WalkFrom(m, mem, a, level, va),
                  Visited(m, mem, a, level, va))
    decreases NumLevels(m) - level
  {
    hide Agree, WalkWords, WalkFrom, Visited, WalkStep, ReadFields, PteAddressAt, Pow2;
    var address := PteAddressAt(m, a, va, level);
    match WalkStep(m, ReadFields(m, Load(mem, address)), level, va) {
      case Stop(_) =>
        AgreeAtStop(m, mem, a, level, va);
      case Descend(next) =>
        AgreeAtDescent(m, mem, a, level, va, next);
        WalkersAgree(m, mem, next, level + 1, va);
        AgreeOnward(m, mem, va, level, WalkWords(m, mem, next, level + 1, va),
                    WalkFrom(m, mem, next, level + 1, va), Visited(m, mem, next, level + 1, va), address);
    }
  }

  /** The level of the entry a walk ends at. */
  function LastLevel(m: Mode, mem: map<nat, nat>, a: nat, va: nat): (l: nat)
    ensures l < NumLevels(m)
  {
    |Visited(m, mem, a, 0, va)| - 1
  }

  /** Bytes mapped by an entry of the level a walk ends at. */
  function LeafSpan(m: Mode, mem: map<nat, nat>, a: nat, va: nat): (s: nat)
    ensures s > 0
  {
    Geometry(m, LastLevel(m, mem, a, va));
    SpanIs(m, LastLevel(m, mem, a, va));
    Span(m, LastLevel(m, mem, a, va))
  }

  /** For a 4K leaf the two translations are the same; for a larger page they are the same exactly
      when the address lies in the first 4K of the page. */
  lemma {:induction false} SameTranslation(m: Mode, mem: map<nat, nat>, a: nat, va: nat)
    requires a < Pow2(56) && WalkFrom(m, mem, a, 0, va).Translated?
    ensures WalkWords(m, mem, a, 0, va).outcome == Success
    ensures WalkWords(m, mem, a, 0, va).pa == WalkFrom(m, mem, a, 0, va).pa
            <==> va % LeafSpan(m, mem, a, va) < SIZE_4K
    ensures LastLevel(m, mem, a, va) + 1 == NumLevels(m) ==>
              WalkWords(m, mem, a, 0, va).pa == WalkFrom(m, mem, a, 0, va).pa
  {
    hide WalkWords, WalkFrom, Pow2, PageOffset, Span, Visited;
    WalkersAgree(m, mem, a, 0, va);
    var leaf := LastLevel(m, mem, a, va);
    PageOffsetIs(m, va, leaf);
    OffsetWithin(m, va, leaf);
  }

  /** The offset in a page is at least the offset in its 4K part, and equal to it in the first. */
  lemma {:induction false} OffsetWithin(m: Mode, va: nat, l: nat)
    requires l < NumLevels(m)
    ensures Span(m, l) > 0
    ensures va % Span(m, l) == va % SIZE_4K <==> va % Span(m, l) < SIZE_4K
    ensures l + 1 == NumLevels(m) ==> va % Span(m, l) < SIZE_4K
  {
    hide Low, Pow2, Span, VaVpnBits, Lsb;
    Geometry(m, l);
    SpanIs(m, l);
    PageSizePowers();
    ShiftRightIs(va, Lsb(m, l));
    ShiftRightIs(va, 12);
    LowOfLow(va, 12, Lsb(m, l));
    var low := Low(va, Lsb(m, l));
    LowBound(va, 12);
    if low < SIZE_4K {
      LowSmall(low, 12);
    }
    if l + 1 == NumLevels(m) {
      assert Lsb(m, l) == 12;
    }
  }

  // ---------------------------------------------------------------- the walker itself

  /** The root table's address from the address-translation register: its low 44 bits name a page. */
  function RootOf(xatp: nat): nat { Word(ShiftLeft(Low(xatp, 44), 12)) }

  function ModeField(xatp: nat): nat { ShiftRight(xatp, 60) }

  /** What set-up code writes to the register. */
  function RegisterFor(mode: nat, start: nat): nat { ShiftLeft(mode, 60) + ShiftRight(start, 12) }

  /** The register that set-up code writes, the mode from bit 60 on and the page number below, names the
      tables' start. */
  lemma {:induction false} RegisterNamesRoot(mode: nat, start: nat)
    requires mode < 16 && start % SIZE_4K == 0 && start < Pow2(56)
    ensures RegisterFor(mode, start) == mode * 0x1000_0000_0000_0000 + start / 0x1000
    ensures RootOf(RegisterFor(mode, start)) == start && ModeField(RegisterFor(mode, start)) == mode
  {
    hide Low, Pow2, ShiftLeft, ShiftRight, Word;
    LargePowers();
    ShiftLeftIs(mode, 60);
    var ppn := ShiftRight(start, 12);
    PageSizePowers();
    ShiftRightIs(start, 12);
    ShiftRightTwice(start, 12, 44);
    LowSmall(start, 56);
    HighLow(start, 12);
    BelowWhenShiftedOut(ppn, 44);
    Pow2Monotone(44, 60);
    HighLowUnique(mode, ppn, 60);
    LowOfLow(RegisterFor(mode, start), 44, 60);
    LowSmall(ppn, 44);
    SmallIsWord(start);
  }

  lemma {:induction false} BelowWhenShiftedOut(x: nat, n: nat)
    requires ShiftRight(x, n) == 0
    ensures x < Pow2(n)
  {
    HighLow(x, n);
    ShiftLeftZero(n);
    LowBound(x, n);
  }

  /** The walk w is the trace so far followed by the walk `rest`. */
  ghost predicate Continues(w: Walk, rest: Walk, addresses: seq<nat>, values: seq<nat>) {
    && w.outcome == rest.outcome && w.pa == rest.pa && w.pbmt == rest.pbmt
    && w.addresses == addresses + rest.addresses
    && w.values == values + rest.values
  }

  /** The two cases of a walk: it ends with the entry it reads, or goes on at the next table. */
  lemma {:induction false} WalkWordsUnfold(m: Mode, mem: map<nat, nat>, a: nat, level: nat, va: nat)
    requires level < NumLevels(m)
    ensures var address := WordPteAddressAt(m, a, va, level);
            var pte := Load(mem, address);
            var xwr, w := ExtractBits(pte, XWR), WalkWords(m, mem, a, level, va);
            if ExtractBits(pte, VALID) == 0 then w == Walk(NotMapped, 0, [address], [pte], 0)
            else if Reserved(xwr) then w == Walk(Failed, 0, [address], [pte], 0)
            else if LeafPermissions(xwr) then
              w == Walk(Success, Word(GatherWordPpn(m, 0, pte, 0) + ExtractBits(va, BitRange(11, 0))),
                        [address], [pte], ExtractBits(pte, PBMT))
            else if ExtractBits(pte, ACCESSED) != 0 || ExtractBits(pte, DIRTY) != 0
                    || level + 1 >= NumLevels(m) then w == Walk(Failed, 0, [address], [pte], 0)
            else Continues(w, WalkWords(m, mem, GatherWordPpn(m, 0, pte, 0), level + 1, va), [address], [pte])
  {
    hide Idx, ExtractBits, GatherWordPpn, WordPteAddressAt, Reserved, LeafPermissions, Word, Load;
  }

  lemma {:induction false} ContinuesOn(w: Walk, rest: Walk, next: Walk, addresses: seq<nat>, values: seq<nat>,
                    address: nat, pte: nat)
    requires Continues(w, rest, addresses, values) && Continues(rest, next, [address], [pte])
    ensures Continues(w, next, addresses + [address], values + [pte])
  {
    assert addresses + ([address] + next.addresses) == (addresses + [address]) + next.addresses;
    assert values + ([pte] + next.values) == (values + [pte]) + next.values;
  }

  class TranslationInfo {
    var va: nat
    var pa: nat
    var pteAddress: seq<nat>
    var pteValue: seq<nat>
    var xatpMode: nat
    var levelsTraversed: nat
    var walkSuccessful: bool
    var pbmtMode: nat

    constructor ()
      ensures |pteAddress| == |pteValue| == MAX_NUM_PAGE_TABLE_LEVELS
    {
      va, pa, xatpMode, levelsTraversed, walkSuccessful, pbmtMode := 0, 0, 0, 0, false, 0;
      pteAddress, pteValue := [0, 0, 0, 0], [0, 0, 0, 0];
    }

    /** The trace holds nothing from this entry on. */
    predicate ZeroFrom(level: nat)
      requires |pteAddress| == |pteValue|
      reads this`pteAddress, this`pteValue
    {
      forall k :: level <= k < |pteAddress| ==> pteAddress[k] == 0 && pteValue[k] == 0
    }

    /** Empties the trace. */
    method Clear()
      modifies this`pteAddress, this`pteValue, this`levelsTraversed
      ensures levelsTraversed == 0
      ensures |pteAddress| == |pteValue| == MAX_NUM_PAGE_TABLE_LEVELS && ZeroFrom(0)
    {
      pteAddress, pteValue, levelsTraversed := [0, 0, 0, 0], [0, 0, 0, 0], 0;
    }

    /** Records one entry in the trace. */
    method Record(level: nat, address: nat, pte: nat)
      requires |pteAddress| == |pteValue| == MAX_NUM_PAGE_TABLE_LEVELS
      requires level < MAX_NUM_PAGE_TABLE_LEVELS && levelsTraversed == level && ZeroFrom(level)
      modifies this`pteAddress, this`pteValue, this`levelsTraversed
      ensures |pteAddress| == |pteValue| == MAX_NUM_PAGE_TABLE_LEVELS
      ensures levelsTraversed == level + 1
      ensures pteAddress[..level + 1] == old(pteAddress[..level]) + [address]
      ensures pteValue[..level + 1] == old(pteValue[..level]) + [pte]
      ensures ZeroFrom(level + 1)
    {
      pteAddress, pteValue := pteAddress[level := address], pteValue[level := pte];
      levelsTraversed := levelsTraversed + 1;
    }

    /** Fills in the record from a walk; the trace never needs more than its four entries. */
    method Translate(xatp: nat, m: Mode, va: nat, mem: map<nat, nat>) returns (outcome: Outcome)
      requires IsWord(xatp)
      modifies this
      ensures this.va == va && xatpMode == ModeField(xatp)
      ensures ModeField(xatp) == BARE ==> outcome == Success && pa == va && walkSuccessful && levelsTraversed == 0
      ensures ModeField(xatp) != BARE ==>
                var w := WalkWords(m, mem, RootOf(xatp), 0, va);
                && outcome == w.outcome
                && (walkSuccessful <==> w.outcome == Success)
                && levelsTraversed == |w.addresses|
                && levelsTraversed <= |pteAddress| == |pteValue| == MAX_NUM_PAGE_TABLE_LEVELS
                && pteAddress[..levelsTraversed] == w.addresses
                && pteValue[..levelsTraversed] == w.values
                && (outcome == Success ==> pa == w.pa && pbmtMode == w.pbmt)
                && (outcome != Success ==> pa == 0)
      ensures outcome != Success || ModeField(xatp) == BARE ==> pbmtMode == old(pbmtMode)
      ensures levelsTraversed <= |pteAddress| == |pteValue| && ZeroFrom(levelsTraversed)
    {
      hide Idx, ExtractBits, GatherWordPpn, WordPteAddressAt, Reserved, LeafPermissions, Low, Word,
           ShiftRight, ShiftLeft, RootOf, ModeField, Load, VaVpnBits, Pow2, WalkWords,
           ZeroFrom;
      xatpMode := ModeField(xatp);
      this.va, pa, walkSuccessful := va, 0, false;
      Clear();
      if xatpMode == BARE {
        pa, walkSuccessful := va, true;
        return Success;
      }
      var a: nat, level: nat := RootOf(xatp), 0;
      ghost var w := WalkWords(m, mem, RootOf(xatp), 0, va);
      while true
        invariant level < NumLevels(m) && levelsTraversed == level
        invariant this.va == va && xatpMode == ModeField(xatp) && !walkSuccessful && pa == 0
        invariant |pteAddress| == |pteValue| == MAX_NUM_PAGE_TABLE_LEVELS
        invariant ZeroFrom(level) && pbmtMode == old(pbmtMode)
        invariant Continues(w, WalkWords(m, mem, a, level, va), pteAddress[..level], pteValue[..level])
        decreases NumLevels(m) - level
      {
        var address := WordPteAddressAt(m, a, va, level);
        var pte := Load(mem, address);
        ghost var rest, addresses, values := WalkWords(m, mem, a, level, va), pteAddress[..level], pteValue[..level];
        WalkWordsUnfold(m, mem, a, level, va);
        Record(level, address, pte);
        if ExtractBits(pte, VALID) == 0 {
          return NotMapped;
        }
        var xwr := ExtractBits(pte, XWR);
        if Reserved(xwr) {
          return Failed;
        }
        a := GatherWordFields(m, pte);
        if LeafPermissions(xwr) {
          pbmtMode := ExtractBits(pte, PBMT);
          pa := Word(a + ExtractBits(va, BitRange(11, 0)));
          walkSuccessful := true;
          return Success;
        } else if ExtractBits(pte, ACCESSED) != 0 {
          return Failed;
        } else if ExtractBits(pte, DIRTY) != 0 {
          return Failed;
        }
        level := level + 1;
        if level >= NumLevels(m) {
          return Failed;
        }
        ContinuesOn(w, rest, WalkWords(m, mem, a, level, va), addresses, values, address, pte);
      }
    }
  }

  method GatherWordFields(m: Mode, pte: nat) returns (a: nat)
    ensures a == GatherWordPpn(m, 0, pte, 0)
  {
    hide PlaceWordBits, ExtractBits;
    a := 0;
    for id := 0 to NumLevels(m)
      invariant GatherWordPpn(m, a, pte, id) == GatherWordPpn(m, 0, pte, 0)
    {
      var ppn := ExtractBits(pte, PtePpnBits(m)[id]);
      a := PlaceWordBits(a, ppn, PaPpnBits(m)[id]);
    }
  }
}
