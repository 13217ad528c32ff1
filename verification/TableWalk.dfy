/** The generator's own walker: section 4.3.2 of the RISC-V privileged architecture,
    read from a sparse memory of page-table entries. */
module TableWalk {
  import opened Bits
  import opened Modes
  import opened Pte
  import opened Wrappers

  datatype FaultReason =
    | NotPresent | NotValid | ReservedXwr
    | NonLeafAccessed | NonLeafDirty | OutOfLevels
    | NextStage

  datatype WalkResult = Translated(pa: nat) | Fault(reason: FaultReason, level: nat)

  function PteAddressAt(m: Mode, a: nat, va: nat, level: nat): nat
    requires level < NumLevels(m)
  {
    a + Idx(m, va, level) * PTE_SIZE
  }

  /** Writable but not readable: bit 0 is R, bit 1 is W, bit 2 is X. */
  predicate Reserved(xwr: nat) { xwr % 4 == 2 }

  /** Masks 6 and 1 of the permission field: some permission is set. */
  predicate LeafPermissions(xwr: nat) { xwr / 2 % 4 != 0 || xwr % 2 != 0 }

  /** What a walk does with one entry: stop with a result, or go on at the next level. */
  datatype Step = Stop(result: WalkResult) | Descend(a: nat)

  function WalkStep(m: Mode, f: Fields, level: nat, va: nat): (s: Step)
    requires level < NumLevels(m)
    ensures s.Descend? ==> level + 1 < NumLevels(m)
  {
    if f.valid == 0 then Stop(Fault(NotValid, level))
    else if Reserved(f.xwr) then Stop(Fault(ReservedXwr, level))
    else if LeafPermissions(f.xwr) then Stop(Translated(f.address + PageOffset(m, va, level)))
    else if f.accessed != 0 then Stop(Fault(NonLeafAccessed, level))
    else if f.dirty != 0 then Stop(Fault(NonLeafDirty, level))
    else if level + 1 >= NumLevels(m) then Stop(Fault(OutOfLevels, level + 1))
    else Descend(f.address)
  }

  function WalkFrom(m: Mode, mem: map<nat, nat>, a: nat, level: nat, va: nat): WalkResult
    requires level < NumLevels(m)
    decreases NumLevels(m) - level
  {
    var address := PteAddressAt(m, a, va, level);
    if address !in mem then Fault(NotPresent, level)
    else
      match WalkStep(m, ReadFields(m, mem[address]), level, va)
      case Stop(r) => r
      case Descend(next) => WalkFrom(m, mem, next, level + 1, va)
  }

  /** The addresses the generator's walk reads. */
  function Visited(m: Mode, mem: map<nat, nat>, a: nat, level: nat, va: nat): (s: seq<nat>)
    requires level < NumLevels(m)
    ensures 1 <= |s| <= NumLevels(m) - level
    decreases NumLevels(m) - level
  {
    var address := PteAddressAt(m, a, va, level);
    if address in mem && WalkStep(m, ReadFields(m, mem[address]), level, va).Descend?
    then [address] + Visited(m, mem, ReadFields(m, mem[address]).address, level + 1, va)
    else [address]
  }

  /** The address of the entry a walk ends at. */
  function FinalEntry(m: Mode, mem: map<nat, nat>, a: nat, level: nat, va: nat): nat
    requires level < NumLevels(m)
  {
    var v := Visited(m, mem, a, level, va);
    v[|v| - 1]
  }

  // ---------------------------------------------------------------- one step

  /** What a leaf with these attributes translates to. */
  function LeafResult(m: Mode, page: nat, t: Attributes, level: nat, va: nat): WalkResult
    requires level < NumLevels(m)
  {
    if t.valid == 0 then Fault(NotValid, level)
    else if t.xwr == 0 then Fault(NonLeafAccessed, level)
    else Translated(page + PageOffset(m, va, level))
  }

  lemma {:induction false} StepAtLeaf(m: Mode, page: nat, t: Attributes, level: nat, va: nat)
    requires level < NumLevels(m) && t.xwr != 2 && t.xwr != 6
    ensures WalkStep(m, LeafFields(page, t), level, va) == Stop(LeafResult(m, page, t, level, va))
  {
    hide PageOffset;
  }

  lemma {:induction false} StepAtNonLeaf(m: Mode, page: nat, level: nat, va: nat)
    requires level + 1 < NumLevels(m)
    ensures WalkStep(m, NonLeafFields(page), level, va) == Descend(page)
  {
    hide PageOffset;
  }

  /** The same step in terms of the entry's bits and the page's size: section 4.3.2, items 3 to 5,
      with the generator's demand that A and D are clear in an entry that points to a table. */
  lemma {:induction false} StepIs(m: Mode, pte: nat, level: nat, va: nat)
    requires level < NumLevels(m)
    ensures var r, w, x := pte / 2 % 2, pte / 4 % 2, pte / 8 % 2;
            var page := pte / 0x400 % 0x1000_0000_0000 * 0x1000;
            var offset := va % Pow2(12 + 9 * (NumLevels(m) - 1 - level));
            && WalkStep(m, ReadFields(m, pte), level, va)
               == (if pte % 2 == 0 then Stop(Fault(NotValid, level))
                   else if r == 0 && w == 1 then Stop(Fault(ReservedXwr, level))
                   else if r == 1 || x == 1 then Stop(Translated(page + offset))
                   else if pte / 64 % 2 == 1 then Stop(Fault(NonLeafAccessed, level))
                   else if pte / 128 % 2 == 1 then Stop(Fault(NonLeafDirty, level))
                   else if level + 1 == NumLevels(m) then Stop(Fault(OutOfLevels, level + 1))
                   else Descend(page))
  {
    hide ReadFields, PageOffset, Pow2, Span, VaSpan, PageSizes, Idx, Reserved, LeafPermissions;
    ReadFieldsAre(m, pte);
    PageOffsetIs(m, va, level);
    SpanIsSize(m, level);
    IndexIs(m, va, level);
    PermissionBits(pte);
  }

  /** The two tests of the permission field, on its bits. */
  lemma {:induction false} PermissionBits(pte: nat)
    ensures var xwr, r, w, x := pte / 2 % 8, pte / 2 % 2, pte / 4 % 2, pte / 8 % 2;
            && (Reserved(xwr) <==> r == 0 && w == 1)
            && (LeafPermissions(xwr) <==> r == 1 || w == 1 || x == 1)
  {
    var n := pte / 2;
    Halves(pte);
    Halves(n);
    ThreeBits(n % 2, n / 2 % 2, n / 4 % 2);
  }

  lemma {:induction false} Halves(n: nat)
    ensures n / 4 == n / 2 / 2 && n / 8 == n / 4 / 2
    ensures n % 8 == n % 2 + 2 * (n / 2 % 2) + 4 * (n / 4 % 2)
  {
    var a := n / 2;
    var b := a / 2;
    DivModUnique(n, 4, b, 2 * (a % 2) + n % 2);
    DivModUnique(n, 8, b / 2, 4 * (b % 2) + 2 * (a % 2) + n % 2);
  }

  lemma {:induction false} ThreeBits(r: nat, w: nat, x: nat)
    requires r < 2 && w < 2 && x < 2
    ensures Reserved(r + 2 * w + 4 * x) <==> r == 0 && w == 1
    ensures LeafPermissions(r + 2 * w + 4 * x) <==> r == 1 || w == 1 || x == 1
  {
  }

  lemma {:induction false} SpanIsSize(m: Mode, l: nat)
    requires l < NumLevels(m)
    ensures Span(m, l) == PageSizes(m)[l]
  {
  }

  // ---------------------------------------------------------------- stages

  /** A stage's tables, and the stage that translates the addresses of its entries, if any. */
  datatype Stage = Stage(mode: Mode, mem: map<nat, nat>, start: nat, next: Option<Stage>)

  /** The walk of a stage: each entry's address must translate in the next stage before it is read. */
  function StageWalk(s: Stage, a: nat, level: nat, va: nat): WalkResult
    requires level < NumLevels(s.mode)
    decreases s, NumLevels(s.mode) - level
  {
    var address := PteAddressAt(s.mode, a, va, level);
    if s.next.Some? && StageWalk(s.next.value, s.next.value.start, 0, address).Fault? then Fault(NextStage, level)
    else if address !in s.mem then Fault(NotPresent, level)
    else
      match WalkStep(s.mode, ReadFields(s.mode, s.mem[address]), level, va)
      case Stop(r) => r
      case Descend(next) => StageWalk(s, next, level + 1, va)
  }

  /** Without a next stage it is the walk of the one stage. */
  lemma {:induction false} LastStage(s: Stage, a: nat, level: nat, va: nat)
    requires s.next.None? && level < NumLevels(s.mode)
    ensures StageWalk(s, a, level, va) == WalkFrom(s.mode, s.mem, a, level, va)
    decreases NumLevels(s.mode) - level
  {
    hide ReadFields, WalkStep, PteAddressAt;
    var address := PteAddressAt(s.mode, a, va, level);
    if address in s.mem {
      match WalkStep(s.mode, ReadFields(s.mode, s.mem[address]), level, va)
      case Stop(_) =>
      case Descend(next) => LastStage(s, next, level + 1, va);
    }
  }

  /** The loop of the generator's walker computes it, calling itself for the next stage. */
  method TranslateStage(s: Stage, va: nat) returns (r: WalkResult)
    ensures r == StageWalk(s, s.start, 0, va)
    decreases s
  {
    hide ReadFields, PageOffset, Idx;
    var m, mem := s.mode, s.mem;
    var a: nat, level: nat := s.start, 0;
    while true
      invariant level < NumLevels(m)
      invariant StageWalk(s, s.start, 0, va) == StageWalk(s, a, level, va)
      decreases NumLevels(m) - level
    {
      var address := PteAddressAt(m, a, va, level);
      if s.next.Some? {
        var entry := TranslateStage(s.next.value, address);
        if entry.Fault? {
          return Fault(NextStage, level);
        }
      }
      if address !in mem {
        return Fault(NotPresent, level);
      }
      var f := ExtractFields(m, mem[address]);
      if f.valid == 0 {
        return Fault(NotValid, level);
      }
      if f.xwr % 4 == 2 {
        return Fault(ReservedXwr, level);
      }
      if f.xwr / 2 % 4 != 0 || f.xwr % 2 != 0 {
        break;
      } else if f.accessed != 0 {
        return Fault(NonLeafAccessed, level);
      } else if f.dirty != 0 {
        return Fault(NonLeafDirty, level);
      }
      if level + 1 >= NumLevels(m) {
        return Fault(OutOfLevels, level + 1);
      }
      a, level := f.address, level + 1;
    }
    var leaf := ExtractFields(m, mem[PteAddressAt(m, a, va, level)]);
    r := Translated(leaf.address + PageOffset(m, va, level));
  }

  method ExtractFields(m: Mode, pte: nat) returns (f: Fields)
    ensures f == ReadFields(m, pte)
  {
    var a := 0;
    for id := 0 to NumLevels(m)
      invariant GatherPpn(m, a, pte, id) == PteAddress(m, pte)
    {
      var ppn := ExtractBits(pte, PtePpnBits(m)[id]);
      a := PlaceBits(a, ppn, PaPpnBits(m)[id]);
    }
    f := Fields(ExtractBits(pte, VALID), ExtractBits(pte, XWR), ExtractBits(pte, ACCESSED),
                ExtractBits(pte, DIRTY), ExtractBits(pte, PBMT), a);
  }
}
