/** What built tables mean: a walk of them gives the translation the mappings ask for, and
    faults everywhere else. */
module PageTableMeaning {
  import opened Bits
  import opened Modes
  import opened Pte
  import opened TableWalk
  import opened PageTables
  import opened PageTableBuilder

  /** The page has the same page number as va at its own level. */
  predicate Covers(m: Mode, e: Entry, va: nat)
    requires Leaf(m, e) < NumLevels(m)
  {
    Slot(m, e.va, Leaf(m, e)) == Slot(m, va, Leaf(m, e))
  }

  /** The pool lies in the 56 bits of physical address an entry can hold. */
  predicate PoolInReach(start: nat, max: nat) { start + max * SIZE_4K <= Pow2(56) }

  lemma {:induction false} RootTable(m: Mode, start: nat, max: nat, pages: seq<Page>, va: nat)
    requires PagesOk(m, start, max, pages) && pages != []
    ensures Has(m, pages, va, 0) && TableOf(m, pages, va, 0).pa == start
  {
    hide StartVa;
    RootStart(m, va);
    assert PageOk(m, start, pages[0], 0);
    assert SameKey(pages[0], 0, StartVa(m, va, 0));
  }

  /** A table's address fits in an entry. */
  lemma {:induction false} TableInReach(m: Mode, start: nat, max: nat, pages: seq<Page>, va: nat, l: nat)
    requires PagesOk(m, start, max, pages) && PoolInReach(start, max) && Has(m, pages, va, l)
    ensures TableOf(m, pages, va, l).pa + TableOf(m, pages, va, l).size <= start + max * SIZE_4K
    ensures start <= TableOf(m, pages, va, l).pa < Pow2(56)
  {
    hide StartVa, Pow2;
    var i := FindPage(pages, l, StartVa(m, va, l));
    assert PageOk(m, start, pages[i], i);
    TableHoldsIndices(m, 0, va);
    TableHoldsIndices(m, l, va);
  }

  /** What a walk should read at level l of a page. */
  ghost function ExpectedFields(m: Mode, pages: seq<Page>, e: Entry, l: nat): Fields
    requires l < Leaf(m, e) ==> Has(m, pages, e.va, l + 1)
  {
    if l < Leaf(m, e) then NonLeafFields(TableOf(m, pages, e.va, l + 1).pa)
    else LeafFields(PageOf(e.pa), e.attrs)
  }

  /** The level-l entry of a built page, as a walk reads it: a pointer to the page's next table,
      or the leaf. The index offset the builder adds to a pointer is lost in the page number. */
  lemma {:induction false} BuiltEntryReads(m: Mode, start: nat, max: nat, pages: seq<Page>, mem: map<nat, nat>,
      e: Entry, l: nat)
    requires PagesOk(m, start, max, pages) && PoolInReach(start, max)
    requires Leaf(m, e) < NumLevels(m) && l <= Leaf(m, e) && EntryAt(m, pages, mem, e, l)
    ensures ReadFields(m, mem[AddressOf(m, pages, e.va, l)]) == ExpectedFields(m, pages, e, l)
  {
    hide StartVa, Idx, PagesOk, LeafPte, NonLeafPte, ReadFields, Pow2, PageOf;
    if l < Leaf(m, e) {
      var pa, off := TableOf(m, pages, e.va, l + 1).pa, Idx(m, e.va, l) * PTE_SIZE;
      NonLeafReads(m, pa + off);
      TableAligned(m, start, max, pages, e.va, l + 1);
      TableInReach(m, start, max, pages, e.va, l + 1);
      SlotStep(m, e.va, l);
      PageOfAligned(pa, off);
    } else {
      LeafReads(m, e.pa, e.attrs);
    }
  }

  lemma {:induction false} EntryIsThere(m: Mode, start: nat, max: nat, pages: seq<Page>, mem: map<nat, nat>,
      es: seq<Entry>, i: nat, l: nat)
    requires Tables(m, start, max, pages, mem, es) && i < |es| && l <= Leaf(m, es[i])
    ensures Leaf(m, es[i]) < NumLevels(m) && EntryAt(m, pages, mem, es[i], l)
    ensures Has(m, pages, es[i].va, l) && AddressOf(m, pages, es[i].va, l) in mem
    ensures l < Leaf(m, es[i]) ==> Has(m, pages, es[i].va, l + 1)
  {
    hide ValueOf, PagesOk, StartVa, Idx;
    assert WellFormed(m, es[i]);
    assert Done(m, es, |es|, 0, i, l);
  }

  /** The walk ends at an entry with this value. */
  predicate EndsAt(m: Mode, mem: map<nat, nat>, a: nat, l: nat, va: nat, pte: int)
    requires l < NumLevels(m)
  {
    FinalEntry(m, mem, a, l, va) in mem && mem[FinalEntry(m, mem, a, l, va)] == pte
  }

  /** From any table on a page's path, a walk for an address of the page ends at its leaf. */
  lemma {:induction false} WalkAlong(
    m: Mode, start: nat, max: nat, pages: seq<Page>, mem: map<nat, nat>, es: seq<Entry>,
    i: nat, va: nat, l: nat)
    requires Tables(m, start, max, pages, mem, es) && PoolInReach(start, max)
    requires i < |es| && WellFormed(m, es[i]) && l <= Leaf(m, es[i]) && Covers(m, es[i], va)
    requires Has(m, pages, es[i].va, l)
    ensures WalkFrom(m, mem, TableOf(m, pages, es[i].va, l).pa, l, va)
         == LeafResult(m, PageOf(es[i].pa), es[i].attrs, Leaf(m, es[i]), va)
    ensures |Visited(m, mem, TableOf(m, pages, es[i].va, l).pa, l, va)| == Leaf(m, es[i]) - l + 1
    ensures EndsAt(m, mem, TableOf(m, pages, es[i].va, l).pa, l, va, LeafPte(m, es[i].pa, es[i].attrs))
    decreases Leaf(m, es[i]) - l
  {
    hide StartVa, Idx, Slot, PagesOk, ReadFields, PageOffset, PageOf, PageSizes, Tables, EntryAt,
         WalkFrom, WalkStep, LeafResult, Visited, FinalEntry, LeafPte, NonLeafPte;
    var e := es[i];
    EntryIsThere(m, start, max, pages, mem, es, i, l);
    SlotPrefix(m, e.va, va, l, Leaf(m, e));
    TablesAreAllocated(m, start, max, pages, mem, es);
    BuiltEntryReads(m, start, max, pages, mem, e, l);
    var a := TableOf(m, pages, e.va, l).pa;
    WalkUnfold(m, mem, a, l, va);
    if l < Leaf(m, e) {
      StepAtNonLeaf(m, TableOf(m, pages, e.va, l + 1).pa, l, va);
      WalkAlong(m, start, max, pages, mem, es, i, va, l + 1);
    } else {
      StepAtLeaf(m, PageOf(e.pa), e.attrs, l, va);
      LeafIsStored(m, pages, mem, e);
    }
  }

  lemma {:induction false} LeafIsStored(m: Mode, pages: seq<Page>, mem: map<nat, nat>, e: Entry)
    requires Leaf(m, e) < NumLevels(m) && EntryAt(m, pages, mem, e, Leaf(m, e))
    ensures mem[AddressOf(m, pages, e.va, Leaf(m, e))] == LeafPte(m, e.pa, e.attrs)
  {
    hide StartVa, Idx, LeafPte;
  }

  lemma {:induction false} TablesAreAllocated(
    m: Mode, start: nat, max: nat, pages: seq<Page>, mem: map<nat, nat>, es: seq<Entry>)
    requires Tables(m, start, max, pages, mem, es)
    ensures PagesOk(m, start, max, pages) && pages != []
  {
  }

  lemma {:induction false} WalkUnfold(m: Mode, mem: map<nat, nat>, a: nat, l: nat, va: nat)
    requires l < NumLevels(m) && PteAddressAt(m, a, va, l) in mem
    ensures match WalkStep(m, ReadFields(m, mem[PteAddressAt(m, a, va, l)]), l, va)
            case Stop(r) =>
              && WalkFrom(m, mem, a, l, va) == r && |Visited(m, mem, a, l, va)| == 1
              && FinalEntry(m, mem, a, l, va) == PteAddressAt(m, a, va, l)
            case Descend(next) =>
              && WalkFrom(m, mem, a, l, va) == WalkFrom(m, mem, next, l + 1, va)
              && |Visited(m, mem, a, l, va)| == 1 + |Visited(m, mem, next, l + 1, va)|
              && FinalEntry(m, mem, a, l, va) == FinalEntry(m, mem, next, l + 1, va)
  {
    hide ReadFields, Idx, PageOffset;
  }

  /** An address no page covers: the walk faults. */
  lemma {:induction false} WalkNowhere(
    m: Mode, start: nat, max: nat, pages: seq<Page>, mem: map<nat, nat>, es: seq<Entry>, va: nat, l: nat)
    requires Tables(m, start, max, pages, mem, es) && PoolInReach(start, max)
    requires forall i :: 0 <= i < |es| ==> WellFormed(m, es[i]) && !Covers(m, es[i], va)
    requires Has(m, pages, va, l) && (l > 0 ==> Idx(m, va, 0) < 512)
    ensures WalkFrom(m, mem, TableOf(m, pages, va, l).pa, l, va).Fault?
    decreases NumLevels(m) - l
  {
    hide StartVa, Idx, Slot, PagesOk, ReadFields, PageOffset, PageOf, PageSizes, IsTraced, EntryAt, Written, Covers,
         Pow2;
    var a := AddressOf(m, pages, va, l);
    if a in mem {
      if mem[a] == 0 {
        ZeroIsNotValid(m);
      } else {
        var i := SharedWith(m, start, max, pages, mem, es, va, l, a);
        var e := es[i];
        BuiltEntryReads(m, start, max, pages, mem, e, l);
        NextTableShared(m, pages, mem, e, va, l);
        WalkNowhere(m, start, max, pages, mem, es, va, l + 1);
      }
    }
  }

  lemma {:induction false} ZeroIsNotValid(m: Mode)
    ensures ReadFields(m, 0).valid == 0
  {
    ExtractZero(VALID);
  }

  /** A non-zero entry that a walk meets belongs to a page; if the page does not cover the
      address, the entry lies above the page's leaf. */
  lemma {:induction false} SharedWith(m: Mode, start: nat, max: nat, pages: seq<Page>, mem: map<nat, nat>,
      es: seq<Entry>, va: nat, l: nat, a: nat) returns (i: nat)
    requires Tables(m, start, max, pages, mem, es)
    requires forall i :: 0 <= i < |es| ==> WellFormed(m, es[i]) && !Covers(m, es[i], va)
    requires Has(m, pages, va, l) && (l > 0 ==> Idx(m, va, 0) < 512)
    requires a == AddressOf(m, pages, va, l) && a in mem && mem[a] != 0
    ensures i < |es| && l < Leaf(m, es[i]) && EntryAt(m, pages, mem, es[i], l)
    ensures AddressOf(m, pages, es[i].va, l) == a && Slot(m, es[i].va, l) == Slot(m, va, l)
  {
    hide StartVa, Idx, Slot, PagesOk, ReadFields, PageSizes, EntryAt, Written;
    assert IsTraced(m, pages, es, |es|, 0, a);
    var j: nat, k: nat :| Done(m, es, |es|, 0, j, k) && AddressIs(m, pages, es[j].va, k, a);
    SameAddress(m, start, max, pages, es[j].va, k, va, l);
    EntryIsThere(m, start, max, pages, mem, es, j, l);
    SharedEntryIsSharedSlot(m, es[j].va, va, l);
    i := j;
  }

  lemma {:induction false} NextTableShared(m: Mode, pages: seq<Page>, mem: map<nat, nat>, e: Entry, va: nat, l: nat)
    requires l < Leaf(m, e) < NumLevels(m) && EntryAt(m, pages, mem, e, l)
    requires Slot(m, e.va, l) == Slot(m, va, l)
    ensures Has(m, pages, e.va, l + 1) && Has(m, pages, va, l + 1)
    ensures TableOf(m, pages, va, l + 1) == TableOf(m, pages, e.va, l + 1)
    ensures Idx(m, va, 0) < 512 && Idx(m, va, l) == Idx(m, e.va, l)
  {
    hide StartVa, Idx, Slot, LeafPte, NonLeafPte;
    SlotPrefix(m, e.va, va, 0, l);
    SlotPrefix(m, e.va, va, l, l);
    SameTableSameSlot(m, e.va, va, l + 1);
  }

  /** The walk of built tables, page by page: at an address of a page it ends at the page's leaf and
      translates as that says; at an address of no page it faults. */
  lemma {:induction false} WalkMeaning(m: Mode, start: nat, max: nat, pages: seq<Page>, mem: map<nat, nat>,
      es: seq<Entry>, va: nat)
    requires Tables(m, start, max, pages, mem, es) && PoolInReach(start, max)
    ensures forall i :: 0 <= i < |es| && Covers(m, es[i], va) ==>
              WalkFrom(m, mem, start, 0, va)
              == LeafResult(m, PageOf(es[i].pa), es[i].attrs, Leaf(m, es[i]), va)
              && |Visited(m, mem, start, 0, va)| == Leaf(m, es[i]) + 1
              && EndsAt(m, mem, start, 0, va, LeafPte(m, es[i].pa, es[i].attrs))
    ensures (forall i :: 0 <= i < |es| ==> !Covers(m, es[i], va)) ==> WalkFrom(m, mem, start, 0, va).Fault?
  {
    hide StartVa, Idx, Slot, PagesOk, ReadFields, PageOf, EntryAt, Written, Covers, WalkFrom, LeafResult, Visited,
         EndsAt, LeafPte;
    assert forall i :: 0 <= i < |es| ==> WellFormed(m, es[i]);
    forall i | 0 <= i < |es| && Covers(m, es[i], va)
      ensures WalkFrom(m, mem, start, 0, va)
           == LeafResult(m, PageOf(es[i].pa), es[i].attrs, Leaf(m, es[i]), va)
      ensures |Visited(m, mem, start, 0, va)| == Leaf(m, es[i]) + 1
      ensures EndsAt(m, mem, start, 0, va, LeafPte(m, es[i].pa, es[i].attrs))
    {
      RootTable(m, start, max, pages, es[i].va);
      WalkAlong(m, start, max, pages, mem, es, i, va, 0);
    }
    if forall i :: 0 <= i < |es| ==> !Covers(m, es[i], va) {
      RootTable(m, start, max, pages, va);
      WalkNowhere(m, start, max, pages, mem, es, va, 0);
    }
  }
}
