/** The builder itself: the loops that allocate tables and write entries, proved against the
    predicates of PageTables. */
module PageTableBuilder {
  import opened Bits
  import opened Modes
  import opened Pte
  import opened Wrappers
  import opened PageTables

  datatype BuildError =
    | BadPageSize | PoolExhausted | Misaligned | RootIndexTooLarge
    | ReservedXwr | PteConflict | NoTables

  datatype Result<+T> = Ok(value: T) | Err(error: BuildError) {
    predicate IsFailure() { Err? }

    function PropagateFailure<U>(): Result<U>
      requires Err?
    {
      Err(error)
    }

    function Extract(): T
      requires Ok?
    {
      value
    }
  }

  class Builder {
    const mode: Mode
    const startAddress: nat
    const max4KPages: nat
    var pages: seq<Page>
    var pteMemory: map<nat, nat>

    ghost predicate Valid()
      reads this
    {
      PagesOk(mode, startAddress, max4KPages, pages)
    }

    constructor (mode: Mode, startAddress: nat, max4KPages: nat)
      ensures Valid()
      ensures this.mode == mode && this.startAddress == startAddress && this.max4KPages == max4KPages
      ensures pages == [] && pteMemory == map[]
    {
      this.mode := mode;
      this.startAddress := startAddress;
      this.max4KPages := max4KPages;
      pages := [];
      pteMemory := map[];
    }

    /** Finds the table serving va at a level, or takes the next one from the pool. It fails
        only when there is no such table yet and the next one is beyond the pool, or when the
        pool starts at an address that is no multiple of the root table's size. */
    method GetNewPage(sourceVa: nat, level: nat) returns (r: Result<Page>)
      requires Valid() && level < NumLevels(mode) && (pages == [] ==> level == 0)
      modifies this`pages
      ensures Valid() && old(pages) <= pages
      ensures r.Ok? ==> Has(mode, pages, sourceVa, level)
                        && r.value == TableOf(mode, pages, sourceVa, level)
      ensures old(Has(mode, pages, sourceVa, level)) ==> r.Ok? && pages == old(pages)
      ensures r.Ok? && !old(Has(mode, pages, sourceVa, level)) ==>
                pages == old(pages) + [r.value]
      ensures r.Err? ==> pages == old(pages) && !Has(mode, pages, sourceVa, level)
      ensures r.Err? ==>
                || (r.error == PoolExhausted && PoolBytes(mode, |pages| + 1) > max4KPages * SIZE_4K)
                || (r.error == Misaligned && pages == []
                    && startAddress % PagetableSizes(mode)[0] != 0)
    {
      hide And, VaMask, StartVa, PagetableSizes, PoolBytes, CurrentSize, SameKey, PagesOk, NewPage;
      var va := And(sourceVa, VaMask(mode));
      ghost var startVa := StartVa(mode, sourceVa, level);
      for i := 0 to |pages|
        invariant pages == old(pages)
        invariant forall j :: 0 <= j < i ==> !SameKey(pages[j], level, startVa)
      {
        PageIsOk(mode, startAddress, max4KPages, pages, i);
        ContainsIsSameKey(mode, startAddress, pages[i], i, sourceVa, level);
        if pages[i].Contains(va, level) {
          return Ok(pages[i]);
        }
      }
      CurrentSizeIs(mode, startAddress, max4KPages, pages);
      NextPoolBytes(mode, pages, startAddress, max4KPages, sourceVa, level);
      var size := PagetableSizes(mode)[level];
      if CurrentSize(pages) + size > max4KPages * SIZE_4K {
        return Err(PoolExhausted);
      }
      var pa := startAddress + CurrentSize(pages);
      if pa % size != 0 {
        return Err(Misaligned);
      }
      var page := NewPage(mode, pa, va, size, level);
      AppendedPageOk(mode, startAddress, max4KPages, pages, page, sourceVa, level);
      pages := pages + [page];
      return Ok(page);
    }

    /** Writes an entry where there is none or the same one; a different one is a conflict. */
    method WriteSparseMemory(address: nat, value: nat) returns (ok: bool)
      requires address % PTE_SIZE == 0
      modifies this`pteMemory
      ensures ok <==> (address in old(pteMemory) ==> old(pteMemory)[address] == value)
      ensures pteMemory == if ok then old(pteMemory)[address := value] else old(pteMemory)
    {
      if address in pteMemory {
        return pteMemory[address] == value;
      }
      pteMemory := pteMemory[address := value];
      return true;
    }

    /** GetNewPage, for a table that page n needs: what has been written stays, and a failure
        is one no build of these pages could avoid. */
    method Allocate(ghost es: seq<Entry>, ghost n: nat, e: Entry, ghost cur: nat, level: nat)
        returns (r: Result<Page>)
      requires Valid() && n < |es| && e == es[n] && level <= Leaf(mode, e) && level < NumLevels(mode)
      requires pages == [] ==> level == 0
      requires Written(mode, pages, pteMemory, es, n, cur) && Traced(mode, pages, pteMemory, es, n, cur)
      requires PageKeys(pages) <= NeededKeys(mode, es)
      modifies this`pages
      ensures r.Err? ==> Explains(r.error, mode, startAddress, max4KPages, es)
      ensures Valid() && old(pages) <= pages
      ensures Written(mode, pages, pteMemory, es, n, cur) && Traced(mode, pages, pteMemory, es, n, cur)
      ensures PageKeys(pages) <= NeededKeys(mode, es)
      ensures r.Ok? ==> Has(mode, pages, e.va, level) && r.value == TableOf(mode, pages, e.va, level)
    {
      hide StartVa, Idx, PagetableSizes, PoolBytes, PageOk, EntryAt, IsTraced, Written, Traced, PageSizes;
      ghost var before := pages;
      r := GetNewPage(e.va, level);
      GrowKeeps(mode, before, pages, pteMemory, es, n, cur);
      if r.Ok? {
        if !Has(mode, before, e.va, level) {
          NeededKeyAdded(mode, before, r.value, es, n, level);
        }
      } else if r.error == PoolExhausted {
        PoolTooSmall(mode, startAddress, max4KPages, pages, es, n, level);
      }
    }

    /** One round of the inner loop: the level-cur entry of page n. */
    method WriteLevel(ghost es: seq<Entry>, ghost n: nat, e: Entry, cur: nat) returns (r: Result<()>)
      requires Valid() && n < |es| && e == es[n] && cur <= Leaf(mode, e) < NumLevels(mode)
      requires forall k :: 0 <= k < n ==> Placeable(mode, es[k])
      requires pages == [] ==> cur == 0
      requires cur > 0 ==> Idx(mode, e.va, 0) < 512
      requires Written(mode, pages, pteMemory, es, n, cur) && Traced(mode, pages, pteMemory, es, n, cur)
      requires PageKeys(pages) <= NeededKeys(mode, es)
      modifies this
      ensures r.Err? ==> Explains(r.error, mode, startAddress, max4KPages, es)
      ensures r.Ok? ==> Valid() && pages != [] && PageKeys(pages) <= NeededKeys(mode, es)
      ensures r.Ok? ==> Written(mode, pages, pteMemory, es, n, cur + 1)
      ensures r.Ok? ==> Traced(mode, pages, pteMemory, es, n, cur + 1)
      ensures r.Ok? ==> if cur < Leaf(mode, e) then Idx(mode, e.va, 0) < 512
                        else e.attrs.xwr != 2 && e.attrs.xwr != 6
    {
      hide StartVa, Idx, Slot, PagetableSizes, PoolBytes, LeafPte, NonLeafPte, LeafFlags, PlacePpn,
           PlaceBits, PageOk, PagesOk, EntryAt, IsTraced, Written, Traced, PageSizes, PageKeys, NeededKeys;
      var table :- Allocate(es, n, e, cur, cur);
      ghost var before := pages;
      var pte;
      if cur < Leaf(mode, e) {
        var next :- Allocate(es, n, e, cur, cur + 1);
        HasStable(mode, before, pages, e.va, cur);
        NextTableSize(mode, startAddress, max4KPages, pages, e.va, cur);
        var nextPa := next.pa + Idx(mode, e.va, cur) * PTE_SIZE;
        if nextPa >= next.pa + next.size {
          return Err(RootIndexTooLarge);
        }
        pte := NonLeafEntry(mode, nextPa);
      } else {
        if e.attrs.xwr == 2 || e.attrs.xwr == 6 {
          return Err(ReservedXwr);
        }
        pte := LeafEntry(mode, e.pa, e.attrs);
      }
      AddressAligned(mode, startAddress, max4KPages, pages, e.va, cur);
      var address := table.pa + Idx(mode, e.va, cur) * PTE_SIZE;
      ghost var memory := pteMemory;
      var ok := WriteSparseMemory(address, pte);
      if !ok {
        ghost var _ := ConflictIsIncompatible(mode, startAddress, max4KPages, pages, memory, es, n, cur);
        return Err(PteConflict);
      }
      WriteKeeps(mode, pages, memory, pteMemory, es, n, cur);
      return Ok(());
    }

    /** All the levels of page n. */
    method WritePage(ghost es: seq<Entry>, ghost n: nat, e: Entry) returns (r: Result<()>)
      requires Valid() && n < |es| && e == es[n]
      requires forall k :: 0 <= k < n ==> Placeable(mode, es[k])
      requires Written(mode, pages, pteMemory, es, n, 0) && Traced(mode, pages, pteMemory, es, n, 0)
      requires PageKeys(pages) <= NeededKeys(mode, es)
      modifies this
      ensures r.Err? ==> Explains(r.error, mode, startAddress, max4KPages, es)
      ensures r.Ok? ==> Valid() && pages != [] && PageKeys(pages) <= NeededKeys(mode, es)
      ensures r.Ok? ==> WellFormed(mode, e)
      ensures r.Ok? ==> Written(mode, pages, pteMemory, es, n + 1, 0)
      ensures r.Ok? ==> Traced(mode, pages, pteMemory, es, n + 1, 0)
    {
      hide StartVa, Idx, PagesOk, EntryAt, IsTraced, Written, Traced, PageSizes, PageKeys, NeededKeys,
           PoolSuffices, AllCompatible;
      var leaf := IndexOf(PageSizes(mode), e.pageSize);
      if leaf >= NumLevels(mode) {
        return Err(BadPageSize);
      }
      var cur := 0;
      while cur <= leaf
        invariant Valid() && cur <= leaf + 1
        invariant pages == [] ==> cur == 0
        invariant PageKeys(pages) <= NeededKeys(mode, es)
        invariant cur > 0 && leaf > 0 ==> Idx(mode, e.va, 0) < 512
        invariant cur > leaf ==> e.attrs.xwr != 2 && e.attrs.xwr != 6
        invariant Written(mode, pages, pteMemory, es, n, cur)
        invariant Traced(mode, pages, pteMemory, es, n, cur)
      {
        var _ :- WriteLevel(es, n, e, cur);
        cur := cur + 1;
      }
      NextEntry(mode, pages, pteMemory, es, n);
      return Ok(());
    }

    /** The build. It succeeds exactly when the pages are buildable, and then the tables hold
        them; a failure names something that makes them unbuildable. */
    method CreateFromMappings(mappings: seq<Mapping>) returns (r: Result<()>)
      requires pages == [] && pteMemory == map[]
      modifies this
      ensures r.Ok? <==> Buildable(mode, startAddress, max4KPages, Split(mappings))
      ensures r.Ok? ==> Tables(mode, startAddress, max4KPages, pages, pteMemory, Split(mappings))
      ensures r.Ok? ==> Covered(mode, pages, pteMemory)
      ensures r.Err? ==> Explains(r.error, mode, startAddress, max4KPages, Split(mappings))
    {
      hide StartVa, Idx, PageOk, EntryAt, IsTraced, Written, Traced, PageSizes, PageKeys, NeededKeys,
           PoolSuffices, AllCompatible, Compatible, Placeable, PagetableSizes;
      var es := SplitMappings(mappings);
      NothingWritten(mode, es);
      for n := 0 to |es|
        invariant Valid() && (pages == [] <==> n == 0)
        invariant PageKeys(pages) <= NeededKeys(mode, es)
        invariant forall i :: 0 <= i < n ==> WellFormed(mode, es[i])
        invariant Written(mode, pages, pteMemory, es, n, 0)
        invariant Traced(mode, pages, pteMemory, es, n, 0)
      {
        var e := es[n];
        var w := WritePage(es, n, e);
        if w.Err? {
          ExplainedIsUnbuildable(w.error, mode, startAddress, max4KPages, es);
          return Err(w.error);
        }
      }
      if pages == [] {
        return Err(NoTables);
      }
      WrittenIsCompatible(mode, pages, pteMemory, es);
      PoolEnough(mode, startAddress, max4KPages, pages, pteMemory, es);
      FillEnds(es);
      return Ok(());
    }

    /** Zeroes for the first and the last entry of the pool's used part, where there is none. */
    method FillEnds(ghost es: seq<Entry>)
      requires Valid() && pages != [] && es != [] && AllWellFormed(mode, es)
      requires Written(mode, pages, pteMemory, es, |es|, 0)
      requires Traced(mode, pages, pteMemory, es, |es|, 0)
      modifies this`pteMemory
      ensures Tables(mode, startAddress, max4KPages, pages, pteMemory, es)
      ensures Covered(mode, pages, pteMemory)
    {
      hide StartVa, Idx, PageOk, EntryAt, IsTraced, Traced, PageSizes, PagetableSizes, WellFormed;
      ghost var memory := pteMemory;
      var first := pages[0].pa;
      LastEntry(mode, startAddress, max4KPages, pages);
      var last := pages[|pages| - 1].pa + pages[|pages| - 1].size - PTE_SIZE;
      if first !in pteMemory {
        pteMemory := pteMemory[first := 0];
      }
      if last !in pteMemory {
        pteMemory := pteMemory[last := 0];
      }
      ZeroesKeep(mode, pages, memory, pteMemory, es);
    }
  }

  /** The first and the last entry of the used part of the pool are present. */
  ghost predicate Covered(m: Mode, pages: seq<Page>, mem: map<nat, nat>) {
    && pages != []
    && pages[0].pa in mem
    && pages[|pages| - 1].size >= PTE_SIZE
    && pages[|pages| - 1].pa + pages[|pages| - 1].size - PTE_SIZE in mem
  }

  /** What each failure says about the pages. */
  ghost predicate Explains(error: BuildError, m: Mode, start: nat, max: nat, es: seq<Entry>) {
    match error
    case BadPageSize => exists i :: 0 <= i < |es| && Leaf(m, es[i]) == NumLevels(m)
    case PoolExhausted => !PoolSuffices(m, max, es)
    case Misaligned => start % PagetableSizes(m)[0] != 0
    case RootIndexTooLarge => exists i :: 0 <= i < |es| && Leaf(m, es[i]) > 0 && Idx(m, es[i].va, 0) >= 512
    case ReservedXwr => exists i :: 0 <= i < |es| && (es[i].attrs.xwr == 2 || es[i].attrs.xwr == 6)
    case PteConflict => exists i, j :: 0 <= i < j < |es| && Placeable(m, es[i]) && Placeable(m, es[j])
                                      && !Compatible(m, es[i], es[j])
    case NoTables => es == []
  }

  lemma {:induction false} ExplainedIsUnbuildable(error: BuildError, m: Mode, start: nat, max: nat, es: seq<Entry>)
    requires Explains(error, m, start, max, es)
    ensures !Buildable(m, start, max, es)
  {
    hide PoolSuffices, Idx, Compatible, PagetableSizes;
    if AllWellFormed(m, es) {
      assert forall i :: 0 <= i < |es| ==> WellFormed(m, es[i]);
    }
  }

  lemma {:induction false} NothingWritten(m: Mode, es: seq<Entry>)
    ensures Written(m, [], map[], es, 0, 0) && Traced(m, [], map[], es, 0, 0)
    ensures PageKeys([]) <= NeededKeys(m, es)
  {
  }

  lemma {:induction false} ZeroesKeep(m: Mode, pages: seq<Page>, mem: map<nat, nat>, more: map<nat, nat>,
      es: seq<Entry>)
    requires Written(m, pages, mem, es, |es|, 0) && Traced(m, pages, mem, es, |es|, 0)
    requires forall a :: a in mem ==> a in more && more[a] == mem[a]
    requires forall a :: a in more && a !in mem ==> more[a] == 0 && IsEnd(pages, a)
    ensures Written(m, pages, more, es, |es|, 0)
    ensures forall a :: a in more ==> IsTraced(m, pages, es, |es|, 0, a) || (more[a] == 0 && IsEnd(pages, a))
  {
    hide IsTraced, StartVa, Idx, LeafPte, NonLeafPte;
    forall i: nat, l: nat | Done(m, es, |es|, 0, i, l)
      ensures EntryAt(m, pages, more, es[i], l)
    {
      assert EntryAt(m, pages, mem, es[i], l);
    }
  }

  lemma {:induction false} LastEntry(m: Mode, start: nat, max: nat, pages: seq<Page>)
    requires PagesOk(m, start, max, pages) && pages != []
    ensures pages[|pages| - 1].size >= PTE_SIZE
  {
    var n := |pages| - 1;
    assert PageOk(m, start, pages[n], n);
    TableHoldsIndices(m, pages[n].level, 0);
  }

  lemma {:induction false} NeededKeyAdded(m: Mode, pages: seq<Page>, page: Page, es: seq<Entry>, n: nat, l: nat)
    requires PageKeys(pages) <= NeededKeys(m, es)
    requires n < |es| && l < NumLevels(m) && l <= Leaf(m, es[n])
    requires SameKey(page, l, StartVa(m, es[n].va, l))
    ensures PageKeys(pages + [page]) <= NeededKeys(m, es)
  {
    hide StartVa, NeededKeys;
    assert (l, StartVa(m, es[n].va, l)) in NeededKeys(m, es) by {
      KeyIsNeeded(m, es, n, l);
    }
    PageKeysStep(pages + [page]);
    assert (pages + [page])[..|pages|] == pages;
  }

  lemma {:induction false} KeyIsNeeded(m: Mode, es: seq<Entry>, n: nat, l: nat)
    requires n < |es| && l < NumLevels(m) && l <= Leaf(m, es[n])
    ensures (l, StartVa(m, es[n].va, l)) in NeededKeys(m, es)
  {
  }

  /** A table below the root is one 4K page, so an index names one of its entries exactly
      when it is below 512; only a root index can be larger. */
  lemma {:induction false} NextTableSize(m: Mode, start: nat, max: nat, pages: seq<Page>, va: nat, l: nat)
    requires PagesOk(m, start, max, pages) && l + 1 < NumLevels(m) && Has(m, pages, va, l + 1)
    ensures TableOf(m, pages, va, l + 1).size == SIZE_4K
    ensures l > 0 ==> Idx(m, va, l) < 512
  {
    hide StartVa, Idx, PagetableSizes;
    var i := FindPage(pages, l + 1, StartVa(m, va, l + 1));
    assert PageOk(m, start, pages[i], i);
    TableHoldsIndices(m, l + 1, va);
    SlotStep(m, va, l);
  }

  lemma {:induction false} AddressAligned(m: Mode, start: nat, max: nat, pages: seq<Page>, va: nat, l: nat)
    requires PagesOk(m, start, max, pages) && Has(m, pages, va, l)
    ensures AddressOf(m, pages, va, l) % PTE_SIZE == 0
  {
    hide Idx, PagesOk, TableOf, StartVa;
    TableAligned(m, start, max, pages, va, l);
    EntryAligned(TableOf(m, pages, va, l).pa, Idx(m, va, l));
  }

  lemma {:induction false} EntryAligned(table: nat, index: nat)
    requires table % SIZE_4K == 0
    ensures (table + index * PTE_SIZE) % PTE_SIZE == 0
  {
    assert table == PTE_SIZE * (512 * (table / SIZE_4K));
  }

  /** Tables start at multiples of 4K. */
  lemma {:induction false} TableAligned(m: Mode, start: nat, max: nat, pages: seq<Page>, va: nat, l: nat)
    requires PagesOk(m, start, max, pages) && Has(m, pages, va, l)
    ensures TableOf(m, pages, va, l).pa % SIZE_4K == 0
  {
    hide StartVa, Idx, PagetableSizes;
    var i := FindPage(pages, l, StartVa(m, va, l));
    assert PageOk(m, start, pages[i], i);
    TableHoldsIndices(m, 0, va);
    StillAligned(start, PagetableSizes(m)[0], if i > 0 then i - 1 else 0);
  }

  method NonLeafEntry(m: Mode, nextPa: nat) returns (pte: nat)
    ensures pte == NonLeafPte(m, nextPa)
  {
    hide PlaceBits, PlacePpn;
    pte := PlacePpnFields(m, PlaceBits(0, 1, VALID), nextPa);
  }

  method LeafEntry(m: Mode, pa: nat, t: Attributes) returns (pte: nat)
    ensures pte == LeafPte(m, pa, t)
  {
    hide PlaceBits, PlacePpn;
    pte := PlaceBits(PlaceBits(0, 1, VALID), t.xwr, XWR);
    if t.umode.Some? {
      pte := PlaceBits(pte, t.umode.value, UMODE);
    }
    pte := PlaceBits(pte, 1, ACCESSED);
    pte := PlaceBits(pte, 1, DIRTY);
    pte := PlaceBits(pte, t.pbmt.Encoding(), PBMT);
    pte := PlaceBits(pte, t.valid, VALID);
    pte := PlacePpnFields(m, pte, pa);
  }

  method PlacePpnFields(m: Mode, flags: nat, pa: nat) returns (pte: nat)
    ensures pte == PlacePpn(m, flags, pa, 0)
  {
    hide PlaceBits, ExtractBits;
    pte := flags;
    for id := 0 to NumLevels(m)
      invariant PlacePpn(m, pte, pa, id) == PlacePpn(m, flags, pa, 0)
    {
      var ppn := ExtractBits(pa, PaPpnBits(m)[id]);
      pte := PlaceBits(pte, ppn, PtePpnBits(m)[id]);
    }
  }

  /** The constructor of a table page. */
  function NewPage(m: Mode, pa: nat, va: nat, size: nat, level: nat): Page
    requires level < NumLevels(m)
  {
    var shift := VaVpnBits(m)[level].msb + 1;
    Page(pa, level, ShiftLeft(ShiftRight(va, shift), shift), ShiftLeft(1, shift), size)
  }

  /** The next table takes the pool to the size of one table more; it starts aligned unless it is
      the root and the pool does not. */
  lemma {:induction false} NextPoolBytes(m: Mode, pages: seq<Page>, start: nat, max: nat, va: nat, level: nat)
    requires PagesOk(m, start, max, pages) && level < NumLevels(m) && (pages == [] ==> level == 0)
    requires !Has(m, pages, va, level)
    ensures PagetableSizes(m)[level] > 0
    ensures PoolBytes(m, |pages|) + PagetableSizes(m)[level] == PoolBytes(m, |pages| + 1)
    ensures level == 0 <==> pages == []
    ensures (start + PoolBytes(m, |pages|)) % PagetableSizes(m)[level] == 0
            <==> (pages == [] ==> start % PagetableSizes(m)[0] == 0)
  {
    hide StartVa;
    TableHoldsIndices(m, level, 0);
    TableHoldsIndices(m, 0, 0);
    if pages != [] {
      assert PageOk(m, start, pages[0], 0);
      RootStart(m, va);
      assert SameKey(pages[0], 0, StartVa(m, va, 0));
      StillAligned(start, PagetableSizes(m)[0], |pages| - 1);
    }
  }

  lemma {:induction false} StillAligned(start: nat, root: nat, k: nat)
    requires (root == SIZE_4K || root == 4 * SIZE_4K) && start % root == 0
    ensures start % SIZE_4K == 0 && (start + (root + k * SIZE_4K)) % SIZE_4K == 0
  {
  }

  /** A new table keeps the allocator's invariant and is the one found for its address. */
  lemma {:induction false} AppendedPageOk(m: Mode, start: nat, max: nat, pages: seq<Page>, page: Page, va: nat,
      level: nat)
    requires PagesOk(m, start, max, pages) && level < NumLevels(m) && (level == 0 <==> pages == [])
    requires !Has(m, pages, va, level)
    requires page == NewPage(m, start + PoolBytes(m, |pages|), And(va, VaMask(m)), PagetableSizes(m)[level], level)
    requires PoolBytes(m, |pages| + 1) <= max * SIZE_4K
    requires pages == [] ==> start % PagetableSizes(m)[0] == 0
    ensures PagesOk(m, start, max, pages + [page])
    ensures Has(m, pages + [page], va, level)
    ensures TableOf(m, pages + [page], va, level) == page
  {
    hide And, VaMask, PagetableSizes, PoolBytes, StartVa, NewPage;
    NewPageOk(m, start + PoolBytes(m, |pages|), va, level, start, |pages|);
    var more := pages + [page];
    forall i | 0 <= i < |more|
      ensures PageOk(m, start, more[i], i)
    {
    }
    FoundAtEnd(pages, page, level, StartVa(m, va, level));
  }

  lemma {:induction false} FoundAtEnd(pages: seq<Page>, page: Page, level: nat, startVa: nat)
    requires DistinctKeys(pages) && FindPage(pages, level, startVa) == |pages|
    requires SameKey(page, level, startVa)
    ensures FindPage(pages + [page], level, startVa) == |pages|
    ensures DistinctKeys(pages + [page])
  {
    var more := pages + [page];
    assert more[|pages|] == page && forall k :: 0 <= k < |pages| ==> more[k] == pages[k];
  }

  lemma {:induction false} PageIsOk(m: Mode, start: nat, max: nat, pages: seq<Page>, i: nat)
    requires PagesOk(m, start, max, pages) && i < |pages|
    ensures PageOk(m, start, pages[i], i)
  {
  }

  lemma {:induction false} NewPageOk(m: Mode, pa: nat, va: nat, level: nat, start: nat, i: nat)
    requires level < NumLevels(m) && (level == 0 <==> i == 0) && pa == start + PoolBytes(m, i)
    ensures var page := NewPage(m, pa, And(va, VaMask(m)), PagetableSizes(m)[level], level);
            PageOk(m, start, page, i) && SameKey(page, level, StartVa(m, va, level))
  {
    hide And, VaMask, PagetableSizes, PoolBytes, Pow2, ShiftLeft, ShiftRight;
    var s := TableShift(m, level);
    ShiftOne(s);
    ShiftBack(ShiftRight(And(va, VaMask(m)), s), s);
    RootStart(m, va);
  }

  lemma {:induction false} ShiftBack(block: nat, n: nat)
    ensures ShiftRight(ShiftLeft(block, n), n) == block
  {
    HighLowUnique(block, 0, n);
  }
}
