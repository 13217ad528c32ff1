/** Walks that stay inside the page-table pool: the pool mapped to itself lets every page-table
    access be translated, so a two-stage walk never faults on one. */
module NestedWalk {
  import opened Bits
  import opened Modes
  import opened Pte
  import opened Wrappers
  import opened TableWalk
  import opened PageTables
  import opened PageTableBuilder
  import opened PageTableMeaning
  import opened MappingMeaning
  import opened CWalk
  import Emission

  predicate InPool(start: nat, max: nat, address: nat) { start <= address < start + max * SIZE_4K }

  /** A word of the first n tables of the pool, which are what is emitted. */
  predicate InTables(m: Mode, start: nat, n: nat, address: nat) {
    start <= address && address + PTE_SIZE <= start + PoolBytes(m, n)
  }

  /** Where the walk goes next from an entry of a built table: another table, one level down. */
  lemma {:induction false} NextIsTable(m: Mode, start: nat, max: nat, pages: seq<Page>, mem: map<nat, nat>,
      es: seq<Entry>, p: nat, va: nat, next: nat) returns (q: nat)
    requires Tables(m, start, max, pages, mem, es) && PoolInReach(start, max)
    requires p < |pages| && pages[p].level < NumLevels(m)
    requires PteAddressAt(m, pages[p].pa, va, pages[p].level) in mem
    requires WalkStep(m, ReadFields(m, mem[PteAddressAt(m, pages[p].pa, va, pages[p].level)]), pages[p].level, va)
          == Descend(next)
    ensures q < |pages| && pages[q].pa == next && pages[q].level == pages[p].level + 1 < NumLevels(m)
  {
    hide StartVa, Idx, Slot, PagesOk, ReadFields, PageSizes, IsTraced, EntryAt, Written, WalkStep, PageOffset, PageOf;
    var l := pages[p].level;
    var a := PteAddressAt(m, pages[p].pa, va, l);
    TablesAreAllocated(m, start, max, pages, mem, es);
    if mem[a] == 0 {
      ZeroStops(m, l, va);
    } else {
      var i := TracedTo(m, start, max, pages, mem, es, p, va, a);
      BuiltEntryReads(m, start, max, pages, mem, es[i], l);
      if l < Leaf(m, es[i]) {
        q := FindPage(pages, l + 1, StartVa(m, es[i].va, l + 1));
        EntryIsThere(m, start, max, pages, mem, es, i, l);
        StepAtNonLeaf(m, pages[q].pa, l, va);
      } else {
        StepAtLeaf(m, PageOf(es[i].pa), es[i].attrs, l, va);
      }
    }
  }

  lemma {:induction false} ZeroStops(m: Mode, l: nat, va: nat)
    requires l < NumLevels(m)
    ensures WalkStep(m, ReadFields(m, 0), l, va).Stop?
  {
    hide PageOffset;
    ZeroIsNotValid(m);
  }

  /** A non-zero entry inside table p belongs to some page, at the table's level. */
  lemma {:induction false} TracedTo(m: Mode, start: nat, max: nat, pages: seq<Page>, mem: map<nat, nat>, es: seq<Entry>,
                 p: nat, va: nat, a: nat) returns (i: nat)
    requires Tables(m, start, max, pages, mem, es)
    requires p < |pages| && pages[p].level < NumLevels(m)
    requires a == PteAddressAt(m, pages[p].pa, va, pages[p].level) && a in mem && mem[a] != 0
    ensures i < |es| && WellFormed(m, es[i]) && pages[p].level <= Leaf(m, es[i])
    ensures EntryAt(m, pages, mem, es[i], pages[p].level)
    ensures Has(m, pages, es[i].va, pages[p].level) && AddressOf(m, pages, es[i].va, pages[p].level) == a
  {
    hide StartVa, Idx, Slot, ReadFields, PageSizes, EntryAt, Written;
    assert IsTraced(m, pages, es, |es|, 0, a);
    var j: nat, k: nat :| Done(m, es, |es|, 0, j, k) && AddressIs(m, pages, es[j].va, k, a);
    var q := FindPage(pages, k, StartVa(m, es[j].va, k));
    assert PageOk(m, start, pages[p], p) && PageOk(m, start, pages[q], q);
    TableHoldsIndices(m, pages[p].level, va);
    TableHoldsIndices(m, k, es[j].va);
    if p < q {
      PagesAscend(m, start, max, pages, p, q);
    } else if q < p {
      PagesAscend(m, start, max, pages, q, p);
    }
    EntryIsThere(m, start, max, pages, mem, es, j, k);
    i := j;
  }

  /** An entry of a table lies in the pool. */
  lemma {:induction false} EntryInPool(m: Mode, start: nat, max: nat, pages: seq<Page>, p: nat, va: nat)
    requires PagesOk(m, start, max, pages) && p < |pages|
    ensures pages[p].level < NumLevels(m)
    ensures InPool(start, max, PteAddressAt(m, pages[p].pa, va, pages[p].level))
    ensures InTables(m, start, |pages|, PteAddressAt(m, pages[p].pa, va, pages[p].level))
  {
    hide Idx;
    assert PageOk(m, start, pages[p], p);
    Emission.TableWithinPool(m, start, max, pages, p);
    TableSizes(m, pages[p].level);
    TableHoldsIndices(m, pages[p].level, va);
    TableHoldsIndices(m, 0, va);
  }

  lemma {:induction false} TableSizes(m: Mode, l: nat)
    requires l < NumLevels(m)
    ensures PagetableSizes(m)[l] % PTE_SIZE == 0
  {
  }

  /** Every entry a walk of built tables reads lies in the pool, in the tables, whatever the address. */
  lemma {:induction false} VisitedInPool(
    m: Mode, start: nat, max: nat, pages: seq<Page>, mem: map<nat, nat>, es: seq<Entry>, p: nat, va: nat)
    requires Tables(m, start, max, pages, mem, es) && PoolInReach(start, max) && p < |pages|
    requires pages[p].level < NumLevels(m)
    ensures forall k :: 0 <= k < |Visited(m, mem, pages[p].pa, pages[p].level, va)| ==>
              InPool(start, max, Visited(m, mem, pages[p].pa, pages[p].level, va)[k])
              && InTables(m, start, |pages|, Visited(m, mem, pages[p].pa, pages[p].level, va)[k])
    decreases NumLevels(m) - pages[p].level
  {
    hide Tables, PagesOk, WalkStep, ReadFields, PteAddressAt, InPool, InTables;
    var l, a := pages[p].level, PteAddressAt(m, pages[p].pa, va, pages[p].level);
    TablesAreAllocated(m, start, max, pages, mem, es);
    EntryInPool(m, start, max, pages, p, va);
    if a in mem && WalkStep(m, ReadFields(m, mem[a]), l, va).Descend? {
      DescendsToAddress(m, ReadFields(m, mem[a]), l, va);
      var q := NextIsTable(m, start, max, pages, mem, es, p, va, ReadFields(m, mem[a]).address);
      VisitedInPool(m, start, max, pages, mem, es, q, va);
    }
  }

  lemma {:induction false} DescendsToAddress(m: Mode, f: Fields, l: nat, va: nat)
    requires l < NumLevels(m) && WalkStep(m, f, l, va).Descend?
    ensures WalkStep(m, f, l, va) == Descend(f.address)
  {
  }

  lemma {:induction false} WalkStaysInPool(
    m: Mode, start: nat, max: nat, pages: seq<Page>, mem: map<nat, nat>, es: seq<Entry>, va: nat)
    requires Tables(m, start, max, pages, mem, es) && PoolInReach(start, max)
    ensures forall k :: 0 <= k < |Visited(m, mem, start, 0, va)| ==>
              InPool(start, max, Visited(m, mem, start, 0, va)[k])
              && InTables(m, start, |pages|, Visited(m, mem, start, 0, va)[k])
  {
    hide Visited, InPool, InTables, PagesOk;
    TablesAreAllocated(m, start, max, pages, mem, es);
    FirstIsRoot(m, start, max, pages);
    VisitedInPool(m, start, max, pages, mem, es, 0, va);
  }

  /** Whatever memory holds outside the emitted tables, the C walker reads none of it. */
  lemma {:induction false} OnlyTheTablesMatter(m: Mode, start: nat, max: nat, pages: seq<Page>, mem: map<nat, nat>,
      es: seq<Entry>, ram: map<nat, nat>, va: nat)
    requires Tables(m, start, max, pages, mem, es) && PoolInReach(start, max)
    requires forall a :: InTables(m, start, |pages|, a) ==> Load(ram, a) == Load(mem, a)
    ensures WalkWords(m, ram, start, 0, va) == WalkWords(m, mem, start, 0, va)
  {
    hide Tables, Visited, InPool, InTables, WalkWords, Load, Pow2;
    TablesAreAllocated(m, start, max, pages, mem, es);
    RootTable(m, start, max, pages, va);
    TableInReach(m, start, max, pages, va, 0);
    WalkStaysInPool(m, start, max, pages, mem, es, va);
    forall x | x in Visited(m, mem, start, 0, va)
      ensures Load(ram, x) == Load(mem, x)
    {
      var k :| 0 <= k < |Visited(m, mem, start, 0, va)| && Visited(m, mem, start, 0, va)[k] == x;
      assert InTables(m, start, |pages|, Visited(m, mem, start, 0, va)[k]);
    }
    SameWords(m, mem, ram, start, 0, va);
  }

  lemma {:induction false} FirstIsRoot(m: Mode, start: nat, max: nat, pages: seq<Page>)
    requires PagesOk(m, start, max, pages) && pages != []
    ensures pages[0].level == 0 && pages[0].pa == start
  {
    assert PageOk(m, start, pages[0], 0);
  }

  // ---------------------------------------------------------------- the pool mapped to itself

  /** The mapping added for a stage's own tables: the pool, in 4K pages, at its own address. */
  function PoolMapping(start: nat, max: nat, attrs: Attributes): Mapping {
    Mapping(Some(start), start, SIZE_4K, max, attrs)
  }

  /** The pool's mapping gives every address of the pool itself. */
  lemma {:induction false} PoolMapsToItself(m: Mode, start: nat, max: nat, attrs: Attributes, address: nat)
    requires Accepted(m, PoolMapping(start, max, attrs)) && InPool(start, max, address)
    requires attrs.valid == 1 && attrs.xwr != 0
    ensures Translates(m, PoolMapping(start, max, attrs), address, address)
  {
    hide VaSpan, Pow2, PageSizes;
    var space, base := VaSpan(m), start % VaSpan(m);
    assert address == start / space * space + (base + (address - start));
    DivModUnique(address, space, start / space, base + (address - start));
  }

  /** The address of an entry translates in the stage that follows. */
  predicate EntryTranslates(s: Stage, address: nat)
    requires s.next.Some?
  {
    StageWalk(s.next.value, s.next.value.start, 0, address).Translated?
  }

  predicate EntriesTranslate(s: Stage, addresses: seq<nat>)
    requires s.next.Some?
  {
    forall k :: 0 <= k < |addresses| ==> EntryTranslates(s, addresses[k])
  }

  /** The entry at the address sends the walk on to a next table. */
  predicate Descends(m: Mode, mem: map<nat, nat>, address: nat, level: nat, va: nat)
    requires level < NumLevels(m)
  {
    address in mem && WalkStep(m, ReadFields(m, mem[address]), level, va).Descend?
  }

  /** One entry of the walk with a next stage and of the walk without. */
  lemma {:induction false} StageStep(s: Stage, a: nat, level: nat, va: nat)
    requires level < NumLevels(s.mode) && s.next.Some?
    ensures var m, mem, address := s.mode, s.mem, PteAddressAt(s.mode, a, va, level);
            if Descends(m, mem, address, level, va)
            then var next := ReadFields(m, mem[address]).address;
                 && level + 1 < NumLevels(m)
                 && Visited(m, mem, a, level, va) == [address] + Visited(m, mem, next, level + 1, va)
                 && WalkFrom(m, mem, a, level, va) == WalkFrom(m, mem, next, level + 1, va)
                 && StageWalk(s, a, level, va)
                    == if EntryTranslates(s, address) then StageWalk(s, next, level + 1, va)
                       else Fault(NextStage, level)
            else && Visited(m, mem, a, level, va) == [address] + []
                 && StageWalk(s, a, level, va)
                    == if EntryTranslates(s, address) then WalkFrom(m, mem, a, level, va) else Fault(NextStage, level)
  {
    hide PteAddressAt, WalkStep, ReadFields, EntryTranslates;
    var m, mem, address := s.mode, s.mem, PteAddressAt(s.mode, a, va, level);
    TranslatesOrFaults(s, address);
    if Descends(m, mem, address, level, va) {
      DescendsToAddress(m, ReadFields(m, mem[address]), level, va);
    }
  }

  /** The next stage decides: the walk faults at the first entry it visits whose address does not
      translate there, and is the walk of the one stage if there is none. */
  lemma {:induction false} NextStageDecides(s: Stage, a: nat, level: nat, va: nat)
    requires level < NumLevels(s.mode) && s.next.Some?
    ensures var v := Visited(s.mode, s.mem, a, level, va);
            && (EntriesTranslate(s, v) ==> StageWalk(s, a, level, va) == WalkFrom(s.mode, s.mem, a, level, va))
            && (forall k :: 0 <= k < |v| && EntriesTranslate(s, v[..k]) && !EntryTranslates(s, v[k]) ==>
                  StageWalk(s, a, level, va) == Fault(NextStage, level + k))
    decreases NumLevels(s.mode) - level
  {
    hide PteAddressAt, WalkStep, ReadFields, EntryTranslates, EntriesTranslate, StageWalk, WalkFrom, Visited, Descends;
    var m, mem, address := s.mode, s.mem, PteAddressAt(s.mode, a, va, level);
    var v := Visited(m, mem, a, level, va);
    StageStep(s, a, level, va);
    if Descends(m, mem, address, level, va) {
      IsInMemory(m, mem, address, level, va);
      var next := ReadFields(m, mem[address]).address;
      var rest := Visited(m, mem, next, level + 1, va);
      NextStageDecides(s, next, level + 1, va);
      FirstTranslates(s, address, rest);
      forall k | 0 < k < |v|
        ensures v[k] == rest[k - 1]
        ensures EntriesTranslate(s, v[..k]) ==> EntryTranslates(s, address) && EntriesTranslate(s, rest[..k - 1])
      {
        assert v[..k] == [address] + rest[..k - 1];
        FirstTranslates(s, address, rest[..k - 1]);
      }
    } else {
      FirstTranslates(s, address, []);
    }
  }

  lemma {:induction false} IsInMemory(m: Mode, mem: map<nat, nat>, address: nat, level: nat, va: nat)
    requires level < NumLevels(m) && Descends(m, mem, address, level, va)
    ensures address in mem
  {
  }

  lemma {:induction false} TranslatesOrFaults(s: Stage, address: nat)
    requires s.next.Some?
    ensures EntryTranslates(s, address)
            <==> !StageWalk(s.next.value, s.next.value.start, 0, address).Fault?
  {
  }

  lemma {:induction false} FirstTranslates(s: Stage, first: nat, rest: seq<nat>)
    requires s.next.Some?
    ensures EntriesTranslate(s, [first] + rest) <==> EntryTranslates(s, first) && EntriesTranslate(s, rest)
  {
    hide EntryTranslates;
    var all := [first] + rest;
    assert all[0] == first;
    assert forall k :: 0 <= k < |rest| ==> all[k + 1] == rest[k];
    if EntryTranslates(s, first) && EntriesTranslate(s, rest) {
      forall k | 0 <= k < |all|
        ensures EntryTranslates(s, all[k])
      {
        assert k > 0 ==> all[k] == rest[k - 1];
      }
    }
  }

  /** When every visited entry translates in a last next stage, the two-stage walk is the walk. */
  lemma {:induction false} TwoStageIsOneStage(s: Stage, a: nat, level: nat, va: nat)
    requires level < NumLevels(s.mode) && s.next.Some? && s.next.value.next.None?
    requires forall k :: 0 <= k < |Visited(s.mode, s.mem, a, level, va)| ==>
               var g := s.next.value;
               WalkFrom(g.mode, g.mem, g.start, 0, Visited(s.mode, s.mem, a, level, va)[k]).Translated?
    ensures StageWalk(s, a, level, va) == WalkFrom(s.mode, s.mem, a, level, va)
  {
    hide Visited, StageWalk, WalkFrom;
    var g, v := s.next.value, Visited(s.mode, s.mem, a, level, va);
    forall k | 0 <= k < |v|
      ensures EntryTranslates(s, v[k])
    {
      LastStage(g, g.start, 0, v[k]);
    }
    NextStageDecides(s, a, level, va);
  }

  /** Built tables whose pool is mapped to itself in the next stage: every entry a walk reads
      translates to itself there, and the two-stage walk gives exactly the first stage's result. */
  lemma {:induction false} NestedWalkNeverFaultsOnEntries(
    m: Mode, start: nat, max: nat, pages: seq<Page>, mem: map<nat, nat>, ms: seq<Mapping>,
    gm: Mode, gstart: nat, gmax: nat, gpages: seq<Page>, gmem: map<nat, nat>, gms: seq<Mapping>,
    attrs: Attributes, va: nat)
    requires PoolInReach(start, max) && Tables(m, start, max, pages, mem, Split(ms))
    requires PoolInReach(gstart, gmax) && Tables(gm, gstart, gmax, gpages, gmem, Split(gms))
    requires AllAccepted(gm, gms)
    requires PoolMapping(start, max, attrs) in gms && attrs.valid == 1 && attrs.xwr != 0
    ensures forall k :: 0 <= k < |Visited(m, mem, start, 0, va)| ==>
              var address := Visited(m, mem, start, 0, va)[k];
              WalkFrom(gm, gmem, gstart, 0, address) == Translated(address)
    ensures var stage := Stage(m, mem, start, Some(Stage(gm, gmem, gstart, None)));
            StageWalk(stage, start, 0, va) == WalkFrom(m, mem, start, 0, va)
  {
    hide Tables, Visited, WalkFrom, StageWalk, InPool, Split, Translates, Accepted, PoolMapping, PoolInReach;
    WalkStaysInPool(m, start, max, pages, mem, Split(ms), va);
    forall k | 0 <= k < |Visited(m, mem, start, 0, va)|
      ensures var address := Visited(m, mem, start, 0, va)[k];
              WalkFrom(gm, gmem, gstart, 0, address) == Translated(address)
    {
      var address := Visited(m, mem, start, 0, va)[k];
      var i :| 0 <= i < |gms| && gms[i] == PoolMapping(start, max, attrs);
      PoolMapsToItself(gm, start, max, attrs, address);
      BuiltTablesMeanMappings(gm, gstart, gmax, gpages, gmem, gms, address, address);
    }
    TwoStageIsOneStage(Stage(m, mem, start, Some(Stage(gm, gmem, gstart, None))), start, 0, va);
  }

  /** The target's own loads: with the pool mapped to itself by the very tables it walks, every
      entry its walker loads is at an address those tables translate to itself. */
  lemma {:induction false} OwnLoadsTranslate(
    m: Mode, start: nat, max: nat, pages: seq<Page>, mem: map<nat, nat>, ms: seq<Mapping>,
    attrs: Attributes, va: nat)
    requires PoolInReach(start, max) && Tables(m, start, max, pages, mem, Split(ms))
    requires AllAccepted(m, ms)
    requires PoolMapping(start, max, attrs) in ms && attrs.valid == 1 && attrs.xwr != 0
    ensures forall k :: 0 <= k < |WalkWords(m, mem, start, 0, va).addresses| ==>
              var address := WalkWords(m, mem, start, 0, va).addresses[k];
              WalkFrom(m, mem, start, 0, address) == Translated(address)
  {
    hide Tables, Visited, WalkFrom, StageWalk, Split, Accepted, PoolMapping, WalkWords, Pow2;
    TablesAreAllocated(m, start, max, pages, mem, Split(ms));
    RootTable(m, start, max, pages, va);
    TableInReach(m, start, max, pages, va, 0);
    WalkersAgree(m, mem, start, 0, va);
    NestedWalkNeverFaultsOnEntries(m, start, max, pages, mem, ms, m, start, max, pages, mem, ms, attrs, va);
  }
}
