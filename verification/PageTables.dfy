/** The page-table builder: compiles memory mappings into sparse page-table memory. */
module PageTables {
  import opened Bits
  import opened Modes
  import opened Pte
  import opened Wrappers

  // ---------------------------------------------------------------- mappings and their pages

  /** A memory mapping; one without a source address is bare. */
  datatype Mapping = Mapping(
    source: Option<nat>, dest: nat, pageSize: nat, numPages: nat, attrs: Attributes)

  /** One page of a mapping. */
  datatype Entry = Entry(va: nat, pa: nat, pageSize: nat, attrs: Attributes)

  function PageOfMapping(mp: Mapping, k: nat): Entry
    requires mp.source.Some?
  {
    Entry(mp.source.value + k * mp.pageSize, mp.dest + k * mp.pageSize, mp.pageSize, mp.attrs)
  }

  function PagesOfMapping(mp: Mapping, n: nat): (es: seq<Entry>)
    requires mp.source.Some?
    ensures |es| == n
    ensures forall k :: 0 <= k < n ==> es[k] == PageOfMapping(mp, k)
  {
    if n == 0 then [] else PagesOfMapping(mp, n - 1) + [PageOfMapping(mp, n - 1)]
  }

  /** The pages of all the non-bare mappings, in order. */
  function Split(ms: seq<Mapping>): seq<Entry> {
    if ms == [] then []
    else
      var last := ms[|ms| - 1];
      Split(ms[..|ms| - 1]) + (if last.source.Some? then PagesOfMapping(last, last.numPages) else [])
  }

  method SplitMappings(ms: seq<Mapping>) returns (es: seq<Entry>)
    ensures es == Split(ms)
  {
    hide Split, PagesOfMapping, PageOfMapping;
    es := [];
    NoMappings(ms);
    for i := 0 to |ms|
      invariant es == Split(ms[..i])
    {
      SplitStep(ms, i);
      if ms[i].source.Some? {
        var va, pa := ms[i].source.value, ms[i].dest;
        ghost var before := es;
        NoPages(ms[i]);
        for k := 0 to ms[i].numPages
          invariant va == ms[i].source.value + k * ms[i].pageSize
          invariant pa == ms[i].dest + k * ms[i].pageSize
          invariant es == before + PagesOfMapping(ms[i], k)
        {
          PagesStep(ms[i], k);
          es := es + [Entry(va, pa, ms[i].pageSize, ms[i].attrs)];
          va, pa := va + ms[i].pageSize, pa + ms[i].pageSize;
        }
      }
    }
    assert ms[..|ms|] == ms;
  }

  lemma {:induction false} NoMappings(ms: seq<Mapping>)
    ensures Split(ms[..0]) == []
  {
  }

  lemma {:induction false} SplitStep(ms: seq<Mapping>, i: nat)
    requires i < |ms|
    ensures Split(ms[..i + 1])
            == Split(ms[..i]) + (if ms[i].source.Some? then PagesOfMapping(ms[i], ms[i].numPages) else [])
  {
    assert ms[..i + 1][..i] == ms[..i];
  }

  lemma {:induction false} NoPages(mp: Mapping)
    requires mp.source.Some?
    ensures PagesOfMapping(mp, 0) == []
  {
  }

  lemma {:induction false} PagesStep(mp: Mapping, k: nat)
    requires mp.source.Some?
    ensures PagesOfMapping(mp, k + 1)
            == PagesOfMapping(mp, k)
               + [Entry(mp.source.value + k * mp.pageSize, mp.dest + k * mp.pageSize, mp.pageSize, mp.attrs)]
    ensures (k + 1) * mp.pageSize == k * mp.pageSize + mp.pageSize
  {
  }

  /** The pages are those of the non-bare mappings, and no others. */
  lemma {:induction false} SplitMembers(ms: seq<Mapping>, e: Entry)
    ensures e in Split(ms) <==>
            exists i, k :: 0 <= i < |ms| && ms[i].source.Some? && 0 <= k < ms[i].numPages
                           && e == PageOfMapping(ms[i], k)
  {
    if ms != [] {
      var n := |ms| - 1;
      SplitMembers(ms[..n], e);
      if e in Split(ms[..n]) {
        var i, k :| 0 <= i < n && ms[..n][i].source.Some? && 0 <= k < ms[..n][i].numPages
                    && e == PageOfMapping(ms[..n][i], k);
        assert e == PageOfMapping(ms[i], k);
      }
      if i, k :| 0 <= i < |ms| && ms[i].source.Some? && 0 <= k < ms[i].numPages
                 && e == PageOfMapping(ms[i], k) {
        if i < n {
          assert ms[..n][i] == ms[i];
        } else {
          assert PagesOfMapping(ms[n], ms[n].numPages)[k] == e;
        }
      }
    }
  }

  /** And in order: those of the first mappings come first, */
  lemma {:induction false} SplitInOrder(ms: seq<Mapping>, ns: seq<Mapping>)
    ensures Split(ms + ns) == Split(ms) + Split(ns)
    decreases |ns|
  {
    hide PagesOfMapping;
    if ns == [] {
      assert ms + ns == ms;
    } else {
      var n := |ns| - 1;
      assert (ms + ns)[..|ms| + n] == ms + ns[..n];
      SplitInOrder(ms, ns[..n]);
    }
  }

  /** and of one mapping page after page. */
  lemma {:induction false} SplitOne(mp: Mapping, k: nat)
    requires mp.source.Some? && k < mp.numPages
    ensures |Split([mp])| == mp.numPages
    ensures Split([mp])[k]
            == Entry(mp.source.value + k * mp.pageSize, mp.dest + k * mp.pageSize, mp.pageSize, mp.attrs)
  {
    assert [mp][..0] == [];
    assert Split([mp]) == [] + PagesOfMapping(mp, mp.numPages);
  }

  function IndexOf(s: seq<nat>, x: nat): (i: nat)
    ensures i <= |s|
    ensures i < |s| ==> s[i] == x
    ensures forall j :: 0 <= j < i ==> s[j] != x
  {
    if s == [] || s[0] == x then 0 else 1 + IndexOf(s[1..], x)
  }

  /** The level of a page's leaf entry; the number of levels when the mode has no such page. */
  function Leaf(m: Mode, e: Entry): (l: nat)
    ensures l <= NumLevels(m)
  {
    IndexOf(PageSizes(m), e.pageSize)
  }

  // ---------------------------------------------------------------- table pages

  /** A page of page-table entries, serving the addresses from startVa on. */
  datatype Page = Page(pa: nat, level: nat, startVa: nat, rangeInBytes: nat, size: nat) {
    predicate Contains(va: nat, level: nat) {
      level == this.level && startVa <= va < startVa + rangeInBytes
    }
  }

  function CurrentSize(pages: seq<Page>): nat {
    if pages == [] then 0 else CurrentSize(pages[..|pages| - 1]) + pages[|pages| - 1].size
  }

  /** Bytes of a pool holding n tables: the root and n-1 others. */
  function PoolBytes(m: Mode, n: nat): nat {
    if n == 0 then 0 else PagetableSizes(m)[0] + (n - 1) * SIZE_4K
  }

  ghost predicate PageOk(m: Mode, start: nat, p: Page, i: nat) {
    && p.level < NumLevels(m)
    && (p.level == 0 <==> i == 0)
    && (p.level == 0 ==> p.startVa == 0)
    && p.pa == start + PoolBytes(m, i)
    && p.size == PagetableSizes(m)[p.level]
    && p.rangeInBytes == Pow2(TableShift(m, p.level))
    && p.startVa == ShiftLeft(ShiftRight(p.startVa, TableShift(m, p.level)), TableShift(m, p.level))
  }

  predicate SameKey(p: Page, level: nat, startVa: nat) { p.level == level && p.startVa == startVa }

  ghost predicate DistinctKeys(pages: seq<Page>) {
    forall i, j :: 0 <= i < j < |pages| ==> !SameKey(pages[i], pages[j].level, pages[j].startVa)
  }

  /** The allocator's invariant: tables fill the pool in order and no two serve the same
      level and address prefix. */
  ghost predicate PagesOk(m: Mode, start: nat, max: nat, pages: seq<Page>) {
    && (pages != [] ==> start % PagetableSizes(m)[0] == 0)
    && PoolBytes(m, |pages|) <= max * SIZE_4K
    && (forall i :: 0 <= i < |pages| ==> PageOk(m, start, pages[i], i))
    && DistinctKeys(pages)
  }

  /** Position of the table with this key; the number of tables when there is none. */
  function FindPage(pages: seq<Page>, level: nat, startVa: nat): (i: nat)
    ensures i <= |pages|
    ensures i < |pages| ==> SameKey(pages[i], level, startVa)
    ensures forall j :: 0 <= j < i ==> !SameKey(pages[j], level, startVa)
  {
    if pages == [] || SameKey(pages[0], level, startVa) then 0
    else 1 + FindPage(pages[1..], level, startVa)
  }

  lemma {:induction false} ContainsIsSameKey(m: Mode, start: nat, p: Page, i: nat, va: nat, level: nat)
    requires PageOk(m, start, p, i) && level < NumLevels(m)
    ensures p.Contains(And(va, VaMask(m)), level) <==> SameKey(p, level, StartVa(m, va, level))
  {
    if p.level == level {
      var s := TableShift(m, level);
      var masked, block := And(va, VaMask(m)), ShiftRight(p.startVa, s);
      InBlock(masked, block, s);
      HighLowUnique(ShiftRight(masked, s), 0, s);
    }
  }

  lemma {:induction false} CurrentSizeIs(m: Mode, start: nat, max: nat, pages: seq<Page>)
    requires PagesOk(m, start, max, pages)
    ensures CurrentSize(pages) == PoolBytes(m, |pages|)
  {
    hide PagetableSizes;
    if pages != [] {
      var n := |pages| - 1;
      CurrentSizeIs(m, start, max, pages[..n]);
      assert PageOk(m, start, pages[n], n);
      if n > 0 {
        Geometry(m, pages[n].level);
        TableHoldsIndices(m, pages[n].level, 0);
      }
    }
  }

  /** Tables do not overlap. */
  lemma {:induction false} PagesAscend(m: Mode, start: nat, max: nat, pages: seq<Page>, i: nat, j: nat)
    requires PagesOk(m, start, max, pages) && i < j < |pages|
    ensures pages[i].pa + pages[i].size <= pages[j].pa
  {
    assert PageOk(m, start, pages[i], i) && PageOk(m, start, pages[j], j);
    TableHoldsIndices(m, pages[i].level, 0);
  }

  // ---------------------------------------------------------------- entries in memory

  ghost predicate Has(m: Mode, pages: seq<Page>, va: nat, l: nat) {
    l < NumLevels(m) && FindPage(pages, l, StartVa(m, va, l)) < |pages|
  }

  ghost function TableOf(m: Mode, pages: seq<Page>, va: nat, l: nat): Page
    requires Has(m, pages, va, l)
  {
    pages[FindPage(pages, l, StartVa(m, va, l))]
  }

  /** Where the level-l entry for va is. */
  ghost function AddressOf(m: Mode, pages: seq<Page>, va: nat, l: nat): nat
    requires Has(m, pages, va, l)
  {
    TableOf(m, pages, va, l).pa + Idx(m, va, l) * PTE_SIZE
  }

  /** What the level-l entry of a page is: a pointer above its leaf level, the leaf at it. */
  ghost function ValueOf(m: Mode, pages: seq<Page>, e: Entry, l: nat): nat
    requires l < Leaf(m, e) ==> Has(m, pages, e.va, l + 1)
    requires l < NumLevels(m)
  {
    if l < Leaf(m, e)
    then NonLeafPte(m, TableOf(m, pages, e.va, l + 1).pa + Idx(m, e.va, l) * PTE_SIZE)
    else LeafPte(m, e.pa, e.attrs)
  }

  ghost predicate EntryAt(m: Mode, pages: seq<Page>, mem: map<nat, nat>, e: Entry, l: nat) {
    && Has(m, pages, e.va, l)
    && (l < Leaf(m, e) ==> Has(m, pages, e.va, l + 1) && Idx(m, e.va, 0) < 512)
    && AddressOf(m, pages, e.va, l) in mem
    && mem[AddressOf(m, pages, e.va, l)] == ValueOf(m, pages, e, l)
  }

  ghost predicate AddressIs(m: Mode, pages: seq<Page>, va: nat, l: nat, a: nat) {
    Has(m, pages, va, l) && AddressOf(m, pages, va, l) == a
  }

  /** Level l of page i has been written when the builder stands at level cur of page n. */
  ghost predicate Done(m: Mode, es: seq<Entry>, n: nat, cur: nat, i: nat, l: nat) {
    i < |es| && l < NumLevels(m) && l <= Leaf(m, es[i]) && (i < n || (i == n && l < cur))
  }

  ghost predicate Written(
    m: Mode, pages: seq<Page>, mem: map<nat, nat>, es: seq<Entry>, n: nat, cur: nat)
  {
    forall i: nat, l: nat :: Done(m, es, n, cur, i, l) ==> EntryAt(m, pages, mem, es[i], l)
  }

  ghost predicate IsTraced(m: Mode, pages: seq<Page>, es: seq<Entry>, n: nat, cur: nat, a: nat) {
    exists i: nat, l: nat :: Done(m, es, n, cur, i, l) && AddressIs(m, pages, es[i].va, l, a)
  }

  ghost predicate Traced(
    m: Mode, pages: seq<Page>, mem: map<nat, nat>, es: seq<Entry>, n: nat, cur: nat)
  {
    forall a :: a in mem ==> IsTraced(m, pages, es, n, cur, a)
  }

  /** The level and address prefix of every table the pages need. */
  ghost function NeededKeys(m: Mode, es: seq<Entry>): set<(nat, nat)> {
    set i: nat, l: nat | i < |es| && l < NumLevels(m) && l <= Leaf(m, es[i])
      :: (l, StartVa(m, es[i].va, l))
  }

  ghost function PageKeys(pages: seq<Page>): set<(nat, nat)> {
    set i: nat | i < |pages| :: (pages[i].level, pages[i].startVa)
  }

  // ---------------------------------------------------------------- when a build succeeds

  /** The mode has the page size, and a page below the root level has a root index whose table
      pointer fits the next table. */
  predicate Placeable(m: Mode, e: Entry) {
    && Leaf(m, e) < NumLevels(m)
    && (Leaf(m, e) > 0 ==> Idx(m, e.va, 0) < 512)
  }

  predicate WellFormed(m: Mode, e: Entry) {
    Placeable(m, e) && e.attrs.xwr != 2 && e.attrs.xwr != 6
  }

  function Min(a: nat, b: nat): nat { if a <= b then a else b }

  /** Two pages that share an address are the same page with the same leaf entry. */
  predicate Compatible(m: Mode, e: Entry, f: Entry)
    requires Placeable(m, e) && Placeable(m, f)
  {
    var k := Min(Leaf(m, e), Leaf(m, f));
    Slot(m, e.va, k) == Slot(m, f.va, k) ==>
      Leaf(m, e) == Leaf(m, f) && LeafPte(m, e.pa, e.attrs) == LeafPte(m, f.pa, f.attrs)
  }

  ghost predicate AllWellFormed(m: Mode, es: seq<Entry>) {
    forall i :: 0 <= i < |es| ==> WellFormed(m, es[i])
  }

  ghost predicate AllCompatible(m: Mode, es: seq<Entry>)
    requires AllWellFormed(m, es)
  {
    forall i, j :: 0 <= i < j < |es| ==> Compatible(m, es[i], es[j])
  }

  ghost predicate PoolSuffices(m: Mode, max: nat, es: seq<Entry>) {
    PoolBytes(m, |NeededKeys(m, es)|) <= max * SIZE_4K
  }

  ghost predicate Buildable(m: Mode, start: nat, max: nat, es: seq<Entry>) {
    && es != []
    && AllWellFormed(m, es)
    && AllCompatible(m, es)
    && start % PagetableSizes(m)[0] == 0
    && PoolSuffices(m, max, es)
  }

  /** What a finished build leaves behind: every level of every page is in memory, and nothing
      else is but zeroes. */
  ghost predicate Tables(
    m: Mode, start: nat, max: nat, pages: seq<Page>, mem: map<nat, nat>, es: seq<Entry>)
  {
    && es != []
    && AllWellFormed(m, es)
    && PagesOk(m, start, max, pages)
    && pages != []
    && Written(m, pages, mem, es, |es|, 0)
    && (forall a :: a in mem ==> IsTraced(m, pages, es, |es|, 0, a) || (mem[a] == 0 && IsEnd(pages, a)))
  }

  /** The address of the first or the last entry of the used part of the pool. */
  ghost predicate IsEnd(pages: seq<Page>, a: nat) {
    pages != [] && (a == pages[0].pa || a + PTE_SIZE == pages[|pages| - 1].pa + pages[|pages| - 1].size)
  }

  // ---------------------------------------------------------------- growing and writing

  lemma {:induction false} FindPageStable(pages: seq<Page>, more: seq<Page>, level: nat, startVa: nat)
    requires pages <= more && FindPage(pages, level, startVa) < |pages|
    ensures FindPage(more, level, startVa) == FindPage(pages, level, startVa)
  {
    assert forall k :: 0 <= k < |pages| ==> more[k] == pages[k];
  }

  lemma {:induction false} HasStable(m: Mode, pages: seq<Page>, more: seq<Page>, va: nat, l: nat)
    requires pages <= more && Has(m, pages, va, l)
    ensures Has(m, more, va, l)
    ensures TableOf(m, more, va, l) == TableOf(m, pages, va, l)
  {
    hide LeafPte, NonLeafPte, StartVa, Idx, Slot, PagetableSizes;
    FindPageStable(pages, more, l, StartVa(m, va, l));
  }

  /** Allocating tables does not disturb what has been written. */
  lemma {:induction false} GrowKeeps(m: Mode, pages: seq<Page>, more: seq<Page>, mem: map<nat, nat>,
                  es: seq<Entry>, n: nat, cur: nat)
    requires pages <= more
    requires Written(m, pages, mem, es, n, cur) && Traced(m, pages, mem, es, n, cur)
    ensures Written(m, more, mem, es, n, cur) && Traced(m, more, mem, es, n, cur)
  {
    hide LeafPte, NonLeafPte, StartVa, Idx, Slot, PagetableSizes;
    forall i: nat, l: nat | Done(m, es, n, cur, i, l)
      ensures EntryAt(m, more, mem, es[i], l)
    {
      GrowEntry(m, pages, more, mem, es[i], l);
    }
    GrowTraced(m, pages, more, mem, es, n, cur);
  }

  lemma {:induction false} GrowEntry(m: Mode, pages: seq<Page>, more: seq<Page>, mem: map<nat, nat>, e: Entry, l: nat)
    requires pages <= more && EntryAt(m, pages, mem, e, l)
    ensures EntryAt(m, more, mem, e, l)
  {
    hide LeafPte, NonLeafPte, StartVa, Idx, Slot, PagetableSizes;
    HasStable(m, pages, more, e.va, l);
    if l < Leaf(m, e) {
      HasStable(m, pages, more, e.va, l + 1);
    }
  }

  lemma {:induction false} GrowTraced(m: Mode, pages: seq<Page>, more: seq<Page>, mem: map<nat, nat>,
                   es: seq<Entry>, n: nat, cur: nat)
    requires pages <= more && Traced(m, pages, mem, es, n, cur)
    ensures Traced(m, more, mem, es, n, cur)
  {
    hide LeafPte, NonLeafPte, StartVa, Idx, Slot, PagetableSizes;
    forall a | a in mem
      ensures IsTraced(m, more, es, n, cur, a)
    {
      TracedGrown(m, pages, more, es, n, cur, a);
    }
  }

  lemma {:induction false} TracedGrown(m: Mode, pages: seq<Page>, more: seq<Page>, es: seq<Entry>, n: nat,
      cur: nat, a: nat)
    requires pages <= more && IsTraced(m, pages, es, n, cur, a)
    ensures IsTraced(m, more, es, n, cur, a)
  {
    hide LeafPte, NonLeafPte, StartVa, Idx, Slot, PagetableSizes;
    var i: nat, l: nat :| Done(m, es, n, cur, i, l) && AddressIs(m, pages, es[i].va, l, a);
    HasStable(m, pages, more, es[i].va, l);
    assert AddressIs(m, more, es[i].va, l, a);
  }

  /** Writing one more level, over nothing or over the same value, keeps both directions. */
  lemma {:induction false} WriteKeeps(m: Mode, pages: seq<Page>, mem: map<nat, nat>, mem': map<nat, nat>,
                   es: seq<Entry>, n: nat, cur: nat)
    requires n < |es| && cur <= Leaf(m, es[n]) && cur < NumLevels(m)
    requires Written(m, pages, mem, es, n, cur) && Traced(m, pages, mem, es, n, cur)
    requires Has(m, pages, es[n].va, cur)
    requires cur < Leaf(m, es[n]) ==> Has(m, pages, es[n].va, cur + 1) && Idx(m, es[n].va, 0) < 512
    requires var a := AddressOf(m, pages, es[n].va, cur);
             var v := ValueOf(m, pages, es[n], cur);
             (a in mem ==> mem[a] == v) && mem' == mem[a := v]
    ensures Written(m, pages, mem', es, n, cur + 1) && Traced(m, pages, mem', es, n, cur + 1)
  {
    hide LeafPte, NonLeafPte, StartVa, Idx, Slot, PagetableSizes;
    var a := AddressOf(m, pages, es[n].va, cur);
    forall i: nat, l: nat | Done(m, es, n, cur + 1, i, l)
      ensures EntryAt(m, pages, mem', es[i], l)
    {
      if i != n || l != cur {
        assert Done(m, es, n, cur, i, l);
        EntryKept(m, pages, mem, mem', es[i], l, a);
      }
    }
    forall b | b in mem'
      ensures IsTraced(m, pages, es, n, cur + 1, b)
    {
      if b in mem {
        TracedLater(m, pages, es, n, cur, b);
      } else {
        assert Done(m, es, n, cur + 1, n, cur) && AddressIs(m, pages, es[n].va, cur, b);
      }
    }
  }

  lemma {:induction false} EntryKept(m: Mode, pages: seq<Page>, mem: map<nat, nat>, mem': map<nat, nat>,
                  e: Entry, l: nat, a: nat)
    requires EntryAt(m, pages, mem, e, l) && a in mem'
    requires (a in mem ==> mem[a] == mem'[a]) && mem' == mem[a := mem'[a]]
    ensures EntryAt(m, pages, mem', e, l)
  {
    hide LeafPte, NonLeafPte, StartVa, Idx, Slot, PagetableSizes, ValueOf;
  }

  lemma {:induction false} TracedLater(m: Mode, pages: seq<Page>, es: seq<Entry>, n: nat, cur: nat, b: nat)
    requires IsTraced(m, pages, es, n, cur, b)
    ensures IsTraced(m, pages, es, n, cur + 1, b)
  {
    hide LeafPte, NonLeafPte, StartVa, Idx, Slot, PagetableSizes;
    var i: nat, l: nat :| Done(m, es, n, cur, i, l) && AddressIs(m, pages, es[i].va, l, b);
    assert Done(m, es, n, cur + 1, i, l);
  }

  /** Past a page's leaf level, the builder stands at the next page. */
  lemma {:induction false} NextEntry(m: Mode, pages: seq<Page>, mem: map<nat, nat>, es: seq<Entry>, n: nat)
    requires n < |es| && Leaf(m, es[n]) < NumLevels(m)
    requires Written(m, pages, mem, es, n, Leaf(m, es[n]) + 1)
    requires Traced(m, pages, mem, es, n, Leaf(m, es[n]) + 1)
    ensures Written(m, pages, mem, es, n + 1, 0) && Traced(m, pages, mem, es, n + 1, 0)
  {
    hide LeafPte, NonLeafPte, StartVa, Idx, Slot, PagetableSizes;
    var cur := Leaf(m, es[n]) + 1;
    assert forall i: nat, l: nat :: Done(m, es, n + 1, 0, i, l) <==> Done(m, es, n, cur, i, l);
    forall a | a in mem
      ensures IsTraced(m, pages, es, n + 1, 0, a)
    {
      assert IsTraced(m, pages, es, n, cur, a);
      var i: nat, l: nat :| Done(m, es, n, cur, i, l) && AddressIs(m, pages, es[i].va, l, a);
      assert Done(m, es, n + 1, 0, i, l);
    }
  }

  /** An entry's address names its level, its table and its index. */
  lemma {:induction false} SameAddress(m: Mode, start: nat, max: nat, pages: seq<Page>, va: nat, l: nat, vb: nat,
      k: nat)
    requires PagesOk(m, start, max, pages) && Has(m, pages, va, l) && Has(m, pages, vb, k)
    requires AddressOf(m, pages, va, l) == AddressOf(m, pages, vb, k)
    ensures l == k && StartVa(m, va, l) == StartVa(m, vb, k) && Idx(m, va, l) == Idx(m, vb, k)
  {
    hide StartVa, Idx, PagetableSizes;
    var i, j := FindPage(pages, l, StartVa(m, va, l)), FindPage(pages, k, StartVa(m, vb, k));
    TableHoldsIndices(m, l, va);
    TableHoldsIndices(m, k, vb);
    assert PageOk(m, start, pages[i], i) && PageOk(m, start, pages[j], j);
    if i < j {
      PagesAscend(m, start, max, pages, i, j);
    } else if j < i {
      PagesAscend(m, start, max, pages, j, i);
    }
  }

  /** The entry two addresses share is the entry of their common page number. */
  lemma {:induction false} SharedEntryIsSharedSlot(m: Mode, va: nat, vb: nat, l: nat)
    requires l < NumLevels(m)
    requires l > 0 ==> Idx(m, va, 0) < 512 && Idx(m, vb, 0) < 512
    ensures (StartVa(m, va, l) == StartVa(m, vb, l) && Idx(m, va, l) == Idx(m, vb, l))
            <==> Slot(m, va, l) == Slot(m, vb, l)
  {
    hide StartVa, Idx, Slot;
    SlotStep(m, va, l);
    SlotStep(m, vb, l);
    if l == 0 {
      RootStart(m, va);
      RootStart(m, vb);
    } else {
      SameTableSameSlot(m, va, vb, l);
    }
  }

  /** A conflicting write means an earlier page that is not compatible. */
  lemma {:induction false} ConflictIsIncompatible(m: Mode, start: nat, max: nat, pages: seq<Page>, mem: map<nat, nat>,
                               es: seq<Entry>, n: nat, cur: nat) returns (i: nat)
    requires n < |es| && cur <= Leaf(m, es[n]) && Placeable(m, es[n])
    requires forall k :: 0 <= k < n ==> Placeable(m, es[k])
    requires PagesOk(m, start, max, pages)
    requires Written(m, pages, mem, es, n, cur) && Traced(m, pages, mem, es, n, cur)
    requires Has(m, pages, es[n].va, cur)
    requires cur < Leaf(m, es[n]) ==> Has(m, pages, es[n].va, cur + 1)
    requires AddressOf(m, pages, es[n].va, cur) in mem
    requires mem[AddressOf(m, pages, es[n].va, cur)] != ValueOf(m, pages, es[n], cur)
    ensures i < n && !Compatible(m, es[i], es[n])
  {
    hide LeafPte, NonLeafPte, StartVa, Idx, Slot, PagetableSizes;
    var a := AddressOf(m, pages, es[n].va, cur);
    assert IsTraced(m, pages, es, n, cur, a);
    var j: nat, l: nat :| Done(m, es, n, cur, j, l) && AddressIs(m, pages, es[j].va, l, a);
    SameAddress(m, start, max, pages, es[j].va, l, es[n].va, cur);
    assert j < n && EntryAt(m, pages, mem, es[j], cur);
    i := j;
    if Compatible(m, es[i], es[n]) {
      CompatibleAgree(m, pages, es[i], es[n], cur);
    }
  }

  /** Compatible pages that share an entry write the same value there. */
  lemma {:induction false} CompatibleAgree(m: Mode, pages: seq<Page>, e: Entry, f: Entry, l: nat)
    requires Placeable(m, e) && Placeable(m, f) && Compatible(m, e, f)
    requires l <= Leaf(m, e) && l <= Leaf(m, f)
    requires l < Leaf(m, e) ==> Has(m, pages, e.va, l + 1)
    requires l < Leaf(m, f) ==> Has(m, pages, f.va, l + 1)
    requires StartVa(m, e.va, l) == StartVa(m, f.va, l) && Idx(m, e.va, l) == Idx(m, f.va, l)
    ensures ValueOf(m, pages, e, l) == ValueOf(m, pages, f, l)
  {
    hide LeafPte, NonLeafPte, StartVa, Idx, Slot, PagetableSizes;
    SharedEntryIsSharedSlot(m, e.va, f.va, l);
    if l < Min(Leaf(m, e), Leaf(m, f)) {
      SameTableSameSlot(m, e.va, f.va, l + 1);
    }
  }

  /** Pages that are all in memory are compatible: memory holds one value per entry. */
  lemma {:induction false} WrittenIsCompatible(m: Mode, pages: seq<Page>, mem: map<nat, nat>, es: seq<Entry>)
    requires AllWellFormed(m, es) && Written(m, pages, mem, es, |es|, 0)
    ensures AllCompatible(m, es)
  {
    hide LeafPte, NonLeafPte, StartVa, Idx, Slot, PagetableSizes;
    forall i, j | 0 <= i < j < |es|
      ensures Compatible(m, es[i], es[j])
    {
      var k := Min(Leaf(m, es[i]), Leaf(m, es[j]));
      assert Done(m, es, |es|, 0, i, k) && Done(m, es, |es|, 0, j, k);
      OneValuePerEntry(m, pages, mem, es[i], es[j]);
    }
  }

  lemma {:induction false} OneValuePerEntry(m: Mode, pages: seq<Page>, mem: map<nat, nat>, e: Entry, f: Entry)
    requires WellFormed(m, e) && WellFormed(m, f)
    requires EntryAt(m, pages, mem, e, Min(Leaf(m, e), Leaf(m, f)))
    requires EntryAt(m, pages, mem, f, Min(Leaf(m, e), Leaf(m, f)))
    ensures Compatible(m, e, f)
  {
    hide LeafPte, NonLeafPte, StartVa, Idx, Slot, PagetableSizes;
    var k := Min(Leaf(m, e), Leaf(m, f));
    if Slot(m, e.va, k) == Slot(m, f.va, k) {
      SharedEntryIsSharedSlot(m, e.va, f.va, k);
      if k < Leaf(m, f) {
        LeafIsNotNonLeaf(m, e.pa, e.attrs, TableOf(m, pages, f.va, k + 1).pa + Idx(m, f.va, k) * PTE_SIZE);
      } else if k < Leaf(m, e) {
        LeafIsNotNonLeaf(m, f.pa, f.attrs, TableOf(m, pages, e.va, k + 1).pa + Idx(m, e.va, k) * PTE_SIZE);
      }
    }
  }

  // ---------------------------------------------------------------- counting tables

  lemma {:induction false} PageKeysCount(pages: seq<Page>)
    requires DistinctKeys(pages)
    ensures |PageKeys(pages)| == |pages|
  {
    if pages != [] {
      var n := |pages| - 1;
      var key := (pages[n].level, pages[n].startVa);
      PageKeysCount(pages[..n]);
      PageKeysStep(pages);
      assert key !in PageKeys(pages[..n]);
    }
  }

  lemma {:induction false} PageKeysStep(pages: seq<Page>)
    requires pages != []
    ensures var n := |pages| - 1;
            PageKeys(pages) == PageKeys(pages[..n]) + {(pages[n].level, pages[n].startVa)}
  {
    var n := |pages| - 1;
    forall k | k in PageKeys(pages[..n])
      ensures k in PageKeys(pages)
    {
      var i: nat :| i < n && k == (pages[..n][i].level, pages[..n][i].startVa);
      assert k == (pages[i].level, pages[i].startVa);
    }
    forall k | k in PageKeys(pages)
      ensures k in PageKeys(pages[..n]) + {(pages[n].level, pages[n].startVa)}
    {
      var i: nat :| i < |pages| && k == (pages[i].level, pages[i].startVa);
      if i < n {
        assert k == (pages[..n][i].level, pages[..n][i].startVa);
      }
    }
  }

  lemma {:induction false} SubsetCount<T>(a: set<T>, b: set<T>)
    requires a <= b
    ensures |a| <= |b|
  {
    assert b == a + (b - a);
  }

  /** One table more than the pool holds, all of them needed: the pool does not suffice. */
  lemma {:induction false} PoolTooSmall(m: Mode, start: nat, max: nat, pages: seq<Page>, es: seq<Entry>, i: nat, l: nat)
    requires PagesOk(m, start, max, pages) && PageKeys(pages) <= NeededKeys(m, es)
    requires i < |es| && l < NumLevels(m) && l <= Leaf(m, es[i]) && !Has(m, pages, es[i].va, l)
    requires PoolBytes(m, |pages| + 1) > max * SIZE_4K
    ensures !PoolSuffices(m, max, es)
  {
    hide LeafPte, NonLeafPte, StartVa, Idx, Slot, PagetableSizes;
    var key := (l, StartVa(m, es[i].va, l));
    assert key in NeededKeys(m, es) && key !in PageKeys(pages);
    PageKeysCount(pages);
    SubsetCount(PageKeys(pages) + {key}, NeededKeys(m, es));
  }

  lemma {:induction false} PoolEnough(m: Mode, start: nat, max: nat, pages: seq<Page>, mem: map<nat, nat>,
      es: seq<Entry>)
    requires PagesOk(m, start, max, pages) && Written(m, pages, mem, es, |es|, 0)
    ensures PoolSuffices(m, max, es)
  {
    hide LeafPte, NonLeafPte, StartVa, Idx, Slot, PagetableSizes;
    forall key | key in NeededKeys(m, es)
      ensures key in PageKeys(pages)
    {
      var i: nat, l: nat :| i < |es| && l < NumLevels(m) && l <= Leaf(m, es[i])
                            && key == (l, StartVa(m, es[i].va, l));
      assert Done(m, es, |es|, 0, i, l);
      assert SameKey(TableOf(m, pages, es[i].va, l), l, StartVa(m, es[i].va, l));
    }
    SubsetCount(NeededKeys(m, es), PageKeys(pages));
    PageKeysCount(pages);
  }
}
