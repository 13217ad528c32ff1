/** The emitted page-table section: a run of words and gaps that, placed at the start of the pool,
    is the page-table memory. */
module Emission {
  import opened Bits
  import opened Modes
  import opened Pte
  import opened PageTables
  import opened PageTableBuilder

  datatype Directive = Skip(bytes: nat) | Quad(value: nat) {
    function Bytes(): nat { if Skip? then bytes else PTE_SIZE }
  }

  /** Bytes a run of directives takes. */
  function Extent(ds: seq<Directive>): nat {
    if ds == [] then 0 else Extent(ds[..|ds| - 1]) + ds[|ds| - 1].Bytes()
  }

  /** The word the assembler leaves at an address when the run starts at base; gaps are zero. */
  function WordAt(ds: seq<Directive>, base: nat, address: nat): nat {
    if ds == [] then 0
    else
      var n := |ds| - 1;
      if ds[n].Quad? && base + Extent(ds[..n]) == address then ds[n].value
      else WordAt(ds[..n], base, address)
  }

  ghost predicate Ascending(s: seq<nat>) {
    forall i, j :: 0 <= i < j < |s| ==> s[i] + PTE_SIZE <= s[j]
  }

  /** The run, placed at base, is the memory at the given addresses and zero elsewhere. */
  ghost predicate Image(ds: seq<Directive>, base: nat, mem: map<nat, nat>, addresses: seq<nat>) {
    forall a: nat :: WordAt(ds, base, a) == if a in addresses && a in mem then mem[a] else 0
  }

  /** Writes the words at the sorted addresses of the memory, with gaps between those that do not
      follow each other. Placed at the first address, the run is the memory up to the last word. */
  method GeneratePageTables(mem: map<nat, nat>, addresses: seq<nat>) returns (ds: seq<Directive>)
    requires Ascending(addresses) && addresses != []
    requires forall a :: a in addresses ==> a in mem
    ensures Extent(ds) == addresses[|addresses| - 1] + PTE_SIZE - addresses[0]
    ensures Image(ds, addresses[0], mem, addresses)
  {
    hide Image, WordAt, Extent, Ascending;
    ds := [];
    var last := 0;
    EmptyImage(addresses[0], mem);
    for i := 0 to |addresses|
      invariant i > 0 ==> last == addresses[i - 1]
      invariant Extent(ds) == if i == 0 then 0 else last + PTE_SIZE - addresses[0]
      invariant Image(ds, addresses[0], mem, addresses[..i])
    {
      var address := addresses[i];
      AscendingAt(addresses, i);
      if i > 0 && address != last + PTE_SIZE {
        var gap := address - (last + PTE_SIZE);
        AppendSkip(ds, gap, addresses[0], mem, addresses[..i]);
        ds := ds + [Skip(gap)];
      }
      AppendQuad(ds, addresses[0], mem, addresses[..i], address);
      ds := ds + [Quad(mem[address])];
      assert addresses[..i + 1] == addresses[..i] + [address];
      last := address;
    }
    assert addresses[..|addresses|] == addresses;
  }

  lemma {:induction false} EmptyImage(base: nat, mem: map<nat, nat>)
    ensures Image([], base, mem, []) && Extent([]) == 0
  {
  }

  lemma {:induction false} AscendingAt(s: seq<nat>, i: nat)
    requires Ascending(s) && i < |s|
    ensures s[0] <= s[i] && (i > 0 ==> s[0] <= s[i - 1] && s[i - 1] + PTE_SIZE <= s[i])
  {
    assert i > 0 ==> s[0] + PTE_SIZE <= s[i];
  }

  lemma {:induction false} AppendSkip(ds: seq<Directive>, bytes: nat, base: nat, mem: map<nat, nat>, done: seq<nat>)
    ensures Extent(ds + [Skip(bytes)]) == Extent(ds) + bytes
    ensures Image(ds, base, mem, done) ==> Image(ds + [Skip(bytes)], base, mem, done)
  {
    assert (ds + [Skip(bytes)])[..|ds|] == ds;
  }

  lemma {:induction false} AppendQuad(ds: seq<Directive>, base: nat, mem: map<nat, nat>, done: seq<nat>, address: nat)
    requires address in mem && base + Extent(ds) == address
    ensures Extent(ds + [Quad(mem[address])]) == Extent(ds) + PTE_SIZE
    ensures Image(ds, base, mem, done) ==> Image(ds + [Quad(mem[address])], base, mem, done + [address])
  {
    var longer := ds + [Quad(mem[address])];
    assert longer[..|ds|] == ds;
    forall a: nat | Image(ds, base, mem, done)
      ensures WordAt(longer, base, a) == if a in done + [address] && a in mem then mem[a] else 0
    {
      assert a in done + [address] <==> a in done || a == address;
    }
  }

  // ---------------------------------------------------------------- the memory of a build

  /** What sorting the keys of the memory gives. */
  ghost predicate SortedKeys(mem: map<nat, nat>, addresses: seq<nat>) {
    && (forall i, j :: 0 <= i < j < |addresses| ==> addresses[i] < addresses[j])
    && (forall a :: a in addresses <==> a in mem)
  }

  /** Every word of a build's memory lies in the tables, at a multiple of its size. */
  lemma {:induction false} KeyInTables(
    m: Mode, start: nat, max: nat, pages: seq<Page>, mem: map<nat, nat>, es: seq<Entry>, a: nat)
    requires Tables(m, start, max, pages, mem, es) && a in mem
    ensures a % PTE_SIZE == 0 && start <= a && a + PTE_SIZE <= start + PoolBytes(m, |pages|)
  {
    hide StartVa, Idx, PagesOk, IsTraced, Written, PoolBytes, PagetableSizes;
    PoolEnds(m, start, max, pages);
    if IsTraced(m, pages, es, |es|, 0, a) {
      var va, l := TracedAddress(m, pages, es, a);
      var p := FindPage(pages, l, StartVa(m, va, l));
      AddressAligned(m, start, max, pages, va, l);
      TableHoldsIndices(m, l, va);
      TableWithinPool(m, start, max, pages, p);
    }
  }

  lemma {:induction false} TracedAddress(m: Mode, pages: seq<Page>, es: seq<Entry>, a: nat) returns (va: nat, l: nat)
    requires IsTraced(m, pages, es, |es|, 0, a)
    ensures Has(m, pages, va, l) && AddressOf(m, pages, va, l) == a
  {
    hide StartVa, Idx;
    var i: nat, k: nat :| Done(m, es, |es|, 0, i, k) && AddressIs(m, pages, es[i].va, k, a);
    va, l := es[i].va, k;
  }

  lemma {:induction false} TableWithinPool(m: Mode, start: nat, max: nat, pages: seq<Page>, p: nat)
    requires PagesOk(m, start, max, pages) && p < |pages|
    ensures pages[p].level < NumLevels(m) && pages[p].size == PagetableSizes(m)[pages[p].level]
    ensures start <= pages[p].pa && pages[p].pa + pages[p].size <= start + PoolBytes(m, |pages|)
  {
    assert PageOk(m, start, pages[p], p);
    TableHoldsIndices(m, pages[p].level, 0);
    TableHoldsIndices(m, 0, 0);
  }

  /** The tables fill the used part of the pool from its start to its end. */
  lemma {:induction false} PoolEnds(m: Mode, start: nat, max: nat, pages: seq<Page>)
    requires PagesOk(m, start, max, pages) && pages != []
    ensures pages[0].pa == start && start % PTE_SIZE == 0
    ensures var last := pages[|pages| - 1]; last.pa + last.size == start + PoolBytes(m, |pages|)
    ensures PoolBytes(m, |pages|) >= SIZE_4K && PoolBytes(m, |pages|) % PTE_SIZE == 0
  {
    hide PagetableSizes, StartVa, DistinctKeys, TableShift, ShiftLeft, ShiftRight, Pow2;
    var n := |pages| - 1;
    assert PageOk(m, start, pages[0], 0) && PageOk(m, start, pages[n], n);
    TableHoldsIndices(m, 0, 0);
    TableHoldsIndices(m, pages[n].level, 0);
    StillAligned(start, PagetableSizes(m)[0], 0);
    AlignedToEntry(start);
    PoolBytesAligned(PagetableSizes(m)[0], n);
  }

  lemma {:induction false} AlignedToEntry(x: nat)
    requires x % SIZE_4K == 0
    ensures x % PTE_SIZE == 0
  {
  }

  lemma {:induction false} PoolBytesAligned(root: nat, n: nat)
    requires root == SIZE_4K || root == 4 * SIZE_4K
    ensures (root + n * SIZE_4K) % PTE_SIZE == 0
  {
  }

  /** The addresses a build leaves are far enough apart to be emitted, start at the pool's start
      and end where the last table ends, so the section spans exactly the tables. */
  lemma {:induction false} EmissionSpansTables(
    m: Mode, start: nat, max: nat, pages: seq<Page>, mem: map<nat, nat>, es: seq<Entry>, addresses: seq<nat>)
    requires Tables(m, start, max, pages, mem, es) && Covered(m, pages, mem) && SortedKeys(mem, addresses)
    ensures Ascending(addresses) && addresses != [] && addresses[0] == start
    ensures addresses[|addresses| - 1] + PTE_SIZE - addresses[0] == PoolBytes(m, |pages|)
  {
    hide PagesOk, IsTraced, Written, PoolBytes;
    PoolEnds(m, start, max, pages);
    forall a | a in addresses
      ensures a % PTE_SIZE == 0 && start <= a && a + PTE_SIZE <= start + PoolBytes(m, |pages|)
    {
      KeyInTables(m, start, max, pages, mem, es, a);
    }
    var n := |addresses|;
    var first: nat :| first < n && addresses[first] == start;
    var end := start + PoolBytes(m, |pages|) - PTE_SIZE;
    var last: nat :| last < n && addresses[last] == end;
    assert addresses[0] in addresses && addresses[n - 1] in addresses;
    forall i, j | 0 <= i < j < n
      ensures addresses[i] + PTE_SIZE <= addresses[j]
    {
      assert addresses[i] in addresses && addresses[j] in addresses;
      NextMultiple(addresses[i], addresses[j]);
    }
  }

  lemma {:induction false} NextMultiple(a: nat, b: nat)
    requires a % PTE_SIZE == 0 && b % PTE_SIZE == 0 && a < b
    ensures a + PTE_SIZE <= b
  {
  }
}
