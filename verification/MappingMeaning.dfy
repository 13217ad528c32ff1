/** The walk of built tables in terms of the mappings they were built from. */
module MappingMeaning {
  import opened Bits
  import opened Modes
  import opened Pte
  import opened Wrappers
  import opened TableWalk
  import opened PageTables
  import opened PageTableBuilder
  import opened PageTableMeaning

  function Size(mp: Mapping): nat { mp.numPages * mp.pageSize }

  /** What the checks on a mapping and its caller's care guarantee: the mode has the page size,
      both addresses are multiples of it, and neither range leaves its address space. */
  predicate Accepted(m: Mode, mp: Mapping) {
    mp.source.Some? ==>
      && IndexOf(PageSizes(m), mp.pageSize) < NumLevels(m)
      && mp.dest % mp.pageSize == 0
      && mp.source.value % mp.pageSize == 0
      && mp.source.value % VaSpan(m) + Size(mp) <= VaSpan(m)
      && mp.dest + Size(mp) <= Pow2(56)
  }

  ghost predicate AllAccepted(m: Mode, ms: seq<Mapping>) {
    forall i :: 0 <= i < |ms| ==> Accepted(m, ms[i])
  }

  /** Distance of va from the start of the mapping, in the address space of the mode. */
  function Offset(m: Mode, mp: Mapping, va: nat): int
    requires mp.source.Some?
  {
    va % VaSpan(m) - mp.source.value % VaSpan(m)
  }

  /** The mapping covers va. */
  predicate Maps(m: Mode, mp: Mapping, va: nat) {
    mp.source.Some? && 0 <= Offset(m, mp, va) < Size(mp)
  }

  /** The mapping asks for va to translate to pa. */
  predicate Translates(m: Mode, mp: Mapping, va: nat, pa: nat) {
    && Maps(m, mp, va)
    && mp.attrs.valid == 1 && mp.attrs.xwr != 0
    && pa == mp.dest + Offset(m, mp, va)
  }

  lemma {:induction false} QuotientInterval(x: nat, s: nat, c: nat)
    requires s > 0
    ensures x / s == c <==> c * s <= x < c * s + s
    ensures x / s == c ==> x % s == x - c * s
  {
    if c * s <= x < c * s + s {
      DivModUnique(x, s, c, x - c * s);
    }
    assert x == x / s * s + x % s;
  }

  lemma {:induction false} PageSizeIs(m: Mode, size: nat)
    requires IndexOf(PageSizes(m), size) < NumLevels(m)
    ensures size == Span(m, IndexOf(PageSizes(m), size))
    ensures size == SIZE_4K || size == SIZE_2M || size == SIZE_1G || size == SIZE_512G
  {
  }

  /** The page sizes divide the address space. */
  lemma {:induction false} LowBitsOfSpace(m: Mode, va: nat, l: nat)
    requires l < NumLevels(m)
    ensures Span(m, l) > 0 && va % VaSpan(m) % Span(m, l) == va % Span(m, l)
  {
    hide Low, Pow2, Span, VaVpnBits;
    Geometry(m, l);
    SpanIs(m, l);
    ShiftRightIs(va, VaWidth(m));
    ShiftRightIs(va % VaSpan(m), Lsb(m, l));
    ShiftRightIs(va, Lsb(m, l));
    LowOfLow(va, Lsb(m, l), VaWidth(m));
  }

  /** What acceptance says of a mapping's page size, source and extent. */
  lemma {:induction false} AcceptedFacts(m: Mode, mp: Mapping)
    requires mp.source.Some? && Accepted(m, mp)
    ensures IndexOf(PageSizes(m), mp.pageSize) < NumLevels(m) && mp.pageSize > 0
    ensures Span(m, IndexOf(PageSizes(m), mp.pageSize)) == mp.pageSize
    ensures mp.source.value % VaSpan(m) + mp.numPages * mp.pageSize <= VaSpan(m)
    ensures mp.source.value % VaSpan(m) % mp.pageSize == 0
  {
    hide Span, VaSpan, PageSizes, Pow2;
    PageSizeIs(m, mp.pageSize);
    LowBitsOfSpace(m, mp.source.value, IndexOf(PageSizes(m), mp.pageSize));
  }

  /** Page k of a mapping covers the addresses at a distance of k pages and less than k+1. */
  lemma {:induction false} PageCovers(m: Mode, mp: Mapping, k: nat, va: nat)
    requires mp.source.Some? && Accepted(m, mp) && k < mp.numPages
    ensures Leaf(m, PageOfMapping(mp, k)) < NumLevels(m)
    ensures Covers(m, PageOfMapping(mp, k), va)
            <==> k * mp.pageSize <= Offset(m, mp, va) < k * mp.pageSize + mp.pageSize
    ensures Covers(m, PageOfMapping(mp, k), va) ==>
              PageOffset(m, va, Leaf(m, PageOfMapping(mp, k))) == Offset(m, mp, va) - k * mp.pageSize
  {
    hide Slot, Span, VaSpan, PageSizes, PageOffset, Accepted, IndexOf;
    var s, l := mp.pageSize, IndexOf(PageSizes(m), mp.pageSize);
    var base, x := mp.source.value % VaSpan(m), va % VaSpan(m);
    AcceptedFacts(m, mp);
    SlotIs(m, va, l);
    SlotIs(m, mp.source.value + k * s, l);
    LowBitsOfSpace(m, va, l);
    PageOffsetIs(m, va, l);
    PageStart(mp.source.value, VaSpan(m), s, k, mp.numPages);
    SameQuotient(base, x, s, k);
  }

  lemma {:induction false} SameQuotient(base: nat, x: nat, s: nat, k: nat)
    requires s > 0 && base % s == 0
    ensures x / s == base / s + k <==> k * s <= x - base < k * s + s
    ensures x / s == base / s + k ==> x % s == x - base - k * s
  {
    QuotientInterval(x, s, base / s + k);
    QuotientInterval(base, s, base / s);
    assert (base / s + k) * s == base / s * s + k * s;
  }

  /** The start of page k, reduced to the address space, is k pages past the start reduced. */
  lemma {:induction false} PageStart(source: nat, space: nat, s: nat, k: nat, n: nat)
    requires space > 0 && s > 0 && k < n
    requires source % space + n * s <= space && source % space % s == 0
    ensures (source + k * s) % space / s == source % space / s + k
  {
    var base := source % space;
    MulLess(k, n, s);
    assert source + k * s == source / space * space + (base + k * s);
    DivModUnique(source + k * s, space, source / space, base + k * s);
    assert base == base / s * s;
    assert base + k * s == (base / s + k) * s + 0;
    DivModUnique(base + k * s, s, base / s + k, 0);
  }

  /** The page of a mapping is placed where an entry can name it. */
  lemma {:induction false} PageDest(m: Mode, mp: Mapping, k: nat)
    requires mp.source.Some? && Accepted(m, mp) && k < mp.numPages
    ensures PageOf(mp.dest + k * mp.pageSize) == mp.dest + k * mp.pageSize
  {
    hide PageSizes, PageOf, VaSpan, Pow2;
    PageSizeIs(m, mp.pageSize);
    var pa := mp.dest + k * mp.pageSize;
    assert pa % SIZE_4K == 0 && pa < mp.dest + Size(mp) by {
      AlignedBelow(mp.dest, mp.pageSize, k, mp.numPages);
    }
    PageOfAligned(pa, 0);
  }

  lemma {:induction false} AlignedBelow(dest: nat, s: nat, k: nat, n: nat)
    requires s == SIZE_4K || s == SIZE_2M || s == SIZE_1G || s == SIZE_512G
    requires dest % s == 0 && k < n
    ensures (dest + k * s) % SIZE_4K == 0 && dest + k * s < dest + n * s
  {
    MultiplesAlign(dest, s, k);
    MulLess(k, n, s);
    AlignedTo4K(dest + k * s, s);
  }

  lemma {:induction false} AlignedTo4K(x: nat, s: nat)
    requires s == SIZE_4K || s == SIZE_2M || s == SIZE_1G || s == SIZE_512G
    requires x % s == 0
    ensures x % SIZE_4K == 0
  {
    var q, f := x / s, s / SIZE_4K;
    assert s == f * SIZE_4K && x == q * s;
    assert q * (f * SIZE_4K) == (q * f) * SIZE_4K;
    DivModUnique(x, SIZE_4K, q * f, 0);
  }

  /** The page of the mapping that covers a mapped address. */
  lemma {:induction false} MapsAtPage(m: Mode, mp: Mapping, va: nat) returns (k: nat)
    requires mp.source.Some? && Accepted(m, mp) && Maps(m, mp, va)
    ensures k < mp.numPages
    ensures k * mp.pageSize <= Offset(m, mp, va) < k * mp.pageSize + mp.pageSize
  {
    hide PageSizes, VaSpan, Offset;
    PageSizeIs(m, mp.pageSize);
    k := QuotientBelow(Offset(m, mp, va), mp.pageSize, mp.numPages);
  }

  lemma {:induction false} QuotientBelow(d: nat, s: nat, n: nat) returns (k: nat)
    requires s > 0 && d < n * s
    ensures k < n && k * s <= d < k * s + s
  {
    k := d / s;
    QuotientInterval(d, s, k);
    MulSign(k - n + 1, s);
    assert (k - n + 1) * s == k * s - n * s + s;
  }

  /** A walk at an address that some mapping covers gives what that mapping says. */
  lemma {:induction false} MappedWalk(m: Mode, start: nat, max: nat, pages: seq<Page>, mem: map<nat, nat>,
      ms: seq<Mapping>, i: nat, va: nat)
    requires AllAccepted(m, ms) && PoolInReach(start, max) && Tables(m, start, max, pages, mem, Split(ms))
    requires i < |ms| && Maps(m, ms[i], va)
    ensures var r := WalkFrom(m, mem, start, 0, va);
            if ms[i].attrs.valid == 1 && ms[i].attrs.xwr != 0
            then r == Translated(ms[i].dest + Offset(m, ms[i], va)) else r.Fault?
    ensures |Visited(m, mem, start, 0, va)| == IndexOf(PageSizes(m), ms[i].pageSize) + 1
  {
    hide Tables, Covers, Offset, PageOffset, WalkFrom, PageSizes, Pow2, PageOf, VaSpan, Split, IndexOf, Visited,
         EndsAt, LeafPte;
    var mp := ms[i];
    assert Accepted(m, mp);
    var k := MapsAtPage(m, mp, va);
    var e := PageOfMapping(mp, k);
    var j := PageIsSplit(ms, i, k);
    PageCovers(m, mp, k, va);
    PageDest(m, mp, k);
    TablesAreWellFormed(m, start, max, pages, mem, Split(ms), j);
    WalkMeaning(m, start, max, pages, mem, Split(ms), va);
  }

  /** The entry a walk ends at, at an address that some mapping covers: valid bit, permissions, user
      bit and memory type of the mapping, A and D set, and the number of the page of the mapping. */
  lemma {:induction false} MappedEntry(m: Mode, start: nat, max: nat, pages: seq<Page>, mem: map<nat, nat>,
      ms: seq<Mapping>, i: nat, va: nat)
    requires AllAccepted(m, ms) && PoolInReach(start, max) && Tables(m, start, max, pages, mem, Split(ms))
    requires i < |ms| && Maps(m, ms[i], va)
    ensures ms[i].pageSize > 0
    ensures var t, offset := ms[i].attrs, Offset(m, ms[i], va);
            var page := ms[i].dest + (offset - offset % ms[i].pageSize);
            var pbmt := match t.pbmt case PMA => 0 case NC => 1 case IO => 2;
            && page % 0x1000 == 0 && 0 <= page < 0x100_0000_0000_0000
            && EndsAt(m, mem, start, 0, va,
                      t.valid + 2 * t.xwr + 16 * UserBit(t) + 64 + 128 + page / 0x1000 * 0x400
                      + pbmt * 0x2000_0000_0000_0000)
  {
    hide Tables, Covers, Offset, PageOffset, WalkFrom, PageSizes, Pow2, PageOf, VaSpan, Split, IndexOf, Visited,
         EndsAt, LeafPte, UserBit;
    var mp := ms[i];
    assert Accepted(m, mp);
    var k := MapsAtPage(m, mp, va);
    var e := PageOfMapping(mp, k);
    var j := PageIsSplit(ms, i, k);
    PageCovers(m, mp, k, va);
    TablesAreWellFormed(m, start, max, pages, mem, Split(ms), j);
    WalkMeaning(m, start, max, pages, mem, Split(ms), va);
    QuotientInterval(Offset(m, mp, va), mp.pageSize, k);
    LeafIs(m, e.pa, mp.attrs);
    PageNumber(m, mp, k);
  }

  /** The number of page k of a mapping. */
  lemma {:induction false} PageNumber(m: Mode, mp: Mapping, k: nat)
    requires mp.source.Some? && Accepted(m, mp) && k < mp.numPages
    ensures (mp.dest + k * mp.pageSize) % 0x1000 == 0
    ensures (mp.dest + k * mp.pageSize) % 0x100_0000_0000_0000 == mp.dest + k * mp.pageSize
  {
    hide PageSizes, VaSpan, Pow2;
    PageSizeIs(m, mp.pageSize);
    LargePowers();
    AlignedBelow(mp.dest, mp.pageSize, k, mp.numPages);
    assert mp.dest + k * mp.pageSize < 0x100_0000_0000_0000;
  }

  lemma {:induction false} PageIsSplit(ms: seq<Mapping>, i: nat, k: nat) returns (j: nat)
    requires i < |ms| && ms[i].source.Some? && k < ms[i].numPages
    ensures j < |Split(ms)| && Split(ms)[j] == PageOfMapping(ms[i], k)
  {
    SplitMembers(ms, PageOfMapping(ms[i], k));
    j :| 0 <= j < |Split(ms)| && Split(ms)[j] == PageOfMapping(ms[i], k);
  }

  lemma {:induction false} TablesAreWellFormed(
    m: Mode, start: nat, max: nat, pages: seq<Page>, mem: map<nat, nat>, es: seq<Entry>, j: nat)
    requires Tables(m, start, max, pages, mem, es) && j < |es|
    ensures WellFormed(m, es[j])
  {
  }

  /** A walk at an address no mapping covers faults. */
  lemma {:induction false} UnmappedWalk(m: Mode, start: nat, max: nat, pages: seq<Page>, mem: map<nat, nat>,
      ms: seq<Mapping>, va: nat)
    requires AllAccepted(m, ms) && PoolInReach(start, max) && Tables(m, start, max, pages, mem, Split(ms))
    requires forall i :: 0 <= i < |ms| ==> !Maps(m, ms[i], va)
    ensures WalkFrom(m, mem, start, 0, va).Fault?
  {
    hide Tables, Covers, Offset, PageOffset, WalkFrom, PageSizes, Pow2, PageOf, VaSpan, Leaf, Accepted, Split,
         EndsAt, LeafPte;
    var es := Split(ms);
    forall j | 0 <= j < |es|
      ensures Leaf(m, es[j]) < NumLevels(m) && !Covers(m, es[j], va)
    {
      TablesAreWellFormed(m, start, max, pages, mem, es, j);
      SplitMembers(ms, es[j]);
      var i, k :| 0 <= i < |ms| && ms[i].source.Some? && 0 <= k < ms[i].numPages
                  && es[j] == PageOfMapping(ms[i], k);
      PageCovers(m, ms[i], k, va);
      PageInsideMapping(ms[i], k, Offset(m, ms[i], va));
    }
    WalkMeaning(m, start, max, pages, mem, es, va);
  }

  lemma {:induction false} PageInsideMapping(mp: Mapping, k: nat, d: int)
    requires k < mp.numPages
    ensures k * mp.pageSize <= d < k * mp.pageSize + mp.pageSize ==> 0 <= d < Size(mp)
  {
    MulLess(k, mp.numPages, mp.pageSize);
  }

  /** The compiler's correctness: whenever the build succeeds, walking the built tables gives a
      translation exactly when a mapping asks for it. */
  lemma {:induction false} BuiltTablesMeanMappings(
    m: Mode, start: nat, max: nat, pages: seq<Page>, mem: map<nat, nat>, ms: seq<Mapping>, va: nat, pa: nat)
    requires AllAccepted(m, ms) && PoolInReach(start, max) && Tables(m, start, max, pages, mem, Split(ms))
    ensures WalkFrom(m, mem, start, 0, va) == Translated(pa)
            <==> exists i :: 0 <= i < |ms| && Translates(m, ms[i], va, pa)
  {
    hide Tables, Offset, WalkFrom, PageSizes, Accepted, Split, Visited, Size;
    forall j | 0 <= j < |ms| && Translates(m, ms[j], va, pa)
      ensures WalkFrom(m, mem, start, 0, va) == Translated(pa)
    {
      MappedWalk(m, start, max, pages, mem, ms, j, va);
    }
    if WalkFrom(m, mem, start, 0, va) == Translated(pa) {
      if forall i :: 0 <= i < |ms| ==> !Maps(m, ms[i], va) {
        UnmappedWalk(m, start, max, pages, mem, ms, va);
        assert false;
      } else {
        var i :| 0 <= i < |ms| && Maps(m, ms[i], va);
        MappedWalk(m, start, max, pages, mem, ms, i, va);
        assert Translates(m, ms[i], va, pa);
      }
    }
  }

  /** The translation depends neither on the order of the mappings nor on where the tables are:
      two builds of the same set of mappings translate every address alike. */
  lemma {:induction false} OrderAndPlacementDoNotMatter(
    m: Mode, ms: seq<Mapping>, ms': seq<Mapping>, va: nat,
    start: nat, max: nat, pages: seq<Page>, mem: map<nat, nat>,
    start': nat, max': nat, pages': seq<Page>, mem': map<nat, nat>)
    requires forall mp :: mp in ms <==> mp in ms'
    requires AllAccepted(m, ms)
    requires PoolInReach(start, max) && Tables(m, start, max, pages, mem, Split(ms))
    requires PoolInReach(start', max') && Tables(m, start', max', pages', mem', Split(ms'))
    ensures var r, r' := WalkFrom(m, mem, start, 0, va), WalkFrom(m, mem', start', 0, va);
            r == r' || (r.Fault? && r'.Fault?)
  {
    hide Tables, Offset, WalkFrom, PageSizes, Accepted, Split, Maps;
    var r, r' := WalkFrom(m, mem, start, 0, va), WalkFrom(m, mem', start', 0, va);
    forall i | 0 <= i < |ms'|
      ensures Accepted(m, ms'[i])
    {
      assert ms'[i] in ms;
    }
    if r.Translated? {
      BuiltTablesMeanMappings(m, start, max, pages, mem, ms, va, r.pa);
      var i :| 0 <= i < |ms| && Translates(m, ms[i], va, r.pa);
      assert ms[i] in ms';
      BuiltTablesMeanMappings(m, start', max', pages', mem', ms', va, r.pa);
    }
    if r'.Translated? {
      BuiltTablesMeanMappings(m, start', max', pages', mem', ms', va, r'.pa);
      var i :| 0 <= i < |ms'| && Translates(m, ms'[i], va, r'.pa);
      assert ms'[i] in ms;
      BuiltTablesMeanMappings(m, start, max, pages, mem, ms, va, r'.pa);
    }
  }
}
