/** Where the generator's promise ends: the two conditions it does not check, each with the
    exact set of inputs on which it matters. */
module Limits {
  import opened Bits
  import opened Modes
  import opened Pte
  import opened Wrappers
  import opened TableWalk
  import opened PageTables
  import opened PageTableBuilder
  import opened PageTableMeaning
  import opened MappingMeaning
  import opened Canonical

  /** The root index is the root-level page number. */
  lemma {:induction false} RootIndexIs(m: Mode, va: nat)
    ensures Idx(m, va, 0) == va % VaSpan(m) / Span(m, 0)
  {
    hide Span, VaSpan, Slot, Idx;
    SlotIs(m, va, 0);
    SlotStep(m, va, 0);
  }

  /** Exactly where pages below the root level can be placed: everywhere in the unexpanded modes;
      in the x4 modes only in the lowest quarter of the address space, because the offset of the
      index is computed in the root table and checked against the size of the next one. */
  lemma {:induction false} PlaceableExactly(m: Mode, e: Entry)
    requires Leaf(m, e) < NumLevels(m)
    ensures Placeable(m, e) <==> Leaf(m, e) == 0 || e.va % VaSpan(m) < 512 * Span(m, 0)
    ensures m.Sv39? || m.Sv48? ==> Placeable(m, e)
    ensures m.Sv39x4? || m.Sv48x4? ==> VaSpan(m) == 4 * (512 * Span(m, 0))
  {
    hide Leaf, Idx, VaSpan, Span, Pow2;
    RootIndexIs(m, e.va);
    SpanIs(m, 0);
    Below(e.va % VaSpan(m), Span(m, 0), 512);
    SpaceIs(m);
  }

  lemma {:induction false} Below(x: nat, s: nat, n: nat)
    requires s > 0
    ensures x / s < n <==> x < n * s
  {
    QuotientInterval(x, s, x / s);
    MulSign(x / s + 1 - n, s);
    MulSign(n - x / s, s);
    assert (x / s + 1 - n) * s == x / s * s + s - n * s;
    assert (n - x / s) * s == n * s - x / s * s;
  }

  lemma {:induction false} SpaceIs(m: Mode)
    ensures VaSpan(m) == (if m.Sv39? || m.Sv48? then 512 else 2048) * Span(m, 0)
  {
    hide Span, Pow2;
    Geometry(m, 0);
    SpanIs(m, 0);
    Pow2Sum(VaVpnBits(m)[0].Width(), Lsb(m, 0));
    SmallPowers();
  }

  lemma {:induction false} SmallPowers()
    ensures Pow2(9) == 512 && Pow2(11) == 2048
  {
  }

  // ---------------------------------------------------------------- mappings that cannot be built

  /** What the generator checks of a mapping of its own: the mode has the page size, the
      destination is aligned and the first source address is canonical. */
  predicate Checked(m: Mode, mp: Mapping) {
    mp.source.Some? ==>
      && IndexOf(PageSizes(m), mp.pageSize) < NumLevels(m)
      && mp.dest % mp.pageSize == 0
      && CanonicalAddress(m, mp.source.value)
  }

  ghost predicate AllPlaced(m: Mode, mp: Mapping)
    requires mp.source.Some?
  {
    forall k :: 0 <= k < mp.numPages ==> Placeable(m, PageOfMapping(mp, k))
  }

  /** An x4 mode has room below the root for the lower canonical half only. */
  predicate HasRoom(m: Mode, mp: Mapping)
    requires mp.source.Some?
  {
    || m.Sv39? || m.Sv48?
    || IndexOf(PageSizes(m), mp.pageSize) == 0
    || mp.numPages == 0
    || mp.source.value + (mp.numPages - 1) * mp.pageSize < Half(m)
  }

  /** Half the masked space is what 512 root entries cover, in the x4 modes a quarter of the space. */
  lemma {:induction false} HalfIs(m: Mode)
    requires m.Sv39x4? || m.Sv48x4?
    ensures Half(m) == 512 * Span(m, 0) && VaSpan(m) == 4 * Half(m)
    ensures Half(Sv39x4) == SIZE_512G <= Half(m)
  {
    hide Pow2, Span;
    SpaceIs(m);
    Geometry(m, 0);
    SpanIs(m, 0);
    Pow2Sum(9, Lsb(m, 0));
    SmallPowers();
    PageSizePowers();
    Pow2Monotone(39, VaMaskBits(m) - 1);
  }

  /** A canonical address reduced to the address space. */
  lemma {:induction false} CanonicalReduced(m: Mode, va: nat)
    requires m.Sv39x4? || m.Sv48x4?
    requires CanonicalAddress(m, va)
    ensures va < Half(m) ==> va % VaSpan(m) == va
    ensures va >= Half(m) ==> va % VaSpan(m) >= Half(m)
  {
    hide Pow2, Span, VaSpan, CanonicalAddress, Half, Top;
    CanonicalIs(m, va);
    HalfIs(m);
    HighReduced(m, va);
    if va < Half(m) {
      SmallModulus(va, VaSpan(m));
    }
  }

  lemma {:induction false} HighReduced(m: Mode, va: nat)
    ensures InHigh(m, va) ==> va % VaSpan(m) >= VaSpan(m) - Half(m)
  {
    hide Pow2, Span, VaSpan, CanonicalAddress, Half, Top;
    FourKIsASize(m);
    SpaceSizes(m, SIZE_4K);
    var t, top := VaSpan(m), Top();
    if InHigh(m, va) {
      assert top == top / t * t;
      assert (top / t - 1) * t == top / t * t - t;
      DivModUnique(va, t, top / t - 1, va - (top - t));
    }
  }

  lemma {:induction false} FourKIsASize(m: Mode)
    ensures IndexOf(PageSizes(m), SIZE_4K) < NumLevels(m)
  {
    assert PageSizes(m)[NumLevels(m) - 1] == SIZE_4K;
  }

  /** Pages s apart cannot step over a gap of s or more. */
  lemma {:induction false} FirstAbove(src: nat, s: nat, n: nat, half: nat) returns (k: nat)
    requires src < half && n > 0 && src + (n - 1) * s >= half
    ensures k < n && half <= src + k * s < half + s
  {
    assert n > 1;
    assert (n - 1) * s == (n - 2) * s + s;
    if src + (n - 2) * s >= half {
      k := FirstAbove(src, s, n - 1, half);
    } else {
      k := n - 1;
    }
  }

  lemma {:induction false} PlacedBelowHalf(m: Mode, mp: Mapping, k: nat)
    requires mp.source.Some? && k < mp.numPages && (m.Sv39x4? || m.Sv48x4?)
    requires IndexOf(PageSizes(m), mp.pageSize) < NumLevels(m)
    requires mp.source.value + (mp.numPages - 1) * mp.pageSize < Half(m)
    ensures Placeable(m, PageOfMapping(mp, k))
  {
    hide VaSpan, Span, Pow2, Placeable, PageSizes, IndexOf;
    HalfIs(m);
    MulLess(k, mp.numPages, mp.pageSize);
    assert (mp.numPages - 1) * mp.pageSize == mp.numPages * mp.pageSize - mp.pageSize;
    SmallModulus(mp.source.value + k * mp.pageSize, VaSpan(m));
    PlaceableExactly(m, PageOfMapping(mp, k));
  }

  lemma {:induction false} SmallModulus(x: nat, n: nat)
    requires x < n
    ensures x % n == x
  {
  }

  /** Which checked mappings have all their pages placed: all of them in Sv39 and Sv48; in the x4
      modes those of root-level pages and those whose last page starts in the lower half. */
  lemma {:induction false} MappingPlacedExactly(m: Mode, mp: Mapping)
    requires mp.source.Some? && Checked(m, mp)
    ensures AllPlaced(m, mp) <==> HasRoom(m, mp)
  {
    hide VaSpan, Span, Pow2, Placeable, PageSizes, IndexOf, CanonicalAddress;
    var src, s, n := mp.source.value, mp.pageSize, mp.numPages;
    forall k | 0 <= k < n
      ensures Leaf(m, PageOfMapping(mp, k)) == IndexOf(PageSizes(m), s)
    {
    }
    if m.Sv39? || m.Sv48? || IndexOf(PageSizes(m), s) == 0 {
      forall k | 0 <= k < n
        ensures Placeable(m, PageOfMapping(mp, k))
      {
        PlaceableExactly(m, PageOfMapping(mp, k));
      }
    } else if n > 0 {
      if src + (n - 1) * s < Half(m) {
        forall k | 0 <= k < n
          ensures Placeable(m, PageOfMapping(mp, k))
        {
          PlacedBelowHalf(m, mp, k);
        }
      } else {
        var k := UnplacedPage(m, mp);
      }
    }
  }

  lemma {:induction false} UnplacedPage(m: Mode, mp: Mapping) returns (k: nat)
    requires mp.source.Some? && Checked(m, mp) && !HasRoom(m, mp)
    ensures k < mp.numPages && !Placeable(m, PageOfMapping(mp, k))
  {
    hide VaSpan, Span, Pow2, Placeable, PageSizes, IndexOf, CanonicalAddress;
    var src, s, n := mp.source.value, mp.pageSize, mp.numPages;
    HalfIs(m);
    CanonicalReduced(m, src);
    PageSizeIs(m, s);
    if src >= Half(m) {
      k := 0;
      assert 0 * s == 0;
    } else {
      k := FirstAbove(src, s, n, Half(m));
      SmallModulus(src + k * s, VaSpan(m));
    }
    PlaceableExactly(m, PageOfMapping(mp, k));
  }

  /** For a list of checked mappings: the builder's assertion on index offsets holds for all their
      pages exactly when every mapping has room. */
  lemma {:induction false} ListPlacedExactly(m: Mode, ms: seq<Mapping>)
    requires forall i :: 0 <= i < |ms| ==> Checked(m, ms[i])
    ensures (forall e <- Split(ms) :: Placeable(m, e))
            <==> (forall i :: 0 <= i < |ms| && ms[i].source.Some? ==> HasRoom(m, ms[i]))
  {
    hide Placeable, HasRoom, Split, Checked;
    forall i | 0 <= i < |ms| && ms[i].source.Some?
      ensures AllPlaced(m, ms[i]) <==> HasRoom(m, ms[i])
      ensures (forall e <- Split(ms) :: Placeable(m, e)) ==> AllPlaced(m, ms[i])
    {
      MappingPlacedExactly(m, ms[i]);
      forall k | 0 <= k < ms[i].numPages
        ensures PageOfMapping(ms[i], k) in Split(ms)
      {
        SplitMembers(ms, PageOfMapping(ms[i], k));
      }
    }
    if forall i :: 0 <= i < |ms| && ms[i].source.Some? ==> HasRoom(m, ms[i]) {
      forall e | e in Split(ms)
        ensures Placeable(m, e)
      {
        SplitMembers(ms, e);
        var i, k :| 0 <= i < |ms| && ms[i].source.Some? && 0 <= k < ms[i].numPages && e == PageOfMapping(ms[i], k);
        assert AllPlaced(m, ms[i]);
      }
    }
  }

  /** A checked mapping without room makes every list it is in unbuildable. */
  lemma {:induction false} NoRoomRefused(m: Mode, start: nat, max: nat, ms: seq<Mapping>, mp: Mapping)
    requires mp in ms && mp.source.Some? && Checked(m, mp) && !HasRoom(m, mp)
    ensures !Buildable(m, start, max, Split(ms))
  {
    hide Placeable, HasRoom, Checked, Compatible, PoolSuffices, Split;
    var k := UnplacedPage(m, mp);
    SplitMembers(ms, PageOfMapping(mp, k));
    var i :| 0 <= i < |ms| && ms[i] == mp;
    assert ms[i].source.Some? && PageOfMapping(mp, k) == PageOfMapping(ms[i], k);
    var j :| 0 <= j < |Split(ms)| && Split(ms)[j] == PageOfMapping(mp, k);
  }

  /** Two such mappings of Sv39x4: two 4 KiB pages across the end of the lower half, of which only
      the first address is checked, and the last page of the 64-bit space, which is canonical. */
  lemma {:induction false} X4MappingsRefused(start: nat, max: nat, ms: seq<Mapping>, dest: nat, attrs: Attributes)
    requires dest % SIZE_4K == 0
    ensures var across := Mapping(Some(0x7F_FFFF_F000), dest, SIZE_4K, 2, attrs);
            var high := Mapping(Some(0xFFFF_FFFF_FFFF_F000), dest, SIZE_4K, 1, attrs);
            && Checked(Sv39x4, across) && Checked(Sv39x4, high) && CanonicalMapping(Sv39x4, high)
            && (across in ms || high in ms ==> !Buildable(Sv39x4, start, max, Split(ms)))
  {
    hide Buildable, Split, CanonicalAddress, Pow2;
    var across := Mapping(Some(0x7F_FFFF_F000), dest, SIZE_4K, 2, attrs);
    var high := Mapping(Some(0xFFFF_FFFF_FFFF_F000), dest, SIZE_4K, 1, attrs);
    HalfIs(Sv39x4);
    LargePowers();
    CanonicalIs(Sv39x4, across.source.value);
    CanonicalIs(Sv39x4, high.source.value);
    if across in ms {
      NoRoomRefused(Sv39x4, start, max, ms, across);
    }
    if high in ms {
      NoRoomRefused(Sv39x4, start, max, ms, high);
    }
  }

  /** The source address is not checked against the page size, only the destination is. A page in
      built tables translates its source address to its destination exactly when the source is
      aligned; otherwise the result is off by the misalignment. */
  lemma {:induction false} SourceTranslatesExactlyIfAligned(
    m: Mode, start: nat, max: nat, pages: seq<Page>, mem: map<nat, nat>, es: seq<Entry>, i: nat)
    requires Tables(m, start, max, pages, mem, es) && PoolInReach(start, max) && i < |es|
    requires es[i].attrs.valid == 1 && es[i].attrs.xwr != 0
    requires es[i].pa % SIZE_4K == 0 && es[i].pa < Pow2(56)
    ensures es[i].pageSize > 0
    ensures WalkFrom(m, mem, start, 0, es[i].va) == Translated(es[i].pa + es[i].va % es[i].pageSize)
    ensures WalkFrom(m, mem, start, 0, es[i].va) == Translated(es[i].pa) <==> es[i].va % es[i].pageSize == 0
  {
    hide Tables, WalkFrom, PageOffset, Visited, Leaf, PageSizes, Pow2, PageOf, EndsAt, LeafPte;
    var e := es[i];
    TablesAreWellFormed(m, start, max, pages, mem, es, i);
    CoversOwn(m, e);
    WalkMeaning(m, start, max, pages, mem, es, e.va);
    PageOfAligned(e.pa, 0);
    PageOffsetIs(m, e.va, Leaf(m, e));
    LeafSpan(m, e);
  }

  lemma {:induction false} CoversOwn(m: Mode, e: Entry)
    requires Leaf(m, e) < NumLevels(m)
    ensures Covers(m, e, e.va)
  {
  }

  lemma {:induction false} LeafSpan(m: Mode, e: Entry)
    requires Leaf(m, e) < NumLevels(m)
    ensures Span(m, Leaf(m, e)) == e.pageSize && e.pageSize > 0
  {
    hide Pow2;
    SpanIs(m, Leaf(m, e));
  }

  /** The tables of one page down to level n - 1: one for each level. */
  ghost function KeysDownTo(m: Mode, e: Entry, n: nat): set<(nat, nat)>
    requires n <= NumLevels(m)
  {
    set l: nat | l < n :: (l, StartVa(m, e.va, l))
  }

  lemma {:induction false} KeysDownToCount(m: Mode, e: Entry, n: nat)
    requires n <= NumLevels(m)
    ensures |KeysDownTo(m, e, n)| == n
  {
    hide StartVa;
    if n > 0 {
      KeysDownToCount(m, e, n - 1);
      var key := (n - 1, StartVa(m, e.va, n - 1));
      assert KeysDownTo(m, e, n) == KeysDownTo(m, e, n - 1) + {key};
      assert key !in KeysDownTo(m, e, n - 1);
    }
  }

  /** What a build asks of the pool, in pages of 4 KiB: the root table takes one, in the x4 modes
      four and a start to match, every other table one. */
  lemma {:induction false} BuildableExactly(m: Mode, start: nat, max: nat, es: seq<Entry>)
    ensures Buildable(m, start, max, es)
            <==> es != [] && AllWellFormed(m, es) && AllCompatible(m, es)
                 && (if IsX4(m) then start % 0x4000 == 0 && |NeededKeys(m, es)| + 3 <= max
                     else start % 0x1000 == 0 && |NeededKeys(m, es)| <= max)
  {
    hide StartVa, WellFormed, Leaf, Compatible, Pow2, PagetableSizes, NeededKeys;
    TableSizeIs(m, 0);
    if es != [] && AllWellFormed(m, es) {
      RootIsNeeded(m, es);
    }
  }

  lemma {:induction false} RootIsNeeded(m: Mode, es: seq<Entry>)
    requires es != []
    ensures |NeededKeys(m, es)| > 0
  {
    hide StartVa, Leaf;
    assert (0, StartVa(m, es[0].va, 0)) in NeededKeys(m, es);
  }

  /** A page at level l needs exactly l + 1 tables: a list of one page builds if and only if the
      page is well formed, the root is aligned and the pool holds that many. */
  lemma {:induction false} OnePageBuildsExactly(m: Mode, start: nat, max: nat, e: Entry)
    requires Leaf(m, e) < NumLevels(m)
    ensures Buildable(m, start, max, [e])
            <==> WellFormed(m, e)
                 && (if m == Sv39 || m == Sv48 then start % 0x1000 == 0 && Leaf(m, e) + 1 <= max
                     else start % 0x4000 == 0 && Leaf(m, e) + 4 <= max)
  {
    hide StartVa, PoolBytes, PagetableSizes, WellFormed, Leaf, Buildable, Compatible;
    KeysDownToCount(m, e, Leaf(m, e) + 1);
    assert [e][0] == e;
    assert NeededKeys(m, [e]) == KeysDownTo(m, e, Leaf(m, e) + 1) by {
      forall l: nat | l <= Leaf(m, e)
        ensures (l, StartVa(m, e.va, l)) in NeededKeys(m, [e])
      {
        assert (l, StartVa(m, [e][0].va, l)) in NeededKeys(m, [e]);
      }
    }
    assert AllWellFormed(m, [e]) <==> WellFormed(m, e);
    BuildableExactly(m, start, max, [e]);
  }
}
