/** Canonical source addresses, and what source-disjoint canonical mappings guarantee a build. */
module Canonical {
  import opened Bits
  import opened Modes
  import opened Pte
  import opened Wrappers
  import opened PageTables
  import opened PageTableBuilder
  import opened PageTableMeaning
  import opened MappingMeaning

  /** The generator's check of one source address: the bits above the mode's address width,
      up to bit 63, all equal the top bit of the width. */
  predicate CanonicalAddress(m: Mode, va: nat) {
    var bits := VaMaskBits(m);
    var sign := ShiftRight(va, bits - 1) % 2;
    ShiftRight(va, bits) == if sign == 1 then Mask(64 - bits) else 0
  }

  /** Half the addresses the mask covers: canonical addresses are the lowest Half and the highest
      Half of the 64-bit space. */
  function Half(m: Mode): nat { Pow2(VaMaskBits(m) - 1) }

  function Top(): nat { Pow2(64) }

  predicate InLow(m: Mode, va: nat) { va < Half(m) }

  predicate InHigh(m: Mode, va: nat) { Top() - Half(m) <= va < Top() }

  lemma {:induction false} CanonicalIs(m: Mode, va: nat)
    ensures Half(m) <= Top()
    ensures CanonicalAddress(m, va) <==> InLow(m, va) || InHigh(m, va)
  {
    hide ShiftRight, ShiftLeft, Pow2, Mask;
    var n := VaMaskBits(m) - 1;
    var y, k := ShiftRight(va, n), 64 - n;
    ShiftRightTwice(va, n, 1);
    HalveOnce(y);
    ShiftOne(k - 1);
    MaskIs(k - 1);
    Pow2Double(k);
    InBlock(va, 0, n);
    InBlock(va, Pow2(k) - 1, n);
    ShiftLeftZero(n);
    TopBlock(n, k);
    Pow2Monotone(n, 64);
  }

  /** The two ranges in numbers. */
  lemma {:induction false} CanonicalRanges(m: Mode, va: nat)
    ensures var half := match m
                        case Sv39 => 0x40_0000_0000
                        case Sv48 => 0x8000_0000_0000
                        case Sv39x4 => 0x80_0000_0000
                        case Sv48x4 => 0x1_0000_0000_0000;
            CanonicalAddress(m, va) <==>
            va < half || 0x1_0000_0000_0000_0000 - half <= va < 0x1_0000_0000_0000_0000
  {
    hide Pow2, CanonicalAddress;
    CanonicalIs(m, va);
    LargePowers();
    PageSizePowers();
    Pow2Double(39);
    Pow2Double(40);
    Pow2Sum(8, 39);
    Pow2Sum(9, 39);
    NineBits();
    assert Pow2(8) == 256 by {
      EightBits();
    }
  }

  lemma {:induction false} EightBits()
    ensures Pow2(8) == 256
  {
  }

  lemma {:induction false} HalveOnce(y: nat)
    ensures ShiftRight(y, 1) == y / 2
  {
  }

  lemma {:induction false} MaskIs(n: nat)
    ensures Mask(n) == Pow2(n) - 1
  {
    ShiftOne(n);
  }

  lemma {:induction false} Pow2Double(k: nat)
    requires k > 0
    ensures Pow2(k) == 2 * Pow2(k - 1)
  {
  }

  /** The last block of size 2^n below 2^(n+k). */
  lemma {:induction false} TopBlock(n: nat, k: nat)
    ensures ShiftLeft(Pow2(k) - 1, n) + Pow2(n) == Pow2(n + k)
  {
    ShiftLeftAdd(Pow2(k) - 1, 1, n);
    ShiftOne(n);
    ShiftPow2(k, n);
  }

  lemma {:induction false} ShiftPow2(k: nat, n: nat)
    ensures ShiftLeft(Pow2(k), n) == Pow2(n + k)
  {
    if n > 0 {
      ShiftPow2(k, n - 1);
    }
  }

  // ---------------------------------------------------------------- canonical mappings

  /** What the proofs need of a mapping: every page canonical, the source a multiple of the page
      size, and the page size one of the mode's. */
  ghost predicate CanonicalMapping(m: Mode, mp: Mapping) {
    mp.source.Some? ==>
      && IndexOf(PageSizes(m), mp.pageSize) < NumLevels(m)
      && mp.source.value % mp.pageSize == 0
      && forall k :: 0 <= k < mp.numPages ==> CanonicalAddress(m, mp.source.value + k * mp.pageSize)
  }

  /** The sizes of the two halves, of the address space and of the pages, and how they divide. */
  lemma {:induction false} SpaceSizes(m: Mode, s: nat)
    requires IndexOf(PageSizes(m), s) < NumLevels(m)
    ensures s > 0 && Half(m) % s == 0 && Top() % s == 0
    ensures 2 * Half(m) <= VaSpan(m) <= Top() - VaSpan(m) && Top() % VaSpan(m) == 0
  {
    hide Pow2, Mask;
    var l := IndexOf(PageSizes(m), s);
    var n := VaMaskBits(m) - 1;
    Geometry(m, l);
    Geometry(m, 0);
    LsbDescends(m, l);
    SpanIs(m, l);
    Pow2Divides(Lsb(m, l), n);
    Pow2Divides(Lsb(m, l), 64);
    Pow2Divides(VaWidth(m), 64);
    Pow2Monotone(n + 1, VaWidth(m));
    Pow2Double(n + 1);
    Pow2Monotone(VaWidth(m), 63);
    Pow2Double(64);
  }

  lemma {:induction false} Pow2Divides(a: nat, b: nat)
    requires a <= b
    ensures Pow2(b) % Pow2(a) == 0
  {
    if a == b {
      DivModUnique(Pow2(b), Pow2(a), 1, 0);
    } else {
      Pow2Divides(a, b - 1);
      var q := Pow2(b - 1) / Pow2(a);
      assert Pow2(b - 1) == q * Pow2(a);
      assert Pow2(b) == (2 * q) * Pow2(a) + 0;
      DivModUnique(Pow2(b), Pow2(a), 2 * q, 0);
    }
  }

  /** A multiple of s below another multiple of s leaves room for s. */
  lemma {:induction false} RoomBelow(x: nat, s: nat, bound: nat)
    requires s > 0 && x % s == 0 && bound % s == 0 && x < bound
    ensures x + s <= bound
  {
    var q, p := x / s, bound / s;
    assert x == q * s && bound == p * s;
    MulSign(q - p + 1, s);
    assert (q - p + 1) * s == x - bound + s;
  }

  /** A page that starts in a half ends in it. */
  lemma {:induction false} PagesInOneHalf(m: Mode, mp: Mapping, n: nat)
    requires mp.source.Some? && CanonicalMapping(m, mp) && 0 < n <= mp.numPages
    ensures InLow(m, mp.source.value) ==> mp.source.value + n * mp.pageSize <= Half(m)
    ensures !InLow(m, mp.source.value) ==>
              Top() - Half(m) <= mp.source.value && mp.source.value + n * mp.pageSize <= Top()
  {
    hide PageSizes, CanonicalAddress, Pow2, VaSpan, Half, Top;
    var src, s, k := mp.source.value, mp.pageSize, n - 1;
    SpaceSizes(m, s);
    CanonicalIs(m, src + k * s);
    MultiplesAlign(src, s, k);
    assert n * s == k * s + s;
    RoomInHalf(src + k * s, s, Half(m), Top());
    if k > 0 {
      PagesInOneHalf(m, mp, k);
    }
  }

  lemma {:induction false} RoomInHalf(x: nat, s: nat, half: nat, top: nat)
    requires s > 0 && x % s == 0 && half % s == 0 && top % s == 0
    ensures x < half ==> x + s <= half
    ensures x < top ==> x + s <= top
  {
    if x < half {
      RoomBelow(x, s, half);
    }
    if x < top {
      RoomBelow(x, s, top);
    }
  }

  /** The source address reduced to the address space: unchanged in the low half, shifted in the high. */
  lemma {:induction false} ReducedSource(m: Mode, mp: Mapping)
    requires mp.source.Some? && CanonicalMapping(m, mp) && mp.numPages > 0
    ensures InLow(m, mp.source.value) ==>
              mp.source.value % VaSpan(m) == mp.source.value
              && mp.source.value + Size(mp) <= Half(m)
    ensures !InLow(m, mp.source.value) ==>
              mp.source.value % VaSpan(m) == mp.source.value - (Top() - VaSpan(m)) >= VaSpan(m) - Half(m)
              && mp.source.value + Size(mp) <= Top()
  {
    hide PageSizes, CanonicalAddress, Pow2, VaSpan, CanonicalMapping;
    var src, t := mp.source.value, VaSpan(m);
    CanonicalSize(m, mp);
    SpaceSizes(m, mp.pageSize);
    PagesInOneHalf(m, mp, mp.numPages);
    if InLow(m, src) {
      DivModUnique(src, t, 0, src);
    } else {
      var q := Top() / t;
      assert Top() == q * t;
      assert src < Top() by {
        CanonicalStart(m, mp);
      }
      assert src == (q - 1) * t + (src - (Top() - t));
      DivModUnique(src, t, q - 1, src - (Top() - t));
    }
  }

  lemma {:induction false} CanonicalSize(m: Mode, mp: Mapping)
    requires mp.source.Some? && CanonicalMapping(m, mp)
    ensures IndexOf(PageSizes(m), mp.pageSize) < NumLevels(m)
  {
  }

  lemma {:induction false} CanonicalStart(m: Mode, mp: Mapping)
    requires mp.source.Some? && CanonicalMapping(m, mp) && mp.numPages > 0
    ensures InLow(m, mp.source.value) || InHigh(m, mp.source.value)
  {
    assert 0 * mp.pageSize == 0;
    CanonicalIs(m, mp.source.value + 0 * mp.pageSize);
  }

  /** A mapping whose pages are all canonical does not wrap around the address space. */
  lemma {:induction false} CanonicalFits(m: Mode, mp: Mapping)
    requires mp.source.Some? && CanonicalMapping(m, mp) && mp.numPages > 0
    ensures mp.source.value % VaSpan(m) + Size(mp) <= VaSpan(m)
  {
    hide CanonicalMapping, CanonicalAddress, VaSpan, PageSizes, Pow2;
    ReducedSource(m, mp);
    CanonicalSize(m, mp);
    SpaceSizes(m, mp.pageSize);
  }

  // ---------------------------------------------------------------- disjoint sources

  /** The 64-bit source ranges do not overlap. */
  predicate SourceDisjoint(a: Mapping, b: Mapping) {
    a.source.Some? && b.source.Some? ==>
      a.source.value + Size(a) <= b.source.value || b.source.value + Size(b) <= a.source.value
  }

  /** No address is mapped by both. */
  ghost predicate Apart(m: Mode, a: Mapping, b: Mapping) {
    forall va :: Maps(m, a, va) ==> !Maps(m, b, va)
  }

  /** Canonical mappings that are disjoint as 64-bit ranges stay disjoint when a walk drops the
      upper address bits. */
  lemma {:induction false} DisjointStaysApart(m: Mode, a: Mapping, b: Mapping)
    requires CanonicalMapping(m, a) && CanonicalMapping(m, b) && SourceDisjoint(a, b)
    ensures Apart(m, a, b)
  {
    hide CanonicalMapping, CanonicalAddress, VaSpan, PageSizes, Pow2;
    if a.source.Some? && b.source.Some? && a.numPages > 0 && b.numPages > 0 {
      ReducedSource(m, a);
      ReducedSource(m, b);
      CanonicalSize(m, a);
      SpaceSizes(m, a.pageSize);
    }
  }

  /** Pages of mappings that share no address are compatible. */
  lemma {:induction false} PagesCompatible(m: Mode, a: Mapping, p: nat, b: Mapping, q: nat)
    requires a.source.Some? && b.source.Some? && Accepted(m, a) && Accepted(m, b)
    requires p < a.numPages && q < b.numPages
    requires a == b || Apart(m, a, b)
    requires Placeable(m, PageOfMapping(a, p)) && Placeable(m, PageOfMapping(b, q))
    requires Leaf(m, PageOfMapping(a, p)) <= Leaf(m, PageOfMapping(b, q))
    ensures Compatible(m, PageOfMapping(a, p), PageOfMapping(b, q))
    ensures Compatible(m, PageOfMapping(b, q), PageOfMapping(a, p))
  {
    hide Offset, Slot, LeafPte, Accepted, Placeable, Idx, PageOffset;
    var e, f := PageOfMapping(a, p), PageOfMapping(b, q);
    PageCovers(m, a, p, f.va);
    PageCovers(m, b, q, f.va);
    if Covers(m, e, f.va) {
      PageInsideMapping(a, p, Offset(m, a, f.va));
      PageInsideMapping(b, q, Offset(m, b, f.va));
      assert Maps(m, a, f.va) && Maps(m, b, f.va);
      SamePage(p, q, a.pageSize, Offset(m, a, f.va));
    }
  }

  lemma {:induction false} SamePage(p: nat, q: nat, s: nat, d: int)
    requires p * s <= d < p * s + s && q * s <= d < q * s + s
    ensures p == q
  {
    MulSign(p - q, s);
    assert (p - q) * s == p * s - q * s;
  }

  /** Mappings that share no address give pages that are compatible, so their build never runs
      into a conflicting entry. */
  lemma {:induction false} DisjointMeansCompatible(m: Mode, ms: seq<Mapping>)
    requires AllAccepted(m, ms)
    requires forall i, j :: 0 <= i < j < |ms| ==> Apart(m, ms[i], ms[j])
    ensures forall i, j :: 0 <= i < j < |Split(ms)| && Placeable(m, Split(ms)[i]) && Placeable(m, Split(ms)[j]) ==>
              Compatible(m, Split(ms)[i], Split(ms)[j])
  {
    hide Apart, Accepted, Placeable, Compatible, Split;
    var es := Split(ms);
    forall i, j | 0 <= i < j < |es| && Placeable(m, es[i]) && Placeable(m, es[j])
      ensures Compatible(m, es[i], es[j])
    {
      SplitMembers(ms, es[i]);
      var a, p :| 0 <= a < |ms| && ms[a].source.Some? && 0 <= p < ms[a].numPages
                  && es[i] == PageOfMapping(ms[a], p);
      SplitMembers(ms, es[j]);
      var b, q :| 0 <= b < |ms| && ms[b].source.Some? && 0 <= q < ms[b].numPages
                  && es[j] == PageOfMapping(ms[b], q);
      if a > b {
        ApartSymmetric(m, ms[b], ms[a]);
      } else if b > a {
        ApartSymmetric(m, ms[a], ms[b]);
      }
      if Leaf(m, es[i]) <= Leaf(m, es[j]) {
        PagesCompatible(m, ms[a], p, ms[b], q);
      } else {
        PagesCompatible(m, ms[b], q, ms[a], p);
      }
    }
  }

  lemma {:induction false} ApartSymmetric(m: Mode, a: Mapping, b: Mapping)
    requires Apart(m, a, b)
    ensures Apart(m, b, a)
  {
  }

  lemma {:induction false} AllApart(m: Mode, ms: seq<Mapping>)
    requires forall i :: 0 <= i < |ms| ==> CanonicalMapping(m, ms[i])
    requires forall i, j :: 0 <= i < j < |ms| ==> SourceDisjoint(ms[i], ms[j])
    ensures forall i, j :: 0 <= i < j < |ms| ==> Apart(m, ms[i], ms[j])
  {
    hide Apart, CanonicalMapping, SourceDisjoint;
    forall i, j | 0 <= i < j < |ms|
      ensures Apart(m, ms[i], ms[j])
    {
      DisjointStaysApart(m, ms[i], ms[j]);
    }
  }

  /** Source-disjoint mappings never run a build into a conflicting entry. */
  lemma {:induction false} DisjointNeverConflicts(m: Mode, start: nat, max: nat, ms: seq<Mapping>)
    requires AllAccepted(m, ms)
    requires forall i :: 0 <= i < |ms| ==> CanonicalMapping(m, ms[i])
    requires forall i, j :: 0 <= i < j < |ms| ==> SourceDisjoint(ms[i], ms[j])
    ensures !Explains(PteConflict, m, start, max, Split(ms))
  {
    hide Apart, Accepted, Placeable, Compatible, Split, CanonicalMapping, SourceDisjoint;
    AllApart(m, ms);
    DisjointMeansCompatible(m, ms);
  }

  /** For source-disjoint mappings the only things that can stop a build are a page the mode cannot
      place, a misaligned pool, and a pool too small for the distinct tables needed. */
  lemma {:induction false} DisjointBuildable(m: Mode, start: nat, max: nat, ms: seq<Mapping>)
    requires AllAccepted(m, ms)
    requires forall i :: 0 <= i < |ms| ==> CanonicalMapping(m, ms[i])
    requires forall i, j :: 0 <= i < j < |ms| ==> SourceDisjoint(ms[i], ms[j])
    ensures Buildable(m, start, max, Split(ms))
            <==> Split(ms) != [] && AllWellFormed(m, Split(ms))
                 && start % PagetableSizes(m)[0] == 0 && PoolSuffices(m, max, Split(ms))
  {
    hide Apart, Accepted, Placeable, Compatible, Split, CanonicalMapping, PoolSuffices, SourceDisjoint;
    AllApart(m, ms);
    DisjointMeansCompatible(m, ms);
  }
}
