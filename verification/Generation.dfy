/** The generator's pipeline for one stage: check the memory map, build the tables, and what a walk
    of the result then gives. */
module Generation {
  import opened Bits
  import opened Modes
  import opened Pte
  import opened Wrappers
  import opened TableWalk
  import opened PageTables
  import opened PageTableBuilder
  import opened PageTableMeaning
  import opened MappingMeaning
  import opened Canonical
  import opened CWalk
  import Layout

  /** What is asked of each mapping beyond what the generator checks: all its pages canonical, its
      source a multiple of the page size, its destination within the physical address space. */
  ghost predicate Checked(m: Mode, mp: Mapping) {
    && CanonicalMapping(m, mp)
    && (mp.source.Some? ==>
          mp.numPages > 0 && mp.pageSize > 0 && mp.dest % mp.pageSize == 0 && mp.dest + Size(mp) <= Pow2(56))
  }

  ghost predicate AllChecked(m: Mode, ms: seq<Mapping>) {
    forall i :: 0 <= i < |ms| ==> Checked(m, ms[i])
  }

  lemma {:induction false} CheckedIsAccepted(m: Mode, mp: Mapping)
    requires Checked(m, mp)
    ensures Accepted(m, mp)
  {
    hide VaSpan, Pow2, PageSizes, CanonicalAddress;
    if mp.source.Some? {
      CanonicalFits(m, mp);
    }
  }

  /** The source ranges the overlap check looks at: those of the non-bare mappings. */
  function SourceRanges(ms: seq<Mapping>): seq<Layout.Range> {
    if ms == [] then []
    else
      var last := ms[|ms| - 1];
      SourceRanges(ms[..|ms| - 1])
      + (if last.source.Some? then [Layout.Range(last.source.value, Size(last))] else [])
  }

  lemma {:induction false} SourceRangeOf(ms: seq<Mapping>, i: nat)
    requires i < |ms| && ms[i].source.Some?
    ensures Layout.Range(ms[i].source.value, Size(ms[i])) in SourceRanges(ms)
  {
    if i < |ms| - 1 {
      SourceRangeOf(ms[..|ms| - 1], i);
    }
  }

  lemma {:induction false} SourceRangeFrom(ms: seq<Mapping>, r: Layout.Range) returns (i: nat)
    requires r in SourceRanges(ms)
    ensures i < |ms| && ms[i].source.Some? && r == Layout.Range(ms[i].source.value, Size(ms[i]))
  {
    i := |ms| - 1;
    if r in SourceRanges(ms[..i]) {
      i := SourceRangeFrom(ms[..i], r);
    }
  }

  /** Non-overlapping source ranges are those of source-disjoint mappings. */
  lemma {:induction false} RangesDisjoint(ms: seq<Mapping>)
    ensures Layout.PairwiseApart(SourceRanges(ms))
            <==> (forall i, j :: 0 <= i < j < |ms| ==> SourceDisjoint(ms[i], ms[j]))
  {
    hide SourceDisjoint, Layout.Apart, Layout.PairwiseApart;
    if ms == [] {
      Layout.NoneApart();
    } else {
      var n := |ms| - 1;
      var init := ms[..n];
      RangesDisjoint(init);
      LastRangeDisjoint(ms);
      assert forall i, j :: 0 <= i < j < n ==> init[i] == ms[i] && init[j] == ms[j];
    }
  }

  /** The last mapping adds: its source is disjoint from all before. */
  lemma {:induction false} LastRangeDisjoint(ms: seq<Mapping>)
    requires ms != []
    ensures var n := |ms| - 1;
            Layout.PairwiseApart(SourceRanges(ms))
            <==> Layout.PairwiseApart(SourceRanges(ms[..n]))
                 && (forall i :: 0 <= i < n ==> SourceDisjoint(ms[i], ms[n]))
  {
    hide Layout.PairwiseApart;
    var n := |ms| - 1;
    var init, last := ms[..n], ms[n];
    if last.source.Some? {
      var r := Layout.Range(last.source.value, Size(last));
      Layout.ApartAppend(SourceRanges(init), r);
      forall i | 0 <= i < n && ms[i].source.Some?
        ensures Layout.Range(ms[i].source.value, Size(ms[i])) in SourceRanges(init)
      {
        SourceRangeOf(init, i);
      }
      forall q | q in SourceRanges(init)
        ensures exists i :: 0 <= i < n && ms[i].source.Some? && q == Layout.Range(ms[i].source.value, Size(ms[i]))
      {
        var i := SourceRangeFrom(init, q);
        assert init[i] == ms[i];
      }
    } else {
      assert SourceRanges(ms) == SourceRanges(init);
    }
  }

  // ---------------------------------------------------------------- the memory map's own check

  /** A mapping as the memory map lists it. */
  datatype Listed = Listed(mapping: Mapping, alias: bool)

  function Mappings(ls: seq<Listed>): (ms: seq<Mapping>)
    ensures |ms| == |ls| && forall i :: 0 <= i < |ls| ==> ms[i] == ls[i].mapping
  {
    if ls == [] then [] else Mappings(ls[..|ls| - 1]) + [ls[|ls| - 1].mapping]
  }

  function DestRange(mp: Mapping): Layout.Range { Layout.Range(mp.dest, Size(mp)) }

  /** The destination ranges the overlap check looks at: those of the mappings that are no aliases. */
  function DestRanges(ls: seq<Listed>): seq<Layout.Range> {
    if ls == [] then []
    else
      var last := ls[|ls| - 1];
      DestRanges(ls[..|ls| - 1]) + (if last.alias then [] else [DestRange(last.mapping)])
  }

  predicate Inside(r: Layout.Range, s: Layout.Range) { s.start <= r.start && r.End() <= s.End() }

  /** The destination of mapping i lies inside that of one that is no alias. */
  ghost predicate HasOriginal(ls: seq<Listed>, i: nat)
    requires i < |ls|
  {
    exists j :: 0 <= j < |ls| && !ls[j].alias && Inside(DestRange(ls[i].mapping), DestRange(ls[j].mapping))
  }

  ghost predicate AliasesHaveOriginals(ls: seq<Listed>) {
    forall i :: 0 <= i < |ls| && ls[i].alias && ls[i].mapping.source.Some? ==> HasOriginal(ls, i)
  }

  /** What the check accepts: sources do not overlap, destinations overlap for aliases only, and the
      destination of an alias is part of one other destination. */
  ghost predicate MapOk(ls: seq<Listed>) {
    && Layout.PairwiseApart(SourceRanges(Mappings(ls)))
    && Layout.PairwiseApart(DestRanges(ls))
    && AliasesHaveOriginals(ls)
  }

  method CheckMemoryMap(ls: seq<Listed>) returns (ok: bool)
    ensures ok ==> MapOk(ls)
    ensures Layout.Nonempty(SourceRanges(Mappings(ls))) && Layout.Nonempty(DestRanges(ls)) ==> (ok <==> MapOk(ls))
  {
    hide Mappings, SourceRanges, DestRanges, Layout.PairwiseApart, Layout.Nonempty, DestRange, Inside;
    var sources := Layout.CheckForAddressOverlaps(SourceRanges(Mappings(ls)));
    if !sources {
      return false;
    }
    var dests := Layout.CheckForAddressOverlaps(DestRanges(ls));
    if !dests {
      return false;
    }
    for i := 0 to |ls|
      invariant forall k :: 0 <= k < i && ls[k].alias && ls[k].mapping.source.Some? ==> HasOriginal(ls, k)
    {
      if ls[i].alias && ls[i].mapping.source.Some? {
        var found := FindOriginal(ls, i);
        if !found {
          return false;
        }
      }
    }
    return true;
  }

  method FindOriginal(ls: seq<Listed>, i: nat) returns (found: bool)
    requires i < |ls|
    ensures found <==> HasOriginal(ls, i)
  {
    found := false;
    for j := 0 to |ls|
      invariant found <==> exists k :: 0 <= k < j && !ls[k].alias
                                       && Inside(DestRange(ls[i].mapping), DestRange(ls[k].mapping))
    {
      if !ls[j].alias && Inside(DestRange(ls[i].mapping), DestRange(ls[j].mapping)) {
        found := true;
      }
    }
  }

  lemma {:induction false} DestRangeOf(ls: seq<Listed>, i: nat)
    requires i < |ls| && !ls[i].alias
    ensures DestRange(ls[i].mapping) in DestRanges(ls)
  {
    hide DestRange;
    if i < |ls| - 1 {
      DestRangeOf(ls[..|ls| - 1], i);
    }
  }

  lemma {:induction false} DestRangeFrom(ls: seq<Listed>, r: Layout.Range) returns (i: nat)
    requires r in DestRanges(ls)
    ensures i < |ls| && !ls[i].alias && r == DestRange(ls[i].mapping)
  {
    hide DestRange;
    i := |ls| - 1;
    if r in DestRanges(ls[..i]) {
      i := DestRangeFrom(ls[..i], r);
    }
  }

  predicate DestDisjoint(a: Listed, b: Listed) {
    a.alias || b.alias || Layout.Apart(DestRange(a.mapping), DestRange(b.mapping))
  }

  /** Non-overlapping destination ranges are those of mappings of which at most one in each pair that
      overlaps is no alias. */
  lemma {:induction false} DestsApart(ls: seq<Listed>)
    ensures Layout.PairwiseApart(DestRanges(ls))
            <==> (forall i, j :: 0 <= i < j < |ls| ==> DestDisjoint(ls[i], ls[j]))
  {
    hide DestDisjoint, Layout.Apart, Layout.PairwiseApart;
    if ls == [] {
      Layout.NoneApart();
    } else {
      var n := |ls| - 1;
      var init := ls[..n];
      DestsApart(init);
      LastDestApart(ls);
      assert forall i, j :: 0 <= i < j < n ==> init[i] == ls[i] && init[j] == ls[j];
    }
  }

  lemma {:induction false} LastDestApart(ls: seq<Listed>)
    requires ls != []
    ensures var n := |ls| - 1;
            Layout.PairwiseApart(DestRanges(ls))
            <==> Layout.PairwiseApart(DestRanges(ls[..n]))
                 && (forall i :: 0 <= i < n ==> DestDisjoint(ls[i], ls[n]))
  {
    hide DestRange, Layout.Apart, Layout.PairwiseApart;
    var n := |ls| - 1;
    var init, last := ls[..n], ls[n];
    if !last.alias {
      Layout.ApartAppend(DestRanges(init), DestRange(last.mapping));
      forall i | 0 <= i < n && !ls[i].alias
        ensures DestRange(ls[i].mapping) in DestRanges(init)
      {
        DestRangeOf(init, i);
      }
      forall q | q in DestRanges(init)
        ensures exists i :: 0 <= i < n && !ls[i].alias && q == DestRange(ls[i].mapping)
      {
        var i := DestRangeFrom(init, q);
        assert init[i] == ls[i];
      }
    } else {
      assert DestRanges(ls) == DestRanges(init);
    }
  }

  lemma {:induction false} OriginalsApart(ls: seq<Listed>, i: nat, j: nat)
    requires MapOk(ls) && i < j < |ls| && !ls[i].alias && !ls[j].alias
    ensures Layout.Apart(DestRange(ls[i].mapping), DestRange(ls[j].mapping))
  {
    hide Layout.PairwiseApart, Layout.Apart, DestRange, SourceRanges, DestRanges;
    DestsApart(ls);
    assert DestDisjoint(ls[i], ls[j]);
  }

  /** In a memory map that passes, no physical address has two translations that are not aliases:
      they are of the same mapping and, in the address space of the mode, of the same address. */
  lemma {:induction false} OneAddressWithoutAliases(m: Mode, ls: seq<Listed>, i: nat, j: nat, va: nat, vb: nat, pa: nat)
    requires MapOk(ls) && i < |ls| && j < |ls| && !ls[i].alias && !ls[j].alias
    requires Translates(m, ls[i].mapping, va, pa) && Translates(m, ls[j].mapping, vb, pa)
    ensures i == j && va % VaSpan(m) == vb % VaSpan(m)
  {
    hide Layout.PairwiseApart, SourceRanges, DestRanges, Mappings, VaSpan, AliasesHaveOriginals;
    if i < j {
      OriginalsApart(ls, i, j);
    } else if j < i {
      OriginalsApart(ls, j, i);
    }
  }

  /** And every physical address an alias translates to belongs to a mapping that is no alias. */
  lemma {:induction false} AliasesAreOfMappings(m: Mode, ls: seq<Listed>, i: nat, va: nat, pa: nat) returns (j: nat)
    requires MapOk(ls) && i < |ls| && Translates(m, ls[i].mapping, va, pa)
    ensures j < |ls| && !ls[j].alias && ls[j].mapping.dest <= pa < ls[j].mapping.dest + Size(ls[j].mapping)
  {
    hide Layout.PairwiseApart, SourceRanges, DestRanges, Mappings, VaSpan;
    if ls[i].alias {
      assert HasOriginal(ls, i);
      j :| 0 <= j < |ls| && !ls[j].alias && Inside(DestRange(ls[i].mapping), DestRange(ls[j].mapping));
    } else {
      j := i;
    }
  }

  // ---------------------------------------------------------------- one stage

  datatype Failure = BadMap | Build(error: BuildError)

  datatype Tabled = Tabled(memory: map<nat, nat>) | Rejected(failure: Failure)

  /** Checks the memory map, then builds. The result is a memory in which, for every address, a walk
      gives a translation exactly when a mapping asks for it. A memory map that passes never meets a
      conflicting entry. */
  method GenerateStage(m: Mode, start: nat, max: nat, ls: seq<Listed>) returns (r: Tabled)
    requires AllChecked(m, Mappings(ls)) && PoolInReach(start, max)
    ensures r.Tabled? ==> forall va: nat, pa: nat ::
              WalkFrom(m, r.memory, start, 0, va) == Translated(pa)
              <==> exists i :: 0 <= i < |ls| && Translates(m, Mappings(ls)[i], va, pa)
    ensures r.Tabled? ==> MapOk(ls) && Buildable(m, start, max, Split(Mappings(ls)))
    ensures r == Rejected(BadMap) ==>
              (Layout.Nonempty(SourceRanges(Mappings(ls))) && Layout.Nonempty(DestRanges(ls)) ==> !MapOk(ls))
    ensures r.Rejected? && r.failure.Build? ==>
              MapOk(ls) && r.failure.error != PteConflict
              && Explains(r.failure.error, m, start, max, Split(Mappings(ls)))
  {
    hide Checked, Tables, Explains, Buildable, WalkFrom, Translates, Split, Accepted, CanonicalMapping,
         PoolInReach, SourceRanges, DestRanges, Mappings, Layout.PairwiseApart, Covered, AliasesHaveOriginals;
    var ok := CheckMemoryMap(ls);
    if !ok {
      return Rejected(BadMap);
    }
    var ms := Mappings(ls);
    ApartNeverConflicts(m, start, max, ms);
    var builder := new Builder(m, start, max);
    var built := builder.CreateFromMappings(ms);
    if built.Err? {
      return Rejected(Build(built.error));
    }
    r := Tabled(builder.pteMemory);
    forall va: nat, pa: nat
      ensures WalkFrom(m, r.memory, start, 0, va) == Translated(pa)
              <==> exists i :: 0 <= i < |ls| && Translates(m, ms[i], va, pa)
    {
      BuiltTablesMeanMappings(m, start, max, builder.pages, builder.pteMemory, ms, va, pa);
    }
  }

  lemma {:induction false} ApartNeverConflicts(m: Mode, start: nat, max: nat, ms: seq<Mapping>)
    requires AllChecked(m, ms) && Layout.PairwiseApart(SourceRanges(ms))
    ensures AllAccepted(m, ms) && !Explains(PteConflict, m, start, max, Split(ms))
  {
    hide Accepted, CanonicalMapping, Explains, Split, SourceRanges, Layout.PairwiseApart, SourceDisjoint;
    forall i | 0 <= i < |ms|
      ensures Accepted(m, ms[i]) && CanonicalMapping(m, ms[i])
    {
      CheckedIsAccepted(m, ms[i]);
    }
    RangesDisjoint(ms);
    DisjointNeverConflicts(m, start, max, ms);
  }

  // ---------------------------------------------------------------- the target's view

  /** The target's walker on the generated tables: it succeeds for an address a mapping translates,
      and gives the mapping's address exactly when the address lies in the first 4K of its page,
      which is always so for 4K pages. */
  lemma {:induction false} TargetTranslatesMappings(
    m: Mode, start: nat, max: nat, pages: seq<Page>, mem: map<nat, nat>, ms: seq<Mapping>, i: nat, va: nat)
    requires AllAccepted(m, ms) && PoolInReach(start, max) && Tables(m, start, max, pages, mem, Split(ms))
    requires i < |ms| && Maps(m, ms[i], va) && ms[i].attrs.valid == 1 && ms[i].attrs.xwr != 0
    ensures ms[i].pageSize > 0
    ensures WalkWords(m, mem, start, 0, va).outcome == Success
    ensures WalkWords(m, mem, start, 0, va).pa == ms[i].dest + Offset(m, ms[i], va)
            <==> va % ms[i].pageSize < SIZE_4K
    ensures WalkWords(m, mem, start, 0, va).pbmt
         == match ms[i].attrs.pbmt case PMA => 0 case NC => 1 case IO => 2
  {
    hide Tables, WalkFrom, WalkWords, Offset, Split, Pow2, Visited, PageSizes, EndsAt;
    TablesAreAllocated(m, start, max, pages, mem, Split(ms));
    RootTable(m, start, max, pages, va);
    TableInReach(m, start, max, pages, va, 0);
    MappedWalk(m, start, max, pages, mem, ms, i, va);
    assert Accepted(m, ms[i]);
    PageSizeIs(m, ms[i].pageSize);
    SameTranslation(m, mem, start, va);
    TargetMemoryType(m, start, max, pages, mem, ms, i, va);
  }

  /** The memory type it finds is the mapping's. */
  lemma {:induction false} TargetMemoryType(
    m: Mode, start: nat, max: nat, pages: seq<Page>, mem: map<nat, nat>, ms: seq<Mapping>, i: nat, va: nat)
    requires AllAccepted(m, ms) && PoolInReach(start, max) && Tables(m, start, max, pages, mem, Split(ms))
    requires i < |ms| && Maps(m, ms[i], va) && WalkFrom(m, mem, start, 0, va).Translated? && start < Pow2(56)
    ensures WalkWords(m, mem, start, 0, va).pbmt
         == match ms[i].attrs.pbmt case PMA => 0 case NC => 1 case IO => 2
  {
    hide Tables, WalkFrom, WalkWords, Offset, Split, Pow2, Visited, PageSizes, PageOffset, Maps;
    var t := ms[i].attrs;
    MappedEntry(m, start, max, pages, mem, ms, i, va);
    WalkersAgree(m, mem, start, 0, va);
    var pte := mem[FinalEntry(m, mem, start, 0, va)];
    var pbmt := match t.pbmt case PMA => 0 case NC => 1 case IO => 2;
    var low := pte - pbmt * 0x2000_0000_0000_0000;
    DivModUnique(pte, 0x2000_0000_0000_0000, pbmt, low);
  }

  /** Where no mapping translates an address, the target's walker does not succeed either. */
  lemma {:induction false} TargetRefusesUnmapped(
    m: Mode, start: nat, max: nat, pages: seq<Page>, mem: map<nat, nat>, ms: seq<Mapping>, va: nat)
    requires AllAccepted(m, ms) && PoolInReach(start, max) && Tables(m, start, max, pages, mem, Split(ms))
    requires forall i :: 0 <= i < |ms| ==> !Maps(m, ms[i], va)
    ensures WalkWords(m, mem, start, 0, va).outcome != Success
  {
    hide Tables, WalkFrom, WalkWords, Split, Pow2, Visited, Maps;
    TablesAreAllocated(m, start, max, pages, mem, Split(ms));
    RootTable(m, start, max, pages, va);
    TableInReach(m, start, max, pages, va, 0);
    UnmappedWalk(m, start, max, pages, mem, ms, va);
    WalkersAgree(m, mem, start, 0, va);
  }
}
