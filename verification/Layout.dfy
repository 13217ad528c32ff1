/** The two layout checks. Both sort by address and compare neighbours only; acceptance means that
    no two of the ranges overlap. */
module Layout {
  import opened Wrappers

  const PAGE: nat := 0x1000

  /** A range of addresses. */
  datatype Range = Range(start: nat, size: nat) {
    function End(): nat { start + size }
  }

  predicate Apart(a: Range, b: Range) { a.End() <= b.start || b.End() <= a.start }

  ghost predicate PairwiseApart(s: seq<Range>) {
    forall i, j :: 0 <= i < j < |s| ==> Apart(s[i], s[j])
  }

  ghost predicate Nonempty(s: seq<Range>) {
    forall r :: r in s ==> r.size > 0
  }

  // ---------------------------------------------------------------- sorting

  /** Inserts x after the last range that starts no later. */
  function Insert(s: seq<Range>, x: Range): seq<Range> {
    if s == [] || s[|s| - 1].start <= x.start then s + [x]
    else Insert(s[..|s| - 1], x) + [s[|s| - 1]]
  }

  /** The ranges in order of their start; equal starts keep their order. */
  function SortByStart(s: seq<Range>): seq<Range> {
    if s == [] then [] else Insert(SortByStart(s[..|s| - 1]), s[|s| - 1])
  }

  ghost predicate Sorted(s: seq<Range>) {
    forall i, j :: 0 <= i < j < |s| ==> s[i].start <= s[j].start
  }

  lemma {:induction false} InsertMembers(s: seq<Range>, x: Range)
    ensures forall r :: r in Insert(s, x) <==> r in s || r == x
    ensures |Insert(s, x)| == |s| + 1
  {
    if s != [] && s[|s| - 1].start > x.start {
      InsertMembers(s[..|s| - 1], x);
      assert s == s[..|s| - 1] + [s[|s| - 1]];
    }
  }

  lemma {:induction false} InsertSorted(s: seq<Range>, x: Range)
    requires Sorted(s)
    ensures Sorted(Insert(s, x))
  {
    if s != [] && s[|s| - 1].start > x.start {
      var init := s[..|s| - 1];
      InsertSorted(init, x);
      InsertMembers(init, x);
      assert forall i :: 0 <= i < |Insert(init, x)| ==> Insert(init, x)[i] in Insert(init, x);
    }
  }

  lemma {:induction false} SortSorted(s: seq<Range>)
    ensures Sorted(SortByStart(s)) && |SortByStart(s)| == |s|
    ensures forall r :: r in SortByStart(s) <==> r in s
  {
    if s != [] {
      SortSorted(s[..|s| - 1]);
      InsertSorted(SortByStart(s[..|s| - 1]), s[|s| - 1]);
      InsertMembers(SortByStart(s[..|s| - 1]), s[|s| - 1]);
      assert s == s[..|s| - 1] + [s[|s| - 1]];
    }
  }

  lemma {:induction false} NoneApart()
    ensures PairwiseApart([])
  {
  }

  lemma {:induction false} ApartAppend(s: seq<Range>, x: Range)
    ensures PairwiseApart(s + [x]) <==> PairwiseApart(s) && forall r :: r in s ==> Apart(r, x)
  {
    var t := s + [x];
    assert forall i :: 0 <= i < |s| ==> t[i] == s[i] && t[i] in s;
    if PairwiseApart(t) {
      forall r | r in s
        ensures Apart(r, x)
      {
        var i :| 0 <= i < |s| && s[i] == r;
        assert Apart(t[i], t[|s|]);
      }
      assert forall i, j :: 0 <= i < j < |s| ==> Apart(t[i], t[j]);
    }
  }

  lemma {:induction false} InsertApart(s: seq<Range>, x: Range)
    ensures PairwiseApart(Insert(s, x)) <==> PairwiseApart(s + [x])
  {
    if s != [] && s[|s| - 1].start > x.start {
      var init, last := s[..|s| - 1], s[|s| - 1];
      InsertApart(init, x);
      InsertMembers(init, x);
      ApartAppend(Insert(init, x), last);
      ApartAppend(init, x);
      ApartAppend(init, last);
      ApartAppend(s, x);
      assert s == init + [last];
      assert forall r :: r in s <==> r in init || r == last;
      assert Apart(x, last) == Apart(last, x);
    }
  }

  /** Sorting changes neither way whether ranges overlap. */
  lemma {:induction false} SortApart(s: seq<Range>)
    ensures PairwiseApart(SortByStart(s)) <==> PairwiseApart(s)
  {
    if s != [] {
      var init, last := s[..|s| - 1], s[|s| - 1];
      SortApart(init);
      SortSorted(init);
      InsertApart(SortByStart(init), last);
      ApartAppend(SortByStart(init), last);
      ApartAppend(init, last);
      assert s == init + [last];
    }
  }

  // ---------------------------------------------------------------- comparing neighbours

  ghost predicate NeighboursApart(s: seq<Range>) {
    forall i :: 0 <= i < |s| - 1 ==> s[i].End() <= s[i + 1].start
  }

  lemma {:induction false} NeighbourOrder(s: seq<Range>, i: nat, j: nat)
    requires NeighboursApart(s) && i < j < |s|
    ensures s[i].End() <= s[j].start
    decreases j
  {
    if i < j - 1 {
      NeighbourOrder(s, i, j - 1);
    }
  }

  /** In sorted order, comparing neighbours decides whether any two ranges overlap. */
  lemma {:induction false} NeighboursDecide(s: seq<Range>)
    requires Sorted(s)
    ensures NeighboursApart(s) ==> PairwiseApart(s)
    ensures PairwiseApart(s) && Nonempty(s) ==> NeighboursApart(s)
  {
    if NeighboursApart(s) {
      forall i, j | 0 <= i < j < |s|
        ensures Apart(s[i], s[j])
      {
        NeighbourOrder(s, i, j);
      }
    }
    if PairwiseApart(s) && Nonempty(s) {
      forall i | 0 <= i < |s| - 1
        ensures s[i].End() <= s[i + 1].start
      {
        assert Apart(s[i], s[i + 1]) && s[i] in s && s[i + 1] in s;
      }
    }
  }

  /** The check of the memory map: every range must start no earlier than its predecessor in sorted
      order ends. Acceptance means no two ranges overlap; ranges that are not empty and do not
      overlap are accepted. */
  method CheckForAddressOverlaps(ranges: seq<Range>) returns (ok: bool)
    ensures ok ==> PairwiseApart(ranges)
    ensures Nonempty(ranges) ==> (ok <==> PairwiseApart(ranges))
  {
    var sorted := SortByStart(ranges);
    SortSorted(ranges);
    SortApart(ranges);
    NeighboursDecide(sorted);
    var previous := None;
    for i := 0 to |sorted|
      invariant previous == if i == 0 then None else Some(sorted[i - 1])
      invariant forall k :: 0 <= k < i - 1 ==> sorted[k].End() <= sorted[k + 1].start
    {
      if previous.Some? && sorted[i].start < previous.value.start + previous.value.size {
        assert !NeighboursApart(sorted) by {
          assert sorted[i - 1].End() > sorted[(i - 1) + 1].start;
        }
        return false;
      }
      previous := Some(sorted[i]);
    }
    return true;
  }

  // ---------------------------------------------------------------- merging sections

  /** A section into which another with the same subsection is merged: first the start, then, by the
      end that results, the size. */
  function Merge(a: Range, b: Range): Range {
    var start := if a.start > b.start then b.start else a.start;
    if start + a.size < b.End() then Range(start, b.End() - start) else Range(start, a.size)
  }

  /** The least range with both in it. */
  function Hull(a: Range, b: Range): Range {
    var start := if a.start > b.start then b.start else a.start;
    Range(start, (if a.End() < b.End() then b.End() else a.End()) - start)
  }

  /** Moving the start moves the end along, so a section that gets an earlier start but no later end
      loses its tail; in every other case the merged section is the hull. */
  lemma {:induction false} MergeIsHullExactly(a: Range, b: Range)
    ensures Merge(a, b) == Hull(a, b) <==> a.start <= b.start || a.End() <= b.End()
    ensures a.start > b.start && a.End() > b.End() ==> Merge(a, b).End() < a.End()
  {
    var m := Merge(a, b);
    assert m.End() == if m.start + a.size < b.End() then b.End() else m.start + a.size;
  }

  // ---------------------------------------------------------------- guard sections

  /** One page after each of the first n sections that its successor does not follow at once. */
  function Guards(s: seq<Range>, n: nat): seq<Range>
    requires n < |s| || n == 0
  {
    if n == 0 then []
    else Guards(s, n - 1) + (if s[n - 1].End() < s[n].start then [Range(s[n - 1].End(), PAGE)] else [])
  }

  predicate PageAligned(r: Range) { r.start % PAGE == 0 && r.size % PAGE == 0 }

  ghost predicate AllAligned(s: seq<Range>) {
    forall r :: r in s ==> PageAligned(r)
  }

  /** A guard lies between a section and its successor. */
  lemma {:induction false} GuardInGap(s: seq<Range>, n: nat, g: Range) returns (i: nat)
    requires (n < |s| || n == 0) && AllAligned(s) && g in Guards(s, n)
    ensures i < n && g.start == s[i].End() && g.size == PAGE && g.End() <= s[i + 1].start
  {
    if g in Guards(s, n - 1) {
      i := GuardInGap(s, n - 1, g);
    } else {
      i := n - 1;
      assert s[i] in s && s[i + 1] in s;
      GapHoldsPage(s[i], s[i + 1]);
    }
  }

  /** Every gap has its guard. */
  lemma {:induction false} GapHasGuard(s: seq<Range>, n: nat, i: nat)
    requires i < n < |s| && s[i].End() < s[i + 1].start
    ensures Range(s[i].End(), PAGE) in Guards(s, n)
  {
    if i < n - 1 {
      GapHasGuard(s, n - 1, i);
    }
  }

  lemma {:induction false} GapHoldsPage(a: Range, b: Range)
    requires PageAligned(a) && PageAligned(b) && a.End() < b.start
    ensures a.End() + PAGE <= b.start
  {
  }

  lemma {:induction false} GuardsApart(s: seq<Range>, n: nat)
    requires (n < |s| || n == 0) && AllAligned(s) && NeighboursApart(s)
    ensures PairwiseApart(Guards(s, n))
  {
    hide PairwiseApart, AllAligned, NeighboursApart;
    if n == 0 {
      assert Guards(s, n) == [];
      NoneApart();
    } else {
      GuardsApart(s, n - 1);
      if s[n - 1].End() < s[n].start {
        var g := Range(s[n - 1].End(), PAGE);
        forall r | r in Guards(s, n - 1)
          ensures Apart(r, g)
        {
          EarlierGuardApart(s, n, r);
        }
        ApartAppend(Guards(s, n - 1), g);
      } else {
        assert Guards(s, n) == Guards(s, n - 1);
      }
    }
  }

  /** A guard in an earlier gap ends before the next section's end. */
  lemma {:induction false} EarlierGuardApart(s: seq<Range>, n: nat, r: Range)
    requires 0 < n < |s| && AllAligned(s) && NeighboursApart(s) && r in Guards(s, n - 1)
    ensures Apart(r, Range(s[n - 1].End(), PAGE))
  {
    hide Guards;
    var i := GuardInGap(s, n - 1, r);
    if i + 1 < n - 1 {
      NeighbourOrder(s, i + 1, n - 1);
    }
  }

  /** Guards overlap neither the sections nor each other. */
  lemma {:induction false} GuardsKeepApart(s: seq<Range>, n: nat, m: nat)
    requires |s| > 0 && n == |s| - 1 && AllAligned(s) && NeighboursApart(s)
    requires m <= |Guards(s, n)|
    ensures PairwiseApart(s + Guards(s, n)[..m])
  {
    var gs := Guards(s, n);
    if m == 0 {
      assert s + gs[..0] == s;
      forall i, j | 0 <= i < j < |s|
        ensures Apart(s[i], s[j])
      {
        NeighbourOrder(s, i, j);
      }
    } else {
      var g := gs[m - 1];
      var before := s + gs[..m - 1];
      GuardsKeepApart(s, n, m - 1);
      GuardsApart(s, n);
      forall r | r in before
        ensures Apart(r, g)
      {
        if r in s {
          GuardApartFromSection(s, n, g, r);
        } else {
          var k :| 0 <= k < m - 1 && gs[k] == r;
          assert Apart(gs[k], gs[m - 1]);
        }
      }
      ApartAppend(before, g);
      assert s + gs[..m] == before + [g];
    }
  }

  lemma {:induction false} GuardApartFromSection(s: seq<Range>, n: nat, g: Range, r: Range)
    requires |s| > 0 && n == |s| - 1 && AllAligned(s) && NeighboursApart(s)
    requires g in Guards(s, n) && r in s
    ensures Apart(r, g)
  {
    var i := GuardInGap(s, n, g);
    var j :| 0 <= j < |s| && s[j] == r;
    if j < i {
      NeighbourOrder(s, j, i);
    } else if j > i + 1 {
      NeighbourOrder(s, i + 1, j);
    }
  }

  lemma {:induction false} PrefixApart(s: seq<Range>, t: seq<Range>)
    requires PairwiseApart(s + t)
    ensures PairwiseApart(s)
  {
    assert forall i :: 0 <= i < |s| ==> (s + t)[i] == s[i];
    forall i, j | 0 <= i < j < |s|
      ensures Apart(s[i], s[j])
    {
      assert Apart((s + t)[i], (s + t)[j]);
    }
  }

  /** The address range the ELF file may use; either end may be open. */
  datatype ElfRange = ElfRange(start: Option<nat>, end: Option<nat>) {
    predicate Holds(r: Range) {
      (start.Some? ==> start.value <= r.start) && (end.Some? ==> r.End() <= end.value)
    }
  }

  ghost predicate AllWithin(elf: ElfRange, s: seq<Range>) {
    forall r :: r in s ==> elf.Holds(r)
  }

  /** Some range starts where r ends. */
  ghost predicate FollowedIn(r: Range, s: seq<Range>) {
    exists q :: q in s && q.start == r.End()
  }

  /** Some range starts where r ends or later. */
  ghost predicate NotLastIn(r: Range, s: seq<Range>) {
    exists q :: q in s && q.start >= r.End()
  }

  /** The range guards a gap: it starts where a section ends that is not the last one and that none
      follows at once. */
  ghost predicate GuardsGap(g: Range, s: seq<Range>) {
    exists r :: r in s && g.start == r.End() && NotLastIn(r, s) && !FollowedIn(r, s)
  }

  /** No section but the last ends in a gap, and only gaps are guarded. */
  lemma {:induction false} GapsAreGuarded(s: seq<Range>, guards: seq<Range>)
    requires Sorted(s) && Nonempty(s) && NeighboursApart(s) && AllAligned(s)
    requires guards == if s == [] then [] else Guards(s, |s| - 1)
    ensures forall r :: r in s && NotLastIn(r, s) ==> FollowedIn(r, s + guards)
    ensures forall g :: g in guards ==> GuardsGap(g, s)
  {
    hide Guards, AllAligned;
    forall r | r in s && NotLastIn(r, s)
      ensures FollowedIn(r, s + guards)
    {
      var q :| q in s && q.start >= r.End();
      var i :| 0 <= i < |s| && s[i] == r;
      var j :| 0 <= j < |s| && s[j] == q;
      assert i < j;
      NeighbourOrder(s, i, i + 1);
      if s[i].End() < s[i + 1].start {
        GapHasGuard(s, |s| - 1, i);
        assert Range(s[i].End(), PAGE) in s + guards;
      } else {
        assert s[i + 1] in s + guards;
      }
    }
    forall g | g in guards
      ensures GuardsGap(g, s)
    {
      var i := GuardInGap(s, |s| - 1, g);
      GapIsNotFollowed(s, i);
      assert s[i] in s && s[i + 1] in s;
    }
  }

  lemma {:induction false} GapIsNotFollowed(s: seq<Range>, i: nat)
    requires Sorted(s) && Nonempty(s) && i + 1 < |s| && s[i].End() < s[i + 1].start
    ensures !FollowedIn(s[i], s)
  {
    assert s[i] in s;
    forall q | q in s
      ensures q.start != s[i].End()
    {
      var j :| 0 <= j < |s| && s[j] == q;
      assert j < i || j == i || j == i + 1 || j > i + 1;
    }
  }

  /** The linker script's layout: sections in order, guards in the gaps, each compared with the ELF
      range and with its neighbour. For sections of whole pages the layout is accepted exactly when
      all sections are in the range and no two overlap; and then the layout with its guards is in
      the range and does not overlap either. A guard page is in every gap and nowhere else. */
  method LayOut(sections: seq<Range>, elf: ElfRange) returns (ok: bool, layout: seq<Range>)
    requires AllAligned(sections) && Nonempty(sections)
    ensures ok <==> PairwiseApart(sections) && AllWithin(elf, sections)
    ensures ok ==> PairwiseApart(layout) && AllWithin(elf, layout) && Sorted(layout)
    ensures forall r :: r in sections ==> r in layout
    ensures forall r :: r in layout && r !in sections ==> r.size == 0x1000
    ensures ok ==> forall r :: r in sections && NotLastIn(r, sections) ==> FollowedIn(r, layout)
    ensures ok ==> forall r :: r in layout && r !in sections ==> GuardsGap(r, sections)
  {
    hide PairwiseApart, NeighboursApart, SortByStart, Guards, Sorted, AllWithin, FollowedIn, NotLastIn, GuardsGap;
    var s := SortByStart(sections);
    SortSorted(sections);
    SortApart(sections);
    var guards := FindGuards(s);
    layout := SortByStart(s + guards);
    SortSorted(s + guards);
    SortApart(s + guards);
    NeighboursDecide(layout);
    ok := SectionsCompared(layout, elf);
    GuardsDecide(s, guards);
    GuardsWithin(elf, sections, s, guards, layout);
    if ok {
      GuardsOfLayout(sections, s, guards, layout);
    }
  }

  /** The same of any order of the sections and of the layout. */
  lemma {:induction false} GuardsOfLayout(sections: seq<Range>, s: seq<Range>, guards: seq<Range>, layout: seq<Range>)
    requires Sorted(s) && Nonempty(s) && AllAligned(s) && PairwiseApart(s)
    requires guards == if s == [] then [] else Guards(s, |s| - 1)
    requires forall r :: r in s <==> r in sections
    requires forall r :: r in layout <==> r in s || r in guards
    ensures forall r :: r in sections && NotLastIn(r, sections) ==> FollowedIn(r, layout)
    ensures forall r :: r in layout && r !in sections ==> GuardsGap(r, sections)
  {
    hide Guards, AllAligned, PairwiseApart, NeighboursApart, Sorted, Nonempty;
    NeighboursDecide(s);
    GapsAreGuarded(s, guards);
    forall r | r in sections && NotLastIn(r, sections)
      ensures FollowedIn(r, layout)
    {
      assert NotLastIn(r, s);
      var q :| q in s + guards && q.start == r.End();
      assert q in layout;
    }
    forall g | g in layout && g !in sections
      ensures GuardsGap(g, sections)
    {
      var r :| r in s && g.start == r.End() && NotLastIn(r, s) && !FollowedIn(r, s);
      assert r in sections && NotLastIn(r, sections) && !FollowedIn(r, sections);
    }
  }

  /** Guards are in the range when the sections are. */
  lemma {:induction false} GuardsWithin(elf: ElfRange, sections: seq<Range>, s: seq<Range>, guards: seq<Range>,
      layout: seq<Range>)
    requires AllAligned(s) && forall r :: r in s <==> r in sections
    requires guards == if s == [] then [] else Guards(s, |s| - 1)
    requires forall r :: r in layout <==> r in s || r in guards
    ensures AllWithin(elf, layout) <==> AllWithin(elf, sections)
  {
    hide Guards;
    if AllWithin(elf, sections) {
      forall g | g in guards
        ensures elf.Holds(g)
      {
        var i := GuardInGap(s, |s| - 1, g);
        assert elf.Holds(s[i]) && elf.Holds(s[i + 1]);
      }
    }
  }

  /** Guards overlap nothing exactly when the sections overlap nothing. */
  lemma {:induction false} GuardsDecide(s: seq<Range>, guards: seq<Range>)
    requires Sorted(s) && AllAligned(s) && Nonempty(s)
    requires guards == if s == [] then [] else Guards(s, |s| - 1)
    ensures PairwiseApart(s + guards) <==> PairwiseApart(s)
  {
    hide Guards;
    NeighboursDecide(s);
    if PairwiseApart(s) && s != [] {
      GuardsKeepApart(s, |s| - 1, |guards|);
      assert guards[..|guards|] == guards;
    }
    if PairwiseApart(s + guards) {
      PrefixApart(s, guards);
    }
  }

  method FindGuards(s: seq<Range>) returns (guards: seq<Range>)
    ensures guards == if s == [] then [] else Guards(s, |s| - 1)
    ensures forall g :: g in guards ==> g.size == PAGE
  {
    guards := [];
    if s != [] {
      for i := 0 to |s| - 1
        invariant guards == Guards(s, i)
        invariant forall g :: g in guards ==> g.size == PAGE
      {
        if s[i].End() < s[i + 1].start {
          guards := guards + [Range(s[i].End(), PAGE)];
        }
      }
    }
  }

  method SectionsCompared(s: seq<Range>, elf: ElfRange) returns (ok: bool)
    ensures ok <==> NeighboursApart(s) && AllWithin(elf, s)
  {
    for i := 0 to |s|
      invariant forall k :: 0 <= k < i && k < |s| - 1 ==> s[k].End() <= s[k + 1].start
      invariant forall k :: 0 <= k < i ==> elf.Holds(s[k])
    {
      if elf.start.Some? && s[i].start < elf.start.value {
        assert s[i] in s && !elf.Holds(s[i]);
        return false;
      }
      if elf.end.Some? && s[i].End() > elf.end.value {
        assert s[i] in s && !elf.Holds(s[i]);
        return false;
      }
      if i < |s| - 1 && s[i].End() > s[i + 1].start {
        return false;
      }
    }
    return true;
  }
}
