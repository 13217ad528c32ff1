/** Where the generator puts the table pools of the stages: one after another, each from a multiple of
    the size of its mode's root table on. */
module Pools {
  import opened Bits
  import opened Modes
  import opened Pte
  import opened PageTables
  import opened PageTableBuilder
  import opened MappingMeaning
  import opened NestedWalk
  import Layout

  /** The start itself, or else the next multiple. */
  function NextMultiple(start: nat, size: nat): nat
    requires size > 0
  {
    if start % size != 0 then (start / size + 1) * size else start
  }

  lemma {:induction false} NextMultipleIs(start: nat, size: nat)
    requires size > 0
    ensures NextMultiple(start, size) % size == 0 && start <= NextMultiple(start, size) < start + size
  {
    var q := start / size + 1;
    if start % size != 0 {
      assert start == start / size * size + start % size;
      assert q * size == start / size * size + size;
      DivModUnique(q * size, size, q, 0);
    }
  }

  /** A pool: the mode of its stage, and where it starts. */
  datatype Pool = Pool(mode: Mode, start: nat)

  function PoolRange(p: Pool, max: nat): Layout.Range { Layout.Range(p.start, max * SIZE_4K) }

  /** Bytes of a root table, in numbers. */
  function RootBytes(m: Mode): nat { if IsX4(m) then 0x4000 else 0x1000 }

  predicate RootAligned(p: Pool) { p.start % RootBytes(p.mode) == 0 }

  /** Pools in order from `start` on: each begins at the first address at or behind the end of the one
      before where its root table can be. */
  ghost predicate Placed(pools: seq<Pool>, start: nat, max: nat) {
    forall i :: 0 <= i < |pools| ==>
      && RootAligned(pools[i])
      && PoolsEnd(pools, i, start, max) <= pools[i].start
         < PoolsEnd(pools, i, start, max) + RootBytes(pools[i].mode)
  }

  /** Where the first n pools end. */
  function PoolsEnd(pools: seq<Pool>, n: nat, start: nat, max: nat): nat
    requires n <= |pools|
  {
    if n == 0 then start else pools[n - 1].start + max * SIZE_4K
  }

  /** The loop over the stages that are not bare: each gets a pool and a mapping of it to itself. */
  method AddPagetableMappings(modes: seq<Mode>, start: nat, max: nat, attrs: Attributes)
    returns (pools: seq<Pool>, mappings: seq<Mapping>)
    ensures |pools| == |mappings| == |modes| && Placed(pools, start, max)
    ensures forall i :: 0 <= i < |modes| ==>
              pools[i].mode == modes[i] && mappings[i] == PoolMapping(pools[i].start, max, attrs)
  {
    hide PagetableSizes, PoolsEnd, Placed, NextMultiple, RootAligned, PoolMapping;
    pools, mappings := [], [];
    NonePlaced(start, max);
    var address := start;
    for i := 0 to |modes|
      invariant |pools| == |mappings| == i && Placed(pools, start, max)
      invariant address == PoolsEnd(pools, i, start, max)
      invariant forall k :: 0 <= k < i ==>
                  pools[k].mode == modes[k] && mappings[k] == PoolMapping(pools[k].start, max, attrs)
    {
      var size := PagetableSizes(modes[i])[0];
      TableSizeIs(modes[i], 0);
      OneMorePlaced(pools, start, max, Pool(modes[i], NextMultiple(address, size)));
      address := RoundedUp(address, size);
      pools := pools + [Pool(modes[i], address)];
      mappings := mappings + [PoolMapping(address, max, attrs)];
      address := address + max * SIZE_4K;
    }
  }

  method RoundedUp(start: nat, size: nat) returns (address: nat)
    requires size > 0
    ensures address == NextMultiple(start, size)
  {
    address := start;
    if start % size != 0 {
      address := (start / size + 1) * size;
    }
  }

  lemma {:induction false} NonePlaced(start: nat, max: nat)
    ensures Placed([], start, max) && PoolsEnd([], 0, start, max) == start
  {
  }

  lemma {:induction false} OneMorePlaced(pools: seq<Pool>, start: nat, max: nat, p: Pool)
    requires Placed(pools, start, max)
    requires p.start == NextMultiple(PoolsEnd(pools, |pools|, start, max), RootBytes(p.mode))
    ensures Placed(pools + [p], start, max)
    ensures PoolsEnd(pools + [p], |pools| + 1, start, max) == p.start + max * SIZE_4K
  {
    hide NextMultiple;
    NextMultipleIs(PoolsEnd(pools, |pools|, start, max), RootBytes(p.mode));
    var more := pools + [p];
    forall i | 0 <= i < |more|
      ensures PoolsEnd(more, i, start, max) == PoolsEnd(pools, i, start, max)
      ensures i < |pools| ==> more[i] == pools[i]
    {
    }
  }

  lemma {:induction false} PoolsAscend(pools: seq<Pool>, start: nat, max: nat, i: nat, j: nat)
    requires Placed(pools, start, max) && i < j < |pools|
    ensures PoolRange(pools[i], max).End() <= pools[j].start
    decreases j
  {
    hide PagetableSizes, RootAligned;
    assert PoolsEnd(pools, j, start, max) <= pools[j].start;
    assert PoolsEnd(pools, j, start, max) == PoolRange(pools[j - 1], max).End();
    if i < j - 1 {
      PoolsAscend(pools, start, max, i, j - 1);
    }
  }

  /** No two stages share a table page, and in no stage is the root table misaligned, so that failure
      of the builder does not arise in the pipeline. */
  lemma {:induction false} PoolsAreApart(pools: seq<Pool>, start: nat, max: nat)
    requires Placed(pools, start, max)
    ensures forall i, j :: 0 <= i < j < |pools| ==> Layout.Apart(PoolRange(pools[i], max), PoolRange(pools[j], max))
    ensures forall i, es :: 0 <= i < |pools| ==> !Explains(Misaligned, pools[i].mode, pools[i].start, max, es)
  {
    hide PagetableSizes, PoolRange;
    forall i, j | 0 <= i < j < |pools|
      ensures Layout.Apart(PoolRange(pools[i], max), PoolRange(pools[j], max))
    {
      PoolsAscend(pools, start, max, i, j);
      RangeStart(pools[j], max);
    }
    forall i, es | 0 <= i < |pools|
      ensures !Explains(Misaligned, pools[i].mode, pools[i].start, max, es)
    {
      assert RootAligned(pools[i]);
      TableSizeIs(pools[i].mode, 0);
    }
  }

  lemma {:induction false} RangeStart(p: Pool, max: nat)
    ensures PoolRange(p, max).start == p.start
  {
  }
}
