/** Runs of the heap: every sequence of requests refines an abstract allocator that only keeps the
    set of blocks in use, and an idle heap is the one chunk it was set up with. */
module HeapRuns {
  import opened HeapSpec
  import opened HeapPlacement
  import Bits

  /** A request: n is already rounded up to a multiple of 8; alignments are powers of two of at
      least 16. */
  datatype Request = Malloc(n: nat) | Memalign(n: nat, k: nat) | Free(ptr: nat)

  ghost predicate WellFormed(q: Request) {
    match q
    case Malloc(n) => n % MIN_ALLOCATION == 0
    case Memalign(n, k) => n % MIN_ALLOCATION == 0 && k >= 3
    case Free(_) => true
  }

  function Initial(start: nat, end: nat): Heap
    requires start + HEADER <= end
  {
    Heap([Chunk(start, end - start - HEADER, false)], 0)
  }

  /** One request, and what it returns; a free of anything but a block in use changes nothing. */
  function Step(h: Heap, q: Request): (Heap, nat)
    requires h.chunks != []
  {
    match q
    case Malloc(n) => HeapSpec.Malloc(h, n)
    case Memalign(n, k) => HeapSpec.Memalign(h, n, k)
    case Free(ptr) =>
      if ptr < HEADER then (h, 0)
      else
        var i := IndexOf(h.chunks, ptr - HEADER);
        if i < |h.chunks| && h.chunks[i].used then (HeapSpec.Free(h, i), 0) else (h, 0)
  }

  // ---------------------------------------------------------------- the abstract allocator

  /** A block: address and size. */
  type Block = (nat, nat)

  predicate Disjoint(a: Block, b: Block) { a.0 + a.1 <= b.0 || b.0 + b.1 <= a.0 }

  /** The block lies in the heap's payload space. */
  predicate InHeap(b: Block, start: nat, end: nat) { start + HEADER <= b.0 && b.0 + b.1 <= end }

  /** A new block of at least n bytes at a multiple of `multiple`, apart from all those in use. */
  ghost predicate Allocates(live: set<Block>, live': set<Block>, p: nat, n: nat, multiple: nat,
                            start: nat, end: nat)
    requires multiple > 0
  {
    exists size: nat ::
      && size >= n && p % multiple == 0 && InHeap((p, size), start, end)
      && (forall b :: b in live ==> Disjoint(b, (p, size)))
      && (p, size) !in live
      && live' == live + {(p, size)}
  }

  /** What an allocator may do with a request: hand out one new block or refuse and change nothing;
      take back exactly the block at the address. */
  ghost predicate AbstractStep(live: set<Block>, q: Request, live': set<Block>, r: nat, start: nat, end: nat) {
    match q
    case Malloc(n) => (r == 0 && live' == live) || (r != 0 && Allocates(live, live', r, n, MIN_ALLOCATION, start, end))
    case Memalign(n, k) =>
      (r == 0 && live' == live) || (r != 0 && Allocates(live, live', r, n, Bits.Pow2(k), start, end))
    case Free(ptr) => live' == set b | b in live && b.0 != ptr
  }

  // ---------------------------------------------------------------- refinement, step by step

  /** A request for n bytes fails exactly when no free chunk has n bytes. */
  lemma {:induction false} MallocFails(h: Heap, start: nat, end: nat, n: nat)
    requires Inv(h, start, end)
    ensures HeapSpec.Malloc(h, n).1 == 0 <==> forall c :: c in h.chunks ==> c.used || c.size < n
    ensures HeapSpec.Malloc(h, n).1 == 0 ==> HeapSpec.Malloc(h, n).0 == h
  {
    SearchFails(h.chunks, StartIndex(h), FitsFor(n));
  }

  /** An aligned request fails exactly when no free chunk starts at a multiple, or holds one at
      least 24 bytes in, with room for the block. */
  lemma {:induction false} MemalignFails(h: Heap, start: nat, end: nat, n: nat, k: nat)
    requires Inv(h, start, end)
    ensures HeapSpec.Memalign(h, n, k).1 == 0 <==> forall c :: c in h.chunks ==> !HasAlignedRoom(n, k)(c)
    ensures HeapSpec.Memalign(h, n, k).1 == 0 ==> HeapSpec.Memalign(h, n, k).0 == h
  {
    hide FitsAligned, Take, SplitAt, HasAlignedRoom;
    SearchFails(h.chunks, StartIndex(h), FitsAlignedFor(n, k));
    forall c | c in h.chunks
      ensures FitsAlignedFor(n, k)(c) <==> HasAlignedRoom(n, k)(c)
    {
      SameAlignedRoom(c, n, k);
    }
    AlignedResultNonZero(h, n, k);
  }

  lemma {:induction false} AlignedResultNonZero(h: Heap, n: nat, k: nat)
    requires h.chunks != []
    ensures Search(h.chunks, StartIndex(h), 0, FitsAlignedFor(n, k)) == |h.chunks|
            <==> HeapSpec.Memalign(h, n, k).1 == 0
  {
    hide Allocate, SplitAt, AlignUp;
    var s := StartIndex(h);
    var p := Search(h.chunks, s, 0, FitsAlignedFor(n, k));
    if p < |h.chunks| {
      var c := h.chunks[At(s, p, |h.chunks|)];
      AlignUpIs(c.Payload() + MIN_SEGMENT, k);
    }
  }

  /** A new block is apart from those in use, and from where they were. */
  lemma {:induction false} NewBlock(cs: seq<Chunk>, cs': seq<Chunk>, start: nat, end: nat, b: Block)
    requires Tiles(cs', start, end) && Live(cs') == Live(cs) + {b} && b !in Live(cs)
    ensures InHeap(b, start, end) && b.0 % MIN_ALLOCATION == 0
    ensures forall a :: a in Live(cs) ==> Disjoint(a, b)
  {
    LiveBlocks(cs', start, end);
    assert b in Live(cs');
  }

  /** A free chunk's bytes are in no block in use. */
  lemma {:induction false} FreshBlock(cs: seq<Chunk>, start: nat, end: nat, i: nat, p: nat, size: nat)
    requires Tiles(cs, start, end) && i < |cs| && !cs[i].used
    requires cs[i].Payload() <= p <= cs[i].End()
    ensures (p, size) !in Live(cs)
  {
    if (p, size) in Live(cs) {
      var j :| 0 <= j < |cs| && cs[j].used && (p, size) == (cs[j].Payload(), cs[j].size);
      if j < i {
        Ascending(cs, start, end, j, i);
      } else {
        Ascending(cs, start, end, i, j);
      }
      assert false;
    }
  }

  lemma {:induction false} HasChunks(h: Heap, start: nat, end: nat)
    requires Inv(h, start, end)
    ensures h.chunks != []
  {
  }

  lemma {:induction false} MallocRefines(h: Heap, start: nat, end: nat, n: nat)
    requires Inv(h, start, end) && n % MIN_ALLOCATION == 0
    ensures Inv(HeapSpec.Malloc(h, n).0, start, end)
    ensures AbstractStep(Live(h.chunks), Malloc(n), Live(HeapSpec.Malloc(h, n).0.chunks), HeapSpec.Malloc(h, n).1,
      start, end)
  {
    hide Take, Live, Tiles, NoFreeNeighbours, CursorOk;
    HasChunks(h, start, end);
    var cs, k := h.chunks, StartIndex(h);
    var p := Search(cs, k, 0, FitsFor(n));
    if p < |cs| {
      var i := At(k, p, |cs|);
      var size := Granted(cs[i], n);
      AllocateKeeps(h, start, end, i, n);
      TakeLive(cs, i, n);
      FreshBlock(cs, start, end, i, cs[i].Payload(), size);
      NewBlock(cs, Allocate(h, i, n).chunks, start, end, (cs[i].Payload(), size));
      assert size >= n;
    }
  }

  lemma {:induction false} MemalignRefines(h: Heap, start: nat, end: nat, n: nat, k: nat)
    requires Inv(h, start, end) && n % MIN_ALLOCATION == 0 && k >= 3
    ensures Inv(HeapSpec.Memalign(h, n, k).0, start, end)
    ensures AbstractStep(Live(h.chunks), Memalign(n, k), Live(HeapSpec.Memalign(h, n, k).0.chunks),
                         HeapSpec.Memalign(h, n, k).1, start, end)
  {
    hide Take, Live, Tiles, NoFreeNeighbours, CursorOk, AllocateAligned, FitsAligned, Bits.Pow2;
    HasChunks(h, start, end);
    var cs, s := h.chunks, StartIndex(h);
    var p := Search(cs, s, 0, FitsAlignedFor(n, k));
    if p < |cs| {
      var i := At(s, p, |cs|);
      AllocateAlignedKeeps(h, start, end, i, n, k);
      AlignedInside(h, i, n, k);
      var (h', ptr) := AllocateAligned(h, i, n, k);
      var size: nat :| size >= n && Live(h'.chunks) == Live(cs) + {(ptr, size)};
      FreshBlock(cs, start, end, i, ptr, size);
      NewBlock(cs, h'.chunks, start, end, (ptr, size));
    }
  }

  lemma {:induction false} AlignedInside(h: Heap, i: nat, n: nat, k: nat)
    requires i < |h.chunks| && FitsAligned(h.chunks[i], n, k)
    ensures var (h', ptr) := AllocateAligned(h, i, n, k);
            ptr != 0 && h.chunks[i].Payload() <= ptr <= h.chunks[i].End() && !h.chunks[i].used
  {
    hide AlignUp, Allocate, SplitAt;
    AlignUpIs(h.chunks[i].Payload() + MIN_SEGMENT, k);
  }

  lemma {:induction false} FreeRefines(h: Heap, start: nat, end: nat, ptr: nat)
    requires Inv(h, start, end)
    ensures Inv(Step(h, Free(ptr)).0, start, end)
    ensures AbstractStep(Live(h.chunks), Free(ptr), Live(Step(h, Free(ptr)).0.chunks), 0, start, end)
  {
    hide Release, NoFreeNeighbours, CursorOk;
    var cs := h.chunks;
    forall b | b in Live(cs) && b.0 == ptr
      ensures ptr >= HEADER && IndexOf(cs, ptr - HEADER) < |cs|
              && b == (cs[IndexOf(cs, ptr - HEADER)].Payload(), cs[IndexOf(cs, ptr - HEADER)].size)
              && cs[IndexOf(cs, ptr - HEADER)].used
    {
      var j :| 0 <= j < |cs| && cs[j].used && b == (cs[j].Payload(), cs[j].size);
      IndexOfChunk(cs, start, end, j);
    }
    if ptr >= HEADER {
      var i := IndexOf(cs, ptr - HEADER);
      if i < |cs| && cs[i].used {
        FreeKeeps(h, start, end, i);
      }
    }
  }

  /** Every request, of whatever kind, is a step of the abstract allocator and keeps the invariant. */
  lemma {:induction false} StepRefines(h: Heap, start: nat, end: nat, q: Request)
    requires Inv(h, start, end) && WellFormed(q)
    ensures Inv(Step(h, q).0, start, end)
    ensures AbstractStep(Live(h.chunks), q, Live(Step(h, q).0.chunks), Step(h, q).1, start, end)
  {
    hide HeapSpec.Malloc, HeapSpec.Memalign, HeapSpec.Free, Live, Inv;
    match q
    case Malloc(n) => MallocRefines(h, start, end, n);
    case Memalign(n, k) => MemalignRefines(h, start, end, n, k);
    case Free(ptr) => FreeRefines(h, start, end, ptr);
  }

  // ---------------------------------------------------------------- runs

  /** The heap after a run of requests. */
  function Run(h: Heap, qs: seq<Request>): Heap
    requires h.chunks != []
    decreases |qs|
  {
    if qs == [] then h
    else
      var h' := Step(h, qs[0]).0;
      if h'.chunks == [] then h' else Run(h', qs[1..])
  }

  lemma {:induction false} InitialIsIdle(start: nat, end: nat)
    requires 0 < start && start + HEADER <= end && start % MIN_ALLOCATION == 0 && end % MIN_ALLOCATION == 0
    ensures Inv(Initial(start, end), start, end) && Live(Initial(start, end).chunks) == {}
  {
  }

  /** In every run the chunks tile the heap, no two neighbours are free, and the cursor is right. */
  lemma {:induction false} RunKeepsInvariant(h: Heap, start: nat, end: nat, qs: seq<Request>)
    requires Inv(h, start, end) && forall i :: 0 <= i < |qs| ==> WellFormed(qs[i])
    ensures Inv(Run(h, qs), start, end)
    decreases |qs|
  {
    hide Step, NoFreeNeighbours, CursorOk;
    if qs != [] {
      StepRefines(h, start, end, qs[0]);
      RunKeepsInvariant(Step(h, qs[0]).0, start, end, qs[1..]);
    }
  }

  /** Whatever ran before, a heap with no block left in use is the single chunk it was set up with,
      so that taking it down succeeds. */
  lemma {:induction false} IdleRunRestoresHeap(start: nat, end: nat, qs: seq<Request>)
    requires 0 < start && start + HEADER <= end && start % MIN_ALLOCATION == 0 && end % MIN_ALLOCATION == 0
    requires forall i :: 0 <= i < |qs| ==> WellFormed(qs[i])
    requires Live(Run(Initial(start, end), qs).chunks) == {}
    ensures Run(Initial(start, end), qs) == Initial(start, end)
  {
    hide Run, Live;
    InitialIsIdle(start, end);
    RunKeepsInvariant(Initial(start, end), start, end, qs);
    IdleHeapIsOneChunk(Run(Initial(start, end), qs), start, end);
  }

  function Frees(ptrs: seq<nat>): seq<Request> {
    seq(|ptrs|, i requires 0 <= i < |ptrs| => Free(ptrs[i]))
  }

  /** Freeing the blocks at these addresses, in this order, leaves the other blocks. */
  lemma {:induction false} FreesRemove(h: Heap, start: nat, end: nat, ptrs: seq<nat>)
    requires Inv(h, start, end)
    ensures Inv(Run(h, Frees(ptrs)), start, end)
    ensures Live(Run(h, Frees(ptrs)).chunks) == set b | b in Live(h.chunks) && b.0 !in ptrs
    decreases |ptrs|
  {
    hide Step, NoFreeNeighbours, CursorOk, Live;
    if ptrs != [] {
      var h' := Step(h, Free(ptrs[0])).0;
      FreeRefines(h, start, end, ptrs[0]);
      FreesRemove(h', start, end, ptrs[1..]);
      assert Frees(ptrs)[1..] == Frees(ptrs[1..]);
      assert Run(h, Frees(ptrs)) == Run(h', Frees(ptrs[1..]));
    }
  }

  /** Freeing all the blocks in use, in any order, restores the single initial chunk. */
  lemma {:induction false} FreeingAllRestores(h: Heap, start: nat, end: nat, ptrs: seq<nat>)
    requires Inv(h, start, end) && start + HEADER <= end && forall b :: b in Live(h.chunks) ==> b.0 in ptrs
    ensures Run(h, Frees(ptrs)) == Initial(start, end)
  {
    hide Run, Live;
    FreesRemove(h, start, end, ptrs);
    IdleHeapIsOneChunk(Run(h, Frees(ptrs)), start, end);
  }

  // ---------------------------------------------------------------- next fit over two allocations

  /** The chunks that can serve a request. */
  ghost function RoomFor(q: Request): Chunk -> bool
    requires !q.Free?
  {
    match q
    case Malloc(n) => HasRoom(n)
    case Memalign(n, k) => HasAlignedRoom(n, k)
  }

  /** An allocation takes its block from the next chunk with room behind the cursor, or from the first
      one if none is behind it, and leaves the cursor at the header of the block. */
  lemma {:induction false} AllocationIsNextFit(h: Heap, start: nat, end: nat, q: Request)
    requires Inv(h, start, end) && WellFormed(q) && !q.Free?
    ensures var (h', p) := Step(h, q);
            p != 0 ==>
              && h'.cursor + 16 == p
              && exists c :: NextFit(h.chunks, h.cursor, c, RoomFor(q)) && c.addr + 16 <= p <= c.End()
  {
    hide HeapSpec.Malloc, HeapSpec.Memalign, HeapSpec.Free, Live, Inv, NextFit, HasRoom, HasAlignedRoom;
    match q
    case Malloc(n) => MallocPlaces(h, start, end, n);
    case Memalign(n, k) => MemalignPlaces(h, start, end, n, k);
  }

  /** Freeing other blocks leaves the cursor where it is. */
  lemma {:induction false} OtherFreesKeepCursor(h: Heap, start: nat, end: nat, ptrs: seq<nat>)
    requires Inv(h, start, end) && h.cursor + HEADER !in ptrs
    ensures Run(h, Frees(ptrs)).cursor == h.cursor && Inv(Run(h, Frees(ptrs)), start, end)
    decreases |ptrs|
  {
    hide Step, NoFreeNeighbours, CursorOk, Live;
    if ptrs != [] {
      var h' := Step(h, Free(ptrs[0])).0;
      FreeRefines(h, start, end, ptrs[0]);
      OtherFreeKeepsCursor(h, start, end, ptrs[0]);
      assert ptrs == [ptrs[0]] + ptrs[1..];
      OtherFreesKeepCursor(h', start, end, ptrs[1..]);
      assert Frees(ptrs)[1..] == Frees(ptrs[1..]);
      assert Run(h, Frees(ptrs)) == Run(h', Frees(ptrs[1..]));
    }
  }

  lemma {:induction false} OtherFreeKeepsCursor(h: Heap, start: nat, end: nat, ptr: nat)
    requires Inv(h, start, end) && h.cursor + HEADER != ptr
    ensures Step(h, Free(ptr)).0.cursor == h.cursor
  {
    hide Inv, HeapSpec.Free;
    InvTiles(h, start, end);
    if ptr >= HEADER {
      var i := IndexOf(h.chunks, ptr - HEADER);
      if i < |h.chunks| && h.chunks[i].used {
        FreeMovesCursor(h, start, end, i);
      }
    }
  }

  /** Next fit: between two allocations let any other blocks be freed. The second block is in the first
      chunk with room behind the first block or, if none is behind it, in the first chunk with room. */
  lemma {:induction false} NextFitFollows(h: Heap, start: nat, end: nat, q: Request, ptrs: seq<nat>, r: Request)
    requires Inv(h, start, end) && WellFormed(q) && !q.Free? && WellFormed(r) && !r.Free?
    requires Step(h, q).1 != 0 && Step(h, q).1 !in ptrs && Step(h, q).0.chunks != []
    ensures Step(h, q).1 >= 16
    ensures var between := Run(Step(h, q).0, Frees(ptrs));
            between.chunks != []
            && var p := Step(between, r).1;
               p != 0 ==>
                 exists c :: NextFit(between.chunks, Step(h, q).1 - 16, c, RoomFor(r)) && c.addr + 16 <= p <= c.End()
  {
    hide Step, Run, Inv, NextFit, RoomFor;
    HasChunks(h, start, end);
    var (one, p) := Step(h, q);
    AllocationIsNextFit(h, start, end, q);
    StepRefines(h, start, end, q);
    OtherFreesKeepCursor(one, start, end, ptrs);
    HasChunks(Run(one, Frees(ptrs)), start, end);
    AllocationIsNextFit(Run(one, Frees(ptrs)), start, end, r);
  }
}
