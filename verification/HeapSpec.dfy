/** The heap as a list of chunks: what allocation and release do to it, and what they keep. */
module HeapSpec {
  import opened Bits

  const HEADER: nat := 16
  const MIN_ALLOCATION: nat := 8
  const MIN_SEGMENT: nat := HEADER + MIN_ALLOCATION

  /** A header at addr followed by size bytes of payload. */
  datatype Chunk = Chunk(addr: nat, size: nat, used: bool) {
    function Payload(): nat { addr + HEADER }
    function End(): nat { addr + HEADER + size }
  }

  /** The chunks in address order, and the chunk last allocated, 0 when there is none. */
  datatype Heap = Heap(chunks: seq<Chunk>, cursor: nat)

  // ---------------------------------------------------------------- the invariant

  /** The chunks fill [start, end) with no gap, each with a size that is a multiple of 8. */
  ghost predicate Tiles(cs: seq<Chunk>, start: nat, end: nat) {
    && cs != [] && cs[0].addr == start && cs[|cs| - 1].End() == end
    && (forall i :: 0 <= i < |cs| - 1 ==> cs[i].End() == cs[i + 1].addr)
    && (forall i :: 0 <= i < |cs| ==> cs[i].size % MIN_ALLOCATION == 0)
    && start > 0 && start % MIN_ALLOCATION == 0
  }

  ghost predicate NoFreeNeighbours(cs: seq<Chunk>) {
    forall i :: 0 <= i < |cs| - 1 ==> cs[i].used || cs[i + 1].used
  }

  ghost predicate AllFree(cs: seq<Chunk>) {
    forall i :: 0 <= i < |cs| ==> !cs[i].used
  }

  /** The cursor is 0 exactly when no chunk is used; otherwise it names a used chunk. */
  ghost predicate CursorOk(h: Heap) {
    if AllFree(h.chunks) then h.cursor == 0
    else exists i :: 0 <= i < |h.chunks| && h.chunks[i].used && h.chunks[i].addr == h.cursor
  }

  ghost predicate Inv(h: Heap, start: nat, end: nat) {
    Tiles(h.chunks, start, end) && NoFreeNeighbours(h.chunks) && CursorOk(h)
  }

  /** Payload address and size of each used chunk. */
  ghost function Live(cs: seq<Chunk>): set<(nat, nat)> {
    set c | c in cs && c.used :: (c.Payload(), c.size)
  }

  /** Bytes of headers and payloads. */
  function Total(cs: seq<Chunk>): nat {
    if cs == [] then 0 else Total(cs[..|cs| - 1]) + cs[|cs| - 1].size + HEADER
  }

  /** Position of the chunk at this address; the number of chunks when there is none. */
  function IndexOf(cs: seq<Chunk>, addr: nat): (i: nat)
    ensures i <= |cs|
    ensures i < |cs| ==> cs[i].addr == addr
    ensures forall j :: 0 <= j < i ==> cs[j].addr != addr
  {
    if cs == [] || cs[0].addr == addr then 0 else 1 + IndexOf(cs[1..], addr)
  }

  lemma {:induction false} Ascending(cs: seq<Chunk>, start: nat, end: nat, i: nat, j: nat)
    requires Tiles(cs, start, end) && i < j < |cs|
    ensures cs[i].End() <= cs[j].addr
    decreases j
  {
    if i < j - 1 {
      Ascending(cs, start, end, i, j - 1);
    }
  }

  lemma {:induction false} Within(cs: seq<Chunk>, start: nat, end: nat, i: nat)
    requires Tiles(cs, start, end) && i < |cs|
    ensures start <= cs[i].addr && cs[i].End() <= end
  {
    if i > 0 {
      Ascending(cs, start, end, 0, i);
    }
    if i < |cs| - 1 {
      Ascending(cs, start, end, i, |cs| - 1);
    }
  }

  lemma {:induction false} AlignedChunks(cs: seq<Chunk>, start: nat, end: nat, i: nat)
    requires Tiles(cs, start, end) && i < |cs|
    ensures cs[i].addr % MIN_ALLOCATION == 0
    decreases i
  {
    if i > 0 {
      AlignedChunks(cs, start, end, i - 1);
      assert cs[i - 1].End() == cs[(i - 1) + 1].addr;
    }
  }

  lemma {:induction false} IndexOfChunk(cs: seq<Chunk>, start: nat, end: nat, i: nat)
    requires Tiles(cs, start, end) && i < |cs|
    ensures IndexOf(cs, cs[i].addr) == i
  {
    var j := IndexOf(cs, cs[i].addr);
    if j < i {
      Ascending(cs, start, end, j, i);
    }
  }

  /** Sizes and headers add up to the heap. */
  lemma {:induction false} TotalIs(cs: seq<Chunk>, start: nat, end: nat)
    requires Tiles(cs, start, end)
    ensures Total(cs) == end - start
  {
    if |cs| > 1 {
      var init := cs[..|cs| - 1];
      TotalIs(init, start, init[|init| - 1].End());
    } else {
      assert cs[..0] == [];
    }
  }

  /** Blocks in use are 8-aligned, inside the heap, and do not overlap. */
  lemma {:induction false} LiveBlocks(cs: seq<Chunk>, start: nat, end: nat)
    requires Tiles(cs, start, end)
    ensures forall b :: b in Live(cs) ==>
              b.0 % MIN_ALLOCATION == 0 && start + HEADER <= b.0 && b.0 + b.1 <= end
    ensures forall a, b :: a in Live(cs) && b in Live(cs) && a != b ==>
              a.0 + a.1 + HEADER <= b.0 || b.0 + b.1 + HEADER <= a.0
  {
    forall b | b in Live(cs)
      ensures b.0 % MIN_ALLOCATION == 0 && start + HEADER <= b.0 && b.0 + b.1 <= end
    {
      var i :| 0 <= i < |cs| && cs[i].used && b == (cs[i].Payload(), cs[i].size);
      Within(cs, start, end, i);
      AlignedChunks(cs, start, end, i);
    }
    forall a, b | a in Live(cs) && b in Live(cs) && a != b
      ensures a.0 + a.1 + HEADER <= b.0 || b.0 + b.1 + HEADER <= a.0
    {
      var i :| 0 <= i < |cs| && cs[i].used && a == (cs[i].Payload(), cs[i].size);
      var j :| 0 <= j < |cs| && cs[j].used && b == (cs[j].Payload(), cs[j].size);
      if i < j {
        Ascending(cs, start, end, i, j);
      } else {
        Ascending(cs, start, end, j, i);
      }
    }
  }

  // ---------------------------------------------------------------- searching from the cursor

  /** Where a search starts: after the cursor's chunk, at the head when that was the last one or
      there is no cursor. */
  function StartIndex(h: Heap): (k: nat)
    ensures h.chunks != [] ==> k < |h.chunks|
  {
    var after := if h.cursor == 0 then 0 else IndexOf(h.chunks, h.cursor) + 1;
    if after < |h.chunks| then after else 0
  }

  /** The position p steps after k, around the end. */
  function At(k: nat, p: nat, n: nat): (i: nat)
    requires k < n && p < n
    ensures i < n
  {
    if k + p < n then k + p else k + p - n
  }

  /** Number of steps from k to the first chunk that fits, from step p on; n when none does. */
  function Search(cs: seq<Chunk>, k: nat, p: nat, fits: Chunk -> bool): (q: nat)
    requires k < |cs| && p <= |cs|
    ensures p <= q <= |cs|
    ensures q < |cs| ==> fits(cs[At(k, q, |cs|)])
    ensures forall j :: p <= j < q ==> !fits(cs[At(k, j, |cs|)])
    decreases |cs| - p
  {
    if p == |cs| || fits(cs[At(k, p, |cs|)]) then p else Search(cs, k, p + 1, fits)
  }

  /** A search fails exactly when no chunk of the heap fits. */
  lemma {:induction false} SearchFails(cs: seq<Chunk>, k: nat, fits: Chunk -> bool)
    requires k < |cs|
    ensures Search(cs, k, 0, fits) == |cs| <==> forall i :: 0 <= i < |cs| ==> !fits(cs[i])
  {
    if Search(cs, k, 0, fits) == |cs| {
      forall i | 0 <= i < |cs|
        ensures !fits(cs[i])
      {
        var p := if i >= k then i - k else i - k + |cs|;
        assert At(k, p, |cs|) == i;
      }
    }
  }

  // ---------------------------------------------------------------- allocation

  const WORD_LIMIT: nat := 0x1_0000_0000_0000_0000
  const USED: nat := 0x8000_0000_0000_0000

  /** The request rounded up to a multiple of 8, in 64-bit arithmetic. */
  function AlignToMinAlloc(size: nat): nat
    requires size < WORD_LIMIT
  {
    ((size - 1) % WORD_LIMIT / MIN_ALLOCATION * MIN_ALLOCATION + MIN_ALLOCATION) % WORD_LIMIT
  }

  lemma {:induction false} AlignToMinAllocIs(size: nat)
    requires size < USED
    ensures AlignToMinAlloc(size) % MIN_ALLOCATION == 0
    ensures size <= AlignToMinAlloc(size) < size + MIN_ALLOCATION
    ensures AlignToMinAlloc(size) <= USED
  {
  }

  predicate Fits(c: Chunk, n: nat) { !c.used && c.size >= n }

  function FitsFor(n: nat): Chunk -> bool { (c: Chunk) => Fits(c, n) }

  /** Chunk i taken for n bytes; what is left becomes a chunk of its own when it can hold a header
      and 8 bytes. */
  function Take(cs: seq<Chunk>, i: nat, n: nat): seq<Chunk>
    requires i < |cs| && n <= cs[i].size
  {
    var c := cs[i];
    if c.size >= n + MIN_SEGMENT
    then cs[..i] + [Chunk(c.addr, n, true), Chunk(c.addr + HEADER + n, c.size - n - HEADER, false)] + cs[i + 1..]
    else cs[i := c.(used := true)]
  }

  function Allocate(h: Heap, i: nat, n: nat): Heap
    requires i < |h.chunks| && n <= h.chunks[i].size
  {
    Heap(Take(h.chunks, i, n), h.chunks[i].addr)
  }

  /** The heap after a request for n bytes, and the block's address, 0 when nothing fits. */
  function Malloc(h: Heap, n: nat): (Heap, nat)
    requires h.chunks != []
  {
    var k := StartIndex(h);
    var p := Search(h.chunks, k, 0, FitsFor(n));
    if p == |h.chunks| then (h, 0)
    else
      var i := At(k, p, |h.chunks|);
      (Allocate(h, i, n), h.chunks[i].Payload())
  }

  /** Bytes the block gets: n, or all of a chunk too small to split. */
  function Granted(c: Chunk, n: nat): nat { if c.size >= n + MIN_SEGMENT then n else c.size }

  /** No two neighbours are free, chunk i apart, and chunk i is followed by a used one. */
  ghost predicate FreeOnlyAt(cs: seq<Chunk>, i: nat) {
    && (forall j :: 0 <= j < |cs| - 1 && j != i && j + 1 != i ==> cs[j].used || cs[j + 1].used)
    && (i + 1 < |cs| ==> cs[i + 1].used)
  }

  lemma {:induction false} TakeKeeps(cs: seq<Chunk>, start: nat, end: nat, i: nat, n: nat)
    requires Tiles(cs, start, end) && FreeOnlyAt(cs, i)
    requires i < |cs| && Fits(cs[i], n) && n % MIN_ALLOCATION == 0
    ensures Tiles(Take(cs, i, n), start, end) && NoFreeNeighbours(Take(cs, i, n))
    ensures Take(cs, i, n)[i] == Chunk(cs[i].addr, Granted(cs[i], n), true)
  {
    var c, t := cs[i], Take(cs, i, n);
    if c.size >= n + MIN_SEGMENT {
      assert |t| == |cs| + 1;
      assert forall j :: 0 <= j < i ==> t[j] == cs[j];
      assert forall j :: i + 2 <= j < |t| ==> t[j] == cs[j - 1];
      assert t[i] == Chunk(c.addr, n, true);
      assert t[i + 1] == Chunk(c.addr + HEADER + n, c.size - n - HEADER, false);
      forall j | 0 <= j < |t| - 1
        ensures t[j].End() == t[j + 1].addr && (t[j].used || t[j + 1].used)
      {
        if j < i {
          assert cs[j].End() == cs[j + 1].addr;
        } else if j > i {
          assert cs[j - 1].End() == cs[(j - 1) + 1].addr;
        }
      }
    } else {
      forall j | 0 <= j < |t| - 1
        ensures t[j].End() == t[j + 1].addr && (t[j].used || t[j + 1].used)
      {
        assert cs[j].End() == cs[j + 1].addr;
      }
    }
  }

  /** Taking a chunk adds its block to those in use, and nothing else. */
  lemma {:induction false} TakeLive(cs: seq<Chunk>, i: nat, n: nat)
    requires i < |cs| && Fits(cs[i], n)
    ensures Live(Take(cs, i, n)) == Live(cs) + {(cs[i].Payload(), Granted(cs[i], n))}
  {
    var c, t := cs[i], Take(cs, i, n);
    var b := (c.Payload(), Granted(c, n));
    assert cs == cs[..i] + [c] + cs[i + 1..];
    if c.size >= n + MIN_SEGMENT {
      assert t == cs[..i] + [Chunk(c.addr, n, true), Chunk(c.addr + HEADER + n, c.size - n - HEADER,
        false)] + cs[i + 1..];
    } else {
      assert t == cs[..i] + [c.(used := true)] + cs[i + 1..];
    }
    assert t[i].used && t[i] in t;
    forall x | x in Live(t)
      ensures x in Live(cs) + {b}
    {
    }
    forall x | x in Live(cs) + {b}
      ensures x in Live(t)
    {
      if x != b {
        var d :| d in cs && d.used && x == (d.Payload(), d.size);
        assert d in cs[..i] || d in cs[i + 1..];
        assert d in t;
      }
    }
  }

  lemma {:induction false} UsedCursor(h: Heap, i: nat)
    requires i < |h.chunks| && h.chunks[i].used && h.chunks[i].addr == h.cursor
    ensures CursorOk(h)
  {
  }

  lemma {:induction false} AllocateKeeps(h: Heap, start: nat, end: nat, i: nat, n: nat)
    requires Inv(h, start, end) && i < |h.chunks| && Fits(h.chunks[i], n) && n % MIN_ALLOCATION == 0
    ensures Inv(Allocate(h, i, n), start, end)
  {
    assert forall j :: 0 <= j < |h.chunks| - 1 ==> h.chunks[j].used || h.chunks[j + 1].used;
    TakeKeeps(h.chunks, start, end, i, n);
    UsedCursor(Allocate(h, i, n), i);
  }

  // ---------------------------------------------------------------- aligned allocation

  /** The least multiple of 2^k not below x, by shifts. */
  function AlignUp(x: nat, k: nat): nat
    requires x > 0
  {
    ShiftLeft(ShiftRight(x - 1, k), k) + Pow2(k)
  }

  lemma {:induction false} AlignUpIs(x: nat, k: nat)
    requires x > 0
    ensures AlignUp(x, k) % Pow2(k) == 0
    ensures x <= AlignUp(x, k) < x + Pow2(k)
    ensures AlignUp(x, k) == x <==> x % Pow2(k) == 0
  {
    hide Low, ShiftLeft, ShiftRight, Pow2;
    var q, p := ShiftRight(x - 1, k), Pow2(k);
    ShiftLeftIs(q, k);
    HighLow(x - 1, k);
    LowBound(x - 1, k);
    assert AlignUp(x, k) == (q + 1) * p + 0;
    DivModUnique(AlignUp(x, k), p, q + 1, 0);
    if x % p == 0 {
      NoMultipleBetween(x, AlignUp(x, k), p);
    }
  }

  lemma {:induction false} NoMultipleBetween(x: nat, y: nat, p: nat)
    requires p > 0 && x % p == 0 && y % p == 0 && x <= y < x + p
    ensures x == y
  {
    var d := y / p - x / p;
    assert y == y / p * p && x == x / p * p;
    assert d * p == y - x;
    MulSign(d, p);
  }

  /** The first place in a chunk, past room for a header and 8 bytes, that is a multiple of 2^k. */
  function Slot(c: Chunk, k: nat): nat { AlignUp(c.Payload() + MIN_SEGMENT, k) }

  predicate StartsAligned(c: Chunk, k: nat) { AlignUp(c.Payload(), k) == c.Payload() }

  /** The chunk can hold n bytes at a multiple of 2^k. */
  predicate FitsAligned(c: Chunk, n: nat, k: nat) {
    Fits(c, n) && (StartsAligned(c, k) || (Slot(c, k) < c.End() && Slot(c, k) + n <= c.End()))
  }

  function FitsAlignedFor(n: nat, k: nat): Chunk -> bool { (c: Chunk) => FitsAligned(c, n, k) }

  /** What the search looks for: a free chunk large enough that starts at a multiple, or holds a
      multiple at least 24 bytes in with room for the block. */
  lemma {:induction false} FitsAlignedMeans(c: Chunk, n: nat, k: nat)
    ensures FitsAligned(c, n, k) <==>
            Fits(c, n) && (c.Payload() % Pow2(k) == 0
                           || exists a: nat :: a % Pow2(k) == 0 && c.Payload() + MIN_SEGMENT <= a < c.End()
                                               && a + n <= c.End())
  {
    hide AlignUp, Pow2;
    AlignUpIs(c.Payload(), k);
    AlignUpIs(c.Payload() + MIN_SEGMENT, k);
    forall a: nat | a % Pow2(k) == 0 && c.Payload() + MIN_SEGMENT <= a < c.End() && a + n <= c.End()
      ensures Slot(c, k) <= a
    {
      if a < Slot(c, k) {
        NoMultipleBetween(a, Slot(c, k), Pow2(k));
      }
    }
  }

  /** Chunk i cut in two so that the second part's payload starts at a. */
  function SplitAt(cs: seq<Chunk>, i: nat, a: nat): (t: seq<Chunk>)
    requires i < |cs| && cs[i].Payload() + MIN_SEGMENT <= a <= cs[i].End()
    ensures |t| == |cs| + 1
    ensures t[i + 1] == Chunk(a - HEADER, cs[i].End() - a, false)
  {
    var c := cs[i];
    cs[..i] + [Chunk(c.addr, a - HEADER - c.Payload(), false), Chunk(a - HEADER, c.End() - a, false)] + cs[i + 1..]
  }

  /** The heap after chunk i is taken for n bytes at a multiple of 2^k, and the block's address. */
  function AllocateAligned(h: Heap, i: nat, n: nat, k: nat): (Heap, nat)
    requires i < |h.chunks| && FitsAligned(h.chunks[i], n, k)
  {
    var c := h.chunks[i];
    if StartsAligned(c, k) then (Allocate(h, i, n), c.Payload())
    else
      AlignUpIs(c.Payload() + MIN_SEGMENT, k);
      (Allocate(Heap(SplitAt(h.chunks, i, Slot(c, k)), h.cursor), i + 1, n), Slot(c, k))
  }

  function Memalign(h: Heap, n: nat, k: nat): (Heap, nat)
    requires h.chunks != []
  {
    var s := StartIndex(h);
    var p := Search(h.chunks, s, 0, FitsAlignedFor(n, k));
    if p == |h.chunks| then (h, 0) else AllocateAligned(h, At(s, p, |h.chunks|), n, k)
  }

  lemma {:induction false} SplitKeeps(cs: seq<Chunk>, start: nat, end: nat, i: nat, a: nat)
    requires Tiles(cs, start, end) && NoFreeNeighbours(cs) && i < |cs| && !cs[i].used
    requires cs[i].Payload() + MIN_SEGMENT <= a <= cs[i].End() && a % MIN_ALLOCATION == 0
    ensures var t := SplitAt(cs, i, a);
            && Tiles(t, start, end) && FreeOnlyAt(t, i + 1) && |t| == |cs| + 1
            && t[i + 1] == Chunk(a - HEADER, cs[i].End() - a, false)
            && t[i].size >= MIN_ALLOCATION
  {
    hide SplitAt, FreeOnlyAt, NoFreeNeighbours;
    SplitElements(cs, i, a);
    SplitLinks(cs, start, end, i, a);
    SplitSizes(cs, start, end, i, a);
    var t := SplitAt(cs, i, a);
    if i + 1 == |cs| {
      assert t[|t| - 1] == t[i + 1];
    } else {
      assert t[|t| - 1] == cs[|cs| - 1];
    }
  }

  lemma {:induction false} SplitSizes(cs: seq<Chunk>, start: nat, end: nat, i: nat, a: nat)
    requires Tiles(cs, start, end) && i < |cs|
    requires cs[i].Payload() + MIN_SEGMENT <= a <= cs[i].End() && a % MIN_ALLOCATION == 0
    ensures var t := SplitAt(cs, i, a);
            forall j :: 0 <= j < |t| ==> t[j].size % MIN_ALLOCATION == 0
  {
    hide SplitAt;
    SplitElements(cs, i, a);
    AlignedChunks(cs, start, end, i);
    TwoMultiples(cs[i].addr, cs[i].size, a);
  }

  lemma {:induction false} TwoMultiples(addr: nat, size: nat, a: nat)
    requires addr % MIN_ALLOCATION == 0 && size % MIN_ALLOCATION == 0 && a % MIN_ALLOCATION == 0
    requires addr + HEADER + MIN_SEGMENT <= a <= addr + HEADER + size
    ensures (a - HEADER - (addr + HEADER)) % MIN_ALLOCATION == 0
    ensures (addr + HEADER + size - a) % MIN_ALLOCATION == 0
  {
  }

  lemma {:induction false} SplitElements(cs: seq<Chunk>, i: nat, a: nat)
    requires i < |cs| && cs[i].Payload() + MIN_SEGMENT <= a <= cs[i].End()
    ensures var t := SplitAt(cs, i, a);
            && (forall j :: 0 <= j < i ==> t[j] == cs[j])
            && t[i] == Chunk(cs[i].addr, a - HEADER - cs[i].Payload(), false)
            && (forall j :: i + 2 <= j < |t| ==> t[j] == cs[j - 1])
  {
  }

  lemma {:induction false} SplitLinks(cs: seq<Chunk>, start: nat, end: nat, i: nat, a: nat)
    requires Tiles(cs, start, end) && NoFreeNeighbours(cs) && i < |cs| && !cs[i].used
    requires cs[i].Payload() + MIN_SEGMENT <= a <= cs[i].End()
    ensures var t := SplitAt(cs, i, a);
            && (forall j :: 0 <= j < |t| - 1 ==> t[j].End() == t[j + 1].addr)
            && FreeOnlyAt(t, i + 1)
  {
    hide SplitAt;
    var t := SplitAt(cs, i, a);
    SplitElements(cs, i, a);
    forall j | 0 <= j < |t| - 1
      ensures t[j].End() == t[j + 1].addr && (j == i || j == i + 1 || t[j].used || t[j + 1].used)
    {
      if j < i {
        assert cs[j].End() == cs[j + 1].addr && (cs[j].used || cs[j + 1].used);
      } else if j > i {
        assert cs[j - 1].End() == cs[(j - 1) + 1].addr && (cs[j - 1].used || cs[(j - 1) + 1].used);
      }
    }
    if i + 2 < |t| {
      assert cs[i].used || cs[i + 1].used;
    }
  }

  lemma {:induction false} SplitLive(cs: seq<Chunk>, i: nat, a: nat)
    requires i < |cs| && !cs[i].used && cs[i].Payload() + MIN_SEGMENT <= a <= cs[i].End()
    ensures Live(SplitAt(cs, i, a)) == Live(cs)
  {
    var t := SplitAt(cs, i, a);
    assert cs == cs[..i] + [cs[i]] + cs[i + 1..];
    forall d: Chunk | d.used
      ensures d in t <==> d in cs
    {
    }
  }

  /** An aligned allocation keeps the invariant and adds exactly the block it returns, which starts
      at a multiple of 2^k and has room for n bytes. */
  lemma {:induction false} AllocateAlignedKeeps(h: Heap, start: nat, end: nat, i: nat, n: nat, k: nat)
    requires Inv(h, start, end) && i < |h.chunks| && FitsAligned(h.chunks[i], n, k)
    requires n % MIN_ALLOCATION == 0 && k >= 3
    ensures var (h', p) := AllocateAligned(h, i, n, k);
            && Inv(h', start, end)
            && p % Pow2(k) == 0
            && exists size: nat :: size >= n && Live(h'.chunks) == Live(h.chunks) + {(p, size)}
  {
    hide AlignUp, Pow2, Tiles, Take, NoFreeNeighbours, Live, CursorOk;
    var c, a := h.chunks[i], Slot(h.chunks[i], k);
    AlignUpIs(c.Payload(), k);
    AlignUpIs(c.Payload() + MIN_SEGMENT, k);
    if StartsAligned(c, k) {
      AllocateKeeps(h, start, end, i, n);
      TakeLive(h.chunks, i, n);
      assert Granted(c, n) >= n;
    } else {
      MultipleOf8(a, k);
      AllocateSplit(h, start, end, i, n, a);
      assert Granted(SplitAt(h.chunks, i, a)[i + 1], n) >= n;
    }
  }

  /** Cutting a chunk in two and taking the second part. */
  lemma {:induction false} AllocateSplit(h: Heap, start: nat, end: nat, i: nat, n: nat, a: nat)
    requires Inv(h, start, end) && i < |h.chunks| && Fits(h.chunks[i], n) && n % MIN_ALLOCATION == 0
    requires h.chunks[i].Payload() + MIN_SEGMENT <= a <= h.chunks[i].End() && a + n <= h.chunks[i].End()
    requires a % MIN_ALLOCATION == 0
    ensures var t := SplitAt(h.chunks, i, a);
            var h' := Allocate(Heap(t, h.cursor), i + 1, n);
            && Inv(h', start, end)
            && Live(h'.chunks) == Live(h.chunks) + {(a, Granted(t[i + 1], n))}
  {
    hide SplitAt, Tiles, Take, Live, NoFreeNeighbours;
    var t := SplitAt(h.chunks, i, a);
    SplitKeeps(h.chunks, start, end, i, a);
    SplitLive(h.chunks, i, a);
    TakeKeeps(t, start, end, i + 1, n);
    TakeLive(t, i + 1, n);
    TakenIndex(t, i + 1, n);
    UsedCursor(Allocate(Heap(t, h.cursor), i + 1, n), i + 1);
  }

  lemma {:induction false} TakenIndex(cs: seq<Chunk>, i: nat, n: nat)
    requires i < |cs| && n <= cs[i].size
    ensures i < |Take(cs, i, n)|
  {
  }

  lemma {:induction false} MultipleOf8(a: nat, k: nat)
    requires k >= 3 && a % Pow2(k) == 0
    ensures a % MIN_ALLOCATION == 0
  {
    hide Low, Pow2;
    ShiftRightIs(a, k);
    ShiftRightIs(a, 3);
    LowOfLow(a, 3, k);
    assert Low(0, 3) == 0 by {
      LowSmall(0, 3);
    }
    EightIs();
  }

  lemma {:induction false} EightIs()
    ensures Pow2(3) == 8
  {
  }

  // ---------------------------------------------------------------- release

  /** Chunk i made free and joined with the free chunks beside it; the position of the result. */
  function Release(cs: seq<Chunk>, i: nat): (seq<Chunk>, nat)
    requires i < |cs|
  {
    var joinsNext := i + 1 < |cs| && !cs[i + 1].used;
    var joinsPrevious := i > 0 && !cs[i - 1].used;
    var size := if joinsNext then cs[i].size + cs[i + 1].size + HEADER else cs[i].size;
    var rest := if joinsNext then cs[i + 2..] else cs[i + 1..];
    if joinsPrevious
    then (cs[..i - 1] + [Chunk(cs[i - 1].addr, cs[i - 1].size + size + HEADER, false)] + rest, i - 1)
    else (cs[..i] + [Chunk(cs[i].addr, size, false)] + rest, i)
  }

  /** Position of the first used chunk from i on; the number of chunks when there is none. */
  function NextUsed(cs: seq<Chunk>, i: nat): (j: nat)
    requires i <= |cs|
    ensures i <= j <= |cs| && (j < |cs| ==> cs[j].used)
    decreases |cs| - i
  {
    if i == |cs| || cs[i].used then i else NextUsed(cs, i + 1)
  }

  lemma {:induction false} NextUsedStep(cs: seq<Chunk>, i: nat)
    requires i <= |cs|
    ensures NextUsed(cs, i) == if i == |cs| || cs[i].used then i else NextUsed(cs, i + 1)
  {
  }

  lemma {:induction false} NoneUsedBetween(cs: seq<Chunk>, i: nat)
    requires i <= |cs|
    ensures forall k :: i <= k < NextUsed(cs, i) ==> !cs[k].used
    decreases |cs| - i
  {
    if i < |cs| && !cs[i].used {
      NoneUsedBetween(cs, i + 1);
    }
  }

  /** Address of the last used chunk before i, 0 when there is none. */
  function LastUsedBefore(cs: seq<Chunk>, i: nat): (a: nat)
    requires i <= |cs|
  {
    if i == 0 then 0 else if cs[i - 1].used then cs[i - 1].addr else LastUsedBefore(cs, i - 1)
  }

  lemma {:induction false} LastUsedBeforeIs(cs: seq<Chunk>, i: nat)
    requires i <= |cs|
    ensures (forall k :: 0 <= k < i ==> !cs[k].used) ==> LastUsedBefore(cs, i) == 0
    ensures (exists k :: 0 <= k < i && cs[k].used) ==>
              exists k :: 0 <= k < i && cs[k].used && cs[k].addr == LastUsedBefore(cs, i)
  {
    if i > 0 && !cs[i - 1].used {
      LastUsedBeforeIs(cs, i - 1);
    }
  }

  function Free(h: Heap, i: nat): Heap
    requires i < |h.chunks|
  {
    var (cs, at) := Release(h.chunks, i);
    var j := NextUsed(cs, at + 1);
    Heap(cs,
         if h.cursor != h.chunks[i].addr then h.cursor
         else if j < |cs| then cs[j].addr else LastUsedBefore(cs, at))
  }

  /** Release is two joins: first with the next chunk, then with the previous one. */
  function Joined(cs: seq<Chunk>, i: nat): seq<Chunk>
    requires i + 1 < |cs|
  {
    cs[..i] + [Chunk(cs[i].addr, cs[i].size + cs[i + 1].size + HEADER, false)] + cs[i + 2..]
  }

  lemma {:induction false} ReleaseIsJoins(cs: seq<Chunk>, i: nat)
    requires i < |cs|
    ensures var freed := cs[i := cs[i].(used := false)];
            var one := if i + 1 < |cs| && !cs[i + 1].used then Joined(freed, i) else freed;
            var two := if i > 0 && !cs[i - 1].used then Joined(one, i - 1) else one;
            Release(cs, i).0 == two
  {
  }

  lemma {:induction false} JoinTiles(cs: seq<Chunk>, start: nat, end: nat, i: nat)
    requires Tiles(cs, start, end) && i + 1 < |cs|
    ensures Tiles(Joined(cs, i), start, end)
  {
    var t := Joined(cs, i);
    assert cs[i].End() == cs[i + 1].addr;
    forall j | 0 <= j < |t| - 1
      ensures t[j].End() == t[j + 1].addr
    {
      if j < i {
        assert cs[j].End() == cs[j + 1].addr;
      } else {
        assert cs[j + 1].End() == cs[(j + 1) + 1].addr;
      }
    }
  }

  lemma {:induction false} ReleaseKeeps(cs: seq<Chunk>, start: nat, end: nat, i: nat)
    requires Tiles(cs, start, end) && NoFreeNeighbours(cs) && i < |cs| && cs[i].used
    ensures Tiles(Release(cs, i).0, start, end) && NoFreeNeighbours(Release(cs, i).0)
    ensures Release(cs, i).1 < |Release(cs, i).0|
  {
    hide Joined;
    ReleaseIsJoins(cs, i);
    var freed := cs[i := cs[i].(used := false)];
    FreedTiles(cs, start, end, i);
    var one := if i + 1 < |cs| && !cs[i + 1].used then Joined(freed, i) else freed;
    if i + 1 < |cs| && !cs[i + 1].used {
      JoinTiles(freed, start, end, i);
    }
    if i > 0 && !cs[i - 1].used {
      JoinedLength(cs, i);
      JoinTiles(one, start, end, i - 1);
    }
    ReleaseNeighbours(cs, i);
  }

  lemma {:induction false} FreedTiles(cs: seq<Chunk>, start: nat, end: nat, i: nat)
    requires Tiles(cs, start, end) && i < |cs|
    ensures Tiles(cs[i := cs[i].(used := false)], start, end)
  {
    assert forall j :: 0 <= j < |cs| - 1 ==> cs[j].End() == cs[j + 1].addr;
  }

  lemma {:induction false} JoinedLength(cs: seq<Chunk>, i: nat)
    requires i < |cs|
    ensures i + 1 < |cs| ==> |Joined(cs[i := cs[i].(used := false)], i)| == |cs| - 1 > i
  {
  }

  lemma {:induction false} ReleaseNeighbours(cs: seq<Chunk>, i: nat)
    requires NoFreeNeighbours(cs) && i < |cs| && cs[i].used
    ensures NoFreeNeighbours(Release(cs, i).0)
  {
    var (t, at) := Release(cs, i);
    var next := if i + 1 < |cs| && !cs[i + 1].used then i + 2 else i + 1;
    assert forall j :: 0 <= j < at ==> t[j] == cs[j];
    assert forall j :: at < j < |t| ==> t[j] == cs[j - at - 1 + next];
    assert forall j {:trigger cs[j]} :: 0 <= j < |cs| - 1 ==> cs[j].used || cs[j + 1].used;
    forall j | 0 <= j < |t| - 1
      ensures t[j].used || t[j + 1].used
    {
      if j > at {
        assert t[j] == cs[j - at - 1 + next];
      }
    }
  }

  /** Releasing a chunk removes exactly its block from those in use. */
  lemma {:induction false} ReleaseUsed(cs: seq<Chunk>, start: nat, end: nat, i: nat, d: Chunk)
    requires Tiles(cs, start, end) && i < |cs| && cs[i].used && d.used
    ensures d in Release(cs, i).0 <==> d in cs && d != cs[i]
  {
    var (t, at) := Release(cs, i);
    var next := if i + 1 < |cs| && !cs[i + 1].used then i + 2 else i + 1;
    assert t == cs[..at] + [t[at]] + cs[next..];
    if d in cs && d != cs[i] {
      var j :| 0 <= j < |cs| && cs[j] == d;
      if j < at {
        assert cs[..at][j] == d;
      } else if j >= next {
        assert cs[next..][j - next] == d;
      }
    }
    if d in t {
      if d in cs[..at] {
        var j :| 0 <= j < at && cs[j] == d;
        Ascending(cs, start, end, j, i);
      } else {
        var j :| next <= j < |cs| && cs[j] == d;
        Ascending(cs, start, end, i, j);
      }
    }
  }

  lemma {:induction false} ReleaseLive(cs: seq<Chunk>, start: nat, end: nat, i: nat)
    requires Tiles(cs, start, end) && i < |cs| && cs[i].used
    ensures Live(Release(cs, i).0) == Live(cs) - {(cs[i].Payload(), cs[i].size)}
  {
    var t, b := Release(cs, i).0, (cs[i].Payload(), cs[i].size);
    forall d: Chunk | d.used
      ensures d in t <==> d in cs && d != cs[i]
    {
      ReleaseUsed(cs, start, end, i, d);
    }
    forall x | x in Live(t)
      ensures x in Live(cs) - {b}
    {
      var d :| d in t && d.used && x == (d.Payload(), d.size);
    }
    forall x | x in Live(cs) - {b}
      ensures x in Live(t)
    {
      var d :| d in cs && d.used && x == (d.Payload(), d.size);
    }
  }

  lemma {:induction false} FreeKeeps(h: Heap, start: nat, end: nat, i: nat)
    requires Inv(h, start, end) && i < |h.chunks| && h.chunks[i].used
    ensures Inv(Free(h, i), start, end)
    ensures Live(Free(h, i).chunks) == Live(h.chunks) - {(h.chunks[i].Payload(), h.chunks[i].size)}
  {
    hide Release, Tiles;
    var cs := h.chunks;
    var (t, at) := Release(cs, i);
    ReleaseKeeps(cs, start, end, i);
    ReleaseLive(cs, start, end, i);
    FreeCursor(h, start, end, i);
  }

  lemma {:induction false} FreeCursor(h: Heap, start: nat, end: nat, i: nat)
    requires Inv(h, start, end) && i < |h.chunks| && h.chunks[i].used
    ensures Release(h.chunks, i).1 < |Release(h.chunks, i).0|
    ensures CursorOk(Free(h, i))
  {
    var cs := h.chunks;
    var (t, at) := Release(cs, i);
    ReleaseKeeps(cs, start, end, i);
    assert !t[at].used;
    if h.cursor != cs[i].addr {
      var j :| 0 <= j < |cs| && cs[j].used && cs[j].addr == h.cursor;
      ReleaseUsed(cs, start, end, i, cs[j]);
      var l :| 0 <= l < |t| && t[l] == cs[j];
      UsedCursor(Free(h, i), l);
    } else {
      CursorFound(t, at, Free(h, i));
    }
  }

  lemma {:induction false} CursorFound(t: seq<Chunk>, at: nat, h: Heap)
    requires at < |t| && !t[at].used && h.chunks == t
    requires var j := NextUsed(t, at + 1);
             h.cursor == if j < |t| then t[j].addr else LastUsedBefore(t, at)
    ensures CursorOk(h)
  {
    var j := NextUsed(t, at + 1);
    NoneUsedBetween(t, at + 1);
    LastUsedBeforeIs(t, at);
    if j < |t| {
      UsedCursor(h, j);
    } else if exists k :: 0 <= k < at && t[k].used {
      var k :| 0 <= k < at && t[k].used && t[k].addr == LastUsedBefore(t, at);
      UsedCursor(h, k);
    }
  }

  // ---------------------------------------------------------------- an idle heap

  /** With nothing in use, the heap is the single chunk it was set up with. */
  lemma {:induction false} IdleHeapIsOneChunk(h: Heap, start: nat, end: nat)
    requires Inv(h, start, end) && Live(h.chunks) == {}
    ensures start + HEADER <= end && h == Heap([Chunk(start, end - start - HEADER, false)], 0)
  {
    var cs := h.chunks;
    assert forall c :: c in cs && c.used ==> (c.Payload(), c.size) in Live(cs);
    assert AllFree(cs);
    SomeUsed(cs);
  }

  lemma {:induction false} SomeUsed(cs: seq<Chunk>)
    ensures |cs| > 1 && NoFreeNeighbours(cs) ==> !AllFree(cs)
  {
    if |cs| > 1 && NoFreeNeighbours(cs) {
      assert cs[0].used || cs[0 + 1].used;
    }
  }
}
