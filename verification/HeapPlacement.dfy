/** Where blocks come to lie: the search is next-fit, the block gets all of a chunk that is too small
    to cut, and the heap is nothing but its blocks in use and the place where the next search starts. */
module HeapPlacement {
  import opened HeapSpec
  import opened Bits

  // ---------------------------------------------------------------- next fit

  /** The first fitting chunk behind an address or, if none fits behind it, the first that fits. */
  ghost predicate NextFit(cs: seq<Chunk>, from: nat, c: Chunk, fits: Chunk -> bool) {
    && c in cs && fits(c)
    && (c.addr > from || forall d :: d in cs && fits(d) ==> d.addr <= from)
    && (forall d :: d in cs && fits(d) && (c.addr > from ==> d.addr > from) ==> c.addr <= d.addr)
  }

  /** The chunks a search has passed over. */
  lemma {:induction false} PassedOver(cs: seq<Chunk>, k: nat, fits: Chunk -> bool, j: nat)
    requires k < |cs| && Search(cs, k, 0, fits) < |cs| && j < |cs|
    requires var i := At(k, Search(cs, k, 0, fits), |cs|); if i >= k then k <= j < i else j >= k || j < i
    ensures !fits(cs[j])
  {
    var p := if j >= k then j - k else j - k + |cs|;
    assert At(k, p, |cs|) == j;
  }

  lemma {:induction false} AddressOrder(cs: seq<Chunk>, start: nat, end: nat, i: nat, j: nat)
    requires Tiles(cs, start, end) && i < |cs| && j < |cs|
    ensures cs[i].addr <= cs[j].addr <==> i <= j
  {
    if i < j {
      Ascending(cs, start, end, i, j);
    } else if j < i {
      Ascending(cs, start, end, j, i);
    }
  }

  /** Where a search starts, by addresses: no chunk lies between the cursor and the start, unless the
      search starts at the head with no chunk behind the cursor or with no cursor. */
  lemma {:induction false} StartByAddress(h: Heap, start: nat, end: nat, j: nat)
    requires Inv(h, start, end) && j < |h.chunks|
    ensures StartIndex(h) > 0 ==> (h.chunks[j].addr > h.cursor <==> j >= StartIndex(h))
    ensures StartIndex(h) == 0 ==> h.cursor == 0 || h.chunks[j].addr <= h.cursor
    ensures h.chunks[j].addr > 0
  {
    var cs := h.chunks;
    Within(cs, start, end, j);
    if h.cursor != 0 {
      var u :| 0 <= u < |cs| && cs[u].used && cs[u].addr == h.cursor;
      IndexOfChunk(cs, start, end, u);
      AddressOrder(cs, start, end, j, u);
    }
  }

  /** The search from the cursor is next-fit. */
  lemma {:induction false} SearchIsNextFit(h: Heap, start: nat, end: nat, fits: Chunk -> bool)
    requires Inv(h, start, end)
    ensures var p := Search(h.chunks, StartIndex(h), 0, fits);
            p < |h.chunks| ==> NextFit(h.chunks, h.cursor, h.chunks[At(StartIndex(h), p, |h.chunks|)], fits)
  {
    hide StartIndex, Inv, Search;
    var cs, k := h.chunks, StartIndex(h);
    InvTiles(h, start, end);
    var p := Search(cs, k, 0, fits);
    if p < |cs| {
      var i := At(k, p, |cs|);
      StartByAddress(h, start, end, i);
      forall d | d in cs && fits(d)
        ensures cs[i].addr > h.cursor || d.addr <= h.cursor
        ensures (cs[i].addr > h.cursor ==> d.addr > h.cursor) ==> cs[i].addr <= d.addr
      {
        var j :| 0 <= j < |cs| && cs[j] == d;
        StartByAddress(h, start, end, j);
        AddressOrder(cs, start, end, i, j);
        if (if i >= k then k <= j < i else j >= k || j < i) {
          PassedOver(cs, k, fits, j);
        }
      }
    }
  }

  lemma {:induction false} InvTiles(h: Heap, start: nat, end: nat)
    requires Inv(h, start, end)
    ensures Tiles(h.chunks, start, end) && h.chunks != [] && NoFreeNeighbours(h.chunks)
  {
  }

  /** Room for n bytes. */
  ghost function HasRoom(n: nat): Chunk -> bool { (c: Chunk) => !c.used && c.size >= n }

  /** Room for n bytes at a multiple of 2^k: at the start, or at least 24 bytes in. */
  ghost function HasAlignedRoom(n: nat, k: nat): Chunk -> bool {
    (c: Chunk) => !c.used && c.size >= n && (c.Payload() % Pow2(k) == 0 || exists a: nat :: AlignedInside(c, n, k, a))
  }

  ghost predicate AlignedInside(c: Chunk, n: nat, k: nat, a: nat) {
    a % Pow2(k) == 0 && c.addr + 40 <= a && a < c.addr + 16 + c.size && a + n <= c.addr + 16 + c.size
  }

  lemma {:induction false} NextFitFor(cs: seq<Chunk>, from: nat, c: Chunk, fits: Chunk -> bool, same: Chunk -> bool)
    requires NextFit(cs, from, c, fits) && forall d :: d in cs ==> fits(d) == same(d)
    ensures NextFit(cs, from, c, same)
  {
  }

  /** Bytes of a block of at least n bytes taken from `size` bytes: what is left must hold a header
      and 8 bytes to be cut off. */
  function BlockSize(size: nat, n: nat): nat { if size >= n + 24 then n else size }

  /** A request for n bytes: the block is the next fit behind the cursor, of exactly n bytes if 24 more
      are there and of the whole chunk if not, and the cursor moves to it. */
  lemma {:induction false} MallocPlaces(h: Heap, start: nat, end: nat, n: nat)
    requires Inv(h, start, end) && n % MIN_ALLOCATION == 0
    ensures var (h', r) := Malloc(h, n);
            r != 0 ==>
              exists c :: NextFit(h.chunks, h.cursor, c, HasRoom(n)) && r == c.addr + 16 && h'.cursor == c.addr
                          && Live(h'.chunks) == Live(h.chunks) + {(r, BlockSize(c.size, n))}
  {
    hide Take, Live, Inv, StartIndex, NextFit;
    InvTiles(h, start, end);
    var cs, k := h.chunks, StartIndex(h);
    var p := Search(cs, k, 0, FitsFor(n));
    if p < |cs| {
      var c := cs[At(k, p, |cs|)];
      SearchIsNextFit(h, start, end, FitsFor(n));
      NextFitFor(cs, h.cursor, c, FitsFor(n), HasRoom(n));
      TakeLive(cs, At(k, p, |cs|), n);
      assert Granted(c, n) == BlockSize(c.size, n);
    }
  }

  /** An aligned request: the next fit again; the block is at the chunk's start if that is a multiple
      of 2^k, and otherwise at the least multiple that leaves 24 bytes before it. */
  lemma {:induction false} MemalignPlaces(h: Heap, start: nat, end: nat, n: nat, k: nat)
    requires Inv(h, start, end) && n % MIN_ALLOCATION == 0 && k >= 3
    ensures var (h', r) := Memalign(h, n, k);
            r != 0 ==>
              exists c :: NextFit(h.chunks, h.cursor, c, HasAlignedRoom(n, k)) && IsPlace(c, k, r)
                          && h'.cursor == r - 16
                          && Live(h'.chunks) == Live(h.chunks) + {(r, BlockSize(c.End() - r, n))}
  {
    hide Take, Live, Inv, StartIndex, NextFit, IsPlace, AllocateAligned, FitsAligned, HasAlignedRoom, Pow2;
    InvTiles(h, start, end);
    var cs, s := h.chunks, StartIndex(h);
    var p := Search(cs, s, 0, FitsAlignedFor(n, k));
    if p < |cs| {
      var i := At(s, p, |cs|);
      SearchIsNextFit(h, start, end, FitsAlignedFor(n, k));
      forall d | d in cs
        ensures FitsAlignedFor(n, k)(d) == HasAlignedRoom(n, k)(d)
      {
        SameAlignedRoom(d, n, k);
      }
      NextFitFor(cs, h.cursor, cs[i], FitsAlignedFor(n, k), HasAlignedRoom(n, k));
      PlacedAligned(h, i, n, k);
    }
  }

  /** Where in a chunk an aligned block goes. */
  ghost predicate IsPlace(c: Chunk, k: nat, r: nat) {
    if c.Payload() % Pow2(k) == 0 then r == c.addr + 16
    else r % Pow2(k) == 0 && c.addr + 40 <= r <= c.End()
         && forall a: nat :: a % Pow2(k) == 0 && c.addr + 40 <= a ==> r <= a
  }

  lemma {:induction false} SameAlignedRoom(c: Chunk, n: nat, k: nat)
    ensures FitsAligned(c, n, k) <==> HasAlignedRoom(n, k)(c)
  {
    hide FitsAligned, Pow2;
    FitsAlignedMeans(c, n, k);
    if a: nat :| a % Pow2(k) == 0 && c.Payload() + MIN_SEGMENT <= a < c.End() && a + n <= c.End() {
      assert AlignedInside(c, n, k, a);
    }
    if a: nat :| AlignedInside(c, n, k, a) {
      assert a % Pow2(k) == 0 && c.Payload() + MIN_SEGMENT <= a < c.End() && a + n <= c.End();
    }
  }

  lemma {:induction false} PlacedAligned(h: Heap, i: nat, n: nat, k: nat)
    requires i < |h.chunks| && FitsAligned(h.chunks[i], n, k)
    ensures var (h', r) := AllocateAligned(h, i, n, k);
            var c := h.chunks[i];
            && IsPlace(c, k, r) && r <= c.End() && r >= 16 && h'.cursor == r - 16
            && Live(h'.chunks) == Live(h.chunks) + {(r, BlockSize(c.End() - r, n))}
  {
    hide AlignUp, Pow2, Live, Take, SplitAt;
    var c := h.chunks[i];
    AlignUpIs(c.Payload(), k);
    AlignUpIs(c.Payload() + MIN_SEGMENT, k);
    if StartsAligned(c, k) {
      TakeLive(h.chunks, i, n);
    } else {
      var t := SplitAt(h.chunks, i, Slot(c, k));
      SplitLive(h.chunks, i, Slot(c, k));
      TakeLive(t, i + 1, n);
      forall a: nat | a % Pow2(k) == 0 && c.addr + 40 <= a
        ensures Slot(c, k) <= a
      {
        if a < Slot(c, k) {
          NoMultipleBetween(a, Slot(c, k), Pow2(k));
        }
      }
    }
  }

  // ---------------------------------------------------------------- release

  /** The cursor after a release: as before, unless it was at the freed block; then the next used chunk
      behind that or, if there is none, the last one before it, or none. */
  ghost predicate CursorMoves(cs: seq<Chunk>, freed: nat, cursor: nat) {
    if exists d :: d in cs && d.used && d.addr > freed
    then exists c :: c in cs && c.used && c.addr > freed && cursor == c.addr
                     && forall d :: d in cs && d.used && d.addr > freed ==> c.addr <= d.addr
    else if exists d :: d in cs && d.used && d.addr < freed
    then exists c :: c in cs && c.used && c.addr < freed && cursor == c.addr
                     && forall d :: d in cs && d.used && d.addr < freed ==> d.addr <= c.addr
    else cursor == 0
  }

  /** Position of the last used chunk before i. */
  lemma {:induction false} LastUsed(cs: seq<Chunk>, i: nat) returns (k: nat)
    requires i <= |cs| && exists k :: 0 <= k < i && cs[k].used
    ensures k < i && cs[k].used && LastUsedBefore(cs, i) == cs[k].addr
    ensures forall j :: k < j < i ==> !cs[j].used
  {
    if cs[i - 1].used {
      k := i - 1;
    } else {
      k := LastUsed(cs, i - 1);
    }
  }

  /** The freed bytes are in the chunk that a release leaves. */
  lemma {:induction false} ReleasedAt(cs: seq<Chunk>, start: nat, end: nat, i: nat)
    requires Tiles(cs, start, end) && i < |cs|
    ensures var (t, at) := Release(cs, i);
            at < |t| && !t[at].used && t[at].addr <= cs[i].addr < t[at].End()
  {
    if i > 0 {
      assert cs[i - 1].End() == cs[(i - 1) + 1].addr;
    }
  }

  /** Used chunks lie before or behind that chunk as they lay before or behind the freed one. */
  lemma {:induction false} SidesKept(cs: seq<Chunk>, start: nat, end: nat, i: nat, l: nat)
    requires Tiles(cs, start, end) && NoFreeNeighbours(cs) && i < |cs| && cs[i].used
    requires l < |Release(cs, i).0| && Release(cs, i).0[l].used
    ensures var (t, at) := Release(cs, i);
            t[l] in cs && l != at && (l < at <==> t[l].addr < cs[i].addr) && (l > at <==> t[l].addr > cs[i].addr)
  {
    hide Release, Tiles, NoFreeNeighbours;
    var (t, at) := Release(cs, i);
    ReleaseKeeps(cs, start, end, i);
    ReleaseUsed(cs, start, end, i, t[l]);
    ReleasedAt(cs, start, end, i);
    if l < at {
      Ascending(t, start, end, l, at);
    } else if l > at {
      Ascending(t, start, end, at, l);
    }
  }

  /** A used chunk other than the freed one is still there. */
  lemma {:induction false} StillThere(cs: seq<Chunk>, start: nat, end: nat, i: nat, d: Chunk) returns (l: nat)
    requires Tiles(cs, start, end) && NoFreeNeighbours(cs) && i < |cs| && cs[i].used
    requires d in cs && d.used && d.addr != cs[i].addr
    ensures l < |Release(cs, i).0| && Release(cs, i).0[l] == d
  {
    hide Release, Tiles, NoFreeNeighbours;
    ReleaseUsed(cs, start, end, i, d);
    l :| 0 <= l < |Release(cs, i).0| && Release(cs, i).0[l] == d;
  }

  /** Where a release leaves the cursor, in terms of the chunks before it. */
  lemma {:induction false} FreeMovesCursor(h: Heap, start: nat, end: nat, i: nat)
    requires Inv(h, start, end) && i < |h.chunks| && h.chunks[i].used
    ensures h.cursor != h.chunks[i].addr ==> Free(h, i).cursor == h.cursor
    ensures h.cursor == h.chunks[i].addr ==> CursorMoves(h.chunks, h.cursor, Free(h, i).cursor)
  {
    hide Release, Tiles, NoFreeNeighbours, Inv, CursorMoves;
    InvTiles(h, start, end);
    var cs := h.chunks;
    var (t, at) := Release(cs, i);
    ReleasedAt(cs, start, end, i);
    if h.cursor == cs[i].addr {
      ReplacementFound(cs, start, end, i);
    }
  }

  lemma {:induction false} ReplacementFound(cs: seq<Chunk>, start: nat, end: nat, i: nat)
    requires Tiles(cs, start, end) && NoFreeNeighbours(cs) && i < |cs| && cs[i].used
    requires Release(cs, i).1 < |Release(cs, i).0|
    ensures var (t, at) := Release(cs, i);
            var j := NextUsed(t, at + 1);
            CursorMoves(cs, cs[i].addr, if j < |t| then t[j].addr else LastUsedBefore(t, at))
  {
    hide Release, Tiles, NoFreeNeighbours;
    var (t, at) := Release(cs, i);
    var j := NextUsed(t, at + 1);
    NoneUsedBetween(t, at + 1);
    ReleaseKeeps(cs, start, end, i);
    if j < |t| {
      SidesKept(cs, start, end, i, j);
      forall d | d in cs && d.used && d.addr > cs[i].addr
        ensures t[j].addr <= d.addr
      {
        var l := StillThere(cs, start, end, i, d);
        SidesKept(cs, start, end, i, l);
        AddressOrder(t, start, end, j, l);
      }
    } else {
      forall d | d in cs && d.used && d.addr != cs[i].addr
        ensures d.addr < cs[i].addr && exists l :: 0 <= l < at && t[l].used && t[l] == d
      {
        var l := StillThere(cs, start, end, i, d);
        SidesKept(cs, start, end, i, l);
      }
      if exists l :: 0 <= l < at && t[l].used {
        var k := LastUsed(t, at);
        SidesKept(cs, start, end, i, k);
        forall d | d in cs && d.used && d.addr < cs[i].addr
          ensures d.addr <= t[k].addr
        {
          var l :| 0 <= l < at && t[l].used && t[l] == d;
          AddressOrder(t, start, end, l, k);
        }
      } else {
        LastUsedBeforeIs(t, at);
      }
    }
  }

  // ---------------------------------------------------------------- the heap is its blocks

  /** Two heaps over the same bytes with the same blocks in use and the same cursor are the same: the
      free chunks are exactly the gaps. */
  lemma {:induction false} HeapIsItsBlocks(h: Heap, g: Heap, start: nat, end: nat)
    requires Inv(h, start, end) && Inv(g, start, end)
    requires Live(h.chunks) == Live(g.chunks) && h.cursor == g.cursor
    ensures h == g
  {
    hide Live;
    ChunksAreBlocks(h.chunks, g.chunks, start, end);
  }

  /** A used chunk of one of two lists with the same blocks is in the other. */
  lemma {:induction false} SharedChunk(cs: seq<Chunk>, ds: seq<Chunk>, i: nat) returns (j: nat)
    requires Live(cs) == Live(ds) && i < |cs| && cs[i].used
    ensures j < |ds| && ds[j] == cs[i]
  {
    var b := (cs[i].Payload(), cs[i].size);
    assert cs[i] in cs && b in Live(cs);
    assert b in Live(ds);
    var d :| d in ds && d.used && b == (d.Payload(), d.size);
    j :| 0 <= j < |ds| && ds[j] == d;
  }

  /** If both lists start with a free chunk, neither of the two is longer than the other. */
  lemma {:induction false} FirstGap(cs: seq<Chunk>, ds: seq<Chunk>, start: nat, end: nat)
    requires Tiles(cs, start, end) && Tiles(ds, start, end) && NoFreeNeighbours(cs)
    requires Live(cs) == Live(ds) && !cs[0].used && !ds[0].used
    ensures ds[0].End() <= cs[0].End()
  {
    hide Live;
    Within(ds, start, end, 0);
    if |cs| > 1 {
      assert cs[0].used || cs[0 + 1].used;
      var j := SharedChunk(cs, ds, 1);
      assert cs[0].End() == cs[0 + 1].addr;
      Ascending(ds, start, end, 0, j);
    }
  }

  lemma {:induction false} SameFirst(cs: seq<Chunk>, ds: seq<Chunk>, start: nat, end: nat)
    requires Tiles(cs, start, end) && Tiles(ds, start, end) && NoFreeNeighbours(cs) && NoFreeNeighbours(ds)
    requires Live(cs) == Live(ds)
    ensures cs[0] == ds[0]
  {
    hide Live, NoFreeNeighbours;
    if cs[0].used {
      var j := SharedChunk(cs, ds, 0);
      AddressOrder(ds, start, end, j, 0);
    } else if ds[0].used {
      var j := SharedChunk(ds, cs, 0);
      AddressOrder(cs, start, end, j, 0);
    } else {
      FirstGap(cs, ds, start, end);
      FirstGap(ds, cs, start, end);
    }
  }

  /** What lies behind the first chunk. */
  lemma {:induction false} Tail(cs: seq<Chunk>, start: nat, end: nat)
    requires Tiles(cs, start, end) && NoFreeNeighbours(cs) && |cs| > 1
    ensures Tiles(cs[1..], cs[0].End(), end) && NoFreeNeighbours(cs[1..])
    ensures Live(cs[1..]) == Live(cs) - {(cs[0].Payload(), cs[0].size)}
  {
    hide Live;
    var t := cs[1..];
    assert forall i :: 0 <= i < |t| ==> t[i] == cs[i + 1];
    assert cs[0].End() == cs[0 + 1].addr;
    forall i | 0 <= i < |t| - 1
      ensures t[i].End() == t[i + 1].addr && (t[i].used || t[i + 1].used)
    {
      assert cs[i + 1].End() == cs[(i + 1) + 1].addr && (cs[i + 1].used || cs[(i + 1) + 1].used);
    }
    AlignedChunks(cs, start, end, 1);
    TailLive(cs, start, end);
  }

  lemma {:induction false} TailLive(cs: seq<Chunk>, start: nat, end: nat)
    requires Tiles(cs, start, end)
    ensures Live(cs[1..]) == Live(cs) - {(cs[0].Payload(), cs[0].size)}
  {
    assert cs == [cs[0]] + cs[1..];
    forall d | d in cs[1..]
      ensures d.addr != cs[0].addr
    {
      var i :| 0 < i < |cs| && cs[i] == d;
      Ascending(cs, start, end, 0, i);
    }
  }

  /** No chunk lies behind one that ends where the heap ends. */
  lemma {:induction false} LastIsOnly(cs: seq<Chunk>, start: nat, end: nat)
    requires Tiles(cs, start, end) && cs[0].End() == end
    ensures |cs| == 1
  {
    if |cs| > 1 {
      Ascending(cs, start, end, 0, |cs| - 1);
    }
  }

  lemma {:induction false} ChunksAreBlocks(cs: seq<Chunk>, ds: seq<Chunk>, start: nat, end: nat)
    requires Tiles(cs, start, end) && Tiles(ds, start, end) && NoFreeNeighbours(cs) && NoFreeNeighbours(ds)
    requires Live(cs) == Live(ds)
    ensures cs == ds
    decreases |cs|
  {
    hide Live, NoFreeNeighbours;
    SameFirst(cs, ds, start, end);
    if |cs| > 1 && |ds| > 1 {
      Tail(cs, start, end);
      Tail(ds, start, end);
      ChunksAreBlocks(cs[1..], ds[1..], cs[0].End(), end);
    } else if |cs| == 1 {
      LastIsOnly(ds, start, end);
    } else {
      LastIsOnly(cs, start, end);
    }
    assert cs == [cs[0]] + cs[1..] && ds == [ds[0]] + ds[1..];
  }
}
