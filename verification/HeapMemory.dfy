/** The heap in memory: chunk headers are words of the memory they manage, and the operations walk
    and rewrite them in place. */
module HeapMemory {
  import opened HeapSpec
  import Bits

  // ---------------------------------------------------------------- headers in memory

  /** A word of memory; a header is two of them, the next chunk's address and the size. */
  function Word(mem: map<nat, nat>, a: nat): nat { if a in mem then mem[a] else 0 }

  const SIZE_OFFSET: nat := 8

  /** The top bit of the size word says that the chunk is in use. */
  predicate InUse(word: nat) { word / USED % 2 == 1 }

  function SetUsed(word: nat): nat { if InUse(word) then word else word + USED }

  function ClearUsed(word: nat): nat {
    if InUse(word) then word - USED else word
  }

  function SizeWord(c: Chunk): nat { c.size + (if c.used then USED else 0) }

  function NextAddr(cs: seq<Chunk>, i: nat): nat { if i + 1 < |cs| then cs[i + 1].addr else 0 }

  ghost predicate HeaderAt(mem: map<nat, nat>, cs: seq<Chunk>, i: nat)
    requires i < |cs|
  {
    Word(mem, cs[i].addr) == NextAddr(cs, i) && Word(mem, cs[i].addr + SIZE_OFFSET) == SizeWord(cs[i])
  }

  ghost predicate Represents(mem: map<nat, nat>, cs: seq<Chunk>) {
    forall i :: 0 <= i < |cs| ==> HeaderAt(mem, cs, i)
  }

  /** No word of a block in use has changed. */
  ghost predicate PayloadsKept(mem: map<nat, nat>, mem': map<nat, nat>, cs: seq<Chunk>) {
    forall c, a :: c in cs && c.used && c.Payload() <= a < c.End() ==> Word(mem', a) == Word(mem, a)
  }

  /** Nothing but the header at addr has changed. */
  ghost predicate OnlyHeader(mem: map<nat, nat>, mem': map<nat, nat>, addr: nat) {
    forall a :: a != addr && a != addr + SIZE_OFFSET ==> Word(mem', a) == Word(mem, a)
  }

  /** Every chunk's size leaves the top bit of the size word free, and addresses do not wrap. */
  ghost predicate Small(start: nat, end: nat) { start <= end < WORD_LIMIT && end - start <= USED }

  lemma {:induction false} SizeWordReads(c: Chunk)
    requires c.size < USED
    ensures InUse(SizeWord(c)) <==> c.used
    ensures ClearUsed(SizeWord(c)) == c.size
    ensures !c.used ==> SetUsed(SizeWord(c)) == c.size + USED
  {
  }

  lemma {:induction false} ChunkIsSmall(cs: seq<Chunk>, start: nat, end: nat, i: nat)
    requires Tiles(cs, start, end) && Small(start, end) && i < |cs|
    ensures 0 < cs[i].addr && cs[i].addr + HEADER + cs[i].size <= end < WORD_LIMIT && cs[i].size < USED
    ensures InUse(SizeWord(cs[i])) <==> cs[i].used
    ensures ClearUsed(SizeWord(cs[i])) == cs[i].size
    ensures !cs[i].used ==> SetUsed(SizeWord(cs[i])) == cs[i].size + USED
    ensures NextAddr(cs, i) == 0 <==> i + 1 == |cs|
  {
    Within(cs, start, end, i);
    if i + 1 < |cs| {
      Within(cs, start, end, i + 1);
    }
    SizeWordReads(cs[i]);
  }

  /** The used chunks other than the one at i lie outside it. */
  lemma {:induction false} OthersOutside(cs: seq<Chunk>, start: nat, end: nat, i: nat)
    requires Tiles(cs, start, end) && i < |cs|
    ensures forall j :: 0 <= j < |cs| && j != i ==> cs[j].End() <= cs[i].addr || cs[i].End() <= cs[j].addr
  {
    forall j | 0 <= j < |cs| && j != i
      ensures cs[j].End() <= cs[i].addr || cs[i].End() <= cs[j].addr
    {
      if j < i {
        Ascending(cs, start, end, j, i);
      } else {
        Ascending(cs, start, end, i, j);
      }
    }
  }

  /** A word inside a payload is no part of a header, nor of another payload. */
  lemma {:induction false} PayloadWriteKeeps(mem: map<nat, nat>, mem': map<nat, nat>, cs: seq<Chunk>, start: nat,
      end: nat, i: nat, a: nat, w: nat)
    requires Tiles(cs, start, end) && Represents(mem, cs) && i < |cs| && cs[i].Payload() <= a < cs[i].End()
    requires mem' == mem[a := w]
    ensures Represents(mem', cs)
    ensures forall j, x :: 0 <= j < |cs| && j != i && cs[j].Payload() <= x < cs[j].End()
                           ==> Word(mem', x) == Word(mem, x)
  {
    OthersOutside(cs, start, end, i);
    forall j | 0 <= j < |cs|
      ensures HeaderAt(mem', cs, j)
    {
      assert HeaderAt(mem, cs, j);
    }
  }

  /** Changing only the size word of chunk i, to what a chunk c would have. */
  lemma {:induction false} RepresentsResized(mem: map<nat, nat>, mem': map<nat, nat>, cs: seq<Chunk>, start: nat,
      end: nat, i: nat, c: Chunk)
    requires Tiles(cs, start, end) && Represents(mem, cs) && i < |cs| && c.addr == cs[i].addr
    requires mem' == mem[c.addr + SIZE_OFFSET := SizeWord(c)]
    ensures Represents(mem', cs[i := c])
    ensures PayloadsKept(mem, mem', cs)
  {
    var t := cs[i := c];
    OthersOutside(cs, start, end, i);
    forall j | 0 <= j < |t|
      ensures HeaderAt(mem', t, j)
    {
      assert HeaderAt(mem, cs, j);
    }
    ResizedKeeps(mem, mem', cs, start, end, i);
  }

  lemma {:induction false} ResizedKeeps(mem: map<nat, nat>, mem': map<nat, nat>, cs: seq<Chunk>, start: nat,
      end: nat, i: nat)
    requires Tiles(cs, start, end) && i < |cs| && OnlyHeader(mem, mem', cs[i].addr)
    ensures PayloadsKept(mem, mem', cs)
  {
    OthersOutside(cs, start, end, i);
  }

  /** Cutting chunk i in two: a new header inside its payload, linked after it. The words of the new
      header were part of the free chunk's payload. */
  function Cut(cs: seq<Chunk>, i: nat, c: Chunk, d: Chunk): seq<Chunk>
    requires i < |cs|
  {
    cs[..i] + [c, d] + cs[i + 1..]
  }

  /** A header that no write touched and whose successor is the same stays right. */
  lemma {:induction false} HeaderMoved(mem: map<nat, nat>, mem': map<nat, nat>, cs: seq<Chunk>, j: nat,
      t: seq<Chunk>, l: nat)
    requires j < |cs| && l < |t| && HeaderAt(mem, cs, j) && t[l] == cs[j] && NextAddr(t, l) == NextAddr(cs, j)
    requires Word(mem', cs[j].addr) == Word(mem, cs[j].addr)
    requires Word(mem', cs[j].addr + SIZE_OFFSET) == Word(mem, cs[j].addr + SIZE_OFFSET)
    ensures HeaderAt(mem', t, l)
  {
  }

  /** The two headers of a cut: c linked to d, d to what followed. */
  ghost function CutHeaders(mem: map<nat, nat>, next: nat, c: Chunk, d: Chunk): map<nat, nat> {
    mem[d.addr + SIZE_OFFSET := SizeWord(d)][d.addr := next][c.addr := d.addr][c.addr + SIZE_OFFSET := SizeWord(c)]
  }

  lemma {:induction false} CutWords(mem: map<nat, nat>, next: nat, c: Chunk, d: Chunk)
    requires c.End() == d.addr
    ensures var mem' := CutHeaders(mem, next, c, d);
            && Word(mem', c.addr) == d.addr && Word(mem', c.addr + SIZE_OFFSET) == SizeWord(c)
            && Word(mem', d.addr) == next && Word(mem', d.addr + SIZE_OFFSET) == SizeWord(d)
            && forall a :: (a != c.addr && a != c.addr + SIZE_OFFSET && a != d.addr && a != d.addr + SIZE_OFFSET)
                           ==> Word(mem', a) == Word(mem, a)
  {
    hide SizeWord;
  }

  lemma {:induction false} RepresentsCut(mem: map<nat, nat>, mem': map<nat, nat>, cs: seq<Chunk>, start: nat, end: nat,
                      i: nat, c: Chunk, d: Chunk)
    requires Tiles(cs, start, end) && Represents(mem, cs) && i < |cs|
    requires c.addr == cs[i].addr && c.End() == d.addr && d.End() == cs[i].End()
    requires mem' == CutHeaders(mem, NextAddr(cs, i), c, d)
    ensures Represents(mem', Cut(cs, i, c, d))
  {
    hide SizeWord, CutHeaders, Word, HeaderAt;
    CutWords(mem, NextAddr(cs, i), c, d);
    forall j | 0 <= j < |Cut(cs, i, c, d)|
      ensures HeaderAt(mem', Cut(cs, i, c, d), j)
    {
      if j < i {
        assert HeaderAt(mem, cs, j);
        Ascending(cs, start, end, j, i);
        CutBefore(cs, i, c, d, j);
        HeaderMoved(mem, mem', cs, j, Cut(cs, i, c, d), j);
      } else if j > i + 1 {
        assert HeaderAt(mem, cs, j - 1);
        Ascending(cs, start, end, i, j - 1);
        CutAfter(cs, i, c, d, j);
        HeaderMoved(mem, mem', cs, j - 1, Cut(cs, i, c, d), j);
      } else {
        CutHere(mem', cs, i, c, d);
      }
    }
  }

  lemma {:induction false} CutBefore(cs: seq<Chunk>, i: nat, c: Chunk, d: Chunk, j: nat)
    requires j < i < |cs| && c.addr == cs[i].addr
    ensures Cut(cs, i, c, d)[j] == cs[j] && NextAddr(Cut(cs, i, c, d), j) == NextAddr(cs, j)
  {
  }

  lemma {:induction false} CutAfter(cs: seq<Chunk>, i: nat, c: Chunk, d: Chunk, j: nat)
    requires i + 1 < j <= |cs|
    ensures Cut(cs, i, c, d)[j] == cs[j - 1] && NextAddr(Cut(cs, i, c, d), j) == NextAddr(cs, j - 1)
  {
  }

  lemma {:induction false} CutHere(mem: map<nat, nat>, cs: seq<Chunk>, i: nat, c: Chunk, d: Chunk)
    requires i < |cs|
    requires Word(mem, c.addr) == d.addr && Word(mem, c.addr + SIZE_OFFSET) == SizeWord(c)
    requires Word(mem, d.addr) == NextAddr(cs, i) && Word(mem, d.addr + SIZE_OFFSET) == SizeWord(d)
    ensures HeaderAt(mem, Cut(cs, i, c, d), i) && HeaderAt(mem, Cut(cs, i, c, d), i + 1)
  {
    hide Word, SizeWord;
  }

  /** Joining the free chunk i with its successor. */
  lemma {:induction false} RepresentsJoined(mem: map<nat, nat>, mem': map<nat, nat>, cs: seq<Chunk>, start: nat,
      end: nat, i: nat)
    requires Tiles(cs, start, end) && Represents(mem, cs) && i + 1 < |cs|
    requires mem' == mem[cs[i].addr + SIZE_OFFSET := cs[i].size + cs[i + 1].size + HEADER]
                        [cs[i].addr := NextAddr(cs, i + 1)]
    ensures Represents(mem', Joined(cs, i))
  {
    var t := Joined(cs, i);
    OthersOutside(cs, start, end, i);
    assert |t| == |cs| - 1;
    forall j | 0 <= j < |t|
      ensures HeaderAt(mem', t, j)
    {
      if j < i {
        assert t[j] == cs[j];
        HeaderMoved(mem, mem', cs, j, t, j);
      } else if j > i {
        assert t[j] == cs[j + 1];
        HeaderMoved(mem, mem', cs, j + 1, t, j);
      }
    }
  }

  // ---------------------------------------------------------------- the two-pass iterator

  class ChunkIterator {
    var current: nat
    var start: nat
    var head: nat
    var secondPass: bool

    /** p chunks have been handed out, starting with the one at k. */
    ghost predicate At(cs: seq<Chunk>, k: nat, p: nat)
      reads this
    {
      && k < |cs| && p <= |cs| && head == cs[0].addr && start == cs[k].addr
      && (k + p < |cs| ==> !secondPass && current == cs[k + p].addr)
      && (k + p == |cs| ==> !secondPass && current == 0)
      && (k + p > |cs| ==> secondPass && current == cs[k + p - |cs|].addr)
    }

    constructor (mem: map<nat, nat>, head: nat, lastAllocated: nat, ghost h: Heap, ghost end: nat)
      requires Tiles(h.chunks, head, end) && Small(head, end) && Represents(mem, h.chunks) && CursorOk(h)
      requires h.cursor == lastAllocated
      ensures this.head == head && At(h.chunks, StartIndex(h), 0)
    {
      var first := if lastAllocated != 0 then Word(mem, lastAllocated) else head;
      if first == 0 {
        first := head;
      }
      this.head := head;
      start := first;
      current := first;
      secondPass := false;
      new;
      StartIs(mem, head, h, end);
    }

    /** Hands out every chunk once, from the start around to the chunk before it, then 0. */
    method Next(mem: map<nat, nat>, ghost cs: seq<Chunk>, ghost end: nat, ghost k: nat, ghost p: nat)
        returns (chunk: nat)
      requires Tiles(cs, head, end) && Small(head, end) && Represents(mem, cs) && At(cs, k, p)
      modifies this
      ensures head == old(head)
      ensures p < |cs| ==> chunk == cs[HeapSpec.At(k, p, |cs|)].addr && chunk != 0 && At(cs, k, p + 1)
      ensures p == |cs| ==> chunk == 0 && At(cs, k, p)
    {
      hide Tiles, Represents, Small, HeapSpec.At;
      NextFacts(mem, cs, head, end, k, p);
      if current == 0 {
        if !secondPass && start != head {
          secondPass := true;
          current := head;
        } else {
          return 0;
        }
      }
      if secondPass && current == start {
        return 0;
      }
      chunk := current;
      current := Word(mem, current);
    }
  }

  /** Where a search starts, read from the cursor's header. */
  lemma {:induction false} StartIs(mem: map<nat, nat>, head: nat, h: Heap, end: nat)
    requires Tiles(h.chunks, head, end) && Small(head, end) && Represents(mem, h.chunks) && CursorOk(h)
    ensures var first := if h.cursor != 0 then Word(mem, h.cursor) else head;
            h.chunks[StartIndex(h)].addr == if first == 0 then head else first
  {
    var cs := h.chunks;
    if h.cursor != 0 {
      var i :| 0 <= i < |cs| && cs[i].used && cs[i].addr == h.cursor;
      IndexOfChunk(cs, head, end, i);
      ChunkIsSmall(cs, head, end, i);
      assert HeaderAt(mem, cs, i);
    }
  }

  /** The chunks the iterator meets: distinct, not at address 0, linked as the list is. */
  lemma {:induction false} IteratorFacts(mem: map<nat, nat>, cs: seq<Chunk>, start: nat, end: nat, k: nat, p: nat)
    requires Tiles(cs, start, end) && Small(start, end) && Represents(mem, cs) && k < |cs| && p <= |cs|
    ensures forall i :: 0 <= i < |cs| ==> cs[i].addr > 0 && Word(mem, cs[i].addr) == NextAddr(cs, i)
    ensures forall i, j :: 0 <= i < j < |cs| ==> cs[i].addr != cs[j].addr
  {
    forall i | 0 <= i < |cs|
      ensures cs[i].addr > 0 && Word(mem, cs[i].addr) == NextAddr(cs, i)
    {
      ChunkIsSmall(cs, start, end, i);
      assert HeaderAt(mem, cs, i);
    }
    forall i, j | 0 <= i < j < |cs|
      ensures cs[i].addr != cs[j].addr
    {
      Ascending(cs, start, end, i, j);
    }
  }

  /** What the iterator needs of them at its p-th step. */
  lemma {:induction false} NextFacts(mem: map<nat, nat>, cs: seq<Chunk>, start: nat, end: nat, k: nat, p: nat)
    requires Tiles(cs, start, end) && Small(start, end) && Represents(mem, cs) && k < |cs| && p <= |cs|
    ensures cs[0].addr > 0 && (cs[k].addr == cs[0].addr <==> k == 0)
    ensures p < |cs| ==>
              var i := HeapSpec.At(k, p, |cs|);
              && i == (if k + p < |cs| then k + p else k + p - |cs|)
              && cs[i].addr > 0 && Word(mem, cs[i].addr) == NextAddr(cs, i) && (i == k <==> p == 0)
              && (cs[i].addr == cs[k].addr <==> i == k)
    ensures p == |cs| ==> k + p - |cs| == k
  {
    hide Tiles, Represents, Small;
    IteratorFacts(mem, cs, start, end, k, p);
  }

  // ---------------------------------------------------------------- the heap

  datatype Outcome = Returned(ptr: nat) | Failed

  /** The exponent of an alignment; what the trailing-zero count of a power of two gives. */
  function CountTrailingZeros(x: nat): nat
    requires x > 0
  {
    if x % 2 == 1 then 0 else 1 + CountTrailingZeros(x / 2)
  }

  predicate PowerOfTwo(x: nat) { x != 0 && Bits.And(x, x - 1) == 0 }

  lemma {:induction false} AndSelf(x: nat)
    ensures Bits.And(x, x) == x
  {
    if x > 0 {
      AndSelf(x / 2);
    }
  }

  /** The mask test accepts exactly the powers of two, whose exponent is the trailing-zero count. */
  lemma {:induction false} PowerOfTwoIs(x: nat)
    requires x > 0
    ensures PowerOfTwo(x) <==> x == Bits.Pow2(CountTrailingZeros(x))
  {
    if x % 2 == 1 {
      AndSelf(x / 2);
      assert (x - 1) / 2 == x / 2;
      if x > 1 {
        assert Bits.And(x, x - 1) == 2 * Bits.And(x / 2, (x - 1) / 2);
      }
    } else {
      PowerOfTwoIs(x / 2);
      assert (x - 1) / 2 == x / 2 - 1;
      assert Bits.And(x, x - 1) == 2 * Bits.And(x / 2, x / 2 - 1);
    }
  }

  /** Where the header of the block at an address would be, in 64-bit arithmetic. */
  function HeaderOf(ptr: nat): nat { (ptr + WORD_LIMIT - HEADER) % WORD_LIMIT }

  class HeapInfo {
    var memory: map<nat, nat>
    var head: nat
    var lastAllocated: nat
    var size: nat
    var setupDone: bool
    ghost var chunks: seq<Chunk>

    ghost function State(): Heap
      reads this
    {
      Heap(chunks, lastAllocated)
    }

    ghost predicate Laid()
      reads this
    {
      Tiles(chunks, head, head + size) && Small(head, head + size) && Represents(memory, chunks)
    }

    ghost predicate Valid()
      reads this
    {
      && (setupDone ==> Laid() && Inv(State(), head, head + size))
      && (!setupDone ==> head == 0 && lastAllocated == 0)
    }

    constructor ()
      ensures Valid() && !setupDone
    {
      memory, head, lastAllocated, size, setupDone, chunks := map[], 0, 0, 0, false, [];
    }

    lemma {:induction false} HeadIsFirst()
      requires Laid()
      ensures chunks != [] && chunks[0].addr == head
    {
    }

    lemma {:induction false} HeadIsSet()
      requires Valid()
      ensures setupDone <==> head != 0
    {
    }

    /** Cuts what is left over beyond n bytes off a free chunk, when it can be a chunk itself. */
    method TrimChunk(chunk: nat, n: nat, ghost i: nat)
      requires Laid() && i < |chunks| && chunks[i].addr == chunk && Fits(chunks[i], n)
      requires n % MIN_ALLOCATION == 0
      modifies this`memory, this`chunks
      ensures Laid() && chunks == Trimmed(old(chunks), i, n)
      ensures OnlyTaken(old(memory), memory, old(chunks)[i], n)
    {
      hide Small, Represents, Tiles, InUse, ClearUsed;
      ghost var cs, mem, end := chunks, memory, head + size;
      ReadHeader(memory, cs, head, end, i);
      var available := Word(memory, chunk + SIZE_OFFSET);
      if available >= n + MIN_SEGMENT {
        var rest := chunk + HEADER + n;
        memory := memory[rest + SIZE_OFFSET := available - n - HEADER];
        memory := memory[rest := Word(memory, chunk)];
        memory := memory[chunk := rest];
        memory := memory[chunk + SIZE_OFFSET := n];
        ghost var c, d := Chunk(chunk, n, false), Chunk(rest, available - n - HEADER, false);
        assert memory == CutHeaders(mem, NextAddr(cs, i), c, d);
        CutWords(mem, NextAddr(cs, i), c, d);
        RepresentsCut(mem, memory, cs, head, end, i, c, d);
        SizesAligned(cs, head, end, i);
        CutTiles(cs, head, end, i, c, d);
        chunks := Cut(cs, i, c, d);
      }
    }

    /** Sets the used bit in a free chunk's size word. */
    method MarkUsed(chunk: nat, ghost i: nat)
      requires Laid() && i < |chunks| && chunks[i].addr == chunk && !chunks[i].used
      modifies this`memory, this`chunks
      ensures Laid() && chunks == old(chunks)[i := old(chunks)[i].(used := true)]
      ensures OnlyHeader(old(memory), memory, chunk)
    {
      ghost var cs, mem, end := chunks, memory, head + size;
      ghost var marked := cs[i].(used := true);
      assert HeaderAt(memory, cs, i);
      ChunkIsSmall(cs, head, end, i);
      memory := memory[chunk + SIZE_OFFSET := SetUsed(Word(memory, chunk + SIZE_OFFSET))];
      RepresentsResized(mem, memory, cs, head, end, i, marked);
      RetagTiles(cs, head, end, i, true);
      chunks := cs[i := marked];
    }

    /** Takes a free chunk for n bytes: trims it, marks it used, moves the cursor to it. */
    method TakeChunk(chunk: nat, n: nat, ghost i: nat)
      requires Laid() && i < |chunks| && chunks[i].addr == chunk && Fits(chunks[i], n)
      requires n % MIN_ALLOCATION == 0
      modifies this`memory, this`chunks, this`lastAllocated
      ensures Laid() && State() == Allocate(old(State()), i, n)
      ensures OnlyTaken(old(memory), memory, old(chunks)[i], n)
    {
      hide Small, Represents, Tiles, Take;
      ghost var cs, mem := chunks, memory;
      TakeIsTrim(cs, i, n);
      TrimChunk(chunk, n, i);
      MarkUsed(chunk, i);
      lastAllocated := chunk;
    }

    /** Looks for a chunk with room for n bytes, from the cursor around. */
    method FindChunk(n: nat) returns (chunk: nat, ghost i: nat)
      requires Valid() && setupDone
      ensures IsFound(State(), FitsFor(n), chunk, i)
      ensures chunk == 0 <==> forall j :: 0 <= j < |chunks| ==> !Fits(chunks[j], n)
    {
      hide Tiles, Represents, NoFreeNeighbours, CursorOk, InUse, ClearUsed;
      ghost var cs, end, k := chunks, head + size, StartIndex(State());
      var iter := new ChunkIterator(memory, head, lastAllocated, State(), end);
      ghost var p := 0;
      while true
        invariant p <= |cs| && iter.head == head && iter.At(cs, k, p)
        invariant Search(cs, k, 0, FitsFor(n)) == Search(cs, k, p, FitsFor(n))
        decreases |cs| - p
      {
        chunk := iter.Next(memory, cs, end, k, p);
        if chunk == 0 {
          i := |cs|;
          break;
        }
        i := HeapSpec.At(k, p, |cs|);
        ReadHeader(memory, cs, head, end, i);
        var word := Word(memory, chunk + SIZE_OFFSET);
        if !InUse(word) && word >= n {
          break;
        }
        p := p + 1;
      }
      NothingFound(State(), FitsFor(n), chunk, i);
    }

    /** Allocates size bytes, rounded up to a multiple of 8. The result is that of the abstract
        heap, and no word of a block in use changes. */
    method Malloc(size: nat) returns (r: Outcome)
      requires Valid() && size < WORD_LIMIT
      modifies this`memory, this`chunks, this`lastAllocated
      ensures Valid()
      ensures r == if !setupDone || size == 0 || size >= 0x8000_0000_0000_0000 then Failed
                   else Returned(HeapSpec.Malloc(old(State()), AlignToMinAlloc(size)).1)
      ensures r.Failed? ==> memory == old(memory) && State() == old(State())
      ensures r.Returned? ==> State() == HeapSpec.Malloc(old(State()), AlignToMinAlloc(size)).0
      ensures PayloadsKept(old(memory), memory, old(chunks))
    {
      hide Tiles, Represents, NoFreeNeighbours, CursorOk, Allocate, OnlyTaken, AlignToMinAlloc;
      HeadIsSet();
      if !setupDone || head == 0 {
        return Failed;
      }
      if size >= USED || size == 0 {
        return Failed;
      }
      var n := AlignToMinAlloc(size);
      AlignToMinAllocIs(size);
      ghost var h := State();
      var chunk;
      ghost var i;
      chunk, i := FindChunk(n);
      if chunk == 0 {
        return Returned(0);
      }
      ghost var mem := memory;
      AllocateKeeps(h, head, head + this.size, i, n);
      TakeChunk(chunk, n, i);
      TakenPayloads(mem, memory, h.chunks, head, head + this.size, i, n);
      return Returned(chunk + HEADER);
    }

    /** Looks for a free chunk that holds n bytes at a multiple of 2^k. */
    method FindAlignedChunk(n: nat, k: nat) returns (chunk: nat, aligned: bool, alignedStart: nat, end: nat,
        ghost i: nat)
      requires Valid() && setupDone && 3 < k < 64 && n <= USED
      requires FirstIsRight(State(), n, k)
      ensures IsFound(State(), FitsAlignedFor(n, k), chunk, i)
      ensures chunk == 0 <==> forall j :: 0 <= j < |chunks| ==> !FitsAligned(chunks[j], n, k)
      ensures chunk != 0 ==> end == chunks[i].End() && (aligned <==> StartsAligned(chunks[i], k))
      ensures chunk != 0 && !aligned ==> alignedStart == Slot(chunks[i], k)
    {
      hide Tiles, Represents, NoFreeNeighbours, CursorOk, AlignUp, InUse, ClearUsed, FitsAligned, StartsAligned, Slot,
           WordFitsAligned, Misjudged;
      ghost var cs, limit, s := chunks, head + size, StartIndex(State());
      var iter := new ChunkIterator(memory, head, lastAllocated, State(), limit);
      aligned, alignedStart, end := false, 0, 0;
      ghost var p := 0;
      while true
        invariant p <= |cs| && iter.head == head && iter.At(cs, s, p) && !aligned
        invariant Search(cs, s, 0, WordFitsFor(n, k)) == Search(cs, s, p, WordFitsFor(n, k))
        decreases |cs| - p
      {
        chunk := iter.Next(memory, cs, limit, s, p);
        if chunk == 0 {
          i := |cs|;
          break;
        }
        i := HeapSpec.At(s, p, |cs|);
        ReadHeader(memory, cs, head, limit, i);
        ChunkIsSmall(cs, head, limit, i);
        p := p + 1;
        var found;
        found, aligned, alignedStart, end := ExamineChunk(chunk, Word(memory, chunk + SIZE_OFFSET), n, k, cs[i]);
        WordFitsExactly(cs[i], n, k);
        if found {
          break;
        }
      }
      SearchesAgreeExactly(State(), head, limit, n, k);
      NothingFound(State(), FitsAlignedFor(n, k), chunk, i);
    }

    /** Cuts a free chunk in two so that the second part's payload starts at `at`. */
    method SplitChunk(chunk: nat, at: nat, end: nat, ghost i: nat) returns (second: nat)
      requires Laid() && i < |chunks| && chunks[i].addr == chunk && !chunks[i].used && end == chunks[i].End()
      requires chunks[i].Payload() + MIN_SEGMENT <= at <= end && at % MIN_ALLOCATION == 0
      requires NoFreeNeighbours(chunks)
      modifies this`memory, this`chunks
      ensures Laid() && chunks == SplitAt(old(chunks), i, at) && second == at - HEADER
      ensures forall a :: a != chunk && a != chunk + SIZE_OFFSET && a != second && a != second + SIZE_OFFSET
                          ==> Word(memory, a) == Word(old(memory), a)
    {
      hide Small, Represents, Tiles, InUse, ClearUsed, NoFreeNeighbours;
      ghost var cs, mem, limit := chunks, memory, head + size;
      ReadHeader(memory, cs, head, limit, i);
      second := at - HEADER;
      var tail: nat := end - at;
      memory := memory[second + SIZE_OFFSET := tail];
      memory := memory[second := Word(memory, chunk)];
      var left: nat := Word(memory, chunk + SIZE_OFFSET) - (Word(memory, second + SIZE_OFFSET) + HEADER);
      memory := memory[chunk + SIZE_OFFSET := left];
      memory := memory[chunk := second];
      ghost var c := Chunk(chunk, at - HEADER - cs[i].Payload(), false);
      ghost var d := Chunk(second, end - at, false);
      assert memory == CutHeaders(mem, NextAddr(cs, i), c, d);
      CutWords(mem, NextAddr(cs, i), c, d);
      RepresentsCut(mem, memory, cs, head, limit, i, c, d);
      SplitKeeps(cs, head, limit, i, at);
      chunks := Cut(cs, i, c, d);
    }

    /** Takes a chunk for n bytes at a multiple of 2^k: as it is if it starts at one, otherwise cut in
        two before one. */
    method TakeAligned(found: nat, aligned: bool, alignedStart: nat, end: nat, n: nat, k: nat, ghost i: nat)
      returns (chunk: nat)
      requires Valid() && setupDone && i < |chunks| && chunks[i].addr == found && FitsAligned(chunks[i], n, k)
      requires end == chunks[i].End() && (aligned <==> StartsAligned(chunks[i], k))
      requires !aligned ==> alignedStart == Slot(chunks[i], k)
      requires n % MIN_ALLOCATION == 0 && k >= 3
      modifies this`memory, this`chunks, this`lastAllocated
      ensures Valid() && (State(), chunk + HEADER) == AllocateAligned(old(State()), i, n, k)
      ensures PayloadsKept(old(memory), memory, old(chunks))
    {
      hide Tiles, Represents, NoFreeNeighbours, CursorOk, Allocate, OnlyTaken, AlignUp, SplitAt;
      ghost var h, end0, mem := State(), head + this.size, memory;
      chunk := found;
      AllocateAlignedKeeps(h, head, end0, i, n, k);
      if aligned {
        TakeChunk(chunk, n, i);
        TakenPayloads(mem, memory, h.chunks, head, end0, i, n);
        return;
      }
      SlotFits(h.chunks[i], n, k);
      chunk := SplitChunk(chunk, alignedStart, end, i);
      ghost var mem1, second := memory, chunks[i + 1];
      TakeChunk(chunk, n, i + 1);
      SplitPayloads(mem, mem1, memory, h.chunks, head, end0, i, second, n);
    }

    /** Allocates size bytes, rounded up to a multiple of 8, at a multiple of the alignment. */
    method Memalign(alignment: nat, size: nat) returns (r: Outcome)
      requires Valid() && size < WORD_LIMIT && alignment < WORD_LIMIT
      requires setupDone && size < USED && alignment > MIN_ALLOCATION && PowerOfTwo(alignment) ==>
                 FirstIsRight(State(), AlignToMinAlloc(size), CountTrailingZeros(alignment))
      modifies this`memory, this`chunks, this`lastAllocated
      ensures Valid()
      ensures PayloadsKept(old(memory), memory, old(chunks))
      ensures r == if !PowerOfTwo(alignment) then Returned(0)
                   else if !setupDone || size >= 0x8000_0000_0000_0000 then Failed
                   else if alignment > MIN_ALLOCATION
                   then Returned(HeapSpec.Memalign(old(State()), AlignToMinAlloc(size),
                     CountTrailingZeros(alignment)).1)
                   else if size == 0 then Failed
                   else Returned(HeapSpec.Malloc(old(State()), AlignToMinAlloc(size)).1)
      ensures r.Failed? || !PowerOfTwo(alignment) ==> memory == old(memory) && State() == old(State())
      ensures r.Returned? && PowerOfTwo(alignment) ==>
                State() == if alignment > MIN_ALLOCATION
                           then HeapSpec.Memalign(old(State()), AlignToMinAlloc(size), CountTrailingZeros(alignment)).0
                           else HeapSpec.Malloc(old(State()), AlignToMinAlloc(size)).0
    {
      hide Tiles, Represents, NoFreeNeighbours, CursorOk, OnlyTaken, AlignToMinAlloc, AlignUp, AllocateAligned,
           CountTrailingZeros, Misjudged, FitsAligned, StartsAligned, Slot;
      HeadIsSet();
      if alignment == 0 || Bits.And(alignment, alignment - 1) != 0 {
        return Returned(0);
      }
      if !setupDone || head == 0 {
        return Failed;
      }
      if size >= USED {
        return Failed;
      }
      if alignment <= MIN_ALLOCATION {
        r := Malloc(size);
        return;
      }
      var n, k := AlignToMinAlloc(size), CountTrailingZeros(alignment);
      AlignToMinAllocIs(size);
      ExponentRange(alignment);
      var chunk, aligned, alignedStart, end;
      ghost var i;
      chunk, aligned, alignedStart, end, i := FindAlignedChunk(n, k);
      if chunk == 0 {
        return Returned(0);
      }
      chunk := TakeAligned(chunk, aligned, alignedStart, end, n, k, i);
      return Returned(chunk + HEADER);
    }

    /** Joins the free chunk at `chunk` with its successor when that is free too. */
    method JoinNext(chunk: nat, ghost i: nat)
      requires Laid() && i < |chunks| && chunks[i].addr == chunk && !chunks[i].used
      modifies this`memory, this`chunks
      ensures Laid()
      ensures chunks == if i + 1 < |old(chunks)| && !old(chunks)[i + 1].used then Joined(old(chunks), i)
                        else old(chunks)
      ensures OnlyHeader(old(memory), memory, chunk)
    {
      hide Small;
      ghost var cs, mem, limit := chunks, memory, head + size;
      ReadHeader(memory, cs, head, limit, i);
      var next := Word(memory, chunk);
      if next != 0 {
        ReadHeader(memory, cs, head, limit, i + 1);
        if !InUse(Word(memory, next + SIZE_OFFSET)) {
          memory := memory[chunk + SIZE_OFFSET :=
            Word(memory, chunk + SIZE_OFFSET) + Word(memory, next + SIZE_OFFSET) + HEADER];
          Within(cs, head, limit, i);
          Ascending(cs, head, limit, i, i + 1);
          memory := memory[chunk := Word(memory, next)];
          RepresentsJoined(mem, memory, cs, head, limit, i);
          JoinTiles(cs, head, limit, i);
          chunks := Joined(cs, i);
        }
      }
    }

    /** The chunk whose successor is the one at `chunk`; 0 when that is the head. */
    method FindPrevious(chunk: nat, ghost i: nat) returns (prev: nat)
      requires Laid() && i < |chunks| && chunks[i].addr == chunk
      ensures prev == (if i == 0 then 0 else chunks[i - 1].addr) && (i > 0 ==> prev != 0)
    {
      hide Small;
      ghost var cs, limit := chunks, head + size;
      prev := head;
      ghost var j := 0;
      ReadHeader(memory, cs, head, limit, 0);
      IteratorFacts(memory, cs, head, limit, 0, 0);
      while prev != 0 && Word(memory, prev) != chunk
        invariant j <= |cs| && prev == if j < |cs| then cs[j].addr else 0
        invariant i > 0 ==> j < i
        decreases |cs| - j
      {
        ReadHeader(memory, cs, head, limit, j);
        prev := Word(memory, prev);
        j := j + 1;
      }
      if prev != 0 {
        ReadHeader(memory, cs, head, limit, j);
      }
    }

    /** The first used chunk after position `at`, 0 when there is none. */
    method FindUsedAfter(chunk: nat, ghost at: nat) returns (found: nat)
      requires Laid() && at < |chunks| && chunks[at].addr == chunk
      ensures var j := NextUsed(chunks, at + 1);
              found == (if j < |chunks| then chunks[j].addr else 0) && (j < |chunks| ==> found != 0)
    {
      hide Small, InUse, ClearUsed, SizeWord, Tiles, Represents, NextUsed;
      ghost var cs, limit := chunks, head + size;
      ReadHeader(memory, cs, head, limit, at);
      found := Word(memory, chunk);
      ghost var j := at + 1;
      NextUsedStep(cs, j);
      while found != 0 && !InUse(Word(memory, found + SIZE_OFFSET))
        invariant at < j <= |cs| && (found == 0 <==> j == |cs|) && (j < |cs| ==> found == cs[j].addr)
        invariant NextUsed(cs, at + 1) == NextUsed(cs, j)
        decreases |cs| - j
      {
        ReadHeader(memory, cs, head, limit, j);
        NextUsedStep(cs, j);
        found := Word(memory, found);
        j := j + 1;
      }
      NextUsedStep(cs, j);
      if found != 0 {
        ReadHeader(memory, cs, head, limit, j);
      }
    }

    /** The last used chunk before position `at`, 0 when there is none. */
    method FindUsedBefore(chunk: nat, ghost at: nat) returns (found: nat)
      requires Laid() && at < |chunks| && chunks[at].addr == chunk
      ensures found == LastUsedBefore(chunks, at)
    {
      hide Small, InUse, ClearUsed, SizeWord, Represents, Tiles;
      ghost var cs, limit := chunks, head + size;
      HeadIsFirst();
      ReadHeader(memory, cs, head, limit, at);
      DistinctAddresses(cs, head, limit, at);
      var prev := head;
      found := 0;
      ghost var j := 0;
      while prev != 0 && prev != chunk
        invariant j <= at && prev == cs[j].addr
        invariant found == LastUsedBefore(cs, j)
        decreases at - j
      {
        ReadHeader(memory, cs, head, limit, j);
        if InUse(Word(memory, prev + SIZE_OFFSET)) {
          found := prev;
        }
        prev := Word(memory, prev);
        j := j + 1;
      }
    }

    /** The word where the header of a block would have its size does not say that it is in use. */
    predicate Unmarked(ptr: nat)
      reads this
    {
      !InUse(Word(memory, (HeaderOf(ptr) + SIZE_OFFSET) % WORD_LIMIT))
    }

    /** Releases a block. A null pointer and one below the heap are ignored; releasing a free
        chunk, a pointer to anything else without the mark of a block in use, or anything before the
        heap is set up, stops the diagnostic. */
    method Free(ptr: nat, ghost i: nat) returns (r: Outcome)
      requires Valid() && ptr < WORD_LIMIT
      requires ptr == 0 || !setupDone || HeaderOf(ptr) < head || (i < |chunks| && chunks[i].Payload() == ptr)
               || Unmarked(ptr)
      modifies this`memory, this`chunks, this`lastAllocated
      ensures Valid()
      ensures PayloadsKept(old(memory), memory, old(chunks))
      ensures ptr == 0 || (setupDone && HeaderOf(ptr) < head) ==>
                r == Returned(0) && memory == old(memory) && State() == old(State())
      ensures ptr != 0 && !setupDone ==> r == Failed && memory == old(memory) && State() == old(State())
      ensures ptr != 0 && setupDone && HeaderOf(ptr) >= head ==>
                if i < |old(chunks)| && old(chunks)[i].Payload() == ptr && old(chunks)[i].used
                then r == Returned(0) && State() == HeapSpec.Free(old(State()), i)
                else r == Failed && memory == old(memory) && State() == old(State())
    {
      if ptr == 0 {
        return Returned(0);
      }
      HeadIsSet();
      if !setupDone || head == 0 {
        return Failed;
      }
      var chunk := HeaderOf(ptr);
      if chunk < head || head == 0 {
        return Returned(0);
      }
      if i < |chunks| {
        ReadHeader(memory, chunks, head, head + size, i);
        ChunkIsSmall(chunks, head, head + size, i);
      }
      if !InUse(Word(memory, (chunk + SIZE_OFFSET) % WORD_LIMIT)) {
        return Failed;
      }
      ReleaseChunk(chunk, i);
      return Returned(0);
    }

    /** Clears the used bit in a used chunk's size word. */
    method MarkFree(chunk: nat, ghost i: nat)
      requires Laid() && i < |chunks| && chunks[i].addr == chunk && chunks[i].used
      modifies this`memory, this`chunks
      ensures Laid() && chunks == old(chunks)[i := old(chunks)[i].(used := false)]
      ensures OnlyHeader(old(memory), memory, chunk)
    {
      ghost var cs, mem, end := chunks, memory, head + size;
      ghost var marked := cs[i].(used := false);
      ReadHeader(memory, cs, head, end, i);
      memory := memory[chunk + SIZE_OFFSET := ClearUsed(Word(memory, chunk + SIZE_OFFSET))];
      RepresentsResized(mem, memory, cs, head, end, i, marked);
      RetagTiles(cs, head, end, i, false);
      chunks := cs[i := marked];
    }

    /** Joins the chunk just freed with its free neighbours; the address of the result. */
    method Coalesce(chunk: nat, ghost cs: seq<Chunk>, ghost i: nat) returns (at: nat)
      requires Laid() && i < |cs| && cs[i].addr == chunk && cs[i].used
      requires chunks == cs[i := cs[i].(used := false)]
      modifies this`memory, this`chunks
      ensures Laid() && chunks == Release(cs, i).0
      ensures Release(cs, i).1 < |chunks| && chunks[Release(cs, i).1].addr == at
      ensures var previous := if i > 0 && !cs[i - 1].used then cs[i - 1].addr else chunk;
              forall a :: (a != chunk && a != chunk + SIZE_OFFSET
                           && a != previous && a != previous + SIZE_OFFSET) ==> Word(memory, a) == Word(old(memory), a)
    {
      hide Small, Tiles, Represents, Joined, Release, InUse, ClearUsed;
      ReleaseIsJoins(cs, i);
      ReleaseSteps(cs, i);
      JoinNext(chunk, i);
      var prev := FindPrevious(chunk, i);
      at := chunk;
      if prev != 0 {
        ReadHeader(memory, chunks, head, head + size, i - 1);
        if !InUse(Word(memory, prev + SIZE_OFFSET)) {
          JoinNext(prev, i - 1);
          at := prev;
        }
      }
    }

    method ReleaseChunk(chunk: nat, ghost i: nat)
      requires Valid() && setupDone && i < |chunks| && chunks[i].addr == chunk && chunks[i].used
      modifies this`memory, this`chunks, this`lastAllocated
      ensures Valid() && State() == HeapSpec.Free(old(State()), i)
      ensures PayloadsKept(old(memory), memory, old(chunks))
    {
      hide Small, Tiles, Represents, NoFreeNeighbours, CursorOk, Joined, Release;
      ghost var h, mem, limit := State(), memory, head + size;
      ghost var cs := h.chunks;
      FreeKeeps(h, head, limit, i);
      CursorIsSet(h, head, limit, i);
      MarkFree(chunk, i);
      if lastAllocated == chunk {
        lastAllocated := 0;
      }
      var at := Coalesce(chunk, cs, i);
      if lastAllocated == 0 {
        lastAllocated := FindUsedAfter(at, Release(cs, i).1);
        if lastAllocated == 0 {
          lastAllocated := FindUsedBefore(at, Release(cs, i).1);
        }
      }
      assert chunks == HeapSpec.Free(h, i).chunks;
      assert lastAllocated == HeapSpec.Free(h, i).cursor;
      ReleasedPayloads(mem, memory, cs, head, limit, i);
    }

    /** Sets the heap up as one free chunk; a heap already set up must be at the same address. The
        caller says whether both ends of the range translate with the right memory type. */
    method Setup(start: nat, end: nat, memoryTypeOk: bool) returns (r: Outcome)
      requires Valid() && 0 < start && start + HEADER <= end && Small(start, end)
      requires start % MIN_ALLOCATION == 0 && end % MIN_ALLOCATION == 0
      modifies this
      ensures Valid()
      ensures old(setupDone) ==> r == (if head == start then Returned(0) else Failed) && State() == old(State())
      ensures !old(setupDone) && !memoryTypeOk ==> r == Failed && !setupDone
      ensures !old(setupDone) && memoryTypeOk ==>
                r == Returned(0) && setupDone && head == start && size == end - start
                && State() == Heap([Chunk(start, end - start - HEADER, false)], 0)
    {
      if setupDone {
        if head != start {
          return Failed;
        }
        return Returned(0);
      }
      if !memoryTypeOk {
        return Failed;
      }
      head := start;
      lastAllocated := 0;
      memory := memory[head := 0];
      memory := memory[head + SIZE_OFFSET := end - start - HEADER];
      size := end - start;
      setupDone := true;
      chunks := [Chunk(start, end - start - HEADER, false)];
      return Returned(0);
    }

    /** Takes the heap down. It succeeds exactly when no chunk is in use: the sizes then always add
        up to the heap's. */
    method Deregister() returns (r: Outcome)
      requires Valid()
      modifies this
      ensures Valid()
      ensures !old(setupDone) ==> r == Returned(0) && !setupDone
      ensures old(setupDone) ==>
                if AllFree(old(chunks)) then r == Returned(0) && !setupDone
                else r == Failed && memory == old(memory) && State() == old(State()) && setupDone
    {
      if !setupDone {
        return Returned(0);
      }
      var used := AnyChunkUsed();
      if used {
        return Failed;
      }
      setupDone := false;
      head := 0;
      lastAllocated := 0;
      size := 0;
      return Returned(0);
    }

    /** Walks the list: true when a chunk is in use or the sizes do not add up to the heap's. */
    method AnyChunkUsed() returns (used: bool)
      requires Valid() && setupDone
      ensures used <==> !AllFree(chunks)
    {
      hide Small, InUse, ClearUsed, SizeWord, Represents, Tiles, NoFreeNeighbours, CursorOk;
      ghost var cs, limit := chunks, head + size;
      HeadIsFirst();
      TotalIs(cs, head, limit);
      ReadHeader(memory, cs, head, limit, 0);
      var total := 0;
      var chunk := head;
      ghost var j := 0;
      assert cs[..0] == [];
      DistinctAddresses(cs, head, limit, 0);
      while chunk != 0
        invariant j <= |cs| && (chunk == 0 <==> j == |cs|) && (j < |cs| ==> chunk == cs[j].addr)
        invariant total == Total(cs[..j])
        invariant forall i :: 0 <= i < j ==> !cs[i].used
        decreases |cs| - j
      {
        ReadHeader(memory, cs, head, limit, j);
        var word := Word(memory, chunk + SIZE_OFFSET);
        if InUse(word) {
          return true;
        }
        total := total + word + HEADER;
        assert cs[..j + 1][..j] == cs[..j];
        chunk := Word(memory, chunk);
        j := j + 1;
        if j < |cs| {
          DistinctAddresses(cs, head, limit, j);
        }
      }
      assert cs[..|cs|] == cs;
      if total != size {
        return true;
      }
      return false;
    }
  }

  /** The same test in 64-bit arithmetic, as the code makes it. */
  predicate WordFitsAligned(c: Chunk, n: nat, k: nat) {
    var slot := Slot(c, k) % WORD_LIMIT;
    Fits(c, n) && (StartsAligned(c, k) || (slot < c.End() && (slot + n) % WORD_LIMIT <= c.End()))
  }

  /** A chunk near the top of memory that is large enough but starts at no multiple: rounding up, or
      adding the size to the result, wraps around. */
  predicate Misjudged(c: Chunk, n: nat, k: nat) {
    Fits(c, n) && !StartsAligned(c, k)
    && (Slot(c, k) >= WORD_LIMIT || (Slot(c, k) < c.End() && Slot(c, k) + n >= WORD_LIMIT))
  }

  /** The code's test is right exactly for the chunks where nothing wraps; where something does, it
      takes a chunk that does not hold the block. */
  lemma {:induction false} WordFitsExactly(c: Chunk, n: nat, k: nat)
    requires c.End() < WORD_LIMIT && c.size < USED && k < 64
    ensures WordFitsAligned(c, n, k) == FitsAligned(c, n, k) <==> !Misjudged(c, n, k)
    ensures Misjudged(c, n, k) ==> WordFitsAligned(c, n, k) && !FitsAligned(c, n, k)
    ensures FitsAligned(c, n, k) && !StartsAligned(c, k) ==> Slot(c, k) % WORD_LIMIT == Slot(c, k)
  {
    hide AlignUp, StartsAligned, Bits.Pow2;
    var x, slot := c.Payload() + MIN_SEGMENT, Slot(c, k);
    AlignUpIs(x, k);
    WordMultiple(k);
    if x <= WORD_LIMIT {
      MultiplesApart(slot, WORD_LIMIT, Bits.Pow2(k));
    }
    if n <= c.size {
      SlotTestExactly(c.size, n, slot, c.End());
    }
  }

  /** The test of a slot that lies at least 24 bytes behind the start of the payload. */
  lemma {:induction false} SlotTestExactly(size: nat, n: nat, slot: nat, end: nat)
    requires n <= size < USED && HEADER + size <= end < WORD_LIMIT
    requires end - size + MIN_SEGMENT <= slot < end - size + MIN_SEGMENT + USED
    requires end - size + MIN_SEGMENT <= WORD_LIMIT ==> slot <= WORD_LIMIT
    ensures var w := slot % WORD_LIMIT;
            var passes, right := w < end && (w + n) % WORD_LIMIT <= end, slot < end && slot + n <= end;
            var wraps := slot >= WORD_LIMIT || (slot < end && slot + n >= WORD_LIMIT);
            && (passes == right <==> !wraps)
            && (wraps ==> passes && !right)
            && (right ==> w == slot)
  {
    if slot >= WORD_LIMIT {
      Wrapped(slot);
      SmallModulus(slot - WORD_LIMIT + n);
    } else {
      SmallModulus(slot);
      if slot + n >= WORD_LIMIT {
        Wrapped(slot + n);
      } else {
        SmallModulus(slot + n);
      }
    }
  }

  lemma {:induction false} SmallModulus(x: nat)
    requires x < WORD_LIMIT
    ensures x % WORD_LIMIT == x
  {
  }

  lemma {:induction false} Wrapped(x: nat)
    requires WORD_LIMIT <= x < 2 * WORD_LIMIT
    ensures x % WORD_LIMIT == x - WORD_LIMIT
  {
  }

  lemma {:induction false} WordMultiple(k: nat)
    requires k < 64
    ensures WORD_LIMIT % Bits.Pow2(k) == 0 && 0 < Bits.Pow2(k) <= USED
  {
    hide Bits.Pow2;
    WordPowers();
    Bits.LargePowers();
    Bits.Pow2Monotone(k, 63);
    Bits.Pow2Sum(64 - k, k);
    assert WORD_LIMIT == Bits.Pow2(64 - k) * Bits.Pow2(k) + 0;
    Bits.DivModUnique(WORD_LIMIT, Bits.Pow2(k), Bits.Pow2(64 - k), 0);
  }

  lemma {:induction false} MultiplesApart(a: nat, b: nat, m: nat)
    requires m > 0 && a % m == 0 && b % m == 0 && a < b + m
    ensures a <= b
  {
    var d := a / m - b / m;
    assert a == a / m * m && b == b / m * m;
    assert d * m == a - b;
    Bits.MulSign(d, m);
    Bits.MulSign(-d, m);
  }

  function WordFitsFor(n: nat, k: nat): Chunk -> bool { (c: Chunk) => WordFitsAligned(c, n, k) }

  /** The first chunk from the cursor that passes the code's test, if one does, is not misjudged. */
  ghost predicate FirstIsRight(h: Heap, n: nat, k: nat) {
    h.chunks != [] ==>
      var s := StartIndex(h);
      var p := Search(h.chunks, s, 0, WordFitsFor(n, k));
      p < |h.chunks| ==> !Misjudged(h.chunks[HeapSpec.At(s, p, |h.chunks|)], n, k)
  }

  /** And exactly then the search finds the chunk that it should. */
  lemma {:induction false} SearchesAgreeExactly(h: Heap, start: nat, end: nat, n: nat, k: nat)
    requires Tiles(h.chunks, start, end) && Small(start, end) && k < 64
    ensures var s := StartIndex(h);
            Search(h.chunks, s, 0, WordFitsFor(n, k)) == Search(h.chunks, s, 0, FitsAlignedFor(n, k))
            <==> FirstIsRight(h, n, k)
  {
    hide WordFitsAligned, FitsAligned, Misjudged;
    var cs, s := h.chunks, StartIndex(h);
    forall j | 0 <= j < |cs|
      ensures WordFitsAligned(cs[j], n, k) == FitsAligned(cs[j], n, k) <==> !Misjudged(cs[j], n, k)
      ensures Misjudged(cs[j], n, k) ==> WordFitsAligned(cs[j], n, k) && !FitsAligned(cs[j], n, k)
    {
      ChunkIsSmall(cs, start, end, j);
      WordFitsExactly(cs[j], n, k);
    }
  }

  /** In a heap that ends far enough below the top no chunk is misjudged. */
  lemma {:induction false} NeverMisjudgedBelow(cs: seq<Chunk>, start: nat, end: nat, i: nat, n: nat, k: nat)
    requires Tiles(cs, start, end) && i < |cs|
    requires end + n < WORD_LIMIT && end + MIN_SEGMENT + Bits.Pow2(k) <= WORD_LIMIT
    ensures !Misjudged(cs[i], n, k)
  {
    hide AlignUp, StartsAligned, Bits.Pow2;
    Within(cs, start, end, i);
    AlignUpIs(cs[i].Payload() + MIN_SEGMENT, k);
  }

  /** At the top it happens. A heap set up on the 48 bytes from 2^64 - 64 has one free chunk, which
      does not hold 8 bytes at a multiple of 64; the code takes it for a block at address 0. */
  lemma {:induction false} MisjudgedAtTheTop(h: Heap)
    requires var start, end := WORD_LIMIT - 64, WORD_LIMIT - 16;
             h == Heap([Chunk(start, end - start - HEADER, false)], 0)
    ensures Inv(h, WORD_LIMIT - 64, WORD_LIMIT - 16) && Small(WORD_LIMIT - 64, WORD_LIMIT - 16)
    ensures HeapSpec.Memalign(h, 8, 6) == (h, 0) && !FirstIsRight(h, 8, 6)
    ensures WordFitsAligned(h.chunks[0], 8, 6) && Slot(h.chunks[0], 6) % WORD_LIMIT == 0
  {
    hide AlignUp;
    var c := h.chunks[0];
    assert Bits.Pow2(6) == 64;
    WordMultiple(6);
    AlignUpIs(c.Payload(), 6);
    AlignUpIs(c.Payload() + MIN_SEGMENT, 6);
    MultiplesApart(Slot(c, 6), WORD_LIMIT, 64);
    WordFitsExactly(c, 8, 6);
    SearchFails(h.chunks, 0, FitsAlignedFor(8, 6));
  }

  /** Whether a chunk can hold n bytes at a multiple of 2^k: at its start, or past a header and 8
      bytes of its own. */
  method ExamineChunk(chunk: nat, word: nat, n: nat, k: nat, ghost c: Chunk)
      returns (found: bool, aligned: bool, alignedStart: nat, end: nat)
    requires chunk == c.addr && (InUse(word) <==> c.used) && (!c.used ==> word == c.size)
    requires c.End() < WORD_LIMIT && k < 64
    ensures found == WordFitsAligned(c, n, k) && (aligned ==> found)
    ensures found ==> end == c.End() && (aligned <==> StartsAligned(c, k))
    ensures found && !aligned ==> alignedStart == Slot(c, k) % WORD_LIMIT
  {
    hide AlignUp, InUse;
    found, aligned, alignedStart, end := false, false, 0, 0;
    if InUse(word) || word < n {
      return;
    }
    var start := chunk + HEADER;
    end := chunk + HEADER + word;
    StartTest(start, k);
    alignedStart := AlignUpWord(start, k);
    if start == alignedStart {
      found, aligned := true, true;
      return;
    }
    alignedStart := AlignUpWord((start + MIN_SEGMENT) % WORD_LIMIT, k);
    SlotTest(start + MIN_SEGMENT, k);
    if alignedStart >= end {
      return;
    }
    if (alignedStart + n) % WORD_LIMIT > end {
      return;
    }
    found := true;
  }

  /** What a search from the cursor finds: the first chunk that fits, or nothing. */
  ghost predicate IsFound(h: Heap, fits: Chunk -> bool, chunk: nat, i: nat)
    requires h.chunks != []
  {
    var k := StartIndex(h);
    var p := Search(h.chunks, k, 0, fits);
    if p == |h.chunks| then chunk == 0 && i == |h.chunks|
    else i == HeapSpec.At(k, p, |h.chunks|) && chunk == h.chunks[i].addr && chunk != 0
  }

  lemma {:induction false} NothingFound(h: Heap, fits: Chunk -> bool, chunk: nat, i: nat)
    requires h.chunks != [] && IsFound(h, fits, chunk, i)
    ensures chunk == 0 <==> forall j :: 0 <= j < |h.chunks| ==> !fits(h.chunks[j])
  {
    SearchFails(h.chunks, StartIndex(h), fits);
  }

  /** What an operation reads in the header of chunk i. */
  lemma {:induction false} ReadHeader(mem: map<nat, nat>, cs: seq<Chunk>, start: nat, end: nat, i: nat)
    requires Tiles(cs, start, end) && Small(start, end) && Represents(mem, cs) && i < |cs|
    ensures Word(mem, cs[i].addr) == NextAddr(cs, i)
    ensures NextAddr(cs, i) == 0 <==> i + 1 == |cs|
    ensures var word := Word(mem, cs[i].addr + SIZE_OFFSET);
            && (InUse(word) <==> cs[i].used)
            && ClearUsed(word) == cs[i].size
            && (!cs[i].used ==> word == cs[i].size)
  {
    ChunkIsSmall(cs, start, end, i);
    assert HeaderAt(mem, cs, i);
  }

  lemma {:induction false} RetagTiles(cs: seq<Chunk>, start: nat, end: nat, i: nat, used: bool)
    requires Tiles(cs, start, end) && i < |cs|
    ensures Tiles(cs[i := cs[i].(used := used)], start, end)
  {
    assert forall j :: 0 <= j < |cs| - 1 ==> cs[j].End() == cs[j + 1].addr;
  }

  /** The list with chunk i trimmed to n bytes, not yet marked. */
  ghost function Trimmed(cs: seq<Chunk>, i: nat, n: nat): seq<Chunk>
    requires i < |cs| && n <= cs[i].size
  {
    var c := cs[i];
    if c.size >= n + MIN_SEGMENT
    then Cut(cs, i, Chunk(c.addr, n, false), Chunk(c.addr + HEADER + n, c.size - n - HEADER, false))
    else cs
  }

  lemma {:induction false} TakeIsTrim(cs: seq<Chunk>, i: nat, n: nat)
    requires i < |cs| && Fits(cs[i], n)
    ensures var t := Trimmed(cs, i, n);
            && i < |t| && t[i].addr == cs[i].addr && !t[i].used
            && Take(cs, i, n) == t[i := t[i].(used := true)]
  {
  }

  /** Only the header of a chunk and, when it is trimmed to n bytes, the header after those have
      changed. */
  ghost predicate OnlyTaken(mem: map<nat, nat>, mem': map<nat, nat>, c: Chunk, n: nat) {
    var rest := c.addr + HEADER + n;
    forall a :: (a != c.addr && a != c.addr + SIZE_OFFSET
                 && (c.size >= n + MIN_SEGMENT ==> a != rest && a != rest + SIZE_OFFSET))
                ==> Word(mem', a) == Word(mem, a)
  }

  lemma {:induction false} SizesAligned(cs: seq<Chunk>, start: nat, end: nat, i: nat)
    requires Tiles(cs, start, end) && i < |cs|
    ensures cs[i].size % MIN_ALLOCATION == 0
  {
  }

  lemma {:induction false} CutTiles(cs: seq<Chunk>, start: nat, end: nat, i: nat, c: Chunk, d: Chunk)
    requires Tiles(cs, start, end) && i < |cs| && c.addr == cs[i].addr && c.End() == d.addr && d.End() == cs[i].End()
    requires c.size % MIN_ALLOCATION == 0 && d.size % MIN_ALLOCATION == 0
    ensures Tiles(Cut(cs, i, c, d), start, end)
  {
    var t := Cut(cs, i, c, d);
    assert forall j :: 0 <= j < i ==> t[j] == cs[j];
    assert forall j :: i + 2 <= j < |t| ==> t[j] == cs[j - 1];
    forall j | 0 <= j < |t| - 1
      ensures t[j].End() == t[j + 1].addr
    {
      if j < i {
        assert cs[j].End() == cs[j + 1].addr;
      } else if j > i {
        assert cs[j - 1].End() == cs[(j - 1) + 1].addr;
      }
    }
  }

  /** Taking a chunk writes its header and, when it is trimmed, a header inside its free payload. */
  lemma {:induction false} TakenPayloads(mem: map<nat, nat>, mem': map<nat, nat>, cs: seq<Chunk>, start: nat,
      end: nat, i: nat, n: nat)
    requires Tiles(cs, start, end) && i < |cs| && Fits(cs[i], n)
    requires OnlyTaken(mem, mem', cs[i], n)
    ensures PayloadsKept(mem, mem', cs)
  {
    OthersOutside(cs, start, end, i);
  }

  lemma {:induction false} DistinctAddresses(cs: seq<Chunk>, start: nat, end: nat, i: nat)
    requires Tiles(cs, start, end) && i < |cs|
    ensures cs[i].addr > 0 && forall j :: 0 <= j < i ==> 0 < cs[j].addr < cs[i].addr
  {
    Within(cs, start, end, i);
    forall j | 0 <= j < i
      ensures 0 < cs[j].addr < cs[i].addr
    {
      Within(cs, start, end, j);
      Ascending(cs, start, end, j, i);
    }
  }

  /** Rounding up, in 64-bit arithmetic. */
  function AlignUpWord(x: nat, k: nat): nat {
    (Bits.ShiftLeft(Bits.ShiftRight((x + WORD_LIMIT - 1) % WORD_LIMIT, k), k) + Bits.Pow2(k)) % WORD_LIMIT
  }

  /** A wrapped address never looks aligned. */
  lemma {:induction false} StartTest(x: nat, k: nat)
    requires 0 < x < WORD_LIMIT && k < 64
    ensures x == AlignUpWord(x, k) <==> x == AlignUp(x, k)
  {
    hide Bits.ShiftLeft, Bits.ShiftRight, Bits.Pow2;
    AlignUpIs(x, k);
    WordMultiple(k);
    LessOne(x);
    if AlignUp(x, k) >= WORD_LIMIT {
      MultiplesApart(AlignUp(x, k), WORD_LIMIT, Bits.Pow2(k));
    }
  }

  lemma {:induction false} LessOne(x: nat)
    ensures 0 < x <= WORD_LIMIT ==> (x % WORD_LIMIT + WORD_LIMIT - 1) % WORD_LIMIT == x - 1
    ensures WORD_LIMIT < x < 2 * WORD_LIMIT ==>
              (x % WORD_LIMIT + WORD_LIMIT - 1) % WORD_LIMIT == x - 1 - WORD_LIMIT
  {
  }

  /** Rounding up a sum that may have wrapped is rounding up the sum, wrapped. */
  lemma {:induction false} SlotTest(x: nat, k: nat)
    requires 0 < x < WORD_LIMIT + USED && k < 64
    ensures AlignUpWord(x % WORD_LIMIT, k) == AlignUp(x, k) % WORD_LIMIT
  {
    hide Bits.ShiftLeft, Bits.ShiftRight, Bits.Pow2;
    LessOne(x);
    if x > WORD_LIMIT {
      var y := x - WORD_LIMIT;
      AlignUpShift(y, k);
      assert AlignUp(x, k) == AlignUp(y, k) + WORD_LIMIT;
      AlignUpIs(y, k);
      WordMultiple(k);
      Wrapped(AlignUp(x, k));
    }
  }

  lemma {:induction false} AlignUpShift(y: nat, k: nat)
    requires y > 0 && k < 64
    ensures AlignUp(y + WORD_LIMIT, k) == AlignUp(y, k) + WORD_LIMIT
  {
    hide AlignUp, Bits.Pow2;
    var a, b := AlignUp(y + WORD_LIMIT, k), AlignUp(y, k) + WORD_LIMIT;
    AlignUpIs(y + WORD_LIMIT, k);
    AlignUpIs(y, k);
    WordMultiple(k);
    SumOfMultiples(AlignUp(y, k), WORD_LIMIT, Bits.Pow2(k));
    MultiplesApart(a, b, Bits.Pow2(k));
    MultiplesApart(b, a, Bits.Pow2(k));
  }

  lemma {:induction false} SumOfMultiples(a: nat, b: nat, m: nat)
    requires m > 0 && a % m == 0 && b % m == 0
    ensures (a + b) % m == 0
  {
    assert a + b == (a / m + b / m) * m + 0;
    Bits.DivModUnique(a + b, m, a / m + b / m, 0);
  }

  lemma {:induction false} WordPowers()
    ensures Bits.Pow2(63) == USED && 2 * Bits.Pow2(62) == USED
  {
    assert Bits.Pow2(7) == 0x80;
    Bits.Pow2Sum(7, 7);
    Bits.Pow2Sum(14, 7);
    Bits.Pow2Sum(21, 21);
    Bits.Pow2Sum(42, 21);
  }

  lemma {:induction false} ExponentRange(alignment: nat)
    requires MIN_ALLOCATION < alignment < WORD_LIMIT && PowerOfTwo(alignment)
    ensures 3 < CountTrailingZeros(alignment) < 64
  {
    var k := CountTrailingZeros(alignment);
    PowerOfTwoIs(alignment);
    EightIs();
    WordPowers();
    assert Bits.Pow2(64) == 2 * Bits.Pow2(63);
    if k <= 3 {
      Bits.Pow2Monotone(k, 3);
    }
    if k >= 64 {
      Bits.Pow2Monotone(64, k);
    }
  }

  lemma {:induction false} SlotFits(c: Chunk, n: nat, k: nat)
    requires FitsAligned(c, n, k) && !StartsAligned(c, k) && k >= 3
    ensures c.Payload() + MIN_SEGMENT <= Slot(c, k) <= c.End() && Slot(c, k) % MIN_ALLOCATION == 0
    ensures n <= c.End() - Slot(c, k)
  {
    hide AlignUp;
    AlignUpIs(c.Payload() + MIN_SEGMENT, k);
    MultipleOf8(Slot(c, k), k);
  }

  /** Splitting and taking writes headers of the chosen chunk and inside its free payload only. */
  lemma {:induction false} SplitPayloads(mem: map<nat, nat>, mem1: map<nat, nat>, mem2: map<nat, nat>, cs: seq<Chunk>,
                      start: nat, end: nat, i: nat, second: Chunk, n: nat)
    requires Tiles(cs, start, end) && i < |cs| && !cs[i].used
    requires cs[i].Payload() + MIN_SEGMENT <= second.Payload() && second.End() == cs[i].End() && n <= second.size
    requires forall a :: (a != cs[i].addr && a != cs[i].addr + SIZE_OFFSET
                          && a != second.addr && a != second.addr + SIZE_OFFSET) ==> Word(mem1, a) == Word(mem, a)
    requires OnlyTaken(mem1, mem2, second, n)
    ensures PayloadsKept(mem, mem2, cs)
  {
    OthersOutside(cs, start, end, i);
  }

  /** The lists between the steps of a release: freed, joined with the next, joined with the previous. */
  lemma {:induction false} ReleaseSteps(cs: seq<Chunk>, i: nat)
    requires i < |cs|
    ensures var freed := cs[i := cs[i].(used := false)];
            var one := if i + 1 < |cs| && !cs[i + 1].used then Joined(freed, i) else freed;
            && i < |one| && one[i].addr == cs[i].addr && !one[i].used
            && (i > 0 ==> one[i - 1] == cs[i - 1])
            && (i > 0 && !cs[i - 1].used ==> i - 1 < |Joined(one, i - 1)|
                                             && Joined(one, i - 1)[i - 1].addr == cs[i - 1].addr)
    ensures Release(cs, i).1 == if i > 0 && !cs[i - 1].used then i - 1 else i
  {
  }

  lemma {:induction false} CursorIsSet(h: Heap, start: nat, end: nat, i: nat)
    requires Inv(h, start, end) && i < |h.chunks| && h.chunks[i].used
    ensures h.cursor != 0 && h.chunks[i].addr != 0
  {
    var j :| 0 <= j < |h.chunks| && h.chunks[j].used && h.chunks[j].addr == h.cursor;
    Within(h.chunks, start, end, j);
    Within(h.chunks, start, end, i);
  }

  /** A release writes the header of the chunk and of the free chunk before it. */
  lemma {:induction false} ReleasedPayloads(mem: map<nat, nat>, mem': map<nat, nat>, cs: seq<Chunk>, start: nat,
      end: nat, i: nat)
    requires Tiles(cs, start, end) && i < |cs|
    requires var previous := if i > 0 && !cs[i - 1].used then cs[i - 1].addr else cs[i].addr;
             forall a :: (a != cs[i].addr && a != cs[i].addr + SIZE_OFFSET
                          && a != previous && a != previous + SIZE_OFFSET) ==> Word(mem', a) == Word(mem, a)
    ensures PayloadsKept(mem, mem', cs)
  {
    OthersOutside(cs, start, end, i);
    if i > 0 {
      OthersOutside(cs, start, end, i - 1);
    }
  }
}
