// The repository's own client of the allocator.
module MmTest {
  import opened Words
  import opened Blocks
  import opened BoundaryTags
  import opened Sizes
  import opened HeapSpec
  import opened HeapRuns
  import A = Allocator

  // A heap of allocated blocks and n free bytes behind them.
  predicate FreeBehind(bs: seq<Block>, front: seq<Block>, n: nat) {
    bs == front + [Block(n, false)] && forall b | b in front :: b.alloc
  }

  // A request that leaves room for a smallest block comes out of the free bytes.
  lemma FromTheEnd(h: Heap, limit: nat, size: word, p: nat, h': Heap, front: seq<Block>, n: nat)
    requires WellFormed(h.blocks) && FreeBehind(h.blocks, front, n) && 1 <= size <= 4080
    requires AdjustedSize(size) + MIN_BLOCK <= n && Admissible(h, limit, size) && MallocStep(h, limit, size, p, h')
    ensures p == FIRST + Total(front) && p != NULL
    ensures FreeBehind(h'.blocks, front + [Block(AdjustedSize(size), true)], n - AdjustedSize(size))
  {
    hide Live, Total, WellFormed, Admissible, AdjustedSize, Extend, FreeBehind, PlaceAt;
    PlacedBehind(h.blocks, front, n, AdjustedSize(size));
  }

  lemma PlacedBehind(bs: seq<Block>, front: seq<Block>, n: nat, asize: nat)
    requires FreeBehind(bs, front, n) && asize + MIN_BLOCK <= n
    ensures FirstFit(bs, asize) == |front| < |bs| && bs[..|front|] == front
    ensures FreeBehind(PlaceAt(bs, |front|, asize), front + [Block(asize, true)], n - asize)
  {
    hide FirstFit;
    assert bs[|front|] == Block(n, false);
    assert forall j | 0 <= j < |front| :: bs[j] == front[j] && front[j] in front;
    assert bs[..|front|] == front && bs[|front| + 1..] == [];
  }

  lemma TotalNext(front: seq<Block>, b: Block)
    ensures Total(front + [b]) == Total(front) + b.size
  {
    TotalConcat(front, [b]);
    OneTotal([b]);
  }

  lemma SmallRequest(h: Heap, limit: nat, size: word)
    requires 1 <= size <= 4080
    ensures Admissible(h, limit, size)
  {
    RoundUpIsLeast(size + 16, 4096);
    hide RoundUp;
    assert RoundUp(size + 16, 4096) < INT_RANGE / 2;
  }

  lemma LivePointers(a: A.Allocator)
    requires a.Valid()
    ensures A.InArena(a.requested, a.arena.bytes.Length)
    ensures Inv(a.Abs(), a.arena.limit) && a.Abs().data.Keys == a.requested.Keys
    ensures forall q | q in a.requested :: a.requested[q] >= 1
  {
    A.DataCovered(a.Abs(), a.arena.limit, a.arena.bytes[..], a.requested);
  }

  lemma Initialised(a: A.Allocator)
    requires a.Valid() && a.heapListp != NULL
    ensures A.InArena(a.requested, a.arena.bytes.Length)
    ensures a.Abs().blocks != [] && Booted(a.Abs()) == a.Abs() && WellFormed(a.Abs().blocks)
  {
    A.BootedState(a.Abs(), a.arena.limit);
  }

  lemma RunNext(limit: nat, hs: seq<Heap>, calls: seq<Call>, call: Call, h': Heap) returns (now: seq<Heap>)
    requires IsRun(limit, hs, calls) && Next(hs[|calls|], limit, call, h')
    ensures IsRun(limit, now, calls + [call]) && now[|calls| + 1] == h' && now[0] == hs[0]
  {
    now := hs + [h'];
    RunGrows(limit, hs, calls, call, h');
  }

  // A malloc out of the free end of an initialised heap, as the next call of a run.
  method Allocate(a: A.Allocator, size: word, ghost front: seq<Block>, ghost n: nat, ghost hs: seq<Heap>, ghost calls: seq<Call>)
    returns (p: nat, ghost now: seq<Heap>)
    requires a.Valid() && a.heapListp != NULL && 1 <= size <= 4080
    requires FreeBehind(a.blocks, front, n) && AdjustedSize(size) + MIN_BLOCK <= n
    requires IsRun(a.arena.limit, hs, calls) && hs[|calls|] == a.Abs()
    modifies a, a.arena, a.arena.bytes
    ensures a.Valid() && a.heapListp != NULL && a.arena.bytes == old(a.arena.bytes)
    ensures p == FIRST + Total(front) && a.requested.Keys == old(a.requested.Keys) + {p} && p !in old(a.requested)
    ensures FreeBehind(a.blocks, front + [Block(AdjustedSize(size), true)], n - AdjustedSize(size))
    ensures Total(a.blocks) == old(Total(a.blocks))
    ensures IsRun(a.arena.limit, now, calls + [Call(Op.Malloc(size), p)]) && now[|calls| + 1] == a.Abs() && now[0] == hs[0]
  {
    hide MallocStep, Inv, Live, Total, Admissible, FreeBehind, Booted, WellFormed, AdjustedSize, Exhausted, IsRun, A.Allocator.HeapOk;
    LivePointers(a);
    Initialised(a);
    ghost var h := a.Abs();
    SmallRequest(h, a.arena.limit, size);
    var exited;
    p, exited := a.Malloc(size);
    LivePointers(a);
    FromTheEnd(h, a.arena.limit, size, p, a.Abs(), front, n);
    TotalKept(h.blocks, a.blocks, front, n, AdjustedSize(size));
    MallocData(h, a.arena.limit, size, p, a.Abs());
    now := RunNext(a.arena.limit, hs, calls, Call(Op.Malloc(size), p), a.Abs());
  }

  lemma TotalKept(bs: seq<Block>, bs': seq<Block>, front: seq<Block>, n: nat, asize: nat)
    requires asize <= n && FreeBehind(bs, front, n) && FreeBehind(bs', front + [Block(asize, true)], n - asize)
    ensures Total(bs') == Total(bs)
  {
    hide Total;
    TotalNext(front, Block(n, false));
    TotalNext(front, Block(asize, true));
    TotalNext(front + [Block(asize, true)], Block(n - asize, false));
  }

  lemma Released(h: Heap, limit: nat, p: nat, h': Heap)
    requires Inv(h, limit) && p != NULL && p in h.data
    requires p in Live(h.blocks, FIRST) && FreeStep(h, p, h')
    ensures h'.data.Keys == h.data.Keys - {p} && Total(h'.blocks) == Total(h.blocks)
    ensures Next(h, limit, Call(Op.Free(p), NULL), h')
  {
    FreeFacts(h, p, h');
  }

  method Release(a: A.Allocator, p: nat, ghost hs: seq<Heap>, ghost calls: seq<Call>) returns (ghost now: seq<Heap>)
    requires a.Valid() && a.heapListp != NULL && p != NULL && p in a.requested
    requires IsRun(a.arena.limit, hs, calls) && hs[|calls|] == a.Abs()
    modifies a`blocks, a`requested, a.arena.bytes
    ensures a.Valid()
    ensures a.requested.Keys == old(a.requested.Keys) - {p} && Total(a.blocks) == old(Total(a.blocks))
    ensures IsRun(a.arena.limit, now, calls + [Call(Op.Free(p), NULL)]) && now[|calls| + 1] == a.Abs() && now[0] == hs[0]
  {
    hide Inv, Live, Total, FreeStep, IsRun, WellFormed, A.Allocator.HeapOk, Next;
    LivePointers(a);
    ghost var h := a.Abs();
    a.Free(p);
    LivePointers(a);
    Released(h, a.arena.limit, p, a.Abs());
    now := RunNext(a.arena.limit, hs, calls, Call(Op.Free(p), NULL), a.Abs());
  }

  lemma OneFreePage(a: A.Allocator)
    requires a.Valid() && a.heapListp != NULL && a.requested.Keys == {} && Total(a.blocks) == CHUNKSIZE
    ensures a.blocks == [Block(CHUNKSIZE, false)]
  {
    LivePointers(a);
    Initialised(a);
    NothingLive(a.Abs(), a.arena.limit);
  }

  // What mm_init leaves.
  lemma FirstPage(a: A.Allocator) returns (hs: seq<Heap>)
    requires a.Valid() && a.Abs() == INITIAL
    ensures Total(a.blocks) == 4096 && FreeBehind(a.blocks, [], 4096) && Total([]) == 0
    ensures CHUNKSIZE == 4096 && MIN_BLOCK == 32
    ensures hs == [a.Abs()] && IsRun(a.arena.limit, hs, [])
  {
    hs := [a.Abs()];
    var bs := INITIAL.blocks;
    assert a.blocks == bs && bs[1..] == [];
  }

  lemma TestSizes()
    ensures AdjustedSize(8) == 32 && AdjustedSize(1024) == 1040 && AdjustedSize(32) == 48 && AdjustedSize(100) == 128
  {
  }

  // The calls main makes behind mm_init, with what they return.
  const CALLS: seq<Call> := [
    Call(Op.Malloc(8), 32), Call(Op.Malloc(1024), 64), Call(Op.Malloc(32), 1104), Call(Op.Malloc(100), 1152),
    Call(Op.Write(64, 0, 65), NULL), Call(Op.Write(32, 0, 65), NULL),
    Call(Op.Free(32), NULL), Call(Op.Free(64), NULL), Call(Op.Free(1104), NULL), Call(Op.Free(1152), NULL)]

  // main of mm-test.c: four allocations out of the first page, two stores, four
  // releases. It succeeds on every arena that can be initialised, always with the
  // same pointers, and leaves the heap as initialisation did.
  method RunTest(limit: word) returns (a: A.Allocator, ok: bool, ghost hs: seq<Heap>)
    ensures ok <==> FIRST + CHUNKSIZE <= limit
    ensures ok ==> a.Valid() && a.heapListp != NULL && a.requested == map[] && a.blocks == [Block(CHUNKSIZE, false)]
    ensures ok ==> IsRun(limit, hs, CALLS) && hs[0] == INITIAL && hs[|CALLS|] == a.Abs()
  {
    hide IsRun, FreeBehind, Total, AdjustedSize, A.Allocator.Valid, A.Allocator.Abs;
    hs := [];
    a := new A.Allocator(limit);
    ok := a.Init();
    if !ok {
      return;
    }
    hs := FirstPage(a);
    var p, q, bp, ptr;
    p, q, bp, ptr, hs := AllocateAll(a, hs);
    if p == NULL || q == NULL {
      assert false;
    }
    hs := StoreLetters(a, p, q, hs);
    hs := ReleaseAll(a, p, q, bp, ptr, hs);
  }

  method AllocateAll(a: A.Allocator, ghost start: seq<Heap>) returns (p: nat, q: nat, bp: nat, ptr: nat, ghost hs: seq<Heap>)
    requires a.Valid() && a.heapListp != NULL && a.requested.Keys == {} && FreeBehind(a.blocks, [], 4096)
    requires start == [a.Abs()] && IsRun(a.arena.limit, start, [])
    modifies a, a.arena, a.arena.bytes
    ensures a.Valid() && a.heapListp != NULL && a.arena.bytes == old(a.arena.bytes)
    ensures p == 32 && q == 64 && bp == 1104 && ptr == 1152 && a.requested.Keys == {p, q, bp, ptr}
    ensures Total(a.blocks) == old(Total(a.blocks))
    ensures IsRun(a.arena.limit, hs, CALLS[..4]) && hs[0] == start[0] && hs[4] == a.Abs()
  {
    hide IsRun, FreeBehind, Total, AdjustedSize, A.Allocator.Valid, A.Allocator.Abs;
    TestSizes();
    EmptyFacts(FIRST);
    ghost var x, y, z := [] + [Block(32, true)], [] + [Block(32, true)] + [Block(1040, true)], [] + [Block(32, true)] + [Block(1040, true)] + [Block(48, true)];
    TotalNext([], Block(32, true));
    TotalNext(x, Block(1040, true));
    TotalNext(y, Block(48, true));
    p, hs := Allocate(a, 8, [], 4096, start, []);
    q, hs := Allocate(a, 1024, x, 4064, hs, [] + [CALLS[0]]);
    bp, hs := Allocate(a, 32, y, 3024, hs, [] + [CALLS[0]] + [CALLS[1]]);
    ptr, hs := Allocate(a, 100, z, 2976, hs, [] + [CALLS[0]] + [CALLS[1]] + [CALLS[2]]);
    assert CALLS[..4] == [] + [CALLS[0]] + [CALLS[1]] + [CALLS[2]] + [CALLS[3]];
  }

  // *p = *q = 'A', as one more call of a run.
  method StoreLetter(a: A.Allocator, p: nat, ghost hs: seq<Heap>, ghost calls: seq<Call>) returns (ghost now: seq<Heap>)
    requires a.Valid() && a.heapListp != NULL && p in a.requested
    requires IsRun(a.arena.limit, hs, calls) && hs[|calls|] == a.Abs()
    modifies a.arena.bytes
    ensures a.Valid()
    ensures IsRun(a.arena.limit, now, calls + [Call(Op.Write(p, 0, 65), NULL)]) && now[|calls| + 1] == a.Abs() && now[0] == hs[0]
  {
    hide Inv, Live, Total, WriteStep, IsRun;
    LivePointers(a);
    ghost var h := a.Abs();
    a.Store(p, 0, 65);
    now := RunNext(a.arena.limit, hs, calls, Call(Op.Write(p, 0, 65), NULL), a.Abs());
  }

  method StoreLetters(a: A.Allocator, p: nat, q: nat, ghost before: seq<Heap>) returns (ghost hs: seq<Heap>)
    requires a.Valid() && a.heapListp != NULL && p == 32 && q == 64 && p in a.requested && q in a.requested
    requires IsRun(a.arena.limit, before, CALLS[..4]) && before[4] == a.Abs()
    modifies a.arena.bytes
    ensures a.Valid()
    ensures IsRun(a.arena.limit, hs, CALLS[..6]) && hs[0] == before[0] && hs[6] == a.Abs()
  {
    hide IsRun, FreeBehind, Total, AdjustedSize, A.Allocator.Valid, A.Allocator.Abs;
    RunLength(a.arena.limit, before, CALLS[..4]);
    hs := StoreLetter(a, q, before, CALLS[..4]);
    hs := StoreLetter(a, p, hs, CALLS[..4] + [CALLS[4]]);
    assert CALLS[..6] == CALLS[..4] + [CALLS[4]] + [CALLS[5]];
  }

  lemma RunLength(limit: nat, hs: seq<Heap>, calls: seq<Call>)
    requires IsRun(limit, hs, calls)
    ensures |hs| == |calls| + 1
  {
  }

  method ReleaseAll(a: A.Allocator, p: nat, q: nat, bp: nat, ptr: nat, ghost before: seq<Heap>) returns (ghost hs: seq<Heap>)
    requires a.Valid() && a.heapListp != NULL && a.requested.Keys == {p, q, bp, ptr} && Total(a.blocks) == CHUNKSIZE
    requires p == 32 && q == 64 && bp == 1104 && ptr == 1152
    requires IsRun(a.arena.limit, before, CALLS[..6]) && before[6] == a.Abs()
    modifies a`blocks, a`requested, a.arena.bytes
    ensures a.Valid() && a.requested == map[] && a.blocks == [Block(CHUNKSIZE, false)]
    ensures IsRun(a.arena.limit, hs, CALLS) && hs[0] == before[0] && hs[|CALLS|] == a.Abs()
  {
    hide IsRun, FreeBehind, Total, AdjustedSize, A.Allocator.Valid, A.Allocator.Abs;
    RunLength(a.arena.limit, before, CALLS[..6]);
    hs := Release(a, p, before, CALLS[..6]);
    hs := Release(a, q, hs, CALLS[..6] + [CALLS[6]]);
    hs := Release(a, bp, hs, CALLS[..6] + [CALLS[6]] + [CALLS[7]]);
    hs := Release(a, ptr, hs, CALLS[..6] + [CALLS[6]] + [CALLS[7]] + [CALLS[8]]);
    assert CALLS == CALLS[..6] + [CALLS[6]] + [CALLS[7]] + [CALLS[8]] + [CALLS[9]];
    OneFreePage(a);
    assert a.requested == map[];
  }
}
