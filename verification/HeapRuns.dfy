// What every call and every run of calls keeps.
module HeapRuns {
  import opened Words
  import opened Blocks
  import opened BoundaryTags
  import opened Sizes
  import opened HeapSpec

  // ----- one call

  lemma MallocFacts(h: Heap, limit: nat, size: word, p: nat, h': Heap)
    requires Inv(h, limit) && Admissible(h, limit, size) && MallocStep(h, limit, size, p, h')
    ensures p == NULL <==> size == 0 || Exhausted(h, limit, size)
    ensures p != NULL ==> var live, live' := Live(h.blocks, FIRST), Live(h'.blocks, FIRST);
                          && WellFormed(h'.blocks)
                          && p !in live && p in live' && live' == live[p := live'[p]]
                          && size + 16 <= live'[p] <= size + 47
                          && (forall q | q in live :: q + live[q] <= p || p + live'[p] <= q)
                          && Total(h'.blocks) == Total(h.blocks) + (if Fits(h, size) then 0 else Extend(size))
  {
    hide Live, Total, PlaceAt, Exhausted, Admissible;
    if size > 0 && !Exhausted(h, limit, size) {
      RoomFacts(h, limit, size);
      var (bs, i) := Room(h, size);
      PlaceAtFacts(bs, i, AdjustedSize(size), FIRST);
      NewIsApart(h.blocks, h'.blocks, p);
    }
  }

  // A live map with one more entry: the new block overlaps none of the old ones.
  lemma NewIsApart(bs: seq<Block>, bs': seq<Block>, p: nat)
    requires Sized(bs') && p !in Live(bs, FIRST) && p in Live(bs', FIRST)
    requires Live(bs', FIRST) == Live(bs, FIRST)[p := Live(bs', FIRST)[p]]
    ensures forall q | q in Live(bs, FIRST) :: q + Live(bs, FIRST)[q] <= p || p + Live(bs', FIRST)[p] <= q
  {
    var live, live' := Live(bs, FIRST), Live(bs', FIRST);
    forall q | q in live
      ensures q + live[q] <= p || p + live'[p] <= q
    {
      if q < p {
        LiveApart(bs', FIRST, q, p);
      } else {
        LiveApart(bs', FIRST, p, q);
      }
    }
  }

  lemma MallocData(h: Heap, limit: nat, size: word, p: nat, h': Heap)
    requires WellFormed(h.blocks) && Admissible(h, limit, size) && MallocStep(h, limit, size, p, h')
    ensures p == NULL ==> h' == h
    ensures p != NULL ==> && p !in h.data && p in h'.data && |h'.data[p]| == size && size > 0
                          && h'.data == h.data[p := h'.data[p]]
                          && forall q | q in h.data :: h'.data[q] == h.data[q]
  {
    hide PlaceAt, Room, Admissible, Exhausted;
    if p != NULL {
      forall q | q in h.data
        ensures q in h'.data && h'.data[q] == h.data[q]
      {
        assert q in h'.data - {p};
      }
    }
  }

  lemma MallocExtent(h: Heap, limit: nat, size: word, p: nat, h': Heap)
    requires Inv(h, limit) && h.blocks != [] && Admissible(h, limit, size) && MallocStep(h, limit, size, p, h')
    ensures Total(h.blocks) <= Total(h'.blocks) && FIRST + Total(h'.blocks) <= limit
    ensures Total(h'.blocks) % CHUNKSIZE == 0
  {
    hide Live, Total, PlaceAt, Admissible, MallocStep, Exhausted, Fits, NoFreePair;
    MallocFacts(h, limit, size, p, h');
    MallocData(h, limit, size, p, h');
    if p != NULL {
      ExtendIsPages(size);
      if !Fits(h, size) {
        assert !Refused(h, limit, size) by { Granted(h, limit, size); }
        ExtensionFacts(h, limit, size);
      }
      SumOfPages(Total(h.blocks), Extend(size));
    }
  }

  lemma Granted(h: Heap, limit: nat, size: word)
    requires !Exhausted(h, limit, size) && !Fits(h, size)
    ensures !Refused(h, limit, size)
  {
  }

  lemma SumOfPages(a: nat, b: nat)
    requires a % 4096 == 0 && b % 4096 == 0
    ensures (a + b) % 4096 == 0
  {
    assert (a + b) / 4096 == a / 4096 + b / 4096;
  }

  lemma MallocKeepsInv(h: Heap, limit: nat, size: word, p: nat, h': Heap)
    requires Inv(h, limit) && h.blocks != [] && Admissible(h, limit, size) && MallocStep(h, limit, size, p, h')
    ensures Inv(h', limit)
  {
    MallocFacts(h, limit, size, p, h');
    MallocData(h, limit, size, p, h');
    MallocExtent(h, limit, size, p, h');
    hide Live, Total, Admissible, MallocStep, Exhausted, Fits;
  }

  lemma FreeFacts(h: Heap, p: nat, h': Heap)
    requires WellFormed(h.blocks) && p in Live(h.blocks, FIRST)
    requires p != NULL && FreeStep(h, p, h')
    ensures WellFormed(h'.blocks) && Total(h'.blocks) == Total(h.blocks)
    ensures Live(h'.blocks, FIRST) == Live(h.blocks, FIRST) - {p}
  {
    hide Live, Total;
    IndexOfAddress(h.blocks, FIRST, p);
    FreeAtFacts(h.blocks, IndexOf(h.blocks, FIRST, p), FIRST);
  }

  lemma FreeKeepsInv(h: Heap, limit: nat, p: nat, h': Heap)
    requires Inv(h, limit) && (p == NULL || p in h.data) && FreeStep(h, p, h')
    ensures Inv(h', limit) && Total(h'.blocks) == Total(h.blocks)
  {
    hide Live, Total, FreeStep;
    if p != NULL {
      FreeFacts(h, p, h');
      NonEmpty(h.blocks, p);
      assert h' == Heap(FreeAt(h.blocks, IndexOf(h.blocks, FIRST, p)), h.data - {p}) by { FreeShape(h, p, h'); }
    } else {
      assert h' == h by { NullFree(h, h'); }
    }
  }

  lemma FreeShape(h: Heap, p: nat, h': Heap)
    requires p != NULL && p in Live(h.blocks, FIRST) && FreeStep(h, p, h')
    ensures h' == Heap(FreeAt(h.blocks, IndexOf(h.blocks, FIRST, p)), h.data - {p})
  {
  }

  lemma NullFree(h: Heap, h': Heap)
    requires FreeStep(h, NULL, h')
    ensures h' == h
  {
  }

  lemma NonEmpty(bs: seq<Block>, p: nat)
    requires p in Live(bs, FIRST)
    ensures bs != []
  {
  }

  // A successful realloc: the first min(size, old length) bytes are kept, every
  // other live block keeps its bytes; a failed one changes nothing.
  lemma ReallocKeeps(h: Heap, limit: nat, p: nat, size: word, r: nat, h': Heap)
    requires Inv(h, limit) && h.blocks != [] && Admissible(h, limit, size) && p in h.data && size > 0 && p != NULL
    requires ReallocStep(h, limit, p, size, r, h')
    ensures Inv(h', limit) && Total(h.blocks) <= Total(h'.blocks)
    ensures r == NULL ==> h' == h
    ensures r != NULL ==> && r !in h.data && r in h'.data && p !in h'.data && |h'.data[r]| == size
                          && h'.data[r][..Min(size, |h.data[p]|)] == h.data[p][..Min(size, |h.data[p]|)]
    ensures forall q | q in h.data && q != p :: q in h'.data && h'.data[q] == h.data[q]
                                               && Live(h'.blocks, FIRST)[q] == Live(h.blocks, FIRST)[q]
  {
    var mid :| MoveStep(h, limit, p, size, r, mid, h');
    MallocKeepsInv(h, limit, size, r, mid);
    MallocFacts(h, limit, size, r, mid);
    MallocData(h, limit, size, r, mid);
    MallocExtent(h, limit, size, r, mid);
    hide MallocStep, Live, Total, Admissible, Exhausted, Fits;
    if r != NULL {
      FreeShape(mid, p, h');
      FreeKeepsInv(mid, limit, p, h');
      FreeFacts(mid, p, h');
    }
  }

  // Every call keeps the invariant, and the heap never gets smaller.
  lemma StepKeepsInv(h: Heap, limit: nat, op: Op, r: nat, h': Heap)
    requires Inv(h, limit) && Legal(h, limit, op) && Step(h, limit, op, r, h')
    ensures Inv(h', limit) && Total(h.blocks) <= Total(h'.blocks)
  {
    hide Live, MallocStep, FreeStep, Admissible;
    BootedInv(h, limit);
    match op {
      case Malloc(size) =>
        MallocKeepsInv(Booted(h), limit, size, r, h');
        MallocExtent(Booted(h), limit, size, r, h');
      case Free(p) =>
        FreeKeepsInv(h, limit, p, h');
      case Realloc(p, size) =>
        if size == 0 {
          FreeKeepsInv(h, limit, p, h');
        } else if p == NULL {
          MallocKeepsInv(Booted(h), limit, size, r, h');
          MallocExtent(Booted(h), limit, size, r, h');
        } else {
          ReallocKeeps(Booted(h), limit, p, size, r, h');
        }
      case Write(p, off, v) =>
    }
  }

  datatype Call = Call(op: Op, result: nat)

  // The call takes effect on live pointer p. (A realloc that fails has none.)
  predicate Names(call: Call, p: nat) {
    match call.op
    case Malloc(_) => false
    case Free(q) => q == p
    case Realloc(q, size) => q == p && (size == 0 || call.result != NULL)
    case Write(q, _, _) => q == p
  }

  // p is live in both heaps, in a block of the same size and with the same bytes.
  ghost predicate Untouched(h: Heap, h': Heap, p: nat) {
    && p in h.data && p in h'.data && h'.data[p] == h.data[p]
    && p in Live(h.blocks, FIRST) && p in Live(h'.blocks, FIRST)
    && Live(h'.blocks, FIRST)[p] == Live(h.blocks, FIRST)[p]
  }

  // A call addressed to other pointers, or a failed realloc of p, moves, resizes
  // or changes nothing of p's.
  lemma StepKeepsOthers(h: Heap, limit: nat, op: Op, r: nat, h': Heap, p: nat)
    requires Inv(h, limit) && Legal(h, limit, op) && Step(h, limit, op, r, h')
    requires p in h.data && !Names(Call(op, r), p) && p != NULL
    ensures Untouched(h, h', p)
  {
    BootedInv(h, limit);
    NonEmpty(h.blocks, p);
    match op {
      case Malloc(size) =>
        MallocKeepsOthers(h, limit, size, r, h', p);
      case Free(q) =>
        FreeKeepsOthers(h, q, h', p);
      case Realloc(q, size) =>
        if size == 0 {
          FreeKeepsOthers(h, q, h', p);
        } else if q == NULL {
          MallocKeepsOthers(h, limit, size, r, h', p);
        } else {
          ReallocKeeps(h, limit, q, size, r, h');
        }
      case Write(q, off, v) =>
    }
  }

  lemma MallocKeepsOthers(h: Heap, limit: nat, size: word, r: nat, h': Heap, p: nat)
    requires Inv(h, limit) && Admissible(h, limit, size) && MallocStep(h, limit, size, r, h') && p in h.data
    ensures Untouched(h, h', p)
  {
    MallocFacts(h, limit, size, r, h');
    MallocData(h, limit, size, r, h');
  }

  lemma FreeKeepsOthers(h: Heap, q: nat, h': Heap, p: nat)
    requires WellFormed(h.blocks) && h.data.Keys == Live(h.blocks, FIRST).Keys
    requires (q == NULL || q in h.data) && FreeStep(h, q, h') && p in h.data && q != p
    ensures Untouched(h, h', p)
  {
    if q == NULL {
      NullFree(h, h');
    } else {
      FreeFacts(h, q, h');
      FreeShape(h, q, h');
    }
  }

  // ----- every run

  // The next heap is one the call allows. (Steps speak of heaps that satisfy the
  // invariant; nothing is assumed of any other, and none turns out to be reached.)
  ghost predicate Next(h: Heap, limit: nat, call: Call, h': Heap) {
    Inv(h, limit) ==> Legal(h, limit, call.op) && Step(h, limit, call.op, call.result, h')
  }

  // hs[i] is the heap before calls[i].
  ghost predicate IsRun(limit: nat, hs: seq<Heap>, calls: seq<Call>) {
    && |hs| == |calls| + 1
    && forall i | 0 <= i < |calls| :: Next(hs[i], limit, calls[i], hs[i + 1])
  }

  lemma RunGrows(limit: nat, hs: seq<Heap>, calls: seq<Call>, call: Call, h': Heap)
    requires IsRun(limit, hs, calls) && Next(hs[|calls|], limit, call, h')
    ensures IsRun(limit, hs + [h'], calls + [call])
  {
    hide Next;
    var hs', calls' := hs + [h'], calls + [call];
    forall i | 0 <= i < |calls'|
      ensures Next(hs'[i], limit, calls'[i], hs'[i + 1])
    {
      if i < |calls| {
        assert Next(hs[i], limit, calls[i], hs[i + 1]);
      }
    }
  }

  const UNUSED: Heap := Heap([], map[])

  // Every heap reached from an unused one satisfies the invariant.
  lemma {:induction false} RunKeepsInv(limit: nat, hs: seq<Heap>, calls: seq<Call>, k: nat)
    requires IsRun(limit, hs, calls) && hs[0] == UNUSED && k < |hs|
    ensures Inv(hs[k], limit)
  {
    if k == 0 {
      assert Live([], FIRST) == map[];
    } else {
      RunKeepsInv(limit, hs, calls, k - 1);
      assert Next(hs[k - 1], limit, calls[k - 1], hs[k - 1 + 1]);
      StepKeepsInv(hs[k - 1], limit, calls[k - 1].op, calls[k - 1].result, hs[k]);
    }
  }

  // Over every stretch of a run, live plus free bytes never shrink and are whole pages.
  lemma {:induction false} RunConserves(limit: nat, hs: seq<Heap>, calls: seq<Call>, i: nat, k: nat)
    requires IsRun(limit, hs, calls) && hs[0] == UNUSED && i <= k < |hs|
    ensures SizeOf(hs[i].blocks, true) + SizeOf(hs[i].blocks, false) <= SizeOf(hs[k].blocks, true) + SizeOf(hs[k].blocks, false)
    ensures (SizeOf(hs[k].blocks, true) + SizeOf(hs[k].blocks, false)) % CHUNKSIZE == 0
    ensures hs[k].blocks != [] ==> FIRST + SizeOf(hs[k].blocks, true) + SizeOf(hs[k].blocks, false) <= limit
  {
    RunKeepsInv(limit, hs, calls, k);
    SizesAddUp(hs[k].blocks);
    if i == k {
    } else {
      RunConserves(limit, hs, calls, i, k - 1);
      RunKeepsInv(limit, hs, calls, k - 1);
      SizesAddUp(hs[k - 1].blocks);
      assert Next(hs[k - 1], limit, calls[k - 1], hs[k - 1 + 1]);
      StepKeepsInv(hs[k - 1], limit, calls[k - 1].op, calls[k - 1].result, hs[k]);
    }
  }

  // The bytes in allocated blocks, or in free ones.
  function SizeOf(bs: seq<Block>, alloc: bool): nat {
    if bs == [] then 0
    else (if bs[0].alloc == alloc then bs[0].size else 0) + SizeOf(bs[1..], alloc)
  }

  lemma {:induction false} SizesAddUp(bs: seq<Block>)
    ensures SizeOf(bs, true) + SizeOf(bs, false) == Total(bs)
  {
    if bs != [] {
      SizesAddUp(bs[1..]);
    }
  }

  // A live block keeps its place, its size and its bytes over every stretch of a
  // run in which no call but a failing realloc is addressed to it.
  lemma {:induction false} RunKeepsData(limit: nat, hs: seq<Heap>, calls: seq<Call>, i: nat, k: nat, p: nat)
    requires IsRun(limit, hs, calls) && hs[0] == UNUSED && i <= k < |hs|
    requires p in hs[i].data
    requires forall j | i <= j < k :: !Names(calls[j], p)
    ensures Untouched(hs[i], hs[k], p)
  {
    RunKeepsInv(limit, hs, calls, i);
    LivePointer(hs[i].blocks, p);
    if i < k {
      RunKeepsData(limit, hs, calls, i, k - 1, p);
      RunKeepsInv(limit, hs, calls, k - 1);
      assert Next(hs[k - 1], limit, calls[k - 1], hs[k - 1 + 1]);
      StepKeepsOthers(hs[k - 1], limit, calls[k - 1].op, calls[k - 1].result, hs[k], p);
    }
  }

  lemma LivePointer(bs: seq<Block>, p: nat)
    requires Sized(bs) && p in Live(bs, FIRST)
    ensures p >= FIRST
  {
    LiveBounds(bs, FIRST);
  }

  // A live block other than block i lies wholly before it or behind it.
  lemma Beside(bs: seq<Block>, i: nat, q: nat)
    requires WellFormed(bs) && i < |bs| && q in Live(bs, FIRST) && q != FIRST + Total(bs[..i])
    ensures var p := FIRST + Total(bs[..i]);
            q + Live(bs, FIRST)[q] <= p || p + bs[i].size <= q
  {
    hide NoFreePair, Live, Total;
    var pre, x, suf := bs[..i], bs[i], bs[i + 1..];
    assert bs == pre + [x] + suf;
    WellFormedParts(bs, i);
    LiveAround(pre, x, suf, FIRST);
    LiveBounds(pre, FIRST);
    LiveBounds(suf, FIRST + Total(pre) + x.size);
  }

  // In every heap of a run the live payloads are 16-aligned, lie inside the heap
  // behind the prologue and in front of the epilogue, and overlap each other nowhere.
  lemma RunPayloads(limit: nat, hs: seq<Heap>, calls: seq<Call>, k: nat, p: nat)
    requires IsRun(limit, hs, calls) && hs[0] == UNUSED && k < |hs| && p in hs[k].data
    ensures p % 16 == 0 && FIRST <= p && p + |hs[k].data[p]| + 16 <= FIRST + Total(hs[k].blocks) <= limit
    ensures forall q | q in hs[k].data && p < q :: p + |hs[k].data[p]| + 16 <= q
  {
    RunKeepsInv(limit, hs, calls, k);
    var bs := hs[k].blocks;
    LiveAligned(bs, FIRST);
    LiveBounds(bs, FIRST);
    NonEmpty(bs, p);
    forall q | q in hs[k].data && p < q
      ensures p + |hs[k].data[p]| + 16 <= q
    {
      LiveApart(bs, FIRST, p, q);
    }
  }

  // Nor do they meet the header or the footer of any block, allocated or free.
  lemma RunPayloadsMeetNoTag(limit: nat, hs: seq<Heap>, calls: seq<Call>, k: nat, p: nat, i: nat)
    requires IsRun(limit, hs, calls) && hs[0] == UNUSED && k < |hs| && p in hs[k].data && i < |hs[k].blocks|
    ensures var end, bp := p + |hs[k].data[p]|, FIRST + Total(hs[k].blocks[..i]);
            var ftr := bp + hs[k].blocks[i].size - 16;
            && (end <= bp - 8 || bp <= p)
            && (end <= ftr || ftr + 8 <= p)
  {
    RunKeepsInv(limit, hs, calls, k);
    var bs := hs[k].blocks;
    hide NoFreePair, Total;
    if p == FIRST + Total(bs[..i]) {
      LiveBlock(bs, i, p);
    } else {
      Beside(bs, i, p);
    }
  }

  // The live entry at block i's address is that block's.
  lemma LiveBlock(bs: seq<Block>, i: nat, p: nat)
    requires WellFormed(bs) && i < |bs| && p in Live(bs, FIRST) && p == FIRST + Total(bs[..i])
    ensures bs[i].alloc && Live(bs, FIRST)[p] == bs[i].size
  {
    hide NoFreePair, Live, Total;
    WellFormedParts(bs, i);
    assert bs == bs[..i] + [bs[i]] + bs[i + 1..];
    LiveAround(bs[..i], bs[i], bs[i + 1..], FIRST);
  }

  // What mm_malloc's own arithmetic does with any size at all: it places in a block
  // of the size asked for, is refused, or writes a header whose size the break
  // moved by. Anything else is a block too small or tiles that miss the break.
  predicate Served(h: Heap, limit: nat, size: word) {
    var asize := AdjustedSize(size);
    var i := FirstFit(h.blocks, asize);
    if i < |h.blocks| then
      var after := PlaceAt(h.blocks, i, asize);
      WellFormed(after) && i < |after| && size + 16 <= after[i].size
    else
      var extend := ExtendSize(asize);
      var incr := ToInt(extend);
      || incr < 0 || FIRST + Total(h.blocks) + incr > limit
      || (&& WellFormed(Grow(h.blocks, extend)) && Total(Grow(h.blocks, extend)) == Total(h.blocks) + incr
          && size + 16 <= asize <= extend)
  }

  // Admissible requests are exactly the ones it serves or refuses properly.
  lemma AdmissibleIff(h: Heap, limit: nat, size: word)
    requires Inv(h, limit) && h.blocks != [] && limit < WORD_LIMIT && size > 0
    ensures Served(h, limit, size) <==> Admissible(h, limit, size)
  {
    if Fits(h, size) {
      ServedByPlacing(h, limit, size);
    } else if !Refused(h, limit, size) {
      ServedByExtending(h, limit, size);
    }
  }

  lemma ServedByPlacing(h: Heap, limit: nat, size: word)
    requires Inv(h, limit) && limit < WORD_LIMIT && size > 0 && Fits(h, size)
    ensures Served(h, limit, size) <==> size + 31 < WORD_LIMIT
  {
    hide Live, Total, NoFreePair, AdjustedSize;
    var i := FirstFit(h.blocks, AdjustedSize(size));
    if size + 31 < WORD_LIMIT {
      AdjustedSizeIsLeast(size);
      PlaceAtFacts(h.blocks, i, AdjustedSize(size), FIRST);
    } else {
      TotalSplit(h.blocks, i);
      assert h.blocks[i].size < WORD_LIMIT - 32;
      PlacedAtMost(h.blocks, i, AdjustedSize(size));
    }
  }

  lemma PlacedAtMost(bs: seq<Block>, i: nat, asize: nat)
    requires i < |bs| && asize <= bs[i].size
    ensures i < |PlaceAt(bs, i, asize)| && PlaceAt(bs, i, asize)[i].size <= bs[i].size
  {
  }

  lemma ServedByExtending(h: Heap, limit: nat, size: word)
    requires WellFormed(h.blocks) && size > 0 && !Fits(h, size) && !Refused(h, limit, size)
    ensures Served(h, limit, size) <==> Extensible(size)
  {
    hide Live, Total, NoFreePair, AdjustedSize, Grow;
    var extend := Extend(size);
    ExtensionMeetsRequestIff(size);
    ExtendIsPages(size);
    if AdjustedSize(size) <= extend && size + 16 <= AdjustedSize(size) {
      GrownRoom(h.blocks, extend);
    }
  }

  // Two requests it does not serve, on a heap of one page: 2^32 - 16 bytes, for
  // which the break does not move at all, and the largest size, which gets 16 bytes.
  lemma UnservedRequests(limit: nat)
    requires FIRST + CHUNKSIZE <= limit < WORD_LIMIT
    ensures !Served(INITIAL, limit, 0xFFFF_FFF0) && !Served(INITIAL, limit, WORD_LIMIT - 1)
  {
    var bs := INITIAL.blocks;
    assert bs[1..] == [] && Total(bs) == CHUNKSIZE;
    assert AdjustedSize(0xFFFF_FFF0) == 0x1_0000_0000 && AdjustedSize(WORD_LIMIT - 1) == 16;
    assert PlaceAt(bs, 0, 16)[0] == Block(16, true);
    MergeFacts(bs, 0x1_0000_0000, [], 0);
  }

  // A non-zero request is refused exactly when no free block fits and the pages it
  // needs pass the end of the arena or do not fit mem_sbrk's int.
  lemma NullExactlyWhenFull(h: Heap, limit: nat, size: word, p: nat, h': Heap)
    requires Inv(h, limit) && h.blocks != [] && size > 0 && Admissible(h, limit, size) && limit < WORD_LIMIT
    requires MallocStep(h, limit, size, p, h')
    ensures p == NULL <==>
            && (forall i | 0 <= i < |h.blocks| :: h.blocks[i].alloc || h.blocks[i].size < RoundUp(size + 16, 16))
            && (|| RoundUp(size + 16, 4096) % INT_RANGE >= INT_RANGE / 2
                || FIRST + Total(h.blocks) + RoundUp(size + 16, 4096) > limit)
    ensures p == NULL ==> h' == h
  {
    hide Live, Total, PlaceAt, Room, AdjustedSize, RoundUp, ExtendSize, WellFormed, ToInt;
    MallocFacts(h, limit, size, p, h');
    SmallerThanRequest(h, limit, size);
    hide Inv, MallocStep;
    if !Fits(h, size) {
      RefusedIff(h, limit, size);
    }
  }

  // Whether a block fits, in unwrapped arithmetic.
  lemma SmallerThanRequest(h: Heap, limit: nat, size: word)
    requires Inv(h, limit) && size > 0 && limit < WORD_LIMIT && Admissible(h, limit, size) && h.blocks != []
    ensures Fits(h, size) <==> exists i :: 0 <= i < |h.blocks| && !h.blocks[i].alloc && h.blocks[i].size >= RoundUp(size + 16, 16)
  {
    hide Live, Total, AdjustedSize, RoundUp, ExtendSize, WellFormed, ToInt;
    var i := FirstFit(h.blocks, AdjustedSize(size));
    if size + 31 < WORD_LIMIT {
      AdjustedSizeIsLeast(size);
    } else {
      RoundUpIsLeast(size + 16, 16);
      forall j | 0 <= j < |h.blocks|
        ensures h.blocks[j].size < WORD_LIMIT - 32
      {
        TotalSplit(h.blocks, j);
      }
    }
  }

  // Whether mem_sbrk refuses, likewise.
  lemma RefusedIff(h: Heap, limit: nat, size: word)
    requires size > 0 && limit < WORD_LIMIT && Admissible(h, limit, size) && !Fits(h, size)
    ensures Refused(h, limit, size) <==>
            (|| RoundUp(size + 16, 4096) % INT_RANGE >= INT_RANGE / 2
             || FIRST + Total(h.blocks) + RoundUp(size + 16, 4096) > limit)
  {
    hide Total, AdjustedSize, RoundUp, ExtendSize, Fits, ToInt;
    RoundUpIsLeast(size + 16, 4096);
    if size <= WORD_LIMIT - 4112 {
      PagesNeeded(size);
      ToIntFacts(Extend(size));
    }
  }

  // The int matters: a request of 2^31 bytes is refused in an arena with room for it.
  lemma IntRefusesLargeRequest(limit: nat)
    requires limit >= 0x1_0000_0000
    ensures var size := 0x8000_0000;
            && Extensible(size) && !Fits(INITIAL, size) && Exhausted(INITIAL, limit, size)
            && FIRST + Total(INITIAL.blocks) + RoundUp(size + 16, 4096) <= limit
  {
    var bs := INITIAL.blocks;
    assert bs[1..] == [];
    assert AdjustedSize(0x8000_0000) == 0x8000_0010;
    assert Extend(0x8000_0000) == 0x8000_1000;
  }

  // The limit mm_malloc announces is none: one byte more than CHUNKSIZE << 2 is
  // served on a fresh heap whose arena has five pages left.
  lemma OversizeIsServed(limit: nat, p: nat, h': Heap)
    requires FIRST + CHUNKSIZE + 0x5000 <= limit < WORD_LIMIT
    ensures WellFormed(INITIAL.blocks) && Admissible(INITIAL, limit, 0x4001) && Served(INITIAL, limit, 0x4001)
    ensures MallocStep(INITIAL, limit, 0x4001, p, h') ==> p != NULL && p in h'.data && |h'.data[p]| == 0x4001
  {
    InitialFacts(limit);
    assert AdjustedSize(0x4001) == 0x4020 && Extend(0x4001) == 0x5000;
    assert Extensible(0x4001) by { ExtensionMeetsRequestIff(0x4001); }
    hide MallocStep, Served, Live, Extensible, AdjustedSize, Extend;
    AdmissibleIff(INITIAL, limit, 0x4001);
    if MallocStep(INITIAL, limit, 0x4001, p, h') {
      MallocFacts(INITIAL, limit, 0x4001, p, h');
      MallocData(INITIAL, limit, 0x4001, p, h');
    }
  }

  lemma InitialFacts(limit: nat)
    requires FIRST + CHUNKSIZE <= limit
    ensures Grow([], CHUNKSIZE) == INITIAL.blocks && Inv(INITIAL, limit) && Total(INITIAL.blocks) == CHUNKSIZE
  {
    var bs := INITIAL.blocks;
    assert bs[1..] == [] && Total(bs) == CHUNKSIZE;
    assert Live(bs[1..], FIRST + CHUNKSIZE) == map[];
    assert Live(bs, FIRST) == map[];
  }

  lemma PagesNeeded(size: word)
    requires 0 < size <= WORD_LIMIT - 4112
    ensures Extend(size) == RoundUp(size + 16, 4096)
  {
    hide AdjustedSize, ExtendSize, RoundUp;
    AdjustedSizeIsLeast(size);
    PagesOfAdjusted(size);
    ExtendSizeIsLeast(AdjustedSize(size));
  }

  // ----- the layout is canonical

  // Two heaps, reached by any runs, with the same live blocks and the same break
  // are cut up identically.
  lemma SameLayout(limit: nat, hs: seq<Heap>, calls: seq<Call>, k: nat, hs': seq<Heap>, calls': seq<Call>, k': nat)
    requires IsRun(limit, hs, calls) && hs[0] == UNUSED && k < |hs|
    requires IsRun(limit, hs', calls') && hs'[0] == UNUSED && k' < |hs'|
    requires Live(hs[k].blocks, FIRST) == Live(hs'[k'].blocks, FIRST)
    requires Total(hs[k].blocks) == Total(hs'[k'].blocks)
    ensures hs[k].blocks == hs'[k'].blocks
  {
    RunKeepsInv(limit, hs, calls, k);
    RunKeepsInv(limit, hs', calls', k');
    Canonical(hs[k].blocks, hs'[k'].blocks, FIRST);
  }

  // The calls up to k are all calls of free.
  predicate OnlyFrees(calls: seq<Call>, k: nat) {
    k <= |calls| && forall i | 0 <= i < k :: calls[i].op.Free?
  }

  // The pointers the first k calls release.
  function Freed(calls: seq<Call>, k: nat): set<nat>
    requires OnlyFrees(calls, k)
  {
    set i | 0 <= i < k :: calls[i].op.p
  }

  lemma FreedNext(calls: seq<Call>, k: nat)
    requires OnlyFrees(calls, k) && k > 0
    ensures Freed(calls, k) == Freed(calls, k - 1) + {calls[k - 1].op.p}
  {
  }

  // Two successive releases, as one.
  lemma DropTwice<V>(m: map<nat, V>, gone: set<nat>, p: nat)
    ensures m - gone - {p} == m - (gone + {p})
  {
  }

  // One call of free, NULL included, on the invariant's maps.
  lemma FreeDrops(h: Heap, limit: nat, p: nat, h': Heap)
    requires Inv(h, limit) && (p == NULL || p in h.data) && FreeStep(h, p, h')
    ensures Inv(h', limit) && Total(h'.blocks) == Total(h.blocks) && (h.blocks != [] ==> h'.blocks != [])
    ensures h'.data == h.data - {p} && Live(h'.blocks, FIRST) == Live(h.blocks, FIRST) - {p}
  {
    FreeKeepsInv(h, limit, p, h');
    TotalIsAligned(h.blocks);
    if p == NULL {
      NullFree(h, h');
      LiveBounds(h.blocks, FIRST);
    } else {
      FreeFacts(h, p, h');
      FreeShape(h, p, h');
      hide FreeStep;
    }
    EmptyFacts(FIRST);
    hide Live, FreeStep, Inv;
  }

  // A stretch of frees takes exactly the released pointers away.
  lemma {:induction false} FreesDrop(limit: nat, hs: seq<Heap>, calls: seq<Call>, k: nat)
    requires IsRun(limit, hs, calls) && Inv(hs[0], limit) && OnlyFrees(calls, k)
    ensures Inv(hs[k], limit) && Total(hs[k].blocks) == Total(hs[0].blocks) && (hs[0].blocks != [] ==> hs[k].blocks != [])
    ensures hs[k].data == hs[0].data - Freed(calls, k)
    ensures Live(hs[k].blocks, FIRST) == Live(hs[0].blocks, FIRST) - Freed(calls, k)
  {
    hide Live, Total, Inv, FreeStep, Freed;
    if k == 0 {
      assert Freed(calls, 0) == {} by { NothingFreed(calls); }
    } else {
      FreesDrop(limit, hs, calls, k - 1);
      assert Next(hs[k - 1], limit, calls[k - 1], hs[k - 1 + 1]);
      FreeDrops(hs[k - 1], limit, calls[k - 1].op.p, hs[k]);
      FreedNext(calls, k);
      DropTwice(hs[0].data, Freed(calls, k - 1), calls[k - 1].op.p);
      DropTwice(Live(hs[0].blocks, FIRST), Freed(calls, k - 1), calls[k - 1].op.p);
    }
  }

  lemma NothingFreed(calls: seq<Call>)
    ensures Freed(calls, 0) == {}
  {
  }

  // The order in which a set of blocks is released does not matter: two runs of
  // frees from one heap that release the same pointers end in the same heap.
  lemma FreeOrderIrrelevant(limit: nat, hs: seq<Heap>, calls: seq<Call>, hs': seq<Heap>, calls': seq<Call>)
    requires IsRun(limit, hs, calls) && IsRun(limit, hs', calls') && hs[0] == hs'[0] && Inv(hs[0], limit)
    requires OnlyFrees(calls, |calls|) && OnlyFrees(calls', |calls'|)
    requires Freed(calls, |calls|) == Freed(calls', |calls'|)
    ensures hs[|calls|] == hs'[|calls'|]
  {
    hide Live, Total, NoFreePair, Freed;
    FreesDrop(limit, hs, calls, |calls|);
    FreesDrop(limit, hs', calls', |calls'|);
    Canonical(hs[|calls|].blocks, hs'[|calls'|].blocks, FIRST);
  }

  // Releasing every live block leaves one free block.
  lemma FreeAllLeavesOne(limit: nat, hs: seq<Heap>, calls: seq<Call>)
    requires IsRun(limit, hs, calls) && Inv(hs[0], limit) && hs[0].blocks != []
    requires OnlyFrees(calls, |calls|) && hs[0].data.Keys <= Freed(calls, |calls|)
    ensures hs[|calls|] == Heap([Block(Total(hs[0].blocks), false)], map[])
  {
    hide Live, Total, NoFreePair, Freed;
    FreesDrop(limit, hs, calls, |calls|);
    NothingLive(hs[|calls|], limit);
  }

  // A heap without live blocks is one free block.
  lemma NothingLive(h: Heap, limit: nat)
    requires Inv(h, limit) && h.blocks != [] && h.data.Keys == {}
    ensures h == Heap([Block(Total(h.blocks), false)], map[])
  {
    var bs := h.blocks;
    var one := [Block(Total(bs), false)];
    TotalIsAligned(bs);
    SingleIsFine(one);
    assert one[1..] == [];
    assert Live(bs, FIRST).Keys == {};
    assert Live(bs, FIRST) == map[];
    Canonical(bs, one, FIRST);
    assert h.data == map[];
  }

  lemma SingleIsFine(bs: seq<Block>)
    requires |bs| == 1
    ensures NoFreePair(bs)
  {
  }

  // Freeing what malloc returned gives back the previous heap; had malloc to
  // extend, the previous heap with its free end grown by the extension.
  lemma FreeUndoesMalloc(h: Heap, limit: nat, size: word, p: nat, h': Heap, h'': Heap)
    requires Inv(h, limit) && h.blocks != [] && Admissible(h, limit, size)
    requires MallocStep(h, limit, size, p, h') && p != NULL
    requires p in Live(h'.blocks, FIRST) && FreeStep(h', p, h'')
    ensures h''.data == h.data
    ensures h''.blocks == if Fits(h, size) then h.blocks else Grow(h.blocks, Extend(size))
  {
    hide Live, Total, MallocStep, FreeStep, Fits, NoFreePair, Admissible, Exhausted;
    MallocFacts(h, limit, size, p, h');
    MallocData(h, limit, size, p, h');
    FreeFacts(h', p, h'');
    FreeShape(h', p, h'');
    RoomFacts(h, limit, size);
    TakenBack(Live(h.blocks, FIRST), p, Live(h'.blocks, FIRST)[p]);
    TakenBack(h.data, p, h'.data[p]);
    Canonical(h''.blocks, Room(h, size).0, FIRST);
  }

  lemma TakenBack<V>(entries: map<nat, V>, p: nat, v: V)
    requires p !in entries
    ensures entries[p := v] - {p} == entries
  {
  }
}
