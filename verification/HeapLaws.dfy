// What each call does, said without the layout functions: the result, the live
// map, the length of the heap and the bytes. Every step of the model obeys it,
// and it leaves nothing open but the bytes of a new block.
module HeapLaws {
  import opened Words
  import opened Blocks
  import opened BoundaryTags
  import opened Sizes
  import opened HeapSpec
  import opened HeapRuns

  // Block i is the first free one of at least `need` bytes.
  predicate FirstBig(bs: seq<Block>, need: nat, i: int) {
    && 0 <= i < |bs| && !bs[i].alloc && need <= bs[i].size
    && forall j | 0 <= j < i :: bs[j].alloc || bs[j].size < need
  }

  // What a request that needs `need` bytes gets out of a free block of `room` bytes:
  // those, or 16 more where they are all that would be left.
  function Handed(room: nat, need: nat): nat {
    if room == need + 16 then need + 16 else need
  }

  // A new block of `granted` bytes at p, `size` of them requested; no other changed.
  ghost predicate Added(h: Heap, h': Heap, p: nat, granted: nat, size: nat) {
    && WellFormed(h'.blocks)
    && p !in Live(h.blocks, FIRST) && Live(h'.blocks, FIRST) == Live(h.blocks, FIRST)[p := granted]
    && p !in h.data && p in h'.data && |h'.data[p]| == size && h'.data == h.data[p := h'.data[p]]
  }

  // The block at p is gone, and nothing else changed.
  ghost predicate Removed(h: Heap, h': Heap, p: nat) {
    && WellFormed(h'.blocks) && Total(h'.blocks) == Total(h.blocks)
    && Live(h'.blocks, FIRST) == Live(h.blocks, FIRST) - {p} && h'.data == h.data - {p}
  }

  ghost predicate InFirstBig(h: Heap, need: nat, size: nat, p: nat, h': Heap) {
    exists i :: FirstBig(h.blocks, need, i) && p == FIRST + Total(h.blocks[..i])
      && Added(h, h', p, Handed(h.blocks[i].size, need), size) && Total(h'.blocks) == Total(h.blocks)
  }

  // malloc of size > 0 bytes. The block begins the first free block that holds the
  // request and its tags; if there is none, the free end of the heap, grown by
  // whole pages; if those are refused, nothing happens.
  ghost predicate Allocated(h: Heap, limit: nat, size: nat, p: nat, h': Heap) {
    var need, pages := RoundUp(size + 16, 16), RoundUp(size + 16, 4096);
    if exists i :: FirstBig(h.blocks, need, i) then
      InFirstBig(h, need, size, p, h')
    else if pages % INT_RANGE >= INT_RANGE / 2 || FIRST + Total(h.blocks) + pages > limit then
      p == NULL && h' == h
    else
      && p == FIRST + Total(h.blocks) - FreeTail(h.blocks)
      && Added(h, h', p, Handed(FreeTail(h.blocks) + pages, need), size)
      && Total(h'.blocks) == Total(h.blocks) + pages
  }

  // A realloc that moves: mid is the heap with both blocks in it.
  ghost predicate MovedTo(h: Heap, p: nat, size: nat, r: nat, mid: Heap, h': Heap)
    requires p in h.data
  {
    && r in mid.data && |mid.data[r]| == size
    && (forall k | 0 <= k < |h.data[p]| && k < size :: mid.data[r][k] == h.data[p][k])
    && Removed(mid, h', p)
  }

  ghost predicate Reallocated(h: Heap, limit: nat, p: nat, size: nat, r: nat, h': Heap)
    requires p in h.data
  {
    exists mid :: Allocated(h, limit, size, r, mid) && if r == NULL then h' == h else MovedTo(h, p, size, r, mid, h')
  }

  ghost predicate Stored(h: Heap, p: nat, off: nat, v: byte, h': Heap)
    requires p in h.data && off < |h.data[p]|
  {
    && h'.blocks == h.blocks && h'.data.Keys == h.data.Keys
    && (forall q | q in h.data && q != p :: h'.data[q] == h.data[q])
    && |h'.data[p]| == |h.data[p]| && h'.data[p][off] == v
    && forall k | 0 <= k < |h.data[p]| && k != off :: h'.data[p][k] == h.data[p][k]
  }

  // One call: malloc(0) only initialises, free(NULL) does nothing, realloc to
  // size 0 is free, realloc of NULL is malloc.
  ghost predicate Effect(h: Heap, limit: nat, op: Op, r: nat, h': Heap)
    requires Legal(h, limit, op)
  {
    var ready := if h.blocks == [] then Heap([Block(4096, false)], map[]) else h;
    match op
    case Malloc(size) =>
      if size == 0 then r == NULL && h' == ready else Allocated(ready, limit, size, r, h')
    case Free(p) =>
      r == NULL && if p == NULL then h' == h else Removed(h, h', p)
    case Realloc(p, size) =>
      if size == 0 then r == NULL && if p == NULL then h' == h else Removed(h, h', p)
      else if p == NULL then Allocated(ready, limit, size, r, h')
      else Reallocated(h, limit, p, size, r, h')
    case Write(p, off, v) =>
      r == NULL && Stored(h, p, off, v, h')
  }

  // ----- every step obeys it

  lemma MallocLaw(h: Heap, limit: nat, size: word, p: nat, h': Heap)
    requires Inv(h, limit) && h.blocks != [] && limit < WORD_LIMIT && size > 0 && Admissible(h, limit, size)
    requires MallocStep(h, limit, size, p, h')
    ensures Allocated(h, limit, size, p, h')
  {
    hide Live, Total, AdjustedSize, RoundUp, ExtendSize, MallocStep, Admissible, Inv, WellFormed, InFirstBig, Added, Exhausted;
    assert WellFormed(h.blocks) by { InvShape(h, limit); }
    SmallerThanRequest(h, limit, size);
    if Fits(h, size) {
      FitLaw(h, limit, size, p, h');
    } else {
      RefusedIff(h, limit, size);
      if Refused(h, limit, size) {
        RefusedLaw(h, limit, size, p, h');
      } else {
        GrowLaw(h, limit, size, p, h');
      }
    }
  }

  lemma InvShape(h: Heap, limit: nat)
    requires Inv(h, limit)
    ensures WellFormed(h.blocks) && h.data.Keys == Live(h.blocks, FIRST).Keys
    ensures h.blocks != [] ==> FIRST + Total(h.blocks) <= limit
  {
  }

  lemma RefusedLaw(h: Heap, limit: nat, size: word, p: nat, h': Heap)
    requires WellFormed(h.blocks) && size > 0 && Admissible(h, limit, size) && MallocStep(h, limit, size, p, h')
    requires !Fits(h, size) && Refused(h, limit, size)
    ensures p == NULL && h' == h
  {
  }

  // What place makes of the block it is handed.
  lemma PlacedLaw(h: Heap, limit: nat, size: word, p: nat, h': Heap)
    requires WellFormed(h.blocks) && size > 0 && Admissible(h, limit, size) && MallocStep(h, limit, size, p, h')
    requires !Exhausted(h, limit, size)
    ensures var (bs, i) := Room(h, size);
            && i < |bs| && p == FIRST + Total(bs[..i]) && Total(h'.blocks) == Total(bs)
            && Added(h, h', p, Handed(bs[i].size, AdjustedSize(size)), size)
  {
    hide Live, Total, AdjustedSize, Room, PlaceAt, Admissible, Exhausted;
    RoomFacts(h, limit, size);
    var (bs, i) := Room(h, size);
    PlaceAtFacts(bs, i, AdjustedSize(size), FIRST);
    MallocData(h, limit, size, p, h');
  }

  lemma FitLaw(h: Heap, limit: nat, size: word, p: nat, h': Heap)
    requires WellFormed(h.blocks) && size > 0 && Admissible(h, limit, size) && MallocStep(h, limit, size, p, h')
    requires Fits(h, size)
    ensures FirstBig(h.blocks, RoundUp(size + 16, 16), FirstFit(h.blocks, AdjustedSize(size)))
    ensures InFirstBig(h, RoundUp(size + 16, 16), size, p, h')
  {
    hide Live, Total, AdjustedSize, RoundUp, MallocStep, WellFormed, Added;
    PlacedLaw(h, limit, size, p, h');
    AdjustedSizeIsLeast(size);
  }

  lemma GrowLaw(h: Heap, limit: nat, size: word, p: nat, h': Heap)
    requires WellFormed(h.blocks) && size > 0 && Admissible(h, limit, size) && MallocStep(h, limit, size, p, h')
    requires !Fits(h, size) && !Refused(h, limit, size)
    ensures var need, pages := RoundUp(size + 16, 16), RoundUp(size + 16, 4096);
            && p == FIRST + Total(h.blocks) - FreeTail(h.blocks)
            && Added(h, h', p, Handed(FreeTail(h.blocks) + pages, need), size)
            && Total(h'.blocks) == Total(h.blocks) + pages
  {
    hide Live, Total, AdjustedSize, RoundUp, ExtendSize, MallocStep, Admissible, WellFormed, Added, Fits, Refused;
    PlacedLaw(h, limit, size, p, h');
    ExtensionFacts(h, limit, size);
    AdjustedSizeIsLeast(size);
    PagesNeeded(size);
    ExtendIsPages(size);
    RoomFacts(h, limit, size);
    GrownEnd(h.blocks, Extend(size));
    DropTailTotal(h.blocks);
  }

  lemma GrownEnd(bs: seq<Block>, size: nat)
    ensures var g, i := Grow(bs, size), |DropFreeTail(bs)|;
            i < |g| && g[..i] == DropFreeTail(bs) && g[i].size == FreeTail(bs) + size
  {
  }

  lemma FreeLaw(h: Heap, p: nat, h': Heap)
    requires WellFormed(h.blocks) && p in Live(h.blocks, FIRST) && p != NULL && FreeStep(h, p, h')
    ensures Removed(h, h', p)
  {
    hide Live, Total;
    FreeFacts(h, p, h');
    FreeShape(h, p, h');
  }

  lemma ReallocLaw(h: Heap, limit: nat, p: nat, size: word, r: nat, h': Heap)
    requires Inv(h, limit) && h.blocks != [] && limit < WORD_LIMIT && Admissible(h, limit, size) && p in h.data && size > 0 && p != NULL
    requires ReallocStep(h, limit, p, size, r, h')
    ensures Reallocated(h, limit, p, size, r, h')
  {
    hide Live, Total, MallocStep, FreeStep, Admissible, Inv, Allocated, Removed, WellFormed, Exhausted;
    assert WellFormed(h.blocks) by { InvShape(h, limit); }
    var mid :| MoveStep(h, limit, p, size, r, mid, h');
    MallocLaw(h, limit, size, r, mid);
    MallocData(h, limit, size, r, mid);
    if r != NULL {
      assert WellFormed(mid.blocks) by { MallocFacts(h, limit, size, r, mid); }
      FreeLaw(mid, p, h');
      SamePrefix(mid.data[r], h.data[p], Min(size, |h.data[p]|));
      assert MovedTo(h, p, size, r, mid, h');
    }
  }

  lemma SamePrefix(a: seq<byte>, b: seq<byte>, n: nat)
    requires n <= |a| && n <= |b| && a[..n] == b[..n]
    ensures forall k | 0 <= k < n :: a[k] == b[k]
  {
    assert forall k | 0 <= k < n :: a[k] == a[..n][k] && b[k] == b[..n][k];
  }

  // Every call of the model does what Effect says.
  lemma StepLaw(h: Heap, limit: nat, op: Op, r: nat, h': Heap)
    requires Inv(h, limit) && limit < WORD_LIMIT && Legal(h, limit, op) && Step(h, limit, op, r, h')
    ensures Effect(h, limit, op, r, h')
  {
    hide Live, Total, MallocStep, FreeStep, ReallocStep, Admissible, Inv, Allocated, Reallocated, Removed, WellFormed;
    BootedInv(h, limit);
    InvShape(h, limit);
    match op {
      case Malloc(size) =>
        if size == 0 {
          MallocOfZero(Booted(h), limit, r, h');
        } else {
          MallocLaw(Booted(h), limit, size, r, h');
        }
      case Free(p) =>
        ReleaseLaw(h, p, h');
      case Realloc(p, size) =>
        if size == 0 {
          ReleaseLaw(h, p, h');
        } else if p == NULL {
          ReallocOfNull(Booted(h), limit, size, r, h');
          MallocLaw(Booted(h), limit, size, r, h');
        } else {
          assert h.blocks != [] by { NonEmpty(h.blocks, p); }
          ReallocLaw(h, limit, p, size, r, h');
        }
      case Write(p, off, v) =>
    }
  }

  lemma MallocOfZero(h: Heap, limit: nat, p: nat, h': Heap)
    requires WellFormed(h.blocks) && Admissible(h, limit, 0) && MallocStep(h, limit, 0, p, h')
    ensures p == NULL && h' == h
  {
  }

  lemma ReallocOfNull(h: Heap, limit: nat, size: word, r: nat, h': Heap)
    requires WellFormed(h.blocks) && Admissible(h, limit, size) && size > 0 && ReallocStep(h, limit, NULL, size, r, h')
    ensures MallocStep(h, limit, size, r, h')
  {
  }

  lemma ReleaseLaw(h: Heap, p: nat, h': Heap)
    requires WellFormed(h.blocks) && (p == NULL || p in Live(h.blocks, FIRST)) && FreeStep(h, p, h')
    ensures if p == NULL then h' == h else Removed(h, h', p)
  {
    if p == NULL {
      NullFree(h, h');
    } else {
      FreeLaw(h, p, h');
    }
  }

  // So does every call of every run of an allocator.
  lemma RunLaw(limit: nat, hs: seq<Heap>, calls: seq<Call>, k: nat)
    requires IsRun(limit, hs, calls) && hs[0] == UNUSED && limit < WORD_LIMIT && k < |calls|
    ensures Legal(hs[k], limit, calls[k].op) && Effect(hs[k], limit, calls[k].op, calls[k].result, hs[k + 1])
  {
    hide Inv, Step, Legal, Effect;
    RunKeepsInv(limit, hs, calls, k);
    assert Next(hs[k], limit, calls[k], hs[k + 1]);
    StepLaw(hs[k], limit, calls[k].op, calls[k].result, hs[k + 1]);
  }

  // ----- and it leaves nothing else open

  // Equal heaps but for the bytes at r.
  ghost predicate SameBut(a: Heap, b: Heap, r: nat) {
    && a.blocks == b.blocks && a.data.Keys == b.data.Keys
    && forall q | q in a.data :: |a.data[q]| == |b.data[q]| && (q != r ==> a.data[q] == b.data[q])
  }

  lemma FirstBigIsOne(bs: seq<Block>, need: nat, i: int, j: int)
    requires FirstBig(bs, need, i) && FirstBig(bs, need, j)
    ensures i == j
  {
  }

  lemma AddedOnce(h: Heap, p: nat, granted: nat, size: nat, a: Heap, b: Heap)
    requires Added(h, a, p, granted, size) && Added(h, b, p, granted, size) && Total(a.blocks) == Total(b.blocks)
    ensures SameBut(a, b, p)
  {
    hide Live, Total, NoFreePair;
    Canonical(a.blocks, b.blocks, FIRST);
  }

  lemma RemovedOnce(h: Heap, g: Heap, p: nat, r: nat, a: Heap, b: Heap)
    requires SameBut(h, g, r) && Removed(h, a, p) && Removed(g, b, p)
    ensures SameBut(a, b, r)
  {
    hide Live, Total, NoFreePair;
    Canonical(a.blocks, b.blocks, FIRST);
  }

  lemma InFirstBigOnce(h: Heap, need: nat, size: nat, p: nat, a: Heap, q: nat, b: Heap)
    requires InFirstBig(h, need, size, p, a) && InFirstBig(h, need, size, q, b)
    ensures p == q && SameBut(a, b, p)
  {
    hide Live, Total, Added, SameBut;
    var i :| FirstBig(h.blocks, need, i) && p == FIRST + Total(h.blocks[..i])
      && Added(h, a, p, Handed(h.blocks[i].size, need), size) && Total(a.blocks) == Total(h.blocks);
    var j :| FirstBig(h.blocks, need, j) && q == FIRST + Total(h.blocks[..j])
      && Added(h, b, q, Handed(h.blocks[j].size, need), size) && Total(b.blocks) == Total(h.blocks);
    FirstBigIsOne(h.blocks, need, i, j);
    AddedOnce(h, p, Handed(h.blocks[i].size, need), size, a, b);
  }

  lemma AllocatedOnce(h: Heap, limit: nat, size: nat, p: nat, a: Heap, q: nat, b: Heap)
    requires Allocated(h, limit, size, p, a) && Allocated(h, limit, size, q, b)
    ensures p == q && SameBut(a, b, p)
  {
    hide Live, Total, RoundUp, Added, SameBut, InFirstBig, FreeTail, FirstBig;
    var need, pages := RoundUp(size + 16, 16), RoundUp(size + 16, 4096);
    if exists i :: FirstBig(h.blocks, need, i) {
      InFirstBigOnce(h, need, size, p, a, q, b);
    } else if pages % INT_RANGE >= INT_RANGE / 2 || FIRST + Total(h.blocks) + pages > limit {
      SameAsItself(h, p);
    } else {
      AddedOnce(h, p, Handed(FreeTail(h.blocks) + pages, need), size, a, b);
    }
  }

  lemma SameAsItself(h: Heap, r: nat)
    ensures SameBut(h, h, r)
  {
  }

  // Two outcomes of a call agree in result and layout, and in all bytes but those
  // of a new block.
  lemma EffectIsOne(h: Heap, limit: nat, op: Op, r: nat, a: Heap, q: nat, b: Heap)
    requires Legal(h, limit, op) && Effect(h, limit, op, r, a) && Effect(h, limit, op, q, b)
    ensures r == q && SameBut(a, b, r)
  {
    hide Live, Total, Allocated, Removed, SameBut, Admissible, Stored, Reallocated;
    SameAsItself(h, r);
    SameAsItself(Heap([Block(4096, false)], map[]), r);
    var ready := if h.blocks == [] then Heap([Block(4096, false)], map[]) else h;
    match op {
      case Malloc(size) =>
        if size > 0 {
          AllocatedOnce(ready, limit, size, r, a, q, b);
        }
      case Free(p) =>
        if p != NULL {
          RemovedOnce(h, h, p, r, a, b);
        }
      case Realloc(p, size) =>
        if size == 0 {
          if p != NULL {
            RemovedOnce(h, h, p, r, a, b);
          }
        } else if p == NULL {
          AllocatedOnce(ready, limit, size, r, a, q, b);
        } else {
          ReallocatedOnce(h, limit, p, size, r, a, q, b);
        }
      case Write(p, off, v) =>
        StoredOnce(h, p, off, v, a, b, r);
    }
  }

  lemma ReallocatedOnce(h: Heap, limit: nat, p: nat, size: nat, r: nat, a: Heap, q: nat, b: Heap)
    requires p in h.data && Reallocated(h, limit, p, size, r, a) && Reallocated(h, limit, p, size, q, b)
    ensures r == q && SameBut(a, b, r)
  {
    hide Allocated, Removed, SameBut;
    var f :| Allocated(h, limit, size, r, f) && if r == NULL then a == h else MovedTo(h, p, size, r, f, a);
    var g :| Allocated(h, limit, size, q, g) && if q == NULL then b == h else MovedTo(h, p, size, q, g, b);
    AllocatedOnce(h, limit, size, r, f, q, g);
    if r == NULL {
      SameAsItself(h, r);
    } else {
      RemovedOnce(f, g, p, r, a, b);
    }
  }

  lemma StoredOnce(h: Heap, p: nat, off: nat, v: byte, a: Heap, b: Heap, r: nat)
    requires p in h.data && off < |h.data[p]| && Stored(h, p, off, v, a) && Stored(h, p, off, v, b)
    ensures SameBut(a, b, r)
  {
    assert a.data[p] == b.data[p];
  }
}
