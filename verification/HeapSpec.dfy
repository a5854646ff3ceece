// The allocator as a transition system: what one call may do to the block
// sequence and to the bytes behind live pointers, and what every run keeps.
module HeapSpec {
  import opened Words
  import opened Blocks
  import opened BoundaryTags
  import opened Sizes

  // blocks == [] before mm_init; data maps each live pointer to the bytes
  // requested there.
  datatype Heap = Heap(blocks: seq<Block>, data: map<nat, seq<byte>>)

  datatype Op =
    | Malloc(size: word)
    | Free(p: nat)
    | Realloc(p: nat, size: word)
    | Write(p: nat, off: nat, v: byte)  // the client storing into its own block

  const INITIAL: Heap := Heap([Block(CHUNKSIZE, false)], map[])

  // mm_malloc initialises on first use.
  function Booted(h: Heap): Heap {
    if h.blocks == [] then INITIAL else h
  }

  function Extend(size: word): word {
    ExtendSize(AdjustedSize(size))
  }

  predicate Fits(h: Heap, size: word) {
    FirstFit(h.blocks, AdjustedSize(size)) < |h.blocks|
  }

  // mem_sbrk refuses the extension.
  predicate Refused(h: Heap, limit: nat, size: word) {
    ToInt(Extend(size)) < 0 || FIRST + Total(h.blocks) + ToInt(Extend(size)) > limit
  }

  // Requests that mm_malloc serves as it should, or refuses: asize must not wrap
  // where a block fits; where none does, mem_sbrk refuses or can carry the
  // extension. AdmissibleIff shows that the others leave a broken heap.
  predicate Admissible(h: Heap, limit: nat, size: word) {
    size > 0 ==>
      if Fits(h, size) then size + 31 < WORD_LIMIT
      else Refused(h, limit, size) || Extensible(size)
  }

  // Nothing fits and mem_sbrk refuses.
  predicate Exhausted(h: Heap, limit: nat, size: word) {
    !Fits(h, size) && Refused(h, limit, size)
  }

  // The block sequence mm_malloc places into, and the index it places at.
  function Room(h: Heap, size: word): (seq<Block>, nat) {
    if Fits(h, size) then (h.blocks, FirstFit(h.blocks, AdjustedSize(size)))
    else (Grow(h.blocks, Extend(size)), |DropFreeTail(h.blocks)|)
  }

  // The extension, where mem_sbrk grants it: the size its header claims is the
  // one the break moved by.
  lemma ExtensionFacts(h: Heap, limit: nat, size: word)
    requires size > 0 && Admissible(h, limit, size) && !Fits(h, size) && !Refused(h, limit, size)
    ensures Extensible(size) && size + 31 < WORD_LIMIT && ToInt(Extend(size)) == Extend(size)
    ensures AdjustedSize(size) <= Extend(size)
  {
    hide AdjustedSize, ExtendSize, Fits, ToInt;
    assert ExtensionMeetsRequest(size) by { ExtensionMeetsRequestIff(size); }
  }

  lemma ExtendIsPages(size: word)
    ensures Extend(size) % 4096 == 0 && Extend(size) % 16 == 0
  {
    hide AdjustedSize;
    MultipleOfPage(Extend(size), Extend(size) / 4096);
  }

  // The grown heap ends in a free block of at least the extension.
  lemma GrownRoom(bs: seq<Block>, extend: nat)
    requires WellFormed(bs) && extend % 16 == 0 && MIN_BLOCK <= extend
    ensures var g, i := Grow(bs, extend), |DropFreeTail(bs)|;
            && WellFormed(g) && i < |g| && !g[i].alloc && extend <= g[i].size
            && Live(g, FIRST) == Live(bs, FIRST) && Total(g) == Total(bs) + extend
  {
    hide Live, Total;
    EmptyFacts(FIRST + Total(bs) + extend);
    MergeFacts(bs, extend, [], FIRST);
  }

  lemma RoomFacts(h: Heap, limit: nat, size: word)
    requires WellFormed(h.blocks) && size > 0 && Admissible(h, limit, size) && !Exhausted(h, limit, size)
    ensures var (bs, i) := Room(h, size);
            && WellFormed(bs) && i < |bs| && !bs[i].alloc
            && Live(bs, FIRST) == Live(h.blocks, FIRST)
            && Total(bs) == Total(h.blocks) + (if Fits(h, size) then 0 else Extend(size))
            && 32 <= AdjustedSize(size) <= bs[i].size && AdjustedSize(size) % 16 == 0
            && size + 16 <= AdjustedSize(size) < size + 32
  {
    hide AdjustedSize, Live, Total, Grow, Extend, NoFreePair;
    if Fits(h, size) {
      AdjustedSizeIsLeast(size);
    } else {
      ExtensionFacts(h, limit, size);
      ExtendIsPages(size);
      AdjustedSizeIsLeast(size);
      GrownRoom(h.blocks, Extend(size));
    }
  }

  lemma MultipleOfPage(extend: int, k: int)
    requires extend == k * 4096
    ensures extend % 4096 == 0 && extend % 16 == 0
  {
    assert extend / 16 == 256 * k;
    assert extend / 4096 == k;
  }

  // ----- one call

  predicate MallocStep(h: Heap, limit: nat, size: word, p: nat, h': Heap)
    requires WellFormed(h.blocks) && Admissible(h, limit, size)
  {
    if size == 0 || Exhausted(h, limit, size) then
      p == NULL && h' == h
    else
      RoomFacts(h, limit, size);
      var (bs, i) := Room(h, size);
      && p == FIRST + Total(bs[..i])
      && h'.blocks == PlaceAt(bs, i, AdjustedSize(size))
      && p !in h.data && p in h'.data && h'.data - {p} == h.data
      && |h'.data[p]| == size
  }

  predicate FreeStep(h: Heap, p: nat, h': Heap)
    requires p == NULL || p in Live(h.blocks, FIRST)
  {
    if p == NULL then h' == h
    else h' == Heap(FreeAt(h.blocks, IndexOf(h.blocks, FIRST, p)), h.data - {p})
  }

  function Min(a: nat, b: nat): nat {
    if a < b then a else b
  }

  // mid: the heap after the copy, before the old block is released.
  ghost predicate MoveStep(h: Heap, limit: nat, p: nat, size: word, r: nat, mid: Heap, h': Heap)
    requires WellFormed(h.blocks) && Admissible(h, limit, size) && p in h.data
  {
    && MallocStep(h, limit, size, r, mid)
    && if r == NULL then h' == mid
       else
         && p in Live(mid.blocks, FIRST) && r in mid.data
         && var kept := Min(size, |h.data[p]|);
         && kept <= |mid.data[r]| && mid.data[r][..kept] == h.data[p][..kept]
         && FreeStep(mid, p, h')
  }

  ghost predicate ReallocStep(h: Heap, limit: nat, p: nat, size: word, r: nat, h': Heap)
    requires WellFormed(h.blocks) && Admissible(h, limit, size)
    requires p == NULL || (p in h.data && p in Live(h.blocks, FIRST))
  {
    if size == 0 then r == NULL && FreeStep(h, p, h')
    else if p == NULL then MallocStep(h, limit, size, r, h')
    else exists mid :: MoveStep(h, limit, p, size, r, mid, h')
  }

  predicate WriteStep(h: Heap, p: nat, off: nat, v: byte, h': Heap)
    requires p in h.data && off < |h.data[p]|
  {
    var stored: seq<byte> := h.data[p][off := v];
    h' == h.(data := h.data[p := stored])
  }

  // ----- the invariant

  // The tiling is well formed and page-sized, the live blocks are the ones handed
  // out, and each covers its request with at most 47 bytes of overhead.
  ghost predicate Inv(h: Heap, limit: nat) {
    && WellFormed(h.blocks)
    && Total(h.blocks) % CHUNKSIZE == 0
    && (h.blocks != [] ==> FIRST + Total(h.blocks) <= limit)
    && h.data.Keys == Live(h.blocks, FIRST).Keys
    && forall p | p in h.data ::
         1 <= |h.data[p]| && |h.data[p]| + 16 <= Live(h.blocks, FIRST)[p] <= |h.data[p]| + 47
  }

  // What the code leaves to its callers: pointers that are live, sizes that are admissible.
  predicate Legal(h: Heap, limit: nat, op: Op) {
    match op
    case Malloc(size) => Admissible(Booted(h), limit, size)
    case Free(p) => p == NULL || p in h.data
    case Realloc(p, size) => (p == NULL || p in h.data) && (size > 0 ==> Admissible(Booted(h), limit, size))
    case Write(p, off, v) => p in h.data && off < |h.data[p]|
  }

  ghost predicate Step(h: Heap, limit: nat, op: Op, r: nat, h': Heap)
    requires Inv(h, limit) && Legal(h, limit, op)
  {
    BootedInv(h, limit);
    var booted := FIRST + Total(Booted(h).blocks) <= limit;  // otherwise mm_init exits
    match op
    case Malloc(size) => booted && MallocStep(Booted(h), limit, size, r, h')
    case Free(p) => r == NULL && FreeStep(h, p, h')
    case Realloc(p, size) =>
      if size == 0 then r == NULL && FreeStep(h, p, h')
      else booted && ReallocStep(Booted(h), limit, p, size, r, h')
    case Write(p, off, v) => r == NULL && WriteStep(h, p, off, v, h')
  }

  lemma BootedInv(h: Heap, limit: nat)
    requires Inv(h, limit)
    ensures WellFormed(Booted(h).blocks) && Booted(h).data.Keys == Live(Booted(h).blocks, FIRST).Keys
    ensures Booted(h).data == h.data
    ensures FIRST + Total(Booted(h).blocks) <= limit ==> Inv(Booted(h), limit)
  {
    if h.blocks == [] {
      var bs := INITIAL.blocks;
      assert bs[1..] == [];
      assert h.data.Keys == {};
      assert h.data == map[];
    }
  }
}
