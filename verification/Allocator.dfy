// The allocator itself: mm.c's operations as methods that overwrite tags in the
// shared arena, in the order the code writes them.
module Allocator {
  import opened Words
  import opened Blocks
  import opened BoundaryTags
  import opened Sizes
  import opened HeapSpec
  import opened HeapRuns
  import L = HeapLaws
  import A = Arena

  // Two stores at different places, in either order.
  lemma TwoWrites(m: seq<byte>, a: nat, b: nat, v: word)
    requires a + 8 <= |m| && b + 8 <= |m| && (a + 8 <= b || b + 8 <= a)
    ensures var m' := WriteWord(WriteWord(m, a, v), b, v);
            var lo, hi := if a < b then a else b, if a < b then b else a;
            ReadWord(m', a) == v && ReadWord(m', b) == v && Agree(m, m', 0, lo) && Agree(m, m', hi + 8, |m|)
  {
    var m1 := WriteWord(m, a, v);
    ReadBack(m, a, v);
    ReadBack(m1, b, v);
    ReadOther(m1, b, v, a);
  }

  // bp points at tile k; k == |ts| is the epilogue.
  ghost predicate At(m: seq<byte>, brk: nat, ts: seq<Block>, k: nat, bp: nat) {
    && k <= |ts| && bp == LISTP + Total(ts[..k]) && bp <= brk <= |m|
    && Tagged(m, bp, ts[k..]) && brk == bp + Total(ts[k..])
    && ReadWord(m, brk - 8) == EPILOGUE
  }

  lemma WalkStart(m: seq<byte>, brk: nat, ts: seq<Block>)
    requires Tiled(m, brk, ts)
    ensures At(m, brk, ts, 0, LISTP)
  {
    hide ReadWord, Tagged;
    assert ts[0..] == ts && ts[..0] == [];
  }

  // What the header at tile k says, and that next_blkp leads to tile k + 1.
  lemma WalkTags(m: seq<byte>, brk: nat, ts: seq<Block>, k: nat, bp: nat)
    requires At(m, brk, ts, k, bp)
    ensures GetSize(ReadWord(m, bp - 8)) == 0 <==> k == |ts|
    ensures k < |ts| ==> && GetSize(ReadWord(m, bp - 8)) == ts[k].size
                         && GetAlloc(ReadWord(m, bp - 8)) == (if ts[k].alloc then 1 else 0)
                         && At(m, brk, ts, k + 1, bp + ts[k].size)
  {
    hide ReadWord;
    if k < |ts| {
      var rest := ts[k..];
      FirstOf(m, bp, rest);
      TagParts(ts[k]);
      assert rest[1..] == ts[k + 1..];
      TotalSplit(ts, k);
    }
  }

  lemma FoundAt(ts: seq<Block>, asize: nat, k: nat)
    requires ts != [] && ts[0] == PROLOGUE && k < |ts|
    requires forall j | 0 <= j < k :: ts[j].alloc || ts[j].size < asize
    requires !ts[k].alloc && asize <= ts[k].size
    ensures var bs, i := ts[1..], k - 1;
            i < |bs| && i == FirstFit(bs, asize) && LISTP + Total(ts[..k]) == FIRST + Total(bs[..i])
  {
    var bs, i := ts[1..], k - 1;
    assert forall j | 0 <= j < |bs| :: bs[j] == ts[j + 1];
    assert ts[..k] == [PROLOGUE] + bs[..i];
    PrologueTotal(bs[..i]);
  }

  lemma FoundNowhere(ts: seq<Block>, asize: nat)
    requires ts != [] && forall j | 0 <= j < |ts| :: ts[j].alloc || ts[j].size < asize
    ensures FirstFit(ts[1..], asize) == |ts[1..]|
  {
    var bs := ts[1..];
    assert forall j | 0 <= j < |bs| :: bs[j] == ts[j + 1];
  }

  // Memory m' is m with b freed and merged with its free neighbours; bp is the
  // merged block, and no byte outside it changed.
  ghost predicate Merged(m: seq<byte>, m': seq<byte>, brk: nat, pre: seq<Block>, b: Block, suf: seq<Block>, bp: nat) {
    && Tiled(m', brk, [PROLOGUE] + Merge(pre, b.size, suf))
    && bp == FIRST + Total(DropFreeTail(pre))
    && Agree(m, m', 0, bp - 8)
    && Agree(m, m', FIRST + Total(pre) + b.size + FreeHead(suf) - 8, |m|)
  }

  // A block of v bytes from h to f, written by two stores and nothing else.
  ghost predicate Stored(m: seq<byte>, m': seq<byte>, h: nat, f: nat, v: nat) {
    && h + 8 <= |m| && f + 8 <= |m| == |m'| && ReadWord(m', h) == v && ReadWord(m', f) == v
    && Agree(m, m', 0, h) && Agree(m, m', f + 8, |m|)
  }

  // Cases 1 and 2: the header, then the footer it now leads to.
  lemma HeaderThenFooter(m: seq<byte>, bp: nat, v: word)
    requires 8 <= bp && bp + v <= |m| && 16 <= v && v % 16 == 0
    ensures Pack(v, 0) == v
    ensures var m1 := WriteWord(m, bp - 8, v);
            && FtrPointer(m1, bp) == bp + v - 16
            && Stored(m, WriteWord(m1, bp + v - 16, v), bp - 8, bp + v - 16, v)
  {
    hide ReadWord, WriteWord;
    ReadBack(m, bp - 8, v);
    TwoWrites(m, bp - 8, bp + v - 16, v);
  }

  // Case 3: the footer, then the header of the block that the footer behind bp leads to.
  lemma FooterThenPrevious(m: seq<byte>, bp: nat, l: nat, s: nat, v: word)
    requires 16 <= l && 24 <= bp - l && 16 <= s && bp + s <= |m| && v == l + s
    requires GetSize(ReadWord(m, bp - 8)) == s && GetSize(ReadWord(m, bp - 16)) == l
    ensures Pack(v, 0) == v && FtrPointer(m, bp) == bp + s - 16
    ensures var m1 := WriteWord(m, bp + s - 16, v);
            && PrevBlkp(m1, bp) == bp - l
            && var m2 := WriteWord(m1, bp - l - 8, v);
               PrevBlkp(m2, bp) == bp - l && Stored(m, m2, bp - l - 8, bp + s - 16, v)
  {
    hide ReadWord, WriteWord;
    var m1 := WriteWord(m, bp + s - 16, v);
    ReadOther(m, bp + s - 16, v, bp - 16);
    ReadOther(m1, bp - l - 8, v, bp - 16);
    TwoWrites(m, bp + s - 16, bp - l - 8, v);
  }

  // Case 4: the previous block's header, then the next block's footer.
  lemma PreviousThenNext(m: seq<byte>, bp: nat, l: nat, s: nat, r: nat, v: word)
    requires 16 <= l && 24 <= bp - l && 16 <= s && 16 <= r && bp + s + r <= |m| && v == l + s + r
    requires GetSize(ReadWord(m, bp - 8)) == s && GetSize(ReadWord(m, bp - 16)) == l && GetSize(ReadWord(m, bp + s - 8)) == r
    ensures Pack(v, 0) == v && PrevBlkp(m, bp) == bp - l
    ensures var m1 := WriteWord(m, bp - l - 8, v);
            && NextBlkp(m1, bp) == bp + s && FtrPointer(m1, bp + s) == bp + s + r - 16
            && var m2 := WriteWord(m1, bp + s + r - 16, v);
               PrevBlkp(m2, bp) == bp - l && Stored(m, m2, bp - l - 8, bp + s + r - 16, v)
  {
    hide ReadWord, WriteWord;
    var m1 := WriteWord(m, bp - l - 8, v);
    ReadOther(m, bp - l - 8, v, bp - 16);
    ReadOther(m, bp - l - 8, v, bp - 8);
    ReadOther(m, bp - l - 8, v, bp + s - 8);
    ReadOther(m1, bp + s + r - 16, v, bp - 16);
    TwoWrites(m, bp - l - 8, bp + s + r - 16, v);
  }

  // place's four stores: two blocks where one was.
  lemma SplitTags(m: seq<byte>, bp: nat, asize: word, rest: word)
    requires 8 <= bp && bp + asize + rest <= |m|
    requires asize % 16 == 0 && rest % 16 == 0 && MIN_BLOCK <= asize && MIN_BLOCK <= rest
    ensures var (y, z) := (Block(asize, true), Block(rest, false));
            && Pack(asize, 1) == TagOf(y) && Pack(rest, 0) == TagOf(z)
            && var m1 := WriteWord(m, bp - 8, TagOf(y));
            && FtrPointer(m1, bp) == bp + asize - 16
            && var m2 := WriteWord(m1, bp + asize - 16, TagOf(y));
            && NextBlkp(m2, bp) == bp + asize
            && var m3 := WriteWord(m2, bp + asize - 8, TagOf(z));
            && FtrPointer(m3, bp + asize) == bp + asize + rest - 16
            && var m4 := WriteWord(m3, bp + asize + rest - 16, TagOf(z));
            && Tagged(m4, bp, [y, z]) && Total([y, z]) == asize + rest
            && Agree(m, m4, 0, bp - 8) && Agree(m, m4, bp + asize + rest - 8, |m|)
  {
    hide ReadWord, WriteWord, Tagged, Total;
    var y, z := Block(asize, true), Block(rest, false);
    TagParts(y);
    TagParts(z);
    ReadBack(m, bp - 8, TagOf(y));
    TwoWrites(m, bp - 8, bp + asize - 16, TagOf(y));
    var m2 := WriteWord(WriteWord(m, bp - 8, TagOf(y)), bp + asize - 16, TagOf(y));
    ReadBack(m2, bp + asize - 8, TagOf(z));
    TwoWrites(m2, bp + asize - 8, bp + asize + rest - 16, TagOf(z));
    var m4 := WriteWord(WriteWord(m2, bp + asize - 8, TagOf(z)), bp + asize + rest - 16, TagOf(z));
    AgreeReads(m2, m4, 0, bp + asize - 8, bp - 8);
    AgreeReads(m2, m4, 0, bp + asize - 8, bp + asize - 16);
    TwoTags(m4, bp, y, z);
  }

  // Whichever case: one header and one footer around the run make the merged block.
  lemma MergedBy(m: seq<byte>, m': seq<byte>, brk: nat, pre: seq<Block>, b: Block, suf: seq<Block>)
    requires TiledParts(m, brk, [PROLOGUE] + pre, [b], suf)
    requires var bp, l, r := FIRST + Total(pre), FreeTail(pre), FreeHead(suf);
             bp - l - 8 >= 0 && bp + b.size + r >= 16 && Stored(m, m', bp - l - 8, bp + b.size + r - 16, l + b.size + r)
    ensures Merged(m, m', brk, pre, b, suf, FIRST + Total(pre) - FreeTail(pre))
  {
    hide ReadWord, TiledParts, Tiled, Total, FreeTail, FreeHead, DropFreeTail, Merge;
    TagsBehind(m, brk, pre, b, suf);
    TagsAhead(m, brk, pre, b, suf);
    AlignedSum(FreeTail(pre), b.size);
    AlignedSum(FreeTail(pre) + b.size, FreeHead(suf));
    MergeTags(m, m', brk, pre, b, suf);
  }

  // Every live block's requested bytes lie inside the arena.
  ghost predicate InArena(requested: map<nat, nat>, length: nat) {
    forall p | p in requested :: p + requested[p] <= length
  }

  ghost function DataOf(m: seq<byte>, requested: map<nat, nat>): map<nat, seq<byte>>
    requires InArena(requested, |m|)
  {
    map p | p in requested :: m[p..p + requested[p]]
  }

  lemma FreeNotLive(bs: seq<Block>, i: nat)
    requires WellFormed(bs) && i < |bs| && !bs[i].alloc
    ensures FIRST + Total(bs[..i]) !in Live(bs, FIRST)
  {
    hide NoFreePair, Live, Total;
    WellFormedParts(bs, i);
    assert bs == bs[..i] + [bs[i]] + bs[i + 1..];
    LiveAround(bs[..i], bs[i], bs[i + 1..], FIRST);
  }

  // Every live pointer belongs to an allocated block that covers its request and its tags.
  ghost predicate Covered(requested: map<nat, nat>, bs: seq<Block>) {
    forall q | q in requested :: q in Live(bs, FIRST) && requested[q] + 16 <= Live(bs, FIRST)[q]
  }

  // A change between the tags of block i, or of its tags, leaves every other
  // live block's bytes alone.
  lemma DataBeside(m: seq<byte>, m': seq<byte>, requested: map<nat, nat>, bs: seq<Block>, i: nat)
    requires WellFormed(bs) && i < |bs| && Covered(requested, bs)
    requires InArena(requested, |m|) && |m| == |m'|
    requires var p := FIRST + Total(bs[..i]);
             Agree(m, m', 0, p - 8) && Agree(m, m', p + bs[i].size, |m|)
    ensures forall q | q in requested && q != FIRST + Total(bs[..i]) :: DataOf(m', requested)[q] == DataOf(m, requested)[q]
    ensures FIRST + Total(bs[..i]) !in requested ==> DataOf(m', requested) == DataOf(m, requested)
  {
    hide NoFreePair, Live, Total;
    forall q | q in requested && q != FIRST + Total(bs[..i])
      ensures m'[q..q + requested[q]] == m[q..q + requested[q]]
    {
      Beside(bs, i, q);
    }
  }

  lemma DataCovered(h: Heap, limit: nat, m: seq<byte>, requested: map<nat, nat>)
    requires Inv(h, limit) && InArena(requested, |m|) && h.data == DataOf(m, requested)
    ensures Covered(requested, h.blocks) && requested.Keys == Live(h.blocks, FIRST).Keys == h.data.Keys
    ensures forall q | q in requested :: |h.data[q]| == requested[q]
  {
    assert h.data.Keys == requested.Keys;
  }

  lemma DataKeys(m: seq<byte>, requested: map<nat, nat>)
    requires InArena(requested, |m|)
    ensures DataOf(m, requested).Keys == requested.Keys
  {
  }

  lemma NoData(m: seq<byte>)
    ensures DataOf(m, map[]) == map[]
  {
  }

  lemma DataBytes(m: seq<byte>, requested: map<nat, nat>, q: nat)
    requires InArena(requested, |m|) && q in requested
    ensures DataOf(m, requested)[q] == m[q..q + requested[q]]
  {
  }

  lemma DataWithout(m: seq<byte>, m': seq<byte>, requested: map<nat, nat>, p: nat)
    requires InArena(requested, |m|) && |m| == |m'|
    requires DataOf(m', requested - {p}) == DataOf(m, requested - {p})
    ensures DataOf(m', requested - {p}) == DataOf(m, requested) - {p}
  {
  }

  lemma LiveEnd(bs: seq<Block>, p: nat)
    requires Sized(bs) && p in Live(bs, FIRST)
    ensures p + Live(bs, FIRST)[p] <= FIRST + Total(bs)
  {
    LiveBounds(bs, FIRST);
  }

  // The last block of a grown heap reaches the new break.
  lemma GrowEnd(bs: seq<Block>, size: nat)
    ensures var g, i := Grow(bs, size), |DropFreeTail(bs)|;
            && |g| == i + 1 && g[..i] == DropFreeTail(bs)
            && Total(g[..i]) + g[i].size == Total(g)
  {
    var g, i := Grow(bs, size), |DropFreeTail(bs)|;
    assert DropFreeHead([]) == [];
    TotalSplit(g, i);
    assert g[i + 1..] == [];
  }

  lemma ZeroMalloc(h: Heap, limit: nat)
    requires WellFormed(h.blocks)
    ensures Admissible(h, limit, 0) && MallocStep(h, limit, 0, NULL, h)
  {
  }

  lemma CoveredAgain(requested: map<nat, nat>, bs: seq<Block>, bs': seq<Block>)
    requires Covered(requested, bs) && Live(bs, FIRST) == Live(bs', FIRST)
    ensures Covered(requested, bs')
  {
  }

  lemma BootedState(h: Heap, limit: nat)
    requires Inv(h, limit) && h.blocks != []
    ensures Booted(h) == h && WellFormed(h.blocks) && FIRST + Total(h.blocks) <= limit
  {
  }

  lemma InvBlocks(h: Heap, limit: nat)
    requires Inv(h, limit)
    ensures WellFormed(h.blocks)
  {
  }

  lemma FreeNull(h: Heap)
    ensures FreeStep(h, NULL, h)
  {
  }

  lemma FreedAt(bs: seq<Block>, i: nat)
    requires i < |bs|
    ensures var g, j := FreeAt(bs, i), |DropFreeTail(bs[..i])|;
            && g == Merge(bs[..i], bs[i].size, bs[i + 1..])
            && j < |g| && g[..j] == DropFreeTail(bs[..i]) && !g[j].alloc
            && g[j].size == FreeTail(bs[..i]) + bs[i].size + FreeHead(bs[i + 1..])
  {
  }

  // mm_free's last step: what coalesce did to the bytes is a FreeStep.
  lemma {:induction false} FreeDone(h: Heap, limit: nat, m: seq<byte>, m': seq<byte>, brk: nat, requested: map<nat, nat>, p: nat, bp: nat)
    requires Inv(h, limit) && InArena(requested, |m|) && h.data == DataOf(m, requested) && |m| == |m'|
    requires p in Live(h.blocks, FIRST) && brk == FIRST + Total(h.blocks) <= |m|
    requires var i := IndexOf(h.blocks, FIRST, p);
             Merged(m, m', brk, h.blocks[..i], h.blocks[i], h.blocks[i + 1..], bp)
    ensures var bs := FreeAt(h.blocks, IndexOf(h.blocks, FIRST, p));
            && Tiled(m', brk, [PROLOGUE] + bs) && WellFormed(bs) && bs != []
            && InArena(requested - {p}, |m'|)
            && FreeStep(h, p, Heap(bs, DataOf(m', requested - {p})))
  {
    hide Live, Tiled, WellFormed, Total, IndexOf, DataOf, Inv, FreeAt, Merge, DropFreeTail, FreeTail, FreeHead;
    assert WellFormed(h.blocks) by { InvBlocks(h, limit); }
    var i := IndexOf(h.blocks, FIRST, p);
    var pre, b, suf := h.blocks[..i], h.blocks[i], h.blocks[i + 1..];
    var bs, j := FreeAt(h.blocks, i), |DropFreeTail(pre)|;
    IndexOfAddress(h.blocks, FIRST, p);
    FreeAtFacts(h.blocks, i, FIRST);
    DataCovered(h, limit, m, requested);
    FreedAt(h.blocks, i);
    DropTailTotal(pre);
    var rest := requested - {p};
    DataBeside(m, m', rest, bs, j);
    FreeNotLive(bs, j);
    DataWithout(m, m', requested, p);
  }

  // A change between the tags of one live block reaches only that block's bytes.
  lemma PayloadChanged(h: Heap, limit: nat, m: seq<byte>, m': seq<byte>, brk: nat, requested: map<nat, nat>, p: nat)
    requires Inv(h, limit) && InArena(requested, |m|) && h.data == DataOf(m, requested) && |m| == |m'|
    requires p in requested && Tiled(m, brk, [PROLOGUE] + h.blocks)
    requires Agree(m, m', 0, p) && Agree(m, m', p + requested[p], |m|)
    ensures Tiled(m', brk, [PROLOGUE] + h.blocks)
    ensures DataOf(m', requested) == h.data[p := m'[p..p + requested[p]]]
    ensures Inv(Heap(h.blocks, DataOf(m', requested)), limit)
  {
    PayloadTags(h, limit, m, m', brk, requested, p);
    PayloadData(h, limit, m, m', requested, p);
    hide Inv, DataOf, Tiled;
    DataCovered(h, limit, m, requested);
    SameShape(h, Heap(h.blocks, DataOf(m', requested)), limit);
  }

  lemma SameShape(h: Heap, h': Heap, limit: nat)
    requires Inv(h, limit) && h'.blocks == h.blocks && h'.data.Keys == h.data.Keys
    requires forall q | q in h.data :: |h'.data[q]| == |h.data[q]|
    ensures Inv(h', limit)
  {
    hide Live, Total, NoFreePair;
  }

  lemma PayloadData(h: Heap, limit: nat, m: seq<byte>, m': seq<byte>, requested: map<nat, nat>, p: nat)
    requires Inv(h, limit) && InArena(requested, |m|) && h.data == DataOf(m, requested) && |m| == |m'|
    requires p in requested && Agree(m, m', 0, p) && Agree(m, m', p + requested[p], |m|)
    ensures DataOf(m', requested) == h.data[p := m'[p..p + requested[p]]]
  {
    hide Live, Total, NoFreePair;
    DataCovered(h, limit, m, requested);
    hide Inv;
    assert WellFormed(h.blocks) by { InvBlocks(h, limit); }
    var i := IndexOf(h.blocks, FIRST, p);
    IndexOfAddress(h.blocks, FIRST, p);
    DataBeside(m, m', requested, h.blocks, i);
  }

  lemma PayloadTags(h: Heap, limit: nat, m: seq<byte>, m': seq<byte>, brk: nat, requested: map<nat, nat>, p: nat)
    requires Inv(h, limit) && InArena(requested, |m|) && h.data == DataOf(m, requested) && |m| == |m'|
    requires p in requested && Tiled(m, brk, [PROLOGUE] + h.blocks)
    requires Agree(m, m', 0, p) && Agree(m, m', p + requested[p], |m|)
    ensures Tiled(m', brk, [PROLOGUE] + h.blocks)
  {
    hide Live, Total, Tiled, TiledParts, NoFreePair, ReadWord;
    var bs := h.blocks;
    DataCovered(h, limit, m, requested);
    hide Inv, DataOf;
    var i := IndexOf(bs, FIRST, p);
    IndexOfAddress(bs, FIRST, p);
    PartsAt(m, brk, bs, i);
    Neighbours(m, brk, [PROLOGUE] + bs[..i], bs[i], bs[i + 1..]);
    AgreeReads(m, m', 0, p, p - 8);
    AgreeReads(m, m', p + requested[p], |m|, p + bs[i].size - 16);
    OneTag(m', p, bs[i]);
    ReplaceAt(m, m', brk, bs, i, [bs[i]]);
    assert bs[..i] + [bs[i]] + bs[i + 1..] == bs;
  }

  lemma ByteStored(m: seq<byte>, p: nat, off: nat, n: nat, v: byte)
    requires off < n && p + n <= |m|
    ensures var m' := m[p + off := v];
            && m'[p..p + n] == m[p..p + n][off := v]
            && Agree(m, m', 0, p) && Agree(m, m', p + n, |m|)
  {
  }

  // MallocStep says nothing of the bytes it hands out.
  lemma AnyBytes(h: Heap, limit: nat, size: word, p: nat, mid: Heap, mid': Heap)
    requires WellFormed(h.blocks) && Admissible(h, limit, size) && MallocStep(h, limit, size, p, mid) && p != NULL
    requires mid'.blocks == mid.blocks && p in mid.data && p in mid'.data
    requires |mid'.data[p]| == |mid.data[p]| && mid'.data == mid.data[p := mid'.data[p]]
    ensures MallocStep(h, limit, size, p, mid')
  {
    hide Live, Total, PlaceAt, Room, Exhausted, Admissible;
  }

  lemma FailedMove(h: Heap, limit: nat, p: nat, size: word, h': Heap)
    requires WellFormed(h.blocks) && Admissible(h, limit, size) && p in h.data && p in Live(h.blocks, FIRST)
    requires size > 0 && p != NULL && MallocStep(h, limit, size, NULL, h')
    ensures ReallocStep(h, limit, p, size, NULL, h')
  {
    hide MallocStep;
    assert MoveStep(h, limit, p, size, NULL, h', h');
  }

  lemma Moved(h: Heap, limit: nat, p: nat, size: word, r: nat, mid: Heap, h': Heap)
    requires WellFormed(h.blocks) && Admissible(h, limit, size) && p in h.data && p in Live(h.blocks, FIRST)
    requires size > 0 && p != NULL && r != NULL && MallocStep(h, limit, size, r, mid)
    requires p in Live(mid.blocks, FIRST) && r in mid.data && FreeStep(mid, p, h')
    requires var kept := Min(size, |h.data[p]|);
             kept <= |mid.data[r]| && mid.data[r][..kept] == h.data[p][..kept]
    ensures ReallocStep(h, limit, p, size, r, h')
  {
    hide MallocStep, FreeStep;
    assert MoveStep(h, limit, p, size, r, mid, h');
  }

  // The copy's source lies below the break, its target inside the new payload,
  // and the two do not overlap.
  lemma MoveRanges(h: Heap, limit: nat, m: seq<byte>, brk: nat, requested: map<nat, nat>, bs: seq<Block>, p: nat, r: nat, size: word)
    requires Inv(h, limit) && h.blocks != [] && size > 0 && Admissible(h, limit, size) && p in h.data
    requires InArena(requested, |m|) && Tiled(m, brk, [PROLOGUE] + bs)
    requires r != NULL && MallocStep(h, limit, size, r, Heap(bs, DataOf(m, requested)))
    ensures p in requested && r in requested && requested[r] == size && p != r && p in Live(h.blocks, FIRST)
    ensures |h.data[p]| == requested[p] && h.data[p] == m[p..p + requested[p]]
    ensures FIRST <= p <= |m| && GetSize(ReadWord(m, p - 8)) == Live(h.blocks, FIRST)[p]
    ensures var n := Min(size, Live(h.blocks, FIRST)[p]);
            && p + n <= brk <= |m| && r + n <= r + size && r + size <= brk
            && (p + n <= r || r + n <= p)
            && requested[p] + 16 <= Live(h.blocks, FIRST)[p]
  {
    hide Live, Total, Tiled, NoFreePair, ReadWord, Admissible, MallocStep, TiledParts, DataOf;
    var h' := Heap(bs, DataOf(m, requested));
    MallocFacts(h, limit, size, r, h');
    MallocData(h, limit, size, r, h');
    var live := Live(bs, FIRST);
    assert h'.data.Keys == requested.Keys by { DataKeys(m, requested); }
    DataBytes(m, requested, p);
    DataBytes(m, requested, r);
    BreakOf(m, brk, bs);
    var i := IndexOf(bs, FIRST, p);
    IndexOfAddress(bs, FIRST, p);
    PartsAt(m, brk, bs, i);
    Neighbours(m, brk, [PROLOGUE] + bs[..i], bs[i], bs[i + 1..]);
    TagParts(bs[i]);
    LiveBounds(bs, FIRST);
    if p < r {
      LiveApart(bs, FIRST, p, r);
    } else {
      LiveApart(bs, FIRST, r, p);
    }
  }

  // The copied prefix of the new block is the old block's content.
  lemma KeptBytes(h: Heap, limit: nat, m: seq<byte>, m': seq<byte>, requested: map<nat, nat>, p: nat, r: nat, size: nat, n: nat)
    requires InArena(requested, |m|) && |m| == |m'| && p in h.data && p in requested && r in requested
    requires requested[r] == size && requested[p] == |h.data[p]| && h.data[p] == m[p..p + requested[p]]
    requires Min(size, |h.data[p]|) <= n <= size && p + n <= |m|
    requires m'[r..r + n] == m[p..p + n]
    ensures DataOf(m', requested)[r][..Min(size, |h.data[p]|)] == h.data[p][..Min(size, |h.data[p]|)]
  {
    var k := Min(size, |h.data[p]|);
    assert DataOf(m', requested)[r][..k] == m'[r..r + n][..k];
    assert h.data[p][..k] == m[p..p + n][..k];
  }

  // The heap between the copy and the release: the layout and every other block
  // as malloc left them, the kept prefix in the new block.
  lemma CopyDone(h: Heap, limit: nat, m: seq<byte>, m': seq<byte>, brk: nat, requested: map<nat, nat>, bs: seq<Block>, p: nat, r: nat, size: word)
    requires Inv(h, limit) && h.blocks != [] && size > 0 && Admissible(h, limit, size) && p in h.data
    requires InArena(requested, |m|) && Tiled(m, brk, [PROLOGUE] + bs) && Inv(Heap(bs, DataOf(m, requested)), limit)
    requires r != NULL && MallocStep(h, limit, size, r, Heap(bs, DataOf(m, requested)))
    requires p in Live(h.blocks, FIRST)
    requires var n := Min(size, Live(h.blocks, FIRST)[p]);
             p + n <= |m| && r + n <= |m| && m' == m[..r] + m[p..p + n] + m[r + n..]
    ensures |m'| == |m| && Tiled(m', brk, [PROLOGUE] + bs) && WellFormed(h.blocks)
    ensures var mid := Heap(bs, DataOf(m', requested));
            && Inv(mid, limit) && MallocStep(h, limit, size, r, mid)
            && p in requested && p in mid.data && p in Live(bs, FIRST) && r in mid.data && |mid.data[r]| == size
            && var kept := Min(size, |h.data[p]|);
               mid.data[r][..kept] == h.data[p][..kept]
  {
    hide Live, Total, Inv, Tiled, MallocStep, Admissible, DataOf, WellFormed;
    var mid0, mid := Heap(bs, DataOf(m, requested)), Heap(bs, DataOf(m', requested));
    MoveRanges(h, limit, m, brk, requested, bs, p, r, size);
    var n := Min(size, Live(h.blocks, FIRST)[p]);
    CopyAgrees(m, m', p, r, n, size);
    PayloadChanged(mid0, limit, m, m', brk, requested, r);
    DataCovered(mid, limit, m', requested);
    DataCovered(mid0, limit, m, requested);
    BootedState(h, limit);
    KeptBytes(h, limit, m, m', requested, p, r, size, n);
    AnyBytes(h, limit, size, r, mid0, mid);
  }

  lemma CopyAgrees(m: seq<byte>, m': seq<byte>, p: nat, r: nat, n: nat, size: nat)
    requires n <= size && p + n <= |m| && r + size <= |m| && m' == m[..r] + m[p..p + n] + m[r + n..]
    ensures Agree(m, m', 0, r) && Agree(m, m', r + size, |m|) && m'[r..r + n] == m[p..p + n]
  {
  }

  // extend_heap's size: an even number of words, in bytes.
  function EvenBytes(words: nat): nat {
    if words % 2 != 0 then (words + 1) * 8 else words * 8
  }

  lemma EvenBytesIsLeast(words: nat)
    ensures words * 8 <= EvenBytes(words) < words * 8 + 16 && EvenBytes(words) % 16 == 0
  {
    var k := EvenBytes(words) / 16;
    assert EvenBytes(words) == 16 * k;
  }

  lemma WholeWords(size: word)
    requires size % 4096 == 0
    ensures EvenBytes(size / 8) == size && size % 16 == 0
  {
    var words, k := size / 8, size / 4096;
    assert size == 4096 * k;
    assert words == 512 * k;
    assert words / 2 == 256 * k;
    assert size / 16 == 256 * k;
  }

  // mm_malloc's last step: what `place` did to the bytes is a MallocStep.
  lemma MallocDone(h: Heap, limit: nat, size: word, m1: seq<byte>, m2: seq<byte>, requested: map<nat, nat>)
    requires Inv(h, limit) && size > 0 && Admissible(h, limit, size) && !Exhausted(h, limit, size)
    requires InArena(requested, |m1|) && h.data == DataOf(m1, requested) && |m1| == |m2|
    requires var (bs, i) := Room(h, size);
             && i < |bs| && FIRST + Total(bs) <= |m1|
             && var p := FIRST + Total(bs[..i]);
                Agree(m1, m2, 0, p - 8) && Agree(m1, m2, p + bs[i].size - 8, |m1|)
    ensures var (bs, i) := Room(h, size);
            var p := FIRST + Total(bs[..i]);
            && AdjustedSize(size) <= bs[i].size && p !in requested
            && InArena(requested[p := size], |m2|)
            && MallocStep(h, limit, size, p, Heap(PlaceAt(bs, i, AdjustedSize(size)), DataOf(m2, requested[p := size])))
  {
    hide Live, Total, PlaceAt, Room, Admissible, Exhausted, AdjustedSize, DataOf, NoFreePair, Inv;
    InvBlocks(h, limit);
    RoomFacts(h, limit, size);
    var (bs, i) := Room(h, size);
    var p := FIRST + Total(bs[..i]);
    DataCovered(h, limit, m1, requested);
    PlaceAtFacts(bs, i, AdjustedSize(size), FIRST);
    DataBeside(m1, m2, requested, bs, i);
    var placed := PlaceAt(bs, i, AdjustedSize(size));
    LiveEnd(placed, p);
    DataWith(m2, requested, p, size);
  }

  lemma DataWith(m: seq<byte>, requested: map<nat, nat>, p: nat, size: nat)
    requires InArena(requested, |m|) && p !in requested && p + size <= |m|
    ensures var now := requested[p := size];
            && InArena(now, |m|) && p in DataOf(m, now) && |DataOf(m, now)[p]| == size && p !in DataOf(m, requested)
            && DataOf(m, now) - {p} == DataOf(m, requested)
  {
  }

  // The four words mm_init stores: padding, prologue header and footer, epilogue.
  lemma InitialTags(m: seq<byte>)
    requires 32 <= |m|
    ensures var m' := WriteWord(WriteWord(WriteWord(WriteWord(m, 0, 0), 8, 17), 16, 17), 24, EPILOGUE);
            Tiled(m', 32, [PROLOGUE] + [])
  {
    hide ReadWord, WriteWord;
    var m2 := WriteWord(WriteWord(m, 0, 0), 8, 17);
    var m3 := WriteWord(m2, 16, 17);
    var m4 := WriteWord(m3, 24, EPILOGUE);
    ReadBack(WriteWord(m, 0, 0), 8, 17);
    ReadBack(m2, 16, 17);
    ReadBack(m3, 24, EPILOGUE);
    ReadOther(m2, 16, 17, 8);
    ReadOther(m3, 24, EPILOGUE, 8);
    ReadOther(m3, 24, EPILOGUE, 16);
    OneTag(m4, LISTP, PROLOGUE);
    assert [PROLOGUE] + [] == [PROLOGUE];
  }

  // The new epilogue, stored behind a header and a footer already in place.
  lemma LastWrite(m: seq<byte>, m2: seq<byte>, p: nat, size: nat)
    requires |m| == |m2| && 8 <= p && 32 <= size && p + size <= |m|
    requires ReadWord(m2, p - 8) == size && ReadWord(m2, p + size - 16) == size
    requires Agree(m, m2, 0, p - 8) && Agree(m, m2, p + size - 8, |m|)
    ensures var m3 := WriteWord(m2, p + size - 8, EPILOGUE);
            && ReadWord(m3, p - 8) == size && ReadWord(m3, p + size - 16) == size && ReadWord(m3, p + size - 8) == EPILOGUE
            && Agree(m, m3, 0, p - 8) && Agree(m, m3, p + size, |m|)
  {
    hide ReadWord;
    ReadBack(m2, p + size - 8, EPILOGUE);
    ReadOther(m2, p + size - 8, EPILOGUE, p - 8);
    ReadOther(m2, p + size - 8, EPILOGUE, p + size - 16);
    WriteAgrees(m2, p + size - 8, EPILOGUE);
  }

  // extend_heap's three stores.
  lemma LastTags(m: seq<byte>, p: nat, size: word)
    requires 8 <= p && 32 <= size && size % 16 == 0 && p + size <= |m|
    ensures Pack(size, 0) == size && Pack(0, 1) == EPILOGUE
    ensures var m1 := WriteWord(m, p - 8, size);
            && FtrPointer(m1, p) == p + size - 16
            && var m2 := WriteWord(m1, p + size - 16, size);
            && NextBlkp(m2, p) == p + size
            && var m3 := WriteWord(m2, p + size - 8, EPILOGUE);
            && ReadWord(m3, p - 8) == size && ReadWord(m3, p + size - 16) == size && ReadWord(m3, p + size - 8) == EPILOGUE
            && Agree(m, m3, 0, p - 8) && Agree(m, m3, p + size, |m|)
  {
    hide ReadWord, WriteWord;
    HeaderThenFooter(m, p, size);
    LastWrite(m, WriteWord(WriteWord(m, p - 8, size), p + size - 16, size), p, size);
  }

  class Allocator {
    const arena: A.Arena
    var heapListp: nat

    ghost var blocks: seq<Block>          // the blocks between prologue and epilogue
    ghost var requested: map<nat, nat>    // live payload pointer -> size asked for

    // The program's static storage, before any call.
    constructor (limit: word)
      ensures heapListp == NULL && blocks == [] && requested == map[]
      ensures fresh(arena) && fresh(arena.bytes) && arena.limit == limit
      ensures Valid() && Abs() == UNUSED && IsRun(limit, [Abs()], [])
    {
      arena := new A.Arena(limit);
      heapListp := NULL;
      blocks, requested := [], map[];
      new;
      EmptyFacts(FIRST);
      assert Abs() == UNUSED by { NoData(arena.bytes[..]); }
    }

    // get_size and get_alloc of the word at p, and the three address helpers.
    function SizeAt(p: nat): word
      requires p + 8 <= arena.bytes.Length
      reads arena, arena.bytes
    {
      GetSize(arena.Read(p))
    }

    function AllocAt(p: nat): nat
      requires p + 8 <= arena.bytes.Length
      reads arena, arena.bytes
    {
      GetAlloc(arena.Read(p))
    }

    function Ftr(bp: nat): int
      requires 8 <= bp <= arena.bytes.Length
      reads arena, arena.bytes
    {
      FtrPointer(arena.bytes[..], bp)
    }

    function Next(bp: nat): nat
      requires 8 <= bp <= arena.bytes.Length
      reads arena, arena.bytes
    {
      NextBlkp(arena.bytes[..], bp)
    }

    function Prev(bp: nat): int
      requires 16 <= bp <= arena.bytes.Length + 8
      reads arena, arena.bytes
    {
      PrevBlkp(arena.bytes[..], bp)
    }

    // Block b is at bp, between pre and suf.
    ghost predicate Current(bp: nat, pre: seq<Block>, b: Block, suf: seq<Block>)
      reads arena, arena.bytes
    {
      && arena.Mapped() && arena.limit < WORD_LIMIT
      && TiledParts(arena.bytes[..], arena.brk, [PROLOGUE] + pre, [b], suf)
      && bp == FIRST + Total(pre)
    }

    // coalesce: free the block at currentBp, absorbing its free neighbours.
    method Coalesce(currentBp: nat, ghost pre: seq<Block>, ghost b: Block, ghost suf: seq<Block>) returns (bp: nat)
      requires Current(currentBp, pre, b, suf)
      modifies arena.bytes
      ensures Merged(old(arena.bytes[..]), arena.bytes[..], arena.brk, pre, b, suf, bp)
    {
      hide ReadWord, Tagged, TiledParts, Tiled, Total, FreeTail, FreeHead, DropFreeTail, DropFreeHead, Merge, Merged;
      TagsBehind(arena.bytes[..], arena.brk, pre, b, suf);
      TagsAhead(arena.bytes[..], arena.brk, pre, b, suf);
      var prevAlloc := AllocAt(Ftr(Prev(currentBp)));
      var nextAlloc := AllocAt(Next(currentBp) - 8);
      var size := SizeAt(currentBp - 8);
      if prevAlloc != 0 && nextAlloc != 0 {
        bp := CoalesceNeither(currentBp, size, pre, b, suf);
      } else if prevAlloc != 0 && nextAlloc == 0 {
        bp := CoalesceNext(currentBp, size, pre, b, suf);
      } else if prevAlloc == 0 && nextAlloc != 0 {
        bp := CoalescePrev(currentBp, size, pre, b, suf);
      } else {
        bp := CoalesceBoth(currentBp, size, pre, b, suf);
      }
    }

    // Case 1: both neighbours are allocated.
    method CoalesceNeither(currentBp: nat, size: word, ghost pre: seq<Block>, ghost b: Block, ghost suf: seq<Block>) returns (bp: nat)
      requires Current(currentBp, pre, b, suf) && size == b.size && !EndsFree(pre) && !StartsFree(suf)
      modifies arena.bytes
      ensures Merged(old(arena.bytes[..]), arena.bytes[..], arena.brk, pre, b, suf, bp)
    {
      hide ReadWord, WriteWord, TiledParts, Total, FreeTail, FreeHead, EndsFree, StartsFree, Merged, Agree, GetSize, Pack;
      ghost var m := arena.bytes[..];
      TagsBehind(m, arena.brk, pre, b, suf);
      TagsAhead(m, arena.brk, pre, b, suf);
      HeaderThenFooter(m, currentBp, size);
      arena.PutWord(currentBp - 8, Pack(size, 0));
      arena.PutWord(Ftr(currentBp), Pack(size, 0));
      bp := currentBp;
      MergedBy(m, arena.bytes[..], arena.brk, pre, b, suf);
    }

    // Case 2: the next block is free. The footer address is read off the header just written.
    method CoalesceNext(currentBp: nat, size: word, ghost pre: seq<Block>, ghost b: Block, ghost suf: seq<Block>) returns (bp: nat)
      requires Current(currentBp, pre, b, suf) && size == b.size && !EndsFree(pre) && StartsFree(suf)
      modifies arena.bytes
      ensures Merged(old(arena.bytes[..]), arena.bytes[..], arena.brk, pre, b, suf, bp)
    {
      hide ReadWord, WriteWord, TiledParts, Total, FreeTail, FreeHead, EndsFree, StartsFree, Merged, Agree, GetSize, Pack;
      ghost var m := arena.bytes[..];
      TagsBehind(m, arena.brk, pre, b, suf);
      TagsAhead(m, arena.brk, pre, b, suf);
      var merged := size + SizeAt(Next(currentBp) - 8);
      AlignedSum(b.size, FreeHead(suf));
      HeaderThenFooter(m, currentBp, merged);
      arena.PutWord(currentBp - 8, Pack(merged, 0));
      arena.PutWord(Ftr(currentBp), Pack(merged, 0));
      bp := currentBp;
      MergedBy(m, arena.bytes[..], arena.brk, pre, b, suf);
    }

    // Case 3: the previous block is free. Its footer, by now interior, still leads back to it.
    method CoalescePrev(currentBp: nat, size: word, ghost pre: seq<Block>, ghost b: Block, ghost suf: seq<Block>) returns (bp: nat)
      requires Current(currentBp, pre, b, suf) && size == b.size && EndsFree(pre) && !StartsFree(suf)
      modifies arena.bytes
      ensures Merged(old(arena.bytes[..]), arena.bytes[..], arena.brk, pre, b, suf, bp)
    {
      hide ReadWord, WriteWord, TiledParts, Total, FreeTail, FreeHead, EndsFree, StartsFree, Merged, Agree, GetSize, Pack;
      ghost var m, l := arena.bytes[..], FreeTail(pre);
      TagsBehind(m, arena.brk, pre, b, suf);
      TagsAhead(m, arena.brk, pre, b, suf);
      var merged := size + SizeAt(Prev(currentBp) - 8);
      FooterThenPrevious(m, currentBp, l, size, merged);
      arena.PutWord(Ftr(currentBp), Pack(merged, 0));
      arena.PutWord(Prev(currentBp) - 8, Pack(merged, 0));
      bp := Prev(currentBp);
      MergedBy(m, arena.bytes[..], arena.brk, pre, b, suf);
    }

    // Case 4: both are free. The stale header of the current block still leads to the next one.
    method CoalesceBoth(currentBp: nat, size: word, ghost pre: seq<Block>, ghost b: Block, ghost suf: seq<Block>) returns (bp: nat)
      requires Current(currentBp, pre, b, suf) && size == b.size && EndsFree(pre) && StartsFree(suf)
      modifies arena.bytes
      ensures Merged(old(arena.bytes[..]), arena.bytes[..], arena.brk, pre, b, suf, bp)
    {
      hide ReadWord, WriteWord, TiledParts, Total, FreeTail, FreeHead, EndsFree, StartsFree, Merged, Agree, GetSize, Pack;
      ghost var m, l, r := arena.bytes[..], FreeTail(pre), FreeHead(suf);
      TagsBehind(m, arena.brk, pre, b, suf);
      TagsAhead(m, arena.brk, pre, b, suf);
      var merged := size + SizeAt(Prev(currentBp) - 8) + SizeAt(Ftr(Next(currentBp)));
      PreviousThenNext(m, currentBp, l, size, r, merged);
      arena.PutWord(Prev(currentBp) - 8, Pack(merged, 0));
      arena.PutWord(Ftr(Next(currentBp)), Pack(merged, 0));
      bp := Prev(currentBp);
      MergedBy(m, arena.bytes[..], arena.brk, pre, b, suf);
    }

    // The arena holds exactly `blocks`, laid out canonically.
    ghost predicate HeapOk()
      reads this, arena, arena.bytes
    {
      && arena.Mapped() && arena.limit < WORD_LIMIT
      && heapListp == LISTP
      && Tiled(arena.bytes[..], arena.brk, [PROLOGUE] + blocks)
      && WellFormed(blocks)
    }

    // find_fit: the first free block of at least asize bytes, or NULL.
    method FindFit(asize: nat) returns (bp: nat)
      requires HeapOk()
      ensures var i := FirstFit(blocks, asize);
              bp == if i < |blocks| then FIRST + Total(blocks[..i]) else NULL
    {
      hide ReadWord, Total, Tagged, WellFormed, FirstFit;
      ghost var m, ts := arena.bytes[..], [PROLOGUE] + blocks;
      ghost var k: nat := 0;
      assert ts[1..] == blocks;
      bp := heapListp;
      WalkStart(m, arena.brk, ts);
      while SizeAt(bp - 8) > 0
        invariant k <= |ts| && At(m, arena.brk, ts, k, bp)
        invariant forall j | 0 <= j < k :: ts[j].alloc || ts[j].size < asize
        decreases |ts| - k
      {
        WalkTags(m, arena.brk, ts, k, bp);
        if AllocAt(bp - 8) == 0 && asize <= SizeAt(bp - 8) {
          FoundAt(ts, asize, k);
          return;
        }
        bp := Next(bp);
        k := k + 1;
      }
      WalkTags(m, arena.brk, ts, k, bp);
      FoundNowhere(ts, asize);
      bp := NULL;
    }

    // place: allocate asize bytes at the start of free block i, at bp.
    method Place(bp: nat, asize: word, ghost i: nat)
      requires HeapOk() && i < |blocks| && !blocks[i].alloc
      requires asize % 16 == 0 && MIN_BLOCK <= asize <= blocks[i].size
      requires bp == FIRST + Total(blocks[..i])
      modifies this`blocks, arena.bytes
      ensures HeapOk() && blocks == PlaceAt(old(blocks), i, asize) && blocks != []
      ensures Agree(old(arena.bytes[..]), arena.bytes[..], 0, bp - 8)
      ensures Agree(old(arena.bytes[..]), arena.bytes[..], bp + old(blocks)[i].size - 8, arena.limit)
    {
      hide ReadWord, WriteWord, Tagged, Tiled, Total, Live, TiledParts, WellFormed, Pack, Agree;
      ghost var m, b := arena.bytes[..], blocks[i];
      PartsAt(m, arena.brk, blocks, i);
      Neighbours(m, arena.brk, [PROLOGUE] + blocks[..i], b, blocks[i + 1..]);
      TagParts(b);
      var size := SizeAt(bp - 8);
      var rest: word := size - asize;
      if rest >= MIN_BLOCK {
        PlaceSplit(bp, asize, rest, i);
        assert [Block(asize, true), Block(rest, false)] == [Block(asize, true)] + [Block(rest, false)];
        assert PlaceAt(blocks, i, asize) == blocks[..i] + [Block(asize, true), Block(rest, false)] + blocks[i + 1..];
      } else {
        PlaceWhole(bp, size, i);
      }
      PlaceAtFacts(blocks, i, asize, FIRST);
      blocks := PlaceAt(blocks, i, asize);
    }

    // The block is split: asize bytes allocated, the remainder free.
    method PlaceSplit(bp: nat, asize: word, rest: word, ghost i: nat)
      requires HeapOk() && i < |blocks| && bp == FIRST + Total(blocks[..i])
      requires asize % 16 == 0 && MIN_BLOCK <= asize && rest % 16 == 0 && MIN_BLOCK <= rest
      requires asize + rest == blocks[i].size && bp + blocks[i].size <= arena.brk
      modifies arena.bytes
      ensures Tiled(arena.bytes[..], arena.brk,
                    [PROLOGUE] + (blocks[..i] + [Block(asize, true), Block(rest, false)] + blocks[i + 1..]))
      ensures Agree(old(arena.bytes[..]), arena.bytes[..], 0, bp - 8)
      ensures Agree(old(arena.bytes[..]), arena.bytes[..], bp + blocks[i].size - 8, arena.limit)
    {
      hide ReadWord, WriteWord, Tagged, Tiled, Total, Live, NoFreePair, Pack, GetSize;
      ghost var m := arena.bytes[..];
      SplitTags(m, bp, asize, rest);
      arena.PutWord(bp - 8, Pack(asize, 1));
      arena.PutWord(Ftr(bp), Pack(asize, 1));
      var next := Next(bp);
      arena.PutWord(next - 8, Pack(rest, 0));
      arena.PutWord(Ftr(next), Pack(rest, 0));
      ReplaceAt(m, arena.bytes[..], arena.brk, blocks, i, [Block(asize, true), Block(rest, false)]);
    }

    // The remainder would be too small: the whole block is allocated.
    method PlaceWhole(bp: nat, size: word, ghost i: nat)
      requires HeapOk() && i < |blocks| && bp == FIRST + Total(blocks[..i])
      requires size == blocks[i].size && size % 16 == 0 && MIN_BLOCK <= size && bp + size <= arena.brk
      modifies arena.bytes
      ensures Tiled(arena.bytes[..], arena.brk, [PROLOGUE] + (blocks[..i] + [Block(size, true)] + blocks[i + 1..]))
      ensures Agree(old(arena.bytes[..]), arena.bytes[..], 0, bp - 8)
      ensures Agree(old(arena.bytes[..]), arena.bytes[..], bp + size - 8, arena.limit)
    {
      hide ReadWord, WriteWord, Tagged, Tiled, Total, Live, NoFreePair;
      ghost var m, y := arena.bytes[..], Block(size, true);
      TagParts(y);
      arena.PutWord(bp - 8, Pack(size, 1));
      ReadBack(m, bp - 8, TagOf(y));
      arena.PutWord(Ftr(bp), Pack(size, 1));
      TwoWrites(m, bp - 8, bp + size - 16, TagOf(y));
      OneTag(arena.bytes[..], bp, y);
      ReplaceAt(m, arena.bytes[..], arena.brk, blocks, i, [y]);
    }

    // extend_heap: a new free block at the end, merged with a free block before it;
    // NULL, with nothing changed, when mem_sbrk refuses.
    method ExtendHeap(words: word) returns (bp: nat)
      requires HeapOk()
      requires EvenBytes(words) < WORD_LIMIT
      requires var size := EvenBytes(words);
               0 <= ToInt(size) && arena.brk + ToInt(size) <= arena.limit
               ==> ToInt(size) == size && MIN_BLOCK <= size && size % 16 == 0
      modifies this`blocks, arena`brk, arena.bytes
      ensures HeapOk()
      ensures var size := EvenBytes(words);
              if ToInt(size) < 0 || old(arena.brk) + ToInt(size) > arena.limit then
                bp == NULL && blocks == old(blocks) && arena.brk == old(arena.brk) && arena.bytes[..] == old(arena.bytes[..])
              else
                && bp == FIRST + Total(DropFreeTail(old(blocks)))
                && blocks == Grow(old(blocks), size)
                && Agree(old(arena.bytes[..]), arena.bytes[..], 0, bp - 8)
                && Agree(old(arena.bytes[..]), arena.bytes[..], arena.brk, arena.limit)
    {
      hide ReadWord, WriteWord, Tagged, Tiled, TiledParts, Total, Live, DropFreeTail, Merge, Pack, GetSize;
      var size: word := if words % 2 != 0 then (words + 1) * 8 else words * 8;
      ghost var m, old_brk := arena.bytes[..], arena.brk;
      BreakOf(m, arena.brk, blocks);
      var p := arena.Sbrk(ToInt(size));
      if p == -1 {
        return NULL;
      }
      LastTags(m, p, size);
      arena.PutWord(p - 8, Pack(size, 0));
      arena.PutWord(Ftr(p), Pack(size, 0));
      arena.PutWord(Next(p) - 8, Pack(0, 1));
      AppendTags(m, arena.bytes[..], old_brk, blocks, size);
      bp := Coalesce(p, blocks, Block(size, false), []);
      MergeFacts(blocks, size, [], FIRST);
      DropTailTotal(blocks);
      blocks := Grow(blocks, size);
    }

    // The abstract heap: the layout, and the requested bytes of every live block.
    ghost function Abs(): Heap
      reads this, arena, arena.bytes
      requires InArena(requested, arena.bytes.Length)
    {
      Heap(blocks, DataOf(arena.bytes[..], requested))
    }

    ghost predicate Valid()
      reads this, arena, arena.bytes
    {
      && arena.limit < WORD_LIMIT
      && InArena(requested, arena.bytes.Length)
      && (heapListp == NULL ==> blocks == [] && requested == map[])
      && (heapListp != NULL ==> HeapOk() && blocks != [])
      && Inv(Abs(), arena.limit)
    }

    // mm_init; false is the exit(1) taken when the arena is too small.
    method Init() returns (ok: bool)
      requires arena.limit < WORD_LIMIT
      modifies this, arena
      ensures fresh(arena.bytes)
      ensures ok <==> FIRST + CHUNKSIZE <= arena.limit
      ensures ok ==> Valid() && heapListp != NULL && Abs() == INITIAL && requested == map[]
    {
      hide ReadWord, WriteWord, Tiled, Tagged, Live, Grow, Inv;
      arena.Map();
      var start := arena.Sbrk(32);
      if start == -1 {
        return false;
      }
      heapListp := start;
      ghost var m := arena.bytes[..];
      arena.PutWord(heapListp, 0);
      arena.PutWord(heapListp + 8, Pack(16, 1));
      arena.PutWord(heapListp + 16, Pack(16, 1));
      arena.PutWord(heapListp + 24, Pack(0, 1));
      InitialTags(m);
      heapListp := heapListp + 16;
      blocks, requested := [], map[];
      var bp := ExtendHeap(CHUNKSIZE / 8);
      if bp == NULL {
        return false;
      }
      InitialFacts(arena.limit);
      ok := true;
    }

    // mm_malloc; exited is the exit(1) inside a first call's mm_init.
    method Malloc(size: word) returns (p: nat, exited: bool)
      requires Valid() && Legal(Abs(), arena.limit, Op.Malloc(size))
      modifies this, arena, arena.bytes
      ensures arena.bytes == old(arena.bytes) || (old(heapListp) == NULL && fresh(arena.bytes))
      ensures exited <==> old(heapListp) == NULL && arena.limit < FIRST + CHUNKSIZE
      ensures !exited ==> heapListp != NULL && Valid() && Step(old(Abs()), arena.limit, Op.Malloc(size), p, Abs())
      ensures p == NULL && old(heapListp) != NULL ==> arena.brk == old(arena.brk) && arena.bytes[..] == old(arena.bytes[..])
    {
      hide Live, Total, MallocStep, Inv, WellFormed, Admissible;
      exited := false;
      if heapListp == NULL {
        var ok := Init();
        if !ok {
          return NULL, true;
        }
      }
      BootedInv(old(Abs()), arena.limit);
      BootedState(Abs(), arena.limit);
      if size <= 0 {
        ZeroMalloc(Abs(), arena.limit);
        return NULL, false;
      }
      var asize := AdjustedSize(size);
      var bp := FindFit(asize);
      if bp != NULL {
        PlaceFit(bp, size, asize, FirstFit(blocks, asize));
        return bp, false;
      }
      p := PlaceExtended(size, asize);
    }

    // A block fits: place the request there.
    method PlaceFit(bp: nat, size: word, asize: word, ghost i: nat)
      requires Valid() && heapListp != NULL && size > 0 && Admissible(Abs(), arena.limit, size)
      requires asize == AdjustedSize(size) && i == FirstFit(blocks, asize) < |blocks|
      requires bp == FIRST + Total(blocks[..i])
      modifies this, arena.bytes
      ensures Valid() && heapListp != NULL && old(WellFormed(Abs().blocks)) && old(Admissible(Abs(), arena.limit, size))
      ensures MallocStep(old(Abs()), arena.limit, size, bp, Abs())
    {
      hide Live, Total, Inv, WellFormed, Admissible, PlaceAt, AdjustedSize, ExtendSize, Tiled, InArena, DataOf;
      ghost var h, m := Abs(), arena.bytes[..];
      BreakOf(m, arena.brk, blocks);
      RoomFacts(h, arena.limit, size);
      Place(bp, asize, i);
      MallocDone(h, arena.limit, size, m, arena.bytes[..], requested);
      requested := requested[bp := size];
      MallocKeepsInv(h, arena.limit, size, bp, Abs());
    }

    // Nothing fits: extend the heap and place the request at its end.
    method PlaceExtended(size: word, asize: word) returns (bp: nat)
      requires Valid() && heapListp != NULL && size > 0 && Admissible(Abs(), arena.limit, size)
      requires asize == AdjustedSize(size) && FirstFit(blocks, asize) == |blocks|
      modifies this, arena`brk, arena.bytes
      ensures Valid() && heapListp != NULL && old(WellFormed(Abs().blocks)) && old(Admissible(Abs(), arena.limit, size))
      ensures MallocStep(old(Abs()), arena.limit, size, bp, Abs())
      ensures bp == NULL ==> arena.brk == old(arena.brk) && arena.bytes[..] == old(arena.bytes[..])
    {
      hide Live, Total, Inv, WellFormed, Admissible, PlaceAt, AdjustedSize, ExtendSize, Tiled, InArena, DataOf, Grow, EvenBytes;
      ghost var h, m := Abs(), arena.bytes[..];
      BreakOf(m, arena.brk, blocks);
      ExtendIsPages(size);
      if !Refused(h, arena.limit, size) {
        RoomFacts(h, arena.limit, size);
        ExtensionFacts(h, arena.limit, size);
      }
      var extendsize := ExtendSize(asize);
      WholeWords(extendsize);
      bp := ExtendHeap(extendsize / 8);
      if bp == NULL {
        assert Abs() == h;
        return;
      }
      ghost var i, m1 := |DropFreeTail(h.blocks)|, arena.bytes[..];
      GrowEnd(h.blocks, extendsize);
      BreakOf(m1, arena.brk, blocks);
      DataCovered(h, arena.limit, m, requested);
      CoveredAgain(requested, h.blocks, blocks);
      FreeNotLive(blocks, i);
      DataBeside(m, m1, requested, blocks, i);
      Place(bp, asize, i);
      MallocDone(h, arena.limit, size, m1, arena.bytes[..], requested);
      requested := requested[bp := size];
      MallocKeepsInv(h, arena.limit, size, bp, Abs());
    }

    // mm_free, of NULL or a live pointer. (A live pointer was handed out by an
    // initialised heap, so the code's own check of heap_listp finds it set.)
    method Free(bp: nat)
      requires Valid() && (bp == NULL || bp in requested)
      modifies this`blocks, this`requested, arena.bytes
      ensures Valid() && old(bp == NULL || bp in Live(blocks, FIRST))
      ensures FreeStep(old(Abs()), bp, Abs())
    {
      hide Live, Total, Inv, Tiled, TiledParts, Merge, Merged, DataOf, FreeStep, WellFormed, IndexOf;
      ghost var h, m := Abs(), arena.bytes[..];
      if bp == NULL {
        FreeNull(h);
        return;
      }
      DataCovered(h, arena.limit, m, requested);
      ghost var i := IndexOf(blocks, FIRST, bp);
      IndexOfAddress(blocks, FIRST, bp);
      PartsAt(m, arena.brk, blocks, i);
      var merged := Coalesce(bp, blocks[..i], blocks[i], blocks[i + 1..]);
      FreeDone(h, arena.limit, m, arena.bytes[..], arena.brk, requested, bp, merged);
      blocks := FreeAt(blocks, i);
      requested := requested - {bp};
      FreeKeepsInv(h, arena.limit, bp, Abs());
    }

    // The client storing a byte into its own block.
    method Store(p: nat, off: nat, v: byte)
      requires Valid() && p in requested && off < requested[p]
      modifies arena.bytes
      ensures Valid() && old(p in Abs().data && off < |Abs().data[p]|)
      ensures WriteStep(old(Abs()), p, off, v, Abs())
    {
      hide Live, Total, Inv, Tiled, WellFormed, DataOf;
      ghost var h, m := Abs(), arena.bytes[..];
      DataCovered(h, arena.limit, m, requested);
      DataBytes(m, requested, p);
      arena.bytes[p + off] := v;
      assert arena.bytes[..] == m[p + off := v];
      ByteStored(m, p, off, requested[p], v);
      PayloadChanged(h, arena.limit, m, m[p + off := v], arena.brk, requested, p);
    }

    // mm_realloc: allocate, copy, release.
    method Realloc(ptr: nat, size: word) returns (newptr: nat, exited: bool)
      requires Valid() && Legal(Abs(), arena.limit, Op.Realloc(ptr, size))
      modifies this, arena, arena.bytes
      ensures arena.bytes == old(arena.bytes) || fresh(arena.bytes)
      ensures exited <==> old(heapListp) == NULL && size > 0 && arena.limit < FIRST + CHUNKSIZE
      ensures !exited ==> Valid() && Step(old(Abs()), arena.limit, Op.Realloc(ptr, size), newptr, Abs())
      ensures newptr == NULL && size > 0 && old(heapListp) != NULL ==> arena.brk == old(arena.brk) && arena.bytes[..] == old(arena.bytes[..])
    {
      hide Live, Total, Inv, Tiled, MallocStep, FreeStep, Admissible, DataOf;
      ghost var h := Abs();
      DataCovered(h, arena.limit, arena.bytes[..], requested);
      BootedInv(h, arena.limit);
      if size == 0 {
        Free(ptr);
        return NULL, false;
      }
      if ptr == NULL {
        newptr, exited := Malloc(size);
        return;
      }
      NonEmpty(blocks, ptr);
      newptr, exited := Malloc(size);
      if newptr == NULL {
        FailedMove(h, arena.limit, ptr, size, Abs());
        return;
      }
      Move(h, ptr, newptr, size);
    }

    // The copy and the release; h is the heap before the new block was allocated.
    method Move(ghost h: Heap, ptr: nat, newptr: nat, size: word)
      requires Valid() && heapListp != NULL
      requires Inv(h, arena.limit) && h.blocks != [] && size > 0 && Admissible(h, arena.limit, size) && ptr in h.data && ptr != NULL
      requires newptr != NULL && MallocStep(h, arena.limit, size, newptr, Abs())
      modifies this`blocks, this`requested, arena.bytes
      ensures Valid()
      ensures ReallocStep(h, arena.limit, ptr, size, newptr, Abs())
    {
      hide HeapOk, InArena, Inv, Live, MallocStep, FreeStep, Admissible, DataOf, WellFormed, ReallocStep, Min;
      CopyAcross(h, ptr, newptr, size);
      ghost var mid := Abs();
      Free(ptr);
      Moved(h, arena.limit, ptr, size, newptr, mid, Abs());
    }

    // The copy: min(size, old block size) bytes.
    method CopyAcross(ghost h: Heap, ptr: nat, newptr: nat, size: word)
      requires Valid() && heapListp != NULL
      requires Inv(h, arena.limit) && h.blocks != [] && size > 0 && Admissible(h, arena.limit, size) && ptr in h.data && ptr != NULL
      requires newptr != NULL && MallocStep(h, arena.limit, size, newptr, Abs())
      modifies arena.bytes
      ensures Valid() && WellFormed(h.blocks) && MallocStep(h, arena.limit, size, newptr, Abs())
      ensures ptr in requested && ptr in Live(h.blocks, FIRST) && ptr in Live(blocks, FIRST) && newptr in Abs().data
      ensures var kept := Min(size, |h.data[ptr]|);
              kept <= |Abs().data[newptr]| && Abs().data[newptr][..kept] == h.data[ptr][..kept]
    {
      hide Live, Total, Inv, Tiled, MallocStep, Admissible, DataOf, WellFormed, GetSize, ReadWord, InArena;
      ghost var m := arena.bytes[..];
      MoveRanges(h, arena.limit, m, arena.brk, requested, blocks, ptr, newptr, size);
      var oldsize := SizeAt(ptr - 8);
      if size < oldsize {
        oldsize := size;
      }
      assert oldsize == Min(size, Live(h.blocks, FIRST)[ptr]);
      hide Min;
      arena.Copy(newptr, ptr, oldsize);
      CopyDone(h, arena.limit, m, arena.bytes[..], arena.brk, requested, blocks, ptr, newptr, size);
    }

    // Any call of a client, as the next one of a run: what HeapRuns proves of runs
    // holds of the bytes.
    method Perform(op: Op, ghost hs: seq<Heap>, ghost calls: seq<Call>) returns (r: nat, exited: bool)
      requires Valid() && Legal(Abs(), arena.limit, op)
      requires IsRun(arena.limit, hs, calls) && hs[|calls|] == Abs()
      modifies this, arena, arena.bytes
      ensures arena.bytes == old(arena.bytes) || fresh(arena.bytes)
      ensures exited <==> old(heapListp) == NULL && arena.limit < FIRST + CHUNKSIZE && (op.Malloc? || (op.Realloc? && op.size > 0))
      ensures !exited ==> Valid() && IsRun(arena.limit, hs + [Abs()], calls + [Call(op, r)])
      ensures !exited ==> L.Effect(old(Abs()), arena.limit, op, r, Abs())
    {
      hide L.Effect, Live, Total, Inv, IsRun, MallocStep, FreeStep, ReallocStep, WriteStep, Admissible, DataOf;
      ghost var h := Abs();
      DataCovered(h, arena.limit, arena.bytes[..], requested);
      r, exited := NULL, false;
      match op {
        case Malloc(size) => r, exited := Malloc(size);
        case Free(p) => Free(p);
        case Realloc(p, size) => r, exited := Realloc(p, size);
        case Write(p, off, v) => Store(p, off, v);
      }
      if !exited {
        L.StepLaw(h, arena.limit, op, r, Abs());
        RunGrows(arena.limit, hs, calls, Call(op, r), Abs());
      }
    }
  }
}
