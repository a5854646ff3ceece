// The block sequence a heap is cut into, as a value: its live map, the layout
// changes that allocation and release make, and the canonical-layout theorem.
module Blocks {

  // size is the whole block, tags included.
  datatype Block = Block(size: nat, alloc: bool)

  // Smallest block that `place` splits off (MIN_BLOCK_SIZE).
  const MIN_BLOCK: nat := 32

  function Total(bs: seq<Block>): nat {
    if bs == [] then 0 else bs[0].size + Total(bs[1..])
  }

  // Every size a multiple of 16 and at least the minimum.
  predicate Sized(bs: seq<Block>) {
    forall b | b in bs :: b.size % 16 == 0 && MIN_BLOCK <= b.size
  }

  // No two neighbours are both free.
  predicate NoFreePair(bs: seq<Block>) {
    forall i | 0 <= i < |bs| - 1 :: bs[i].alloc || bs[i + 1].alloc
  }

  predicate WellFormed(bs: seq<Block>) {
    Sized(bs) && NoFreePair(bs)
  }

  lemma AlignedSum(a: int, b: int)
    requires a % 16 == 0 && b % 16 == 0
    ensures (a + b) % 16 == 0 && (a - b) % 16 == 0
  {
    var i, j := a / 16, b / 16;
    assert a + b == 16 * (i + j) && a - b == 16 * (i - j);
    assert (a + b) / 16 == i + j && (a - b) / 16 == i - j;
  }

  // Address (as a payload pointer) -> size of every allocated block, when the
  // first block's payload is at p.
  function Live(bs: seq<Block>, p: nat): map<nat, nat> {
    if bs == [] then map[]
    else if bs[0].alloc then Live(bs[1..], p + bs[0].size)[p := bs[0].size]
    else Live(bs[1..], p + bs[0].size)
  }

  lemma {:induction false} TotalConcat(a: seq<Block>, b: seq<Block>)
    ensures Total(a + b) == Total(a) + Total(b)
  {
    if a == [] {
      assert a + b == b;
    } else {
      assert (a + b)[1..] == a[1..] + b;
      TotalConcat(a[1..], b);
    }
  }

  lemma TotalSplit(bs: seq<Block>, i: nat)
    requires i < |bs|
    ensures Total(bs) == Total(bs[..i]) + bs[i].size + Total(bs[i + 1..])
    ensures Total(bs[..i + 1]) == Total(bs[..i]) + bs[i].size
  {
    hide Total;
    var front, one, rest := bs[..i], [bs[i]], bs[i + 1..];
    assert bs == front + (one + rest);
    assert bs[..i + 1] == front + one;
    OneTotal(one);
    TotalConcat(front, one + rest);
    TotalConcat(one, rest);
    TotalConcat(front, one);
  }

  lemma {:induction false} TotalIsAligned(bs: seq<Block>)
    requires Sized(bs)
    ensures Total(bs) % 16 == 0
    ensures bs != [] ==> Total(bs) >= MIN_BLOCK
  {
    if bs != [] {
      assert bs[0] in bs;
      TotalIsAligned(bs[1..]);
      AlignedSum(bs[0].size, Total(bs[1..]));
    }
  }

  lemma {:induction false} LiveBounds(bs: seq<Block>, p: nat)
    requires Sized(bs)
    ensures forall q | q in Live(bs, p) :: p <= q && q + Live(bs, p)[q] <= p + Total(bs) && MIN_BLOCK <= Live(bs, p)[q]
  {
    if bs != [] {
      assert bs[0] in bs;
      LiveBounds(bs[1..], p + bs[0].size);
    }
  }

  lemma {:induction false} LiveConcat(a: seq<Block>, b: seq<Block>, p: nat)
    requires Sized(a) && Sized(b)
    ensures Live(a + b, p) == Live(a, p) + Live(b, p + Total(a))
  {
    if a == [] {
      assert a + b == b;
    } else {
      assert a[0] in a;
      assert (a + b)[1..] == a[1..] + b;
      LiveConcat(a[1..], b, p + a[0].size);
      LiveBounds(b, p + Total(a));
    }
  }

  // Live(a + [x] + b) is the live map of both sides, plus the entry of x if it is allocated.
  lemma LiveAround(a: seq<Block>, x: Block, b: seq<Block>, p: nat)
    requires Sized(a) && Sized([x]) && Sized(b)
    ensures Total(a + [x] + b) == Total(a) + x.size + Total(b)
    ensures var sides := Live(a, p) + Live(b, p + Total(a) + x.size);
            && p + Total(a) !in sides
            && Live(a + [x] + b, p) == if x.alloc then sides[p + Total(a) := x.size] else sides
  {
    var xs := [x];
    assert x in xs && xs[1..] == [];
    assert a + [x] + b == a + (xs + b) && (xs + b)[1..] == b;
    assert Sized(xs + b);
    LiveConcat(a, xs + b, p);
    TotalConcat(a, xs + b);
    LiveBounds(a, p);
    LiveBounds(b, p + Total(a) + x.size);
  }

  // Two allocated blocks, or an allocated block and a free one, never overlap.
  lemma {:induction false} LiveApart(bs: seq<Block>, p: nat, q: nat, r: nat)
    requires Sized(bs) && q in Live(bs, p) && r in Live(bs, p) && q < r
    ensures q + Live(bs, p)[q] <= r
  {
    assert bs[0] in bs;
    LiveBounds(bs[1..], p + bs[0].size);
    if !(bs[0].alloc && q == p) {
      LiveApart(bs[1..], p + bs[0].size, q, r);
    }
  }

  lemma {:induction false} LiveAligned(bs: seq<Block>, p: nat)
    requires Sized(bs) && p % 16 == 0
    ensures forall q | q in Live(bs, p) :: q % 16 == 0
  {
    if bs != [] {
      assert bs[0] in bs;
      LiveAligned(bs[1..], p + bs[0].size);
    }
  }

  // The first block of a well-formed sequence can be read off its live map and total.
  lemma HeadSize(a: seq<Block>, p: nat, q: nat)
    requires WellFormed(a) && a != [] && !a[0].alloc
    requires forall r | r in Live(a, p) :: q <= r
    requires q <= p + Total(a)
    ensures q <= p + a[0].size
  {
    if |a| > 1 {
      assert a[1].alloc;
      assert a[1..][0] == a[1];
      assert p + a[0].size in Live(a[1..], p + a[0].size);
      assert p + a[0].size in Live(a, p);
    } else {
      assert a[1..] == [];
    }
  }

  // Main layout theorem: a well-formed block sequence is determined by its live
  // blocks (address and size) and its total length.
  lemma {:induction false} Canonical(a: seq<Block>, b: seq<Block>, p: nat)
    requires WellFormed(a) && WellFormed(b)
    requires Total(a) == Total(b) && Live(a, p) == Live(b, p)
    ensures a == b
  {
    hide Live, Total, NoFreePair;
    TotalIsAligned(a);
    TotalIsAligned(b);
    assert Total([]) == 0 by { EmptyFacts(p); }
    if a != [] {
      HeadAndTail(a, p);
      HeadAndTail(b, p);
      if !a[0].alloc {
        HeadSize(a, p, p + b[0].size);
        HeadSize(b, p, p + a[0].size);
      }
      Canonical(a[1..], b[1..], p + a[0].size);
    }
  }

  // What the live map says of the first block, and of the others.
  lemma HeadAndTail(a: seq<Block>, p: nat)
    requires WellFormed(a) && a != []
    ensures WellFormed(a[1..]) && Total(a) == a[0].size + Total(a[1..])
    ensures a[0].alloc == (p in Live(a, p)) && (a[0].alloc ==> Live(a, p)[p] == a[0].size)
    ensures Live(a[1..], p + a[0].size) == Live(a, p) - {p}
    ensures forall q | q in Live(a, p) && q != p :: p + a[0].size <= q
  {
    assert a[0] in a;
    LiveBounds(a[1..], p + a[0].size);
    assert forall i | 0 <= i < |a[1..]| - 1 :: a[1..][i] == a[i + 1];
  }

  // ----- layout changes

  // find_fit on the sequence: the index of the first free block of at least
  // asize bytes, or |bs|.
  function FirstFit(bs: seq<Block>, asize: nat): (i: nat)
    ensures i <= |bs|
    ensures i < |bs| ==> !bs[i].alloc && asize <= bs[i].size
    ensures forall j | 0 <= j < i :: bs[j].alloc || bs[j].size < asize
  {
    if bs == [] then 0
    else if !bs[0].alloc && asize <= bs[0].size then 0
    else
      var k := FirstFit(bs[1..], asize);
      assert forall j | 1 <= j < k + 1 :: bs[j] == bs[1..][j - 1];
      k + 1
  }

  // place: allocate the front of free block i, keeping the rest as a free block
  // when it is at least MIN_BLOCK bytes.
  function PlaceAt(bs: seq<Block>, i: nat, asize: nat): seq<Block>
    requires i < |bs| && asize <= bs[i].size
  {
    if bs[i].size - asize >= MIN_BLOCK then
      bs[..i] + [Block(asize, true)] + ([Block(bs[i].size - asize, false)] + bs[i + 1..])
    else
      bs[..i] + [Block(bs[i].size, true)] + bs[i + 1..]
  }

  predicate EndsFree(bs: seq<Block>) {
    bs != [] && !bs[|bs| - 1].alloc
  }

  predicate StartsFree(bs: seq<Block>) {
    bs != [] && !bs[0].alloc
  }

  function FreeTail(bs: seq<Block>): nat {
    if EndsFree(bs) then bs[|bs| - 1].size else 0
  }

  function FreeHead(bs: seq<Block>): nat {
    if StartsFree(bs) then bs[0].size else 0
  }

  function DropFreeTail(bs: seq<Block>): seq<Block> {
    if EndsFree(bs) then bs[..|bs| - 1] else bs
  }

  function DropFreeHead(bs: seq<Block>): seq<Block> {
    if StartsFree(bs) then bs[1..] else bs
  }

  // A free block of `size` bytes put between pre and suf, absorbing the free
  // block on either side.
  function Merge(pre: seq<Block>, size: nat, suf: seq<Block>): seq<Block> {
    DropFreeTail(pre) + [Block(FreeTail(pre) + size + FreeHead(suf), false)] + DropFreeHead(suf)
  }

  function FreeAt(bs: seq<Block>, i: nat): seq<Block>
    requires i < |bs|
  {
    Merge(bs[..i], bs[i].size, bs[i + 1..])
  }

  // The heap after its end moved up by `size` bytes.
  function Grow(bs: seq<Block>, size: nat): seq<Block> {
    Merge(bs, size, [])
  }

  lemma WellFormedParts(bs: seq<Block>, i: nat)
    requires WellFormed(bs) && i < |bs|
    ensures WellFormed(bs[..i]) && WellFormed(bs[i + 1..]) && bs[i].size % 16 == 0 && MIN_BLOCK <= bs[i].size
  {
    assert bs[i] in bs;
    var pre, suf := bs[..i], bs[i + 1..];
    forall j | 0 <= j < |suf| - 1
      ensures suf[j].alloc || suf[j + 1].alloc
    {
      assert suf[j] == bs[i + 1 + j];
    }
  }

  lemma DropTail(pre: seq<Block>, p: nat)
    requires WellFormed(pre)
    ensures WellFormed(DropFreeTail(pre)) && !EndsFree(DropFreeTail(pre))
    ensures Total(DropFreeTail(pre)) + FreeTail(pre) == Total(pre)
    ensures Live(DropFreeTail(pre), p) == Live(pre, p)
    ensures FreeTail(pre) % 16 == 0
  {
    if EndsFree(pre) {
      var k := |pre| - 1;
      var front, x := pre[..k], pre[k];
      assert WellFormed(front) && x.size % 16 == 0 && MIN_BLOCK <= x.size by {
        WellFormedParts(pre, k);
      }
      assert !EndsFree(front) by {
        if k > 0 {
          assert pre[k - 1].alloc;
        }
      }
      assert pre == front + [x] + [];
      hide NoFreePair;
      LiveAround(front, x, [], p);
    }
  }

  lemma DropHead(suf: seq<Block>, p: nat)
    requires WellFormed(suf)
    ensures WellFormed(DropFreeHead(suf)) && !StartsFree(DropFreeHead(suf))
    ensures Total(DropFreeHead(suf)) + FreeHead(suf) == Total(suf)
    ensures Live(DropFreeHead(suf), p + FreeHead(suf)) == Live(suf, p)
    ensures FreeHead(suf) % 16 == 0
  {
    if StartsFree(suf) {
      WellFormedParts(suf, 0);
      if |suf| > 1 {
        assert !suf[0].alloc;
      }
    }
  }

  lemma NoPairAtSeam(a: seq<Block>, x: Block, b: seq<Block>)
    requires NoFreePair(a) && NoFreePair(b) && !EndsFree(a) && !StartsFree(b)
    ensures NoFreePair(a + [x] + b)
  {
    var all := a + [x] + b;
    forall i | 0 <= i < |all| - 1
      ensures all[i].alloc || all[i + 1].alloc
    {
      if i < |a| - 1 {
        assert all[i] == a[i] && all[i + 1] == a[i + 1];
      } else if i > |a| {
        var j := i - |a| - 1;
        assert all[i] == b[j] && all[i + 1] == b[j + 1];
      }
    }
  }

  lemma MergeFacts(pre: seq<Block>, size: nat, suf: seq<Block>, p: nat)
    requires WellFormed(pre) && WellFormed(suf) && size % 16 == 0 && MIN_BLOCK <= size
    ensures WellFormed(Merge(pre, size, suf))
    ensures Total(Merge(pre, size, suf)) == Total(pre) + size + Total(suf)
    ensures Live(Merge(pre, size, suf), p) == Live(pre, p) + Live(suf, p + Total(pre) + size)
  {
    hide Live, Total, NoFreePair, DropFreeTail, DropFreeHead;
    DropTail(pre, p);
    DropHead(suf, p + Total(pre) + size);
    var a, x, b := DropFreeTail(pre), Block(FreeTail(pre) + size + FreeHead(suf), false), DropFreeHead(suf);
    AlignedSum(FreeTail(pre), size);
    AlignedSum(FreeTail(pre) + size, FreeHead(suf));
    LiveAround(a, x, b, p);
    NoPairAtSeam(a, x, b);
  }

  // Releasing block i removes exactly its entry from the live map.
  lemma FreeAtFacts(bs: seq<Block>, i: nat, p: nat)
    requires WellFormed(bs) && i < |bs|
    ensures WellFormed(FreeAt(bs, i)) && Total(FreeAt(bs, i)) == Total(bs)
    ensures Live(FreeAt(bs, i), p) == Live(bs, p) - {p + Total(bs[..i])}
  {
    hide NoFreePair, Live, Total, Merge;
    var pre, x, suf := bs[..i], bs[i], bs[i + 1..];
    WellFormedParts(bs, i);
    MergeFacts(pre, x.size, suf, p);
    LiveAround(pre, x, suf, p);
    assert bs == pre + [x] + suf;
  }

  // A free block between allocated neighbours may be replaced by an allocated
  // block, with or without a free block behind it.
  lemma NoPairAround(pre: seq<Block>, x: Block, mid: seq<Block>, suf: seq<Block>)
    requires NoFreePair(pre + [x] + suf) && !x.alloc
    requires |mid| == 1 || (|mid| == 2 && !mid[1].alloc)
    requires mid[0].alloc
    ensures NoFreePair(pre + mid + suf)
  {
    var was, now := pre + [x] + suf, pre + mid + suf;
    forall j | 0 <= j < |now| - 1
      ensures now[j].alloc || now[j + 1].alloc
    {
      if j + 1 < |pre| {
        assert was[j] == now[j] && was[j + 1] == now[j + 1];
      } else if j >= |pre| + |mid| - 1 {
        var d := |mid| - 1;
        assert was[j - d + 1] == now[j + 1];
        assert was[j - d].alloc || was[j - d + 1].alloc;
        if j >= |pre| + |mid| {
          assert was[j - d] == now[j];
        }
      }
    }
  }

  lemma LiveAfterRest(rest: seq<Block>, suf: seq<Block>, q: nat)
    requires Sized(rest) && |rest| <= 1 && (rest == [] || !rest[0].alloc)
    ensures Live(rest + suf, q) == Live(suf, q + Total(rest))
    ensures Total(rest + suf) == Total(rest) + Total(suf)
  {
    if rest == [] {
      assert rest + suf == suf;
    } else {
      assert (rest + suf)[1..] == suf && rest[1..] == [];
    }
  }

  lemma SwapKeepsForm(pre: seq<Block>, x: Block, y: Block, rest: seq<Block>, suf: seq<Block>)
    requires WellFormed(pre + [x] + suf) && !x.alloc && y.alloc
    requires Sized([y]) && Sized(rest) && |rest| <= 1 && (rest == [] || !rest[0].alloc)
    ensures Sized(pre) && Sized([x]) && Sized(suf) && Sized(rest + suf) && WellFormed(pre + [y] + (rest + suf))
  {
    hide NoFreePair;
    var bs := pre + [x] + suf;
    assert WellFormed(pre) && WellFormed(suf) && x in bs by {
      WellFormedParts(bs, |pre|);
      assert bs[..|pre|] == pre && bs[|pre| + 1..] == suf && bs[|pre|] == x;
    }
    NoPairAround(pre, x, [y] + rest, suf);
    assert pre + ([y] + rest) + suf == pre + [y] + (rest + suf);
  }

  // Swapping free x for allocated y, possibly followed by a free remainder.
  lemma SwapIn(pre: seq<Block>, x: Block, y: Block, rest: seq<Block>, suf: seq<Block>, p: nat)
    requires WellFormed(pre + [x] + suf) && !x.alloc && y.alloc
    requires Sized([y]) && Sized(rest) && |rest| <= 1 && (rest == [] || !rest[0].alloc)
    requires y.size + Total(rest) == x.size
    ensures var after := pre + [y] + (rest + suf);
            && WellFormed(after) && Total(after) == Total(pre + [x] + suf)
            && Live(after, p) == Live(pre + [x] + suf, p)[p + Total(pre) := y.size]
  {
    hide NoFreePair, Live, Total;
    SwapKeepsForm(pre, x, y, rest, suf);
    LiveAfterRest(rest, suf, p + Total(pre) + y.size);
    LiveAround(pre, x, suf, p);
    LiveAround(pre, y, rest + suf, p);
  }

  lemma OneTotal(bs: seq<Block>)
    requires |bs| == 1
    ensures Total(bs) == bs[0].size
  {
    assert bs[1..] == [];
  }

  lemma EmptyFacts(p: nat)
    ensures Total([]) == 0 && Live([], p) == map[]
  {
  }

  // Placing in free block i adds exactly one live entry, at that block's address,
  // of the size asked for unless 16 bytes would be all that is left.
  lemma PlaceAtFacts(bs: seq<Block>, i: nat, asize: nat, p: nat)
    requires WellFormed(bs) && i < |bs| && !bs[i].alloc
    requires asize % 16 == 0 && MIN_BLOCK <= asize <= bs[i].size
    ensures var after := PlaceAt(bs, i, asize);
            && WellFormed(after) && Total(after) == Total(bs)
            && i < |after| && after[..i] == bs[..i] && after[i].alloc
            && after[i].size == (if bs[i].size == asize + 16 then asize + 16 else asize)
            && p + Total(bs[..i]) !in Live(bs, p)
            && Live(after, p) == Live(bs, p)[p + Total(bs[..i]) := after[i].size]
  {
    hide WellFormed, Sized, Live, Total, PlaceAt;
    var pre, x, suf := bs[..i], bs[i], bs[i + 1..];
    var y, rest := PlacedShape(bs, i, asize);
    assert bs == pre + [x] + suf;
    assert Sized(pre) && Sized([x]) && Sized(suf) by { PartsSized(bs, i); }
    LiveAround(pre, x, suf, p);
    SwapIn(pre, x, y, rest, suf, p);
  }

  lemma PartsSized(bs: seq<Block>, i: nat)
    requires WellFormed(bs) && i < |bs|
    ensures Sized(bs[..i]) && Sized([bs[i]]) && Sized(bs[i + 1..])
  {
    hide NoFreePair;
    WellFormedParts(bs, i);
  }

  // What replaces block i: an allocated block and at most one free one.
  lemma PlacedShape(bs: seq<Block>, i: nat, asize: nat) returns (y: Block, rest: seq<Block>)
    requires WellFormed(bs) && i < |bs| && !bs[i].alloc
    requires asize % 16 == 0 && MIN_BLOCK <= asize <= bs[i].size
    ensures PlaceAt(bs, i, asize) == bs[..i] + [y] + (rest + bs[i + 1..])
    ensures y.alloc && y.size == (if bs[i].size == asize + 16 then asize + 16 else asize) && Sized([y])
    ensures Sized(rest) && |rest| <= 1 && (rest == [] || !rest[0].alloc) && y.size + Total(rest) == bs[i].size
  {
    hide NoFreePair;
    assert bs[i] in bs;
    var r := bs[i].size - asize;
    AlignedSum(bs[i].size, asize);
    SmallRest(r);
    if r >= MIN_BLOCK {
      y, rest := Block(asize, true), [Block(r, false)];
      OneTotal(rest);
    } else {
      y, rest := Block(bs[i].size, true), [];
      assert [] + bs[i + 1..] == bs[i + 1..];
    }
  }

  lemma SmallRest(r: nat)
    requires r % 16 == 0
    ensures r < MIN_BLOCK ==> r == 0 || r == 16
  {
  }

  // ----- the independent reading of coalescing

  // Join every run of adjacent free blocks into one.
  function Normalize(bs: seq<Block>): seq<Block>
    decreases |bs|
  {
    if |bs| <= 1 then bs
    else if !bs[0].alloc && !bs[1].alloc then
      Normalize([Block(bs[0].size + bs[1].size, false)] + bs[2..])
    else [bs[0]] + Normalize(bs[1..])
  }

  // Joining the two free blocks in front.
  lemma JoinFront(bs: seq<Block>, p: nat)
    requires Sized(bs) && |bs| > 1 && !bs[0].alloc && !bs[1].alloc
    ensures var joined := [Block(bs[0].size + bs[1].size, false)] + bs[2..];
            Sized(joined) && Total(joined) == Total(bs) && Live(joined, p) == Live(bs, p)
  {
    hide Live, Total;
    var x, y, rest := bs[0], bs[1], bs[2..];
    assert x in bs && y in bs;
    AlignedSum(x.size, y.size);
    assert bs == [x] + ([y] + rest);
    AtFront(x, [y] + rest, p);
    AtFront(y, rest, p + x.size);
    AtFront(Block(x.size + y.size, false), rest, p);
  }

  lemma AtFront(x: Block, rest: seq<Block>, p: nat)
    ensures var live := Live(rest, p + x.size);
            Live([x] + rest, p) == if x.alloc then live[p := x.size] else live
    ensures Total([x] + rest) == x.size + Total(rest)
  {
    assert ([x] + rest)[1..] == rest;
  }

  // A block kept in front of a normalized rest.
  lemma KeepFront(b: Block, rest: seq<Block>)
    requires WellFormed(rest) && Sized([b]) && (b.alloc || !StartsFree(rest))
    ensures WellFormed([b] + rest)
  {
    var n := [b] + rest;
    assert b in [b];
    assert n[1..] == rest;
    forall i | 0 <= i < |n| - 1
      ensures n[i].alloc || n[i + 1].alloc
    {
      if i > 0 {
        assert n[i] == rest[i - 1] && n[i + 1] == rest[i - 1 + 1];
      }
    }
  }

  lemma {:induction false} NormalizeFacts(bs: seq<Block>, p: nat)
    requires Sized(bs)
    ensures WellFormed(Normalize(bs))
    ensures Total(Normalize(bs)) == Total(bs) && Live(Normalize(bs), p) == Live(bs, p)
    ensures bs != [] ==> Normalize(bs) != [] && Normalize(bs)[0].alloc == bs[0].alloc
    decreases |bs|
  {
    if |bs| > 1 && !bs[0].alloc && !bs[1].alloc {
      hide NoFreePair, Total, Live;
      JoinFront(bs, p);
      NormalizeFacts([Block(bs[0].size + bs[1].size, false)] + bs[2..], p);
    } else if |bs| > 1 {
      hide NoFreePair, Total, Live;
      assert bs[0] in bs && bs == [bs[0]] + bs[1..];
      NormalizeFacts(bs[1..], p + bs[0].size);
      KeepFront(bs[0], Normalize(bs[1..]));
      AtFront(bs[0], bs[1..], p);
      AtFront(bs[0], Normalize(bs[1..]), p);
    }
  }

  // Releasing block i is: mark it free, then join all runs of free blocks.
  lemma FreeAtNormalizes(bs: seq<Block>, i: nat)
    requires WellFormed(bs) && i < |bs|
    ensures FreeAt(bs, i) == Normalize(bs[i := Block(bs[i].size, false)])
  {
    hide NoFreePair, Live, Total, Normalize, Merge;
    var pre, x, suf := bs[..i], Block(bs[i].size, false), bs[i + 1..];
    var marked := bs[i := x];
    WellFormedParts(bs, i);
    MergeFacts(pre, x.size, suf, 0);
    assert marked == pre + [x] + suf;
    LiveAround(pre, x, suf, 0);
    NormalizeFacts(marked, 0);
    Canonical(FreeAt(bs, i), Normalize(marked), 0);
  }

  // Extending the heap is: append a free block, then join all runs of free blocks.
  lemma GrowNormalizes(bs: seq<Block>, size: nat)
    requires WellFormed(bs) && size % 16 == 0 && MIN_BLOCK <= size
    ensures Grow(bs, size) == Normalize(bs + [Block(size, false)])
  {
    hide Live, Normalize, Merge;
    var x := Block(size, false);
    var longer := bs + [x];
    MergeFacts(bs, size, [], 0);
    assert longer == bs + [x] + [];
    LiveAround(bs, x, [], 0);
    NormalizeFacts(longer, 0);
    Canonical(Grow(bs, size), Normalize(longer), 0);
  }

  // ----- finding the block of a live pointer

  function IndexOf(bs: seq<Block>, p: nat, q: nat): (i: nat)
    requires q in Live(bs, p)
    ensures i < |bs| && bs[i].alloc
  {
    if bs[0].alloc && q == p then 0 else 1 + IndexOf(bs[1..], p + bs[0].size, q)
  }

  lemma {:induction false} IndexOfAddress(bs: seq<Block>, p: nat, q: nat)
    requires q in Live(bs, p)
    ensures p + Total(bs[..IndexOf(bs, p, q)]) == q
    ensures bs[IndexOf(bs, p, q)].size == Live(bs, p)[q]
  {
    if bs[0].alloc && q == p {
    } else {
      var k := IndexOf(bs[1..], p + bs[0].size, q);
      IndexOfAddress(bs[1..], p + bs[0].size, q);
      assert bs[..k + 1] == [bs[0]] + bs[1..][..k];
      TotalConcat([bs[0]], bs[1..][..k]);
    }
  }
}
