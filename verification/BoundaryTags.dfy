// How a block sequence is written into memory: equal header and footer words
// around every block, a prologue in front and an epilogue header at the break.
// Addresses are byte offsets from the start of the arena.
module BoundaryTags {
  import opened Words
  import opened Blocks

  const NULL: nat := 0
  const LISTP: nat := 16     // heap_listp after mm_init: the prologue's payload pointer
  const FIRST: nat := 32     // payload pointer of the first block after the prologue
  const PROLOGUE: Block := Block(16, true)
  const EPILOGUE: word := 1  // pack(0, 1)

  function TagOf(b: Block): nat {
    if b.alloc then b.size + 1 else b.size
  }

  // The tags of bs are in memory, the first payload being at p.
  predicate Tagged(m: seq<byte>, p: nat, bs: seq<Block>)
    decreases |bs|
  {
    bs == [] ||
    (&& 16 <= bs[0].size && bs[0].size % 16 == 0
     && 8 <= p && p + bs[0].size <= |m| + 8
     && ReadWord(m, p - 8) == TagOf(bs[0])
     && ReadWord(m, p + bs[0].size - 16) == TagOf(bs[0])
     && Tagged(m, p + bs[0].size, bs[1..]))
  }

  // ts, prologue first, tiles the arena from its ninth byte to the epilogue at brk - 8.
  predicate Tiled(m: seq<byte>, brk: nat, ts: seq<Block>) {
    && ts != [] && ts[0] == PROLOGUE
    && Tagged(m, LISTP, ts)
    && brk == LISTP + Total(ts) <= |m|
    && ReadWord(m, brk - 8) == EPILOGUE
  }

  lemma {:induction false} TaggedConcat(m: seq<byte>, p: nat, a: seq<Block>, b: seq<Block>)
    ensures Tagged(m, p, a + b) <==> Tagged(m, p, a) && Tagged(m, p + Total(a), b)
    decreases |a|
  {
    hide ReadWord, TagOf;
    if a == [] {
      assert a + b == b;
    } else {
      assert (a + b)[1..] == a[1..] + b;
      TaggedConcat(m, p + a[0].size, a[1..], b);
    }
  }

  lemma {:induction false} TaggedFrame(m: seq<byte>, m': seq<byte>, p: nat, bs: seq<Block>)
    requires Tagged(m, p, bs)
    requires 8 <= p && Agree(m, m', p - 8, p - 8 + Total(bs))
    ensures Tagged(m', p, bs)
    decreases |bs|
  {
    if bs != [] {
      TaggedWithin(m, p, bs);
      AgreeReads(m, m', p - 8, p - 8 + Total(bs), p - 8);
      AgreeReads(m, m', p - 8, p - 8 + Total(bs), p + bs[0].size - 16);
      TaggedFrame(m, m', p + bs[0].size, bs[1..]);
    }
  }

  lemma {:induction false} TaggedWithin(m: seq<byte>, p: nat, bs: seq<Block>)
    requires Tagged(m, p, bs) && bs != []
    ensures p - 8 + Total(bs) <= |m|
    decreases |bs|
  {
    if |bs| > 1 {
      TaggedWithin(m, p + bs[0].size, bs[1..]);
    } else {
      assert bs[1..] == [];
    }
  }

  // Tiled, read as three runs of tiles.
  ghost predicate TiledParts(m: seq<byte>, brk: nat, x: seq<Block>, z: seq<Block>, y: seq<Block>) {
    && x != [] && x[0] == PROLOGUE
    && Tagged(m, LISTP, x)
    && Tagged(m, LISTP + Total(x), z)
    && Tagged(m, LISTP + Total(x) + Total(z), y)
    && brk == LISTP + Total(x) + Total(z) + Total(y) <= |m|
    && ReadWord(m, brk - 8) == EPILOGUE
  }

  lemma Parts(m: seq<byte>, brk: nat, ts: seq<Block>, x: seq<Block>, z: seq<Block>, y: seq<Block>)
    requires x != [] && ts == x + z + y
    ensures Tiled(m, brk, ts) <==> TiledParts(m, brk, x, z, y)
  {
    hide Tagged, Total, ReadWord;
    var xz := x + z;
    TotalConcat(x, z);
    TaggedConcat(m, LISTP, x, z);
    TotalConcat(xz, y);
    TaggedConcat(m, LISTP, xz, y);
    assert (xz + y)[0] == x[0];
  }

  // Replacing the tiles z by z' of the same total length, by a memory change
  // confined to the bytes z occupies.
  lemma Splice(m: seq<byte>, m': seq<byte>, brk: nat, x: seq<Block>, z: seq<Block>, z': seq<Block>, y: seq<Block>)
    requires TiledParts(m, brk, x, z, y) && Total(z) == Total(z')
    requires Tagged(m', LISTP + Total(x), z')
    requires Agree(m, m', 8, 8 + Total(x)) && Agree(m, m', 8 + Total(x) + Total(z), brk)
    ensures TiledParts(m', brk, x, z', y)
  {
    hide ReadWord;
    TaggedFrame(m, m', LISTP, x);
    TaggedFrame(m, m', LISTP + Total(x) + Total(z), y);
    AgreeReads(m, m', 8 + Total(x) + Total(z), brk, brk - 8);
  }

  // What the tags around block b say: its own, and the header ahead of it.
  lemma Neighbours(m: seq<byte>, brk: nat, pre: seq<Block>, b: Block, suf: seq<Block>)
    requires TiledParts(m, brk, pre, [b], suf)
    ensures var bp := LISTP + Total(pre);
            && 16 <= b.size && b.size % 16 == 0 && bp + b.size <= brk <= |m|
            && ReadWord(m, bp - 8) == TagOf(b)
            && ReadWord(m, bp + b.size - 16) == TagOf(b)
            && brk == bp + b.size + Total(suf)
            && ReadWord(m, bp + b.size - 8) == if suf == [] then EPILOGUE else TagOf(suf[0])
  {
    hide ReadWord;
    var bs := [b];
    assert bs[1..] == [] && Total(bs) == b.size;
  }

  // The same for the block in front of it: the footer behind bp and its header.
  lemma Predecessor(m: seq<byte>, brk: nat, pre: seq<Block>, z: seq<Block>, suf: seq<Block>)
    requires TiledParts(m, brk, pre, z, suf)
    ensures var bp, l := LISTP + Total(pre), pre[|pre| - 1];
            && 16 <= l.size && l.size % 16 == 0 && Total(pre) == Total(pre[..|pre| - 1]) + l.size
            && bp <= brk <= |m|
            && ReadWord(m, bp - 16) == TagOf(l)
            && ReadWord(m, bp - l.size - 8) == TagOf(l)
  {
    hide ReadWord, Tagged, Total;
    var k := |pre| - 1;
    var front, last := pre[..k], [pre[k]];
    assert pre == front + last;
    TaggedConcat(m, LISTP, front, last);
    TotalConcat(front, last);
    OneTotal(last);
    FirstOf(m, LISTP + Total(front), last);
  }

  lemma TagParts(b: Block)
    requires b.size % 16 == 0 && TagOf(b) < WORD_LIMIT
    ensures GetSize(TagOf(b)) == b.size && GetAlloc(TagOf(b)) == (if b.alloc then 1 else 0)
    ensures Pack(b.size, if b.alloc then 1 else 0) == TagOf(b)
  {
    PackRoundTrip(b.size, if b.alloc then 1 else 0);
  }

  // b with the free blocks on either side of it.
  function FreeRun(pre: seq<Block>, b: Block, suf: seq<Block>): seq<Block> {
    (if EndsFree(pre) then [pre[|pre| - 1]] else []) + [b] + (if StartsFree(suf) then [suf[0]] else [])
  }

  lemma FreeRunTotal(pre: seq<Block>, b: Block, suf: seq<Block>)
    ensures Total(FreeRun(pre, b, suf)) == FreeTail(pre) + b.size + FreeHead(suf)
  {
    var l := if EndsFree(pre) then [pre[|pre| - 1]] else [];
    var r := if StartsFree(suf) then [suf[0]] else [];
    TotalConcat(l + [b], r);
    TotalConcat(l, [b]);
  }

  lemma RegroupFreeRun(m: seq<byte>, brk: nat, pre: seq<Block>, b: Block, suf: seq<Block>)
    requires TiledParts(m, brk, [PROLOGUE] + pre, [b], suf)
    ensures TiledParts(m, brk, [PROLOGUE] + DropFreeTail(pre), FreeRun(pre, b, suf), DropFreeHead(suf))
  {
    hide Tiled, TiledParts;
    var ts := [PROLOGUE] + pre + [b] + suf;
    assert ts == [PROLOGUE] + DropFreeTail(pre) + FreeRun(pre, b, suf) + DropFreeHead(suf);
    Parts(m, brk, ts, [PROLOGUE] + pre, [b], suf);
    Parts(m, brk, ts, [PROLOGUE] + DropFreeTail(pre), FreeRun(pre, b, suf), DropFreeHead(suf));
  }

  // A free block written over pre's free tail, b and suf's free head, by a
  // header and a footer: the tiling of the merged sequence.
  lemma MergeTags(m: seq<byte>, m': seq<byte>, brk: nat, pre: seq<Block>, b: Block, suf: seq<Block>)
    requires TiledParts(m, brk, [PROLOGUE] + pre, [b], suf)
    requires var h, size := 24 + Total(DropFreeTail(pre)), FreeTail(pre) + b.size + FreeHead(suf);
             && Agree(m, m', 8, h) && Agree(m, m', h + size, brk)
             && 16 <= size && size % 16 == 0 && h + size <= brk
             && ReadWord(m', h) == size && ReadWord(m', h + size - 8) == size
    ensures Tiled(m', brk, [PROLOGUE] + Merge(pre, b.size, suf))
  {
    hide ReadWord, FreeRun, DropFreeTail, DropFreeHead;
    var x, z, y := [PROLOGUE] + DropFreeTail(pre), FreeRun(pre, b, suf), DropFreeHead(suf);
    var merged := [Block(FreeTail(pre) + b.size + FreeHead(suf), false)];
    RegroupFreeRun(m, brk, pre, b, suf);
    FreeRunTotal(pre, b, suf);
    PrologueTotal(DropFreeTail(pre));
    assert brk <= |m'| by { assert |m'| == |m|; }
    OneTag(m', LISTP + Total(x), merged[0]);
    Splice(m, m', brk, x, z, merged, y);
    var ts := x + merged + y;
    Parts(m', brk, ts, x, merged, y);
    assert ts == [PROLOGUE] + Merge(pre, b.size, suf);
  }

  lemma PrologueTotal(bs: seq<Block>)
    ensures Total([PROLOGUE] + bs) == 16 + Total(bs)
  {
    assert ([PROLOGUE] + bs)[1..] == bs;
  }

  lemma OneTag(m: seq<byte>, p: nat, b: Block)
    requires 16 <= b.size && b.size % 16 == 0 && 8 <= p && p + b.size <= |m| + 8
    requires ReadWord(m, p - 8) == TagOf(b) && ReadWord(m, p + b.size - 16) == TagOf(b)
    ensures Tagged(m, p, [b]) && Total([b]) == b.size
  {
    hide ReadWord;
    var bs := [b];
    assert bs[1..] == [];
  }

  // Address arithmetic as the code does it, on the tags in memory.
  function FtrPointer(m: seq<byte>, bp: nat): int
    requires 8 <= bp <= |m|
  {
    bp + GetSize(ReadWord(m, bp - 8)) - 16
  }

  function NextBlkp(m: seq<byte>, bp: nat): nat
    requires 8 <= bp <= |m|
  {
    bp + GetSize(ReadWord(m, bp - 8))
  }

  function PrevBlkp(m: seq<byte>, bp: nat): int
    requires 16 <= bp <= |m| + 8
  {
    bp - GetSize(ReadWord(m, bp - 16))
  }

  lemma DropTailTotal(pre: seq<Block>)
    ensures Total(DropFreeTail(pre)) + FreeTail(pre) == Total(pre)
  {
    if EndsFree(pre) {
      TotalSplit(pre, |pre| - 1);
      assert pre[|pre|..] == [];
    }
  }

  // What coalesce reads of the block itself and ahead of it before it writes.
  lemma TagsAhead(m: seq<byte>, brk: nat, pre: seq<Block>, b: Block, suf: seq<Block>)
    requires TiledParts(m, brk, [PROLOGUE] + pre, [b], suf)
    ensures var bp, r := FIRST + Total(pre), FreeHead(suf);
            && 16 <= b.size && b.size % 16 == 0 && r % 16 == 0 && bp + b.size + r <= brk <= |m|
            && (!StartsFree(suf) ==> r == 0)
            && GetSize(ReadWord(m, bp - 8)) == b.size
            && GetSize(ReadWord(m, bp + b.size - 16)) == b.size
            && (GetAlloc(ReadWord(m, bp + b.size - 8)) == 0 <==> StartsFree(suf))
            && (StartsFree(suf) ==> 16 <= r && GetSize(ReadWord(m, bp + b.size - 8)) == r
                                    && GetSize(ReadWord(m, bp + b.size + r - 16)) == r)
  {
    hide ReadWord, Tagged, Total;
    PrologueTotal(pre);
    Neighbours(m, brk, [PROLOGUE] + pre, b, suf);
    TagParts(b);
    if suf != [] {
      FirstOf(m, FIRST + Total(pre) + b.size, suf);
      TagParts(suf[0]);
    }
  }

  // And behind it.
  lemma TagsBehind(m: seq<byte>, brk: nat, pre: seq<Block>, b: Block, suf: seq<Block>)
    requires TiledParts(m, brk, [PROLOGUE] + pre, [b], suf)
    ensures var bp, l := FIRST + Total(pre), FreeTail(pre);
            && bp <= brk <= |m| && l % 16 == 0 && Total(DropFreeTail(pre)) + l == Total(pre)
            && (GetAlloc(ReadWord(m, bp - 16)) == 0 <==> EndsFree(pre))
            && 16 <= PrevBlkp(m, bp) <= bp && FtrPointer(m, PrevBlkp(m, bp)) == bp - 16
            && (!EndsFree(pre) ==> l == 0)
            && (EndsFree(pre) ==> 16 <= l && bp - l >= FIRST && PrevBlkp(m, bp) == bp - l && GetSize(ReadWord(m, bp - l - 8)) == l)
  {
    hide ReadWord, Tagged;
    var x := [PROLOGUE] + pre;
    PrologueTotal(pre);
    DropTailTotal(pre);
    Predecessor(m, brk, x, [b], suf);
    TagParts(x[|x| - 1]);
    if pre == [] {
      assert x == [PROLOGUE] && x[..|x| - 1] == [];
    } else {
      assert x[|x| - 1] == pre[|pre| - 1];
      assert x[..|x| - 1] == [PROLOGUE] + pre[..|pre| - 1];
      PrologueTotal(pre[..|pre| - 1]);
    }
  }

  lemma FirstOf(m: seq<byte>, p: nat, bs: seq<Block>)
    requires Tagged(m, p, bs) && bs != []
    ensures 16 <= bs[0].size <= Total(bs) && bs[0].size % 16 == 0 && p + bs[0].size <= |m| + 8 && 8 <= p
    ensures ReadWord(m, p - 8) == TagOf(bs[0]) && ReadWord(m, p + bs[0].size - 16) == TagOf(bs[0])
  {
  }

  // Tiled(m, brk, [PROLOGUE] + bs), with block i of bs in the middle.
  lemma PartsAt(m: seq<byte>, brk: nat, bs: seq<Block>, i: nat)
    requires Tiled(m, brk, [PROLOGUE] + bs) && i < |bs|
    ensures TiledParts(m, brk, [PROLOGUE] + bs[..i], [bs[i]], bs[i + 1..])
    ensures brk == FIRST + Total(bs) && Total([PROLOGUE] + bs[..i]) == 16 + Total(bs[..i])
  {
    hide Tiled, TiledParts;
    assert [PROLOGUE] + bs == [PROLOGUE] + bs[..i] + [bs[i]] + bs[i + 1..];
    Parts(m, brk, [PROLOGUE] + bs, [PROLOGUE] + bs[..i], [bs[i]], bs[i + 1..]);
    PrologueTotal(bs[..i]);
    assert brk == FIRST + Total(bs) by { BreakOf(m, brk, bs); }
  }

  lemma BreakOf(m: seq<byte>, brk: nat, bs: seq<Block>)
    requires Tiled(m, brk, [PROLOGUE] + bs)
    ensures brk == FIRST + Total(bs) <= |m|
  {
    hide Tagged;
    PrologueTotal(bs);
  }

  // The tags of the one or two blocks that replace free block i.
  lemma ReplaceAt(m: seq<byte>, m': seq<byte>, brk: nat, bs: seq<Block>, i: nat, z: seq<Block>)
    requires Tiled(m, brk, [PROLOGUE] + bs) && i < |bs|
    requires var bp := FIRST + Total(bs[..i]);
             && Agree(m, m', 0, bp - 8) && Agree(m, m', bp + bs[i].size - 8, |m|)
             && Tagged(m', bp, z) && Total(z) == bs[i].size
    ensures Tiled(m', brk, [PROLOGUE] + (bs[..i] + z + bs[i + 1..]))
  {
    hide ReadWord, Tagged, TiledParts, Tiled;
    PartsAt(m, brk, bs, i);
    var x, y := [PROLOGUE] + bs[..i], bs[i + 1..];
    assert Total([bs[i]]) == bs[i].size by { OneTotal([bs[i]]); }
    BreakOf(m, brk, bs);
    Splice(m, m', brk, x, [bs[i]], z, y);
    assert [PROLOGUE] + (bs[..i] + z + y) == x + z + y;
    Parts(m', brk, x + z + y, x, z, y);
  }

  lemma TwoTags(m: seq<byte>, p: nat, b: Block, c: Block)
    requires 16 <= b.size && b.size % 16 == 0 && 16 <= c.size && c.size % 16 == 0
    requires 8 <= p && p + b.size + c.size <= |m| + 8
    requires ReadWord(m, p - 8) == TagOf(b) && ReadWord(m, p + b.size - 16) == TagOf(b)
    requires ReadWord(m, p + b.size - 8) == TagOf(c) && ReadWord(m, p + b.size + c.size - 16) == TagOf(c)
    ensures Tagged(m, p, [b, c]) && Total([b, c]) == b.size + c.size
  {
    OneTag(m, p, b);
    OneTag(m, p + b.size, c);
    hide ReadWord, Tagged;
    TaggedConcat(m, p, [b], [c]);
    TotalConcat([b], [c]);
    assert [b] + [c] == [b, c];
  }

  // A free block written past the old epilogue, with a new epilogue behind it.
  lemma AppendTags(m: seq<byte>, m': seq<byte>, brk: nat, bs: seq<Block>, size: nat)
    requires Tiled(m, brk, [PROLOGUE] + bs) && 32 <= size && size % 16 == 0 && brk + size <= |m|
    requires Agree(m, m', 0, brk - 8)
    requires ReadWord(m', brk - 8) == size && ReadWord(m', brk + size - 16) == size && ReadWord(m', brk + size - 8) == EPILOGUE
    ensures TiledParts(m', brk + size, [PROLOGUE] + bs, [Block(size, false)], [])
  {
    hide ReadWord;
    var ts := [PROLOGUE] + bs;
    TaggedFrame(m, m', LISTP, ts);
    OneTag(m', brk, Block(size, false));
  }
}
