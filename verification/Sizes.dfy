// The size arithmetic of mm_malloc and extend_heap, in the widths the code uses:
// unsigned 64-bit sums that wrap, and an `int` argument to mem_sbrk.
module Sizes {
  import opened Words

  const DSIZE: nat := 16
  const CHUNKSIZE: nat := 4096
  const INT_RANGE: int := 0x1_0000_0000

  // asize, for a request of size > 0 bytes.
  function AdjustedSize(size: word): word {
    if size <= DSIZE then 32 else DSIZE * (((size + DSIZE + (DSIZE - 1)) % WORD_LIMIT) / DSIZE)
  }

  // extendsize
  function ExtendSize(asize: word): word {
    ((asize + CHUNKSIZE - 1) % WORD_LIMIT) / CHUNKSIZE * CHUNKSIZE
  }

  // The conversion of a size_t argument to the `int incr` of mem_sbrk.
  function ToInt(x: word): int {
    var low := x % INT_RANGE;
    if low < INT_RANGE / 2 then low else low - INT_RANGE
  }

  // The int congruent to x.
  lemma ToIntIsCongruent(x: word)
    ensures -(INT_RANGE / 2) <= ToInt(x) < INT_RANGE / 2 && (x - ToInt(x)) % INT_RANGE == 0
  {
    var k := x / INT_RANGE;
    assert x == INT_RANGE * k + x % INT_RANGE;
    assert (x - ToInt(x)) / INT_RANGE == if ToInt(x) < 0 then k + 1 else k;
  }

  lemma ToIntFacts(x: word)
    ensures ToInt(x) < 0 <==> x % INT_RANGE >= INT_RANGE / 2
    ensures ToInt(x) <= x && ToInt(x) < INT_RANGE / 2 && (x < INT_RANGE / 2 ==> ToInt(x) == x)
  {
  }

  // The least multiple of unit that is at least x (see NoSmallerMultiple), on
  // unbounded numbers.
  function RoundUp(x: nat, unit: nat): nat
    requires unit > 0
  {
    (x + unit - 1) / unit * unit
  }

  lemma BelowRoundUp(x: nat, unit: nat, j: nat)
    requires unit > 0 && j < (x + unit - 1) / unit
    ensures j * unit < x
  {
    var q := (x + unit - 1) / unit;
    assert q * unit <= x + unit - 1;
    Monotone(j + 1, q, unit);
    assert (j + 1) * unit == j * unit + unit;
  }

  // RoundUp is below every multiple of unit that is at least x.
  lemma NoSmallerMultiple(x: nat, unit: nat, j: nat)
    requires unit > 0 && x <= j * unit
    ensures RoundUp(x, unit) <= j * unit
  {
    var q := (x + unit - 1) / unit;
    if j < q {
      BelowRoundUp(x, unit, j);
    } else {
      Monotone(q, j, unit);
    }
  }

  lemma RoundUpIsLeast(x: nat, unit: nat)
    requires unit > 0
    ensures x <= RoundUp(x, unit) < x + unit
    ensures RoundUp(x, unit) % unit == 0
  {
    var q := (x + unit - 1) / unit;
    assert x + unit - 1 == q * unit + (x + unit - 1) % unit;
    MultipleOf(q, unit);
  }

  lemma {:induction false} MultipleOf(q: nat, unit: nat)
    requires unit > 0
    ensures (q * unit) % unit == 0
  {
    if q > 0 {
      MultipleOf(q - 1, unit);
      assert q * unit == (q - 1) * unit + unit;
      AddUnit((q - 1) * unit, unit);
    }
  }

  lemma Monotone(i: int, j: int, unit: nat)
    requires i <= j
    ensures i * unit <= j * unit
  {
    assert 0 <= (j - i) * unit;
  }

  lemma AddUnit(y: nat, unit: nat)
    requires unit > 0 && y % unit == 0
    ensures (y + unit) % unit == 0
  {
    var d := y / unit;
    assert y + unit == unit * (d + 1);
    var e, r := (y + unit) / unit, (y + unit) % unit;
    assert unit * (d + 1 - e) == r;
    if d + 1 - e >= 1 { Monotone(1, d + 1 - e, unit); }
    if d + 1 - e <= -1 { Monotone(d + 1 - e, -1, unit); }
  }

  // Both branches of asize agree: the least multiple of 16 that is at least size + 16.
  lemma AdjustedSizeIsLeast(size: word)
    requires 1 <= size && size + 31 < WORD_LIMIT
    ensures AdjustedSize(size) == RoundUp(size + 16, 16)
    ensures size + 16 <= AdjustedSize(size) < size + 32
    ensures AdjustedSize(size) % 16 == 0 && AdjustedSize(size) >= 32
  {
    RoundUpIsLeast(size + 16, 16);
  }

  lemma ExtendSizeIsLeast(asize: word)
    requires 1 <= asize && asize + 4095 < WORD_LIMIT
    ensures ExtendSize(asize) == RoundUp(asize, 4096)
    ensures asize <= ExtendSize(asize) < asize + 4096
    ensures ExtendSize(asize) % 4096 == 0
  {
    RoundUpIsLeast(asize, 4096);
  }

  // What mm_malloc needs of its own arithmetic when it has to extend the heap:
  // room for the request and its tags, and an mem_sbrk that either refuses or
  // moves the break by exactly the size the new header will claim.
  predicate ExtensionMeetsRequest(size: word) {
    var asize := AdjustedSize(size);
    var extend := ExtendSize(asize);
    && size + 16 <= asize <= extend
    && (ToInt(extend) < 0 || ToInt(extend) == extend)
  }

  // The same, as a condition on the request alone.
  predicate Extensible(size: word) {
    && size <= WORD_LIMIT - 4112
    && var pages := RoundUp(size + 16, 4096);
       pages < INT_RANGE / 2 || pages % INT_RANGE >= INT_RANGE / 2
  }

  lemma PagesOfAdjusted(size: word)
    requires 1 <= size && size + 31 < WORD_LIMIT
    ensures RoundUp(AdjustedSize(size), 4096) == RoundUp(size + 16, 4096)
  {
    hide RoundUp, AdjustedSize;
    AdjustedSizeIsLeast(size);
    RoundUpIsLeast(size + 16, 4096);
    RoundUpIsLeast(AdjustedSize(size), 4096);
    var a, p, q := AdjustedSize(size) / 16, RoundUp(size + 16, 4096) / 4096, RoundUp(AdjustedSize(size), 4096) / 4096;
    assert 256 * p >= a;
    assert p == q;
  }

  // The arithmetic is sound for exactly the extensible requests.
  lemma ExtensionMeetsRequestIff(size: word)
    requires 1 <= size
    ensures ExtensionMeetsRequest(size) <==> Extensible(size)
  {
    hide AdjustedSize, ExtendSize, RoundUp, ToInt;
    var asize := AdjustedSize(size);
    RepresentableIff(size);
    if size <= WORD_LIMIT - 4112 {
      AdjustedSizeIsLeast(size);
      PagesOfAdjusted(size);
      ExtendSizeIsLeast(asize);
      ToIntFacts(ExtendSize(asize));
    } else if size + 31 < WORD_LIMIT {
      AdjustedSizeIsLeast(size);
      ExtendWraps(asize);
    } else {
      AdjustedWraps(size);
    }
  }

  // Neither sum wraps.
  lemma RepresentableIff(size: word)
    requires 1 <= size
    ensures size <= WORD_LIMIT - 4112 <==> size + 31 < WORD_LIMIT && AdjustedSize(size) + 4095 < WORD_LIMIT
  {
    hide AdjustedSize;
    if size + 31 < WORD_LIMIT {
      AdjustedSizeIsLeast(size);
      var k := AdjustedSize(size) / 16;
      assert AdjustedSize(size) == 16 * k;
    }
  }

  lemma ExtendWraps(asize: word)
    requires asize + 4095 >= WORD_LIMIT
    ensures ExtendSize(asize) == 0
  {
    assert (asize + 4095) % WORD_LIMIT == asize + 4095 - WORD_LIMIT;
  }

  lemma AdjustedWraps(size: word)
    requires size + 31 >= WORD_LIMIT
    ensures AdjustedSize(size) == if size + 31 - WORD_LIMIT < 16 then 0 else 16
  {
    assert (size + 31) % WORD_LIMIT == size + 31 - WORD_LIMIT;
  }

  // Two requests for which it is not: one of 2^32 - 16 bytes asks mem_sbrk for
  // zero bytes, and the largest one is rounded to a block without a payload.
  lemma ExtensionCanMissRequest()
    ensures ToInt(ExtendSize(AdjustedSize(0xFFFF_FFF0))) == 0 && !ExtensionMeetsRequest(0xFFFF_FFF0)
    ensures AdjustedSize(WORD_LIMIT - 1) == 16 && !ExtensionMeetsRequest(WORD_LIMIT - 1)
  {
    assert AdjustedSize(0xFFFF_FFF0) == 0x1_0000_0000;
  }
}
