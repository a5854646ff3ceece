// The byte memory and the 64-bit words that boundary tags are stored in.
module Words {

  // 2^64: words and sizes are unsigned 64-bit quantities.
  const WORD_LIMIT: int := 0x1_0000_0000_0000_0000

  type byte = x: int | 0 <= x < 256
  type word = x: int | 0 <= x < WORD_LIMIT

  function Pow256(k: nat): nat {
    if k == 0 then 1 else 256 * Pow256(k - 1)
  }

  // The k low-order bytes of v, least significant first.
  function Encode(v: nat, k: nat): (b: seq<byte>)
    ensures |b| == k
  {
    if k == 0 then [] else [v % 256] + Encode(v / 256, k - 1)
  }

  function Decode(b: seq<byte>): (v: nat)
    ensures v < Pow256(|b|)
  {
    if b == [] then 0 else b[0] + 256 * Decode(b[1..])
  }

  lemma {:induction false} DecodeEncode(v: nat, k: nat)
    requires v < Pow256(k)
    ensures Decode(Encode(v, k)) == v
  {
    if k > 0 {
      DecodeEncode(v / 256, k - 1);
      assert Encode(v, k)[1..] == Encode(v / 256, k - 1);
    }
  }

  lemma Pow256Of8()
    ensures Pow256(8) == WORD_LIMIT
  {
    assert Pow256(4) == 0x1_0000_0000;
    assert Pow256(6) == 256 * (256 * Pow256(4));
  }

  // get_payload: the word stored at address a.
  function ReadWord(m: seq<byte>, a: nat): word
    requires a + 8 <= |m|
  {
    Pow256Of8();
    Decode(m[a..a + 8])
  }

  // put_word: memory after storing v at address a.
  function WriteWord(m: seq<byte>, a: nat, v: word): (m': seq<byte>)
    requires a + 8 <= |m|
    ensures |m'| == |m|
  {
    m[..a] + Encode(v, 8) + m[a + 8..]
  }

  lemma ReadBack(m: seq<byte>, a: nat, v: word)
    requires a + 8 <= |m|
    ensures ReadWord(WriteWord(m, a, v), a) == v
  {
    Pow256Of8();
    DecodeEncode(v, 8);
    assert WriteWord(m, a, v)[a..a + 8] == Encode(v, 8);
  }

  // Words lie in memory least significant byte first.
  lemma LittleEndian(m: seq<byte>, a: nat)
    requires a + 8 <= |m|
    ensures var b: seq<int> := m[a..a + 8];
            ReadWord(m, a) == b[0] + 0x100 * b[1] + 0x1_0000 * b[2] + 0x100_0000 * b[3] + 0x1_0000_0000 * b[4]
                              + 0x100_0000_0000 * b[5] + 0x1_0000_0000_0000 * b[6] + 0x100_0000_0000_0000 * b[7]
  {
    var b := m[a..a + 8];
    assert Decode(b[8..]) == 0;
    DecodeFrom(b, 7);
    DecodeFrom(b, 6);
    DecodeFrom(b, 5);
    DecodeFrom(b, 4);
    DecodeFrom(b, 3);
    DecodeFrom(b, 2);
    DecodeFrom(b, 1);
    DecodeFrom(b, 0);
    assert b[0..] == b;
  }

  lemma DecodeFrom(b: seq<byte>, k: nat)
    requires k < |b|
    ensures Decode(b[k..]) == b[k] + 256 * Decode(b[k + 1..])
  {
    assert b[k..][1..] == b[k + 1..];
  }

  // Memories that agree on the addresses lo..hi.
  ghost predicate Agree(m: seq<byte>, m': seq<byte>, lo: nat, hi: nat) {
    |m| == |m'| && forall k | lo <= k < hi && k < |m| :: m[k] == m'[k]
  }

  lemma AgreeReads(m: seq<byte>, m': seq<byte>, lo: nat, hi: nat, a: nat)
    requires Agree(m, m', lo, hi) && lo <= a && a + 8 <= hi <= |m|
    ensures ReadWord(m, a) == ReadWord(m', a)
  {
    assert m[a..a + 8] == m'[a..a + 8];
  }

  lemma WriteAgrees(m: seq<byte>, a: nat, v: word)
    requires a + 8 <= |m|
    ensures Agree(m, WriteWord(m, a, v), 0, a)
    ensures Agree(m, WriteWord(m, a, v), a + 8, |m|)
  {
  }

  // A store elsewhere does not disturb the word at b.
  lemma ReadOther(m: seq<byte>, a: nat, v: word, b: nat)
    requires a + 8 <= |m| && b + 8 <= |m|
    requires b + 8 <= a || a + 8 <= b
    ensures ReadWord(WriteWord(m, a, v), b) == ReadWord(m, b)
  {
    WriteAgrees(m, a, v);
    if b + 8 <= a {
      AgreeReads(m, WriteWord(m, a, v), 0, a, b);
    } else {
      AgreeReads(m, WriteWord(m, a, v), a + 8, |m|, b);
    }
  }

  // pack: size | alloc, for the one-bit alloc flag the code passes.
  function Pack(size: word, alloc: nat): word
    requires alloc <= 1
  {
    if size % 2 == 1 then size else size + alloc
  }

  // get_size: the word with its four low bits cleared.
  function GetSize(w: word): (s: word) {
    w - w % 16
  }

  // get_alloc: the low bit.
  function GetAlloc(w: word): nat {
    w % 2
  }

  lemma PackRoundTrip(size: word, alloc: nat)
    requires alloc <= 1 && size % 16 == 0
    ensures GetSize(Pack(size, alloc)) == size
    ensures GetAlloc(Pack(size, alloc)) == alloc
  {
    var k := size / 16;
    assert size == 16 * k;
    TagBits(k, 0);
    TagBits(k, alloc);
  }

  lemma TagBits(k: int, bit: int)
    requires 0 <= bit <= 1
    ensures (16 * k + bit) % 16 == bit && (16 * k + bit) % 2 == bit
  {
    var n := 16 * k + bit;
    assert n / 16 == k;
    assert n / 2 == 8 * k;
  }
}
