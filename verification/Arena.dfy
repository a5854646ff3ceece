// The memory system under the allocator: one zeroed mapping and a break that
// only moves up.
module Arena {
  import opened Words

  class Arena {
    const limit: nat        // MAX_HEAP
    var bytes: array<byte>  // mem_heap .. mem_max_addr
    var brk: nat            // mem_brk - mem_heap

    // Before mem_init there is no mapping.
    constructor (limit: nat)
      ensures this.limit == limit && brk == 0 && bytes.Length == 0 && fresh(bytes)
    {
      this.limit := limit;
      bytes := new byte[0];
      brk := 0;
    }

    ghost predicate Mapped()
      reads this
    {
      bytes.Length == limit && brk <= limit
    }

    // mem_init
    method Map()
      modifies this
      ensures Mapped() && fresh(bytes) && brk == 0
      ensures forall k | 0 <= k < limit :: bytes[k] == 0
    {
      bytes := new byte[limit](_ => 0);
      brk := 0;
    }

    // mem_sbrk: the old break, or -1 with nothing changed.
    method Sbrk(incr: int) returns (old_brk: int)
      requires Mapped()
      modifies this`brk
      ensures Mapped()
      ensures (incr < 0 || old(brk) + incr > limit) ==> old_brk == -1 && brk == old(brk)
      ensures !(incr < 0 || old(brk) + incr > limit) ==> old_brk == old(brk) && brk == old(brk) + incr
    {
      if incr < 0 || brk + incr > limit {
        return -1;
      }
      old_brk := brk;
      brk := brk + incr;
    }

    function Read(p: nat): word
      requires p + 8 <= bytes.Length
      reads this, bytes
    {
      ReadWord(bytes[..], p)
    }

    // put_word
    method PutWord(p: nat, v: word)
      requires p + 8 <= bytes.Length
      modifies bytes
      ensures bytes[..] == WriteWord(old(bytes[..]), p, v)
    {
      var b := Encode(v, 8);
      forall k | 0 <= k < 8 {
        bytes[p + k] := b[k];
      }
    }

    // memcpy, whose ranges must not overlap.
    method Copy(dst: nat, src: nat, n: nat)
      requires dst + n <= bytes.Length && src + n <= bytes.Length
      requires dst + n <= src || src + n <= dst
      modifies bytes
      ensures var m := old(bytes[..]); bytes[..] == m[..dst] + m[src..src + n] + m[dst + n..]
    {
      forall k | 0 <= k < n {
        bytes[dst + k] := bytes[src + k];
      }
    }
  }
}
