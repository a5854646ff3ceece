// The bounded ring of greptile: its index arithmetic as a value, the FIFO
// sequence it stands for, and the mutable buffer that follows it.
module RingBuffer {

  datatype Ring<T> = Ring(slots: seq<T>, num: nat, enqueueIndex: nat, dequeueIndex: nat)

  predicate Ok<T>(r: Ring<T>) {
    && r.num <= |r.slots|
    && r.enqueueIndex < |r.slots| && r.dequeueIndex < |r.slots|
    && r.enqueueIndex == (r.dequeueIndex + r.num) % |r.slots|
  }

  // The waiting elements, oldest first.
  function Contents<T>(r: Ring<T>): (s: seq<T>)
    requires Ok(r)
    ensures |s| == r.num
  {
    seq(r.num, i requires 0 <= i < r.num => r.slots[(r.dequeueIndex + i) % |r.slots|])
  }

  // The bodies of rb_enqueue and rb_dequeue between waiting and signalling.
  function Put<T>(r: Ring<T>, x: T): Ring<T>
    requires Ok(r)
  {
    Ring(r.slots[r.enqueueIndex := x], r.num + 1, (r.enqueueIndex + 1) % |r.slots|, r.dequeueIndex)
  }

  function Take<T>(r: Ring<T>): (Ring<T>, T)
    requires Ok(r) && r.num > 0
  {
    (Ring(r.slots, r.num - 1, r.enqueueIndex, (r.dequeueIndex + 1) % |r.slots|), r.slots[r.dequeueIndex])
  }

  lemma Wrap(k: nat, n: nat)
    requires 0 < n && k < 2 * n
    ensures k % n == if k < n then k else k - n
  {
    if k < n {
    } else {
      assert k == n + (k - n);
      WrapOnce(k - n, n);
    }
  }

  lemma WrapOnce(j: nat, n: nat)
    requires j < n
    ensures (n + j) % n == j
  {
    var q, r := (n + j) / n, (n + j) % n;
    assert n * (q - 1) == j - r;
    if q > 1 {
      assert n * (q - 1) >= n by { AtLeastOnce(n, q - 1); }
    }
  }

  lemma AtLeastOnce(n: nat, q: nat)
    requires q >= 1
    ensures n * q >= n
  {
    assert n * (q - 1) >= 0;
  }

  // Enqueueing appends.
  lemma PutAppends<T>(r: Ring<T>, x: T)
    requires Ok(r) && r.num < |r.slots|
    ensures Ok(Put(r, x)) && Contents(Put(r, x)) == Contents(r) + [x]
  {
    var n, r' := |r.slots|, Put(r, x);
    Wrap(r.dequeueIndex + r.num, n);
    Wrap(r.enqueueIndex + 1, n);
    Wrap(r.dequeueIndex + r.num + 1, n);
    forall i | 0 <= i < r.num
      ensures Contents(r')[i] == Contents(r)[i]
    {
      Wrap(r.dequeueIndex + i, n);
    }
  }

  // Dequeueing removes the oldest.
  lemma TakeRemoves<T>(r: Ring<T>)
    requires Ok(r) && r.num > 0
    ensures Ok(Take(r).0) && [Take(r).1] + Contents(Take(r).0) == Contents(r)
  {
    var n := |r.slots|;
    var (r', x) := Take(r);
    Wrap(r.dequeueIndex, n);
    Wrap(r.dequeueIndex + r.num, n);
    Wrap(r.dequeueIndex + 1, n);
    Wrap(r'.dequeueIndex + r'.num, n);
    forall i | 0 <= i < r'.num
      ensures Contents(r')[i] == Contents(r)[i + 1]
    {
      Wrap(r.dequeueIndex + (i + 1), n);
      Wrap(r'.dequeueIndex + i, n);
    }
  }

  // Rings with the same indices and the same live window: whatever is in the
  // other slots, they hold the same sequence and go on doing so.
  ghost predicate SameWindow<T>(r: Ring<T>, s: Ring<T>)
    requires Ok(r) && Ok(s)
  {
    && |r.slots| == |s.slots| && r.num == s.num
    && r.enqueueIndex == s.enqueueIndex && r.dequeueIndex == s.dequeueIndex
    && Contents(r) == Contents(s)
  }

  lemma DeadSlotsDoNotMatter<T>(r: Ring<T>, s: Ring<T>, x: T)
    requires Ok(r) && Ok(s) && SameWindow(r, s)
    ensures r.num < |r.slots| ==> Ok(Put(r, x)) && Ok(Put(s, x)) && SameWindow(Put(r, x), Put(s, x))
    ensures r.num > 0 ==> Take(r).1 == Take(s).1 && Ok(Take(r).0) && Ok(Take(s).0) && SameWindow(Take(r).0, Take(s).0)
  {
    if r.num < |r.slots| {
      PutAppends(r, x);
      PutAppends(s, x);
    }
    if r.num > 0 {
      TakeRemoves(r);
      TakeRemoves(s);
      assert Contents(r)[0] == Take(r).1 && Contents(s)[0] == Take(s).1;
      assert Contents(r)[1..] == Contents(Take(r).0) && Contents(s)[1..] == Contents(Take(s).0);
    }
  }

  class Buffer<T(0)> {
    const capacity: nat
    const jobs: array<T>
    var numJobs: nat
    var enqueueIndex: nat
    var dequeueIndex: nat

    ghost function Model(): Ring<T>
      reads this, jobs
    {
      Ring(jobs[..], numJobs, enqueueIndex, dequeueIndex)
    }

    ghost predicate Valid()
      reads this, jobs
    {
      jobs.Length == capacity && Ok(Model())
    }

    // rb_init
    constructor (capacity: nat)
      requires capacity > 0
      ensures Valid() && this.capacity == capacity && Contents(Model()) == [] && fresh(jobs)
    {
      this.capacity := capacity;
      jobs := new T[capacity];
      numJobs, enqueueIndex, dequeueIndex := 0, 0, 0;
    }

    // What rb_enqueue does once there is space.
    method Enqueue(x: T)
      requires Valid() && numJobs != capacity
      modifies this, jobs
      ensures Valid() && Model() == Put(old(Model()), x)
      ensures Contents(Model()) == old(Contents(Model())) + [x]
    {
      PutAppends(Model(), x);
      jobs[enqueueIndex] := x;
      enqueueIndex := (enqueueIndex + 1) % capacity;
      numJobs := numJobs + 1;
    }

    // What rb_dequeue does once there is a job.
    method Dequeue() returns (x: T)
      requires Valid() && numJobs != 0
      modifies this
      ensures Valid() && (Model(), x) == Take(old(Model()))
      ensures [x] + Contents(Model()) == old(Contents(Model()))
    {
      TakeRemoves(Model());
      x := jobs[dequeueIndex];
      dequeueIndex := (dequeueIndex + 1) % capacity;
      numJobs := numJobs - 1;
    }
  }
}
