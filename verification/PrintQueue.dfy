// The linked queue of matches of one file: a head, a tail, and nodes that point
// into the file's buffer.
module PrintQueue {

  // line and hit are offsets into the buffer (hit is where the match starts).
  datatype Entry = Entry(line: nat, hit: nat, lineNum: nat)

  class PrintJob {
    const entry: Entry
    var next: PrintJob?

    constructor (entry: Entry)
      ensures this.entry == entry && next == null
    {
      this.entry := entry;
      next := null;
    }
  }

  function Entries(ns: seq<PrintJob>): (s: seq<Entry>)
    ensures |s| == |ns|
  {
    seq(|ns|, i requires 0 <= i < |ns| => ns[i].entry)
  }

  class Queue {
    var head: PrintJob?
    var tail: PrintJob?

    ghost var nodes: seq<PrintJob>

    // tail is left dangling once the queue is empty, as in the code.
    ghost predicate Valid()
      reads this, nodes
    {
      && (head == null <==> nodes == [])
      && (nodes != [] ==> head == nodes[0] && tail == nodes[|nodes| - 1] && nodes[|nodes| - 1].next == null)
      && (forall i {:trigger nodes[i].next} | 0 <= i < |nodes| - 1 :: nodes[i].next == nodes[i + 1])
      && (forall i, j | 0 <= i < j < |nodes| :: nodes[i] != nodes[j])
    }

    ghost function Contents(): seq<Entry>
      reads this
    {
      Entries(nodes)
    }

    lemma HeadIsFront()
      requires Valid()
      ensures head == null <==> Contents() == []
    {
    }

    // pq_init
    constructor ()
      ensures Valid() && Contents() == [] && nodes == []
    {
      head, tail := null, null;
      nodes := [];
    }

    // pq_add_tail
    method AddTail(entry: Entry)
      requires Valid()
      modifies this, nodes
      ensures Valid() && Contents() == old(Contents()) + [entry]
      ensures |nodes| == |old(nodes)| + 1 && nodes[..|old(nodes)|] == old(nodes) && fresh(nodes[|old(nodes)|])
    {
      var job := new PrintJob(entry);
      if head == null {
        head := job;
        tail := job;
      } else {
        tail.next := job;
        tail := job;
      }
      nodes := nodes + [job];
      assert Entries(nodes) == Entries(old(nodes)) + [entry];
    }

    // pq_pop_front: NULL when empty.
    method PopFront() returns (job: PrintJob?)
      requires Valid()
      modifies this
      ensures Valid()
      ensures job == null <==> old(Contents()) == []
      ensures job == null ==> Contents() == []
      ensures job != null ==> [job.entry] + Contents() == old(Contents()) && nodes == old(nodes)[1..]
    {
      if head == null {
        return null;
      }
      job := head;
      head := job.next;
      nodes := nodes[1..];
      assert [job.entry] + Entries(nodes) == Entries(old(nodes));
    }
  }
}
