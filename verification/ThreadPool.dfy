/** The shared object of the fixed-size thread pool: the linked job list with its count and
    flag, and what each thread does to it while it holds the lock. The runs of all threads
    together are in ThreadPoolRuns. */
module ThreadPool {

  // ---- The job list ----

  type Job = nat

  class Node {
    const job: Job
    var next: Node?

    constructor (job: Job)
      ensures this.job == job && next == null
    {
      this.job := job;
      next := null;
    }
  }

  function NextOf(nodes: seq<Node>, i: nat): Node?
    requires i < |nodes|
  {
    if i + 1 < |nodes| then nodes[i + 1] else null
  }

  /** What a worker holding the lock does: block, leave, or take the oldest job. */
  datatype Decision = Block | Leave | Take(job: Job)

  function Decide(queue: seq<Job>, shutdown: bool): Decision {
    if !shutdown && queue == [] then Block
    else if queue == [] then Leave
    else Take(queue[0])
  }

  class Pool {
    var head: Node?
    var tail: Node?
    var pending: int
    var shutdown: bool
    // the nodes from head to tail
    ghost var nodes: seq<Node>

    ghost predicate Valid()
      reads this, nodes
    {
      && pending == |nodes|
      && (forall i, j :: 0 <= i < j < |nodes| ==> nodes[i] != nodes[j])
      && (forall i :: 0 <= i < |nodes| ==> nodes[i].next == NextOf(nodes, i))
      && head == (if nodes == [] then null else nodes[0])
      && tail == (if nodes == [] then null else nodes[|nodes| - 1])
    }

    /** The queued jobs, oldest first. */
    ghost function Jobs(): seq<Job>
      reads this, nodes
    {
      seq(|nodes|, i requires 0 <= i < |nodes| reads this, nodes => nodes[i].job)
    }

    constructor ()
      ensures Valid() && Jobs() == [] && !shutdown
    {
      head, tail, pending, shutdown, nodes := null, null, 0, false, [];
    }

    /** The locked part of threadpool_submit. */
    method Enqueue(job: Job)
      requires Valid()
      modifies this, nodes
      ensures Valid() && Jobs() == old(Jobs()) + [job] && shutdown == old(shutdown)
      ensures pending == old(pending) + 1
      ensures forall n :: n in nodes ==> n in old(nodes) || fresh(n)
    {
      var w := new Node(job);
      if tail != null {
        tail.next := w;
      } else {
        head := w;
      }
      tail := w;
      pending := pending + 1;
      nodes := nodes + [w];
    }

    /** The locked part of a worker that found work. */
    method Dequeue() returns (job: Job)
      requires Valid() && head != null
      modifies this
      ensures Valid() && old(Jobs()) == [job] + Jobs() && shutdown == old(shutdown)
      ensures pending == old(pending) - 1
      ensures nodes == old(nodes)[1..]
    {
      ghost var was := nodes;
      var w := head;
      if w == tail {
        assert nodes == [w];
        head, tail := null, null;
      } else {
        assert nodes[0].next == NextOf(nodes, 0);
        head := w.next;
      }
      pending := pending - 1;
      job := w.job;
      nodes := nodes[1..];
      forall i | 0 <= i < |nodes| ensures nodes[i].next == NextOf(nodes, i) {
        assert nodes[i] == was[i + 1] && NextOf(nodes, i) == NextOf(was, i + 1);
      }
    }

    /** The locked part of the worker loop, up to the wait or the unlock. */
    method WorkerSection() returns (d: Decision)
      requires Valid()
      modifies this
      ensures Valid() && d == Decide(old(Jobs()), old(shutdown)) && shutdown == old(shutdown)
      ensures Jobs() == if d.Take? then old(Jobs())[1..] else old(Jobs())
      ensures pending == if d.Take? then old(pending) - 1 else old(pending)
    {
      if !shutdown && head == null {
        return Block;
      }
      if shutdown && head == null {
        return Leave;
      }
      var job := Dequeue();
      d := Take(job);
    }

    /** The locked part of threadpool_shutdown. */
    method SetShutdown()
      requires Valid()
      modifies this
      ensures Valid() && Jobs() == old(Jobs()) && pending == old(pending) && shutdown
    {
      shutdown := true;
    }
  }
}
