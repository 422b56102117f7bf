/** The linked job queue that the pool's Insert and Pull steps stand for. */
module JobQueue {
  class Job {
    var prev: Job?
    const id: nat
    constructor (id: nat)
      ensures this.id == id && prev == null
    {
      this.id := id;
      prev := null;
    }
  }

  ghost function Ids(chain: seq<Job>): (r: seq<nat>)
    ensures |r| == |chain| && forall i :: 0 <= i < |chain| ==> r[i] == chain[i].id
  {
    if chain == [] then [] else [chain[0].id] + Ids(chain[1..])
  }

  class Queue {
    var front: Job?
    var rear: Job?
    var len: nat
    ghost var chain: seq<Job>  // from front to rear

    /** Each job's `prev` is the next one to be served. */
    ghost predicate Valid()
      reads this, chain
    {
      && len == |chain|
      && (chain == [] ==> front == null && rear == null)
      && (chain != [] ==> front == chain[0] && rear == chain[|chain| - 1] && rear.prev == null)
      && (forall i :: 0 <= i < |chain| - 1 ==> chain[i].prev == chain[i + 1])
      && (forall i, j :: 0 <= i < j < |chain| ==> chain[i] != chain[j])
    }

    ghost function Contents(): seq<nat>
      reads this
    {
      Ids(chain)
    }

    constructor ()
      ensures Valid() && Contents() == [] && fresh(this)
    {
      front, rear, len, chain := null, null, 0, [];
    }

    method Push(job: Job)
      requires Valid() && job !in chain
      modifies this, chain, job
      ensures Valid() && Contents() == old(Contents()) + [job.id]
    {
      job.prev := null;
      if len == 0 {
        front := job;
        rear := job;
      } else {
        rear.prev := job;
        rear := job;
      }
      len := len + 1;
      chain := chain + [job];
    }

    /** `post` says that jobs are left, so the semaphore is posted again. */
    method Pull() returns (job: Job?, post: bool)
      requires Valid()
      modifies this
      ensures Valid()
      ensures old(Contents()) == [] ==> job == null && Contents() == []
      ensures old(Contents()) != [] ==> job != null && old(Contents()) == [job.id] + Contents()
      ensures job != null ==> job !in chain
      ensures post <==> Contents() != []
    {
      job := front;
      post := false;
      if len == 1 {
        front := null;
        rear := null;
        len := 0;
        chain := chain[1..];
      } else if len > 1 {
        front := job.prev;
        len := len - 1;
        chain := chain[1..];
        post := true;
      }
    }
  }
}
