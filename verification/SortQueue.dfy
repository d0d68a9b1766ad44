/** The background sort queue of the groups: requests merge into one job per group, and a single
    worker drains them. The two locked sections and the sorting between them may interleave in
    any order. */
module SortQueue {

  /** `PendingSort`. */
  datatype Job = Job(changed: set<int>, full: bool)

  datatype Request = Request(gid: int, changed: set<int>, full: bool)

  /** A worker thread in `drainSorts`: about to take the lock, or sorting what is left of its
      batch. */
  datatype Worker = AtQueue | Sorting(rest: map<int, Job>)

  /** A batch, how many requests had been accepted before it was taken, and the groups of it that
      have been sorted. */
  datatype Batch = Batch(jobs: map<int, Job>, seen: nat, sorted: set<int>)

  /** The job sorts the whole group, or at least what the request changed. */
  predicate Covers(job: Job, r: Request) {
    job.full || (!r.full && r.changed <= job.changed)
  }

  predicate Holds(jobs: map<int, Job>, r: Request) {
    r.gid in jobs && Covers(jobs[r.gid], r)
  }

  /** What `enqueueSort` makes of a pending job. */
  function Merge(pending: map<int, Job>, r: Request): (job: Job)
    ensures Covers(job, r)
    ensures forall q: Request :: q.gid == r.gid && Holds(pending, q) ==> Covers(job, q)
  {
    var old_ := if r.gid in pending then pending[r.gid] else Job({}, false);
    var full := old_.full || r.full;
    Job(if full then old_.changed else old_.changed + r.changed, full)
  }

  /** A job asks for nothing that was not requested for its group: the whole group only if some
      request did, and only profiles that some request named. */
  ghost predicate Grounded(g: int, job: Job, requests: seq<Request>) {
    && (job.full ==> exists i :: 0 <= i < |requests| && requests[i].gid == g && requests[i].full)
    && (forall x :: x in job.changed ==> exists i :: 0 <= i < |requests| && requests[i].gid == g && x in requests[i].changed)
    && exists i :: 0 <= i < |requests| && requests[i].gid == g
  }

  ghost predicate OnlyAsked(jobs: map<int, Job>, requests: seq<Request>) {
    forall g :: g in jobs ==> Grounded(g, jobs[g], requests)
  }

  lemma GroundedLater(g: int, job: Job, requests: seq<Request>, r: Request)
    requires Grounded(g, job, requests)
    ensures Grounded(g, job, requests + [r])
  {
    var more := requests + [r];
    assert forall i :: 0 <= i < |requests| ==> more[i] == requests[i];
    if job.full {
      var i :| 0 <= i < |requests| && requests[i].gid == g && requests[i].full;
      assert more[i].full;
    }
    forall x | x in job.changed
      ensures exists i :: 0 <= i < |more| && more[i].gid == g && x in more[i].changed
    {
      var i :| 0 <= i < |requests| && requests[i].gid == g && x in requests[i].changed;
      assert x in more[i].changed;
    }
    var i :| 0 <= i < |requests| && requests[i].gid == g;
    assert more[i].gid == g;
  }

  lemma OnlyAskedLater(jobs: map<int, Job>, requests: seq<Request>, r: Request)
    requires OnlyAsked(jobs, requests)
    ensures OnlyAsked(jobs, requests + [r])
  {
    hide Grounded;
    forall g | g in jobs
      ensures Grounded(g, jobs[g], requests + [r])
    {
      GroundedLater(g, jobs[g], requests, r);
    }
  }

  lemma GroundedMerge(pending: map<int, Job>, requests: seq<Request>, r: Request)
    requires r.gid in pending ==> Grounded(r.gid, pending[r.gid], requests + [r])
    ensures Grounded(r.gid, Merge(pending, r), requests + [r])
  {
    var more := requests + [r];
    assert more[|requests|] == r;
  }

  lemma NothingAsked(requests: seq<Request>)
    ensures OnlyAsked(map[], requests)
  {
  }

  lemma OnlyAskedMerge(pending: map<int, Job>, requests: seq<Request>, r: Request)
    requires OnlyAsked(pending, requests)
    ensures OnlyAsked(pending[r.gid := Merge(pending, r)], requests + [r])
  {
    OnlyAskedLater(pending, requests, r);
    GroundedMerge(pending, requests, r);
  }

  /** The i-th request is still pending, or in a batch that was taken after it came. */
  ghost predicate Kept(i: nat, r: Request, pending: map<int, Job>, batches: seq<Batch>) {
    Holds(pending, r) || exists j :: 0 <= j < |batches| && i < batches[j].seen && Holds(batches[j].jobs, r)
  }

  /** The batch covers the request, and every group of it has been sorted. */
  predicate Done(b: Batch, r: Request) {
    Holds(b.jobs, r) && b.sorted == b.jobs.Keys
  }

  /** A batch taken after the i-th request covers it and is sorted through. */
  ghost predicate Served(i: nat, r: Request, batches: seq<Batch>) {
    exists j :: 0 <= j < |batches| && i < batches[j].seen && Done(batches[j], r)
  }

  lemma Accepted(i: nat, r: Request, pending: map<int, Job>, batches: seq<Batch>)
    requires Holds(pending, r)
    ensures Kept(i, r, pending, batches)
  {
  }

  /** Merging one more request into the pending jobs. */
  lemma KeptByMerge(i: nat, r: Request, pending: map<int, Job>, batches: seq<Batch>, q: Request)
    requires Kept(i, r, pending, batches)
    ensures Kept(i, r, pending[q.gid := Merge(pending, q)], batches)
  {
  }

  lemma EveryKeptByMerge(requests: seq<Request>, pending: map<int, Job>, batches: seq<Batch>, r: Request)
    requires forall i: nat :: i < |requests| ==> Kept(i, requests[i], pending, batches)
    ensures var more, merged := requests + [r], pending[r.gid := Merge(pending, r)];
            Holds(merged, r) && forall i: nat :: i < |more| ==> Kept(i, more[i], merged, batches)
  {
    var more, merged := requests + [r], pending[r.gid := Merge(pending, r)];
    assert Holds(merged, r);
    Accepted(|requests|, r, merged, batches);
    forall i: nat | i < |requests|
      ensures Kept(i, more[i], merged, batches)
    {
      KeptByMerge(i, requests[i], pending, batches, r);
    }
  }

  lemma EveryOnlyAskedLater(batches: seq<Batch>, requests: seq<Request>, r: Request)
    requires forall j :: 0 <= j < |batches| ==> OnlyAsked(batches[j].jobs, requests)
    ensures forall j :: 0 <= j < |batches| ==> OnlyAsked(batches[j].jobs, requests + [r])
  {
    forall j | 0 <= j < |batches|
      ensures OnlyAsked(batches[j].jobs, requests + [r])
    {
      OnlyAskedLater(batches[j].jobs, requests, r);
    }
  }

  /** Taking everything that is pending. */
  lemma KeptByTake(i: nat, r: Request, pending: map<int, Job>, batches: seq<Batch>, seen: nat)
    requires Kept(i, r, pending, batches) && i < seen
    ensures Kept(i, r, map[], batches + [Batch(pending, seen, {})])
  {
    var batches' := batches + [Batch(pending, seen, {})];
    if Holds(pending, r) {
      assert batches'[|batches|].jobs == pending;
    } else {
      var j :| 0 <= j < |batches| && i < batches[j].seen && Holds(batches[j].jobs, r);
      assert batches'[j] == batches[j];
    }
  }

  /** Marking a group of a batch as sorted. */
  lemma KeptBySort(i: nat, r: Request, pending: map<int, Job>, batches: seq<Batch>, n: nat, sorted: set<int>)
    requires Kept(i, r, pending, batches) && n < |batches|
    ensures Kept(i, r, pending, batches[n := batches[n].(sorted := sorted)])
  {
    if !Holds(pending, r) {
      var j :| 0 <= j < |batches| && i < batches[j].seen && Holds(batches[j].jobs, r);
      var batches' := batches[n := batches[n].(sorted := sorted)];
      assert batches'[j].seen == batches[j].seen && batches'[j].jobs == batches[j].jobs;
    }
  }

  class Queue {
    var pendingSorts: map<int, Job>
    var sortWorkerRunning: bool
    var workers: map<nat, Worker>       // the live worker threads
    var started: nat                    // how many threads have been started
    ghost var requests: seq<Request>    // accepted so far
    ghost var batches: seq<Batch>       // taken so far

    /** A worker runs exactly when the flag says so, there is never a second one, and pending work
        has a worker. */
    ghost predicate OneWorker()
      reads this
    {
      && (sortWorkerRunning <==> workers.Keys != {})
      && (forall v, w :: v in workers && w in workers ==> v == w)
      && (forall w :: w in workers ==> w < started)
      && (pendingSorts != map[] ==> sortWorkerRunning)
    }

    /** Every batch but the one in hand is sorted through, and of that one just the rest is not. */
    ghost predicate WorkedOff()
      reads this
    {
      && (forall j :: 0 <= j < |batches| && (j < |batches| - 1 || forall w :: w in workers ==> workers[w].AtQueue?) ==>
            batches[j].sorted == batches[j].jobs.Keys)
      && (forall w :: w in workers && workers[w].Sorting? ==>
            && batches != []
            && (var b := batches[|batches| - 1];
                b.sorted + workers[w].rest.Keys == b.jobs.Keys && b.sorted !! workers[w].rest.Keys
                && forall g :: g in workers[w].rest ==> workers[w].rest[g] == b.jobs[g]))
    }

    ghost predicate Valid()
      reads this
    {
      && OneWorker() && WorkedOff() && Genuine()
      && forall i: nat :: i < |requests| ==> Kept(i, requests[i], pendingSorts, batches)
    }

    /** Nothing is sorted that nobody asked for. */
    ghost predicate Genuine()
      reads this
    {
      OnlyAsked(pendingSorts, requests) && forall j :: 0 <= j < |batches| ==> OnlyAsked(batches[j].jobs, requests)
    }

    constructor ()
      ensures Valid() && requests == [] && batches == [] && workers == map[]
    {
      pendingSorts, sortWorkerRunning, workers, started := map[], false, map[], 0;
      requests, batches := [], [];
    }

    /** The locked section of `enqueueSort`, once the group was found and its sort order depends on
        what changed. */
    method EnqueueSort(r: Request)
      requires Valid()
      modifies this
      ensures Valid() && requests == old(requests) + [r] && batches == old(batches)
      ensures Holds(pendingSorts, r) && workers.Keys != {}
      ensures forall g :: g in old(pendingSorts) && g != r.gid ==> g in pendingSorts && pendingSorts[g] == old(pendingSorts)[g]
      ensures forall w :: w in old(workers) ==> workers == old(workers)
    {
      EveryKeptByMerge(requests, pendingSorts, batches, r);
      OnlyAskedMerge(pendingSorts, requests, r);
      EveryOnlyAskedLater(batches, requests, r);
      hide Merge, Kept, OnlyAsked, Covers;
      pendingSorts := pendingSorts[r.gid := Merge(pendingSorts, r)];
      requests := requests + [r];
      if !sortWorkerRunning {
        sortWorkerRunning := true;
        assert workers.Keys == {};
        workers := workers[started := AtQueue];
        assert workers.Keys == {started};
        started := started + 1;
      }
      assert OneWorker();
      assert WorkedOff();
      assert Genuine();
    }

    /** The locked section of `drainSorts`: the worker ends, or takes everything pending. */
    method TakeBatch(w: nat)
      requires Valid() && w in workers && workers[w].AtQueue?
      modifies this
      ensures Valid() && requests == old(requests)
      ensures if old(pendingSorts) == map[] then workers == map[] && batches == old(batches)
        else batches == old(batches) + [Batch(old(pendingSorts), |requests|, {})] && pendingSorts == map[]
             && workers == old(workers)[w := Sorting(old(pendingSorts))]
    {
      if pendingSorts == map[] {
        sortWorkerRunning := false;
        workers := workers - {w};
        assert workers.Keys == {};
        return;
      }
      forall i: nat | i < |requests|
        ensures Kept(i, requests[i], map[], batches + [Batch(pendingSorts, |requests|, {})])
      {
        KeptByTake(i, requests[i], pendingSorts, batches, |requests|);
      }
      hide Kept, OnlyAsked;
      batches := batches + [Batch(pendingSorts, |requests|, {})];
      workers := workers[w := Sorting(pendingSorts)];
      pendingSorts := map[];
      assert OnlyAsked(map[], requests) by { NothingAsked(requests); }
    }

    /** The worker is done with one group of its batch, sorted or gone. */
    method SortGroup(w: nat, gid: int)
      requires Valid() && w in workers && workers[w].Sorting? && gid in workers[w].rest
      modifies this
      ensures Valid() && requests == old(requests) && pendingSorts == old(pendingSorts)
      ensures var rest := old(workers)[w].rest - {gid};
              workers == old(workers)[w := if rest == map[] then AtQueue else Sorting(rest)]
      ensures var n := |old(batches)| - 1;
              n >= 0 && batches == old(batches)[n := old(batches)[n].(sorted := old(batches)[n].sorted + {gid})]
    {
      var rest := workers[w].rest - {gid};
      ghost var n := |batches| - 1;
      ghost var sorted := batches[n].sorted + {gid};
      forall i: nat | i < |requests|
        ensures Kept(i, requests[i], pendingSorts, batches[n := batches[n].(sorted := sorted)])
      {
        KeptBySort(i, requests[i], pendingSorts, batches, n, sorted);
      }
      hide Kept, OnlyAsked;
      assert rest.Keys == workers[w].rest.Keys - {gid} && (rest == map[] <==> rest.Keys == {});
      assert workers.Keys == {w};
      workers := workers[w := if rest == map[] then AtQueue else Sorting(rest)];
      batches := batches[n := batches[n].(sorted := sorted)];
      assert workers.Keys == {w};
      assert OneWorker();
      assert WorkedOff();
      assert Genuine();
      assert forall i: nat :: i < |requests| ==> Kept(i, requests[i], pendingSorts, batches);
    }

    /** When no worker is left, nothing is pending and every request ever accepted is covered by
        a batch that was taken after it and sorted through. */
    lemma NothingLost(i: nat)
      requires Valid() && workers == map[] && i < |requests|
      ensures pendingSorts == map[] && Served(i, requests[i], batches)
    {
      assert Kept(i, requests[i], pendingSorts, batches);
      var j :| 0 <= j < |batches| && i < batches[j].seen && Holds(batches[j].jobs, requests[i]);
      assert Done(batches[j], requests[i]);
    }
  }

  /** What threads may do to the queue at any moment. */
  datatype Event = Ask(r: Request) | Take(w: nat) | Sort(w: nat, gid: int)

  /** The requests among the events, in order. */
  function Asked(events: seq<Event>): seq<Request> {
    if events == [] then []
    else
      var n := |events| - 1;
      Asked(events[..n]) + match events[n] { case Ask(r) => [r] case _ => [] }
  }

  /** Any interleaving of requests and worker steps; events that cannot happen are passed over. What
      was asked is what was accepted, and once no worker is left all of it has been served. */
  method Run(events: seq<Event>) returns (q: Queue)
    ensures q.Valid() && q.requests == Asked(events)
    ensures q.workers == map[] ==> forall i: nat :: i < |Asked(events)| ==> Served(i, Asked(events)[i], q.batches)
    ensures forall j :: 0 <= j < |q.batches| ==> OnlyAsked(q.batches[j].jobs, Asked(events))
  {
    hide Kept, OnlyAsked;
    q := new Queue();
    assert events[..0] == [];
    for i := 0 to |events|
      invariant fresh(q) && q.Valid() && q.requests == Asked(events[..i])
    {
      AskedNext(events, i);
      match events[i] {
        case Ask(r) => q.EnqueueSort(r);
        case Take(w) =>
          if w in q.workers && q.workers[w].AtQueue? {
            q.TakeBatch(w);
          }
        case Sort(w, gid) =>
          if w in q.workers && q.workers[w].Sorting? && gid in q.workers[w].rest {
            q.SortGroup(w, gid);
          }
      }
    }
    assert events[..|events|] == events;
    if q.workers == map[] {
      forall i: nat | i < |q.requests|
        ensures Served(i, q.requests[i], q.batches)
      {
        q.NothingLost(i);
      }
    }
  }

  lemma AskedNext(events: seq<Event>, i: nat)
    requires i < |events|
    ensures Asked(events[..i + 1]) == if events[i].Ask? then Asked(events[..i]) + [events[i].r] else Asked(events[..i])
  {
    assert events[..i + 1][..i] == events[..i];
  }
}
