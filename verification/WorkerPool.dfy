/**
 * The cooperative worker pool behind mapWithConcurrency. Workers switch only at an await, so a
 * step is one worker running from its start, or from the end of a mapper call, to its next
 * mapper call or to its end.
 */
module WorkerPool {
  import opened Wrappers

  class Pool<T(!new), U(!new)> {
    const items: seq<T>
    const mapper: (T, nat) -> U
    const workers: nat
    const results: array<Option<U>>
    var nextIndex: nat
    var started: nat
    var running: map<nat, nat>  // worker -> index of the mapper call it awaits
    var finished: set<nat>      // workers whose loop has ended
    var failed: set<nat>        // workers whose mapper call was rejected
    ghost var owner: map<nat, nat>  // index -> the worker that claimed it

    /** Claims: every index below nextIndex belongs to one worker; workers in `idle` are at the head of their loop. */
    ghost predicate ValidClaims(idle: set<nat>)
      reads this
    {
      && 1 <= workers <= |items| && started <= workers && nextIndex <= |items|
      && (forall i: nat :: i in owner <==> i < nextIndex)
      && (forall w | w in running :: w < started && running[w] < nextIndex && owner[running[w]] == w)
      && (forall w: nat | w < started :: w in running || w in finished || w in failed || w in idle)
      && (forall w | w in finished || w in failed :: w < started && w !in running && w !in idle)
      && idle !! running.Keys
      && (finished != {} ==> nextIndex == |items|)
    }

    /** A result is there, and right, exactly when its call is neither in flight nor rejected. */
    ghost predicate ValidResults()
      requires nextIndex <= |items| && (forall i: nat :: i in owner <==> i < nextIndex)
      requires forall w | w in running :: running[w] < nextIndex
      reads this, results
    {
      && results.Length == |items|
      && (forall i: nat | nextIndex <= i < |items| :: results[i].None?)
      && (forall w | w in running :: results[running[w]].None?)
      && (forall i: nat | i < nextIndex :: if results[i].Some? then results[i].value == mapper(items[i], i)
            else (owner[i] in running && running[owner[i]] == i) || owner[i] in failed)
    }

    ghost predicate ValidExcept(w: nat)
      reads this, results
    {
      ValidClaims({w}) && ValidResults()
    }

    ghost predicate Valid()
      reads this, results
    {
      ValidClaims({}) && ValidResults()
    }

    constructor (items: seq<T>, concurrency: int, mapper: (T, nat) -> U)
      requires |items| > 0
      ensures Valid() && fresh(results) && started == 0 && failed == {}
      ensures this.items == items && this.mapper == mapper
      ensures workers == if concurrency < 1 then 1 else if concurrency < |items| then concurrency else |items|
    {
      this.items, this.mapper := items, mapper;
      workers := if concurrency < 1 then 1 else if concurrency < |items| then concurrency else |items|;
      results := new Option<U>[|items|](_ => None);
      nextIndex, started, running, finished, failed, owner := 0, 0, map[], {}, {}, map[];
    }

    /** The head of a worker's loop: claim the next index and call the mapper, or end. */
    method LoopHead(w: nat)
      requires ValidExcept(w) && w < started
      modifies this`nextIndex, this`running, this`finished, this`owner
      ensures Valid()
      ensures old(nextIndex) < |items| ==>
        && nextIndex == old(nextIndex) + 1 && running == old(running)[w := old(nextIndex)]
        && owner == old(owner)[old(nextIndex) := w] && finished == old(finished)
      ensures old(nextIndex) == |items| ==>
        && nextIndex == old(nextIndex) && running == old(running) && owner == old(owner)
        && finished == old(finished) + {w}
    {
      if nextIndex < |items| {
        var currentIndex := nextIndex;
        nextIndex := nextIndex + 1;
        owner := owner[currentIndex := w];
        running := running[w := currentIndex];
      } else {
        finished := finished + {w};
      }
    }

    /** Array.from starts the workers one after the other. */
    method StartWorker()
      requires Valid() && started < workers
      modifies this`started, this`nextIndex, this`running, this`finished, this`owner
      ensures Valid() && started == old(started) + 1
      ensures old(nextIndex) < |items| ==>
        && running == old(running)[old(started) := old(nextIndex)] && owner == old(owner)[old(nextIndex) := old(started)]
      ensures old(nextIndex) == |items| ==> running == old(running) && owner == old(owner)
    {
      started := started + 1;
      assert ValidExcept(started - 1);
      LoopHead(started - 1);
    }

    /** A mapper call is fulfilled: its result is stored and the worker goes on. */
    method Resolve(w: nat)
      requires Valid() && w in running
      modifies this`nextIndex, this`running, this`finished, this`owner, results
      ensures Valid()
      ensures results[..] == old(results[..])[old(running)[w] := Some(mapper(items[old(running)[w]], old(running)[w]))]
      ensures old(nextIndex) < |items| ==>
        && nextIndex == old(nextIndex) + 1 && running == (old(running) - {w})[w := old(nextIndex)]
        && owner == old(owner)[old(nextIndex) := w]
      ensures old(nextIndex) == |items| ==>
        && nextIndex == old(nextIndex) && running == old(running) - {w} && owner == old(owner)
    {
      var currentIndex := running[w];
      results[currentIndex] := Some(mapper(items[currentIndex], currentIndex));
      running := running - {w};
      assert ValidExcept(w);
      LoopHead(w);
    }

    /** A mapper call is rejected: the worker stops and the whole call is rejected. */
    method Reject(w: nat)
      requires Valid() && w in running
      modifies this`running, this`failed
      ensures Valid() && running == old(running) - {w} && failed == old(failed) + {w}
    {
      running := running - {w};
      failed := failed + {w};
    }
  }

  /** At most as many mapper calls are in flight as there are workers, each for its own index. */
  lemma InFlight<T(!new), U(!new)>(pool: Pool<T, U>)
    requires pool.Valid()
    ensures |pool.running| <= pool.workers
    ensures forall v, w | v in pool.running && w in pool.running && v != w :: pool.running[v] != pool.running[w]
  {
    Bounded(pool.running.Keys, pool.workers);
    assert |pool.running.Keys| == |pool.running|;
  }

  lemma {:induction false} Bounded(s: set<nat>, n: nat)
    requires forall x | x in s :: x < n
    ensures |s| <= n
  {
    if n > 0 {
      Bounded(s - {n - 1}, n - 1);
      assert |s| <= |s - {n - 1}| + 1;
    }
  }

  /** When every worker has been started and none runs or failed, every result is there. */
  lemma Complete<T(!new), U(!new)>(pool: Pool<T, U>)
    requires pool.Valid() && pool.started == pool.workers && pool.running == map[] && pool.failed == {}
    ensures pool.nextIndex == |pool.items|
    ensures forall i: nat | i < |pool.items| :: pool.results[i] == Some(pool.mapper(pool.items[i], i))
  {
    assert 0 in pool.finished;
  }

  /** Every index up to nextIndex has been claimed, by one worker, and a call in flight is its owner's. */
  lemma ClaimedOnce<T(!new), U(!new)>(pool: Pool<T, U>)
    requires pool.Valid()
    ensures forall i: nat :: i in pool.owner <==> i < pool.nextIndex <= |pool.items|
    ensures forall w, i | w in pool.running && pool.running[w] == i :: pool.owner[i] == w
    ensures forall i | i in pool.owner && pool.results[i].None? ::
              (pool.owner[i] in pool.running && pool.running[pool.owner[i]] == i) || pool.owner[i] in pool.failed
  {
    forall i | i in pool.owner && pool.results[i].None?
      ensures (pool.owner[i] in pool.running && pool.running[pool.owner[i]] == i) || pool.owner[i] in pool.failed
    {
      assert i < pool.nextIndex;
    }
  }

  datatype Step = Start | Fulfil(worker: nat) | Refuse(worker: nat)

  /** One step; one that cannot happen now is skipped. No claim changes hands and no result is overwritten. */
  method Take<T(!new), U(!new)>(pool: Pool<T, U>, step: Step)
    requires pool.Valid()
    modifies pool, pool.results
    ensures pool.Valid()
    ensures forall i | i in old(pool.owner) :: i in pool.owner && pool.owner[i] == old(pool.owner)[i]
    ensures forall i | 0 <= i < pool.results.Length && old(pool.results[..])[i].Some? :: pool.results[i] == old(pool.results[..])[i]
  {
    match step {
      case Start => if pool.started < pool.workers { pool.StartWorker(); }
      case Fulfil(w) => if w in pool.running { pool.Resolve(w); }
      case Refuse(w) => if w in pool.running { pool.Reject(w); }
    }
  }

  /** Any run, rejections included, from any state of the pool. */
  method Run<T(!new), U(!new)>(pool: Pool<T, U>, steps: seq<Step>)
    requires pool.Valid()
    modifies pool, pool.results
    ensures pool.Valid()
    ensures forall i | i in old(pool.owner) :: i in pool.owner && pool.owner[i] == old(pool.owner)[i]
    ensures forall i | 0 <= i < pool.results.Length && old(pool.results[..])[i].Some? :: pool.results[i] == old(pool.results[..])[i]
  {
    for k := 0 to |steps|
      invariant pool.Valid()
      invariant forall i | i in old(pool.owner) :: i in pool.owner && pool.owner[i] == old(pool.owner)[i]
      invariant forall i | 0 <= i < pool.results.Length && old(pool.results[..])[i].Some? :: pool.results[i] == old(pool.results[..])[i]
    {
      Take(pool, steps[k]);
    }
  }

  /** Any interleaving: whichever call is fulfilled next, the results are the mapper's values in item order. */
  method MapWithConcurrency<T(!new), U(!new)>(items: seq<T>, concurrency: int, mapper: (T, nat) -> U)
    returns (results: seq<U>)
    ensures |results| == |items| && forall i: nat | i < |items| :: results[i] == mapper(items[i], i)
  {
    if |items| == 0 {
      return [];
    }
    var pool := new Pool<T, U>(items, concurrency, mapper);
    while pool.started < pool.workers
      invariant pool.Valid() && fresh(pool) && fresh(pool.results) && pool.failed == {}
    {
      pool.StartWorker();
    }
    while pool.running.Keys != {}
      invariant pool.Valid() && fresh(pool) && fresh(pool.results) && pool.failed == {} && pool.started == pool.workers
      decreases |items| - pool.nextIndex, pool.running.Keys
    {
      var w :| w in pool.running.Keys;
      pool.Resolve(w);
    }
    assert pool.running == map[];
    Complete(pool);
    results := seq(|items|, i requires 0 <= i < |items| reads pool, pool.results
                   requires pool.Valid() && |items| == |pool.items| && pool.results[i].Some? => pool.results[i].value);
  }
}
