/** The upload worker pool of scripts/upload_demo_affected_area_r2.ts: workers that share a plan, the index
    of the next item and the count of finished uploads. Each stretch a worker runs between two awaits is one
    step, and the steps of the workers interleave in any order. */
module UploadPool {
  import opened Prelude

  datatype Worker = Fresh | Uploading(index: nat) | Finished | Rejected(index: nat)

  /** What the workers share, with the uploads that have completed, in the order they did, and the
      progress counts written to the output. */
  datatype Pool = Pool(
    planLength: nat,
    nextIndex: nat,
    uploaded: nat,
    workers: seq<Worker>,
    completed: seq<nat>,
    progress: seq<nat>)

  datatype Step = Start(w: nat) | Complete(w: nat) | Reject(w: nat)

  function Min(a: nat, b: nat): nat {
    if a <= b then a else b
  }

  function Initial(planLength: nat, concurrency: nat): Pool {
    Pool(planLength, 0, 0, seq(Min(concurrency, planLength), _ => Fresh), [], [])
  }

  predicate ReportsProgress(uploaded: nat, planLength: nat) {
    uploaded == 1 || uploaded == planLength || uploaded % 100 == 0
  }

  /** From the head of the loop to the next await, or to the return. */
  function TakeNext(pool: Pool, w: nat): Pool
    requires w < |pool.workers|
  {
    pool.(nextIndex := pool.nextIndex + 1,
          workers := pool.workers[
            w := if pool.nextIndex < pool.planLength then Uploading(pool.nextIndex) else Finished])
  }

  /** The counters and the output after one more upload. */
  function Counted(pool: Pool, index: nat): Pool {
    pool.(uploaded := pool.uploaded + 1,
          completed := pool.completed + [index],
          progress := if ReportsProgress(pool.uploaded + 1, pool.planLength) then pool.progress + [pool.uploaded + 1]
                      else pool.progress)
  }

  function Apply(pool: Pool, step: Step): Option<Pool> {
    if step.w >= |pool.workers| then None
    else
      var worker := pool.workers[step.w];
      match step
      case Start(w) => if worker.Fresh? then Some(TakeNext(pool, w)) else None
      case Complete(w) => if worker.Uploading? then Some(TakeNext(Counted(pool, worker.index), w)) else None
      case Reject(w) =>
        if worker.Uploading? then Some(pool.(workers := pool.workers[w := Rejected(worker.index)])) else None
  }

  // ----- The pool as the script keeps it ----------------------------------------------------------

  class SharedPool {
    const planLength: nat
    var nextIndex: nat
    var uploaded: nat
    var workers: seq<Worker>
    var completed: seq<nat>
    var progress: seq<nat>

    function View(): Pool
      reads this
    {
      Pool(planLength, nextIndex, uploaded, workers, completed, progress)
    }

    constructor (planLength: nat, concurrency: nat)
      ensures View() == Initial(planLength, concurrency)
    {
      this.planLength := planLength;
      nextIndex, uploaded, completed, progress := 0, 0, [], [];
      workers := seq(Min(concurrency, planLength), _ => Fresh);
    }

    method RunToAwait(w: nat)
      requires w < |workers|
      modifies this
      ensures View() == TakeNext(old(View()), w)
    {
      var index := nextIndex;
      nextIndex := nextIndex + 1;
      if index >= planLength {
        workers := workers[w := Finished];
        return;
      }
      workers := workers[w := Uploading(index)];
    }

    method StartWorker(w: nat)
      requires w < |workers| && workers[w].Fresh?
      modifies this
      ensures Some(View()) == Apply(old(View()), Start(w))
    {
      RunToAwait(w);
    }

    method UploadSettled(w: nat, succeeded: bool)
      requires w < |workers| && workers[w].Uploading?
      modifies this
      ensures Some(View()) == Apply(old(View()), if succeeded then Complete(w) else Reject(w))
    {
      if !succeeded {
        workers := workers[w := Rejected(workers[w].index)];
        return;
      }
      completed := completed + [workers[w].index];
      uploaded := uploaded + 1;
      if uploaded == 1 || uploaded == planLength || uploaded % 100 == 0 {
        progress := progress + [uploaded];
      }
      RunToAwait(w);
    }
  }

  // ----- What every interleaving keeps --------------------------------------------------------------

  ghost predicate IsRun(pools: seq<Pool>, steps: seq<Step>, planLength: nat, concurrency: nat) {
    && |pools| == |steps| + 1
    && pools[0] == Initial(planLength, concurrency)
    && forall k :: 0 <= k < |steps| ==> Apply(pools[k], steps[k]) == Some(pools[k + 1])
  }

  function Count(workers: seq<Worker>, isKind: Worker -> bool): nat {
    if |workers| == 0 then 0
    else Count(workers[..|workers| - 1], isKind) + if isKind(workers[|workers| - 1]) then 1 else 0
  }

  function Taken(pool: Pool): nat {
    Min(pool.nextIndex, pool.planLength)
  }

  function IsFinished(worker: Worker): bool { worker.Finished? }

  function IsUploading(worker: Worker): bool { worker.Uploading? }

  function IsRejected(worker: Worker): bool { worker.Rejected? }

  function IsFresh(worker: Worker): bool { worker.Fresh? }

  /** Has `index` in hand: still uploading it, or failed at it. */
  function HoldsIndex(index: nat): Worker -> bool {
    (worker: Worker) => (worker.Uploading? || worker.Rejected?) && worker.index == index
  }

  /** The counts reported on the way to `uploaded`. */
  function Reports(uploaded: nat, planLength: nat): seq<nat> {
    if uploaded == 0 then []
    else Reports(uploaded - 1, planLength) + if ReportsProgress(uploaded, planLength) then [uploaded] else []
  }

  /** A taken index is in one place, a completed upload or one worker; any other index is in none. */
  predicate InOnePlace(pool: Pool, index: nat) {
    multiset(pool.completed)[index] + Count(pool.workers, HoldsIndex(index)) == if index < Taken(pool) then 1 else 0
  }

  ghost predicate Inv(pool: Pool) {
    && (forall index: nat :: InOnePlace(pool, index))
    && pool.uploaded == |pool.completed|
    && pool.uploaded + Count(pool.workers, IsUploading) + Count(pool.workers, IsRejected) == Taken(pool)
    && pool.nextIndex == Taken(pool) + Count(pool.workers, IsFinished)
    && pool.progress == Reports(pool.uploaded, pool.planLength)
  }

  lemma {:induction false} CountUpdate(workers: seq<Worker>, w: nat, worker: Worker, isKind: Worker -> bool)
    requires w < |workers|
    ensures Count(workers[w := worker], isKind) + (if isKind(workers[w]) then 1 else 0) ==
            Count(workers, isKind) + (if isKind(worker) then 1 else 0)
    decreases |workers|
  {
    var last := |workers| - 1;
    if w == last {
      assert workers[w := worker][..last] == workers[..last];
    } else {
      assert workers[w := worker][..last] == workers[..last][w := worker];
      CountUpdate(workers[..last], w, worker, isKind);
    }
  }

  lemma {:induction false} AllOfKind(workers: seq<Worker>, isKind: Worker -> bool)
    ensures Count(workers, isKind) <= |workers|
    ensures Count(workers, isKind) == |workers| <==> forall w :: 0 <= w < |workers| ==> isKind(workers[w])
    ensures Count(workers, isKind) == 0 <==> forall w :: 0 <= w < |workers| ==> !isKind(workers[w])
    decreases |workers|
  {
    if |workers| > 0 {
      AllOfKind(workers[..|workers| - 1], isKind);
    }
  }

  lemma StepKeepsPlaces(pool: Pool, step: Step, next: Pool, index: nat)
    requires Inv(pool) && Apply(pool, step) == Some(next)
    ensures InOnePlace(next, index)
  {
    assert InOnePlace(pool, index);
    StepMovesCount(pool, step, next, HoldsIndex(index));
    if step.Complete? {
      assert multiset(next.completed) == multiset(pool.completed) + multiset{pool.workers[step.w].index};
    }
  }

  /** How a step moves the counts of workers of one kind. */
  lemma StepMovesCount(pool: Pool, step: Step, next: Pool, isKind: Worker -> bool)
    requires Apply(pool, step) == Some(next)
    ensures step.w < |pool.workers| == |next.workers|
    ensures Count(next.workers, isKind) + (if isKind(pool.workers[step.w]) then 1 else 0) ==
            Count(pool.workers, isKind) + (if isKind(next.workers[step.w]) then 1 else 0)
  {
    CountUpdate(pool.workers, step.w, next.workers[step.w], isKind);
    assert next.workers == pool.workers[step.w := next.workers[step.w]];
  }

  lemma StepKeepsCounters(pool: Pool, step: Step, next: Pool)
    requires Inv(pool) && Apply(pool, step) == Some(next)
    ensures next.uploaded == |next.completed|
    ensures next.uploaded + Count(next.workers, IsUploading) + Count(next.workers, IsRejected) == Taken(next)
    ensures next.nextIndex == Taken(next) + Count(next.workers, IsFinished)
    ensures next.progress == Reports(next.uploaded, next.planLength)
  {
    StepMovesCount(pool, step, next, IsUploading);
    StepMovesCount(pool, step, next, IsRejected);
    StepMovesCount(pool, step, next, IsFinished);
  }

  lemma StepKeepsInv(pool: Pool, step: Step, next: Pool)
    requires Inv(pool) && Apply(pool, step) == Some(next)
    ensures Inv(next)
  {
    StepKeepsCounters(pool, step, next);
    forall index: nat ensures InOnePlace(next, index) {
      StepKeepsPlaces(pool, step, next, index);
    }
  }

  lemma InitialInv(planLength: nat, concurrency: nat)
    ensures Inv(Initial(planLength, concurrency))
  {
    var pool := Initial(planLength, concurrency);
    AllOfKind(pool.workers, IsFinished);
    AllOfKind(pool.workers, IsUploading);
    AllOfKind(pool.workers, IsRejected);
    forall index: nat ensures InOnePlace(pool, index) {
      AllOfKind(pool.workers, HoldsIndex(index));
    }
  }

  lemma {:induction false} RunKeepsInv(pools: seq<Pool>, steps: seq<Step>, planLength: nat, concurrency: nat, k: nat)
    requires IsRun(pools, steps, planLength, concurrency) && k < |pools|
    ensures Inv(pools[k]) && pools[k].planLength == planLength
    ensures |pools[k].workers| == Min(concurrency, planLength)
    decreases k
  {
    if k == 0 {
      InitialInv(planLength, concurrency);
    } else {
      RunKeepsInv(pools, steps, planLength, concurrency, k - 1);
      StepKeepsInv(pools[k - 1], steps[k - 1], pools[k]);
    }
  }

  /** In every interleaving each index below the shared counter has been taken exactly once: it is with one
      worker or among the completed uploads, never both, and no other index is with anyone. At most
      min(concurrency, n) uploads are under way. */
  lemma EachIndexTakenOnce(pools: seq<Pool>, steps: seq<Step>, planLength: nat, concurrency: nat, k: nat, index: nat)
    requires IsRun(pools, steps, planLength, concurrency) && k < |pools|
    ensures multiset(pools[k].completed)[index] + Count(pools[k].workers, HoldsIndex(index)) ==
            if index < pools[k].nextIndex && index < planLength then 1 else 0
    ensures Count(pools[k].workers, IsUploading) <= Min(concurrency, planLength)
  {
    RunKeepsInv(pools, steps, planLength, concurrency, k);
    assert InOnePlace(pools[k], index);
    AllOfKind(pools[k].workers, IsUploading);
  }

  /** When every worker has returned, each item has been put exactly once, the counters stand at n and at
      n plus the number of workers, and the output reports what it should. */
  lemma AllReturned(pools: seq<Pool>, steps: seq<Step>, planLength: nat, concurrency: nat, index: nat)
    requires IsRun(pools, steps, planLength, concurrency) && concurrency >= 1
    requires forall w :: 0 <= w < |pools[|steps|].workers| ==> pools[|steps|].workers[w].Finished?
    ensures multiset(pools[|steps|].completed)[index] == if index < planLength then 1 else 0
    ensures pools[|steps|].uploaded == |pools[|steps|].completed| == planLength
    ensures pools[|steps|].nextIndex == planLength + Min(concurrency, planLength)
    ensures pools[|steps|].progress == Reports(planLength, planLength)
  {
    var pool := pools[|steps|];
    RunKeepsInv(pools, steps, planLength, concurrency, |steps|);
    assert InOnePlace(pool, index);
    AllOfKind(pool.workers, HoldsIndex(index));
    AllOfKind(pool.workers, IsFinished);
    AllOfKind(pool.workers, IsUploading);
    AllOfKind(pool.workers, IsRejected);
  }

  /** A failed upload stops its own worker only: if any worker returns, every item was taken, and each is
      completed or with the worker it is with, uploading or failed. */
  lemma FailureSkipsNothing(pools: seq<Pool>, steps: seq<Step>, planLength: nat, concurrency: nat, w: nat, index: nat)
    requires IsRun(pools, steps, planLength, concurrency)
    requires w < |pools[|steps|].workers| && pools[|steps|].workers[w].Finished?
    ensures multiset(pools[|steps|].completed)[index] + Count(pools[|steps|].workers, HoldsIndex(index)) ==
            if index < planLength then 1 else 0
  {
    RunKeepsInv(pools, steps, planLength, concurrency, |steps|);
    AllOfKind(pools[|steps|].workers, IsFinished);
    assert InOnePlace(pools[|steps|], index);
  }

  // ----- Termination ---------------------------------------------------------------------------------

  /** The steps still to come if no upload fails. */
  function Remaining(pool: Pool): nat {
    pool.planLength - Taken(pool) + Count(pool.workers, IsUploading) + Count(pool.workers, IsFresh)
  }

  lemma StepSpendsOne(pool: Pool, step: Step, next: Pool)
    requires Apply(pool, step) == Some(next)
    ensures Remaining(next) == Remaining(pool) - 1
  {
    StepMovesCount(pool, step, next, IsUploading);
    StepMovesCount(pool, step, next, IsFresh);
  }

  lemma InitialRemaining(planLength: nat, concurrency: nat)
    ensures Remaining(Initial(planLength, concurrency)) == planLength + Min(concurrency, planLength)
  {
    var workers := Initial(planLength, concurrency).workers;
    AllOfKind(workers, IsUploading);
    AllOfKind(workers, IsFresh);
  }

  /** The pool finishes: every run has at most n plus the number of workers steps, and until it is over some
      worker can step. */
  lemma {:induction false} RunsAreShort(pools: seq<Pool>, steps: seq<Step>, planLength: nat, concurrency: nat, k: nat)
    requires IsRun(pools, steps, planLength, concurrency) && k < |pools|
    ensures k + Remaining(pools[k]) == planLength + Min(concurrency, planLength)
    ensures (forall w :: 0 <= w < |pools[k].workers| ==> pools[k].workers[w].Finished? || pools[k].workers[w].Rejected?)
            <==> forall step :: Apply(pools[k], step).None?
    decreases k
  {
    if k == 0 {
      InitialRemaining(planLength, concurrency);
    } else {
      RunsAreShort(pools, steps, planLength, concurrency, k - 1);
      StepSpendsOne(pools[k - 1], steps[k - 1], pools[k]);
    }
    if forall step :: Apply(pools[k], step).None? {
      forall w | 0 <= w < |pools[k].workers| ensures pools[k].workers[w].Finished? || pools[k].workers[w].Rejected? {
        assert Apply(pools[k], Start(w)).None? && Apply(pools[k], Reject(w)).None?;
      }
    }
  }

  // ----- The output ----------------------------------------------------------------------------------

  /** The progress lines are the first upload, every hundredth and the last one. */
  lemma {:induction false} ReportsAre(uploaded: nat, planLength: nat, n: nat)
    ensures n in Reports(uploaded, planLength)
            <==> 1 <= n <= uploaded && (n == 1 || n == planLength || n % 100 == 0)
    decreases uploaded
  {
    if uploaded > 0 {
      ReportsAre(uploaded - 1, planLength, n);
    }
  }

  lemma {:induction false} ReportsBelow(uploaded: nat, planLength: nat)
    ensures forall i :: 0 <= i < |Reports(uploaded, planLength)| ==> Reports(uploaded, planLength)[i] <= uploaded
    decreases uploaded
  {
    if uploaded > 0 {
      ReportsBelow(uploaded - 1, planLength);
    }
  }

  /** They come in order, each once. */
  lemma {:induction false} ReportsAscend(uploaded: nat, planLength: nat)
    ensures forall i, j :: 0 <= i < j < |Reports(uploaded, planLength)| ==>
              Reports(uploaded, planLength)[i] < Reports(uploaded, planLength)[j]
    decreases uploaded
  {
    if uploaded > 0 {
      ReportsAscend(uploaded - 1, planLength);
      ReportsBelow(uploaded - 1, planLength);
    }
  }
}
