/**
 The worker threads of `Downsync`: each takes the number of the next file from a shared counter,
 compresses that file and adds the number of its blocks to a shared sum. Steps of the workers
 interleave freely.
 */
module WorkerPool {

  import opened Container

  datatype WorkerAt = Fetching | Compressing(i: nat) | Adding(j: nat) | Finished

  /**
   `workIndex` and `numBlocks` are the shared counters, `compressions` counts how often each file
   was compressed; `counted` and `owner` are for the proofs.
   */
  datatype Pool = Pool(workIndex: nat, numBlocks: nat, compressions: seq<nat>, workers: seq<WorkerAt>,
                       counted: seq<bool>, owner: seq<nat>)

  function Zeros(n: nat): (s: seq<nat>)
    ensures |s| == n && forall i :: 0 <= i < n ==> s[i] == 0
  {
    seq(n, _ => 0)
  }

  function Start(files: nat, workers: nat): Pool {
    Pool(0, 0, Zeros(files), seq(workers, _ => Fetching), seq(files, _ => false), Zeros(files))
  }

  predicate Sized(p: Pool, blocks: seq<nat>) {
    |p.compressions| == |p.counted| == |p.owner| == |blocks|
  }

  /** Worker `w` exists and has not finished, and what it has in hand is one of the files. */
  predicate MayStep(p: Pool, blocks: seq<nat>, w: nat) {
    && Sized(p, blocks) && w < |p.workers| && !p.workers[w].Finished?
    && (p.workers[w].Compressing? ==> p.workers[w].i < |blocks|)
    && (p.workers[w].Adding? ==> p.workers[w].j < |blocks|)
  }

  /** The next step of worker `w`; `blocks` are the numbers of blocks that the files compress to. */
  function Step(p: Pool, blocks: seq<nat>, w: nat): Pool
    requires MayStep(p, blocks, w)
  {
    match p.workers[w]
    case Fetching =>
      var i := p.workIndex;
      if i >= |blocks| then p.(workIndex := i + 1, workers := p.workers[w := Finished])
      else p.(workIndex := i + 1, workers := p.workers[w := Compressing(i)], owner := p.owner[i := w])
    case Compressing(i) =>
      p.(compressions := p.compressions[i := p.compressions[i] + 1], workers := p.workers[w := Adding(i)])
    case Adding(i) =>
      p.(numBlocks := p.numBlocks + blocks[i], counted := p.counted[i := true], workers := p.workers[w := Fetching])
  }

  function Sum(blocks: seq<nat>, counted: seq<bool>): nat
    requires |counted| == |blocks|
  {
    if blocks == [] then 0
    else
      var n := |blocks| - 1;
      Sum(blocks[..n], counted[..n]) + if counted[n] then blocks[n] else 0
  }

  lemma {:induction false} SumAdds(blocks: seq<nat>, counted: seq<bool>, i: nat)
    requires |counted| == |blocks| && i < |blocks| && !counted[i]
    ensures Sum(blocks, counted[i := true]) == Sum(blocks, counted) + blocks[i]
    decreases |blocks|
  {
    var n := |blocks| - 1;
    if i < n {
      SumAdds(blocks[..n], counted[..n], i);
      assert counted[i := true][..n] == counted[..n][i := true];
    } else {
      assert counted[i := true][..n] == counted[..n];
    }
  }

  // ---------- What every step keeps ----------

  /** File `i` is untouched, in the hands of one worker, or done. */
  ghost predicate FileOk(p: Pool, i: nat)
    requires i < |p.compressions| == |p.counted| == |p.owner|
  {
    if i >= p.workIndex then p.compressions[i] == 0 && !p.counted[i]
    else if p.counted[i] then p.compressions[i] == 1
    else
      && p.owner[i] < |p.workers| && p.compressions[i] <= 1
      && p.workers[p.owner[i]] == (if p.compressions[i] == 0 then Compressing(i) else Adding(i))
  }

  /** A worker has a file in hand that is its own. */
  ghost predicate WorkerOk(p: Pool, w: nat)
    requires w < |p.workers| && |p.compressions| == |p.counted| == |p.owner|
  {
    match p.workers[w]
    case Fetching => true
    case Compressing(i) => i < |p.owner| && i < p.workIndex && p.owner[i] == w && !p.counted[i] && p.compressions[i] == 0
    case Adding(i) => i < |p.owner| && i < p.workIndex && p.owner[i] == w && !p.counted[i] && p.compressions[i] == 1
    case Finished => p.workIndex >= |p.compressions|
  }

  ghost predicate Inv(p: Pool, blocks: seq<nat>) {
    && Sized(p, blocks) && p.numBlocks == Sum(blocks, p.counted)
    && (forall i :: 0 <= i < |blocks| ==> FileOk(p, i))
    && (forall w :: 0 <= w < |p.workers| ==> WorkerOk(p, w))
  }

  lemma {:induction false} NothingCounted(blocks: seq<nat>, counted: seq<bool>)
    requires |counted| == |blocks| && forall i :: 0 <= i < |counted| ==> !counted[i]
    ensures Sum(blocks, counted) == 0
    decreases |blocks|
  {
    if blocks != [] {
      NothingCounted(blocks[..|blocks| - 1], counted[..|blocks| - 1]);
    }
  }

  lemma StepKeeps(p: Pool, blocks: seq<nat>, w: nat)
    requires Inv(p, blocks) && w < |p.workers| && !p.workers[w].Finished?
    ensures MayStep(p, blocks, w) && Inv(Step(p, blocks, w), blocks)
  {
    assert WorkerOk(p, w);
    hide Sum;
    var q := Step(p, blocks, w);
    if p.workers[w].Fetching? && p.workIndex < |blocks| {
      assert FileOk(p, p.workIndex);
    }
    if p.workers[w].Adding? {
      SumAdds(blocks, p.counted, p.workers[w].j);
    }
    forall i | 0 <= i < |blocks| ensures FileOk(q, i) {
      assert FileOk(p, i);
    }
    forall v | 0 <= v < |q.workers| ensures WorkerOk(q, v) {
      assert WorkerOk(p, v);
    }
  }

  // ---------- Whole runs ----------

  function Last(order: seq<nat>): nat
    requires order != []
  {
    order[|order| - 1]
  }

  function Front(order: seq<nat>): (front: seq<nat>)
    requires order != []
    ensures |front| < |order|
  {
    order[..|order| - 1]
  }

  /** The pool after the workers made their steps in this order. */
  ghost predicate Runs(blocks: seq<nat>, workers: nat, order: seq<nat>, p: Pool)
    decreases |order|
  {
    if order == [] then p == Start(|blocks|, workers)
    else exists q :: Runs(blocks, workers, Front(order), q) && Steps(q, blocks, Last(order), p)
  }

  ghost predicate Steps(q: Pool, blocks: seq<nat>, w: nat, p: Pool) {
    MayStep(q, blocks, w) && p == Step(q, blocks, w)
  }

  lemma {:induction false} RunKeeps(blocks: seq<nat>, workers: nat, order: seq<nat>, p: Pool)
    requires Runs(blocks, workers, order, p)
    ensures Inv(p, blocks) && |p.workers| == workers
    decreases |order|
  {
    if order == [] {
      NothingCounted(blocks, p.counted);
    } else {
      var q :| Runs(blocks, workers, Front(order), q) && Steps(q, blocks, Last(order), p);
      RunKeeps(blocks, workers, Front(order), q);
      StepKeeps(q, blocks, Last(order));
    }
  }

  function Total(blocks: seq<nat>): nat {
    if blocks == [] then 0 else Total(blocks[..|blocks| - 1]) + blocks[|blocks| - 1]
  }

  lemma {:induction false} AllCounted(blocks: seq<nat>, counted: seq<bool>)
    requires |counted| == |blocks| && forall i :: 0 <= i < |counted| ==> counted[i]
    ensures Sum(blocks, counted) == Total(blocks)
    decreases |blocks|
  {
    if blocks != [] {
      AllCounted(blocks[..|blocks| - 1], counted[..|blocks| - 1]);
    }
  }

  /**
   When all workers have finished, in whatever order they took their steps, every file was
   compressed exactly once and the sum is the number of all blocks.
   */
  lemma AfterJoin(blocks: seq<nat>, workers: nat, order: seq<nat>, p: Pool)
    requires workers > 0 && Runs(blocks, workers, order, p) && forall w :: 0 <= w < |p.workers| ==> p.workers[w].Finished?
    ensures |p.compressions| == |blocks| && forall i :: 0 <= i < |blocks| ==> p.compressions[i] == 1
    ensures p.numBlocks == Total(blocks)
  {
    RunKeeps(blocks, workers, order, p);
    assert WorkerOk(p, 0);
    forall i | 0 <= i < |blocks| ensures p.counted[i] && p.compressions[i] == 1 {
      assert FileOk(p, i);
    }
    AllCounted(blocks, p.counted);
  }

  // ---------- How long a run is ----------

  /** The steps that a worker has yet to make with what it has in hand */
  function StepsLeft(w: WorkerAt): nat {
    match w
    case Finished => 0
    case Fetching => 1
    case Adding(_) => 2
    case Compressing(_) => 3
  }

  function AllStepsLeft(workers: seq<WorkerAt>): nat {
    if workers == [] then 0 else StepsLeft(workers[0]) + AllStepsLeft(workers[1..])
  }

  lemma {:induction false} OneSteps(workers: seq<WorkerAt>, w: nat, next: WorkerAt)
    requires w < |workers|
    ensures AllStepsLeft(workers[w := next]) + StepsLeft(workers[w]) == AllStepsLeft(workers) + StepsLeft(next)
  {
    if w > 0 {
      OneSteps(workers[1..], w - 1, next);
      assert workers[w := next][1..] == workers[1..][w - 1 := next];
    }
  }

  /** All steps of all workers that are still to be made: three for each file, and one for each worker. */
  function Ahead(p: Pool): nat {
    3 * (|p.owner| - if p.workIndex < |p.owner| then p.workIndex else |p.owner|) + AllStepsLeft(p.workers)
  }

  lemma StepDescends(p: Pool, blocks: seq<nat>, w: nat)
    requires MayStep(p, blocks, w)
    ensures Ahead(Step(p, blocks, w)) + 1 == Ahead(p)
  {
    hide AllStepsLeft;
    OneSteps(p.workers, w, Step(p, blocks, w).workers[w]);
  }

  lemma {:induction false} FreshSteps(workers: seq<WorkerAt>)
    requires forall w :: 0 <= w < |workers| ==> workers[w] == Fetching
    ensures AllStepsLeft(workers) == |workers|
  {
    if workers != [] {
      FreshSteps(workers[1..]);
    }
  }

  lemma {:induction false} NoStepLeft(workers: seq<WorkerAt>)
    ensures AllStepsLeft(workers) == 0 <==> forall w :: 0 <= w < |workers| ==> workers[w].Finished?
  {
    if workers != [] {
      NoStepLeft(workers[1..]);
      if AllStepsLeft(workers) == 0 {
        forall w | 0 <= w < |workers| ensures workers[w].Finished? {
          assert w > 0 ==> workers[w] == workers[1..][w - 1];
        }
      }
      if forall w :: 0 <= w < |workers| ==> workers[w].Finished? {
        assert forall w :: 0 <= w < |workers[1..]| ==> workers[1..][w] == workers[w + 1];
      }
    }
  }

  /**
   Every run ends: however the workers take turns, after three steps for each file and one for each worker
   all have finished, and not before.
   */
  lemma {:induction false} EveryRunEnds(blocks: seq<nat>, workers: nat, order: seq<nat>, p: Pool)
    requires workers > 0 && Runs(blocks, workers, order, p)
    ensures |order| + Ahead(p) == 3 * |blocks| + workers
    ensures |order| == 3 * |blocks| + workers <==> forall w :: 0 <= w < |p.workers| ==> p.workers[w].Finished?
    decreases |order|
  {
    hide AllStepsLeft, Sum;
    RunKeeps(blocks, workers, order, p);
    if order == [] {
      FreshSteps(p.workers);
    } else {
      var q :| Runs(blocks, workers, Front(order), q) && Steps(q, blocks, Last(order), p);
      EveryRunEnds(blocks, workers, Front(order), q);
      StepDescends(q, blocks, Last(order));
    }
    NoStepLeft(p.workers);
    assert WorkerOk(p, 0);
  }

  function BlockCounts(files: seq<Packed>): (counts: seq<nat>)
    ensures |counts| == |files| && forall i :: 0 <= i < |files| ==> counts[i] == |files[i].framed.sizes|
  {
    seq(|files|, i requires 0 <= i < |files| => |files[i].framed.sizes|)
  }

  /** The sum of the workers is the length of the block table that the layout is made for. */
  lemma {:induction false} TotalIsTheTable(files: seq<Packed>)
    ensures Total(BlockCounts(files)) == |AllSizes(files)|
    decreases |files|
  {
    if files != [] {
      var n := |files| - 1;
      TotalIsTheTable(files[..n]);
      assert BlockCounts(files)[..n] == BlockCounts(files[..n]);
    }
  }
}
