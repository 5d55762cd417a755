/**
 That the pipeline gets on: however its three threads are scheduled, a call of the LZ thread for the next
 block, or to stop, comes back, and has then done what it is for.
 */
module Progress {

  import opened MtSync
  import opened Threads
  import opened Pipeline

  // ---------- One link ----------

  /** The statements before the reading thread is back from its call */
  function StepsLeft(r: ReaderAt): nat {
    match r
    case Idle => 0
    case Locking => 1
    case Taking => 2
    case Starting => 3
    case Resetting => 4
    case Freeing => 3
    case Restoring => 1
    case Awaiting => 2
    case Releasing => 3
    case Telling => 4
  }

  /** The statements that the writing thread can make before it has to wait for the reading thread */
  function WriterLeft(s: Sync): nat {
    3 * s.spare + match s.w
                  case Asleep => if s.canStart then 1 else 0
                  case Looping => 0
                  case Checking => 2
                  case Writing => 1
                  case Ending => 1
  }

  function Ahead(s: Sync): nat {
    4 * StepsLeft(s.r) + WriterLeft(s)
  }

  /** What a statement of the reading thread does not touch, but for a release of at most one block. */
  ghost predicate Untouched(q: Sync, s: Sync) {
    q.w == s.w && q.seen == s.seen && q.needStart == s.needStart && q.canStart == s.canStart && q.spare <= s.spare + 1
  }

  /** The way of the reading thread through its calls */
  lemma WayOfReader(s: Sync)
    requires MayAdvance(s) && |s.ring| == s.n > 0
    ensures s.r == Resetting ==> Advance(s).r == Starting && Untouched(Advance(s), s)
    ensures s.r == Starting ==>
              var q := Advance(s);
              q.r == Taking && q.w == s.w && q.seen == s.seen && q.needStart == s.needStart && q.spare == s.spare
    ensures s.r == Freeing ==> Advance(s).r == Taking && Untouched(Advance(s), s)
    ensures s.r == Taking ==> Advance(s).r == Locking && Untouched(Advance(s), s)
    ensures s.r == Locking ==>
              var q := Advance(s);
              && q.r == Idle && |q.seen| == |s.seen| + 1
              && q.needStart == s.needStart && q.w == s.w && q.spare == s.spare && q.canStart == s.canStart
    ensures s.r == Telling ==> Advance(s).r == Releasing && Untouched(Advance(s), s)
    ensures s.r == Releasing ==> Advance(s).r == Awaiting && Untouched(Advance(s), s)
    ensures s.r == Awaiting ==> Advance(s).r == Restoring && Untouched(Advance(s), s)
    ensures s.r == Restoring ==>
              var q := Advance(s);
              q.r == Idle && q.needStart && q.w == s.w && q.spare == s.spare && q.canStart == s.canStart
  {
    hide Word;
  }

  lemma AdvanceDescends(s: Sync)
    requires MayAdvance(s) && |s.ring| == s.n > 0
    ensures Ahead(Advance(s)) < Ahead(s)
  {
    hide Advance;
    WayOfReader(s);
  }

  /** The writing thread leaves the reading thread where it is. */
  ghost predicate Apart(q: Sync, s: Sync) {
    q.r == s.r && q.seen == s.seen && q.needStart == s.needStart
  }

  /** The way of the writing thread around its loop */
  lemma WayOfWriter(s: Sync, v: int)
    requires MayWork(s) && |s.ring| == s.n > 0
    ensures s.w == Asleep ==>
              var q := Work(s, v); Apart(q, s) && q.w == Looping && q.spare == s.spare && s.canStart && !q.canStart
    ensures s.w == Looping ==> var q := Work(s, v); Apart(q, s) && q.w == Checking && q.spare + 1 == s.spare
    ensures s.w == Checking ==>
              var q := Work(s, v); Apart(q, s) && q.w == (if s.stopWriting then Ending else Writing) && q.spare == s.spare
    ensures s.w == Writing ==> var q := Work(s, v); Apart(q, s) && q.w == Looping && q.spare == s.spare && q.log == s.log + [v]
    ensures s.w == Ending ==>
              var q := Work(s, v); Apart(q, s) && q.w == Asleep && q.spare == s.spare && q.canStart == s.canStart
  {
    hide Word, Released;
  }

  lemma WorkDescends(s: Sync, v: int)
    requires MayWork(s) && |s.ring| == s.n > 0 && (s.canStart ==> s.w == Asleep)
    ensures Ahead(Work(s, v)) < Ahead(s)
  {
    hide Work;
    WayOfWriter(s, v);
  }

  lemma OnlyAsleepIsStarted(s: Sync)
    requires Inv(s)
    ensures s.canStart ==> s.w == Asleep
  {
    hide Counts, Indices, Contents, Word;
  }

  /**
   A call is under way, or has come back: one for the next block with one block more than the `had` before it,
   one to stop with the session at its end.
   */
  ghost predicate UnderWay(s: Sync, stop: bool, had: nat) {
    if stop then
      if s.r == Idle then s.needStart else s.r == Telling || s.r == Releasing || s.r == Awaiting || s.r == Restoring
    else !s.needStart && Fetching(s.r) && |s.seen| == had + One(s.r == Idle)
  }

  lemma CallsGetUnderWay(s: Sync)
    requires s.r == Idle
    ensures UnderWay(CallNext(s), false, if s.needStart then 0 else |s.seen|)
    ensures UnderWay(CallStop(s), true, 0)
  {
  }

  lemma AdvanceUnderWay(s: Sync, stop: bool, had: nat)
    requires |s.ring| == s.n > 0 && UnderWay(s, stop, had) && MayAdvance(s)
    ensures UnderWay(Advance(s), stop, had)
  {
    hide Advance;
    WayOfReader(s);
  }

  lemma WorkUnderWay(s: Sync, v: int, stop: bool, had: nat)
    requires |s.ring| == s.n > 0 && UnderWay(s, stop, had) && MayWork(s)
    ensures UnderWay(Work(s, v), stop, had)
  {
    hide Work;
    WayOfWriter(s, v);
  }

  // ---------- The pipeline ----------

  /** However the blocks of heads look, the BT thread completes a block of matches after some of them. */
  ghost predicate Completes(prog: Program, rank: int -> nat) {
    forall state, block :: prog.wants(state) ==> rank(prog.feed(state, block)) < rank(state)
  }

  function FillLeft(f: Fill): nat {
    match f
    case Entering => 3
    case Filling => 2
    case Asking => 2
    case Handing(_) => 1
    case Stopping => 0
  }

  predicate Goes(m: Move) {
    m == LzGo || m == BtGo || m == HashGo
  }

  /** Every statement of every thread brings the pipeline closer to where the LZ thread is served. */
  ghost predicate Closer(rank: int -> nat, q: Pipe, p: Pipe) {
    || Ahead(q.bt) < Ahead(p.bt)
    || (Ahead(q.bt) == Ahead(p.bt) &&
          (|| FillLeft(q.fill) < FillLeft(p.fill)
           || (FillLeft(q.fill) == FillLeft(p.fill) && CloserInFill(rank, q, p))))
  }

  ghost predicate CloserInFill(rank: int -> nat, q: Pipe, p: Pipe) {
    || rank(q.state) < rank(p.state)
    || (rank(q.state) == rank(p.state) &&
          (|| One(q.fill == Filling) < One(p.fill == Filling)
           || (One(q.fill == Filling) == One(p.fill == Filling) && Ahead(q.hash) < Ahead(p.hash))))
  }

  lemma StepDescends(prog: Program, rank: int -> nat, p: Pipe, m: Move)
    requires prog.Valid() && Safe(prog, p) && Completes(prog, rank) && Enabled(p, m) && Goes(m)
    ensures Closer(rank, Do(prog, p, m), p)
  {
    OnlyAsleepIsStarted(p.hash);
    OnlyAsleepIsStarted(p.bt);
    hide Counts, Indices, Contents, Flags, Advance, Work, Ahead, CallNext, CallStop, BtGoes;
    match m
    case LzGo => AdvanceDescends(p.bt);
    case HashGo => WorkDescends(p.hash, prog.hashBlock(|p.hash.log|));
    case BtGo => BtDescends(prog, rank, p);
  }

  lemma BtDescends(prog: Program, rank: int -> nat, p: Pipe)
    requires prog.Valid() && Safe(prog, p) && Completes(prog, rank) && Enabled(p, BtGo)
    ensures Closer(rank, BtGoes(prog, p), p)
  {
    OnlyAsleepIsStarted(p.bt);
    hide Counts, Indices, Contents, Flags, Advance, Work, Ahead, CallNext, CallStop, Starts, FillGo, AsAlone;
    if p.bt.w == Writing {
      FillDescends(prog, rank, p);
    } else if p.bt.w != Ending {
      WorkDescends(p.bt, 0);
    } else if p.fill == Stopping {
      if p.hash.r == Idle {
        WorkDescends(p.bt, 0);
      } else {
        AdvanceDescends(p.hash);
      }
    }
  }

  /** The way of the BT thread through `BtFillBlock` */
  lemma WayOfFill(prog: Program, p: Pipe)
    requires Pipeline.Sized(p) && p.bt.w == Writing && MayBtGo(p)
    ensures p.fill == Entering ==> var q := FillGo(prog, p); q.bt == p.bt && q.fill == Filling
    ensures p.fill == Filling && prog.wants(p.state) ==>
              var q := FillGo(prog, p); q.bt == p.bt && q.fill == Asking && q.state == p.state
    ensures p.fill == Filling && !prog.wants(p.state) ==> var q := FillGo(prog, p); q.bt == p.bt && q.fill.Handing?
    ensures p.fill == Asking && p.hash.r == Idle ==>
              var q := FillGo(prog, p);
              q.bt == p.bt && q.fill == Filling && q.state == prog.feed(p.state, p.hash.ring[p.hash.blockIn % p.hash.n])
    ensures p.fill == Asking && p.hash.r != Idle ==>
              var q := FillGo(prog, p);
              MayAdvance(p.hash) && q.bt == p.bt && q.fill == Asking && q.state == p.state && q.hash == Advance(p.hash)
    ensures p.fill.Handing? ==> FillGo(prog, p).bt == Work(p.bt, p.fill.block)
  {
    hide Advance, Work, CallNext, Lock, Unlock;
  }

  lemma SafeIs(prog: Program, p: Pipe)
    requires Safe(prog, p)
    ensures Pipeline.Sized(p) && (p.bt.canStart ==> p.bt.w == Asleep)
    ensures p.bt.w == Writing ==> p.fill != Stopping
    ensures p.fill == Asking ==> prog.wants(p.state)
  {
    OnlyAsleepIsStarted(p.bt);
    hide Counts, Indices, Contents, Flags, Starts;
  }

  lemma FeedLowers(prog: Program, rank: int -> nat, state: int, block: int)
    requires Completes(prog, rank) && prog.wants(state)
    ensures rank(prog.feed(state, block)) < rank(state)
  {
  }

  lemma FillDescends(prog: Program, rank: int -> nat, p: Pipe)
    requires prog.Valid() && Safe(prog, p) && Completes(prog, rank) && Enabled(p, BtGo) && p.bt.w == Writing
    ensures Closer(rank, FillGo(prog, p), p)
  {
    SafeIs(prog, p);
    hide Safe, Advance, Work, Ahead, FillGo, Completes, MayBtGo;
    WayOfFill(prog, p);
    var q := FillGo(prog, p);
    if p.fill == Entering {
      assert FillLeft(q.fill) < FillLeft(p.fill);
    } else if p.fill == Filling {
      assert prog.wants(p.state) ==> CloserInFill(rank, q, p);
    } else if p.fill.Handing? {
      WorkDescends(p.bt, p.fill.block);
    } else if p.hash.r == Idle {
      FeedLowers(prog, rank, p.state, p.hash.ring[p.hash.blockIn % p.hash.n]);
    } else {
      AdvanceDescends(p.hash);
    }
  }

  // ---------- Whole calls ----------

  /**
   Which thread makes the next statement, given all the states so far. While the LZ thread waits, some
   thread is given a statement that it can make.
   */
  ghost predicate Schedules(prog: Program, sched: seq<Pipe> -> Move) {
    forall past: seq<Pipe>, p: Pipe :: Safe(prog, p) && p.bt.r != Idle ==> Picks(p, sched(past + [p]))
  }

  ghost predicate Picks(p: Pipe, m: Move) {
    Goes(m) && Enabled(p, m)
  }

  /** The state in which the LZ thread is back, when the threads go on as they are scheduled. */
  ghost function Served(prog: Program, rank: int -> nat, sched: seq<Pipe> -> Move, past: seq<Pipe>, p: Pipe): (q: Pipe)
    requires prog.Valid() && Completes(prog, rank) && Schedules(prog, sched) && Safe(prog, p)
    ensures Safe(prog, q) && q.bt.r == Idle
    decreases Ahead(p.bt), FillLeft(p.fill), rank(p.state), One(p.fill == Filling), Ahead(p.hash)
  {
    if p.bt.r == Idle then p
    else
      var m := sched(past + [p]);
      assert Picks(p, m);
      StepKeeps(prog, p, m);
      StepDescends(prog, rank, p, m);
      Served(prog, rank, sched, past + [p], Do(prog, p, m))
  }

  lemma {:induction false} ServedStaysUnderWay(prog: Program, rank: int -> nat, sched: seq<Pipe> -> Move, past: seq<Pipe>,
                                               p: Pipe, stop: bool, had: nat)
    requires prog.Valid() && Completes(prog, rank) && Schedules(prog, sched) && Safe(prog, p) && UnderWay(p.bt, stop, had)
    ensures UnderWay(Served(prog, rank, sched, past, p).bt, stop, had)
    decreases Ahead(p.bt), FillLeft(p.fill), rank(p.state), One(p.fill == Filling), Ahead(p.hash)
  {
    hide Safe, UnderWay, Do, Completes, Enabled, Ahead;
    SafeIs(prog, p);
    if p.bt.r != Idle {
      var m := sched(past + [p]);
      assert Picks(p, m);
      StepKeeps(prog, p, m);
      StepDescends(prog, rank, p, m);
      StepUnderWay(prog, p, m, stop, had);
      ServedStaysUnderWay(prog, rank, sched, past + [p], Do(prog, p, m), stop, had);
    }
  }

  lemma StepUnderWay(prog: Program, p: Pipe, m: Move, stop: bool, had: nat)
    requires Safe(prog, p) && Enabled(p, m) && Goes(m) && UnderWay(p.bt, stop, had)
    ensures UnderWay(Do(prog, p, m).bt, stop, had)
  {
    hide Counts, Indices, Contents, Flags, Advance, Work, UnderWay, FillGo, Starts, AsAlone, Nested, CallStop;
    match m
    case LzGo => AdvanceUnderWay(p.bt, stop, had);
    case HashGo =>
    case BtGo =>
      if p.bt.w == Writing {
        WayOfFill(prog, p);
        SafeIs(prog, p);
        if p.fill.Handing? {
          WorkUnderWay(p.bt, p.fill.block, stop, had);
        }
      } else {
        WorkUnderWay(p.bt, 0, stop, had);
      }
  }

  /**
   However the threads are scheduled, a call for the next block comes back with one more block than the
   LZ thread has seen in its session, and a call to stop comes back with the session at its end.
   */
  lemma EveryCallReturns(prog: Program, rank: int -> nat, sched: seq<Pipe> -> Move, p: Pipe)
    requires prog.Valid() && Completes(prog, rank) && Schedules(prog, sched) && Safe(prog, p)
    ensures Enabled(p, LzNext) ==>
              && Safe(prog, Do(prog, p, LzNext))
              && var q := Served(prog, rank, sched, [], Do(prog, p, LzNext));
                 q.bt.r == Idle && !q.bt.needStart && |q.bt.seen| == (if p.bt.needStart then 0 else |p.bt.seen|) + 1
    ensures Enabled(p, LzStop) ==>
              && Safe(prog, Do(prog, p, LzStop))
              && var q := Served(prog, rank, sched, [], Do(prog, p, LzStop));
                 q.bt.r == Idle && q.bt.needStart
  {
    SafeIs(prog, p);
    hide Safe, Completes, Schedules, CallNext, CallStop;
    if Enabled(p, LzNext) {
      StepKeeps(prog, p, LzNext);
      CallsGetUnderWay(p.bt);
      ServedStaysUnderWay(prog, rank, sched, [], Do(prog, p, LzNext), false, if p.bt.needStart then 0 else |p.bt.seen|);
    }
    if Enabled(p, LzStop) {
      StepKeeps(prog, p, LzStop);
      CallsGetUnderWay(p.bt);
      ServedStaysUnderWay(prog, rank, sched, [], Do(prog, p, LzStop), true, 0);
    }
  }

  /** The first thread that can go on */
  function FirstWilling(past: seq<Pipe>): Move {
    if past == [] then LzGo
    else
      var p := past[|past| - 1];
      if Enabled(p, LzGo) then LzGo else if Enabled(p, BtGo) then BtGo else HashGo
  }

  /** There is a schedule: one that prefers the LZ thread, then the BT thread. */
  lemma SomeSchedule(prog: Program)
    ensures Schedules(prog, FirstWilling)
  {
    hide Safe, Enabled;
    forall past: seq<Pipe>, p: Pipe | Safe(prog, p) && p.bt.r != Idle ensures Picks(p, FirstWilling(past + [p])) {
      NeverStuck(prog, p);
    }
  }
}
