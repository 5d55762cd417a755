/**
 The two-level pipeline of the threaded match finder: the HASH thread writes blocks of heads for
 the BT thread, which writes blocks of matches for the LZ thread. What the threads compute is a
 parameter; what is modelled is who does what when, statement by statement.
 */
module Pipeline {

  import opened MtSync

  /**
   What the threads compute: the HASH thread fills its blocks one after the other; the BT thread
   starts in `start`, takes in a block of heads as long as it wants one, and otherwise completes
   a block of matches. At the start it has no heads left, so that it wants some.
   */
  datatype Program = Program(hashBlock: nat -> int, start: int, wants: int -> bool,
                             feed: (int, int) -> int, emit: int -> (int, int))
  {
    ghost predicate Valid() {
      wants(start)
    }
  }

  /** Where the BT thread is in `BtFillBlock`, or in stopping the HASH thread. */
  datatype Fill = Entering | Filling | Asking | Handing(block: int) | Stopping

  /** `failed` is set when `MatchFinderMt_InitMt` returns an error; `turns` and `fed` are for the proofs. */
  datatype Pipe = Pipe(bt: Sync, hash: Sync, fill: Fill, state: int, failed: bool, turns: nat, fed: nat)

  // ---------- The steps ----------

  /** The LZ thread calls for a block, stops the pipeline, or sets it up anew; or a thread goes on. */
  datatype Move = LzNext | LzStop | LzInit | LzGo | BtGo | BtScribble(v: int) | HashGo | HashScribble(w: int)

  predicate Sized(p: Pipe) {
    |p.bt.ring| == p.bt.n > 0 && |p.hash.ring| == p.hash.n > 0
  }

  /** `MatchFinderMt_InitMt`, then `MatchFinderMt_Init`. */
  function InitMt(prog: Program, p: Pipe): Pipe {
    if MayInit(p.hash) && MayInit(p.bt) then
      p.(hash := Init(p.hash), bt := Init(p.bt), state := prog.start, fill := Entering, turns := 0, fed := 0)
    else p.(failed := true)
  }

  predicate MayBtGo(p: Pipe) {
    && MayWork(p.bt)
    && ((p.bt.w == Writing && p.fill == Asking) || (p.bt.w == Ending && p.fill == Stopping) ==>
        p.hash.r == Idle || MayAdvance(p.hash))
  }

  /** `BtFillBlock`, `MtSync_GetNextBlock` included */
  function FillGo(prog: Program, p: Pipe): Pipe
    requires Sized(p) && p.bt.w == Writing && MayBtGo(p)
  {
    match p.fill
    case Entering =>
      if p.hash.needStart then p.(hash := p.hash.(halted := p.hash.halted || p.hash.csWasEntered), fill := Filling)
      else p.(hash := Lock(p.hash), fill := Filling)
    case Filling =>
      if prog.wants(p.state) then p.(hash := CallNext(p.hash), fill := Asking)
      else
        p.(hash := Unlock(p.hash), fill := Handing(prog.emit(p.state).0), state := prog.emit(p.state).1,
        turns := p.turns + 1)
    case Asking =>
      if p.hash.r == Idle then
        p.(state := prog.feed(p.state, p.hash.ring[p.hash.blockIn % p.hash.n]), fed := p.fed + 1,
        turns := p.turns + 1, fill := Filling)
      else p.(hash := Advance(p.hash))
    case Handing(v) => p.(bt := Work(p.bt, v), fill := Entering)
    case Stopping => p
  }

  /** `BtThreadFunc` */
  function BtGoes(prog: Program, p: Pipe): Pipe
    requires Sized(p) && MayBtGo(p)
  {
    if p.bt.w == Writing then FillGo(prog, p)
    else if p.bt.w != Ending then p.(bt := Work(p.bt, 0))
    else if p.fill != Stopping then p.(hash := CallStop(p.hash), fill := Stopping)
    else if p.hash.r == Idle then p.(bt := Work(p.bt, 0), fill := Entering)
    else p.(hash := Advance(p.hash))
  }

  /** What each thread may do; `MtSync_GetNextBlock` wants a pipeline that was set up. */
  predicate Enabled(p: Pipe, m: Move) {
    match m
    case LzNext => p.bt.r == Idle && (p.bt.needStart ==> p.bt.ready)
    case LzStop => p.bt.r == Idle
    case LzInit => p.bt.r == Idle && p.bt.needStart
    case LzGo => MayAdvance(p.bt)
    case BtGo => MayBtGo(p)
    case BtScribble(_) => p.bt.w == Writing && p.fill != Entering
    case HashGo => MayWork(p.hash)
    case HashScribble(_) => p.hash.w == Writing
  }

  function Do(prog: Program, p: Pipe, m: Move): Pipe
    requires Sized(p) && Enabled(p, m)
  {
    match m
    case LzNext => p.(bt := CallNext(p.bt))
    case LzStop => p.(bt := CallStop(p.bt))
    case LzInit => InitMt(prog, p)
    case LzGo => p.(bt := Advance(p.bt))
    case BtGo => BtGoes(prog, p)
    case BtScribble(v) => p.(bt := Scribble(p.bt, v))
    case HashGo => p.(hash := Work(p.hash, prog.hashBlock(|p.hash.log|)))
    case HashScribble(v) => p.(hash := Scribble(p.hash, v))
  }

  // ---------- What the BT thread alone would do ----------

  datatype Alone = Alone(state: int, fed: nat, out: seq<int>)

  function Turn(prog: Program, a: Alone): Alone {
    if prog.wants(a.state) then Alone(prog.feed(a.state, prog.hashBlock(a.fed)), a.fed + 1, a.out)
    else Alone(prog.emit(a.state).1, a.fed, a.out + [prog.emit(a.state).0])
  }

  /** The BT thread after `k` turns, if it had the blocks of heads at hand. */
  function AfterTurns(prog: Program, k: nat): Alone {
    if k == 0 then Alone(prog.start, 0, []) else Turn(prog, AfterTurns(prog, k - 1))
  }

  lemma {:induction false} OutGrows(prog: Program, j: nat, k: nat)
    requires j <= k
    ensures AfterTurns(prog, j).out <= AfterTurns(prog, k).out
  {
    if j < k {
      OutGrows(prog, j, k - 1);
    }
  }

  // ---------- What every step keeps ----------

  /** Set up, and the HASH thread not started. */
  ghost predicate Fresh(p: Pipe) {
    p.hash.needStart && p.hash.ready && p.turns == 0 && p.fed == 0
  }

  ghost predicate Closed(p: Pipe) {
    p.hash.r == Idle && !p.hash.csWasEntered
  }

  /** Where the BT thread is, against where it is as a reader of the other link. */
  ghost predicate Nested(p: Pipe) {
    match p.fill
    case Entering => Closed(p) && (p.bt.w == Asleep ==> p.hash.needStart)
    case Filling => p.bt.w == Writing && p.hash.r == Idle && (p.hash.csWasEntered <==> !p.hash.needStart)
    case Asking => p.bt.w == Writing && !p.hash.needStart && (p.hash.r == Idle ==> p.hash.csWasEntered) && Fetching(p.hash.r)
    case Handing(_) => p.bt.w == Writing && Closed(p) && !p.hash.needStart
    case Stopping =>
      p.bt.w == Ending && !p.hash.csWasEntered && (Fetching(p.hash.r) ==> p.hash.r == Idle && p.hash.needStart)
  }

  predicate Fetching(r: ReaderAt) {
    r == Idle || r == Resetting || r == Starting || r == Freeing || r == Taking || r == Locking
  }

  /** The HASH thread is not started before the BT thread asks for heads. */
  ghost predicate Starts(p: Pipe) {
    && (p.bt.needStart && p.bt.ready ==> Fresh(p))
    && (!p.bt.needStart && p.hash.needStart && p.bt.w != Ending && !p.bt.wasStopped && p.bt.r != Restoring ==> Fresh(p))
    && (p.bt.r == Idle && !p.bt.needStart ==> p.bt.csWasEntered)
  }

  /** The BT thread is as far as it would be alone, after the blocks of heads that it took in. */
  ghost predicate AsAlone(prog: Program, p: Pipe) {
    var a := AfterTurns(prog, p.turns);
    && (p.fill == Asking ==> prog.wants(p.state))
    && p.fed == a.fed && (Fresh(p) || !p.bt.needStart ==> p.state == a.state)
    && (!p.bt.needStart ==> a.out == p.bt.log + if p.fill.Handing? then [p.fill.block] else [])
    && (!p.hash.needStart && !p.fill.Stopping? ==>
          |p.hash.seen| == p.fed + if p.fill == Asking && p.hash.r == Idle then 1 else 0)
    && (!p.hash.needStart ==> forall i :: 0 <= i < |p.hash.log| ==> p.hash.log[i] == prog.hashBlock(i))
  }

  ghost predicate Safe(prog: Program, p: Pipe) {
    Inv(p.bt) && Inv(p.hash) && !p.failed && Nested(p) && Starts(p) && AsAlone(prog, p)
  }

  // ---------- Proofs ----------

  lemma LzKeeps(prog: Program, p: Pipe, m: Move)
    requires prog.Valid() && Safe(prog, p) && Enabled(p, m) && (m == LzNext || m == LzStop || m == LzInit || m == LzGo)
    ensures Safe(prog, Do(prog, p, m))
  {
    hide Counts, Indices, Contents;
    match m
    case LzNext => CallNextKeeps(p.bt);
    case LzStop => CallStopKeeps(p.bt);
    case LzInit => InitKeeps(p.bt); InitKeeps(p.hash);
    case LzGo => AdvanceKeeps(p.bt);
  }

  lemma ScribblesKeep(prog: Program, p: Pipe, m: Move)
    requires Safe(prog, p) && Enabled(p, m) && (m.BtScribble? || m.HashScribble?)
    ensures Safe(prog, Do(prog, p, m))
  {
    hide Counts, Indices, Contents;
    match m
    case BtScribble(v) => ScribbleKeeps(p.bt, v);
    case HashScribble(v) => ScribbleKeeps(p.hash, v);
  }

  lemma HashKeeps(prog: Program, p: Pipe)
    requires Safe(prog, p) && Enabled(p, HashGo)
    ensures Safe(prog, Do(prog, p, HashGo))
  {
    hide Counts, Indices, Contents;
    WorkKeeps(p.hash, prog.hashBlock(|p.hash.log|));
  }

  /** The BT thread outside `BtFillBlock`. */
  lemma BtLoopKeeps(prog: Program, p: Pipe)
    requires Safe(prog, p) && Enabled(p, BtGo) && p.bt.w != Writing
    ensures Safe(prog, Do(prog, p, BtGo))
  {
    hide Counts, Indices, Contents;
    if p.bt.w != Ending || (p.fill == Stopping && p.hash.r == Idle) {
      WorkKeeps(p.bt, 0);
    } else if p.fill != Stopping {
      CallStopKeeps(p.hash);
    } else {
      AdvanceKeeps(p.hash);
    }
  }

  lemma EnterKeeps(prog: Program, p: Pipe)
    requires Safe(prog, p) && Enabled(p, BtGo) && p.bt.w == Writing && p.fill == Entering
    ensures Safe(prog, Do(prog, p, BtGo))
  {
    hide Counts, Indices, Contents;
    if !p.hash.needStart {
      LockKeeps(p.hash);
    }
  }

  lemma CallKeeps(prog: Program, p: Pipe)
    requires Safe(prog, p) && Enabled(p, BtGo) && p.bt.w == Writing && p.fill == Filling && prog.wants(p.state)
    ensures Safe(prog, Do(prog, p, BtGo))
  {
    hide Counts, Indices, Contents;
    CallNextKeeps(p.hash);
  }

  lemma CompleteKeeps(prog: Program, p: Pipe)
    requires prog.Valid() && Safe(prog, p) && Enabled(p, BtGo) && p.bt.w == Writing && p.fill == Filling
    requires !prog.wants(p.state)
    ensures Safe(prog, Do(prog, p, BtGo))
  {
    hide Counts, Indices, Contents;
    UnlockKeeps(p.hash);
  }

  /** What the BT thread takes in is the next block of heads, as the HASH thread wrote it. */
  lemma TakeInKeeps(prog: Program, p: Pipe)
    requires Safe(prog, p) && p.bt.w == Writing && p.fill == Asking && p.hash.r == Idle
    ensures Safe(prog, Do(prog, p, BtGo))
  {
    hide Counts, Indices, Contents, Flags;
    HeldBlockStays(p.hash);
  }

  lemma AskKeeps(prog: Program, p: Pipe)
    requires Safe(prog, p) && Enabled(p, BtGo) && p.bt.w == Writing && p.fill == Asking && p.hash.r != Idle
    ensures Safe(prog, Do(prog, p, BtGo))
  {
    hide Counts, Indices, Contents;
    AdvanceKeeps(p.hash);
  }

  lemma HandKeeps(prog: Program, p: Pipe)
    requires Safe(prog, p) && Enabled(p, BtGo) && p.bt.w == Writing && p.fill.Handing?
    ensures Safe(prog, Do(prog, p, BtGo))
  {
    hide Counts, Indices, Contents;
    WorkKeeps(p.bt, p.fill.block);
  }

  /** Every step of every thread keeps the invariant. */
  lemma StepKeeps(prog: Program, p: Pipe, m: Move)
    requires prog.Valid() && Safe(prog, p) && Enabled(p, m)
    ensures Safe(prog, Do(prog, p, m))
  {
    match m
    case LzNext => LzKeeps(prog, p, m);
    case LzStop => LzKeeps(prog, p, m);
    case LzInit => LzKeeps(prog, p, m);
    case LzGo => LzKeeps(prog, p, m);
    case BtScribble(_) => ScribblesKeep(prog, p, m);
    case HashScribble(_) => ScribblesKeep(prog, p, m);
    case HashGo => HashKeeps(prog, p);
    case BtGo =>
      if p.bt.w != Writing {
        BtLoopKeeps(prog, p);
      } else {
        match p.fill
        case Entering => EnterKeeps(prog, p);
        case Filling =>
          if prog.wants(p.state) {
            CallKeeps(prog, p);
          } else {
            CompleteKeeps(prog, p);
          }
        case Asking =>
          if p.hash.r == Idle {
            TakeInKeeps(prog, p);
          } else {
            AskKeeps(prog, p);
          }
        case Handing(_) => HandKeeps(prog, p);
      }
  }

  // ---------- Whole runs ----------

  /** The pipeline as `MatchFinderMt_Create` leaves it, with whatever stands in its buffers. */
  function Created(btRing: seq<int>, hashRing: seq<int>): Pipe {
    Pipe(MtSync.Created(|btRing|, btRing), MtSync.Created(|hashRing|, hashRing), Entering, 0, false, 0, 0)
  }

  /** Two numbers of blocks that divide the range of a 32-bit index, such as 16 and 2. */
  predicate Dimensions(btRing: seq<int>, hashRing: seq<int>) {
    |btRing| > 0 && |hashRing| > 0 && DividesWord(|btRing|) && DividesWord(|hashRing|)
  }

  /** `p` can be reached from `Created` by the moves `ms`, in this order. */
  ghost predicate Reaches(prog: Program, start: Pipe, ms: seq<Move>, p: Pipe) {
    if ms == [] then p == start
    else
      exists q ::
        Reaches(prog, start, ms[..|ms| - 1], q) && Sized(q) && Enabled(q, ms[|ms| - 1]) && p == Do(prog, q, ms[|ms| - 1])
  }

  /** Every interleaving of the three threads is safe. */
  lemma {:induction false} EveryRunIsSafe(prog: Program, btRing: seq<int>, hashRing: seq<int>, ms: seq<Move>, p: Pipe)
    requires prog.Valid() && Dimensions(btRing, hashRing)
    requires Reaches(prog, Created(btRing, hashRing), ms, p)
    ensures Safe(prog, p)
    ensures !p.bt.halted && !p.hash.halted && !p.failed
  {
    if ms != [] {
      var m := ms[|ms| - 1];
      var q :| Reaches(prog, Created(btRing, hashRing), ms[..|ms| - 1], q) && Sized(q) && Enabled(q, m) && p == Do(prog, q, m);
      EveryRunIsSafe(prog, btRing, hashRing, ms[..|ms| - 1], q);
      StepKeeps(prog, q, m);
    }
  }

  /** What the LZ thread sees is a beginning of what the BT thread alone would put out. */
  lemma SeesWhatIsComputed(prog: Program, p: Pipe)
    requires Safe(prog, p) && !p.bt.needStart
    ensures p.bt.seen <= AfterTurns(prog, p.turns).out
  {
  }

  /**
   In any two runs the LZ thread sees the same blocks, as far as it got in each: neither the
   interleaving nor what stood in the buffers nor even the number of blocks makes a difference.
   */
  lemma InterleavingsAgree(prog: Program, bt1: seq<int>, hash1: seq<int>, ms1: seq<Move>, p: Pipe,
                           bt2: seq<int>, hash2: seq<int>, ms2: seq<Move>, q: Pipe)
    requires prog.Valid() && Dimensions(bt1, hash1) && Dimensions(bt2, hash2)
    requires Reaches(prog, Created(bt1, hash1), ms1, p) && !p.bt.needStart
    requires Reaches(prog, Created(bt2, hash2), ms2, q) && !q.bt.needStart
    ensures p.bt.seen <= q.bt.seen || q.bt.seen <= p.bt.seen
  {
    hide Safe, Reaches, AfterTurns;
    EveryRunIsSafe(prog, bt1, hash1, ms1, p);
    EveryRunIsSafe(prog, bt2, hash2, ms2, q);
    SeesWhatIsComputed(prog, p);
    SeesWhatIsComputed(prog, q);
    if p.turns <= q.turns {
      OutGrows(prog, p.turns, q.turns);
    } else {
      OutGrows(prog, q.turns, p.turns);
    }
  }

  /** While the LZ thread waits, some thread can go on: the pipeline never stands still. */
  lemma NeverStuck(prog: Program, p: Pipe)
    requires Safe(prog, p) && p.bt.r != Idle
    ensures Enabled(p, LzGo) || Enabled(p, BtGo) || Enabled(p, HashGo)
  {
    hide AsAlone;
    if !MayAdvance(p.bt) {
      OneCanGoOn(p.bt);
      if p.hash.r != Idle && !MayAdvance(p.hash) {
        OneCanGoOn(p.hash);
      }
    }
  }

  /** Setting up a stopped pipeline succeeds, and both links are then as when they were new. */
  lemma StoppedIsAsNew(prog: Program, p: Pipe)
    requires prog.Valid() && Safe(prog, p) && p.bt.r == Idle && p.bt.needStart
    ensures var q, n := Do(prog, p, LzInit), InitMt(prog, Created(p.bt.ring, p.hash.ring));
            && !q.failed && Control(q.bt) == Control(n.bt) && Control(q.hash) == Control(n.hash)
            && q.fill == n.fill && q.state == n.state
  {
    hide AsAlone;
  }
}
