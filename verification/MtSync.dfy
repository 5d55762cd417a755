/**
 One link of the pipeline: a thread that writes blocks and a thread that reads them, with two
 counting semaphores, two events and a lock between them (`CMtSync`). Every statement that
 touches shared state is a step; steps of the two threads interleave freely.
 */
module MtSync {

  import opened Powers
  import opened Threads

  /** Where the reading thread is inside `MtSync_GetNextBlock` or `MtSync_StopWriting`. */
  datatype ReaderAt =
    | Idle
    | Resetting | Starting
    | Freeing
    | Taking | Locking
    | Telling | Releasing | Awaiting | Restoring

  /** Where the writing thread is in its loop. */
  datatype WriterAt = Asleep | Looping | Checking | Writing | Ending

  /**
   The state of a link of `n` blocks in a ring. `spare` and `filled` are the counters of the two
   semaphores, for free and for filled blocks; `blockIn` and `blockOut` are the block numbers that
   the reader and the writer work with; `halted` is set when one of the checks of the
   buffer lock ends the process. The last line is for the proofs: `log` holds the blocks that were
   written in this session, `seen` those that were read, and `acquired`, `begun`, `taken` and
   `freed` count the passages through the semaphores.
   */
  datatype Sync = Sync(
    n: nat, spare: nat, filled: nat, canStart: bool, wasStopped: bool,
    needStart: bool, stopWriting: bool, csWasEntered: bool, halted: bool,
    numProcessedBlocks: nat, blockIn: nat, blockIndex: nat, blockOut: nat,
    r: ReaderAt, w: WriterAt, ring: seq<int>,
    ready: bool, log: seq<int>, seen: seq<int>, acquired: nat, begun: nat, taken: nat, freed: nat)

  function Word(x: nat): nat {
    x % 0x1_0000_0000
  }

  // ---------- Steps of the reading thread ----------

  /** The link as `MtSync_Create` leaves it. */
  function Created(n: nat, ring: seq<int>): Sync {
    Sync(n, 0, 0, false, false, true, false, false, false, 0, 0, 0, 0, Idle, Asleep, ring,
         false, [], [], 0, 0, 0, 0)
  }

  /** `MtSync_Init` fails unless this holds. */
  predicate MayInit(s: Sync) {
    s.needStart && !s.csWasEntered
  }

  function Init(s: Sync): Sync {
    s.(spare := s.n, filled := 0, ready := true)
  }

  function Lock(s: Sync): Sync {
    if s.csWasEntered then s.(halted := true) else s.(csWasEntered := true)
  }

  function Unlock(s: Sync): Sync {
    if !s.csWasEntered then s.(halted := true) else s.(csWasEntered := false)
  }

  /** `MtSync_GetNextBlock`, up to the first semaphore or event. */
  function CallNext(s: Sync): Sync {
    if s.needStart then
      s.(halted := s.halted || s.csWasEntered, numProcessedBlocks := 1, blockIn := 0, needStart := false, stopWriting := false,
      ready := false, log := [], seen := [], acquired := 0, begun := 0, taken := 0, freed := 0, r := Resetting)
    else
      Unlock(s).(blockIn := s.numProcessedBlocks, numProcessedBlocks := Word(s.numProcessedBlocks + 1), r := Freeing)
  }

  /** `MtSync_StopWriting`, up to the message. */
  function CallStop(s: Sync): Sync {
    if s.needStart then s
    else if s.csWasEntered then Unlock(s).(r := Telling)
    else s.(r := Telling)
  }

  /** The reading thread waits where a semaphore is empty or an event not set. */
  predicate MayAdvance(s: Sync) {
    && s.r != Idle
    && (s.r == Taking ==> s.filled > 0)
    && (s.r == Awaiting ==> s.wasStopped)
  }

  /** The next statement of the reading thread; locking the buffer also reads the block. */
  function Advance(s: Sync): Sync
    requires MayAdvance(s) && |s.ring| == s.n > 0
  {
    match s.r
    case Resetting => s.(wasStopped := false, r := Starting)
    case Starting => s.(canStart := true, r := Taking)
    case Freeing => s.(spare := Released(s.spare, s.n), freed := s.freed + 1, r := Taking)
    case Taking => s.(filled := s.filled - 1, taken := s.taken + 1, r := Locking)
    case Locking => Lock(s).(seen := s.seen + [s.ring[s.blockIn % s.n]], r := Idle)
    case Telling => s.(stopWriting := true, r := Releasing)
    case Releasing => s.(spare := Released(s.spare, s.n), freed := s.freed + 1, r := Awaiting)
    case Awaiting => s.(wasStopped := false, r := Restoring)
    case Restoring => s.(needStart := true, r := Idle)
    case Idle => s
  }

  // ---------- Steps of the writing thread ----------

  predicate MayWork(s: Sync) {
    && (s.w == Asleep ==> s.canStart)
    && (s.w == Looping ==> s.spare > 0)
  }

  /** The next statement of the writing thread; `v` is the block that it completes. */
  function Work(s: Sync, v: int): Sync
    requires MayWork(s) && |s.ring| == s.n > 0
  {
    match s.w
    case Asleep => s.(canStart := false, blockIndex := 0, w := Looping)
    case Looping => s.(spare := s.spare - 1, acquired := s.acquired + 1, w := Checking)
    case Checking =>
      if s.stopWriting then s.(w := Ending)
      else s.(blockOut := s.blockIndex, blockIndex := Word(s.blockIndex + 1), begun := s.begun + 1, w := Writing)
    case Writing =>
      Scribble(s, v).(log := s.log + [v], filled := Released(s.filled, s.n), w := Looping)
    case Ending => s.(wasStopped := true, w := Asleep)
  }

  /** Anything may stand in the block while it is being written. */
  function Scribble(s: Sync, v: int): Sync
    requires |s.ring| == s.n > 0
  {
    s.(ring := s.ring[s.blockOut % s.n := v])
  }

  // ---------- What every step keeps ----------

  function One(b: bool): nat {
    if b then 1 else 0
  }

  /** The reading thread has a block in hand, or is on the way from one to the next. */
  predicate Holding(r: ReaderAt) {
    r == Idle || r == Locking || r == Freeing || r == Telling || r == Releasing
  }

  predicate Expecting(r: ReaderAt) {
    r == Resetting || r == Starting || r == Taking
  }

  /** The writing thread has passed its semaphore without beginning a block. */
  predicate Passed(s: Sync) {
    s.w == Checking || s.w == Ending || s.wasStopped
  }

  /** Outside a session: nothing is under way, and after `MtSync_Init` all blocks are free. */
  ghost predicate AtRest(s: Sync) {
    && s.r == Idle && s.w == Asleep && !s.canStart && !s.wasStopped && !s.csWasEntered
    && s.spare <= s.n && s.filled <= s.n
    && (s.ready ==> s.spare == s.n && s.filled == 0)
  }

  /** The passages through the semaphores, against the places of the two threads. */
  ghost predicate Counts(s: Sync) {
    && s.filled + s.taken == |s.log|
    && s.spare + s.acquired == s.n + s.freed
    && s.taken == s.freed + One(Holding(s.r))
    && s.begun == |s.log| + One(s.w == Writing)
    && s.begun <= s.acquired
    && (s.r != Restoring ==> s.acquired == s.begun + One(Passed(s)))
  }

  ghost predicate Indices(s: Sync) {
    && s.numProcessedBlocks == Word(s.taken + One(Expecting(s.r) || s.r == Freeing))
    && (s.r == Freeing || Expecting(s.r) ==> s.blockIn == Word(s.taken))
    && (s.r != Freeing && !Expecting(s.r) ==> s.taken > 0 && s.blockIn == Word((s.taken - 1) as nat))
    && (s.w != Asleep ==> s.blockIndex == Word(s.begun))
    && (s.w == Writing ==> s.begun > 0 && s.blockOut == Word((s.begun - 1) as nat))
  }

  ghost predicate Flags(s: Sync) {
    && (s.stopWriting <==> s.r == Releasing || s.r == Awaiting || s.r == Restoring)
    && (s.r == Resetting || s.r == Starting || s.canStart ==> s.w == Asleep && !s.wasStopped && s.acquired == 0)
    && (s.r == Resetting || s.r == Starting ==> !s.canStart)
    && (s.wasStopped || s.w == Ending ==> s.r == Releasing || s.r == Awaiting)
    && (s.wasStopped ==> s.w == Asleep)
    && (s.w == Asleep ==> s.canStart || s.wasStopped || s.r == Resetting || s.r == Starting || s.r == Restoring)
    && (s.r == Restoring ==> s.w == Asleep && !s.canStart && !s.wasStopped)
    && (s.csWasEntered ==> s.r == Idle)
    && (s.r == Awaiting && (s.w == Looping || s.w == Writing) ==> s.spare > 0)
  }

  /** The blocks from number `from` on stand in their places in the ring. */
  ghost predicate InPlace(n: nat, ring: seq<int>, log: seq<int>, from: nat)
    requires |ring| == n > 0
  {
    forall i :: from <= i < |log| ==> ring[i % n] == log[i]
  }

  /** From the block in hand to the last one written, every block is in its place. */
  ghost predicate Contents(s: Sync)
    requires |s.ring| == s.n > 0
  {
    InPlace(s.n, s.ring, s.log, s.freed) && |s.seen| + One(s.r == Locking) == s.taken && s.seen <= s.log
  }

  /** The number of blocks divides the range of a 32-bit index, and there is at least one. */
  ghost predicate Sized(s: Sync) {
    |s.ring| == s.n > 0 && DividesWord(s.n) && !s.halted
  }

  predicate DividesWord(n: nat)
    requires n > 0
  {
    0x1_0000_0000 % n == 0
  }

  ghost predicate Inv(s: Sync) {
    Sized(s) && if s.needStart then AtRest(s) else !s.ready && Counts(s) && Indices(s) && Flags(s) && Contents(s)
  }

  // ---------- Proofs, step by step ----------

  /** A 32-bit block index leads to the same place in the ring as an unbounded one. */
  lemma PlaceOfWord(k: nat, n: nat)
    requires n > 0 && DividesWord(n)
    ensures Word(k) % n == k % n
  {
    WrapInRing(k, n, 0x1_0000_0000);
  }

  lemma WrapInRing(k: nat, n: nat, m: nat)
    requires n > 0 && m > 0 && m % n == 0
    ensures k % m % n == k % n
  {
    var c := m / n;
    assert m == n * c;
    ModOfMod(k, n, c);
  }

  lemma WordStep(k: nat)
    ensures Word(Word(k) + 1) == Word(k + 1)
  {
  }

  lemma WordSmall()
    ensures Word(0) == 0 && Word(1) == 1
  {
  }

  lemma NothingInPlace(n: nat, ring: seq<int>)
    requires |ring| == n > 0
    ensures InPlace(n, ring, [], 0)
  {
  }

  lemma RingApart(a: nat, b: nat, n: nat)
    requires a < b < a + n
    ensures a % n != b % n
  {
    if a % n == b % n {
      var d := b / n - a / n;
      NoMultipleBetween(n, d);
      assert false;
    }
  }

  lemma NoMultipleBetween(n: nat, d: int)
    ensures n * d <= 0 || n <= n * d
  {
    if d >= 1 {
      assert n * d == n + n * (d - 1);
      assert n * (d - 1) >= 0;
    }
  }

  lemma InitKeeps(s: Sync)
    requires Inv(s) && MayInit(s)
    ensures Inv(Init(s)) && Init(s).ready
  {
  }

  lemma StartKeeps(s: Sync)
    requires Inv(s) && s.needStart && s.ready
    ensures Inv(CallNext(s))
  {
    hide Word, DividesWord, InPlace;
    WordSmall();
    NothingInPlace(s.n, s.ring);
  }

  /** A new session may begin when the link is ready, the next block be asked for when one is in hand. */
  lemma CallNextKeeps(s: Sync)
    requires Inv(s) && s.r == Idle && if s.needStart then s.ready else s.csWasEntered
    ensures Inv(CallNext(s))
  {
    hide Word, DividesWord, InPlace;
    if s.needStart {
      StartKeeps(s);
    } else {
      WordStep(s.taken);
    }
  }

  lemma CallStopKeeps(s: Sync)
    requires Inv(s) && s.r == Idle
    ensures Inv(CallStop(s))
  {
    hide Word, DividesWord, InPlace;
  }

  /** A thread may give the buffer up and lock it again between two blocks. */
  lemma UnlockKeeps(s: Sync)
    requires Inv(s) && s.csWasEntered
    ensures Inv(Unlock(s))
  {
    hide Word, DividesWord, InPlace;
  }

  lemma LockKeeps(s: Sync)
    requires Inv(s) && s.r == Idle && !s.needStart && !s.csWasEntered
    ensures Inv(Lock(s))
  {
    hide Word, DividesWord, InPlace;
  }

  lemma AdvanceIndices(s: Sync)
    requires Inv(s) && MayAdvance(s) && s.r != Restoring
    ensures Indices(Advance(s))
  {
    hide Word, DividesWord, Contents, Released;
  }

  lemma AdvanceFlags(s: Sync)
    requires Inv(s) && MayAdvance(s) && s.r != Restoring
    ensures Flags(Advance(s)) && !Advance(s).halted
  {
    hide Word, DividesWord, Contents, Indices;
  }

  lemma AdvanceCounts(s: Sync)
    requires Inv(s) && MayAdvance(s) && s.r != Restoring
    ensures Counts(Advance(s))
  {
    hide Word, DividesWord, Contents, Indices;
  }

  lemma AdvanceContents(s: Sync)
    requires Inv(s) && MayAdvance(s) && s.r != Restoring
    ensures Contents(Advance(s))
  {
    hide Word, DividesWord;
    if s.r == Locking {
      PlaceOfWord((s.taken - 1) as nat, s.n);
    }
  }

  /** Every step of the reading thread keeps the invariant. */
  lemma AdvanceKeeps(s: Sync)
    requires Inv(s) && MayAdvance(s)
    ensures Inv(Advance(s))
  {
    hide Word, DividesWord, InPlace;
    if s.r != Restoring {
      AdvanceIndices(s);
      AdvanceFlags(s);
      AdvanceCounts(s);
      AdvanceContents(s);
      hide Counts, Indices, Flags, Contents;
    }
  }

  lemma WorkIndices(s: Sync, v: int)
    requires Inv(s) && !s.needStart && MayWork(s)
    ensures Indices(Work(s, v))
  {
    hide Word, DividesWord, Contents, Released;
    if s.w == Asleep {
      WordSmall();
    } else if s.w == Checking {
      WordStep(s.begun);
    }
  }

  lemma WorkFlags(s: Sync, v: int)
    requires Inv(s) && !s.needStart && MayWork(s)
    ensures Flags(Work(s, v)) && Counts(Work(s, v)) && !Work(s, v).halted
  {
    hide Word, DividesWord, Contents, Indices;
  }

  /** The block being written is not among those that are kept: fewer than `n` blocks are. */
  lemma OthersStay(s: Sync, v: int)
    requires Inv(s) && !s.needStart && s.w == Writing
    ensures InPlace(s.n, Scribble(s, v).ring, s.log, s.freed)
    ensures InPlace(s.n, Scribble(s, v).ring, s.log + [v], s.freed)
  {
    hide Word, DividesWord;
    PlaceOfWord(|s.log|, s.n);
    forall i: nat | s.freed <= i < |s.log| ensures i % s.n != |s.log| % s.n {
      RingApart(i, |s.log|, s.n);
    }
  }

  lemma ScribbleKeeps(s: Sync, v: int)
    requires Inv(s) && !s.needStart && s.w == Writing
    ensures Inv(Scribble(s, v))
  {
    OthersStay(s, v);
    hide Word, DividesWord, InPlace;
  }

  /** Every step of the writing thread keeps the invariant. */
  lemma WorkKeeps(s: Sync, v: int)
    requires Inv(s) && !s.needStart && MayWork(s)
    ensures Inv(Work(s, v))
  {
    hide Word, DividesWord, InPlace;
    WorkIndices(s, v);
    WorkFlags(s, v);
    if s.w == Writing {
      OthersStay(s, v);
    }
    hide Counts, Indices, Flags;
  }

  // ---------- What the invariant says ----------

  /**
   In a session every block is free, filled, in the hands of the reader or in the hands of the
   writer; a semaphore never counts beyond its maximum, so that no release is refused, not even
   the one of `MtSync_StopWriting`.
   */
  lemma BlocksAreConserved(s: Sync)
    requires Inv(s) && !s.needStart
    ensures s.r != Restoring ==>
              s.spare + s.filled + One(Holding(s.r)) + One(s.w == Writing || Passed(s)) == s.n
    ensures s.spare <= s.n && s.filled <= s.n
    ensures s.r == Freeing || s.r == Releasing ==> s.spare < s.n
    ensures s.w == Writing ==> s.filled < s.n
  {
    hide Word, DividesWord, InPlace;
  }

  /**
   What the reader has in hand is the block that was written under the same number, it is the
   last one that the reader saw, and the writer is at work on another place of the ring.
   */
  lemma HeldBlockStays(s: Sync)
    requires Inv(s) && !s.needStart && s.r == Idle
    ensures |s.seen| == s.taken > 0 && s.seen <= s.log
    ensures s.ring[s.blockIn % s.n] == s.log[s.taken - 1] == s.seen[s.taken - 1]
    ensures s.w == Writing ==> s.blockOut % s.n != s.blockIn % s.n
  {
    hide Word, DividesWord;
    PlaceOfWord((s.taken - 1) as nat, s.n);
    if s.w == Writing {
      PlaceOfWord(|s.log|, s.n);
      RingApart((s.taken - 1) as nat, |s.log|, s.n);
    }
  }

  /** While the reading thread waits, the writing thread can go on. */
  lemma OneCanGoOn(s: Sync)
    requires Inv(s) && s.r != Idle && !MayAdvance(s)
    ensures MayWork(s)
  {
    hide Word, DividesWord, InPlace;
  }

  /** The semaphores, events, flags and places of the two threads: what a session starts from. */
  function Control(s: Sync): (nat, nat, bool, bool, bool, bool, ReaderAt, WriterAt, bool) {
    (s.spare, s.filled, s.canStart, s.wasStopped, s.needStart, s.csWasEntered, s.r, s.w, s.ready)
  }

  /** A link that was stopped can be initialized, and is then as a new one. */
  lemma StopThenInit(s: Sync)
    requires Inv(s) && s.r == Restoring
    ensures MayInit(Advance(s)) && Inv(Init(Advance(s)))
    ensures Control(Init(Advance(s))) == Control(Init(Created(s.n, s.ring)))
  {
    hide Word, DividesWord, InPlace;
    AdvanceKeeps(s);
  }
}
