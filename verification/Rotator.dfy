/** The Commonware epoch rotator (server/commonware.go) as a state machine: block commits push period
    numbers into a bounded channel, a goroutine takes them out and restarts the consensus engine, and
    the engine may die at any moment.  Every interleaving of these steps is a run. */
module Rotator {
  import opened Words
  import opened NumberTheory

  /** Blocks per period (a genesis parameter), whether the environment forces the engine off, and the
      local public key, if the signer yields one. */
  datatype Config = Config(blocksPerPeriod: int, forcedOff: bool, keyKnown: bool, key: seq<Byte>)

  // ---------------------------------------------------------------- membership of the local key

  predicate SlotIs(participants: seq<Byte>, slot: nat, key: seq<Byte>) {
    32 * slot + 32 <= |participants| && participants[32 * slot..32 * slot + 32] == key
  }

  /** Some aligned 32-byte slot of the participant list holds the key. */
  ghost predicate HasKey(participants: seq<Byte>, key: seq<Byte>) {
    exists slot: nat :: SlotIs(participants, slot, key)
  }

  ghost predicate Skipped(c: Config, participants: seq<Byte>) {
    c.forcedOff || !c.keyKnown || |c.key| != 32 || !HasKey(participants, c.key)
  }

  method SkipEngine(c: Config, participants: seq<Byte>) returns (skip: bool)
    ensures skip <==> Skipped(c, participants)
    ensures c.forcedOff || !c.keyKnown || |c.key| != 32 ==> skip
  {
    if c.forcedOff || !c.keyKnown {
      return true;
    }
    if |c.key| != 32 || |participants| < 32 {
      return true;
    }
    var i: nat, slot: nat := 0, 0;
    while i + 32 <= |participants|
      invariant i == 32 * slot
      invariant forall j: nat :: j < slot ==> !SlotIs(participants, j, c.key)
    {
      if c.key == participants[i..i + 32] {
        assert SlotIs(participants, slot, c.key);
        return false;
      }
      i, slot := i + 32, slot + 1;
    }
    return true;
  }

  // ---------------------------------------------------------------- the state machine

  ghost predicate ValidConfig(c: Config) { c.blocksPerPeriod > 0 }

  function PeriodFromHeight(c: Config, height: int): nat
    requires c.blocksPerPeriod > 0
  {
    if height < 0 then 0 else height / c.blocksPerPeriod
  }

  datatype Engine = Stopped | Running(epoch: nat, participants: seq<Byte>)

  /** Where the rotator goroutine is: waiting; holding an epoch from the channel; having read the
      current epoch; about to lock and restart; in the retry loop; past a failed start; past a
      successful start but before recording it; gone. */
  datatype Pc =
    | Idle
    | Taken(ep: nat)
    | Compared(ep: nat, cur: nat)
    | Fetched(ep: nat, pks: seq<Byte>)
    | Trying(ep: nat, pks: seq<Byte>, attempt: nat)
    | Failed(ep: nat, pks: seq<Byte>, attempt: nat)
    | Started(ep: nat, pks: seq<Byte>)
    | Halted

  const ATTEMPTS: nat := 15
  const CAPACITY: nat := 4

  /** `history` records the epochs of successful starts; `taken` the last epoch out of the channel. */
  datatype State = State(
    height: int,
    queue: seq<nat>,
    pc: Pc,
    engine: Engine,
    epoch: nat,
    taken: nat,
    history: seq<nat>)

  /** The node comes up at any height with an empty channel, either skipping the engine or starting
      it at epoch 0 with participants that include the local key. */
  ghost predicate Init(c: Config, s: State) {
    && s.height >= 0 && s.queue == [] && s.engine == Stopped && s.epoch == 0 && s.taken == 0 && s.history == []
    && (s.pc == Idle || (s.pc.Trying? && s.pc.ep == 0 && s.pc.attempt == 0 && !Skipped(c, s.pc.pks)))
  }

  datatype Step =
    | Commit(h: int)
    | EngineDies
    | Take
    | ReadEpoch
    | Compare(pks: seq<Byte>)
    | LockAndStop
    | StorageFails
    | StartSucceeds
    | StartFails(leftRunning: bool)
    | CleanUp
    | Record
    | Shutdown

  /** The commit callback pushes the next period at a boundary, or drops it when the channel is full. */
  function AfterCommit(c: Config, queue: seq<nat>, h: int): seq<nat>
    requires c.blocksPerPeriod > 0
  {
    var (cur, next) := (PeriodFromHeight(c, h), PeriodFromHeight(c, h + 1));
    if next != cur && |queue| < CAPACITY then queue + [next] else queue
  }

  /** A failed first start ends the process; a failed restart only ends the rotation. */
  function GivenUp(ep: nat): Pc { if ep == 0 then Halted else Idle }

  function AfterCleanUp(ep: nat, pks: seq<Byte>, attempt: nat): Pc {
    if attempt + 1 < ATTEMPTS then Trying(ep, pks, attempt + 1) else GivenUp(ep)
  }

  ghost predicate NextStep(c: Config, s: State, t: State, step: Step)
    requires ValidConfig(c)
  {
    match step
    case Commit(h) => h > s.height && t == s.(height := h, queue := AfterCommit(c, s.queue, h))
    case EngineDies => s.engine.Running? && t == s.(engine := Stopped)
    case Take =>
      s.pc == Idle && s.queue != [] && t == s.(pc := Taken(s.queue[0]), taken := s.queue[0], queue := s.queue[1..])
    case ReadEpoch => s.pc.Taken? && t == s.(pc := Compared(s.pc.ep, s.epoch))
    case Compare(pks) => s.pc.Compared? && t == s.(pc := AfterCompare(c, s, pks))
    case LockAndStop => s.pc.Fetched? && t == s.(engine := Stopped, pc := Trying(s.pc.ep, s.pc.pks, 0))
    case StorageFails => s.pc.Trying? && s.pc.attempt == 0 && t == s.(pc := GivenUp(s.pc.ep))
    case StartSucceeds =>
      && s.pc.Trying?
      && t == s.(engine := Running(s.pc.ep, s.pc.pks), pc := Started(s.pc.ep, s.pc.pks),
                 history := s.history + [s.pc.ep])
    case StartFails(leftRunning) =>
      && s.pc.Trying?
      && t == s.(engine := if leftRunning then Running(s.pc.ep, s.pc.pks) else Stopped,
                 pc := Failed(s.pc.ep, s.pc.pks, s.pc.attempt))
    case CleanUp =>
      s.pc.Failed? && t == s.(engine := Stopped, pc := AfterCleanUp(s.pc.ep, s.pc.pks, s.pc.attempt))
    case Record => s.pc.Started? && t == s.(epoch := s.pc.ep, pc := Idle)
    case Shutdown => s.pc == Idle && t == s.(engine := Stopped, pc := Halted)
  }

  ghost function AfterCompare(c: Config, s: State, pks: seq<Byte>): Pc
    requires s.pc.Compared?
  {
    if s.pc.ep <= s.pc.cur && s.engine.Running? then Idle
    else if Skipped(c, pks) then Idle
    else Fetched(s.pc.ep, pks)
  }

  ghost predicate Next(c: Config, s: State, t: State)
    requires ValidConfig(c)
  {
    exists step :: NextStep(c, s, t, step)
  }

  /** A run of the machine from any of its states. */
  ghost predicate IsPath(c: Config, run: seq<State>)
    requires ValidConfig(c)
  {
    run != [] && forall i :: 0 <= i < |run| - 1 ==> Next(c, run[i], run[i + 1])
  }

  ghost predicate IsRun(c: Config, run: seq<State>)
    requires ValidConfig(c)
  {
    IsPath(c, run) && Init(c, run[0])
  }

  // ---------------------------------------------------------------- the invariant

  ghost predicate Ascending(q: seq<nat>) {
    forall i, j :: 0 <= i < j < |q| ==> q[i] < q[j]
  }

  ghost predicate Between(q: seq<nat>, lo: nat, hi: nat) {
    forall i :: 0 <= i < |q| ==> lo < q[i] <= hi
  }

  ghost predicate AtMost(q: seq<nat>, hi: nat) {
    forall i :: 0 <= i < |q| ==> q[i] <= hi
  }

  ghost predicate Below(q: seq<nat>, hi: nat) {
    forall i :: 0 <= i < |q| ==> q[i] < hi
  }

  function Newest(history: seq<nat>): nat { if history == [] then 0 else history[|history| - 1] }

  predicate Busy(pc: Pc) { !pc.Idle? && !pc.Halted? }

  /** The channel is short and ascending, and everything in it is newer than what was taken out. */
  ghost predicate QueueInv(c: Config, s: State)
    requires ValidConfig(c)
  {
    && s.height >= 0
    && |s.queue| <= CAPACITY && Ascending(s.queue)
    && s.taken <= PeriodFromHeight(c, s.height + 1)
    && Between(s.queue, s.taken, PeriodFromHeight(c, s.height + 1))
  }

  /** Successful starts are strictly increasing and end with the recorded epoch. */
  ghost predicate HistoryInv(s: State) {
    && Ascending(s.history) && AtMost(s.history, s.taken)
    && (Busy(s.pc) ==> s.pc.ep == s.taken)
    && (Busy(s.pc) && !s.pc.Started? ==> Below(s.history, s.taken))
    && (s.pc.Started? ==> s.history != [] && Newest(s.history) == s.pc.ep)
    && (!s.pc.Started? ==> s.epoch == Newest(s.history))
    && (s.pc.Compared? ==> s.pc.cur == s.epoch)
    && (s.pc.Taken? || s.pc.Compared? || s.pc.Fetched? ==> s.pc.ep > 0)
  }

  /** A running engine has the recorded epoch and knows the local key; inside the critical section it
      has the epoch being started. */
  ghost predicate EngineInv(c: Config, s: State) {
    && (s.engine.Running? ==> HasKey(s.engine.participants, c.key))
    && (s.engine.Running? && !s.pc.Started? && !s.pc.Failed? ==>
          s.history != [] && s.engine.epoch == s.epoch)
    && (s.engine.Running? && (s.pc.Started? || s.pc.Failed?) ==> s.engine.epoch == s.pc.ep)
    && (s.pc.Trying? ==> s.engine == Stopped)
    && (s.pc.Fetched? || s.pc.Trying? || s.pc.Failed? || s.pc.Started? ==> HasKey(s.pc.pks, c.key))
    && (s.pc.Trying? || s.pc.Failed? ==> s.pc.attempt < ATTEMPTS)
  }

  ghost predicate Inv(c: Config, s: State)
    requires ValidConfig(c)
  {
    QueueInv(c, s) && HistoryInv(s) && EngineInv(c, s)
  }

  // ---------------------------------------------------------------- every step keeps it

  /** The period of a height counts the whole periods before it. */
  lemma {:induction false} PeriodCounts(c: Config, height: int)
    requires ValidConfig(c) && height >= 0
    ensures PeriodFromHeight(c, height) * c.blocksPerPeriod <= height
         < (PeriodFromHeight(c, height) + 1) * c.blocksPerPeriod
  {
    var (h, n) := (height, c.blocksPerPeriod);
    assert h == n * (h / n) + h % n;
  }

  lemma {:induction false} NextMultiple(h: nat, n: nat)
    requires n > 0
    ensures (h + 1) / n != h / n <==> (h + 1) % n == 0
  {
    var (q, r) := (h / n, h % n);
    assert h == q * n + r;
    if r + 1 < n {
      DivModUnique(h + 1, n, q, r + 1);
    } else {
      assert h + 1 == (q + 1) * n + 0;
      DivModUnique(h + 1, n, q + 1, 0);
    }
  }

  /** What a commit leaves in the channel: the period that opens at the next height, exactly when that
      height is a multiple of the blocks per period and there is room. */
  ghost predicate Committed(blocks: int, before: seq<nat>, after: seq<nat>, h: int)
    requires blocks > 0
  {
    after == if (h + 1) % blocks == 0 && |before| < 4 then before + [(h + 1) / blocks] else before
  }

  lemma {:induction false} CommitExactly(c: Config, queue: seq<nat>, h: int)
    requires ValidConfig(c)
    ensures h >= 0 ==> Committed(c.blocksPerPeriod, queue, AfterCommit(c, queue, h), h)
    ensures h < 0 ==> AfterCommit(c, queue, h) == queue
  {
    if h >= 0 { NextMultiple(h, c.blocksPerPeriod); }
  }

  /** The same of every commit of the state machine. */
  lemma {:induction false} CommitStep(c: Config, s: State, t: State, h: int)
    requires ValidConfig(c) && h >= 0 && NextStep(c, s, t, Commit(h))
    ensures Committed(c.blocksPerPeriod, s.queue, t.queue, h) && t.height == h > s.height
    ensures t == s.(height := t.height, queue := t.queue)
  {
    hide AfterCommit, Committed;
    CommitExactly(c, s.queue, h);
  }

  /** Heights only grow, so a boundary opens a later period than any boundary before it. */
  lemma {:induction false} LaterBoundary(c: Config, height: int, h: int)
    requires ValidConfig(c) && 0 <= height < h
    ensures PeriodFromHeight(c, height + 1) <= PeriodFromHeight(c, h + 1)
    ensures PeriodFromHeight(c, h) != PeriodFromHeight(c, h + 1) ==>
              PeriodFromHeight(c, height + 1) < PeriodFromHeight(c, h + 1)
  {
    DivMonotone(height + 1, h, c.blocksPerPeriod);
    DivMonotone(h, h + 1, c.blocksPerPeriod);
  }

  lemma {:induction false} DivMonotone(a: int, b: int, d: int)
    requires 0 <= a <= b && d > 0
    ensures a / d <= b / d
  {
    if a / d > b / d {
      MulMonotone(b / d + 1, a / d, d);
    }
  }

  lemma {:induction false} QueueKept(c: Config, s: State, t: State, step: Step)
    requires ValidConfig(c) && QueueInv(c, s) && NextStep(c, s, t, step)
    ensures QueueInv(c, t)
  {
    hide PeriodFromHeight;
    if step.Commit? {
      LaterBoundary(c, s.height, step.h);
    }
  }

  lemma {:induction false} HistoryKept(c: Config, s: State, t: State, step: Step)
    requires ValidConfig(c) && Inv(c, s) && NextStep(c, s, t, step)
    ensures HistoryInv(t)
  {
    hide PeriodFromHeight, AfterCommit, HasKey;
  }

  lemma {:induction false} EngineKept(c: Config, s: State, t: State, step: Step)
    requires ValidConfig(c) && Inv(c, s) && NextStep(c, s, t, step)
    ensures EngineInv(c, t)
  {
    hide PeriodFromHeight, AfterCommit, HasKey, Ascending, Between, AtMost, Below;
  }

  lemma {:induction false} InvKept(c: Config, s: State, t: State)
    requires ValidConfig(c) && Inv(c, s) && Next(c, s, t)
    ensures Inv(c, t)
  {
    hide NextStep, QueueInv, HistoryInv, EngineInv;
    var step :| NextStep(c, s, t, step);
    QueueKept(c, s, t, step);
    HistoryKept(c, s, t, step);
    EngineKept(c, s, t, step);
  }

  // ---------------------------------------------------------------- safety of every run

  lemma {:induction false} RunInv(c: Config, run: seq<State>, i: nat)
    requires ValidConfig(c) && IsRun(c, run) && i < |run|
    ensures Inv(c, run[i])
  {
    if i > 0 {
      RunInv(c, run, i - 1);
      hide Inv, Next;
      assert Next(c, run[i - 1], run[i - 1 + 1]);
      InvKept(c, run[i - 1], run[i]);
    }
  }

  /** What every reachable state of every interleaving satisfies. */
  lemma {:induction false} Safety(c: Config, run: seq<State>, i: nat)
    requires ValidConfig(c) && IsRun(c, run) && i < |run|
    ensures Ascending(run[i].history)
    ensures |run[i].queue| <= 4 && Ascending(run[i].queue) && Below(run[i].history, Newest(run[i].history) + 1)
    ensures run[i].engine.Running? ==> HasKey(run[i].engine.participants, c.key)
    ensures run[i].engine.Running? && !run[i].pc.Started? && !run[i].pc.Failed? ==>
              run[i].engine.epoch == run[i].epoch == Newest(run[i].history)
  {
    hide IsRun, PeriodFromHeight;
    RunInv(c, run, i);
  }

  /** The early return of `rotate` for epochs not above the current one is never taken: whatever comes
      out of the channel is newer than every epoch started before. */
  lemma {:induction false} RotationsAreNews(c: Config, run: seq<State>, i: nat)
    requires ValidConfig(c) && IsRun(c, run) && i < |run| && run[i].pc.Compared?
    ensures run[i].pc.cur < run[i].pc.ep
  {
    hide IsRun, PeriodFromHeight;
    RunInv(c, run, i);
  }

  lemma {:induction false} HistoryStep(c: Config, s: State, t: State)
    requires ValidConfig(c) && Next(c, s, t)
    ensures s.history <= t.history
  {
    hide AfterCommit;
  }

  /** The record of successful starts only ever grows. */
  lemma {:induction false} HistoryGrows(c: Config, run: seq<State>, i: nat, j: nat)
    requires ValidConfig(c) && IsPath(c, run) && i <= j < |run|
    ensures run[i].history <= run[j].history
  {
    hide Next;
    if i < j {
      HistoryGrows(c, run, i, j - 1);
      assert Next(c, run[j - 1], run[j - 1 + 1]);
      HistoryStep(c, run[j - 1], run[j]);
    }
  }

  // ---------------------------------------------------------------- the end of the process

  /** A start gives up when its storage or its fifteenth attempt fails; the first one, of epoch 0, ends
      the process, and any other only the rotation. */
  lemma {:induction false} GivesUp(c: Config, s: State, t: State, step: Step)
    requires ValidConfig(c) && NextStep(c, s, t, step)
    ensures step.StorageFails? ==> t.pc == (if s.pc.ep == 0 then Halted else Idle)
    ensures step.CleanUp? && s.pc.attempt >= 14 ==> t.pc == (if s.pc.ep == 0 then Halted else Idle)
    ensures step.CleanUp? && s.pc.attempt < 14 ==> t.pc == Trying(s.pc.ep, s.pc.pks, s.pc.attempt + 1)
  {
    hide PeriodFromHeight, AfterCommit, HasKey;
  }

  /** After the end of the process nothing is started any more. */
  lemma {:induction false} HaltedForever(c: Config, run: seq<State>, i: nat)
    requires ValidConfig(c) && IsPath(c, run) && i < |run| && run[0].pc == Halted
    ensures run[i].pc == Halted && run[i].history == run[0].history && run[i].epoch == run[0].epoch
    ensures run[i].engine == Stopped || run[i].engine == run[0].engine
  {
    hide PeriodFromHeight, AfterCommit, HasKey;
    if i > 0 {
      HaltedForever(c, run, i - 1);
      assert Next(c, run[i - 1], run[i - 1 + 1]);
    }
  }

  // ---------------------------------------------------------------- a dropped period is lost

  /** Period p has come and gone without a trace in the channel, the rotator or the history. */
  ghost predicate Missed(c: Config, s: State, p: nat)
    requires ValidConfig(c)
  {
    && p > 0 && p <= PeriodFromHeight(c, s.height + 1)
    && p !in s.queue && p !in s.history && p != s.taken
    && s.height >= 0 && (Busy(s.pc) ==> s.pc.ep == s.taken)
  }

  lemma {:induction false} MissedKept(c: Config, s: State, t: State, step: Step, p: nat)
    requires ValidConfig(c) && Missed(c, s, p) && NextStep(c, s, t, step)
    ensures Missed(c, t, p)
  {
    hide PeriodFromHeight, HasKey;
    if step.Commit? {
      LaterBoundary(c, s.height, step.h);
    }
  }

  /** A boundary loses its period exactly when it finds the channel full. */
  lemma {:induction false} DroppedIsMissed(c: Config, s: State, t: State, h: int)
    requires ValidConfig(c) && Inv(c, s) && NextStep(c, s, t, Commit(h))
    requires PeriodFromHeight(c, h + 1) != PeriodFromHeight(c, h)
    ensures Missed(c, t, PeriodFromHeight(c, h + 1)) <==> |s.queue| == CAPACITY
  {
    hide PeriodFromHeight;
    LaterBoundary(c, s.height, h);
  }

  /** When a boundary finds the channel full, its period is never started, in this or any later state. */
  lemma {:induction false} DroppedNeverStarts(c: Config, run: seq<State>, i: nat, j: nat, h: int)
    requires ValidConfig(c) && IsRun(c, run) && i + 1 <= j < |run|
    requires NextStep(c, run[i], run[i + 1], Commit(h))
    requires PeriodFromHeight(c, h + 1) != PeriodFromHeight(c, h) && |run[i].queue| == CAPACITY
    ensures Missed(c, run[j], PeriodFromHeight(c, h + 1))
    ensures PeriodFromHeight(c, h + 1) !in run[j].history
    decreases j
  {
    hide PeriodFromHeight, NextStep, Inv;
    if j == i + 1 {
      RunInv(c, run, i);
      DroppedIsMissed(c, run[i], run[i + 1], h);
    } else {
      DroppedNeverStarts(c, run, i, j - 1, h);
      assert Next(c, run[j - 1], run[j - 1 + 1]);
      var step :| NextStep(c, run[j - 1], run[j], step);
      MissedKept(c, run[j - 1], run[j], step, PeriodFromHeight(c, h + 1));
    }
  }

  /** With one block per period: four commits fill the channel of a node that skips the engine, and the
      fifth finds it full. */
  function Tiny(): Config { Config(1, true, false, []) }

  function FilledUpTo(h: nat): State {
    State(h, seq(if h < CAPACITY then h else CAPACITY, i => i + 2), Idle, Stopped, 0, 0, [])
  }

  function FiveCommits(): seq<State> { seq(6, h requires 0 <= h => FilledUpTo(h)) }

  lemma {:induction false} CommitFills(h: nat)
    ensures NextStep(Tiny(), FilledUpTo(h), FilledUpTo(h + 1), Commit(h + 1))
  {
    assert PeriodFromHeight(Tiny(), h + 1) == h + 1 && PeriodFromHeight(Tiny(), h + 2) == h + 2;
    if h < CAPACITY {
      assert FilledUpTo(h + 1).queue == FilledUpTo(h).queue + [h + 2];
    }
  }

  /** A run in which period 6 is dropped, and so never started. */
  lemma {:induction false} SixthPeriodLost()
    ensures ValidConfig(Tiny()) && IsRun(Tiny(), FiveCommits())
    ensures FiveCommits()[4].queue == [2, 3, 4, 5]
    ensures NextStep(Tiny(), FiveCommits()[4], FiveCommits()[5], Commit(5))
    ensures Missed(Tiny(), FiveCommits()[5], 6)
  {
    var (c, run) := (Tiny(), FiveCommits());
    forall i | 0 <= i < |run| - 1
      ensures Next(c, run[i], run[i + 1])
    {
      CommitFills(i);
    }
    CommitFills(4);
    assert run[4].queue == [2, 3, 4, 5];
    assert PeriodFromHeight(c, 6) == 6 && PeriodFromHeight(c, 5) == 5;
    hide Next, Missed, NextStep, FiveCommits;
    DroppedNeverStarts(c, run, 4, 5, 5);
  }
}
