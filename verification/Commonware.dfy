/** The mutable engine record of server/commonware.go: the commit callback, the retrying start and the
    rotation, each proved against its effect, and each rotation shown to be a path of the rotator's
    state machine. */
module Commonware {
  import opened Words
  import opened Rotator

  /** What one call of the engine's start function does. */
  datatype Attempt = Succeeds | Fails(leftRunning: bool)

  /** What the outside world answers during one rotation: the participants of the epoch, whether its
      directory can be made, and the outcome of each start attempt. */
  datatype World = World(participants: seq<Byte>, storageOk: bool, attempts: seq<Attempt>)

  ghost predicate ValidWorld(w: World) { |w.attempts| == 15 }

  ghost predicate SomeSucceeds(attempts: seq<Attempt>, from: nat) {
    exists i :: from <= i < |attempts| && attempts[i].Succeeds?
  }

  /** A start of an epoch takes effect when the local key takes part, storage is there and one of the
      attempts succeeds. */
  ghost predicate Starts(c: Config, w: World) {
    !Skipped(c, w.participants) && w.storageOk && SomeSucceeds(w.attempts, 0)
  }

  class CwEngine {
    const c: Config
    var epoch: nat
    var engine: Engine
    var queue: seq<nat>

    constructor (c: Config)
      ensures this.c == c && epoch == 0 && engine == Stopped && queue == []
    {
      this.c := c;
      epoch, engine, queue := 0, Stopped, [];
    }

    method OnCommit(h: int)
      requires c.blocksPerPeriod > 0
      modifies `queue
      ensures queue == AfterCommit(c, old(queue), h)
      ensures h >= 0 ==> Committed(c.blocksPerPeriod, old(queue), queue, h)
      ensures h < 0 ==> queue == old(queue)
    {
      CommitExactly(c, queue, h);
      var cur := PeriodFromHeight(c, h);
      var next := PeriodFromHeight(c, h + 1);
      if next != cur {
        if |queue| < CAPACITY {
          queue := queue + [next];
        }
      }
    }

    /** `pks` are the caller's participants; an empty list is fetched again from the driver. */
    method StartEpoch(ep: nat, pks: seq<Byte>, w: World) returns (ok: bool)
      requires ValidWorld(w)
      requires pks != [] ==> pks == w.participants
      modifies `epoch, `engine
      ensures ok <==> Starts(c, w)
      ensures ok ==> engine == Running(ep, w.participants) && epoch == ep
      ensures !ok ==> engine == Stopped && epoch == old(epoch)
    {
      if engine.Running? {
        engine := Stopped;
      }
      var list := if pks == [] then w.participants else pks;
      var skip := SkipEngine(c, list);
      if skip || !w.storageOk {
        return false;
      }
      var i := 0;
      while i < ATTEMPTS
        invariant 0 <= i <= ATTEMPTS
        invariant engine == Stopped && epoch == old(epoch)
        invariant forall k :: 0 <= k < i ==> w.attempts[k].Fails?
      {
        if w.attempts[i].Succeeds? {
          engine := Running(ep, list);
          epoch := ep;
          return true;
        }
        engine := if w.attempts[i].leftRunning then Running(ep, list) else Stopped;
        if engine.Running? {
          engine := Stopped;
        }
        i := i + 1;
      }
      return false;
    }

    /** Rotation leaves the engine alone when the epoch is not news or the local key sits it out;
        otherwise the old engine is gone, and the new one runs exactly when a start succeeded. */
    method Rotate(ep: nat, w: World) returns (ok: bool)
      requires ValidWorld(w)
      modifies `epoch, `engine
      ensures (engine, epoch) == Rotated(c, old(engine), old(epoch), ep, w)
      ensures !ok <==> !Kept(c, old(engine), old(epoch), ep, w) && !Starts(c, w)
    {
      var cur := epoch;
      if ep <= cur && engine.Running? {
        return true;
      }
      var skip := SkipEngine(c, w.participants);
      if skip {
        return true;
      }
      ok := StartEpoch(ep, w.participants, w);
    }
  }

  ghost predicate Kept(c: Config, engine: Engine, epoch: nat, ep: nat, w: World) {
    (ep <= epoch && engine.Running?) || Skipped(c, w.participants)
  }

  ghost function Rotated(c: Config, engine: Engine, epoch: nat, ep: nat, w: World): (Engine, nat) {
    if Kept(c, engine, epoch, ep, w) then (engine, epoch)
    else if Starts(c, w) then (Running(ep, w.participants), ep)
    else (Stopped, epoch)
  }

  // ---------------------------------------------------------------- rotation as a path of the machine

  ghost predicate Reaches(c: Config, s: State, t: State)
    requires ValidConfig(c)
  {
    exists run :: IsPath(c, run) && run[0] == s && run[|run| - 1] == t
  }

  lemma {:induction false} StepReaches(c: Config, s: State, step: Step, m: State, t: State)
    requires ValidConfig(c) && NextStep(c, s, m, step) && Reaches(c, m, t)
    ensures Reaches(c, s, t)
  {
    hide NextStep;
    var rest :| IsPath(c, rest) && rest[0] == m && rest[|rest| - 1] == t;
    var run := [s] + rest;
    forall i | 0 <= i < |run| - 1
      ensures Next(c, run[i], run[i + 1])
    {
      if i > 0 {
        assert Next(c, rest[i - 1], rest[i - 1 + 1]);
      }
    }
    assert IsPath(c, run) && run[|run| - 1] == t;
  }

  lemma {:induction false} ReachesSelf(c: Config, s: State)
    requires ValidConfig(c)
    ensures Reaches(c, s, s)
  {
    assert IsPath(c, [s]);
  }

  /** Where the retry loop ends up from its current attempt. */
  ghost function AfterRetries(s: State, attempts: seq<Attempt>): State
    requires s.pc.Trying?
  {
    if SomeSucceeds(attempts, s.pc.attempt) then
      s.(engine := Running(s.pc.ep, s.pc.pks), epoch := s.pc.ep, pc := Idle, history := s.history + [s.pc.ep])
    else s.(engine := Stopped, pc := Idle)
  }

  lemma {:induction false} RetriesArePath(c: Config, s: State, attempts: seq<Attempt>)
    requires ValidConfig(c) && |attempts| == ATTEMPTS
    requires s.pc.Trying? && s.pc.attempt < ATTEMPTS && s.pc.ep > 0
    ensures Reaches(c, s, AfterRetries(s, attempts))
    decreases ATTEMPTS - s.pc.attempt
  {
    hide Reaches, HasKey;
    var i := s.pc.attempt;
    if attempts[i].Succeeds? {
      var m := s.(engine := Running(s.pc.ep, s.pc.pks), pc := Started(s.pc.ep, s.pc.pks),
                  history := s.history + [s.pc.ep]);
      var t := m.(epoch := m.pc.ep, pc := Idle);
      ReachesSelf(c, t);
      StepReaches(c, m, Record, t, t);
      StepReaches(c, s, StartSucceeds, m, t);
    } else {
      var left := attempts[i].leftRunning;
      var m := s.(engine := if left then Running(s.pc.ep, s.pc.pks) else Stopped, pc := Failed(s.pc.ep, s.pc.pks, i));
      var n := m.(engine := Stopped, pc := AfterCleanUp(m.pc.ep, m.pc.pks, i));
      var t := AfterRetries(s, attempts);
      assert SomeSucceeds(attempts, i) <==> SomeSucceeds(attempts, i + 1);
      if i + 1 < ATTEMPTS {
        RetriesArePath(c, n, attempts);
        assert AfterRetries(n, attempts) == t;
      } else {
        ReachesSelf(c, n);
      }
      StepReaches(c, m, CleanUp, n, t);
      StepReaches(c, s, StartFails(left), m, t);
    }
  }

  /** The state a rotation leaves when nothing else moves. */
  ghost function AfterRotation(c: Config, s: State, w: World): State
    requires s.pc.Taken?
  {
    var (engine, epoch) := Rotated(c, s.engine, s.epoch, s.pc.ep, w);
    var started := !Kept(c, s.engine, s.epoch, s.pc.ep, w) && Starts(c, w);
    s.(engine := engine, epoch := epoch, pc := Idle, history := if started then s.history + [s.pc.ep] else s.history)
  }

  /** Running `Rotate` undisturbed is one of the interleavings the safety theorem covers. */
  lemma {:induction false} RotationIsPath(c: Config, s: State, w: World)
    requires ValidConfig(c) && ValidWorld(w) && s.pc.Taken? && s.pc.ep > 0
    ensures Reaches(c, s, AfterRotation(c, s, w))
  {
    hide Reaches, HasKey;
    var t := AfterRotation(c, s, w);
    var m := s.(pc := Compared(s.pc.ep, s.epoch));
    var n := m.(pc := AfterCompare(c, m, w.participants));
    if Kept(c, s.engine, s.epoch, s.pc.ep, w) {
      ReachesSelf(c, t);
    } else {
      RestartIsPath(c, n, w, t);
    }
    StepReaches(c, m, Compare(w.participants), n, t);
    StepReaches(c, s, ReadEpoch, m, t);
  }

  lemma {:induction false} RestartIsPath(c: Config, n: State, w: World, t: State)
    requires ValidConfig(c) && ValidWorld(w)
    requires n.pc.Fetched? && n.pc.pks == w.participants && n.pc.ep > 0 && !Skipped(c, w.participants)
    requires t == if w.storageOk
                  then AfterRetries(n.(engine := Stopped, pc := Trying(n.pc.ep, n.pc.pks, 0)), w.attempts)
                  else n.(engine := Stopped, pc := Idle)
    ensures Reaches(c, n, t)
  {
    hide Reaches, HasKey, SomeSucceeds;
    var m := n.(engine := Stopped, pc := Trying(n.pc.ep, n.pc.pks, 0));
    if w.storageOk {
      RetriesArePath(c, m, w.attempts);
    } else {
      ReachesSelf(c, t);
      StepReaches(c, m, StorageFails, t, t);
    }
    StepReaches(c, n, LockAndStop, m, t);
  }
}
