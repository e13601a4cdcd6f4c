/** The faucet's rate limiter (app/testutils/faucet.go): one map from addresses to admission times
    under a mutex, a slow send between admission and reply, and a rollback when the send fails.  The
    second half is a state machine over every interleaving of concurrent requests. */
module Faucet {
  type Address = string

  // ---------------------------------------------------------------- the limiter

  /** An earlier entry younger than the window turns the request away. */
  predicate Limited(entries: map<Address, int>, window: int, key: Address, now: int) {
    key in entries && now - entries[key] < window
  }

  datatype Status = Preflight | BadRequest | TooManyRequests | InternalError | Paid

  class RateLimiter {
    const window: int
    var entries: map<Address, int>

    constructor (window: int)
      ensures this.window == window && entries == map[]
    {
      this.window := window;
      entries := map[];
    }

    /** The clock is read once for the test and once more for the entry. */
    method Allow(key: Address, tested: int, stamped: int) returns (ok: bool)
      modifies `entries
      ensures ok <==> key !in old(entries) || tested - old(entries)[key] >= window
      ensures entries == if ok then old(entries)[key := stamped] else old(entries)
    {
      if key in entries {
        var t := entries[key];
        if tested - t < window {
          return false;
        }
      }
      entries := entries[key := stamped];
      return true;
    }

    method GiveBack(key: Address)
      modifies `entries
      ensures entries == old(entries) - {key}
    {
      entries := entries - {key};
    }

    /** One request served with nothing else going on: only a paid request leaves a new entry, and a
        failed one leaves the address free. */
    method Serve(options: bool, address: Address, wellFormed: bool, tested: int, stamped: int, sent: bool)
      returns (status: Status)
      modifies `entries
      ensures options ==> status == Preflight
      ensures !options && (address == "" || !wellFormed) ==> status == BadRequest
      ensures !options && address != "" && wellFormed ==>
        status == if Limited(old(entries), window, address, tested) then TooManyRequests
                  else if sent then Paid else InternalError
      ensures entries == if status == Paid then old(entries)[address := stamped]
                         else if status == InternalError then old(entries) - {address} else old(entries)
    {
      if options {
        return Preflight;
      }
      if address == "" || !wellFormed {
        return BadRequest;
      }
      var ok := Allow(address, tested, stamped);
      if !ok {
        return TooManyRequests;
      }
      if !sent {
        GiveBack(address);
        return InternalError;
      }
      return Paid;
    }
  }

  // ---------------------------------------------------------------- concurrent requests

  datatype Request = Request(address: Address, admitted: int)

  /** `flying` holds the admitted requests whose send has not come back, by request number; `paid` the
      successful ones in the order they completed. */
  datatype State = State(clock: int, entries: map<Address, int>, flying: map<nat, Request>, paid: seq<Request>)

  datatype Step =
    | Arrive(id: nat, address: Address, tested: int, stamped: int)
    | Succeed(id: nat, now: int)
    | Fail(id: nat, now: int)

  predicate Enabled(s: State, step: Step) {
    match step
    case Arrive(id, _, tested, stamped) => id !in s.flying && s.clock <= tested <= stamped
    case Succeed(id, now) => id in s.flying && s.clock <= now
    case Fail(id, now) => id in s.flying && s.clock <= now
  }

  function Apply(window: int, s: State, step: Step): State
    requires Enabled(s, step)
  {
    match step
    case Arrive(id, address, tested, stamped) =>
      if Limited(s.entries, window, address, tested) then s.(clock := stamped)
      else State(stamped, s.entries[address := stamped], s.flying[id := Request(address, stamped)], s.paid)
    case Succeed(id, now) => s.(clock := now, flying := s.flying - {id}, paid := s.paid + [s.flying[id]])
    case Fail(id, now) => s.(clock := now, entries := s.entries - {s.flying[id].address}, flying := s.flying - {id})
  }

  function Start(clock: int): State { State(clock, map[], map[], []) }

  /** The steps can be taken one after the other from this state; a send may take arbitrarily long. */
  ghost predicate Runs(window: int, s: State, steps: seq<Step>)
    decreases |steps|
  {
    steps == [] || (Enabled(s, steps[0]) && Runs(window, Apply(window, s, steps[0]), steps[1..]))
  }

  function After(window: int, s: State, steps: seq<Step>): State
    requires Runs(window, s, steps)
    decreases |steps|
  {
    if steps == [] then s else After(window, Apply(window, s, steps[0]), steps[1..])
  }

  /** Request id of the same address is still in flight a window after its admission. */
  predicate Overlaps(window: int, s: State, step: Step, id: nat)
    requires step.Arrive?
  {
    id in s.flying && s.flying[id].address == step.address && step.tested - s.flying[id].admitted >= window
  }

  /** An arrival overlaps no earlier request of its own address. */
  ghost predicate Clear(window: int, s: State, step: Step) {
    step.Arrive? ==> forall id :: id in s.flying ==> !Overlaps(window, s, step, id)
  }

  ghost predicate AllClear(window: int, s: State, steps: seq<Step>)
    requires Runs(window, s, steps)
    decreases |steps|
  {
    steps == [] || (Clear(window, s, steps[0]) && AllClear(window, Apply(window, s, steps[0]), steps[1..]))
  }

  // ---------------------------------------------------------------- the invariant

  ghost predicate OnePerAddress(s: State) {
    forall i, j :: i in s.flying && j in s.flying && i != j ==> s.flying[i].address != s.flying[j].address
  }

  /** Whatever is in flight still owns its address's entry. */
  ghost predicate OwnEntries(s: State) {
    forall id :: id in s.flying ==> OwnsEntry(s, s.flying[id])
  }

  predicate OwnsEntry(s: State, r: Request) {
    r.address in s.entries && s.entries[r.address] == r.admitted && r.admitted <= s.clock
  }

  predicate Apart(window: int, p: Request, q: Request) {
    p.address == q.address ==> p.admitted + window <= q.admitted
  }

  ghost predicate Spaced(window: int, paid: seq<Request>) {
    forall i, j :: 0 <= i < j < |paid| ==> Apart(window, paid[i], paid[j])
  }

  /** A past payout is either a window old or still guarded by its entry. */
  predicate Guarded(window: int, s: State, p: Request) {
    p.admitted + window <= s.clock || (p.address in s.entries && s.entries[p.address] == p.admitted)
  }

  ghost predicate PaidGuarded(window: int, s: State) {
    forall i :: 0 <= i < |s.paid| ==> Guarded(window, s, s.paid[i])
  }

  ghost predicate FlyingApart(window: int, s: State) {
    forall i, id :: 0 <= i < |s.paid| && id in s.flying ==> Apart(window, s.paid[i], s.flying[id])
  }

  ghost predicate Inv(window: int, s: State) {
    && OnePerAddress(s) && OwnEntries(s) && Spaced(window, s.paid)
    && PaidGuarded(window, s) && FlyingApart(window, s)
  }

  // ---------------------------------------------------------------- every clear step keeps it

  lemma {:induction false} ArriveKeeps(window: int, s: State, step: Step)
    requires Inv(window, s) && step.Arrive? && Enabled(s, step) && Clear(window, s, step)
    ensures Inv(window, Apply(window, s, step))
  {
    var t := Apply(window, s, step);
    assert t.paid == s.paid;
    forall i | 0 <= i < |s.paid|
      ensures Guarded(window, t, s.paid[i])
    {
      assert Guarded(window, s, s.paid[i]);
    }
    if !Limited(s.entries, window, step.address, step.tested) {
      forall id | id in s.flying
        ensures s.flying[id].address != step.address && OwnsEntry(t, s.flying[id])
      {
        assert OwnsEntry(s, s.flying[id]);
      }
      forall i | 0 <= i < |s.paid|
        ensures Apart(window, s.paid[i], t.flying[step.id])
      {
        assert Guarded(window, s, s.paid[i]);
      }
    }
  }

  lemma {:induction false} SucceedKeeps(window: int, s: State, step: Step)
    requires Inv(window, s) && step.Succeed? && Enabled(s, step)
    ensures Inv(window, Apply(window, s, step))
  {
    var t := Apply(window, s, step);
    var r := s.flying[step.id];
    assert OwnsEntry(s, r);
    forall i | 0 <= i < |t.paid|
      ensures Guarded(window, t, t.paid[i])
    {
      assert i < |s.paid| ==> Guarded(window, s, s.paid[i]);
    }
    forall id | id in t.flying
      ensures t.flying[id].address != r.address && OwnsEntry(t, t.flying[id])
    {
      assert OwnsEntry(s, s.flying[id]);
    }
  }

  lemma {:induction false} FailKeeps(window: int, s: State, step: Step)
    requires Inv(window, s) && step.Fail? && Enabled(s, step)
    ensures Inv(window, Apply(window, s, step))
  {
    var t := Apply(window, s, step);
    var r := s.flying[step.id];
    assert OwnsEntry(s, r);
    forall i | 0 <= i < |s.paid|
      ensures Guarded(window, t, t.paid[i])
    {
      assert Guarded(window, s, s.paid[i]) && Apart(window, s.paid[i], r);
    }
    forall id | id in t.flying
      ensures OwnsEntry(t, t.flying[id])
    {
      assert OwnsEntry(s, s.flying[id]);
    }
  }

  lemma {:induction false} StepKeeps(window: int, s: State, step: Step)
    requires Inv(window, s) && Enabled(s, step) && Clear(window, s, step)
    ensures Inv(window, Apply(window, s, step))
  {
    hide Inv, Apply, Clear;
    match step
    case Arrive(_, _, _, _) => ArriveKeeps(window, s, step);
    case Succeed(_, _) => SucceedKeeps(window, s, step);
    case Fail(_, _) => FailKeeps(window, s, step);
  }

  lemma {:induction false} RunKeeps(window: int, s: State, steps: seq<Step>)
    requires Inv(window, s) && Runs(window, s, steps) && AllClear(window, s, steps)
    ensures Inv(window, After(window, s, steps))
    decreases |steps|
  {
    hide Inv, Apply, Clear, Enabled;
    if steps != [] {
      StepKeeps(window, s, steps[0]);
      RunKeeps(window, Apply(window, s, steps[0]), steps[1..]);
    }
  }

  /** In every interleaving whose arrivals are clear: one request per address in flight, each still
      owning its entry, and payouts to one address at least a window apart. */
  lemma {:induction false} Safety(window: int, clock: int, steps: seq<Step>)
    requires Runs(window, Start(clock), steps) && AllClear(window, Start(clock), steps)
    ensures var s := After(window, Start(clock), steps);
            OnePerAddress(s) && OwnEntries(s) && Spaced(window, s.paid)
  {
    RunKeeps(window, Start(clock), steps);
  }

  /** A failed send takes away the entry its own admission wrote, and leaves every other entry and
      every other request as they were. */
  lemma {:induction false} RollbackIsOwn(window: int, clock: int, steps: seq<Step>, id: nat, now: int)
    requires Runs(window, Start(clock), steps) && AllClear(window, Start(clock), steps)
    requires Enabled(After(window, Start(clock), steps), Fail(id, now))
    ensures var s := After(window, Start(clock), steps);
            var t := Apply(window, s, Fail(id, now));
            && s.flying[id].address in s.entries && s.entries[s.flying[id].address] == s.flying[id].admitted
            && t.entries == s.entries - {s.flying[id].address}
            && (forall k :: k in t.flying ==> k in s.flying && t.flying[k] == s.flying[k] && OwnsEntry(t, t.flying[k]))
  {
    var s := After(window, Start(clock), steps);
    RunKeeps(window, Start(clock), steps);
    FailKeeps(window, s, Fail(id, now));
    assert OwnsEntry(s, s.flying[id]);
  }

  // ---------------------------------------------------------------- sends that finish within the window

  /** The instant a step happens; the limiter's two clock readings count as one step. */
  function When(step: Step): int { if step.Arrive? then step.stamped else step.now }

  /** Everything in flight at the instant of this step was admitted less than a window ago. */
  ghost predicate Timely(window: int, s: State, step: Step) {
    forall id :: id in s.flying ==> When(step) - s.flying[id].admitted < window
  }

  ghost predicate AllTimely(window: int, s: State, steps: seq<Step>)
    requires Runs(window, s, steps)
    decreases |steps|
  {
    steps == [] || (Timely(window, s, steps[0]) && AllTimely(window, Apply(window, s, steps[0]), steps[1..]))
  }

  /** When no send outlives the window, every arrival is clear. */
  lemma {:induction false} TimelyIsClear(window: int, s: State, steps: seq<Step>)
    requires Runs(window, s, steps) && AllTimely(window, s, steps)
    ensures AllClear(window, s, steps)
    decreases |steps|
  {
    hide Apply;
    if steps != [] {
      TimelyIsClear(window, Apply(window, s, steps[0]), steps[1..]);
    }
  }

  /** So the promises hold whenever every send finishes within the window. */
  lemma {:induction false} TimelySafety(window: int, clock: int, steps: seq<Step>)
    requires Runs(window, Start(clock), steps) && AllTimely(window, Start(clock), steps)
    ensures var s := After(window, Start(clock), steps);
            OnePerAddress(s) && OwnEntries(s) && Spaced(window, s.paid)
  {
    TimelyIsClear(window, Start(clock), steps);
    Safety(window, clock, steps);
  }

  /** The converse fails: a lone late send is clear, though not timely. */
  lemma {:induction false} LateButClear(window: int, a: Address)
    requires window > 0
    ensures var steps := [Arrive(0, a, 0, 0), Succeed(0, window)];
            && Runs(window, Start(0), steps)
            && AllClear(window, Start(0), steps) && !AllTimely(window, Start(0), steps)
  {
    var steps := [Arrive(0, a, 0, 0), Succeed(0, window)];
    var s := State(0, map[a := 0], map[0 := Request(a, 0)], []);
    assert Apply(window, Start(0), steps[0]) == s;
    assert steps[1..] == [steps[1]] && steps[1..][1..] == [];
    assert !Timely(window, s, steps[1]);
  }

  // ---------------------------------------------------------------- clear arrivals are exactly what is needed

  /** From a good state an arrival keeps the invariant, and the one-per-address rule, exactly when it
      is clear. */
  lemma {:induction false} ClearExactly(window: int, s: State, step: Step)
    requires Inv(window, s) && step.Arrive? && Enabled(s, step)
    ensures OnePerAddress(Apply(window, s, step)) <==> Clear(window, s, step)
    ensures Inv(window, Apply(window, s, step)) <==> Clear(window, s, step)
  {
    if Clear(window, s, step) {
      ArriveKeeps(window, s, step);
    } else {
      var id :| id in s.flying && Overlaps(window, s, step, id);
      assert OwnsEntry(s, s.flying[id]);
      var t := Apply(window, s, step);
      assert id in t.flying && step.id in t.flying && t.flying[id].address == t.flying[step.id].address;
    }
  }

  /** Every state along the run has at most one request per address in flight. */
  ghost predicate AlwaysOne(window: int, s: State, steps: seq<Step>)
    requires Runs(window, s, steps)
    decreases |steps|
  {
    OnePerAddress(s) && (steps == [] || AlwaysOne(window, Apply(window, s, steps[0]), steps[1..]))
  }

  lemma {:induction false} AlwaysOneFrom(window: int, s: State, steps: seq<Step>)
    requires Inv(window, s) && Runs(window, s, steps)
    ensures AlwaysOne(window, s, steps) <==> AllClear(window, s, steps)
    decreases |steps|
  {
    hide Apply, Enabled, OwnEntries, Spaced, PaidGuarded, FlyingApart;
    if steps != [] {
      var t := Apply(window, s, steps[0]);
      StepExactly(window, s, steps[0]);
      if Clear(window, s, steps[0]) {
        AlwaysOneFrom(window, t, steps[1..]);
      } else {
        FirstIsOne(window, t, steps[1..]);
      }
    }
  }

  lemma {:induction false} FirstIsOne(window: int, s: State, steps: seq<Step>)
    requires Runs(window, s, steps)
    ensures AlwaysOne(window, s, steps) ==> OnePerAddress(s)
  {
    hide Apply, OnePerAddress;
  }

  lemma {:induction false} StepExactly(window: int, s: State, step: Step)
    requires Inv(window, s) && Enabled(s, step)
    ensures Inv(window, Apply(window, s, step)) <==> Clear(window, s, step)
    ensures OnePerAddress(Apply(window, s, step)) <==> Clear(window, s, step)
  {
    hide Apply, OwnEntries, Spaced, PaidGuarded, FlyingApart, OnePerAddress;
    match step
    case Arrive(_, _, _, _) => ClearExactly(window, s, step);
    case Succeed(_, _) => SucceedKeeps(window, s, step);
    case Fail(_, _) => FailKeeps(window, s, step);
  }

  /** Over every interleaving: at most one request per address is ever in flight if and only if every
      arrival is clear. */
  lemma {:induction false} OneExactly(window: int, clock: int, steps: seq<Step>)
    requires Runs(window, Start(clock), steps)
    ensures AlwaysOne(window, Start(clock), steps) <==> AllClear(window, Start(clock), steps)
  {
    AlwaysOneFrom(window, Start(clock), steps);
  }

  // ---------------------------------------------------------------- one overlap is enough to break the spacing

  /** After the overlapping arrival: the earlier request fails and removes the new entry, a third
      request is let in at once, and both are paid. */
  function Sequel(step: Step, id: nat): seq<Step>
    requires step.Arrive?
  {
    var t := step.stamped;
    [Fail(id, t), Arrive(id, step.address, t, t), Succeed(step.id, t), Succeed(id, t)]
  }

  /** From every good state, every overlapping arrival has a continuation, clear in all its steps, after
      which two payouts to the address are not spaced. */
  lemma {:induction false} OverlapBreaksSpacing(window: int, s: State, step: Step, id: nat)
    requires Inv(window, s) && window > 0 && step.Arrive? && Enabled(s, step) && Overlaps(window, s, step, id)
    ensures var t := Apply(window, s, step);
            && Runs(window, t, Sequel(step, id)) && AllClear(window, t, Sequel(step, id))
            && !Spaced(window, After(window, t, Sequel(step, id)).paid)
  {
    assert OwnsEntry(s, s.flying[id]);
    var (a, now, steps) := (step.address, step.stamped, Sequel(step, id));
    var q := Request(a, now);
    var t := Apply(window, s, step);
    var t1 := State(now, t.entries - {a}, t.flying - {id}, t.paid);
    var t2 := State(now, t1.entries[a := now], t1.flying[id := q], t.paid);
    var t3 := State(now, t2.entries, t2.flying - {step.id}, t.paid + [q]);
    var t4 := State(now, t2.entries, t3.flying - {id}, t.paid + [q] + [q]);
    assert t.flying[id].address == a && t.flying[step.id] == q && t.clock == now;
    assert Apply(window, t, steps[0]) == t1;
    OthersGone(window, s, step, id);
    assert Clear(window, t1, steps[1]);
    assert Apply(window, t1, steps[1]) == t2;
    assert Apply(window, t2, steps[2]) == t3;
    assert Apply(window, t3, steps[3]) == t4;
    StepsReach(window, [t, t1, t2, t3, t4], steps);
    var n := |t.paid|;
    assert t4.paid[n] == q && t4.paid[n + 1] == q && !Apart(window, t4.paid[n], t4.paid[n + 1]);
  }

  /** Once the earlier request is gone, only the new one is in flight for the address. */
  lemma {:induction false} OthersGone(window: int, s: State, step: Step, id: nat)
    requires Inv(window, s) && step.Arrive? && Enabled(s, step) && Overlaps(window, s, step, id)
    ensures var t := Apply(window, s, step);
            forall k :: k in t.flying && k != id && t.flying[k].address == step.address ==>
              t.flying[k].admitted == step.stamped
  {
    assert OwnsEntry(s, s.flying[id]);
  }

  /** Steps that lead from state to state, each clear, are a clear run. */
  lemma {:induction false} StepsReach(window: int, states: seq<State>, steps: seq<Step>)
    requires |states| == |steps| + 1
    requires forall i :: 0 <= i < |steps| ==> Enabled(states[i], steps[i]) && Clear(window, states[i], steps[i])
    requires forall i :: 0 <= i < |steps| ==> Apply(window, states[i], steps[i]) == states[i + 1]
    ensures Runs(window, states[0], steps) && AllClear(window, states[0], steps)
    ensures After(window, states[0], steps) == states[|steps|]
    decreases |steps|
  {
    hide Enabled, Apply, Clear;
    if steps != [] {
      StepsReach(window, states[1..], steps[1..]);
    }
  }

  /** For every window: a request hangs for the whole window, a second is let in, and two payouts
      follow at once. */
  lemma {:induction false} SlowSendBreaksSpacing(window: int, a: Address)
    requires window > 0
    ensures var (first, second) := (Arrive(0, a, 0, 0), Arrive(1, a, window, window));
            var s := Apply(window, Start(0), first);
            && Enabled(s, second)
            && var t := Apply(window, s, second);
               && Runs(window, t, Sequel(second, 0)) && !Spaced(window, After(window, t, Sequel(second, 0)).paid)
  {
    var (first, second) := (Arrive(0, a, 0, 0), Arrive(1, a, window, window));
    ArriveKeeps(window, Start(0), first);
    OverlapBreaksSpacing(window, Apply(window, Start(0), first), second, 0);
  }
}
