/** RCF's futures: who owes a remote call (`FutureImpl`), which futures wait at
    which address (`Future::State`), and one call at a time (`LogEntryExit`). */
module Future {
  import opened Prelude
  import Candidates

  // ----------------------------------------------------------- owning a call

  /** A `FutureImpl`: the call that it stands for, and whether it owes it. */
  datatype Impl = Impl(call: nat, own: bool)

  /** The copy constructor: the copy, and what is left of the original. */
  function Copied(rhs: Impl): (Impl, Impl)
  {
    (rhs, Impl(rhs.call, false))
  }

  /** Every call that `call()` was entered for, in order. */
  class CallLog {
    var started: seq<nat>

    constructor ()
      ensures started == []
    {
      started := [];
    }

    method Start(call: nat)
      modifies this
      ensures started == old(started) + [call]
    {
      started := started + [call];
    }
  }

  class FutureImpl<K(==)> {
    var call: nat
    var pt: K  // where the result goes
    var stub: ClientStub
    var own: bool
    const log: CallLog

    ghost function State(): Impl
      reads this
    {
      Impl(call, own)
    }

    constructor Make(call: nat, pt: K, stub: ClientStub, log: CallLog)
      ensures State() == Impl(call, true) && this.pt == pt && this.stub == stub && this.log == log
    {
      this.call, this.pt, this.stub, own, this.log := call, pt, stub, true, log;
    }

    constructor Copy(rhs: FutureImpl<K>)
      modifies rhs
      ensures (State(), rhs.State()) == Copied(old(rhs.State())) && pt == rhs.pt && stub == rhs.stub && log == rhs.log
      ensures rhs.pt == old(rhs.pt) && rhs.stub == old(rhs.stub)
      ensures call == old(rhs.call) && own == old(rhs.own) && !rhs.own
    {
      call, pt, stub, own, log := rhs.call, rhs.pt, rhs.stub, rhs.own, rhs.log;
      new;
      rhs.own := false;
    }

    /** `operator=`: whatever this one owed is forgotten, and a self-assignment
        forgets it too. */
    method Assign(rhs: FutureImpl<K>)
      modifies this, rhs
      ensures if rhs == this then State() == old(State()).(own := false)
              else (State(), rhs.State()) == Copied(old(rhs.State()))
      ensures call == old(rhs.call) && pt == old(rhs.pt) == rhs.pt && stub == old(rhs.stub) == rhs.stub
      ensures own == (rhs != this && old(rhs.own)) && !rhs.own
    {
      call, pt, stub := rhs.call, rhs.pt, rhs.stub;
      own := rhs.own;
      rhs.own := false;
    }

    /** `call()`, entered whether the stub lets the call through or not. */
    method Issue(course: Course) returns (outcome: Outcome)
      modifies log, stub`callInProgress
      ensures log.started == old(log.started) + [call]
      ensures outcome == Called(old(stub.callInProgress), stub.async, course)
      ensures stub.callInProgress == InProgress(old(stub.callInProgress), stub.async, course)
    {
      log.Start(call);
      outcome := stub.Call(course);
    }

    /** `operator T`: the duty is given up before the call, so that a call that
        throws is not made again. */
    method Convert(course: Course) returns (outcome: Outcome)
      modifies this`own, log, stub`callInProgress
      ensures State() == old(State()).(own := false)
      ensures log.started == old(log.started) + [call]
      ensures outcome == Called(old(stub.callInProgress), stub.async, course)
      ensures stub.callInProgress == InProgress(old(stub.callInProgress), stub.async, course)
    {
      own := false;
      outcome := Issue(course);
    }

    /** `assignTo`: the call becomes an asynchronous one, whose result goes to the
        future; the future waits at its address no longer. */
    method AssignTo(future: State<K>, course: Course, candidates: Candidates.Candidates<K, State<K>>,
                    ghost live: set<State<K>>)
      returns (outcome: Outcome)
      requires future.Valid() && future in live && candidates.Valid() && NoDangling(candidates, live)
      modifies this`own, log, stub, future, candidates
      ensures State() == old(State()).(own := false)
      ensures stub.async && future.Valid() && future.Pointer() == pt && future.called
      ensures candidates.Valid() && NoDangling(candidates, live)
      ensures Candidates.Contents(candidates.list) == old(Candidates.Contents(candidates.list)) - {old(future.Pointer())}
      ensures log.started == old(log.started) + [call]
      ensures outcome == Called(old(stub.callInProgress), true, course)
      ensures stub.callInProgress == InProgress(old(stub.callInProgress), true, course)
    {
      own := false;
      stub.async := true;
      future.SetClientStub(pt, candidates, live);
      outcome := Issue(course);
    }

    method Destroy(course: Course)
      modifies log, stub`callInProgress
      ensures log.started == old(log.started) + if own then [call] else []
      ensures stub.callInProgress
           == if own then InProgress(old(stub.callInProgress), stub.async, course) else old(stub.callInProgress)
    {
      if own {
        var _ := Issue(course);
      }
    }
  }

  /** All the live `FutureImpl`s by identity, and the calls started so far. */
  datatype World = World(live: map<nat, Impl>, started: multiset<nat>)

  datatype Step =
    | Make(id: nat, call: nat)
    | Copy(id: nat, rhs: nat)
    | Assign(lhs: nat, rhs: nat)
    | Convert(id: nat)
    | Destroy(id: nat)

  predicate Enabled(w: World, step: Step)
  {
    match step
    case Make(id, _) => id !in w.live
    case Copy(id, rhs) => id !in w.live && rhs in w.live
    case Assign(lhs, rhs) => lhs in w.live && rhs in w.live
    case Convert(id) => id in w.live
    case Destroy(id) => id in w.live
  }

  function Next(w: World, step: Step): World
    requires Enabled(w, step)
  {
    match step
    case Make(id, call) => w.(live := w.live[id := Impl(call, true)])
    case Copy(id, rhs) =>
      var (copy, left) := Copied(w.live[rhs]);
      w.(live := w.live[id := copy][rhs := left])
    case Assign(lhs, rhs) =>
      var (copy, left) := Copied(w.live[rhs]);
      w.(live := w.live[lhs := copy][rhs := left])
    case Convert(id) => World(w.live[id := w.live[id].(own := false)], w.started + multiset{w.live[id].call})
    case Destroy(id) =>
      World(w.live - {id}, if w.live[id].own then w.started + multiset{w.live[id].call} else w.started)
  }

  function Owners(live: map<nat, Impl>, call: nat): set<nat>
  {
    set id | id in live && live[id] == Impl(call, true)
  }

  /** Duties that are open and calls that were started. */
  function Balance(w: World, call: nat): nat
  {
    |Owners(w.live, call)| + w.started[call]
  }

  function Bit(b: bool): int
  {
    if b then 1 else 0
  }

  lemma OwnersUpdate(live: map<nat, Impl>, id: nat, m: Impl, call: nat)
    ensures |Owners(live[id := m], call)|
         == |Owners(live, call)| - Bit(id in live && live[id] == Impl(call, true)) + Bit(m == Impl(call, true))
  {
    var owners, owners' := Owners(live, call), Owners(live[id := m], call);
    assert owners' == if m == Impl(call, true) then owners + {id} else owners - {id};
  }

  lemma OwnersRemove(live: map<nat, Impl>, id: nat, call: nat)
    ensures |Owners(live - {id}, call)| == |Owners(live, call)| - Bit(id in live && live[id] == Impl(call, true))
  {
    assert Owners(live - {id}, call) == Owners(live, call) - {id};
  }

  /** A step that adds a call to be started: a conversion of a copy that no longer
      owes it. */
  predicate Repeats(w: World, step: Step, call: nat)
    requires Enabled(w, step)
  {
    step.Convert? && w.live[step.id] == Impl(call, false)
  }

  /** A step that loses one: an assignment to a copy that still owes it. */
  predicate Loses(w: World, step: Step, call: nat)
    requires Enabled(w, step)
  {
    step.Assign? && w.live[step.lhs] == Impl(call, true)
  }

  /** What each step does to the balance of each call, exactly. */
  lemma StepBalance(w: World, step: Step, call: nat)
    requires Enabled(w, step)
    ensures Balance(Next(w, step), call)
         == Balance(w, call) + Bit(step.Make? && step.call == call) + Bit(Repeats(w, step, call)) - Bit(Loses(w, step, call))
  {
    match step
    case Make(id, c) => OwnersUpdate(w.live, id, Impl(c, true), call);
    case Copy(id, rhs) =>
      OwnersUpdate(w.live, id, w.live[rhs], call);
      OwnersUpdate(w.live[id := w.live[rhs]], rhs, Copied(w.live[rhs]).1, call);
    case Assign(lhs, rhs) =>
      OwnersUpdate(w.live, lhs, w.live[rhs], call);
      OwnersUpdate(w.live[lhs := w.live[rhs]], rhs, Copied(w.live[rhs]).1, call);
    case Convert(id) => OwnersUpdate(w.live, id, w.live[id].(own := false), call);
    case Destroy(id) => OwnersRemove(w.live, id, call);
  }

  /** Only owning copies are converted, and nothing is assigned to one. */
  predicate Fair(w: World, step: Step)
    requires Enabled(w, step)
  {
    match step
    case Convert(id) => w.live[id].own
    case Assign(lhs, _) => !w.live[lhs].own
    case _ => true
  }

  /** A step conserves every call exactly when it is fair. */
  lemma ConservesIffFair(w: World, step: Step)
    requires Enabled(w, step)
    ensures Fair(w, step) <==>
      forall call :: Balance(Next(w, step), call) == Balance(w, call) + Bit(step.Make? && step.call == call)
  {
    forall call
      ensures Balance(Next(w, step), call)
           == Balance(w, call) + Bit(step.Make? && step.call == call)
            + Bit(Repeats(w, step, call)) - Bit(Loses(w, step, call))
    {
      StepBalance(w, step, call);
    }
    if step.Convert? {
      var call := w.live[step.id].call;
      assert Repeats(w, step, call) <==> !Fair(w, step);
      assert !Loses(w, step, call);
      StepBalance(w, step, call);
    } else if step.Assign? {
      var call := w.live[step.lhs].call;
      assert Loses(w, step, call) <==> !Fair(w, step);
      StepBalance(w, step, call);
    }
  }

  const NOTHING := World(map[], multiset{})

  /** The world after a run of steps, if each is enabled when it is taken. */
  function After(steps: seq<Step>): Option<World>
  {
    if steps == [] then Some(NOTHING)
    else match After(steps[..|steps| - 1])
      case None => None
      case Some(w) => if Enabled(w, steps[|steps| - 1]) then Some(Next(w, steps[|steps| - 1])) else None
  }

  predicate FairRun(steps: seq<Step>)
  {
    steps == [] ||
    (var front, last := steps[..|steps| - 1], steps[|steps| - 1];
     FairRun(front) && After(steps).Some? && Fair(After(front).value, last))
  }

  /** How many `FutureImpl`s have been made from scratch for a call. */
  function Made(steps: seq<Step>, call: nat): nat
  {
    if steps == [] then 0
    else Made(steps[..|steps| - 1], call) + if steps[|steps| - 1].Make? && steps[|steps| - 1].call == call then 1 else 0
  }

  /** Over every fair run, for every call: open duties and started calls together
      are the duties that were made. */
  lemma {:induction false} CallsConserved(steps: seq<Step>, call: nat)
    requires FairRun(steps)
    ensures After(steps).Some? && Balance(After(steps).value, call) == Made(steps, call)
    decreases steps
  {
    if steps == [] {
      assert Owners(NOTHING.live, call) == {};
    } else {
      var front, last := steps[..|steps| - 1], steps[|steps| - 1];
      CallsConserved(front, call);
      StepBalance(After(front).value, last, call);
    }
  }

  /** So once all copies are gone, every call has been started as often as it was
      made: once. */
  lemma StartedOnce(steps: seq<Step>, call: nat)
    requires FairRun(steps) && After(steps).Some? && After(steps).value.live == map[]
    ensures After(steps).value.started[call] == Made(steps, call)
  {
    CallsConserved(steps, call);
    assert Owners(map[], call) == {};
  }

  /** Assigning to an owner forgets its call; converting a copy that owes nothing
      starts a call nobody asked for. */
  lemma UnfairSteps()
    ensures var w := World(map[1 := Impl(1, true), 2 := Impl(2, false)], multiset{2});
      && Balance(w, 1) == 1 && Balance(Next(w, Assign(1, 2)), 1) == 0
      && Balance(w, 2) == 1 && Balance(Next(w, Convert(2)), 2) == 2
  {
    var w := World(map[1 := Impl(1, true), 2 := Impl(2, false)], multiset{2});
    assert Owners(w.live, 1) == {1} && Owners(w.live, 2) == {};
    StepBalance(w, Assign(1, 2), 1);
    StepBalance(w, Convert(2), 2);
  }

  // ------------------------------------------------------- one call at a time

  /** What became of a call. */
  datatype Outcome = ConcurrentCalls | Thrown | Returned

  /** How a call goes: to a servant in the same process or not, over before `call()`
      returns or not, failing or not. */
  datatype Course = Course(inProcess: bool, completes: bool, throws: bool)

  /** What the caller gets of a call. A second one is refused before anything is
      sent, unless it stays in the process; the caller of an asynchronous one is not
      told by an exception that it has failed. */
  function Called(inProgress: bool, async: bool, course: Course): Outcome
  {
    if inProgress && !course.inProcess then ConcurrentCalls
    else if course.throws && (course.inProcess || !async) then Thrown
    else Returned
  }

  /** Whether a call is in progress after it. */
  predicate InProgress(inProgress: bool, async: bool, course: Course)
  {
    inProgress || (async && !course.inProcess && !course.completes && !course.throws)
  }

  /** The two flags of a `ClientStub` that `LogEntryExit` works on. */
  class ClientStub {
    var callInProgress: bool
    var async: bool

    /** `callSync` and `callAsync` around the transport. A synchronous call drops the
        flag on the way out, an exception included; an asynchronous one leaves that to
        the notification that it is over. */
    method Call(course: Course) returns (outcome: Outcome)
      modifies this`callInProgress
      ensures outcome == Called(old(callInProgress), async, course)
      ensures callInProgress == InProgress(old(callInProgress), async, course)
    {
      if course.inProcess {
        return if course.throws then Thrown else Returned;
      }
      if callInProgress {
        return ConcurrentCalls;
      }
      callInProgress := true;
      outcome := Returned;
      if async {
        if course.completes || course.throws {
          ScheduleAmiNotification();
        }
      } else {
        outcome := if course.throws then Thrown else Returned;
        callInProgress := false;
      }
    }

    /** The asynchronous call is over. */
    method ScheduleAmiNotification()
      modifies this`callInProgress
      ensures !callInProgress
    {
      callInProgress := false;
    }
  }

  /** What happens to a stub: calls, and the notification that one is over. */
  datatype StubStep = CallStep(async: bool, course: Course) | OverStep

  /** Whether a call is in progress after a run of steps. */
  function FlagAfter(steps: seq<StubStep>): bool
  {
    if steps == [] then false
    else
      match steps[|steps| - 1]
      case CallStep(async, course) => InProgress(FlagAfter(steps[..|steps| - 1]), async, course)
      case OverStep => false
  }

  /** An asynchronous call over the network that does not end before `call()`
      returns. */
  predicate StaysOpen(step: StubStep)
  {
    step.CallStep? && step.async && !step.course.inProcess && !step.course.completes && !step.course.throws
  }

  /** Such a call at `i`, and no notification since. */
  predicate OpenSince(steps: seq<StubStep>, i: nat)
  {
    i < |steps| && StaysOpen(steps[i]) && OverStep !in steps[i..]
  }

  lemma {:induction false} FlagIffOpen(steps: seq<StubStep>)
    ensures FlagAfter(steps) <==> exists i: nat :: OpenSince(steps, i)
    decreases steps
  {
    if steps != [] {
      var n := |steps| - 1;
      var front, last := steps[..n], steps[n];
      FlagIffOpen(front);
      forall i: nat | i < n
        ensures OpenSince(steps, i) <==> OpenSince(front, i) && last != OverStep
      {
        assert steps[i..] == front[i..] + [last];
      }
      assert steps[n..] == [last];
      assert OpenSince(steps, n) <==> StaysOpen(last);
    }
  }

  /** A call is refused exactly if it goes over the network while an asynchronous one
      is open. */
  lemma RefusedIffOpen(steps: seq<StubStep>, async: bool, course: Course)
    ensures Called(FlagAfter(steps), async, course) == ConcurrentCalls <==>
              !course.inProcess && exists i: nat :: OpenSince(steps, i)
  {
    FlagIffOpen(steps);
  }

  /** Synchronous calls leave the flag as they find it, however they end: after any
      number of them the next is not refused. */
  lemma {:induction false} SynchronousCalls(steps: seq<StubStep>, course: Course)
    requires forall step | step in steps :: step.CallStep? && !step.async
    ensures !FlagAfter(steps)
    ensures Called(FlagAfter(steps), false, course) == if course.throws then Thrown else Returned
    decreases steps
  {
    if steps != [] {
      SynchronousCalls(steps[..|steps| - 1], course);
    }
  }

  // --------------------------------------------------- futures and candidates

  /** `Future::State`: the result is at `target` if there is one, otherwise in an
      object of its own. */
  class State<K(==)> {
    var target: Option<K>
    var owned: Option<K>
    var called: bool  // whether there is an mpClientStub

    ghost predicate Valid()
      reads this
    {
      target.Some? || owned.Some?
    }

    function Pointer(): K
      requires Valid()
      reads this
    {
      if target.Some? then target.value else owned.value
    }

    constructor AtTarget(pt: K)
      ensures Valid() && Pointer() == pt
    {
      target, owned, called := Some(pt), None, false;
    }

    constructor Owning(pt: K)
      ensures Valid() && Pointer() == pt
    {
      target, owned, called := None, Some(pt), false;
    }

    /** `operator T &`: once the call is ready, if one has been made, the future
        becomes a candidate at its address; unless the call has `failed`, whose
        exception is thrown instead. */
    method Dereference(failed: bool, candidates: Candidates.Candidates<K, State<K>>, ghost live: set<State<K>>)
      returns (pt: Option<K>)
      requires Valid() && this in live && candidates.Valid() && NoDangling(candidates, live)
      modifies candidates
      ensures pt == (if called && failed then None else Some(Pointer())) && candidates.Valid() && NoDangling(candidates, live)
      ensures Candidates.Contents(candidates.list)
           == if pt.None? then old(Candidates.Contents(candidates.list))
              else old(Candidates.Contents(candidates.list))[Pointer() := this]
    {
      if called && failed {
        return None;
      }
      candidates.Add(Pointer(), this);
      return Some(Pointer());
    }

    /** `setClientStub`: the old address is given up before the new one is taken. */
    method SetClientStub(pt: K, candidates: Candidates.Candidates<K, State<K>>, ghost live: set<State<K>>)
      requires Valid() && this in live && candidates.Valid() && NoDangling(candidates, live)
      modifies this, candidates
      ensures Valid() && Pointer() == pt && called && candidates.Valid() && NoDangling(candidates, live)
      ensures Candidates.Contents(candidates.list) == old(Candidates.Contents(candidates.list)) - {old(Pointer())}
    {
      candidates.Unregister(Pointer());
      target, owned, called := Some(pt), None, true;
    }

    method Destroy(candidates: Candidates.Candidates<K, State<K>>, ghost live: set<State<K>>)
      requires Valid() && this in live && candidates.Valid() && NoDangling(candidates, live)
      modifies candidates
      ensures candidates.Valid() && NoDangling(candidates, live - {this})
      ensures Candidates.Contents(candidates.list) == old(Candidates.Contents(candidates.list)) - {Pointer()}
    {
      candidates.Unregister(Pointer());
    }
  }

  /** Every candidate is a live future that still points to where it is listed. */
  ghost predicate NoDangling<K>(candidates: Candidates.Candidates<K, State<K>>, live: set<State<K>>)
    reads candidates, live
  {
    var m := Candidates.Contents(candidates.list);
    forall pv | pv in m :: m[pv] in live && m[pv].Valid() && m[pv].Pointer() == pv
  }

  /** `enrolFutures` enrols live futures, each of which waits at an argument, and
      every such candidate. */
  lemma EnrolledAreLive<K>(candidates: Candidates.Candidates<K, State<K>>, live: set<State<K>>, arguments: seq<K>)
    requires NoDangling(candidates, live)
    ensures var m := Candidates.Contents(candidates.list);
      && (forall f | f in Candidates.Enrolled(m, arguments).1 :: f in live && f.Valid() && f.Pointer() in arguments)
      && (forall pv | pv in arguments && pv in m :: m[pv] in Candidates.Enrolled(m, arguments).1)
  {
    var m := Candidates.Contents(candidates.list);
    forall f | f in Candidates.Enrolled(m, arguments).1
      ensures f in live && f.Valid() && f.Pointer() in arguments
    {
      Candidates.EnrolledTakes(m, arguments, f);
    }
    forall pv | pv in arguments && pv in m
      ensures m[pv] in Candidates.Enrolled(m, arguments).1
    {
      Candidates.EnrolledTakes(m, arguments, m[pv]);
    }
  }
}
