/**
 * The thread pool of tcp/ssl/server.c as a transition system: one accepting thread and any number
 * of workers share one ring buffer, one mutex and one condition variable.
 */
module QueueProtocol {
  import opened Bytes
  import opened ClientQueue

  /** Where a thread is inside `queue_push` or `queue_pop`. */
  datatype Pc =
    | Idle         // outside, accepting or serving a client
    | Testing      // holds the mutex, about to test the loop condition
    | Sleeping     // waits on the condition variable
    | Woken        // has left the wait, does not hold the mutex yet
    | Signalling   // holds the mutex, has changed the buffer
    | Unlocking    // holds the mutex, has signalled

  datatype Thread = Producer | Worker(i: nat)

  datatype State = State(
    producer: Pc, workers: seq<Pc>, owner: Option<Thread>, ring: Ring,
    fd: int, pushed: seq<int>, popped: seq<int>)

  datatype Action =
    | Lock(t: Thread, fd: int)
    | Test(t: Thread)
    | Signal(t: Thread, woken: Option<Thread>)
    | Unlock(t: Thread)
    | SpuriousWake(t: Thread)

  predicate Exists(s: State, t: Thread) { t.Producer? || t.i < |s.workers| }

  function PcOf(s: State, t: Thread): Pc
    requires Exists(s, t)
  {
    if t.Producer? then s.producer else s.workers[t.i]
  }

  function Goes(s: State, t: Thread, pc: Pc): State
    requires Exists(s, t)
  {
    if t.Producer? then s.(producer := pc) else s.(workers := s.workers[t.i := pc])
  }

  function Init(capacity: nat, n: nat): State
    requires capacity >= 2
  {
    State(Idle, seq(n, _ => Idle), None, Ring(seq(capacity, _ => 0), 0, 0), 0, [], [])
  }

  /** A signal wakes one sleeper, any of them, if there is one. */
  predicate Enabled(s: State, a: Action) {
    && ValidRing(s.ring) && Exists(s, a.t)
    && (a.Lock? ==> PcOf(s, a.t) in {Idle, Woken} && s.owner == None)
    && (a.Test? ==> PcOf(s, a.t) == Testing)
    && (a.Signal? ==> PcOf(s, a.t) == Signalling && CanWake(s, a.woken))
    && (a.Unlock? ==> PcOf(s, a.t) == Unlocking)
    && (a.SpuriousWake? ==> PcOf(s, a.t) == Sleeping)
  }

  /** Whom a signal can wake. */
  predicate CanWake(s: State, woken: Option<Thread>) {
    if woken.Some? then Exists(s, woken.value) && PcOf(s, woken.value) == Sleeping
    else s.producer != Sleeping && Sleeping !in s.workers
  }

  function Apply(s: State, a: Action): State
    requires Enabled(s, a)
  {
    match a
    case Lock(t, fd) =>
      Goes(s, t, Testing).(owner := Some(t), fd := if t.Producer? && s.producer == Idle then fd else s.fd)
    case Test(Producer) =>
      if IsFull(s.ring) then s.(producer := Sleeping, owner := None)
      else s.(producer := Signalling, ring := Push(s.ring, s.fd), pushed := s.pushed + [s.fd])
    case Test(Worker(i)) =>
      if IsEmpty(s.ring) then s.(workers := s.workers[i := Sleeping], owner := None)
      else s.(workers := s.workers[i := Signalling], ring := Pop(s.ring),
              popped := s.popped + [s.ring.clients[s.ring.front]])
    case Signal(t, woken) =>
      var next := Goes(s, t, Unlocking);
      if woken.Some? then Goes(next, woken.value, Woken) else next
    case Unlock(t) => Goes(s, t, Idle).(owner := None)
    case SpuriousWake(t) => Goes(s, t, Woken)
  }

  /** The state after a run of actions from the start, if every action was enabled in its turn. */
  function Run(capacity: nat, n: nat, actions: seq<Action>): Option<State>
    requires capacity >= 2
  {
    if actions == [] then Some(Init(capacity, n))
    else
      match Run(capacity, n, actions[..|actions| - 1])
      case None => None
      case Some(s) =>
        var a := actions[|actions| - 1];
        if Enabled(s, a) then Some(Apply(s, a)) else None
  }

  ghost predicate Reachable(capacity: nat, n: nat, s: State)
    requires capacity >= 2
  {
    exists actions :: Run(capacity, n, actions) == Some(s)
  }

  lemma ReachableNext(capacity: nat, n: nat, s: State, a: Action)
    requires capacity >= 2 && Reachable(capacity, n, s) && Enabled(s, a)
    ensures Reachable(capacity, n, Apply(s, a))
  {
    hide Enabled, Apply;
    var actions :| Run(capacity, n, actions) == Some(s);
    assert (actions + [a])[..|actions + [a]| - 1] == actions;
    assert Run(capacity, n, actions + [a]) == Some(Apply(s, a));
  }

  // ----- counting threads -----

  function ThreadCount(pcs: seq<Pc>, want: set<Pc>): (n: nat)
    ensures n <= |pcs|
  {
    if pcs == [] then 0
    else ThreadCount(pcs[..|pcs| - 1], want) + if pcs[|pcs| - 1] in want then 1 else 0
  }

  lemma {:induction false} ThreadCountUpdated(pcs: seq<Pc>, i: nat, pc: Pc, want: set<Pc>)
    requires i < |pcs|
    ensures ThreadCount(pcs[i := pc], want)
            == ThreadCount(pcs, want) - (if pcs[i] in want then 1 else 0) + (if pc in want then 1 else 0)
  {
    if i < |pcs| - 1 {
      ThreadCountUpdated(pcs[..|pcs| - 1], i, pc, want);
      assert pcs[i := pc][..|pcs| - 1] == pcs[..|pcs| - 1][i := pc];
    } else {
      assert pcs[i := pc][..|pcs| - 1] == pcs[..|pcs| - 1];
    }
  }

  lemma {:induction false} ThreadCountPositive(pcs: seq<Pc>, want: set<Pc>)
    ensures ThreadCount(pcs, want) > 0 <==> exists i :: 0 <= i < |pcs| && pcs[i] in want
    ensures ThreadCount(pcs, want) == |pcs| <==> forall i :: 0 <= i < |pcs| ==> pcs[i] in want
  {
    if pcs != [] {
      var rest := pcs[..|pcs| - 1];
      ThreadCountPositive(rest, want);
      assert forall i :: 0 <= i < |rest| ==> rest[i] == pcs[i];
    }
  }

  lemma {:induction false} ThreadCountDisjoint(pcs: seq<Pc>, one: set<Pc>, two: set<Pc>)
    requires one !! two
    ensures ThreadCount(pcs, one) + ThreadCount(pcs, two) <= |pcs|
  {
    if pcs != [] { ThreadCountDisjoint(pcs[..|pcs| - 1], one, two); }
  }

  function Sleepers(s: State): nat { ThreadCount(s.workers, {Sleeping}) }

  /** Workers that will look at the buffer again by themselves. */
  function OnTheirWay(s: State): nat { ThreadCount(s.workers, {Woken, Testing}) }

  function Signallers(s: State): nat { ThreadCount(s.workers, {Signalling}) }

  // ----- what every run keeps -----

  predicate Holds(pc: Pc) { pc in {Testing, Signalling, Unlocking} }

  /** The mutex: exactly its owner is inside. */
  ghost predicate Exclusive(s: State) {
    && (s.owner.Some? ==> Exists(s, s.owner.value))
    && forall t :: Exists(s, t) ==> (Holds(PcOf(s, t)) <==> s.owner == Some(t))
  }

  /** First in, first out: the clients taken out, followed by those waiting, are the ones put in. */
  ghost predicate Fifo(s: State) {
    ValidRing(s.ring) && s.pushed == s.popped + Contents(s.ring)
  }

  /** While some worker sleeps, every waiting client has a worker, or a signal, on its way. */
  ghost predicate Attended(s: State) {
    && ValidRing(s.ring)
    && (Sleepers(s) > 0 ==> Size(s.ring) <= OnTheirWay(s) + if s.producer == Signalling then 1 else 0)
  }

  ghost predicate Invariant(capacity: nat, n: nat, s: State) {
    && |s.workers| == n && |s.ring.clients| == capacity >= 2
    && Exclusive(s) && Fifo(s) && Attended(s)
  }

  /** The accepting thread sleeps only on a full buffer, and no worker sleeps then. */
  ghost predicate Prompt(s: State) {
    ValidRing(s.ring) && (s.producer == Sleeping ==>
                            Sleepers(s) == 0 && Size(s.ring) + Signallers(s) == |s.ring.clients| - 1)
  }

  /** While the accepting thread sleeps, clients and signals to come outnumber the sleeping workers. */
  ghost predicate Outnumbered(s: State) {
    ValidRing(s.ring) && (s.producer == Sleeping ==> Sleepers(s) < Size(s.ring) + Signallers(s))
  }

  predicate AllAsleep(s: State) {
    s.producer == Sleeping && forall i :: 0 <= i < |s.workers| ==> s.workers[i] == Sleeping
  }

  // ----- one step -----

  lemma InitKeeps(capacity: nat, n: nat)
    requires capacity >= 2
    ensures Invariant(capacity, n, Init(capacity, n)) && Prompt(Init(capacity, n)) && Outnumbered(Init(capacity, n))
  {
    var s := Init(capacity, n);
    ThreadCountPositive(s.workers, {Sleeping});
    forall t | Exists(s, t) ensures !Holds(PcOf(s, t)) {}
  }

  lemma StepExclusive(s: State, a: Action)
    requires Exclusive(s) && Enabled(s, a)
    ensures Exclusive(Apply(s, a)) && |Apply(s, a).workers| == |s.workers|
  {
    var n := Apply(s, a);
    assert forall t :: Exists(n, t) <==> Exists(s, t);
    forall t | Exists(n, t) ensures Holds(PcOf(n, t)) <==> n.owner == Some(t) {
      assert Holds(PcOf(s, t)) <==> s.owner == Some(t);
      assert Holds(PcOf(s, a.t)) <==> s.owner == Some(a.t);
    }
  }

  lemma StepFifo(s: State, a: Action)
    requires Fifo(s) && Enabled(s, a)
    ensures Fifo(Apply(s, a)) && |Apply(s, a).ring.clients| == |s.ring.clients|
  {
    hide Contents;
    if a == Test(Producer) && !IsFull(s.ring) {
      PushAppends(s.ring, s.fd);
    } else if a.Test? && a.t.Worker? && !IsEmpty(s.ring) {
      PopTakesOldest(s.ring);
    }
  }

  function In(pc: Pc, want: set<Pc>): int { if pc in want then 1 else 0 }

  /** How a worker's move from one place to another changes a count of workers. */
  function Change(t: Thread, from: Pc, to: Pc, want: set<Pc>): int {
    if t.Worker? then In(to, want) - In(from, want) else 0
  }

  lemma GoesCounts(s: State, t: Thread, pc: Pc, want: set<Pc>)
    requires Exists(s, t)
    ensures ThreadCount(Goes(s, t, pc).workers, want) == ThreadCount(s.workers, want) + Change(t, PcOf(s, t), pc, want)
  {
    if t.Worker? { ThreadCountUpdated(s.workers, t.i, pc, want); }
  }

  /** How a step changes a count of workers. */
  function StepChange(s: State, a: Action, want: set<Pc>): int
    requires Enabled(s, a)
  {
    if a.Signal? then
      Change(a.t, Signalling, Unlocking, want)
      + if a.woken.Some? then Change(a.woken.value, Sleeping, Woken, want) else 0
    else Change(a.t, PcOf(s, a.t), PcOf(Apply(s, a), a.t), want)
  }

  lemma StepCounts(s: State, a: Action, want: set<Pc>)
    requires Enabled(s, a)
    ensures ThreadCount(Apply(s, a).workers, want) == ThreadCount(s.workers, want) + StepChange(s, a, want)
  {
    hide ThreadCount, ValidRing, IsFull, IsEmpty, Push, Pop, In;
    var n := Apply(s, a);
    if a.Signal? {
      GoesCounts(s, a.t, Unlocking, want);
      if a.woken.Some? { GoesCounts(Goes(s, a.t, Unlocking), a.woken.value, Woken, want); }
    } else {
      GoesCounts(s, a.t, PcOf(n, a.t), want);
    }
  }

  /** While a thread tests, nobody has a signal outstanding. */
  lemma NoneSignalling(s: State, t: Thread)
    requires Exclusive(s) && Exists(s, t) && PcOf(s, t) == Testing
    ensures Signallers(s) == 0 && (t.Worker? ==> s.producer != Signalling)
  {
    assert s.owner == Some(t);
    forall i | 0 <= i < |s.workers| ensures s.workers[i] != Signalling {
      assert Holds(PcOf(s, Worker(i))) <==> s.owner == Some(Worker(i));
    }
    ThreadCountPositive(s.workers, {Signalling});
    assert Holds(PcOf(s, Producer)) <==> s.owner == Some(Producer);
  }

  lemma SizesChange(q: Ring, client: int)
    requires ValidRing(q)
    ensures IsEmpty(q) <==> Size(q) == 0
    ensures IsFull(q) <==> Size(q) == |q.clients| - 1
    ensures !IsFull(q) ==> ValidRing(Push(q, client)) && Size(Push(q, client)) == Size(q) + 1
    ensures |Push(q, client).clients| == |Pop(q).clients| == |q.clients|
    ensures !IsEmpty(q) ==> ValidRing(Pop(q)) && Size(Pop(q)) == Size(q) - 1
  {
  }

  lemma StepAttended(s: State, a: Action)
    requires Exclusive(s) && Attended(s) && Enabled(s, a)
    ensures Attended(Apply(s, a))
  {
    hide ThreadCount, Size, Exclusive, Push, Pop, IsFull, IsEmpty;
    StepCounts(s, a, {Sleeping});
    StepCounts(s, a, {Woken, Testing});
    SizesChange(s.ring, s.fd);
    if a.Test? { NoneSignalling(s, a.t); }
    if a.Signal? { SleeperIsWoken(s, a); }
  }

  /** A signal of the accepting thread reaches a worker whenever one sleeps. */
  lemma SleeperIsWoken(s: State, a: Action)
    requires Enabled(s, a) && a.Signal?
    ensures a.woken.None? ==> Sleepers(s) == 0
    ensures a.woken.Some? && a.woken.value.Worker? ==> Sleepers(s) > 0
    ensures a.t.Producer? && a.woken.Some? ==> a.woken.value.Worker?
  {
    ThreadCountPositive(s.workers, {Sleeping});
    if a.woken.Some? && a.woken.value.Worker? {
      assert s.workers[a.woken.value.i] in {Sleeping};
    }
  }

  lemma StepInvariant(capacity: nat, n: nat, s: State, a: Action)
    requires Invariant(capacity, n, s) && Enabled(s, a)
    ensures Invariant(capacity, n, Apply(s, a))
  {
    hide Exclusive, Fifo, Attended, Apply;
    StepExclusive(s, a);
    StepFifo(s, a);
    StepAttended(s, a);
  }

  lemma StepPrompt(capacity: nat, n: nat, s: State, a: Action)
    requires Invariant(capacity, n, s) && Prompt(s) && Enabled(s, a) && n <= capacity - 1
    ensures Prompt(Apply(s, a))
  {
    hide ThreadCount, Size, Exclusive, Push, Pop, IsFull, IsEmpty, Fifo;
    StepCounts(s, a, {Sleeping});
    StepCounts(s, a, {Signalling});
    SizesChange(s.ring, s.fd);
    ThreadCountDisjoint(s.workers, {Sleeping}, {Woken, Testing});
    if a.Test? { NoneSignalling(s, a.t); }
    if a.Signal? { SleeperIsWoken(s, a); }
  }

  lemma StepOutnumbered(capacity: nat, n: nat, s: State, a: Action)
    requires Invariant(capacity, n, s) && Outnumbered(s) && Enabled(s, a) && n < 2 * (capacity - 1)
    ensures Outnumbered(Apply(s, a))
  {
    hide ThreadCount, Size, Exclusive, Push, Pop, IsFull, IsEmpty, Fifo;
    StepCounts(s, a, {Sleeping});
    StepCounts(s, a, {Signalling});
    SizesChange(s.ring, s.fd);
    ThreadCountDisjoint(s.workers, {Sleeping}, {Woken, Testing});
    if a.Test? { NoneSignalling(s, a.t); }
    if a.Signal? { SleeperIsWoken(s, a); }
  }

  // ----- all runs -----

  /** Mutual exclusion, FIFO order and attended clients, for any number of workers. */
  lemma {:induction false} RunInvariant(capacity: nat, n: nat, actions: seq<Action>)
    requires capacity >= 2 && Run(capacity, n, actions).Some?
    ensures Invariant(capacity, n, Run(capacity, n, actions).value)
    ensures n <= capacity - 1 ==> Prompt(Run(capacity, n, actions).value)
    ensures n < 2 * (capacity - 1) ==> Outnumbered(Run(capacity, n, actions).value)
  {
    hide Invariant, Prompt, Outnumbered, Enabled, Apply, Init;
    if actions == [] {
      InitKeeps(capacity, n);
    } else {
      var before := actions[..|actions| - 1];
      RunInvariant(capacity, n, before);
      var s, a := Run(capacity, n, before).value, actions[|actions| - 1];
      StepInvariant(capacity, n, s, a);
      if n <= capacity - 1 { StepPrompt(capacity, n, s, a); }
      if n < 2 * (capacity - 1) { StepOutnumbered(capacity, n, s, a); }
    }
  }

  /** A step that the threads inside the two functions take without anything from outside. */
  predicate Driven(s: State, a: Action) {
    Enabled(s, a) && !a.SpuriousWake? && (a.Lock? ==> PcOf(s, a.t) == Woken)
  }

  /** The owner of the mutex can always go on. */
  lemma OwnerActs(s: State) returns (a: Action)
    requires Exclusive(s) && ValidRing(s.ring) && s.owner.Some?
    ensures Driven(s, a)
  {
    var t := s.owner.value;
    assert Holds(PcOf(s, t));
    if PcOf(s, t) == Testing {
      a := Test(t);
    } else if PcOf(s, t) == Unlocking {
      a := Unlock(t);
    } else if s.producer == Sleeping {
      a := Signal(t, Some(Producer));
    } else if Sleeping in s.workers {
      var i :| 0 <= i < |s.workers| && s.workers[i] == Sleeping;
      a := Signal(t, Some(Worker(i)));
    } else {
      a := Signal(t, None);
    }
  }

  /** A thread that can act by itself exists unless everybody sleeps. */
  lemma ActsUnlessAllAsleep(capacity: nat, n: nat, s: State)
    requires Invariant(capacity, n, s)
    ensures !AllAsleep(s) <==> exists a: Action :: !a.SpuriousWake? && Enabled(s, a)
  {
    hide ThreadCount, Attended;
    if s.owner.Some? {
      var a := OwnerActs(s);
      assert Enabled(s, a);
      assert Holds(PcOf(s, s.owner.value));
    } else if !AllAsleep(s) {
      var t := if s.producer != Sleeping then Producer
               else (var i :| 0 <= i < |s.workers| && s.workers[i] != Sleeping; Worker(i));
      assert !Holds(PcOf(s, t));
      assert Enabled(s, Lock(t, 0));
    }
  }

  // ----- progress -----

  /** What a thread's place contributes to the number of steps before all come to rest. */
  function Weight(pc: Pc): (w: nat)
    ensures w <= 6
  {
    match pc
    case Idle => 0
    case Unlocking => 1
    case Signalling => 4
    case Sleeping => 4
    case Testing => 5
    case Woken => 6
  }

  function Weights(pcs: seq<Pc>): (w: nat)
    ensures w <= 6 * |pcs|
  {
    if pcs == [] then 0 else Weights(pcs[..|pcs| - 1]) + Weight(pcs[|pcs| - 1])
  }

  function Rank(s: State): (r: nat)
    ensures r <= 6 * (|s.workers| + 1)
  {
    Weight(s.producer) + Weights(s.workers)
  }

  lemma {:induction false} WeightsUpdated(pcs: seq<Pc>, i: nat, pc: Pc)
    requires i < |pcs|
    ensures Weights(pcs[i := pc]) == Weights(pcs) - Weight(pcs[i]) + Weight(pc)
  {
    if i < |pcs| - 1 {
      WeightsUpdated(pcs[..|pcs| - 1], i, pc);
      assert pcs[i := pc][..|pcs| - 1] == pcs[..|pcs| - 1][i := pc];
    } else {
      assert pcs[i := pc][..|pcs| - 1] == pcs[..|pcs| - 1];
    }
  }

  lemma GoesRank(s: State, t: Thread, pc: Pc)
    requires Exists(s, t)
    ensures Rank(Goes(s, t, pc)) == Rank(s) - Weight(PcOf(s, t)) + Weight(pc)
  {
    if t.Worker? { WeightsUpdated(s.workers, t.i, pc); }
  }

  lemma DrivenLessens(s: State, a: Action)
    requires Driven(s, a)
    ensures Rank(Apply(s, a)) < Rank(s)
  {
    hide Weights, ValidRing, IsFull, IsEmpty, Push, Pop;
    var n := Apply(s, a);
    if a.Signal? {
      GoesRank(s, a.t, Unlocking);
      if a.woken.Some? { GoesRank(Goes(s, a.t, Unlocking), a.woken.value, Woken); }
    } else {
      GoesRank(s, a.t, PcOf(n, a.t));
    }
  }

  /** The state after driven steps only. */
  function Drive(s: State, actions: seq<Action>): Option<State>
    decreases |actions|
  {
    if actions == [] then Some(s)
    else if Driven(s, actions[0]) then Drive(Apply(s, actions[0]), actions[1..])
    else None
  }

  /** A worker inside `queue_pop` that has no client yet. */
  predicate Waits(s: State, i: nat) { i < |s.workers| && s.workers[i] in {Sleeping, Woken, Testing} }

  /** Nobody but idle threads has anything to do. */
  ghost predicate AtRest(s: State) { forall a :: !Driven(s, a) }

  lemma RestMeans(s: State)
    requires Exclusive(s) && ValidRing(s.ring) && AtRest(s)
    ensures forall t :: Exists(s, t) ==> PcOf(s, t) in {Idle, Sleeping}
  {
    if s.owner.Some? {
      var a := OwnerActs(s);
      assert false;
    }
    forall t | Exists(s, t) ensures PcOf(s, t) in {Idle, Sleeping} {
      assert !Holds(PcOf(s, t)) <== s.owner != Some(t);
      assert PcOf(s, t) == Woken ==> Driven(s, Lock(t, 0));
    }
  }

  /** Without a pop between `s` and `r` a waiting worker waits on, and every client stays in the buffer. */
  predicate PoppedOrWaits(s: State, r: State, i: nat) {
    && ValidRing(s.ring) && ValidRing(r.ring) && |r.popped| >= |s.popped|
    && (|r.popped| == |s.popped| && Waits(s, i) ==> Waits(r, i) && Size(r.ring) >= Size(s.ring))
  }

  lemma StepPoppedOrWaits(s: State, a: Action, i: nat)
    requires Enabled(s, a)
    ensures PoppedOrWaits(s, Apply(s, a), i)
  {
    hide Size, Push, Pop, IsFull;
    SizesChange(s.ring, s.fd);
  }

  /** A driven run is no longer than the rank it uses up. */
  lemma {:induction false} DriveKeeps(capacity: nat, n: nat, s: State, actions: seq<Action>, i: nat)
    requires Invariant(capacity, n, s) && Drive(s, actions).Some?
    ensures var r := Drive(s, actions).value;
            Invariant(capacity, n, r) && |actions| + Rank(r) <= Rank(s) && PoppedOrWaits(s, r, i)
    decreases |actions|
  {
    hide Apply, Waits, Rank, Size, Exclusive, Contents, Attended;
    if actions != [] {
      hide Enabled;
      var a := actions[0];
      StepInvariant(capacity, n, s, a);
      DrivenLessens(s, a);
      StepPoppedOrWaits(s, a, i);
      DriveKeeps(capacity, n, Apply(s, a), actions[1..], i);
    }
  }

  /**
   * A waiting client is taken: from any reachable state with a client in the buffer and a worker
   * inside `queue_pop`, whatever way the threads inside the two functions go on until none of
   * them can, they have taken at most `Rank(s)` steps and some worker has taken a client. The
   * clients taken come first in the order of arrival.
   */
  lemma WaitingClientIsTaken(capacity: nat, n: nat, s: State, i: nat, actions: seq<Action>)
    requires capacity >= 2 && Reachable(capacity, n, s) && ValidRing(s.ring)
    requires Size(s.ring) > 0 && Waits(s, i)
    requires Drive(s, actions).Some? && AtRest(Drive(s, actions).value)
    ensures |actions| <= Rank(s) <= 6 * (n + 1)
    ensures |Drive(s, actions).value.popped| > |s.popped|
  {
    hide Run, Drive, Rank, Size, Driven, ThreadCount;
    var history :| Run(capacity, n, history) == Some(s);
    RunInvariant(capacity, n, history);
    DriveKeeps(capacity, n, s, actions, i);
    var r := Drive(s, actions).value;
    RestMeans(r);
    if |r.popped| == |s.popped| {
      assert PcOf(r, Worker(i)) in {Idle, Sleeping};
      NobodyComes(r, i);
    }
  }

  /** At rest with a worker asleep the buffer is empty. */
  lemma NobodyComes(s: State, i: nat)
    requires Attended(s) && i < |s.workers| && s.workers[i] == Sleeping
    requires forall t :: Exists(s, t) ==> PcOf(s, t) in {Idle, Sleeping}
    ensures Size(s.ring) == 0
  {
    hide Size;
    ThreadCountPositive(s.workers, {Sleeping});
    ThreadCountPositive(s.workers, {Woken, Testing});
    assert forall k :: 0 <= k < |s.workers| ==> PcOf(s, Worker(k)) == s.workers[k];
    assert PcOf(s, Producer) == s.producer;
  }

  /** From every state the driven steps do come to rest. */
  lemma {:induction false} ComesToRest(s: State) returns (actions: seq<Action>)
    ensures Drive(s, actions).Some? && AtRest(Drive(s, actions).value)
    decreases Rank(s)
  {
    hide Enabled, Rank, Apply;
    if exists a :: Driven(s, a) {
      var a :| Driven(s, a);
      DrivenLessens(s, a);
      var rest := ComesToRest(Apply(s, a));
      actions := [a] + rest;
      assert actions[1..] == rest;
    } else {
      actions := [];
    }
  }

  // ----- the bounds are exact -----

  /** A worker takes the mutex, finds the buffer empty and goes to sleep. */
  lemma WorkerSleeps(capacity: nat, n: nat, s: State, i: nat) returns (r: State)
    requires capacity >= 2 && Reachable(capacity, n, s) && ValidRing(s.ring) && IsEmpty(s.ring)
    requires i < |s.workers| && s.owner == None && s.workers[i] in {Idle, Woken}
    ensures Reachable(capacity, n, r)
    ensures r == s.(workers := s.workers[i := Sleeping])
  {
    hide Reachable;
    var t := Worker(i);
    ReachableNext(capacity, n, s, Lock(t, 0));
    var s1 := Apply(s, Lock(t, 0));
    ReachableNext(capacity, n, s1, Test(t));
    r := Apply(s1, Test(t));
    assert s1.workers[i := Sleeping] == s.workers[i := Sleeping];
  }

  /** The accepting thread puts in a client and wakes a sleeping worker, which stays woken. */
  lemma ProducerPushes(capacity: nat, n: nat, s: State, i: nat) returns (r: State)
    requires capacity >= 2 && Reachable(capacity, n, s) && ValidRing(s.ring) && !IsFull(s.ring)
    requires i < |s.workers| && s.owner == None && s.workers[i] == Sleeping && s.producer == Idle
    ensures Reachable(capacity, n, r) && ValidRing(r.ring) && |r.ring.clients| == |s.ring.clients|
    ensures Size(r.ring) == Size(s.ring) + 1
    ensures r.owner == None && r.producer == Idle && r.workers == s.workers[i := Woken]
  {
    hide Reachable;
    SizesChange(s.ring, 0);
    var t := Producer;
    ReachableNext(capacity, n, s, Lock(t, 0));
    var s1 := Apply(s, Lock(t, 0));
    ReachableNext(capacity, n, s1, Test(t));
    var s2 := Apply(s1, Test(t));
    var a := Signal(t, Some(Worker(i)));
    ReachableNext(capacity, n, s2, a);
    var s3 := Apply(s2, a);
    ReachableNext(capacity, n, s3, Unlock(t));
    r := Apply(s3, Unlock(t));
  }

  /** The accepting thread finds the buffer full and goes to sleep. */
  lemma ProducerSleeps(capacity: nat, n: nat, s: State) returns (r: State)
    requires capacity >= 2 && Reachable(capacity, n, s) && ValidRing(s.ring) && IsFull(s.ring)
    requires s.owner == None && s.producer == Idle
    ensures Reachable(capacity, n, r) && r.ring == s.ring && r.workers == s.workers
    ensures r.owner == None && r.producer == Sleeping
  {
    hide Reachable;
    ReachableNext(capacity, n, s, Lock(Producer, 0));
    var s1 := Apply(s, Lock(Producer, 0));
    ReachableNext(capacity, n, s1, Test(Producer));
    r := Apply(s1, Test(Producer));
  }

  /** Worker `i` takes a client, and its signal goes to the sleeping worker `j`. */
  lemma WorkerPops(capacity: nat, n: nat, s: State, i: nat, j: nat) returns (r: State)
    requires capacity >= 2 && Reachable(capacity, n, s) && ValidRing(s.ring) && !IsEmpty(s.ring)
    requires i < |s.workers| && j < |s.workers| && s.owner == None
    requires s.workers[i] == Woken && s.workers[j] == Sleeping
    ensures Reachable(capacity, n, r) && ValidRing(r.ring) && |r.ring.clients| == |s.ring.clients|
    ensures Size(r.ring) == Size(s.ring) - 1
    ensures r.owner == None && r.producer == s.producer && r.workers == s.workers[i := Idle][j := Woken]
  {
    hide Reachable;
    SizesChange(s.ring, 0);
    var t := Worker(i);
    ReachableNext(capacity, n, s, Lock(t, 0));
    var s1 := Apply(s, Lock(t, 0));
    ReachableNext(capacity, n, s1, Test(t));
    var s2 := Apply(s1, Test(t));
    var a := Signal(t, Some(Worker(j)));
    ReachableNext(capacity, n, s2, a);
    var s3 := Apply(s2, a);
    ReachableNext(capacity, n, s3, Unlock(t));
    r := Apply(s3, Unlock(t));
    assert r.workers == s.workers[i := Idle][j := Woken];
  }

  /** Workers below `woken` are woken, the others asleep. */
  ghost predicate WokenBelow(s: State, woken: nat) {
    forall k :: 0 <= k < |s.workers| ==> s.workers[k] == if k < woken then Woken else Sleeping
  }

  lemma {:induction false} AllWorkersSleep(capacity: nat, n: nat, s: State, k: nat) returns (r: State)
    requires capacity >= 2 && Reachable(capacity, n, s) && ValidRing(s.ring) && IsEmpty(s.ring)
    requires k <= |s.workers| && s.owner == None
    requires forall i :: 0 <= i < k ==> s.workers[i] in {Idle, Woken}
    requires forall i :: k <= i < |s.workers| ==> s.workers[i] == Sleeping
    ensures Reachable(capacity, n, r) && r == s.(workers := r.workers) && |r.workers| == |s.workers|
    ensures WokenBelow(r, 0)
    decreases k
  {
    hide Reachable;
    if k == 0 {
      r := s;
    } else {
      var s1 := WorkerSleeps(capacity, n, s, k - 1);
      r := AllWorkersSleep(capacity, n, s1, k - 1);
    }
  }

  /** All workers go to sleep, then `k` clients arrive and each wakes one more of them. */
  lemma {:induction false} ClientsArrive(capacity: nat, n: nat, k: nat) returns (r: State)
    requires capacity >= 2 && k <= n && k < capacity
    ensures Reachable(capacity, n, r) && ValidRing(r.ring) && |r.ring.clients| == capacity
    ensures |r.workers| == n && WokenBelow(r, k)
    ensures Size(r.ring) == k && r.owner == None && r.producer == Idle
  {
    hide Reachable;
    if k == 0 {
      var s := Init(capacity, n);
      Started(capacity, n);
      SizesChange(s.ring, 0);
      r := AllWorkersSleep(capacity, n, s, n);
    } else {
      var s := ClientsArrive(capacity, n, k - 1);
      SizesChange(s.ring, 0);
      r := ProducerPushes(capacity, n, s, k - 1);
    }
  }

  lemma Started(capacity: nat, n: nat)
    requires capacity >= 2
    ensures Reachable(capacity, n, Init(capacity, n))
  {
    assert Run(capacity, n, []) == Some(Init(capacity, n));
  }

  /** The accepting thread sleeps; `k` workers have each taken a client and woken another worker. */
  lemma {:induction false} SignalsAstray(capacity: nat, n: nat, k: nat) returns (r: State)
    requires capacity >= 2 && k < capacity && capacity - 1 + k <= n
    ensures Reachable(capacity, n, r) && ValidRing(r.ring) && |r.ring.clients| == capacity
    ensures |r.workers| == n && r.owner == None && r.producer == Sleeping && Size(r.ring) == capacity - 1 - k
    ensures forall i :: 0 <= i < n ==> r.workers[i] == if i < k then Idle else if i < capacity - 1 + k then Woken
                                                       else Sleeping
  {
    hide Reachable;
    if k == 0 {
      var s := ClientsArrive(capacity, n, capacity - 1);
      SizesChange(s.ring, 0);
      r := ProducerSleeps(capacity, n, s);
    } else {
      var s := SignalsAstray(capacity, n, k - 1);
      SizesChange(s.ring, 0);
      r := WorkerPops(capacity, n, s, k - 1, capacity - 1 + k - 1);
    }
  }

  /**
   * The accepting thread can sleep on, with room in the buffer and no signal on its way, exactly
   * when there are at least as many workers as slots.
   */
  lemma PromptIff(capacity: nat, n: nat)
    requires capacity >= 2
    ensures (forall s :: Reachable(capacity, n, s) ==> Prompt(s)) <==> n <= capacity - 1
  {
    hide Prompt;
    forall s | Reachable(capacity, n, s) && n <= capacity - 1 ensures Prompt(s) {
      var actions :| Run(capacity, n, actions) == Some(s);
      RunInvariant(capacity, n, actions);
    }
    if n > capacity - 1 {
      var s := SignalsAstray(capacity, n, 1);
      NotPrompt(s);
      assert Reachable(capacity, n, s) && !Prompt(s);
    }
  }

  lemma NotPrompt(s: State)
    requires ValidRing(s.ring) && s.producer == Sleeping && Size(s.ring) < |s.ring.clients| - 1
    requires forall i :: 0 <= i < |s.workers| ==> s.workers[i] != Signalling
    ensures !Prompt(s)
  {
    ThreadCountPositive(s.workers, {Signalling});
  }

  /** Everybody can end up asleep exactly when there are at least twice as many workers as usable slots. */
  lemma AllAsleepIff(capacity: nat, n: nat)
    requires capacity >= 2 && n >= 1
    ensures (exists s :: Reachable(capacity, n, s) && AllAsleep(s)) <==> n >= 2 * (capacity - 1)
  {
    hide AllAsleep, Reachable;
    forall s | Reachable(capacity, n, s) && n < 2 * (capacity - 1) ensures !AllAsleep(s) {
      NeverAllAsleep(capacity, n, s);
    }
    if n >= 2 * (capacity - 1) {
      var s := SignalsAstray(capacity, n, capacity - 1);
      SizesChange(s.ring, 0);
      var r := AllWorkersSleep(capacity, n, s, 2 * (capacity - 1));
      assert Reachable(capacity, n, r) && AllAsleep(r) by { Asleep(r); }
    }
  }

  lemma Asleep(s: State)
    requires s.producer == Sleeping && WokenBelow(s, 0)
    ensures AllAsleep(s)
  {
  }

  lemma NeverAllAsleep(capacity: nat, n: nat, s: State)
    requires capacity >= 2 && Reachable(capacity, n, s) && 1 <= n < 2 * (capacity - 1)
    ensures !AllAsleep(s)
  {
    hide Run;
    var actions :| Run(capacity, n, actions) == Some(s);
    RunInvariant(capacity, n, actions);
    if AllAsleep(s) {
      ThreadCountPositive(s.workers, {Sleeping});
      ThreadCountPositive(s.workers, {Signalling});
      ThreadCountDisjoint(s.workers, {Sleeping}, {Signalling});
      EmptyAttended(s);
    }
  }

  /** With everybody asleep and no worker on its way, the buffer can hold something only if no worker exists. */
  lemma EmptyAttended(s: State)
    requires Attended(s) && AllAsleep(s)
    ensures |s.workers| > 0 ==> Size(s.ring) == 0
  {
    ThreadCountPositive(s.workers, {Sleeping});
    ThreadCountPositive(s.workers, {Woken, Testing});
  }

  // ----- the server as it is -----

  const THREAD_POOL_SIZE := 8

  /** With eight workers on 128 slots no wake-up is ever lost and some thread can always go on. */
  lemma ServerNeverDeadlocks(s: State)
    requires Reachable(128, 8, s)
    ensures Fifo(s) && Exclusive(s) && Attended(s) && Prompt(s)
    ensures exists a: Action :: !a.SpuriousWake? && Enabled(s, a)
  {
    hide Run, Fifo, Exclusive, Attended, Prompt;
    var actions :| Run(MAX_QUEUE_SIZE, THREAD_POOL_SIZE, actions) == Some(s);
    RunInvariant(MAX_QUEUE_SIZE, THREAD_POOL_SIZE, actions);
    NeverAllAsleep(MAX_QUEUE_SIZE, THREAD_POOL_SIZE, s);
    ActsUnlessAllAsleep(MAX_QUEUE_SIZE, THREAD_POOL_SIZE, s);
  }
}
