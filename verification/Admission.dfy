/**
 Per-alias admission and lazy loading of inference components, as a step relation over
 concurrent calls.

 A call first makes sure its alias is loaded, loading outside the registry lock if need
 be, then fetches the registered component and, unless it is a mock, enters its admission
 gate: a counter under a mutex and a condition variable. One step is one critical section.
 Trusted of the condition variable: going to sleep releases the mutex atomically,
 `notify_one` wakes one sleeper if there is one, and any sleeper may wake by itself.
 */
module Admission {
  import opened Wrappers

  datatype Qos = RealTime | Standard | Batch

  /** Milliseconds a call may queue for a slot. */
  function AdmissionWait(qos: Qos): nat {
    match qos
    case RealTime => 0
    case Standard => 15_000
    case Batch => 30_000
  }

  datatype Component = Mock | Magnetar(gate: nat, qos: Qos)

  datatype Ticket = Ticket(qos: Qos, started: nat, deadline: nat)

  datatype Call =
    | Loading(alias: string)
    | Fetching(alias: string)
    | Checking(alias: string, gate: nat, ticket: Ticket, woken: bool)
    | Sleeping(alias: string, gate: nat, ticket: Ticket)
    | Holding(alias: string, gate: nat)
    | Releasing(alias: string, gate: nat)
    | Rejected(alias: string, gate: nat, ticket: Ticket, at: nat)
    | Finished

  datatype State = State(clock: nat, registry: map<string, Component>, gates: map<nat, nat>, calls: map<nat, Call>)

  datatype Action =
    | Tick(elapsed: nat)
    | Start(id: nat, alias: string)
    | LoadFails(id: nat)
    | LoadDone(id: nat, made: nat)
    | Fetch(id: nat)
    | Check(id: nat)
    | Wake(id: nat)
    | Drop(id: nat)
    | Notify(id: nat, chosen: Option<nat>)

  predicate Enabled(s: State, a: Action) {
    match a
    case Tick(_) => true
    case Start(id, _) => id !in s.calls
    case LoadFails(id) => id in s.calls && s.calls[id].Loading?
    case LoadDone(id, made) => id in s.calls && s.calls[id].Loading? && made !in s.gates
    case Fetch(id) => id in s.calls && s.calls[id].Fetching? && s.calls[id].alias in s.registry
    case Check(id) => id in s.calls && s.calls[id].Checking? && s.calls[id].gate in s.gates
    case Wake(id) => id in s.calls && s.calls[id].Sleeping?
    case Drop(id) => id in s.calls && s.calls[id].Holding? && s.calls[id].gate in s.gates
    case Notify(id, chosen) =>
      && id in s.calls && s.calls[id].Releasing?
      && match chosen
         case Some(w) => w in s.calls && s.calls[w].Sleeping? && s.calls[w].gate == s.calls[id].gate
         case None => forall w <- s.calls :: s.calls[w].Sleeping? ==> s.calls[w].gate != s.calls[id].gate
  }

  function SaturatingPred(n: nat): nat {
    if n == 0 then 0 else n - 1
  }

  /** What a call does with the mutex in hand: take a slot, give up, or sleep. */
  function AfterCheck(limit: nat, s: State, call: Call): Call
    requires call.Checking? && call.gate in s.gates
  {
    if s.gates[call.gate] < limit then Holding(call.alias, call.gate)
    else if s.clock >= call.ticket.deadline then Rejected(call.alias, call.gate, call.ticket, s.clock)
    else Sleeping(call.alias, call.gate, call.ticket)
  }

  function Step(limit: nat, s: State, a: Action): State
    requires Enabled(s, a)
  {
    match a
    case Tick(elapsed) => s.(clock := s.clock + elapsed)
    case Start(id, alias) =>
      s.(calls := s.calls[id := if alias in s.registry then Fetching(alias) else Loading(alias)])
    case LoadFails(id) => s.(calls := s.calls[id := Finished])
    case LoadDone(id, made) =>
      var alias := s.calls[id].alias;
      State(s.clock,
            if alias in s.registry then s.registry else s.registry[alias := Magnetar(made, Standard)],
            s.gates[made := 0],
            s.calls[id := Fetching(alias)])
    case Fetch(id) =>
      (match s.registry[s.calls[id].alias]
       case Mock => s.(calls := s.calls[id := Finished])
       case Magnetar(gate, qos) =>
         var ticket := Ticket(qos, s.clock, s.clock + AdmissionWait(qos));
         s.(calls := s.calls[id := Checking(s.calls[id].alias, gate, ticket, false)]))
    case Check(id) =>
      var call := s.calls[id];
      var call' := AfterCheck(limit, s, call);
      s.(gates := if call'.Holding? then s.gates[call.gate := s.gates[call.gate] + 1] else s.gates,
         calls := s.calls[id := call'])
    case Wake(id) =>
      var call := s.calls[id];
      s.(calls := s.calls[id := Checking(call.alias, call.gate, call.ticket, true)])
    case Drop(id) =>
      var call := s.calls[id];
      s.(gates := s.gates[call.gate := SaturatingPred(s.gates[call.gate])],
         calls := s.calls[id := Releasing(call.alias, call.gate)])
    case Notify(id, chosen) =>
      match chosen
      case None => s.(calls := s.calls[id := Finished])
      case Some(w) =>
        var sleeper := s.calls[w];
        s.(calls := s.calls[id := Finished][w := Checking(sleeper.alias, sleeper.gate, sleeper.ticket, true)])
  }

  // ---- Counting calls --------------------------------------------------------------------

  datatype Place = Elsewhere | At(role: Role, gate: nat)
  datatype Role = Holder | Releaser | Woken | Sleeper

  function PlaceOf(call: Call): Place {
    match call
    case Holding(_, gate) => At(Holder, gate)
    case Releasing(_, gate) => At(Releaser, gate)
    case Sleeping(_, gate, _) => At(Sleeper, gate)
    case Checking(_, gate, _, true) => At(Woken, gate)
    case _ => Elsewhere
  }

  function Members(calls: map<nat, Call>, place: Place): set<nat> {
    set id | id in calls && PlaceOf(calls[id]) == place
  }

  function Count(s: State, role: Role, gate: nat): nat {
    |Members(s.calls, At(role, gate))|
  }

  function One(b: bool): nat {
    if b then 1 else 0
  }

  lemma CountUpdate(calls: map<nat, Call>, id: nat, call: Call, place: Place)
    ensures |Members(calls[id := call], place)| ==
      |Members(calls, place)| + One(PlaceOf(call) == place) - One(id in calls && PlaceOf(calls[id]) == place)
  {
    var before, after := Members(calls, place), Members(calls[id := call], place);
    var rest := before - {id};
    assert after == if PlaceOf(call) == place then rest + {id} else rest;
    assert before == if id in before then rest + {id} else rest;
  }

  // ---- Invariant -------------------------------------------------------------------------

  /** The counter is the number of live guards, within the limit; and while a call sleeps,
      every free slot is spoken for by a release still to notify or a woken call. */
  ghost predicate GateOk(limit: nat, s: State, gate: nat)
    requires gate in s.gates
  {
    && s.gates[gate] == Count(s, Holder, gate) <= limit
    && (Count(s, Sleeper, gate) > 0 ==> limit - s.gates[gate] <= Count(s, Releaser, gate) + Count(s, Woken, gate))
  }

  predicate TicketOk(s: State, ticket: Ticket) {
    ticket.started <= s.clock && ticket.deadline == ticket.started + AdmissionWait(ticket.qos)
  }

  /** A call at a gate is at the gate registered for its alias. */
  predicate Registered(s: State, alias: string, gate: nat) {
    gate in s.gates && alias in s.registry && s.registry[alias].Magnetar? && s.registry[alias].gate == gate
  }

  predicate CallOk(s: State, call: Call) {
    match call
    case Loading(_) => true
    case Fetching(alias) => alias in s.registry
    case Checking(alias, gate, ticket, _) => Registered(s, alias, gate) && TicketOk(s, ticket)
    case Sleeping(alias, gate, ticket) => Registered(s, alias, gate) && TicketOk(s, ticket) && !ticket.qos.RealTime?
    case Holding(alias, gate) => Registered(s, alias, gate)
    case Releasing(alias, gate) => Registered(s, alias, gate)
    case Rejected(alias, gate, ticket, at) =>
      Registered(s, alias, gate) && TicketOk(s, ticket) && ticket.deadline <= at <= s.clock
    case Finished => true
  }

  predicate RegistryOk(s: State) {
    && (forall alias <- s.registry :: s.registry[alias].Magnetar? ==> s.registry[alias].gate in s.gates)
    && (forall a <- s.registry, b <- s.registry ::
          s.registry[a].Magnetar? && s.registry[b].Magnetar? && s.registry[a].gate == s.registry[b].gate ==> a == b)
  }

  ghost predicate Inv(limit: nat, s: State) {
    && RegistryOk(s)
    && (forall gate <- s.gates :: GateOk(limit, s, gate))
    && (forall id <- s.calls :: CallOk(s, s.calls[id]))
  }

  /** Boot: nothing running, every sealed component with a gate of its own. */
  ghost predicate Init(s: State) {
    s.calls == map[] && RegistryOk(s) && forall gate <- s.gates :: s.gates[gate] == 0
  }

  lemma InitInv(limit: nat, s: State)
    requires Init(s)
    ensures Inv(limit, s)
  {
    assert forall place :: Members(s.calls, place) == {};
  }

  /** What moving call `id` to `call` adds to a count. */
  function Delta(s: State, id: nat, call: Call, role: Role, gate: nat): int {
    One(PlaceOf(call) == At(role, gate)) - One(id in s.calls && PlaceOf(s.calls[id]) == At(role, gate))
  }

  lemma CountsAfterMove(s: State, s': State, id: nat, call: Call, gate: nat)
    requires s'.calls == s.calls[id := call]
    ensures Count(s', Holder, gate) == Count(s, Holder, gate) + Delta(s, id, call, Holder, gate)
    ensures Count(s', Releaser, gate) == Count(s, Releaser, gate) + Delta(s, id, call, Releaser, gate)
    ensures Count(s', Woken, gate) == Count(s, Woken, gate) + Delta(s, id, call, Woken, gate)
    ensures Count(s', Sleeper, gate) == Count(s, Sleeper, gate) + Delta(s, id, call, Sleeper, gate)
  {
    CountUpdate(s.calls, id, call, At(Holder, gate));
    CountUpdate(s.calls, id, call, At(Releaser, gate));
    CountUpdate(s.calls, id, call, At(Woken, gate));
    CountUpdate(s.calls, id, call, At(Sleeper, gate));
  }

  lemma NoSleepers(s: State, gate: nat)
    requires forall w <- s.calls :: s.calls[w].Sleeping? ==> s.calls[w].gate != gate
    ensures Count(s, Sleeper, gate) == 0
  {
    assert Members(s.calls, At(Sleeper, gate)) == {};
  }

  lemma NotifyKeepsGate(limit: nat, s: State, id: nat, chosen: Option<nat>, gate: nat)
    requires Enabled(s, Notify(id, chosen)) && gate in s.gates && GateOk(limit, s, gate)
    ensures GateOk(limit, Step(limit, s, Notify(id, chosen)), gate)
  {
    var s', mid := Step(limit, s, Notify(id, chosen)), s.(calls := s.calls[id := Finished]);
    CountsAfterMove(s, mid, id, Finished, gate);
    if chosen.Some? {
      CountsAfterMove(mid, s', chosen.value, s'.calls[chosen.value], gate);
    } else if gate == s.calls[id].gate {
      NoSleepers(s, gate);
    }
  }

  /** A slot is taken or freed only by a check or a drop at that very gate. */
  lemma MoveKeepsGate(limit: nat, s: State, a: Action, gate: nat)
    requires Enabled(s, a) && !a.Tick? && !a.Notify? && !a.LoadDone?
    requires gate in s.gates && GateOk(limit, s, gate)
    ensures GateOk(limit, Step(limit, s, a), gate)
  {
    var s' := Step(limit, s, a);
    CountsAfterMove(s, s', a.id, s'.calls[a.id], gate);
    if a.Drop? && gate == s.calls[a.id].gate {
      assert a.id in Members(s.calls, At(Holder, gate));
    }
  }

  lemma StepKeepsGates(limit: nat, s: State, a: Action, gate: nat)
    requires Inv(limit, s) && Enabled(s, a) && gate in Step(limit, s, a).gates
    ensures GateOk(limit, Step(limit, s, a), gate)
  {
    match a
    case Tick(_) =>
    case LoadDone(id, made) =>
      CountsAfterMove(s, Step(limit, s, a), id, Fetching(s.calls[id].alias), gate);
      if gate == made {
        NewGateIsEmpty(limit, s, made);
      }
    case Notify(id, chosen) => NotifyKeepsGate(limit, s, id, chosen, gate);
    case _ => MoveKeepsGate(limit, s, a, gate);
  }

  lemma NewGateIsEmpty(limit: nat, s: State, made: nat)
    requires Inv(limit, s) && made !in s.gates
    ensures forall role :: Count(s, role, made) == 0
  {
    forall role
      ensures Count(s, role, made) == 0
    {
      assert Members(s.calls, At(role, made)) == {};
    }
  }

  lemma StepKeepsRegistry(limit: nat, s: State, a: Action)
    requires RegistryOk(s) && Enabled(s, a)
    ensures RegistryOk(Step(limit, s, a))
  {
  }

  /** A call that makes no move stays as consistent as it was: gates are never removed. */
  lemma StepKeepsOthers(limit: nat, s: State, a: Action, call: Call)
    requires CallOk(s, call) && Enabled(s, a)
    ensures CallOk(Step(limit, s, a), call)
  {
  }

  lemma StepKeepsCall(limit: nat, s: State, a: Action, id: nat)
    requires Inv(limit, s) && Enabled(s, a) && id in Step(limit, s, a).calls
    ensures CallOk(Step(limit, s, a), Step(limit, s, a).calls[id])
  {
    if id in s.calls {
      assert CallOk(s, s.calls[id]);
      StepKeepsOthers(limit, s, a, s.calls[id]);
    }
  }

  /** Every step of every call keeps the invariant. */
  lemma StepKeepsInv(limit: nat, s: State, a: Action)
    requires Inv(limit, s) && Enabled(s, a)
    ensures Inv(limit, Step(limit, s, a))
  {
    StepKeepsRegistry(limit, s, a);
    forall id | id in Step(limit, s, a).calls
      ensures CallOk(Step(limit, s, a), Step(limit, s, a).calls[id])
    {
      StepKeepsCall(limit, s, a, id);
    }
    forall gate | gate in Step(limit, s, a).gates
      ensures GateOk(limit, Step(limit, s, a), gate)
    {
      StepKeepsGates(limit, s, a, gate);
    }
  }

  // ---- Runs --------------------------------------------------------------------------------

  ghost predicate IsRun(limit: nat, run: seq<State>) {
    && |run| > 0 && Init(run[0])
    && forall i :: 0 <= i < |run| - 1 ==> Follows(limit, run[i], run[i + 1])
  }

  ghost predicate Follows(limit: nat, s: State, s': State) {
    exists a :: Enabled(s, a) && s' == Step(limit, s, a)
  }

  ghost function ActionOf(limit: nat, s: State, s': State): (a: Action)
    requires Follows(limit, s, s')
    ensures Enabled(s, a) && s' == Step(limit, s, a)
  {
    var a :| Enabled(s, a) && s' == Step(limit, s, a);
    a
  }

  lemma {:induction false} RunKeepsInv(limit: nat, run: seq<State>, n: nat)
    requires IsRun(limit, run) && n < |run|
    ensures Inv(limit, run[n])
  {
    if n == 0 {
      InitInv(limit, run[0]);
    } else {
      RunKeepsInv(limit, run, n - 1);
      assert Follows(limit, run[n - 1], run[(n - 1) + 1]);
      var a :| Enabled(run[n - 1], a) && run[n] == Step(limit, run[n - 1], a);
      StepKeepsInv(limit, run[n - 1], a);
    }
  }

  /** However many calls race to load an alias, the first entry is the one that stays. */
  lemma {:induction false} FirstEntryWins(limit: nat, run: seq<State>, i: nat, j: nat, alias: string)
    requires IsRun(limit, run) && i <= j < |run| && alias in run[i].registry
    ensures alias in run[j].registry && run[j].registry[alias] == run[i].registry[alias]
  {
    if i < j {
      FirstEntryWins(limit, run, i, j - 1, alias);
      assert Follows(limit, run[j - 1], run[(j - 1) + 1]);
    }
  }

  function HoldersOf(s: State, alias: string): set<nat> {
    set id | id in s.calls && s.calls[id].Holding? && s.calls[id].alias == alias
  }

  /** At most `limit` calls of one alias execute at a time, whichever load each of them went
      through: they all hold the registered gate, whose counter is their number. */
  lemma AliasWithinLimit(limit: nat, run: seq<State>, n: nat, alias: string)
    requires IsRun(limit, run) && n < |run|
    ensures |HoldersOf(run[n], alias)| <= limit
    ensures HoldersOf(run[n], alias) != {} ==>
      && alias in run[n].registry && run[n].registry[alias].Magnetar?
      && run[n].registry[alias].gate in run[n].gates
      && run[n].gates[run[n].registry[alias].gate] == |HoldersOf(run[n], alias)|
  {
    RunKeepsInv(limit, run, n);
    var s := run[n];
    if id :| id in HoldersOf(s, alias) {
      assert CallOk(s, s.calls[id]);
      var gate := s.calls[id].gate;
      assert forall other <- s.calls :: CallOk(s, s.calls[other]);
      assert HoldersOf(s, alias) == Members(s.calls, At(Holder, gate));
      assert GateOk(limit, s, gate);
    }
  }

  /** The saturating decrement of a dropped guard never saturates. */
  lemma DropNeverSaturates(limit: nat, run: seq<State>, n: nat, id: nat)
    requires IsRun(limit, run) && n < |run| && id in run[n].calls && run[n].calls[id].Holding?
    ensures var gate := run[n].calls[id].gate; gate in run[n].gates && run[n].gates[gate] > 0
  {
    RunKeepsInv(limit, run, n);
    var s := run[n];
    assert CallOk(s, s.calls[id]);
    assert GateOk(limit, s, s.calls[id].gate);
    assert id in Members(s.calls, At(Holder, s.calls[id].gate));
  }

  /** No lost wakeup: a call never sleeps beside a free slot that nobody will hand it. At
      most two pending steps, a notification and a check, put a waiting call in a slot. */
  lemma SleeperIsServed(limit: nat, run: seq<State>, n: nat, sleeper: nat) returns (first: Option<Action>, w: nat)
    requires IsRun(limit, run) && n < |run|
    requires sleeper in run[n].calls && run[n].calls[sleeper].Sleeping?
    requires run[n].calls[sleeper].gate in run[n].gates && run[n].gates[run[n].calls[sleeper].gate] < limit
    ensures var s := run[n];
      && (first.Some? ==> first.value.Notify? && Enabled(s, first.value))
      && var mid := if first.Some? then Step(limit, s, first.value) else s;
      && Enabled(mid, Check(w)) && mid.calls[w].gate == s.calls[sleeper].gate
      && Step(limit, mid, Check(w)).calls[w].Holding?
  {
    RunKeepsInv(limit, run, n);
    var s, gate := run[n], run[n].calls[sleeper].gate;
    assert sleeper in Members(s.calls, At(Sleeper, gate));
    assert GateOk(limit, s, gate);
    if Members(s.calls, At(Woken, gate)) != {} {
      w :| w in Members(s.calls, At(Woken, gate));
      first := None;
    } else {
      var releaser :| releaser in Members(s.calls, At(Releaser, gate));
      w := sleeper;
      first := Some(Notify(releaser, Some(sleeper)));
    }
  }

  /** The time a call has to be let in: none, fifteen seconds or thirty. */
  ghost predicate WaitedOut(ticket: Ticket, now: nat) {
    match ticket.qos
    case RealTime => now >= ticket.started
    case Standard => now - ticket.started >= 15_000
    case Batch => now - ticket.started >= 30_000
  }

  /** A call is turned away only after its whole wait, at a moment the gate was full; a
      real-time call never sleeps. */
  lemma RejectedOnlyLateAndFull(limit: nat, run: seq<State>, n: nat, id: nat)
    requires IsRun(limit, run) && n < |run| && id in run[n].calls
    ensures run[n].calls[id].Sleeping? ==> !run[n].calls[id].ticket.qos.RealTime?
    ensures run[n].calls[id].Rejected? ==>
      && WaitedOut(run[n].calls[id].ticket, run[n].calls[id].at)
      && exists i :: 0 <= i < n && run[i].clock == run[n].calls[id].at
           && run[n].calls[id].gate in run[i].gates && run[i].gates[run[n].calls[id].gate] == limit
  {
    RunKeepsInv(limit, run, n);
    assert CallOk(run[n], run[n].calls[id]);
    if run[n].calls[id].Rejected? {
      var i := RejectionMoment(limit, run, n, id);
    }
  }

  /** With the mutex in hand a call is let in exactly when a slot is free, turned away exactly
      when none is and its wait is over, and sleeps exactly when none is and time is left; only
      its own place changes, and the counter only when it is let in. */
  lemma CheckDecides(limit: nat, run: seq<State>, n: nat, id: nat)
    requires IsRun(limit, run) && n < |run| && Enabled(run[n], Check(id))
    ensures var s, call := run[n], run[n].calls[id];
      var s', full := Step(limit, s, Check(id)), s.gates[call.gate] == limit;
      && (!full <==> s' == s.(gates := s.gates[call.gate := s.gates[call.gate] + 1],
                              calls := s.calls[id := Holding(call.alias, call.gate)]))
      && (full && WaitedOut(call.ticket, s.clock) <==>
            s' == s.(calls := s.calls[id := Rejected(call.alias, call.gate, call.ticket, s.clock)]))
      && (full && !WaitedOut(call.ticket, s.clock) <==>
            s' == s.(calls := s.calls[id := Sleeping(call.alias, call.gate, call.ticket)]))
  {
    RunKeepsInv(limit, run, n);
    var s, call := run[n], run[n].calls[id];
    assert CallOk(s, call) && GateOk(limit, s, call.gate);
    var s' := Step(limit, s, Check(id));
    assert s'.calls[id] == AfterCheck(limit, s, call);
    assert s.calls[id := Holding(call.alias, call.gate)][id].Holding?;
    assert s.calls[id := Rejected(call.alias, call.gate, call.ticket, s.clock)][id].Rejected?;
    assert s.calls[id := Sleeping(call.alias, call.gate, call.ticket)][id].Sleeping?;
  }

  /** A sleeping call went to sleep before its wait was over, at a full gate, and has not moved
      since. */
  lemma {:induction false} SleptOnlyEarlyAndFull(limit: nat, run: seq<State>, n: nat, id: nat) returns (i: nat)
    requires IsRun(limit, run) && n < |run| && id in run[n].calls && run[n].calls[id].Sleeping?
    ensures i < n && !WaitedOut(run[n].calls[id].ticket, run[i].clock)
    ensures run[n].calls[id].gate in run[i].gates && run[i].gates[run[n].calls[id].gate] == limit
    ensures forall k :: i < k <= n ==> id in run[k].calls && run[k].calls[id] == run[n].calls[id]
  {
    assert n > 0;
    i := n - 1;
    if id in run[i].calls && run[i].calls[id] == run[n].calls[id] {
      i := SleptOnlyEarlyAndFull(limit, run, i, id);
    } else {
      FellAsleep(limit, run, i, n, id);
    }
  }

  lemma FellAsleep(limit: nat, run: seq<State>, i: nat, n: nat, id: nat)
    requires IsRun(limit, run) && i + 1 == n < |run| && id in run[n].calls && run[n].calls[id].Sleeping?
    requires !(id in run[i].calls && run[i].calls[id] == run[n].calls[id])
    ensures !WaitedOut(run[n].calls[id].ticket, run[i].clock)
    ensures run[n].calls[id].gate in run[i].gates && run[i].gates[run[n].calls[id].gate] == limit
  {
    RunKeepsInv(limit, run, i);
    assert Follows(limit, run[i], run[i + 1]);
    SleepingStep(limit, run[i], ActionOf(limit, run[i], run[n]), id);
  }

  /** The step that puts a call to sleep. */
  lemma SleepingStep(limit: nat, s: State, a: Action, id: nat)
    requires Enabled(s, a) && Inv(limit, s)
    requires id in Step(limit, s, a).calls && Step(limit, s, a).calls[id].Sleeping?
    requires !(id in s.calls && s.calls[id] == Step(limit, s, a).calls[id])
    ensures var call := Step(limit, s, a).calls[id];
      !WaitedOut(call.ticket, s.clock) && call.gate in s.gates && s.gates[call.gate] == limit
  {
    assert a == Check(id);
    assert CallOk(s, s.calls[id]);
    assert GateOk(limit, s, s.calls[id].gate);
  }

  /** Where a call can be once it has checked the gate too late to sleep. */
  predicate Answered(call: Call) {
    call.Holding? || call.Releasing? || call.Rejected? || call.Finished?
  }

  lemma LateStep(limit: nat, s: State, a: Action, id: nat)
    requires Enabled(s, a) && Inv(limit, s) && id in s.calls
    requires Answered(s.calls[id]) || (s.calls[id].Checking? && WaitedOut(s.calls[id].ticket, s.clock))
    ensures var s' := Step(limit, s, a);
      id in s'.calls && s.clock <= s'.clock && (Answered(s'.calls[id]) || s'.calls[id] == s.calls[id])
  {
    assert CallOk(s, s.calls[id]);
  }

  /** A call that checks the gate after its wait is over never sleeps again: at every later
      moment it is still at that check, or was let in or turned away. */
  lemma {:induction false} LateCallNeverSleeps(limit: nat, run: seq<State>, m: nat, n: nat, id: nat)
    requires IsRun(limit, run) && m <= n < |run| && id in run[m].calls
    requires run[m].calls[id].Checking? && WaitedOut(run[m].calls[id].ticket, run[m].clock)
    ensures id in run[n].calls && run[m].clock <= run[n].clock
    ensures run[n].calls[id] == run[m].calls[id] || Answered(run[n].calls[id])
  {
    if m < n {
      var i := n - 1;
      LateCallNeverSleeps(limit, run, m, i, id);
      RunKeepsInv(limit, run, i);
      assert Follows(limit, run[i], run[i + 1]);
      LateStep(limit, run[i], ActionOf(limit, run[i], run[n]), id);
    }
  }

  /** The state after one more action, if it was enabled. */
  function Then(limit: nat, s: Option<State>, a: Action): Option<State> {
    if s.Some? && Enabled(s.value, a) then Some(Step(limit, s.value, a)) else None
  }

  /** Once enough time has passed for its wait to be over, a sleeper is answered by its own wakeup,
      with nobody's help: one check lets it in or turns it away, recording the time. */
  lemma LateSleeperIsAnswered(limit: nat, run: seq<State>, n: nat, id: nat, elapsed: nat)
    requires IsRun(limit, run) && n < |run| && id in run[n].calls && run[n].calls[id].Sleeping?
    requires WaitedOut(run[n].calls[id].ticket, run[n].clock + elapsed)
    ensures run[n].calls[id].gate in run[n].gates
    ensures var s, call := run[n], run[n].calls[id];
      var after := Then(limit, Then(limit, Then(limit, Some(s), Tick(elapsed)), Wake(id)), Check(id));
      && after.Some? && id in after.value.calls
      && after.value.calls[id] == if s.gates[call.gate] < limit then Holding(call.alias, call.gate)
                                  else Rejected(call.alias, call.gate, call.ticket, s.clock + elapsed)
  {
    RunKeepsInv(limit, run, n);
    assert CallOk(run[n], run[n].calls[id]);
  }

  function Enter(limit: nat, s: State, id: nat, alias: string): Option<State> {
    Then(limit, Then(limit, Then(limit, Some(s), Start(id, alias)), Fetch(id)), Check(id))
  }

  function Leave(limit: nat, s: State, id: nat): Option<State> {
    Then(limit, Then(limit, Some(s), Drop(id)), Notify(id, None))
  }

  /** A call that finds a free slot goes straight in, and when nobody waits a whole visit leaves
      every counter as it was. */
  lemma VisitLeavesNoTrace(limit: nat, s: State, id: nat, alias: string, gate: nat, qos: Qos)
    requires id !in s.calls && alias in s.registry && s.registry[alias] == Magnetar(gate, qos)
    requires gate in s.gates && s.gates[gate] < limit
    ensures var inside := s.(gates := s.gates[gate := s.gates[gate] + 1],
                             calls := s.calls[id := Holding(alias, gate)]);
      && Enter(limit, s, id, alias) == Some(inside)
      && ((forall w <- s.calls :: s.calls[w].Sleeping? ==> s.calls[w].gate != gate) ==>
            Leave(limit, inside, id) == Some(s.(calls := s.calls[id := Finished])))
  {
    EntersAtOnce(limit, s, id, alias, gate, qos);
    var inside := s.(gates := s.gates[gate := s.gates[gate] + 1], calls := s.calls[id := Holding(alias, gate)]);
    var after := Step(limit, inside, Drop(id));
    assert after.gates == s.gates && after.calls == s.calls[id := Releasing(alias, gate)];
    assert after.calls[id := Finished] == s.calls[id := Finished];
  }

  lemma EntersAtOnce(limit: nat, s: State, id: nat, alias: string, gate: nat, qos: Qos)
    requires id !in s.calls && alias in s.registry && s.registry[alias] == Magnetar(gate, qos)
    requires gate in s.gates && s.gates[gate] < limit
    ensures Enter(limit, s, id, alias) ==
      Some(s.(gates := s.gates[gate := s.gates[gate] + 1], calls := s.calls[id := Holding(alias, gate)]))
  {
    var s1 := Step(limit, s, Start(id, alias));
    var s2 := Step(limit, s1, Fetch(id));
    assert s2.calls[id := Holding(alias, gate)] == s.calls[id := Holding(alias, gate)];
  }

  /** The first call of an unknown alias loads it as a standard component behind a gate of its own,
      and enters it like any other. */
  lemma FirstCallLoads(limit: nat, s: State, id: nat, alias: string, made: nat)
    requires limit > 0 && id !in s.calls && alias !in s.registry && made !in s.gates
    ensures Then(limit, Then(limit, Then(limit, Then(limit, Some(s),
                 Start(id, alias)), LoadDone(id, made)), Fetch(id)), Check(id)) ==
      Some(State(s.clock, s.registry[alias := Magnetar(made, Standard)], s.gates[made := 1],
                 s.calls[id := Holding(alias, made)]))
  {
    var s1 := Step(limit, s, Start(id, alias));
    var s2 := Step(limit, s1, LoadDone(id, made));
    var s3 := Step(limit, s2, Fetch(id));
    assert s3.gates[made := 1] == s.gates[made := 1];
    assert s3.calls[id := Holding(alias, made)] == s.calls[id := Holding(alias, made)];
  }

  /** The step that turns a call away. */
  lemma RejectingStep(limit: nat, s: State, a: Action, id: nat)
    requires Enabled(s, a) && Inv(limit, s)
    requires id in Step(limit, s, a).calls && Step(limit, s, a).calls[id].Rejected?
    requires !(id in s.calls && s.calls[id].Rejected?)
    ensures var call := Step(limit, s, a).calls[id];
      call.at == s.clock && call.gate in s.gates && s.gates[call.gate] == limit
  {
    assert a == Check(id);
    assert GateOk(limit, s, s.calls[id].gate);
  }

  lemma {:induction false} RejectionMoment(limit: nat, run: seq<State>, n: nat, id: nat) returns (i: nat)
    requires IsRun(limit, run) && n < |run| && id in run[n].calls && run[n].calls[id].Rejected?
    ensures i < n && run[i].clock == run[n].calls[id].at
    ensures run[n].calls[id].gate in run[i].gates && run[i].gates[run[n].calls[id].gate] == limit
  {
    assert n > 0;
    assert Follows(limit, run[n - 1], run[(n - 1) + 1]);
    var s := run[n - 1];
    var a :| Enabled(s, a) && run[n] == Step(limit, s, a);
    if id in s.calls && s.calls[id].Rejected? {
      RejectionStands(limit, s, a, id);
      i := RejectionMoment(limit, run, n - 1, id);
    } else {
      i := n - 1;
      RunKeepsInv(limit, run, i);
      RejectingStep(limit, s, a, id);
    }
  }

  lemma RejectionStands(limit: nat, s: State, a: Action, id: nat)
    requires Enabled(s, a) && id in s.calls && s.calls[id].Rejected?
    ensures id in Step(limit, s, a).calls && Step(limit, s, a).calls[id] == s.calls[id]
  {
  }
}
