/**
 On-demand TLS configuration: a cache checked twice around a per-domain lock, as a step
 relation over concurrent calls. Awaiting is a point where other calls may run, and a call
 may be dropped at any such point, which releases the lock it holds.
 */
module TlsSingleFlight {
  import opened Wrappers

  /** A certificate and its key, for the domain it names. */
  datatype Material = Material(domain: string, serial: nat)

  datatype Call =
    | Probing(domain: string)
    | Queueing(domain: string)
    | Waiting(domain: string, lock: nat)
    | Rechecking(domain: string, lock: nat)
    | Loading(domain: string, lock: nat)
    | Searching(domain: string, lock: nat)
    | Provisioning(domain: string, lock: nat)
    | Persisting(domain: string, lock: nat, material: Material)
    | Building(domain: string, lock: nat, material: Material)
    | Returned(domain: string, config: nat)
    | Failed
  {
    /** Between the second cache check and the cache insert. */
    predicate Working() {
      Loading? || Searching? || Provisioning? || Persisting? || Building?
    }

    predicate Holds() {
      Rechecking? || Working()
    }

    predicate HasMaterial() {
      Persisting? || Building?
    }
  }

  /** `cache` maps a domain to the identity of its configuration object, `built` a configuration
      to the material it was built from; `stored` is the persistent store; `holder` says which
      call holds a lock. `provisions` and `failures` count, per domain, certificates
      obtained and attempts that ended without a configuration while working. */
  datatype State = State(
    cache: map<string, nat>, built: map<nat, Material>, stored: map<string, Material>,
    locks: map<string, nat>, holder: map<nat, nat>,
    provisions: map<string, nat>, failures: map<string, nat>, calls: map<nat, Call>)

  function Tally(counts: map<string, nat>, domain: string): nat {
    if domain in counts then counts[domain] else 0
  }

  function Bump(counts: map<string, nat>, domain: string): map<string, nat> {
    counts[domain := Tally(counts, domain) + 1]
  }

  datatype Action =
    | Start(id: nat, domain: string)
    | Probe(id: nat)
    | GetLock(id: nat, made: nat)
    | Acquire(id: nat)
    | Recheck(id: nat)
    | LoadStored(id: nat)
    | MissStored(id: nat)
    | LoadFile(id: nat, material: Material)
    | LoadNothing(id: nat)
    | Provisioned(id: nat, material: Material)
    | Persisted(id: nat)
    | Insert(id: nat, made: nat)
    | Abort(id: nat)

  predicate Enabled(s: State, a: Action) {
    if a.Start? then a.id !in s.calls
    else
      && a.id in s.calls
      && var call := s.calls[a.id];
      match a
      case Probe(_) => call.Probing?
      case GetLock(_, made) => call.Queueing? && made !in s.locks.Values
      case Acquire(_) => call.Waiting? && call.lock !in s.holder
      case Recheck(_) => call.Rechecking?
      case LoadStored(_) => call.Loading? && call.domain in s.stored
      case MissStored(_) => call.Loading? && call.domain !in s.stored
      case LoadFile(_, _) => call.Searching?
      case LoadNothing(_) => call.Searching?
      case Provisioned(_, _) => call.Provisioning?
      case Persisted(_) => call.Persisting?
      case Insert(_, made) => call.Building? && made !in s.built
      case Abort(_) => !call.Returned? && !call.Failed?
      case Start(_, _) => false
  }

  function LocksAfter(s: State, a: Action): map<string, nat>
    requires Enabled(s, a)
  {
    if a.GetLock? && s.calls[a.id].domain !in s.locks then s.locks[s.calls[a.id].domain := a.made] else s.locks
  }

  /** Where the step takes the call that makes it. */
  function CallAfter(s: State, a: Action): Call
    requires Enabled(s, a)
  {
    if a.Start? then Probing(a.domain)
    else
      var call := s.calls[a.id];
      match a
      case Probe(_) =>
        if call.domain in s.cache then Returned(call.domain, s.cache[call.domain]) else Queueing(call.domain)
      case GetLock(_, made) => Waiting(call.domain, LocksAfter(s, a)[call.domain])
      case Acquire(_) => Rechecking(call.domain, call.lock)
      case Recheck(_) =>
        if call.domain in s.cache then Returned(call.domain, s.cache[call.domain])
        else Loading(call.domain, call.lock)
      case LoadStored(_) => Building(call.domain, call.lock, s.stored[call.domain])
      case MissStored(_) => Searching(call.domain, call.lock)
      case LoadFile(_, material) => Persisting(call.domain, call.lock, material)
      case LoadNothing(_) => Provisioning(call.domain, call.lock)
      case Provisioned(_, material) => Persisting(call.domain, call.lock, material)
      case Persisted(_) => Building(call.domain, call.lock, call.material)
      case Insert(_, made) => Returned(call.domain, made)
      case Abort(_) => Failed
      case Start(_, _) => call
  }

  /** A guard lives from the acquisition to the end of the call, however it ends. */
  function HolderAfter(s: State, a: Action): map<nat, nat>
    requires Enabled(s, a)
  {
    if a.Acquire? then s.holder[s.calls[a.id].lock := a.id]
    else if a.id in s.calls && s.calls[a.id].Holds() && !CallAfter(s, a).Holds() then s.holder - {s.calls[a.id].lock}
    else s.holder
  }

  function StoredAfter(s: State, a: Action): map<string, Material>
    requires Enabled(s, a)
  {
    if a.Persisted? then s.stored[s.calls[a.id].material.domain := s.calls[a.id].material] else s.stored
  }

  function Step(s: State, a: Action): State
    requires Enabled(s, a)
  {
    State(
      if a.Insert? then s.cache[s.calls[a.id].domain := a.made] else s.cache,
      if a.Insert? then s.built[a.made := s.calls[a.id].material] else s.built,
      StoredAfter(s, a), LocksAfter(s, a), HolderAfter(s, a),
      if a.Provisioned? then Bump(s.provisions, s.calls[a.id].domain) else s.provisions,
      if a.Abort? && s.calls[a.id].Working() then Bump(s.failures, s.calls[a.id].domain) else s.failures,
      s.calls[a.id := CallAfter(s, a)])
  }

  // ---- Invariant ---------------------------------------------------------------------------

  predicate CallOk(s: State, id: nat, call: Call) {
    && (call.Waiting? || call.Holds() ==> call.domain in s.locks && s.locks[call.domain] == call.lock)
    && (call.Holds() ==> call.lock in s.holder && s.holder[call.lock] == id)
    && (call.Working() ==> call.domain !in s.cache)
    && (call.Returned? ==> call.domain in s.cache && s.cache[call.domain] == call.config)
  }

  ghost predicate MaterialInHand(s: State, domain: string) {
    exists id :: id in s.calls && s.calls[id].HasMaterial() && s.calls[id].domain == domain
  }

  /** Every certificate beyond the first was preceded by an attempt that failed. */
  ghost predicate ProvisionsPaidFor(s: State, domain: string) {
    Tally(s.provisions, domain) <=
    Tally(s.failures, domain) + if domain in s.cache || MaterialInHand(s, domain) then 1 else 0
  }

  ghost predicate Inv(s: State) {
    && (forall id <- s.calls :: CallOk(s, id, s.calls[id]))
    && (forall domain :: ProvisionsPaidFor(s, domain))
  }

  /** The cached configuration is the one the stored material makes. */
  predicate Backed(s: State, domain: string) {
    && domain in s.cache && s.cache[domain] in s.built
    && domain in s.stored && s.stored[domain] == s.built[s.cache[domain]]
  }

  /** Before serving: the cache may have been primed from the store, nothing has been provisioned. */
  ghost predicate Init(s: State) {
    && s.calls == map[] && s.locks == map[] && s.holder == map[] && s.provisions == map[] && s.failures == map[]
    && forall domain <- s.cache :: Backed(s, domain)
  }

  /** Two working calls of one domain would hold one lock. */
  lemma OneWorkerPerDomain(s: State, id: nat, other: nat)
    requires Inv(s) && id in s.calls && other in s.calls
    requires s.calls[id].Holds() && s.calls[other].Holds() && s.calls[id].domain == s.calls[other].domain
    ensures id == other
  {
    assert CallOk(s, id, s.calls[id]) && CallOk(s, other, s.calls[other]);
  }

  lemma StepMovesOwnCall(s: State, a: Action)
    requires Inv(s) && Enabled(s, a)
    ensures CallOk(Step(s, a), a.id, Step(s, a).calls[a.id])
  {
    if !a.Start? {
      assert CallOk(s, a.id, s.calls[a.id]);
    }
  }

  lemma StepLeavesOtherCalls(s: State, a: Action, id: nat)
    requires Inv(s) && Enabled(s, a) && id in s.calls && id != a.id
    ensures id in Step(s, a).calls && Step(s, a).calls[id] == s.calls[id]
    ensures CallOk(Step(s, a), id, s.calls[id])
  {
    assert CallOk(s, id, s.calls[id]);
    if !a.Start? {
      assert CallOk(s, a.id, s.calls[a.id]);
    }
  }

  lemma StepKeepsCalls(s: State, a: Action, id: nat)
    requires Inv(s) && Enabled(s, a) && id in Step(s, a).calls
    ensures CallOk(Step(s, a), id, Step(s, a).calls[id])
  {
    if id == a.id {
      StepMovesOwnCall(s, a);
    } else {
      StepLeavesOtherCalls(s, a, id);
    }
  }

  lemma StepKeepsProvisions(s: State, a: Action, domain: string)
    requires Inv(s) && Enabled(s, a)
    ensures ProvisionsPaidFor(Step(s, a), domain)
  {
    var s' := Step(s, a);
    assert ProvisionsPaidFor(s, domain);
    if MaterialInHand(s, domain) {
      var id :| id in s.calls && s.calls[id].HasMaterial() && s.calls[id].domain == domain;
      if a.id != id {
        assert s'.calls[id] == s.calls[id];
        if a.Provisioned? && s.calls[a.id].domain == domain {
          OneWorkerPerDomain(s, a.id, id);
        }
      } else if !a.Insert? && !a.Abort? {
        assert s'.calls[id].HasMaterial() && s'.calls[id].domain == domain;
      }
    }
    if a.Provisioned? {
      assert CallOk(s, a.id, s.calls[a.id]);
      assert s'.calls[a.id].HasMaterial();
    }
  }

  /** Every step of every call, cancellations included, keeps the invariant. */
  lemma StepKeepsInv(s: State, a: Action)
    requires Inv(s) && Enabled(s, a)
    ensures Inv(Step(s, a))
  {
    forall id | id in Step(s, a).calls
      ensures CallOk(Step(s, a), id, Step(s, a).calls[id])
    {
      StepKeepsCalls(s, a, id);
    }
    forall domain
      ensures ProvisionsPaidFor(Step(s, a), domain)
    {
      StepKeepsProvisions(s, a, domain);
    }
  }

  // ---- Runs ----------------------------------------------------------------------------------

  ghost predicate Follows(s: State, s': State) {
    exists a :: Enabled(s, a) && s' == Step(s, a)
  }

  ghost predicate IsRun(run: seq<State>) {
    |run| > 0 && Init(run[0]) && forall i :: 0 <= i < |run| - 1 ==> Follows(run[i], run[i + 1])
  }

  lemma {:induction false} RunKeepsInv(run: seq<State>, n: nat)
    requires IsRun(run) && n < |run|
    ensures Inv(run[n])
  {
    if n > 0 {
      RunKeepsInv(run, n - 1);
      assert Follows(run[n - 1], run[(n - 1) + 1]);
      var a :| Enabled(run[n - 1], a) && run[n] == Step(run[n - 1], a);
      StepKeepsInv(run[n - 1], a);
    }
  }

  /** In every interleaving, at most one call per domain is between the second cache check
      and the cache insert. */
  lemma SingleFlight(run: seq<State>, n: nat, id: nat, other: nat)
    requires IsRun(run) && n < |run| && id in run[n].calls && other in run[n].calls
    requires run[n].calls[id].Working() && run[n].calls[other].Working()
    requires run[n].calls[id].domain == run[n].calls[other].domain
    ensures id == other
  {
    RunKeepsInv(run, n);
    OneWorkerPerDomain(run[n], id, other);
  }

  lemma CachedStays(s: State, a: Action, domain: string)
    requires Inv(s) && Enabled(s, a) && domain in s.cache
    ensures domain in Step(s, a).cache && Step(s, a).cache[domain] == s.cache[domain]
    ensures Tally(Step(s, a).provisions, domain) == Tally(s.provisions, domain)
  {
    if a.id in s.calls {
      assert CallOk(s, a.id, s.calls[a.id]);
    }
  }

  lemma {:induction false} CacheIsWriteOnce(run: seq<State>, i: nat, j: nat, domain: string)
    requires IsRun(run) && i <= j < |run| && domain in run[i].cache
    ensures domain in run[j].cache && run[j].cache[domain] == run[i].cache[domain]
    ensures Tally(run[j].provisions, domain) == Tally(run[i].provisions, domain)
  {
    if i < j {
      CacheIsWriteOnce(run, i, j - 1, domain);
      assert Follows(run[j - 1], run[(j - 1) + 1]);
      var a :| Enabled(run[j - 1], a) && run[j] == Step(run[j - 1], a);
      RunKeepsInv(run, j - 1);
      CachedStays(run[j - 1], a, domain);
    }
  }

  /** Once a call has returned a configuration for a domain, every call that returns one
      for it, then or later, returns that same object, and nothing more is provisioned. */
  lemma OneConfigPerDomain(run: seq<State>, i: nat, j: nat, id: nat, other: nat)
    requires IsRun(run) && i <= j < |run| && id in run[i].calls && other in run[j].calls
    requires run[i].calls[id].Returned? && run[j].calls[other].Returned?
    requires run[i].calls[id].domain == run[j].calls[other].domain
    ensures run[j].calls[other].config == run[i].calls[id].config
    ensures var domain := run[i].calls[id].domain; Tally(run[j].provisions, domain) == Tally(run[i].provisions, domain)
  {
    RunKeepsInv(run, i);
    RunKeepsInv(run, j);
    assert CallOk(run[i], id, run[i].calls[id]) && CallOk(run[j], other, run[j].calls[other]);
    CacheIsWriteOnce(run, i, j, run[i].calls[id].domain);
  }

  /** A domain is provisioned at most once more than attempts for it have failed. */
  lemma ProvisionsBounded(run: seq<State>, n: nat, domain: string)
    requires IsRun(run) && n < |run|
    ensures Tally(run[n].provisions, domain) <= Tally(run[n].failures, domain) + 1
  {
    RunKeepsInv(run, n);
    assert ProvisionsPaidFor(run[n], domain);
  }

  /** A call that has its answer keeps it. */
  lemma {:induction false} AnswersStand(run: seq<State>, i: nat, j: nat, id: nat)
    requires IsRun(run) && i <= j < |run| && id in run[i].calls
    requires run[i].calls[id].Returned? || run[i].calls[id].Failed?
    ensures id in run[j].calls && run[j].calls[id] == run[i].calls[id]
  {
    if i < j {
      AnswersStand(run, i, j - 1, id);
      assert Follows(run[j - 1], run[(j - 1) + 1]);
      var a :| Enabled(run[j - 1], a) && run[j] == Step(run[j - 1], a);
      assert a.id != id;
    }
  }

  // ---- One lock per domain -------------------------------------------------------------------

  /** A lock is held by a call that is inside it. */
  predicate HeldByCall(s: State, lock: nat)
    requires lock in s.holder
  {
    && s.holder[lock] in s.calls
    && s.calls[s.holder[lock]].Holds() && s.calls[s.holder[lock]].lock == lock
  }

  ghost predicate LockInv(s: State) {
    && (forall a <- s.locks, b <- s.locks :: s.locks[a] == s.locks[b] ==> a == b)
    && (forall lock <- s.holder :: HeldByCall(s, lock))
  }

  lemma StepKeepsLocks(s: State, a: Action)
    requires LockInv(s) && Enabled(s, a)
    ensures LockInv(Step(s, a))
  {
    var s' := Step(s, a);
    forall lock | lock in s'.holder
      ensures HeldByCall(s', lock)
    {
      if lock in s.holder {
        assert HeldByCall(s, lock);
      }
    }
  }

  lemma {:induction false} RunKeepsLocks(run: seq<State>, n: nat)
    requires IsRun(run) && n < |run|
    ensures LockInv(run[n])
  {
    if n > 0 {
      RunKeepsLocks(run, n - 1);
      assert Follows(run[n - 1], run[(n - 1) + 1]);
      var a :| Enabled(run[n - 1], a) && run[n] == Step(run[n - 1], a);
      StepKeepsLocks(run[n - 1], a);
    }
  }

  /** Domains do not wait for each other, and a dropped call blocks nobody: a waiting call can go in
      exactly when no call of its own domain is inside. */
  lemma WaitsForOwnDomainOnly(run: seq<State>, n: nat, id: nat)
    requires IsRun(run) && n < |run| && id in run[n].calls && run[n].calls[id].Waiting?
    ensures Enabled(run[n], Acquire(id)) <==>
      forall other <- run[n].calls :: run[n].calls[other].Holds() ==>
        run[n].calls[other].domain != run[n].calls[id].domain
  {
    var s := run[n];
    RunKeepsInv(run, n);
    RunKeepsLocks(run, n);
    assert CallOk(s, id, s.calls[id]);
    var lock := s.calls[id].lock;
    if lock in s.holder {
      assert HeldByCall(s, lock);
      assert CallOk(s, s.holder[lock], s.calls[s.holder[lock]]);
    } else {
      forall other | other in s.calls && s.calls[other].Holds()
        ensures s.calls[other].domain != s.calls[id].domain
      {
        assert CallOk(s, other, s.calls[other]);
      }
    }
  }

  // ---- What the store keeps ------------------------------------------------------------------

  /** Material on its way into the store names the domain it was asked for. */
  ghost predicate Named(s: State) {
    forall id <- s.calls :: s.calls[id].Persisting? ==> s.calls[id].material.domain == s.calls[id].domain
  }

  /** A call builds from what is stored, and looks elsewhere only while nothing is. */
  predicate FlightOk(s: State, call: Call) {
    && (call.Building? ==> call.domain in s.stored && s.stored[call.domain] == call.material)
    && (call.Searching? || call.Provisioning? || call.Persisting? ==> call.domain !in s.stored)
  }

  ghost predicate StoreInv(s: State) {
    && (forall domain <- s.cache :: Backed(s, domain))
    && (forall id <- s.calls :: FlightOk(s, s.calls[id]))
  }

  lemma StepKeepsBacked(s: State, a: Action, domain: string)
    requires Inv(s) && Named(s) && StoreInv(s) && Enabled(s, a) && domain in Step(s, a).cache
    ensures Backed(Step(s, a), domain)
  {
    if a.id in s.calls {
      assert CallOk(s, a.id, s.calls[a.id]) && FlightOk(s, s.calls[a.id]);
    }
    if domain in s.cache {
      assert Backed(s, domain);
    }
  }

  lemma StepKeepsFlight(s: State, a: Action, id: nat)
    requires Inv(s) && Named(s) && StoreInv(s) && Enabled(s, a) && id in Step(s, a).calls
    ensures FlightOk(Step(s, a), Step(s, a).calls[id])
  {
    if id in s.calls {
      assert FlightOk(s, s.calls[id]);
      if a.Persisted? && id != a.id && s.calls[id].Holds() && s.calls[id].domain == s.calls[a.id].domain {
        OneWorkerPerDomain(s, id, a.id);
      }
    }
  }

  lemma {:induction false} RunKeepsStore(run: seq<State>, n: nat)
    requires IsRun(run) && n < |run| && forall i :: 0 <= i < n ==> Named(run[i])
    ensures StoreInv(run[n])
  {
    if n > 0 {
      var s, s' := run[n - 1], run[n];
      RunKeepsStore(run, n - 1);
      RunKeepsInv(run, n - 1);
      assert Follows(s, run[(n - 1) + 1]);
      var a :| Enabled(s, a) && s' == Step(s, a);
      forall domain | domain in s'.cache
        ensures Backed(s', domain)
      {
        StepKeepsBacked(s, a, domain);
      }
      forall id | id in s'.calls
        ensures FlightOk(s', s'.calls[id])
      {
        StepKeepsFlight(s, a, id);
      }
    }
  }

  /** As long as every certificate obtained names the domain it was obtained for, a host restarted
      at any moment primes, for every domain it was serving, a configuration from the very
      material it served. */
  lemma RestartServesTheSame(run: seq<State>, n: nat, id: nat)
    requires IsRun(run) && n < |run| && (forall i :: 0 <= i < n ==> Named(run[i]))
    requires id in run[n].calls && run[n].calls[id].Returned?
    ensures var s, domain := run[n], run[n].calls[id].domain;
      && domain in s.stored && run[n].calls[id].config in s.built
      && s.stored[domain] == s.built[run[n].calls[id].config]
  {
    RunKeepsInv(run, n);
    RunKeepsStore(run, n);
    assert CallOk(run[n], id, run[n].calls[id]);
    assert Backed(run[n], run[n].calls[id].domain);
  }

  function Then(s: Option<State>, a: Action): Option<State> {
    if s.Some? && Enabled(s.value, a) then Some(Step(s.value, a)) else None
  }

  /** Obtaining a certificate and building from it, once the store has been found empty-handed. */
  function Obtain(s: State, id: nat, material: Material, made: nat): Option<State> {
    Then(Then(Then(Then(Some(s), LoadNothing(id)), Provisioned(id, material)), Persisted(id)), Insert(id, made))
  }

  lemma Overwritten(calls: map<nat, Call>, id: nat, first: Call, second: Call)
    ensures calls[id := first][id := second] == calls[id := second]
  {
  }

  lemma ObtainReaches(s: State, id: nat, material: Material, made: nat)
    requires id in s.calls && s.calls[id].Searching? && made !in s.built
    ensures var domain, lock := s.calls[id].domain, s.calls[id].lock;
      Obtain(s, id, material, made) ==
      Some(State(s.cache[domain := made], s.built[made := material], s.stored[material.domain := material],
                 s.locks, s.holder - {lock}, Bump(s.provisions, domain), s.failures,
                 s.calls[id := Returned(domain, made)]))
  {
    var domain, lock := s.calls[id].domain, s.calls[id].lock;
    var s2 := s.(provisions := Bump(s.provisions, domain), calls := s.calls[id := Persisting(domain, lock, material)]);
    ProvisionReaches(s, id, material);
    Overwritten(s.calls, id, s2.calls[id], Building(domain, lock, material));
    var s3 := s2.(stored := s.stored[material.domain := material],
                  calls := s.calls[id := Building(domain, lock, material)]);
    assert Then(Some(s2), Persisted(id)) == Some(s3);
    Overwritten(s.calls, id, s3.calls[id], Returned(domain, made));
  }

  lemma ProvisionReaches(s: State, id: nat, material: Material)
    requires id in s.calls && s.calls[id].Searching?
    ensures var domain, lock := s.calls[id].domain, s.calls[id].lock;
      Then(Then(Some(s), LoadNothing(id)), Provisioned(id, material)) ==
      Some(s.(provisions := Bump(s.provisions, domain),
              calls := s.calls[id := Persisting(domain, lock, material)]))
  {
    var domain, lock := s.calls[id].domain, s.calls[id].lock;
    var s1 := s.(calls := s.calls[id := Provisioning(domain, lock)]);
    assert Then(Some(s), LoadNothing(id)) == Some(s1);
    Overwritten(s.calls, id, s1.calls[id], Persisting(domain, lock, material));
  }

  /** A call that finds no certificate anywhere obtains one, returns the configuration built from
      it and gives its lock back. What it leaves in the store backs that configuration exactly when
      the certificate names the domain, or the store came to hold the same one meanwhile. */
  lemma BackedExactlyWhenNamed(s: State, id: nat, material: Material, made: nat)
    requires id in s.calls && s.calls[id].Searching? && made !in s.built
    ensures var domain := s.calls[id].domain;
      && Obtain(s, id, material, made).Some?
      && var s' := Obtain(s, id, material, made).value;
      && s'.calls[id] == Returned(domain, made) && s'.built[made] == material && s.calls[id].lock !in s'.holder
      && (Backed(s', domain) <==>
            material.domain == domain || (domain in s.stored && s.stored[domain] == material))
  {
    ObtainReaches(s, id, material, made);
  }

  /** A cached domain is answered at the first look, with no lock and no load. */
  lemma CachedIsAnsweredAtOnce(s: State, id: nat, domain: string)
    requires id !in s.calls && domain in s.cache
    ensures Then(Then(Some(s), Start(id, domain)), Probe(id)) ==
      Some(s.(calls := s.calls[id := Returned(domain, s.cache[domain])]))
  {
    assert s.calls[id := Probing(domain)][id := Returned(domain, s.cache[domain])] ==
      s.calls[id := Returned(domain, s.cache[domain])];
  }
}
