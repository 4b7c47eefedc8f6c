/**
 The host side of the registry: the loops that withdraw, publish, scan and sweep bindings.

 `interference(n)` holds the foreign transactions that commit before the host's n-th one
 and `storeFails(n)` says whether that one fails, so a contract of `RegistryHost` speaks of
 every schedule.
 */
module RegistryHosts {
  import opened Wrappers
  import opened RegistryRows
  import opened RegistryTable
  import opened RegistryOverlay
  import opened RegistryScan
  import opened RegistryPublisher

  /** Other writers keep to fewer than 2^32 aliases, all inside the range the scan reads. */
  ghost predicate Environment(interference: Schedule, aliases: set<string>, minted: set<string>) {
    && (forall n: nat :: Admissible(interference(n), aliases, minted))
    && |aliases| <= U32_MAX
    && (forall a <- aliases :: Scannable(a))
  }

  ghost predicate Readable(bindings: seq<Binding>, sidecars: Sidecars) {
    forall binding <- bindings :: Publishable(binding) ==> BindingMetadata(sidecars, binding.path).Some?
  }

  ghost predicate Listed(bindings: seq<Binding>, aliases: set<string>) {
    forall binding <- bindings :: Publishable(binding) ==> binding.alias in aliases
  }

  ghost predicate NothingToPublish(bindings: seq<Binding>) {
    forall binding <- bindings :: !Publishable(binding)
  }

  class RegistryHost {
    var rows: Table
    var clock: nat
    const interference: Schedule
    const storeFails: nat -> bool
    ghost const initial: Table
    ghost const aliases: set<string>
    ghost const minted: set<string>
    ghost var log: seq<Step>

    constructor (rows: Table, interference: Schedule, storeFails: nat -> bool, ghost aliases: set<string>,
                 ghost minted: set<string>)
      requires Environment(interference, aliases, minted) && rows.Keys <= aliases
      ensures Valid() && this.rows == initial == rows && log == [] && clock == 0
      ensures this.interference == interference && this.storeFails == storeFails
      ensures this.aliases == aliases && this.minted == minted
    {
      this.rows, this.initial, this.log, this.clock := rows, rows, [], 0;
      this.interference, this.storeFails, this.aliases, this.minted := interference, storeFails, aliases, minted;
    }

    ghost predicate Valid()
      reads this
    {
      && Environment(interference, aliases, minted)
      && rows.Keys <= aliases
      && rows == Run(initial, log)
    }

    /** The table was `t` at some point since the log was `from` long. */
    ghost predicate Reached(t: Table, from: nat)
      reads this
    {
      exists i :: from <= i <= |log| && t == Run(initial, log[..i])
    }

    lemma ReachedAfter(t: Table, before: seq<Step>, from: nat)
      requires from <= |before| && before <= log && t == Run(initial, before)
      ensures Reached(t, from)
    {
      assert log[..|before|] == before;
    }

    ghost predicate NoFailures(from: nat)
      reads this
    {
      forall n :: from <= n < clock ==> !storeFails(n)
    }

    /** Starts a transaction: whatever others committed first is now visible. */
    method Begin() returns (ok: bool)
      requires Valid()
      modifies this
      ensures Valid() && log == old(log) + interference(old(clock)) && clock == old(clock) + 1
      ensures rows == Run(old(rows), interference(old(clock))) && OwnedKept(old(rows), rows, {}, minted)
      ensures ForeignRun(interference(old(clock)))
      ensures ok <==> !storeFails(old(clock))
    {
      var others := interference(clock);
      ok := !storeFails(clock);
      assert Admissible(others, aliases, minted);
      ForeignRunFrame(rows, others, aliases, minted);
      RunConcat(initial, log, others);
      rows := Run(rows, others);
      log := log + others;
      clock := clock + 1;
    }

    /** Commits one host transaction. */
    method Apply(s: Step)
      requires Valid() && !s.Foreign() && (s.Sweep? || Within(s, aliases))
      modifies `rows, `log
      ensures Valid() && log == old(log) + [s] && rows == Next(old(rows), s)
    {
      RunConcat(initial, log, [s]);
      assert Run(rows, [s]) == Next(rows, s) by {
        assert [s][..0] == [];
      }
      rows := Next(rows, s);
      log := log + [s];
      assert forall key <- rows :: key in old(rows) || s.Targets(key);
    }

    // ---- Publication -------------------------------------------------------------------------

    /** The first transaction of a binding: insert its row if there is none. */
    method InsertBinding(alias: string, value: Bytes) returns (ok: bool, absent: bool)
      requires Valid() && alias in aliases
      requires value.Document? && value.json.Object?
      modifies this
      ensures Valid() && old(log) <= log && BindingLog(log, |old(log)|, alias, value)
      ensures clock == old(clock) + 1 && (ok <==> !storeFails(old(clock)))
      ensures OwnedKept(old(rows), rows, {alias}, minted)
      ensures ok && absent ==> Get(rows, alias) == Some(value)
    {
      ok := Begin();
      absent := alias !in rows;
      BindingLogGrowth(old(log), interference(old(clock)), alias, value, InsertIfAbsent(alias, value));
      if ok {
        Apply(InsertIfAbsent(alias, value));
      }
    }

    /** The second: write over whatever is there by now, parking an upload. */
    method RefreshBinding(alias: string, value: Bytes) returns (ok: bool)
      requires Valid() && alias in aliases
      requires value.Document? && value.json.Object?
      modifies this
      ensures Valid() && old(log) <= log && BindingLog(log, |old(log)|, alias, value)
      ensures clock == old(clock) + 1 && (ok <==> !storeFails(old(clock)))
      ensures OwnedKept(old(rows), rows, {alias}, minted)
      ensures ok ==> ConfigAt(Get(rows, alias)) == if Marked(value.json) then Some(Strip(value.json)) else None
    {
      ok := Begin();
      BindingLogGrowth(old(log), interference(old(clock)), alias, value, Refresh(alias, value));
      if ok {
        RefreshSetsConfig(Get(rows, alias), value);
        Apply(Refresh(alias, value));
      }
    }

    /** One binding: insert if absent, otherwise refresh in a second transaction. */
    method PublishBinding(alias: string, value: Bytes) returns (ok: bool)
      requires Valid() && alias in aliases
      requires value.Document? && value.json.Object?
      modifies this
      ensures Valid() && old(log) <= log && BindingLog(log, |old(log)|, alias, value) && old(clock) <= clock
      ensures NoFailures(old(clock)) ==> ok
      ensures OwnedKept(old(rows), rows, {alias}, minted)
      ensures ok ==> ConfigAt(Get(rows, alias)) == if Marked(value.json) then Some(Strip(value.json)) else None
    {
      var absent;
      ok, absent := InsertBinding(alias, value);
      if ok && !absent {
        ghost var inserted := log;
        ok := RefreshBinding(alias, value);
        BindingLogExtends(inserted, log, |old(log)|, alias, value);
      }
    }

    /** The body of the publication loop: skip, count an unreadable sidecar, or publish. */
    method PublishOne(binding: Binding, sidecars: Sidecars) returns (ok: bool)
      requires Valid() && (Publishable(binding) ==> binding.alias in aliases)
      modifies this
      ensures Valid() && old(log) <= log && PublicationLog(log, |old(log)|, [binding], sidecars) && old(clock) <= clock
      ensures !Publishable(binding) ==> rows == old(rows) && clock == old(clock)
      ensures NoFailures(old(clock)) && Readable([binding], sidecars) ==> ok
      ensures OwnedKept(old(rows), rows, Touched(binding), minted)
      ensures ok && Publishable(binding) ==> InPlace(rows, binding, sidecars)
    {
      if !Publishable(binding) {
        return true;
      }
      var metadata := BindingMetadata(sidecars, binding.path);
      if metadata.None? {
        assert binding in [binding];
        return false;
      }
      var value := ConfiguredRow(binding, metadata.value);
      ok := PublishBinding(binding.alias, value);
      assert WritesBinding(InsertIfAbsent(binding.alias, value), binding, sidecars);
      assert WritesBinding(Refresh(binding.alias, value), binding, sidecars);
    }

    /** One turn of the inner publication loop. The loop began with `t0`, `log0` and `clock0`. */
    method PublishNext(components: seq<Binding>, b: nat, sidecars: Sidecars, failures: nat, configured: set<string>,
                       ghost done: seq<Binding>, ghost t0: Table, ghost log0: seq<Step>, ghost clock0: nat)
      returns (failures': nat, configured': set<string>)
      requires b < |components| && Valid() && Listed(components, aliases) && clock0 <= clock
      requires log0 <= log && PublicationLog(log, |log0|, components, sidecars)
      requires Published(rows, failures, configured, done, sidecars, minted) && OwnedKept(t0, rows, configured, minted)
      modifies this
      ensures Valid() && clock0 <= clock && log0 <= log && PublicationLog(log, |log0|, components, sidecars)
      ensures Published(rows, failures', configured', done + [components[b]], sidecars, minted)
      ensures configured <= configured' && OwnedKept(t0, rows, configured', minted)
      ensures NoFailures(clock0) ==> old(NoFailures(clock0))
      ensures NoFailures(clock0) && Readable(components, sidecars) ==> failures' == failures
      ensures NothingToPublish(components) ==> rows == old(rows) && clock == old(clock)
    {
      var binding := components[b];
      failures', configured' := failures, configured;
      var ok := PublishOne(binding, sidecars);
      PublicationLogExtends(old(log), log, |log0|, [binding], components, sidecars);
      if Publishable(binding) {
        configured' := configured' + {binding.alias};
      }
      if !ok {
        failures' := failures' + 1;
      }
      PublishedNext(t0, old(rows), rows, failures, configured, done, binding, sidecars, ok, failures', configured',
                    minted);
    }

    /** The inner publication loop, over one route's bindings. */
    method PublishRoute(components: seq<Binding>, sidecars: Sidecars, failures: nat, configured: set<string>,
                        ghost earlier: seq<Binding>)
      returns (failures': nat, configured': set<string>)
      requires Valid() && Listed(components, aliases)
      requires Published(rows, failures, configured, earlier, sidecars, minted)
      modifies this
      ensures Valid() && old(log) <= log && PublicationLog(log, |old(log)|, components, sidecars) && old(clock) <= clock
      ensures Published(rows, failures', configured', earlier + components, sidecars, minted)
      ensures configured <= configured' && OwnedKept(old(rows), rows, configured', minted)
      ensures NoFailures(old(clock)) && Readable(components, sidecars) ==> failures' == failures
      ensures NothingToPublish(components) ==> rows == old(rows) && clock == old(clock)
    {
      failures', configured' := failures, configured;
      ghost var done := earlier;
      for b := 0 to |components|
        invariant Valid() && old(log) <= log && old(clock) <= clock
        invariant PublicationLog(log, |old(log)|, components, sidecars)
        invariant done == earlier + components[..b]
        invariant Published(rows, failures', configured', done, sidecars, minted)
        invariant configured <= configured' && OwnedKept(old(rows), rows, configured', minted)
        invariant NoFailures(old(clock)) && Readable(components, sidecars) ==> failures' == failures
        invariant NothingToPublish(components) ==> rows == old(rows) && clock == old(clock)
      {
        failures', configured' :=
          PublishNext(components, b, sidecars, failures', configured', done, old(rows), old(log), old(clock));
        done := done + [components[b]];
      }
      assert components[..|components|] == components;
    }

    /** The outer publication loop, over routes. */
    method PublishAll(config: seq<Route>, sidecars: Sidecars) returns (failures: nat, configured: set<string>)
      requires Valid() && Listed(AllBindings(config), aliases)
      modifies this
      ensures Valid() && old(log) <= log && old(clock) <= clock
      ensures PublicationLog(log, |old(log)|, AllBindings(config), sidecars)
      ensures Published(rows, failures, configured, AllBindings(config), sidecars, minted)
      ensures OwnedKept(old(rows), rows, configured, minted)
      ensures NoFailures(old(clock)) && Readable(AllBindings(config), sidecars) ==> failures == 0
      ensures NothingToPublish(AllBindings(config)) ==> rows == old(rows) && clock == old(clock)
    {
      failures, configured := 0, {};
      ghost var all := AllBindings(config);
      for r := 0 to |config|
        invariant Valid() && old(log) <= log && PublicationLog(log, |old(log)|, all, sidecars) && old(clock) <= clock
        invariant Published(rows, failures, configured, AllBindings(config[..r]), sidecars, minted)
        invariant OwnedKept(old(rows), rows, configured, minted)
        invariant NoFailures(old(clock)) && Readable(all, sidecars) ==> failures == 0
        invariant NothingToPublish(all) ==> rows == old(rows) && clock == old(clock)
      {
        ghost var before := log;
        RouteIsListed(config, r);
        failures, configured :=
          PublishRoute(config[r].components, sidecars, failures, configured, AllBindings(config[..r]));
        PublicationLogExtends(before, log, |old(log)|, config[r].components, all, sidecars);
        BindingsUpTo(config, r);
      }
      assert config[..|config|] == config;
    }

    // ---- The scan ------------------------------------------------------------------------------

    /** A scan of `t` that began with transaction `c`, its log `before` long, has read `k` pages. */
    ghost predicate Scanning(t: Table, c: nat, k: nat, before: seq<Step>)
      reads this
    {
      clock == c + k && rows == Run(t, Others(interference, c, k)) && log == before + Others(interference, c, k)
    }

    method BeginPage(ghost t: Table, ghost c: nat, ghost k: nat, ghost before: seq<Step>) returns (ok: bool)
      requires Valid() && Scanning(t, c, k, before)
      modifies this
      ensures Valid() && Scanning(t, c, k + 1, before) && (ok <==> !storeFails(old(clock)))
      ensures clock == old(clock) + 1
    {
      ok := Begin();
      OthersNext(t, interference, c, k, old(rows), interference(old(clock)), rows);
      OthersLog(before, interference, c, k, old(log), interference(old(clock)), log);
    }

    /** One turn of the scan: page `k`, at offset `k * PAGE`, after which `next` pages are read. */
    method ScanPage(offset: nat, owned: seq<string>, ghost t: Table, ghost c: nat, ghost k: nat, ghost next: nat,
                    ghost before: seq<Step>)
      returns (ok: bool, more: bool, offset': nat, owned': seq<string>)
      requires Valid() && Scanning(t, c, k, before) && FullUpTo(t, interference, c, k) && next == k + 1
      requires offset == k * PAGE && owned == ScanResult(t, interference, c, k)
      modifies this
      ensures Valid() && Scanning(t, c, next, before) && (ok <==> !storeFails(old(clock)))
      ensures ok ==> owned' == ScanResult(t, interference, c, next)
      ensures ok && more ==> offset' == next * PAGE <= U32_MAX && FullUpTo(t, interference, c, next)
      ensures ok && !more ==> Complete(t, interference, c, next)
    {
      ok := BeginPage(t, c, k, before);
      if !ok {
        return false, false, offset, owned;
      }
      var page := GetRange(rows, PAGE, offset);
      ScanTurn(t, interference, c, k, rows, owned, page, aliases);
      more := |page| == PAGE;
      owned', offset' := owned + OwnedInPage(page), SaturatingAdd(offset, |page|);
    }

    /** The config-owned aliases, read page by page; `None` when a page cannot be read. Page
        `k` is read at offset `k * PAGE`, up to the first short one. */
    method ConfigOwnedAliases() returns (found: Option<seq<string>>, ghost pages: nat)
      requires Valid()
      modifies this
      ensures Valid() && Scanning(old(rows), old(clock), pages, old(log))
      ensures found.Some? ==>
        && Complete(old(rows), interference, old(clock), pages)
        && found.value == ScanResult(old(rows), interference, old(clock), pages)
      ensures NoFailures(old(clock)) ==> found.Some?
    {
      ScanBegin(rows, interference, clock, log);
      ghost var last;
      found, pages, last := ScanPages(rows, clock, log);
    }

    /** The loop of the scan: a page that cannot be read ends it early. */
    method ScanPages(ghost t: Table, ghost c: nat, ghost before: seq<Step>)
      returns (found: Option<seq<string>>, ghost pages: nat, ghost last: nat)
      requires Valid() && Scanning(t, c, 0, before)
      requires ScanResult(t, interference, c, 0) == []
      modifies this
      ensures Valid() && Scanning(t, c, pages, before)
      ensures found.Some? ==>
        Complete(t, interference, c, pages) && found.value == ScanResult(t, interference, c, pages)
      ensures found.None? ==> c <= last < clock && storeFails(last)
    {
      var owned: seq<string>, offset, more := [], 0, true;
      pages, last := 0, clock;
      while more
        invariant Valid() && Scanning(t, c, pages, before)
        invariant owned == ScanResult(t, interference, c, pages)
        invariant more ==> offset == pages * PAGE <= U32_MAX && FullUpTo(t, interference, c, pages)
        invariant !more ==> Complete(t, interference, c, pages)
        decreases more, U32_MAX - offset
      {
        var ok;
        ghost var next := pages + 1;
        last := clock;
        ok, more, offset, owned := ScanPage(offset, owned, t, c, pages, next, before);
        pages := next;
        if !ok {
          return None, pages, last;
        }
      }
      return Some(owned), pages, last;
    }

    // ---- The sweep -----------------------------------------------------------------------------

    /** Drops a stale configured row, or puts back the upload it displaced. */
    method SweepAlias(alias: string) returns (ok: bool)
      requires Valid()
      modifies this
      ensures Valid() && old(log) <= log && ForeignOrSweep(log, |old(log)|)
      ensures clock == old(clock) + 1 && (ok <==> !storeFails(old(clock)))
      ensures OwnedKept(old(rows), rows, {alias}, minted)
      ensures ok ==> !ConfigOwned(rows, alias)
    {
      ok := Begin();
      LogGrowth(old(log), interference(old(clock)), if ok then [Sweep(alias)] else []);
      if ok {
        SweepReleases(rows, alias, minted);
        Apply(Sweep(alias));
      } else {
        assert log == old(log) + interference(old(clock)) + [];
      }
    }

    /** One turn of the sweep loop. Aliases swept earlier stay released, unless minted since. */
    method SweepNext(owned: seq<string>, i: nat, configured: set<string>, failures: nat, ghost t0: Table,
                     ghost from: nat, ghost clock0: nat)
      returns (failures': nat)
      requires i < |owned| && Valid() && from <= |log| && ForeignOrSweep(log, from) && clock0 <= clock
      requires OwnedKept(t0, rows, (set a | a in owned) - configured, minted)
      requires failures == 0 ==> Released(owned[..i], configured)
      modifies this
      ensures Valid() && old(log) <= log && ForeignOrSweep(log, from) && clock0 <= clock
      ensures OwnedKept(t0, rows, (set a | a in owned) - configured, minted)
      ensures failures' == 0 ==> failures == 0 && Released(owned[..i + 1], configured)
      ensures NoFailures(clock0) ==> old(NoFailures(clock0)) && failures' == failures
    {
      failures' := failures;
      assert owned[..i + 1] == owned[..i] + [owned[i]];
      if owned[i] !in configured {
        assert owned[i] in (set a | a in owned) - configured;
        var ok := SweepAlias(owned[i]);
        if !ok {
          failures' := failures' + 1;
          assert storeFails(clock - 1);
        }
      }
    }

    ghost predicate Released(owned: seq<string>, configured: set<string>)
      reads this
    {
      forall a <- owned :: a !in minted && a !in configured ==> !ConfigOwned(rows, a)
    }

    /** The sweep loop over the aliases the scan found. */
    method SweepStale(owned: seq<string>, configured: set<string>) returns (failures: nat)
      requires Valid()
      modifies this
      ensures Valid() && old(log) <= log && ForeignOrSweep(log, |old(log)|) && old(clock) <= clock
      ensures OwnedKept(old(rows), rows, (set a | a in owned) - configured, minted)
      ensures failures == 0 ==> Released(owned, configured)
      ensures NoFailures(old(clock)) ==> failures == 0
    {
      failures := 0;
      ghost var stale := (set a | a in owned) - configured;
      for i := 0 to |owned|
        invariant Valid() && old(log) <= log && ForeignOrSweep(log, |old(log)|) && old(clock) <= clock
        invariant OwnedKept(old(rows), rows, stale, minted)
        invariant failures == 0 ==> Released(owned[..i], configured)
        invariant NoFailures(old(clock)) ==> failures == 0
      {
        failures := SweepNext(owned, i, configured, failures, old(rows), |old(log)|, old(clock));
      }
      assert owned[..|owned|] == owned;
    }

    // ---- The whole publication -------------------------------------------------------------------

    /** Publishes a manifest and reports how many transactions failed. Its scan starts from
        `scanned` with transaction `c` and takes `pages` pages. */
    method PublishConfiguredBindings(config: seq<Route>, sidecars: Sidecars)
      returns (failures: nat, ghost scanned: Table, ghost c: nat, ghost pages: nat)
      requires Valid() && Listed(AllBindings(config), aliases)
      modifies this
      ensures Valid() && old(log) <= log && old(clock) <= clock
      ensures PublicationLog(log, |old(log)|, AllBindings(config), sidecars)
      ensures failures == 0 ==> Settled(old(rows), scanned, c, pages, Expected(AllBindings(config), sidecars))
      ensures NoFailures(old(clock)) && Readable(AllBindings(config), sidecars) ==> failures == 0
      ensures Reached(scanned, |old(log)|) && old(clock) <= c && c + pages <= clock
      ensures NothingToPublish(AllBindings(config)) ==> scanned == old(rows) && c == old(clock)
    {
      var configured;
      ghost var all, before, t0 := AllBindings(config), log, rows;
      failures, configured := PublishAll(config, sidecars);
      ghost var published := log;
      scanned, c := rows, clock;
      var found;
      found, pages := ConfigOwnedAliases();
      ghost var read, t2 := log, rows;
      ScanFrame(scanned, c, pages);
      ScanLog(published, read, c, pages, sidecars);
      PublicationLogExtends(published, log, |before|, [], all, sidecars);
      if found.None? {
        ReachedAfter(scanned, published, |before|);
        return failures + 1, scanned, c, pages;
      }
      var unswept := SweepStale(found.value, configured);
      ReachedAfter(scanned, published, |before|);
      PublicationLogExtends(read, log, |before|, [], all, sidecars);
      failures := failures + unswept;
      if failures == 0 {
        SettledNow(t0, scanned, t2, c, pages, found.value, Expected(all, sidecars));
      }
    }

    lemma ScanFrame(t: Table, c: nat, pages: nat)
      requires Environment(interference, aliases, minted) && t.Keys <= aliases
      ensures OwnedKept(t, Run(t, Others(interference, c, pages)), {}, minted)
    {
      OthersAdmissible(interference, c, pages, aliases, minted);
      ForeignRunFrame(t, Others(interference, c, pages), aliases, minted);
    }

    lemma ScanLog(before: seq<Step>, log: seq<Step>, c: nat, pages: nat, sidecars: Sidecars)
      requires Environment(interference, aliases, minted) && log == before + Others(interference, c, pages)
      ensures PublicationLog(log, |before|, [], sidecars)
    {
      OthersAdmissible(interference, c, pages, aliases, minted);
      forall i | |before| <= i < |log|
        ensures PublicationStep(log[i], [], sidecars)
      {
        assert log[i] in Others(interference, c, pages);
      }
    }

    /** What a publication without failures leaves: the manifest's rows, the stale rows its scan
        did not see, and nothing else; so exactly the manifest's rows if no row leaves between
        two pages of the scan. */
    ghost predicate Settled(t0: Table, scanned: Table, c: nat, pages: nat, expected: map<string, Json>)
      reads this
    {
      && Reconciled(t0, scanned, interference, c, pages, rows, expected, minted)
      && (Growing(scanned, interference, c, pages) ==> ConfigLayer(rows) - minted == MarkedRows(expected) - minted)
    }

    lemma SettledNow(t0: Table, t1: Table, t2: Table, c: nat, pages: nat, owned: seq<string>,
                     expected: map<string, Json>)
      requires Environment(interference, aliases, minted) && t1.Keys <= aliases
      requires Holds(t1, expected, minted) && OwnedKept(t0, t1, expected.Keys, minted) && OwnedKept(t1, t2, {}, minted)
      requires Complete(t1, interference, c, pages) && owned == ScanResult(t1, interference, c, pages)
      requires OwnedKept(t2, rows, (set a | a in owned) - expected.Keys, minted)
      requires forall a <- owned :: a !in minted && a !in expected ==> !ConfigOwned(rows, a)
      ensures Settled(t0, t1, c, pages, expected)
    {
      Reconciles(t0, t1, t2, rows, interference, c, pages, owned, expected, aliases, minted);
      if Growing(t1, interference, c, pages) {
        ReconciledIfGrowing(t0, t1, interference, c, pages, rows, expected, aliases, minted);
      }
    }

    /** Two publications in a row: the second alone decides the layer, so publishing is
        idempotent and independent of what was published before. */
    method PublishInTurn(first: seq<Route>, second: seq<Route>, sidecars: Sidecars)
      returns (failures: nat, ghost scanned: Table, ghost c: nat, ghost pages: nat)
      requires Valid() && Listed(AllBindings(first), aliases) && Listed(AllBindings(second), aliases)
      modifies this
      ensures Valid() && old(clock) <= c && c + pages <= clock && Reached(scanned, |old(log)|)
      ensures NoFailures(old(clock)) && Readable(AllBindings(second), sidecars) ==> failures == 0
      ensures failures == 0 && Growing(scanned, interference, c, pages) ==>
        ConfigLayer(rows) - minted == MarkedRows(Expected(AllBindings(second), sidecars)) - minted
    {
      failures, scanned, c, pages := PublishConfiguredBindings(first, sidecars);
      failures, scanned, c, pages := PublishConfiguredBindings(second, sidecars);
    }

    // ---- Withdrawal ------------------------------------------------------------------------------

    /** Reads one row. A failed read is answered `None`, like an absent row. */
    method ReadCurrent(alias: string) returns (row: Option<Bytes>)
      requires Valid() && alias in aliases
      modifies this
      ensures Valid() && old(log) <= log && WithdrawalLog(log, |old(log)|) && clock == old(clock) + 1
      ensures rows == Run(old(rows), interference(old(clock))) && OwnedKept(old(rows), rows, {}, minted)
      ensures row == if storeFails(old(clock)) then None else Get(rows, alias)
    {
      var ok := Begin();
      LogGrowth(old(log), interference(old(clock)), []);
      assert log == old(log) + interference(old(clock)) + [];
      row := if ok then Get(rows, alias) else None;
    }

    /** The withdrawing transaction for one alias, on the table as it finds it. */
    method WithdrawAlias(alias: string) returns (ok: bool)
      requires Valid() && alias in aliases
      modifies this
      ensures Valid() && old(log) <= log && WithdrawalLog(log, |old(log)|)
      ensures clock == old(clock) + 1 && (ok <==> !storeFails(old(clock)))
      ensures var found := Run(old(rows), interference(old(clock)));
        rows == if ok then Next(found, Withdraw(alias)) else found
      ensures OwnedKept(old(rows), rows, {alias}, minted)
      ensures ok ==> Reserved(rows, alias) || (ForeignRow(rows, alias) && !old(ConfigOwned(rows, alias)))
    {
      ok := Begin();
      LogGrowth(old(log), interference(old(clock)), if ok then [Withdraw(alias)] else []);
      if ok {
        WithdrawReserves(rows, alias, minted);
        Apply(Withdraw(alias));
      } else {
        assert log == old(log) + interference(old(clock)) + [];
      }
    }

    /** One alias of the outgoing manifest: its row is left as it is if nothing about it
        changes, and withdrawn otherwise. */
    method WithdrawOne(alias: string, r: Reload, ghost from: nat)
      requires Valid() && alias in aliases && alias in r.outgoing && from <= |log|
      modifies this
      ensures Valid() && old(log) <= log && WithdrawalLog(log, |old(log)|) && old(clock) <= clock
      ensures OwnedKept(old(rows), rows, {alias}, minted)
      ensures NoFailures(old(clock)) ==>
        Sealed(initial, log, from, rows, alias, r, minted) && Passed(old(rows), rows, {alias}, r)
    {
      if alias in r.incoming && r.incoming[alias] == r.outgoing[alias] {
        var row := ReadCurrent(alias);
        if RowStillCurrent(row, r.sidecars, r.outgoing[alias]) {
          SealedNow(initial, log, from, rows, alias, r, minted);
          return;
        }
        assert storeFails(old(clock)) || !old(Spared(rows, alias, r));
      }
      ghost var read, tick := log, clock;
      var ok := WithdrawAlias(alias);
      WithdrawalLogExtends(read, log, |old(log)|);
      if ok {
        SealedNow(initial, log, from, rows, alias, r, minted);
      } else {
        assert storeFails(tick);
      }
    }

    /** The withdrawal loop, over the aliases of the outgoing manifest. */
    method WithdrawAll(r: Reload)
      requires Valid() && r.outgoing.Keys <= aliases
      modifies this
      ensures Valid() && old(log) <= log && WithdrawalLog(log, |old(log)|) && old(clock) <= clock
      ensures OwnedKept(old(rows), rows, r.outgoing.Keys, minted)
      ensures NoFailures(old(clock)) ==>
        && AllSealed(initial, log, |old(log)|, rows, r.outgoing.Keys, r, minted)
        && Passed(old(rows), rows, r.outgoing.Keys, r)
    {
      var todo := r.outgoing.Keys;
      ghost var from, done := |log|, {};
      while todo != {}
        invariant Valid() && old(log) <= log && WithdrawalLog(log, from) && old(clock) <= clock
        invariant todo !! done && todo + done == r.outgoing.Keys
        invariant OwnedKept(old(rows), rows, done, minted)
        invariant NoFailures(old(clock)) ==>
          AllSealed(initial, log, from, rows, done, r, minted) && Passed(old(rows), rows, done, r)
        decreases todo
      {
        var alias :| alias in todo;
        WithdrawNext(alias, r, done, old(rows), old(log), old(clock));
        todo, done := todo - {alias}, done + {alias};
      }
    }

    /** One turn of the withdrawal loop. The loop began with `t0`, `log0` and `clock0`. */
    method WithdrawNext(alias: string, r: Reload, ghost done: set<string>, ghost t0: Table, ghost log0: seq<Step>,
                        ghost clock0: nat)
      requires Valid() && alias in aliases && alias in r.outgoing && alias !in done
      requires log0 <= log && WithdrawalLog(log, |log0|) && clock0 <= clock && OwnedKept(t0, rows, done, minted)
      requires NoFailures(clock0) ==>
        AllSealed(initial, log, |log0|, rows, done, r, minted) && Passed(t0, rows, done, r)
      modifies this
      ensures Valid() && log0 <= log && WithdrawalLog(log, |log0|) && clock0 <= clock
      ensures OwnedKept(t0, rows, done + {alias}, minted)
      ensures NoFailures(clock0) ==>
        AllSealed(initial, log, |log0|, rows, done + {alias}, r, minted) && Passed(t0, rows, done + {alias}, r)
    {
      WithdrawOne(alias, r, |log0|);
      WithdrawalLogExtends(old(log), log, |log0|);
      OwnedKeptThrough(t0, old(rows), rows, done, {alias}, minted);
      if NoFailures(clock0) {
        AllSealedExtends(initial, old(log), log, |log0|, old(rows), rows, alias, done, r, minted);
        PassedNext(t0, old(rows), rows, done, alias, r, minted);
      }
    }

    /** The reload a pair of manifests stands for. */
    ghost function ReloadOf(previous: seq<Route>, next: seq<Route>, sidecars: Sidecars): Reload {
      Reload(PublishablePaths(AllBindings(previous)), PublishablePaths(AllBindings(next)), sidecars)
    }

    /** The withdrawal pass before a reload. It touches no config-owned row outside the outgoing
        manifest and keeps every upload left alone. If no transaction of it fails, every outgoing
        alias is sealed, the rows it spares are as they were and the others reserved. */
    method WithdrawChangedBindings(previous: seq<Route>, next: seq<Route>, sidecars: Sidecars)
      requires Valid() && Listed(AllBindings(previous), aliases)
      modifies this
      ensures Valid() && old(log) <= log && WithdrawalLog(log, |old(log)|) && old(clock) <= clock
      ensures OwnedKept(old(rows), rows, ReloadOf(previous, next, sidecars).outgoing.Keys, minted)
      ensures var r := ReloadOf(previous, next, sidecars);
        NoFailures(old(clock)) ==>
        && AllSealed(initial, log, |old(log)|, rows, r.outgoing.Keys, r, minted)
        && Passed(old(rows), rows, r.outgoing.Keys, r)
      ensures NoFailures(old(clock)) ==>
        PassedBindings(old(rows), rows, AllBindings(previous), AllBindings(next), sidecars)
      ensures UploadsKept(old(rows), |old(log)|, [], sidecars)
    {
      var r := Reload(PublishablePaths(AllBindings(previous)), PublishablePaths(AllBindings(next)), sidecars);
      PublishablePathsKeys(AllBindings(previous));
      WithdrawAll(r);
      if NoFailures(old(clock)) {
        PassedMeaning(old(rows), rows, AllBindings(previous), AllBindings(next), r);
      }
      ReloadKeepsUploads(old(rows), old(log), [], sidecars);
    }

    // ---- Hot reload --------------------------------------------------------------------------------

    /** Since the log was `from` long and the table `t`, every alias other writers left alone has
        kept its upload, unless a row the manifest writes for it is unsafe beside it. */
    ghost predicate UploadsKept(t: Table, from: nat, bindings: seq<Binding>, sidecars: Sidecars)
      requires from <= |log|
      reads this
    {
      forall alias ::
        LeftAlone(t, log[from..], alias) && SafeFor(bindings, sidecars, alias, UploadAt(Get(t, alias))) ==>
        UploadAt(Get(rows, alias)) == UploadAt(Get(t, alias))
    }

    lemma ReloadKeepsUploads(t: Table, before: seq<Step>, bindings: seq<Binding>, sidecars: Sidecars)
      requires Valid() && before <= log && t == Run(initial, before)
      requires forall i :: |before| <= i < |log| ==> log[i].Withdraw? || PublicationStep(log[i], bindings, sidecars)
      ensures UploadsKept(t, |before|, bindings, sidecars)
    {
      var steps := log[|before|..];
      assert log == before + steps;
      RunConcat(initial, before, steps);
      ReloadLogSince(log, |before|, bindings, sidecars);
      forall alias | LeftAlone(t, steps, alias) && SafeFor(bindings, sidecars, alias, UploadAt(Get(t, alias)))
        ensures UploadAt(Get(rows, alias)) == UploadAt(Get(t, alias))
      {
        ReloadKeepsUpload(t, steps, bindings, sidecars, alias);
      }
    }

    /** At least `count` transactions failed since the clock read `from`. */
    ghost predicate FailedAtLeast(from: nat, count: nat)
      reads this
    {
      exists failed: seq<nat> :: |failed| == count && FailedAt(failed, from)
    }

    /** Transactions that failed since the clock read `from`, each once and in order. */
    ghost predicate FailedAt(failed: seq<nat>, from: nat)
      reads this
    {
      && (forall i :: 0 <= i < |failed| ==> from <= failed[i] < clock && storeFails(failed[i]))
      && (forall i, j :: 0 <= i < j < |failed| ==> failed[i] < failed[j])
    }

    /** What the attempts reported: at most three, all but the last with failures. */
    predicate Attempts(reports: seq<nat>, ok: bool) {
      && 1 <= |reports| <= 3 && (forall i :: 0 <= i < |reports| - 1 ==> reports[i] > 0)
      && (ok <==> reports[|reports| - 1] == 0) && (!ok ==> |reports| == 3)
    }

    /** One attempt. The attempts began with `log0` and `clock0`, and `failed` failed since. */
    method Attempt(config: seq<Route>, sidecars: Sidecars, ghost log0: seq<Step>, ghost clock0: nat,
                   ghost failed: seq<nat>)
      returns (failures: nat, ghost start: Table, ghost scanned: Table, ghost c: nat, ghost pages: nat,
               ghost failed': seq<nat>)
      requires Valid() && Listed(AllBindings(config), aliases) && clock0 <= clock && log0 <= log
      requires PublicationLog(log, |log0|, AllBindings(config), sidecars) && FailedAt(failed, clock0)
      modifies this
      ensures Valid() && log0 <= log && clock0 <= c && c + pages <= clock
      ensures PublicationLog(log, |log0|, AllBindings(config), sidecars)
      ensures Reached(start, |log0|) && Reached(scanned, |log0|)
      ensures failures == 0 ==> Settled(start, scanned, c, pages, Expected(AllBindings(config), sidecars))
      ensures FailedAt(failed', clock0)
      ensures failures > 0 && Readable(AllBindings(config), sidecars) ==> |failed'| == |failed| + 1
    {
      ghost var tick, all := clock, AllBindings(config);
      start, failed' := rows, failed;
      failures, scanned, c, pages := PublishConfiguredBindings(config, sidecars);
      PublicationLogExtends(old(log), log, |log0|, all, all, sidecars);
      ReachedAfter(start, old(log), |log0|);
      ReachedSooner(scanned, |old(log)|, |log0|);
      if failures > 0 && Readable(all, sidecars) {
        ghost var n :| tick <= n < clock && storeFails(n);
        failed' := failed + [n];
      }
    }

    lemma ReachedSooner(t: Table, from: nat, sooner: nat)
      requires Reached(t, from) && sooner <= from
      ensures Reached(t, sooner)
    {
    }

    /** Up to three attempts, stopping at the first that reports no failure; that attempt began
        from `start`. With readable sidecars it gives up only after three failed transactions. */
    method PublishWithRetry(config: seq<Route>, sidecars: Sidecars)
      returns (ok: bool, reports: seq<nat>, ghost start: Table, ghost scanned: Table, ghost c: nat, ghost pages: nat)
      requires Valid() && Listed(AllBindings(config), aliases)
      modifies this
      ensures Valid() && old(log) <= log && PublicationLog(log, |old(log)|, AllBindings(config), sidecars)
      ensures ok ==> Settled(start, scanned, c, pages, Expected(AllBindings(config), sidecars))
      ensures Reached(start, |old(log)|) && Reached(scanned, |old(log)|) && old(clock) <= c && c + pages <= clock
      ensures Attempts(reports, ok)
      ensures Readable(AllBindings(config), sidecars) ==> ok || FailedAtLeast(old(clock), 3)
    {
      ghost var all := AllBindings(config);
      ok, reports, start, scanned, c, pages := false, [], rows, rows, clock, 0;
      ghost var failed: seq<nat> := [];
      ReachedAfter(rows, log, |log|);
      for attempt := 1 to 4
        invariant Valid() && old(log) <= log && PublicationLog(log, |old(log)|, all, sidecars)
        invariant !ok && old(clock) <= c && c + pages <= clock
        invariant Reached(start, |old(log)|) && Reached(scanned, |old(log)|)
        invariant |reports| == attempt - 1 && forall i :: 0 <= i < |reports| ==> reports[i] > 0
        invariant FailedAt(failed, old(clock)) && (Readable(all, sidecars) ==> |failed| == attempt - 1)
      {
        var failures;
        failures, start, scanned, c, pages, failed := Attempt(config, sidecars, old(log), old(clock), failed);
        reports := reports + [failures];
        if failures == 0 {
          return true, reports, start, scanned, c, pages;
        }
      }
    }

    /** A hot reload: seal, swap, publish. It leaves the config layer the incoming manifest
        describes and every upload other writers left alone, whatever they did meanwhile. */
    method HotReload(previous: seq<Route>, next: seq<Route>, sidecars: Sidecars)
      returns (ok: bool, ghost start: Table, ghost scanned: Table, ghost c: nat, ghost pages: nat)
      requires Valid() && Listed(AllBindings(previous), aliases) && Listed(AllBindings(next), aliases)
      modifies this
      ensures Valid() && old(log) <= log
      ensures ok ==> Settled(start, scanned, c, pages, Expected(AllBindings(next), sidecars))
      ensures Reached(start, |old(log)|) && Reached(scanned, |old(log)|) && old(clock) <= c && c + pages <= clock
      ensures Readable(AllBindings(next), sidecars) ==> ok || FailedAtLeast(old(clock), 3)
      ensures UploadsKept(old(rows), |old(log)|, AllBindings(next), sidecars)
    {
      WithdrawChangedBindings(previous, next, sidecars);
      ghost var sealed := log;
      var reports;
      ok, reports, start, scanned, c, pages := PublishWithRetry(next, sidecars);
      assert forall i :: |old(log)| <= i < |sealed| ==> log[i] == sealed[i];
      ReloadKeepsUploads(old(rows), old(log), AllBindings(next), sidecars);
    }
  }
}
