/**
 The manifest publisher in terms of tables: what a manifest describes, what withdrawal,
 publication, scan and sweep leave of it, and which uploads they keep.

 `minted` stands for the aliases other writers upload an artifact to whose own sidecar
 declares the publisher's marker. Statements about rows becoming config-owned except them;
 statements about config-owned rows staying as they are do not.
 */
module RegistryPublisher {
  import opened Wrappers
  import opened RegistryRows
  import opened RegistryTable
  import opened RegistryOverlay
  import opened RegistryScan

  datatype Route = Route(components: seq<Binding>)

  function AllBindings(config: seq<Route>): seq<Binding> {
    if config == [] then [] else AllBindings(config[..|config| - 1]) + config[|config| - 1].components
  }

  // ---- What a manifest describes -----------------------------------------------------------

  /** What the manifest alone says the config layer should be. */
  function Expected(bindings: seq<Binding>, sidecars: Sidecars): map<string, Json> {
    if bindings == [] then map[]
    else
      var earlier := Expected(bindings[..|bindings| - 1], sidecars);
      var binding := bindings[|bindings| - 1];
      var metadata := BindingMetadata(sidecars, binding.path);
      if Publishable(binding) && metadata.Some?
      then earlier[binding.alias := Strip(ConfiguredRow(binding, metadata.value).json)]
      else earlier
  }

  /** The rows that read as the publisher's: all of them, unless a sidecar declares another
      `source`. */
  function MarkedRows(layer: map<string, Json>): map<string, Json> {
    map key | key in layer && Marked(layer[key]) :: layer[key]
  }

  ghost predicate Names(binding: Binding, alias: string, sidecars: Sidecars) {
    Publishable(binding) && binding.alias == alias && BindingMetadata(sidecars, binding.path).Some?
  }

  ghost predicate ExpectedFrom(row: Json, alias: string, binding: Binding, sidecars: Sidecars) {
    && Names(binding, alias, sidecars)
    && row == Strip(ConfiguredRow(binding, BindingMetadata(sidecars, binding.path).value).json)
  }

  lemma StripKeepsMarker(json: Json)
    ensures Marked(Strip(json)) <==> Marked(json)
  {
    assert SOURCE_KEY != SHADOWED_UPLOAD_KEY;
  }

  lemma ExpectedAppend(done: seq<Binding>, binding: Binding, sidecars: Sidecars)
    ensures Expected(done + [binding], sidecars) ==
      if Publishable(binding) && BindingMetadata(sidecars, binding.path).Some?
      then Expected(done, sidecars)[binding.alias :=
             Strip(ConfiguredRow(binding, BindingMetadata(sidecars, binding.path).value).json)]
      else Expected(done, sidecars)
  {
    assert (done + [binding])[..|done|] == done;
  }

  /** The binding claims the alias: it is not dynamic and its path is not blank. */
  ghost predicate Claims(binding: Binding, alias: string) {
    !binding.dynamic && HasText(binding.path) && binding.alias == alias
  }

  /** Read against the manifest: the expected layer has a row for exactly the aliases some binding
      with a readable sidecar claims, and it is the last such binding's. */
  lemma {:induction false} ExpectedMeaning(bindings: seq<Binding>, sidecars: Sidecars, alias: string) returns (i: int)
    ensures -1 <= i < |bindings| && (alias in Expected(bindings, sidecars) <==> i >= 0)
    ensures i >= 0 ==> ExpectedFrom(Expected(bindings, sidecars)[alias], alias, bindings[i], sidecars)
    ensures i >= 0 ==> Claims(bindings[i], alias)
    ensures forall j :: i < j < |bindings| ==>
      !(Claims(bindings[j], alias) && BindingMetadata(sidecars, bindings[j].path).Some?)
  {
    if bindings == [] {
      return -1;
    }
    var n := |bindings| - 1;
    PublishableMeaning(bindings[n]);
    assert bindings == bindings[..n] + [bindings[n]];
    ExpectedAppend(bindings[..n], bindings[n], sidecars);
    if Names(bindings[n], alias, sidecars) {
      return n;
    }
    i := ExpectedMeaning(bindings[..n], sidecars, alias);
  }

  /** No row a manifest describes is withdrawn, and it reads as the publisher's exactly when
      the sidecar of the binding it comes from leaves the marker alone. */
  lemma ExpectedIsServed(bindings: seq<Binding>, sidecars: Sidecars, alias: string) returns (i: nat)
    requires alias in Expected(bindings, sidecars)
    ensures i < |bindings| && Names(bindings[i], alias, sidecars)
    ensures var row, metadata := Expected(bindings, sidecars)[alias], BindingMetadata(sidecars, bindings[i].path).value;
      && row.Object? && !("withdrawn" in row.fields && row.fields["withdrawn"] == Bool(true))
      && (Marked(row) <==> (SOURCE_KEY in metadata ==> metadata[SOURCE_KEY] == SOURCE_CONFIG))
  {
    i := ExpectedMeaning(bindings, sidecars, alias);
    var metadata := BindingMetadata(sidecars, bindings[i].path).value;
    ConfiguredRowMarker(bindings[i], metadata);
    ConfiguredRowIsServed(bindings[i], metadata);
    StripKeepsMarker(ConfiguredRow(bindings[i], metadata).json);
  }

  lemma ConfiguredRowIsServed(binding: Binding, metadata: map<string, string>)
    ensures var row := ConfiguredRow(binding, metadata).json;
      row.Object? && ("withdrawn" in row.fields ==> row.fields["withdrawn"].Text?)
  {
  }

  // ---- Frames ------------------------------------------------------------------------------

  /** Outside `except` config-owned rows stand unchanged, and no row outside `minted` becomes
      one. */
  ghost predicate OwnedKept(t: Table, u: Table, except: set<string>, minted: set<string>) {
    && (forall a :: a !in except && ConfigOwned(t, a) ==> Get(u, a) == Get(t, a))
    && (forall a :: a !in except && a !in minted && ConfigOwned(u, a) ==> ConfigOwned(t, a))
  }

  ghost predicate Within(s: Step, aliases: set<string>) {
    forall a :: s.Targets(a) ==> a in aliases
  }

  /** Steps other writers may take: on `aliases` only, minting none but `minted`. */
  ghost predicate Admissible(steps: seq<Step>, aliases: set<string>, minted: set<string>) {
    forall s <- steps ::
      s.Foreign() && Within(s, aliases) && (s.Upload? && RowIsConfigOwned(Some(s.value)) ==> s.key in minted)
  }

  lemma ForeignRunFrame(t: Table, steps: seq<Step>, aliases: set<string>, minted: set<string>)
    requires Admissible(steps, aliases, minted) && t.Keys <= aliases
    ensures OwnedKept(t, Run(t, steps), {}, minted)
    ensures Run(t, steps).Keys <= aliases
  {
    forall a
      ensures ConfigOwned(t, a) ==> Get(Run(t, steps), a) == Get(t, a)
      ensures a !in minted && ConfigOwned(Run(t, steps), a) ==> ConfigOwned(t, a)
    {
      ForeignRunRespectsOwnership(t, steps, a);
      if MintedIn(t, steps, a) {
        var i :| 0 <= i < |steps| && Mints(Run(t, steps[..i]), steps[i], a);
        assert steps[i] in steps;
      }
    }
    ForeignRunKeys(t, steps, aliases, minted);
  }

  lemma {:induction false} ForeignRunKeys(t: Table, steps: seq<Step>, aliases: set<string>, minted: set<string>)
    requires Admissible(steps, aliases, minted) && t.Keys <= aliases
    ensures Run(t, steps).Keys <= aliases
  {
    if steps != [] {
      var n := |steps| - 1;
      var u := Run(t, steps[..n]);
      assert forall s <- steps[..n] :: s in steps;
      ForeignRunKeys(t, steps[..n], aliases, minted);
      forall key | key in Next(u, steps[n])
        ensures key in aliases
      {
        ForeignStepRespectsOwnership(u, steps[n], key);
        assert Get(Next(u, steps[n]), key).Some?;
        assert steps[n] in steps;
      }
    }
  }

  lemma {:induction false} OthersAdmissible(others: Schedule, c: nat, n: nat, aliases: set<string>, minted: set<string>)
    requires forall m: nat :: Admissible(others(m), aliases, minted)
    ensures Admissible(Others(others, c, n), aliases, minted)
  {
    if n > 0 {
      OthersAdmissible(others, c, n - 1, aliases, minted);
      assert Admissible(others(c + n - 1), aliases, minted);
    }
  }

  // ---- Logs --------------------------------------------------------------------------------

  /** What one transaction adds to the log: other writers' steps, then `own`. */
  lemma LogGrowth(before: seq<Step>, others: seq<Step>, own: seq<Step>)
    requires ForeignRun(others)
    ensures var log := before + others + own;
      && before <= log
      && forall i :: |before| <= i < |log| ==> log[i].Foreign() || log[i] in own
  {
    var log := before + others + own;
    forall i | |before| <= i < |log|
      ensures log[i].Foreign() || log[i] in own
    {
      if i < |before| + |others| {
        assert log[i] == others[i - |before|] && log[i] in others;
      }
    }
  }

  ghost predicate ForeignOrSweep(log: seq<Step>, from: nat) {
    forall i :: from <= i < |log| ==> log[i].Foreign() || log[i].Sweep?
  }

  /** Since `from` the host has only inserted or refreshed `alias`. */
  ghost predicate BindingLog(log: seq<Step>, from: nat, alias: string, value: Bytes) {
    forall i {:trigger log[i]} :: from <= i < |log| ==>
      log[i].Foreign() || log[i] == InsertIfAbsent(alias, value) || log[i] == Refresh(alias, value)
  }

  lemma BindingLogGrowth(before: seq<Step>, others: seq<Step>, alias: string, value: Bytes, own: Step)
    requires ForeignRun(others) && (own == InsertIfAbsent(alias, value) || own == Refresh(alias, value))
    ensures before <= before + others && BindingLog(before + others, |before|, alias, value)
    ensures before <= before + others + [own] && BindingLog(before + others + [own], |before|, alias, value)
  {
    LogGrowth(before, others, [own]);
    LogGrowth(before, others, []);
    assert before + others + [] == before + others;
  }

  lemma BindingLogExtends(mid: seq<Step>, log: seq<Step>, from: nat, alias: string, value: Bytes)
    requires mid <= log && BindingLog(mid, from, alias, value) && BindingLog(log, |mid|, alias, value)
    ensures BindingLog(log, from, alias, value)
  {
    forall i | from <= i < |log|
      ensures log[i].Foreign() || log[i] == InsertIfAbsent(alias, value) || log[i] == Refresh(alias, value)
    {
      if i < |mid| {
        assert log[i] == mid[i];
      }
    }
  }

  /** `s` writes the row of a publishable binding, as its sidecar reads now. */
  ghost predicate WritesBinding(s: Step, binding: Binding, sidecars: Sidecars) {
    && (s.InsertIfAbsent? || s.Refresh?)
    && Names(binding, s.key, sidecars)
    && s.value == ConfiguredRow(binding, BindingMetadata(sidecars, binding.path).value)
  }

  ghost predicate PublicationStep(s: Step, bindings: seq<Binding>, sidecars: Sidecars) {
    || s.Foreign() || s.Sweep?
    || exists binding <- bindings :: WritesBinding(s, binding, sidecars)
  }

  ghost predicate PublicationLog(log: seq<Step>, from: nat, bindings: seq<Binding>, sidecars: Sidecars) {
    forall i {:trigger log[i]} :: from <= i < |log| ==> PublicationStep(log[i], bindings, sidecars)
  }

  lemma PublicationLogExtends(before: seq<Step>, log: seq<Step>, from: nat, some: seq<Binding>, all: seq<Binding>,
                              sidecars: Sidecars)
    requires from <= |before| && before <= log
    requires PublicationLog(before, from, all, sidecars) && PublicationLog(log, |before|, some, sidecars)
    requires forall binding <- some :: binding in all
    ensures PublicationLog(log, from, all, sidecars)
  {
    forall i | from <= i < |log|
      ensures PublicationStep(log[i], all, sidecars)
    {
      if i < |before| {
        assert log[i] == before[i];
      } else {
        assert PublicationStep(log[i], some, sidecars);
      }
    }
  }

  // ---- Refresh, sweep and withdrawal of one row ------------------------------------------------

  /** Whatever was in the row, writing a publisher's value makes it config-owned exactly
      when the value is marked, and it then says what the value says. */
  lemma RefreshSetsConfig(current: Option<Bytes>, value: Bytes)
    requires value.Document? && value.json.Object?
    ensures var row := RefreshDecision(current, value);
      && row.Set?
      && ConfigAt(Some(row.value)) == if Marked(value.json) then Some(Strip(value.json)) else None
  {
    CarriedRow(value, current);
  }

  lemma SweepReleases(t: Table, alias: string, minted: set<string>)
    ensures !ConfigOwned(Next(t, Sweep(alias)), alias)
    ensures OwnedKept(t, Next(t, Sweep(alias)), {alias}, minted)
  {
    var t' := Next(t, Sweep(alias));
    assert forall a :: a != alias ==> Get(t', a) == Get(t, a);
  }

  predicate Reserved(t: Table, alias: string) {
    ConfigAt(Get(t, alias)) == Some(Strip(Reservation(alias).json))
  }

  predicate ForeignRow(t: Table, alias: string) {
    alias in t && !ConfigOwned(t, alias)
  }

  /** A withdrawal reserves the alias unless a foreign row is there. */
  lemma WithdrawReserves(t: Table, alias: string, minted: set<string>)
    ensures var t' := Next(t, Withdraw(alias));
      && OwnedKept(t, t', {alias}, minted)
      && (if ForeignRow(t, alias) then t' == t else Reserved(t', alias))
  {
    var current, t' := Get(t, alias), Next(t, Withdraw(alias));
    assert forall a :: a != alias ==> Get(t', a) == Get(t, a);
    if !ForeignRow(t, alias) {
      ReservationIsSafe(alias, current);
      CarriedRow(Reservation(alias), current);
    }
  }

  // ---- Publication ---------------------------------------------------------------------------

  /** The table's config rows agree with `layer` on its aliases. */
  ghost predicate Holds(t: Table, layer: map<string, Json>, minted: set<string>) {
    forall a <- layer ::
      HoldsAt(t, a, layer[a], minted)
  }

  predicate HoldsAt(t: Table, alias: string, row: Json, minted: set<string>) {
    if Marked(row) then ConfigAt(Get(t, alias)) == Some(row) else alias !in minted ==> ConfigAt(Get(t, alias)) == None
  }

  lemma {:induction false} RouteIsListed(config: seq<Route>, r: nat)
    requires r < |config|
    ensures forall binding <- config[r].components :: binding in AllBindings(config)
  {
    if r < |config| - 1 {
      RouteIsListed(config[..|config| - 1], r);
    }
  }

  lemma BindingsUpTo(config: seq<Route>, r: nat)
    requires r < |config|
    ensures AllBindings(config[..r + 1]) == AllBindings(config[..r]) + config[r].components
  {
    assert config[..r + 1][..r] == config[..r];
  }

  /** Progress of the publication loops: `done` is published, unless something failed. */
  ghost predicate Published(t: Table, failures: nat, configured: set<string>, done: seq<Binding>, sidecars: Sidecars,
                            minted: set<string>) {
    failures == 0 ==> Holds(t, Expected(done, sidecars), minted) && configured == Expected(done, sidecars).Keys
  }

  /** The row of a publishable binding is in place. */
  ghost predicate InPlace(t: Table, binding: Binding, sidecars: Sidecars) {
    && BindingMetadata(sidecars, binding.path).Some?
    && var row := ConfiguredRow(binding, BindingMetadata(sidecars, binding.path).value).json;
    && ConfigAt(Get(t, binding.alias)) == if Marked(row) then Some(Strip(row)) else None
  }

  function Touched(binding: Binding): set<string> {
    if Publishable(binding) then {binding.alias} else {}
  }

  /** Publishing one more binding extends the agreement to it. */
  lemma HoldsAppend(t: Table, u: Table, done: seq<Binding>, binding: Binding, sidecars: Sidecars, minted: set<string>)
    requires Holds(t, Expected(done, sidecars), minted) && OwnedKept(t, u, Touched(binding), minted)
    requires Publishable(binding) ==> InPlace(u, binding, sidecars)
    ensures Holds(u, Expected(done + [binding], sidecars), minted)
  {
    ExpectedAppend(done, binding, sidecars);
    var layer := Expected(done, sidecars);
    HoldsElsewhere(t, u, layer, Touched(binding), minted);
    if Publishable(binding) {
      var row := ConfiguredRow(binding, BindingMetadata(sidecars, binding.path).value).json;
      HoldsWith(u, layer, binding.alias, row, minted);
    }
  }

  lemma HoldsElsewhere(t: Table, u: Table, layer: map<string, Json>, except: set<string>, minted: set<string>)
    requires Holds(t, layer, minted) && OwnedKept(t, u, except, minted)
    ensures Holds(u, layer - except, minted)
    ensures except !! layer.Keys ==> Holds(u, layer, minted)
  {
    forall a <- layer | a !in except
      ensures HoldsAt(u, a, layer[a], minted)
    {
    }
  }

  lemma HoldsWith(u: Table, layer: map<string, Json>, alias: string, row: Json, minted: set<string>)
    requires Holds(u, layer - {alias}, minted)
    requires ConfigAt(Get(u, alias)) == if Marked(row) then Some(Strip(row)) else None
    ensures Holds(u, layer[alias := Strip(row)], minted)
  {
    StripKeepsMarker(row);
    forall a <- layer | a != alias
      ensures HoldsAt(u, a, layer[a], minted)
    {
      assert a in layer - {alias};
    }
  }

  /** One turn of the publication loop, from `t` to `u`. */
  lemma PublishedNext(t0: Table, t: Table, u: Table, failures: nat, configured: set<string>, done: seq<Binding>,
                      binding: Binding, sidecars: Sidecars, ok: bool, failures': nat, configured': set<string>,
                      minted: set<string>)
    requires Published(t, failures, configured, done, sidecars, minted) && OwnedKept(t0, t, configured, minted)
    requires OwnedKept(t, u, Touched(binding), minted)
    requires ok && Publishable(binding) ==> InPlace(u, binding, sidecars)
    requires failures' == failures + if ok then 0 else 1
    requires configured' == configured + Touched(binding)
    ensures Published(u, failures', configured', done + [binding], sidecars, minted)
    ensures OwnedKept(t0, u, configured', minted)
  {
    if failures' == 0 {
      HoldsAppend(t, u, done, binding, sidecars, minted);
      ExpectedAppend(done, binding, sidecars);
    }
  }

  // ---- Scan and sweep ------------------------------------------------------------------------

  /** What a publication without failures leaves, `t0` before it, `t1` when its scan began and
      `t3` after its sweep: the manifest's rows, and besides them exactly the stale rows that
      stood on no page when it was read. */
  ghost predicate Reconciled(t0: Table, t1: Table, others: Schedule, c: nat, n: nat, t3: Table,
                             layer: map<string, Json>, minted: set<string>) {
    && Complete(t1, others, c, n)
    && Holds(t3, layer, minted)
    && (forall a :: a !in layer && a !in minted ==>
          (ConfigOwned(t3, a) <==> ConfigOwned(t0, a) && !Seen(t1, others, c, n, a)))
  }

  lemma PageTableFrame(t: Table, others: Schedule, c: nat, k: nat, aliases: set<string>, minted: set<string>)
    requires t.Keys <= aliases && forall m: nat :: Admissible(others(m), aliases, minted)
    ensures OwnedKept(t, PageTable(t, others, c, k), {}, minted) && PageTable(t, others, c, k).Keys <= aliases
  {
    OthersAdmissible(others, c, k + 1, aliases, minted);
    ForeignRunFrame(t, Others(others, c, k + 1), aliases, minted);
  }

  /** Outside `minted` the scan returns exactly the config-owned aliases it saw. */
  lemma ScanReportsOwned(t: Table, others: Schedule, c: nat, n: nat, aliases: set<string>, minted: set<string>,
                         alias: string)
    requires t.Keys <= aliases && alias !in minted && forall m: nat :: Admissible(others(m), aliases, minted)
    ensures alias in ScanResult(t, others, c, n) <==> ConfigOwned(t, alias) && Seen(t, others, c, n, alias)
  {
    ScanReports(t, others, c, n, alias);
    forall k | 0 <= k < n
      ensures ReportedBy(t, others, c, k, alias) <==>
        ConfigOwned(t, alias) && OnPage(PageTable(t, others, c, k), k, alias)
    {
      PageTableFrame(t, others, c, k, aliases, minted);
    }
  }

  lemma Reconciles(t0: Table, t1: Table, t2: Table, t3: Table, others: Schedule, c: nat, n: nat, owned: seq<string>,
                   layer: map<string, Json>, aliases: set<string>, minted: set<string>)
    requires t1.Keys <= aliases && forall m: nat :: Admissible(others(m), aliases, minted)
    requires Holds(t1, layer, minted) && OwnedKept(t0, t1, layer.Keys, minted) && OwnedKept(t1, t2, {}, minted)
    requires Complete(t1, others, c, n) && owned == ScanResult(t1, others, c, n)
    requires OwnedKept(t2, t3, (set a | a in owned) - layer.Keys, minted)
    requires forall a <- owned :: a !in minted && a !in layer ==> !ConfigOwned(t3, a)
    ensures Reconciled(t0, t1, others, c, n, t3, layer, minted)
  {
    HoldsElsewhere(t1, t2, layer, {}, minted);
    HoldsElsewhere(t2, t3, layer, (set a | a in owned) - layer.Keys, minted);
    forall a | a !in layer && a !in minted
      ensures ConfigOwned(t3, a) <==> ConfigOwned(t0, a) && !Seen(t1, others, c, n, a)
    {
      ScanReportsOwned(t1, others, c, n, aliases, minted, a);
    }
  }

  lemma ConfigLayerAt(t: Table, layer: map<string, Json>, minted: set<string>)
    requires Holds(t, layer, minted)
    ensures ConfigLayer(t) - minted == MarkedRows(layer) - minted <==>
      forall a :: a !in layer && a !in minted ==> !ConfigOwned(t, a)
  {
    var config, rows := ConfigLayer(t) - minted, MarkedRows(layer) - minted;
    if forall a :: a !in layer && a !in minted ==> !ConfigOwned(t, a) {
      forall a
        ensures a in config <==> a in rows
        ensures a in config ==> a in rows && config[a] == rows[a]
      {
        LayersAt(t, a);
      }
      assert config == rows;
    } else {
      var a :| a !in layer && a !in minted && ConfigOwned(t, a);
      LayersAt(t, a);
      assert a in config && a !in rows;
    }
  }

  /** The config layer is the manifest's exactly when every stale row stood on a page when it
      was read. */
  lemma ReconciledExactly(t0: Table, t1: Table, others: Schedule, c: nat, n: nat, t3: Table, layer: map<string, Json>,
                          minted: set<string>)
    requires Reconciled(t0, t1, others, c, n, t3, layer, minted)
    ensures ConfigLayer(t3) - minted == MarkedRows(layer) - minted <==>
      forall a :: a !in layer && a !in minted && ConfigOwned(t0, a) ==> Seen(t1, others, c, n, a)
  {
    ConfigLayerAt(t3, layer, minted);
  }

  /** It is the manifest's whenever no row leaves between two pages of the scan. */
  lemma ReconciledIfGrowing(t0: Table, t1: Table, others: Schedule, c: nat, n: nat, t3: Table, layer: map<string, Json>,
                            aliases: set<string>, minted: set<string>)
    requires Reconciled(t0, t1, others, c, n, t3, layer, minted) && OwnedKept(t0, t1, layer.Keys, minted)
    requires t1.Keys <= aliases && forall m: nat :: Admissible(others(m), aliases, minted)
    requires forall a <- aliases :: Scannable(a)
    requires Growing(t1, others, c, n)
    ensures ConfigLayer(t3) - minted == MarkedRows(layer) - minted
  {
    forall a | a !in layer && a !in minted && ConfigOwned(t0, a)
      ensures Seen(t1, others, c, n, a)
    {
      forall k | 0 <= k < n
        ensures a in PageTable(t1, others, c, k)
      {
        PageTableFrame(t1, others, c, k, aliases, minted);
        assert ConfigOwned(t1, a);
      }
      assert a in t1;
      GrowingScanSees(t1, others, c, n, a);
    }
    ReconciledExactly(t0, t1, others, c, n, t3, layer, minted);
  }

  // ---- Uploads through a reload ----------------------------------------------------------------

  /** Every row the manifest would write for `alias` is safe beside `upload`. */
  ghost predicate SafeFor(bindings: seq<Binding>, sidecars: Sidecars, alias: string, upload: Option<Bytes>) {
    forall binding <- bindings :: Names(binding, alias, sidecars) ==>
      PublisherSafe(ConfiguredRow(binding, BindingMetadata(sidecars, binding.path).value), upload)
  }

  ghost predicate ReloadLog(steps: seq<Step>, bindings: seq<Binding>, sidecars: Sidecars) {
    forall s <- steps :: s.Withdraw? || PublicationStep(s, bindings, sidecars)
  }

  lemma ReloadLogSince(log: seq<Step>, from: nat, bindings: seq<Binding>, sidecars: Sidecars)
    requires from <= |log|
    requires forall i :: from <= i < |log| ==> log[i].Withdraw? || PublicationStep(log[i], bindings, sidecars)
    ensures ReloadLog(log[from..], bindings, sidecars)
  {
    forall s | s in log[from..]
      ensures s.Withdraw? || PublicationStep(s, bindings, sidecars)
    {
      var i :| 0 <= i < |log[from..]| && log[from..][i] == s;
      assert s == log[from + i];
    }
  }

  /** A reload keeps the upload of every alias other writers leave alone, if the manifest's
      rows for it are safe beside that upload. */
  lemma ReloadKeepsUpload(t: Table, steps: seq<Step>, bindings: seq<Binding>, sidecars: Sidecars, alias: string)
    requires ReloadLog(steps, bindings, sidecars) && LeftAlone(t, steps, alias)
    requires SafeFor(bindings, sidecars, alias, UploadAt(Get(t, alias)))
    ensures UploadAt(Get(Run(t, steps), alias)) == UploadAt(Get(t, alias))
  {
    forall s | s in steps
      ensures Structured(s)
      ensures (s.InsertIfAbsent? || s.Refresh?) && s.key == alias ==> PublisherSafe(s.value, UploadAt(Get(t, alias)))
    {
      if s.InsertIfAbsent? || s.Refresh? {
        var binding :| binding in bindings && WritesBinding(s, binding, sidecars);
      }
    }
    SafeWritesKeepUpload(t, steps, alias);
  }

  // ---- The sealed window -----------------------------------------------------------------------

  /** Alias to path of every publishable binding; a repeated alias keeps its last path. */
  function PublishablePaths(bindings: seq<Binding>): map<string, string> {
    if bindings == [] then map[]
    else
      var earlier, binding := PublishablePaths(bindings[..|bindings| - 1]), bindings[|bindings| - 1];
      if Publishable(binding) then earlier[binding.alias := binding.path] else earlier
  }

  /** Exactly the aliases some binding claims, each with the path of the last binding that does. */
  lemma {:induction false} PathsMeaning(bindings: seq<Binding>, alias: string) returns (i: int)
    ensures -1 <= i < |bindings| && (alias in PublishablePaths(bindings) <==> i >= 0)
    ensures i >= 0 ==> Claims(bindings[i], alias) && PublishablePaths(bindings)[alias] == bindings[i].path
    ensures forall j :: i < j < |bindings| ==> !Claims(bindings[j], alias)
  {
    if bindings == [] {
      return -1;
    }
    var n := |bindings| - 1;
    PublishableMeaning(bindings[n]);
    if Claims(bindings[n], alias) {
      return n;
    }
    i := PathsMeaning(bindings[..n], alias);
  }

  /** Binding `i` is the last one that claims its alias. */
  ghost predicate LastClaim(bindings: seq<Binding>, i: int) {
    && 0 <= i < |bindings| && Claims(bindings[i], bindings[i].alias)
    && forall j :: i < j < |bindings| ==> !Claims(bindings[j], bindings[i].alias)
  }

  lemma PathOfLastClaim(bindings: seq<Binding>, i: int)
    requires LastClaim(bindings, i)
    ensures bindings[i].alias in PublishablePaths(bindings)
    ensures PublishablePaths(bindings)[bindings[i].alias] == bindings[i].path
  {
    var k := PathsMeaning(bindings, bindings[i].alias);
  }

  lemma {:induction false} PublishablePathsKeys(bindings: seq<Binding>)
    ensures forall alias <- PublishablePaths(bindings) ::
      exists binding <- bindings :: Publishable(binding) && binding.alias == alias
  {
    if bindings != [] {
      PublishablePathsKeys(bindings[..|bindings| - 1]);
      assert bindings[|bindings| - 1] in bindings;
    }
  }

  ghost predicate WithdrawalLog(log: seq<Step>, from: nat) {
    forall i :: from <= i < |log| ==> log[i].Foreign() || log[i].Withdraw?
  }

  lemma WithdrawalLogExtends(before: seq<Step>, log: seq<Step>, from: nat)
    requires before <= log && WithdrawalLog(before, from) && WithdrawalLog(log, |before|)
    ensures WithdrawalLog(log, from)
  {
    forall i | from <= i < |log|
      ensures log[i].Foreign() || log[i].Withdraw?
    {
      if i < |before| {
        assert log[i] == before[i];
      }
    }
  }

  /** The paths of the two manifests a reload goes between, and the sidecars as they read. */
  datatype Reload = Reload(outgoing: map<string, string>, incoming: map<string, string>, sidecars: Sidecars)

  /** The pass recognises the row as one that need not change: both manifests name the alias
      with the same path, and the row shows the engine and the metadata of that path. */
  predicate Spared(t: Table, alias: string, r: Reload)
    requires alias in r.outgoing
  {
    && ConfigOwned(t, alias) && alias in r.incoming && r.incoming[alias] == r.outgoing[alias]
    && RowStillCurrent(Get(t, alias), r.sidecars, r.outgoing[alias])
  }

  /** A reservation, or a row the pass spares. */
  predicate Held(t: Table, alias: string, r: Reload)
    requires alias in r.outgoing
  {
    Reserved(t, alias) || Spared(t, alias, r)
  }

  /** Of the outgoing aliases among `aliases`, the pass from `t` to `u` left every row it spares
      as it was and reserved every other config-owned one. */
  ghost predicate Passed(t: Table, u: Table, aliases: set<string>, r: Reload) {
    forall alias :: alias in aliases && alias in r.outgoing && ConfigOwned(t, alias) ==>
      if Spared(t, alias, r) then Get(u, alias) == Get(t, alias) else Reserved(u, alias)
  }

  /** The incoming manifest gives the binding's alias the same path. */
  ghost predicate StillClaimed(binding: Binding, next: seq<Binding>) {
    exists j :: LastClaim(next, j) && next[j].alias == binding.alias && next[j].path == binding.path
  }

  /** The pass, read against the manifests: of the rows the manifest `previous` owns, those of
      bindings that `next` keeps and that show the engine and metadata of their path are as they
      were, and all others are reserved. */
  ghost predicate PassedBindings(t: Table, u: Table, previous: seq<Binding>, next: seq<Binding>, sidecars: Sidecars) {
    forall i :: LastClaim(previous, i) && ConfigOwned(t, previous[i].alias) ==>
      if StillClaimed(previous[i], next) && RowStillCurrent(Get(t, previous[i].alias), sidecars, previous[i].path)
      then Get(u, previous[i].alias) == Get(t, previous[i].alias)
      else Reserved(u, previous[i].alias)
  }

  lemma PassedMeaning(t: Table, u: Table, previous: seq<Binding>, next: seq<Binding>, r: Reload)
    requires r.outgoing == PublishablePaths(previous) && r.incoming == PublishablePaths(next)
    requires Passed(t, u, r.outgoing.Keys, r)
    ensures PassedBindings(t, u, previous, next, r.sidecars)
  {
    forall i | LastClaim(previous, i) && ConfigOwned(t, previous[i].alias)
      ensures
        if StillClaimed(previous[i], next) && RowStillCurrent(Get(t, previous[i].alias), r.sidecars, previous[i].path)
        then Get(u, previous[i].alias) == Get(t, previous[i].alias)
        else Reserved(u, previous[i].alias)
    {
      PathOfLastClaim(previous, i);
      StillClaimedMeaning(previous[i], next);
    }
  }

  lemma StillClaimedMeaning(binding: Binding, next: seq<Binding>)
    ensures StillClaimed(binding, next) <==>
      binding.alias in PublishablePaths(next) && PublishablePaths(next)[binding.alias] == binding.path
  {
    var k := PathsMeaning(next, binding.alias);
    if k >= 0 {
      assert LastClaim(next, k);
    }
    if StillClaimed(binding, next) {
      var j :| LastClaim(next, j) && next[j].alias == binding.alias && next[j].path == binding.path;
      PathOfLastClaim(next, j);
    }
  }

  /** One more alias, taken from `t` to `u` by the pass that began with `t0`. */
  lemma PassedNext(t0: Table, t: Table, u: Table, aliases: set<string>, alias: string, r: Reload, minted: set<string>)
    requires alias in r.outgoing && alias !in aliases && OwnedKept(t, u, {alias}, minted)
    requires Passed(t0, t, aliases, r) && Passed(t, u, {alias}, r)
    requires ConfigOwned(t0, alias) ==> Get(t, alias) == Get(t0, alias)
    ensures Passed(t0, u, aliases + {alias}, r)
  {
    forall a | a in aliases && a in r.outgoing && ConfigOwned(t0, a)
      ensures if Spared(t0, a, r) then Get(u, a) == Get(t0, a) else Reserved(u, a)
    {
      assert ConfigOwned(t, a);
    }
  }

  lemma OwnedKeptThrough(t: Table, u: Table, v: Table, except: set<string>, more: set<string>, minted: set<string>)
    requires OwnedKept(t, u, except, minted) && OwnedKept(u, v, more, minted)
    ensures OwnedKept(t, v, except + more, minted)
  {
  }

  /** The window is closed for `alias`: its row is held, or it was a foreign writer's at some
      point of the pass; and a row config-owned now that nobody minted is held. */
  ghost predicate Sealed(initial: Table, log: seq<Step>, from: nat, t: Table, alias: string, r: Reload,
                         minted: set<string>)
    requires alias in r.outgoing
  {
    && (Held(t, alias, r) || exists i :: from <= i <= |log| && ForeignRow(Run(initial, log[..i]), alias))
    && (ConfigOwned(t, alias) && alias !in minted ==> Held(t, alias, r))
  }

  lemma SealedNow(initial: Table, log: seq<Step>, from: nat, t: Table, alias: string, r: Reload, minted: set<string>)
    requires alias in r.outgoing && t == Run(initial, log) && from <= |log|
    requires Held(t, alias, r) || ForeignRow(t, alias)
    ensures Sealed(initial, log, from, t, alias, r, minted)
  {
    assert log[..|log|] == log;
    if ForeignRow(t, alias) {
      assert ForeignRow(Run(initial, log[..|log|]), alias);
    }
  }

  lemma SealedExtends(initial: Table, before: seq<Step>, log: seq<Step>, from: nat, t: Table, u: Table,
                      except: set<string>, alias: string, r: Reload, minted: set<string>)
    requires alias in r.outgoing && before <= log && OwnedKept(t, u, except, minted) && alias !in except
    requires Sealed(initial, before, from, t, alias, r, minted)
    ensures Sealed(initial, log, from, u, alias, r, minted)
  {
    if !Held(t, alias, r) {
      var i :| from <= i <= |before| && ForeignRow(Run(initial, before[..i]), alias);
      assert log[..i] == before[..i];
    }
  }

  /** Until the manifest is published again, no upload or guest step takes a sealed
      config-owned alias or changes its row. */
  lemma SealHolds(initial: Table, log: seq<Step>, from: nat, t: Table, alias: string, r: Reload,
                  others: seq<Step>, aliases: set<string>, minted: set<string>)
    requires alias in r.outgoing && Sealed(initial, log, from, t, alias, r, minted)
    requires Admissible(others, aliases, minted) && t.Keys <= aliases
    ensures Sealed(initial, log + others, from, Run(t, others), alias, r, minted)
    ensures ConfigOwned(t, alias) ==> Get(Run(t, others), alias) == Get(t, alias)
  {
    ForeignRunFrame(t, others, aliases, minted);
    SealedExtends(initial, log, log + others, from, t, Run(t, others), {}, alias, r, minted);
  }

  ghost predicate AllSealed(initial: Table, log: seq<Step>, from: nat, t: Table, aliases: set<string>, r: Reload,
                            minted: set<string>) {
    forall alias :: alias in aliases && alias in r.outgoing ==> Sealed(initial, log, from, t, alias, r, minted)
  }

  lemma AllSealedExtends(initial: Table, before: seq<Step>, log: seq<Step>, from: nat, t: Table, u: Table,
                         alias: string, aliases: set<string>, r: Reload, minted: set<string>)
    requires before <= log && OwnedKept(t, u, {alias}, minted) && alias in r.outgoing && alias !in aliases
    requires AllSealed(initial, before, from, t, aliases, r, minted)
    requires Sealed(initial, log, from, u, alias, r, minted)
    ensures AllSealed(initial, log, from, u, aliases + {alias}, r, minted)
  {
    forall other | other in aliases && other in r.outgoing
      ensures Sealed(initial, log, from, u, other, r, minted)
    {
      SealedExtends(initial, before, log, from, t, u, {alias}, other, r, minted);
    }
  }
}
