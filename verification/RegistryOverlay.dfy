/**
 The overlay the registry table stands for: a config layer over an upload layer, and the
 proof that every transaction of `RegistryTable` is a step of it.
 */
module RegistryOverlay {
  import opened Wrappers
  import opened RegistryRows
  import opened RegistryTable

  /** `config`: what the manifest says, without parked rows. `uploads`: every uploaded or
      guest-registered row, visible or parked, with its layout forgotten. */
  datatype Overlay = Overlay(config: map<string, Json>, uploads: map<string, Bytes>)

  function ConfigAt(row: Option<Bytes>): Option<Json> {
    if RowIsConfigOwned(row) then Some(Strip(row.value.json)) else None
  }

  function UploadAt(row: Option<Bytes>): Option<Bytes> {
    if row.None? then None
    else if RowIsConfigOwned(row) then ShadowedUploadRow(row.value)
    else Some(Normal(row.value))
  }

  function ConfigLayer(t: Table): map<string, Json> {
    map key | key in t && ConfigAt(Get(t, key)).Some? :: ConfigAt(Get(t, key)).value
  }

  function UploadLayer(t: Table): map<string, Bytes> {
    map key | key in t && UploadAt(Get(t, key)).Some? :: UploadAt(Get(t, key)).value
  }

  function Abstract(t: Table): Overlay {
    Overlay(ConfigLayer(t), UploadLayer(t))
  }

  // ---- The overlay's own steps -------------------------------------------------------

  function Configure(o: Overlay, key: string, row: Json): Overlay {
    o.(config := o.config[key := row])
  }

  function Write(o: Overlay, key: string, row: Option<Bytes>): Overlay {
    if key in o.config then o
    else o.(uploads := if row.Some? then o.uploads[key := Normal(row.value)] else o.uploads - {key})
  }

  function WriteAll(uploads: map<string, Bytes>, entries: seq<(string, Bytes)>): map<string, Bytes>
    decreases entries
  {
    if entries == [] then uploads
    else WriteAll(uploads[entries[0].0 := Normal(entries[0].1)], entries[1..])
  }

  function Lookup(uploads: map<string, Bytes>, key: string): Option<Bytes> {
    if key in uploads then Some(uploads[key]) else None
  }

  function NormalOption(row: Option<Bytes>): Option<Bytes> {
    if row.Some? then Some(Normal(row.value)) else None
  }

  /** Compares look at bytes, which the overlay forgets, so a compare may also fail on a row
      that parses to the expected value; every other step is determined. */
  ghost predicate OverlayStep(o: Overlay, s: Step, o': Overlay) {
    match s
    case InsertIfAbsent(key, value) =>
      o' == if key in o.config || key in o.uploads || !value.Document? then o
            else Configure(o, key, Strip(value.json))
    case Refresh(key, value) => value.Document? && o' == Configure(o, key, Strip(value.json))
    case Sweep(key) => o' == o.(config := o.config - {key})
    case Withdraw(key) =>
      o' == if key in o.uploads && key !in o.config then o
            else Configure(o, key, Strip(Reservation(key).json))
    case Upload(key, value) => o' == Write(o, key, Some(value))
    case GuestWrite(key, replacement) => o' == if Forged(replacement) then o else Write(o, key, replacement)
    case GuestCompareAndSet(key, expected, value) =>
      || o' == o
      || (&& !Forged(Some(value)) && Lookup(o.uploads, key) == NormalOption(expected)
          && o' == Write(o, key, Some(value)))
    case GuestCompareAndDelete(key, present) =>
      || o' == o
      || (Lookup(o.uploads, key) == Some(Normal(present)) && o' == Write(o, key, None))
    case GuestBatch(entries) =>
      o' == if AnyForged(entries) || (exists i :: 0 <= i < |entries| && entries[i].0 in o.config) then o
            else o.(uploads := WriteAll(o.uploads, entries))
  }

  // ---- Where the table and the overlay part ----------------------------------------------

  /** The publisher's `value`, written over a row behind which `upload` stands, keeps it: the
      value carries the marker, and the upload parses, or there is none and the value brings
      none of its own. */
  predicate PublisherSafe(value: Bytes, upload: Option<Bytes>) {
    && RowIsConfigOwned(Some(value))
    && (if upload.Some? then upload.value.Document? else ShadowedUploadRow(value).None?)
  }

  predicate OverlaySafe(t: Table, s: Step) {
    match s
    case InsertIfAbsent(key, value) => key in t || PublisherSafe(value, None)
    case Refresh(key, value) => PublisherSafe(value, UploadAt(Get(t, key)))
    case Upload(key, value) => ConfigOwned(t, key) || !RowIsConfigOwned(Some(value))
    case _ => true
  }

  /** The publisher writes JSON objects. */
  predicate Structured(s: Step) {
    (s.InsertIfAbsent? || s.Refresh?) ==> s.value.Document? && s.value.json.Object?
  }

  // ---- Refinement --------------------------------------------------------------------

  lemma ConfigLayerAfterWrite(t: Table, t': Table, key: string)
    requires forall other :: other != key ==> Get(t', other) == Get(t, other)
    ensures ConfigLayer(t') ==
      match ConfigAt(Get(t', key)) { case Some(row) => ConfigLayer(t)[key := row] case None => ConfigLayer(t) - {key} }
  {
    assert forall other :: other != key ==> (other in t' <==> Get(t', other).Some?);
  }

  lemma UploadLayerAfterWrite(t: Table, t': Table, key: string)
    requires forall other :: other != key ==> Get(t', other) == Get(t, other)
    ensures UploadLayer(t') ==
      match UploadAt(Get(t', key)) { case Some(row) => UploadLayer(t)[key := row] case None => UploadLayer(t) - {key} }
  {
    assert forall other :: other != key ==> (other in t' <==> Get(t', other).Some?);
  }

  lemma LayersAfterWrite(t: Table, t': Table, key: string)
    requires forall other :: other != key ==> Get(t', other) == Get(t, other)
    ensures ConfigLayer(t') ==
      match ConfigAt(Get(t', key)) { case Some(row) => ConfigLayer(t)[key := row] case None => ConfigLayer(t) - {key} }
    ensures UploadLayer(t') ==
      match UploadAt(Get(t', key)) { case Some(row) => UploadLayer(t)[key := row] case None => UploadLayer(t) - {key} }
  {
    ConfigLayerAfterWrite(t, t', key);
    UploadLayerAfterWrite(t, t', key);
  }

  lemma {:induction false} BatchRefines(t: Table, entries: seq<(string, Bytes)>)
    requires !AnyForged(entries) && BatchUpdate(t, entries).Some?
    ensures Abstract(BatchUpdate(t, entries).value) ==
      Abstract(t).(uploads := WriteAll(UploadLayer(t), entries))
    decreases entries
  {
    if entries != [] {
      var t1, rest := t[entries[0].0 := entries[0].1], entries[1..];
      assert forall i :: 0 <= i < |rest| ==> rest[i] == entries[i + 1];
      assert !AnyForged(rest);
      assert !Forged(Some(entries[0].1));
      LayersAfterWrite(t, t1, entries[0].0);
      assert entries[0].0 !in ConfigLayer(t);
      BatchRefines(t1, rest);
    }
  }

  lemma LayersAt(t: Table, key: string)
    ensures Lookup(UploadLayer(t), key) == UploadAt(Get(t, key))
    ensures key in ConfigLayer(t) <==> ConfigAt(Get(t, key)).Some?
    ensures key in ConfigLayer(t) ==> ConfigAt(Get(t, key)) == Some(ConfigLayer(t)[key])
  {
  }

  lemma ReservationIsSafe(alias: string, current: Option<Bytes>)
    requires RowIsConfigOwned(current) || current.None?
    ensures PublisherSafe(Reservation(alias), UploadAt(current))
  {
  }

  /** What refreshing and withdrawing share: a value written over `current` with whatever
      upload is there kept aside. It shows what a marked value says, and keeps the upload
      exactly when it is safe to. */
  lemma CarriedRow(value: Bytes, current: Option<Bytes>)
    requires value.Document? && value.json.Object?
    ensures var row := Some(CarryOr(value, if RowIsConfigOwned(current) then Parked(current) else current));
      && ConfigAt(row) == (if Marked(value.json) then Some(Strip(value.json)) else None)
      && (UploadAt(row) == UploadAt(current) <==> PublisherSafe(value, UploadAt(current)))
  {
    var kept := if RowIsConfigOwned(current) then Parked(current) else current;
    if kept.Some? && kept.value.Document? {
      CarryRoundTrip(value, kept.value);
    }
  }

  /** The configuration a publisher step leaves in the row it is aimed at. */
  function ConfigAfter(t: Table, s: Step): Option<Json>
    requires !s.Foreign() && Structured(s)
  {
    var before := Get(t, s.key);
    match s
    case InsertIfAbsent(_, value) =>
      if before.Some? then ConfigAt(before) else if Marked(value.json) then Some(Strip(value.json)) else None
    case Refresh(_, value) => if Marked(value.json) then Some(Strip(value.json)) else None
    case Sweep(_) => None
    case Withdraw(key) =>
      if before.Some? && ConfigAt(before).None? then None else Some(Strip(Reservation(key).json))
  }

  /** What one publisher transaction leaves in the row it is aimed at, whatever it held. */
  lemma PublisherRowAfter(t: Table, s: Step)
    requires !s.Foreign() && Structured(s)
    ensures var before, after := Get(t, s.key), Get(Next(t, s), s.key);
      && ConfigAt(after) == ConfigAfter(t, s)
      && (UploadAt(after) == UploadAt(before) <==> OverlaySafe(t, s))
  {
    var current := Get(t, s.key);
    match s
    case Refresh(key, value) => CarriedRow(value, current);
    case Withdraw(key) =>
      if RowIsConfigOwned(current) || current.None? {
        ReservationIsSafe(key, current);
        CarriedRow(Reservation(key), current);
      }
    case _ =>
  }

  lemma SafePublisherStep(t: Table, s: Step)
    requires !s.Foreign() && OverlaySafe(t, s)
    ensures OverlayStep(Abstract(t), s, Abstract(Next(t, s)))
  {
    if Structured(s) {
      LayersAfterWrite(t, Next(t, s), s.key);
      LayersAfterWrite(t, t, s.key);
      PublisherRowAfter(t, s);
    } else {
      assert s.InsertIfAbsent? && s.key in t;
      LayersAt(t, s.key);
    }
  }

  /** A publisher transaction is a step of the overlay exactly when it is safe. */
  lemma PublisherStepRefines(t: Table, s: Step)
    requires !s.Foreign()
    ensures OverlayStep(Abstract(t), s, Abstract(Next(t, s))) <==> OverlaySafe(t, s)
  {
    if OverlaySafe(t, s) {
      SafePublisherStep(t, s);
    } else {
      UnsafePublisherStep(t, s);
    }
  }

  lemma UnsafePublisherStep(t: Table, s: Step)
    requires !s.Foreign() && !OverlaySafe(t, s)
    ensures !OverlayStep(Abstract(t), s, Abstract(Next(t, s)))
  {
    LayersAt(t, s.key);
    LayersAt(Next(t, s), s.key);
    if Structured(s) {
      PublisherRowAfter(t, s);
    }
  }

  lemma BatchStepRefines(t: Table, entries: seq<(string, Bytes)>)
    ensures OverlayStep(Abstract(t), GuestBatch(entries), Abstract(Next(t, GuestBatch(entries))))
  {
    BatchAtomicity(t, entries);
    if !AnyForged(entries) && BatchUpdate(t, entries).Some? {
      BatchRefines(t, entries);
    }
    assert forall i :: 0 <= i < |entries| ==> (ConfigOwned(t, entries[i].0) <==> entries[i].0 in ConfigLayer(t));
  }

  /** Every guest transaction, and an upload that does not mint its alias, is a step of the
      overlay; an upload that does is not. */
  lemma ForeignStepRefines(t: Table, s: Step)
    requires s.Foreign()
    ensures OverlayStep(Abstract(t), s, Abstract(Next(t, s))) <==> OverlaySafe(t, s)
  {
    if s.GuestBatch? {
      BatchStepRefines(t, s.entries);
    } else if s.Upload? {
      UploadRefines(t, s.key, s.value);
    } else {
      GuestStepRefines(t, s);
    }
  }

  lemma UploadRefines(t: Table, key: string, value: Bytes)
    ensures OverlayStep(Abstract(t), Upload(key, value), Abstract(Next(t, Upload(key, value)))) <==>
      OverlaySafe(t, Upload(key, value))
  {
    var t' := Next(t, Upload(key, value));
    LayersAfterWrite(t, t', key);
    LayersAt(t, key);
    LayersAt(t', key);
  }

  lemma GuestStepRefines(t: Table, s: Step)
    requires s.GuestWrite? || s.GuestCompareAndSet? || s.GuestCompareAndDelete?
    ensures OverlayStep(Abstract(t), s, Abstract(Next(t, s)))
  {
    LayersAfterWrite(t, Next(t, s), s.key);
    LayersAt(t, s.key);
  }

  /** A transaction of the one-table registry is a step of the two-layer overlay exactly when
      it is safe. */
  lemma StepRefinesOverlay(t: Table, s: Step)
    ensures OverlayStep(Abstract(t), s, Abstract(Next(t, s))) <==> OverlaySafe(t, s)
  {
    if s.Foreign() {
      ForeignStepRefines(t, s);
    } else {
      PublisherStepRefines(t, s);
    }
  }

  /** A step moves at most one layer: the publisher's the config layer, a foreign one the
      upload layer. */
  lemma OneLayerPerStep(o: Overlay, s: Step, o': Overlay)
    requires OverlayStep(o, s, o')
    ensures if s.Foreign() then o'.config == o.config else o'.uploads == o.uploads
  {
  }

  /** A run of the table, seen through `Abstract`, takes an overlay step wherever it takes a
      safe one, and nowhere else. */
  lemma RunRefinesOverlay(t: Table, log: seq<Step>, i: nat)
    requires i < |log|
    ensures OverlayStep(Abstract(Run(t, log[..i])), log[i], Abstract(Run(t, log[..i + 1]))) <==>
      OverlaySafe(Run(t, log[..i]), log[i])
  {
    assert log[..i + 1][..i] == log[..i];
    StepRefinesOverlay(Run(t, log[..i]), log[i]);
  }

  // ---- Uploads over whole runs -----------------------------------------------------------

  /** No foreign step of the run changes the row of `alias`: those aimed at it find it
      config-owned and are refused. */
  ghost predicate LeftAlone(t: Table, log: seq<Step>, alias: string) {
    forall i :: 0 <= i < |log| && log[i].Foreign() && log[i].Targets(alias) ==> ConfigOwned(Run(t, log[..i]), alias)
  }

  ghost predicate KeptThroughout(t: Table, log: seq<Step>, alias: string) {
    forall i :: 0 <= i <= |log| ==> UploadAt(Get(Run(t, log[..i]), alias)) == UploadAt(Get(t, alias))
  }

  ghost predicate SafeThroughout(t: Table, log: seq<Step>, alias: string) {
    forall i :: 0 <= i < |log| && !log[i].Foreign() && log[i].Targets(alias) ==> OverlaySafe(Run(t, log[..i]), log[i])
  }

  lemma StepKeepsUploadExactly(t: Table, s: Step, alias: string)
    requires Structured(s) && (s.Foreign() && s.Targets(alias) ==> ConfigOwned(t, alias))
    ensures UploadAt(Get(Next(t, s), alias)) == UploadAt(Get(t, alias)) <==>
      (!s.Foreign() && s.Targets(alias) ==> OverlaySafe(t, s))
  {
    if s.Foreign() {
      ForeignStepRespectsOwnership(t, s, alias);
    } else if s.Targets(alias) {
      PublisherRowAfter(t, s);
    }
  }

  lemma RunPrefixes(t: Table, log: seq<Step>)
    requires log != []
    ensures forall i :: 0 <= i < |log| ==> log[..|log| - 1][..i] == log[..i]
    ensures log[..|log|] == log && Run(t, log) == Next(Run(t, log[..|log| - 1]), log[|log| - 1])
  {
  }

  /** Over any interleaving of reloads, withdrawals, uploads and guest writes, an alias that
      foreign steps leave alone keeps its upload throughout exactly when every publisher
      step aimed at it is safe; and then it shows the upload again whenever no binding claims
      the alias. */
  lemma {:induction false} UploadSurvivesReloads(t: Table, log: seq<Step>, alias: string)
    requires LeftAlone(t, log, alias) && forall s <- log :: Structured(s)
    ensures KeptThroughout(t, log, alias) <==> SafeThroughout(t, log, alias)
    ensures SafeThroughout(t, log, alias) && !ConfigOwned(Run(t, log), alias) ==>
      NormalOption(Get(Run(t, log), alias)) == UploadAt(Get(t, alias))
  {
    if log == [] {
      assert log[..0] == [];
    } else {
      var n := |log| - 1;
      RunPrefixes(t, log);
      LeftAloneBefore(t, log, alias);
      assert forall s <- log[..n] :: s in log;
      UploadSurvivesReloads(t, log[..n], alias);
      SafeSplit(t, log, alias);
      KeptSplit(t, log, alias);
      assert log[n] in log;
      if KeptThroughout(t, log[..n], alias) {
        StepKeepsUploadExactly(Run(t, log[..n]), log[n], alias);
      }
    }
  }

  lemma LeftAloneBefore(t: Table, log: seq<Step>, alias: string)
    requires LeftAlone(t, log, alias) && log != []
    ensures LeftAlone(t, log[..|log| - 1], alias)
    ensures log[|log| - 1].Foreign() && log[|log| - 1].Targets(alias) ==> ConfigOwned(Run(t, log[..|log| - 1]), alias)
  {
    RunPrefixes(t, log);
    forall i | 0 <= i < |log| - 1 && log[i].Foreign() && log[i].Targets(alias)
      ensures ConfigOwned(Run(t, log[..|log| - 1][..i]), alias)
    {
      assert log[..|log| - 1][..i] == log[..i];
    }
  }

  lemma SafeSplit(t: Table, log: seq<Step>, alias: string)
    requires log != []
    ensures var n := |log| - 1;
      SafeThroughout(t, log, alias) <==>
      && SafeThroughout(t, log[..n], alias)
      && (!log[n].Foreign() && log[n].Targets(alias) ==> OverlaySafe(Run(t, log[..n]), log[n]))
  {
    RunPrefixes(t, log);
    var n := |log| - 1;
    assert forall i :: 0 <= i < n ==> log[..n][i] == log[i];
  }

  lemma KeptSplit(t: Table, log: seq<Step>, alias: string)
    requires log != []
    ensures var n := |log| - 1;
      KeptThroughout(t, log, alias) <==>
      KeptThroughout(t, log[..n], alias) && UploadAt(Get(Run(t, log), alias)) == UploadAt(Get(Run(t, log[..n]), alias))
  {
    RunPrefixes(t, log);
    var n := |log| - 1;
    assert log[..n][..n] == log[..n];
    if KeptThroughout(t, log, alias) {
      forall i | 0 <= i <= n
        ensures UploadAt(Get(Run(t, log[..n][..i]), alias)) == UploadAt(Get(t, alias))
      {
        assert log[..n][..i] == log[..i];
      }
    }
    if KeptThroughout(t, log[..n], alias) {
      forall i | 0 <= i <= n
        ensures UploadAt(Get(Run(t, log[..i]), alias)) == UploadAt(Get(t, alias))
      {
        assert log[..n][..i] == log[..i];
      }
    }
  }

  /** A condition on the run's writes alone: every value the publisher aims at the alias is
      safe beside the upload that stands there at the start. */
  ghost predicate SafeWrites(log: seq<Step>, alias: string, upload: Option<Bytes>) {
    forall s <- log :: (s.InsertIfAbsent? || s.Refresh?) && s.key == alias ==> PublisherSafe(s.value, upload)
  }

  lemma {:induction false} SafeWritesKeepUpload(t: Table, log: seq<Step>, alias: string)
    requires LeftAlone(t, log, alias) && forall s <- log :: Structured(s)
    requires SafeWrites(log, alias, UploadAt(Get(t, alias)))
    ensures UploadAt(Get(Run(t, log), alias)) == UploadAt(Get(t, alias))
  {
    if log != [] {
      var n := |log| - 1;
      assert forall s <- log[..n] :: s in log;
      LeftAloneBefore(t, log, alias);
      SafeWritesKeepUpload(t, log[..n], alias);
      assert log[n] in log;
      StepKeepsUploadExactly(Run(t, log[..n]), log[n], alias);
    }
  }

  // ---- Exactly when publishing keeps an upload ------------------------------------------

  function PublishOver(t: Table, binding: Binding, metadata: map<string, string>): Table {
    var row := ConfiguredRow(binding, metadata);
    Next(t, if binding.alias in t then Refresh(binding.alias, row) else InsertIfAbsent(binding.alias, row))
  }

  /** Publishing over any row at all leaves the upload layer alone exactly when the sidecar
      does not replace the marker and, if there is an upload, it parses, or if there is
      none, the sidecar does not declare the key uploads are parked under. */
  lemma PublishKeepsUploadExactly(t: Table, binding: Binding, metadata: map<string, string>)
    ensures var before := UploadAt(Get(t, binding.alias));
      UploadAt(Get(PublishOver(t, binding, metadata), binding.alias)) == before
      <==>
      && (SOURCE_KEY in metadata ==> metadata[SOURCE_KEY] == SOURCE_CONFIG)
      && (if before.Some? then before.value.Document? else SHADOWED_UPLOAD_KEY !in metadata)
  {
    var row, current := ConfiguredRow(binding, metadata), Get(t, binding.alias);
    ConfiguredRowMarker(binding, metadata);
    var kept := if RowIsConfigOwned(current) then Parked(current) else current;
    if kept.Some? && kept.value.Document? {
      CarryRoundTrip(row, kept.value);
    }
  }

  /** Such a loss: a row that is not JSON is displaced and never comes back. */
  lemma UnparsableUploadIsLost(alias: string)
    ensures var row := ConfiguredRow(Binding(alias, "mock", false), map[]);
      Next(Next(map[alias := Garbage(0)], Refresh(alias, row)), Sweep(alias)) == map[]
  {
    ConfiguredRowMarker(Binding(alias, "mock", false), map[]);
  }
}
