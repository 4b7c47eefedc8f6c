/** The registry table and every transaction that can commit on it, as one step relation. */
module RegistryTable {
  import opened Wrappers
  import opened RegistryRows

  type Table = map<string, Bytes>

  function Get(t: Table, key: string): Option<Bytes> {
    if key in t then Some(t[key]) else None
  }

  predicate ConfigOwned(t: Table, key: string) {
    RowIsConfigOwned(Get(t, key))
  }

  // ---- Decisions taken inside a transaction, from the row it finds -------------------

  datatype Update = Keep | Set(value: Bytes) | Delete

  function Commit(t: Table, key: string, update: Update): Table {
    match update
    case Keep => t
    case Set(value) => t[key := value]
    case Delete => t - {key}
  }

  /** `value`, carrying `parked` when both can be folded into one row. */
  function CarryOr(value: Bytes, parked: Option<Bytes>): Bytes {
    if parked.Some? && CarryShadowedUpload(value, parked.value).Some?
    then CarryShadowedUpload(value, parked.value).value
    else value
  }

  function Parked(current: Option<Bytes>): Option<Bytes> {
    if current.Some? then ShadowedUploadRow(current.value) else None
  }

  function RefreshDecision(current: Option<Bytes>, value: Bytes): Update {
    if current.Some? && !RowIsConfigOwned(current)
    then Set(CarryOr(value, current))
    else Set(CarryOr(value, Parked(current)))
  }

  function SweepDecision(current: Option<Bytes>): Update {
    if !RowIsConfigOwned(current) then Keep
    else match Parked(current)
      case Some(restored) => Set(restored)
      case None => Delete
  }

  function WithdrawDecision(current: Option<Bytes>, alias: string): Update {
    if current.Some? && !RowIsConfigOwned(current) then Keep
    else Set(CarryOr(Reservation(alias), Parked(current)))
  }

  function UnlessOwned(current: Option<Bytes>, update: Update): Update {
    if RowIsConfigOwned(current) then Keep else update
  }

  // ---- Steps -------------------------------------------------------------------------

  datatype Step =
    | InsertIfAbsent(key: string, value: Bytes)
    | Refresh(key: string, value: Bytes)
    | Sweep(key: string)
    | Withdraw(key: string)
    | Upload(key: string, value: Bytes)
    | GuestWrite(key: string, replacement: Option<Bytes>)
    | GuestCompareAndSet(key: string, expected: Option<Bytes>, value: Bytes)
    | GuestCompareAndDelete(key: string, present: Bytes)
    | GuestBatch(entries: seq<(string, Bytes)>)
  {
    /** Steps of uploads and guests, as opposed to the manifest publisher's. */
    predicate Foreign() {
      Upload? || GuestWrite? || GuestCompareAndSet? || GuestCompareAndDelete? || GuestBatch?
    }

    /** The rows a step may write. */
    predicate Targets(alias: string) {
      if GuestBatch? then exists i :: 0 <= i < |entries| && entries[i].0 == alias
      else key == alias
    }
  }

  predicate Forged(value: Option<Bytes>) {
    RowIsConfigOwned(value)
  }

  predicate AnyForged(entries: seq<(string, Bytes)>) {
    exists i :: 0 <= i < |entries| && Forged(Some(entries[i].1))
  }

  /** The batch transaction: entries are inserted in order and the first vetoed key aborts
      it, discarding the inserts already made. */
  function BatchUpdate(t: Table, entries: seq<(string, Bytes)>): Option<Table>
    decreases entries
  {
    if entries == [] then Some(t)
    else if ConfigOwned(t, entries[0].0) then None
    else BatchUpdate(t[entries[0].0 := entries[0].1], entries[1..])
  }

  function Next(t: Table, s: Step): Table {
    match s
    case InsertIfAbsent(key, value) => if key in t then t else t[key := value]
    case Refresh(key, value) => Commit(t, key, RefreshDecision(Get(t, key), value))
    case Sweep(key) => Commit(t, key, SweepDecision(Get(t, key)))
    case Withdraw(key) => Commit(t, key, WithdrawDecision(Get(t, key), key))
    case Upload(key, value) => Commit(t, key, UnlessOwned(Get(t, key), Set(value)))
    case GuestWrite(key, replacement) =>
      if Forged(replacement) then t
      else Commit(t, key, UnlessOwned(Get(t, key),
                                      if replacement.Some? then Set(replacement.value) else Delete))
    case GuestCompareAndSet(key, expected, value) =>
      if Forged(Some(value)) || Get(t, key) != expected then t
      else Commit(t, key, UnlessOwned(Get(t, key), Set(value)))
    case GuestCompareAndDelete(key, present) =>
      if Get(t, key) != Some(present) then t
      else Commit(t, key, UnlessOwned(Get(t, key), Delete))
    case GuestBatch(entries) =>
      if AnyForged(entries) then t
      else match BatchUpdate(t, entries)
        case Some(updated) => updated
        case None => t
  }

  /** The foreign steps answered with an error. A compare that does not match is not one. */
  predicate Refused(t: Table, s: Step)
    requires s.Foreign()
  {
    match s
    case Upload(key, _) => ConfigOwned(t, key)
    case GuestWrite(key, replacement) => Forged(replacement) || ConfigOwned(t, key)
    case GuestCompareAndSet(key, _, value) => Forged(Some(value)) || ConfigOwned(t, key)
    case GuestCompareAndDelete(key, _) => ConfigOwned(t, key)
    case GuestBatch(entries) => AnyForged(entries) || BatchUpdate(t, entries).None?
  }

  function Run(t: Table, log: seq<Step>): Table {
    if log == [] then t else Next(Run(t, log[..|log| - 1]), log[|log| - 1])
  }

  lemma {:induction false} RunConcat(t: Table, a: seq<Step>, b: seq<Step>)
    ensures Run(t, a + b) == Run(Run(t, a), b)
  {
    if b == [] {
      assert a + b == a;
    } else {
      RunConcat(t, a, b[..|b| - 1]);
      assert (a + b)[..|a + b| - 1] == a + b[..|b| - 1];
    }
  }

  /** A compare that finds the bytes it expects is a plain guest write or delete, and one that
      does not changes nothing; either way it is refused exactly when that write would be. */
  lemma CompareIsGuardedWrite(t: Table, key: string, expected: Option<Bytes>, value: Bytes)
    ensures Next(t, GuestCompareAndSet(key, expected, value)) ==
      if Get(t, key) == expected then Next(t, GuestWrite(key, Some(value))) else t
    ensures Refused(t, GuestCompareAndSet(key, expected, value)) <==> Refused(t, GuestWrite(key, Some(value)))
    ensures expected.Some? ==>
      && Next(t, GuestCompareAndDelete(key, expected.value)) ==
         (if Get(t, key) == expected then Next(t, GuestWrite(key, None)) else t)
      && (Refused(t, GuestCompareAndDelete(key, expected.value)) <==> Refused(t, GuestWrite(key, None)))
  {
  }

  // ---- Batches -----------------------------------------------------------------------

  /** The same entries as single guest writes, one transaction each. */
  function SingleWrites(entries: seq<(string, Bytes)>): seq<Step> {
    seq(|entries|, i requires 0 <= i < |entries| => GuestWrite(entries[i].0, Some(entries[i].1)))
  }

  predicate AnyOwned(t: Table, entries: seq<(string, Bytes)>) {
    exists i :: 0 <= i < |entries| && ConfigOwned(t, entries[i].0)
  }

  lemma {:induction false} BatchUpdateMeaning(t: Table, entries: seq<(string, Bytes)>)
    requires !AnyForged(entries)
    ensures BatchUpdate(t, entries).None? <==> AnyOwned(t, entries)
    ensures BatchUpdate(t, entries).Some? ==>
      BatchUpdate(t, entries).value == Run(t, SingleWrites(entries))
    decreases entries
  {
    if entries != [] && !ConfigOwned(t, entries[0].0) {
      var t1, rest := t[entries[0].0 := entries[0].1], entries[1..];
      assert forall i :: 0 <= i < |rest| ==> rest[i] == entries[i + 1];
      assert !AnyForged(rest);
      BatchUpdateMeaning(t1, rest);
      assert !Forged(Some(entries[0].1));
      assert AnyOwned(t, entries) ==> AnyOwned(t1, rest) by {
        if i :| 0 <= i < |entries| && ConfigOwned(t, entries[i].0) {
          assert entries[i] == rest[i - 1];
          assert ConfigOwned(t1, rest[i - 1].0);
        }
      }
      assert AnyOwned(t1, rest) ==> AnyOwned(t, entries) by {
        if i :| 0 <= i < |rest| && ConfigOwned(t1, rest[i].0) {
          assert ConfigOwned(t, entries[i + 1].0);
        }
      }
      assert SingleWrites(entries) == [GuestWrite(entries[0].0, Some(entries[0].1))] + SingleWrites(rest);
      RunConcat(t, [GuestWrite(entries[0].0, Some(entries[0].1))], SingleWrites(rest));
    }
  }

  /** A guest batch is all or nothing: refused, and then without any effect, exactly when
      some value carries the marker or some key is config-owned; otherwise it does what the
      single writes would do one after another, repeated keys included. */
  lemma BatchAtomicity(t: Table, entries: seq<(string, Bytes)>)
    ensures Refused(t, GuestBatch(entries)) <==> AnyForged(entries) || AnyOwned(t, entries)
    ensures Next(t, GuestBatch(entries)) ==
      if Refused(t, GuestBatch(entries)) then t else Run(t, SingleWrites(entries))
  {
    if !AnyForged(entries) {
      BatchUpdateMeaning(t, entries);
    }
  }

  /** `apply_guest_registry_batch`: forged values are looked for first, then one transaction
      inserts the entries into its own view of the table and commits it at the end. */
  method ApplyGuestBatch(t: Table, entries: seq<(string, Bytes)>) returns (after: Table, refused: bool)
    ensures refused <==> AnyForged(entries) || AnyOwned(t, entries)
    ensures after == if refused then t else Run(t, SingleWrites(entries))
  {
    for i := 0 to |entries|
      invariant !AnyForged(entries[..i])
    {
      if Forged(Some(entries[i].1)) {
        return t, true;
      }
    }
    assert entries[..|entries|] == entries;
    var view := t;
    for i := 0 to |entries|
      invariant BatchUpdate(t, entries) == BatchUpdate(view, entries[i..])
    {
      if ConfigOwned(view, entries[i].0) {
        BatchAtomicity(t, entries);
        return t, true;
      }
      view := view[entries[i].0 := entries[i].1];
      assert entries[i..][1..] == entries[i + 1..];
    }
    BatchAtomicity(t, entries);
    return view, false;
  }

  // ---- Ownership ---------------------------------------------------------------------

  /** An upload is not checked for the marker, and its row takes over whatever the artifact's
      own sidecar declares: a marked row for a free alias makes that alias config-owned. */
  predicate Mints(t: Table, s: Step, alias: string) {
    s.Upload? && s.key == alias && !ConfigOwned(t, alias) && RowIsConfigOwned(Some(s.value))
  }

  lemma {:induction false} BatchUpdateFrame(t: Table, entries: seq<(string, Bytes)>, alias: string)
    requires !AnyForged(entries)
    requires BatchUpdate(t, entries).Some?
    ensures var t' := BatchUpdate(t, entries).value;
      && (ConfigOwned(t', alias) <==> ConfigOwned(t, alias))
      && (ConfigOwned(t, alias) || !GuestBatch(entries).Targets(alias) ==> Get(t', alias) == Get(t, alias))
    decreases entries
  {
    if entries != [] {
      var rest := entries[1..];
      assert forall i :: 0 <= i < |rest| ==> rest[i] == entries[i + 1];
      assert !AnyForged(rest);
      assert !Forged(Some(entries[0].1));
      BatchUpdateFrame(t[entries[0].0 := entries[0].1], rest, alias);
      assert GuestBatch(rest).Targets(alias) ==> GuestBatch(entries).Targets(alias);
    }
  }

  /** A foreign step aimed at a config-owned row is refused and the table stays as it was; it
      makes a row config-owned exactly when it is an upload that mints one. */
  lemma ForeignStepRespectsOwnership(t: Table, s: Step, alias: string)
    requires s.Foreign()
    ensures ConfigOwned(Next(t, s), alias) <==> ConfigOwned(t, alias) || Mints(t, s, alias)
    ensures ConfigOwned(t, alias) ==> Get(Next(t, s), alias) == Get(t, alias)
    ensures !s.Targets(alias) ==> Get(Next(t, s), alias) == Get(t, alias)
    ensures Refused(t, s) ==> Next(t, s) == t
    ensures ConfigOwned(t, alias) && s.Targets(alias) ==> Refused(t, s)
  {
    if s.GuestBatch? && !AnyForged(s.entries) {
      BatchUpdateMeaning(t, s.entries);
      if BatchUpdate(t, s.entries).Some? {
        BatchUpdateFrame(t, s.entries, alias);
      }
    }
  }

  /** A guest asks for `value` to be stored. */
  predicate Offers(s: Step, value: Bytes) {
    match s
    case GuestWrite(_, replacement) => replacement == Some(value)
    case GuestCompareAndSet(_, _, offered) => offered == value
    case GuestBatch(entries) => exists i :: 0 <= i < |entries| && entries[i].1 == value
    case _ => false
  }

  /** A foreign step is answered with an error exactly when a guest offers a value that carries
      the marker or the step is aimed at a config-owned row. */
  lemma RefusedExactly(t: Table, s: Step)
    requires s.Foreign()
    ensures Refused(t, s) <==>
      || (exists value :: Offers(s, value) && RowIsConfigOwned(Some(value)))
      || (exists key :: s.Targets(key) && ConfigOwned(t, key))
  {
    match s
    case GuestBatch(entries) =>
      BatchAtomicity(t, entries);
      if AnyForged(entries) {
        var i :| 0 <= i < |entries| && Forged(Some(entries[i].1));
        assert Offers(s, entries[i].1);
      }
      if AnyOwned(t, entries) {
        var i :| 0 <= i < |entries| && ConfigOwned(t, entries[i].0);
        assert s.Targets(entries[i].0);
      }
    case GuestWrite(key, replacement) =>
      assert s.Targets(key) && (replacement.Some? ==> Offers(s, replacement.value));
    case GuestCompareAndSet(key, _, value) => assert s.Targets(key) && Offers(s, value);
    case Upload(key, _) => assert s.Targets(key);
    case GuestCompareAndDelete(key, _) => assert s.Targets(key);
  }

  /** A step that is not refused does what was asked: the row it is aimed at holds the value, is
      gone, or, if a compare found other bytes, is as it was. Of a batch's entries for one key
      the last counts. */
  lemma AcceptedStepTakesEffect(t: Table, s: Step)
    requires s.Foreign() && !Refused(t, s)
    ensures s.Upload? ==> Get(Next(t, s), s.key) == Some(s.value)
    ensures s.GuestWrite? ==> Get(Next(t, s), s.key) == s.replacement
    ensures s.GuestCompareAndSet? ==>
      Get(Next(t, s), s.key) == if Get(t, s.key) == s.expected then Some(s.value) else Get(t, s.key)
    ensures s.GuestCompareAndDelete? ==>
      Get(Next(t, s), s.key) == if Get(t, s.key) == Some(s.present) then None else Get(t, s.key)
    ensures s.GuestBatch? ==> forall i :: 0 <= i < |s.entries| && LastEntry(s.entries, i) ==>
      Get(Next(t, s), s.entries[i].0) == Some(s.entries[i].1)
  {
    if s.GuestBatch? {
      forall i | 0 <= i < |s.entries| && LastEntry(s.entries, i)
        ensures Get(Next(t, s), s.entries[i].0) == Some(s.entries[i].1)
      {
        BatchStores(t, s.entries, i);
      }
    }
  }

  ghost predicate LastEntry(entries: seq<(string, Bytes)>, i: nat)
    requires i < |entries|
  {
    forall j :: i < j < |entries| ==> entries[j].0 != entries[i].0
  }

  lemma {:induction false} BatchStores(t: Table, entries: seq<(string, Bytes)>, i: nat)
    requires BatchUpdate(t, entries).Some? && i < |entries| && LastEntry(entries, i)
    ensures Get(BatchUpdate(t, entries).value, entries[i].0) == Some(entries[i].1)
    decreases entries
  {
    var t1, rest := t[entries[0].0 := entries[0].1], entries[1..];
    assert forall j :: 0 <= j < |rest| ==> rest[j] == entries[j + 1];
    if i > 0 {
      BatchStores(t1, rest, i - 1);
    } else {
      BatchLeaves(t1, rest, entries[0].0);
    }
  }

  lemma {:induction false} BatchLeaves(t: Table, entries: seq<(string, Bytes)>, key: string)
    requires BatchUpdate(t, entries).Some? && forall j :: 0 <= j < |entries| ==> entries[j].0 != key
    ensures Get(BatchUpdate(t, entries).value, key) == Get(t, key)
    decreases entries
  {
    if entries != [] {
      BatchLeaves(t[entries[0].0 := entries[0].1], entries[1..], key);
    }
  }

  ghost predicate ForeignRun(log: seq<Step>) {
    forall s <- log :: s.Foreign()
  }

  /** Some upload of the run mints `alias`. */
  ghost predicate MintedIn(t: Table, log: seq<Step>, alias: string) {
    exists i :: 0 <= i < |log| && Mints(Run(t, log[..i]), log[i], alias)
  }

  /** Over any foreign run a config-owned row stands unchanged, and a row becomes config-owned
      exactly when an upload mints it. */
  lemma {:induction false} ForeignRunRespectsOwnership(t: Table, log: seq<Step>, alias: string)
    requires ForeignRun(log)
    ensures ConfigOwned(Run(t, log), alias) <==> ConfigOwned(t, alias) || MintedIn(t, log, alias)
    ensures ConfigOwned(t, alias) ==> Get(Run(t, log), alias) == Get(t, alias)
  {
    if log != [] {
      var n := |log| - 1;
      assert forall s <- log[..n] :: s in log;
      ForeignRunRespectsOwnership(t, log[..n], alias);
      ForeignStepRespectsOwnership(Run(t, log[..n]), log[n], alias);
      MintedSplit(t, log, alias);
    }
  }

  lemma MintedSplit(t: Table, log: seq<Step>, alias: string)
    requires log != []
    ensures var n := |log| - 1;
      MintedIn(t, log, alias) <==> MintedIn(t, log[..n], alias) || Mints(Run(t, log[..n]), log[n], alias)
  {
    var n := |log| - 1;
    assert forall i :: 0 <= i < n ==> log[..n][..i] == log[..i] && log[..n][i] == log[i];
    if MintedIn(t, log, alias) {
      var i :| 0 <= i < |log| && Mints(Run(t, log[..i]), log[i], alias);
      assert i < n ==> Mints(Run(t, log[..n][..i]), log[..n][i], alias);
    }
    if MintedIn(t, log[..n], alias) {
      var i :| 0 <= i < n && Mints(Run(t, log[..n][..i]), log[..n][i], alias);
      assert Mints(Run(t, log[..i]), log[i], alias);
    }
  }

  /** Over any interleaving, a config-owned row that ends up different was changed by a
      publisher or withdrawal step aimed at it, and until that step it stood unchanged. */
  lemma {:induction false} OwnedRowsChangeOnlyByPublisher(t: Table, log: seq<Step>, alias: string) returns (i: nat)
    requires ConfigOwned(t, alias)
    requires Get(Run(t, log), alias) != Get(t, alias)
    ensures i < |log| && !log[i].Foreign() && log[i].Targets(alias)
    ensures Get(Run(t, log[..i]), alias) == Get(t, alias)
  {
    var n := |log| - 1;
    var before := log[..n];
    if Get(Run(t, before), alias) == Get(t, alias) {
      i := n;
      if log[n].Foreign() {
        ForeignStepRespectsOwnership(Run(t, before), log[n], alias);
      }
    } else {
      i := OwnedRowsChangeOnlyByPublisher(t, before, alias);
      assert before[..i] == log[..i];
    }
  }

  // ---- Uploads -----------------------------------------------------------------------

  /** The transaction an upload event runs, or none: blank names and unreadable sidecars are
      answered with an error before the table is touched. */
  function UploadEvent(alias: string, engine: string, path: string, sidecars: Sidecars): Option<Step> {
    if Trim(alias) == "" || Trim(engine) == "" || BindingMetadata(sidecars, path).None? then None
    else Some(Upload(alias, UploadRow(alias, engine, path, BindingMetadata(sidecars, path).value)))
  }

  /** An upload event is answered with an error before the table is touched exactly when a name is
      blank or the sidecar cannot be read. */
  lemma UploadEventExactly(alias: string, engine: string, path: string, sidecars: Sidecars)
    ensures UploadEvent(alias, engine, path, sidecars).Some? <==>
      HasText(alias) && HasText(engine) && BindingMetadata(sidecars, path).Some?
  {
    TrimLeavesText(alias);
    TrimLeavesText(engine);
  }

  /** An upload leaves every alias's ownership as it was exactly when its alias is config-owned
      already or its artifact's sidecar does not declare the marker. */
  lemma UploadOwnershipExactly(t: Table, alias: string, engine: string, path: string, sidecars: Sidecars)
    requires UploadEvent(alias, engine, path, sidecars).Some?
    ensures var s, metadata := UploadEvent(alias, engine, path, sidecars).value, BindingMetadata(sidecars, path).value;
      (forall a :: ConfigOwned(Next(t, s), a) <==> ConfigOwned(t, a)) <==>
      ConfigOwned(t, alias) || !(SOURCE_KEY in metadata && metadata[SOURCE_KEY] == SOURCE_CONFIG)
  {
    var s := UploadEvent(alias, engine, path, sidecars).value;
    UploadRowMarker(alias, engine, path, BindingMetadata(sidecars, path).value);
    forall a
      ensures ConfigOwned(Next(t, s), a) <==> ConfigOwned(t, a) || Mints(t, s, a)
    {
      ForeignStepRespectsOwnership(t, s, a);
    }
    assert Mints(t, s, alias) ==> ConfigOwned(Next(t, s), alias);
  }

  /** An upload that mints its alias is shut out of its own row, whatever was there before:
      guests may not delete it, a second upload is refused, and the next sweep of the alias
      deletes it or puts back what the sidecar declared under the parking key. */
  lemma MintedUploadIsSwept(t: Table, alias: string, engine: string, path: string, metadata: map<string, string>,
                            again: Bytes)
    requires !ConfigOwned(t, alias) && SOURCE_KEY in metadata && metadata[SOURCE_KEY] == SOURCE_CONFIG
    ensures var t' := Next(t, Upload(alias, UploadRow(alias, engine, path, metadata)));
      && ConfigOwned(t', alias)
      && Refused(t', GuestWrite(alias, None)) && Refused(t', Upload(alias, again))
      && Get(Next(t', Sweep(alias)), alias) ==
         if SHADOWED_UPLOAD_KEY in metadata then Some(Encode(Text(metadata[SHADOWED_UPLOAD_KEY]))) else None
  {
    UploadRowMarker(alias, engine, path, metadata);
  }

  /** Such an input: the upload is accepted and gone after the next publication's sweep. */
  lemma MintedUploadIsLost(alias: string)
    ensures var s := Upload(alias, UploadRow(alias, "gguf", "/models", map[SOURCE_KEY := SOURCE_CONFIG]));
      !Refused(map[], s) && Next(Next(map[], s), Sweep(alias)) == map[]
  {
    UploadRowMarker(alias, "gguf", "/models", map[SOURCE_KEY := SOURCE_CONFIG]);
  }
}
