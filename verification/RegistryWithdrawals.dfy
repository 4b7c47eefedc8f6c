/**
 Which unchanged rows the withdrawal pass of a reload spares, and one it does not.
 */
module RegistryWithdrawals {
  import opened Wrappers
  import opened RegistryRows
  import opened RegistryTable
  import opened RegistryOverlay
  import opened RegistryScan
  import opened RegistryPublisher
  import opened RegistryHosts

  /** The row of `binding` as published, with or without an upload parked in it. */
  ghost predicate StandsAs(t: Table, binding: Binding, metadata: map<string, string>, parked: Option<Json>) {
    && ConfigOwned(t, binding.alias)
    && Get(t, binding.alias).value.json == Object(StoredFields(binding, metadata, parked))
  }

  /** Nothing about the binding changes in the reload. */
  ghost predicate Unchanged(binding: Binding, metadata: map<string, string>, r: Reload) {
    && binding.alias in r.outgoing && r.outgoing[binding.alias] == binding.path
    && binding.alias in r.incoming && r.incoming[binding.alias] == binding.path
    && BindingMetadata(r.sidecars, binding.path) == Some(metadata)
  }

  lemma PublishedIsNotReserved(t: Table, binding: Binding, metadata: map<string, string>, parked: Option<Json>)
    requires StandsAs(t, binding, metadata, parked)
    ensures !Reserved(t, binding.alias)
  {
    ConfiguredRowIsServed(binding, metadata);
    var row, reservation := Strip(Get(t, binding.alias).value.json), Strip(Reservation(binding.alias).json);
    assert reservation.fields["withdrawn"] == Bool(true);
    assert "withdrawn" in row.fields ==> row.fields["withdrawn"].Text?;
  }

  /** A reload that changes nothing about a binding leaves its row as it was exactly when the
      sidecar declares no fixed field and agrees with what a parked upload shows as metadata;
      otherwise it withdraws the row. `t` is the table before the pass and `u` after it. */
  lemma UnchangedRowIsSparedExactly(t: Table, u: Table, binding: Binding, metadata: map<string, string>,
                                    parked: Option<Json>, r: Reload)
    requires StandsAs(t, binding, metadata, parked) && Unchanged(binding, metadata, r)
    requires Passed(t, u, r.outgoing.Keys, r)
    ensures Get(u, binding.alias) == Get(t, binding.alias) <==>
      metadata.Keys !! FIXED_FIELDS && (parked.Some? ==> AgreesWithParked(metadata, parked.value))
    ensures Get(u, binding.alias) != Get(t, binding.alias) ==> Reserved(u, binding.alias)
  {
    UnchangedRowIsCurrentExactly(binding, metadata, parked, r.sidecars);
    PublishedIsNotReserved(t, binding, metadata, parked);
  }

  /** A whole pass from a manifest of one binding to itself, with no other writer and no failing
      transaction. */
  method QuietPass(before: Table, binding: Binding, sidecars: Sidecars) returns (after: Table, ghost r: Reload)
    requires Publishable(binding) && Scannable(binding.alias) && before.Keys <= {binding.alias}
    ensures r == Reload(map[binding.alias := binding.path], map[binding.alias := binding.path], sidecars)
    ensures Passed(before, after, r.outgoing.Keys, r)
  {
    var config := [Route([binding])];
    var host := new RegistryHost(before, n => [], n => false, {binding.alias}, {});
    OneBinding(binding);
    host.WithdrawChangedBindings(config, config, sidecars);
    after := host.rows;
    r := host.ReloadOf(config, config, sidecars);
  }

  /** The whole pass on such an input withdraws the row of a binding whose sidecar declares a
      status, although the row is as published. */
  method PassWithdrawsUnchangedRow(binding: Binding) returns (before: Table, after: Table)
    requires Publishable(binding) && !IsMock(binding.path) && Scannable(binding.alias)
    ensures before == map[binding.alias := ConfiguredRow(binding, map["status" := "x"])]
    ensures ConfigOwned(before, binding.alias) && Reserved(after, binding.alias)
    ensures Get(after, binding.alias) != Get(before, binding.alias)
  {
    var metadata: map<string, string> := map["status" := "x"];
    before := map[binding.alias := ConfiguredRow(binding, metadata)];
    ghost var r;
    after, r := QuietPass(before, binding, path => Some(map["status" := "x"]));
    WithdrawnByPass(before, after, binding, metadata, r);
  }

  lemma WithdrawnByPass(t: Table, u: Table, binding: Binding, metadata: map<string, string>, r: Reload)
    requires Get(t, binding.alias) == Some(ConfiguredRow(binding, metadata))
    requires "status" in metadata && SOURCE_KEY !in metadata
    requires Unchanged(binding, metadata, r) && Passed(t, u, r.outgoing.Keys, r)
    ensures ConfigOwned(t, binding.alias) && Reserved(u, binding.alias)
    ensures Get(u, binding.alias) != Get(t, binding.alias)
  {
    ConfiguredRowMarker(binding, metadata);
    assert StandsAs(t, binding, metadata, None);
    assert "status" in FIXED_FIELDS;
    UnchangedRowIsSparedExactly(t, u, binding, metadata, None, r);
  }

  lemma OneBinding(binding: Binding)
    requires Publishable(binding)
    ensures AllBindings([Route([binding])]) == [binding]
    ensures PublishablePaths([binding]) == map[binding.alias := binding.path]
  {
    assert [Route([binding])][..0] == [] && [binding][..0] == [];
  }
}
