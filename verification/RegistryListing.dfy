/**
 The registry as clients see it: the row a guest reads from the table and the listing it
 builds from the first page of rows.
 */
module RegistryListing {
  import opened Wrappers
  import opened KeyOrder
  import opened RegistryRows
  import opened RegistryTable
  import opened RegistryOverlay
  import opened RegistryScan
  import opened RegistryPublisher

  const U64_MAX: nat := 0xFFFF_FFFF_FFFF_FFFF

  datatype Model = Model(
    alias: string, engine: string, vramRequiredMb: nat, status: string, toolCallParser: Option<string>,
    source: Option<string>, withdrawn: bool)

  // ---- Reading one row -------------------------------------------------------------------------

  function ReadText(fields: map<string, Json>, key: string): Option<string> {
    if key in fields && fields[key].Text? then Some(fields[key].text) else None
  }

  /** An optional string: a missing or null field is none, any other kind of value an error. */
  function ReadOptional(fields: map<string, Json>, key: string): Option<Option<string>> {
    if key !in fields || fields[key].Null? then Some(None)
    else if fields[key].Text? then Some(Some(fields[key].text))
    else None
  }

  function ReadNumber(fields: map<string, Json>, key: string): Option<nat> {
    if key in fields && fields[key].Number? && 0 <= fields[key].number <= U64_MAX then Some(fields[key].number)
    else None
  }

  function ReadFlag(fields: map<string, Json>, key: string): Option<bool> {
    if key !in fields then Some(false) else if fields[key].Bool? then Some(fields[key].flag) else None
  }

  /** Unknown fields are ignored; one field of the wrong kind drops the whole row. */
  function ReadFields(fields: map<string, Json>): Option<Model> {
    match (ReadText(fields, "alias"), ReadText(fields, "engine"), ReadNumber(fields, "vramRequiredMb"),
           ReadText(fields, "status"), ReadOptional(fields, "toolCallParser"), ReadOptional(fields, "source"),
           ReadFlag(fields, "withdrawn"))
    case (Some(alias), Some(engine), Some(vram), Some(status), Some(parser), Some(source), Some(withdrawn)) =>
      Some(Model(alias, engine, vram, status, parser, source, withdrawn))
    case _ => None
  }

  const MODEL_FIELDS := {"alias", "engine", "vramRequiredMb", "status", "toolCallParser", "source", "withdrawn"}

  /** An object that spells none of the fields a guest looks for twice. */
  predicate Legible(row: Bytes) {
    row.Document? && row.json.Object? && (row.layout.Written? ==> row.layout.repeated !! MODEL_FIELDS)
  }

  function ReadModel(row: Bytes): Option<Model> {
    if Legible(row) then ReadFields(row.json.fields) else None
  }

  function Declared(metadata: map<string, string>, key: string, otherwise: string): string {
    if key in metadata then metadata[key] else otherwise
  }

  function DeclaredOption(metadata: map<string, string>, key: string, otherwise: Option<string>): Option<string> {
    if key in metadata then Some(metadata[key]) else otherwise
  }

  /** Parking an upload in a row changes nothing a guest reads of it. */
  lemma ParkedIsIgnored(row: Json)
    requires row.Object?
    ensures ReadFields(Strip(row).fields) == ReadFields(row.fields)
  {
    var fields := row.fields - {SHADOWED_UPLOAD_KEY};
    forall key | key != SHADOWED_UPLOAD_KEY
      ensures ReadText(fields, key) == ReadText(row.fields, key)
      ensures ReadOptional(fields, key) == ReadOptional(row.fields, key)
      ensures ReadNumber(fields, key) == ReadNumber(row.fields, key)
      ensures ReadFlag(fields, key) == ReadFlag(row.fields, key)
    {
    }
  }

  /** The sidecar declares a field the host writes as well. */
  predicate DeclaresAgain(metadata: map<string, string>, owned: bool) {
    "alias" in metadata || "engine" in metadata || "status" in metadata || (owned && "source" in metadata)
  }

  /** The sidecar declares a field that is no text. */
  predicate DeclaresOtherKind(metadata: map<string, string>) {
    "vramRequiredMb" in metadata || "withdrawn" in metadata
  }

  /** What a guest makes of the fields of a component the host describes. */
  function Shown(info: ComponentInfo): Option<Model> {
    if DeclaresOtherKind(info.metadata) then None
    else Some(Model(Declared(info.metadata, "alias", info.alias), Declared(info.metadata, "engine", info.engine),
                    info.vramRequiredMb, Declared(info.metadata, "status", info.status),
                    DeclaredOption(info.metadata, "toolCallParser", None),
                    DeclaredOption(info.metadata, "source", info.source), false))
  }

  lemma FieldsAreRead(info: ComponentInfo)
    requires !info.withdrawn && info.vramRequiredMb <= U64_MAX
    ensures ReadFields(ToJson(info).fields) == Shown(info)
  {
    var leading, metadata := LeadingFields(info), info.metadata;
    assert ToJson(info).fields == leading + Bag(metadata);
    LeadingValues(info);
    TextIsRead(leading, metadata, "alias");
    TextIsRead(leading, metadata, "engine");
    TextIsRead(leading, metadata, "status");
    NumberIsRead(leading, metadata, "vramRequiredMb");
    OptionIsRead(leading, metadata, "toolCallParser");
    OptionIsRead(leading, metadata, "source");
    FlagIsRead(leading, metadata, "withdrawn");
  }

  /** What the host writes a guest reads back field by field, unless the sidecar declares one of
      the host's own fields: then the guest finds it twice, or of the wrong kind, and drops the
      row. */
  lemma WrittenIsRead(info: ComponentInfo)
    requires !info.withdrawn && info.vramRequiredMb <= U64_MAX
    ensures ReadModel(Serialize(info)) ==
      if DeclaresAgain(info.metadata, info.source.Some?) then None else Shown(info)
  {
    FieldsAreRead(info);
    LegibleExactly(info);
  }

  lemma LegibleExactly(info: ComponentInfo)
    requires !info.withdrawn
    ensures Legible(Serialize(info)) <==>
      !DeclaresAgain(info.metadata, info.source.Some?) && "vramRequiredMb" !in info.metadata
  {
    var repeated := LeadingFields(info).Keys * info.metadata.Keys;
    assert Serialize(info).layout.repeated == repeated;
    LeadingValues(info);
    forall key | key in MODEL_FIELDS
      ensures key in LeadingFields(info) <==>
        key in {"alias", "engine", "status", "vramRequiredMb"} || (key == "source" && info.source.Some?)
    {
    }
    SharesNone(info.metadata, repeated, info.source.Some?);
  }

  lemma SharesNone(metadata: map<string, string>, repeated: set<string>, owned: bool)
    requires forall key <- MODEL_FIELDS :: key in repeated <==>
      key in metadata && (key in {"alias", "engine", "status", "vramRequiredMb"} || (key == "source" && owned))
    ensures repeated !! MODEL_FIELDS <==> !DeclaresAgain(metadata, owned) && "vramRequiredMb" !in metadata
  {
    assert {"alias", "engine", "status", "vramRequiredMb", "source"} <= MODEL_FIELDS;
  }

  lemma LeadingValues(info: ComponentInfo)
    ensures var leading := LeadingFields(info);
      && "alias" in leading && leading["alias"] == Text(info.alias)
      && "engine" in leading && leading["engine"] == Text(info.engine)
      && "status" in leading && leading["status"] == Text(info.status)
      && "vramRequiredMb" in leading && leading["vramRequiredMb"] == Number(info.vramRequiredMb)
      && ("source" in leading <==> info.source.Some?)
      && (info.source.Some? ==> leading["source"] == Text(info.source.value))
      && "toolCallParser" !in leading && "withdrawn" !in leading
  {
  }

  lemma TextIsRead(leading: map<string, Json>, metadata: map<string, string>, key: string)
    requires key in leading && leading[key].Text?
    ensures ReadText(leading + Bag(metadata), key) == Some(Declared(metadata, key, leading[key].text))
  {
  }

  lemma NumberIsRead(leading: map<string, Json>, metadata: map<string, string>, key: string)
    requires key in leading && leading[key].Number? && 0 <= leading[key].number <= U64_MAX
    ensures ReadNumber(leading + Bag(metadata), key) ==
      if key in metadata then None else Some(leading[key].number)
  {
  }

  lemma OptionIsRead(leading: map<string, Json>, metadata: map<string, string>, key: string)
    requires key in leading ==> leading[key].Text?
    ensures ReadOptional(leading + Bag(metadata), key) ==
      Some(DeclaredOption(metadata, key, if key in leading then Some(leading[key].text) else None))
  {
  }

  lemma FlagIsRead(leading: map<string, Json>, metadata: map<string, string>, key: string)
    requires key !in leading
    ensures ReadFlag(leading + Bag(metadata), key) == if key in metadata then None else Some(false)
  {
  }

  lemma ReservationReads(alias: string)
    ensures ReadModel(Reservation(alias)) == Some(Model(alias, "", 0, "reloading", None, Some("config"), true))
  {
  }

  /** A guest that can read a row and the host agree on whether the manifest owns it. */
  lemma GuestSeesOwner(row: Bytes)
    requires ReadModel(row).Some?
    ensures ReadModel(row).value.source == Some("config") <==> RowIsConfigOwned(Some(row))
  {
    assert ReadOptional(row.json.fields, "source").Some?;
  }

  // ---- The listing -----------------------------------------------------------------------------

  /** The models among rows, in their order. */
  function ListedAmong(page: seq<(string, Bytes)>): seq<Model> {
    if page == [] then []
    else
      var model := ReadModel(page[|page| - 1].1);
      ListedAmong(page[..|page| - 1]) + if model.Some? && !model.value.withdrawn then [model.value] else []
  }

  /** The guest lists the first page of the table. */
  function ListModels(t: Table): seq<Model> {
    ListedAmong(GetRange(t, PAGE, 0))
  }

  /** The row under `alias` is one the listing shows as `model`. */
  ghost predicate ShownAs(t: Table, alias: string, model: Model) {
    alias in t && OnPage(t, 0, alias) && ReadModel(t[alias]) == Some(model) && !model.withdrawn
  }

  lemma {:induction false} ListedAmongMeaning(page: seq<(string, Bytes)>, model: Model)
    ensures model in ListedAmong(page) <==>
      exists i :: 0 <= i < |page| && ReadModel(page[i].1) == Some(model) && !model.withdrawn
  {
    if page != [] {
      var n := |page| - 1;
      ListedAmongMeaning(page[..n], model);
      if i :| 0 <= i < |page| && ReadModel(page[i].1) == Some(model) && !model.withdrawn {
        assert i < n ==> page[..n][i] == page[i];
      }
    }
  }

  /** The listing shows exactly the models of the readable rows that are not withdrawn among the
      first ten thousand of the table. */
  lemma ListingExactly(t: Table, model: Model)
    ensures model in ListModels(t) <==> exists alias :: ShownAs(t, alias, model)
  {
    var page, covered := GetRange(t, PAGE, 0), Covered(t, 0);
    ListedAmongMeaning(page, model);
    CoveredRow(t);
    if i :| 0 <= i < |page| && ReadModel(page[i].1) == Some(model) && !model.withdrawn {
      CoveredRanks(t, 0, covered[i]);
      assert ShownAs(t, covered[i], model);
    }
    if alias :| ShownAs(t, alias, model) {
      CoveredRanks(t, 0, alias);
      var i :| 0 <= i < |covered| && covered[i] == alias;
      assert ReadModel(page[i].1) == Some(model);
    }
  }

  lemma CoveredRow(t: Table)
    ensures |GetRange(t, PAGE, 0)| == |Covered(t, 0)|
    ensures forall i :: 0 <= i < |Covered(t, 0)| ==>
      Covered(t, 0)[i] in t && GetRange(t, PAGE, 0)[i] == (Covered(t, 0)[i], t[Covered(t, 0)[i]])
  {
    SortedKeys(Scanned(t));
    forall i | 0 <= i < |Covered(t, 0)|
      ensures Covered(t, 0)[i] in t
    {
      assert Covered(t, 0)[i] in ScannedKeys(t);
    }
  }

  /** A reserved alias is not listed: it is absent for clients while a reload is under way. */
  lemma ReservedIsHidden(t: Table, alias: string, model: Model)
    requires Reserved(t, alias)
    ensures !ShownAs(t, alias, model)
  {
    ReservationReads(alias);
    ParkedIsIgnored(Reservation(alias).json);
    ParkedIsIgnored(t[alias].json);
  }

  function InfoFor(binding: Binding, metadata: map<string, string>): ComponentInfo {
    ComponentInfo(binding.alias, BindingEngineLabel(binding.path), 0, "available", binding.path,
                  Some(SOURCE_CONFIG), metadata, false)
  }

  /** What a guest reads of a row the publisher has just written over `t`: the alias with its
      engine and what else its sidecar says, available and owned. Nothing at all if the sidecar
      declares a number or a flag; and if it declares another of the host's fields, nothing unless
      the row was encoded anew to park an upload, when the sidecar's word counts. */
  lemma PublishedReads(t: Table, binding: Binding, metadata: map<string, string>)
    ensures var alias := binding.alias;
      var t', upload := Next(t, Refresh(alias, ConfiguredRow(binding, metadata))), UploadAt(Get(t, alias));
      && alias in t'
      && ReadModel(t'[alias]) ==
         if DeclaresOtherKind(metadata) then None
         else if DeclaresAgain(metadata, true) && !(upload.Some? && upload.value.Document?) then None
         else Some(Model(Declared(metadata, "alias", alias), ShownEngine(binding, metadata), 0,
                         Declared(metadata, "status", "available"), DeclaredOption(metadata, "toolCallParser", None),
                         Some(Declared(metadata, "source", "config")), false))
  {
    var row := ConfiguredRow(binding, metadata);
    var t' := Next(t, Refresh(binding.alias, row));
    WrittenIsRead(InfoFor(binding, metadata));
    FieldsAreRead(InfoFor(binding, metadata));
    RefreshedRow(Get(t, binding.alias), row);
    assert Some(t'[binding.alias]) == Get(t', binding.alias);
    ParkedIsIgnored(row.json);
    ParkedIsIgnored(t'[binding.alias].json);
  }

  /** A refresh stores the value as it is, or encodes it anew around an upload that parses. */
  lemma RefreshedRow(current: Option<Bytes>, value: Bytes)
    requires value.Document? && value.json.Object?
    ensures RefreshDecision(current, value).Set?
    ensures var upload, row := UploadAt(current), RefreshDecision(current, value).value;
      && row.Document? && row.json.Object? && Strip(row.json) == Strip(value.json)
      && (if upload.Some? && upload.value.Document? then row.layout == Canonical else row == value)
  {
    if current.Some? {
      assert Normal(current.value).Document? <==> current.value.Document?;
    }
  }

  /** Once a manifest is published, a guest that can read the row of an alias, whose sidecar leaves
      the marker alone, reads the last binding that claims it. */
  lemma SettledReads(t: Table, bindings: seq<Binding>, sidecars: Sidecars, minted: set<string>, alias: string)
    returns (i: nat)
    requires Holds(t, Expected(bindings, sidecars), minted) && alias in Expected(bindings, sidecars)
    requires Marked(Expected(bindings, sidecars)[alias])
    ensures i < |bindings| && Claims(bindings[i], alias) && BindingMetadata(sidecars, bindings[i].path).Some?
    ensures forall j :: i < j < |bindings| ==>
      !(Claims(bindings[j], alias) && BindingMetadata(sidecars, bindings[j].path).Some?)
    ensures alias in t
    ensures var metadata := BindingMetadata(sidecars, bindings[i].path).value;
      ReadModel(t[alias]) ==
      if !Legible(t[alias]) || DeclaresOtherKind(metadata) then None
      else Some(Model(Declared(metadata, "alias", alias), ShownEngine(bindings[i], metadata), 0,
                      Declared(metadata, "status", "available"), DeclaredOption(metadata, "toolCallParser", None),
                      Some("config"), false))
  {
    i := ExpectedMeaning(bindings, sidecars, alias);
    var metadata := BindingMetadata(sidecars, bindings[i].path).value;
    var row := ConfiguredRow(bindings[i], metadata);
    assert HoldsAt(t, alias, Expected(bindings, sidecars)[alias], minted);
    assert Strip(t[alias].json) == Strip(row.json);
    ParkedIsIgnored(t[alias].json);
    ParkedIsIgnored(row.json);
    ConfiguredRowMarker(bindings[i], metadata);
    StripKeepsMarker(row.json);
    FieldsAreRead(InfoFor(bindings[i], metadata));
  }

  /** An uploaded model reads back under its own alias and engine, with no owner but the one its
      own sidecar claims, unless that declares one of the host's fields. */
  lemma UploadReads(alias: string, engine: string, path: string, metadata: map<string, string>)
    ensures ReadModel(UploadRow(alias, engine, path, metadata)) ==
      if DeclaresOtherKind(metadata) || DeclaresAgain(metadata, false) then None
      else Some(Model(alias, engine, 0, "available", DeclaredOption(metadata, "toolCallParser", None),
                      DeclaredOption(metadata, "source", None), false))
  {
    WrittenIsRead(ComponentInfo(alias, engine, 0, "available", path, None, metadata, false));
  }
}
