/**
 Rows of the component registry: what one row says about who owns it, and how a
 configured row carries the upload row it displaced.

 A stored value is a byte string. What matters about it is the JSON value it parses
 to and whether two byte strings are equal, so `Bytes` keeps a parsed value together
 with its layout (key order, repeated keys and white space); re-encoding always yields
 `Canonical`, which repeats nothing.
 */
module RegistryRows {
  import opened Wrappers

  datatype Json =
    | Null
    | Bool(flag: bool)
    | Number(number: int)
    | Text(text: string)
    | Array(items: seq<Json>)
    | Object(fields: map<string, Json>)

  /** `repeated`: the keys the text of an object spells more than once; the last one counts. */
  datatype Layout = Canonical | Written(tag: nat, repeated: set<string>)

  datatype Bytes = Document(json: Json, layout: Layout) | Garbage(tag: nat)

  const SOURCE_KEY := "source"
  const SOURCE_CONFIG := "config"
  const SHADOWED_UPLOAD_KEY := "shadowedUpload"
  const FIXED_FIELDS := {"alias", "engine", "vramRequiredMb", "status", "artifactPath", "source", "withdrawn"}

  function Encode(json: Json): Bytes {
    Document(json, Canonical)
  }

  /** The same value with its layout forgotten: equal for rows that parse alike. */
  function Normal(row: Bytes): Bytes {
    if row.Document? then Encode(row.json) else row
  }

  /** `row.get("source").as_str() == "config"`: the publisher's marker. */
  predicate Marked(json: Json) {
    json.Object? && SOURCE_KEY in json.fields && json.fields[SOURCE_KEY] == Text(SOURCE_CONFIG)
  }

  predicate RowIsConfigOwned(row: Option<Bytes>) {
    row.Some? && row.value.Document? && Marked(row.value.json)
  }

  // ---- Parking and restoring a displaced upload -------------------------------------

  function CarryShadowedUpload(value: Bytes, shadowed: Bytes): Option<Bytes> {
    if value.Document? && shadowed.Document? && value.json.Object? then
      Some(Encode(Object(value.json.fields[SHADOWED_UPLOAD_KEY := shadowed.json])))
    else
      None
  }

  function ShadowedUploadRow(row: Bytes): Option<Bytes> {
    if row.Document? && row.json.Object? && SHADOWED_UPLOAD_KEY in row.json.fields then
      var restored := Encode(row.json.fields[SHADOWED_UPLOAD_KEY]);
      if RowIsConfigOwned(Some(restored)) then None else Some(restored)
    else
      None
  }

  /** A row without the upload it holds aside: what the manifest alone determines. */
  function Strip(json: Json): Json {
    if json.Object? then Object(json.fields - {SHADOWED_UPLOAD_KEY}) else json
  }

  /** Parking an upload in a row and taking it out again returns the upload, and changes
      neither who owns the row nor anything else it says. */
  lemma CarryRoundTrip(value: Bytes, shadowed: Bytes)
    requires value.Document? && value.json.Object?
    requires shadowed.Document? && !Marked(shadowed.json)
    ensures CarryShadowedUpload(value, shadowed).Some?
    ensures var carried := CarryShadowedUpload(value, shadowed).value;
      && ShadowedUploadRow(carried) == Some(Normal(shadowed))
      && carried.Document? && (Marked(carried.json) <==> Marked(value.json))
      && Strip(carried.json) == Strip(value.json)
      && carried != Normal(shadowed)
  {
    var fields := value.json.fields[SHADOWED_UPLOAD_KEY := shadowed.json];
    assert fields - {SHADOWED_UPLOAD_KEY} == value.json.fields - {SHADOWED_UPLOAD_KEY};
    assert fields[SHADOWED_UPLOAD_KEY] == shadowed.json;
  }

  /** Arrays and objects nest at most `limit` deep. A JSON parser may refuse what nests deeper. */
  predicate Nests(json: Json, limit: nat)
    decreases limit
  {
    match json
    case Array(items) => limit > 0 && forall item <- items :: Nests(item, limit - 1)
    case Object(fields) => limit > 0 && forall key <- fields :: Nests(fields[key], limit - 1)
    case _ => true
  }

  /** A row carrying an upload stays within a nesting limit exactly when the row does without it
      and the upload stays one below: an upload that just fits no longer does once parked. */
  lemma CarriedRowNestsExactly(value: Bytes, shadowed: Bytes, limit: nat)
    requires value.Document? && value.json.Object? && shadowed.Document?
    ensures var carried := CarryShadowedUpload(value, shadowed);
      && carried.Some? && carried.value.Document?
      && (Nests(carried.value.json, limit) <==>
          limit > 0 && Nests(Strip(value.json), limit) && Nests(shadowed.json, limit - 1))
  {
    var fields := value.json.fields;
    var carried := fields[SHADOWED_UPLOAD_KEY := shadowed.json];
    if limit > 0 && Nests(Object(carried), limit) {
      assert Nests(carried[SHADOWED_UPLOAD_KEY], limit - 1);
      forall key <- fields - {SHADOWED_UPLOAD_KEY}
        ensures Nests(fields[key], limit - 1)
      {
        assert Nests(carried[key], limit - 1);
      }
    }
    if limit > 0 && Nests(Strip(value.json), limit) && Nests(shadowed.json, limit - 1) {
      forall key <- carried
        ensures Nests(carried[key], limit - 1)
      {
        assert key == SHADOWED_UPLOAD_KEY || key in Strip(value.json).fields;
      }
    }
  }

  // ---- The rows the host writes -------------------------------------------------------

  datatype ComponentInfo = ComponentInfo(
    alias: string, engine: string, vramRequiredMb: nat, status: string, artifactPath: string,
    source: Option<string>, metadata: map<string, string>, withdrawn: bool)

  /** The JSON a row parses to. The metadata bag is flattened between `source` and
      `withdrawn`, and of two equal keys the later one is read back. */
  function ToJson(info: ComponentInfo): Json {
    Object(LeadingFields(info) + Bag(info.metadata)
           + (if info.withdrawn then map["withdrawn" := Bool(true)] else map[]))
  }

  function LeadingFields(info: ComponentInfo): map<string, Json> {
    map["alias" := Text(info.alias), "engine" := Text(info.engine),
        "vramRequiredMb" := Number(info.vramRequiredMb), "status" := Text(info.status),
        "artifactPath" := Text(info.artifactPath)]
    + (if info.source.Some? then map[SOURCE_KEY := Text(info.source.value)] else map[])
  }

  function Bag(metadata: map<string, string>): map<string, Json> {
    map key | key in metadata :: Text(metadata[key])
  }

  /** The layout serde gives a struct: declaration order, not the canonical one. A sidecar key
      that is also a field of the row is spelled twice. */
  function Serialize(info: ComponentInfo): Bytes {
    var own := LeadingFields(info).Keys + if info.withdrawn then {"withdrawn"} else {};
    Document(ToJson(info), Written(0, own * info.metadata.Keys))
  }

  function Reservation(alias: string): Bytes {
    Serialize(ComponentInfo(alias, "", 0, "reloading", "", Some(SOURCE_CONFIG), map[], true))
  }

  // ---- What a manifest binding becomes -------------------------------------------------

  predicate IsWhitespace(c: char) {
    || '\t' <= c <= '\r' || c == ' ' || c == '\U{85}' || c == '\U{A0}' || c == '\U{1680}'
    || '\U{2000}' <= c <= '\U{200A}' || c == '\U{2028}' || c == '\U{2029}'
    || c == '\U{202F}' || c == '\U{205F}' || c == '\U{3000}'
  }

  /** The twenty-five characters of the Unicode property White_Space. */
  lemma WhitespaceExactly(c: char)
    ensures IsWhitespace(c) <==>
      c in {'\t', '\n', '\U{0B}', '\U{0C}', '\r', ' ', '\U{85}', '\U{A0}', '\U{1680}', '\U{2000}', '\U{2001}',
            '\U{2002}', '\U{2003}', '\U{2004}', '\U{2005}', '\U{2006}', '\U{2007}', '\U{2008}', '\U{2009}',
            '\U{200A}', '\U{2028}', '\U{2029}', '\U{202F}', '\U{205F}', '\U{3000}'}
  {
  }

  function TrimStart(s: string): string {
    if s != "" && IsWhitespace(s[0]) then TrimStart(s[1..]) else s
  }

  function TrimEnd(s: string): string {
    if s != "" && IsWhitespace(s[|s| - 1]) then TrimEnd(s[..|s| - 1]) else s
  }

  function Trim(s: string): string {
    TrimEnd(TrimStart(s))
  }

  predicate AllWhitespace(s: string) {
    forall i :: 0 <= i < |s| ==> IsWhitespace(s[i])
  }

  /** Some character is not white space. */
  predicate HasText(s: string) {
    exists i :: 0 <= i < |s| && !IsWhitespace(s[i])
  }

  lemma {:induction false} TrimStartMeaning(s: string) returns (i: nat)
    ensures i <= |s| && TrimStart(s) == s[i..] && AllWhitespace(s[..i]) && (i < |s| ==> !IsWhitespace(s[i]))
  {
    if s == "" || !IsWhitespace(s[0]) {
      return 0;
    }
    i := TrimStartMeaning(s[1..]);
    assert s[1..][i..] == s[i + 1..] && s[..i + 1] == [s[0]] + s[1..][..i];
    i := i + 1;
  }

  lemma {:induction false} TrimEndMeaning(s: string) returns (j: nat)
    ensures j <= |s| && TrimEnd(s) == s[..j] && AllWhitespace(s[j..]) && (j > 0 ==> !IsWhitespace(s[j - 1]))
  {
    if s == "" || !IsWhitespace(s[|s| - 1]) {
      return |s|;
    }
    var rest := s[..|s| - 1];
    j := TrimEndMeaning(rest);
    assert rest[..j] == s[..j] && s[j..] == rest[j..] + [s[|s| - 1]];
  }

  /** Trimming takes the white space off both ends and nothing else. */
  lemma TrimMeaning(s: string) returns (i: nat, j: nat)
    ensures i <= j <= |s| && Trim(s) == s[i..j] && AllWhitespace(s[..i]) && AllWhitespace(s[j..])
    ensures i < j ==> !IsWhitespace(s[i]) && !IsWhitespace(s[j - 1])
  {
    i := TrimStartMeaning(s);
    var k := TrimEndMeaning(s[i..]);
    j := i + k;
    assert s[i..][..k] == s[i..j] && s[j..] == s[i..][k..];
    assert k > 0 ==> s[i..][k - 1] == s[j - 1];
    assert i < j ==> s[i..][0] == s[i];
  }

  lemma TrimLeavesText(s: string)
    ensures Trim(s) != "" <==> HasText(s)
  {
    var i, j := TrimMeaning(s);
    if i == j {
      forall k | 0 <= k < |s|
        ensures IsWhitespace(s[k])
      {
        assert k < i ==> s[..i][k] == s[k];
        assert k >= j ==> s[j..][k - j] == s[k];
      }
    }
  }

  predicate IsMock(path: string) {
    Trim(path) == "mock" || "mock:" <= Trim(path)
  }

  const MAGNETAR_PREFIX := "magnetar:"

  /** The text before the first colon, if there is one. */
  function Scheme(path: string): Option<string> {
    if path == "" then None
    else if path[0] == ':' then Some("")
    else match Scheme(path[1..])
      case None => None
      case Some(rest) => Some([path[0]] + rest)
  }

  function BindingEngineLabel(path: string): string {
    if IsMock(path) then "mock"
    else if MAGNETAR_PREFIX <= Trim(path) then "magnetar"
    else match Scheme(Trim(path))
      case Some(scheme) => scheme
      case None => "local"
  }

  lemma {:induction false} SchemeMeaning(path: string) returns (k: int)
    ensures -1 <= k < |path| && (k < 0 <==> ':' !in path)
    ensures k >= 0 ==> path[k] == ':' && ':' !in path[..k] && Scheme(path) == Some(path[..k])
    ensures k < 0 ==> Scheme(path) == None
  {
    if path == "" {
      return -1;
    }
    if path[0] == ':' {
      return 0;
    }
    k := SchemeMeaning(path[1..]);
    assert path == [path[0]] + path[1..];
    if k >= 0 {
      assert path[..k + 1] == [path[0]] + path[1..][..k];
      k := k + 1;
    }
  }

  /** The engine label is what the trimmed path says before its first colon, `mock:` and
      `magnetar:` included; without a colon only `mock` itself is not local. */
  lemma EngineLabelMeaning(path: string) returns (k: int)
    ensures -1 <= k < |Trim(path)| && (k < 0 <==> ':' !in Trim(path))
    ensures k >= 0 ==>
      Trim(path)[k] == ':' && ':' !in Trim(path)[..k] && BindingEngineLabel(path) == Trim(path)[..k]
    ensures k < 0 ==> BindingEngineLabel(path) == if Trim(path) == "mock" then "mock" else "local"
  {
    var p := Trim(path);
    k := SchemeMeaning(p);
    if "mock:" <= p {
      assert p[..4] == "mock" && p[4] == ':';
    } else if MAGNETAR_PREFIX <= p {
      assert p[..8] == "magnetar" && p[8] == ':';
    }
  }

  /** What the artifact sidecar at a directory declares; `None` when it cannot be read. */
  type Sidecars = string -> Option<map<string, string>>

  function BindingMetadata(sidecars: Sidecars, path: string): Option<map<string, string>> {
    var trimmed := Trim(path);
    if IsMock(path) then Some(map[])
    else if MAGNETAR_PREFIX <= trimmed then sidecars(trimmed[|MAGNETAR_PREFIX|..])
    else sidecars(trimmed)
  }

  /** A mock has no sidecar; any other path has the one in the directory it names, without
      white space around it or the engine prefix before it. */
  lemma SidecarMeaning(sidecars: Sidecars, path: string, directory: string)
    ensures Trim(path) == "mock" || Trim(path) == "mock:" + directory ==> BindingMetadata(sidecars, path) == Some(map[])
    ensures Trim(path) == "magnetar:" + directory ==> BindingMetadata(sidecars, path) == sidecars(directory)
    ensures Trim(path) == directory && BindingEngineLabel(path) != "mock" && BindingEngineLabel(path) != "magnetar" ==>
      BindingMetadata(sidecars, path) == sidecars(directory)
  {
    var p := Trim(path);
    if p == "magnetar:" + directory {
      assert p[|MAGNETAR_PREFIX|..] == directory;
      assert p[0] == 'm' && p[1] == 'a';
    }
    if p == "mock:" + directory {
      assert p[..5] == "mock:";
    }
  }

  datatype Binding = Binding(alias: string, path: string, dynamic: bool)

  predicate Publishable(binding: Binding) {
    !binding.dynamic && Trim(binding.path) != ""
  }

  /** The manifest's static bindings whose path is not blank. */
  lemma PublishableMeaning(binding: Binding)
    ensures Publishable(binding) <==> !binding.dynamic && HasText(binding.path)
  {
    TrimLeavesText(binding.path);
  }

  function ConfiguredRow(binding: Binding, metadata: map<string, string>): Bytes {
    Serialize(ComponentInfo(binding.alias, BindingEngineLabel(binding.path), 0, "available",
                            binding.path, Some(SOURCE_CONFIG), metadata, false))
  }

  /** A configured row carries the publisher's marker unless its sidecar overwrites it, and
      holds something aside only if its sidecar declares that key. */
  lemma ConfiguredRowMarker(binding: Binding, metadata: map<string, string>)
    ensures var row := ConfiguredRow(binding, metadata);
      && (Marked(row.json) <==> (SOURCE_KEY in metadata ==> metadata[SOURCE_KEY] == SOURCE_CONFIG))
      && (SHADOWED_UPLOAD_KEY in row.json.fields <==> SHADOWED_UPLOAD_KEY in metadata)
  {
  }

  /** Whether a stored row shows the engine and the metadata publishing `path` would write now. */
  predicate RowStillCurrent(row: Option<Bytes>, sidecars: Sidecars, path: string) {
    && row.Some? && row.value.Document? && row.value.json.Object?
    && var fields := row.value.json.fields;
    && "engine" in fields && fields["engine"] == Text(BindingEngineLabel(path))
    && BindingMetadata(sidecars, path) == Some(StoredMetadata(fields))
  }

  /** Every field that is not one of the fixed ones and holds a string. */
  function StoredMetadata(fields: map<string, Json>): map<string, string> {
    map key | key in fields && key !in FIXED_FIELDS && fields[key].Text? :: fields[key].text
  }

  /** What a stored configured row shows as metadata: the sidecar's bag without the fixed
      fields, and a parked upload that is a JSON string. */
  function ReadBack(metadata: map<string, string>, parked: Option<Json>): map<string, string> {
    var own := metadata - FIXED_FIELDS;
    if parked.None? then own
    else if parked.value.Text? then own[SHADOWED_UPLOAD_KEY := parked.value.text]
    else own - {SHADOWED_UPLOAD_KEY}
  }

  /** The fields of a configured row, with or without an upload parked in it. */
  function StoredFields(binding: Binding, metadata: map<string, string>, parked: Option<Json>): map<string, Json> {
    var fields := ConfiguredRow(binding, metadata).json.fields;
    if parked.Some? then fields[SHADOWED_UPLOAD_KEY := parked.value] else fields
  }

  /** Reading a configured row back gives the sidecar's bag without the fixed fields, and the
      engine label unless the sidecar replaces it. */
  lemma ConfiguredRowMetadata(binding: Binding, metadata: map<string, string>)
    ensures var fields := ConfiguredRow(binding, metadata).json.fields;
      && StoredMetadata(fields) == metadata - FIXED_FIELDS
      && "engine" in fields
      && fields["engine"] == Text(ShownEngine(binding, metadata))
  {
    var info := ComponentInfo(binding.alias, BindingEngineLabel(binding.path), 0, "available",
                              binding.path, Some(SOURCE_CONFIG), metadata, false);
    LeadingFieldsAreFixed(info);
    FlattenedMetadata(LeadingFields(info), metadata);
    assert ToJson(info).fields == LeadingFields(info) + Bag(metadata);
  }

  lemma LeadingFieldsAreFixed(info: ComponentInfo)
    ensures LeadingFields(info).Keys <= FIXED_FIELDS
    ensures "engine" in LeadingFields(info) && LeadingFields(info)["engine"] == Text(info.engine)
  {
  }

  lemma FlattenedMetadata(leading: map<string, Json>, metadata: map<string, string>)
    requires leading.Keys <= FIXED_FIELDS
    ensures StoredMetadata(leading + Bag(metadata)) == metadata - FIXED_FIELDS
  {
  }

  /** The engine a configured row shows. */
  function ShownEngine(binding: Binding, metadata: map<string, string>): string {
    if "engine" in metadata then metadata["engine"] else BindingEngineLabel(binding.path)
  }

  /** A row as published, with or without an upload parked in it, reads as current under a path
      exactly when it shows the engine of that path and what the sidecar there declares now. */
  lemma PublishedRowIsCurrent(binding: Binding, metadata: map<string, string>, parked: Option<Json>, path: string,
                              sidecars: Sidecars)
    ensures RowStillCurrent(Some(Encode(Object(StoredFields(binding, metadata, parked)))), sidecars, path) <==>
      && ShownEngine(binding, metadata) == BindingEngineLabel(path)
      && BindingMetadata(sidecars, path) == Some(ReadBack(metadata, parked))
  {
    ConfiguredRowMetadata(binding, metadata);
    var fields := ConfiguredRow(binding, metadata).json.fields;
    assert "engine" != SHADOWED_UPLOAD_KEY;
    if parked.Some? {
      ParkedInMetadata(fields, parked.value);
    }
  }

  lemma ParkedInMetadata(fields: map<string, Json>, parked: Json)
    ensures var read := StoredMetadata(fields[SHADOWED_UPLOAD_KEY := parked]);
      read == if parked.Text? then StoredMetadata(fields)[SHADOWED_UPLOAD_KEY := parked.text]
              else StoredMetadata(fields) - {SHADOWED_UPLOAD_KEY}
  {
    assert SHADOWED_UPLOAD_KEY !in FIXED_FIELDS;
  }

  /** The sidecar declares, under the parking key, what a parked upload shows there. */
  predicate AgreesWithParked(metadata: map<string, string>, parked: Json) {
    if parked.Text? then SHADOWED_UPLOAD_KEY in metadata && metadata[SHADOWED_UPLOAD_KEY] == parked.text
    else SHADOWED_UPLOAD_KEY !in metadata
  }

  /** While nothing about a binding changes, its row reads as current exactly when the sidecar
      declares no fixed field and agrees with what a parked upload shows as metadata. */
  lemma UnchangedRowIsCurrentExactly(binding: Binding, metadata: map<string, string>, parked: Option<Json>,
                                     sidecars: Sidecars)
    requires BindingMetadata(sidecars, binding.path) == Some(metadata)
    ensures
      RowStillCurrent(Some(Encode(Object(StoredFields(binding, metadata, parked)))), sidecars, binding.path) <==>
      && metadata.Keys !! FIXED_FIELDS
      && (parked.Some? ==> AgreesWithParked(metadata, parked.value))
  {
    PublishedRowIsCurrent(binding, metadata, parked, binding.path, sidecars);
    ReadBackUnchanged(metadata, parked);
    assert "engine" in FIXED_FIELDS;
  }

  lemma ReadBackUnchanged(metadata: map<string, string>, parked: Option<Json>)
    ensures ReadBack(metadata, parked) == metadata <==>
      && metadata.Keys !! FIXED_FIELDS
      && (parked.Some? ==> AgreesWithParked(metadata, parked.value))
  {
    var own, read := metadata - FIXED_FIELDS, ReadBack(metadata, parked);
    assert SHADOWED_UPLOAD_KEY !in FIXED_FIELDS;
    if metadata.Keys !! FIXED_FIELDS {
      assert own == metadata;
      assert parked.Some? && parked.value.Text? ==> read[SHADOWED_UPLOAD_KEY] == parked.value.text;
      assert parked.Some? && !parked.value.Text? ==> SHADOWED_UPLOAD_KEY !in read;
    } else {
      var key :| key in metadata && key in FIXED_FIELDS;
      assert key !in read;
    }
  }

  /** Two inputs on which a row nobody touched reads as stale: a sidecar that declares a fixed
      field, and a parked upload that is a JSON string. */
  lemma UnchangedRowReadsStale(binding: Binding, sidecars: Sidecars, metadata: map<string, string>,
                               parked: Option<Json>)
    requires || (metadata == map["status" := "x"] && parked == None)
             || (metadata == map[] && parked == Some(Text("x")))
    requires BindingMetadata(sidecars, binding.path) == Some(metadata)
    ensures !RowStillCurrent(Some(Encode(Object(StoredFields(binding, metadata, parked)))), sidecars, binding.path)
  {
    UnchangedRowIsCurrentExactly(binding, metadata, parked, sidecars);
    assert "status" in FIXED_FIELDS;
  }

  /** The fixed fields of a published row, as publishing `alias` at `path` sets them. */
  function FixedFields(alias: string, path: string): map<string, Json> {
    LeadingFields(InfoOf(alias, path))
  }

  function InfoOf(alias: string, path: string): ComponentInfo {
    ComponentInfo(alias, BindingEngineLabel(path), 0, "available", path, Some(SOURCE_CONFIG), map[], false)
  }

  /** Every fixed field the sidecar declares repeats what the row says without it. */
  predicate RepeatsFixed(metadata: map<string, string>, fixed: map<string, Json>) {
    forall key <- metadata :: key in FIXED_FIELDS ==> key in fixed && fixed[key] == Text(metadata[key])
  }

  /** A row published for one path and judged current under another is the row publishing that
      other path would write exactly when the paths are equal, or its sidecar declared the
      path shown, and the sidecar's fixed fields repeat the row's own. */
  lemma CurrentRowIsRewrittenExactly(binding: Binding, metadata: map<string, string>, parked: Option<Json>,
                                     path: string, sidecars: Sidecars)
    requires RowStillCurrent(Some(Encode(Object(StoredFields(binding, metadata, parked)))), sidecars, path)
    ensures BindingMetadata(sidecars, path).Some?
    ensures var again := ConfiguredRow(binding.(path := path), BindingMetadata(sidecars, path).value);
      Strip(again.json) == Strip(Object(StoredFields(binding, metadata, parked))) <==>
      && ("artifactPath" in metadata || binding.path == path)
      && RepeatsFixed(metadata, FixedFields(binding.alias, path))
  {
    PublishedRowIsCurrent(binding, metadata, parked, path, sidecars);
    var now := ReadBack(metadata, parked);
    var before, after := FixedFields(binding.alias, binding.path), FixedFields(binding.alias, path);
    ConfiguredFields(binding, metadata);
    ConfiguredFields(binding.(path := path), now);
    ParkingIsStripped(before + Bag(metadata), parked);
    FixedFieldsDiffer(binding.alias, binding.path, path);
    SameFieldsExactly(before, after, metadata, parked, (before + Bag(metadata)) - {SHADOWED_UPLOAD_KEY},
                      (after + Bag(now)) - {SHADOWED_UPLOAD_KEY});
  }

  lemma ConfiguredFields(binding: Binding, metadata: map<string, string>)
    ensures ConfiguredRow(binding, metadata).json == Object(FixedFields(binding.alias, binding.path) + Bag(metadata))
  {
  }

  lemma ParkingIsStripped(fields: map<string, Json>, parked: Option<Json>)
    ensures var stored := if parked.Some? then fields[SHADOWED_UPLOAD_KEY := parked.value] else fields;
      stored - {SHADOWED_UPLOAD_KEY} == fields - {SHADOWED_UPLOAD_KEY}
  {
  }

  lemma FixedFieldsDiffer(alias: string, path: string, other: string)
    ensures var before, after := FixedFields(alias, path), FixedFields(alias, other);
      && before.Keys == after.Keys <= FIXED_FIELDS && {"engine", "artifactPath"} <= before.Keys
      && before["engine"] == Text(BindingEngineLabel(path)) && after["engine"] == Text(BindingEngineLabel(other))
      && before["artifactPath"] == Text(path) && after["artifactPath"] == Text(other)
      && forall key <- before :: key != "engine" && key != "artifactPath" ==> before[key] == after[key]
  {
    LeadingFieldsAreFixed(InfoOf(alias, path));
  }

  /** Outside the fixed fields the two rows agree; among them `written` shows `after`. */
  lemma RewrittenFields(before: map<string, Json>, after: map<string, Json>, metadata: map<string, string>,
                        parked: Option<Json>, stored: map<string, Json>, written: map<string, Json>)
    requires before.Keys == after.Keys <= FIXED_FIELDS
    requires stored == (before + Bag(metadata)) - {SHADOWED_UPLOAD_KEY}
    requires written == (after + Bag(ReadBack(metadata, parked))) - {SHADOWED_UPLOAD_KEY}
    ensures forall key :: key in FIXED_FIELDS ==>
      (key in written <==> key in after) && (key in after ==> written[key] == after[key])
    ensures forall key :: key !in FIXED_FIELDS ==>
      (key in written <==> key in stored) && (key in stored ==> written[key] == stored[key])
  {
    assert SHADOWED_UPLOAD_KEY !in FIXED_FIELDS;
  }

  lemma SameFieldsExactly(before: map<string, Json>, after: map<string, Json>, metadata: map<string, string>,
                          parked: Option<Json>, stored: map<string, Json>, written: map<string, Json>)
    requires before.Keys == after.Keys <= FIXED_FIELDS && {"engine", "artifactPath"} <= before.Keys
    requires forall key <- before :: key != "engine" && key != "artifactPath" ==> before[key] == after[key]
    requires after["engine"] == if "engine" in metadata then Text(metadata["engine"]) else before["engine"]
    requires stored == (before + Bag(metadata)) - {SHADOWED_UPLOAD_KEY}
    requires written == (after + Bag(ReadBack(metadata, parked))) - {SHADOWED_UPLOAD_KEY}
    ensures written == stored <==>
      && ("artifactPath" in metadata || before["artifactPath"] == after["artifactPath"])
      && RepeatsFixed(metadata, after)
  {
    RewrittenFields(before, after, metadata, parked, stored, written);
    assert SHADOWED_UPLOAD_KEY !in FIXED_FIELDS;
    forall key | key in FIXED_FIELDS
      ensures key in metadata ==> key in stored && stored[key] == Text(metadata[key])
      ensures key !in metadata ==> (key in stored <==> key in before) && (key in before ==> stored[key] == before[key])
    {
    }
    if written == stored {
      assert "artifactPath" in FIXED_FIELDS;
      assert RepeatsFixed(metadata, after);
    } else {
      var key :| || (key in written <==> key !in stored)
                 || (key in stored && key in written && written[key] != stored[key]);
      assert key in FIXED_FIELDS;
    }
  }

  /** An input: two mock paths. The row of the first is judged current under the second, though
      publishing the second would write another row. */
  lemma CurrentUnderAnotherPath(alias: string, sidecars: Sidecars)
    ensures var row := ConfiguredRow(Binding(alias, "mock:a", false), map[]);
      && RowStillCurrent(Some(row), sidecars, "mock:b")
      && BindingMetadata(sidecars, "mock:b").Some?
      && Strip(ConfiguredRow(Binding(alias, "mock:b", false), BindingMetadata(sidecars, "mock:b").value).json)
         != Strip(row.json)
  {
    var binding := Binding(alias, "mock:a", false);
    MockPaths();
    PublishedRowIsCurrent(binding, map[], None, "mock:b", sidecars);
    CurrentRowIsRewrittenExactly(binding, map[], None, "mock:b", sidecars);
  }

  lemma MockPaths()
    ensures IsMock("mock:a") && IsMock("mock:b")
  {
    assert TrimStart("mock:a") == "mock:a" && TrimStart("mock:b") == "mock:b";
  }

  // ---- What an upload becomes ------------------------------------------------------------

  function UploadRow(alias: string, engine: string, path: string, metadata: map<string, string>): Bytes {
    Serialize(ComponentInfo(alias, engine, 0, "available", path, None, metadata, false))
  }

  /** An upload's row carries the publisher's marker exactly when its artifact's own sidecar
      declares it. */
  lemma UploadRowMarker(alias: string, engine: string, path: string, metadata: map<string, string>)
    ensures var row := UploadRow(alias, engine, path, metadata);
      && (Marked(row.json) <==> SOURCE_KEY in metadata && metadata[SOURCE_KEY] == SOURCE_CONFIG)
      && (SHADOWED_UPLOAD_KEY in row.json.fields <==> SHADOWED_UPLOAD_KEY in metadata)
      && (SHADOWED_UPLOAD_KEY in metadata ==>
            row.json.fields[SHADOWED_UPLOAD_KEY] == Text(metadata[SHADOWED_UPLOAD_KEY]))
  {
  }
}
