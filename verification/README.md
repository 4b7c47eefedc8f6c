# Tachyon Mesh: a verified model

A Dafny model of the parts of Tachyon Mesh where several writers, calls or tasks share state,
with proofs over every input, every schedule or every reachable state. `dafny verify
dfyconfig.toml` checks the whole project. Nothing was executed: every statement is about the
model, and the table below says which lines of the repository each member models.

## What is modelled

**The component registry** (`RegistryRows`, `RegistryTable`, `RegistryOverlay`, `RegistryScan`,
`RegistryPublisher`, `RegistryHosts`, `RegistryMiss`, `RegistryWithdrawals`, `RegistryListing`,
`KeyOrder`). One table is shared by the
manifest publisher, uploads and guests. A row is owned by the manifest when it carries
`"source": "config"`; a configured row that displaces an upload carries it in
`"shadowedUpload"`. `RegistryTable` gives every transaction that can commit as one step
relation. `RegistryOverlay` relates the single table to two layers, config over uploads, and
proves exactly which transactions keep to their own layer, on every table. `RegistryScan` is
the paged scan in terms of ranks. `RegistryHosts` is the imperative host: the loops that
withdraw, publish, scan page by page, sweep and retry. `RegistryListing` is the reader: what a
guest makes of a row and which rows its listing shows. Two oracles drive it: `interference(n)`
holds the foreign transactions that commit before the host's n-th one, and `storeFails(n)` says
whether that one fails. A contract of `RegistryHost` therefore speaks of every interleaving. A
stored value is kept as its parsed JSON with its byte layout, repeated keys included, or as bytes that do not parse, so
that compares look at bytes and malformed rows are covered.

**Inference admission** (`Admission`): lazy loading and the per-alias slot counter with its
condition variable, as a state machine whose steps are critical sections.

**TurboQuant** (`TurboQuant`): nearest-level quantization over reals and bit packing over
bytes, with the 16-bit reading window.

**Smaller protocols**: the leased outbox (`Outbox`), the streamed model upload
(`UploadStream`), on-demand TLS configuration (`TlsSingleFlight`), the rotating log
(`LogRotation`), safetensors transfer (`Safetensors`) and the topology grid (`Topology`).

## Properties that do not hold as promised

Each is stated with the input on which it fails and the exact condition under which it holds.

- **No upload makes an alias config-owned** (core-host/src/system_storage.rs:680-692, 917-926). Guest
  values are checked for the marker, uploads are not, and an upload's row takes over whatever
  the artifact's own sidecar declares (core-host/src/system_storage.rs:1222-1231). An artifact
  whose sidecar says `{"source": "config"}` makes its alias config-owned, is then refused its
  own updates, and is deleted by the next sweep: `RegistryTable.MintedUploadIsLost`. An upload
  changes no ownership if and only if its alias is config-owned already or its sidecar does not
  declare the marker: `RegistryTable.UploadOwnershipExactly`. Statements about rows
  becoming config-owned except the aliases such uploads are aimed at (`minted`); statements
  about config-owned rows standing unchanged except none.
- **Zero failures mean the registry describes the running manifest**
  (core-host/src/system_storage.rs:489-491). The scan for stale rows addresses rows by position, so
  a deletion between two pages can move a stale row from behind the page boundary to before it.
  `RegistryMiss.PublicationLeavesStaleRow` is a publication that reports no failure and leaves
  such a row. What a publication without failures leaves is exactly the manifest's rows and the
  stale rows whose rank was on no page when that page was read (`RegistryPublisher.Reconciles`);
  so exactly the manifest's rows whenever no row is deleted between pages, however many are
  added (`RegistryPublisher.ReconciledIfGrowing`, `RegistryScan.NoDeletionNoRowLeaves`).
- **Publishing keeps the upload it displaces** (core-host/src/system_storage.rs:567-594). It does if
  and only if the sidecar leaves the marker alone and the upload parses, or there is none and
  the sidecar does not declare the parking key: `RegistryOverlay.PublishKeepsUploadExactly`, and
  for whole runs `RegistryOverlay.UploadSurvivesReloads`. `UnparsableUploadIsLost` is an input on
  which it does not.
- **A reload withdraws only rows that would change** (core-host/src/system_storage.rs:1049-1051).
  The pass leaves the rows it recognises as unchanged as they were, reserves every other
  config-owned row of the outgoing manifest and touches none outside it
  (`RegistryHost.WithdrawChangedBindings`). A reload that changes nothing about a binding leaves
  its row alone if and only if its sidecar declares none of the fixed fields and agrees with what
  a parked upload shows as metadata: `RegistryWithdrawals.UnchangedRowIsSparedExactly`.
  `RegistryWithdrawals.PassWithdrawsUnchangedRow` is a whole pass that withdraws a row nothing
  changed about; `RegistryRows.UnchangedRowReadsStale` has both kinds of failing input.
- **A spared row says what a fresh publication would say** (core-host/src/system_storage.rs:1071-1072).
  Only engine and metadata are compared. `RegistryRows.CurrentUnderAnotherPath` is a row that is
  judged current under a path publishing which would write another row;
  `RegistryRows.CurrentRowIsRewrittenExactly` gives the exact condition.
- **Configured components appear in the listing** (core-host/src/system_storage.rs:476-482). A guest
  drops a row that spells one of its fields twice or with another kind of value
  (examples/guest-openai/src/lib.rs:543-571, 2430-2444), and the host writes a sidecar's keys beside
  its own. `RegistryListing.PublishedReads` says for every sidecar and every table whether a guest
  reads the row just published, and as what; a row is listed exactly if it is read, not withdrawn and
  among the first ten thousand of the table: `RegistryListing.ListingExactly`.
- **A certificate that was obtained is still there after a restart**
  (core-host/src/tls_runtime.rs:165-169). It is stored under the domain it names, not the one it was
  asked for. What a call leaves in the store backs the configuration it returns if and only if the
  certificate names the domain, or the same one was stored meanwhile:
  `TlsSingleFlight.BackedExactlyWhenNamed`; and over whole runs
  `TlsSingleFlight.RestartServesTheSame`.
- **Types never overlap in the layout** (tachyon-client/src/lib.rs:1393-1394). Listed types do not
  (`Topology.ListedTypesApart`). With a type list that repeats none, like the console's, no two
  nodes share a place if and only if every type is listed or there is only one:
  `Topology.NoOverlapExactly`.
- The doc comment of publication says that existing rows are left untouched
  (core-host/src/system_storage.rs:484-487); the code overwrites them and parks the upload. The
  model follows the code.

## Assumptions

- Each store transaction is atomic, and a failed one changes nothing.
- Other writers keep to fewer than 2^32 aliases that sort below U+10FFFF, the range scanned.
- A row that carries a parked upload still parses. A JSON parser may limit how deep arrays and
  objects nest; `RegistryRows.CarriedRowNestsExactly` says when parking stays within a limit.
- One publisher runs at a time, and the sidecars it reads stay as they are during a reload.
- The condition variable behaves as written at the head of `Admission.dfy`.
- A file read returns at least one byte until end of file, and file operations of the logger
  succeed.

## Model

| member | source | states |
|---|---|---|
| `RegistryRows.CarryRoundTrip` | core-host/src/system_storage.rs:943-962 | Parking an unmarked upload in a row and taking it out again gives back the upload; ownership and every other field of the row stay |
| `RegistryRows.CarriedRowNestsExactly` | core-host/src/system_storage.rs:943-951 | A row carrying an upload stays within a nesting limit if and only if the row does without it and the upload stays one level below |
| `RegistryRows.ConfiguredRowMarker` | core-host/src/system_storage.rs:371-405 | A published row reads as config-owned unless its sidecar replaces `source`, and holds something aside only if its sidecar says so |
| `RegistryRows.ConfiguredRowMetadata` | core-host/src/system_storage.rs:997-1038 | Reading a published row back recovers the sidecar's metadata without the fixed fields, and the engine label unless the sidecar replaces it |
| `RegistryRows.PublishedRowIsCurrent` | core-host/src/system_storage.rs:1017-1038 | Any published row, with or without a parked upload, is judged current under a path if and only if it shows that path's engine label and, as metadata, what the sidecar there declares now |
| `RegistryRows.CurrentRowIsRewrittenExactly` | core-host/src/system_storage.rs:1071-1090 | A row judged current is the row publishing that path would write if and only if it was published for that path, or its sidecar declared the path shown, and the fixed fields its sidecar declares repeat the row's own |
| `RegistryRows.CurrentUnderAnotherPath` | core-host/src/system_storage.rs:1071-1090 | An input on which it is not |
| `RegistryRows.UnchangedRowIsCurrentExactly` | core-host/src/system_storage.rs:1017-1038 | While nothing changes, a row is judged current if and only if its sidecar declares no fixed field and agrees with what a parked upload shows |
| `RegistryRows.UnchangedRowReadsStale` | core-host/src/system_storage.rs:1017-1038 | Two inputs on which a row nobody touched is judged stale |
| `RegistryRows.UploadRowMarker` | core-host/src/system_storage.rs:1222-1231 | An upload's row carries the publisher's marker if and only if its artifact's own sidecar declares it |
| `RegistryRows.WhitespaceExactly` | core-host/src/system_storage.rs:456-457 | White space is the twenty-five characters of the Unicode property White_Space |
| `RegistryRows.TrimMeaning` | core-host/src/system_storage.rs:456-457 | Trimming a path takes off exactly the white space at both ends |
| `RegistryRows.EngineLabelMeaning` | core-host/src/system_storage.rs:456-474 | The engine label is the text before the first colon of the trimmed path, and without a colon `mock` or `local` |
| `RegistryRows.SidecarMeaning` | core-host/src/system_storage.rs:427-448 | A mock has no sidecar; any other path has the one of the directory it names, without surrounding white space and without the engine prefix |
| `RegistryRows.PublishableMeaning` | core-host/src/system_storage.rs:500-502 | A binding is published if and only if it is static and its path has a character that is not white space |
| `RegistryTable.RefusedExactly` | core-host/src/system_storage.rs:693-900 | An upload or guest operation is answered with an error if and only if a guest offers a value that carries the marker or the operation is aimed at a config-owned row |
| `RegistryTable.AcceptedStepTakesEffect` | core-host/src/system_storage.rs:693-900 | Every accepted upload, write, delete, compare and batch entry is there afterwards; of a batch's entries for one key the last, and nothing if a compare found other bytes |
| `RegistryTable.UploadEventExactly` | core-host/src/system_storage.rs:1212-1232 | An upload event is turned down before the table is touched if and only if a name is blank or the artifact's sidecar cannot be read |
| `RegistryTable.CompareIsGuardedWrite` | core-host/src/system_storage.rs:777-867 | A compare-and-set or compare-and-delete that finds the expected bytes is the plain guest write or delete, otherwise nothing, and is refused exactly when that write would be |
| `RegistryTable.BatchUpdateMeaning` | core-host/src/store/mod.rs:1332-1369 | The batch transaction aborts if and only if some key is config-owned, and otherwise equals the single writes in order |
| `RegistryTable.BatchAtomicity` | core-host/src/system_storage.rs:876-900 | A guest batch is refused, without effect, if and only if a value is forged or a key owned; otherwise it equals the single guest writes one after another, repeats included |
| `RegistryTable.ApplyGuestBatch` | core-host/src/system_storage.rs:876-900 | The two loops of the batch compute that result |
| `RegistryTable.BatchUpdateFrame` | core-host/src/store/mod.rs:1332-1369 | A committed batch changes no ownership and touches only its own keys |
| `RegistryTable.ForeignStepRespectsOwnership` | core-host/src/system_storage.rs:693-926 | Any upload or guest step aimed at an owned row is refused and leaves the table as it was; a row becomes owned if and only if the step is an upload of a marked row to an unowned alias |
| `RegistryTable.ForeignRunRespectsOwnership` | core-host/src/system_storage.rs:693-926 | Over any run of foreign steps owned rows stand unchanged, and a row becomes owned if and only if some upload of the run mints it |
| `RegistryTable.OwnedRowsChangeOnlyByPublisher` | core-host/src/system_storage.rs:693-983 | In any interleaving at all, a config-owned row that ends up different was changed by a publisher or withdrawal step aimed at it, and stood unchanged until then |
| `RegistryTable.UploadOwnershipExactly` | core-host/src/system_storage.rs:1212-1254 | An upload event changes no alias's ownership if and only if its alias is owned already or its artifact's sidecar does not declare the marker |
| `RegistryTable.MintedUploadIsSwept` | core-host/src/system_storage.rs:1212-1254 | An upload that does is refused its own updates, and the next sweep deletes it or replaces it by what its sidecar declared under the parking key |
| `RegistryTable.MintedUploadIsLost` | core-host/src/system_storage.rs:1222-1231 | An input on which an accepted upload is gone after the next sweep |
| `RegistryOverlay.BatchRefines` | core-host/src/system_storage.rs:876-900 | A committed batch rewrites the upload layer entry by entry and leaves the config layer |
| `RegistryOverlay.CarriedRow` | core-host/src/system_storage.rs:595-623 | A publisher value written over any row shows the new configuration, and keeps the upload, visible or parked, if and only if the value is safe beside it |
| `RegistryOverlay.PublisherRowAfter` | core-host/src/system_storage.rs:537-664 | Whatever a row held: the configuration each publisher step leaves, and that it keeps the upload if and only if it is safe; sweeps and withdrawals always are |
| `RegistryOverlay.PublisherStepRefines` | core-host/src/system_storage.rs:537-677 | A publisher transaction is a step of the two-layer overlay if and only if it is safe, on every table |
| `RegistryOverlay.ForeignStepRefines` | core-host/src/system_storage.rs:693-900 | Every guest transaction is a step of the overlay, and an upload is if and only if it does not mint its alias, on every table |
| `RegistryOverlay.StepRefinesOverlay` | core-host/src/system_storage.rs:492-1170 | Exactly the safe transactions of the one-table registry are steps of the two-layer overlay |
| `RegistryOverlay.OneLayerPerStep` | core-host/src/system_storage.rs:492-1170 | Overlay steps of the publisher move only the config layer, foreign ones only the upload layer |
| `RegistryOverlay.RunRefinesOverlay` | core-host/src/system_storage.rs:492-1170 | In every run, from any table, the overlay is followed exactly where the steps are safe |
| `RegistryOverlay.StepKeepsUploadExactly` | core-host/src/system_storage.rs:595-664 | One step keeps the upload of an alias foreign steps leave alone if and only if it is safe or aimed elsewhere |
| `RegistryOverlay.UploadSurvivesReloads` | core-host/src/system_storage.rs:595-664 | Over any run of reloads an alias foreign steps leave alone keeps its upload throughout if and only if every publisher step aimed at it is safe, and then shows it whenever no binding claims the alias |
| `RegistryOverlay.SafeWritesKeepUpload` | core-host/src/system_storage.rs:595-664 | A condition on the written values alone that keeps the upload over any run |
| `RegistryOverlay.PublishKeepsUploadExactly` | core-host/src/system_storage.rs:567-630 | Publishing over any row keeps the upload if and only if the sidecar leaves the marker alone and the upload parses, or there is none and the sidecar does not declare the parking key |
| `RegistryOverlay.UnparsableUploadIsLost` | core-host/src/system_storage.rs:943-951 | A row that is not JSON is displaced by a publication and does not come back when the binding leaves |
| `RegistryScan.PageReports` | core-host/src/system_storage.rs:1196-1203 | Page k reports exactly the config-owned rows ranked k·PAGE to (k + 1)·PAGE in the table it is read from |
| `RegistryScan.RankIsIndex` | core-host/src/store/mod.rs:1398-1425 | A row's rank, the number of smaller keys, is its position in a range read |
| `RegistryScan.ScanReports` | core-host/src/system_storage.rs:1182-1209 | The scan returns exactly the aliases that were config-owned and on page k when page k was read, for some k |
| `RegistryScan.ScanTurn` | core-host/src/system_storage.rs:1189-1208 | One turn of the offset loop adds exactly its page, and goes on below the 32-bit limit or ends the scan on a short page |
| `RegistryScan.CompleteIsUnique` | core-host/src/system_storage.rs:1203-1207 | The schedule alone decides how many pages are read |
| `RegistryScan.MissNeedsSlide` | core-host/src/system_storage.rs:1189-1208 | A row that is there throughout and on no page was moved by deletions from behind the boundary of pages k - 1 and k to before it, between the two reads |
| `RegistryScan.GrowingScanSees` | core-host/src/system_storage.rs:1189-1208 | If no row leaves between pages, every row that is there throughout is on some page, whatever is added |
| `RegistryScan.ShrinkingScanMissesExactly` | core-host/src/system_storage.rs:1189-1208 | If no row is added between pages, a row is missed if and only if it slides past a page boundary |
| `RegistryScan.NoDeletionNoRowLeaves` | core-host/src/system_storage.rs:693-900 | Uploads, guest writes, batches and compare-and-sets between the pages let no row leave: only a deletion can |
| `RegistryScan.StableScanReportsOnce` | core-host/src/system_storage.rs:1182-1209 | If no row comes or goes between pages, no alias is reported twice |
| `RegistryPublisher.ExpectedMeaning` | core-host/src/system_storage.rs:503-536 | The layer a manifest describes has a row for exactly the aliases claimed by a static binding whose path is not blank and whose sidecar is readable, and it is the last such binding's |
| `RegistryPublisher.PathsMeaning` | core-host/src/system_storage.rs:1058-1066 | The withdrawal pass looks at exactly the aliases some static binding with a path claims, each with the path of the last binding that does |
| `RegistryPublisher.PassedMeaning` | core-host/src/system_storage.rs:1068-1170 | In terms of the two manifests' bindings: a config-owned row is left as it was if the last claim of the alias is the same in both and the row is current, and is reserved otherwise |
| `RegistryPublisher.ExpectedIsServed` | core-host/src/system_storage.rs:371-405 | No row of that layer is withdrawn, and each is config-owned if and only if its sidecar leaves the marker alone |
| `RegistryPublisher.RefreshSetsConfig` | core-host/src/system_storage.rs:595-630 | Whatever the row held, a refresh makes it owned exactly when the value is marked, saying what the value says |
| `RegistryPublisher.SweepReleases` | core-host/src/system_storage.rs:637-677 | A sweep leaves its alias unowned and every other owned row alone |
| `RegistryPublisher.WithdrawReserves` | core-host/src/system_storage.rs:1139-1162 | A withdrawal leaves a foreign row alone and otherwise leaves a reservation |
| `RegistryPublisher.ForeignRunFrame` | core-host/src/system_storage.rs:693-926 | Between two host transactions owned rows stand unchanged and only minted aliases become owned |
| `RegistryPublisher.HoldsAppend` | core-host/src/system_storage.rs:503-630 | Publishing one more binding keeps the earlier bindings' rows and adds its own; a repeated alias takes the later binding |
| `RegistryPublisher.ScanReportsOwned` | core-host/src/system_storage.rs:1182-1209 | Outside minted aliases the scan returns exactly the config-owned aliases it saw |
| `RegistryPublisher.Reconciles` | core-host/src/system_storage.rs:492-678 | After publish, scan and sweep the manifest's rows are in place, and a stale row is still owned if and only if its rank was on no page when that page was read |
| `RegistryPublisher.ReconciledExactly` | core-host/src/system_storage.rs:492-678 | So the config layer is the manifest's if and only if every stale row was on a page when it was read |
| `RegistryPublisher.ReconciledIfGrowing` | core-host/src/system_storage.rs:492-678 | And it is whenever no row leaves between two pages |
| `RegistryPublisher.ReloadKeepsUpload` | core-host/src/system_storage.rs:595-664 | Any mixture of withdrawals, publications, sweeps and foreign steps keeps the upload of an alias foreign steps leave alone, if the manifest's rows for it are safe beside that upload |
| `RegistryPublisher.SealedExtends` | core-host/src/system_storage.rs:1053-1170 | A sealed alias stays sealed through steps that change no owned row of it |
| `RegistryPublisher.SealHolds` | core-host/src/system_storage.rs:1041-1170 | Until publication, no run of uploads and guest writes takes a sealed config-owned alias or changes its row |
| `RegistryHosts.RegistryHost.Begin` | core-host/src/store/mod.rs:1223-1263 | Other writers' commits become visible before each transaction and change no owned row |
| `RegistryHosts.RegistryHost.Apply` | core-host/src/store/mod.rs:1223-1263 | A commit advances the table by exactly one step, and the table stays the run of the logged steps |
| `RegistryHosts.RegistryHost.InsertBinding` | core-host/src/system_storage.rs:537-566 | The inserting transaction writes the row only if the alias has none, and touches no other owned row |
| `RegistryHosts.RegistryHost.RefreshBinding` | core-host/src/system_storage.rs:595-630 | The refreshing transaction ends with the binding's row over whatever is there by then |
| `RegistryHosts.RegistryHost.PublishBinding` | core-host/src/system_storage.rs:537-630 | Insert-then-refresh in two transactions ends with the binding's row, whatever happens between them, and touches no other owned row |
| `RegistryHosts.RegistryHost.PublishOne` | core-host/src/system_storage.rs:503-630 | One binding: skipped without a transaction, counted as failed on an unreadable sidecar, or published |
| `RegistryHosts.RegistryHost.PublishNext` | core-host/src/system_storage.rs:501-630 | One turn of the inner loop keeps the rows published so far, and counts a failure only for a failed transaction or an unreadable sidecar |
| `RegistryHosts.RegistryHost.PublishRoute` | core-host/src/system_storage.rs:501-630 | The inner loop publishes a route's bindings on top of the earlier ones |
| `RegistryHosts.RegistryHost.PublishAll` | core-host/src/system_storage.rs:500-630 | The outer loop publishes the whole manifest, and touches no other owned row |
| `RegistryHosts.RegistryHost.ScanPage` | core-host/src/system_storage.rs:1189-1208 | One turn of the offset loop, page k at offset k·PAGE, under any interference |
| `RegistryHosts.RegistryHost.ScanPages` | core-host/src/system_storage.rs:1182-1209 | The loop ends at the first short page, with the result of the pages it read, or at the first failed read |
| `RegistryHosts.RegistryHost.ConfigOwnedAliases` | core-host/src/system_storage.rs:1182-1209 | Pages are read at 0, PAGE, 2·PAGE up to the first short one, each from the table the schedule has produced by then, and the result is exactly theirs; it fails only if the store does |
| `RegistryHosts.RegistryHost.SweepAlias` | core-host/src/system_storage.rs:645-677 | One stale alias is released, or the failure is reported |
| `RegistryHosts.RegistryHost.SweepNext` | core-host/src/system_storage.rs:645-677 | Aliases swept earlier stay released, unless minted since |
| `RegistryHosts.RegistryHost.SweepStale` | core-host/src/system_storage.rs:637-677 | Without failures, nothing the scan found is owned outside the manifest, and no other owned row is touched |
| `RegistryHosts.RegistryHost.PublishConfiguredBindings` | core-host/src/system_storage.rs:492-678 | With no failure reported every row of the manifest is in place whatever earlier manifests, reservations or failed publications left, the only other owned rows are the stale ones that were on no page when it was read, and there are none if no row leaves between pages; failures are reported only for failed transactions and unreadable sidecars |
| `RegistryHosts.RegistryHost.SettledNow` | core-host/src/system_storage.rs:631-678 | Publish, scan and sweep compose to that result |
| `RegistryHosts.RegistryHost.PublishInTurn` | core-host/src/system_storage.rs:492-678 | Publishing one manifest and then another leaves the layer of the second alone: publication is idempotent and independent of what was published before; it succeeds if no transaction fails and the second manifest's sidecars are readable |
| `RegistryHosts.RegistryHost.ReadCurrent` | core-host/src/system_storage.rs:1017-1023 | The row at the time of the read, or none exactly if there is none or the read fails |
| `RegistryHosts.RegistryHost.WithdrawAlias` | core-host/src/system_storage.rs:1139-1162 | A successful withdrawal of a config-owned alias ends with a reservation, of any other with a reservation or the foreign row it found |
| `RegistryHosts.RegistryHost.WithdrawOne` | core-host/src/system_storage.rs:1087-1170 | Barring a store failure, a config-owned row is left as it was if it is current under an unchanged path and reserved otherwise, and the alias is sealed |
| `RegistryHosts.RegistryHost.WithdrawNext` | core-host/src/system_storage.rs:1070-1170 | One turn of the loop keeps that for the aliases already passed |
| `RegistryHosts.RegistryHost.WithdrawAll` | core-host/src/system_storage.rs:1070-1170 | The loop touches no config-owned row outside the outgoing manifest; barring store failures it spares exactly the current rows under an unchanged path, reserves the other config-owned ones and seals every outgoing alias |
| `RegistryHosts.RegistryHost.WithdrawChangedBindings` | core-host/src/system_storage.rs:1053-1170 | For every pair of manifests: no config-owned row outside the outgoing one is touched; barring store failures the row of each alias it claims last in both with one path is spared if current, and every other one it claims is reserved; and in any case every upload foreign steps leave alone is kept |
| `RegistryHosts.RegistryHost.Attempt` | core-host/src/host_core/supervisors.rs:792-797 | One attempt leaves the registry settled or, with readable sidecars, has met a failed transaction of its own |
| `RegistryHosts.RegistryHost.PublishWithRetry` | core-host/src/host_core/supervisors.rs:781-811 | It stops at the first attempt that reports no failure, which leaves the registry settled, and after three that report some; with readable sidecars it gives up only if at least three transactions fail |
| `RegistryHosts.RegistryHost.HotReload` | core-host/src/host_core/supervisors.rs:704-748 | Withdraw, swap, publish: in every interleaving the registry ends settled with the incoming manifest unless a sidecar is unreadable or at least three transactions fail; and in any case an alias foreign steps leave alone keeps its upload if the manifest's rows for it are safe beside it |
| `RegistryWithdrawals.UnchangedRowIsSparedExactly` | core-host/src/system_storage.rs:1049-1170 | A pass that changes nothing about a binding leaves its row as it was if and only if its sidecar declares no fixed field and agrees with what a parked upload shows, and otherwise withdraws it |
| `RegistryWithdrawals.QuietPass` | core-host/src/system_storage.rs:1053-1170 | A whole pass from a manifest of one binding to itself, without other writers or failures, passes its row as stated |
| `RegistryWithdrawals.PassWithdrawsUnchangedRow` | core-host/src/system_storage.rs:1049-1170 | A whole pass from a manifest to itself, without other writers or failures, that withdraws a row as published |
| `RegistryMiss.DeletionMovesUp` | core-host/src/store/mod.rs:1398-1425 | Deleting a key moves every key behind it one rank up |
| `RegistryMiss.TwoPagesMiss` | core-host/src/system_storage.rs:1189-1208 | Any scan of two pages during which a row slides past the boundary does not see it |
| `RegistryMiss.PublicationLeavesStaleRow` | core-host/src/system_storage.rs:489-678 | A whole publication, no transaction of which fails, that reports zero failures and leaves a stale configured row |
| `RegistryListing.WrittenIsRead` | examples/guest-openai/src/lib.rs:543-571 | What the host writes a guest reads back field by field, and reads nothing at all if and only if the sidecar declares one of the fields the guest looks for beside the host's own |
| `RegistryListing.ParkedIsIgnored` | examples/guest-openai/src/lib.rs:543-571 | Parking an upload in a row changes nothing a guest reads of it |
| `RegistryListing.PublishedReads` | core-host/src/system_storage.rs:476-630 | On every table and for every sidecar, whether a guest can read the row just published, and its alias, engine, status, owner and dialect if so |
| `RegistryListing.SettledReads` | core-host/src/system_storage.rs:492-678 | After a publication without failures, a guest that can read the row of an alias reads the last binding that claims it |
| `RegistryListing.UploadReads` | core-host/src/system_storage.rs:1222-1233 | An uploaded model reads back under its own alias and engine, unless its sidecar declares one of the host's fields |
| `RegistryListing.GuestSeesOwner` | examples/guest-openai/src/lib.rs:583-607 | Guest and host agree on who owns a row the guest can read |
| `RegistryListing.ReservedIsHidden` | examples/guest-openai/src/lib.rs:2430-2444 | A reserved alias is not listed while a reload is under way |
| `RegistryListing.ListingExactly` | examples/guest-openai/src/lib.rs:2430-2444 | A model is listed if and only if one of the first ten thousand rows of the table reads as it and is not withdrawn |
| `KeyOrder.SortedKeys` | core-host/src/store/mod.rs:1398-1425 | Range reads see each key once, in ascending order |
| `KeyOrder.AscendingIsUnique` | core-host/src/store/mod.rs:1398-1425 | There is only one such order |
| `Admission.StepKeepsInv` | core-host/src/ai_inference.rs:314-355 | Every critical section of every call keeps the invariant: each counter is the number of live guards, and free slots beside a sleeper are covered by pending notifications or woken calls |
| `Admission.RunKeepsInv` | core-host/src/ai_inference.rs:314-593 | The invariant holds in every reachable state |
| `Admission.NotifyKeepsGate` | core-host/src/ai_inference.rs:348-355 | Notifying after the decrement, with the lock released, loses no wakeup |
| `Admission.MoveKeepsGate` | core-host/src/ai_inference.rs:314-355 | Taking, refusing, sleeping, waking and releasing keep the counter honest at every gate |
| `Admission.FirstEntryWins` | core-host/src/ai_inference.rs:472-508 | However many calls race to load an alias, the first registry entry is never replaced |
| `Admission.AliasWithinLimit` | core-host/src/ai_inference.rs:571-593 | In every reachable state at most `limit` calls of an alias execute, all under the registered gate, whose counter is their number |
| `Admission.DropNeverSaturates` | core-host/src/ai_inference.rs:348-355 | The saturating decrement never saturates |
| `Admission.SleeperIsServed` | core-host/src/ai_inference.rs:314-355 | A call never sleeps beside a free slot without at most two pending steps that put a waiting call in it |
| `Admission.RejectedOnlyLateAndFull` | core-host/src/ai_inference.rs:269-345 | A call is rejected only after its whole wait and at a moment its gate was full; a real-time call never sleeps |
| `Admission.CheckDecides` | core-host/src/ai_inference.rs:314-345 | In every reachable state a call at the gate is let in if and only if a slot is free, turned away if and only if none is and 0, 15 or 30 seconds have passed by its class, and sleeps if and only if none is and they have not; nothing else changes |
| `Admission.SleptOnlyEarlyAndFull` | core-host/src/ai_inference.rs:314-345 | A sleeping call went to sleep before its wait was over, at a full gate, and has not moved since |
| `Admission.LateCallNeverSleeps` | core-host/src/ai_inference.rs:314-345 | A call that checks the gate after its wait never sleeps again: at every later moment it is still at that check or has been answered |
| `Admission.LateSleeperIsAnswered` | core-host/src/ai_inference.rs:328-345 | Once its wait is over, any sleeper's own wakeup lets it in or turns it away, with nobody's help |
| `Admission.VisitLeavesNoTrace` | core-host/src/ai_inference.rs:314-355 | A call that finds a free slot goes straight in, and when nobody waits a whole visit leaves every counter as it was |
| `Admission.FirstCallLoads` | core-host/src/ai_inference.rs:472-593 | The first call of an unknown alias registers it behind a gate of its own and enters it |
| `Admission.RejectionMoment` | core-host/src/ai_inference.rs:314-345 | The run has a state, at the recorded time, in which the gate of a rejected call was full |
| `TurboQuant.NearestCode` | turboquant-sys/src/lib.rs:87-99 | The code returned is a level no farther than any other, and the first such |
| `TurboQuant.MoveBit` | turboquant-sys/src/lib.rs:109-116 | One bit of the code is moved to one position of an otherwise zero byte |
| `TurboQuant.WriteBit` | turboquant-sys/src/lib.rs:109-116 | OR-ing it in appends one bit to the stream and disturbs none |
| `TurboQuant.WriteCode` | turboquant-sys/src/lib.rs:109-117 | The inner loop appends the code's bits |
| `TurboQuant.PackNearest` | turboquant-sys/src/lib.rs:106-118 | The bytes hold the nearest codes of all values, in order, with zero padding |
| `TurboQuant.AppendBit` | turboquant-sys/src/lib.rs:109-116 | Appending in place leaves all other bits of all bytes as they were |
| `TurboQuant.ShiftRightIsShift` | turboquant-sys/src/lib.rs:180-182 | The model's shift by cases is the machine shift of the window |
| `TurboQuant.CodeMaskIsShift` | turboquant-sys/src/lib.rs:181 | The model's mask is the one computed from the bit rate |
| `TurboQuant.UnpackedBits` | turboquant-sys/src/lib.rs:166-183 | The 16-bit window reads exactly the value's own bits, also across a byte boundary and in the last byte |
| `TurboQuant.UnpackReadsWrittenCode` | turboquant-sys/src/lib.rs:102-183 | Reading value i returns exactly the code written for value i |
| `TurboQuant.PackedLenCovers` | turboquant-sys/src/lib.rs:77-85 | The packed length holds all bits and wastes less than a byte |
| `TurboQuant.CompressValues` | turboquant-sys/src/lib.rs:102-121 | Every value is stored as its nearest code where the window reads it, padding is zero, and other bit rates are refused |
| `TurboQuant.DecompressValuesSparse` | turboquant-sys/src/lib.rs:126-164 | The error for each malformed call in the source's order, and otherwise the decoded level or zero at every position |
| `TurboQuant.NearestWithinHalfGap` | turboquant-sys/src/lib.rs:87-99 | Between two neighbouring levels the nearest is within half their gap |
| `TurboQuant.DecodedIsNearest` | turboquant-sys/src/lib.rs:102-164 | Decoding a compressed vector gives, where attention reaches the threshold, a level nearest to the input, within half the largest gap for inputs in [-1, 1], and zero elsewhere |
| `TurboQuant.CompressedIsUnique` | turboquant-sys/src/lib.rs:102-121 | A vector has only one compressed form |
| `TurboQuant.RecompressionExactly` | turboquant-sys/src/lib.rs:102-164 | The compressed form of a fully decoded vector equals the bytes it was decoded from if and only if their padding was zero |
| `TurboQuant.LevelIsItsOwnNearest` | turboquant-sys/src/lib.rs:17-29 | Every level of both codebooks is its own nearest level |
| `Outbox.OutboxTable.constructor` | core-host/src/data_events.rs:117-126 | A loaded table is its stored events with nothing done since |
| `Outbox.OutboxTable.EnqueueEvent` | core-host/src/data_events.rs:34-52 | After any history the pending payloads are those of a plain queue, to which the new one has been added last, unclaimed |
| `Outbox.OutboxTable.ClaimEvents` | core-host/src/data_events.rs:54-88 | An event is stamped if and only if it is unclaimed or was claimed thirty seconds ago or more, and fewer than the maximum before it are; the deliveries are exactly the payloads of these, in table order; the others are untouched, and the queue of payloads is as it was |
| `Outbox.OutboxTable.ClaimLoop` | core-host/src/data_events.rs:66-85 | The in-place loop with its early exit computes that claim |
| `Outbox.OutboxTable.AckEvent` | core-host/src/data_events.rs:90-95 | Exactly the events with the id leave the queue, order kept |
| `Outbox.OutboxTable.PendingCount` | core-host/src/data_events.rs:98-101 | After any history of operations, the length of the plain queue: events stored or enqueued and not acknowledged since |
| `Outbox.ClaimIsExact` | core-host/src/data_events.rs:7-88 | Event by event: stamped and delivered in its turn if due and among the first due ones, otherwise as it was; as many deliveries as there are due events, up to the maximum |
| `Outbox.DueIsDelivered` | core-host/src/data_events.rs:7-88 | A due event within the first `max` of the table is delivered, and only payloads of due events are |
| `Outbox.AckRemovesExactly` | core-host/src/data_events.rs:90-95 | An acknowledgement removes every event with the id and no copy of any other |
| `Outbox.ClaimedEvents` | core-host/src/data_events.rs:68-85 | A claim only stamps events whose lease allows it |
| `Outbox.OutboxRefinesQueue` | core-host/src/data_events.rs:34-95 | Over any run the pending payloads are those of a plain queue: an event stays, unaltered and in order, until acknowledged |
| `Outbox.DeliveredIsStamped` | core-host/src/data_events.rs:68-85 | What a claim delivers was available and is stamped with the claim's time |
| `Outbox.ClaimsAreALeaseApart` | core-host/src/data_events.rs:7-88 | Any two claims that deliver one event read clocks at least a lease apart, even if the clock steps back in between |
| `Outbox.LeaseHolds` | core-host/src/data_events.rs:54-95 | After a delivery the event stays stamped no earlier than that delivery, through any operations |
| `Outbox.ClaimInWindow` | core-host/src/data_events.rs:68-85 | Inside a lease window every delivery is of an event new to the window, and a claim delivers its maximum of them unless it delivers everything available |
| `Outbox.UndeliveredBound` | core-host/src/data_events.rs:54-88 | Claims for as many events as the table holds always suffice for a drain, and none are needed exactly when everything was claimed in the window |
| `Outbox.StampedIsDelivered` | core-host/src/data_events.rs:76-81 | What a claim stamps it delivers |
| `Outbox.DeliveriesInWindow` | core-host/src/data_events.rs:54-88 | Over any claims inside a window the deliveries are as many as the events that come to be claimed in it, and each such event is among them |
| `Outbox.ClaimsDrainOutbox` | core-host/src/data_events.rs:54-88 | Claims inside one lease window, enough for the undelivered events, deliver everything that was unclaimed, or claimed thirty seconds before or more, when it began |
| `UploadStream.ChunksAreTheData` | tachyon-client/src/lib.rs:4317-4365 | The chunks in order are the data |
| `UploadStream.ChunkSizes` | tachyon-client/src/lib.rs:4317-4365 | No chunk is empty and all but the last are full |
| `UploadStream.Extend` | tachyon-client/src/lib.rs:4349-4358 | Bytes that fit the open chunk extend it and close it exactly when they fill it |
| `UploadStream.ChunkSenderWriter.constructor` | tachyon-client/src/lib.rs:4318-4323 | A writer starts with nothing written |
| `UploadStream.ChunkSenderWriter.SendChunk` | tachyon-client/src/lib.rs:4339-4343 | A chunk is accepted unless the receiver is gone |
| `UploadStream.ChunkSenderWriter.Fill` | tachyon-client/src/lib.rs:4349-4358 | One turn of the write loop keeps sent chunks and buffer the canonical cut of what was written |
| `UploadStream.ChunkSenderWriter.Write` | tachyon-client/src/lib.rs:4347-4361 | All bytes are taken, whatever their number, unless they complete a chunk after the receiver is gone; then only the chunks before it were sent |
| `UploadStream.ChunkSenderWriter.Finish` | tachyon-client/src/lib.rs:4325-4331 | It succeeds exactly if the receiver takes all chunks, and then the channel has seen the whole of what was written |
| `UploadStream.StepKeepsInv` | tachyon-client/src/lib.rs:4230-4281 | Every step of producer, channel and consumer keeps the protocol invariant, failures and panics included |
| `UploadStream.RunKeepsInv` | tachyon-client/src/lib.rs:4230-4281 | The invariant holds over whole runs |
| `UploadStream.CommitMeansWholeArchive` | tachyon-client/src/lib.rs:4230-4281 | A commit is issued only if parts 1 to n, in order, are exactly the whole archive |
| `UploadStream.ProducerIsWriter` | tachyon-client/src/lib.rs:4232-4241 | Whenever its buffer is not full, the producer of the protocol has sent and holds what a writer has after the same bytes |
| `UploadStream.SomeRunEnds` | tachyon-client/src/lib.rs:4230-4281 | From every state some run ends both tasks, and commits if nothing had failed: neither the bounded channel nor any pattern of write sizes or failures can block the upload |
| `UploadStream.ChannelIsBounded` | tachyon-client/src/lib.rs:4230-4281 | In every run the channel holds at most two messages, and nothing enters it once the consumer is gone |
| `UploadStream.TasksAreSequential` | tachyon-client/src/lib.rs:4230-4281 | Failures of the archive and the server apart, no state leaves producer or consumer a choice |
| `UploadStream.FailureNeverCommits` | tachyon-client/src/lib.rs:4230-4281 | A producer at work may fail or panic at any moment, and no run commits an upload after that |
| `UploadStream.CompleteMeansAllFed` | tachyon-client/src/lib.rs:4230-4281 | In every run a producer that exits complete has fed the whole archive, whatever became of the consumer |
| `UploadStream.EveryArchiveCanCommit` | tachyon-client/src/lib.rs:4230-4281 | So every archive can be uploaded, and its parts are then the archive |
| `TlsSingleFlight.OneWorkerPerDomain` | core-host/src/tls_runtime.rs:187-194 | Two calls of one domain never hold its lock together |
| `TlsSingleFlight.StepKeepsInv` | core-host/src/tls_runtime.rs:129-180 | Every step of every call, cancellation included, keeps the invariant |
| `TlsSingleFlight.RunKeepsInv` | core-host/src/tls_runtime.rs:129-194 | The invariant holds in every reachable state |
| `TlsSingleFlight.SingleFlight` | core-host/src/tls_runtime.rs:129-180 | At most one call per domain is between the second cache check and the cache insert |
| `TlsSingleFlight.CacheIsWriteOnce` | core-host/src/tls_runtime.rs:129-180 | A cached configuration is never replaced and its domain never provisioned again |
| `TlsSingleFlight.OneConfigPerDomain` | core-host/src/tls_runtime.rs:129-180 | Once a call has returned a configuration, every later or waiting call of the domain returns the same object with no further provisioning |
| `TlsSingleFlight.ProvisionsBounded` | core-host/src/tls_runtime.rs:129-180 | A domain is provisioned at most once more than attempts for it have failed |
| `TlsSingleFlight.AnswersStand` | core-host/src/tls_runtime.rs:129-180 | A call that has its answer keeps it |
| `TlsSingleFlight.WaitsForOwnDomainOnly` | core-host/src/tls_runtime.rs:146-194 | In every reachable state a waiting call can go in if and only if no call of its own domain is inside: domains do not block each other, and a dropped call blocks nobody |
| `TlsSingleFlight.CachedIsAnsweredAtOnce` | core-host/src/tls_runtime.rs:134-143 | A cached domain is answered at the first look, with no lock and no load |
| `TlsSingleFlight.RunKeepsStore` | core-host/src/tls_runtime.rs:85-180 | In every interleaving in which certificates name the domain they were obtained for, a call builds only from what is stored, and looks elsewhere only while nothing is |
| `TlsSingleFlight.RestartServesTheSame` | core-host/src/tls_runtime.rs:85-180 | As long as every certificate names the domain it was obtained for, the material behind every returned configuration is what the store holds for its domain, then and ever after |
| `TlsSingleFlight.BackedExactlyWhenNamed` | core-host/src/tls_runtime.rs:155-260 | After a call obtains a certificate the store backs its configuration if and only if the certificate names the domain, or the same one was stored meanwhile |
| `LogRotation.EnablesMeaning` | tachyon-ui/src/app_config.rs:148-161 | An event is written if and only if it is no less severe than the minimum in the order of the levels, and neither is `off` |
| `LogRotation.RotatingStep` | tachyon-ui/src/app_logging.rs:118-165 | Renaming from the highest index down overwrites no file still to be moved |
| `LogRotation.AppLogger.constructor` | tachyon-ui/src/app_logging.rs:38-58 | A logger on an empty directory satisfies the invariant |
| `LogRotation.AppLogger.RotateIfRequired` | tachyon-ui/src/app_logging.rs:118-165 | Every file moves up one index and only the oldest retained one goes if and only if the current file is not empty and the entry would take it beyond the limit; otherwise nothing changes |
| `LogRotation.AppLogger.Write` | tachyon-ui/src/app_logging.rs:72-116 | Any run of writes keeps the files a contiguous suffix of the emitted entries, in order and unsplit, without index gaps, within the retention, each file within the limit unless it is one entry, and none rotated out that had room for the entry that begins the next |
| `LogRotation.WrittenFiles` | tachyon-ui/src/app_logging.rs:72-165 | The files after a write, with or without a rotation, hold whole entries within the limits |
| `LogRotation.WrittenEntries` | tachyon-ui/src/app_logging.rs:72-165 | The entries kept after a write are a suffix of the entries emitted |
| `Safetensors.LittleEndianRoundTrip` | core-host/src/server_h3.rs:333-352 | A header field reads back as written |
| `Safetensors.ChunkRoundTrip` | core-host/src/server_h3.rs:333-371 | A chunk decodes to exactly the offset and payload encoded, in every zone it fits |
| `Safetensors.ChunkDecodes` | core-host/src/server_h3.rs:333-371 | For every well-formed chunk and every zone: its place and payload if the zone has room, and otherwise which refusal |
| `Safetensors.RefusedIsNoChunk` | core-host/src/server_h3.rs:343-362 | The bytes refused for their header or their length field are exactly those no encoder produces |
| `Safetensors.ApplyChunk` | core-host/src/server_h3.rs:343-371 | The zone is overwritten at exactly the chunk's range; a rejected chunk writes nothing and the error is the first check that fails |
| `Safetensors.SafetensorsChunks` | core-host/src/server_h3.rs:374-396 | For every read pattern the chunks are consecutive, non-empty, within the size limit and carry every byte for its own place |
| `Safetensors.AppliedAt` | core-host/src/server_h3.rs:343-371 | After any arrivals a byte is the file's exactly where some arrival carries it, and untouched elsewhere |
| `Safetensors.ReassemblyIsExact` | core-host/src/server_h3.rs:333-396 | Chunks applied in any order with any repeats to any zone of the file's length rebuild the file |
| `Topology.CountTypes` | tachyon-client/src/lib.rs:1357-1366 | Pass 1 counts each type as often as it occurs |
| `Topology.AddBand` | tachyon-client/src/lib.rs:1405-1411 | One turn of the layout loop gives the next type its band, replacing an earlier one if the type is listed again |
| `Topology.BuildLayout` | tachyon-client/src/lib.rs:1401-1416 | Exactly the listed types that have nodes get a band, starting where the bands of all earlier entries end; of several entries the last counts |
| `Topology.Position` | tachyon-client/src/lib.rs:1418-1431 | The next node of a type gets the next cell of its band |
| `Topology.PlaceNext` | tachyon-client/src/lib.rs:1373-1382 | One turn of pass 2 gives a node the cell of its rank among its type |
| `Topology.LayOut` | tachyon-client/src/lib.rs:1368-1383 | For every type list, every node gets the cell of its rank among its type; with a list that repeats none, no coordinate leaves the 32-bit range within the stated number of nodes |
| `Topology.NodeInBand` | tachyon-client/src/lib.rs:1393-1431 | A node of a listed type lies inside the rows of its type |
| `Topology.BandIsFilled` | tachyon-client/src/lib.rs:1401-1431 | No row is wasted: every cell of every row of a band but the last, and the first cell of that, holds a node of the band's type |
| `Topology.BandsAreOrdered` | tachyon-client/src/lib.rs:1393-1431 | Every row of an earlier type is above every row of a later one |
| `Topology.UnlistedTypeOverlaps` | tachyon-client/src/lib.rs:1425-1431 | A type without a band beside any other type puts two nodes on one place |
| `Topology.ListedTypesApart` | tachyon-client/src/lib.rs:1393-1431 | For every type list, two nodes of listed types never share a place |
| `Topology.NoOverlapExactly` | tachyon-client/src/lib.rs:1393-1431 | With a type list that repeats none, no two nodes share a place if and only if every type is listed or there is only one type |
| `Topology.ConsoleGraphNeverOverlaps` | tachyon-client/src/lib.rs:1128-1137 | The console's own type list gives pairwise distinct places |
| `Topology.CoordinatesFit` | tachyon-client/src/lib.rs:1418-1431 | There are no more rows than nodes, so no coordinate wraps around within the stated number of nodes |

## Left out

- The raw admin key-value endpoints (core-host/src/host_core/admin_plane.rs:330-349), which write the registry table without the ownership rule.
- Guest writes to tables other than the registry.
- RegistryRows.CarryRoundTrip: takes it that the re-encoded row parses; the nesting limit of the JSON parser is outside the repository, and only its exact effect on a carried row is stated.
- JSON text, the embedded database, sidecar file reading and S3 flushing: rows are parsed values, transactions are atomic, and a sidecar is a function of the path.
- WASM instantiation, HTTP proxying, model execution and lock poisoning.
- The shared memory of the admission gate and of the TLS cache: both are state machines over values, so fields updated in place under a mutex are not modelled as heap objects.
- Queue-depth counters of inference, which would only add easy members.
- Fairness of the condition variable: `SleeperIsServed` shows the pending steps, not that a scheduler takes them.
- Concurrent outbox callers: load and save are separate store calls (core-host/src/data_events.rs:42-50), so only serial runs carry the lease guarantee. Key normalisation and store errors of the outbox are also left out.
- 32-bit rounding and NaN of TurboQuant: levels and inputs are reals.
- Compression, hashing, signatures, certificates and the content of archives: bytes are opaque and a configuration is an identity with the certificate it was built from.
- Rotations already present when the logger starts, and their pruning (tachyon-ui/src/app_logging.rs:184-241).
- LogRotation.AppLogger.Write: the size limit is stated for limits below 2^64 - 1 bytes, where the source's saturating sum is exact.
- Domain-name normalisation and priming of the TLS cache while serving; a certificate is a name and a serial.
- Labels, edges and data of topology nodes.
- Topology.LayOut: coordinates are exact integers, so wrap-around of the 32-bit ones beyond 15,339,168 nodes is not modelled.
- Rate limiting, resiliency layers, bridge relays, audit, canary, user interface, release scripts and example guests.
