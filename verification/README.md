# A model of the monitoring stack's state and algorithms

This project models the parts of the SNMP monitoring stack that carry state or compute something, and
proves properties of them for all inputs, all interleavings and all runs.

* **The `devices` table and everything that writes it.** `DeviceTable` gives each SQL statement as one
  atomic function on a table value (rows in id order, an AUTOINCREMENT counter, NULL cells, the UNIQUE and
  CHECK constraints). `DeviceStore` is the store object, with the loop that compiles a map of updates into an
  UPDATE statement. `Gateway`, `DiscoverySweep`, `HealthCheck` and `ConfigApi` are the four programs
  over it. `SweepExact` and `SweepOrder` say what one sweep achieves, `SweepFixpoint` what repeated sweeps do,
  `StatusAgreement` that the writers of `status` agree with the health check, `Interleaving` what holds when all
  of them take steps in any order and any statement may fail, and `Uninterrupted` that both views agree: an
  actor of the machine that nobody disturbs can finish as the sequential program does, and does so whenever it finishes.
* **From the table to Telegraf.** `TelegrafGen` compiles active rows into a configuration document,
  `Reconcile` is the write-if-changed and reload protocol, over whole runs and with failures.
* **The chat API.** `RateLimiter`, `CounterRate` (the Counter32 query), `MetricQuery` (the query printer, a
  parser, and what a parsed query means), `Ranking` (the in-place sort) and `Chat` (the tool-calling loop against an arbitrary model).
* **Traps.** `Oid` relates dotted-decimal text to sub-identifier sequences; `TrapNames` and `Traps` use it for trap
  identity, names, interfaces and attribution.

Outside behaviour is a parameter. `Snmp.Network` says which client an address answers and what a walk
returns, `Snmp.Key` seals and opens secrets and may fail (assumed only where a lemma says `Sound`: opening undoes
sealing, and a sealed text is not empty), clocks and nonces are arguments, and `World`, `Io`, `Inputs` and `Env`
collect them. Code that updates something in place is a class or a method with loops, proved against
a function whose properties the lemmas state.

## Where the code and its documentation differ

The model follows the code.

* `chat-api/ratelimit.go:8` calls the limiter a fixed window. It is a sliding window
  (`RateLimiter.WindowBound` holds for every instant, not for a grid of windows).
* `chat-api/gemini.go:218-222` says that error text reaches the model. Every failing tool returns an empty result
  with its error, and that result is what is forwarded (`Chat.ToolErrorsReachTheModelEmpty`); no error text has any
  influence on a chat (`Chat.ErrorTextsAreInvisible`).
* `internal/store/devices.go:135-136` says that only non-nil fields are written. A nil value is written as NULL, and the row
  then no longer scans, so every listing fails. `StatusAgreement.PatchKeepsListIff` says exactly when a PATCH does this,
  `StatusAgreement.NullHostnameStopsEverything` follows one such request to the end.
* A row the sweep inserts under a v3 parent does not carry the credentials it was probed with
  (`config-watcher/discovery_sweep.go:129-130`); `StatusAgreement.SweptRowSettledIff` gives the exact condition.
* `active` does not always mean probed (`config-api/handlers/devices.go:273`): `StatusAgreement.ExplicitActiveFalls`.
* A failed reload is not retried (`config-watcher/main.go:140-148`): `Reconcile.StaleUntilTextChanges`.
* The rate query divides by a span that is one interval shorter than the period its bytes cover
  (`chat-api/tools.go:316-317`): `CounterRate.RateOverReports`. The clamp loses every whole 2^32 between two
  samples: `CounterRate.NeverUnderAtAllTimesIff`, `CounterRate.WholeWrapsCountNothing`.
* The enterprise-specific trap text omits the zero that section 3.1 of RFC 3584 puts before the specific number
  (`trap-receiver/handler.go:88-89`): `Traps.TextIsStandardIff`, `Traps.V1ConfigTrapsAreUnnamed`.

## Model

| member | source | states |
|---|---|---|
| NetUtil.ContainsBlock | internal/netutil/rfc1918.go:7-12 | which addresses each of the four CIDR blocks contains, octet by octet |
| NetUtil.IsPrivateIsRangeMembership | internal/netutil/rfc1918.go:28-39 | mask-and-compare over the list is membership, as one 32-bit number, in the ranges of section 3 of RFC 1918 or 127/8; anything else, IPv6 and unparsable text included, is not private |
| Snmp.ProbeDefaults | internal/snmp/probe.go:66-78 | returns the first default credential set that verifies, and none exactly when none does |
| Snmp.FirstWorkingWorks | internal/snmp/probe.go:66-78 | a returned credential set is one of the candidates and verifies |
| Snmp.DefaultsInOrder | internal/snmp/probe.go:23-30 | the working defaults in their order: public over v2c, then private over v2c, then public over v1 |
| Snmp.ClientIff | internal/snmp/probe.go:80-155 | the built client is exactly the one the credentials describe: version, community or user, passphrases, level by which keys there are, protocols by their texts |
| Snmp.VerifyIff | internal/snmp/probe.go:46-61 | a probe succeeds exactly when the agent answers the client that the credentials describe |
| Snmp.WalkRouteNextHops | internal/snmp/routes.go:19-46 | the loop returns the usable next hops without duplicates; a failed connect or walk returns no hops at all |
| Snmp.NextHopsExact | internal/snmp/routes.go:29-41 | the reported hops are exactly the non-empty, non-zero textual addresses of the walk, each once |
| Snmp.NextHopsInOrder | internal/snmp/routes.go:29-41 | the hops come in the order of their first appearance in the walk |
| Snmp.HopsByClient | internal/snmp/routes.go:19-46 | hops are reported exactly when the walk as the described client succeeds, and are its usable addresses |
| Snmp.NoClientNoHops | internal/snmp/routes.go:20-23 | credentials that describe no client yield neither hops nor a successful probe |
| Snmp.WalkSeesOneClient | internal/snmp/routes.go:19-46 | networks that agree on the walk of that one client at that address give the same hops |
| Snmp.DecryptUndoesEncrypt | internal/crypto/crypto.go:48-79 | with a sound cipher, decrypting an encrypted text gives it back, the empty text (stored as itself) included |
| Snmp.EmptyStaysEmpty | internal/crypto/crypto.go:48-79 | an empty secret is stored and read back as empty whatever the cipher does |
| DeviceTable.WithStatusExact | internal/store/devices.go:76-92 | a status query returns exactly the rows with that status, in id order |
| DeviceTable.InsertSucceedsIff | internal/store/devices.go:119-133 | an INSERT is refused exactly for a tracked address or a version or status outside the CHECK sets |
| DeviceTable.InsertExact | internal/store/devices.go:119-133 | a successful INSERT adds exactly one row, last, with the next id, the address and the time |
| DeviceTable.InsertedRowReads | internal/store/devices.go:119-133 | every column of an inserted row reads back as supplied, an empty status as pending, and the row scans |
| DeviceTable.InsertKeepsValid | internal/store/schema.go:12-29 | addresses stay unique and ids ascending, within the counter, under INSERT |
| DeviceTable.UpdateFrame | internal/store/devices.go:137-168 | an update changes no id, address, creation time, other row or unnamed column, keeps the constraints, and a refused update changes nothing |
| DeviceTable.UpdateHitsItsRow | internal/store/devices.go:137-168 | a well-formed update overrides the named columns of the one row with that id, or is refused by a CHECK |
| DeviceTable.UpdateStores | internal/store/devices.go:137-168 | after a successful update each named column holds its own value, every other column its old one |
| DeviceTable.UpdateSucceedsIff | internal/store/devices.go:137-194 | an update of an existing row succeeds exactly if it names updatable columns only, its values can be bound, and version and status are nil or among the CHECK texts; it is refused as invalid exactly if it names another column |
| DeviceTable.UpdateOfNoRow | internal/store/devices.go:137-168 | of an id without row nothing is updated, and which outcome that is |
| DeviceTable.StatusUpdateHitsItsRow | internal/store/devices.go:137-168 | the status writes of the probing actors always succeed on an existing row and change only its status and time |
| DeviceTable.UpdatesCompose | internal/store/devices.go:137-168 | two successful updates leave the table that one update with the overriding map would leave |
| DeviceTable.DeleteExact | internal/store/devices.go:171-184 | DELETE removes exactly the row with that id and reports whether there was one |
| DeviceTable.DeleteKeepsValid | internal/store/devices.go:171-184 | DELETE keeps the constraints and leaves the id counter, so no id is freed |
| DeviceStore.AssignmentsExtend | internal/store/devices.go:142-155 | adding a column and its argument together extends the meaning of clause and arguments by that assignment |
| DeviceStore.ExecuteMeansUpdate | internal/store/devices.go:142-168 | a clause and argument list aligned placeholder by placeholder execute as the override of exactly these columns of this id |
| DeviceStore.DeviceStore.Create | internal/store/devices.go:119-133 | inserts the row and returns its id, or returns none and leaves the table as it was |
| DeviceStore.DeviceStore.Update | internal/store/devices.go:137-168 | for every iteration order of the map, the compiled statement has the one meaning of the map; an invalid column rejects everything |
| DeviceStore.DeviceStore.Delete | internal/store/devices.go:171-184 | deletes by id and keeps the table's constraints |
| HealthCheck.CheckDevice | config-watcher/healthcheck.go:40-71 | one device: its row becomes the checked row and no other row changes |
| HealthCheck.CheckDeviceHealth | config-watcher/healthcheck.go:33-72 | the loop of single writes over a snapshot computes the row-by-row pass over the table |
| HealthCheck.CheckedRowExact | config-watcher/healthcheck.go:40-71 | a row with a version and decryptable credentials becomes active if its probe succeeds and failed otherwise, is written only if its status differed, and keeps every other column |
| HealthCheck.CheckedByStoredClient | config-watcher/healthcheck.go:40-67 | by what is stored: any row with a version and three secrets that decrypt becomes active exactly if its address answers a client that those credentials describe |
| HealthCheck.UncheckableIsLeft | config-watcher/healthcheck.go:41-56 | a row without a version, or with a secret that does not decrypt, is left as it is |
| HealthCheck.HealthPassExact | config-watcher/healthcheck.go:33-72 | over the table: active iff reachable for every probeable row, only rows whose status differed are written, no row or other column changes |
| HealthCheck.HealthPassIdempotent | config-watcher/healthcheck.go:33-72 | a second pass with the same reachability writes nothing, not even a timestamp |
| HealthCheck.SettledIffLeftUnchanged | config-watcher/healthcheck.go:58-67 | the rows a pass leaves alone are exactly those whose status agrees with a probe of their stored credentials |
| HealthCheck.OneUnscannableRowStopsThePass | config-watcher/healthcheck.go:34-38 | one row with a NULL text column makes the listing fail and the whole pass do nothing |
| ConfigApi.CreateDevice | config-api/handlers/devices.go:142-209 | POST inserts the requested row with its probed status and encrypted secrets, answers 400 exactly for an empty address, and changes nothing on any error |
| ConfigApi.PostExact | config-api/handlers/devices.go:169-200 | a POST leaves exactly one more row, with the next id, holding address, fields, encrypted secrets, probed status and classification of the request; or no change if the address is missing or tracked, the version unknown or a secret cannot be encrypted |
| ConfigApi.ProbeStatusIsProbed | config-api/handlers/devices.go:40-48 | pending without a version, otherwise active exactly if the address answers the described client, and failed if not |
| ConfigApi.PatchUpdatesAt | config-api/handlers/devices.go:224-258 | which columns PATCH hands to the store: plain fields as given, secrets encrypted, everything else dropped |
| ConfigApi.PatchUpdatesExact | config-api/handlers/devices.go:224-252 | column by column, by name: what an applied PATCH writes, anything but a string counting as an empty secret |
| ConfigApi.PatchAppliedIff | config-api/handlers/devices.go:237-260 | a PATCH of an existing device is applied exactly if its secrets can be encrypted, no plain field is an object or list, and version and status are admitted; otherwise it answers 500 and changes nothing |
| ConfigApi.PatchedRowExact | config-api/handlers/devices.go:224-260 | column by column: what the updated row holds, nil as NULL and numbers and truth values as text |
| ConfigApi.PatchOfNoDevice | config-api/handlers/devices.go:254-260 | a PATCH of an unknown id changes nothing and answers 404 exactly if it is well-formed and names something to write |
| ConfigApi.PatchProbesExactly | config-api/handlers/devices.go:262-304 | after its update a PATCH probes exactly if an SNMP setting is named and no status, with the stored credentials, and writes and answers that status |
| ConfigApi.CollectPlain | config-api/handlers/devices.go:229-236 | the loop over the plain fields collects exactly those that the body names |
| ConfigApi.SealFields | config-api/handlers/devices.go:237-252 | the loop over fields, in any order, yields each one's encryption, and fails exactly when one cannot be encrypted |
| ConfigApi.CollectSecrets | config-api/handlers/devices.go:237-252 | over the three secrets: yields each one's encryption, and fails exactly when one cannot be encrypted |
| ConfigApi.UpdateDevice | config-api/handlers/devices.go:211-307 | PATCH performs its update, re-reads, and probes exactly when SNMP fields changed without an explicit status; the first write stays when a later step fails |
| ConfigApi.DeleteDevice | config-api/handlers/devices.go:309-325 | removes exactly the rows with the id and answers 204 exactly when there was one |
| Gateway.DiscoverGatewayDevice | config-watcher/discovery.go:20-50 | inserts an untracked gateway as pending and then applies the probe's outcome to that id |
| Gateway.ProbeAndUpdate | config-watcher/discovery.go:55-80 | applies the update the probe leads to, to the row of that id, or none if the community cannot be encrypted |
| Gateway.DiscoveredGatewayExact | config-watcher/discovery.go:20-80 | an untracked gateway gets one row: failed exactly if no default credentials work, active with the version and community of the first that works if that can be encrypted, and pending otherwise |
| Gateway.KnownGatewayIsLeft | config-watcher/discovery.go:20-36 | an undetected or tracked gateway changes nothing |
| DiscoverySweep.ConsiderHop | config-watcher/discovery_sweep.go:54-66 | one next hop: inserted when it passes the three conditions, otherwise nothing changes |
| DiscoverySweep.InsertDiscoveredDevice | config-watcher/discovery_sweep.go:116-146 | inserts one row for the address with the duplicated version and community, or leaves the table |
| DiscoverySweep.VisitHops | config-watcher/discovery_sweep.go:54-66 | the inner loop with its early stop equals the recursive walk over the next hops |
| DiscoverySweep.RunDiscoverySweep | config-watcher/discovery_sweep.go:24-68 | the nested loops with their shared counter equal the sweep function, an unreadable setting stops the sweep |
| SweepExact.VisitHopExact | config-watcher/discovery_sweep.go:70-84 | a next hop of a walked parent is inserted exactly when it is private and untracked |
| SweepExact.SweepHopsExact | config-watcher/discovery_sweep.go:54-66 | the rows one parent adds: as many as the cap leaves room for, each for a new private next hop |
| SweepExact.SweepParentsExact | config-watcher/discovery_sweep.go:37-68 | the same over all parents, counting across them |
| SweepExact.WantedExact | config-watcher/discovery_sweep.go:37-68 | the wanted addresses are the private next hops that some walked parent reports |
| SweepExact.PrivateHopsByClient | config-watcher/discovery_sweep.go:42-52 | what a sweep wants from a parent are the private usable addresses in the walk of the client that its stored credentials describe, the client a probe of it uses |
| SweepExact.NoClientNothingWanted | config-watcher/discovery_sweep.go:42-52 | a parent whose credentials do not decrypt or describe no client contributes nothing |
| SweepExact.WantedSeesStoredClients | config-watcher/discovery_sweep.go:42-52 | how other clients fare on the network makes no difference to a sweep |
| SweepExact.SweepInsertsExactly | config-watcher/discovery_sweep.go:24-68 | one sweep keeps every row and inserts exactly min(10, untracked private next hops of the devices active at its start), distinct, previously untracked, and all of them when below the cap |
| SweepOrder.SweepInsertsTheFirst | config-watcher/discovery_sweep.go:37-68 | with more candidates than room it is the first ten, in the order of the parents' ids and of their walks |
| SweepOrder.SweptRowExact | config-watcher/discovery_sweep.go:116-146 | every appended row was found through an active device and says what a probe with its stored credentials found, with version and community or neither, and nothing of a v3 user |
| SweepOrder.VisitHopIff | config-watcher/discovery_sweep.go:70-84 | an address is inserted exactly when it is not its parent's own, private and untracked, whether or not the parent is still in the table |
| SweepExact.SweepKeepsValid | config-watcher/discovery_sweep.go:24-68 | a sweep keeps the table's constraints |
| SweepFixpoint.BornRow | config-watcher/discovery_sweep.go:116-146 | an inserted row is active exactly when credentials are duplicated and it answers, and can then be walked itself |
| SweepFixpoint.SweepKeepsInv | config-watcher/discovery_sweep.go:24-68 | whatever a sweep adds is reachable from the initial table |
| SweepFixpoint.StableIffAllTracked | config-watcher/discovery_sweep.go:24-68 | a further sweep changes nothing exactly when every wanted address is tracked |
| SweepFixpoint.SweepShrinksUntracked | config-watcher/discovery_sweep.go:37-68 | over any finite topology, whatever the credentials decide and whatever fails to encrypt, a sweep that changes something strictly shrinks the set of untracked discoverable addresses |
| SweepFixpoint.SweepsTerminate | config-watcher/main.go:84-97 | repeated sweeps over any fixed finite topology reach a fixed point, within as many sweeps as there are untracked addresses, also with unreadable rows |
| SweepFixpoint.StableTracksReachable | config-watcher/discovery_sweep.go:24-68 | at the fixed point every address reachable through active devices is tracked |
| SweepFixpoint.FixpointIsReachability | config-watcher/discovery_sweep.go:24-68 | when probes and walks depend only on the target address, the tracked addresses at the fixed point are the initial ones plus those reachable through chains of active devices, whatever the cap and the order |
| StatusAgreement.PostedRowIsSettled | config-api/handlers/devices.go:169-190 | the row POST writes has the status that a probe of its stored credentials gives, so the next health check leaves it alone |
| StatusAgreement.GatewayRowIsSettled | config-watcher/discovery.go:28-78 | the same for the row gateway discovery inserts and probes, also when the working community cannot be encrypted |
| StatusAgreement.GatewayUpdateSettles | config-watcher/discovery.go:55-78 | the update after a successful default probe stores exactly the credentials that worked |
| StatusAgreement.PatchedRowIsSettled | config-api/handlers/devices.go:224-304 | the same for a PATCH of SNMP fields without explicit status, however it ends, unless it stored a NULL |
| StatusAgreement.PatchedRowLeftUnchanged | config-api/handlers/devices.go:224-304 | the next pass leaves that row unchanged in every case |
| StatusAgreement.PatchProbesOverriddenCredentials | config-api/handlers/devices.go:224-292 | the probed credentials are the stored ones overridden by the supplied ones, secrets by their plaintext |
| StatusAgreement.SameClientIff | internal/snmp/probe.go:80-129 | reduced to version and community, credentials build the same client exactly when they say nothing more |
| StatusAgreement.SweptRowIsSettled | config-watcher/discovery_sweep.go:86-146 | a swept row has the status that a probe of its stored credentials gives when its parent's credentials are version and community only, every v1 or v2c parent included |
| StatusAgreement.SweptRowsLeftUnchanged | config-watcher/discovery_sweep.go:24-68 | over the whole table: the next health check leaves every row alone that a sweep below such parents has appended |
| StatusAgreement.SweptRowSettledIff | config-watcher/discovery_sweep.go:124-137 | and only then: for other v3 credentials some reachability makes the next check change the row |
| StatusAgreement.ExplicitStatusIsStored | config-api/handlers/devices.go:273-304 | an explicit status in PATCH is stored as given, without a probe, whatever else the request holds |
| StatusAgreement.ExplicitActiveFalls | config-api/handlers/devices.go:273-304 | an explicit active falls at the next pass exactly when the row is probeable and its probe fails |
| StatusAgreement.UpdateKeepsReadableIff | internal/store/devices.go:137-168 | a successful PATCH keeps a readable row readable exactly when no plain field of its body is nil |
| StatusAgreement.PatchKeepsListIff | config-api/handlers/devices.go:211-307 | the device list stays readable after a PATCH exactly when its body has no nil plain field or its update is not applied |
| StatusAgreement.NullHostnameStopsEverything | config-api/handlers/devices.go:224-265 | PATCH with a null hostname answers a server error, stores the NULL, and stops every listing, health check and, for an active device, sweep |
| Interleaving.StepKeepsInv | config-watcher/main.go:84-97 | every statement of every actor, failing or not, keeps the invariant on table, id history and what the actors hold |
| Interleaving.ReachableStatesAreOk | internal/store/schema.go:12-29 | in every state of every interleaving: addresses are distinct, each row has the address its id was issued for, and is_public_ip is the classification of that address |
| Interleaving.PublicColumnIsExact | config-watcher/discovery_sweep.go:117-122 | with the repository's own classification, is_public_ip is false exactly for the reserved ranges, although the sweep writes a constant |
| Interleaving.IdsNeverReused | internal/store/schema.go:12-29 | an id never changes its address, and a deleted id never comes back, between any two moments of a run |
| Interleaving.RunIdsAdvance | internal/store/devices.go:119-184 | along any run ids only grow and rows keep id and address |
| Interleaving.StaleWriteHitsProbedDevice | config-watcher/healthcheck.go:58-71 | a probe outcome written late, after any other steps, changes at most the row whose address was probed |
| Interleaving.StepAllowance | config-watcher/discovery_sweep.go:37-68 | a step spends the inserting actor's remaining allowance by one, and only a new sweep restores it |
| Interleaving.SweepCapHoldsOverRuns | config-watcher/discovery_sweep.go:13-68 | in every run an actor's sweeps insert at most ten devices for each sweep it started |
| Uninterrupted.SweepAlone | config-watcher/discovery_sweep.go:24-68 | the statement-level sweep, undisturbed, can finish with the table of the sequential sweep, for any nonces and times |
| Uninterrupted.EverySweepAlone | config-watcher/discovery_sweep.go:24-68 | and every undisturbed run that has finished has left exactly the table of the sequential sweep with the nonces and times of its own insertions |
| Uninterrupted.CheckAlone | config-watcher/healthcheck.go:33-72 | the statement-level health check, undisturbed, can finish with the table of the sequential pass, for any times |
| Uninterrupted.EveryCheckAlone | config-watcher/healthcheck.go:33-72 | and every undisturbed run that has finished has left exactly that table, with the times of its own writes |
| Uninterrupted.GatewayAlone | config-watcher/discovery.go:20-80 | undisturbed gateway discovery can finish as the sequential program does |
| Uninterrupted.EveryGatewayAlone | config-watcher/discovery.go:20-80 | and every undisturbed run that has finished did, with the nonce and times of its own steps |
| Uninterrupted.PatchAlone | config-api/handlers/devices.go:211-307 | an undisturbed PATCH can finish as the sequential handler does |
| Uninterrupted.EveryPatchAlone | config-api/handlers/devices.go:211-307 | and every undisturbed run that has finished did, with the times of its own writes |
| Uninterrupted.PostAlone | config-api/handlers/devices.go:142-209 | an undisturbed POST can finish and then has left what a POST leaves |
| Uninterrupted.EveryPostAlone | config-api/handlers/devices.go:142-209 | every undisturbed POST that has finished has left exactly one more row that holds the request, or no change for the four stated reasons |
| Uninterrupted.DeleteAlone | internal/store/devices.go:171-184 | after the DELETE statement exactly the rows with another id remain |
| Uninterrupted.FaultsChangeNothing | internal/store/devices.go:119-184 | a statement that fails changes nothing and issues no id |
| Uninterrupted.FaultsAreSurvived | config-watcher/discovery_sweep.go:54-84 | after a failed statement a request and gateway discovery end, the health check goes to the next device, and the sweep to the next address with nothing counted |
| TelegrafGen.BuildDeviceConfigs | config-watcher/telegraf_gen.go:37-66 | one entry per device in the order given, and an error exactly when some secret does not decrypt |
| TelegrafGen.VersionedInputSpeaksItsClient | config-watcher/telegraf_gen.go:37-88 | the section of a versioned row makes Telegraf use the version, community, user, level, protocols and passphrases of the client a probe of that row uses |
| TelegrafGen.DocumentIff | config-watcher/telegraf_gen.go:37-111 | the document is the one the settings and the rows describe, one section per row in order, and exists exactly if all their secrets decrypt |
| TelegrafGen.EmittedInputsAreProbed | config-watcher/telegraf_gen.go:92-116 | after a health check directly followed by generation, every versioned section describes a client whose probe has just succeeded at that address |
| TelegrafGen.BackedIffVersioned | config-watcher/telegraf_gen.go:37-77 | the section of an active row is backed by a successful probe over every network exactly if the row has a version; one without passes every check unprobed and is emitted all the same |
| Reconcile.Watcher.WriteIfChanged | config-watcher/telegraf_gen.go:121-133 | reports a write exactly when the file did not hold the text and the write succeeded, and what the file holds after each outcome |
| Reconcile.Watcher.ReconcileTelegrafConfig | config-watcher/main.go:112-149 | a pass is one step of the protocol on file and running text, and reloads exactly when it wrote a different text |
| Reconcile.FileIsTheRendering | config-watcher/main.go:112-149 | after a successful pass the file is the rendering of the active rows in id order with the interval setting; a pass that fails before writing changes nothing |
| Reconcile.RendersIff | config-watcher/main.go:113-135 | a pass renders a text exactly if the setting reads and parses, every active row scans, a document describes them, and the template parses and executes on it to that text |
| Reconcile.NoActiveDeviceIsWritten | config-watcher/main.go:124-149 | without any active device the document without sections is written and loaded |
| Reconcile.SyncedWhileNothingFails | config-watcher/main.go:134-148 | over whole runs, while no write and no reload has failed, Telegraf runs what the file says |
| Reconcile.RunningUnchangedWithoutReload | config-watcher/main.go:140-148 | without a successful reload Telegraf keeps its text |
| Reconcile.RunningIsLastReloaded | config-watcher/main.go:140-148 | with any failures in between, Telegraf runs the text of the last successful reload |
| Reconcile.StaleUntilTextChanges | config-watcher/main.go:134-148 | after a failed reload, passes that render the same text repair nothing |
| Reconcile.FailedReloadNeedsNewText | config-watcher/main.go:134-148 | a stale configuration is repaired only by a pass that renders a different text |
| Reconcile.NewTextRepairs | config-watcher/main.go:134-148 | and such a pass repairs it when it can read, write and reload |
| Reconcile.FailedWriteRepairedIff | config-watcher/telegraf_gen.go:121-133 | after a failed write, flawless passes with the same text, however many, get Telegraf to run it exactly if the failed write did not leave the whole text in the file |
| RateLimiter.Limiter.Allow | chat-api/ratelimit.go:30-51 | a call prunes and extends only its own address's log and decides by what is left |
| RateLimiter.PrunedLogRefinesHistory | chat-api/ratelimit.go:34-50 | for every cutoff a later call can use, the pruned log and the full accepted history agree |
| RateLimiter.DecidedByWholeHistory | chat-api/ratelimit.go:34-50 | a request is refused exactly when `limit` accepted ones of its address already lie in its window |
| RateLimiter.WindowBound | chat-api/ratelimit.go:13-51 | in every run with a nondecreasing clock, at every instant x, at most `limit` accepted requests of an address lie in (x - window, x] |
| RateLimiter.DecisionsAreIndependent | chat-api/ratelimit.go:34-50 | a decision in an interleaved run is the one of the run restricted to that address |
| RateLimiter.RefusedCallsLeaveNoTrace | chat-api/ratelimit.go:44-47 | deleting refused calls leaves every accepted history as it was |
| RateLimiter.RefusedCallsChangeNothing | chat-api/ratelimit.go:44-47 | deleting any refused calls from a run changes no other decision |
| CounterRate.NotNullDropsFirst | chat-api/tools.go:308-318 | filtering NULL deltas drops exactly the first row |
| CounterRate.TotalCountsDescents | chat-api/tools.go:308-318 | for arbitrary samples the sum is last minus first plus 2^32 for every descent |
| CounterRate.ClampedIncrement | chat-api/tools.go:313-316 | the clamped difference of two truncated totals is their true difference modulo 2^32 |
| CounterRate.TotalIsTrueIff | chat-api/tools.go:308-318 | for truncated true totals the sum never exceeds the true increase, and equals it exactly when every increment is below 2^32 |
| CounterRate.TotalLosesWraps | chat-api/tools.go:308-318 | the true increase is the sum plus 2^32 for every whole multiple of 2^32 that passed within one interval |
| CounterRate.TotalAddsUp | chat-api/tools.go:308-318 | sums over two windows that share a sample add up |
| CounterRate.RateQueryExact | chat-api/tools.go:308-318 | the query returns that sum and the time from the second to the last sample, and NULLs for fewer than two samples |
| CounterRate.RateOverReports | chat-api/tools.go:308-318 | for true totals with increments below 2^32 the rate over-reports the true average by exactly (t_n - t_0)/(t_n - t_1) and never under-reports it |
| CounterRate.NeverUnderIff | chat-api/tools.go:308-318 | for any true totals the rate reaches the true average exactly when the bytes counted make up, over the first interval, for the lost wraps over the rest |
| CounterRate.NeverUnderAtAllTimesIff | chat-api/tools.go:308-318 | given totals are never under-reported, whenever they are sampled, exactly when no increment reaches 2^32 |
| CounterRate.WholeWrapsCountNothing | chat-api/tools.go:308-318 | the input 0, 2^32, 2^33 at times 0, 1, 2 has rate 0 and average 2^32 |
| MetricQuery.LexInvertsQuote | chat-api/influx.go:75-82 | the literal lexer of section 5.3 of ISO/IEC 9075-2 on a quoted string followed by text that does not start with a quote gives back string and text |
| MetricQuery.WhereRoundTrip | chat-api/tools.go:264-271 | the WHERE clause parses to its device, hours and sub-filter, for every string in them |
| MetricQuery.PrintRoundTrip | chat-api/tools.go:263-318 | parsing the text of any of the seven query forms gives back exactly what it asks: column, table, restrictions, direction and limit, function, or comparison |
| MetricQuery.BuiltQueryParses | chat-api/tools.go:263-302 | the text a tool call builds parses to its request |
| MetricQuery.BuiltQueryMeans | chat-api/tools.go:263-302 | parsed and answered over the device's rows in the requested hours, the text gives what the aggregation names: newest row, first 500 in time, average, a maximum that no row exceeds, a minimum, the number of rows above the threshold, the clamped sum and span |
| MetricQuery.RefusedIff | chat-api/tools.go:263-302 | exactly which calls are refused: unknown aggregation, one that does not fit the kind of the column, or no threshold |
| MetricQuery.PrintInjective | chat-api/tools.go:263-318 | different queries never have the same text |
| MetricQuery.ResolveSubFilter | chat-api/tools.go:217-258 | a requested text is answered only by a value the device reports: the first equal up to case, else the only one containing it |
| MetricQuery.MatchingExact | chat-api/tools.go:247-252 | the candidates are exactly the reported values that contain the text |
| MetricQuery.ContainsIff | chat-api/tools.go:249 | containing a text is to have it at some position |
| MetricQuery.StringsConcat | chat-api/tools.go:236-240 | the reported values are the non-empty strings of the lookup, in order and as often as they occur |
| Ranking.SortDescending | chat-api/tools.go:389-395 | the exchange loops leave the array descending and a permutation of its input, ties and all lengths included |
| Ranking.RankingUnique | chat-api/tools.go:389-395 | a descending arrangement is unique up to the order of ties |
| Chat.BuildInitialContents | chat-api/gemini.go:205-216 | the history turn by turn in Gemini's roles, then the question |
| Chat.RunChat | chat-api/gemini.go:160-199 | the loop's outcome and the contents of all its requests are those of the recursive protocol |
| Chat.FunctionCallsAreCalls | chat-api/gemini.go:173-182 | the collected parts all carry calls, and there are none exactly when no part does |
| Chat.FunctionCallsConcat | chat-api/gemini.go:173-178 | the calls are the parts that carry one, in their order |
| Chat.ExtractTextConcat | chat-api/gemini.go:233-239 | the text of an answer is that of its parts, in their order |
| Chat.CallIsAnswered | chat-api/gemini.go:184-196 | a call anywhere in a turn is answered at its place among the calls, by its name, with the decoded result, the result as text, or after an error the result as error text |
| Chat.RequestsGrowByExchanges | chat-api/gemini.go:164-197 | at most eight requests, each the previous one plus a model turn and the function turn that answers its calls one for one, in order and by name |
| Chat.ChatRequests | chat-api/handler.go:58-61 | with the trimmed history, request i has length history + 1 + 2i, at most 35, and still holds the question where it was |
| Chat.HistoryIsSent | chat-api/handler.go:58-61 | every request begins with the last twenty turns, oldest first, in their roles, and then the question |
| Chat.QuestionStays | chat-api/gemini.go:164-197 | no turn of an earlier request is ever changed |
| Chat.OutcomeByLastReply | chat-api/gemini.go:164-199 | the reply to the last request decides the outcome, and every earlier reply asked for tools |
| Chat.AnswersIff | chat-api/gemini.go:164-199 | the chat answers exactly when, in the unlimited conversation, a call-free reply comes within eight requests before any client error |
| Chat.ErrorTextForwardedIff | chat-api/gemini.go:223-231 | the response to a failed call carries the error's own text exactly when the tool's result repeats it |
| Chat.ToolErrorsReachTheModelEmpty | chat-api/gemini.go:187-193 | with tools that return an empty result on error, as all of them do, exactly an empty error text gets through |
| Chat.ErrorTextsAreInvisible | chat-api/gemini.go:160-199 | whatever the errors say, every request and the outcome of a chat are the same |
| Oid.DecRoundTrip | trap-receiver/handler.go:89 | decimal notation reads back, and consists of digits only |
| Oid.ItoaRoundTrip | trap-receiver/handler.go:89 | printed integers read back, the negative ones by their sign |
| Oid.ItoaInjective | trap-receiver/handler.go:89 | printed integers, negative ones included, determine the integer and contain no dot |
| Oid.PrefixByNumeral | config-api/handlers/traps.go:154 | a prefix that ends in a dot compares whole sub-identifiers |
| Oid.HasPrefixIffBelow | config-api/handlers/traps.go:153-159 | on printed identifiers the string prefix test with a trailing dot is the strict prefix test on sub-identifiers |
| Oid.LastDotSplits | trap-receiver/handler.go:88-89 | a text splits at its last dot in only one way |
| Oid.PrintInjective | trap-receiver/handler.go:88-89 | printed identifiers determine the sub-identifiers |
| TrapNames.KnownByNumber | internal/snmp/trapnames.go:10-21 | for every text before the last number, the name table agrees with the registrations |
| TrapNames.KnownTrapIsRegistered | internal/snmp/trapnames.go:10-21 | a printed identifier is in the table exactly when its parent and last number are registered, under that name |
| TrapNames.NormalizesFromFour | internal/snmp/trapnames.go:26-31 | normalising yields an identifier from exactly four texts: with or without leading dot, with or without one trailing dot |
| TrapNames.TrapNameOfRegistered | internal/snmp/trapnames.go:26-37 | all four spellings get the registered name; of an unregistered identifier each comes back unchanged |
| Traps.ExtractTrapOid | trap-receiver/handler.go:83-99 | the scan returns the identity: for v2c and v3 the first string-valued snmpTrapOID.0 |
| Traps.NotificationIdentity | trap-receiver/handler.go:91-98 | the identity of a notification is the first string at snmpTrapOID.0, past values of other types there, and empty without one |
| Traps.PrintedTrapOid | trap-receiver/handler.go:20 | the constant is the printed identifier of snmpTrapOID.0 |
| Traps.V1IdentityIsInjective | trap-receiver/handler.go:83-90 | two v1 traps get the same text exactly when they are the same trap: same generic event, or same enterprise up to a trailing dot and same number |
| Traps.V1Name | internal/snmp/trapnames.go:26-37 | which v1 traps are named, and how, for every enterprise text |
| Traps.SameNameAcrossVersions | trap-receiver/handler.go:69-76 | a v1 generic trap and the v2c notification of the same event (section 2 of RFC 3418) get the same, registered name |
| Traps.TextIsStandardIff | trap-receiver/handler.go:88-89 | the enterprise-specific text is the RFC 3584 identity of some trap exactly when the enterprise itself ends in the zero |
| Traps.V1ConfigTrapsAreUnnamed | internal/snmp/trapnames.go:18-20 | a configuration-management event is named as a v2c notification and not as a v1 trap of the MIB's enterprise |
| Traps.ExtractInterface | config-api/handlers/traps.go:146-166 | the scan with its early return finds the interface; an undecodable payload gives none |
| Traps.InterfaceByColumn | config-api/handlers/traps.go:136-166 | on printed identifiers: the first non-empty ifDescr value, else the last ifIndex, else nothing; a sibling column counts as neither |
| Traps.ResolveDevice | config-api/handlers/traps.go:94-125 | attributes to a readable device with the agent's address, else to the first device in id order sharing the community, else to none |
| Traps.SharingIsRegistration | config-api/handlers/traps.go:111-123 | sharing the community through its encryption is having been registered with it, so distinct communities attribute uniquely |
| Traps.UnreadableAgentIsUnattributed | config-api/handlers/traps.go:98-110 | a device whose own row cannot be read is attributed neither by address nor by community |

## Left out

- HTTP servers and clients, CORS, JSON decoding and encoding, logging, environment variables, dashboards and container files.
- SNMP transport, timeouts, tickers and real time: the network is a function, and the machine takes enabled steps in any order.
- Ping (config-watcher/healthcheck.go): it never affects the table.
- AES-GCM, base64 and nonces: nothing is assumed of a wrong key.
- net.ParseIP's grammar and `%g`: addresses start as four octets, formatted numbers as their text.
- SQLite's id range: AUTOINCREMENT fails after 2^63 - 1, ids here are unbounded.
- Rejected INSERTs whose id SQLite would skip: the model assigns the next id to the next successful INSERT.
- The settings table, listings and their limits, the traps schema, clampHours and lookupColumn: single-branch facts.
- The counter branch of toolRankDevices: no counter column reaches it (chat-api/schema.go:49-55).
- DeviceStore.DeviceStore.Create: database failures other than violated constraints appear in `Interleaving` (`fault`), not in the sequential store object; the same holds for Update, Delete and the queries.
- ConfigApi.UpdateDevice: the response body is the row, without the fields that the response format drops.
- Reconcile.Watcher.ReconcileTelegrafConfig: the template engine is a function from the document to text that may fail; nothing is proved of the text beyond the document.
- CounterRate.RateOverReports: exact real arithmetic, at least three samples (for fewer the span is 0 and the program reports 0); samples that are NULL and samples with equal times are not modelled.
- MetricQuery.BuiltQueryMeans: rows in time order, every column present in every row (no NULLs), numbers printed so that they read back, and real arithmetic.
- MetricQuery.PrintRoundTrip: the parser accepts the printed forms and is not a grammar of SQL; column and table names come from the whitelist, which has no quote in a column and no space in a table.
- MetricQuery.ResolveSubFilter: lower-casing and case-insensitive comparison are parameters.
- Ranking.SortDescending: values are real numbers, so NaN does not occur.
- Chat.RunChat: what executeTool computes is a parameter, and so is which texts decode as a JSON object.
- Traps.ExtractInterface: JSON decoding of the payload and Go's rendering of non-string values are parameters.
