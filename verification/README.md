# Verified model of the reports server

The reports server is an aggregated Kubernetes API server that keeps policy reports and
ephemeral reports, namespaced and cluster-scoped, outside the cluster's own etcd. This
project models its core in Dafny and proves what that core promises: the storage backends,
the request handlers, the resource version counter, the start-up migration, the reads over
Postgres replicas and the connection string.

`dafny verify dfyconfig.toml` checks everything.

## How it is laid out

- `Storage` is the storage interface: a map from (namespace, name) to a report, the five
  operations, and the answers each may give. The etcd and in-memory backends are proved
  against it; for the Postgres backend it is proved, operation by operation, exactly when it
  answers and moves as the interface says.
- `EtcdKeys`, `EtcdStore`, `EtcdConcurrency`: the flat key space shared by four stores, the
  check-then-put store as a class, and goroutines interleaving lock, etcd call and unlock
  steps. Main result: every interleaving is linearizable to four independent maps.
- `InMemoryStore`, `BackendEquivalence`: the second backend, and the proof that both answer
  alike on every sequence of operations.
- `Decimal`, `Versioning`: the uint64 counter behind decimal text, sequential and concurrent.
- `Rest`, `RestProperties`, `RestHandlers`: the request handlers as functions on store,
  counter and event log; what holds over every run of requests; and the handlers as classes
  that change the etcd store in place, proved to act as those functions.
- `RestOutcomes`: what each request does, field by field and case by case.
- `Watchers`: what a watcher that folds its stream holds after every call, for any namespace
  and selector.
- `Migration`, `SystemRuns`: copy loops, live watchers, the final jump of the counter; and
  runs of the whole server that mix all of it over the four kinds.
- `MultiDb`, `Postgres`, `PostgresIsolation`, `PostgresSequential`: the shuffle and failover,
  the table behind lagging replicas, servers of different clusters sharing one table, and the
  proof that concurrent calls of one server are a sequential run on its own rows.
- `Text`, `Dsn`: splitting and prefixes of text, and the connection string with a parser.

A report's metadata is modelled field by field where the server reads or writes it; the
rest of the report is one opaque body. Whether a call to etcd, to a database node or to the
old API server comes back with an error is a parameter, as are generated names, UIDs, the
time, validation results and the draws of the random source. Names and namespaces are
slash-free where the server relies on the API machinery for that, and the lemmas say exactly
what goes wrong otherwise.

## Where the code departs from what one would expect

The model follows the code in each of these, and the condition under which the expected
property holds is proved.

- The cluster policy reports' etcd identifier reuses the kind of the cluster ephemeral
  reports (`pkg/utils/constants.go:17`). The group alone keeps the two apart, and that is
  enough: `EtcdKeys.ServerWiringIsPrefixFree`.
- A forced update skips validation, annotation and the dry-run flag and broadcasts even when
  the store refused it (`pkg/api/polr.go:186-195`). Watchers are misled exactly in the case
  stated by `RestProperties.TellsIff` and `Watchers.WatcherHoldsStore`; unannotated reports get in exactly in the case stated
  by `SystemRuns.StepServedIff`.
- Asked for all namespaces, DeleteCollection looks every listed name up outside any namespace
  (`pkg/api/polr.go:285`): `RestProperties.DeleteAllNamespacesFails`.
- A watcher opened on a namespace receives the events of all namespaces
  (`pkg/api/polr.go:319`), and no selector is applied to them. Without a selector it is right
  on its own namespace, `Watchers.WatcherHoldsStore`; exactly when it holds what it asked for
  and nothing else is `Watchers.WatcherHoldsSelectionIff`; `Watchers.OtherNamespaceShows` and
  `Watchers.UnselectedReportStays` are failing requests.
- The policy report part of the migration moves the counter to the cluster policy reports'
  version once more (`pkg/server/config.go:237`). Exactly when the next version still lies past
  all four lists and past every stored report: `Migration.PastListsIff` and
  `Migration.NextPastStoredIff`; `Migration.PolicyReportOutruns` is a failing source.
- A list that fails ends the migration without an error, although the remaining kinds are not
  copied and the counter does not jump (`pkg/server/config.go:139-141`): `Migration.Migrate`.
- The counter wraps at 64 bits (`pkg/storage/versioning.go:38`): `Versioning.IncreasingIffNoWrap`,
  and `Versioning.WrappingRun`, which hands out 1 twice.
- A Postgres update of a missing row reports success (`pkg/storage/db/polr.go:148-152`):
  `Postgres.UpdateFollowsInterfaceIff`. All departures from the interface together:
  `Postgres.FollowsInterfaceIff`.
- Postgres Get formats the no-rows error so that it is no longer recognised
  (`pkg/storage/db/polr.go:92` and `164`): a delete whose read finds no row fails and leaves
  the primary alone, `Postgres.PolicyReportStore.Delete`, even when the row is there and only
  the replica lags, `Postgres.LaggingReplicaHidesRow`.
- Credentials are query-escaped but decoded as user information, so a space comes back as a
  plus: `Dsn.CredentialsSurviveIff`.

## Model

| member | source | states |
|---|---|---|
| `Storage.AnswersAgree` | pkg/storage/api/interface.go:18-24 | two answers the interface allows for one operation are equal, lists as multisets |
| `Storage.ReadAfter` | pkg/storage/api/interface.go:18-24 | what a write that is done wrote is read back at its place, and no operation changes what is read anywhere else |
| `Storage.AnswersByRead` | pkg/storage/api/interface.go:18-24 | each write's answer follows from what is read at its place before: a create needs it free, an update and a delete need it taken |
| `Storage.ListedIffRead` | pkg/storage/api/interface.go:19-20 | a list has exactly what single reads find in the namespace, each once |
| `EtcdKeys.ServerWiringIsPrefixFree` | pkg/utils/constants.go:14-17 | no kind prefix of the server's wiring is a prefix of another, although two kinds have the same kind name |
| `EtcdKeys.KindsApart` | pkg/storage/etcd/new.go:47-52 | equal text under two kind prefixes means equal kinds and equal remainders |
| `EtcdKeys.PathRoundTrip` | pkg/storage/etcd/store.go:44-53 | namespace and slash-free name are read back from the part of the key after the kind prefix |
| `EtcdKeys.KeyIsJoined` | pkg/storage/etcd/store.go:44-53 | a key is group, version, kind, namespace and name joined by slashes, the namespace left out when empty |
| `EtcdKeys.KeyInjective` | pkg/storage/etcd/store.go:51-53 | keys are equal if and only if kind, namespace and name are, across all stores |
| `EtcdKeys.KeyIsSharedIff` | pkg/storage/etcd/store.go:44-53 | exactly which places share their key with another place whose name is slash-free: those with a slash in the name, but for a single leading one outside any namespace |
| `EtcdKeys.PrefixSelects` | pkg/storage/etcd/store.go:80-86 | a prefix scan meets a key of its kind if and only if the key is in the namespace or in one nested below it |
| `EtcdKeys.PrefixSelectsIff` | pkg/storage/etcd/store.go:44-49 | the scan selects its namespace and nothing else if and only if the stored namespace is not nested in it |
| `EtcdStore.OwnStep` | pkg/storage/etcd/store.go:109-185 | an operation on the flat key space acts on the store's own (namespace, name) map as the interface says |
| `EtcdStore.OtherStep` | pkg/storage/etcd/new.go:47-52 | the maps of the other stores stay as they are |
| `EtcdStore.ScanIsListing` | pkg/storage/etcd/store.go:80-107 | a prefix scan lists each report of the namespace once and nothing else; the empty namespace lists the whole kind |
| `EtcdStore.AnswersRefine` | pkg/storage/etcd/store.go:55-185 | every answer of the flat store is one the interface allows, error cases included |
| `EtcdStore.Client.GetWithPrefix` | pkg/storage/etcd/store.go:86-86 | a scan returns every key under the prefix once, with its value |
| `EtcdStore.ObjectStore.Get` | pkg/storage/etcd/store.go:55-78 | found, not found, or the error of the call |
| `EtcdStore.ObjectStore.List` | pkg/storage/etcd/store.go:80-107 | the values at the keys under the prefix, each once |
| `EtcdStore.ObjectStore.Create` | pkg/storage/etcd/store.go:109-137 | puts only at a free key; otherwise, or on an error of either call, nothing changes |
| `EtcdStore.ObjectStore.Update` | pkg/storage/etcd/store.go:139-166 | puts only at a taken key; otherwise, or on an error of either call, nothing changes |
| `EtcdStore.ObjectStore.Delete` | pkg/storage/etcd/store.go:168-185 | removes exactly the key, and says not found if it was absent |
| `EtcdConcurrency.RunKeepsInv` | pkg/storage/etcd/store.go:55-185 | in every interleaving, for any prefix-free wiring: mutual exclusion per store, a check stands until its put, and etcd holds the four replayed maps |
| `EtcdConcurrency.RunsAreLinearizable` | pkg/storage/etcd/store.go:55-185 | every interleaving on the server's wiring, from any contents, is a legal run of atomic operations on four independent maps, each taking effect between its call and its return |
| `EtcdConcurrency.StaysUntilDeleted` | pkg/storage/etcd/store.go:139-185 | once there, a report stays until a successful delete of it |
| `EtcdConcurrency.OneCreateBetweenDeletes` | pkg/storage/etcd/store.go:109-137 | two successful creates of one report have a successful delete of it between them, in every legal history |
| `EtcdConcurrency.RunsCreateOnce` | pkg/storage/etcd/store.go:109-137 | the same in every interleaving of goroutines over the four stores |
| `EtcdConcurrency.CallReturns` | pkg/storage/etcd/store.go:55-185 | with the mutex free and etcd up, a goroutine's call can always run to its return |
| `InMemoryStore.MemoryKeyInjective` | pkg/storage/inmemory/polr.go:21-23 | keys determine namespace and slash-free name |
| `InMemoryStore.MemoryKeyIsJoined` | pkg/storage/inmemory/polr.go:21-23 | a key is "polr", namespace and name joined by slashes |
| `InMemoryStore.MemoryPrefixSelects` | pkg/storage/inmemory/polr.go:32-33 | the prefix test selects exactly the namespace |
| `InMemoryStore.MemoryStep` | pkg/storage/inmemory/polr.go:63-111 | an operation on the encoded map acts on the (namespace, name) map as the interface says |
| `InMemoryStore.MemoryAnswersRefine` | pkg/storage/inmemory/polr.go:25-111 | every answer is one the interface allows, and no stored value fails to decode |
| `InMemoryStore.Db.Get` | pkg/storage/inmemory/store.go:21-27 | the decoded value at the key, if there is one that decodes |
| `InMemoryStore.Db.Delete` | pkg/storage/inmemory/store.go:29-31 | removes exactly the key |
| `InMemoryStore.Db.Keys` | pkg/storage/inmemory/store.go:33-39 | lists every key once |
| `InMemoryStore.Db.Store` | pkg/storage/inmemory/store.go:41-48 | the key holds the encoded report, every other key is as before |
| `InMemoryStore.ChosenFilters` | pkg/storage/inmemory/polr.go:32-41 | the keys a list reads are the selected ones, each once |
| `InMemoryStore.PolicyReportDb.Get` | pkg/storage/inmemory/polr.go:48-61 | found, or not found also when the value does not decode |
| `InMemoryStore.PolicyReportDb.List` | pkg/storage/inmemory/polr.go:25-46 | the decoded values at the selected keys, or an error if one does not decode |
| `InMemoryStore.PolicyReportDb.Create` | pkg/storage/inmemory/polr.go:63-77 | stores only at a free key |
| `InMemoryStore.PolicyReportDb.Update` | pkg/storage/inmemory/polr.go:79-93 | stores only at a taken key |
| `InMemoryStore.PolicyReportDb.Delete` | pkg/storage/inmemory/polr.go:95-111 | removes a taken key, says not found otherwise |
| `BackendEquivalence.BothHoldContents` | pkg/storage/inmemory/polr.go:21-111 | after any operations both backends hold the same (namespace, name) map |
| `BackendEquivalence.BackendsAgree` | pkg/storage/etcd/store.go:44-185 | on every sequence of operations with slash-free names, etcd and memory give the same answer each time, lists as multisets |
| `BackendEquivalence.SlashedNamesDisagree` | pkg/storage/inmemory/polr.go:21-23 | with a slash in a name they part: a concrete pair of creates that one refuses and the other takes |
| `Decimal.ParseFormat` | pkg/storage/versioning.go:24-37 | a number comes back from its decimal text if and only if it fits in 64 bits |
| `Decimal.FormatInjective` | pkg/storage/versioning.go:37-37 | decimal texts are equal if and only if the numbers are |
| `Versioning.ResourceVersion.constructor` | pkg/storage/versioning.go:15-19 | the counter starts at 1 |
| `Versioning.ResourceVersion.SetResourceVersion` | pkg/storage/versioning.go:21-32 | raises the counter, never lowers it, and fails exactly on text that is no 64-bit number |
| `Versioning.ResourceVersion.UseResourceVersion` | pkg/storage/versioning.go:34-40 | hands out the counter's text and moves it one on, wrapping at 64 bits |
| `Versioning.RunKeepsInv` | pkg/storage/versioning.go:21-40 | in every interleaving of callers: mutual exclusion, no read goes stale, versions climb except across the wrap |
| `Versioning.HandedOutOnce` | pkg/storage/versioning.go:34-40 | two versions handed out in any interleaving differ as numbers and as text, unless the counter reached its largest value in between |
| `Versioning.IncreasingIffNoWrap` | pkg/storage/versioning.go:38-38 | in any interleaving, all versions handed out are strictly increasing if and only if the counter has not gone down before the last of them, that is, the largest version was handed out last or not at all |
| `Versioning.WrappingRun` | pkg/storage/versioning.go:38-38 | a run that sets the counter to its largest value and hands out 1 a second time |
| `RestHandlers.Handler.GetReport` | pkg/api/polr.go:353-360 | the stored report if there is one and the read comes back |
| `RestHandlers.Handler.CreateReport` | pkg/api/polr.go:380-386 | stamps the next version, UID and time and creates; the version is used up even on failure |
| `RestHandlers.Handler.UpdateReport` | pkg/api/polr.go:388-391 | stamps the next version and updates; the version is used up even on failure |
| `RestHandlers.Handler.DeleteReport` | pkg/api/polr.go:393-395 | deletes the report, with an error exactly if it was absent or the call failed |
| `RestHandlers.Handler.Create` | pkg/api/polr.go:121-169 | store, counter, log and response after a create, on every path |
| `RestHandlers.Handler.Update` | pkg/api/polr.go:171-234 | the same for an update, the forced path included |
| `RestHandlers.Handler.Delete` | pkg/api/polr.go:236-265 | the same for a delete |
| `RestHandlers.Handler.List` | pkg/api/polr.go:55-108 | exactly the stored reports of the namespace that match the selector, each once; it fails if and only if the read fails or the version is no number |
| `RestHandlers.Handler.DeleteItems` | pkg/api/polr.go:283-291 | the loop deletes item by item and stops at the first that is not deleted |
| `RestHandlers.Handler.DeleteCollection` | pkg/api/polr.go:267-293 | lists, then deletes each, on the list the store gave |
| `RestHandlers.Handler.Watch` | pkg/api/polr.go:295-320 | a watcher with the matching stored reports as Added events in front, each once, or with none for version "" or "0", and then every later event |
| `RestOutcomes.LabelledExact` | pkg/api/annotate.go:8-14 | the annotation gets its value and every other field and annotation is kept |
| `RestOutcomes.FilterExact` | pkg/api/filter.go:25-33 | a report is allowed, with number 1, if and only if there is no selector or it matches the labels |
| `RestOutcomes.CreateRefused` | pkg/api/polr.go:124-152 | each reason to refuse a create, with its status, and nothing changes |
| `RestOutcomes.CreateDryRun` | pkg/api/polr.go:145-168 | a dry run answers the report as it would be created, field by field, but for version, UID and time |
| `RestOutcomes.CreateExact` | pkg/api/polr.go:121-169 | a create succeeds if and only if its place is free and the store is up; stored report, answer and the one Added event are then given field by field, and the version is used up either way |
| `RestOutcomes.UpdateRefused` | pkg/api/polr.go:175-214 | each reason to refuse an update that is not forced, with its status, and nothing changes |
| `RestOutcomes.UpdateDryRun` | pkg/api/polr.go:216-233 | a dry run answers the report as it would be stored, field by field, but for the version |
| `RestOutcomes.UpdateExact` | pkg/api/polr.go:171-234 | an update that is not forced succeeds if and only if the place of what the request makes is taken and the store is up; stored report, answer and the one Modified event are then given field by field |
| `RestOutcomes.ForcedUpdateExact` | pkg/api/polr.go:184-195 | a forced update answers and broadcasts what the request makes with only the version changed, and stores it if and only if its place is taken and the store is up |
| `RestOutcomes.DeleteExact` | pkg/api/polr.go:236-265 | each outcome of a delete with its status; on success exactly the named report is gone, answered and broadcast |
| `RestOutcomes.PrintedVersionsAccepted` | pkg/api/polr.go:83-90 | a decimal version is accepted if and only if it fits in 64 bits |
| `RestOutcomes.ListExact` | pkg/api/polr.go:55-108 | a list has exactly the stored reports of the namespace whose labels the selector matches, each once, or the status of its failure |
| `RestOutcomes.WatchExact` | pkg/api/polr.go:295-320 | a watch with version "" or "0" always succeeds with nothing in front; any other succeeds if and only if the list does, with the listed reports as Added events in front |
| `RestOutcomes.DeleteCollectionLists` | pkg/api/polr.go:271-292 | a failed list refuses the call, and a dry run answers with the list |
| `RestProperties.TellsIff` | pkg/api/polr.go:121-293 | the log only grows, and a request's events spell its change of the store if and only if it is not a refused forced update of a report that differs from what is stored |
| `RestProperties.RunTells` | pkg/api/polr.go:121-293 | the same over every run of requests |
| `Watchers.FoldAdded` | pkg/api/polr.go:311-319 | folding the Added events of distinct reports holds exactly those reports |
| `Watchers.WatcherHoldsStore` | pkg/api/polr.go:295-320 | a watcher without selector, opened with a version other than "" and "0" on any namespace, holds what the store holds there after every call of a run if and only if no forced update misleads about that namespace |
| `Watchers.ForcedUpdateOfMissingMisleads` | pkg/api/polr.go:186-195 | the condition is needed: a forced update of an absent report leaves a watcher with a report the store lacks |
| `Watchers.StepHoldsSelectionIff` | pkg/api/polr.go:121-293 | one request keeps a watcher's view exactly the matching reports of its namespace if and only if it does not mislead and its events, deletions aside, are of such reports |
| `Watchers.WatcherHoldsSelectionIff` | pkg/api/polr.go:295-320 | for any namespace and selector, a watcher holds exactly the matching reports of its namespace after every call of a run if and only if no forced update misleads and every event since it was opened is a deletion or of such a report |
| `Watchers.OtherNamespaceShows` | pkg/api/polr.go:319-319 | a failing family: a report created in another namespace enters the view of a namespace's watcher |
| `Watchers.UnselectedReportStays` | pkg/api/polr.go:319-319 | a failing family: a report that an update takes out of the selection stays in the watcher's view |
| `RestProperties.DryRunChangesNothing` | pkg/api/polr.go:121-293 | a dry run other than a forced update leaves store, counter and log as they are; a forced update ignores the flag |
| `RestProperties.DryRunsCanBeDropped` | pkg/api/polr.go:121-293 | a run with all its dry runs erased ends in the same state |
| `RestProperties.HandleKeepsValid` | pkg/api/polr.go:121-293 | every request keeps each stored report at the place its own name and namespace spell |
| `RestProperties.RunKeepsValid` | pkg/api/polr.go:121-293 | so does every run of requests: the states the other results ask for are all the reachable ones |
| `RestProperties.FilteredSelects` | pkg/api/filter.go:8-34 | a filtered list has exactly the matching items, each once |
| `RestProperties.DeleteEachExact` | pkg/api/polr.go:284-290 | if the first k items go through and the next does not, exactly those k are gone, each with its event, and success means all |
| `RestProperties.DeleteCollectionExact` | pkg/api/polr.go:267-293 | the same for the listed matches, whichever store call or validation stops the loop |
| `RestProperties.DeleteCollectionRemovesMatches` | pkg/api/polr.go:267-293 | a successful call removes exactly the reports of the namespace that match the selector, in a namespace or for a kind without namespaces |
| `RestProperties.DeleteAllNamespacesFails` | pkg/api/polr.go:284-289 | for all namespaces at once nothing is deleted, and the call succeeds if and only if nothing matches |
| `Migration.CopyExact` | pkg/server/config.go:223-236 | the loop succeeds if and only if the unannotated items are at pairwise distinct free places and the store stays up; then the store is the old one and exactly their marked copies |
| `Migration.CopyFailure` | pkg/server/config.go:232-235 | on failure it stopped at an item that cannot be copied, and exactly the unannotated items before it were added |
| `Migration.CopyReports` | pkg/server/config.go:223-236 | the loop over the etcd store copies as stated there and leaves the other three stores alone |
| `Migration.StaysFailed` | pkg/server/config.go:233-235 | nothing is copied after a failure |
| `Migration.Watch` | pkg/server/config.go:251-298 | the watcher's effect is the fold of Create and Update over the events before the first already annotated one, and the other three stores are left alone |
| `Migration.EventAt` | pkg/server/config.go:253-281 | one event with the store up: Added puts the marked report at a free place, Modified at a taken one; everything else, at every place, stays |
| `Migration.CarriedAt` | pkg/server/config.go:251-298 | over any events, each place ends with the marked report of the last event that wrote there, and as it was if none did |
| `Migration.Cut` | pkg/server/config.go:256-273 | no event before the cut is already annotated, and the one at the cut is |
| `Migration.LaterEventsIgnored` | pkg/server/config.go:257-259 | no event after the first already annotated one has any effect |
| `Migration.JumpExact` | pkg/server/config.go:458-463 | what the final jump comes to for every counter value: 9999 further unless that does not fit in 64 bits |
| `Migration.LeaveRoom` | pkg/server/config.go:458-463 | the final use, parse and set never fail and make that jump |
| `Migration.MigrateKind` | pkg/server/config.go:219-250 | one kind's part completes if and only if it is listed and copied, the version parses and the watcher starts; stores and counter are given for every end, and the other stores are untouched |
| `Migration.MigrateKinds` | pkg/server/config.go:138-409 | the four parts complete if and only if each passes, the policy report one with the cluster policy reports' version; cut short at part p, the parts before are copied, part p up to its failure, the rest not at all, and the counter is given |
| `Migration.Migrate` | pkg/server/config.go:127-464 | the migration completes if and only if the four parts do (the final parse never fails), and then the four stores and the counter are exactly given; cut short, it leaves what is stated there without the jump, and reports an error unless a list failed |
| `Migration.NextAfterMigration` | pkg/server/config.go:458-463 | after a completed migration from a fresh counter the next version is m + 9999, with m the largest of 1 and the three list versions, if and only if that fits in 64 bits |
| `Migration.PastListsIff` | pkg/server/config.go:237-237 | for every counter and all sources, the next version lies past all four list versions if and only if the policy report list's is below where the jump leads (and, when the jump wraps, all four are below 9998) |
| `Migration.StoredBelowIff` | pkg/server/config.go:223-237 | after a completed migration a version lies past every stored report if and only if it lies past those stored before and every copied one |
| `Migration.NextPastStoredIff` | pkg/server/config.go:237-237 | with lists as new as their reports, the next version lies past every stored report if and only if it lies past those stored before and every copied policy report (and, when the jump wraps, the copies of the other three are below 9998) |
| `Migration.PolicyReportOutruns` | pkg/server/config.go:237-237 | a failing source: a policy report at version 20000 and the other lists at 1 complete, and the next version is 10000 |
| `SystemRuns.StepServedIff` | pkg/api/polr.go:186-220 | a step of the whole server keeps every stored report annotated if and only if it is not a forced update, taken by the store, of an unannotated report |
| `SystemRuns.RequestIsHandled` | pkg/api/polr.go:26-29 | a request to the whole server is one to its kind's handler, whatever that logged before, and leaves the other kinds alone |
| `SystemRuns.OtherStepsExact` | pkg/server/config.go:223-298 | the other steps are the copy loop, the live watcher on one event and a move of the counter; none broadcasts |
| `SystemRuns.RunServed` | pkg/api/annotate.go:8-14 | every stored report of every kind is annotated in every state of a run of requests, copy loops and live events if and only if no step of the run is such an update |
| `SystemRuns.StepGrows` | pkg/api/polr.go:380-391 | a step keeps versions growing along the events of all kinds unless it takes the largest version |
| `SystemRuns.EventVersionsIncrease` | pkg/api/polr.go:159-165 | until the counter reaches its largest value, each Added or Modified event of any kind carries a larger version than every earlier one |
| `MultiDb.ShuffleReplicas` | pkg/storage/db/multiDB.go:70-82 | the in-place loop leaves the order that the draws choose; a failed draw is the choice j = i |
| `MultiDb.PositionIsChosen` | pkg/storage/db/multiDB.go:79-80 | each position gets what its draw points at among those not yet settled |
| `MultiDb.ShufflePermutes` | pkg/storage/db/multiDB.go:70-82 | every order it leaves is a permutation |
| `MultiDb.ShuffleInjective` | pkg/storage/db/multiDB.go:72-80 | on distinct replicas, orders are equal if and only if the choices are |
| `MultiDb.ShuffleBijective` | pkg/storage/db/multiDB.go:72-80 | every permutation of distinct replicas is reached by exactly one choice |
| `MultiDb.MultiDB.ReadQuery` | pkg/storage/db/multiDB.go:26-67 | the nodes asked are a prefix of the shuffled replicas and the primary, all but the last fail, the primary is asked if and only if all replicas fail, the read fails if and only if all nodes do, and the shared list is not changed |
| `Postgres.Collect` | pkg/storage/db/polr.go:66-78 | the rows' reports, each row once |
| `Postgres.PolicyReportStore.List` | pkg/storage/db/polr.go:45-82 | a successful list is the answer at some past or present state of the primary; it fails if and only if every node does |
| `Postgres.PolicyReportStore.Get` | pkg/storage/db/polr.go:84-106 | the answer of one configured node that is up, hence of some past or present state of the primary; it is unavailable if and only if every node is |
| `Postgres.PolicyReportStore.Create` | pkg/storage/db/polr.go:108-132 | inserts the row unless the primary key is taken or the statement fails |
| `Postgres.PolicyReportStore.Update` | pkg/storage/db/polr.go:134-157 | changes the row if it is there and reports success either way |
| `Postgres.PolicyReportStore.Delete` | pkg/storage/db/polr.go:159-179 | succeeds if and only if the node that answers has the row and the primary takes the statement, and then the row is absent on the primary and nothing else changed; it is not found if and only if that node lacks the row; any failure leaves the primary unchanged |
| `Postgres.LaggingReplicaHidesRow` | pkg/storage/db/polr.go:163-166 | with every node up, a row the replica has not applied yet cannot be deleted: the call fails and the row stays |
| `Postgres.ReplayOwnPlaces` | pkg/storage/db/polr.go:123-148 | on the primary and on every replica, each row holds a report of its own name and namespace |
| `Postgres.FollowsInterfaceIff` | pkg/storage/db/polr.go:45-179 | for every operation, with the read answered by any node: exactly when the answer and the change are those of the storage interface |
| `Postgres.UpdateFollowsInterfaceIff` | pkg/storage/db/polr.go:148-152 | the answer to an update is the interface's if and only if the row is there; the contents always are |
| `PostgresIsolation.OwnMove` | pkg/storage/db/polr.go:45-179 | a server's statement does the same on any two tables with the same rows of its cluster |
| `PostgresIsolation.ForeignMove` | pkg/storage/db/polr.go:123-168 | a statement of another cluster leaves them alone |
| `PostgresIsolation.ServersAreIsolated` | pkg/storage/db/polr.go:45-179 | in every interleaving of statements, a server's rows and all its replies are those of the run with every other server erased |
| `PostgresSequential.FirstStatementExact` | pkg/storage/db/polr.go:45-166 | a call's first statement returns exactly the answer of the call on the server's rows and changes them so, or is the SELECT of a delete that found its row |
| `PostgresSequential.DeleteExact` | pkg/storage/db/polr.go:168-178 | the DELETE after it returns the answer of the call and removes exactly the row |
| `PostgresSequential.CallsAreSequential` | pkg/storage/db/polr.go:45-179 | in every interleaving of any servers' goroutines, from any table, what a server's calls returned are the answers of a sequential run of them on its own rows, in the order of their last statements, and its rows are what that run leaves |
| `PostgresSequential.CallReturns` | pkg/storage/db/polr.go:45-179 | with the mutex free and the database up, a call runs to its return |
| `Dsn.HostPart` | pkg/storage/db/new.go:152-158 | every host carries the port, unless the port is zero |
| `Dsn.String` | pkg/storage/db/new.go:151-178 | the string built step by step is the printed form that parses back |
| `Dsn.DecodeEscape` | pkg/storage/db/new.go:161-162 | form-decoding an escaped credential gives it back; percent-decoding gives it with pluses for spaces |
| `Dsn.DecodeEscapeIff` | pkg/storage/db/new.go:161-162 | percent-decoding gives an escaped credential back if and only if it has no space |
| `Dsn.UserInfoInjective` | pkg/storage/db/new.go:161-165 | the escaped `user:password` part is equal if and only if user and password are, for all credentials |
| `Dsn.ParsePrint` | pkg/storage/db/new_test.go:34-50 | parsing the printed string recovers the hosts with the port on each, the database, the parameters and the credentials up to spaces |
| `Dsn.ParsedFields` | pkg/storage/db/new.go:152-175 | field by field: the i-th host is the i-th comma-separated one with a colon and the port, unless it is zero; each SSL parameter has its own value, the certificate files if and only if given |
| `Dsn.EscapeExact` | pkg/storage/db/new.go:161-162 | which bytes stay, what a space becomes, and that every other byte takes three characters |
| `Dsn.CredentialsSurviveIff` | pkg/storage/db/new_test.go:37-42 | user and password themselves come back if and only if neither contains a space |

## Left out

- The handlers of ephemeral and cluster ephemeral reports, and the Postgres and in-memory stores of the other three kinds: near-copies of the modelled ones; the handlers here take the kind as a parameter.
- The cluster-scoped etcd store (`pkg/storage/etcd/store.go:195-228`) is the namespaced one with the empty namespace, and is modelled as that.
- JSON and LZW: the in-memory backend uses an abstract encoder and decoder with decode(encode(r)) = r, etcd and Postgres values are kept decoded, and marshalling never fails.
- An etcd call or SQL statement that returns an error has no effect in the model; a lost reply to a write that did take effect is not captured.
- Concurrent requests on one key: the store write and the broadcast are separate unlocked steps in the server, so the claims about event streams are for requests one after another.
- The broadcaster's channels and their limits: it is an append-only log, and a watcher receives its prefix and then every later event.
- Aliasing of request objects: the server fills in a report in place, so the object it stores and the one it returns are the same; here reports are values and the response carries the filled-in report.
- Label selectors are predicates on labels; field selectors and version matching are not applied by the server either.
- The version in a list's metadata, which the code always sets to "1", and the read-only Get request (`pkg/api/polr.go:110-119`): they would only add easy members.
- Versions in the migration's watcher start-up: starting the retrying watcher either works or does not.
- Mutexes of the in-memory backend and around the copy of the replica list: those classes are modelled for one caller at a time; the etcd stores, the counter and the Postgres statements are modelled with interleaving callers.
- `Postgres.PolicyReportStore.Create`: a taken primary key is told apart from other failures only in the model; the server returns one kind of error for both. Nil reports are not modelled.
- `Dsn.ParsePrint`: hosts are kept as they stand; a parser that also checks ports would refuse negative ones, and one that refuses semicolons in queries would drop such parameters.
- Opening databases, pinging with retries, creating tables and indexes, TLS, command-line options, API group installation, table rendering, metrics, logging and manifests.
- The group and version strings come from libraries that are not part of this model; they are taken from the API services in `config/install.yaml:506-550`.
