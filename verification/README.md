# MiniSky protocols, modelled and proved

MiniSky emulates a cloud on one machine. This project models the parts of it whose correctness spans
many calls, crashes or interleavings, and proves what they promise. `dafny verify dfyconfig.toml`
checks all of it.

* **Long-running operations.** `Operations` states each entry point of the operation manager as a
  function of the state, the inputs and the answers of a store that may fail after it committed and
  whose readback may fail too. `OperationManager` is the manager itself, a class whose methods change
  its fields step by step and are proved equal to those functions. `OperationRuns` proves theorems over
  whole runs: publication exactly once, faithfulness to the store, retries, and agreement of names.
  `OperationContents` says on the inputs what each entry point shows afterwards, field by field.
  `OperationNotices` adds that observers are told only after the call has released its mutex.
  `OperationNames` proves the round trip between canonical names and polling paths.
* **Terminal observers.** `TerminalObserver` interleaves every atomic step of the notifier, the worker
  and the unsubscriber; `ObserverRegistry` is the imperative code that takes those steps.
* **Docker ownership.** `Docker` is an adversarial daemon: replies may be wrong about whether a request
  took effect, other actors may change names and containers between requests (unless `quiet`), and a
  log records what every request was aimed at and what it did. `Memcached`, `CloudSql` and
  `VpcNetwork` are the create, adopt, recover, compensate, reconcile and delete protocols on it;
  `OwnershipLabels` and `VpcCidr` are the label and prefix arithmetic they rest on.
* **Counters, chains and transformers.** `Quota` (windows of the request limiter), `QuotaRules` (which rules
  a call meets) and `QuotaBound` (its bound is reached), `AuditLog` (hash chain and checkpoint), `Pagination`
  (page tokens), `BodySpool` (byte accounting of spooled bodies), `DockerLogStream` (demultiplexing),
  `RouteNormalization` (route labels) and `RouteContents` (what a label shows of its path), `Redaction`
  (diagnostic files) and `RedactionCopies` (what the written files hold of their sources).

Where the code does not keep what its documentation says or a caller would expect, the code is
modelled as it is and the exact condition is proved:

* Polling "/v1/" plus a canonical name finds the registered operation if and only if it has a project
  or has no location: the canonical name of an operation with a location alone drops the location
  (`OperationNames.PollFindsRegisteredIff`).
* The barrier finalizer finds an operation with a canonical name if and only if it has a project
  (`OperationNames.CanonicalNameIsScopedIff`).
* Observers are told after the mutex is released, so two finalizers of one name may tell them in the
  reverse order, the interruption marker last (`OperationNotices.MarkerHeardLast`). The order of publication
  is kept if and only if at most one result of the name has still to be told
  (`OperationNotices.OrderIsSafeIff`, `OperationNotices.HeardInOrder`).
* A finalize retry is a no-op if and only if the published result does not carry the interruption marker and
  its response decodes or is replaced by a typed one (`OperationRuns.RetryIsNoOpIff`); with readbacks that
  may fail, a registration or a deletion keeps the visible and the stored names equal exactly for the
  outcomes listed (`OperationRuns.RegistrationKeepsNamesIff`, `OperationRuns.DeletionKeepsNamesIff`).
* A terminal observer may be called without an operation, exactly when none was stored since the worker's
  previous look (`TerminalObserver.DeliveryIsEmptyIff`); this never happens if no token is offered between
  a receive and its look, and can happen after every token that is
  (`TerminalObserver.TimelyTokensCarry`, `TerminalObserver.LateTokenMayCarryNothing`).
* A finalizer panics exactly on a literal `null` response for a scoped operation with a response type
  (`OperationRuns.PanickedIff`, `OperationRuns.NullResponsePanics`), and then nothing changes until a restart
  (`OperationRuns.WedgedUntilRestart`).
* Volume requests of Cloud SQL go by name, so they can hit a volume of another fingerprint, if and only if
  some actor may put such a volume anywhere within a call, after the look that decided the request
  (`CloudSql.RemovalHitsOtherIff`, `CloudSql.MountHitsOtherIff`; `CloudSql.PlantedVolumeIsRemoved` is such a
  run). Whatever actors do between calls, and whatever they do to containers, is harmless.
* `exactLabels` is equality if and only if no expected value is empty
  (`OwnershipLabels.ExactLabelsIsEqualityIff`).
* Following page tokens is complete for all page sizes if and only if no key before the last item
  repeats the one before it; otherwise pages of one item are fetched for ever
  (`Pagination.CompleteIff`). A page size near the largest integer makes a later page panic
  (`Pagination.PanicIff`, `Pagination.LargestPagePanics`).
* An interval one window long admits fewer than twice the limit, and for every limit and window some run
  admits one less than twice (`Quota.IntervalAdmitsBelowTwiceLimit`, `QuotaBound.BoundIsReached`).
* Route normalization is not idempotent; the paths on which it is are characterized by their segments
  (`RouteNormalization.IdempotentIff`), and three applications always equal two.
* A diagnostic file holds no forbidden value, but the end of the read may cut one, and cuts elsewhere then
  pull bytes of it into the output: its first bytes (`Redaction.CutPrefixIsWritten`) or, where its first byte
  is cut out with what stands before it, later ones (`Redaction.CutMiddleIsWritten`). A byte is written
  exactly when it survives and the file up to it is redacted to less than is written
  (`Redaction.CutValueIsWrittenIff`). Where no forbidden value can end inside what was read of the cut one,
  its bytes are written as far as the redacted text before it leaves room
  (`Redaction.CutTailIsWrittenIff`), and nothing is written of it where no more is cut out of the read than
  it begins beyond the limit (`Redaction.FewCutsNothingPulled`).
* Closing a spooled body twice is harmless if and only if it was empty or nothing is in use
  (`BodySpool.CloseAgainIsHarmlessIff`).

What a call of the operation manager does under the persistence mutex is one step, and telling the
observers, after the mutex is released, is another; a literal `null` response makes the original panic with
that mutex held, which is the state `Wedged`. In the Docker protocols `quiet` means that no other actor
changes anything during the call, and `planted` are the labels that other actors may give to volumes during
it, besides removing volumes or replacing them by others of the same labels; promises without either hold
whatever other actors do. A daemon that `answers` answers every look, and one that is `obliging` also does
what every request asks; what it starts runs and what it is probed for is ready. `Shows` is a quiet one that
answers, `Obliges` a quiet obliging one: these say when a protocol must ask for something and when it must
succeed. The log of a daemon tells of each changing request what it did and whether its reply said so, and
its looks record what it showed or found ready and how many changing requests it had logged by then. The class `OperationManager.OperationManager` and the module of that name, and the class
`AuditLog.AuditLog` and its module, share their names as the source file and its type do.

## Model

| member | source | states |
|---|---|---|
| OperationRuns.PublishedOnceAndForAll | pkg/orchestrator/operations.go:128-163 | over every run with ambiguous saves, failing readbacks and crash-restarts and no deletion of that name, a real terminal result seen once is the result stored, and shown by every serving manager, from then on |
| OperationRuns.PublishedOnce | pkg/orchestrator/operations.go:508-533 | one name is published twice only if the first publication carried the interruption marker |
| OperationNotices.NotifiedOnce | pkg/orchestrator/operations.go:530-579 | over every run in which finalizers tell the observers in separate steps, in any order and with crashes between: each publication is heard at most once, and since a time after which a name is not deleted at most one real result of it is heard, it is the one shown and stored, and everything else heard of the name was published before it and carries the interruption marker |
| OperationNotices.HeardInOrder | pkg/orchestrator/operations.go:530-579 | observers hear of a name in the order of publication if no finalizer publishes it while another one of the name has still to tell |
| OperationNotices.OrderIsSafeIff | pkg/orchestrator/operations.go:530-579 | in any consistent state in which the order was kept so far, every order in which the finalizers may go on keeps the order of publication exactly when at most one of them has the name to tell |
| OperationNotices.MarkerHeardLast | pkg/orchestrator/operations.go:530-579 | for every operation a run from the first start in which observers hear of the real result first and of the interruption marker last |
| OperationRuns.RunKeepsBacked | pkg/orchestrator/operations.go:885-912 | in every reachable state, as long as no deletion of that name went unconfirmed, a visible real result is the one the store holds |
| OperationRuns.StepKeepsBacked | pkg/orchestrator/operations.go:885-912 | every single step, confirmed deletions included, keeps visible results equal to stored ones |
| OperationRuns.StepKeepsSealed | pkg/orchestrator/operations.go:540-582 | no step but a deletion of that name changes or hides a visible real result, and none publishes it again |
| OperationRuns.FinalizeKeepsSealed | pkg/orchestrator/operations.go:481-582 | neither finalizer replaces, republishes or re-runs a barrier for a real result |
| OperationRuns.FinalizerIsFaithful | pkg/orchestrator/operations.go:481-582 | a published result is exactly the candidate and exactly what the store holds, even if the barrier then fails or panics; any other outcome leaves every visible operation as it was |
| OperationRuns.LostAcknowledgementSurfaces | pkg/orchestrator/operations.go:885-912 | a commit whose save and readback both failed stays invisible and is what the next successful restart shows |
| OperationRuns.RecoveredKeepsVerdicts | pkg/orchestrator/operations.go:128-163 | recovery at start changes no real result and invents none |
| OperationRuns.SaveIsAllOrNothing | pkg/orchestrator/operations.go:854-881 | whatever a save reports, the store holds the old snapshot or the new one |
| OperationRuns.CommitIsFaithful | pkg/orchestrator/operations.go:885-912 | a candidate counts as committed only if the store holds it, and the store holds the old snapshot or the one with the candidate |
| OperationRuns.AdvanceToDone | pkg/orchestrator/operations.go:369-372 | advancing to DONE takes the step of a finalizer with neither response nor error |
| OperationRuns.PanickedIff | pkg/orchestrator/operations.go:1235-1254 | the finalizers panic exactly on a success with a literal null response for a scoped operation that has a response type, and then change nothing but the mutex |
| OperationRuns.NullResponsePanics | pkg/orchestrator/operations.go:1235-1254 | such a call, with a named operation of a service that types its responses |
| OperationRuns.WedgedUntilRestart | pkg/orchestrator/operations.go:481-582 | after a panic no step but a restart changes the operations or the store or notifies anybody, and the next restart shows every visible result again |
| OperationRuns.CandidateResultIsStable | pkg/orchestrator/operations.go:584-607 | the result of a candidate depends on the inputs and the identity only, not on the clock, the progress or the metadata |
| OperationRuns.RetryIsNoOpIff | pkg/orchestrator/operations.go:508-519 | right after a publication the same call changes nothing and returns nil exactly when its inputs carry no interruption marker and no raw response that stays malformed |
| OperationRuns.RetryAfterAnyRun | pkg/orchestrator/operations.go:557-617 | after any further run without a deletion of the name, the same inputs return nil and change nothing, and inputs with another result return the conflict and change nothing |
| OperationRuns.PublishedCodeIsCanonical | pkg/orchestrator/operations.go:1319-1349 | canonical codes are fixed points and a failure never becomes code 0, so repeating a failure with its published code yields the same result |
| OperationRuns.RunKeepsNames | pkg/orchestrator/operations.go:217-266 | over any run of the durable entry points whose readbacks answer, the visible names are the stored names after every call |
| OperationRuns.StepKeepsNames | pkg/orchestrator/operations.go:633-668 | each durable entry point keeps the two sets of names equal |
| OperationRuns.RegistrationKeepsNamesIff | pkg/orchestrator/operations.go:217-266 | with readbacks that may fail: exactly the outcomes after which a registration leaves no ghost and no lost entry |
| OperationRuns.DeletionKeepsNamesIff | pkg/orchestrator/operations.go:633-668 | the same for rollback and removal |
| OperationRuns.RemoveTellsTheTruth | pkg/orchestrator/operations.go:759-795 | removal answers nil exactly when the operation is gone from view and from the store |
| OperationContents.PublishedContent | pkg/orchestrator/operations.go:584-607 | what a publication shows, whether or not its barrier fails: a failure carries the canonical code and the given message and no response, a success of an unscoped or untyped operation the given response unchanged, of a typed one exactly the fields of the response, its type and, for a missing name, the link of the target; status, done, progress and end time are final and everything else is as it was |
| OperationContents.PublishedFields | pkg/orchestrator/operations.go:1235-1254 | for a typed operation and a response that is an object: every given field but the type keeps its value, the type is that of the operation, a missing name becomes the link unless the type is Empty or there is no link, and there is no other field |
| OperationContents.ScopedIff | pkg/orchestrator/operations.go:1231-1233 | an operation is scoped exactly when it has a service and its name contains "/operations/" |
| OperationContents.CommittedIff | pkg/orchestrator/operations.go:885-912 | a candidate is committed exactly when its save is acknowledged or an answering readback shows it in the store |
| OperationContents.FinalizerOutcome | pkg/orchestrator/operations.go:521-538 | without a real result before, a finalizer publishes exactly what it commits, reports exactly a barrier that fails, and remembers exactly a save that failed |
| OperationContents.KeptResultAnswers | pkg/orchestrator/operations.go:557-617 | a finalizer that meets a real result changes nothing and answers nil exactly when its inputs stand for that result, field by field, else the conflict or an undecodable response |
| OperationContents.UnknownNames | pkg/orchestrator/operations.go:481-548 | unknown names change nothing; the plain finalizer ignores them, the barrier one reports exactly them and the unscoped ones |
| OperationContents.CodesAreNamed | pkg/orchestrator/operations.go:1319-1349 | a published code is a code of google.rpc.Code: the given one if it is one, else the one that the HTTP status stands for |
| OperationContents.RestartContent | pkg/orchestrator/operations.go:128-163 | after a restart exactly the stored operations are shown: finished ones as they are, others done at full progress and at this time with the interruption message and code 13, or 500 if unscoped, and otherwise unchanged |
| OperationContents.RestartServesIff | pkg/orchestrator/operations.go:128-163 | it comes up exactly when the store answers and, if some stored operation was unfinished, can save the interrupted ones |
| OperationContents.AdvanceContent | pkg/orchestrator/operations.go:369-404 | an unfinished operation shows the given progress and status and the time it first ran, also when the save fails, and nothing else changes; a finished one is refused |
| OperationContents.MetadataContent | pkg/orchestrator/operations.go:407-430 | metadata that normalizes is what the operation shows, finished or not, and nothing else changes; other metadata is refused |
| OperationContents.RegistrationContent | pkg/orchestrator/operations.go:217-266 | a registration is refused exactly when its save fails and it asks for compensation; what is visible under its name then is the given operation or what the store holds, and no other name changes |
| OperationContents.RollbackContent | pkg/orchestrator/operations.go:633-668 | a rollback answers nil exactly when its save is acknowledged or there is nothing to remove; after a failure the name shows what the store holds, or what was there if that cannot be read or has no entry |
| OperationContents.DegradedSticks | pkg/orchestrator/operations.go:1005-1012 | over every run a failed save is reported as degraded until the next restart |
| OperationManager.OperationStore.Save | pkg/orchestrator/operations.go:869-881 | the store a manager writes: a save commits or not, independently of what it reports |
| OperationManager.OperationManager.Insert | pkg/orchestrator/operations.go:217-266 | the whole new state of a registration, its compensating save and its readback |
| OperationManager.OperationManager.Advance | pkg/orchestrator/operations.go:369-404 | the whole new state and result of an advance: DONE is the finalizer, a terminal operation is refused |
| OperationManager.OperationManager.UpdateMetadata | pkg/orchestrator/operations.go:407-430 | the whole new state of a metadata update, also on a terminal operation |
| OperationManager.OperationManager.Finalize | pkg/orchestrator/operations.go:540-582 | the whole new state and result of the plain finalizer, by the function whose results the rows of OperationContents say on the inputs; an unknown name is nil |
| OperationManager.OperationManager.FinalizeWithBarrier | pkg/orchestrator/operations.go:481-538 | the whole new state and result of the barrier finalizer, by the same function; an unknown or unscoped name is an error |
| OperationManager.OperationManager.PersistCandidate | pkg/orchestrator/operations.go:885-912 | a candidate is committed exactly when its save succeeds or its readback shows exactly it |
| OperationManager.OperationManager.Rollback | pkg/orchestrator/operations.go:633-668 | the whole new state of a rollback: what is visible afterwards is what the readback shows |
| OperationManager.OperationManager.Remove | pkg/orchestrator/operations.go:759-795 | the whole new state of a removal |
| OperationManager.Open | pkg/orchestrator/operations.go:128-163 | a restart shows the stored operations, the unfinished ones interrupted and saved, or fails |
| OperationNames.PollFindsRegisteredIff | pkg/orchestrator/operations.go:305-328 | polling a version segment and the canonical name finds the registered operation exactly when it has a project or has no location |
| OperationNames.PollFindsLocationOnly | pkg/orchestrator/operations.go:305-328 | an operation with a location alone is found under its location |
| OperationNames.PollFindsLegacy | pkg/orchestrator/operations.go:203-215 | an operation named by its bare identifier is found under the path of its own project and location, also when it has neither, and answers with the name in the path |
| OperationNames.PollStaysInScope | pkg/orchestrator/operations.go:305-328 | every successful poll, of any path, returns an operation of the asked service whose project and location stand in the path |
| OperationNames.PollIff | pkg/orchestrator/operations.go:305-328 | a poll looks under the last segment only if nothing of the asked service, project and location is held under the whole name; it then succeeds exactly when what it finds has the project and the location of the path, and answers it under the name in the path |
| OperationNames.PlacesAre | pkg/orchestrator/operations.go:1181-1210 | with a version segment, exactly locations, regions and zones are accepted as places |
| OperationNames.PollFindsEachPlace | pkg/orchestrator/operations.go:305-328 | an operation named by its bare identifier with a project and a location is found under each of the three |
| OperationNames.CanonicalPathResolves | pkg/orchestrator/operations.go:1145-1210 | what a version segment and a canonical name resolve to |
| OperationNames.ScopeOfPathIff | pkg/orchestrator/operations.go:1181-1210 | exactly which paths, with or without a leading slash, are accepted, and with which project and location |
| OperationNames.AcceptedPathIsJoin | pkg/orchestrator/operations.go:1181-1210 | nothing but a join of nonempty segments is accepted |
| OperationNames.CanonicalNameIsScopedIff | pkg/orchestrator/operations.go:1231-1233 | a canonical name counts as scoped exactly when it has a project |
| TerminalObserver.RunKeepsInv | pkg/orchestrator/operations.go:1021-1058 | in every reachable state a pending operation implies a token, a send in progress or an awake worker |
| TerminalObserver.NoLostWakeup | pkg/orchestrator/operations.go:1021-1058 | under every interleaving a quiescent subscribed observer has received the latest operation, and what it received is a subsequence of what was notified |
| TerminalObserver.PendingIsDelivered | pkg/orchestrator/operations.go:1040-1058 | a pending operation reaches the callback within three worker steps unless replaced or unsubscribed, and one of them is always enabled |
| TerminalObserver.NothingAfterUnsubscribe | pkg/orchestrator/operations.go:713-736 | once Unsubscribe took the mutex no delivery starts |
| TerminalObserver.WorkerExits | pkg/orchestrator/operations.go:713-755 | after Unsubscribe the worker exits within three of its own steps, one of which is always enabled |
| TerminalObserver.DeliveryIsEmptyIff | pkg/orchestrator/operations.go:1043-1056 | in every run a delivery carries no operation exactly when none was stored since the previous look at the slot |
| TerminalObserver.TimelyTokensCarry | pkg/orchestrator/operations.go:1021-1058 | in every run in which no token is offered to a worker that has received but not looked, every delivery carries an operation |
| TerminalObserver.LateTokenMayCarryNothing | pkg/orchestrator/operations.go:1021-1058 | every token offered so late can be followed, by steps of the worker alone, by an empty delivery |
| TerminalObserver.NextIsEmptyIff | pkg/orchestrator/operations.go:1040-1058 | when the worker runs alone its next delivery is empty exactly when a wakeup without an operation was on its way |
| TerminalObserver.StaleTokenDeliversNothing | pkg/orchestrator/operations.go:1043-1056 | a run from the start whose second delivery carries no operation |
| ObserverRegistry.Registry.Notify | pkg/orchestrator/operations.go:1021-1038 | every registered observer makes exactly the protocol's notification steps, and nothing else changes |
| ObserverRegistry.Registry.Deactivate | pkg/orchestrator/operations.go:713-736 | the observer makes the protocol's deactivation step and leaves the registry |
| ObserverRegistry.Registry.Observe | pkg/orchestrator/operations.go:688-709 | a new observer starts in the protocol's initial state under an unused identity |
| ObserverRegistry.Observer.Take | pkg/orchestrator/operations.go:1040-1058 | the worker's look at the slot is the protocol's |
| Memcached.ServiceManager.Provision | pkg/orchestrator/memcached.go:89-227 | every start and removal is aimed at a container created with exactly this resource's labels, and a failure with exists=false has removed the container whose identity the create returned, whatever others do; a success was found ready; without interference a success serves what was asked, and such a failure leaves containers and names as they were; if looks are answered, a stopped container of the resource is started once, another is left alone, and one created behind a lost reply is found and started; if every request works it succeeds exactly where it can |
| Memcached.ServiceManager.Finish | pkg/orchestrator/memcached.go:150-227 | a captured container is activated or compensated; exists=false means it is gone, whatever others do |
| Memcached.ServiceManager.Recover | pkg/orchestrator/memcached.go:340-381 | a create whose identity was lost is adopted and started, or reported, under the same guarantee |
| Memcached.ServiceManager.Compensate | pkg/orchestrator/memcached.go:383-414 | only the captured identity is removed, only if still owned; exists=false means it is gone; if looks are answered, the removal of an owned one is asked for |
| Memcached.ServiceManager.Activate | pkg/orchestrator/memcached.go:440-508 | only starts, only of an owned container: one start of a stopped one and none of another, and success only if its reply said so; a success was found ready and serves at the endpoint returned; if every request works it succeeds exactly for an owned container of the image that is stopped or reachable |
| Memcached.ServiceManager.Wake | pkg/orchestrator/memcached.go:451-485 | a created or exited container is started exactly once, one in another state not at all |
| Memcached.ServiceManager.Reconcile | pkg/orchestrator/memcached.go:282-310 | creates and removes nothing; if looks are answered, starts the stopped container of the resource once and leaves another alone; if every request works, succeeds exactly where it can; the flags tell ownership and existence, and uncertainty is set and cleared with them |
| Memcached.ServiceManager.Delete | pkg/orchestrator/memcached.go:315-338 | asks nothing of the daemon while ownership is uncertain; else removes at most one container, an owned one; without interference success means the name is free; if looks are answered, the removal of an owned container is asked for and another is refused |
| Memcached.AnySchedule | pkg/orchestrator/memcached.go:89-438 | over any schedule of calls with other actors between and within them, every start and removal in the log is aimed at an identity created for one of the called resources |
| Memcached.LabelsIdentifyResource | pkg/orchestrator/memcached.go:587-594 | no labels are exactly those of two resources or two profiles |
| Memcached.NamesIdentifyResource | pkg/orchestrator/memcached.go:582-585 | with an injective digest two resources, of one profile or two, have two names |
| OwnershipLabels.ExactLabelsIsEqualityIff | pkg/orchestrator/vpc_network.go:426-436 | the comparison accepts the expected labels only, exactly when none of their values is empty |
| CloudSql.Resolve | pkg/orchestrator/cloudsql.go:89-127 | a spec resolves exactly when its names, fingerprint, policy and engine are known and its image and identities absent or well formed; the result is the spec with the image of its engine |
| CloudSql.LabelsSeparateFingerprints | pkg/orchestrator/cloudsql.go:232-248 | no labels are exactly those of two ownership fingerprints |
| CloudSql.LabelsIdentifySpec | pkg/orchestrator/cloudsql.go:232-248 | labels that are exactly those of two specs have one profile, project, instance, engine, policy, image and intent |
| CloudSql.Backend.Provision | pkg/orchestrator/manager.go:2088-2273 | every container it starts or removes carries its labels and no volume is removed on any path, whatever others do; a volume it mounts carries its labels, planted ones, or none; a success was found ready; it reports "created" exactly when the daemon said so; without interference every mounted volume carries its labels, all volumes stay, and a success serves a new container on an owned volume; if every request works it succeeds exactly under a free name, for the requested image, on a volume that is free or owned |
| CloudSql.Backend.Reconcile | pkg/orchestrator/cloudsql.go:264-325 | the same without creating or removing a volume; a success keeps or captures the volume identity; if looks are answered, nothing is asked for without the owned volume of the persisted identity, and with it a stopped container of the target is started once and another is left alone; if every request works it serves exactly what can be brought to serve, and makes a missing container again |
| CloudSql.Backend.Recreate | pkg/orchestrator/cloudsql.go:403-531 | a lost container is made again on the owned volume of the persisted identity, other containers and all volumes stay; if every request works, exactly when the image still has its identity |
| CloudSql.Backend.Activate | pkg/orchestrator/cloudsql.go:327-401 | whatever others do, a created or exited container with the labels, image and mount of the target is started exactly once and nothing else is asked for; a success was found ready and serves, and its start was confirmed; if every request works it succeeds exactly for such a container that is stopped or reachable |
| CloudSql.Backend.Launch | pkg/orchestrator/cloudsql.go:455-520 | a created container is checked, its volume checked again, and only then started; one that cannot be used is removed again |
| CloudSql.Backend.RemoveCreated | pkg/orchestrator/cloudsql.go:657-690 | its one removal directly follows, in the history of the daemon, a look that found this container, owned and never run, whatever others do; no volume is removed |
| CloudSql.Backend.EnsureVolume | pkg/orchestrator/manager.go:2517-2558 | removes nothing; without interference an existing volume is left as it is and accepted only if its labels are exactly the expected ones; if every request works, exactly then, and a missing one is made |
| CloudSql.Backend.Delete | pkg/orchestrator/manager.go:2282-2327 | every container it removes carries its labels, whatever others do, and the volume carries them or planted ones; each removal directly follows a look that found its labels; without interference all else stays, and nothing is removed when the identity of the volume is not the requested one; if looks are answered nothing is asked for unless the volume and the container, where there are any, are the exact ones; if every request works it succeeds exactly then |
| CloudSql.Backend.DeleteVolume | pkg/orchestrator/manager.go:2560-2609 | the volumes and the log after it are those of a run in which others act before the look and before the removal; its one removal directly follows, in the history of the daemon, a look that found a volume of these labels and this identity; without interference it removes that volume or nothing |
| CloudSql.Backend.CreateContainer | pkg/orchestrator/cloudsql.go:403-531 | called where the owned volume was just seen, the create carries the labels of the target and mounts what stands under the name after whatever others did to the volumes since |
| CloudSql.PermittedSparesOthers | pkg/orchestrator/cloudsql.go:692-727 | what one fingerprint is permitted never starts or removes a container of another and, unless a volume of another is planted within the call, never mounts or removes one |
| CloudSql.AnySchedule | pkg/orchestrator/cloudsql.go:264-531 | over any calls for other fingerprints, with other actors between and within them, no container of a fingerprint is started or removed, even of the same instance, and without delete calls no volume is removed at all; none of its volumes is mounted or removed unless one is planted within a call; and every start and removal directly follows a look that found the labels of a called spec |
| CloudSql.RemovalHitsOtherIff | pkg/orchestrator/manager.go:2560-2609 | where a deletion finds its own volume, some run of it removes a volume of another fingerprint exactly when others may plant one of those within the call |
| CloudSql.RunSparesOthers | pkg/orchestrator/manager.go:2560-2609 | whatever a deletion finds, no run of it removes a volume of another owner unless one is planted within the call |
| CloudSql.PlantedVolumeIsRemoved | pkg/orchestrator/manager.go:2560-2609 | such a run, for any two fingerprints, with the identity of the volume checked |
| CloudSql.MountHitsOtherIff | pkg/orchestrator/cloudsql.go:403-531 | where the owned volume was just seen, some create mounts a volume of another fingerprint exactly when others may plant one of those within the call |
| VpcCidr.OverlapsIff | pkg/orchestrator/vpc_cidr.go:19-35 | the overlap test is true exactly when the address sets meet, and overlapping prefixes are nested |
| VpcCidr.CoversIsInterval | pkg/orchestrator/vpc_cidr.go:19-35 | a masked prefix covers exactly the run of addresses that starts at its own |
| VpcCidr.Normalize | pkg/orchestrator/vpc_cidr.go:19-35 | the scan of the prohibited table, equal to its specification |
| VpcCidr.NormalizeIff | pkg/orchestrator/vpc_cidr.go:8-35 | a canonical masked prefix of /8 to /29 is accepted exactly when none of its addresses lies in a prohibited range |
| VpcNetwork.CanonicalResourceIsInjective | pkg/orchestrator/vpc_network.go:39-51 | valid identities with one canonical resource are the same |
| VpcNetwork.NamesIff | pkg/orchestrator/vpc_network.go:27-47 | exactly the texts that the pattern of profiles, projects and names describes are valid identities |
| VpcNetwork.VpcManager.NoOwnedOverlap | pkg/orchestrator/vpc_network.go:323-370 | a create may go on only if the prefix is apart from every other owned bridge, and exactly then if the list is answered |
| VpcNetwork.VpcManager.Ensure | pkg/orchestrator/vpc_network.go:106-194 | keeps the address plan and changes nothing or adds the requested bridge; a success reports a bridge that matches exactly; an invalid identity or prefix is refused; if looks are answered an overlap is refused and a bridge made behind a lost reply is found; if every request works a free name is taken exactly where the prefix is apart |
| VpcNetwork.VpcManager.ReconcileCreate | pkg/orchestrator/vpc_network.go:196-215 | a create in doubt is accepted only when exactly that bridge is found, and always if that is what the look must find |
| VpcNetwork.VpcManager.Delete | pkg/orchestrator/vpc_network.go:219-260 | success means that a bridge that matched exactly was there and is the only thing removed; without such a bridge, or for an invalid identity or a refused prefix, it fails and changes nothing; if every request works and only that bridge can be found it succeeds |
| VpcNetwork.AnySchedule | pkg/orchestrator/vpc_network.go:106-260 | from none, after any ensure and delete calls with any lost replies, owned bridges share no address and hold no prohibited one |
| Quota.New | pkg/router/quota.go:46-79 | a limiter is made exactly for a configuration whose selectors are not blank and whose rules are in range |
| Quota.CheckRules | pkg/router/quota.go:55-68 | the loop over one table, in any order, accepts exactly the valid tables |
| Quota.QuotaLimiter.Allow | pkg/router/quota.go:100-157 | the decision on the rules that the rows of QuotaRules say exactly on the call; an admitted call is charged to all of them, a refused one changes no bucket |
| QuotaRules.MatchedIff | pkg/router/quota.go:104-135 | the rules consulted for a call are exactly the configured ones that apply: the service rule of its service, the project rule of its nonempty project, the default always, and the route rule of its service and route or, without one, of its route |
| QuotaRules.RejectedIff | pkg/router/quota.go:136-148 | a call is rejected exactly when some configured rule that applies is full |
| QuotaRules.FirstFullRejects | pkg/router/quota.go:136-148 | the rejection names the first full rule in the order route, service, project, default, and the end of its window |
| QuotaRules.RejectedAfterRunIff | pkg/router/quota.go:100-157 | after any run with a clock that does not run back, a call is rejected exactly when a configured rule that applies has admitted its limit in a window that is still open |
| QuotaRules.AdmittedStep | pkg/router/quota.go:100-157 | a call adds itself to the admitted ones of exactly the rules that apply to it, unless it is barred, in the open window or in a new one |
| Quota.KeyTextIsInjective | pkg/router/quota.go:137-137 | bucket keys of different scopes or selectors are different texts |
| Quota.AllowedIff | pkg/router/quota.go:136-156 | a call is admitted exactly when no matching rule is full |
| Quota.ChargeAt | pkg/router/quota.go:151-155 | charging raises the bucket of each matching rule by one and changes no other |
| Quota.WindowAdmitsAtMostLimit | pkg/router/quota.go:100-157 | over every run with a clock that does not run back, a fixed window admits at most the limit, lasts at most its length from its first call, and overlaps no other |
| Quota.IntervalAdmitsBelowTwiceLimit | pkg/router/quota.go:100-157 | any half-open interval one window long admits at most twice the limit less one |
| QuotaBound.BoundIsReached | pkg/router/quota.go:100-157 | for every limit, window and start time a run in which such an interval admits exactly that many |
| Quota.RetryAfterIsInRange | pkg/router/quota.go:142-148 | a refusal names a full matching rule and a wait in (0, Window], a day at most |
| Quota.WaitingMakesRoom | pkg/router/quota.go:142-148 | after that wait the rule has its whole limit again whatever calls came meanwhile, and one instant earlier it is still full |
| Quota.RejectedChangesNothing | pkg/router/quota.go:142-148 | a refused call is charged to no scope |
| AuditLog.Disk.VerifyAuditPath | pkg/security/audit.go:285-366 | the loop over the lines and the comparison with the checkpoint, equal to their specification |
| AuditLog.VerifyIff | pkg/security/audit.go:285-366 | verification accepts exactly the hash chains whose tail the checkpoint names, and returns them |
| AuditLog.CheckpointDeterminesLog | pkg/security/audit.go:329-366 | with an injective digest, at most one log is accepted against a checkpoint |
| AuditLog.ChainIsDetermined | pkg/security/audit.go:368-376 | chains of equal length and equal last hash are equal |
| AuditLog.AuditLog.Append | pkg/security/audit.go:168-233 | the whole new state of an append whose write tears or whose sync or checkpoint fails, and when it reports success |
| AuditLog.OpenAuditLog | pkg/security/audit.go:76-112 | a log opens exactly when it verifies, and continues from its tail |
| AuditLog.RunVerifiesIff | pkg/security/audit.go:168-366 | after any run of appends and reopens with any failures, verification accepts exactly when every line is a recorded one and the checkpoint names the last, and then returns exactly the recorded list |
| AuditLog.CleanRunVerifies | pkg/security/audit.go:168-366 | with writes and syncs that succeed and a last checkpoint that was written, it returns exactly the appended records in order |
| Pagination.LexicographicIsOrder | pkg/pagination/pagination.go:36-36 | the order on keys is a strict total order |
| Pagination.SearchStrings | pkg/pagination/pagination.go:50-50 | binary search finds the first key not below the wanted one |
| Pagination.PageItems | pkg/pagination/pagination.go:34-78 | a request gets the page of some sort of its items that its token and size select |
| Pagination.AcceptedIff | pkg/pagination/pagination.go:41-54 | a token is accepted exactly if it decodes, has version 1, and has the digest of this scope and of these keys |
| Pagination.DefaultPage | pkg/pagination/pagination.go:56-63 | without a token and a size a request gets the first 100 items, and a token exactly if there are more |
| Pagination.SortIsUnique | pkg/pagination/pagination.go:35-36 | with distinct keys the sorted collection does not depend on the order of the items |
| Pagination.PanicIff | pkg/pagination/pagination.go:56-63 | a page panics exactly when its token is accepted and start plus size exceeds 64 bits |
| Pagination.LargestPagePanics | pkg/pagination/pagination.go:56-63 | such a request: the token of a first page of one item, with the largest page size |
| Pagination.IssuedTokenIsAcceptedIff | pkg/pagination/pagination.go:41-54 | a token is accepted exactly by the same scope and the same key sequence |
| Pagination.ResumesAtIff | pkg/pagination/pagination.go:50-54 | a token resumes where its page ended exactly when that page's last key does not repeat the one before it |
| Pagination.CompleteIff | pkg/pagination/pagination.go:34-78 | following tokens fetches exactly the sorted collection for all page sizes, if and only if no key before the last repeats the one before it |
| Pagination.DistinctKeysAreComplete | pkg/pagination/pagination.go:34-78 | with distinct keys, whatever order the items come in at each request, the pages end and concatenate to the sorted collection |
| BodySpool.Quota.Reserve | pkg/router/body_spool.go:31-39 | a reservation succeeds exactly when it fits, and is then all counted |
| BodySpool.SpoolBody | pkg/router/body_spool.go:85-137 | a body is spooled exactly when all of it fits both limits, is written, ends well and can be sought back to its start, and is then charged its length; a refused one leaves no charge; it is too large exactly when it is cut off over its limit or reads so at its end, and over the quota exactly when it is cut off over the room left |
| BodySpool.QuotaIsExact | pkg/router/body_spool.go:77-137 | under every interleaving with each spool closed once, the used bytes are the live bytes and reservations, never above the maximum, and no body exceeds its limit |
| BodySpool.ClampNeverFires | pkg/router/body_spool.go:41-48 | the release of a spool never meets the clamp |
| BodySpool.CloseAgainIsHarmlessIff | pkg/router/body_spool.go:77-83 | a second close keeps the accounting exactly when the spool was empty or nothing is in use |
| DockerLogStream.ReadDockerLogStream | pkg/orchestrator/manager.go:1715-1743 | succeeds exactly on whole frames with a clean end; the output is the first limit bytes of the payloads, truncated exactly when there were more |
| DockerLogStream.FramesAreUnique | pkg/orchestrator/manager.go:1715-1743 | a byte stream is made of one sequence of frames only |
| DockerLogStream.HeaderOfSize | pkg/orchestrator/manager.go:1715-1743 | the size in a header has its most significant byte first |
| RouteNormalization.NormalizeRoute | pkg/observability/observability.go:400-455 | the label of a path, equal to its specification |
| RouteNormalization.RewriteInPlace | pkg/observability/observability.go:412-449 | the in-place loop, which reads segments it has already rewritten, is one left-to-right pass |
| RouteNormalization.PassIsShaped | pkg/observability/observability.go:412-478 | every rewritten segment is a vocabulary word with at most a known action, and after a collection it is an identifier |
| RouteNormalization.PassSettles | pkg/observability/observability.go:412-449 | a second pass changes the version placeholder and nothing else |
| RouteNormalization.LabelsAreBounded | pkg/observability/observability.go:400-455 | every label has at most 256 bytes and only vocabulary segments, or is the overlong marker |
| RouteNormalization.ThriceIsTwice | pkg/observability/observability.go:226-226 | for every path a third normalization changes nothing, so labels normalized at least twice are fixed points |
| RouteNormalization.IdempotentIff | pkg/observability/observability.go:400-455 | a second normalization changes nothing exactly for the paths whose label is not too long, whose first segment is not empty unless alone, and in which no unknown API version stands outside a collection |
| RouteNormalization.VersionIff | pkg/observability/observability.go:414-432 | a segment becomes the version placeholder exactly when it is an unknown API version that does not follow a collection |
| RouteNormalization.StableIff | pkg/observability/observability.go:400-455 | a second normalization changes nothing exactly when the first gave no overlong marker, no version placeholder and no empty leading segment |
| RouteNormalization.UnknownVersionMoves | pkg/observability/observability.go:457-467 | every unknown API version is a path on which normalization is not idempotent |
| RouteNormalization.StandardIsVocabulary | pkg/observability/observability.go:380-398 | the words of the original meet the conditions of all these results |
| RouteContents.SegmentContent | pkg/observability/observability.go:412-449 | what each segment shows, by its place in the path as it came: an item the identifier placeholder, an unknown version its own, each with a known action, a vocabulary word itself, anything else the placeholder |
| RouteContents.ItemsDoNotShow | pkg/observability/observability.go:412-449 | lists of segments that differ only in items have one label |
| RouteContents.RouteOfPath | pkg/observability/observability.go:400-455 | the label of a path is the join of what its segments show, or the marker if that is longer than 256 |
| RouteContents.RouteOfAdministration | pkg/observability/observability.go:400-411 | an administrative path has the label of what follows its first two segments |
| RouteContents.VersionNumberIff | pkg/observability/observability.go:457-467 | an API version is a "v" and at least one digit |
| RouteContents.InstancesShareALabel | pkg/observability/observability.go:380-449 | two instances of two projects, of any names, have one label |
| Redaction.RedactAll | scripts/phase12-sanitize-diagnostics.py:29-46 | the loop ends and cuts the leftmost longest match until none is left |
| Redaction.RedactedIsClean | scripts/phase12-sanitize-diagnostics.py:29-46 | the result holds no forbidden value, is a subsequence of the input, and is the input exactly when that was clean |
| Redaction.OrderDoesNotMatter | scripts/phase12-sanitize-diagnostics.py:33-43 | the result depends on the set of forbidden values only |
| Redaction.SanitizedDependsOnValues | scripts/phase12-sanitize-diagnostics.py:85-102 | what is written of a file depends on the set of forbidden values only |
| Redaction.SanitizedIsClean | scripts/phase12-sanitize-diagnostics.py:95-102 | what is written of a file is clean after the marker is appended and the text cut, keeps its limit, and is the redacted file when that fits |
| Redaction.OutputIsSurvivors | scripts/phase12-sanitize-diagnostics.py:95-102 | the output is a run of the surviving bytes of the file in their order, then at most bytes of the marker |
| Redaction.SurvivorPlace | scripts/phase12-sanitize-diagnostics.py:29-46 | what stands before a surviving byte is redacted as if nothing came after it: the place of the byte in the result is the length of that |
| Redaction.ByteIsWrittenIff | scripts/phase12-sanitize-diagnostics.py:95-102 | any byte of the file is written exactly when it survives and the file up to it is redacted to less than is written |
| Redaction.CutValueIsWrittenIff | scripts/phase12-sanitize-diagnostics.py:95-102 | a forbidden value cut by the end of the read begins beyond the limit, and each of its bytes that was read is written exactly under that condition |
| Redaction.CutTailIsWrittenIff | scripts/phase12-sanitize-diagnostics.py:95-102 | where no forbidden value can end inside what was read from some offset on, a byte there is written exactly when the redacted text before that offset and the bytes between fit below what is written |
| Redaction.CutTailIsWrittenInLimitIff | scripts/phase12-sanitize-diagnostics.py:95-102 | the same with the limit itself, where the marker joins nothing |
| Redaction.FewCutsNothingPulled | scripts/phase12-sanitize-diagnostics.py:95-102 | nothing from an offset on is written if no more is cut out of the read than the offset lies beyond the limit |
| Redaction.CutPrefixIsWritten | scripts/phase12-sanitize-diagnostics.py:95-102 | a file whose third value is cut and of which the first four bytes of that value are written |
| Redaction.CutMiddleIsWritten | scripts/phase12-sanitize-diagnostics.py:95-102 | a file whose cut value loses its first byte and of which the four bytes after that are written |
| Redaction.NothingCutNothingPulled | scripts/phase12-sanitize-diagnostics.py:95-102 | when nothing is cut out of the read, nothing beyond the limit is written |
| Redaction.Sanitize | scripts/phase12-sanitize-diagnostics.py:58-110 | refuses exactly the bad limits and lists of values; else writes the copies whose content the rows of RedactionCopies say on their sources |
| Redaction.CopiesAreSafe | scripts/phase12-sanitize-diagnostics.py:88-110 | no written file holds a forbidden value or exceeds its limit, their sizes sum to at most the total, and files are dropped only from the end and only when it is used up |
| RedactionCopies.CopiesHoldTheirSources | scripts/phase12-sanitize-diagnostics.py:88-110 | every written file holds its own source, in its place: one within its room all of it with the forbidden values cut out, clean, in order, and unchanged exactly if it was clean; a longer one its surviving bytes and then bytes of the marker; a file that cannot be read is not written |
| RedactionCopies.CopyAt | scripts/phase12-sanitize-diagnostics.py:88-110 | each copy is made of the source in its place with the room that the copies before it have left |
| RedactionCopies.CleanFileIsCut | scripts/phase12-sanitize-diagnostics.py:95-102 | a longer file in which nothing is forbidden is cut at its limit |
| RedactionCopies.RoomForMarker | scripts/phase12-sanitize-diagnostics.py:95-102 | a longer file ends in the whole marker if what is left of it makes room |

## Left out

- The table of response types by service and method is a parameter of the operation model; JSON is an
  algebraic type with equality, numbers are exact, and strings are valid UTF-8.
- Fresh operation names and identifiers are assumed; a save that failed does not commit later.
- Metadata normalization, list and stop helpers, asynchronous pauses and log output of the operation
  manager.
- RollbackScopedRegistration and RemoveDurable treat a missing store entry as a failed readback while
  registration treats it as an empty store; both are modelled as the code has them.
- Readiness probes and looks at images are single outcomes of the daemon, and contexts do not expire; image
  tables, the validation of
  node counts and versions, and the digest in Docker names are parameters.
- Nobody names a container like a 64-character hexadecimal identity; Docker resolves identities first.
- CloudSql.AnySchedule: promises nothing about the volumes of a fingerprint that other actors may plant
  within a call, because volume requests go by name and the code cannot aim them at an identity.
- A create that times out and takes effect only after the recovery has looked counts as another actor:
  the promise that exists=false leaves nothing behind is made without such.
- CloudSql.Backend.Provision: `created` being false does not promise absence, as in the code, where a
  failed compensation is only reported.
- PrepareCloudSQLVM, ExecuteCloudSQLAdmin and DeleteLegacyVPCNetwork.
- VpcNetwork.AnySchedule: has no other actors that change bridges, since the code cannot keep an address plan
  that others break.
- Text parsing of CIDRs: a parsed prefix and whether its text was canonical are inputs.
- The service of a limited call is already normalized; the clock does not run back between calls,
  although the code reads it before it takes the lock.
- Bucket keys are pairs, not texts; `Quota.KeyTextIsInjective` is the reason that is the same.
- Audit records: sanitizing of fields and file permissions; a torn record never decodes, SHA-256 is
  injective, and the 64-bit sequence number does not wrap around.
- Pagination: encoding of tokens is a datatype, and keys are valid UTF-8, whose byte order is the order
  of code points.
- Resetting a profile's spool state, and bodies that never end without bytes.
- BodySpool.SpoolBody: states what one body does alone; interleaving is in `BodySpool.QuotaIsExact`.
- The allowed file names, directory checks and links of the diagnostics script; its forbidden values
  form a set, here a list whose order is proved not to matter.
- Emulator boot, HTTP plumbing, the dashboard, the command line and the state locks.
