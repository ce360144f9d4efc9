# Verified model of the keystone-operator

This project models the stateful core of the operator that runs OpenStack Keystone on Kubernetes and
proves what its loops and state machines guarantee. `dafny verify dfyconfig.toml` checks it all.

The code that changes state in place is modelled as classes whose methods have the source's branches,
loops and early returns. Each of those methods is proved equal to a function of the old state and of
how its outside calls turn out; invariants, run-level safety, progress, round trips and exact conditions
are then lemmas about those functions. What a step achieves in terms of the spec, the clock and
the outcomes of its calls is stated besides, without the functions that compute it.

| files | part of the operator |
|---|---|
| `FernetSlots`, `FernetResize`, `FernetRepository`, `FernetContents`, `FernetRuns`, `FernetHistory`, `FernetClock`, `KeystoneVolumes` | the Fernet key secret: rotation, shrinking and growing in place, key lifetime, and the keys the pods mount |
| `CredentialNames`, `CredentialClock`, `CredentialModel`, `CredentialController`, `CredentialCleanup`, `CredentialDeletion`, `CredentialSafety`, `CredentialAgreement`, `CredentialRuns`, `CredentialOutcomes` | application credentials: creation with compensation, rotation, cleanup, deletion, isolation of services |
| `TeardownModel`, `TeardownControllers`, `TeardownSafety`, `TeardownProgress`, `TeardownOutcomes`, `TeardownBringUp` | the finalizer protocol between KeystoneAPI, KeystoneService and KeystoneEndpoint |
| `EndpointModel`, `EndpointController`, `EndpointSteps`, `EndpointConvergence`, `EndpointUrls` | registering endpoints in the catalogue, and reading and hashing the registered URLs |
| `TransportRotation`, `FilePaths`, `FederationSplit`, `RouteAnnotations` | the transport secret's consumer finalizer, the federation file split, the route timeout annotations |
| `Wrappers`, `Sequences`, `Decimal`, `StringOrder`, `Times` | shared notions: options, outcomes of calls, distinct lists, decimals, sorted keys, truncated times |

Outside calls - the Kubernetes API, the OpenStack client, the random source, the clock - are parameters
that say how they turn out. A call that changes something may fail without effect, or take effect and
report an error all the same. One reconcile is one step; between steps users, other operators and other
controllers act.

Results that are boundaries rather than plain guarantees:

- The loop that removes extra Fernet keys ends exactly on the data described by
  `FernetResize.RemovalEndsIff`. On contiguous keys it does not end precisely when a rotation is due
  while there are fewer keys than the spec asks for (`FernetContents.CompletesIff`), which happens if
  the maximum is raised during a due period. This is the precondition of `EnsureFernetKeys`.
- A rotation that is due while there are more keys than the spec asks for overwrites the key at index n,
  so keys are lost out of age order (`FernetContents.OrderKeptIff`).
- A hole in the stored Fernet keys below the last one is never repaired, and the pods then cannot mount
  the secret (`FernetResize.FilledIff`, `KeystoneVolumes.MountableIff`).
- If the current credential secret is removed by force, a reconcile makes the status name a secret with
  another credential exactly if the replacement gets the same name and is stored but not recorded, because
  creating it reported an error or the status patch was lost (`CredentialAgreement.RunAgreesIff`).
- A credential that Keystone creates while the call reports an error is never stored and never revoked, and
  neither is one that can be neither stored nor revoked (`CredentialSafety.LostIff`); all others are held
  (`CredentialSafety.RunHeld`).
- A reconcile of a deleting KeystoneEndpoint or KeystoneService can cut it loose: its finalizer on another
  object goes, but the lost status patch, or an Update that reported an error although it took effect, keeps
  it registered. That is exactly when the teardown invariant fails (`TeardownSafety.RunInvIff`); the object
  then waits as long as there is no KeystoneAPI (`TeardownProgress.EndpointWaitsIff`).
- A transport secret that is released without the status following is not tracked any more, and the secret
  in use can lose its finalizer early (`TransportRotation.RunHeldIff`, `TransportRotation.LostTrack`).
- Endpoint deletion goes by the spec and not by what is recorded (`EndpointConvergence.DeleteCompleteIff`).
- Federation file names that are different but lead to the same place below the mount directory make the pod
  specification invalid (`FederationSplit.MountsAcceptedIff`, `FilePaths.InsideIff`), and so does one that leads
  back to the directory (`FederationSplit.PodAcceptedIff`).

`docs/applicationcredentials.md` line 179 says that a credential is rotated once now is at or after expiry
minus grace; the code rotates strictly after it, and so does the model.

## Model

| member | source | states |
|---|---|---|
| `FernetSlots.KeyNameInjective` | internal/controller/keystoneapi_controller.go:1919-1921 | Two indices with the same key name `FernetKeys<i>` are equal, by reading the decimal back |
| `FernetSlots.ShiftDownAt` | internal/controller/keystoneapi_controller.go:1918-1928 | The inner removal loop, entered at index i, moves every entry between i+1 and the next gap down by one and frees the top one; nothing else changes |
| `FernetSlots.ShiftUpAt` | internal/controller/keystoneapi_controller.go:1947-1956 | The inner insertion loop puts the carried value at index i, moves the entries up to the first gap by one and fills that gap; nothing else changes |
| `FernetRepository.RunRemovalPass` | internal/controller/keystoneapi_controller.go:1917-1928 | The inner loop, run on the stored map, is one removal pass |
| `FernetRepository.RemoveExtraKeys` | internal/controller/keystoneapi_controller.go:1911-1929 | The outer loop terminates on the data its precondition admits, which is the exact domain, and is the iterated pass; it reports a change exactly if the extra key was there |
| `FernetRepository.RunInsertionPass` | internal/controller/keystoneapi_controller.go:1946-1956 | The inner insertion loop terminates on any data and is one insertion pass |
| `FernetRepository.AddMissingKeys` | internal/controller/keystoneapi_controller.go:1935-1957 | The outer loop terminates on any data; it succeeds exactly if enough keys could be generated, and then is the iterated pass |
| `FernetRepository.Repository.EnsureFernetKeys` | internal/controller/keystoneapi_controller.go:1809-1975 | Which calls succeed, the whole stored secret afterwards, and how many keys are consumed; an error leaves the stored secret alone unless storing took effect all the same |
| `FernetRepository.Repository.Create` | internal/controller/keystoneapi_controller.go:1834-1872 | The branch for a missing secret: it succeeds exactly with n+2 generated keys and a store call without error; the created secret is stored exactly if that call takes effect |
| `FernetRepository.Repository.Rotate` | internal/controller/keystoneapi_controller.go:1873-1972 | The branch for an existing secret: promotion when due, removal, insertion, and one update only if something changed, which may take effect and report an error |
| `FernetResize.RemovalEndsIff` | internal/controller/keystoneapi_controller.go:1911-1929 | Some number of removal passes frees the extra key if and only if it is absent or no index from 2 to n-1 is missing; otherwise the loop never ends |
| `FernetResize.RemovalStuck` | internal/controller/keystoneapi_controller.go:1911-1929 | With a hole below it the extra key survives any number of passes |
| `FernetResize.RemovalPassIdle` | internal/controller/keystoneapi_controller.go:1917-1928 | With entry 2 absent a pass is the identity |
| `FernetResize.RemovePassKeeps` | internal/controller/keystoneapi_controller.go:1911-1929 | A pass keeps the data removable, strictly shrinks the number of entries from n on, and leaves the staged key and non-Fernet entries alone |
| `FernetResize.AddPassKeeps` | internal/controller/keystoneapi_controller.go:1946-1956 | A pass fills the first missing index below n and leaves the staged key, the indices from n on and non-Fernet entries alone |
| `FernetResize.RemoveAllHolds` | internal/controller/keystoneapi_controller.go:1911-1929 | On contiguous keys removal refines shrinking: the staged key and the n-1 newest others, in order |
| `FernetResize.AddAllHolds` | internal/controller/keystoneapi_controller.go:1935-1957 | On contiguous keys insertion refines growing: new keys just above the staged one, as many as were missing |
| `FernetResize.RemoveAllElsewhere` | internal/controller/keystoneapi_controller.go:1911-1929 | The whole removal loop changes no non-Fernet entry and not the staged key |
| `FernetResize.AddAllElsewhere` | internal/controller/keystoneapi_controller.go:1935-1957 | The whole insertion loop changes no non-Fernet entry and not the staged key |
| `FernetResize.FilledIff` | internal/controller/keystoneapi_controller.go:1911-1957 | After both loops indices 1..n-1 are all filled exactly if one of the loops ran or none was missing; a lone hole is never repaired |
| `FernetContents.CompletesIff` | internal/controller/keystoneapi_controller.go:1899-1929 | On contiguous keys a call ends exactly if it is not the case that rotation is due with fewer than n keys |
| `FernetContents.NextHolds` | internal/controller/keystoneapi_controller.go:1888-1957 | On contiguous keys the in-place loops refine one sequence operation, for every call that ends |
| `FernetContents.AfterCases` | internal/controller/keystoneapi_controller.go:1899-1957 | The sequence laws: rotation gives [fresh] + s[2..] + [s[0]], shrinking [s[0]] + s[1+m-n..], growing [s[0]] + fresh keys + s[1..] |
| `FernetContents.NextElsewhere` | internal/controller/keystoneapi_controller.go:1888-1957 | No call touches an entry that is not a Fernet key |
| `FernetContents.OrderKeptIff` | internal/controller/keystoneapi_controller.go:1899-1929 | A call drops only the oldest keys and keeps the rest in age order exactly if it does not combine a rotation with a shrink |
| `FernetContents.DueShrink` | internal/controller/keystoneapi_controller.go:1899-1929 | What such a combined call leaves at the newest end, and why it is not the newest keys |
| `FernetRuns.SteadyNext` | internal/controller/keystoneapi_controller.go:1888-1960 | With n keys and a valid timestamp a call either rotates or changes nothing and generates nothing |
| `FernetRuns.SecondCallIdle` | internal/controller/keystoneapi_controller.go:1888-1960 | A second call within the rotation period changes nothing and generates nothing |
| `FernetRuns.PrimaryAfter` | internal/controller/keystoneapi_controller.go:1899-1957 | The new primary is the old primary, or the old staged key if the call rotated |
| `FernetHistory.CallRefines` | internal/controller/keystoneapi_controller.go:1888-1972 | One call on a stored secret with contiguous keys takes its keys to what the sequence operation says, and generates exactly the number of keys that follows from their count |
| `FernetHistory.HistoryRefines` | internal/controller/keystoneapi_controller.go:1888-1972 | The same over whole runs, failed calls included: the stored secret goes through exactly the key sequences that the operation yields for the calls that take effect |
| `FernetHistory.GoesOnIff` | internal/controller/keystoneapi_controller.go:1899-1929 | A run on contiguous keys goes on with a further call exactly if it is not the case that rotation is due with too few keys |
| `FernetHistory.HistoryExists` | internal/controller/keystoneapi_controller.go:1888-1972 | From n contiguous keys and a valid timestamp every call ends: calls at any times, any of which fail, make up a run |
| `FernetHistory.HistoryOrder` | internal/controller/keystoneapi_controller.go:1888-1929 | The stored keys are a conveyor belt: after k rotations, with failed and idle calls in between, k new keys with increasing numbers have entered at the young end and the k oldest have left |
| `FernetHistory.HistoryKeyLife` | internal/controller/keystoneapi_controller.go:1888-1929 | A generated key is stored exactly while fewer than n rotations followed; it is staged, then primary, then moves down one index per rotation |
| `FernetHistory.HistoryKeepsNewest` | internal/controller/keystoneapi_controller.go:1899-1957 | Over any run of rotations, resizes and failed calls, rotation being due only with n keys, only oldest keys are dropped and survivors keep their age order |
| `FernetHistory.HistoryKeyKept` | internal/controller/keystoneapi_controller.go:1888-1906 | The key stored at index i outlasts every call that takes effect up to i rotation periods after the last rotation, minus the truncated seconds; calls that fail do not matter |
| `FernetHistory.HistoryOldPrimaryKept` | internal/controller/keystoneapi_controller.go:1888-1906 | A key that stops being primary is still stored after every call that takes effect within (n-2) times the rotation period minus one second |
| `FernetClock.CallByTheClock` | internal/controller/keystoneapi_controller.go:1888-1972 | What a call on contiguous keys does by the stored timestamp t and the time now: with n keys it rotates exactly if t plus the rotation days, at 86400 seconds each, is before now, and otherwise keeps them; when it ends, which keys it leaves, when it writes the second of the call as the new timestamp, and how many keys it generates; the defaults are 5 keys and one day |
| `FernetClock.HistoryKeyGoneIff` | internal/controller/keystoneapi_controller.go:1888-1929 | Over a run, of n different keys the one at index i is stored exactly until i calls (n for the staged key) have taken effect more than one period after the stamp they found: neither dropped before nor kept longer |
| `KeystoneVolumes.FernetItems` | internal/keystone/volumes.go:35-48 | The projected items are exactly index i to path i for i below n |
| `KeystoneVolumes.CreatedMountable` | internal/controller/keystoneapi_controller.go:1834-1872 | After creation every projected Fernet and credential item exists, and the keys are contiguous |
| `KeystoneVolumes.MountableIff` | internal/keystone/volumes.go:35-86 | For any stored data, contiguous or not: when every item projected for the same n exists after a call that ends |
| `CredentialNames.NamesInverse` | api/v1beta1/keystoneapplicationcredential.go:39-48 | Stripping the prefix undoes adding it, and the other way round exactly on names that start with ac- |
| `CredentialNames.ServiceNameInjective` | api/v1beta1/keystoneapplicationcredential.go:45-48 | Prefixed names map to services one to one; an unprefixed name always collides with a prefixed one |
| `CredentialNames.SecretNameInjective` | internal/controller/keystoneapplicationcredential_controller.go:725-731 | For IDs of five characters or more the secret name determines the service and the ID prefix |
| `CredentialNames.ShortIDsCollide` | internal/controller/keystoneapplicationcredential_controller.go:725-731 | A concrete pair of shorter IDs for which two services claim one secret name |
| `CredentialClock.DaysExactIff` | internal/controller/keystoneapplicationcredential_controller.go:831 | The int64 duration is exact if and only if there are at most 106751 days |
| `CredentialClock.CreationsSpaced` | internal/controller/keystoneapplicationcredential_controller.go:813-837 | Consecutive creations are more than expiration minus grace apart, less one second of rounding |
| `CredentialClock.CreationsBounded` | internal/controller/keystoneapplicationcredential_controller.go:813-837 | A run within a window of length W creates at most 1 + W/gap credentials |
| `CredentialClock.CreationsKeepUp` | internal/controller/keystoneapplicationcredential_controller.go:813-837 | The bound from below: if reconciles start at most p apart, creations are at most expiration minus grace plus 2p apart |
| `CredentialRuns.TurnOnTheClock` | internal/controller/keystoneapplicationcredential_controller.go:285-348 | A reconcile in which nothing fails records one more credential exactly if there is none yet or now is after expiry minus grace, with the expiry it asked for, and otherwise leaves the resource as it is |
| `CredentialRuns.BystanderSteady` | internal/controller/keystoneapplicationcredential_controller.go:206-548 | What the others do between the reconciles of a resource, and what its own reconciles do that get no credential, leaves its status as it is and keeps the invariants the clock relies on |
| `CredentialRuns.RecordedByClock` | internal/controller/keystoneapplicationcredential_controller.go:206-378 | Over a run, with whatever the others do in between, the credentials recorded are those that the clock alone predicts for the resource's own reconciles |
| `CredentialRuns.RecordedBounded` | internal/controller/keystoneapplicationcredential_controller.go:813-837 | Over any run within a window of length W, with grace below expiration, at most 1 + W/gap credentials are recorded for a resource, while consumers, users and the other resources act in between as they like (what is excluded is listed below) |
| `CredentialRuns.RecordedKeepsUp` | internal/controller/keystoneapplicationcredential_controller.go:813-837 | And at least T / (expiration - grace + 2p) are recorded in a stretch T of such a run, if the resource's own reconciles start at most p apart |
| `CredentialOutcomes.ReconcileRecords` | internal/controller/keystoneapplicationcredential_controller.go:206-378 | For every outcome of the calls, forced removals before it included: a reconcile changes a status exactly if there is no credential yet, the hash changed, now is after expiry minus grace or the current secret is missing, and Keystone, the secret and the patch work; and the whole new status |
| `CredentialOutcomes.ReconcileCreates` | internal/controller/keystoneapplicationcredential_controller.go:242-320 | What such a reconcile leaves in Keystone and in the cluster: the new credential is live unless it could not be stored and its revocation worked, and the secret is ac-<service>-<5 characters>-secret, labelled and protected |
| `CredentialOutcomes.ReconcileWaits` | internal/controller/keystoneapplicationcredential_controller.go:220-300 | One that is refused, or cannot read the current secret, changes nothing |
| `CredentialOutcomes.SmoothProvides` | internal/controller/keystoneapplicationcredential_controller.go:206-378 | After a reconcile in which nothing fails, whatever the hash was before, the resource has a credential with the current hash in a secret that is there, and it is new or now is at most expiry minus grace |
| `CredentialOutcomes.RunRecordedLive` | internal/controller/keystoneapplicationcredential_controller.go:302-336 | In every state of every run, forced removals included, the last two recorded credentials of a resource that is not being deleted are live in Keystone and its service's |
| `CredentialOutcomes.MaintainKeeps` | internal/controller/keystoneapplicationcredential_controller.go:380-425 | A reconcile that creates nothing, whatever fails in it, keeps every secret unless it is the service's, unused, the gate is open and there is a client; those the status names are labelled exactly if the update works |
| `CredentialOutcomes.MaintainSweeps` | internal/controller/keystoneapplicationcredential_controller.go:604-665 | While the gate is open (annotation false, or all NodeSets in sync) and the calls work, it removes exactly the service's secrets that are neither current nor previous and have no finalizer openstack.org/...-ac-consumer, and revokes their credentials |
| `CredentialOutcomes.DeleteOkIff` | internal/controller/keystoneapplicationcredential_controller.go:444-546 | A delete removes the resource's finalizer exactly if the gate is open, the listing works, and no listed or status-named protected secret resists; a missing client or failing revocations do not matter |
| `CredentialOutcomes.DeleteRemovesIff` | internal/controller/keystoneapplicationcredential_controller.go:546-548 | The resource is gone exactly if that is so and the patch takes effect; only its own live credentials are then left over |
| `CredentialOutcomes.DeleteLabels` | internal/controller/keystoneapplicationcredential_controller.go:457-465 | Behind the open gate a delete labels the status-named secrets exactly if the updates work |
| `CredentialController.Reconciler.CreateImmutableACSecret` | internal/controller/keystoneapplicationcredential_controller.go:738-793 | Equals the specified outcome for a new name, an existing secret with the same or another ID, and failing calls |
| `CredentialController.Reconciler.EnsureServiceLabel` | internal/controller/keystoneapplicationcredential_controller.go:566-584 | Equals the specified relabelling |
| `CredentialController.Reconciler.CleanupUnusedRotatedSecrets` | internal/controller/keystoneapplicationcredential_controller.go:604-665 | The gated loop over the listed secrets equals the specified sweep, including where it stops |
| `CredentialController.Reconciler.RotateCredential` | internal/controller/keystoneapplicationcredential_controller.go:242-378 | Creation with compensation and the recorded status equal the specified rotation, also when Keystone creates a credential but reports an error |
| `CredentialController.Reconciler.ReconcileNormal` | internal/controller/keystoneapplicationcredential_controller.go:206-425 | The whole normal reconcile equals the specified step |
| `CredentialController.Reconciler.UnprotectNamed` | internal/controller/keystoneapplicationcredential_controller.go:527-544 | The fallback for the secrets that the status names equals its specification |
| `CredentialController.Reconciler.DeleteSecrets` | internal/controller/keystoneapplicationcredential_controller.go:429-548 | Gate, relabelling, single pass and fallback equal the specified delete, with the revocations made in order |
| `CredentialController.Reconciler.ReconcileDelete` | internal/controller/keystoneapplicationcredential_controller.go:429-548 | With the patch at the end: the resource goes once its finalizer is removed |
| `CredentialCleanup.SweepOnly` | internal/controller/keystoneapplicationcredential_controller.go:639-663 | A pass, complete or stopped half-way, touches only sweepable secrets, has revoked a credential before touching its secret, and revokes nothing else |
| `CredentialCleanup.CleanupLeaves` | internal/controller/keystoneapplicationcredential_controller.go:604-665 | After a gated-in pass that returns nil, exactly the current, previous and consumer-held secrets of the service are left, and those a foreign finalizer keeps terminating |
| `CredentialCleanup.SweepOkIff` | internal/controller/keystoneapplicationcredential_controller.go:639-663 | A pass returns nil exactly if no call fails for a secret that it has to sweep |
| `CredentialCleanup.SweepStops` | internal/controller/keystoneapplicationcredential_controller.go:639-663 | It stops at the first failing call: what comes after it in the listing is not processed |
| `CredentialCleanup.CleanupRepeatable` | internal/controller/keystoneapplicationcredential_controller.go:604-665 | After such a pass any further pass changes nothing, whichever of its calls fail |
| `CredentialSafety.EmptyClusterSafe` | internal/controller/keystoneapplicationcredential_controller.go:206-425 | The state before any credential exists satisfies all the invariants, so they hold in every state reachable from it |
| `CredentialSafety.RunSafe` | internal/controller/keystoneapplicationcredential_controller.go:206-548 | In every reachable state, even if secrets are removed by force and resources come and go: IDs are known, no ID is stored twice, each status is the newest recorded one and names only its own service's secrets |
| `CredentialSafety.RunHeld` | internal/controller/keystoneapplicationcredential_controller.go:285-337 | Unless secrets are removed by force, in every state the live credentials of a resource that is not being deleted are stored in a protected secret labelled for its service exactly if they were not lost when created, and every status agrees with its secret |
| `CredentialSafety.LostIff` | internal/controller/keystoneapplicationcredential_controller.go:285-320 | A step loses a credential exactly if Keystone creates one without saying so, or it can neither be stored nor revoked; and then just that one |
| `CredentialAgreement.ReconcileAgreesIff` | internal/controller/keystoneapplicationcredential_controller.go:302-336 | A reconcile keeps every status in agreement with its secret, if that is there, exactly if it does not store an unrecorded replacement under the name of a missing current secret |
| `CredentialAgreement.StepAgreesIff` | internal/controller/keystoneapplicationcredential_controller.go:206-425 | The same for every event, forced removals and deletions of resources included |
| `CredentialAgreement.RunAgreesIff` | internal/controller/keystoneapplicationcredential_controller.go:206-425 | Over whole runs: the agreement holds in every state exactly if no reconcile of the run clashes in that way |
| `CredentialSafety.RevokedOnlyWhenSuperseded` | internal/controller/keystoneapplicationcredential_controller.go:639-650 | A reconcile revokes a live credential only if its secret is neither current nor previous, has no finalizer openstack.org/...-ac-consumer, and every status that recorded it has recorded two more; a delete only what its own service's secrets store; both only with a client and while the annotation is false or all NodeSets are in sync |
| `CredentialSafety.RunRevokesOnlySuperseded` | internal/controller/keystoneapplicationcredential_controller.go:604-665 | The same in every state of every run |
| `CredentialSafety.RotateOnlyAdds` | internal/controller/keystoneapplicationcredential_controller.go:285-337 | A rotation leaves all existing secrets and live credentials alone |
| `CredentialSafety.ServicesIsolated` | internal/controller/keystoneapplicationcredential_controller.go:206-425 | A reconcile for one service leaves the secrets labelled for others or named by their statuses, their statuses and their stored credentials alone |
| `CredentialSafety.DeleteIsolated` | internal/controller/keystoneapplicationcredential_controller.go:429-548 | Deleting the resource of one service leaves the secrets labelled for others or named by their statuses, their statuses and their held credentials alone |
| `CredentialDeletion.DeleteUnprotectsAll` | internal/controller/keystoneapplicationcredential_controller.go:497-546 | If the resource's finalizer goes, no secret labelled for the service or named by the status is protected, even if the listing misses secrets labelled a moment ago |
| `CredentialDeletion.DeleteLeavesOthers` | internal/controller/keystoneapplicationcredential_controller.go:457-544 | Secrets neither labelled for the service nor named by the status are left alone |
| `CredentialDeletion.DeleteRevokesOnce` | internal/controller/keystoneapplicationcredential_controller.go:444-522 | Each credential is revoked at most once; those of listed secrets are, and no others; unless the annotation is false, a failed or negative EDPM check changes nothing |
| `TeardownControllers.Namespace.ReconcileEndpoint` | internal/controller/keystoneendpoint_controller.go:63-247 | The dispatch with the deferred patch equals the specified endpoint step |
| `TeardownControllers.Namespace.EndpointReconcileDelete` | internal/controller/keystoneendpoint_controller.go:256-327 | Equals the specified delete, for every failing call |
| `TeardownControllers.Namespace.EndpointReleaseFinalizers` | internal/controller/keystoneendpoint_controller.go:329-364 | Equals the specified release of service, KeystoneAPI and own finalizer, in that order |
| `TeardownControllers.Namespace.EndpointReconcileNormal` | internal/controller/keystoneendpoint_controller.go:366-459 | Equals the specified taking of finalizers before anything is registered |
| `TeardownControllers.Namespace.ReconcileService` | internal/controller/keystoneservice_controller.go:76-249 | The dispatch with the deferred patch equals the specified service step |
| `TeardownControllers.Namespace.ServiceReconcileDelete` | internal/controller/keystoneservice_controller.go:258-317 | Equals the specified delete |
| `TeardownControllers.Namespace.ServiceReleaseFinalizers` | internal/controller/keystoneservice_controller.go:319-340 | Equals the specified release |
| `TeardownControllers.Namespace.ServiceReconcileNormal` | internal/controller/keystoneservice_controller.go:342-418 | Equals the specified taking of the KeystoneAPI before the service is registered |
| `TeardownControllers.Namespace.ReconcileAPI` | internal/controller/keystoneapi_controller.go:234-260 | Equals the specified KeystoneAPI step |
| `TeardownControllers.Namespace.APIReconcileDelete` | internal/controller/keystoneapi_controller.go:462-557 | Equals the specified guard and release order |
| `TeardownSafety.EmptyInv` | internal/controller/keystoneendpoint_controller.go:63-459 | The empty namespace satisfies the protocol's invariant, so it holds in every state reachable from there without a cut |
| `TeardownSafety.RunInvIff` | internal/controller/keystoneendpoint_controller.go:63-459 | Over every run of the three controllers, users and other operators, whatever calls fail, are lost or report an error although they took effect: the invariant holds in every state exactly if no reconcile cuts a registered object loose |
| `TeardownSafety.RunInv` | internal/controller/keystoneendpoint_controller.go:63-459 | The invariant holds at the end of every run without a cut |
| `TeardownSafety.EndpointStepInv` | internal/controller/keystoneendpoint_controller.go:145-247 | An endpoint reconcile keeps the invariant exactly if it does not cut: a finalizer that protects registered endpoints is removed, but the status patch is lost or the Update reported an error before the own finalizer went |
| `TeardownSafety.ServiceStepInv` | internal/controller/keystoneservice_controller.go:148-249 | The same for a service reconcile |
| `TeardownSafety.APIStepInv` | internal/controller/keystoneapi_controller.go:462-557 | Every KeystoneAPI reconcile keeps the invariant, with or without its patch |
| `TeardownProgress.RegisteredHoldsAPI` | internal/controller/keystoneendpoint_controller.go:153-199 | In every state reached without a cut an object with something registered has its finalizer on an existing KeystoneAPI, and an endpoint also on its service unless it and the KeystoneAPI are both deleting |
| `TeardownProgress.ReleaseOrder` | internal/controller/keystoneapi_controller.go:474-557 | In internal mode a dependency, or the KeystoneAPI's own finalizer, is released only when nothing is registered |
| `TeardownProgress.RunReleaseOrder` | internal/controller/keystoneapi_controller.go:474-557 | The same in every state of every run |
| `TeardownProgress.DeletingOnlyShrinks` | internal/controller/keystoneendpoint_controller.go:256-364 | Once everything is deleting, no reconcile adds a finalizer or an object, however its calls turn out |
| `TeardownProgress.EndpointGone` | internal/controller/keystoneendpoint_controller.go:188-199 | When everything is deleting, one reconcile whose calls work removes an endpoint |
| `TeardownProgress.ServiceGone` | internal/controller/keystoneservice_controller.go:190-201 | Without endpoints, one such reconcile removes a service |
| `TeardownProgress.TeardownCompletes` | internal/controller/keystoneapi_controller.go:474-557 | From any reachable all-deleting state without foreign finalizers, any schedule of reconciles that cuts nothing loose, with any other failures, leaves nothing behind once it has served every endpoint, then every service, then the KeystoneAPI |
| `TeardownProgress.EndpointsGone` | internal/controller/keystoneendpoint_controller.go:256-364 | Any schedule that contains one working reconcile of every endpoint removes them all, whatever else fails in it |
| `TeardownProgress.EndpointDeleted` | internal/controller/keystoneendpoint_controller.go:256-364 | One working reconcile of a deleting endpoint takes its finalizers off everything; a KeystoneAPI that is ready or being deleted is needed only if something is recorded |
| `TeardownProgress.ServiceDeleted` | internal/controller/keystoneservice_controller.go:258-340 | The same for a service: its finalizer on the KeystoneAPI and its own go, the recorded ID is cleared unless the KeystoneAPI is being deleted, and the endpoints stay as they are |
| `TeardownOutcomes.EndpointTakes` | internal/controller/keystoneendpoint_controller.go:366-459 | What a reconcile of an endpoint that is not being deleted does, for every state and every outcome of its calls: it is set up, gets its own finalizer, then takes hold of the KeystoneAPI and of its service in that order, and records the service's ID and, once it holds both, its endpoint IDs; nothing else changes |
| `TeardownOutcomes.ServiceTakes` | internal/controller/keystoneservice_controller.go:342-418 | The same for a service, which holds the KeystoneAPI before its ID is recorded |
| `TeardownOutcomes.APITakes` | internal/controller/keystoneapi_controller.go:234-260 | A KeystoneAPI that is not being deleted gets its own finalizer before it takes hold of dependencies, which an external one never does |
| `TeardownOutcomes.SetUpFirst` | internal/controller/keystoneendpoint_controller.go:118-135 | An object that is not set up yet is only set up, also while it is being deleted |
| `TeardownOutcomes.EndpointLeaves` | internal/controller/keystoneendpoint_controller.go:256-364 | What a reconcile of a deleting endpoint does, for every outcome of its calls: nothing if the KeystoneAPI cannot be read or recorded endpoints cannot be deleted; otherwise exactly which finalizers go and what is forgotten |
| `TeardownOutcomes.ServiceLeaves` | internal/controller/keystoneservice_controller.go:258-340 | The same for a deleting service |
| `TeardownOutcomes.APIDeletes` | internal/controller/keystoneapi_controller.go:462-557 | What a deleting KeystoneAPI holds afterwards: an external one only drops its finalizer, an internal one waits for all others and then releases topology, Memcached, database and itself in this order, as far as its calls get |
| `TeardownBringUp.BringUpCompletes` | internal/controller/keystoneendpoint_controller.go:366-459 | From any namespace with a KeystoneAPI in which nothing is being deleted, any schedule of reconciles, with any other failures, leaves every object set up, ready and holding what it must, once it has served everything twice, then the services, which become ready, then the endpoints |
| `TeardownBringUp.RegisteredFromNothing` | internal/controller/keystoneendpoint_controller.go:366-459 | From an empty namespace through such a schedule, one more working reconcile records an endpoint's IDs while it holds the KeystoneAPI and its service |
| `TeardownBringUp.RoundsExist` | internal/controller/keystoneendpoint_controller.go:63-247 | There is such a schedule |
| `TeardownProgress.CutLoose` | internal/controller/keystoneendpoint_controller.go:329-364 | An endpoint cut loose while it and the KeystoneAPI are deleting still counts as registered but no longer holds the KeystoneAPI |
| `TeardownProgress.EndpointWaitsIff` | internal/controller/keystoneendpoint_controller.go:153-210 | A registered deleting endpoint waits, whatever its calls do, exactly while there is no KeystoneAPI or one neither ready nor deleting |
| `TeardownProgress.ServiceWaitsIff` | internal/controller/keystoneservice_controller.go:156-211 | The same for a service |
| `EndpointModel.EndpointIdx` | internal/controller/keystoneendpoint_controller.go:594-604 | The first entry of that interface, or -1 exactly if there is none |
| `EndpointController.Instance.RemoveIfStale` | internal/controller/keystoneendpoint_controller.go:472-501 | One round of the first loop, including every early return, equals its specification |
| `EndpointController.Instance.CreateOrUpdate` | internal/controller/keystoneendpoint_controller.go:506-588 | One round of the second loop, including every early return, equals its specification |
| `EndpointController.Instance.ReconcileEndpoints` | internal/controller/keystoneendpoint_controller.go:461-592 | Catalogue, status, calls used, changes requested and error equal the specified reconcile |
| `EndpointController.Instance.DeleteEndpoints` | internal/controller/keystoneendpoint_controller.go:267-294 | The deletions by spec and the clearing of the recorded IDs equal their specification |
| `EndpointConvergence.ReconcileKeeps` | internal/controller/keystoneendpoint_controller.go:461-592 | However far it gets: status interfaces stay unique, within the recorded IDs and with those IDs; endpoints of other services are untouched; at most one endpoint per interface stays so |
| `EndpointConvergence.ReconcileOkIff` | internal/controller/keystoneendpoint_controller.go:461-592 | It succeeds exactly if the interfaces are valid, none of the spec is registered twice, and one call per interface plus one per change succeed; it then makes exactly those changes |
| `EndpointConvergence.ReconcileConverges` | internal/controller/keystoneendpoint_controller.go:461-592 | On success recorded IDs, status list, catalogue and spec agree, each interface exactly once with its URL, and stale ones are gone |
| `EndpointConvergence.ReconcileProgress` | internal/controller/keystoneendpoint_controller.go:461-592 | Work done before a failing call stays: if the calls suffice for everything stale and the first k interfaces of the spec in order, these are gone and settled, even if the reconcile fails later |
| `EndpointConvergence.NothingElseIff` | internal/controller/keystoneendpoint_controller.go:469-502 | On success nothing is registered outside the spec exactly if nothing was registered that is neither in the spec nor recorded |
| `EndpointConvergence.ConvergedIdle` | internal/controller/keystoneendpoint_controller.go:461-592 | A further reconcile changes nothing and requests no change, however many of its calls succeed |
| `EndpointConvergence.RunKeeps` | internal/controller/keystoneendpoint_controller.go:461-592 | The invariant over any run with changing specs, calls that fail with or without effect, and status patches that are lost |
| `EndpointConvergence.RunRecovers` | internal/controller/keystoneendpoint_controller.go:461-592 | After any such run the next reconcile of a valid spec converges if its first six calls succeed and its status is patched |
| `EndpointConvergence.DeleteCompleteIff` | internal/controller/keystoneendpoint_controller.go:267-294 | Deletion leaves nothing for a recorded interface exactly if the recorded interfaces outside the spec had nothing; it is complete after a converged reconcile |
| `EndpointConvergence.DeleteGetsThroughIff` | internal/controller/keystoneendpoint_controller.go:267-294 | The deletions succeed exactly if every interface of the spec is admin, internal or public and one call for each succeeds |
| `EndpointUrls.EndpointForVisibility` | api/v1beta1/keystoneendpoint.go:386-403 | Finds an entry exactly if the status list has a URL for the interface, and then that URL |
| `EndpointUrls.AppendUrls` | api/v1beta1/keystoneendpoint.go:339-351 | The URLs appended for one resource, as a multiset |
| `EndpointUrls.FilterVisibility` | api/v1beta1/keystoneendpoint.go:334-357 | The result is sorted and has exactly the URLs meant, with multiplicity |
| `EndpointUrls.FilterServices` | api/v1beta1/keystoneendpoint.go:362-384 | The fast lookup keeps exactly the resources whose label is in the list, in order |
| `EndpointUrls.UrlsForServices` | api/v1beta1/keystoneendpoint.go:273-297 | Sorted, with exactly the URLs of the wanted resources; no services named means all |
| `EndpointUrls.ReadIff` | api/v1beta1/keystoneendpoint.go:334-403 | A URL is among the result exactly if some resource whose label is named, or any if none is, has it in its status, for a visibility in the first entry of that interface |
| `EndpointUrls.HashForServices` | api/v1beta1/keystoneendpoint.go:303-329 | The hash of the sorted list of that multiset, empty for none |
| `EndpointUrls.ChangeDetectedIff` | api/v1beta1/keystoneendpoint.go:319-326 | With a collision-free list hash, the hash changes exactly if the multiset of URLs does |
| `EndpointUrls.TotalOfContents` | api/v1beta1/keystoneendpoint.go:334-384 | Reordering the resources and any of their status lists changes nothing: the URLs are a function of the multiset of contents |
| `EndpointUrls.EachOnceAgrees` | internal/controller/keystoneendpoint_controller.go:573-585 | The uniqueness that reconciliation keeps is enough for that |
| `EndpointUrls.OrderFreeIff` | api/v1beta1/keystoneendpoint.go:388-403 | The order of a status list is irrelevant for an interface exactly if its entries for it have one URL |
| `EndpointUrls.HiddenRest` | api/v1beta1/keystoneendpoint.go:334-357 | Conservation: the URLs over all visibilities and those hidden behind an earlier entry of the same interface are all URLs |
| `EndpointUrls.AllIsSumIff` | api/v1beta1/keystoneendpoint.go:334-357 | The nil visibility is the multiset sum over all visibilities exactly if every status list has each interface at most once |
| `TransportRotation.Controller.FinalizeSecretRotation` | internal/controller/keystoneapi_controller.go:1509-1519 | The assumed helper: releases the old secret and returns the new one only when ready |
| `TransportRotation.Controller.ReconcileNormal` | internal/controller/keystoneapi_controller.go:1095-1532 | Tracked name, holders and completion equal the specified reconcile, for every point it can stop at |
| `TransportRotation.Controller.ReconcileDelete` | internal/controller/keystoneapi_controller.go:527-551 | Holders and completion equal the specified delete |
| `TransportRotation.CompletedHolders` | internal/controller/keystoneapi_controller.go:1504-1532 | A completed reconcile leaves exactly the current holder, plus the tracked one while not ready |
| `TransportRotation.ReconcileOrder` | internal/controller/keystoneapi_controller.go:1095-1532 | For every outcome of the calls: the finalizer is put on the current secret before anything is deployed and stays; nothing is released before everything is deployed; then the tracked secret, if the workload is ready, and after it the others; exactly when the reconcile completes, what it tracks and who holds the finalizer |
| `TransportRotation.DeleteOrder` | internal/controller/keystoneapi_controller.go:527-551 | Exactly when the delete lets the object go, and which secrets it has released by then |
| `TransportRotation.HeldIff` | internal/controller/keystoneapi_controller.go:1504-1519 | A held tracked secret is released exactly if another, held secret is current, the workload is ready and the release takes effect; it is held afterwards exactly if the status follows, without error and patched |
| `TransportRotation.RunHeldIff` | internal/controller/keystoneapi_controller.go:1095-1532 | Over any number of rotations the tracked secret is held in every state exactly if no reconcile of the run releases it without the status following |
| `TransportRotation.RunKeepsTracked` | internal/controller/keystoneapi_controller.go:1504-1519 | While the workload is not ready the tracked secret neither changes nor is released, over any run |
| `TransportRotation.LostTrack` | internal/controller/keystoneapi_controller.go:1520-1532 | After such a reconcile and a further rename the secret in use is released though the workload is not ready |
| `TransportRotation.DeleteCleanIff` | internal/controller/keystoneapi_controller.go:527-551 | Deletion leaves no holder exactly if only the tracked and the current secret were held |
| `TransportRotation.DeleteAfterCompletedIff` | internal/controller/keystoneapi_controller.go:532-551 | After a completed reconcile deletion is clean exactly if no rotation is pending or the name has not changed since |
| `FederationSplit.FillContents` | internal/controller/keystoneapi_controller.go:2019-2031 | The loop stores content i under the decimal of i |
| `FederationSplit.SplitConfigs` | internal/controller/keystoneapi_controller.go:2015-2039 | The keys are exactly the indices and the list key, which does not collide; each holds its content |
| `FederationSplit.FederationVolumeMounts` | internal/keystone/federation.go:26-44 | One mount per file, in order, at the joined and cleaned path |
| `FederationSplit.FederationVolumes` | internal/keystone/federation.go:47-65 | One volume per file, in order |
| `FilePaths.PlainInjective` | internal/keystone/federation.go:35 | File names without slashes that are not empty, a dot or two dots denote different paths |
| `FilePaths.DotCollides` | internal/keystone/federation.go:35 | A name and the same name after ./ denote the same path |
| `FilePaths.JoinEqualIff` | internal/keystone/federation.go:35 | For any directory and any two names the joined paths are equal exactly if following the names' parts from the directory leads to the same place; so cleaning forgets nothing else |
| `FilePaths.InsideIff` | internal/keystone/federation.go:35 | For names that do not climb out of the directory that depends on the names alone: they collide exactly if they resolve to the same parts |
| `FederationSplit.MountsAcceptedIff` | internal/keystone/federation.go:26-65 | Volume names are unique, every mount has its volume, and mount paths are unique exactly if following two different file names, part by part from the directory, never leads to the same place |
| `FederationSplit.PodAcceptedIff` | internal/keystone/deployment.go:103-118 | Together with the mount of the directory itself they are unique exactly if, besides, no file name leads back to the directory |
| `FederationSplit.PlainFilesAccepted` | internal/keystone/federation.go:26-44 | That is so for plain file names, and not for a name next to the same name after ./ |
| `FederationSplit.FilesExactly` | internal/keystone/federation.go:26-65 | The files in the container are exactly the configured ones at their cleaned paths, with their contents, whatever the names are |
| `FederationSplit.RoundTrip` | internal/keystone/federation.go:26-65 | If no path is mounted twice, reading the files back gives exactly the configuration |
| `RouteAnnotations.Spec.SetDefaultRouteAnnotations` | api/v1beta1/keystoneapi_webhook.go:338-357 | The call equals its two-case specification on the whole map |
| `RouteAnnotations.CallsOnly` | api/v1beta1/keystoneapi_webhook.go:338-357 | Without edits, any number of calls with any timeouts amounts to the last one |
| `RouteAnnotations.HumanStays` | api/v1beta1/keystoneapi_webhook.go:345-353 | A timeout annotation that is there while the flag is missing or different stays through any run of calls and edits, until an edit removes it or makes both equal, and then is what the last edit said |
| `RouteAnnotations.CallDecides` | api/v1beta1/keystoneapi_webhook.go:338-357 | After a call at the end of any run both annotations are the latest timeout exactly if before it there was no timeout or the flag was equal to it; otherwise the flag is gone and the timeout is the one before the call |
| `RouteAnnotations.FollowsIff` | api/v1beta1/keystoneapi_webhook.go:354-356 | The timeout follows APITimeout exactly if there is none yet or the flag is equal to it |
| `RouteAnnotations.OthersUntouched` | api/v1beta1/keystoneapi_webhook.go:338-357 | Over any run all other annotations are as if the webhook had never been called |

## Left out

- Interleaving inside one reconcile, and stale caches other than a listing that misses secrets labelled a moment ago: a reconcile is one step on the state it reads.
- A process crash between two outside calls, for instance between creating a credential in Keystone and storing its secret: calls may fail or take effect with an error, and the code after them runs as it does then.
- Informers, watches, indexers, RBAC, webhooks other than the route annotations, and `cmd/main.go`: plumbing.
- Conditions, events, logging, requeue times, `CreatedAt`, `LastRotated` and `RotationEligibleAt`: reported, never read back by the modelled code; readiness is a flag that the environment sets.
- Random keys, hashes, secret contents other than the credential ID, tokens and TLS: keys are numbered values, hashes are functions of their input, and the security hash of a spec is an input that is always computed.
- The OpenStack client, `object.FinalizeSecretRotation`, `PruneSecretConsumerFinalizers` and the other helpers of lib-common are not part of this model; they do what their call sites rely on.
- EndpointController.Catalogue.DeleteEndpoint: regions and endpoint names are not distinguished, and IDs are numbers with 0 for the empty one.
- TeardownControllers.Namespace.EndpointReconcileNormal: what `reconcileEndpoints` leaves in the recorded IDs is an arbitrary map there; the catalogue side is modelled separately in the endpoint modules.
- TeardownControllers.Namespace.APIReconcileDelete: the transport secret is one release among four there; which secrets it frees is modelled separately in TransportRotation.
- TeardownSafety.RunInvIff: `Spec.ServiceName` and whether the KeystoneAPI is external stay fixed over a run, finalizer strings are kept apart by constructor rather than by their text, and the finalizers that the consumer operators' helpers add are foreign ones.
- CredentialSafety.RunHeld: of credentials that outlive their resource nothing is claimed; revocation at deletion is best effort.
- CredentialRuns.RecordedBounded: for runs in which the spec is fixed, the resource is not deleted, no secret is removed by force, nothing fails in those of its own reconciles that get a credential, Keystone honours the requested expiry and secret names do not collide; an expiration of 0 days is excluded by the schema. Everything else may happen in between.
- CredentialRuns.RecordedKeepsUp: for the same runs; without the fixed spec, what one reconcile must achieve is CredentialOutcomes.SmoothProvides.
- TeardownBringUp.BringUpCompletes: for schedules in which KeystoneAPIs that are reconciled, and services, report ready; when they do is up to the environment.
- CredentialSafety.ServicesIsolated: resources are named `ac-<service>` and IDs have at least five characters; `CredentialNames.ServiceNameInjective` and `ShortIDsCollide` show why.
- FernetRepository.Repository.EnsureFernetKeys: the schema's minimum of 3 keys is assumed; a nil maximum means the default here, while `getVolumes` dereferences the pointer and relies on the schema default.
- FernetHistory.HistoryKeyLife: for runs with a fixed number of keys; resizes in between are covered by FernetHistory.HistoryKeepsNewest.
- FederationSplit.SplitConfigs: the JSON parsing of the configuration and its errors are not modelled, and the encoding of the name list is a function of it.
- EndpointUrls.HashForServices: errors of listing and hashing are not modelled, only the result for a listing that worked.
- `ManageACSecretFinalizer` and `RemoveACSecretConsumerFinalizer`: deprecated; consumers are the environment here.
- `reconcileInit`, database, Memcached and topology set-up, deployments, jobs, templates and configuration files: sequences of library calls and straight-line construction.
