# Crossplane provider for SAP BTP: verified models

A Dafny project beside the provider. It models the parts of the provider whose correctness is
not plain from one function body, and proves what they are for: the protocols that run
concurrently (client cache, status update, memo map, deletion protection), the codecs for
external names and their migration, the redaction of logged bodies, the tool that maintains the
external-name documentation, and the map and list helpers in `internal/utils.go`.

`dafny verify dfyconfig.toml` checks everything.

| file | models |
|---|---|
| `Text.dfy`, `TerraformState.dfy` | the string operations of the Go library that are used, and Terraform attribute maps |
| `CredentialKey.dfy`, `ClientCache.dfy` | the client cache of `btp/cisclient.go`: its key, and every interleaving of its callers |
| `StatusUpdate.dfy` | the retry loop of `internal/reconcilerutil/statusupdate.go`, run by many writers |
| `Memoize.dfy` | the memo map of `internal/memoize/memoize.go` and every interleaving of its calls |
| `Tracking.dfy`, `DeletionGate.dfy` | reference tracking, the usage controller, and the gate before a deletion |
| `ApiCredential.dfy`, `ServiceBroker.dfy`, `CompoundKeys.dfy` | external names: codecs, migration, round trips |
| `Redaction.dfy` | redaction of logged HTTP bodies |
| `DocsExtractor.dfy`, `DocsFile.dfy` | `scripts/generate-external-name-docs.go` |
| `Flatten.dfy`, `ConnectionDetails.dfy`, `FoldCompare.dfy` | the helpers of `internal/utils.go` |

How the concurrent parts are modelled: a state holds what the actors share and where each of them
stands, a step is one atomic access, and a schedule picks who moves. A theorem over all schedules
is a theorem over all interleavings. The retry loop is also a method with the source's own loop;
it takes any property that the protocol's steps keep and shows that the loop keeps it, so that
what holds of the protocol holds of the loop.

Where a property turned out not to hold of the code on all inputs, the code is kept and the exact
condition is proved:

- The cache key leaves out the SaaS registry URL although its comment asks for all fields
  (`CredentialKey.SaasRegistryUrlNotInKey`). It tells bundles without NUL apart from each other;
  but it tells a bundle apart from all others, with or without NUL, exactly if the bundle has no
  CIS half and no NUL (`KeyUnambiguousIff`).
- A nil return of the retry loop means one commit exactly when the retry count is positive.
- The backoff is exact up to attempt 37 and overflows a duration from there on.
- A Get of the memo map deletes an entry that has not expired exactly if a Set has put one there
  since the Get read, and nothing has touched it and it has not aged in between
  (`LateDeleteTakesFreshIff`; `LateDeleteTakesFreshEntry` is such a run).
- A resource that holds the same reference twice does not track it at all (`FirstTrackCoversIff`).
- Tracking again rewrites a usage whose labels or spec have changed, and its finalizer goes with
  that. A usage that is being deleted is thereby removed while its target is still there
  (`TrackRecordsIff`).
- So three steps break deletion protection, and no other does (`StepKeepsInvIff`): deleting the
  usage of a live target before the usage controller has put its finalizer there, rewriting a
  usage that is being deleted, and a look of the usage controller at a cache that does not show
  the live target. For each there is a run at whose end the gate is open
  (`EarlyDeletionOpensGate`, `RewriteOpensGate`, `StaleViewOpensGate`).
- A delimiter inside a leading segment makes a compound name read back as something else; for each
  codec the round trip is proved as an equivalence.
- The ID of a service broker is invariant only between creations; an empty annotation stands for
  no broker before one (`BrokerIdentityIsStable`).
- A credential whose name in the spec is not a valid segment gets an external name that the next
  reconcile rejects (`CreatedNameIsAcceptedIff`).
- `SliceEqualsFold` means "permutation" exactly for left-hand lists without duplicates.
- The result of `Flatten` depends on the iteration order of the maps unless leaves that share a
  key have the same encoding, that of `FlattenConnectionDetails` unless the contributions of the
  entries agree.

## Model

| member | source | states |
|---|---|---|
| CredentialKey.KeyTellsBundlesApart | btp/cisclient.go:151-178 | for bundles without NUL, equal keys if and only if the bundles are equal in all fields and in which halves are present, SaaS registry URL aside |
| CredentialKey.KeyUnambiguousIff | btp/cisclient.go:145-178 | the key names one bundle among all bundles if and only if the bundle has no CIS half and no field with a NUL |
| CredentialKey.KeyUnambiguousInShapeIff | btp/cisclient.go:151-178 | the key names one bundle among those with the same halves present if and only if no field holds a NUL |
| CredentialKey.SaasRegistryUrlNotInKey | btp/cisclient.go:152-167 | bundles that differ in the SaaS registry URL alone share a key |
| ClientCache.OneLeader | btp/cisclient.go:120-135 | at most one call at a time is between opening the flight for a key and landing it |
| ClientCache.StepKeepsInv | btp/cisclient.go:110-136 | every step keeps: unfinished flights are open and led, finished ones hold the cached client, built keys are cached or about to be stored |
| ClientCache.SingleBuild | btp/cisclient.go:110-136 | over every interleaving of any number of calls no key is built twice, and whoever has returned holds the cached client of its key, built from its own bundle when no bundle holds a NUL |
| ClientCache.NeverReplaced | btp/cisclient.go:143-149 | a cached client is what every later part of the run finds under its key |
| ClientCache.CachedIsServedAtOnce | btp/cisclient.go:116-118 | a call that comes with a cached key gets the client in one step, without a flight or a build |
| ClientCache.NoDeadlock | btp/cisclient.go:125-135 | while some call has not returned, some call can move, and the move leaves less to do |
| ClientCache.AllReturn | btp/cisclient.go:125-135 | from every reachable state all calls can be brought to return |
| StatusUpdate.StepKeepsInv | internal/reconcilerutil/statusupdate.go:17-48 | every step keeps: the log explains the stored status, local copies are true snapshots, commits match outcomes |
| StatusUpdate.NoLostUpdates | internal/reconcilerutil/statusupdate.go:13-48 | over every interleaving the stored status is the fold of the accepted updates, each the writer's mutate function applied to the status just before; one commit per nil return of a loop that runs, none otherwise |
| StatusUpdate.DelayExact | internal/reconcilerutil/statusupdate.go:23 | the delay in 64-bit arithmetic is 100 ms times the power of two if and only if the attempt is at most 37 |
| StatusUpdate.WaitsExact | internal/reconcilerutil/statusupdate.go:18-32 | up to 38 attempts all waits are positive, double each time, and add up to 100 * (2^(n-1) - 1) ms |
| StatusUpdate.ApiServer.UpdateStatus | internal/reconcilerutil/statusupdate.go:38-44 | an update is accepted if and only if the versions match and nothing else fails |
| StatusUpdate.UpdateStatusWithRetry | internal/reconcilerutil/statusupdate.go:17-48 | the loop moves only by steps of the protocol, in at most maxRetries updates with one refetch and one wait between any two, has waited as long as the backoff says however it ends; each kind of failure has its cause in the last attempt, so that a conflict is retried; on success the caller has the object as stored |
| StatusUpdate.LoopCommitsOnce | internal/reconcilerutil/statusupdate.go:13-48 | a nil return of the loop means one update of its own in the log if the retry count is positive; any other outcome means none |
| StatusUpdate.GivingUpMeansOvertaken | internal/reconcilerutil/statusupdate.go:20-47 | a writer whose refetches return the latest object gives up only after others have had an update accepted for every attempt it was allowed, or for all but one if its first read was stale |
| Memoize.StepKeepsInv | internal/memoize/memoize.go:98-206 | every step keeps: each entry was put by a Set and not touched since, the map is within its limit, what a Get has read was there |
| Memoize.HitsAreFresh | internal/memoize/memoize.go:135-191 | over every interleaving a hit returns what a Set put under its key with nothing touching the key before the read, at most an expiration old when checked; the map never exceeds its limit |
| Memoize.HitsRefineFunction | internal/memoize/memoize.go:1-19 | if every Set stores the function's value, every hit in every interleaving is the function's value |
| Memoize.MapIsWhatIsHeld | internal/memoize/memoize.go:98-206 | at every moment of every run the map is just what Sets have put there and nothing has touched since |
| Memoize.GetsAnswerByTheirRead | internal/memoize/memoize.go:137-163 | over every interleaving a Get hits only on what was held at its read and fresh at its check, and misses only on what had expired, where nothing was held, or for want of a key or a running map |
| Memoize.LateDeleteTakesFreshIff | internal/memoize/memoize.go:146-160 | over every interleaving, a Get is about to delete an entry that has not expired if and only if a Set has put a still fresh one there since the read, untouched in between |
| Memoize.LateDeleteTakesFreshEntry | internal/memoize/memoize.go:146-160 | a run in which a Get deletes an entry that has not expired |
| Memoize.UninterruptedGet | internal/memoize/memoize.go:137-163 | the steps of a Get that nothing interrupts come to what `Map.Get` does |
| Memoize.UninterruptedSet | internal/memoize/memoize.go:168-191 | the same for Set |
| Memoize.UninterruptedInvalidate | internal/memoize/memoize.go:194-206 | the same for Invalidate |
| Memoize.SurvivesCollectIff | internal/memoize/memoize.go:110-118 | an entry survives the collector, unchanged, if and only if it is at most an expiration old; nothing is added |
| Memoize.CollectPurges | internal/memoize/memoize.go:110-118 | the collector's step comes to what `Map.Collect` does |
| Memoize.StoppedForGood | internal/memoize/memoize.go:126-141 | a Get that has not begun when the map is stopped never gets further than to be refused |
| Memoize.StoppedCallsDoNothing | internal/memoize/memoize.go:137-197 | a call that begins on a stopped map touches neither the map nor the log |
| Memoize.Map.New | internal/memoize/memoize.go:62-75 | an empty, running map with the default expiration, limit and collection frequency, and its collector started |
| Memoize.Map.Get | internal/memoize/memoize.go:137-163 | found if and only if running, keyed, present and not expired; an expired entry is deleted, all else stays |
| Memoize.Map.Set | internal/memoize/memoize.go:168-191 | stores, deletes on nil, and does nothing when stopped, unkeyed or full |
| Memoize.Map.Invalidate | internal/memoize/memoize.go:194-206 | removes the key unless stopped or unkeyed |
| Memoize.Map.Collect | internal/memoize/memoize.go:110-118 | in any iteration order, removes exactly the expired entries; `SurvivesCollectIff` and `SetCollectGet` say what that means in ages |
| Memoize.SetThenGet | internal/memoize/memoize.go:135-191 | a stored value is read back within its expiration unless the map was full, and other keys are left alone |
| Memoize.SetCollectGet | internal/memoize/memoize.go:110-191 | a Get behind a collection finds what a Set has stored if and only if it is at most an expiration old, and the collection has freed exactly what was older |
| Memoize.DeleteThenGet | internal/memoize/memoize.go:165-206 | after a Set of nil or an Invalidate, even on a full map, a Get misses; other keys are left alone |
| Memoize.StopThenCall | internal/memoize/memoize.go:126-206 | after Stop, no call has an effect and Get finds nothing |
| Memoize.CallWithoutKey | internal/memoize/memoize.go:141-199 | nor does one without a key |
| Tracking.Tracker.CreateTracking | internal/tracking/resourcetracker.go:184-237 | one usage is created, left, or, if it differs, replaced by one without finalizer, which removes it if it was being deleted |
| Tracking.Tracker.Track | internal/tracking/resourcetracker.go:69-107 | a failing walk changes nothing; otherwise the references are applied in order up to the first error, and the condition is refreshed only at the end |
| Tracking.UniquesAre | internal/tracking/resourcetracker.go:105 | what is kept of the references found are those that occur exactly once |
| Tracking.UniquesOfConcat | internal/tracking/resourcetracker.go:105 | and they are kept in order |
| Tracking.NameDenotesPairIff | internal/tracking/resourcetracker.go:210 | a usage's name denotes one pair of UIDs if and only if neither UID holds a dot |
| Tracking.OneUsagePerPair | internal/tracking/resourcetracker.go:184-231 | after any sequence of calls with any failures, for two UIDs without dots, name, labels and spec of a usage denote the pair alike, so that it has one usage at most |
| Tracking.TrackRecordsIff | internal/tracking/resourcetracker.go:69-88 | a Track that succeeds leaves a usage for a reference it was given if and only if it does not remove one that was being deleted: when the last reference to the source, and none before, wants other contents |
| Tracking.TrackFrame | internal/tracking/resourcetracker.go:79-84 | successful or not, usages that no reference names stay as they are |
| Tracking.TrackSucceedsIff | internal/tracking/resourcetracker.go:69-88 | among usages that their targets own, a Track whose requests go through succeeds if and only if every reference resolves |
| Tracking.RunKeepsOwned | internal/tracking/resourcetracker.go:203-216 | after any sequence of calls with any failures, every usage is owned, and not controlled, by its target |
| Tracking.ForeignUsageIsLeftAlone | internal/tracking/resourcetracker.go:225-231 | a usage that another object controls is left alone, and tracking fails |
| Tracking.OwnUsageIsUpdated | internal/tracking/resourcetracker.go:225-231 | one that the target itself controls can be updated |
| Tracking.ApplyRepairs | internal/tracking/resourcetracker.go:225-237 | whatever a usage was like, after a successful Apply its labels and spec are as wanted, or it was being deleted and is gone |
| Tracking.FaultsChangeNothing | internal/tracking/resourcetracker.go:225-231 | a failing read or write changes nothing, and is reported unless nothing had to be written |
| Tracking.InUseConditionIs | apis/v1alpha1/resourceusage_types.go:75-113 | status and reason both say in use exactly after an error or with a usage; only an error leaves a message |
| Tracking.FirstTrackCoversIff | internal/tracking/resourcetracker.go:97-107 | a first Track, among any usages of other targets, records every reference of the resource if and only if each resolves to a source that some reference occurring once resolves to |
| Tracking.SecondTrackWritesNothingIff | internal/tracking/resourcetracker.go:225-237 | repeating a Track on an unchanged world needs no write if and only if no two references want the same usage with different contents and the first Track removed none |
| Tracking.Tracker.SetConditions | internal/tracking/resourcetracker.go:271-292 | the condition says in use if the listing failed or holds a usage labelled with the resource's UID |
| Tracking.Tracker.UsageCheck | internal/tracking/resourcetracker.go:289-313 | a resource passes if and only if it ignores references, or the listing succeeded and held no usage with its UID as source |
| Tracking.Tracker.InitializeDeletionProtection | config/btp_subaccount_api_credential/config.go:236-292 | a deleted credential is held back as in use exactly when its reference was tracked and the usage check does not let it pass; a missing secret is reported only where it is due |
| DeletionGate.RemoveMeansTargetGone | internal/controller/account/resourceusage/reconciler.go:155-183 | on a current view the controller decides to remove a usage only when its target no longer exists |
| DeletionGate.StepKeepsInvIff | internal/controller/account/resourceusage/reconciler.go:134-212 | a step keeps "every pair recorded for a live target has its usage" if and only if it is neither the deletion of a usage without finalizer whose target is live, nor a Track that rewrites a usage being deleted, nor a decision to remove the usage of a live target on a stale view |
| DeletionGate.HazardOpensGate | internal/tracking/resourcetracker.go:225-237 | any of these steps leaves a live target without its usage, at once or when the decision is acted on, and opens the gate if the source has no other |
| DeletionGate.EarlyDeletionOpensGate | internal/controller/account/resourceusage/reconciler.go:200-209 | a run from nothing with an early deletion, at whose end the gate is open for a live target |
| DeletionGate.RewriteOpensGate | internal/tracking/resourcetracker.go:200-237 | a run from nothing that rewrites a usage being deleted, at whose end the gate is open for a live target |
| DeletionGate.StaleViewOpensGate | internal/controller/account/resourceusage/reconciler.go:155-183 | a run from nothing with a stale look at the target, at whose end the gate is open for a live target |
| DeletionGate.NeverPassesWhileUsed | internal/tracking/resourcetracker.go:289-313 | in every run without those steps a source passes the usage check only if the listing succeeded and no object still there was ever recorded as using it |
| DeletionGate.GateIsUsageCheck | internal/tracking/resourcetracker.go:271-287 | the check goes by label, but passes if and only if the listing succeeded and no usage has the source in its spec |
| DeletionGate.TrackedIsRun | internal/tracking/resourcetracker.go:69-88 | a call of the tracker that succeeds is a run of these steps that records all its pairs |
| DeletionGate.FailedTrackIsRun | internal/tracking/resourcetracker.go:79-84 | one that fails leaves the usages of a run for the references before the failure |
| DeletionGate.ReconcileProtectsIff | internal/controller/account/resourceusage/reconciler.go:200-209 | one look of the controller at the usage of a live target puts it under guard of the finalizer if and only if the view shows an object at the target's address or the finalizer is there |
| DeletionGate.GuardEndsIff | internal/controller/account/resourceusage/reconciler.go:134-212 | a step ends that guard if and only if the target is gone with it or it is a Track that rewrites the usage |
| DeletionGate.GuardedUsageStays | internal/controller/account/resourceusage/reconciler.go:134-212 | over any run without such a step the usage stays, whoever asks for its deletion |
| DeletionGate.OpensWhenUnused | internal/controller/account/resourceusage/reconciler.go:155-183 | a usage whose target is gone or was replaced is removed in two steps, and the source passes if it was the last |
| DeletionGate.DeletedUsageGoesIff | internal/controller/account/resourceusage/reconciler.go:155-197 | a usage being deleted is removed if the view shows no object, or one with another UID, at its target's address, and is kept if it shows the target |
| DeletionGate.UidsAreLabelValues | internal/controller/account/resourceusage/reconciler.go:164-165 | UIDs of letters, digits and inner hyphens, up to 63 characters, are valid label values |
| DeletionGate.FailedDropIsRetried | internal/controller/account/resourceusage/reconciler.go:167-182 | a failing update changes nothing, a failing delete leaves the usage without its finalizer, and the next attempt removes it |
| ApiCredential.SplitOfCompound | config/btp_subaccount_api_credential/config.go:90-103 | splitting undoes joining if and only if both segments are non-empty and free of the delimiter |
| ApiCredential.CompoundOfSplit | config/btp_subaccount_api_credential/config.go:94-103 | joining undoes splitting wherever the split succeeds |
| ApiCredential.ValidIff | config/btp_subaccount_api_credential/config.go:105-128 | accepted are exactly the empty name, one valid segment, and two with a delimiter between them |
| ApiCredential.SegmentIff | config/btp_subaccount_api_credential/config.go:105-111 | a segment is text without delimiter and white space |
| ApiCredential.CredentialNameIs | config/btp_subaccount_api_credential/config.go:130-136 | the credential in a name is what follows the delimiter of a compound name, else the name itself |
| ApiCredential.NameArgumentIs | config/btp_subaccount_api_credential/config.go:138-150 | only the name argument is written, and it always ends up a non-empty string |
| ApiCredential.RebuiltNameIff | config/btp_subaccount_api_credential/config.go:152-167 | a name is rebuilt if and only if the state has both fields; otherwise the missing one is named |
| ApiCredential.Arguments.SetCredentialNameArgument | config/btp_subaccount_api_credential/config.go:138-150 | the name argument from the annotation, else from the spec, else the default |
| ApiCredential.SubaccountApiCredential.Initialize | config/btp_subaccount_api_credential/config.go:192-228 | moves a valid legacy annotation to the compound name once the subaccount is known, stores it if the update goes through, and fails on an invalid one |
| ApiCredential.MigrationsAgree | config/btp_subaccount_api_credential/config.go:157-228 | migrating by the initializer and rebuilding from Terraform state give the same compound name, which both leave fixed |
| ApiCredential.CredentialIdentityIsStable | config/btp_subaccount_api_credential/config.go:138-228 | over any run the credential name never changes and the annotation stays or moves once, to the compound name |
| ApiCredential.MovedIff | config/btp_subaccount_api_credential/config.go:157-228 | the annotation has moved to the compound name if and only if the run has a stored observation, or for a bare name a stored initialization of a live resource whose subaccount is known |
| ApiCredential.SubaccountIs | config/btp_subaccount_api_credential/config.go:169-184 | the subaccount comes from the spec, else from the status |
| ApiCredential.InvalidStays | config/btp_subaccount_api_credential/config.go:192-208 | a name that is not accepted is not touched |
| ApiCredential.DefaultNameIsSegment | config/btp_subaccount_api_credential/config.go:138-150 | the default name is a valid segment |
| ApiCredential.CreatedNameIsAcceptedIff | config/btp_subaccount_api_credential/config.go:105-167 | the name rebuilt after a creation passes validation if and only if the credential's name is a valid segment |
| ServiceBroker.IdIsBare | config/subaccount_service_broker/config.go:28-40 | every ID handed to Terraform is non-empty and free of the delimiter |
| ServiceBroker.IdOfNameIff | config/subaccount_service_broker/config.go:14-40 | the ID is the placeholder for an empty name, a bare name itself, or what follows the delimiter between two bare segments; every other name is rejected |
| ServiceBroker.RebuiltNameIff | config/subaccount_service_broker/config.go:42-56 | a name is rebuilt if and only if the state has both fields |
| ServiceBroker.RebuiltNameRoundTrip | config/subaccount_service_broker/config.go:28-56 | a rebuilt name gives the ID back, or is rejected if a segment holds the delimiter |
| ServiceBroker.BrokerIdentityIsStable | config/subaccount_service_broker/config.go:14-56 | over any run of reconciles and creations, from any annotation, the ID is that of the last broker created or of the first one, and the annotation is the first one until a rebuild makes it compound for good |
| ServiceBroker.LegacyBrokerIsKept | config/subaccount_service_broker/config.go:18-56 | a broker under a bare legacy name keeps that name as its ID in every run that creates nothing, and its annotation becomes compound when it is first found |
| ServiceBroker.CompoundBrokerIsKept | config/subaccount_service_broker/config.go:28-56 | so does one under a compound name, which stays as it is |
| ServiceBroker.StableIffBareSubaccount | config/subaccount_service_broker/config.go:28-56 | that holds of every run if and only if the subaccount holds no delimiter |
| ServiceBroker.InvariantWithoutCreationIff | config/subaccount_service_broker/config.go:14-56 | the ID survives every run without a creation if and only if the subaccount holds no delimiter or the annotation names no broker |
| CompoundKeys.DirectoryEntitlementRoundTrip | config/directory_entitlement/config.go:27-51 | the ID made from a rebuilt name is the state's three segments with commas if and only if the first two hold no delimiter |
| CompoundKeys.DirectoryEntitlementIdIs | config/directory_entitlement/config.go:46-52 | the ID of a name of three non-empty segments has commas, any other name is handed on as it is |
| CompoundKeys.DirectoryEntitlementNameIff | config/directory_entitlement/config.go:27-42 | a name is rebuilt if the state has all three fields; otherwise the first missing one is named |
| CompoundKeys.TrustConfigurationRoundTrip | config/subaccount_trust_configuration/config.go:36-56 | the same for two segments |
| CompoundKeys.TrustConfigurationIdIs | config/subaccount_trust_configuration/config.go:50-56 | the ID of a name of two non-empty segments has a comma, any other name is handed on as it is |
| CompoundKeys.TrustConfigurationNameIff | config/subaccount_trust_configuration/config.go:36-46 | a name is rebuilt if the state has both fields; otherwise the first missing one is named |
| CompoundKeys.Arguments.SetIdentifierArgument | config/subaccount_trust_configuration/config.go:60-67 | writes the two parts of a two-part name, or leaves the map alone |
| CompoundKeys.IdentifierRoundTrip | config/subaccount_trust_configuration/config.go:36-67 | written into any arguments, the identifier of a rebuilt name gives the state its fields back if and only if the subaccount holds no delimiter, or begins with one and the arguments hold both fields already; no other field changes |
| CompoundKeys.IdentifierIs | config/subaccount_trust_configuration/config.go:60-67 | the two segments of such a name are written, and for any other name nothing is |
| CompoundKeys.TrustConfiguration.Initialize | config/subaccount_trust_configuration/config.go:84-115 | seeds the origin from the annotation only if it is not there yet, saves it if nothing fails, and fails if reading, writing or saving does |
| CompoundKeys.InitializerAgreesWithIdentifier | config/subaccount_trust_configuration/config.go:60-101 | initializer and identifier function find the same origin in a name unless it begins with the delimiter and goes on, where only the initializer finds one |
| CompoundKeys.AgreeOnRebuiltNames | config/subaccount_trust_configuration/config.go:36-101 | they agree on a rebuilt name if and only if its subaccount does not begin with the delimiter |
| Text.SplitNOfJoin | config/directory_entitlement/config.go:41-51 | splitting a join of n parts into at most n gives the parts back if and only if no part but the last holds the separator |
| Redaction.TokenLenFindsLongest | btp/debug_http_client.go:167 | the matcher finds at the start of a text the longest match of the pattern there, or none |
| Redaction.NoTokenSurvives | btp/debug_http_client.go:163-169 | no stretch of the output matches the pattern |
| Redaction.RedactionKeepsTheRest | btp/debug_http_client.go:163-169 | the output is the input cut at its leftmost, longest, non-overlapping matches and joined with the mark; the cut is unique |
| Redaction.CanBeSegmented | btp/debug_http_client.go:163-169 | every input can be cut that way |
| Redaction.UnchangedIffTokenFree | btp/debug_http_client.go:166-169 | a body stays as it is if and only if no stretch of it matches |
| Redaction.NoNewKeyword | btp/debug_http_client.go:152-169 | replacing tokens brings no keyword into a text |
| Redaction.LowerAsciiIsLowering | btp/debug_http_client.go:156 | what is asked of lower-casing holds of its ASCII case |
| Redaction.RedactIsIdempotent | btp/debug_http_client.go:129-169 | keyword redaction followed by token redaction is idempotent and leaves neither tokens nor keywords |
| Redaction.RedactUnchangedIff | btp/debug_http_client.go:152-169 | the pipeline leaves a body as it is if and only if it holds neither a keyword nor a token |
| Redaction.RedactIs | btp/debug_http_client.go:152-169 | without a keyword only the tokens are replaced, with one the whole body is |
| Redaction.KeywordInAnyCase | btp/debug_http_client.go:153-159 | a keyword in whatever case hides the whole body |
| Redaction.KeywordsAre | btp/debug_http_client.go:154 | the keywords are password, secret, token and credential |
| Redaction.MarksAre | btp/debug_http_client.go:157-168 | the marks are `<REDACTED>` and `<BODY REDACTED>` |
| Redaction.WordIs | btp/debug_http_client.go:167 | word bytes are the characters of the URL-safe alphabet, section 5 of RFC 4648 |
| DocsFile.UpdateDocsFile | scripts/generate-external-name-docs.go:288-324 | the loop over the lines computes the updated file, or fails |
| DocsFile.UpdatedIs | scripts/generate-external-name-docs.go:295-316 | the result is the file byte for byte through the end of the first line with the marker, and the generated text; it fails exactly without a marker |
| DocsFile.LastWriterWins | scripts/generate-external-name-docs.go:288-324 | an update after an update is the second update alone |
| DocsExtractor.FormatCommentContent | scripts/generate-external-name-docs.go:238-270 | each line comes out as its surroundings say: indented if only dashed lines separate it from a "How to find" |
| DocsExtractor.RenderingKeepsText | scripts/generate-external-name-docs.go:242-267 | formatting changes only white space around a line and adds one blank line after "How to find" |
| DocsExtractor.IndentationIs | scripts/generate-external-name-docs.go:245-265 | dashed lines of a section come out behind two spaces, all other lines as they are |
| DocsExtractor.LinesKeepOrder | scripts/generate-external-name-docs.go:242-267 | line i comes out behind the lines before it and the blank lines added for them |
| DocsExtractor.FormattedLines | scripts/generate-external-name-docs.go:269 | the lines of the text are the lines as they come out |
| DocsExtractor.SectionOpens | scripts/generate-external-name-docs.go:246-257 | white space aside, a section is opened by a line that reads "- How to find:" |
| DocsExtractor.ContentsOfConcat | scripts/generate-external-name-docs.go:193-199 | what is collected of two stretches of lines is collected one after the other |
| DocsExtractor.ContentsOfOne | scripts/generate-external-name-docs.go:193-199 | of a comment line its text is collected unless it is an annotation, of any other line nothing |
| DocsExtractor.InBlockIff | scripts/generate-external-name-docs.go:181-202 | a block is made of comment lines that are not blank |
| DocsExtractor.ExtractFromFile | scripts/generate-external-name-docs.go:138-236 | the state machine returns the block after the first marker without its annotations, named by the last annotation or else by the first type behind the line that ended it |
| DocsExtractor.ExtractionUnique | scripts/generate-external-name-docs.go:138-236 | that description admits one result for every file |
| Flatten.Flatten | internal/utils.go:52-76 | in any iteration order, panics exactly on an unsupported leaf; otherwise every entry is the encoding of a leaf under its dotted path and every leaf's path has an entry |
| Flatten.FlattenConserves | internal/utils.go:52-76 | there is one entry per leaf if and only if no two leaves share a key, and then each holds its own leaf |
| Flatten.UnderscoredIs | internal/utils.go:55 | spaces, and nothing else, are replaced by underscores |
| Flatten.CleanHasNoCollision | internal/utils.go:52-62 | maps whose keys hold no dot and stay distinct with underscores for spaces have no collisions |
| Flatten.OrderIndependentIff | internal/utils.go:52-76 | all iteration orders on all levels give the same result if and only if leaves that share a key have the same encoding |
| ConnectionDetails.FlattenConnectionDetails | internal/utils.go:87-110 | fails exactly if a field cannot be rendered; otherwise merges the entries' contributions in the order the map yields them |
| ConnectionDetails.OrderIndependentIff | internal/utils.go:78-110 | every order gives the same result if and only if no two entries write different values under one key |
| ConnectionDetails.OneObject | internal/utils.go:78-110 | with one object that shares no key with other entries, the others pass through and its blob, overridden by its fields, joins them |
| ConnectionDetails.OneObjectEntries | internal/utils.go:78-110 | the same entry by entry, with the blob under `__raw` |
| ConnectionDetails.NoObject | internal/utils.go:87-95 | without any object the details pass through as they are |
| FoldCompare.SliceContainsIgnoreCase | internal/utils.go:124-133 | found if and only if some element has the same folded form |
| FoldCompare.SliceEqualsFold | internal/utils.go:112-122 | true if and only if the lengths agree and every folded element of the left is on the right |
| FoldCompare.MeansPermutationIff | internal/utils.go:112-122 | the test means "permutations up to case" for every right-hand list if and only if the left-hand list has no duplicates up to case |
| FoldCompare.SymmetricWithoutDuplicates | internal/utils.go:112-122 | the test is symmetric on lists without duplicates |

## Left out

- HTTP, OAuth2 and OpenAPI clients, logging, file access, YAML and JSON parsing: no property of their own. Parsed JSON objects, regular expressions over source lines, leaf encodings, case folding and lower-casing are parameters.
- `validateCISCredential`, `authenticationParams` and the grant type predicates in `btp/cisclient.go`: settled by reading one body.
- Panics in the client builder, and evictions: the source has none of the latter, and a panicking build is outside the protocol.
- Redaction.RedactIsIdempotent: asks of lower-casing that an ASCII byte is mapped on its own, which is true of `bytes.ToLower` and proved for its ASCII case; the Unicode tables are not part of this model.
- StatusUpdate.NoLostUpdates: an update that fails with an error although the server has committed it is not modelled; timers are steps that may happen at any time.
- Redaction.LowerAsciiIsLowering: shows the ASCII case only; that the full mapping treats ASCII bytes on their own is taken from the Go library.
- Memoize.Map: the setters for expiration, limit and collection frequency, since the configuration is fixed before use; the unsynchronised read of the stopped flag is taken to be atomic, and stored values stand for themselves, not for pointers that a caller could write through.
- Tracking.Tracker: of the finalizers only the usage controller's is modelled. That an update replaces the whole object, is refused if the object has changed since it was read, and removes an object being deleted when it takes the last finalizer, are the rules of the applicator library and of the Kubernetes API server. Reflection over resources is the parameter `walked`.
- DeletionGate.NeverPassesWhileUsed: of what is read through a cache, only the usage controller's look at the target may be stale; the listing of usages and a tracker's look at a source are current. Listing and check are one step, as are reading and applying one usage, and the controller's last update and delete of a usage; resources that ignore references bypass the gate by design and are in `Tracking.Tracker.UsageCheck` only.
- CompoundKeys.TrustConfiguration.Initialize: a failing write of the observation leaves it as it was; a partly written one is not part of this model.
- The Terraform provider: for the runs in `ApiCredential` and `ServiceBroker` its state reports back the subaccount and the name or ID it was given or has assigned; the platform assigns broker IDs without delimiters.
- Strings are sequences of characters; names with invalid UTF-8 are not modelled.
- `generateDocumentation` and the directory walk of the documentation tool: concatenation and I/O.
- Resolvers, generated code, controllers' setup, the remaining helpers of `internal/utils.go`: no algorithm, or easy members only.
