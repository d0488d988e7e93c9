# v2ray-operator: a Dafny model

The operator has three controllers for v2ray proxies on Kubernetes. This project models them, and the subscription
format they publish, and proves what holds over every run.

- **V2rayUser.** A pass elects services region by region, adds the user to each v2ray server over gRPC, records where in
  `Spec.NodeList`, sets a finalizer, and on deletion removes the user from every recorded service. Adding and removing
  are sagas with a deferred rollback. `Election` has the two electors, `UserSaga` the two sagas, `UserRuns` the pass and
  the runs, `UserLifecycle` deletion and the fixed point of the node list, `UserController` the controller as a class
  over mutable state, proved equal to the functions the lemmas are about.
- **V2rayClient.** `Election` has its quota scan and address list, `Handlers` the batches of inbounds and outbounds.
- **V2ray.** `V2rayDeployment` has its reconciler, with a measure for convergence.
- **Subscriptions.** `Base64`, `Utf8` and `Json` are concrete; `Subscription` puts them together.

A fault oracle answers every API call and every RPC of a pass (fine, not found, broken), so a statement about passes
covers a failure at any point. Go's map iteration is an arbitrary walk of the keys.

Run the whole proof with `dafny verify dfyconfig.toml`.

## What turned out false

Each of these is proved with the exact condition under which the code does what it should; `Examples` has concrete
inputs.

- A failed add is not undone for users that were there before. The server's "already exists" counts as success
  (`internal/managers/v2fly/apis.go:175-182`), so the rollback evicts users an earlier pass had added: a pass that fails
  on its second service takes the user off the first one (`UserSaga.AddRollbackRestoresIff`, and with working rollback
  RPCs `WorkingRollbackRestoresIff`). The status write that
  follows turns Available to False; if it fails, the object reports a service it no longer has
  (`UserRuns.UnreportedFailure`).
- The service at which the add fails keeps the user if its RPC had gone through: it enters the rollback list only at
  the end of its iteration (`UserSaga.AddRollbackFresh`).
- Available does not say whose account is served. An entry that is there already counts as added and is left as it is, so
  a user created again, with a fresh uuid, reports Available while servers keep the account of its predecessor
  (`UserLifecycle.OwnAccountsIff`, `UserRuns.EntriesAreOwnOrOld`).
- Users are added before the finalizer is stored. A deletion request then removes the object at once, and leaves users
  behind if the finalizer was not written, if the add failed after the RPC of the service it stopped at, or if the
  rollback could not take back what the add had done (`UserLifecycle.LeakIff`, `FreshLeakIff`).
- Rebuilt node lists have size zero, which the next election reads as one. From the second pass on a region keeps only
  its first service, and the services dropped keep the user, even after deletion (`UserLifecycle.NodeListSettles`,
  `DroppedServicesKeepTheUser`, `DeletionIsCleanIff`).
- Deletion adds the user everywhere again before it removes it. It cannot complete while the election is empty or a
  service cannot be located, nor when two elected services are reached at one address - as all with the same port are
  in the test environment, where every host is the loopback (`UserLifecycle.DeletionCompletesIff`,
  `NoServiceNoDeletion`). If the services cannot all be added again the pass returns no error and so does not ask to be
  tried again (`QuietPassTells`).
- The two electors read a count of zero differently (`Election.SameCountsAgreeIff`). A V2rayUser's count is zero when it
  is left out, and after every pass; the CRD keeps a V2rayClient's count at one or more
  (`config/crd/bases/vpn.hdcjh.xyz_v2rayclients.yaml:43-48`), so the difference shows only where one set of counts is
  used for both.
- Addresses and services of a V2rayClient are paired by position, although services without an address were skipped
  (`Election.PairingIsRight`). Nothing comes of it today: the function that is handed the pair does not read the service.
- Applying a V2rayClient configuration is not idempotent (`Handlers.ApplyTwiceIff`).
- Links and subscriptions round-trip only up to ill-formed UTF-8: a Go string may hold any bytes, and the encoder prints
  those that are not text as an escaped U+FFFD (`Subscription.LinkRoundTrip`, `SubscriptionRoundTrip`).
- Base64 texts are not unique: unused bits are ignored (`Base64.EncodeDecodeIff`).

## Model

| member | source | states |
|---|---|---|
| Election.ElectServicesForUser | internal/controller/v2rayuser_controller.go:441-480 | the loop, with its two ways to skip a region and its one error exit, elects what `Elect` says: for each region in walk order the first services with that label, as many as asked for, an unset count read as one |
| Election.ElectFails | internal/controller/v2rayuser_controller.go:453-468 | the election is lost exactly when a List call of one of the regions fails with something other than not-found |
| Election.ElectMembers | internal/controller/v2rayuser_controller.go:450-477 | whatever fails, every elected service is in the cluster, listed as enabled, and labelled with the lower-cased name of a region asked for |
| Election.ElectElsewhere | internal/controller/v2rayuser_controller.go:445-477 | a region nobody asked for, after lower-casing, gets no service |
| Election.ElectPerRegion | internal/controller/v2rayuser_controller.go:441-480 | with regions distinct after lower-casing each one gets exactly the prefix of its own list, for every walk order of the map |
| Kube.LowerAt | internal/controller/v2rayuser_controller.go:450-451 | lower-casing, character by character: a capital becomes the small letter at its place, everything else stays |
| Kube.ListedExact | internal/controller/v2rayuser_controller.go:453-459 | what a List with both labels answers, in the labels themselves: the enable label is "true" and the region label is the region |
| Election.ElectedAreLabelled | internal/controller/v2rayuser_controller.go:453-477 | every elected service carries the enable label with the value "true" and the lower-cased name of a region asked for |
| Election.ElectIsMaximal | internal/controller/v2rayuser_controller.go:445-477 | no region gets more than asked for, one when the count is left out, and none is left short while a service with both labels is there |
| Kube.DialExact | internal/controller/v2rayuser_controller.go:482-508 | a service is dialled at its own address, or the loopback in the test environment, and its first port named grpc, which must not be 0 |
| Kube.DialNeedsGrpc | internal/controller/v2rayuser_controller.go:489-499 | a service without a port named grpc cannot be dialled |
| Kube.ServiceNamedExact | internal/controller/v2rayuser_controller.go:355-358 | a Get by name finds the first service of that name, and nothing exactly when there is none |
| Election.ElectServicesForClient | internal/controller/v2rayclient_controller.go:264-308 | the scan that decrements quotas while it appends is, at every step, `Scan` of the services seen so far - elected list and remaining quotas; a failed List elects nothing |
| Election.LastEntryWins | internal/controller/v2rayclient_controller.go:277-281 | a repeated region counts with its last entry |
| Election.QuotasExact | internal/controller/v2rayclient_controller.go:277-281 | a region has a quota exactly when it is listed |
| Election.ScanPerRegion | internal/controller/v2rayclient_controller.go:283-297 | from any point of the scan on: elected plus remaining is the quota, the elected services of a region are the first ones of its list, and there are min(quota, available) of them (all of them for a negative quota) |
| Election.ScanKeepsOrder | internal/controller/v2rayclient_controller.go:283-297 | the elected list is a subsequence of the listed one and holds only regions with a quota |
| Election.ScannedAreLabelled | internal/controller/v2rayclient_controller.go:270-297 | in the labels themselves: what the scan elects is enabled and in a region with a quota, and no quota is left over while such a service is there |
| Election.ElectorsAgree | internal/controller/v2rayclient_controller.go:264-308 | refinement between the two electors: same cluster, distinct lower-case regions, equal counts of at least one; in every region both elect the same services in the same order, hence the same multiset |
| Election.ElectorsAgreeIff | internal/controller/v2rayclient_controller.go:264-308 | for lower-case regions and any counts and quotas, the two electors elect the same multiset exactly when they give every region the same number of services |
| Election.SameCountsAgreeIff | internal/controller/v2rayuser_controller.go:445-448 | asked for the same counts the two electors agree exactly when no region that has a service has a count of zero |
| Election.SvcListToV2flyConfig | internal/controller/v2rayclient_controller.go:310-341 | the nested loops yield one address for each service with a cluster IP and a port named grpc, in order |
| Election.ReachableExact | internal/controller/v2rayclient_controller.go:315-337 | a service has an address if its cluster IP is not empty, at its first port named grpc |
| Election.ReachableNeedsGrpc | internal/controller/v2rayclient_controller.go:321-331 | a service without a port named grpc has none |
| Election.ConfigsConcat | internal/controller/v2rayclient_controller.go:314-340 | the addresses of two lists joined are those of the one followed by those of the other |
| Election.ConfigsOne | internal/controller/v2rayclient_controller.go:315-337 | a single service contributes its address, or nothing if it has none |
| Election.PairingIsRight | internal/controller/v2rayclient_controller.go:124-135 | the reconcile loop pairs address `i` with service `i`; that is right for every index exactly when no service without an address stands before one that has one |
| UserSaga.AddLoopExact | internal/controller/v2rayuser_controller.go:573-653 | wherever the loop stops, the completed services are a prefix of the list, and the user was added, where missing, on exactly the services whose RPC went through - one more than completed if a later lookup failed |
| UserSaga.CompletedIsFirstObstacle | internal/controller/v2rayuser_controller.go:573-653 | the loop completes exactly the services before the first one that cannot be dialled, added, or located, and fails exactly when there is one |
| UserSaga.MemberExact | internal/controller/v2rayuser_controller.go:516-536 | the account for a tag: vless if the tag mentions it anywhere, else vmess with alterId 0, none for other tags; the level as an unsigned 32-bit number |
| UserSaga.InfoOfExact | internal/controller/v2rayuser_controller.go:590-650 | the record names the node of the first pod selected by the first deployment the service selects, its address, port 443 and the service; none if the node is missing |
| UserSaga.InfoOfNeedsPod | internal/controller/v2rayuser_controller.go:590-624 | there is no record without a deployment the service selects and a pod that deployment selects |
| UserSaga.UndoAddExact | internal/controller/v2rayuser_controller.go:541-571 | whatever its RPCs answer, the rollback takes away exactly the slots of the completed services whose rollback RPC works |
| UserSaga.AddRollbackExact | internal/controller/v2rayuser_controller.go:541-660 | after a failed add, whatever the rollback RPCs answer: the tables with the user added wherever an RPC went through, less the slots of the completed services whose rollback RPC works |
| UserSaga.AddRollbackRestoresIff | internal/controller/v2rayuser_controller.go:541-660 | the rollback restores the tables exactly when no slot it takes away held the user before, and every slot the add reached held the user before or is taken away; for every answer of the rollback RPCs |
| UserSaga.WorkingRollbackRestoresIff | internal/controller/v2rayuser_controller.go:541-660 | the same with working rollback RPCs: no completed service held the user before, and the service the add stopped at, if its RPC went through, held the user or shares a server with a completed one |
| UserSaga.AddRollbackFresh | internal/controller/v2rayuser_controller.go:541-660 | the case the rollback is meant for: nobody held the user, no shared servers, working rollback RPCs; then only the service the loop stopped at can differ, and it holds the user exactly when its own RPC went through; a failure at or before that RPC, or at the final write, restores every table |
| UserSaga.AddSucceedsIff | internal/controller/v2rayuser_controller.go:573-660 | the add succeeds exactly when every service can be dialled, added and located with all calls answered, and the node list is written |
| UserSaga.AddSucceedsExact | internal/controller/v2rayuser_controller.go:573-663 | after a successful add every listed service holds the user and no other entry differs |
| UserSaga.AddRecordsAll | internal/controller/v2rayuser_controller.go:590-656 | the recorded node list has, for each region, the records of exactly the added services labelled with it, in list order, with sizes zero, and no other region |
| UserSaga.RecordsAgree | internal/controller/v2rayuser_controller.go:638-656 | what is recorded depends on the services alone: two successful adds of one list record the same, whoever held the user before |
| UserSaga.UnlabelledRecord | internal/controller/v2rayuser_controller.go:574-643 | a service without the region label is recorded under the empty name |
| UserSaga.RemoveLoopExact | internal/controller/v2rayuser_controller.go:351-379 | wherever the removal stops, it has taken the user from as many different servers as records it passed, all of which held it, and from nowhere else |
| UserSaga.RemoveStopsAtFirstObstacle | internal/controller/v2rayuser_controller.go:351-379 | the removal passes exactly the records before the first one whose calls are not answered, whose name leads to no server, or whose server does not hold the user or was an earlier record's; it fails exactly when there is one |
| UserSaga.UndoRemoveExact | internal/controller/v2rayuser_controller.go:319-349 | whatever its RPCs answer, the rollback gives the object's own account to exactly the slots of its list whose rollback RPC works and that lack one |
| UserSaga.RemoveSucceedsExact | internal/controller/v2rayuser_controller.go:351-394 | after a successful removal no recorded service holds the user, everything else is as before, and every record had led to a server of its own |
| UserSaga.RemoveRollbackRestoresIff | internal/controller/v2rayuser_controller.go:319-379 | a failed removal restores the tables exactly when every slot it took is given back and had carried the object's own level and account; for every answer of the rollback RPCs, every order, repeated names included; with working rollback RPCs all of them are given back |
| UserSaga.RemoveAllOrNothing | internal/controller/v2rayuser_controller.go:319-394 | with working rollback RPCs and recorded services that carry the object's own account, the removal either takes the user from every recorded service or changes nothing |
| UserSaga.RemoveSucceedsIff | internal/controller/v2rayuser_controller.go:351-379 | the removal succeeds exactly when its calls are answered, every record leads to a server, no two to the same one, and each holds the user |
| UserController.Reconciler.AddUserRpc | internal/managers/v2fly/apis.go:162-188 | adding a user that is there already is success and keeps the entry; a failed call changes nothing |
| UserController.Reconciler.RemoveUserRpc | internal/managers/v2fly/apis.go:162-188 | removing a user that is not there is an error |
| UserController.Reconciler.AddToOne | internal/controller/v2rayuser_controller.go:573-650 | one iteration: dial, add, the lookups of deployment, pod and node, each of which can fail after the add |
| UserController.Reconciler.AddToEach | internal/controller/v2rayuser_controller.go:573-653 | the add loop over tables, rollback list and node list is the fold the saga lemmas speak about |
| UserController.Reconciler.UndoAdd | internal/controller/v2rayuser_controller.go:541-571 | the deferred loop, skipping services it cannot dial or remove from |
| UserController.Reconciler.AddUserToSvcList | internal/controller/v2rayuser_controller.go:510-663 | the whole call: nothing happens for an unsupported tag; on success the stored object has the rebuilt node list; on any error the stored object is unchanged and the rollback has run |
| UserController.Reconciler.RemoveRecorded | internal/controller/v2rayuser_controller.go:353-374 | one record: find the service by name, dial it, remove the user |
| UserController.Reconciler.RemoveRegion | internal/controller/v2rayuser_controller.go:352-378 | the inner loop takes the records of one region off the flat list of records |
| UserController.Reconciler.UndoRemove | internal/controller/v2rayuser_controller.go:319-349 | the deferred loop, skipping services it cannot dial or add to |
| UserController.Reconciler.DoFinalizerOperations | internal/controller/v2rayuser_controller.go:286-394 | the nested loops with their rollback are the removal the saga lemmas speak about, for every walk order |
| UserController.Reconciler.PrepareObject | internal/controller/v2rayuser_controller.go:117-149 | status initialisation and uuid generation, which leave the rest of the object alone |
| UserController.Reconciler.ServeElected | internal/controller/v2rayuser_controller.go:173-283 | the pass from the add on: failed add, finalizer, deletion, Available, and the error returned (a failed add is none) |
| UserController.Reconciler.Finalize | internal/controller/v2rayuser_controller.go:213-271 | the finalizer is taken off only after the removal loop returned no error and Degraded True was stored; any failure on the way is returned as an error |
| UserController.Reconciler.Reconcile | internal/controller/v2rayuser_controller.go:97-283 | one pass over the mutable state ends in the state `Pass` gives and returns an error exactly when `PassFails` says so, for every answer of every call and every map order |
| UserRuns.PrepareKeeps | internal/controller/v2rayuser_controller.go:117-149 | the opening of a pass changes nothing but an unset id and the conditions, goes on only with an id, and never makes an object available or unavailable |
| UserRuns.AddConfined | internal/controller/v2rayuser_controller.go:510-663 | add and rollback touch only entries under the object's tag and email, and what appears there is its own account |
| UserRuns.RemoveConfined | internal/controller/v2rayuser_controller.go:286-394 | removal and rollback touch only entries under the object's tag and email, and what appears there is its own account |
| UserRuns.PassIsolated | internal/controller/v2rayuser_controller.go:97-283 | isolation of one pass, failing at any call |
| UserRuns.RunIsolated | internal/controller/v2rayuser_controller.go:97-283 | isolation over every run: no sequence of passes, markings, re-creations, edits of id and level, and cluster changes alters an entry under another email or another inbound tag |
| UserRuns.PassKeepsInv | internal/controller/v2rayuser_controller.go:97-283 | every pass keeps the run invariant, whatever fails in it other than the status write that admits a failed add |
| UserRuns.RunKeepsInv | internal/controller/v2rayuser_controller.go:97-283 | the run invariant holds along every run that begins in it, deletions and re-creations included |
| UserRuns.AvailableMeansServed | internal/controller/v2rayuser_controller.go:97-283 | along every run, over any tables and from any object that does not falsely report Available, re-creations included: while the object is not marked for deletion and Available is True, every service the stored node list names is reachable and holds the user |
| UserRuns.EntriesAreOwnOrOld | internal/controller/v2rayuser_controller.go:97-283 | over one life of an object, from any tables: every entry of the user is one that was there at the beginning, unchanged, or carries the object's own level and account |
| UserRuns.NewUserServedAsItself | internal/controller/v2rayuser_controller.go:97-283 | the two together for a new object without old entries: while it reports Available, every recorded service holds the user with its own account |
| UserRuns.MarkedHasFinalizer | internal/controller/v2rayuser_controller.go:197-211 | along every run a marked object that is still stored has the finalizer |
| UserRuns.UnreportedFailure | internal/controller/v2rayuser_controller.go:175-191 | why that status write matters: if it fails after a failed add, the object goes on reporting Available, and this stays true exactly when no recorded service shares a server with one the rollback took the user from - with working rollback RPCs, one the add had completed |
| UserLifecycle.RecordedSlotsAreElected | internal/controller/v2rayuser_controller.go:352-378 | the removal visits exactly the servers the same pass had added the user to |
| UserLifecycle.RecordedOncePerService | internal/controller/v2rayuser_controller.go:638-653 | the record has one entry per added service |
| UserLifecycle.RecordingConservesElection | internal/controller/v2rayuser_controller.go:573-656 | with regions distinct after lower-casing, region r is left with min(available(r), max(1, size(r))) records, for every map order |
| UserLifecycle.ReleaseExact | internal/controller/v2rayuser_controller.go:213-271 | a pass that makes the object disappear was over a marked object, had stored Degraded True (seen by cutting off its last write) with the node list its add recorded, and leaves the tables as they were less exactly the slots of the services it elected, which are those of that node list |
| UserLifecycle.ReleaseIsOrdered | internal/controller/v2rayuser_controller.go:245-267 | had the last write of such a pass failed, the object would be there, marked, with its finalizer and Degraded True, and the tables the same |
| UserLifecycle.DegradedMeansReleased | internal/controller/v2rayuser_controller.go:213-271 | a pass that leaves an object newly stored with Degraded True has taken the user off every service of the stored node list |
| UserLifecycle.DegradedIsOrdered | internal/controller/v2rayuser_controller.go:213-271 | the whole deletion half, whatever fails: nothing is removed before Degraded Unknown is stored, True comes after the removal succeeded and the object was read again, and each failure is returned |
| UserLifecycle.FailedRemovalReported | internal/controller/v2rayuser_controller.go:219-234 | a removal that fails is rolled back and returned, and leaves Degraded Unknown, the finalizer and the recorded node list |
| UserLifecycle.ReleaseSafety | internal/controller/v2rayuser_controller.go:213-271 | over every run, whatever failed before: when the object disappears in a pass, every service in the node list stored at that moment can be reached and does not hold the user, nor does any service the pass elected |
| UserLifecycle.RecordedAreReleased | internal/controller/v2rayuser_controller.go:213-271 | the same for one pass and the node list it had stored |
| UserLifecycle.DeletionIsCleanIff | internal/controller/v2rayuser_controller.go:213-271 | deletion leaves no entry of the user anywhere exactly when every place that held it belongs to a service the releasing pass elected |
| UserLifecycle.DeletionCompletesIff | internal/controller/v2rayuser_controller.go:151-271 | one error-free pass over a marked object completes its deletion exactly when it elects a service, the tag is supported, and the elected services can be dialled and located, no two at one address |
| UserLifecycle.RemovalOfElected | internal/controller/v2rayuser_controller.go:351-379 | without faults the services just added can be removed again exactly when no two of them share a server |
| UserLifecycle.OwnAccountsIff | internal/controller/v2rayuser_controller.go:573-592 | after a successful add every elected service holds the user, and all of them with the object's own account exactly when those that held it before did so with that account |
| UserLifecycle.AddedAccount | internal/controller/v2rayuser_controller.go:516-592 | after a pass whose add succeeded every elected slot holds what it held before, or, if it was free, the account the tag calls for under the object's id and level |
| UserLifecycle.UnsupportedTag | internal/controller/v2rayuser_controller.go:528-530 | a tag that mentions neither protocol changes no table and is reported as Available False |
| UserLifecycle.AddedIsRecorded | internal/controller/v2rayuser_controller.go:655-660 | a successful add is recorded whatever fails after it: the stored node list is the one the add filed, and the finalizer is there exactly when it was or was written |
| UserLifecycle.LeakIff | internal/controller/v2rayuser_controller.go:173-211 | exactly when a pass over a live object without finalizer leaves an entry for a deletion request right after it to leave behind, whatever fails: the add succeeded and the finalizer was not written, or the add failed and a slot of the user, old or reached by the add, is not among those the rollback took away |
| UserLifecycle.FreshLeakIff | internal/controller/v2rayuser_controller.go:173-211 | the same for a new user on distinct servers: the finalizer was not written, or the add failed after the RPC of the service it stopped at, or a rollback RPC failed |
| UserLifecycle.QuietPassTells | internal/controller/v2rayuser_controller.go:97-283 | a pass that reads the object and returns no error has told what happened: a live object reports Available True if a service was elected and added, and False otherwise; a marked one is gone, or reports False |
| UserLifecycle.PassWrites | internal/controller/v2rayuser_controller.go:97-283 | nothing is written except by a call that was answered: id, node list, finalizer, disappearance, and the tables |
| UserLifecycle.PreparedIsKept | internal/controller/v2rayuser_controller.go:117-149 | a generated id and the first condition stay, whatever comes after them in the pass |
| UserLifecycle.AvailableIsWritten | internal/controller/v2rayuser_controller.go:117-283 | Available changes only by a status write that went through, to True only on a live object, to Unknown only on one without conditions |
| UserLifecycle.UnreadObject | internal/controller/v2rayuser_controller.go:104-115 | an object that cannot be read: nothing happens, an error unless it was not found |
| UserLifecycle.EarlyFailure | internal/controller/v2rayuser_controller.go:117-155 | a failing write or read before the add, or a failing List, is returned and leaves the tables alone |
| UserLifecycle.ReleaseReturnsNoError | internal/controller/v2rayuser_controller.go:213-271 | a pass that makes the object disappear returns no error |
| UserLifecycle.ErrorFreePassFailsIff | internal/controller/v2rayuser_controller.go:97-283 | without faults a pass returns an error exactly when a marked object's services were added again and two of them share a server |
| UserLifecycle.NoServiceNoDeletion | internal/controller/v2rayuser_controller.go:151-171 | once no service is left a marked object is never deleted and its user stays, whatever passes are made |
| UserLifecycle.OneRegionDeletes | internal/controller/v2rayuser_controller.go:213-271 | a settled object with one region is deleted by one error-free pass |
| UserLifecycle.SuccessExact | internal/controller/v2rayuser_controller.go:97-283 | everything an error-free live pass that ends Available does to the tables and the object |
| UserLifecycle.LivePassReports | internal/controller/v2rayuser_controller.go:97-283 | an error-free pass over a live object returns no error and reports Available True exactly when it elects a service, the tag is supported, and every elected service can be dialled and located; otherwise it reports False and keeps node list and finalizer |
| UserLifecycle.RebuiltElectsFirsts | internal/controller/v2rayuser_controller.go:441-480 | over a node list a pass has rebuilt, the election is the first listed service of each recorded region |
| UserLifecycle.NodeListSettles | internal/controller/v2rayuser_controller.go:97-283 | after two error-free passes, the first of them successful, the system has settled: each recorded region is left with its first listed service, whatever sizes were asked for |
| UserLifecycle.SettledStays | internal/controller/v2rayuser_controller.go:97-283 | a settled system is a fixed point of every number of further error-free passes, with any map orders |
| UserLifecycle.SettledDeletion | internal/controller/v2rayuser_controller.go:213-271 | deleting a settled object takes the user from the first service of each recorded region and from nowhere else |
| UserLifecycle.DroppedServicesKeepTheUser | internal/controller/v2rayuser_controller.go:441-480 | services elected by the first pass and dropped while settling keep the user after a completed deletion, unless they share a server with the first service of a recorded region |
| Examples.FailedAddEvicts | internal/controller/v2rayuser_controller.go:173-191 | one pass without a fault over a served user, whose region has a second server without a grpc port: the user is taken off the first |
| Examples.AvailableButNotServed | internal/controller/v2rayuser_controller.go:175-191 | the same pass with its status write failing: the object stays Available for a record whose server has lost the user |
| Examples.FailingServiceKeepsUser | internal/controller/v2rayuser_controller.go:573-653 | a new user, and the pods of the first server cannot be listed: the user stays on that server, and survives a deletion request that removes the object at once |
| Examples.UnwrittenFinalizerLeaks | internal/controller/v2rayuser_controller.go:199-211 | a new user, and the finalizer cannot be written: a deletion request leaves the user on both servers |
| Examples.OldAccountStays | internal/controller/v2rayuser_controller.go:97-283 | a new object whose user the first server still holds with an earlier uuid: one pass without a fault ends Available, and the server keeps the old account |
| Examples.RecreatedUserMeetsOldEntry | internal/controller/v2rayuser_controller.go:97-283 | how that state comes about: a failed add, a deletion request, and the user created again |
| Examples.SharedAddressBlocksDeletion | internal/controller/v2rayuser_controller.go:482-508 | in the test environment, where all hosts are the loopback, two elected servers block a deletion pass without any fault |
| Examples.DeletedUserRemains | internal/controller/v2rayuser_controller.go:97-283 | a concrete user asked for on two servers: after two passes, a deletion and a last pass, none of them with a fault, the object is gone and the second server still holds the user |
| Examples.SkippedServiceShiftsPairs | internal/controller/v2rayclient_controller.go:124-135 | a concrete list on which the address of one service is handed over together with another service |
| Examples.TwoTextsOneByte | internal/managers/v2fly/utils.go:40 | two different texts that decode to the same byte |
| Examples.DifferentLinksPrintAlike | internal/managers/v2fly/structs.go:284-291 | two links that differ in one ill-formed byte have one printed form, and neither is read back |
| Examples.SecondApplyFails | internal/controller/v2rayclient_controller.go:343-368 | a configuration with one inbound applied twice to an empty server: the second time fails |
| Base64.DecodeEncode | internal/managers/v2fly/utils.go:35 | decoding an encoding gives the bytes back, for every byte sequence (sections 3.2 and 4 of RFC 4648) |
| Base64.EncodeShape | internal/managers/v2fly/utils.go:35 | the output has 4 * ceil(n / 3) characters, all in the alphabet or padding, and no line break |
| Base64.LetterTable | internal/managers/v2fly/utils.go:35 | the letters are those of table 1 of RFC 4648 |
| Base64.GroupBits | internal/managers/v2fly/utils.go:35 | four letters are the 24 bits of three bytes, six at a time |
| Base64.TestVectors | internal/managers/v2fly/utils.go:35 | vectors of section 10 of RFC 4648 |
| Base64.DecodeWrapped | internal/managers/v2fly/utils.go:40 | line breaks inside a text do not matter |
| Base64.DecodesIff | internal/managers/v2fly/utils.go:40 | the texts that decode, line breaks removed, are letters in groups of four with at most two characters of padding at the end |
| Base64.EncodeDecodeIff | internal/managers/v2fly/utils.go:40 | the other direction holds exactly when the unused bits of the last group are zero; other texts are accepted too |
| Utf8.DecodeEncode | internal/managers/v2fly/structs.go:284-291 | every text survives UTF-8 |
| Utf8.EncodeDecodeIff | internal/managers/v2fly/structs.go:284-291 | bytes survive being read as text exactly when they are well-formed, by the table of section 4 of RFC 3629 |
| Utf8.Examples | internal/managers/v2fly/structs.go:284-291 | one character of each length, from section 7 of RFC 3629 and beyond |
| Json.DecimalRoundTrip | internal/managers/v2fly/structs.go:268-270 | every integer printed with %d reads back as itself |
| Json.ParsePrint | internal/managers/v2fly/structs.go:284-291 | for every JSON value over byte strings, nested ones included: what was printed, with the newline the encoder adds, parses back with every ill-formed byte of a string replaced by U+FFFD (RFC 8259, string escapes of section 7) |
| Json.CleanIff | internal/managers/v2fly/structs.go:284-291 | that replacement changes nothing exactly when every string and key in the value is well-formed UTF-8 |
| Json.PrintPlain | internal/managers/v2fly/structs.go:284-291 | printed text holds no control character, no <, > or &, no line or paragraph separator, whatever the strings hold |
| Json.ShortEscapes | internal/managers/v2fly/utils.go:22 | the escapes with a letter of their own are read as their characters |
| Json.PlainUnit | internal/managers/v2fly/utils.go:22 | a four-digit escape is read as its character |
| Json.SurrogatePair | internal/managers/v2fly/utils.go:22 | two surrogate escapes are read as the one character they stand for |
| Json.LoneSurrogate | internal/managers/v2fly/utils.go:22 | a surrogate escape alone is read as U+FFFD |
| Json.BlankAhead | internal/managers/v2fly/utils.go:22 | a blank ahead does not matter |
| Json.LastKeyWins | internal/managers/v2fly/utils.go:22 | of two equal keys the last one wins |
| Json.BlankAfter | internal/managers/v2fly/utils.go:22 | a blank after an element or the whole text does not matter |
| Json.BlankAfterField | internal/managers/v2fly/utils.go:22 | nor does one after a field |
| Json.BlankAfterKey | internal/managers/v2fly/utils.go:22 | nor one between a key and its colon |
| Json.BlankInBrackets | internal/managers/v2fly/utils.go:22 | nor one after an opening bracket |
| Json.TrailingTextRefused | internal/managers/v2fly/utils.go:22 | text after a value is refused |
| Json.BadStringsRefused | internal/managers/v2fly/utils.go:22 | raw control characters, unknown escapes and missing quotes are refused |
| Json.BadNumbersRefused | internal/managers/v2fly/utils.go:22 | a leading zero, a fraction, an exponent and a missing digit are refused in an integer |
| Json.BadSeparatorsRefused | internal/managers/v2fly/utils.go:22 | anything but the comma, the colon and the closing bracket in their places is refused |
| Json.BadStartRefused | internal/managers/v2fly/utils.go:22 | no value begins with any other character |
| Json.HexCases | internal/managers/v2fly/utils.go:22 | hex digits are read in either case |
| Json.BeforeIff | internal/managers/v2fly/structs.go:284-291 | names are printed in the order of their bytes |
| Json.ChosenEscapes | internal/managers/v2fly/structs.go:284-291 | which escape the encoder chooses |
| Subscription.ToSubscription | internal/managers/v2fly/utils.go:28-36 | the builder loop prints one line per link and encodes the whole |
| Subscription.FromSubscription | internal/managers/v2fly/utils.go:38-60 | the parsing loop, with its blank lines and its two error exits, reads what `ReadContent` says |
| Subscription.LinkRoundTrip | internal/managers/v2fly/utils.go:10-26 | parsing the printed form of any link gives it with ill-formed bytes replaced, hence the link back exactly when its strings are well-formed UTF-8 |
| Subscription.LinkIsOneLine | internal/managers/v2fly/structs.go:284-291 | a printed link is one non-empty line |
| Subscription.SplitConcat | internal/managers/v2fly/utils.go:46 | the split recovers the pieces between line breaks |
| Subscription.SubscriptionRoundTrip | internal/managers/v2fly/utils.go:28-60 | for every list of links, parsing the printed subscription returns one link per link in the same order; the list itself exactly when every string in it is well-formed UTF-8 |
| Subscription.SubscriptionInjective | internal/managers/v2fly/utils.go:28-36 | lists with the same subscription are equal up to their ill-formed bytes; different lists of well-formed links have different subscriptions |
| Subscription.ReadLinesExact | internal/managers/v2fly/utils.go:49-57 | parsing is all-or-nothing: it succeeds exactly when every non-empty line is a link, and returns one link per such line in order |
| Subscription.ReadBodyConcat | internal/managers/v2fly/utils.go:46-57 | parsing is compositional: two bodies joined at a line break read as the two readings joined, and blank lines add nothing |
| Subscription.LinkFromInbound | internal/managers/v2fly/structs.go:258-282 | the map filled name by name, or an error for a protocol other than vmess |
| Subscription.InboundSurvives | internal/managers/v2fly/structs.go:258-291 | what a client reads from the link of an inbound, through JSON, UTF-8 and base64: the tag, the id of the first client, and port and alterId as decimals |
| Subscription.InboundSurvivesWhole | internal/managers/v2fly/structs.go:258-291 | the rest of that link: the constant texts, the stream settings, and no name besides the eleven |
| Subscription.PrefixIsVmess | internal/managers/v2fly/utils.go:12-15 | the prefix is the text vmess://, and a text without it is no link |
| Subscription.TextsSurvive | internal/managers/v2fly/structs.go:258-291 | every text of such a link is read back under its name |
| Handlers.HandlerService.Add | internal/managers/v2fly/apis.go:84-118 | the add loop with its early returns; the outbound twin is the same |
| Handlers.HandlerService.Remove | internal/managers/v2fly/apis.go:120-160 | the two loops, all tags looked at before the first removal; the outbound twin is the same |
| Handlers.AddLeavesPrefix | internal/managers/v2fly/apis.go:99-117 | an add leaves exactly a prefix of the batch installed, all of it exactly when it does not fail |
| Handlers.AddStopsAtFirstObstacle | internal/managers/v2fly/apis.go:99-117 | whatever the RPCs answer, an add stops at the first handler that does not build, whose RPC fails, or whose tag is taken or was used before, and fails if there is one |
| Handlers.UnconvertedChangesNothing | internal/managers/v2fly/apis.go:89-96 | a configuration that cannot be converted, or has no handlers, fails and changes nothing, for add and remove |
| Handlers.AddSucceedsIff | internal/managers/v2fly/apis.go:84-118 | without faults an add succeeds exactly when there is something to add, everything builds, and every tag is free and used once |
| Handlers.RemoveTakesPrefix | internal/managers/v2fly/apis.go:135-157 | a remove changes nothing if a tag is empty and otherwise takes exactly a prefix of the batch out |
| Handlers.RemoveStopsAtFirstObstacle | internal/managers/v2fly/apis.go:145-157 | whatever the RPCs answer, a remove stops at the first handler whose RPC fails, whose tag is not there or was removed before, and fails if there is one |
| Handlers.AddThenRemove | internal/managers/v2fly/apis.go:84-160 | removing the batch just added restores the table when every handler is tagged; otherwise nothing is removed at all |
| Handlers.ApplyClientConfig | internal/controller/v2rayclient_controller.go:343-368 | inbounds, then outbounds, either left out when there are none |
| Handlers.ApplyTwiceIff | internal/controller/v2rayclient_controller.go:343-368 | applying a configuration a second time fails exactly when some handler of it has a tag, so a repeated pass over an unchanged V2rayClient fails on a server it has configured |
| Handlers.ApplyLeavesPrefixes | internal/controller/v2rayclient_controller.go:343-368 | whatever the RPCs answer, an application leaves exactly the dealt-with prefix of the inbounds and, only if that is all of them, that of the outbounds; a side without handlers is passed over |
| V2rayDeployment.Reconciler.Reconcile | internal/controller/v2ray_controller.go:82-284 | one pass over the mutable state ends in the state `Pass` gives and returns an error exactly when `PassFails` says so, for every answer of every call |
| V2rayDeployment.Reconciler.Finalize | internal/controller/v2ray_controller.go:139-192 | the deletion half: Degraded Unknown, Degraded True, then the finalizer; any failure is returned |
| V2rayDeployment.Reconciler.SettleDeployment | internal/controller/v2ray_controller.go:194-283 | the live half: create, resize, or report, and the error returned |
| V2rayDeployment.PassMovesCloser | internal/controller/v2ray_controller.go:82-284 | no pass takes a live object further from its goal, one that reads the object and returns no error - an error-free one above all - brings it nearer, and at the goal no pass changes anything |
| V2rayDeployment.TwoGoodPassesSuffice | internal/controller/v2ray_controller.go:82-284 | every run with two passes in it that read the object and return no error, whatever fails in the others, ends with Available True, the finalizer in place and a deployment with the wanted replicas (any number for size 0), and stays there |
| V2rayDeployment.PassWrites | internal/controller/v2ray_controller.go:82-284 | nothing is written except by a call that was answered: finalizer, disappearance, and the deployment, which only ever gets the wanted size |
| V2rayDeployment.AvailableMeansDeployed | internal/controller/v2ray_controller.go:194-283 | a live pass that ends with Available True found it so, or found a deployment with the wanted replicas |
| V2rayDeployment.AvailableIsWritten | internal/controller/v2ray_controller.go:102-283 | Available changes in a live pass only by a status write that went through, after a failed resize only once the object was read again |
| V2rayDeployment.FailureIsReported | internal/controller/v2ray_controller.go:198-261 | a deployment that cannot be built or resized leaves Available False and returns an error |
| V2rayDeployment.FailedCallIsReturned | internal/controller/v2ray_controller.go:82-284 | exactly which failing calls are returned as errors, and that those before the deployment leave it alone |
| V2rayDeployment.DegradedIsOrdered | internal/controller/v2ray_controller.go:139-192 | the deletion half, whatever fails: Degraded Unknown, then a fresh read, then True, and each failure is returned |
| V2rayDeployment.RunKeepsFinalizer | internal/controller/v2ray_controller.go:121-135 | along every run a marked object that is still stored has the finalizer |
| V2rayDeployment.ReleaseIsOrdered | internal/controller/v2ray_controller.go:139-192 | the object disappears only in a pass over a marked object, and only after that pass has stored Degraded True |
| V2rayDeployment.DeletionIsResumable | internal/controller/v2ray_controller.go:139-192 | wherever a run left a marked object, one error-free pass completes its deletion, and no pass touches its deployment |

## Left out

Assumptions about the surroundings:

- A call that is answered with an error had no effect; lost answers, the 10 second timeout of the add, dialling and
  reconnecting are not modelled. Panics, and the recover in the two rollbacks, are excluded.
- The view of the cluster - services, deployments, pods, nodes - is the same during a whole pass; it may change between
  passes.
- Every server has an inbound with the object's tag. If one had none, adding and removing there would fail.
- Two MatchingLabels options of one List are conjoined, as the controller-runtime version of the module file does.
- Resource versions, conflicts, caches and stale reads: a read that is answered gives the stored state, so the V2ray
  controller sees "not found" for its deployment exactly when there is none. One namespace, no foreign finalizers, one
  worker per object.
- Servers compare emails exactly, and keep one user per inbound tag and email; adding a handler is refused when its tag
  is taken, handlers without a tag pile up, and removing an unknown tag is refused, for inbounds and outbounds alike.
  Their code is not part of this model.
- In the runs of `UserRuns` a service is reached at a fixed address for its name, email and tag of the object stay the
  same, only the controller writes its node list, and nobody else touches entries under its tag and email. Id and level
  may be edited, except in the two statements about the object's own account.
- Pods and deployments are found by labels in one namespace; what getNodePublicIp finds for a node is part of the view
  of the cluster.
- Region counts are natural numbers, as the CRD demands, and node list pointers are not nil. Lower-casing is modelled
  where it ends in ASCII, as label values are.

Parts of the repository that are not modelled:

- The default size of one is written to the local copy of the object only (line 447 of the V2rayUser controller), and
  never stored, so the model does not write it.
- VirginIp and OutboundTag, which no controller reads, and Domain.
- The V2rayClient pass around election and apply: status, finalizer, an empty finalizer operation; the error of its
  election is overwritten and an empty list applied.
- Subscription.LinkFromInbound: a vmess inbound without clients, without stream settings or without websocket settings
  makes the original panic; the contract demands all three. Its strings are text, as they come out of JSON.
- ToV2rayV4Config and Build come from v2ray-core: their outcomes are parameters of a batch.
- JSON: fractions, exponents, integers beyond 64 bits and the nesting limit of the decoder; a link holds byte strings,
  booleans, nulls, 64-bit integers, arrays and objects.
- Uuid generation (the new id is a parameter of a pass), events, logs, reasons, messages and times of conditions,
  requeueing.
- ToJson and the deep copies, QueryStats and GetSysStats, AlterOutbound, deployments and probes, labels and images,
  set-up code and manifests.
