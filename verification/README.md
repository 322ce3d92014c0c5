# Spyre device plugin: agreement between its views

The Spyre Kubernetes device plugin keeps several views of the same PCI devices: a shared allocation
ledger, one pool per resource name, a node-state record with interface lists, an unhealthy list and a
condition, a filtered topology, and a health map fed by a health service. This project models the code
that keeps those views in step and proves when they agree, over every input, every interleaving and every
run. `dafny verify dfyconfig.toml` checks everything.

| module | models |
|---|---|
| `Types` | datatypes several modules share |
| `Strings` | `strings.Contains` and its kin, `sort.Strings` |
| `Ledger`, `LedgerRuns`, `SharedInfo` | the shared ledger, the pools and the select loop: as values, as runs, and as the classes that update them in place |
| `HealthScan`, `Interfaces` | device records, device health, the interface reports of one scan |
| `NodeState`, `NodeStatus`, `NodeStateRuns` | reconciling the node-state record with scans, over whole runs |
| `Topology` | presence and health filters, largest-peer-group selection |
| `Signalling`, `Reconnect` | health-map updates, debounce timers, reconnection loops, as interleaved steps |
| `PodLifecycle` | allocation and removal as version-checked writers, retiring reservations |
| `JsonHeap`, `SenlibConfig`, `SenlibGenerator` | the configuration generator over a heap of shared nested maps |
| `PoolConstruction`, `DeviceConflict` | building pools, hotplug, conflict test |

Each state-changing Go function is a method (of a class where the Go code has a receiver) proved against a
function or relation on values; the results about whole runs are lemmas about those. Ranging over a Go map
is a loop that takes an arbitrary element of a set, so every result holds for every iteration order.

## What turned out not to hold unconditionally

For each of these the project proves exactly when the property holds, and that it can fail.

- An allocation message that meets a conflict and then a duplicate notifies the pools and then records
  nothing; a de-allocation that names one pool but lists a device of another, and a server registered while
  its devices are held elsewhere, also break the agreement between pools and ledger (`Ledger`, `LedgerRuns`).
- A node-state record whose only conditions are of other types never gets the health condition
  (`NodeStateRuns.ScanSetsCondition`).
- An update whose rediscovery fails consumes the signal and reads nothing, so a change can be lost
  (`Signalling`).
- A dropped health stream is never restored if it drops again before the reconnection loop that restored it
  has given its flag back, or if the loop registers before the dropped listener has cleared `running`
  (`Reconnect`).
- A removal whose first read of the record fails reports success and leaves the allocation behind; with the
  plugin's single worker this is the only way it can. With several workers an allocation committed between
  the two reads of a removal survives it too (`PodLifecycle`).
- Configuration calls influence one another through the shared nested maps exactly when the template has an
  `SNT_MCI` section that a PF call changes (`SenlibConfig`).
- A hotplug rebuilds a pool with the first configuration of its base name and without regard to earlier
  configurations, so it changes the pool of a later configuration of that name (the prefix may differ) and
  any pool part of whose devices an earlier configuration took (`PoolConstruction`).
- A hotplug in per-device mode rebuilds the tiered pools as if their tier were an address, and so empties
  them: the guard tests for the suffix `tier`, but the names end in `tier0` to `tier2` (`PoolConstruction`).
- The flag for rewriting the unhealthy list is also raised by updates that do not change it
  (`NodeStateRuns.ListFlagIsExact`).
- The health filter alone leaves a topology closed exactly when no kept device lists a kept peer the
  topology does not know (`Topology`).

The comment on the clean-up loop speaks of 4 seconds; the constant is 30 seconds and the model follows it.

## Assumed about code outside the repository

- `SameAs` compares name, namespace and UID. `RemoveByPod` and `RemoveByDevices` remove every matching entry
  in order and say whether there was one; device lists are compared as sets; an entry-less reservation is
  empty. `NormalizeReservations` changes nothing.
- A status write made from a stale version is refused and changes nothing.
- `SafePciAddress` joins name and address with `_` and writes `:` as `_`. The base resource names are
  `spyre_pf` and `spyre_vf`, the tier suffixes `_tier0`, `_tier1` and `_tier2`.
- Clock readings, the existence of paths, sysfs contents, the reports of the health service, the outcome of
  registrations and reads, and the joined metrics path are inputs. Durations are in nanoseconds.

## Model

| member | source | states |
|---|---|---|
| `Ledger.TakeoverClosedForm` | pkg/factory/info.go:150-155 | Releasing conflicts resource by resource, in any order, drops from a pool's two maps exactly the conflicting devices held by the resources already ranged over; the anonymous de-allocation rule never misfires. |
| `Ledger.TakeoverOrderIrrelevant` | pkg/factory/info.go:135-167 | From an agreeing state, an allocation taking devices from any number of resources ends in the same ledger and pools whatever order the conflict map is ranged in. |
| `Ledger.ConflictsGrouped` | pkg/factory/info.go:136-149 | The conflict map files a device under a resource exactly when it was scanned and the ledger gives it to that other resource. |
| `Ledger.AllocationKeepsAgreement` | pkg/factory/info.go:135-167 | An allocation keeps every pool in agreement with the ledger if and only if it is not cut short by a duplicate after a conflict some pool tracks. |
| `Ledger.DeallocationKeepsAgreement` | pkg/factory/info.go:169-177 | A de-allocation keeps every pool in agreement if and only if no pool that is named, or that loses a device of its own, also sees a device of another holder. |
| `Ledger.RegistrationKeepsAgreement` | pkg/factory/info.go:56-58 | Registering a pool with empty maps keeps agreement if and only if nothing it would track is allocated. |
| `LedgerRuns.RunKeepsAgreement` | pkg/factory/info.go:61-89 | Over every interleaving of messages, ticks and registrations, all pools agree with the ledger in every state if and only if every message was safe when it arrived. |
| `LedgerRuns.PoolsAdvertiseTheLedger` | pkg/resources/pool_stub.go:98-110 | In every state of a safe run a pool offers exactly its devices no other resource holds, and a topology-aware pool marks exactly the devices it owns. |
| `LedgerRuns.LedgerHistory` | pkg/factory/info.go:92-177 | In every state of every run a device is in the ledger exactly when the last message that gave or freed it gave it, with what that message said and its mount points sorted; an allocation gives nothing exactly when it lacks devices or existing mount points, or a listed device is recorded for the same resource with the same mount points. |
| `LedgerRuns.DisciplinedMessagesAreSafe` | pkg/factory/info.go:138-149 | Allocations that do not mix conflicts with duplicates, and de-allocations of one holder's devices naming the holder or no pool, are safe. |
| `LedgerRuns.MixedAllocationBreaksAgreement` | pkg/factory/info.go:141-144 | A run from the start whose third message, an allocation with a conflict before a duplicate, is the first to break the agreement. |
| `LedgerRuns.MisnamedDeallocationBreaksAgreement` | pkg/factory/info.go:169-177 | A run from the start in which a de-allocation naming the wrong pool breaks the agreement. |
| `LedgerRuns.LateRegistrationBreaksAgreement` | pkg/factory/info.go:56-58 | A run from the start in which a server registered after an allocation breaks the agreement. |
| `LedgerRuns.ReservationHistory` | pkg/factory/info.go:92-118 | After any run a path is reserved, with its time, exactly when its last reservation has been neither claimed, expired nor removed since. |
| `LedgerRuns.ReleasedWhenOverdue` | pkg/factory/info.go:179-198 | A tick force-releases exactly the reserved paths still on disk whose last reservation is more than 30 seconds old. |
| `LedgerRuns.ReleasedOncePerReservation` | pkg/factory/info.go:179-198 | A path claimed or force-released is force-released again only if it was reserved in between, and longer ago than the waiting time. |
| `LedgerRuns.SurvivorsAreFresh` | pkg/factory/info.go:179-198 | What survives a tick exists, is at most the waiting time old at that tick, and carries the time of its last reservation. |
| `SharedInfo.ResourcePool.GetDevices` | pkg/resources/pool_stub.go:98-110 | The loop returns exactly the devices not marked other-allocated. |
| `SharedInfo.ResourcePool.GetSelfAllocation` | pkg/resources/pool_stub.go:217-225 | The copy equals the pool's own map. |
| `SharedInfo.ResourcePool.InformedBySharedInfo` | pkg/resources/pool_stub.go:187-215 | Updates the map the rule selects, for the pool's own devices only, and reports a change exactly when the set of devices marked allocated changes. |
| `SharedInfo.SpyreDeviceSharedInfo.AddServer` | pkg/factory/info.go:56-58 | Registration is a step of the run relation. |
| `SharedInfo.SpyreDeviceSharedInfo.Notify` | pkg/factory/info.go:121-133 | Every pool ends as the notification says, the named one only if topology-aware. |
| `SharedInfo.SpyreDeviceSharedInfo.UpdateAllocation` | pkg/factory/info.go:135-167 | Scan, takeover in some range order, record and announce: the state ends as the value model says. |
| `SharedInfo.SpyreDeviceSharedInfo.HandleAllocated` | pkg/factory/info.go:92-105 | Ignored, or an allocation with sorted mount points followed by the reservation of each: a step of the run relation. |
| `SharedInfo.SpyreDeviceSharedInfo.DeleteAllocation` | pkg/factory/info.go:169-177 | Ledger entries go and all pools are notified. |
| `SharedInfo.SpyreDeviceSharedInfo.ClaimMountedPaths` | pkg/factory/info.go:108-118 | Claimed paths leave the table, others keep their time: a step of the run relation. |
| `SharedInfo.SpyreDeviceSharedInfo.PeriodicClean` | pkg/factory/info.go:179-198 | One tick keeps exactly the existing, recent paths and hands exactly the existing, overdue ones to the forced release. |
| `SharedInfo.SpyreDeviceSharedInfo.Run` | pkg/factory/info.go:61-89 | The states of the select loop, fed any sequence of messages and ticks, form a run in the sense of the run theorems. |
| `HealthScan.InitHealthInfo` | pkg/spyredevice/health/handler.go:419-430 | Every discovered device gets its default record, nothing else does. |
| `HealthScan.UpdateHealths` | pkg/spyredevice/health/health_client.go:180-186 | Exactly the discovered devices that were reported take the reported record. |
| `HealthScan.OverlayIsScanRecords` | pkg/spyredevice/health/handler.go:158-195 | Initialising and then updating gives every discovered device its report, or its default without one. |
| `HealthScan.RecordsSay` | pkg/spyredevice/health/handler.go:419-430 | A discovered device has the reported record and, without a report, one that is online with the type of the last device at its address. |
| `HealthScan.EndsHealthySays` | pkg/spyredevice/health/handler.go:341-393 | Healthy exactly when its own state is ONLINE and it is no attached VF whose PF has a PF record in another state; its own state is blamed before the PF's. |
| `HealthScan.UniqueOfLast` | pkg/spyredevice/health/handler.go:335-339 | Of several devices with one address the last is kept. |
| `HealthScan.ProcessDeviceHealth` | pkg/spyredevice/health/handler.go:329-416 | In any order: a recorded device ends healthy exactly when its state is online and it is no attached VF of an unhealthy PF; the list has one entry per recorded device that ends unhealthy, with the state to blame, and no other; unrecorded and superseded devices keep their health. |
| `Interfaces.GetSpyreInterfaceMaps` | pkg/spyredevice/spyrenodestate.go:148-200 | The loop that files each device as it comes builds the reports defined over the whole list. |
| `Interfaces.PfEntryListsItsVfs` | pkg/spyredevice/spyrenodestate.go:148-200 | Each PF entry's VF list is sorted, as long as its count, and holds exactly the VFs attached to that PF, each once if the devices are distinct. |
| `Interfaces.PfHealthOf` | pkg/spyredevice/spyrenodestate.go:148-200 | With distinct addresses an entry carries its PF's health, and none if the PF itself is absent. |
| `Interfaces.PfReportSays` | pkg/spyredevice/spyrenodestate.go:155-197 | There is a PF entry exactly for each PF and each PF of an attached VF; it is Healthy or Unhealthy as the PF is, and unset if only VFs were found. |
| `Interfaces.SsaReportSays` | pkg/spyredevice/spyrenodestate.go:172-183 | There is an entry exactly for each isolated VF, with its health and no VFs. |
| `Interfaces.ReportsIgnoreOrder` | pkg/spyredevice/spyrenodestate.go:148-200 | With distinct addresses both reports are the same for every order of the devices. |
| `NodeState.ContainsDevice` | pkg/spyredevice/spyrenodestate.go:365-381 | The first index with the address, or a negative number exactly when there is none. |
| `NodeState.MergeReport` | pkg/spyredevice/spyrenodestate.go:202-277 | In any order and for any stored list: the first entry of every reported address equals the report, new ones are appended once, all others are kept; the flag is raised exactly when the list changes. |
| `NodeState.MarkMissing` | pkg/spyredevice/spyrenodestate.go:202-277 | Unreported entries become unhealthy, each newly so is listed as removed, the flag is raised exactly on a change. |
| `NodeState.ReconciledAddrs` | pkg/spyredevice/spyrenodestate.go:202-277 | No address is forgotten or invented and unique ones stay unique; the first entry of a reported address equals the report, every unreported one becomes unhealthy and keeps its other fields. |
| `NodeState.ReconcileTwice` | pkg/spyredevice/spyrenodestate.go:202-277 | Repeating the reconciliation with the same report changes nothing. |
| `NodeStatus.SpyreNodeState.UpdateSpyreInterfacesChanges` | pkg/spyredevice/spyrenodestate.go:202-277 | Both lists end reconciled, specChanged is raised exactly when a list changes in value, and the status is merged with the reports and the removed devices. |
| `NodeStatus.SpyreNodeState.MergePatchUpdatedUnhealthyDevice` | pkg/spyredevice/spyrenodestate.go:281-350 | The unhealthy list, conditions and flag end as the value model of the guarded rewrite says. |
| `NodeStatus.OtherConditionsKept` | pkg/spyredevice/spyrenodestate.go:326-340 | Only the first health condition is touched, it is flagged exactly when its status or message changes, and all other conditions stay; without any condition one is made. |
| `NodeStateRuns.FullListExactly` | pkg/spyredevice/spyrenodestate.go:281-350 | A rewrite names exactly the unhealthy interfaces, once each, with the last state known. |
| `NodeStateRuns.QuietListAgrees` | pkg/spyredevice/spyrenodestate.go:281-350 | With the flag down the kept list has the size of the rewritten one, so if every unhealthy interface is listed the two hold the same (ID, state) pairs. |
| `NodeStateRuns.FlagDecides` | pkg/spyredevice/spyrenodestate.go:281-350 | The guarded rewrite equals the unconditional one if and only if the flag is up or every unhealthy interface is listed already. |
| `NodeStateRuns.LastStatesSay` | pkg/spyredevice/spyrenodestate.go:281-300 | The state kept for an ID is the one its last entry gives. |
| `NodeStateRuns.QuietMeansUnchanged` | pkg/spyredevice/spyrenodestate.go:342-349 | When the status is not to be written, nothing in it changed. |
| `NodeStateRuns.ListFlagIsExact` | pkg/spyredevice/spyrenodestate.go:281-324 | When the updates name each unhealthy interface at most once and nothing else, the list is flagged exactly when the pairs it should hold are not those it holds. |
| `NodeStateRuns.FlagRaisedForNothing` | pkg/spyredevice/spyrenodestate.go:281-324 | An update about a device that is no interface raises the flag although the list stays as it is. |
| `NodeStateRuns.TransitionTimes` | pkg/spyredevice/spyrenodestate_condition.go:50-60 | A condition's transition time moves, to the time of the update, exactly when its status or message changes. |
| `NodeStateRuns.ScanRestoresAgreement` | pkg/spyredevice/spyrenodestate.go:50-116 | After one complete scan the list names exactly the unhealthy interfaces, however stale it was about others. |
| `NodeStateRuns.ScanSetsCondition` | pkg/spyredevice/spyrenodestate_condition.go:50-89 | After a scan the condition is false, true or unknown as the interfaces dictate if and only if the record held no condition or one of the right type. |
| `NodeStateRuns.ForeignConditionStays` | pkg/spyredevice/spyrenodestate_condition.go:50-66 | A concrete cleared record with one condition of another type ends a scan without the health condition. |
| `NodeStateRuns.ScansAreComplete` | pkg/spyredevice/health/handler.go:158-195 | Every discovered device has a record, so each unhealthy reported interface is also in the scan's unhealthy report. |
| `NodeStateRuns.ScannedSays` | pkg/spyredevice/health/handler.go:158-195 | Each discovered device, the last of its address, is scanned as healthy exactly when the health service calls neither it nor, for an attached VF, its discovered PF anything but ONLINE. |
| `NodeStateRuns.UpdatedSays` | pkg/spyredevice/health/handler.go:158-195 | The unhealthy report of a check holds for each discovered device the state called out for it or else for its PF, and no other pair. |
| `NodeStateRuns.ScanExplainsStates` | pkg/spyredevice/spyrenodestate.go:281-350 | After a complete scan each listed device carries REMOVED if it went missing now, else the state this scan reports for it, else the state it was listed with before. |
| `NodeStateRuns.HealthViewsAgree` | cmd/spyre/manager/manager.go:571-583 | From cleared interface lists, after each check of every run in which no address switches kind, the unhealthy list names, once each, exactly the unhealthy interfaces, and these are the PFs and isolated VFs this check finds called anything but ONLINE and those an earlier check found and this one does not; each carries the state that check or the one before gives it, and the condition is right unless only foreign conditions were there. |
| `NodeStateRuns.WriteSpyreInterfaces` | pkg/spyredevice/spyrenodestate.go:50-116 | With accepted writes the stored record makes a step of those runs, whichever of spec and status had to be written. |
| `NodeStateRuns.ScanHealth` | pkg/spyredevice/health/handler.go:158-195 | Records, device health and reports chained together are the scan of exactly these devices, the last of each address, and answers. |
| `NodeStateRuns.CheckHealth` | pkg/spyredevice/health/handler.go:158-246 | The whole health check is a step of those runs. |
| `Signalling.RunLosesNothing` | pkg/spyredevice/health/handler.go:125-142 | In every interleaving a map changed since it was last read has a queued token, a timer, a signalling reporter or a handler about to read, in every state, if and only if no failed update consumed the last such signal. |
| `Signalling.FailureLosesAChange` | pkg/spyredevice/health/handler.go:158-162 | A concrete failed rediscovery loses a change. |
| `Signalling.UpdatesAreSpaced` | pkg/spyredevice/health/handler.go:125-142 | In every interleaving no update starts sooner than the debounce interval after the previous one finished. |
| `Signalling.UpdatesAreCalledFor` | pkg/spyredevice/health/handler.go:125-142 | In every interleaving there are never more updates, made, under way or still to come, than changes of the map. |
| `Signalling.EveryChangeIsRead` | pkg/spyredevice/health/handler.go:125-142 | In every run in which time does not pass over a due step and updates last at most so long, a change of the map is read within one debounce interval and two updates, whatever else happens, unless an update fails first. |
| `Signalling.ChangeIsDeliverable` | pkg/spyredevice/health/handler.go:125-142 | The handler is never stuck: from every reachable state in which nothing is lost its own steps can have read the present map within one debounce interval. |
| `Signalling.MapsEqual` | pkg/spyredevice/health/utils.go:30-41 | Equal sizes and one inclusion, with early return: true exactly when the maps are equal. |
| `Signalling.ReportMapSays` | pkg/spyredevice/health/health_client.go:272-280 | A report denotes for each address the record of its last entry, and no other address. |
| `Signalling.UpdateChannel.SafeTriggerUpdate` | pkg/spyredevice/health/handler.go:432-439 | A token is queued afterwards, whether or not one was. |
| `Signalling.SpyreHealthClient.SetAndNotify` | pkg/spyredevice/health/health_client.go:268-298 | The map becomes the report, a token is queued exactly when one was or the map changed, which is what the report and signal steps do. |
| `Reconnect.BackoffClosedForm` | pkg/spyredevice/health/health_client.go:343-349 | With a whole multiplier m the wait before attempt k >= 2 is min(initial * m^(k-1), max). |
| `Reconnect.BackoffStep` | pkg/spyredevice/health/health_client.go:345-349 | For any multiplier the next wait is the last one times the multiplier, rounded down, or the maximum. |
| `Reconnect.AttemptReconnect` | pkg/spyredevice/health/health_client.go:301-353 | Connects exactly when some allowed attempt succeeds after all earlier ones were made and failed; at most the allowed registrations; waits as specified, in total at most max per wait. |
| `Reconnect.RunStaysTended` | pkg/spyredevice/health/health_client.go:228-264 | In every interleaving at most one loop is active, each registers at most the allowed number of times, and someone listens or will reconnect if and only if no losing step was taken. |
| `Reconnect.RacesLoseTheStream` | pkg/spyredevice/health/health_client.go:301-307 | Two concrete interleavings, with attempts to spare, after which nobody listens or will reconnect. |
| `Topology.FilterTopologyByDeviceHealth` | pkg/spyredevice/topology/topology.go:157-233 | The deletion loops give the restriction of devices, peers and counts to the healthy devices. |
| `Topology.FilterOutMissingDevices` | pkg/spyredevice/topology/topology.go:84-151 | The presence filter equals the health filter applied to its presence map. |
| `Topology.RestrictSays` | pkg/spyredevice/topology/topology.go:157-233 | Device by device: those kept stay under their names, a PF loses only peers and an isolated VF only VF peers, tier by tier, and what stays keeps its hop count. |
| `Topology.PresenceSays` | pkg/spyredevice/topology/topology.go:84-110 | The presence map is true of exactly the listed devices whose path exists. |
| `Topology.RestrictClosed` | pkg/spyredevice/topology/topology.go:157-233 | A restriction is closed if and only if no kept device lists a kept peer the topology does not know. |
| `Topology.UnknownPeerStays` | pkg/spyredevice/topology/topology.go:157-233 | A one-device topology stays open after the health filter: a healthy peer it has no device for stays listed. |
| `Topology.PresenceFilterClosed` | pkg/spyredevice/topology/topology.go:84-151 | After the presence filter every listed peer is a retained device and the counts are the map sizes. |
| `Topology.RestrictTwice` | pkg/spyredevice/topology/topology.go:157-233 | Filtering by one map and then another is filtering by both, in either order. |
| `Topology.TiersSurviveFiltering` | pkg/spyredevice/topology/topology.go:157-233 | A symmetric and transitive tier stays so after filtering. |
| `Topology.WithinVfKept` | pkg/spyredevice/topology/topology.go:157-233 | Isolated VFs are within a tier after filtering exactly when they were before and both are kept. |
| `Topology.GetMaxValidPeers` | pkg/spyredevice/topology/topology.go:324-392 | For a loaded topology and a non-VF resource: the held devices still offered plus a disjoint free group, empty or one centre with its free offered peers, at least as large as that of every centre; peers of tier 0 always count, of tier 1 for names ending `_tier1` or `_tier2`, of tier 2 for `_tier2`. Otherwise the map as given. |
| `Topology.SelectionSizeIsDetermined` | pkg/spyredevice/topology/topology.go:334-377 | The size of the selection does not depend on the iteration order. |
| `Topology.WiderTierNeverSmaller` | pkg/spyredevice/topology/topology.go:334-377 | The free group never shrinks from tier 0 to 1 to 2. |
| `Topology.GroupIsAHealthyClique` | pkg/spyredevice/topology/topology.go:334-377 | On a filtered topology whose tier is symmetric and transitive the free devices are healthy and pairwise within the tier, and no free healthy device within the tier of one of them is missing. |
| `PodLifecycle.FindAllocation` | pkg/resources/server/pod_watcher.go:400-413 | The first entry of that Pod generation, or none. |
| `PodLifecycle.RemovalIsExact` | pkg/utils/utils.go:362-369 | Removing the index found leaves no entry of that generation and all others in order. |
| `PodLifecycle.Reconcile` | pkg/resources/server/pod_watcher.go:669-688 | The loop over resources computes the reconciled reservations, in any order. |
| `PodLifecycle.RetiringIsBounded` | pkg/resources/server/pod_watcher.go:669-688 | Entries of other Pods with other device sets stay as they were, no entry naming the Pod stays, and if one did nothing else goes. |
| `PodLifecycle.RetiringIsExact` | pkg/resources/server/pod_watcher.go:669-688 | Entry by entry and in order: the entries naming the Pod go if there are any, otherwise exactly those with the same device set, and a reservation left without entries goes. |
| `PodLifecycle.NeverTwoAllocations` | pkg/resources/server/pod_watcher.go:486-524 | In every interleaving of any number of writers with a scheduler, no Pod generation ever has two allocations. |
| `PodLifecycle.AcceptedWrite` | pkg/resources/server/pod_watcher.go:486-524 | An accepted write does to the current status what its author meant to do to the one it read. |
| `PodLifecycle.HeldByHistory` | pkg/resources/server/pod_watcher.go:383-421 | In every run a Pod is held exactly when, among the accepted writes for it since any earlier moment, it was allocated after the last removal, or was held then and not removed since. |
| `PodLifecycle.SuccessfulRemoval` | pkg/resources/server/pod_watcher.go:383-421 | Any number of workers: a removal that reports success leaves the allocation if and only if it did not find the entry and, since it looked, the Pod was allocated and not removed again, or its read failed on an entry nobody removed since. |
| `PodLifecycle.SingleWorkerRemoves` | pkg/resources/server/pod_watcher.go:196-209 | With the one worker the plugin starts, a removal that reports success leaves the allocation if and only if its first read failed and the Pod held one, whatever the scheduler and the second read do. |
| `PodLifecycle.FailedReadLeaks` | pkg/resources/server/pod_watcher.go:383-390 | A run with one worker in which a removal whose read fails reports success and leaves the allocation. |
| `PodLifecycle.FailedReadsLeak` | pkg/resources/server/pod_watcher.go:391-394 | The same in reservation mode when the second read fails too. |
| `PodLifecycle.SecondWorkerLeaks` | pkg/resources/server/pod_watcher.go:383-398 | A run with two workers and successful reads in which a successful removal leaves the allocation. |
| `JsonHeap.FrameTree` | pkg/spyredevice/config/senlib_config_generator.go:105-107 | A nested value is unaffected by writes outside the maps it is made of. |
| `JsonHeap.ReplaceChild` | pkg/spyredevice/config/senlib_config_generator.go:107-156 | Writing inside one child changes what the parent denotes at that key and nowhere else. |
| `SenlibConfig.ContentSays` | pkg/spyredevice/config/senlib_config_generator.go:105-168 | On success the array of bus IDs holds exactly those passed in, in order, the mode switches fit the pool, the rest of `GENERAL` is the template's, and only the three written sections differ from it. |
| `SenlibConfig.ContentSaysMetrics` | pkg/spyredevice/config/senlib_config_generator.go:119-156 | On success, wherever the enable switch is present, the metrics path is the given file exactly when the switch is true; a missing section is switched off, and nothing else in the section differs. |
| `SenlibConfig.ContentSaysRiscv` | pkg/spyredevice/config/senlib_config_generator.go:241-258 | On success in PF mode `SNT_MCI.DCR.MCI_CTRL.ENABLE_RISCV` is "0x0" and all else on the way is the template's. |
| `SenlibConfig.OutcomeSays` | pkg/spyredevice/config/senlib_config_generator.go:105-168 | Which templates and pools lead to which error, to a panic and to success. |
| `SenlibConfig.RiscvTwice` | pkg/spyredevice/config/senlib_config_generator.go:241-258 | Setting the RISC-V switch again changes nothing. |
| `SenlibConfig.CallsAreIndependent` | pkg/spyredevice/config/senlib_config_generator.go:105-168 | Every call in every sequence of calls returns what a fresh template would give if and only if the template is history-free, as every template without `SNT_MCI` is. |
| `SenlibGenerator.ModifyRISCVContent` | pkg/spyredevice/config/senlib_config_generator.go:241-258 | On the heap: fails exactly when something on the way is not a map, otherwise sets the switch in the clone, and in the template exactly if it has the section. |
| `SenlibGenerator.SenlibConfigGenerator.GenerateConfigContent` | pkg/spyredevice/config/senlib_config_generator.go:105-168 | Through a shallow clone that shares the template's maps, a call returns and leaves behind exactly what the value model says. |
| `PoolConstruction.GetFilteredDevices` | pkg/spyredevice/spyredevice_provider.go:131-174 | The four stages select, in order, exactly the devices all selectors accept. |
| `PoolConstruction.SelectedSays` | pkg/spyredevice/spyredevice_provider.go:131-174 | A device is selected exactly when each of the four lists is empty or holds its value. |
| `PoolConstruction.ExcludeAllocatedDevices` | cmd/spyre/manager/manager.go:629-641 | Keeps the first device of each address not taken before and marks every address it was given. |
| `PoolConstruction.ExcludeSays` | cmd/spyre/manager/manager.go:629-641 | What is kept is exactly the first device of each address not taken before. |
| `PoolConstruction.InitBasePools` | cmd/spyre/manager/manager.go:221-249 | The loop over configurations builds the base pool of each. |
| `PoolConstruction.BasePoolsDisjoint` | cmd/spyre/manager/manager.go:221-249 | No address is in two base pools or twice in one, for any device list. |
| `PoolConstruction.FirstConfigTakes` | cmd/spyre/manager/manager.go:221-249 | With distinct addresses each base pool is, in order, the devices its selectors accept and no earlier configuration does. |
| `PoolConstruction.SplitPerDevice` | cmd/spyre/manager/manager.go:254-286 | One group for each name that occurs, holding in order exactly the devices of that name. |
| `PoolConstruction.SharesPool` | cmd/spyre/manager/manager.go:254-272 | PFs and isolated VFs have a pool each, and exactly the VFs of one PF share one. |
| `PoolConstruction.NameRoundTrip` | cmd/spyre/manager/manager.go:529-541 | A per-device pool name holds no colon, and extracting the address gives it back if and only if it holds no underscore. |
| `PoolConstruction.FilterDevicesByPCIAddr` | cmd/spyre/manager/manager.go:544-565 | Exactly the devices whose own or PF address, by kind, is the one given. |
| `PoolConstruction.RebuildPool` | cmd/spyre/manager/manager.go:449-510 | A hotplug leaves a pool alone or rebuilds it with what the selectors of the first configuration of its base name accept, for a per-device pool among the devices at the address in its name. |
| `PoolConstruction.LeftAlone` | cmd/spyre/manager/manager.go:449-468 | Pools that are neither base nor per-device pools, and per-device pools when that mode is off or nothing was added, are left alone. |
| `PoolConstruction.HotplugRebuildsGroup` | cmd/spyre/manager/manager.go:470-507 | A per-device pool is rebuilt exactly when its kind was added and its name does not end like a tier, and then equals the initial group if and only if its configuration is the first of its name and no earlier one accepts a device of the group. |
| `PoolConstruction.HotplugRebuildsBasePool` | cmd/spyre/manager/manager.go:449-510 | A base pool is rebuilt as it was if and only if its configuration is the first of its name and accepts nothing an earlier one does. |
| `PoolConstruction.SameNameIsMisbuilt` | cmd/spyre/manager/manager.go:470-477 | Two configurations of one name under different prefixes, as validation allows: the second one's pool is rebuilt wrongly. |
| `PoolConstruction.TakenDeviceIsMisbuilt` | cmd/spyre/manager/manager.go:487-507 | Two VFs of one PF, one taken by an earlier configuration: the other's pool is rebuilt wrongly. |
| `PoolConstruction.TierPoolIsEmptied` | cmd/spyre/manager/manager.go:456-463 | In per-device mode the guard lets tiered pools through, and one is rebuilt empty if and only if no accepted device has the tier's name as its address. |
| `DeviceConflict.ScanSorted` | pkg/spyredevice/runtime/runtime.go:287-296 | Stopping at the first greater entry of a sorted list misses nothing. |
| `Strings.LeIsLexicographic` | pkg/spyredevice/runtime/runtime.go:285-289 | The order used for sorting and for the early stop is the lexicographic one. |
| `DeviceConflict.CheckConflict` | pkg/spyredevice/runtime/runtime.go:284-298 | True exactly when the two lists share an element, also when they are one array; both end sorted. |

## Left out

- gRPC serving, kubelet registration, sockets, TLS loading and the probe manager: plumbing without state of its own.
- sysfs and file access, JSON encoding and container-runtime calls appear only as inputs and trees.
- Stopping and cancellation, except inside `Reconnect.AttemptReconnect`: the interleavings have no stop step.
- `GetPciTopology` caching, topology path selection and the dynamic topology file.
- `cleanMountPathsAndNotify`, `GetPreferredAllocation`, `allocateFromDeviceMap`, `AddTargetDevices`, info providers and pseudo devices.
- `IdentifyDeviceChanges` and the choice of servers a hotplug restarts, beyond the guard in `PoolConstruction`.
- Reading the senlib file of an overdue path: a forced release that cannot read it sends no message; the message it does send is an ordinary de-allocation of the run.
- `Topology.FilterTopologyByDeviceHealth`: peer maps are values here, so that the Go loops also delete from the maps of the topology passed in is not captured.
- `Topology.FilterOutMissingDevices`: the same holds for the maps of the topology it is given.
- `Signalling.SpyreHealthClient.SetAndNotify`: the reader's unlocked access to the health map is modelled as one atomic read.
- `NodeState.ContainsDevice`: PF and isolated-VF interfaces share one datatype, so the two list searches are one member.
- `SharedInfo.SpyreDeviceSharedInfo.Run`: the stop message, which ends the loop and closes the channels, is not modelled.
- `NodeStateRuns.CheckHealth`: the hotplug callback and the dynamic topology update between its stages are not part of it.
- `PodLifecycle.NeverTwoAllocations`: only version-checked writes are steps. The forced status writes of the initial allocation list and of the health check carry a status read earlier and are not modelled.
- `NodeStateRuns.WriteSpyreInterfaces`: the API server accepts every write; failed and retried writes, and the topology field of the record, are not modelled.
- `PoolConstruction.GetFilteredDevices`: selectors that do not convert are not modelled, because such a configuration fails validation before it is used.
- `PoolConstruction.InitBasePools`: resource servers are assumed to be created successfully.
- `Reconnect.BackoffClosedForm`: floating-point rounding and 64-bit overflow of durations are not modelled.
