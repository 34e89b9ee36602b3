# LinkSmart Local Connect: catalogs, registrars, gateway pipeline, authorization

This project models the stateful core of LinkSmart Local Connect and proves what its operations keep over whole runs.

- `ResourceController`, `ServiceController`: the catalog controllers as classes. A controller holds a storage, a tree of
  expiry times that allows duplicate keys and, for resources, a tree from resource id to device id. Each locked method is
  one atomic step. Its contract gives the whole new state as a function of the old one (`ResourceCatalog`,
  `ServiceCatalog`), and the theorems are about those functions (`ResourceProofs`, `ResourceQueries`, `ResourceRuns`,
  `ResourceFutures`).
- `Expiry`, `ExpiryLosses`: registrations, their expiry times, the index and the sweep as one small machine, which both
  catalogs refine. The removal from the index is modelled twice. The comment in the code says that entries of other registrations with the
  same expiry time are put back; the code compares the wrong variable (`resource/controller.go:504`,
  `service/controller.go:312`) and drops them all. The controllers follow the code (`Literal`); `Intended` follows the
  comment. Nothing is ever swept early in either version. What the code loses is completeness: `ExpiryLosses`
  says exactly which registrations a run has lost.
- `Storage`, `Paging`, `Query`: the two storage backends, page arithmetic, and scans over pages.
- `KeepAlive`, `Registration`, `ServiceRegistration`, `Shutdown`, `ShutdownLimits`, `Deregistration`: one keepalive
  routine, registrars against the catalogs, and the protocol between supervisor and keepalive routines over unbuffered
  channels as a transition system. `service/utils.go` repeats the code of `resource/utils.go`, which the table cites.
- `PathFilter`, `Filters`: matching a path in a JSON value, and the filters of the catalogs with their items as JSON.
- `MqttTopics`, `MqttPipeline`, `MqttLaws`, `MqttOffline`: topic maps, the way of a reading from the agents to the broker,
  what becomes of it with and without a connection, and what is still published after a loss.
- `Authz`: authorization rules over paths.
- `Tree`, `ExpiryIndex`, `Order`, `Urn`, `Devices`, `JsonModel`, `Prelude`: the sorted trees, strings in lexicographic order,
  generated identifiers, devices and their validation, JSON values, result types.

Times are integers in nanoseconds on one clock; the time of an operation, the tick of a sweep, and how a client call or a
connection turns out are parameters. The resource index is exact under one condition on the users of the catalog: they do not
ask for a resource id that is still to be generated (`ResourceRuns.InputOk`). `AddExactIff` and `UpdateExactIff` say what
happens without it, and `StaysExactIff` what it takes besides.

`dafny verify dfyconfig.toml` checks everything.

## Model

| member | source | states |
|---|---|---|
| `ResourceController.Controller.constructor` | src/linksmart.eu/lc/core/catalog/resource/controller.go:43-46 | Over a storage of either kind as a controller leaves it, start-up rebuilds the resource index from the whole storage, exact if and only if the stored lists are strictly sorted and no id is owned by two devices, and an expiry index of exactly the (Expires, Id) pairs. |
| `ResourceController.Controller.InitIndices` | src/linksmart.eu/lc/core/catalog/resource/controller.go:448-465 | The page loop over either kind of storage ends, and has then indexed every stored device exactly once, page boundaries and an empty storage included. |
| `ResourceController.Controller.NewURN` | src/linksmart.eu/lc/core/catalog/resource/controller.go:434-445 | Advances the counter by one, returns the identifier with that number, and appends it to the log of all identifiers issued. |
| `ResourceController.Controller.FillForAdd` | src/linksmart.eu/lc/core/catalog/resource/controller.go:79-93 | Fills in the resources up to the first one whose own id is already indexed, using up one number for each blank id before it. |
| `ResourceController.Controller.AddIndices` | src/linksmart.eu/lc/core/catalog/resource/controller.go:469-478 | Adds one resource entry per id that is not indexed yet and, with a time to live, one expiry entry; at most one entry per device remains. |
| `ResourceController.Controller.RemoveIndices` | src/linksmart.eu/lc/core/catalog/resource/controller.go:482-515 | Drops the device's resource ids and, with a time to live, what the code's tie handling drops from the expiry index. |
| `ResourceController.Controller.Add` | src/linksmart.eu/lc/core/catalog/resource/controller.go:56-105 | The new store, both indices, the counter and the outcome are those of the specified add, on every path, failures included; the invariant and the log of issued ids are kept. |
| `ResourceController.Controller.Update` | src/linksmart.eu/lc/core/catalog/resource/controller.go:116-182 | The same for update: old index entries out, then new ones in; conflicts only with other devices' resources. |
| `ResourceController.Controller.Delete` | src/linksmart.eu/lc/core/catalog/resource/controller.go:184-202 | The same for delete. |
| `ResourceController.Controller.CleanExpired` | src/linksmart.eu/lc/core/catalog/resource/controller.go:253-288 | One sweep removes exactly the indexed devices due at its time with all their index entries; both error exits are unreachable. |
| `ResourceController.Controller.Filter` | src/linksmart.eu/lc/core/catalog/resource/controller.go:213-247 | The paged scan returns the requested page of all stored devices in id order that match, with the number of matches as total, or the first error or panic that the matcher meets. |
| `ResourceController.Controller.GetResource` | src/linksmart.eu/lc/core/catalog/resource/controller.go:292-315 | Looks the resource up through the index. |
| `ResourceController.Controller.ListResources` | src/linksmart.eu/lc/core/catalog/resource/controller.go:317-366 | Returns the resources behind one page of the index; the cache of devices makes no difference. |
| `ResourceController.Controller.FilterResources` | src/linksmart.eu/lc/core/catalog/resource/controller.go:368-409 | Matches the resources behind the whole index, up to the first error or panic of the matcher, then pages the matches. |
| `ResourceCatalog.GoodStep` | src/linksmart.eu/lc/core/catalog/resource/controller.go:56-288 | Under the code's tie handling and under the intended one, every operation keeps each expiry entry true of a stored device with that very expiry, ties included. |
| `ResourceRuns.GoodRun` | src/linksmart.eu/lc/core/catalog/resource/controller.go:56-288 | So does every run. |
| `ResourceCatalog.StepRefines` | src/linksmart.eu/lc/core/catalog/resource/controller.go:56-288 | The expiry side of every operation, failed ones included, is one step of a registry machine that knows only ids and times. |
| `ResourceProofs.AddExactIff` | src/linksmart.eu/lc/core/catalog/resource/controller.go:79-102 | A successful add keeps the resource index exact (all ids globally unique, lists strictly sorted) if and only if no id generated for it is already in use or asked for in the same request. |
| `ResourceProofs.UpdateExactIff` | src/linksmart.eu/lc/core/catalog/resource/controller.go:124-179 | The same for update, where ids of the device's own stored resources never count against it. |
| `ResourceProofs.DeleteExact` | src/linksmart.eu/lc/core/catalog/resource/controller.go:184-202 | A delete always keeps the resource index exact. |
| `ResourceProofs.SweepExact` | src/linksmart.eu/lc/core/catalog/resource/controller.go:267-284 | A sweep always keeps the resource index exact. |
| `ResourceProofs.RebuildExactIff` | src/linksmart.eu/lc/core/catalog/resource/controller.go:448-478 | The index built at start-up is exact if and only if the stored lists are strictly sorted and no resource id is owned by two devices. |
| `ResourceRuns.ExactRun` | src/linksmart.eu/lc/core/catalog/resource/controller.go:56-288 | From an exact state on, the resource index is exactly {resource id -> device id} in every reachable state, if nobody asks for an id that is still to be generated. |
| `ResourceRuns.ExactFromStart` | src/linksmart.eu/lc/core/catalog/resource/controller.go:43-288 | So it is from start-up on, over any such storage. |
| `ResourceRuns.ClashBreaksIndex` | src/linksmart.eu/lc/core/catalog/resource/controller.go:79-102 | That condition is needed: whatever the start time, a valid add that is accepted and leaves two stored resources with one id. |
| `ResourceRuns.AddOutcome` | src/linksmart.eu/lc/core/catalog/resource/controller.go:56-99 | An add fails for exactly the listed reasons, and a failed one changes nothing but the counter. |
| `ResourceRuns.UpdateOutcome` | src/linksmart.eu/lc/core/catalog/resource/controller.go:116-140 | An update fails for exactly the listed reasons, and a failed one changes nothing at all. |
| `ResourceRuns.OwnIdsNeverConflict` | src/linksmart.eu/lc/core/catalog/resource/controller.go:124-134 | An update that asks for the device's own resource ids is never reported as a conflict. |
| `ResourceRuns.AddStores` | src/linksmart.eu/lc/core/catalog/resource/controller.go:68-96 | What an add stores, field by field: a permutation of the resources given, each with its own URL, type and the URL of the device stamped on it and an id if it had none; the device stamped; and nothing else changes. |
| `ResourceRuns.UpdateStores` | src/linksmart.eu/lc/core/catalog/resource/controller.go:142-172 | The same for update: what it takes from the request and stamps, and what it leaves of the stored device and of all others. |
| `ResourceRuns.AddNumbers` | src/linksmart.eu/lc/core/catalog/resource/controller.go:64-93 | A successful add generates one identifier for the device if it has none, and then exactly one for each resource without. |
| `ResourceRuns.ConflictNumbers` | src/linksmart.eu/lc/core/catalog/resource/controller.go:64-99 | One that ends in a conflict has used up the numbers for the device and for the resources before the first that asks for a taken id. |
| `ResourceRuns.UpdateNumbers` | src/linksmart.eu/lc/core/catalog/resource/controller.go:142-165 | An update generates exactly one identifier for each resource without. |
| `ResourceRuns.NeverEarly` | src/linksmart.eu/lc/core/catalog/resource/controller.go:253-288 | No sweep at any moment of any run deletes a device whose current expiry is after its time; otherwise only a delete removes a device. |
| `ResourceRuns.IntendedComplete` | src/linksmart.eu/lc/core/catalog/resource/controller.go:488-514 | With the tie handling that the comment describes, the expiry index is complete in every reachable state. |
| `ResourceRuns.LiteralCompleteIff` | src/linksmart.eu/lc/core/catalog/resource/controller.go:494-514 | The code as it stands keeps the expiry index complete all along a run if and only if no operation takes one of two equal times out. |
| `ResourceRuns.OrphanIffLost` | src/linksmart.eu/lc/core/catalog/resource/controller.go:494-514 | After any run a device with an expiry has no entry if and only if some operation took the entry of another device with the same time out and none on the device itself came after. |
| `ResourceRuns.SweepsLeave` | src/linksmart.eu/lc/core/catalog/resource/controller.go:253-288 | So after any run a sweep leaves exactly the devices with no expiry, a later one, or one that the run has lost in this way. |
| `ResourceRuns.RestartEquivalent` | src/linksmart.eu/lc/core/catalog/resource/controller.go:448-478 | After any run a restart rebuilds the same resource index, never loses an expiry entry, and restores exactly what ties had cost. |
| `ResourceRuns.RestartInvisible` | src/linksmart.eu/lc/core/catalog/resource/controller.go:448-478 | With the intended tie handling a restart leaves both indices as they were. |
| `ResourceFutures.StaysExactIff` | src/linksmart.eu/lc/core/catalog/resource/controller.go:79-102 | From any state with an exact resource index, the index stays exact in every run in which nobody asks for an id still to be generated if and only if no stored id is still to be generated. |
| `ResourceFutures.RestartStaysExactIff` | src/linksmart.eu/lc/core/catalog/resource/controller.go:434-478 | After a restart that is so if and only if no stored id is numbered above the new start time, as when the clock has not gone back behind the last id. |
| `ResourceFutures.FutureBreaks` | src/linksmart.eu/lc/core/catalog/resource/controller.go:79-102 | Otherwise adding and deleting one device over and over brings the counter to such an id, and then an accepted add breaks the index. |
| `ResourceRuns.Lease` | src/linksmart.eu/lc/core/catalog/resource/controller.go:152-158 | A registration renewed less than half its life after each renewal falls due is stored after every step of every run, ties included, and whatever else other clients write to it as long as that lasts until half a life after the next renewal is due. |
| `ResourceRuns.RenewalEffect` | src/linksmart.eu/lc/core/catalog/resource/controller.go:152-158 | Every accepted add or update of a device with a time to live is such a renewal: it extends the lease by two periods of the ticker. |
| `ResourceQueries.ListingExact` | src/linksmart.eu/lc/core/catalog/resource/controller.go:317-366 | The index lists every stored resource, nothing else, once each, in strictly increasing id order. |
| `ResourceQueries.ListResourcesExact` | src/linksmart.eu/lc/core/catalog/resource/controller.go:317-366 | Each page of the listing is that page of all stored resources, filled to its limit. |
| `ResourceQueries.AllPages` | src/linksmart.eu/lc/core/catalog/resource/controller.go:317-366 | The pages of the listing put together hold every stored resource, nothing else, once each, in strictly increasing id order. |
| `ResourceQueries.FilterResourcesExact` | src/linksmart.eu/lc/core/catalog/resource/controller.go:368-409 | Filtering through the index equals filtering the listing of all stored resources. |
| `ResourceQueries.GetResourceExact` | src/linksmart.eu/lc/core/catalog/resource/controller.go:292-315 | A resource is found if and only if some device has it; the exit marked as impossible is never taken. |
| `Urn.HexRoundTrip` | src/linksmart.eu/lc/core/catalog/resource/controller.go:436-444 | Reading a printed hexadecimal number back gives the number. |
| `Urn.Shape` | src/linksmart.eu/lc/core/catalog/resource/controller.go:434-445 | An identifier is the prefix of its kind and lower-case hexadecimal digits without a leading zero. |
| `Urn.MakeInjective` | src/linksmart.eu/lc/core/catalog/resource/controller.go:434-445 | Two generated identifiers are equal only if both their kinds and their numbers are. |
| `Urn.IssuedDistinct` | src/linksmart.eu/lc/core/catalog/resource/controller.go:434-445 | All identifiers issued over the life of a controller, of whatever kinds, differ. |
| `Devices.Validate` | src/linksmart.eu/lc/core/catalog/resource/catalog.go:59-84 | One pass with a set of ids met so far decides validity, pairwise distinct ids included. |
| `Devices.ResourceRefusedIff` | src/linksmart.eu/lc/core/catalog/resource/catalog.go:87-113 | A resource is refused exactly for an id that does not parse, has two slashes or one at either end, for having no protocol, or for a protocol without type or endpoint. |
| `Devices.DeviceRefusedIff` | src/linksmart.eu/lc/core/catalog/resource/catalog.go:59-84 | A device is refused exactly for an id that does not parse or has a slash, for a refused resource, or for two resources with one id. |
| `Devices.SimplifyShows` | src/linksmart.eu/lc/core/catalog/resource/catalog.go:116-125 | A listed device shows the URLs of its resources in order, and otherwise itself. |
| `Devices.StrictIffDistinct` | src/linksmart.eu/lc/core/catalog/resource/controller.go:427-429 | Sorting by id gives a strictly sorted list exactly when the ids are distinct. |
| `Devices.SortPermutes` | src/linksmart.eu/lc/core/catalog/resource/controller.go:94 | Sorting keeps every resource, as often as it was there. |
| `ExpiryIndex.RemoveLiteral` | src/linksmart.eu/lc/core/catalog/resource/controller.go:494-514 | What the code's loops do: if the device has an entry, every entry with the same time goes and nothing is put back. |
| `ExpiryIndex.RemoveIntended` | src/linksmart.eu/lc/core/catalog/resource/controller.go:488-514 | What the comment describes: the same loops with the test on the removed entry take out that device's entry only. |
| `ExpiryIndex.CollectExpired` | src/linksmart.eu/lc/core/catalog/resource/controller.go:257-265 | The prefix collected before the first later entry is exactly the entries that are due. |
| `Expiry.SoundStep` | src/linksmart.eu/lc/core/catalog/resource/controller.go:253-288 | Every step of the registry machine keeps each entry true of a live registration, under both rules. |
| `Expiry.SweepRemoves` | src/linksmart.eu/lc/core/catalog/resource/controller.go:253-288 | A sweep removes a registration if and only if it is indexed and its current expiry is not after the sweep's time. |
| `Expiry.SweepingStep` | src/linksmart.eu/lc/core/catalog/resource/controller.go:267-284 | Part of the way through a sweep, taking out one more due entry with its whole class of equal times costs nothing that is not due. |
| `Expiry.SweepExact` | src/linksmart.eu/lc/core/catalog/resource/controller.go:257-284 | With a complete index a sweep leaves exactly the registrations with no expiry or a later one. |
| `Expiry.DropTakes` | src/linksmart.eu/lc/core/catalog/resource/controller.go:494-514 | What the two rules remove: the whole class of equal times, or the one entry. |
| `Expiry.LiteralCompleteIff` | src/linksmart.eu/lc/core/catalog/resource/controller.go:494-514 | The code keeps a complete index complete if and only if the operation does not take one of two equal times out. |
| `Expiry.TieFreeRun` | src/linksmart.eu/lc/core/catalog/resource/controller.go:494-514 | On runs without such an operation the two rules cannot be told apart. |
| `Expiry.IntendedCompleteRun` | src/linksmart.eu/lc/core/catalog/resource/controller.go:488-514 | Under the intended rule completeness holds over all runs. |
| `Expiry.TieOrphans` | src/linksmart.eu/lc/core/catalog/resource/controller.go:494-514 | Otherwise the tied registration is left without an entry, where the intended rule keeps it indexed. |
| `Expiry.OrphanStays` | src/linksmart.eu/lc/core/catalog/resource/controller.go:253-288 | A registration without an entry survives every sweep until an operation on itself. |
| `ExpiryLosses.OrphanStepIff` | src/linksmart.eu/lc/core/catalog/resource/controller.go:494-514 | After one operation a registration has no entry exactly if the operation is not on itself and it had none before or was taken out with another of its time. |
| `ExpiryLosses.OrphanIffLost` | src/linksmart.eu/lc/core/catalog/resource/controller.go:494-514 | Over whole runs from a complete index: exactly which registrations are lost. |
| `ExpiryLosses.CompleteIffNothingLost` | src/linksmart.eu/lc/core/catalog/resource/controller.go:494-514 | The index is complete after a run if and only if nothing is lost. |
| `ExpiryLosses.AlwaysCompleteIff` | src/linksmart.eu/lc/core/catalog/resource/controller.go:494-514 | It is complete all along a run if and only if no operation takes one of two equal times out. |
| `ExpiryLosses.SweepLeaves` | src/linksmart.eu/lc/core/catalog/resource/controller.go:253-288 | A sweep leaves exactly the registrations with no expiry, a later one, or no entry. |
| `Expiry.Stranded` | src/linksmart.eu/lc/core/catalog/resource/controller.go:494-514 | A run that strands a registration for good: two with one expiry time, one of them removed. |
| `Expiry.LeaseFromStart` | src/linksmart.eu/lc/core/catalog/resource/controller.go:152-158 | The lease for the registry machine, from the first registration on, on a schedule that starts when the ticker does. |
| `Expiry.LeaseLost` | src/linksmart.eu/lc/core/catalog/resource/controller.go:259 | The bound is tight: a renewal exactly half a life late can find the registration swept, as the test for expiry is not strict. |
| `ServiceController.Controller.constructor` | src/linksmart.eu/lc/core/catalog/service/controller.go:40-44 | Over a storage of either kind, start-up indexes exactly the (Expires, Id) pairs of the stored services. |
| `ServiceController.Controller.Add` | src/linksmart.eu/lc/core/catalog/service/controller.go:52-89 | The new store, index, counter and outcome are those of the specified add, on every path. |
| `ServiceController.Controller.Update` | src/linksmart.eu/lc/core/catalog/service/controller.go:95-139 | The same for update. |
| `ServiceController.Controller.Delete` | src/linksmart.eu/lc/core/catalog/service/controller.go:141-164 | The same for delete. |
| `ServiceController.Controller.CleanExpired` | src/linksmart.eu/lc/core/catalog/service/controller.go:209-244 | One sweep removes exactly the indexed services that are due; both error exits are unreachable. |
| `ServiceController.Controller.Filter` | src/linksmart.eu/lc/core/catalog/service/controller.go:170-203 | The paged scan equals the naive filter, up to the first error or panic of the matcher. |
| `ServiceController.Controller.RemoveIndices` | src/linksmart.eu/lc/core/catalog/service/controller.go:294-323 | Drops what the code's tie handling drops. |
| `ServiceCatalog.Outcomes` | src/linksmart.eu/lc/core/catalog/service/controller.go:52-164 | Every operation fails for exactly the listed reasons, and a failed one changes nothing but the counter, which counts the identifiers generated. |
| `ServiceCatalog.ServiceRefusedIff` | src/linksmart.eu/lc/core/catalog/service/catalog.go:28-45 | A service is refused exactly for having no protocol, or for a protocol without type or endpoint. |
| `ServiceCatalog.AddStores` | src/linksmart.eu/lc/core/catalog/service/controller.go:60-75 | What an add stores: the service as given, stamped, with the expiry that its time to live asks for, and that nothing else changes. |
| `ServiceCatalog.UpdateStores` | src/linksmart.eu/lc/core/catalog/service/controller.go:109-127 | What an update takes from the request, and that it leaves the rest of the stored service and all others alone. |
| `ServiceCatalog.RunRefines` | src/linksmart.eu/lc/core/catalog/service/controller.go:52-244 | Whole runs of the service catalog are runs of the registry machine, and keep the index sound. |
| `ServiceCatalog.NeverEarly` | src/linksmart.eu/lc/core/catalog/service/controller.go:209-244 | No sweep of any run deletes a service whose current expiry is after its time. |
| `ServiceCatalog.CompleteRun` | src/linksmart.eu/lc/core/catalog/service/controller.go:294-323 | The index stays complete over all runs with the intended tie handling, and with the code's on runs without ties. |
| `ServiceCatalog.SweepsExact` | src/linksmart.eu/lc/core/catalog/service/controller.go:209-244 | On those runs a sweep leaves exactly the services with no expiry or a later one. |
| `ServiceCatalog.SweepsLeave` | src/linksmart.eu/lc/core/catalog/service/controller.go:209-244 | After any run of the code as it stands it leaves exactly these and the services that the run has lost because an operation took an equal time out. |
| `ServiceCatalog.RestartEquivalent` | src/linksmart.eu/lc/core/catalog/service/controller.go:263-290 | A restart after any run loses no entry and restores exactly what ties had cost. |
| `Storage.MemoryStorage.Add` | src/linksmart.eu/lc/core/catalog/resource/memstorage.go:39-49 | Adds unless the id is taken; a conflict changes nothing. |
| `Storage.MemoryStorage.Update` | src/linksmart.eu/lc/core/catalog/resource/memstorage.go:64-76 | Replaces the value of a stored id; an unknown id is reported and changes nothing. |
| `Storage.MemoryStorage.Delete` | src/linksmart.eu/lc/core/catalog/resource/memstorage.go:78-88 | Removes a stored id; an unknown id is reported and changes nothing. |
| `Storage.MemoryStorage.List` | src/linksmart.eu/lc/core/catalog/resource/memstorage.go:90-112 | One page of the values in key order with the total, which is reported as 0 on a blank page. |
| `Storage.MemoryStorage.ReadPage` | src/linksmart.eu/lc/core/catalog/resource/controller.go:219-238 | In the page loops a blank page is only ever read from an empty store, so that total does no harm. |
| `Storage.LevelDBStorage.ReadPage` | src/linksmart.eu/lc/core/catalog/resource/controller.go:219-238 | A round of the page loops over the other backend reads the same page and ends the loop at the same one. |
| `Storage.LevelDBStorage.Update` | src/linksmart.eu/lc/core/catalog/resource/ldbstorage.go:79-93 | A put: an unknown id is inserted. |
| `Storage.LevelDBStorage.Delete` | src/linksmart.eu/lc/core/catalog/resource/ldbstorage.go:95-105 | Removes the id; an unknown id is not reported. |
| `Storage.LevelDBStorage.List` | src/linksmart.eu/lc/core/catalog/resource/ldbstorage.go:107-146 | The scan with its counters returns the same page of the same key-sorted association, with the true total. |
| `Storage.LevelDBStorage.Total` | src/linksmart.eu/lc/core/catalog/resource/ldbstorage.go:148-162 | Counting the entries one by one gives the size. |
| `Storage.BackendsAgree` | src/linksmart.eu/lc/core/catalog/resource/ldbstorage.go:39-162 | Over every run that updates and deletes existing keys the backends hold the same association; they do and answer the next operation alike if and only if its key is there and it is not a blank page. |
| `Storage.BlankPagesDiffer` | src/linksmart.eu/lc/core/catalog/resource/memstorage.go:99-103 | On a blank page of a store that is not empty both show nothing, and the in-memory total is 0. |
| `Storage.ListShows` | src/linksmart.eu/lc/core/catalog/utils.go:122-159 | A listing of either backend shows the values on the page if all pages before it are full, up to 100 a page; other page parameters are refused. |
| `Order.LessIsDictionary` | src/linksmart.eu/lc/core/catalog/resource/memstorage.go:29-36 | Keys are in dictionary order: one comes before another if at the first place where they differ it has the smaller character or has ended. |
| `Paging.PageIsStretch` | src/linksmart.eu/lc/core/catalog/utils.go:122-145 | Each page is the stretch between its own start and the start of the next one, within the collection; later pages are blank. |
| `Paging.PagesJoin` | src/linksmart.eu/lc/core/catalog/utils.go:122-145 | Pages 1 to n put together are the first n * perPage entries: no gap, no repeat, no disorder. |
| `Paging.PagesPartition` | src/linksmart.eu/lc/core/catalog/utils.go:122-145 | Pages 1 to total/perPage + 1 cover the collection exactly. |
| `Paging.PageShows` | src/linksmart.eu/lc/core/catalog/utils.go:122-145 | A page shows the entries from the (page - 1) * perPage-th to before the page * perPage-th, as far as there are. |
| `Paging.RefusedIff` | src/linksmart.eu/lc/core/catalog/utils.go:148-159 | Page parameters are refused exactly for a page or a page length below 1 or a length above the limit. |
| `Paging.SliceAgrees` | src/linksmart.eu/lc/core/catalog/utils.go:93-118 | The page of a slice is the part given by offset and limit. |
| `Paging.MachineAgrees` | src/linksmart.eu/lc/core/catalog/utils.go:122-145 | In 64-bit arithmetic that wraps around the result is the same, for every total and page number. |
| `Query.ScanFilter` | src/linksmart.eu/lc/core/catalog/resource/controller.go:217-246 | The scan over pages terminates and equals matching everything and cutting the page out. |
| `Query.AnswerIff` | src/linksmart.eu/lc/core/catalog/resource/controller.go:226-234 | There is an answer exactly if every item has one, and then it is the items that match, in order; an error or a panic comes out exactly if the first item without an answer gives it. |
| `Query.FilterPageShows` | src/linksmart.eu/lc/core/catalog/resource/controller.go:213-247 | A filter answers exactly if every item has an answer and the page parameters are allowed, and then it shows that page of the items that match, with their number as total. |
| `Query.MatchingCounts` | src/linksmart.eu/lc/core/catalog/resource/controller.go:230-232 | What matches is there as often as it is stored. |
| `Query.MatchingSplits` | src/linksmart.eu/lc/core/catalog/resource/controller.go:226-234 | And it is in the order of the items. |
| `KeepAlive.Run` | src/linksmart.eu/lc/core/catalog/resource/utils.go:122-165 | An error is signalled at the first tick that ends a run of five failures, at no other, and nothing is called after it; the calls made are exactly those of the first registration and the renewals. |
| `KeepAlive.ExhaustedIff` | src/linksmart.eu/lc/core/catalog/resource/utils.go:155-158 | The counter reaches five exactly when the last five renewals failed. |
| `KeepAlive.FiveInARow` | src/linksmart.eu/lc/core/catalog/resource/utils.go:155-158 | That is, when this renewal and the four before it failed. |
| `KeepAlive.SucceedsIff` | src/linksmart.eu/lc/core/catalog/resource/utils.go:132-153 | A renewal succeeds if the update is accepted, or misses the registration and the add after it is accepted. |
| `Shutdown.TicksAgree` | src/linksmart.eu/lc/core/catalog/resource/utils.go:130-159 | The transitions of the protocol below count failures and make calls as that loop does, over any answers, up to the error report. |
| `Shutdown.RoutineAgrees` | src/linksmart.eu/lc/core/catalog/resource/utils.go:122-165 | So do the transitions of a whole routine from its start on, whose first registration counts for nothing whatever the answers to it. |
| `Registration.UpsertSucceedsIff` | src/linksmart.eu/lc/core/catalog/resource/utils.go:19-39 | Against the catalog, the upsert of a valid device succeeds if and only if it does not ask for a resource id of another device and, for a device without a name, the generated name is free; a failed one changes nothing but the counter. |
| `Registration.BlankIdNeverRenews` | src/linksmart.eu/lc/core/catalog/resource/utils.go:130-145 | A registrar that leaves the name to the catalog never renews: its next upsert fails if the device names a resource, and if it succeeds it adds one more device beside the first. |
| `Registration.HeldStep` | src/linksmart.eu/lc/core/catalog/resource/utils.go:122-154 | Every step on schedule keeps the registration, and every renewal on schedule is accepted. |
| `Registration.KeptAlive` | src/linksmart.eu/lc/core/catalog/resource/utils.go:122-154 | A device whose registrar merely sends its updates on time stays registered through every run, and no update of it is ever refused. |
| `Registration.TicksAreOnSchedule` | src/linksmart.eu/lc/core/catalog/resource/utils.go:130-131 | A registrar that answers every tick before the next keeps to that schedule. |
| `Registration.FirstRegistration` | src/linksmart.eu/lc/core/catalog/resource/utils.go:122-128 | The first successful add or update of a device with a name establishes that lease, on the schedule of a ticker created before it. |
| `Registration.KeptFromStart` | src/linksmart.eu/lc/core/catalog/resource/utils.go:122-154 | So a device whose registrar registers it once and then sends its updates on time stays registered. |
| `ServiceRegistration.KeptAlive` | src/linksmart.eu/lc/core/catalog/service/utils.go:141-173 | A service whose registrar merely sends its updates on time stays registered through every run, and no update of it is ever refused, other clients' lasting updates included. |
| `ServiceRegistration.TicksAreOnSchedule` | src/linksmart.eu/lc/core/catalog/service/utils.go:149-150 | A registrar that answers every tick before the next keeps to that schedule. |
| `ServiceRegistration.FirstRegistration` | src/linksmart.eu/lc/core/catalog/service/utils.go:141-147 | The first successful add or update of a service with a name establishes that lease, on the schedule of a ticker created before it. |
| `Shutdown.OneActive` | src/linksmart.eu/lc/core/catalog/resource/utils.go:75-114 | Over all interleavings at most one keepalive routine can still issue calls, and none once the supervisor has got through to it. |
| `Shutdown.SilentAfterStop` | src/linksmart.eu/lc/core/catalog/resource/utils.go:103-112 | From the rendezvous on, in every continuation, the only call is one delete, to the first endpoint. |
| `Shutdown.DeleteIsLast` | src/linksmart.eu/lc/core/catalog/resource/utils.go:99-112 | In every run a delete is the last call of all, and there is one exactly if the stop was not timed out. |
| `Shutdown.OneEndpoint` | src/linksmart.eu/lc/core/catalog/resource/utils.go:77-96 | Without discovery every call goes to the one endpoint. |
| `Shutdown.DeleteReachesIff` | src/linksmart.eu/lc/core/catalog/resource/utils.go:91-105 | The delete reaches the catalog of the last routine if and only if no restart led elsewhere: the new client is only assigned to an inner variable. |
| `Shutdown.DeleteGoesAstray` | src/linksmart.eu/lc/core/catalog/resource/utils.go:82-105 | With discovery there is such a run for any two endpoints: the last update goes to one, the delete to the other. |
| `Deregistration.StoppedIsAbsent` | src/linksmart.eu/lc/core/catalog/resource/utils.go:99-112 | After a stop that got through to a routine at the first endpoint, the device is absent from the catalog there, whatever else that served in between, if nobody else registers the device. |
| `Deregistration.RenewalIsUpsert` | src/linksmart.eu/lc/core/catalog/resource/utils.go:19-39 | One renewal, served without others in between, does to the catalog what the upsert does, by the calls that the routine makes. |
| `Deregistration.AstrayStays` | src/linksmart.eu/lc/core/catalog/resource/utils.go:82-112 | If a restart led elsewhere, a device once registered there stays, unless a sweep or somebody else removes it. |
| `Shutdown.Deadlock` | src/linksmart.eu/lc/core/catalog/resource/utils.go:103-108 | If the routine is about to report an error when it is asked to stop, the two wait for each other and only the time limit can happen. |
| `Shutdown.DoomedAfterTimeOut` | src/linksmart.eu/lc/core/catalog/resource/utils.go:106-112 | After that limit the routine stays blocked until it sends on the closed channel, and no delete is ever issued. |
| `ShutdownLimits.CanCrashIff` | src/linksmart.eu/lc/core/catalog/resource/utils.go:99-112 | From any reachable state some continuation crashes a routine on the closed channel if and only if the supervisor has neither got through to its routine nor given up and, after a timed-out stop, the routine has not ended. |
| `ShutdownLimits.CanCallIff` | src/linksmart.eu/lc/core/catalog/resource/utils.go:77-112 | From any reachable state another update or add can be issued if and only if the supervisor is listening or restarting, or is stopping or timed out and the routine is neither at its end nor blocked on reporting. |
| `ShutdownLimits.ReturnedCallsIff` | src/linksmart.eu/lc/core/catalog/resource/utils.go:106-112 | So after it has returned without a delete, calls still come if and only if the routine is live. |
| `ShutdownLimits.CanEndIff` | src/linksmart.eu/lc/core/catalog/resource/utils.go:99-165 | From any reachable state the last routine can still come to its end if and only if it has, it is waiting or at work, or there is a supervisor to take its report. |
| `ShutdownLimits.GivingUpEnds` | src/linksmart.eu/lc/core/catalog/resource/utils.go:82-91 | A supervisor that finds nowhere to restart ends everything: nothing happens after that. |
| `PathFilter.MatchIsGreedy` | src/linksmart.eu/lc/core/catalog/pathfilter.go:19-48 | A value other than null is reached by keys and array positions whose keys are the path, each position being the first object with the next key. |
| `PathFilter.GreedyIsMatch` | src/linksmart.eu/lc/core/catalog/pathfilter.go:19-48 | Greedy steps lead where the match leads. |
| `PathFilter.MatchIffGreedy` | src/linksmart.eu/lc/core/catalog/pathfilter.go:19-48 | So the match returns a value if and only if greedy steps along the path reach it. |
| `PathFilter.NoBacktracking` | src/linksmart.eu/lc/core/catalog/pathfilter.go:34-42 | If the first object of an array with the key leads nowhere, the match finds nothing, whatever comes later in the array. |
| `PathFilter.MissedValue` | src/linksmart.eu/lc/core/catalog/pathfilter.go:34-42 | So any value can lie at the end of the path and be missed. |
| `PathFilter.PathComposes` | src/linksmart.eu/lc/core/catalog/pathfilter.go:19-48 | Matching a path in two parts is matching it at once. |
| `PathFilter.PanicsIff` | src/linksmart.eu/lc/core/catalog/pathfilter.go:34-41 | The match panics if and only if greedy steps along a part of the path lead to an array in which something that is no object comes before any object with the next key. |
| `PathFilter.NeverPanics` | src/linksmart.eu/lc/core/catalog/pathfilter.go:19-48 | On values whose arrays hold only objects it never panics. |
| `PathFilter.OrderIrrelevant` | src/linksmart.eu/lc/core/catalog/pathfilter.go:27-33 | The iteration order of objects changes neither the value found nor whether the match panics. |
| `PathFilter.PermutedSame` | src/linksmart.eu/lc/core/catalog/pathfilter.go:27-33 | Reordering the fields of an object with distinct keys gives the same value in that sense. |
| `PathFilter.CompareOrdered` | src/linksmart.eu/lc/core/catalog/pathfilter.go:67-92 | Equality is prefix and suffix at the same length, and each of these implies containment, which means occurring somewhere. |
| `PathFilter.CompareMeans` | src/linksmart.eu/lc/core/catalog/pathfilter.go:67-92 | Each of the four comparisons in terms of concatenation. |
| `PathFilter.MatchObjectIff` | src/linksmart.eu/lc/core/catalog/pathfilter.go:50-93 | An object matches if and only if greedy steps along the path reach a value other than null whose printed form is, starts with, ends with, or contains the given one, as the operation says. |
| `PathFilter.NoMatchIff` | src/linksmart.eu/lc/core/catalog/pathfilter.go:50-93 | With one of the four operations it does not match if and only if it neither matches nor gets stuck. |
| `PathFilter.NothingFound` | src/linksmart.eu/lc/core/catalog/pathfilter.go:52-56 | A path that leads nowhere or to null matches with no operation. |
| `PathFilter.OrderAnswers` | src/linksmart.eu/lc/core/catalog/pathfilter.go:50-93 | Nor does the iteration order change the answer, where the path leads to a scalar. |
| `PathFilter.UnknownOperationIff` | src/linksmart.eu/lc/core/catalog/pathfilter.go:58-93 | An unknown operation is reported if and only if greedy steps along the path reach a value other than null. |
| `Filters.DeviceShows` | src/linksmart.eu/lc/core/catalog/resource/catalog.go:18-36 | What a filter of devices sees under each name: every field of a listed device under its own, those marked as omitted when empty only if they are not. |
| `Filters.ResourceShows` | src/linksmart.eu/lc/core/catalog/resource/catalog.go:39-49 | The same for resources. |
| `Filters.ProtocolShows` | src/linksmart.eu/lc/core/catalog/resource/catalog.go:51-57 | The same for their protocols. |
| `Filters.ServiceShows` | src/linksmart.eu/lc/core/catalog/service/catalog.go:13-26 | The same for services. |
| `Filters.MatcherIff` | src/linksmart.eu/lc/core/catalog/pathfilter.go:50-93 | The matcher of a filter says yes to an item if and only if greedy steps along the path reach such a value in its JSON. |
| `Filters.FilterFinds` | src/linksmart.eu/lc/core/catalog/resource/controller.go:223-238 | If a filter answers at all, an item is in the answer, as often as it is stored, if and only if its JSON meets the condition of the filter. |
| `Filters.DevicesByName` | src/linksmart.eu/lc/core/catalog/resource/controller.go:223-238 | For instance, a filter on "name" with "equals" finds exactly the devices of that name. |
| `Filters.FilterPanicsIff` | src/linksmart.eu/lc/core/catalog/resource/controller.go:223-234 | A filter panics if and only if the path gets stuck in some item and gets stuck or fails in none before it. |
| `Filters.DeviceFilterPanicsIff` | src/linksmart.eu/lc/core/catalog/resource/catalog.go:33-36 | Filtering devices by a path that goes on after "resources", a list of strings, panics if and only if some stored device has a resource. |
| `Filters.ResourceFilterPanicsIff` | src/linksmart.eu/lc/core/catalog/resource/catalog.go:51-56 | Filtering resources by a path that goes on after "protocols.methods" panics if and only if some stored resource has a protocol with methods. |
| `Filters.ServiceFilterPanicsIff` | src/linksmart.eu/lc/core/catalog/service/catalog.go:13-26 | Filtering services by such a path panics if and only if some stored service has a protocol with methods. |
| `MqttTopics.Connector.constructor` | src/linksmart.eu/lc/core/cmd/device-gateway/mqtt.go:39-66 | The nested loops compute both topic maps, and there is a connector to create if and only if some resource uses MQTT. |
| `MqttTopics.UsesIff` | src/linksmart.eu/lc/core/cmd/device-gateway/mqtt.go:43-60 | What counts as a use of MQTT, with which topics: the configured one or, if there is none, prefix, device and resource name joined by slashes. |
| `MqttTopics.UsesSplit` | src/linksmart.eu/lc/core/cmd/device-gateway/mqtt.go:43-60 | They come in the order of the configuration: those of its first devices come before those of the rest, and likewise for resources (`DeviceUsesSplit`) and protocols (`ResourceUsesSplit`). |
| `MqttTopics.PubTopicsIff` | src/linksmart.eu/lc/core/cmd/device-gateway/mqtt.go:48-54 | A resource has a topic exactly if it uses MQTT, and its last such protocol decides which. |
| `MqttTopics.TopicConfigured` | src/linksmart.eu/lc/core/cmd/device-gateway/mqtt.go:48-54 | So the topic of a resource is one that the configuration gives it. |
| `MqttTopics.SubTopicsIff` | src/linksmart.eu/lc/core/cmd/device-gateway/mqtt.go:55-58 | A topic that several resources subscribe to reaches the last of them only. |
| `MqttTopics.OfferedHasTopic` | src/linksmart.eu/lc/core/cmd/device-gateway/agents.go:119-139 | Every reading that the agent manager offers has a topic configured. |
| `MqttTopics.CopiesAre` | src/linksmart.eu/lc/core/cmd/device-gateway/agents.go:119-139 | The readings of a resource are offered if its agent is a timer or a service, once for each of its MQTT protocols, and those of an unknown one never. |
| `MqttPipeline.Forward` | src/linksmart.eu/lc/core/cmd/device-gateway/agents.go:119-139 | A reading is offered once for each MQTT protocol of the first resource with its id, and what does not fit is skipped. |
| `MqttPipeline.PlacesStep` | src/linksmart.eu/lc/core/cmd/device-gateway/mqtt.go:109-132 | A step loses no reading and makes none up. |
| `MqttPipeline.Conservation` | src/linksmart.eu/lc/core/cmd/device-gateway/mqtt.go:109-132 | In every run each accepted reading is in exactly one place: queued, in flight, buffered, published, dropped as an error, or discarded; both channels keep order and capacity. |
| `MqttPipeline.PublishedOnItsTopic` | src/linksmart.eu/lc/core/cmd/device-gateway/mqtt.go:124-129 | Every message is an accepted reading without an error and goes out on the topic configured for its resource. |
| `MqttPipeline.NoBuffer` | src/linksmart.eu/lc/core/cmd/device-gateway/mqtt.go:111-115 | Without a buffer nothing is ever stored and every drain once started waits for good. |
| `MqttPipeline.DrainBuffer` | src/linksmart.eu/lc/core/cmd/device-gateway/mqtt.go:249-260 | The drain publishes the buffered readings first in, first out; it ends if and only if there are any and the last is not an error. |
| `MqttLaws.OnlineRun` | src/linksmart.eu/lc/core/cmd/device-gateway/mqtt.go:109-132 | In every run that starts with a connection and does not lose it, every reading taken from the queue is published in order and on its topic unless it is an error; nothing is ever stored or discarded. |
| `MqttLaws.OfflineRun` | src/linksmart.eu/lc/core/cmd/device-gateway/mqtt.go:109-132 | In every run without a connection nothing is published: the first readings taken are stored until the buffer is full, errors among them, and the rest are discarded. |
| `MqttLaws.DiscardsIff` | src/linksmart.eu/lc/core/cmd/device-gateway/mqtt.go:109-132 | A step discards exactly if it checks a reading without a connection and without a buffer, or meets a full buffer, and then it discards that reading. |
| `MqttLaws.StoresIff` | src/linksmart.eu/lc/core/cmd/device-gateway/mqtt.go:109-132 | A reading is to be stored exactly if it was checked without a connection and there is a buffer. |
| `MqttLaws.PublisherAgrees` | src/linksmart.eu/lc/core/cmd/device-gateway/mqtt.go:109-132 | With a connection and nothing else running, an idle publisher gets the whole queue out: it publishes the sound readings in order and drops the errors. |
| `MqttLaws.DrainAgrees` | src/linksmart.eu/lc/core/cmd/device-gateway/mqtt.go:249-260 | With a connection and nothing else running, the transitions of a drain do what its loop does. |
| `MqttLaws.OffersAgree` | src/linksmart.eu/lc/core/cmd/device-gateway/agents.go:119-139 | With nothing else running, the transitions of the agent manager offer a reading as its loop does. |
| `MqttOffline.SendsDownIff` | src/linksmart.eu/lc/core/cmd/device-gateway/mqtt.go:109-132 | From a reachable state without a connection a message can go out before the next one comes if and only if some resource is published at all and the publisher is about to send or, with a buffer, some drain has not ended. |
| `MqttOffline.FirstLoss` | src/linksmart.eu/lc/core/cmd/device-gateway/mqtt.go:231-262 | In every run that starts with a connection, with a buffer configured, it can after the first loss: the first drain found the buffer empty and still waits. |
| `MqttOffline.PublishedWhileDown` | src/linksmart.eu/lc/core/cmd/device-gateway/mqtt.go:231-262 | Such a run: that drain hands a reading stored after the loss to the client at once. |
| `Authz.JoinSplit` | src/linksmart.eu/lc/sec/authz/authz.go:12-18 | Splitting a path at its slashes and joining the parts gives the path. |
| `Authz.SplitJoin` | src/linksmart.eu/lc/sec/authz/authz.go:12-18 | Joining parts without slashes and splitting gives the parts. |
| `Authz.ResourceTree` | src/linksmart.eu/lc/sec/authz/authz.go:12-18 | The loop builds exactly the ancestors of the path. |
| `Authz.AncestorIff` | src/linksmart.eu/lc/sec/authz/authz.go:12-18 | A path is among them if and only if it is the requested one, from its first slash on, or lies above it. |
| `Authz.CutsLongestFirst` | src/linksmart.eu/lc/sec/authz/authz.go:15-18 | They come longest first, without repeats. |
| `Authz.Authorized` | src/linksmart.eu/lc/sec/authz/authz.go:43-52 | The search over rules and ancestors answers yes exactly if some rule lists the method, the user or a group, and an ancestor of the path. |
| `Authz.PermitsIff` | src/linksmart.eu/lc/sec/authz/authz.go:43-52 | That is, if and only if a rule names a path that covers the requested one, lists the method, and lists the user or one of the groups. |
| `Authz.MethodNeeded` | src/linksmart.eu/lc/sec/authz/authz.go:43-52 | Nobody is permitted a method that no rule lists. |
| `Authz.SubjectNeeded` | src/linksmart.eu/lc/sec/authz/authz.go:43-52 | Nobody is permitted anything whom no rule lists, by name or by group. |
| `Authz.Closure` | src/linksmart.eu/lc/sec/authz/authz.go:8-53 | Whoever may use a path may use everything below it. |
| `Authz.NoSiblings` | src/linksmart.eu/lc/sec/authz/authz.go:12-18 | A rule for a path is no reason to permit one that goes on after it without a slash: such a request is permitted if and only if one of the rule's other paths covers it. |
| `Authz.NoSlashNoPermission` | src/linksmart.eu/lc/sec/authz/authz.go:12-18 | A path without a slash is never permitted, whatever the rules. |

## Left out

- `ResourceController.Controller.GetResource`, `ListResources` and `FilterResources` state the answer by way of the index; that it is the right answer about the stored devices is said by the `Exact` lemmas of `ResourceQueries`, for an exact index.
- `ResourceController.Controller.constructor` takes a storage as a controller leaves it: devices under their own id, with an expiry exactly if they have a time to live. For a stored device with a time to live and no expiry the code dereferences nil.
- AVL balancing and the internals of LevelDB: a tree is the sorted sequence of its nodes, a database an association ordered by key, and iterating reads a snapshot, so that breaking out of an iteration leaves nothing running. Which of several entries with one time the AVL tree removes is left open.
- Sharing of slices and maps between a caller and the in-memory storage: devices and services are values, so a caller that goes on writing to its own slice is not modelled.
- Storage failures other than unknown or taken keys, and the JSON round trip of stored values.
- `sort.Sort` is not stable: the order it gives to resources with one id is fixed here, which can only matter after a clash of generated ids.
- Wrap-around of the identifier counter and of durations: the counter is a natural number, and a time to live in seconds is taken to fit in 64-bit nanoseconds. A device's is not negative; a service's may be.
- Listeners of the service catalog, the plain `get`, `list` and `total` calls, and the Go-level parsing of paging parameters: they would add only easy members.
- `url.Parse` is a parameter that says which ids it accepts; the matcher of a filter is a parameter that may fail or panic, and `Filters` gives the code's own; printing a time or a value as a string is a parameter, and a path is the list of its keys.
- `Registration.UpsertSucceedsIff` and `Registration.BlankIdNeverRenews` take the update and the add after it as one step. Other clients may come in between; the lease is proved for single operations.
- `Registration.KeptAlive`: assumes that other clients do not update or delete the same device, whose resources they could change so that renewals conflict. `ResourceRuns.Lease` lets them write it, provided that renewals succeed and that what they write lasts.
- `ResourceFutures.StaysExactIff` and `RestartStaysExactIff` are about catalogs to which some device with one unnamed resource can be added, so that an id can be generated at all.
- `ServiceRegistration.KeptAlive`: assumes that other clients do not delete the service, and that their updates of it last.
- `Deregistration.StoppedIsAbsent`: a catalog serves the registrar's calls in the order they are issued.
- `Registration.FirstRegistration`: asks for a device that names itself; `Registration.BlankIdNeverRenews` says what becomes of the others.
- The path of a registrar without a time to live, a service's with a time to live that is not positive, discovery of the endpoint, and tickets: `Shutdown` starts where the first keepalive routine is started, and discovery yields any endpoint or none.
- `MqttPipeline.Forward` and `MqttPipeline.DrainBuffer`: the loops with nothing else running; with interference they are the events of the transition system. The publisher is modelled by its events only.
- The cache of the agent manager, data requests, subscriptions, reconnecting and its back-off, and the broker client: a message counts as published when it is handed to the client.
- HTTP handlers, routers, remote clients, discovery, configuration files, logging, authentication, and running agents as processes.
