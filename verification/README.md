# Verified models of the ARTIK SDK core

The ARTIK SDK is mostly a set of wrappers. This project models the parts of it that have state,
loops or arithmetic of their own, and proves what those parts are relied on for. Each Dafny module
follows one component:

- `AlignPower2`, `Vector`, `LoopRegistry`: the event loop's vector, which stores no capacity and
  recomputes it from a 16-bit length, and the timer and watch registries on top of it.
- `ArtikList`: the handle-keyed linked list, in an explicit C memory in which an address may be
  handed out again after it was freed.
- `ModuleRegistry`, `ModuleManager`: the reference-counted registry of loaded modules. The first is
  the registry as a state machine with its refinement to plain counters, the second the code that
  updates the list, the names and the loader in place.
- `Json`, `DeviceInfo`: the device description, written into a buffer of precomputed size, and a
  reader for the part of RFC 8259 (sections 2, 4, 5 and 7) that it uses.
- `Lwm2mShutdown`: the service threads of the LWM2M clients and the application thread that
  disconnects them, interleaved step by step.
- `Listings`, `ObjectTree`, `DeviceList`, `Gatt`: the searches over the BlueZ object tree and the GATT listings
  composed from them.
- `ObexTransfer`: the tracking of file transfers from bus signals.
- `CompareDates`: the comparison of dates, against the calendar.

`dafny verify dfyconfig.toml` checks the whole project.

## Assumptions

- `malloc` succeeds, except in `artik_list_add`, where failure is modelled; so does the `realloc`
  inside `_vector_grow`. The one inside `_vector_shrink` may fail at any time.
- Buffers of the vector are counted in elements, not in bytes.
- `dlopen` and `dlsym` succeed, and the loader's answers depend on their arguments only.
- A release reads the first word behind the caller's pointer, and the model takes that word as given.
  After the last release of a module the pointer may lead into an unloaded library, and whether it
  can still be read is not part of this model.
- One application thread uses the LWM2M clients; calls into the LWM2M stack return; the stack calls
  a handler exactly while that is registered; user callbacks do not call back into the SDK. Each
  read or write of a shared flag or callback pointer is atomic, and a callback pointer is stored
  together with its parameter.
- The managed objects do not change during one Bluetooth query. A failed GetManagedObjects call is
  the empty tree, which is what the searches make of it. Property values are text.

## Where the code does less than one would expect

- The module name comparison looks at no more characters than the name asked for has, and the
  comparison of module operations looks at their first word only. The registry stands for reference
  counters over every run if and only if no module name begins another and no two modules begin with
  the same word (`RefinesIffWellFormed`, for tables of different names below the 32-character limit
  of the comparison). A prefix gives wrong answers (`PrefixClash`,
  `ConformsIffPrefixFree`); equal words leak a library and a name (`WordClash`, `NothingIsLostIff`).
  The shipped names satisfy the first condition (`LinuxTableIsPrefixFree`). On every table, the others
  included, no node refers to a freed name or an unloaded library (`NodesStayUsable`).
- An append that makes the 16-bit length wrap writes outside the buffer, and no other does
  (`AppendInRangeIff`, `FullVectorIsReachable`). Above 2^15 elements every delete asks for a needless reallocation
  (`ShrinkBoundary`).
- Timer identifiers repeat after 255 adds; a removal then takes several timers
  (`RemovalIsExactIff`, `WrappedIdRemovesTwo`).
- The device description is JSON if and only if there is at least one module, the last name has at
  most 11 characters and every other at most 12 (`DescriptionReadsBack`).
- Object paths are compared as strings; a listing is right if and only if no sibling whose name merely
  begins like that of the object listed carries the interface (`ListingBelongsIff`,
  `ServicesBelongIff`, `CharacteristicsBelongIff`, `DescriptorsBelongIff`). For a device whose service
  has the characteristics char1 and char10, the descriptors of the second are listed for the first
  (`StraySiblingIsListed`).
- The device list is overrun if and only if the wanted device interfaces from the third object on
  outnumber the objects less two (`QueryFitsIff`, `SnapshotFitsIff`). Two device interfaces on one
  object can do it, and need not (`TwoDeviceInterfaces`). The first two objects are passed over; no
  wanted device is missing if and only if neither of them is one (`NothingMissingIff`).
- A removal of any OBEX transfer ends the tracking of the current one, because the path of the
  signal is not looked at (`OtherRemovalEndsTracking`). A change of the latest transfer, whose own
  end has not come, is delivered if and only if no such removal came in between
  (`ChangeIsDeliveredIff`).
- A transfer started by a file request is recorded over the old record, so that it may report the
  previous transfer's status and end at once (`OldStatusIsReported`). The record is right for as long
  as the transfer is tracked if and only if the reply names every field that the old record had set
  (`ReplyDecides`). At one point of the run a later change may have covered an old field too; the
  condition for that point is `RecordIsWhatWasToldIff`.
- After a failed service call an LWM2M client is stopped but stays listed, and calls are still handed
  to it (`StoppedIsReachable`). A call that is inside can be overtaken by the stop if and only if
  quit is set (`StopOvertakesIff`); without a disconnect, quit is set or about to be set if and only
  if a service call failed (`StoppedOnlyAfterFailure`).
- The LWM2M mutex does not keep a client to one thread: the service call takes no lock and can overlap
  a call that is inside (`WriteOverlapsService`), as long as no service call has failed
  (`ServiceOverlapsIff`).
- The service thread tests the error callback and then calls it, and unsetting takes no lock: a call
  through a null pointer happens if and only if the callback is unset between the two and not set
  again (`NullCallIff`, `NullCallFromStart`).
- Setting or unsetting the error callback also registers or unregisters the stack's resource-changed
  handler, because the source tests a constant there. A resource-changed callback is reached if and
  only if its own last set or unset was a set and so was the last one of it or of the error callback
  (`ChangedReachedIff`); unsetting the error callback silences one that is still in place
  (`ErrorUnsetSilencesChanged`). The execute callback is not affected (`ExecuteReachedIff`).

## Model

| member | source | states |
|---|---|---|
| `AlignPower2.AlignUintIsLeastPower` | src/modules/base/loop/tinyara_loop.c:88-101 | the 32-bit rounding is the least power of two at or above its argument up to 2^30, is never below it, and is UINT_MAX exactly above 2^30 |
| `AlignPower2.AlignUintMonotone` | src/modules/base/loop/tinyara_loop.c:88-101 | the rounding is monotone, across the saturation too |
| `AlignPower2.AlignShortValue` | src/modules/base/loop/tinyara_loop.c:106-112 | the 16-bit form agrees with the 32-bit one up to 2^15 and is 65535 above, where the 32-bit one is 65536 |
| `AlignPower2.AlignShortMonotone` | src/modules/base/loop/tinyara_loop.c:106-112 | the 16-bit form is monotone and never below its argument |
| `AlignPower2.GrowBoundary` | src/modules/base/loop/tinyara_loop.c:134-138 | growing by one changes the capacity exactly at length zero and at the powers of two up to 2^15 |
| `AlignPower2.ShrinkBoundary` | src/modules/base/loop/tinyara_loop.c:217-220 | comparing the 32-bit old capacity with the 16-bit new one reallocates where a matched comparison would, and also at every length above 2^15 |
| `Vector.AppendInRangeIff` | src/modules/base/loop/tinyara_loop.c:129-167 | the slots cleared by an append lie in the buffer if and only if the length does not exceed 65535 |
| `Vector.AppendKeepsInv` | src/modules/base/loop/tinyara_loop.c:129-181 | an append keeps at least the aligned length of slots and puts the new elements behind the old ones |
| `Vector.DeleteKeepsInv` | src/modules/base/loop/tinyara_loop.c:206-250 | a delete keeps the capacity invariant whether or not its reallocation succeeds, and takes out exactly one element |
| `Vector.RunRefinesPlain` | src/modules/base/loop/tinyara_loop.c:129-250 | over every run of appends and deletes, with any shrinking reallocation failing, the capacity invariant holds and the contents are those of a plain sequence |
| `Vector.RunIsTight` | src/modules/base/loop/tinyara_loop.c:129-227 | in a run whose reallocations all succeed, every state has exactly the aligned length of slots |
| `Vector.DeleteIsTightIff` | src/modules/base/loop/tinyara_loop.c:206-250 | a delete leaves slots over if and only if it asks for a smaller buffer and that reallocation fails |
| `Vector.RunExtendsIff` | src/modules/base/loop/tinyara_loop.c:129-167 | a run can be continued by an append exactly while the plain length fits 16 bits |
| `Vector.FullVectorIsReachable` | src/modules/base/loop/tinyara_loop.c:129-167 | a run reaches 65535 elements, where no further append stays inside the buffer |
| `Vector.GrowthCost` | src/modules/base/loop/tinyara_loop.c:129-153 | the exact number of reallocations made and of elements carried by n appends |
| `Vector.AppendsAreAmortised` | src/modules/base/loop/tinyara_loop.c:129-181 | n appends make one reallocation more than the ceiling of log2 n and carry fewer than 2n elements |
| `Vector.PtrVector.Grow` | src/modules/base/loop/tinyara_loop.c:129-153 | for every length and amount, wrapping ones included: reallocates exactly when the aligned length changes, and keeps the capacity invariant and the elements below both lengths |
| `Vector.PtrVector.AppendN` | src/modules/base/loop/tinyara_loop.c:155-167 | appends n cleared elements inside the buffer, unless the length wraps, where the slots would begin before the buffer |
| `Vector.PtrVector.Append` | src/modules/base/loop/tinyara_loop.c:169-181 | appends one element, as a step of the memory model; leaves the buffer exactly if it holds 65535 elements |
| `Vector.PtrVector.Get` | src/modules/base/loop/tinyara_loop.c:183-198 | reads the element at an index below the length |
| `Vector.PtrVector.Shrink` | src/modules/base/loop/tinyara_loop.c:206-227 | frees, keeps or reallocates the buffer, and survives a failed reallocation |
| `Vector.PtrVector.Del` | src/modules/base/loop/tinyara_loop.c:229-250 | removes the element at a valid index by moving the tail, and refuses an invalid index without a change |
| `LoopRegistry.IdIsSerialModulo` | src/modules/base/loop/tinyara_loop.c:324-327 | over every run of adds and removals the k-th add gets identifier k mod 255, and live entries stay in the order of their adds |
| `LoopRegistry.NearbyAddsDiffer` | src/modules/base/loop/tinyara_loop.c:324-327 | two adds fewer than 255 adds apart hand out different identifiers |
| `LoopRegistry.RemovalIsExactIff` | src/modules/base/loop/tinyara_loop.c:269-287 | removing the identifier of a live entry removes that entry alone if and only if no other live one is a multiple of 255 adds away |
| `LoopRegistry.RemovalIsExactInWindow` | src/modules/base/loop/tinyara_loop.c:332-337 | so it is exact whenever coexisting entries are fewer than 255 adds apart |
| `LoopRegistry.WrappedIdRemovesTwo` | src/modules/base/loop/tinyara_loop.c:324-337 | with 256 entries alive, removing the first one's identifier also removes the last one |
| `LoopRegistry.Decrement` | src/modules/base/loop/tinyara_loop.c:200-204 | the 16-bit step backwards never meets the sentinel while anything is left to walk |
| `LoopRegistry.Registry.AddTimer` | src/modules/base/loop/tinyara_loop.c:304-330 | registers one live record with the next identifier, unless 65535 timers are alive; the periodic and watch registries (lines 378-404 and 470-505) are the same code |
| `LoopRegistry.Registry.Register` | src/modules/base/loop/tinyara_loop.c:324-327 | gives the record just appended the next identifier of the wrapping counter and keeps the registry sound |
| `LoopRegistry.Registry.Release` | src/modules/base/loop/tinyara_loop.c:275-285 | frees the record at an index once and deletes it from the vector |
| `LoopRegistry.Registry.Cleanup` | src/modules/base/loop/tinyara_loop.c:269-287 | deleting while walking backwards leaves exactly the entries with other identifiers, in order, frees every other record once, reads only valid indices and terminates; lines 339-357 and 426-444 are the same code |
| `ArtikList.EveryNodeFreedOnce` | inc/base/artik_list.h:92-356 | over every run of adds, deletes and settings of node fields, at every address the frees keep pace with the allocations and one is outstanding exactly while a node is in the list; none after delete_all |
| `ArtikList.EveryNodeClearedOnce` | inc/base/artik_list.h:181-356 | over every run, at every address, clear is called once for each release of a node that has it set at that moment; clears equal frees if and only if no node is released without it |
| `ArtikList.EveryDataFreedOnce` | inc/base/artik_list.h:181-356 | over every run a data block is freed once for each release of a node that carries it |
| `ArtikList.ReleaseOrder` | inc/base/artik_list.h:202-206 | a release calls clear if it is set, then frees the data if there is any, then frees the node |
| `ArtikList.ReleasedInOrder` | inc/base/artik_list.h:336-356 | delete_all releases the nodes in list order |
| `ArtikList.DefaultHandlesFindTheirNode` | inc/base/artik_list.h:114-117 | in a list built with default handles, looking up a node's handle finds that node |
| `ArtikList.List.Add` | inc/base/artik_list.h:92-122 | appends one node with the given or the default handle and leaves what the others hold; a failed allocation changes nothing |
| `ArtikList.List.SetFields` | inc/base/artik_list.h:66-72 | a user setting clear, data and its own fields of a live node keeps the list linked, as a step of the run model |
| `ArtikList.List.Size` | inc/base/artik_list.h:161-171 | the number of nodes, modulo 2^32 |
| `ArtikList.List.DeleteNode` | inc/base/artik_list.h:181-209 | in memory: the node at the address goes and every other keeps its fields; E_BAD_ARGS with nothing changed exactly if no live node has the address |
| `ArtikList.List.DeleteHandle` | inc/base/artik_list.h:219-247 | in memory: the first node whose handle is the one given goes and every other keeps its fields; E_BAD_ARGS with nothing changed exactly if no live node has the handle, or it is null |
| `ArtikList.List.DeletePos` | inc/base/artik_list.h:257-285 | the node at the position goes, E_BAD_ARGS with nothing changed exactly if the position is not below the 32-bit size |
| `ArtikList.List.DeleteCheck` | inc/base/artik_list.h:298-327 | in memory: the first node that passes the check goes and every other keeps its fields; E_BAD_ARGS with nothing changed exactly if none passes |
| `ArtikList.List.DeleteAll` | inc/base/artik_list.h:336-356 | releases every node in order and leaves the empty list; E_BAD_ARGS exactly if it was empty |
| `ArtikList.List.GetByHandle` | inc/base/artik_list.h:367-380 | in memory: the first node whose handle is the one given; null exactly if no live node has it, or it is null |
| `ArtikList.List.GetByPos` | inc/base/artik_list.h:391-404 | the node at the position, null exactly if that is not below the 32-bit size |
| `ArtikList.List.GetByCheck` | inc/base/artik_list.h:418-432 | in memory: the first node that passes the check, null exactly if none does |
| `ArtikList.List.End` | inc/base/artik_list.h:442-450 | the last node, or null for the empty list |
| `ModuleRegistry.StrnEqMeans` | src/modules/base/module/linux_module.c:96-97 | the string comparison finds no difference in the first n characters, terminators included |
| `ModuleRegistry.FoundByName` | src/modules/base/module/linux_module.c:94-103 | a node is taken for the module asked for exactly if its name begins with that module's name |
| `ModuleRegistry.EntryFound` | src/modules/base/module/linux_module.c:130-132 | the table lookup stops at the first entry that agrees in 32 characters |
| `ModuleRegistry.UnknownIsNull` | src/modules/base/module/linux_module.c:130-202 | a name outside the table is answered with null and changes nothing |
| `ModuleRegistry.NameTest` | src/modules/base/module/linux_module.c:94-103 | under a prefix-free table the name comparison accepts exactly the nodes of the module |
| `ModuleRegistry.OpsTest` | src/modules/base/module/linux_module.c:105-114 | with distinct first words the operations comparison accepts exactly the nodes of the module |
| `ModuleRegistry.RequestRefines` | src/modules/base/module/linux_module.c:116-203 | a request is one step of the reference counters: same answer, a load only at zero, one node more |
| `ModuleRegistry.ReleaseRefines` | src/modules/base/module/linux_module.c:205-243 | a release is one step of the reference counters: same answer, an unload only at one, one node less, the name freed with the last node |
| `ModuleRegistry.RegistryCountsReferences` | src/modules/base/module/linux_module.c:116-243 | over every run the registry answers, loads and unloads as the counters do, holds as many nodes as the counts, and no node refers to a freed name |
| `ModuleRegistry.NodesAreRequestsLessReleases` | src/modules/base/module/linux_module.c:116-243 | over every run a module's nodes are its requests less its successful releases, and its own loads outnumber its unloads by one exactly while it has a node |
| `ModuleRegistry.LibraryIsOpenWhileHeld` | src/modules/base/module/linux_module.c:116-243 | over every run a library, by its handle, is open as often as it has modules with a node, so it is loaded exactly while one of the modules that share it has one |
| `ModuleRegistry.NodesStayUsable` | src/modules/base/module/linux_module.c:116-243 | over every run and for every table, no node refers to a freed name or to a library that was unloaded |
| `ModuleRegistry.PrefixClash` | src/modules/base/module/linux_module.c:94-103 | while a longer name is held, a request for its beginning is answered with the longer one's operations |
| `ModuleRegistry.ConformsIffPrefixFree` | src/modules/base/module/linux_module.c:94-203 | every answer of every run is the counters' if and only if no name in the table begins another |
| `ModuleRegistry.WordClash` | src/modules/base/module/linux_module.c:105-243 | two modules with the same first word, requested and released once each: the registry is empty but the first one's library stays open and its name is lost |
| `ModuleRegistry.NothingIsLostIff` | src/modules/base/module/linux_module.c:105-243 | under a prefix-free table the invariant, lost names included, holds on every run if and only if no two modules begin with the same word |
| `ModuleRegistry.RefinesIffWellFormed` | src/modules/base/module/linux_module.c:94-243 | every run stands for the reference counters if and only if no name begins another and no two modules begin with the same word |
| `ModuleManager.Manager.FindModule` | src/modules/base/module/linux_module.c:130-132 | the scan finds the first table entry that agrees in the compared characters |
| `ModuleManager.Manager.Request` | src/modules/base/module/linux_module.c:116-203 | on every table, the code on the list, the names and the loader makes the registry's request step and keeps names live; with a well-formed table it keeps the whole invariant |
| `ModuleManager.Manager.Release` | src/modules/base/module/linux_module.c:205-243 | on every table, the code makes the registry's release step and frees only a live name that no node uses |
| `ModuleManager.LinuxTableIsPrefixFree` | inc/base/platform/artik_generic_platform.h:30-52 | no shipped module name begins another |
| `DeviceInfo.EntryShape` | src/modules/base/module/linux_module.c:386-391 | what the bounded print leaves of an entry, by the length of the name |
| `DeviceInfo.Describe` | src/modules/base/module/linux_module.c:323-404 | for all names no write leaves the buffer of 46 characters and 17 more per module, and it ends up holding the document |
| `DeviceInfo.PatchComma` | src/modules/base/module/linux_module.c:396-398 | the last but one character becomes a line end and the last one is dropped |
| `DeviceInfo.DescriptionReadsBack` | src/modules/base/module/linux_module.c:323-404 | read as JSON, the document is the platform name and the same module names in order if and only if there is a name and all fit; otherwise it cannot be read |
| `DeviceInfo.DescriptionSays` | src/modules/base/module/linux_module.c:362-391 | for each platform the name that is read back, and the module names one by one |
| `Lwm2mShutdown.StepKeepsInv` | src/modules/lwm2m/tinyara_lwm2m.c:54-79 | every step of every thread keeps the protocol's invariant |
| `Lwm2mShutdown.EveryInterleavingIsSafe` | src/modules/lwm2m/tinyara_lwm2m.c:54-308 | over every interleaving and any number of clients the mutex has at most one owner, the client is stopped once, the error callback is called at most once, and a deleted node has no thread left on it; the test and the call of the error callback are separate steps |
| `Lwm2mShutdown.RunIsLater` | src/modules/lwm2m/tinyara_lwm2m.c:60-75 | quit never goes back, counts never fall, a deleted node never changes |
| `Lwm2mShutdown.CallbacksFollowCalls` | src/modules/lwm2m/tinyara_lwm2m.c:382-454 | over every run a callback pointer is in place exactly if it was last set |
| `Lwm2mShutdown.HandlersFollowCalls` | src/modules/lwm2m/tinyara_lwm2m.c:396-452 | over every run a handler is registered with the stack, or about to be, exactly if the last set or unset of any event that goes with it was a set |
| `Lwm2mShutdown.ExecuteReachedIff` | src/modules/lwm2m/tinyara_lwm2m.c:396-452 | over every run the execute callback is reached through the stack if and only if the last set or unset of that event was a set, whatever was done to the other events |
| `Lwm2mShutdown.ChangedReachedIff` | src/modules/lwm2m/tinyara_lwm2m.c:396-452 | over every run the resource-changed callback is reached if and only if its own last set or unset was a set, and so was the last one of it or of the error event |
| `Lwm2mShutdown.ExecuteLeavesChanged` | src/modules/lwm2m/tinyara_lwm2m.c:396-443 | a completed set or unset of the execute callback leaves the resource-changed one as it was |
| `Lwm2mShutdown.ErrorUnsetSilencesChanged` | src/modules/lwm2m/tinyara_lwm2m.c:425-452 | unsetting the error callback leaves the resource-changed callback in place and unregisters the handler in front of it |
| `Lwm2mShutdown.NeverStuck` | src/modules/lwm2m/tinyara_lwm2m.c:291-454 | in every reachable state the application thread can step, or the service thread it waits for can |
| `Lwm2mShutdown.LockIsFreedSoon` | src/modules/lwm2m/tinyara_lwm2m.c:71-73 | a taken mutex that the application waits for is free after two service steps |
| `Lwm2mShutdown.FinishingStep` | src/modules/lwm2m/tinyara_lwm2m.c:301-305 | after quit is set, every step of the two threads concerned lowers the measure, others leave it alone, and only the last one ends the disconnect |
| `Lwm2mShutdown.DisconnectReturns` | src/modules/lwm2m/tinyara_lwm2m.c:291-308 | after at most twelve steps of its own threads, whatever others do in between, disconnect has returned, the client was stopped once and its node is deleted |
| `Lwm2mShutdown.WriteReachesStopped` | src/modules/lwm2m/tinyara_lwm2m.c:54-79 | from every state with an idle application thread, every listed client can be stopped after a failed service call and then be handed to the stack by a write |
| `Lwm2mShutdown.StoppedIsReachable` | src/modules/lwm2m/tinyara_lwm2m.c:310-337 | a run from the start in which a write uses a stopped client |
| `Lwm2mShutdown.StopOvertakesIff` | src/modules/lwm2m/tinyara_lwm2m.c:310-380 | the stop can overtake a call that is inside if and only if quit is set |
| `Lwm2mShutdown.StoppedOnlyAfterFailure` | src/modules/lwm2m/tinyara_lwm2m.c:60-75 | over every run, a listed client that no disconnect has told to quit is on its way to being stopped if and only if one of its service calls failed; without a failure no call reaches a stopped client |
| `Lwm2mShutdown.WriteOverlapsService` | src/modules/lwm2m/tinyara_lwm2m.c:60-61 | a run in which a write, holding the mutex, and the service call are in the stack at once on one client |
| `Lwm2mShutdown.ServiceOverlapsIff` | src/modules/lwm2m/tinyara_lwm2m.c:60-73 | the service call can overlap a call that is inside if and only if no service call has failed and quit is not set |
| `Lwm2mShutdown.NullCallIff` | src/modules/lwm2m/tinyara_lwm2m.c:63-70 | over every run the service thread calls through a null pointer if and only if the error callback was unset between its test and its call and not set again |
| `Lwm2mShutdown.NullCallIsReachable` | src/modules/lwm2m/tinyara_lwm2m.c:63-70 | it can happen to every client with an error callback whose service calls have not failed |
| `Lwm2mShutdown.NullCallFromStart` | src/modules/lwm2m/tinyara_lwm2m.c:63-70 | a run from the start in which it happens |
| `Lwm2mShutdown.TestedIff` | src/modules/lwm2m/tinyara_lwm2m.c:63 | after a failed service call the thread goes on to call the error callback exactly if that was last set when it tests |
| `Lwm2mShutdown.ReportedIff` | src/modules/lwm2m/tinyara_lwm2m.c:63-70 | over every run the error callback is called, and then once, if and only if the thread comes to its call while it was last set |
| `ObjectTree.GetObjectPath` | src/modules/bluetooth/linux/core.c:499-536 | the path of the first object that carries the device with this address, or none |
| `ObjectTree.FindDeviceIface` | src/modules/bluetooth/linux/core.c:519-531 | whether an object carries the device |
| `ObjectTree.DeviceAddress` | src/modules/bluetooth/linux/core.c:393-416 | the loop computes the address of the device |
| `ObjectTree.AddressIsLast` | src/modules/bluetooth/linux/core.c:393-416 | the address is the value of the last "Address" property, and there is none exactly if no property has that key |
| `ObjectTree.SameNoCaseMeans` | src/modules/bluetooth/linux/core.c:521-527 | the comparison without case: same length, and each pair of characters equal or the two cases of one letter |
| `ObjectTree.DeviceMatches` | src/modules/bluetooth/linux/core.c:519-531 | an object carries the device exactly if one interface has the device interface's name and its last "Address" property is the address, both up to case |
| `ObjectTree.GattMatches` | src/modules/bluetooth/linux/core.c:629-670 | an object matches exactly if its path begins with the one given and one interface has the name, the UUID and, if asked for, the property with its value |
| `ObjectTree.ScanProps` | src/modules/bluetooth/linux/core.c:643-670 | the flags with early exit decide whether the UUID and the property are both there |
| `ObjectTree.ScanIfaces` | src/modules/bluetooth/linux/core.c:632-672 | whether some interface of the object matches |
| `ObjectTree.GetGattPath` | src/modules/bluetooth/linux/core.c:606-678 | the three nested loops compute the declarative first match under the device's path |
| `ObjectTree.GattPathIsFirstMatch` | src/modules/bluetooth/linux/core.c:606-678 | a result is the first object with prefix, interface, UUID and property; there is none exactly when no device or no such object exists |
| `ObjectTree.GetGattUuidList` | src/modules/bluetooth/linux/core.c:680-720 | the UUIDs under a path in object, interface and property order |
| `ObjectTree.UuidListIsListing` | src/modules/bluetooth/linux/core.c:680-720 | the list holds the values at exactly the places whose path begins with the one given, whose interface has the name and whose key is "UUID", in ascending order |
| `DeviceList.GetDevices` | src/modules/bluetooth/linux/core.c:538-604 | for every snapshot and query: the array holds what is written from the third object on, up to the first write outside it, and there is one exactly if the wanted device interfaces outnumber the slots |
| `DeviceList.DeviceListIsFilter` | src/modules/bluetooth/linux/core.c:561-595 | the list holds the properties of exactly the device interfaces, in order, of the objects from the third on that are paired, that are connected, or all of them, as asked for |
| `DeviceList.OneItemEach` | src/modules/bluetooth/linux/core.c:557-595 | with one device interface per object that is one item per object, in object order, and the array suffices |
| `DeviceList.WrittenCounted` | src/modules/bluetooth/linux/core.c:561-592 | one item is written for every place, from the third object on, that holds a device interface of an object in the wanted state |
| `DeviceList.QueryFitsIff` | src/modules/bluetooth/linux/core.c:557-592 | one query stays inside the array if and only if those places are at most the objects less two |
| `DeviceList.SnapshotFitsIff` | src/modules/bluetooth/linux/core.c:557-592 | no query on a snapshot overruns the array if and only if all its device interfaces from the third object on are at most the objects less two |
| `DeviceList.TwoDeviceInterfaces` | src/modules/bluetooth/linux/core.c:561-592 | two device interfaces on the third of three objects are one too many; a fourth object without any makes room again |
| `DeviceList.NothingMissingIff` | src/modules/bluetooth/linux/core.c:557-561 | no wanted device is missing from what is written if and only if neither of the first two objects is a wanted device |
| `Gatt.GetServiceList` | src/modules/bluetooth/linux/gatt.c:30-45 | the services under the device, or an error exactly if there is no device |
| `Gatt.GetCharacteristicList` | src/modules/bluetooth/linux/gatt.c:47-65 | the characteristics under the first matching service, or an error |
| `Gatt.GetDescriptorList` | src/modules/bluetooth/linux/gatt.c:67-87 | the descriptors under the chosen characteristic, or an error |
| `Gatt.PrefixMeans` | src/modules/bluetooth/linux/core.c:629-700 | comparing paths as strings holds exactly for equal leading components with the last one possibly cut short |
| `Gatt.CharacteristicIsChosen` | src/modules/bluetooth/linux/gatt.c:75-81 | the chosen characteristic is the first under the device whose service property is the first matching service |
| `Gatt.ListingBelongsIff` | src/modules/bluetooth/linux/core.c:680-720 | under any object and for any interface, the listing is exactly the UUIDs at or below that object if and only if no stray sibling carries the interface; equal component lengths suffice |
| `Gatt.ServicesBelongIff` | src/modules/bluetooth/linux/gatt.c:30-45 | from the address on, the service listing is the services at or below the device if and only if no stray sibling of it carries one |
| `Gatt.CharacteristicsBelongIff` | src/modules/bluetooth/linux/gatt.c:47-65 | from the address and the UUID on, the characteristic listing is the characteristics at or below the first matching service if and only if no stray sibling of it carries one |
| `Gatt.DescriptorsBelongIff` | src/modules/bluetooth/linux/gatt.c:67-87 | from the address and the UUIDs on, the listing is the chosen characteristic's descriptors in object order if and only if no stray sibling of it carries one, and so in every tree with equal sibling lengths |
| `Gatt.StraySiblingIsListed` | src/modules/bluetooth/linux/gatt.c:67-87 | on a device with one service and the characteristics char1 and char10, the whole call settles on char1, which has no descriptor, and lists that of char10 |
| `ObexTransfer.EventsAreForLatest` | src/modules/bluetooth/linux/core.c:293-309 | over every run of signals each event is for the most recently added transfer |
| `ObexTransfer.NoEventAfterEnd` | src/modules/bluetooth/linux/core.c:303-308 | after completion, failure or removal no event comes until another transfer is added |
| `ObexTransfer.TrackedIff` | src/modules/bluetooth/linux/core.c:293-309 | over every run a path is tracked if and only if its transfer is the latest one added and has not ended |
| `ObexTransfer.DeliversIff` | src/modules/bluetooth/linux/core.c:293-309 | a signal makes an event if and only if it changes the transfer most recently added and that one has not ended |
| `ObexTransfer.ChangeIsDeliveredIff` | src/modules/bluetooth/linux/core.c:850-889 | a change of the latest transfer, whose own end has not come, is delivered if and only if no other transfer was removed since it was added |
| `ObexTransfer.DeliversBySignals` | src/modules/bluetooth/linux/core.c:293-309 | for a transfer that a signal added, delivery is decided by the signals alone: a change of it makes an event if and only if since then no transfer was removed and no change left its last told status complete or error |
| `ObexTransfer.LiveByWhatWasTold` | src/modules/bluetooth/linux/core.c:293-309 | the same for every transfer, over what the record held when it was added |
| `ObexTransfer.OtherRemovalEndsTracking` | src/modules/bluetooth/linux/core.c:850-889 | the removal of one transfer ends the tracking of another, whose next change is not delivered |
| `ObexTransfer.RecordIsWhatWasHeard` | src/modules/bluetooth/linux/core.c:293-309 | over every run the record is what was said since it was last blank: by the signal that added a transfer, by replies to file requests and by delivered changes |
| `ObexTransfer.RecordIsWhatWasToldIff` | src/modules/bluetooth/linux/core.c:821-845 | over every run a tracked transfer's record is what was said about it since it was added if and only if that names every field the record still had set then |
| `ObexTransfer.ReplyDecides` | src/modules/bluetooth/linux/ftp.c:413-424 | a transfer started by a file request has a right record for as long as it is tracked if and only if the reply names every field that the old record had set |
| `ObexTransfer.AddedIsAlwaysRight` | src/modules/bluetooth/linux/core.c:821-845 | a transfer that a signal added always has a right record |
| `ObexTransfer.OldStatusIsReported` | src/modules/bluetooth/linux/ftp.c:413-424 | after a completed transfer, one started by a file request is reported complete at its first change and dropped |
| `ObexTransfer.EventSaysWhatWasToldIff` | src/modules/bluetooth/linux/core.c:293-309 | every event carries exactly what was said about its transfer if and only if that names every field the record still had set when the transfer was added |
| `ObexTransfer.FieldIsLastValue` | src/modules/bluetooth/linux/core.c:1004-1039 | each field holds the last value given for its key |
| `ObexTransfer.FieldIsKept` | src/modules/bluetooth/linux/core.c:1004-1039 | a field that no property names keeps its value |
| `ObexTransfer.SessionIsLatest` | src/modules/bluetooth/linux/core.c:817-858 | over every run the session path is the path of the last signal that added a session if no session was removed since, and empty otherwise |
| `ObexTransfer.Tracker.FillTransfer` | src/modules/bluetooth/linux/core.c:1004-1039 | the loop overwrites the fields named by the properties and no others |
| `ObexTransfer.Tracker.OnInterfacesAdded` | src/modules/bluetooth/linux/core.c:786-848 | the handler makes the model's step |
| `ObexTransfer.Tracker.OnInterfacesRemoved` | src/modules/bluetooth/linux/core.c:850-889 | the handler makes the model's step |
| `ObexTransfer.Tracker.OnPropertiesChanged` | src/modules/bluetooth/linux/core.c:891-933 | the handler makes the model's step |
| `ObexTransfer.Tracker.StartTransfer` | src/modules/bluetooth/linux/ftp.c:413-499 | E_NOT_INITIALIZED without a session, E_BUSY during a cancellation or while a transfer is tracked, otherwise the reply is recorded |
| `CompareDates.CompareIsTotalOrder` | src/modules/base/time/artik_time.c:123-164 | the comparison is a total order on dates and ignores the day of the week |
| `CompareDates.CompareIsLexicographic` | src/modules/base/time/artik_time.c:123-164 | for all dates the first field that differs decides, from the year down to the millisecond; -2 exactly for a null argument |
| `CompareDates.CompareIsTimestampOrder` | src/modules/base/time/artik_time.c:123-164 | for valid dates from 1970 on it is the sign of the difference of the millisecond time stamps of section 4.16 of POSIX.1-2017 Base Definitions |

## Left out

- Firing of timers, periodics, watches and idle callbacks: they read the identifier from a record already cleared and freed, so C memory lifetime decides what happens.
- The idle registry: the stored entry never receives the identifier that the caller is given.
- A failing `realloc` in `_vector_grow`: the code stores the null pointer and writes through it.
- `artik_list_cpy`: the copied head keeps the source's next pointer and shares its tail.
- A null list pointer in the list operations: it is dereferenced before it is tested.
- Failed loads in the module registry: a blank node stays in the list and the next search reads its null name.
- A null module name, and the platform detection that selects the module table.
- LWM2M connect failures, TLV serialisation and object constructors: they depend on a stack that is not part of this model, or only copy fields.
- Several application threads on one LWM2M client: the node list is not protected against them.
- A device interface without an address: the code compares a null pointer; the model treats it as no match.
- Cancelling, suspending and resuming of file transfers: whether a cancellation is under way is a parameter of a file request.
- The fixed-size session path of the OBEX tracker: its length is not checked by the code.
- Property values of other types than the code asks for, and a failed GetManagedObjects call in `_get_devices`, which returns its error code.
- Time zones, alarms and NTP, media, MQTT, Wi-Fi, ZigBee, audio profiles, agents and adapters, the C++ wrappers and the glib event loop: calls into other libraries.
- Sensor and platform tables, error strings and class-of-device decoding: look-ups without state.
- The test and the call of the resource callbacks inside the LWM2M stack: the same unlocked pattern as that of the error callback, which is the one modelled.
- The first words of the shipped modules' operations: they are in the libraries and not in the module table.
