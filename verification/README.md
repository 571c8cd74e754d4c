# Verified model of the xenvm graphics allocator and health daemon

Two parts of this device repository contain real protocol code, and this project models
both in Dafny and proves properties of them.

**The graphics buffer allocator** (`hals/allocator`). A request asks for `count` buffers.
`Gralloc1Hal` creates and configures a device descriptor, allocates in a loop that reconciles
strides, destroys the descriptor and rolls back on any failure; `Gralloc0Hal` does the same
without a descriptor; `Allocator` hands the handles to the client and then frees the local
copies; `GrallocLoader` owns the device.

- `GrallocTypes.dfy` has the error codes, the `Log` of everything that happens at the device
  boundary, each event tagged with the device it happened on, and the `Oracle`: the answer to
  each call is an arbitrary function of the whole history, so a statement about every oracle is
  a statement about every possible set of devices.
- `UsageFlags.dfy` is the split of a usage into producer and consumer halves. Only bitwise
  operations occur, so a usage is the set of its bit positions, of any width.
- `GrallocBatch.dfy` is the transaction as a function from the log before a request to its
  outcome and the log after it. Its loop is stated with the declarative predicate `Acceptable`
  (no failure, and once a stride is nonzero every later one equals it), not with the
  accumulator of the code.
- `GrallocLedger.dfy` reads a log back independently: how often each handle of each device was
  obtained and given back, the life of each descriptor of each device, the open balance of each
  device, and which calls were safe.
- `GrallocOutcome`, `GrallocBuffers`, `GrallocSafety`, `GrallocDescriptors` and
  `GrallocSystem` prove the properties, first for one request and then for every run of
  loads, requests and destructions. `GrallocEvidence` reads from the log alone how each
  allocation and each setup came out, and proves that clients are told exactly that;
  `GrallocConfig` does the same for what the device is told about a buffer. `GrallocLocals` proves what the unset handle variable can do
  to a run. `GrallocWitnesses` has concrete devices that show why a condition is needed, and one
  that meets the hypothesis on fresh handles.
- `GrallocDevice`, `Gralloc1Hal`, `Gralloc0Hal` and `Allocator` are the imperative code:
  classes whose methods are proved to have exactly the effect of the transaction. The class
  `Hardware` is what lies behind the HAL modules. `AllocatorHal` stands for the virtual base
  class; `Allocator.Allocate` is proved against its contract only. `Host.Execute` carries out
  any sequence of loads, requests and destructions on these objects and is proved to be a run
  of the model, so that the run theorems speak about the classes. The dispatch table is the set
  of loaded entries, and each device call requires its entry to be in it.

**The health daemon** (`health`). `Uevent.dfy` is the scanner over the fixed message buffer,
against a split/take-while specification. `HealthLoop.dfy` has the wake-interval rules and the
main loop as functions; `HealthLoopProofs.dfy` proves what every run keeps, and
`HealthDaemon.dfy` is the imperative code. `Registry.dfy` is the callback registry: the class
with its in-place erase loops, its lock-granular steps, and what every history of steps implies.
`Registry.Health` holds the daemon, so that its `Update` really adjusts the intervals.

Findings that the proofs make precise:

- `toError` maps NOT_SHARED to NONE everywhere, not only for `allocate`. A NOT_SHARED answer
  to `getStride`, `createDescriptor` or a setter therefore yields a NONE that assigned nothing,
  after the resource was already given back. Over every run, buffers are given back exactly once
  if and only if no `getStride` was answered so (`ExactlyOnceIff`, `ConservationIff`), which is
  also exactly when no content of the unset handle variable can make the run name a buffer that
  is not live (`SafeIff`), and when every client is told the error, stride and handles that the
  device answers call for (`RunWarrantedIff`); and every allocate is made on a live descriptor configured as the
  request asked if and only if no request that allocated had a setup call answered so
  (`RunTypestate`). `StrideAnswerFolded` and `UnsetDescriptorUsed` are the failing inputs.
- When `createDescriptor` fails in the device, the destroy call is made on an unset variable.
  So descriptors are destroyed exactly as often as created if and only if every request had
  its creation answered Success and no setup call answered NOT_SHARED (`DestroyedOnceIff`).
  Between requests a descriptor is live only if the device has refused a destroy call on it since
  it was created (`NoDescriptorBetweenRequests`). Requests served one at a time are therefore not
  harmed: the stray destroy call can only end a descriptor that the device had refused to
  destroy (`FailedCreateHarmless`). Overlapping requests can be harmed
  (`OverlappingRequestsCollide`).
- The wake interval is recorded before `timerfd_settime` is called, so a failed setting is never
  retried while the charger stays on (`FailedSettingSticks`), and `wakealarm_init` arms the timer
  even when its fd could not be registered, so that its handler is never called. Since
  `Health::update` reports the charger online always, this service is covered by a registered
  alarm or by a poll if and only if the timer was created, registered and armed by initialisation
  (`ServiceCoveredIff`). A failed arming (`FailedSettingReached`) or a failed registration
  (`UnregisteredAlarmReached`) leaves it uncovered for ever: only uevents and requests then make
  it look at the battery after its first iteration (`UncoveredNeverLooks`). Coverage by poll is
  the weaker kind: the poll looks at the battery only when a wait passes without any event
  (`ChoresExactly`).
- The comment in `Health::update` says that updating notifies the listeners; the code does not
  do so. The model follows the code: notification is a separate step.
- A dead-object report removes only the entry it answers, so a callback registered twice is
  called again after its dead report without registering again (`DeadButCalled`). A dead report
  silences a callback in every continuation if and only if it was standing exactly once
  (`SilencedIff`).

`dafny verify dfyconfig.toml` checks the whole project.

## Model

| member | source | states |
|---|---|---|
| GrallocTypes.ToError | hals/allocator/Gralloc1Hal.h:195-214 | which device answers are reported as which error, each by an iff: NONE for success and for NOT_SHARED and for no other answer |
| GrallocTypes.ToUint32 | hals/allocator/Gralloc0Hal.h:133-140 | a stride that fits is kept and a negative one wraps around |
| UsageFlags.OtherBitsPreserved | hals/allocator/Gralloc1Hal.h:216-276 | outside the filtered masks both halves equal the usage (the consumer half less the sensor flag), for every usage |
| UsageFlags.SplitFields | hals/allocator/Gralloc1Hal.h:223-273 | each field of both halves in terms of the usage: CPU fields hold the code of that field, GPU goes to the consumer half only, write and sensor flags to the producer half only |
| UsageFlags.RecoverExactly | hals/allocator/Gralloc1Hal.h:216-276 | the reader that inverts the codes gets the usage back from the (producer, consumer) pair if and only if its CPU fields are never, rarely or often and its GPU field is all or nothing |
| UsageFlags.SplitInjective | hals/allocator/Gralloc1Hal.h:216-276 | two representable usages with the same two halves are equal |
| UsageFlags.LostIff | hals/allocator/Gralloc1Hal.h:216-276 | a usage shares its pair with another, representable one, so that no reader can tell them apart, if and only if it is not representable itself |
| GrallocBatch.Attempts | hals/allocator/Gralloc1Hal.h:102-119 | the loop makes at most `count` attempts, every proper prefix of them is acceptable, and it stops short only at an unacceptable one |
| GrallocOutcome.StrideStep | hals/allocator/Gralloc1Hal.h:112-118 | one more attempt is acceptable iff it succeeded and the last stride was 0 or equals the new one: a zero before a nonzero passes, a zero after one does not |
| GrallocOutcome.LoopStep | hals/allocator/Gralloc1Hal.h:102-119 | one round of the loop in terms of its variables: which rounds end the batch, and with which error |
| GrallocOutcome.AcceptableShape | hals/allocator/Gralloc1Hal.h:112-118 | acceptable strides are zeros followed by one repeated nonzero value |
| GrallocOutcome.AttemptsExactly | hals/allocator/Gralloc1Hal.h:102-119 | the attempts made are all offered outcomes if these are acceptable, else the shortest unacceptable prefix |
| GrallocOutcome.ExactOutcome | hals/allocator/Gralloc1Hal.h:97-131 | after successful preparation the result is NONE iff all offered outcomes are acceptable, with the last stride and all handles; otherwise the error is that of the first spoiling attempt, UNSUPPORTED for a stride break, and nothing is written |
| GrallocOutcome.HalsAgree | hals/allocator/Gralloc0Hal.h:74-115 | any two HALs whose devices give the same outcomes to the attempts both make return the same error, stride and handles and make the same attempts |
| GrallocOutcome.Gralloc0Demanding | hals/allocator/Gralloc0Hal.h:127-131 | gralloc0 refuses a layered or high-usage request with BAD_VALUE and no device call, and only when count is nonzero |
| GrallocEvidence.ReadPrepare | hals/allocator/Gralloc1Hal.h:278-311 | descriptor setup fails exactly with the error of its last answered call in the log, or UNSUPPORTED for want of layers when all were answered Success |
| GrallocEvidence.ReadAttempts | hals/allocator/Gralloc1Hal.h:313-332 | the attempts of a batch are, one by one, what the log says was obtained: a buffer with the stride its getStride answered, or the error of the refusing call |
| GrallocEvidence.FreedInOrder | hals/allocator/Gralloc1Hal.h:134-141 | the handles given back are those of the list, once each and in order, and nothing else is read differently |
| GrallocEvidence.ServeReply | hals/allocator/Allocator.cpp:32-49 | the client is told the error of the batch with its stride and handles on NONE and with stride 0 and no handles on an error, once; then exactly these handles are given back in order |
| GrallocEvidence.ServeWarrantedIff | hals/allocator/Allocator.cpp:32-49 | error, stride and handles told to the client are those that the inputs and the device answers in the log call for, if and only if no getStride of the request was answered NOT_SHARED |
| GrallocEvidence.RunWarrantedIff | hals/allocator/Allocator.cpp:32-49 | over any run every served request is told exactly that and every other operation tells nothing, if and only if no getStride was answered NOT_SHARED |
| GrallocEvidence.ServeFits | hals/allocator/AllocatorHal.h:36-50 | a request only makes calls of its own HAL version on its own device, gralloc0 allocates with the fields of the request, and every getStride follows the allocate of that buffer |
| GrallocBuffers.NoneMeansObtained | hals/allocator/Gralloc1Hal.h:313-332 | allocateOneBuffer reports NONE without assigning exactly when getStride answered NOT_SHARED, after releasing the buffer |
| GrallocBuffers.GotIsLive | hals/allocator/Gralloc1Hal.h:313-332 | an assigned buffer is live once more than before, for both HALs |
| GrallocBuffers.AttemptsBalance | hals/allocator/Gralloc1Hal.h:102-119 | across the loop, give-backs plus handles held equal handles obtained plus junk taken for a handle, per handle |
| GrallocBuffers.AllocateBuffersBalance | hals/allocator/Gralloc1Hal.h:84-132 | the same for a whole batch: on an error nothing is held any more |
| GrallocBuffers.ServeBalance | hals/allocator/Allocator.cpp:32-49 | the same for a whole request: nothing is held, for every device and handle |
| GrallocBuffers.ServeExactlyOnce | hals/allocator/Allocator.cpp:32-49 | a request gives back exactly what it obtained, per handle, if and only if no getStride it made was answered NOT_SHARED |
| GrallocBuffers.ServeConserves | hals/allocator/Allocator.cpp:32-49 | the live balance of each handle changes only by the releases the device refused |
| GrallocBuffers.ServeOutline | hals/allocator/Allocator.cpp:32-49 | seen without its device calls a request is exactly one reply: it opens and closes nothing |
| GrallocSafety.AllOrNothing | hals/allocator/Gralloc1Hal.h:97-131 | NONE gives exactly `count` handles, and the live copies of every handle grow by exactly those; an error writes nothing and has attempted to give back every buffer obtained exactly once |
| GrallocSafety.BatchDistinct | hals/allocator/Gralloc1Hal.h:97-131 | with a device that returns fresh handles those of a successful batch are live and pairwise distinct |
| GrallocSafety.ServeSafe | hals/allocator/Allocator.cpp:32-49 | every device call is made on the device of the HAL, open at that moment, every release and getStride on a buffer that this device handed out and has not taken back, and every handle is live on it when the client sees it |
| GrallocSafety.ServeNeverOverReleases | hals/allocator/Allocator.cpp:42-46 | after a request no handle was given back more often than obtained |
| GrallocSafety.ServeDistinct | hals/allocator/Allocator.cpp:32-49 | with a device that returns fresh handles the reply shows pairwise distinct handles |
| GrallocDescriptors.CreateAssigns | hals/allocator/Gralloc1Hal.h:278-311 | an assigned descriptor is live with exactly the settings of the request, and no other descriptor changed |
| GrallocConfig.ServeAsAskedIff | hals/allocator/Gralloc1Hal.h:278-302 | every allocation of a request finds a descriptor with exactly its width and height, its format, its layer count if the device has layers, and the producer and consumer halves of its usage, if and only if no setup call was answered NOT_SHARED or no allocation was made |
| GrallocConfig.RunAsAskedIff | hals/allocator/Gralloc1Hal.h:278-302 | the same for every device allocate of any run |
| GrallocConfig.AsAskedUnique | hals/allocator/Gralloc1Hal.h:278-302 | these conditions determine the configuration |
| GrallocConfig.DeviceReadsUsage | hals/allocator/Gralloc1Hal.h:297-302 | the two usages set on such a descriptor let the device read the requested usage back if and only if it is representable |
| GrallocConfig.RunUsageReadable | hals/allocator/Gralloc1Hal.h:297-302 | the same at every device allocate of a run |
| GrallocDescriptors.CreateAbandons | hals/allocator/Gralloc1Hal.h:304-310 | when nothing is assigned exactly one destroy call was made, on what the variable held, which is then not live or was refused; no other descriptor changed |
| GrallocDescriptors.NoneMeansAssigned | hals/allocator/Gralloc1Hal.h:304-310 | NONE assigns the descriptor exactly when no creation or setter answered NOT_SHARED; otherwise the last call destroyed it |
| GrallocDescriptors.ServeUses | hals/allocator/Gralloc1Hal.h:91-121 | the allocations of a request all find the same configuration: the full one without a folded setup call, otherwise that of a dead descriptor or of one whose destruction was refused |
| GrallocDescriptors.ServeTypestate | hals/allocator/Gralloc1Hal.h:91-121 | every allocate of a request is made on a live, fully configured descriptor that has not been through a destroy call, if and only if no setup call was answered NOT_SHARED or no allocation was made |
| GrallocDescriptors.ServeDestroysOnce | hals/allocator/Gralloc1Hal.h:91-121 | a request destroys exactly the descriptors it created, once each, if and only if creation succeeded and no setup call was answered NOT_SHARED |
| GrallocDescriptors.ServeExcess | hals/allocator/Gralloc1Hal.h:278-311 | how many destroy calls each request makes beyond its creations, and on which descriptor: one on the unset variable after a failed creation, one on the unassigned out-descriptor after a folded NONE, and no other |
| GrallocDescriptors.ServeLeavesNoDescriptor | hals/allocator/Gralloc1Hal.h:278-332 | if before a request every live descriptor has had a destroy call refused since it was created, so after it, whatever unset variables hold |
| GrallocSystem.ListedLayered | hals/allocator/Gralloc1Hal.h:144-158 | layered buffers are recognised exactly when the capability is among the values written and covered by both counts |
| GrallocSystem.LoadIff | hals/allocator/GrallocLoader.h:42-87 | from the raw version word, which HAL a load returns, exactly when it returns one, for which device and with which capabilities, and which calls it made |
| GrallocSystem.LoadOwnership | hals/allocator/GrallocLoader.h:42-93 | a load raises the open balance of a device by one iff it returns a HAL that owns it, and changes no other balance |
| GrallocSystem.LoadTouchesNothing | hals/allocator/GrallocLoader.h:42-93 | a load changes no tally of a buffer and no descriptor |
| GrallocSystem.OpensMatched | hals/allocator/GrallocLoader.h:42-93 | in every run and for every device, successful opens minus closes is the number of allocators alive that own it |
| GrallocSystem.AllClosed | hals/allocator/Allocator.h:59-60 | destroying the allocators that any run leaves alive closes every device as often as it was opened |
| GrallocSystem.ExactlyOnceIff | hals/allocator/Gralloc1Hal.h:313-332 | over any run every buffer obtained was given back exactly once and nothing else was, if and only if no getStride was answered NOT_SHARED |
| GrallocSystem.ConservationIff | hals/allocator/Allocator.cpp:32-49 | over any run the live buffers are exactly those whose release or free was refused, if and only if no getStride was answered NOT_SHARED |
| GrallocSystem.RunsAreSafe | hals/allocator/Allocator.cpp:32-49 | over any run without a getStride answered NOT_SHARED every call was safe: on a device open at that moment, on buffers live on that device, with live handles shown to clients, pairwise distinct ones if the device returns fresh handles |
| GrallocLocals.SafeIff | hals/allocator/Gralloc1Hal.h:102-131 | a run is safe for every content of the unset handle variables if and only if no getStride was answered NOT_SHARED |
| GrallocLocals.SameRun | hals/allocator/Gralloc1Hal.h:102-131 | a run without such an answer does not depend on these variables at all |
| GrallocLocals.FoldedUnsafe | hals/allocator/Gralloc1Hal.h:102-131 | a request with such an answer replies with, or gives back, any handle that the variable holds and the device has not returned |
| GrallocSystem.NoDescriptorBetweenRequests | hals/allocator/Gralloc1Hal.h:278-332 | over any run a descriptor is live between requests only if the device refused a destroy call on it since it was created |
| GrallocSystem.FailedCreateHarmless | hals/allocator/Gralloc1Hal.h:280-308 | after any run, the destroy call of a failed creation changes nothing but a descriptor whose destruction the device had already refused |
| GrallocSystem.RunTypestate | hals/allocator/Gralloc1Hal.h:91-121 | over any run, each device allocate used a live descriptor configured exactly as the request being served asked, if and only if no request that allocated had a setup call answered NOT_SHARED |
| GrallocSystem.DestroyedOnceIff | hals/allocator/Gralloc1Hal.h:278-311 | over any run every descriptor was destroyed exactly as often as created, if and only if every gralloc1 request had its creation answered Success and no setup call answered NOT_SHARED |
| GrallocWitnesses.StrideAnswerFolded | hals/allocator/Gralloc1Hal.h:321-326 | a concrete device for which the client gets NONE and a handle that was never handed out |
| GrallocWitnesses.FormatAnswerFolded | hals/allocator/Gralloc1Hal.h:287-310 | a concrete device for which createDescriptor reports NONE after destroying the descriptor |
| GrallocWitnesses.UnsetDescriptorUsed | hals/allocator/Gralloc1Hal.h:91-121 | the request to that device goes on and allocates on a descriptor that was never created |
| GrallocWitnesses.OverlappingRequestsCollide | hals/allocator/Gralloc1Hal.h:278-310 | a concrete device on which a creation failing during another request destroys the descriptor of that request, which then allocates on it |
| GrallocWitnesses.FreshExists | hals/allocator/Gralloc1Hal.h:313-326 | a concrete device that never returns a handle that is still live |
| Gralloc1HalImpl.Gralloc1Hal.InitCapabilities | hals/allocator/Gralloc1Hal.h:144-158 | layeredBuffers is set iff the capability is in the resized list |
| Gralloc1HalImpl.Gralloc1Hal.LoadFunction | hals/allocator/Gralloc1Hal.h:160-170 | the entry is loaded iff the device offers the function |
| Gralloc1HalImpl.Gralloc1Hal.InitDispatch | hals/allocator/Gralloc1Hal.h:172-193 | true iff all needed functions are offered, and then all of them are loaded, the layer-count entry only when layered |
| Gralloc1HalImpl.Gralloc1Hal.InitWithModule | hals/allocator/Gralloc1Hal.h:54-70 | the exact opens and closes; on success the HAL is ready, on failure it owns no device |
| Gralloc1HalImpl.Gralloc1Hal.Dispose | hals/allocator/Gralloc1Hal.h:48-52 | closes the device exactly if one is owned |
| Gralloc1HalImpl.Gralloc1Hal.CreateDescriptor | hals/allocator/Gralloc1Hal.h:278-311 | the sequence of ifs is the fold over the request's settings, with the same calls, error and out-value |
| Gralloc1HalImpl.Gralloc1Hal.AllocateOneBuffer | hals/allocator/Gralloc1Hal.h:313-332 | the calls, error and out-values of one attempt |
| Gralloc1HalImpl.Gralloc1Hal.FreeBuffers | hals/allocator/Gralloc1Hal.h:134-141 | releases every buffer once, in order, whatever the device answers |
| Gralloc1HalImpl.Gralloc1Hal.AllocateBuffers | hals/allocator/Gralloc1Hal.h:84-132 | the accumulator loop with its early exits has exactly the effect of the transaction over acceptable attempts |
| Gralloc1HalImpl.Gralloc1Hal.AllocateNext | hals/allocator/Gralloc1Hal.h:102-119 | one round of the loop: the next attempt, with the accumulator test giving the declarative verdict |
| Gralloc0HalImpl.Gralloc0Hal.InitWithModule | hals/allocator/Gralloc0Hal.h:53-62 | owns the device iff it could be opened |
| Gralloc0HalImpl.Gralloc0Hal.Dispose | hals/allocator/Gralloc0Hal.h:47-51 | closes the device exactly if one is owned |
| Gralloc0HalImpl.Gralloc0Hal.AllocateOneBuffer | hals/allocator/Gralloc0Hal.h:127-147 | the call, error and out-values of one attempt, with the signed stride converted to 32 bits |
| Gralloc0HalImpl.Gralloc0Hal.FreeBuffers | hals/allocator/Gralloc0Hal.h:117-124 | frees every buffer once, in order, whatever the device answers |
| Gralloc0HalImpl.Gralloc0Hal.AllocateBuffers | hals/allocator/Gralloc0Hal.h:74-115 | the same transaction as the other HAL, with direct attempts |
| AllocatorImpl.AllocatorHal.AllocateBuffers | hals/allocator/AllocatorHal.h:43-46 | the one contract that both HALs meet |
| AllocatorImpl.AllocatorHal.FreeBuffers | hals/allocator/AllocatorHal.h:48-49 | the one contract that both HALs meet |
| AllocatorImpl.AllocatorHal.Dispose | hals/allocator/AllocatorHal.h:38 | destroying either HAL closes the device it owns |
| AllocatorImpl.Allocator.Allocate | hals/allocator/Allocator.cpp:32-49 | replies once, then frees the local handles, over any HAL |
| AllocatorImpl.Allocator.Dispose | hals/allocator/Allocator.h:59-60 | destroying the allocator closes the device of its HAL |
| AllocatorImpl.CreateHal | hals/allocator/GrallocLoader.h:72-87 | which versions give which HAL, and that a failed initialisation leaves the device closed |
| AllocatorImpl.LoadAllocator | hals/allocator/GrallocLoader.h:42-52 | returns an allocator owning a ready HAL iff the load succeeds, null otherwise |
| AllocatorImpl.Host.LoadOne | hals/allocator/GrallocLoader.h:42-52 | a load on the objects is the load step of the model |
| AllocatorImpl.Host.ServeOne | hals/allocator/Allocator.cpp:32-49 | a request to the object is the request step of the model, and leaves the other allocators as they were |
| AllocatorImpl.Host.DestroyOne | hals/allocator/Allocator.h:59-60 | destroying the object is the destruction step of the model, and leaves the other allocators as they were |
| AllocatorImpl.Host.Execute | hals/allocator/GrallocLoader.h:42-52 | any sequence of loads, requests and destructions on the objects ends in the log and the HALs of the run of the model |
| Uevent.SplitJoin | health/healthd_common.cpp:165-174 | the segments of the specification are NUL-free and join back to the message |
| Uevent.ScanOfMessage | health/healthd_common.cpp:161-174 | with the two sentinels the scan finds the target iff it is among the segments before the first empty one, and it stops at the second sentinel iff all segments are nonempty and different from the target |
| Uevent.StringEquals | health/healthd_common.cpp:166 | the comparison loop is true iff the NUL-terminated string at the position is the target |
| Uevent.AdvancePastNul | health/healthd_common.cpp:171-173 | the inner loop ends one position after the next NUL |
| Uevent.CheckSegment | health/healthd_common.cpp:166-173 | one round of the outer loop stays inside the message and keeps what is left to find |
| Uevent.ScanSegments | health/healthd_common.cpp:165-174 | the nested loops update at most once and stop where the specification says |
| Uevent.ScanMessage | health/healthd_common.cpp:161-174 | one update iff the received bytes contain the target before any empty segment, reading no index beyond n + 1 |
| Uevent.UeventEvent | health/healthd_common.cpp:151-175 | one update iff 0 < n < 2048 and the bytes trigger; errors, empty messages and overflows never update |
| Uevent.EncodeRoundTrip | health/healthd_common.cpp:165-174 | a list of nonempty NUL-free strings, encoded with or without the last terminator, is read back |
| Uevent.EncodedTriggers | health/healthd_common.cpp:165-174 | the scan of an encoded list triggers iff the list contains the target |
| Uevent.SecondSentinelNeeded | health/healthd_common.cpp:161-163 | without the target in it, a list makes the scan rely on the second sentinel iff it is nonempty and unterminated |
| HealthLoopProofs.InitCounts | health/healthd_common.cpp:243-255 | after initialisation eventct is the number of fds registered, whatever failed |
| HealthLoopProofs.RunsUntilBroken | health/healthd_common.cpp:214-241 | the loop has left if and only if some wait failed with something other than EINTR, and iterates once for each round up to and including the first such wait |
| HealthLoopProofs.RunPerforms | health/healthd_common.cpp:214-241 | the daemon after a run is the one before it with exactly the updates of the due chores and of the invoked handlers made, in order |
| HealthLoopProofs.ChoresExactly | health/healthd_common.cpp:214-238 | the loop's chores run in the first iteration and after each wait that returned 0, and never otherwise |
| HealthLoopProofs.TimeoutFromStart | health/healthd_common.cpp:218-228 | each epoll timeout comes from the poll interval the iteration started with, so a change acts one iteration later |
| HealthLoopProofs.TimeoutIsEarliest | health/healthd_common.cpp:226-227 | that timeout is the earlier of the poll interval and a positive answer of preparetowait, or that answer when there is no poll interval |
| HealthLoopProofs.DispatchesRegistered | health/healthd_common.cpp:217-237 | of the events reported exactly those with a handler are invoked, in order, and they fit the array sized by the registrations |
| HealthLoopProofs.DispatchesInitialised | health/healthd_common.cpp:217-255 | from initialisation on, in every run, the handlers invoked are those of all events reported, in order, and each is one whose fd was opened and accepted |
| HealthLoopProofs.InvokedInOrder | health/healthd_common.cpp:235-237 | null pointers are skipped and all other handlers called, piece by piece in the order reported |
| HealthLoopProofs.RunCovers | health/healthd_common.cpp:102-140 | in every reachable state, for any charger inputs, the registered timer is armed at the fast rate or the poll interval is fast*1000, if the timer was created, registered and armed and accepts later settings |
| HealthLoopProofs.RunCoversIff | health/healthd_common.cpp:102-212 | with timers that accept later settings all runs stay covered if and only if the timer was created, registered and armed by initialisation |
| HealthLoopProofs.LastUpdateDecides | health/healthd_common.cpp:102-140 | with working timers the last update alone decides wake interval, armed interval and poll interval: fast and no poll online, slow and a fast poll otherwise |
| HealthLoopProofs.RunDecided | health/healthd_common.cpp:102-140 | so does the last update performed in any run |
| HealthLoopProofs.UpdateCoversIff | health/healthd_common.cpp:120-140 | exactly when an update leaves the daemon covered if timer settings may fail: it polls, or its registered alarm runs fast already or is newly set to it |
| HealthLoopProofs.FailedSettingSticks | health/healthd_common.cpp:102-127 | a failed return to the fast interval is never repaired while the charger stays on |
| HealthLoopProofs.FailedReturnReached | health/healthd_common.cpp:102-140 | the interval rules reach such a state from an armed timer when the charger goes off and on with a failing setting |
| HealthLoopProofs.FailedSettingReached | health/healthd_common.cpp:201-212 | when arming fails during initialisation, no run of this service ever arms the timer or polls instead |
| HealthLoopProofs.ServiceNeverMoves | health/Health.cpp:125-140 | no run of this service, whatever the kernel and the battery events are, changes the state initialisation left |
| HealthLoopProofs.ServiceCoveredIff | health/Health.cpp:125-140 | at every point of every run this service is covered by a registered alarm or a poll if and only if the timer was created, registered and armed by initialisation |
| HealthLoopProofs.UncoveredNeverLooks | health/healthd_common.cpp:201-241 | when it is not, with a kernel that reports only registered handlers and no disarmed timer, no run invokes the alarm handler, every wait is infinite, and the chores run once if no infinite wait returns 0 |
| HealthLoopProofs.UnregisteredAlarmReached | health/healthd_common.cpp:208-211 | when only the registration of the timer fd fails the timer is armed at the fast rate for ever and the service is not covered |
| HealthLoopProofs.ServiceWaitsForever | health/HealthServiceCommon.cpp:64-66 | every epoll timeout of this service is -1, and its chores run once if an infinite wait never returns 0 |
| HealthDaemonImpl.HealthDaemon.RegisterEvent | health/healthd_common.cpp:85-100 | the fd is registered and counted iff epoll_ctl succeeds |
| HealthDaemonImpl.HealthDaemon.WakealarmSetInterval | health/healthd_common.cpp:102-118 | records the interval before setting the timer, and does nothing without a timer fd |
| HealthDaemonImpl.HealthDaemon.BatteryUpdateInternal | health/healthd_common.cpp:120-140 | the new alarm and poll intervals |
| HealthDaemonImpl.HealthDaemon.InitWakealarm | health/healthd_common.cpp:201-212 | the state after the timer was created, registered and armed, or not |
| HealthDaemonImpl.HealthDaemon.InitUevent | health/healthd_common.cpp:177-188 | the uevent handler is registered only when the socket opened |
| HealthDaemonImpl.HealthDaemon.InitMode | health/HealthServiceCommon.cpp:50-55 | the binder handler is registered only when polling was set up |
| HealthDaemonImpl.HealthDaemon.HealthdInit | health/healthd_common.cpp:243-255 | the whole initialisation, or nothing when epoll_create fails |
| HealthDaemonImpl.HealthDaemon.DispatchEvents | health/healthd_common.cpp:235-237 | calls the non-null handlers of the reported events in order |
| HealthDaemonImpl.HealthDaemon.MainLoop | health/healthd_common.cpp:214-241 | the loop over any finite number of rounds is the run of the specification, and never indexes outside its event array |
| Registry.ErasedExactly | health/Health.cpp:70-77 | the erase loop removes all entries equal to the callback and none of the others |
| Registry.ErasedInOrder | health/Health.cpp:70-77 | the erase loop is an order-preserving filter |
| Registry.OrderKept | health/Health.cpp:44-84 | callbacks are held in the order of their registration, over any steps that follow |
| Registry.CalledInOrder | health/Health.cpp:181-189 | each notify step calls a callback that registered later after one that registered before and has not registered again |
| Registry.Health.Update | health/Health.cpp:125-140 | iff the mode operations are installed it succeeds, and adjusts the intervals of the daemon for a charger that is always online; otherwise the daemon is untouched |
| Registry.Health.RegisterCallback | health/Health.cpp:44-63 | appends a non-null callback even when the following update fails, and adjusts the intervals as update does; null is a no-op success |
| Registry.Health.UnregisterCallbackInternal | health/Health.cpp:65-80 | the in-place erase loop is the filter, and it reports whether an entry was present |
| Registry.Health.UnregisterCallback | health/Health.cpp:82-84 | SUCCESS iff an entry was present, NOT_FOUND otherwise |
| Registry.Health.ServiceDied | health/Health.cpp:283-285 | a death removes all entries of the object, or changes nothing if the reference no longer promotes |
| Registry.Health.NotifyListeners | health/Health.cpp:181-189 | calls every entry held at its start once, in order, and keeps exactly those not reported dead |
| Registry.RegistryAccounts | health/Health.cpp:44-84 | in every run a callback is held exactly as often as registrations since its last removal less dead reports since then |
| Registry.RunServesStanding | health/Health.cpp:181-189 | in every run only callbacks standing at that moment are called |
| Registry.NotifyDeliversStanding | health/Health.cpp:181-189 | a notify step delivers to each callback exactly as often as it is standing |
| Registry.DeliveryNeedsRegistration | health/Health.cpp:65-84 | between a removal of a callback and a later delivery to it there is a registration |
| Registry.GoneIffAllDead | health/Health.cpp:183-188 | after a notify step a callback is gone iff every one of its calls was answered dead |
| Registry.DeadOnceNeedsRegistration | health/Health.cpp:183-188 | in every run, between the dead report of a callback standing once and a later delivery to it there is a registration |
| Registry.SilencedIff | health/Health.cpp:181-189 | a dead report silences its callback until it registers again, whatever steps follow, if and only if the callback was standing exactly once when it was called |
| Registry.DeadButCalled | health/Health.cpp:181-189 | a callback registered twice that answers every call dead is called again right after its first dead report |

## Left out

- Concurrency inside the allocator: requests are serialised in the model, although the service runs four threads (`hals/allocator/service.cpp:27`); `OverlappingRequestsCollide` shows one thing that serialisation excludes.
- Memory ordering and re-entrant callbacks in the health service: the registry is modelled at the granularity of its lock.
- The HIDL transport, handle cloning and service registration: the client callback is one `Reply` event in the log.
- Descriptor decoding (`grallocDecodeBufferDescriptor`) and the Android flag and error values: an arbitrary decode function, and flag values restricted only by the disjointness stated in `UsageFlags`; the Android headers are not part of this model.
- The values gralloc1 writes to out-variables are arbitrary, and so is the content of uninitialised locals; the undefined behaviour of reading them in C++ is not modelled beyond that.
- The position of a dispatch entry in its struct: the dispatch table is the set of entries that are loaded.
- HealthLoop.BatteryUpdate: intervals are unbounded integers; the multiplication by 1000 overflows a C int for a fast interval above 2147483 seconds, which is not modelled.
- HealthDaemonImpl.HealthDaemon.MainLoop: runs over a finite list of rounds, since the source loops forever; what the handlers do is reduced to the battery updates they perform.
- Death links (`linkToDeath`, `unlinkToDeath`): their results are ignored by the source, and deaths are steps of their own.
- `dumpDebugInfo`, `debug`, the constant battery getters, storage and disk statistics, and logging: plumbing without state.
- Makefiles, overlays, manifests, audio, media, init and fstab configuration, and the structures of `hals/hwc`: data without computation.
