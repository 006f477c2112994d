# A verified model of parts of the Zhaoxin DRM driver

The project models eight parts of the driver that carry state, loops or interleavings, and proves what
each of them keeps. `dafny verify dfyconfig.toml` checks the whole of it.

| files | part |
|---|---|
| `Common.dfy` | what the parts share |
| `PsrMachine.dfy`, `PsrRelease.dfy`, `PsrSleep.dfy`, `PsrController.dfy` | panel self refresh (PSR): the controller as a machine over its atomic steps, the release split in its two steps, when the panel sleeps and when PSR is given up, and the class the driver writes, which refines the machine and drives a hardware object |
| `ResidentList.dfy`, `ResidentState.dfy`, `ResidentFile.dfy` | the counted list of resident objects of an open file; the list with its four version-stamped snapshots as a machine over the calls; and the class the driver writes, which refines the machine and counts references |
| `FenceArray.dfy`, `FenceDriver.dfy`, `RecursiveMutex.dfy` | three small concurrent protocols, every atomic step interleaved with every other |
| `ModeMerge.dfy` | the merge of display modes and adapter modes |
| `Routing.dfy` | the mode-setting transaction on connector, encoder and crtc links |
| `PagesMemory.dfy`, `ScatterList.dfy` | the decomposition of an allocation into blocks, and the walks over the resulting scatter list |
| `IoMap.dfy`, `IoInsert.dfy`, `VmAccess.dfy` | eager and lazy mapping of device memory; debugger access across nodes |
| `MmioTable.dfy`, `MmioReach.dfy`, `Mmio.dfy`, `MmioRead.dfy` | register access through a file, over a table of segments and holes |
| `VideoSeq.dfy` | the allocator of video sequence indices |

Code that updates fields or arrays in place is modelled by classes and methods with loops; each method is
tied to functions on values, and the lemmas speak about these functions. What the hardware, the kernel, a
library or another thread decides (the outcome of a hardware call, a page request, a mode set, a callback)
is an arbitrary choice or a parameter.

## What the proofs show about the code

Besides the properties that hold, these are the places where an expected property holds only under a
condition. Each comes with the exact condition and, where it fails, with an input.

- A PSR acquire that waits walks the panel itself only when it raised a request. It returns with a lit panel
  if and only if it raised one or the panel was lit anyway, whoever holds the mutex meanwhile:
  `PsrMachine.WaitingAcquire`. A flip that waits while a cursor reference has raised a request not served yet
  returns in the dark: `PsrMachine.WaitingFlipReturnsDark`.
- PSR release clears the mask under the lock and arms the timer after it. The controller of `PsrMachine` takes
  release as one step; `PsrRelease` splits it. A run is then display-safe if and only if every arming finds no
  reference held: `PsrRelease.SafeExact`; `PsrRelease.LateArmDarkens` is a run that is not, and ends dark
  under a held reference.
- An idle panel, one with PSR on and no reference held, is bound for sleep: the timer is armed, an ACTIVE request
  is pending, or the panel is at DCLK_OFF or on its way. It stays so if and only if, with the timer not armed, the
  request word is never read with another request in it, and the panel not enabled without an ACTIVE
  request: `PsrSleep.SleepExact`. `PsrSleep.IdleStaysLit` is a run in which an ACTIVE request is lost that way.
- A register request is served if and only if its 64-bit position lies in the registers or its low half, as a
  signed number, lies behind them; any other is called invalid or starts a walk that never ends:
  `MmioReach.ServedExact`, with `MmioReach.TwoGiB` and `MmioReach.AliasOfRegister`.
- The fault handler passes its byte offset on in 32 bits. `IoMap.FaultExact` gives the condition, for every
  page, under which a fault inserts the pages of the eager mapping and reads no node past the last;
  `IoMap.FaultMisses` is a fault that does not.
- The page lookup forms the byte offset inside a segment in 32 bits, so it is right exactly in the first
  2 GiB of a segment: `ScatterList.LookupExact`, `ScatterList.LookupMisses`. Lists made by the allocator
  never reach that size: `PagesMemory.BlocksLookup`.
- A page allocation that fails does not hand back the blocks already granted. It keeps memory if and only if
  the requests down to the first single page were not all refused: `PagesMemory.AllocatePagesMemory`,
  `PagesMemory.NothingGranted`, and `PagesMemory.FailureKeepsBlock` for an input.
- Anybody may give any video sequence index back. Call holders of one numbering exclusive when no two share an
  index and each finds its own marked as taken. They stay so if and only if no index is given back that
  somebody else holds: `VideoSeq.RunExact`. Otherwise the index is given out a second time within 128 queries:
  `VideoSeq.FreedIsGivenAgain`. `VideoSeq.StaleReturnShares` brings it about by a holder from before a reset,
  `VideoSeq.StrangersReturnShares` by a caller that holds nothing.
- The residency change count is kept in 32 bits. A change of the list keeps every snapshot's stamp truthful (a
  stamp equal to the file's means an exact copy of the list) if and only if each snapshot that bears the next
  stamp already is, as the call leaves it, a copy of the new list: `ResidentState.StepExact`, and over whole
  runs `ResidentState.RunExact`. Fewer than 2^32 changes of the list never harm: `ResidentState.RunCoherent`.
  `ResidentState.WrapReached` is a run whose 2^32nd change makes snapshots never used pass for copies.
- After the residency cleanup the snapshots keep capacity and stamp without a buffer, so the file is fit for
  further use if and only if none ever had one: `ResidentFile.File.Cleanup`. The driver cleans up last.
- Merging modes reads a preferred mode that does not exist if and only if the display has no mode and the
  adapter has one: `ModeMerge.MergeModes`.
- A fence array of no members that does not signal on any is never reported complete, although its own test
  answers that it is: `FenceArray.EveryRunReports`, `FenceArray.SignaledTest`.

## Model

| member | source | states |
|---|---|---|
| PsrMachine.EnvironmentKeepsInv | linux/zx_cbios.c:2704-2791 | acquire, release and the timer keep the invariant at any point of a walk: an armed timer means no reference; a display reference means an INACTIVE request pending or the panel lit (or off) with no ACTIVE pending; a vblank reference the same with IGA_OFF; enabled exactly when not DISABLED |
| PsrMachine.HolderKeepsInv | linux/zx_cbios.c:2868-3131 | so does every step of the thread that holds the PSR mutex: enable, disable, reset, each step of the walk, each retarget, each recovery |
| PsrMachine.RunKeepsInv | linux/zx_cbios.c:2704-3131 | the invariant holds after every run of these steps |
| PsrMachine.RestingStates | linux/zx_cbios.c:3082-3131 | at rest the panel is never in EXIT, `enabled` holds exactly outside DISABLED, and a held reference finds the panel lit or a request pending |
| PsrMachine.ReadingHolds | linux/zx_cbios.c:3053-3080 | the first reading of the request word after a display reference was taken binds the panel to be lit |
| PsrMachine.HeldKept | linux/zx_cbios.c:2704-3131 | no step but the release of that reference undoes it |
| PsrMachine.HeldLasts | linux/zx_cbios.c:2704-3131 | over whole runs, the panel is INACTIVE or DISABLED at every rest until the reference is released |
| PsrMachine.LitAfterWalk | linux/zx_cbios.c:2742-2760 | an acquire is followed by a lit panel once any walk begun after it has ended, also when another thread held the mutex at first |
| PsrMachine.WaitingAcquire | linux/zx_cbios.c:2727-2762 | a waiting acquire, begun in any state of the controller, returns with a lit panel if and only if it raised a request or the panel was lit, and with a panel bound to be lit if and only if it raised one or the panel was on its way |
| PsrMachine.WaitingFlipReturnsDark | linux/zx_cbios.c:2727-2762 | a run from power-on whose last event is a waiting flip that returns at once with the panel at DCLK_OFF |
| PsrRelease.ReleaseIsBothSteps | linux/zx_cbios.c:2765-2791 | the one-step release is the two steps with nothing between them |
| PsrRelease.ArmExact | linux/zx_cbios.c:2787-2790 | arming the timer keeps safety if and only if no reference is held then |
| PsrRelease.SafeExact | linux/zx_cbios.c:2704-3131 | a run with split releases is display-safe throughout if and only if every arming finds no reference held |
| PsrRelease.LateArmDarkens | linux/zx_cbios.c:2776-2790 | a run from power-on in which a late arming brings the panel to rest at DCLK_OFF under a held cursor reference |
| PsrMachine.WalkComesNearer | linux/zx_cbios.c:3098-3119 | every step of a walk ends it or comes strictly nearer to the target |
| PsrMachine.WalkEnds | linux/zx_cbios.c:3098-3126 | every walk of every run ends: the steps its thread still takes are bounded by the work left and a constant for each request that may be raised meanwhile |
| PsrMachine.WalkBounded | linux/zx_cbios.c:3082-3131 | a walk that begins takes its thread at most fifteen steps, and sixteen more for each request raised meanwhile |
| PsrMachine.ExitWouldSpin | linux/zx_cbios.c:2932-3000 | a walk to a deeper state from EXIT would step in place: why EXIT must not be a resting state |
| PsrSleep.LevelBounds | linux/zx_cbios.c:2947-2982 | the failure counter is the failed activations less the successful ones, never below zero, since PSR was turned on: no less than the last streak of failures and no more than all of them |
| PsrSleep.GivenUp | linux/zx_cbios.c:2957-3119 | a failed step disables the panel and has it enabled again unless it was an activation and that count has reached five; five failures in a row suffice, fewer than five never do |
| PsrSleep.DeepKept | linux/zx_cbios.c:2704-3131 | a panel in deep sleep is woken above IGA_OFF by a display reference, disable or reset only, never by a vblank reference or the timer |
| PsrSleep.DeepLasts | linux/zx_cbios.c:2704-3131 | the same over whole runs |
| PsrSleep.DrowsyExact | linux/zx_cbios.c:2704-3131 | an event leaves an idle panel bound for sleep if and only if it does not strand it |
| PsrSleep.SleepExact | linux/zx_cbios.c:2704-3131 | from any point of any run an idle panel stays bound for sleep if and only if no event strands it |
| PsrSleep.IdleStaysLit | linux/zx_cbios.c:3053-3080 | a run in which INACTIVE and ACTIVE requests are read at once and the idle panel rests lit with the timer not armed |
| PsrController.ReplayIsPath | linux/zx_cbios.c:2540-2700 | a replayable list of hardware calls is a path of the transition graph: each call is made in the state its predecessors led to |
| PsrController.Hardware.Call | linux/zx_cbios.c:2540-2700 | the hardware accepts a call only in its source state, and moves or, for the three fallible calls, may refuse |
| PsrController.Controller.constructor | linux/zx_disp.h:257-272 | a new controller is the machine's initial state |
| PsrController.Controller.AcquireStep | linux/zx_cbios.c:2704-2750 | refines the machine's acquire; reports whether it acquired and whether it raised a request |
| PsrController.Controller.ReleaseDisplay | linux/zx_cbios.c:2765-2791 | refines the machine's release |
| PsrController.Controller.TimerExpires | linux/zx_irq.c:1360-1378 | refines the machine's timer |
| PsrController.Controller.Retry | linux/zx_cbios.c:2802-2816 | a fallible call is made until it is accepted, and given up only when it was made and refused up to its limit |
| PsrController.Controller.OpEnable | linux/zx_cbios.c:2793-2817 | from DISABLED makes the enabling call until the hardware accepts it, and stays DISABLED only after a thousand refusals; makes no call otherwise |
| PsrController.Controller.OpDisable | linux/zx_cbios.c:2819-2866 | reaches DISABLED from every state, each hardware call made in its state |
| PsrController.Controller.SingleStep | linux/zx_cbios.c:2932-3051 | one step of the walk is the machine's, failures and failure count included, and mirrors the hardware; activation and the way out of EXIT are called until accepted, and fail only after forty refusals |
| PsrController.Controller.GetDstState | linux/zx_cbios.c:3053-3080 | exchanges the request word with zero and yields the state it asks for, INACTIVE before LEQ_IGA_OFF before ACTIVE |
| PsrController.Controller.Turn | linux/zx_cbios.c:3098-3119 | one turn comes strictly nearer to the target, or ends at rest after a failure, with PSR on again unless activation failed too often or the hardware refused a thousand times |
| PsrController.Controller.Retarget | linux/zx_cbios.c:3121-3126 | the target moves only when a request was pending |
| PsrController.Controller.OperateTransState | linux/zx_cbios.c:3082-3131 | terminates at rest for every finite stream of concurrent requests, every hardware and every reachable state; the whole call is a run of the machine; PSR that was on is left on unless activation failed too often or the hardware refused a thousand times |
| PsrController.Controller.AcquireDisplay | linux/zx_cbios.c:2704-2763 | a waiting acquire that raised a request, begun at any time, returns with the panel INACTIVE or DISABLED for as long as the reference is held |
| PsrController.Controller.AwaitMutex | linux/zx_cbios.c:3082-3131 | the holder of the mutex, wherever it stands, finishes and leaves the controller at rest on the same run |
| PsrController.Controller.Enable | linux/zx_cbios.c:2868-2893 | turns PSR on and, with no reference held, leaves the timer armed; leaves it off only when forced off or refused a thousand times; does nothing when already on |
| PsrController.Controller.Disable | linux/zx_cbios.c:2895-2909 | ends DISABLED |
| PsrController.Controller.Reset | linux/zx_cbios.c:2911-2930 | ends INACTIVE, also when PSR was off, and DISABLED only after a thousand refusals |
| ResidentList.BumpCounts | linux/zx_gem.c:1636-1650 | a make-resident request adds one to the count of its object and of no other, and keeps every object listed once |
| ResidentList.BumpObjs | linux/zx_gem.c:1636-1650 | the order of the list stays; a new object goes to the tail |
| ResidentList.UnbumpCounts | linux/zx_gem.c:1684-1708 | an evict takes one off the count of its object and of no other, never below zero |
| ResidentList.ServeCounts | linux/zx_gem.c:1624-1712 | after any requests an object is listed, once, exactly while make-resident requests for it are unmatched, with their number as its count |
| ResidentState.MakeExact | linux/zx_gem.c:1646-1667 | a make-resident request keeps the stamps truthful if and only if any snapshot that bears the next stamp already equals the list with the new object |
| ResidentState.EvictExact | linux/zx_gem.c:1686-1704 | an evict does if and only if any snapshot that bears the next stamp, emptied if nobody uses it, equals the list without the object |
| ResidentState.StepExact | linux/zx_gem.c:1571-1712 | any call on a file with truthful stamps leaves them truthful if and only if it is harmless |
| ResidentState.StepPast | linux/zx_gem.c:1646-1700 | short of the wrap every call is harmless, and no stamp gets ahead of the file's |
| ResidentState.RunServes | linux/zx_gem.c:1624-1712 | after any run of requests, pins and unpins the list is what the requests make of it, the buffers are in shape, and the file's stamp is its number of changes modulo 2^32 |
| ResidentState.RunCoherent | linux/zx_gem.c:1624-1712 | after every run with fewer than 2^32 changes of the list, every snapshot with the file's stamp is an exact copy |
| ResidentState.RunExact | linux/zx_gem.c:1571-1712 | over every run, however long, the stamps are truthful throughout if and only if every call was harmless |
| ResidentState.MakeRefreshes | linux/zx_gem.c:1653-1666 | a snapshot that was up to date and has room is an up-to-date copy of the list after an object was added |
| ResidentState.StepOnlyListed | linux/zx_gem.c:1571-1712 | every call keeps the snapshots that nobody uses free of objects that are not listed |
| ResidentState.RunOnlyListed | linux/zx_ioctl.c:460-480 | after every run with fewer than 2^32 changes, a snapshot that nobody uses holds listed objects only |
| ResidentState.StepKeepsUse | linux/zx_gem.c:1651-1704 | no request begins or ends a use of a snapshot, nor shortens, rewrites or reallocates one in use |
| ResidentState.PinnedLasts | linux/zx_ioctl.c:460-676 | over every run, a snapshot in use keeps its buffer and the entries read from it until its last user is done |
| ResidentState.WrapReached | linux/zx_gem.c:1624-1712 | a run from a new file whose 2^32nd change leaves snapshots never used stamped as copies of a list of two |
| ResidentFile.UsesUpdate | linux/zx_gem.c:1571-1585 | references held by the snapshots together change by what one of them gains or loses |
| ResidentFile.File.constructor | linux/zx_driver.h:117-158 | a new file holds no reference and its empty snapshots are up to date |
| ResidentFile.File.Append | linux/zx_gem.c:1658-1665 | the append to a snapshot is inside its buffer, behind its entries, and takes one reference |
| ResidentFile.File.Invalidate | linux/zx_gem.c:1571-1585 | an unused snapshot gives its references back |
| ResidentFile.File.UpdateCache | linux/zx_gem.c:1587-1620 | an unused snapshot becomes an exact copy of the list with the file's stamp and fresh references, in a buffer large enough |
| ResidentFile.File.MakeResident | linux/zx_gem.c:1624-1670 | is the machine's request; keeps the file's references in balance and every snapshot in use; keeps the stamps truthful if and only if it is harmless, so always on a run with fewer than 2^32 changes; records itself on the run |
| ResidentFile.File.FirstWrap | linux/zx_gem.c:1646-1667 | at the wrap of any file, a snapshot never used passes for an exact copy |
| ResidentFile.File.Evict | linux/zx_gem.c:1672-1712 | the same for the evict |
| ResidentFile.File.Pin | linux/zx_ioctl.c:638-676 | is the machine's step, on the same run: a batch gets a non-empty snapshot equal to the list and stamped as the file, an up-to-date one unchanged, else an unused one refreshed; none only when every snapshot is in use and stale |
| ResidentFile.File.Unpin | linux/zx_ioctl.c:460-480 | is the machine's step, on the same run: the last user of a stale snapshot drops it; otherwise its entries stay; stamps stay truthful |
| ResidentFile.File.NoStrayReference | linux/zx_gem.c:1571-1712 | on a run with fewer than 2^32 changes the file holds no reference on an object that is neither listed nor in a snapshot in use |
| ResidentFile.File.Cleanup | linux/zx_gem.c:1714-1748 | all references of the file are given back; the file stays fit for use if and only if no snapshot has a capacity |
| FenceArray.CreateInv | linux/zx_dma_fence_array.c:120-142 | a new array satisfies the invariant and is not reported |
| FenceArray.StepInv | linux/zx_dma_fence_array.c:33-77 | every atomic step of members, callbacks and the enabling loop keeps it: pending counts what is left, references count outstanding callbacks, reports are one exactly when enough members are done |
| FenceArray.RunInv | linux/zx_dma_fence_array.c:33-77 | it holds at every point of every interleaving |
| FenceArray.ReportedOnceAndNotEarly | linux/zx_dma_fence_array.c:33-77 | completion is reported at most once, by a callback or by the loop's answer, never before all members (one member) signaled; references match |
| FenceArray.ReportedInTime | linux/zx_dma_fence_array.c:33-77 | nor late: once all members (one member) have been counted down, completion is reported or a callback is about to report it |
| FenceArray.QuietReported | linux/zx_dma_fence_array.c:33-77 | when all has happened it was reported exactly once unless there are no members, and no reference is left |
| FenceArray.NotQuietMoves | linux/zx_dma_fence_array.c:33-77 | the protocol never blocks |
| FenceArray.StepDescends | linux/zx_dma_fence_array.c:33-77 | every atomic step leaves less to do |
| FenceArray.EveryRunReports | linux/zx_dma_fence_array.c:33-77 | every run is bounded, and one that cannot go on has reported exactly once (an array of no members: never) with no reference left |
| FenceArray.SignaledTest | linux/zx_dma_fence_array.c:79-84 | the array's own test holds exactly when completion was or is being reported, or there is nothing to wait for |
| FenceDriver.StepLists | linux/zx_fence.c:52-97 | every step of enqueuers and the worker keeps the two lists distinct and disjoint |
| FenceDriver.StepLives | linux/zx_fence.c:383-450 | every step keeps each fence in one place of its life: new, listed, in the worker's hand, or signaled and put |
| FenceDriver.StepCounts | linux/zx_fence.c:383-450 | every step keeps the counters equal to the lists, up to the operation in progress |
| FenceDriver.RunInv | linux/zx_fence.c:383-450 | all of this in every run |
| FenceDriver.CountersMatchLists | linux/zx_fence.c:72-93 | `fence_count` is the number of fences on both lists and `poll_count` that of the polled ones, whenever no list operation waits for its counter; neither is ever negative |
| FenceDriver.SignaledOnceWhenBack | linux/zx_fence.c:404-417 | a fence is signaled and put at most once each, in this order, and only when the hardware has passed it |
| FenceDriver.SignalFollowsTest | linux/zx_fence.c:406-415 | the worker signals only a fence it found back, has taken off its list, and never signaled before |
| FenceDriver.NothingLost | linux/zx_fence.c:394-447 | an enqueued fence is listed, in hand, or signaled and put; empty lists mean all were |
| FenceDriver.PassMoves | linux/zx_fence.c:401-417 | within a pass the worker is never stuck |
| FenceDriver.PassGoesOn | linux/zx_fence.c:401-417 | every pass of the worker can go on until it is at the end of its list |
| FenceDriver.PassEnds | linux/zx_fence.c:394-417 | it takes at most six steps a fence and one, whatever others do meanwhile |
| FenceDriver.PassSignalsAll | linux/zx_fence.c:394-417 | by its end every fence that was back when the pass began was signaled and put once, whatever the other fences are waiting for |
| RecursiveMutex.StepInv | linux/os_interface.c:758-794 | every step, with owner test, inner lock, owner write and count write separate, keeps the invariant |
| RecursiveMutex.RunInv | linux/os_interface.c:758-794 | it holds in every run |
| RecursiveMutex.MutualExclusion | linux/os_interface.c:758-770 | at most one thread is inside |
| RecursiveMutex.OwnerTestSound | linux/os_interface.c:760-776 | the unlocked test `owner != current` tells exactly whether the thread holds the mutex |
| RecursiveMutex.OnlyHolderWrites | linux/os_interface.c:763-768 | owner and count are written only by the thread that holds the inner lock |
| RecursiveMutex.CountIsDepth | linux/os_interface.c:1119-1123 | between calls the count is the holder's nesting depth |
| RecursiveMutex.TryFailsOnlyForOthers | linux/os_interface.c:772-794 | a trylock fails only while another thread is inside, never for the holder |
| RecursiveMutex.SomeoneMoves | linux/os_interface.c:758-794 | a call in progress can step on or another thread is inside |
| ModeMerge.MergeMeets | linux/zx_cbios.c:944-1028 | for device modes in order and distinct ascending adapter modes: the output is descending, contains the device modes in order with at most more color depths, offers every adapter mode within the preferred mode and not of its resolution, has no entry that comes from elsewhere, repeats no device resolution from the adapter, has the stated length and fits the caller's buffer |
| ModeMerge.MergeCounts | linux/zx_cbios.c:970-1025 | every resolution occurs as often as the device lists it, or, when it lacks it, as often as the usable adapter modes do |
| ModeMerge.MergeLength | linux/zx_cbios.c:970-1027 | length is devices plus usable adapter modes less matched pairs |
| ModeMerge.MergeEmbeds | linux/zx_cbios.c:978-996 | device modes appear in order, changed at most by more color depths |
| ModeMerge.MergeCovers | linux/zx_cbios.c:970-1018 | every usable adapter mode is offered at its resolution with its depths |
| ModeMerge.MergeDescends | linux/zx_cbios.c:978-1003 | the output is ordered as the device list |
| ModeMerge.MergeComes | linux/zx_cbios.c:970-1027 | an entry of the output is a device mode, a device mode with the color depths of an adapter mode of its resolution added, or an adapter mode; the adapter mode is within the preferred mode and not of its resolution |
| ModeMerge.PreferredExact | linux/zx_cbios.c:899-925 | the preferred mode is the first one marked so, or the first of all when none is marked |
| ModeMerge.FilterCount | linux/zx_cbios.c:927-942 | the filter keeps exactly the adapter modes within the preferred mode and not of its resolution |
| ModeMerge.ReverseInPlace | linux/zx_cbios.c:955-961 | the swaps reverse the array |
| ModeMerge.GetPreferredMode | linux/zx_cbios.c:899-925 | the first mode marked preferred, else the first mode, none for a display without modes |
| ModeMerge.MergeModes | linux/zx_cbios.c:944-1028 | the loops write exactly the merge into the buffer, within its bounds, and nothing behind; the filter reads a preferred mode that does not exist if and only if there are adapter modes and no device mode |
| Routing.AskedIsSelected | linux/zx_crtc.c:921-934 | a connector asked for is selected |
| Routing.SelectedExact | linux/zx_crtc.c:921-934 | a connector is selected if and only if it shares an output with one that was asked for |
| Routing.StageMeans | linux/zx_crtc.c:957-996 | staging in order gives each fixed encoder the crtc its own connector wants, or none |
| Routing.TargetRouted | linux/zx_crtc.c:929-999 | the staged links send selected connectors to the crtc, keep connectors of other crtcs, and detach the rest |
| Routing.MovesExact | linux/zx_crtc.c:951-995 | the change detection asks for a full mode set if and only if some connector's route differs |
| Routing.RefusedExact | linux/zx_crtc.c:973-979 | a change is refused if and only if it would leave a connector on an encoder and a crtc that do not work together |
| Routing.OffMeans | linux/zx_crtc.c:815-841 | switching a crtc off takes every encoder and connector off it, and no encoder or connected connector off another |
| Routing.Router.Swap | linux/zx_crtc.c:662-723 | live and staged links change places as the two flags say |
| Routing.Router.StageEncoders | linux/zx_crtc.c:929-955 | the loop stages the encoders and detects a move exactly |
| Routing.Router.StageCrtcs | linux/zx_crtc.c:957-996 | the loop stages the crtcs, and stops exactly when an encoder does not work with its crtc |
| Routing.Router.DisableUnused | linux/zx_crtc.c:747-813 | disconnected connectors are detached, and exactly the crtcs no connector reaches lose their framebuffer |
| Routing.Router.DisableCrtc | linux/zx_crtc.c:815-841 | exactly the encoders of the crtc and their connectors are detached |
| Routing.Router.Commit | linux/zx_crtc.c:1003-1035 | a refusal puts everything back; mode, position and framebuffer become those asked for exactly when they are set |
| Routing.Router.SetConfig | linux/zx_crtc.c:843-1061 | a failure leaves every link, framebuffer, mode and position as it was and nothing staged; success, exactly when nothing refuses, makes the staged routing live and determines every framebuffer; a crtc in use then has the mode and position asked for, and another mode only when the hardware accepted it; no other crtc changes but for a framebuffer that no connector shows any more |
| Routing.SelectedDrives | linux/zx_crtc.c:929-999 | a selected connector with something plugged in keeps the crtc in use |
| Routing.ShowOn | linux/zx_crtc.c:843-1061 | after a successful change with such a connector the crtc is in use and shows the framebuffer asked for |
| ScatterList.FlattenAppend | linux/os_interface.c:1777-1788 | the flat array of a longer list is the array extended by the segment's pages |
| ScatterList.ExtractPages | linux/os_interface.c:1777-1788 | the page table becomes the flat array of page addresses |
| ScatterList.LookupExact | linux/os_interface.c:1930-1953 | the lookup agrees with the flat array if and only if the page is within the first 2 GiB of its segment |
| ScatterList.LookupMisses | linux/os_interface.c:1945-1946 | a list on which it disagrees |
| ScatterList.LookupLocates | linux/os_interface.c:1930-1953 | the lookup finds the segment the page lies in, and answers zero past the end |
| ScatterList.GetPageAddress | linux/os_interface.c:1930-1953 | the loop computes the lookup |
| ScatterList.RunsPartition | linux/os_interface.c:1979-1996 | the runs visited follow one another from the first page to the last |
| ScatterList.RunsCover | linux/os_interface.c:1979-1996 | each page of a run is where the flat array says |
| ScatterList.ForEachContiguous | linux/os_interface.c:1979-1996 | the visitor's calls grow by exactly these runs, in order, until it first answers other than zero |
| PagesMemory.OrderFits | linux/os_interface.c:1790-1800 | the order tried is the largest up to 9 whose block fits |
| PagesMemory.AllocOrderPages | linux/os_interface.c:1790-1800 | the order computed from bytes is the one for the pages |
| PagesMemory.OrderMonotone | linux/os_interface.c:1870-1873 | less memory never asks for a larger order |
| PagesMemory.FewestBound | linux/os_interface.c:1851-1875 | no decomposition into blocks of at most 2^9 pages has fewer blocks than `Fewest` |
| PagesMemory.FewestTake | linux/os_interface.c:1851-1875 | taking the largest block that fits keeps to the fewest |
| PagesMemory.ServeMeets | linux/os_interface.c:1849-1875 | for any answers of the kernel the blocks granted have non-increasing orders up to 9, sum exactly to the size if it is made up, are the fewest if nothing is refused, and the size is made up unless a single page is refused |
| PagesMemory.ServeLargest | linux/os_interface.c:1849-1875 | every block granted is the largest that fits what is left, or the next larger order was refused before |
| PagesMemory.TakeBlocks | linux/os_interface.c:1849-1875 | the loop ends, stays within its tables and does what the answers lead to; so all of this holds of it |
| PagesMemory.NothingGranted | linux/os_interface.c:1851-1860 | nothing is granted if and only if the requests from the first order down to a single page are all refused |
| PagesMemory.RefusesAllExact | linux/os_interface.c:1851-1860 | these requests are one for each order, each one less than the one before |
| PagesMemory.FailureKeepsBlock | linux/os_interface.c:1851-1858 | answers that grant two pages of three and refuse the third |
| PagesMemory.FreeList | linux/os_interface.c:1689-1693 | freeing a scatter list gives back exactly its blocks, each with its own order |
| PagesMemory.AllocatePagesMemory | linux/os_interface.c:1803-1927 | on success the scatter list is the blocks granted in order and the page table is its flat array and covers the aligned size exactly; a failing call keeps memory if and only if some request was granted |
| PagesMemory.AllocateThenFree | linux/os_interface.c:1670-1698 | freeing an allocation gives back everything it took |
| PagesMemory.BlocksLength | linux/os_interface.c:1877-1889 | the segments hold as many pages as the blocks |
| PagesMemory.BlocksLookup | linux/os_interface.c:1930-1953 | in the list of an allocation every lookup agrees with the page table |
| IoMap.FaultExact | linux/zx_gem.c:1815-1947 | for every page, a fault inserts the eager mapping's frames and stays within the nodes if, and for an object whose frames are apart only if, the pages fit the 32-bit offset |
| IoMap.FaultMisses | linux/zx_gem.c:1941-1947 | a fault on page 2^20 of one node that gets the frame of page 0 |
| IoMap.LowFaultExact | linux/zx_gem.c:1829-1878 | below 4 GiB the condition is exact for every object |
| IoMap.SingleExact | linux/zx_gem.c:1829-1844 | the same for one node |
| IoMap.SingleWraps | linux/zx_gem.c:1829-1844 | past 4 GiB a single node is inserted again from its start |
| IoMap.MultiRun | linux/zx_gem.c:1861-1878 | from any node and page the walk inserts the eager pages or, past the end of an object of 4 GiB or more, reads past the last node |
| IoMap.SkipWindow | linux/zx_gem.c:1852-1859 | skipping whole nodes loses nothing of what is to be inserted |
| IoInsert.WalkSplit | linux/zx_gem.c:1861-1878 | a walk of some pages goes on from where they end, with the node and the offset it then stands at |
| IoInsert.MapSystemIo | linux/zx_driver.c:83-96 | the eager mapping adds every frame of every node, in order, at consecutive addresses; a refusal leaves exactly the nodes before it |
| IoInsert.GemIoInsert | linux/zx_gem.c:1815-1882 | the loops put in exactly the first frames of a fault at its offset: all of them, or up to a page the kernel refuses, or up to the first page for which a node past the last is read |
| IoInsert.Asked | linux/zx_gem.c:1932-1942 | a fault asks for the pages to prefault, or for as many as the mapping still has room for |
| IoInsert.GemFault | linux/zx_gem.c:1910-1953 | a fault at any page puts in the frames of its truncated offset; if they fit, no node past the last is read and they are those of the eager mapping |
| IoInsert.FaultIsSlice | linux/zx_gem.c:1815-1947 | for an object whose frames are apart, what a fault puts in is a slice of the eager mapping, addresses included, if and only if the pages fit |
| VmAccess.NodeFlat | linux/zx_gem.c:2032-2042 | a piece of a node is a piece of the flat buffer, and a write to it a write there and nowhere else |
| VmAccess.SkipNodes | linux/zx_gem.c:2021-2028 | finds the node that reaches the offset; one that ends at it is not skipped |
| VmAccess.AccessNodes | linux/zx_gem.c:2015-2043 | the walk moves exactly the range of the flat buffer, also from a node boundary |
| VmAccess.GemVmAccess | linux/zx_gem.c:1976-2050 | an error exactly for an empty or overflowing range or an unmapped object, with nothing moved; otherwise exactly the range, returning its length |
| VmAccess.WriteThenRead | linux/zx_gem.c:1976-2050 | what was written is read back |
| MmioTable.HoleExact | linux/zx_debugfs.c:331-369 | the search finds a hole exactly at the positions of no segment |
| MmioTable.AlignedAccess | linux/zx_debugfs.c:420-461 | inside a segment an access fits the range and the segment, and the rest stays aligned |
| MmioTable.AlignedHole | linux/zx_debugfs.c:506-536 | a hole is a whole number of words with nothing to access, and the rest stays aligned |
| MmioTable.SlotsProper | linux/zx_debugfs.c:410-465 | the accesses of a range lie in segments, on and with the segment's width, in order, inside the range |
| MmioTable.SlotsCover | linux/zx_debugfs.c:410-465 | a byte is accessed if and only if it is a segment's |
| MmioTable.EachRegisterOnce | linux/zx_debugfs.c:410-465 | both together: each register byte exactly once, nothing else |
| MmioTable.DriverTable | linux/zx_debugfs.c:26-38 | the driver's table is sorted, disjoint and on word boundaries |
| Mmio.FindSegment | linux/zx_debugfs.c:331-369 | for every signed 32-bit position, the loop finds the segment or hole, within the table's bounds |
| MmioReach.ServedExact | linux/zx_debugfs.c:372-468 | a request at any 64-bit position is answered as promised if and only if it is addressable; any other is called invalid or walks for ever |
| MmioReach.WalkInside | linux/zx_debugfs.c:410-465 | the walk over an aligned range in the registers ends exactly at its end |
| MmioReach.LostForEver | linux/zx_debugfs.c:397-465 | the walk of a request elsewhere never ends |
| MmioReach.TwoGiB | linux/zx_debugfs.c:384-465 | four bytes at 2 GiB on the driver's table start such a walk |
| MmioReach.AliasOfRegister | linux/zx_debugfs.c:384-465 | a position 4 GiB behind a register has its first turn access registers there |
| Mmio.Check | linux/zx_debugfs.c:386-408 | the checks before the walk, with the driver's arithmetic at every position |
| Mmio.ImageValue | linux/zx_debugfs.c:440-455 | the register value taken from the buffer is what its bytes spell |
| Mmio.RegisterValue | linux/zx_debugfs.c:440-455 | a register takes the first byte of its place in the buffer as its lowest |
| Mmio.MmioWrite | linux/zx_debugfs.c:372-468 | for every request that returns, exactly the accesses of the range, in order, each with its bytes of the buffer; the length never underflows |
| MmioRead.MmioRead | linux/zx_debugfs.c:470-574 | for every request that returns, exactly the accesses of the range, in order; each value lands at its place, holes read zero, the buffer behind stays |
| VideoSeq.Adapter.Query | core/kernel_interface.c:674-722 | within two passes yields the next free index from the start, or resets exactly when all are taken; start and end stay in range |
| VideoSeq.Adapter.Return | core/kernel_interface.c:788-793 | frees exactly that index; a number that is none is ignored |
| VideoSeq.Pick | core/kernel_interface.c:674-700 | an index is found if and only if one is free; it is free, and none that comes before it from the start, going round, is |
| VideoSeq.AskKeepsExclusive | core/kernel_interface.c:674-722 | a query never gives an index held in the current numbering, and marks the one it gives |
| VideoSeq.GivenAgain | core/kernel_interface.c:674-722 | an index given back at once is the next to be given if and only if no device had it or no other is free |
| VideoSeq.GiveBackExact | core/kernel_interface.c:788-793 | a holder giving back its index keeps holders exclusive, each on a marked index, if and only if nobody else holds it in the current numbering |
| VideoSeq.OnlyStaleClash | core/kernel_interface.c:788-793 | a holder giving back its own index clashes only if it is from before a reset |
| VideoSeq.ReturnExact | core/kernel_interface.c:788-793 | any number given back by anybody keeps holders exclusive, each on a marked index, if and only if no current holder has it |
| VideoSeq.FreedIsGivenAgain | core/kernel_interface.c:674-722 | an index marked free under its holder is given out again within 128 queries, with no reset between |
| VideoSeq.RunExact | core/kernel_interface.c:674-793 | over every run, holders of one numbering are exclusive, and each on an index marked as taken, throughout if and only if no index is given back that somebody else holds |
| VideoSeq.StaleReturnShares | core/kernel_interface.c:674-793 | a run in which a holder from before a reset makes two holders of one numbering share index 0 |
| VideoSeq.StrangersReturnShares | core/kernel_interface.c:674-793 | a run in which a caller that holds nothing does, with no reset at all |

## Left out

- PsrMachine.Next: acquire and release are one step each with respect to the timer; `PsrRelease` splits the release, the acquire stays whole, its stopping of the timer included.
- PsrController.Controller.OperateTransState: the outer loop of the worker thread, its waiting and its freezing are not modelled; the mutex is the mode of the machine.
- PsrController.Controller.Enable: the failure counter is an unbounded number, and no bound is claimed for it, because a reset enables the panel again without clearing it.
- References acquired or released while PSR is off: both calls do nothing then, and the invariants speak of the stored mask.
- ResidentFile.File.MakeResident: speaks of files whose stamps are truthful; after a wrap that made one untruthful nothing more is promised, and `ResidentState.Appended` leaves a full snapshot alone without the driver's having a test for it.
- ResidentFile.File.Evict: the same; the object lookup is a parameter, and the object reference count is observed for one arbitrary object.
- ResidentFile.File.Pin: a batch that gets no snapshot makes a private copy of the list, which is not modelled; failing allocations are not either.
- ResidentFile.Cache: the four snapshots are records inside the file and are modelled as values; their two parallel buffers are one.
- FenceArray.StepInv: written as a machine of atomic steps on a value, the members' own fences being part of the environment; the final release of the array is left out.
- FenceDriver.PassSignalsAll: that a thread is given its turns is not modelled.
- FenceDriver.StepLists: written as a machine of atomic steps on a value; tracing, the poll timer and the primary fence update are left out, and a fence is enqueued once, as the fence core calls for it once.
- RecursiveMutex.StepInv: written as a machine of atomic steps on a value; only the holder unlocks; the killable lock, which sets no owner, and the tracking variant are left out.
- ModeMerge.MergeModes: what happens after the missing preferred mode is read is not modelled.
- Routing.TargetRouted: assumes one fixed encoder for each connector; an encoder that no connector points to loses its crtc silently.
- Routing.Router.SetConfig: whether the hardware accepts a mode, and which connectors are disconnected, are parameters; a crtc counts as in use when a connector's encoder is on it; the final restore call is assumed not to reroute.
- ScatterList.LookupExact: segments of whole pages from a page boundary, without remapping for the device.
- PagesMemory.AllocatePagesMemory: sizes whose page-aligned value is below 2^31; the small tables are assumed to be allocated; allocation flags, cache flushing and device mapping are left out.
- IoMap.FaultExact: node addresses and sizes are whole pages, positive, and sum to the size of the map.
- IoInsert.MapSystemIo: the mapping spans the object; protection bits are left out.
- IoInsert.GemFault: what is inserted after a node past the last is read is not modelled.
- VmAccess.GemVmAccess: the offset in the object is a parameter, offset plus length stays below 2^64, and the nodes cover the object.
- Mmio.MmioWrite: the requests that never return are those of `MmioReach.ServedExact`; the register space is below 2 GiB; faults on the caller's buffer are left out.
- MmioRead.MmioRead: the same.
- Display and register access, interrupts, initialisation, debug output, and the wrappers of the memory manager, reservation and atomic mode-setting libraries are not part of this model.
