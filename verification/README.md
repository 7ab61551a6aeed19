# TaskSmack core models

This project models the domain layer of TaskSmack, a desktop system monitor, and the algorithms around it, and proves
what they promise. Operating-system probes are arbitrary inputs, drawing a row is appending `(index, depth)` to a list,
and `double` is an exact real. Times are parameters: seconds where the source keeps seconds, nanoseconds on the steady
clock elsewhere.

- `ProcessTree`, `ProcessTreeView`, `TreeOrder`: the process tree of the processes panel. The map from parent to children
  is built from arbitrary parent pids; the forest is drawn with an explicit stack and a depth cut-off of 1000.
- `SystemModel`, `SystemHistory`, `HistoryLengths`, `NetworkTraffic`, `CpuUsage`: the system history. Twelve tracks, one
  track per core and two per network interface are pushed, evicted and truncated beside one timestamp track; CPU
  percentages come from 64-bit counters that may wrap.
- `ProcessModel`, `ProcessMeters`: per-process tracking maps, shares and rates, and six aggregate histories.
- `GPUModel`, `GPUMeters`, `History`: one wrapping ring per GPU beside a front-erased vector of timestamps.
- `StorageModel`, `DiskMeters`: disk rates, times and utilisation from counters, totals and a time window.
- `BackgroundSampler`, `LinkSpeedCache`: two concurrent protocols, as step systems whose steps interleave freely.
- `CpuAffinity`, `ByteSplit`, `DecimalText`: text formatting, with digit grouping, run compression and rounding carry.
- `ChartAxis`, `Energy`: nearest sample by binary search, and proportional energy attribution.
- `Retention`, `Numeric`, `Wrappers`: what the modules share.

Where the source updates fields in place the model is a class with the same fields and a `Valid()` that ties them to a
ghost log of everything that happened; the named lemmas are then about that log. `hide` statements only keep
definitions out of proofs that do not need them.

What the proofs brought out about the code:

- The allocation-free byte splitter agrees with the plain one exactly when the value is above -1/20 of its unit; its
  comment (`src/UI/Format.h:386-388`) claims equivalence without that condition (`ByteSplit.FastAgreesExactly`).
- A refresh requested while the sampler is enumerating or calling back is dropped by the clear step, against the
  header's "immediate refresh": the round sleeps in full. Past the clear step the chunk in progress is the last
  (`BackgroundSampler.RequestDecidesSleep`).
- A process on a parent cycle is never drawn (`ProcessTreeView.CyclesAreNeverDrawn`).
- A core history lines up with the timestamps exactly while no kept update left the core out
  (`SystemHistory.CoreLinesUpExactly`).
- Samples inside the window are lost exactly when a core gains its first value while nothing is evicted, which cuts
  every track to one sample, or when a core with history to spare is left out (`HistoryLengths.KeepsExactlyWindow`).
  Such a core costs every track one more sample at each update until its own history is gone; the tracks do not grow
  meanwhile (`HistoryLengths.StuckWhileLeftOut`).
- An interface's history grows only by updates that evict nothing, and while the cores cut nothing it reaches back as
  far as the timestamps only if it always did. The network chart draws it only then, so an interface that first
  appears late is not charted (`HistoryLengths.InterfaceLength`, `HistoryLengths.NeverCatchesUp`). A cut can also make
  a stale one long enough to be charted (`SystemHistory.TailTakingIsRight`, `HistoryLengths.StaleInterfaceWitness`).
- A GPU missing from one read has its ring shifted against the timestamps until that read has left both
  (`GPUModel.AlignedExactly`).
- A link-speed lookup goes by the latest call that has finished, not the latest that began: overlapping lookups can
  hide a down-to-up transition (`LinkSpeedCache.CachedExactly`, `LinkSpeedCache.OverlapCanHideTransition`).
- A negative storage window empties the history at every sample (`StorageModel.SampleRetention`); the system and
  process models clamp theirs.

## Model

| member | source | states |
|---|---|---|
| ProcessTree.BuildProcessTree | src/App/Panels/ProcessesPanel.cpp:798-827 | every process hangs under the key of the last process listed with its positive parent pid, once and in index order; nothing else is in the map |
| ProcessTree.ProcessTreeIsUnique | src/App/Panels/ProcessesPanel.cpp:798-827 | that description allows one map only |
| ProcessTree.PushReversed | src/App/Panels/ProcessesPanel.cpp:1284-1290 | pushing the children in reverse makes their subtrees, in order, the next to be drawn, and adds exactly their unfoldings to the measure |
| ProcessTree.DrawFrame | src/App/Panels/ProcessesPanel.cpp:1246-1290 | drawing a frame moves its row to the output and leaves its branch to draw; the measure drops by one |
| ProcessTree.ChildrenToDraw | src/App/Panels/ProcessesPanel.cpp:1260-1284 | the children the filter keeps when the process is expanded, in the order `TreeOrder.ChildrenInOrder` gives; none otherwise |
| ProcessTree.RenderProcessTreeNode | src/App/Panels/ProcessesPanel.cpp:1229-1293 | for every map (cyclic or stale), filter and collapsed set the stack loop ends and draws the recursive depth-limited preorder walk |
| ProcessTreeView.RenderTreeView | src/App/Panels/ProcessesPanel.cpp:1295-1353 | the rows are the walks of the roots, in the order of the filter |
| ProcessTreeView.FindKeptParent | src/App/Panels/ProcessesPanel.cpp:1334-1344 | the search finds a parent exactly when some listed process with the parent's pid has a key the filter keeps |
| ProcessTreeView.ParentTestIsRight | src/App/Panels/ProcessesPanel.cpp:1334-1347 | with distinct pids and keys, that is exactly when the filter keeps the parent itself |
| ProcessTreeView.RootsAreRoots | src/App/Panels/ProcessesPanel.cpp:1328-1352 | so the processes drawn at depth 0 are exactly those without a kept parent |
| ProcessTreeView.BranchMembers | src/App/Panels/ProcessesPanel.cpp:1260-1290 | a process is drawn below another exactly when that is its kept parent and is expanded |
| ProcessTreeView.WalkMembers | src/App/Panels/ProcessesPanel.cpp:1229-1293 | a row is in a subtree exactly when the right number of upward steps, through expanded processes only, reaches the subtree's top |
| ProcessTreeView.WalkAllMembers | src/App/Panels/ProcessesPanel.cpp:1229-1293 | the same for a list of subtrees |
| ProcessTreeView.WalkDistinct | src/App/Panels/ProcessesPanel.cpp:1229-1293 | no row is twice in a subtree |
| ProcessTreeView.RootDepthIsUnique | src/App/Panels/ProcessesPanel.cpp:1229-1353 | a process has at most one depth below a root |
| ProcessTreeView.DrawnExactly | src/App/Panels/ProcessesPanel.cpp:798-827 | a row is drawn exactly for a filtered process that hangs that many steps, fewer than 1000, below a root through expanded processes |
| ProcessTreeView.NeverDrawnTwice | src/App/Panels/ProcessesPanel.cpp:1295-1353 | no process is drawn twice, cycles and self-parents included |
| ProcessTreeView.PermutationExactly | src/App/Panels/ProcessesPanel.cpp:1295-1353 | the rows are a permutation of the filter exactly when every filtered process reaches a root in fewer than 1000 steps |
| ProcessTreeView.AcyclicDrawsEverything | src/App/Panels/ProcessesPanel.cpp:1229-1353 | with acyclic parent links, short chains and nothing collapsed they are |
| ProcessTreeView.CyclesAreNeverDrawn | src/App/Panels/ProcessesPanel.cpp:1251-1256 | a process on a parent cycle is never drawn |
| ProcessTreeView.SelfParentWitness | src/App/Panels/ProcessesPanel.cpp:1334-1352 | one process that is its own parent: nothing is drawn |
| TreeOrder.ChildrenInOrder | src/App/Panels/ProcessesPanel.cpp:1260-1290 | for every map, stale or cyclic: one level below an expanded process come the entries of its children list that the filter keeps, in the order of that list, each as often as listed; nothing below a collapsed one or at the cut-off |
| TreeOrder.RootsInOrder | src/App/Panels/ProcessesPanel.cpp:1328-1352 | the processes drawn at depth 0 are those without a kept parent, in the order of the filter |
| TreeOrder.EveryRowUnderItsParent | src/App/Panels/ProcessesPanel.cpp:1229-1293 | every row deeper than 0 has its kept parent drawn above it, one level up, with only rows as deep as itself or deeper between |
| TreeOrder.SiblingsInOrder | src/App/Panels/ProcessesPanel.cpp:1284-1290 | of two rows whose processes have the same kept parent, the upper one has the smaller index |
| DecimalText.NumeralReadsBack | src/UI/Format.h:716-728 | a printed number reads back as itself |
| DecimalText.NumeralLength | src/UI/Format.h:412-417 | a number below 10^k is printed with at most k digits, so without leading zeros |
| CpuAffinity.BuildMask | src/Platform/Linux/LinuxProcessProbe.cpp:493-501 | the mask has exactly the bits of the CPUs in the set that fit its width |
| CpuAffinity.MaskOfBits | src/Platform/Linux/LinuxProcessProbe.cpp:494-500 | the bits of a number summed from powers of two are the ones summed |
| CpuAffinity.MaskReadsBack | src/UI/Format.h:691-693 | testing every bit loses nothing: the mask is the number with those bits |
| CpuAffinity.FormatCpuAffinityMask | src/UI/Format.h:678-755 | the loop over the bits returns Printed: the mask's items, comma-separated, or a dash for the empty mask; the rows below say what that text is |
| CpuAffinity.ItemsAreExact | src/UI/Format.h:689-752 | the items strictly increase, list exactly the set bits, and use a dash for whole maximal runs of three or more only |
| CpuAffinity.ListReadsBack | src/UI/Format.h:705-752 | any printed list of items with lo <= hi parses back to those items, by a parser that takes lo-hi only with lo < hi |
| CpuAffinity.DashMeansRange | src/UI/Format.h:715-728 | in any text that parses, a comma-separated piece holds a dash exactly when its item has lo < hi |
| CpuAffinity.DashMeansThree | src/UI/Format.h:715-743 | the text of a non-zero mask holds a dash exactly when three neighbouring bits are set |
| CpuAffinity.PrintedReadsBack | src/UI/Format.h:678-755 | at any width, printing a non-zero mask and parsing the text as numbers and inclusive ranges gives the mask back |
| CpuAffinity.PrintedNamesExactly | src/UI/Format.h:678-755 | the printed items name a CPU exactly when its bit is set |
| CpuAffinity.DashMeansNone | src/UI/Format.h:680-683 | exactly the zero mask prints as a dash, which does not parse |
| CpuAffinity.PrintingIsInjective | src/UI/Format.h:678-755 | two masks of one width print alike only if they are equal |
| ByteSplit.ChosenUnitFits | src/UI/Format.h:289-305 | the chosen unit is the largest the value fills: at least 1 from KB up, below 1024 under GB; its suffix names its scale |
| ByteSplit.RoundToTenth | src/UI/Format.h:394-406 | the fast path's truncation, rounding and carry give the rounded whole part and tenth digit |
| ByteSplit.RoundingIsClose | src/UI/Format.h:394-406 | whole + digit/10 is the nearest number of tenths, the larger one halfway between two, carry included |
| ByteSplit.RoundingIsSymmetric | src/UI/Format.h:498-515 | a negative value is rounded as its absolute value is |
| ByteSplit.GroupingErases | src/UI/Format.h:517-523 | erasing the separators of a locale-grouped numeral leaves its digits |
| ByteSplit.SeparatorsEveryThree | src/UI/Format.h:442-456 | a separator stands after every three digits from the right and nowhere else |
| ByteSplit.EmittedIsGrouped | src/UI/Format.h:442-456 | writing left to right with the boundary test gives the right-to-left grouping |
| ByteSplit.EmitDigits | src/UI/Format.h:434-456 | the digit loop writes the grouped numeral at the start of the buffer and at most 26 characters |
| ByteSplit.WholePartFits | src/UI/Format.h:427-432 | a 64-bit whole part has at most 19 digits, so the release-build clamp never acts |
| ByteSplit.SplitBytesForAlignmentFast | src/UI/Format.h:389-494 | the three parts shown, never past the 32-character buffer, with a terminator behind them |
| ByteSplit.FastAgreesExactly | src/UI/Format.h:386-529 | within the range of the integer casts, the fast splitter agrees with the plain one exactly when the value is above -1/20 of the unit |
| ByteSplit.NegativeSizeDisagrees | src/UI/Format.h:391-392 | a size of -1 byte is 0.0 to the one and -1.0 to the other |
| ByteSplit.ShownNumberIsClose | src/UI/Format.h:389-494 | read without separators and point, the shown number is the size in the unit to the nearest tenth, and the unit shown is that unit |
| BackgroundSampler.InvNext | src/Domain/BackgroundSampler.cpp:32-149 | every step of every thread keeps the protocol's invariant |
| BackgroundSampler.InvRun | src/Domain/BackgroundSampler.cpp:32-149 | so does every run |
| BackgroundSampler.AtMostOneThread | src/Domain/BackgroundSampler.cpp:32-62 | in every reachable state at most one sampler thread lives |
| BackgroundSampler.OneLateCallback | src/Domain/BackgroundSampler.cpp:45-62 | over every run up to the next start, at most one callback begins after the thread was asked to stop, and none unless it was past its stop check and had not yet taken the lock |
| BackgroundSampler.StartMakesTheThread | src/Domain/BackgroundSampler.cpp:32-43 | a start() while nothing runs makes one new thread, about to enter its loop; one while the sampler runs changes nothing |
| BackgroundSampler.StopTellsTheThread | src/Domain/BackgroundSampler.cpp:45-60 | a stop() while the sampler runs has asked its thread to stop within two steps of its own; one while it does not run changes nothing |
| BackgroundSampler.RoundIsRight | src/Domain/BackgroundSampler.cpp:103-145 | over every interleaving, after each step of its own the round stands where the loop says: one enumeration, the callback set at the lock called once, the request cleared, and the interval read and the time elapsed giving the sleep |
| BackgroundSampler.CallbackIsCalled | src/Domain/BackgroundSampler.cpp:112-122 | after an enumeration, by the clear step of the round, the callback stored by the latest setCallback before the lock has been called once; none if that was none |
| BackgroundSampler.CallbackOnce | src/Domain/BackgroundSampler.cpp:112-122 | so with a callback set and not replaced meanwhile, exactly one has begun, and it is that one |
| BackgroundSampler.StoppedIsQuiet | src/Domain/BackgroundSampler.cpp:45-62 | once stop() has returned no thread is left |
| BackgroundSampler.SilentUntilNextStart | src/Domain/BackgroundSampler.cpp:45-62 | and none appears, and no callback begins, until the next start |
| BackgroundSampler.SwapNeedsIdleCallback | src/Domain/BackgroundSampler.cpp:69-73 | setCallback never replaces a callback that a thread is calling |
| BackgroundSampler.UndisturbedSleep | src/Domain/BackgroundSampler.cpp:134-145 | a round whose sleep ends, by either test, with neither stop nor refresh requested has slept exactly max(0, interval - elapsed), and lasted at least the interval |
| BackgroundSampler.AwaitingStep | src/Domain/BackgroundSampler.cpp:103-149 | each step of any thread keeps a refresh requested after the clear step pending or sees it honoured |
| BackgroundSampler.RefreshIsHonoured | src/Domain/BackgroundSampler.cpp:85-88 | unless stopped, the thread begins an enumeration after such a request within seven steps of its own, completing at most the chunk it is sleeping |
| BackgroundSampler.AwaitingIsNotBlocked | src/Domain/BackgroundSampler.cpp:138-145 | only the end of that chunk, at most 50 ms, can keep it waiting |
| BackgroundSampler.RefreshBeforeClearIsLost | src/Domain/BackgroundSampler.cpp:123-124 | over every run, after a refresh requested before the clear step and none after it, the next enumeration begins only when the round has slept in full and the interval has passed, unless the thread is stopped |
| BackgroundSampler.RequestDecidesSleep | src/Domain/BackgroundSampler.cpp:123-145 | over every run with no further request, a refresh shortens the round it falls in exactly when it comes past the clear step and sleep beyond the chunk in progress is left; the round's total sleep is given in every case |
| BackgroundSampler.LostRequestWitness | src/Domain/BackgroundSampler.cpp:103-149 | a run from the initial state: a request during the first enumeration, and the whole interval slept before the second |
| BackgroundSampler.StopIsBounded | src/Domain/BackgroundSampler.cpp:45-62 | over every run after the stop request the thread takes at most ten more steps of its own, with at most one more chunk completed, and by the tenth has exited or been joined |
| BackgroundSampler.StoppingIsNotBlocked | src/Domain/BackgroundSampler.cpp:45-62 | only the end of a chunk or a setCallback holding the lock keeps it waiting; once it has exited, stop() returns in one step |
| LinkSpeedCache.ValidMeansYoung | src/Platform/Linux/LinuxSystemProbe.cpp:464-468 | an entry that passes the whole-seconds age test was checked less than 60 seconds ago |
| LinkSpeedCache.LinkSpeedCache.GetInterfaceLinkSpeed | src/Platform/Linux/LinuxSystemProbe.cpp:443-494 | a call reads again exactly on first use or after cleanup, when it sees up after the previous call saw down, or after 60 seconds; otherwise the cached speed is returned and only the state is updated |
| LinkSpeedCache.LinkSpeedCache.CleanupStaleInterfaceCacheEntries | src/Platform/Linux/LinuxSystemProbe.cpp:431-441 | exactly the interfaces that are not current are forgotten |
| LinkSpeedCache.InvNext | src/Platform/Linux/LinuxSystemProbe.cpp:431-494 | over all interleavings of lookup, unlocked read, store and cleanup, a stored speed was read no earlier than its time stamp, and the entry holds what the latest finished call saw and the latest finished read found |
| LinkSpeedCache.CachedExactly | src/Platform/Linux/LinuxSystemProbe.cpp:454-476 | over all interleavings, a lookup is answered from the cache exactly when some call has finished since cleanup, the call does not see up where the latest finished one saw down, and the latest finished read began less than 60 s before it; the answer is that read's |
| LinkSpeedCache.TransitionRereads | src/Platform/Linux/LinuxSystemProbe.cpp:462-476 | so a call that sees up while the latest finished call saw down always reads again |
| LinkSpeedCache.AloneIsSequential | src/Platform/Linux/LinuxSystemProbe.cpp:443-494 | the steps of a call that nothing interrupts leave the cache and give the answer of the sequential call |
| LinkSpeedCache.EveryAnswerIsRecent | src/Platform/Linux/LinuxSystemProbe.cpp:443-494 | so every answer was read from sysfs after (the call's now - 60 s), and during the call unless cached |
| LinkSpeedCache.AnsweredOnce | src/Platform/Linux/LinuxSystemProbe.cpp:443-494 | over all interleavings every answer is that of a call begun, for the interface, state and time it began with, and unless cached read when that call read; no call is answered twice, and one no longer in progress has its answer |
| LinkSpeedCache.OverlapCanHideTransition | src/Platform/Linux/LinuxSystemProbe.cpp:478-492 | a run in which calls finish in another order than they began: one that sees up, begun after one that saw down had finished, is answered from the cache |
| CpuUsage.TotalWraps | src/Platform/SystemTypes.h:27-30 | the wrapped sum of wrapped counters is the true sum modulo 2^64 |
| CpuUsage.UsageSurvivesWrap | src/Domain/SystemModel.cpp:496-532 | if no true counter decreased and the total grew by less than 2^64, every percentage is the true ratio and the clamps change nothing |
| CpuUsage.PartsWithinWhole | src/Domain/SystemModel.cpp:513-529 | user, system, idle, iowait and steal together are at most 100 |
| SystemModel.RecordedCpuIsTrue | src/Domain/SystemModel.cpp:413-463 | the five CPU values an update records are the true ratios, wrap-around or not |
| SystemModel.RecordedCoreIsTrue | src/Domain/SystemModel.cpp:418-432 | so is the value recorded for every core reported before and now |
| SystemModel.RecordedTraffic | src/Domain/SystemModel.cpp:434-448 | a network rate times the time since the last update is what the counter gained; zero if it went back or no time passed |
| SystemModel.RecordedInterface | src/Domain/SystemModel.cpp:383-410 | the i-th interface recorded has the name listed i-th, and rates that times the interval are what its own received and sent counters gained on the first previous entry of that name; zero where a counter went back, no time passed or there is none |
| NetworkTraffic.RatesConserved | src/Domain/SystemModel.cpp:383-410 | the rates one update records for a name, times the interval, are what its entries gained together, each direction its own |
| NetworkTraffic.InterfaceConserved | src/Domain/SystemModel.cpp:383-410 | over any run of calls at advancing times, an interface's recorded rates times the intervals add up to what its own counter gained |
| NetworkTraffic.InterfaceTelescopes | src/Domain/SystemModel.cpp:383-410 | for an interface listed once in every call, with a counter that never goes back, to its last value less its first |
| SystemModel.RecordedPower | src/Domain/SystemModel.cpp:467-470 | power and charge are those of the status, -1 standing for no battery |
| SystemModel.RecordedNoCpu | src/Domain/SystemModel.cpp:500-504 | when no CPU time has passed nothing is recorded as used, nor as idle |
| NetworkTraffic.TrafficConserved | src/Domain/SystemModel.cpp:434-448 | over any run of calls at advancing times, recorded network rates times intervals add up to what the counter gained, call by call |
| NetworkTraffic.TrafficTelescopes | src/Domain/SystemModel.cpp:434-448 | for a counter that never goes back, to its last value less its first |
| NetworkTraffic.UpdateAt | src/Domain/SystemModel.cpp:192-198 | the k-th update of a run is computed from its k-th and next call |
| SystemModel.RecordedMemory | src/Domain/SystemModel.cpp:338-365 | when the counters fit their totals, the recorded percentages are (total - available) / total, cached / total and, for swap, (total - free) / total |
| SystemModel.RecordedMemoryFallback | src/Domain/SystemModel.cpp:338-352 | without available memory in the counters, the used part is what is neither free nor cached nor buffers |
| SystemModel.PushedHistory | src/Domain/SystemModel.cpp:475-480 | every interface's history gains exactly the rates listed for it, in order |
| SystemModel.CommonSize | src/Domain/SystemModel.cpp:98-126 | the size cut to is a least non-empty one among timestamps and cores, and not zero while timestamps are kept |
| SystemModel.UpdateKeepsAligned | src/Domain/SystemModel.cpp:456-490 | after every update, truncation included, timestamps and the twelve tracks are columns of the same newest updates, every core history is empty or exactly as long, and every core and interface history is the newest part of what was pushed for it |
| SystemModel.WindowKeepsAligned | src/Domain/SystemModel.cpp:152-161 | after every window change too |
| SystemModel.InterfacesOkStep | src/Domain/SystemModel.cpp:75-83 | the interface part of one update: pushing and dropping keep each history the newest part of its run |
| SystemModel.TrimRespectsWindow | src/Domain/SystemModel.cpp:47-56 | on ordered timestamps everything kept lies in the window and the newest is always kept |
| SystemModel.UpdateKeepsCoreTails | src/Domain/SystemModel.cpp:418-432 | if cores only grow in number, each core history holds that core's values of the newest updates |
| SystemModel.UpdateKeepsInvariant | src/Domain/SystemModel.cpp:192-198 | an update keeps alignment, and with it the core claim (if counts never shrank) and the window claim (if times never went back) over the whole run |
| SystemModel.WindowKeepsInvariant | src/Domain/SystemModel.cpp:152-161 | so does a window change, for the new window |
| SystemModel.SystemModel.PopOld | src/Domain/SystemModel.cpp:51-56 | pops exactly the leading timestamps before the cutoff and counts them |
| SystemModel.SystemModel.SmallestSize | src/Domain/SystemModel.cpp:91-126 | finds the common size, or none when everything is empty |
| SystemModel.SystemModel.TrimHistory | src/Domain/SystemModel.cpp:47-150 | every buffer loses as many front entries as timestamps were old, then all but interface histories are cut to the common size |
| SystemModel.SystemModel.SetMaxHistorySeconds | src/Domain/SystemModel.cpp:152-161 | the clamped window is stored and the buffers trimmed at the newest timestamp; the invariant holds for it |
| SystemModel.SystemModel.UpdateFromCounters | src/Domain/SystemModel.cpp:192-198 | the first call only remembers its counters; every later one appends one update computed from this call and the last, so the updates are those of the whole run of calls |
| SystemModel.SystemModel.Refresh | src/Domain/SystemModel.cpp:163-184 | the power status stored first is the one the update records |
| SystemModel.ClampHistorySeconds | src/Domain/SamplingConfig.h:31-34 | the window is within its bounds, unchanged if it was |
| SystemHistory.EntriesBelongTogether | src/Domain/SystemModel.cpp:456-490 | the k-th timestamp, the k-th entry of every track and of every non-empty core history are from one update |
| SystemHistory.CoreTailExactly | src/Domain/SystemModel.cpp:484-487 | the newest part of a core's pushes holds its values of the newest updates exactly when none of these left the core out |
| SystemHistory.CoreLinesUpExactly | src/Domain/SystemModel.cpp:58-150 | over every run, whatever the core counts, a non-empty core history is as long as the timestamps and its entries belong to theirs exactly when no kept update left the core out |
| SystemHistory.CoreStepExactly | src/Domain/SystemModel.cpp:484-489 | one update, any eviction and cut: an aligned core history stays aligned exactly when the update has the core or nothing of the history is left |
| SystemHistory.ShrinkingMisaligns | src/Domain/SystemModel.cpp:484-489 | a core an update leaves out: unless all of it is evicted, its history comes out as long as the timestamps with its old last value at the new time |
| HistoryLengths.ShrinkingWitness | src/Domain/SystemModel.cpp:418-432 | two cores, then one: the input that shows it |
| SystemHistory.RunIsColumn | src/Domain/SystemModel.cpp:475-480 | for an interface listed once in every update since it first appeared, the run is one rate per update |
| SystemHistory.TailTakingIsRight | src/App/Panels/NetworkSection.cpp:235-251 | taking equally many newest values of an interface and newest timestamps pairs every value with its own update exactly when each of these updates lists the interface once |
| HistoryLengths.InterfaceLength | src/Domain/SystemModel.cpp:58-83 | the exact length of an interface's history after an update or window change; an update makes it longer exactly when nothing is evicted |
| HistoryLengths.EmptyStaysEmpty | src/Domain/SystemModel.cpp:58-83 | over any course in which every update evicts, an interface's history never gets longer, so an empty one stays empty |
| HistoryLengths.CoversExactly | src/App/Panels/NetworkSection.cpp:242-250 | after an update or window change an interface's history is as long as the timestamps, and so charted, exactly when what it held and gained, less what is evicted, is at least the length the update's cores leave; if they cut nothing, exactly when it was before |
| HistoryLengths.NeverCatchesUp | src/App/Panels/NetworkSection.cpp:242-250 | over any course in which the reported cores cut nothing, an interface is charted at the end exactly when it was at the start |
| HistoryLengths.LateInterfaceWitness | src/Domain/SystemModel.cpp:58-83 | an interface first listed when the window is full, left without history |
| HistoryLengths.LengthExactly | src/Domain/SystemModel.cpp:47-150 | the exact number of timestamps after any update or window change, from the evictions and the cores reported: one when a core gains its first value while nothing is evicted, one less when a core with history to spare is left out, else only old entries go |
| HistoryLengths.KeepsExactlyWindow | src/Domain/SystemModel.cpp:47-150 | an update keeps exactly the entries that are not old, on ordered times those in the window, if and only if neither of the two happens |
| HistoryLengths.FullCoresStayFull | src/Domain/SystemModel.cpp:47-150 | with an unchanged set of cores with full histories nothing is cut and they stay full |
| HistoryLengths.StuckWhileLeftOut | src/Domain/SystemModel.cpp:117-149 | over any course in which a core stays left out and still has history, the timestamps and all evicted since are together no more than the timestamps at its start; with nothing evicted it keeps its history |
| HistoryLengths.StuckWitness | src/Domain/SystemModel.cpp:117-149 | an update that leaves out one of two cores, each with one value, leaves one timestamp in a window of 300 s, and the same again after it |
| HistoryLengths.StaleInterfaceWitness | src/App/Panels/NetworkSection.cpp:242-250 | an interface not listed in the only kept update, with a history as long as the timestamps |
| HistoryLengths.NewCoreCutsToOne | src/Domain/SystemModel.cpp:90-149 | when a core first appears, every track is cut to one sample, unless entries are evicted: then the core has no history |
| ProcessModel.ProgressStep | src/Domain/ProcessModel.cpp:116-220 | one pass of the loop moves exactly its own process forward in the three maps |
| ProcessModel.TrackedStep | src/Domain/ProcessModel.cpp:102-223 | after loop and pruning the maps hold exactly the sample's keys: latest counters, peak, and baseline from first seen |
| ProcessModel.SampleMatches | src/Domain/ProcessModel.cpp:102-223 | and every snapshot is the one the whole run determines, SnapshotAfter; the ProcessMeters rows say what that shows |
| ProcessMeters.MeterAfter | src/Domain/ProcessModel.cpp:342-392 | each of CPU share, user and system share, read, write and page-fault rate and power, times what it is divided by (hundredths of the machine's ticks, seconds, whole microseconds), is what its own counters gained since the sample before; zero exactly under the source's guards |
| ProcessMeters.FirstShowsNothing | src/Domain/ProcessModel.cpp:342-392 | in a first sample all of these are zero |
| ProcessMeters.ListedAfter | src/Domain/ProcessModel.cpp:310-331 | key, memory and thread count are the listed ones, an OS peak is shown as given, and the CPU share is the sum of its parts |
| ProcessMeters.PresenceConserved | src/Domain/ProcessModel.cpp:342-392 | over the whole presence of a process, each shown value times what it was divided by adds up to what was gained, call by call |
| ProcessMeters.PresenceTelescopes | src/Domain/ProcessModel.cpp:342-392 | when all guards pass, to the counter's last value less its value when first seen |
| ProcessMeters.AggregatesConserved | src/Domain/ProcessModel.cpp:206-238 | the recorded page-fault and power sums, times their intervals, are what all processes gained together, and the threads are those listed |
| ProcessMeters.HistoriesAre | src/Domain/ProcessModel.cpp:229-238 | each of the six histories holds, entry by entry, the value it is named for |
| ProcessMeters.NetAggregates | src/Domain/ProcessModel.cpp:206-238 | the recorded network sums are those of every process's average since first seen, each direction its own |
| ProcessModel.FirstSeenExactly | src/Domain/ProcessModel.cpp:128-148 | the sample a baseline comes from: the key was in every sample from it on and not in the one before |
| ProcessModel.PeakIsMaximum | src/Domain/ProcessModel.cpp:150-163 | when the OS gives no peak, the tracked one is the largest RSS of the uninterrupted presence |
| ProcessMeters.PeakExactly | src/Domain/ProcessModel.cpp:150-163 | in any case it is the largest of the OS's last peak in the presence and every RSS since; without one, of every RSS of the presence |
| ProcessModel.NetRateExactly | src/Domain/ProcessModel.cpp:185-204 | rate times time since first seen equals the bytes since then exactly when the time, monotonicity and cap guards pass or nothing was sent |
| ProcessModel.TrafficSinceFirstSeen | src/Domain/ProcessModel.cpp:185-204 | that holds of the snapshot of any process in any run, for bytes sent and bytes received |
| ProcessModel.AggregatesStep | src/Domain/ProcessModel.cpp:206-213 | adding one snapshot keeps each running sum the sum of its own field |
| ProcessModel.ProcessModel.TrackAll | src/Domain/ProcessModel.cpp:102-223 | the loop and the pruning do what the step lemmas say, and the five sums are sums over the new snapshots |
| ProcessModel.ProcessModel.ComputeSnapshots | src/Domain/ProcessModel.cpp:72-239 | maps, snapshots and the six histories stay what the run says, kept entries being the newest part of those the run's samples determine; an entry is recorded only when time has passed since the last sample, with the sums over the new snapshots |
| ProcessModel.KeptRecorded | src/Domain/ProcessModel.cpp:227-238 | recording and trimming leave the newest part of the entries the longer run determines |
| ProcessModel.ProcessModel.TrimHistory | src/Domain/ProcessModel.cpp:404-442 | the six histories lose the same entries, those before the window of the newest one |
| ProcessModel.TrimmedExactly | src/Domain/ProcessModel.cpp:404-442 | what is kept is a suffix, never empty, with the newest entry and exactly the entries inside the window |
| ProcessModel.ProcessModel.SetMaxHistorySeconds | src/Domain/ProcessModel.cpp:283-288 | a negative window counts as zero; the histories are trimmed at once |
| GPUModel.RingTable.Push | src/Domain/GPUModel.cpp:107-114 | a snapshot goes to its own GPU's ring and no other; an unknown GPU has none |
| GPUModel.GPUModel.Refresh | src/Domain/GPUModel.cpp:55-128 | after any run each ring holds the last 300 snapshots of its GPU and the timestamps those of the last 300 refreshes |
| GPUModel.GPUModel.HistoryOf | src/Domain/GPUModel.cpp:142-159 | the GPU's last 300 snapshots, oldest first; nothing for an unknown GPU |
| GPUModel.GPUModel.GetHistoryField | src/Domain/GPUModel.cpp:240-256 | one field of each of them |
| GPUModel.PushedStep | src/Domain/GPUModel.cpp:107-114 | one refresh changes a ring exactly when it reported that GPU |
| GPUModel.ReportedAtAll | src/Domain/GPUModel.cpp:107-114 | every refresh that reported a GPU is among those whose snapshots its ring is drawn from |
| GPUModel.AlignedExactly | src/Domain/GPUModel.cpp:89-122 | ring and timestamps come from the same refreshes exactly when no kept refresh missed the GPU |
| GPUModel.AlignedMeansTakenThen | src/Domain/GPUModel.cpp:89-122 | then the i-th snapshot was taken at the i-th timestamp |
| GPUModel.SteadyGpuStaysAligned | src/Domain/GPUModel.cpp:43-47 | a GPU reported in every read keeps min(refreshes, 300) snapshots in step with the timestamps |
| GPUMeters.PcieAt | src/Domain/GPUModel.cpp:220-234 | each PCIe rate, times the whole milliseconds since the refresh before, is what its own counter gained; zero for a first refresh, a GPU not in the one before or a counter that went back |
| GPUMeters.ShownAt | src/Domain/GPUModel.cpp:181-217 | identity and utilisation as listed, memory and power in percent of their totals; zero without a total |
| GPUMeters.PcieConserved | src/Domain/GPUModel.cpp:220-234 | over any run these amounts add up to what the counter gained from read to read |
| GPUMeters.PcieTelescopes | src/Domain/GPUModel.cpp:220-234 | for a GPU in every read, a millisecond or more apart, with a counter that never goes back, to its last value less its first |
| GPUMeters.LastForIs | src/Domain/GPUModel.cpp:74-88 | the counters that count for a GPU in one read are the last ones listed for it |
| History.History.Push | src/Domain/History.h:17-25 | the contents become the last Capacity values of the old ones and the new one |
| History.History.Clear | src/Domain/History.h:28-32 | nothing is held |
| History.History.Full | src/Domain/History.h:53-56 | full exactly when Capacity values are held |
| History.History.At | src/Domain/History.h:59-63 | the index-th oldest value |
| History.History.Latest | src/Domain/History.h:66-73 | the newest value, or a blank one |
| History.History.CopyTo | src/Domain/History.h:77-102 | in one chunk or two, exactly the oldest min(maxCount, size) values are written and nothing else |
| History.HeldIsLastPushed | src/Domain/History.h:17-32 | after any operations the contents are the last Capacity values pushed since the last clear |
| StorageModel.StorageModel.SampleDisk | src/Domain/StorageModel.cpp:48-63 | a disk's snapshot is computed against the device's own last call, whatever was sampled between |
| StorageModel.StorageModel.Sample | src/Domain/StorageModel.cpp:27-89 | history and timestamps stay in step, hold exactly the samples not yet dropped, and every snapshot's totals are the sums over its disks |
| StorageModel.AddTotals | src/Domain/StorageModel.cpp:65-72 | each total is the sum of its own rate over the disks |
| StorageModel.StorageModel.TrimHistory | src/Domain/StorageModel.cpp:162-170 | both fronts lose the leading old entries together |
| StorageModel.ReportedStable | src/Domain/StorageModel.cpp:91-143 | later calls do not change what an earlier one reported |
| StorageModel.CallConserves | src/Domain/StorageModel.cpp:102-135 | one call's rate times its interval is the bytes its counter advanced |
| DiskMeters.CallMeters | src/Domain/StorageModel.cpp:124-153 | operations per second times the interval are the operations counted, and the average time times the operations is the time counted, each direction its own; zero without interval or operations |
| DiskMeters.CallUtilisation | src/Domain/StorageModel.cpp:137-157 | utilisation times the interval is the time busy in percent, or 100 when the counter says more than the interval |
| DiskMeters.TotalsAreTogether | src/Domain/StorageModel.cpp:65-72 | the totals of a sample are what its disks show together, each direction its own |
| DiskMeters.CallTotals | src/Domain/StorageModel.cpp:97-101 | the device's name, and its sectors in bytes modulo 2^64 |
| DiskMeters.IntervalIs | src/Domain/StorageModel.cpp:109-116 | the interval runs from the sample of the device's latest call to this call's own clock |
| DiskMeters.OpsConserved | src/Domain/StorageModel.cpp:124-143 | over any run, missing reads included, operations per second times intervals add up to the operations counted |
| StorageModel.BytesConserved | src/Domain/StorageModel.cpp:47-143 | over any run, missing reads included, rates times intervals add up to sector size times the positive counter increments |
| StorageModel.MonotoneTelescopes | src/Domain/StorageModel.cpp:116-120 | for a counter that never goes back the increments add up to its last value less its first |
| StorageModel.SampleRetention | src/Domain/StorageModel.cpp:162-170 | a window of zero or more keeps the newest sample and, on an ordered clock, only samples inside it; a negative one, which setMaxHistorySeconds stores as given, keeps none |
| ChartAxis.LowerBound | src/UI/ChartWidgets.h:365-396 | everything before the found position is below the cursor, nothing from it on is |
| ChartAxis.HoveredIndexFromPlotX | src/UI/ChartWidgets.h:365-396 | on a non-empty sorted axis the sample found is at minimal distance from the cursor, the earlier of two equally near ones, and of equal times the one next to the cursor |
| ChartAxis.BuildTimeAxisDoubles | src/UI/ChartWidgets.h:315-329 | the axis plus now is the newest timestamps, in order |
| ChartAxis.Samples.CropFrontToSize | src/UI/ChartWidgets.h:520-536 | only the newest values stay |
| ChartAxis.HoverPicksNearestKept | src/UI/ChartWidgets.h:315-396 | the hovered sample is the kept timestamp nearest to the cursor's time, and a cropped track's entry there was recorded with it |
| Energy.AttributeEnergyToProcesses | src/Platform/Linux/LinuxProcessProbe.cpp:841-871 | every process gets its floored share in place; nothing changes without energy or CPU time |
| Energy.AttributedExactly | src/Platform/Linux/LinuxProcessProbe.cpp:862-870 | with total time T and energy E a process with time t gets the whole number s with s T <= E t < (s + 1) T; its times stay, and without energy or CPU time all of it stays |
| Energy.NearlyConserved | src/Platform/Linux/LinuxProcessProbe.cpp:862-870 | without wrap of the CPU total, n processes together get more than E - n and at most E |
| Energy.MoreTimeMoreEnergy | src/Platform/Linux/LinuxProcessProbe.cpp:862-870 | more CPU time never gets a smaller share |
| Retention.LeadingOld | src/Domain/SystemModel.cpp:51-56 | the front-popping loop removes the entries before the first one inside the window |
| Retention.OrderedKeepsWindow | src/Domain/SystemModel.cpp:51-56 | on ordered timestamps that keeps exactly the entries inside the window |

## Left out

- ImGui, ImPlot and OpenGL drawing, fonts, themes, dialogs and clicks that toggle a process while a frame is drawn: the collapsed set is fixed for one draw.
- The row flags hasChildren and isExpanded passed to renderProcessRow; a row is its index and depth.
- The parentKeys set that renderTreeView fills (`src/App/Panels/ProcessesPanel.cpp:1309-1326`): nothing reads it.
- Access to /proc, /sys, netlink, NVML, ROCm, DXGI and D3DKMT: probe results are arbitrary inputs, and sysfs is a function of interface and time.
- IEEE rounding of doubles and floats, exponential smoothing, the locale lookup, logging, and exceptions from probes.
- The hash in makeUniqueKey: process keys are inputs, and results that need them distinct say so.
- Snapshot fields that are copied unchanged (names, states, host data, GPU clocks and temperatures, capability flags), and the GPU information lookup.
- The conversion of power counters to a power status (`src/Domain/SystemModel.cpp:534-569`): the status is an input of Refresh.
- The m_Mutex locking of the sampling models: each locked section is one step; readers' snapshots are the fields as they stand.
- 64-bit wrap-around of process and GPU counters: these are unbounded, the source guards against decreasing ones; CPU, memory, network and disk counters and the energy total do have 64 bits.
- The unsigned-to-double loss of precision above 2^53.
- SystemModel.SystemModel.TrimHistory: the deques are sequences in one record field; each is popped by a loop of its own, on a value that is then stored.
- ProcessModel.ProcessModel.ComputeSnapshots: requires a clock that does not go back, as the steady clock promises.
- GPUModel.GPUModel.Refresh: the writes under the lock come in another order than in the source, which no reader can observe.
- BackgroundSampler.AtMostOneThread: one controlling thread calls start and stop; two that race are not modelled. A thread whose handle start() would overwrite is left running, which is shown not to happen.
- BackgroundSampler.RefreshIsHonoured: says within how many of its own steps the thread begins an enumeration, not that the scheduler ever runs it.
- ProcessDetailsPanel::trimHistory, UserConfig, ThemeLoader and NetlinkSocketStats: the first repeats the system model's trimming, the others rest on a TOML library or on code that is not part of this model.
- The float overload of hoveredIndexFromPlotX and the float time axis: the same search on another number type.
