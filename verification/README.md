# A verified model of the Intel NPU user-mode driver

This project models, in Dafny, the host-side core of the Level Zero driver for Intel NPUs and a
few data transformations of its tools and validation programs, and proves what they promise:
queues, fences and jobs as a protocol with a device that makes progress at any time; regular,
immediate and mutable command lists; the command buffers a job is cut into and how events order
them on the device; fills and two-dimensional copies compiled into commands; the idle-time
cleaner as interleaved threads; metric activation, query pools and metric decoding; and BMP
loading, half-precision conversion and telemetry bit fields.

`dafny verify dfyconfig.toml` checks everything.

| file | models |
|---|---|
| Bits.dfy | powers of two, bit operations bit by bit, little-endian words |
| Jobs.dfy | result codes, the log of all submissions, statuses to a result |
| QueueProtocol.dfy | queue, fences and jobs as a state machine; the run theorems |
| QueueOutcomes.dfy | what the calls of that machine return, and when a fence is signalled |
| CommandQueues.dfy | queue and fence objects, each method a step of that machine |
| CommandLists.dfy | jobs under construction, regular lists, ids of mutable commands |
| ListOutcomes.dfy | what appends and closes leave in a job and return |
| ImmediateLists.dfy | immediate lists on top of a list and a queue |
| ImmediateOutcomes.dfy | what calls on an immediate list return |
| EventOrder.dfy | command buffers of a closed job and their order on the device |
| DeviceMemory.dfy | the effect of fill and copy commands, copy descriptors |
| MemoryFill.dfy, CopyRegion.dfy | fills in chunks or by copy, copies of regions row by row |
| MutableUpdates.dfy | descriptor chains folded into argument updates |
| ResourceCleaner.dfy | the cleaner thread and the calls that drive it |
| MetricActivation.dfy, QueryPool.dfy, MetricDecoding.dfy | metrics |
| MetricOrder.dfy, FloatOrder.dfy | the comparison behind metric maxima is that of the numbers |
| Bmp.dfy, HalfFloat.dfy, Telemetry.dfy | image loading, binary16, telemetry |

## How to read it

*Queues.* The log holds every submission ever made; waiting on a job object observes its latest
submission, as the driver does. A step of the protocol is a host call or progress of the device,
and the device may complete pending submissions inside every call. `Covered` says that each
submission has completed with success or is the latest of its job and still held by the queue or
by a fence. Guards say what the caller has to see to. `CallGuard`, `CallFenceGuard` and
`DestroyGuard` speak only of what is known before a call: the queue, the lists and the fence. Each
is proved to be exactly the condition under which the call keeps the invariant for every answer
and every behaviour of the device. `ExecGuard` and `FenceGuard` are the weaker conditions for given
answers of the device to the submissions of the call; the run theorems ask for no more than these.

*Lists.* An append is a list of items, each a command or the error its creation meets. Commands
of size zero are skipped by the job. A regular list keeps one job; an immediate list submits it at
the end of every append.

*Device.* Commands of one buffer start in order and may overlap; a wait starts once its event
holds at least the value waited for, a signal or a barrier once everything before it in the buffer
has completed. Buffers run concurrently. Memory commands may write their bytes in any order and
overlap; a schedule is the order of the bytes.

*Operations as functions.* Where a call is a function or a relation on states, its class method is
proved to compute it, and lemmas that do not mention it say what it does: in terms of the
arguments, the bytes, the log, or the calls that follow (the `...Outcomes` modules,
`Bmp.ShowsBytes`, `QueryPool.EffectOnData` and others).

*Threads.* The cleaner's worker, any number of calling threads and the clock take atomic steps in
any order. The worker may wake without reason, and a wait reports a timeout only after its time.

## Findings

Where a promise does not hold in general, the model keeps the code as it is; there is a concrete
run and the exact condition.

* A queue reports success over a failed submission when the failed job was submitted again and
  then succeeded, so "not resubmitted while pending" is not enough (`FailedResubmissionHidden`;
  exact: `CallGuardExact`).
* A failure inside the submission loop leaves the jobs already submitted untracked
  (`MidLoopFailureLosesJob`; exact: `CallGuardExact`, which asks that all jobs of a call but the
  last are held already).
* A fence that is signalled when jobs are submitted to it reports success while they run
  (`SignalledFenceReportsEarly`; exact: `CallFenceGuardExact`).
* Submitting only to unsignalled fences makes signalled fences track nothing in every run
  (`SignalledTracksNothing`), but is not enough for their report: a fence succeeds over a failed
  submission of a job that was submitted again elsewhere (`FenceSucceedsOverFailure`; exact:
  `CallFenceGuardExact`).
* The buffers of a job are ordered by internal fences that are cleared only when the job is closed.
  Every complete run of a job of two or more buffers leaves them signalled, so submitted again the
  job may overtake itself (`ResubmissionOvertakes`; the two runs for a concrete kind of job:
  `FirstRun`, `SecondRunSignalsEarly`; exact: `ChainExact`).
* After a reset of a mutable list, stale entries send new command ids to the wrong place
  (`ResetLeavesStaleIds`; exact: `TranslationExact`).
* A report of idleness made before the cleaner's worker first takes its mutex may be overlooked
  (`EarlyRequestOverlooked`; exact, for every reachable state: `OverlookedExactly`).
* An append of nothing but empty commands to an immediate list submits no job (`AppendOutput`), and
  what a failed append pushed goes out with the next job (`LeftoversGoOut`).
* A fill of size zero succeeds and appends nothing, on a closed list as well (`AppendMemoryFillCmd`).
* 32-bit row offsets of region copies are right exactly when the last row's offset fits
  (`RowWrapsToStart`; exact: `OffsetsExact`).
* The stride of the metric decoder misreads groups of mixed sizes (`MixedGroupMisread`). It is right
  for two or more samples exactly for groups with one value size (`PlacesExact`), and for one sample
  exactly when all counters but the last have the size of the stride (`PlacesExactOnce`).
* The loop over the maxima does not end for 256 values (`FlagsNeverEnd`); it ends exactly for at most
  255 (`LoopEndsExactly`).
* The branch for a metric group activated beforehand by the same context is never taken
  (`ActivateMetricGroup`).
* binary16 infinities and NaNs become finite floats (`SpecialsBecomeFinite`).

## Model

| member | source | states |
|---|---|---|
| Jobs.FirstFailureDecides | umd/level_zero_driver/source/device.hpp:80-93 | success exactly when all statuses are success; otherwise the first failure in order decides between device lost and unknown |
| Jobs.SuccessStable | umd/level_zero_driver/source/cmdqueue.cpp:314-334 | a success once observed stays, whatever the device does next |
| QueueProtocol.ExecKeepsCover | umd/level_zero_driver/source/cmdqueue.cpp:195-286 | a guarded execute loses no submission, whatever the device does during it |
| QueueProtocol.ExecGuardExact | umd/level_zero_driver/source/cmdqueue.cpp:228-280 | for given answers of the device, execute keeps every submission covered whatever the device does if and only if the guard holds |
| QueueProtocol.CallGuardExact | umd/level_zero_driver/source/cmdqueue.cpp:195-286 | execute keeps every submission covered for all answers and behaviours of the device if and only if a condition on queue, lists and fence holds before the call |
| QueueProtocol.CallGuardSuffices | umd/level_zero_driver/source/cmdqueue.cpp:228-280 | the caller's condition covers every answer of the device |
| QueueProtocol.DestroyGuardExact | umd/level_zero_driver/source/cmdqueue.cpp:190-193 | destroying a fence keeps the cover if and only if it holds no job that may fail and is held nowhere else |
| QueueProtocol.RejectedSubmitsNothing | umd/level_zero_driver/source/cmdqueue.cpp:208-219 | a call with a null or unclosed list anywhere submits nothing and changes no tracking |
| QueueProtocol.SyncLetsGoOfSuccesses | umd/level_zero_driver/source/cmdqueue.cpp:288-312 | synchronize lets go of a job only when its latest submission succeeded |
| QueueProtocol.FenceSyncLetsGoOfSuccesses | umd/level_zero_driver/source/fence.cpp:31-67 | the same for synchronizing a fence |
| QueueProtocol.StepKeepsCover | umd/level_zero_driver/source/cmdqueue.cpp:160-334 | every guarded step of the protocol keeps every submission covered |
| QueueProtocol.RunCovered | umd/level_zero_driver/source/cmdqueue.cpp:195-334 | in every guarded run each submission is known to have succeeded or is held |
| QueueProtocol.SynchronizeMeansAllDone | umd/level_zero_driver/source/cmdqueue.cpp:288-312 | in every guarded run, success from synchronize means every submission so far completed with success |
| QueueProtocol.CallersSynchronize | umd/level_zero_driver/source/cmdqueue.cpp:288-312 | the same for runs in which the caller checks its condition before every call |
| QueueProtocol.ExecKeepsFences | umd/level_zero_driver/source/fence.cpp:49-53 | a guarded execute keeps every fence truthful |
| QueueProtocol.FenceGuardExact | umd/level_zero_driver/source/cmdqueue.cpp:269-280 | for given answers of the device, execute keeps every fence truthful whatever the device does if and only if its fence guard holds |
| QueueProtocol.CallFenceGuardExact | umd/level_zero_driver/source/cmdqueue.cpp:195-286 | execute keeps every fence truthful for all answers and behaviours of the device if and only if a condition on queue, lists and fence holds before the call |
| QueueProtocol.SignalledTracksNothing | umd/level_zero_driver/source/fence.cpp:19-67 | in every run in which non-empty submissions go to unsignalled fences, a signalled fence tracks no job |
| QueueProtocol.RunFencesSound | umd/level_zero_driver/source/fence.cpp:19-67 | in every run with guarded executes, the last submission of every fence succeeded or is tracked, and a signalled fence tracks nothing |
| QueueProtocol.FenceSuccessMeansDone | umd/level_zero_driver/source/fence.cpp:31-41 | in such runs, success from a fence means all jobs of its last submission since the reset succeeded, whoever waited |
| QueueProtocol.FailedResubmissionHidden | umd/level_zero_driver/source/cmdqueue.cpp:314-334 | a run without resubmission of pending jobs in which synchronize succeeds over a failed submission |
| QueueProtocol.MidLoopFailureLosesJob | umd/level_zero_driver/source/cmdqueue.cpp:249-263 | a failing submission loop leaves a pending job that synchronize does not see, and the caller's condition does not hold |
| QueueProtocol.SignalledFenceReportsEarly | umd/level_zero_driver/source/fence.cpp:49-53 | a run in which a signalled fence reports success over a pending job |
| QueueProtocol.FenceSucceedsOverFailure | umd/level_zero_driver/source/fence.cpp:31-67 | a run with unsignalled targets only in which a fence succeeds over its failed submission |
| QueueOutcomes.ValidationDecides | umd/level_zero_driver/source/cmdqueue.cpp:208-219 | the first list that is null or open decides the error; without one the call is valid |
| QueueOutcomes.SubmissionDecides | umd/level_zero_driver/source/cmdqueue.cpp:231-267 | the first refused list decides: exactly the jobs before it are submitted, and its error is returned |
| QueueOutcomes.JobsOfMore | umd/level_zero_driver/source/cmdqueue.cpp:238-266 | exactly the lists with commands contribute their job, in order |
| QueueOutcomes.ExecuteSucceedsExactly | umd/level_zero_driver/source/cmdqueue.cpp:195-286 | success exactly for good lists, all taken, and a known fence; an unknown fence is blamed exactly when nothing else is wrong |
| QueueOutcomes.ExecuteErrors | umd/level_zero_driver/source/cmdqueue.cpp:195-267 | every other error, what was submitted by then, and that nothing is tracked |
| QueueOutcomes.EmptySubmissionSignals | umd/level_zero_driver/source/fence.cpp:49-53 | a successful execute of empty lists signals its fence and leaves it nothing to wait for |
| QueueOutcomes.WaitExactly | umd/level_zero_driver/source/cmdqueue.cpp:314-334 | success exactly when all jobs succeeded, not ready exactly when one is pending, device lost only for an aborted one |
| QueueOutcomes.FenceSynchronizeExactly | umd/level_zero_driver/source/fence.cpp:31-41 | success and not ready of an unsignalled fence, exactly, in terms of its jobs |
| QueueOutcomes.SynchronizeExactly | umd/level_zero_driver/source/cmdqueue.cpp:288-312 | success exactly when every job held by the queue or a fence has succeeded; what the other results mean |
| QueueOutcomes.SignalledExactly | umd/level_zero_driver/source/fence.cpp:19-67 | in every run a fence is signalled if and only if its creation, an empty submission or a wait for its jobs signalled it and nothing since took that back |
| QueueOutcomes.EmptySubmissionReports | umd/level_zero_driver/source/fence.cpp:31-53 | in every run, after an empty submission synchronizing the fence succeeds until it is reset or destroyed |
| QueueOutcomes.ReportedSubmission | umd/level_zero_driver/source/fence.cpp:43-53 | the submission a fence reports on is the last one it was given, until it is reset |
| QueueOutcomes.TrackedInOrder | umd/level_zero_driver/source/cmdqueue.cpp:278-280 | in every run the queue tracks its jobs in submission order |
| CommandQueues.WaitForAll | umd/level_zero_driver/source/cmdqueue.cpp:314-334 | not ready only with a job pending; otherwise nothing is pending and the statuses decide |
| CommandQueues.JobStatusToResult | umd/level_zero_driver/source/device.hpp:80-93 | the loop computes the result of the statuses in order |
| CommandQueues.Fence.SetTrackedJobs | umd/level_zero_driver/source/fence.cpp:49-53 | the new fence state, signalled for an empty submission |
| CommandQueues.Fence.Reset | umd/level_zero_driver/source/fence.cpp:43-47 | only the signal is taken back |
| CommandQueues.Fence.WaitForJobs | umd/level_zero_driver/source/fence.cpp:55-67 | the fence is drained and signalled exactly by a successful wait for its jobs |
| CommandQueues.CommandQueue.CreateFence | umd/level_zero_driver/source/cmdqueue.cpp:160-188 | a protocol step, or the error for each bad argument with nothing changed |
| CommandQueues.CommandQueue.DestroyFence | umd/level_zero_driver/source/cmdqueue.cpp:190-193 | a protocol step |
| CommandQueues.CommandQueue.SynchronizeFence | umd/level_zero_driver/source/fence.cpp:31-41 | a protocol step on the fence, the others untouched |
| CommandQueues.CommandQueue.ResetFence | umd/level_zero_driver/source/fence.cpp:43-47 | a protocol step |
| CommandQueues.CommandQueue.ValidateLists | umd/level_zero_driver/source/cmdqueue.cpp:208-219 | the first bad list decides |
| CommandQueues.CommandQueue.SubmitLists | umd/level_zero_driver/source/cmdqueue.cpp:231-267 | exactly the jobs of the loop's run reach the device, in order |
| CommandQueues.CommandQueue.ExecuteAsync | umd/level_zero_driver/source/cmdqueue.cpp:195-280 | an execute step of the protocol |
| CommandQueues.CommandQueue.ExecuteCommandLists | umd/level_zero_driver/source/cmdqueue.cpp:195-286 | an execute step, followed by a synchronize step on a synchronous queue |
| CommandQueues.CommandQueue.WaitForFences | umd/level_zero_driver/source/cmdqueue.cpp:299-303 | in whatever order the fences are visited, each is drained by a successful wait until one fails |
| CommandQueues.CommandQueue.Synchronize | umd/level_zero_driver/source/cmdqueue.cpp:288-312 | a synchronize step of the protocol |
| CommandLists.PushAllSpec | umd/level_zero_driver/source/cmdlist.hpp:143-208 | an append to an open job succeeds exactly when every item is intact and then adds their non-empty commands in order |
| CommandLists.PushAllGrows | umd/vpu_driver/source/command/job.cpp:171-189 | appends never change commands already in the job |
| CommandLists.PushAllAdds | umd/level_zero_driver/source/cmdlist.hpp:143-161 | what an append adds to an open job, and how it ends, does not depend on what is already there |
| CommandLists.CommandList.Push | umd/level_zero_driver/source/cmdlist.hpp:143-161 | pushes until the first error and keeps what was pushed |
| CommandLists.CommandList.AppendWithEvents | umd/level_zero_driver/source/cmdlist.hpp:163-208 | a regular append: waits, command, signal |
| CommandLists.CommandList.AppendGraphExecute | umd/level_zero_driver/source/cmdlist.cpp:530-600 | a graph append with its entry in the id map |
| CommandLists.CommandList.GetNextCommandId | umd/level_zero_driver/source/cmdlist.cpp:753-779 | exactly when an id is given, and that it is the number of commands |
| CommandLists.CommandList.Reset | umd/level_zero_driver/source/cmdlist.cpp:119-122 | a new job and the id map left as it is |
| CommandLists.CommandList.Close | umd/level_zero_driver/source/cmdlist.cpp:105-117 | the job is closed; when a buffer cannot be built it is left dirty, or as it was if that was the first buffer |
| CommandLists.StepGrows | umd/level_zero_driver/source/cmdlist.cpp:530-600 | no call but reset changes existing commands, with any id map |
| CommandLists.RunGrows | umd/level_zero_driver/source/cmdlist.cpp:530-600 | the same over every run without reset |
| CommandLists.AppendEachSpec | umd/level_zero_driver/source/cmdlist.cpp:251-269 | a run of appends succeeds exactly when all their items are intact, and adds all their commands |
| CommandLists.StepStable | umd/level_zero_driver/source/cmdlist.cpp:530-600 | no call but reset changes existing commands or the translation of existing ids |
| CommandLists.RunStable | umd/level_zero_driver/source/cmdlist.cpp:530-600 | the same over every run without reset |
| CommandLists.TranslationExact | umd/level_zero_driver/source/cmdlist.cpp:555-560 | the id taken before a successful graph append finds its command if and only if no stale entry for it is in the map |
| CommandLists.IdFindsItsCommand | umd/level_zero_driver/source/cmdlist.cpp:530-600 | in every run without reset, the id finds the graph command after any later calls |
| CommandLists.TranslationIncreases | umd/level_zero_driver/source/cmdlist.cpp:530-600 | translation is strictly increasing over ids taken before successful graph appends |
| CommandLists.ResetLeavesStaleIds | umd/level_zero_driver/source/cmdlist.cpp:119-122 | a run with reset in which an id is translated past the end of the job |
| ListOutcomes.GraphIsAppend | umd/level_zero_driver/source/cmdlist.cpp:530-600 | a graph execution leaves the job and result of any other append with the same events; ids are only added, and only on mutable lists |
| ListOutcomes.AppendExactly | umd/level_zero_driver/source/cmdlist.hpp:143-208 | exactly when an append succeeds; the job then has the waits, the command unless empty, and the signal if asked for, after what was there |
| ListOutcomes.AppendErrors | umd/level_zero_driver/source/cmdlist.cpp:602-659 | which error an append returns and what it has pushed by then |
| ListOutcomes.FirstBrokenDecides | umd/level_zero_driver/source/cmdlist.hpp:143-208 | the first broken item decides; what is before it stays |
| ListOutcomes.ClosedRefuses | umd/level_zero_driver/source/cmdlist.cpp:128-135 | on a closed list nothing is appended, whatever the arguments |
| ListOutcomes.CloseMeans | umd/vpu_driver/source/command/job.cpp:33-65 | what can be appended and closed after a close that succeeded, failed at the first buffer, or failed later |
| ImmediateLists.ImmediateCommandList.CheckCommandAppendCondition | umd/level_zero_driver/source/immediate_cmdlist.cpp:90-99 | waits for all earlier jobs and reopens a closed job |
| ImmediateLists.ImmediateCommandList.Reset | umd/level_zero_driver/source/cmdlist.cpp:119-122 | a new empty job in place of the current one, the queue untouched |
| ImmediateLists.ImmediateCommandList.HostSynchronize | umd/level_zero_driver/source/immediate_cmdlist.cpp:101-107 | a synchronize step; a new job exactly on success |
| ImmediateLists.ImmediateCommandList.PostAppend | umd/level_zero_driver/source/immediate_cmdlist.cpp:165-182 | closes, submits and replaces the job, or stops with the error met |
| ImmediateLists.ImmediateCommandList.AppendWithEvents | umd/level_zero_driver/source/cmdlist.hpp:163-208 | check, push and submission together are an append step |
| ImmediateLists.SubmissionsAreSerial | umd/level_zero_driver/source/immediate_cmdlist.cpp:90-99 | in every run, when a job is submitted all earlier ones have completed with success |
| ImmediateLists.NothingAfterFailure | umd/level_zero_driver/source/immediate_cmdlist.cpp:90-99 | in every run, once a job has failed nothing more is submitted |
| ImmediateLists.AppendOutput | umd/level_zero_driver/source/immediate_cmdlist.cpp:165-182 | a successful append submits one job with what was left in the open job and its own commands, or none if there are none, and leaves an open empty job |
| ImmediateLists.ImmediateRefinesRegular | umd/level_zero_driver/source/immediate_cmdlist.cpp:90-182 | over every run of successful appends, the submitted jobs together are the commands a regular list builds from the same calls |
| ImmediateLists.LeftoversGoOut | umd/level_zero_driver/source/immediate_cmdlist.cpp:90-182 | with appends that fail in their pushes, the submitted jobs and the open job together are the commands of the regular list |
| ImmediateOutcomes.SynchronousAppendDone | umd/level_zero_driver/source/cmdqueue.cpp:282-283 | on a synchronous queue a successful append returns only when its job and all earlier ones succeeded |
| ImmediateOutcomes.AppendResult | umd/level_zero_driver/source/immediate_cmdlist.cpp:165-182 | the result of an append on an asynchronous queue once earlier jobs succeeded: pushes, then buffers, then submission |
| ImmediateOutcomes.HostSynchronizeMeans | umd/level_zero_driver/source/immediate_cmdlist.cpp:101-107 | success means every job succeeded and an empty new job; otherwise the job is kept |
| ImmediateOutcomes.CheckMeans | umd/level_zero_driver/source/immediate_cmdlist.cpp:95-97 | a closed job is replaced before an append, an open one kept |
| EventOrder.ScheduleCommands | umd/vpu_driver/source/command/job.cpp:191-204 | the end of a buffer is just after the next signal, or at the end of the job |
| EventOrder.CloseCommands | umd/vpu_driver/source/command/job.cpp:33-65 | the buffers are the parts of the job with a wait in front and a signal behind that chain them |
| EventOrder.SplitFlattens | umd/vpu_driver/source/command/job.cpp:50-61 | cutting loses, adds and reorders nothing, and no part is empty |
| EventOrder.SplitAtSignals | umd/vpu_driver/source/command/job.cpp:191-204 | signals end parts, and every part but the last ends with one |
| EventOrder.BuffersHoldTheJob | umd/vpu_driver/source/command/job.cpp:108-129 | beside the waits and signals on internal fences, the buffers hold exactly the job's commands in order |
| EventOrder.EventsAsWritten | umd/vpu_driver/source/command/event_command.hpp:27-34 | a started signal lets waits for its event pass, a started reset makes them block, and nothing else changes |
| EventOrder.CountsParts | umd/vpu_driver/source/command/job.cpp:50-61 | the number of buffers closing a job takes is the number of its parts |
| EventOrder.StartedEarlier | firmware/include/api/vpu_jsm_job_cmd_api.h:98-132 | in every run a started command was started by an earlier step whose condition held |
| EventOrder.RunChained | umd/vpu_driver/source/command/job.cpp:108-129 | in every run with fresh internal fences, a buffer starts only after the one before it is through |
| EventOrder.ChainExact | umd/vpu_driver/source/command/command_buffer.cpp:193-251 | the buffers keep their order in all runs if and only if the internal fences start unsignalled |
| EventOrder.StaleFenceOvertakes | umd/vpu_driver/source/command/command_buffer.cpp:193-251 | on memory with a stale internal fence there is a run in which a later buffer starts first |
| EventOrder.RunEndsSignalled | umd/vpu_driver/source/command/command_buffer.cpp:239-251 | in every run, a buffer before another one that has started all its commands leaves its fence signalled |
| EventOrder.ResubmissionOvertakes | umd/vpu_driver/source/command/job.cpp:108-129 | after any complete run of a job of two or more buffers its fences are stale, and on the memory left there is an overtaking run |
| EventOrder.FirstRun | umd/vpu_driver/source/command/job.cpp:108-129 | a job of two signals runs to its end, on any memory |
| EventOrder.SecondRunSignalsEarly | umd/vpu_driver/source/command/job.cpp:108-129 | submitted again, it writes its second signal before the command in front of it has started |
| EventOrder.WaitsComeFirst | firmware/include/api/vpu_jsm_job_cmd_api.h:98-110 | in every run a command starts only after each earlier wait of its job saw its event signalled |
| EventOrder.SignalsComeLast | firmware/include/api/vpu_jsm_job_cmd_api.h:111-132 | in every run a signal, reset or barrier starts only after all earlier commands of its job completed |
| EventOrder.AppendLayout | umd/level_zero_driver/source/cmdlist.hpp:163-208 | a successful append, of a graph execution or any other command, puts waits, command and signal, if any, into the job in this order, and nothing else |
| EventOrder.AppendOrdered | umd/level_zero_driver/source/cmdlist.hpp:163-208 | in every interleaving, a command appended by a graph execution or any other append starts after each of its waits ran and saw its event signalled, and its signal is written after it completed |
| DeviceMemory.AnyOrder | firmware/include/api/vpu_jsm_job_cmd_api.h:422-447 | independent commands that agree on their bytes leave the same memory in every schedule |
| DeviceMemory.PermutedSequence | firmware/include/api/vpu_jsm_job_cmd_api.h:422-447 | the same for whole commands in any order |
| DeviceMemory.PieceAt | umd/vpu_driver/source/command/copy_command.hpp:49-90 | pieces start at multiples of 8 MB, are full but for the last, and end with the range |
| DeviceMemory.FillDescriptor | umd/vpu_driver/source/command/copy_command.hpp:49-90 | the descriptors of a copy, and exactly when it is refused, throws or wraps around |
| DeviceMemory.DescriptorsInAnyOrder | umd/vpu_driver/source/command/copy_command.hpp:49-90 | copies carried out descriptor by descriptor, in any order, have the effect of the copies |
| DeviceMemory.CreateCopy | umd/vpu_driver/source/command/copy_command.cpp:18-48 | exactly when a copy is created, and its descriptors |
| DeviceMemory.CopyCreatedExactly | umd/vpu_driver/source/command/copy_command.cpp:18-48 | exactly when a copy can be made, its device addresses, and which error another one meets |
| MemoryFill.WordRepeats | umd/level_zero_driver/source/cmdlist.cpp:216-235 | byte i of the device's pattern word is byte i mod size of the pattern |
| MemoryFill.AppendMemoryFillCmd | umd/level_zero_driver/source/cmdlist.cpp:209-271 | the loop makes the appends of the chunks, stopping at the first failure; nothing happens for a bad pattern or buffer |
| MemoryFill.FillOpsSpec | umd/level_zero_driver/source/cmdlist.cpp:248-270 | the chunks contribute the waits once, the fills in order, the signal once |
| MemoryFill.FillSucceeds | umd/vpu_driver/source/command/fill_command.cpp:19-34 | a fill succeeds exactly for size zero, or good events and a range inside the buffer |
| MemoryFill.FillLayout | umd/level_zero_driver/source/cmdlist.cpp:248-270 | what a successful fill adds: waits first, the chunks of at most 8 MB, the signal last |
| MemoryFill.FillMeaning | umd/level_zero_driver/source/cmdlist.cpp:209-271 | in every schedule byte i of the range becomes pattern byte i mod size and no other byte changes |
| MemoryFill.AppendMemoryFillAsCopyCmd | umd/level_zero_driver/source/cmdlist.cpp:273-306 | the errors in order, otherwise one append of a copy from the pattern buffer |
| MemoryFill.FillAsCopyMeaning | umd/vpu_driver/source/memory/vpu_buffer_object.cpp:196-234 | in every schedule the copy path leaves the memory the fill would leave |
| CopyRegion.RowOffsetIsMod | umd/level_zero_driver/source/cmdlist.cpp:363-365 | the row offset computed in 32 bits is the true one modulo 2^32 |
| CopyRegion.OffsetsExact | umd/level_zero_driver/source/cmdlist.cpp:363-365 | the offsets of all rows are true if and only if the last one fits 32 bits |
| CopyRegion.RowWrapsToStart | umd/level_zero_driver/source/cmdlist.cpp:363-365 | a pitch and row at which the offset wraps to 0 |
| CopyRegion.CheckedExactly | umd/level_zero_driver/source/cmdlist.cpp:321-361 | exactly which requests are accepted, and which error any other one meets |
| CopyRegion.PackedAccepted | umd/level_zero_driver/source/cmdlist.cpp:342-345 | a destination pitch equal to the width is accepted |
| CopyRegion.RectanglesAre | umd/level_zero_driver/source/cmdlist.cpp:363-379 | the rectangles lie at the device addresses of the regions' first bytes |
| CopyRegion.AppendMemoryCopyRegion | umd/level_zero_driver/source/cmdlist.cpp:308-387 | the first failing check decides; otherwise the loop makes one append per row, stopping at the first failure |
| CopyRegion.CopyRows | umd/level_zero_driver/source/cmdlist.cpp:363-384 | the loop makes the append of every row in turn, stopping at the first failure |
| CopyRegion.CopyRow | umd/level_zero_driver/source/cmdlist.cpp:364-379 | one row: offsets, buffers found, copy created and appended with all events |
| CopyRegion.RowsAgree | umd/level_zero_driver/source/cmdlist.cpp:342-345 | rows do not overlap because the pitch is at least the width; together they write the rectangle |
| CopyRegion.RegionMeaning | umd/level_zero_driver/source/cmdlist.cpp:331-387 | in every schedule the destination rectangle gets the source rectangle and nothing else changes |
| MutableUpdates.GatherCommandUpdates | umd/level_zero_driver/include/nested_structs_handler.hpp:42-63 | at most 20 descriptors are handled on any chain, and the outcome is that of the chain's first 20 |
| MutableUpdates.GatherExact | umd/level_zero_driver/source/cmdlist.cpp:784-860 | handling succeeds exactly when every descriptor is an argument in range or strides directly after an argument, and then the map says what the chain declares |
| MutableUpdates.LastValueExactly | umd/level_zero_driver/source/cmdlist.cpp:812 | the value gathered is that of the last descriptor naming the argument |
| MutableUpdates.LastStridesExactly | umd/level_zero_driver/source/cmdlist.cpp:821-851 | the strides gathered are those of the last strides descriptor directly after one naming the argument |
| MutableUpdates.UnacceptableStops | umd/level_zero_driver/source/cmdlist.cpp:815-816 | an argument out of range throws, any other bad descriptor is refused |
| MutableUpdates.ChainGathered | umd/level_zero_driver/source/cmdlist.cpp:862-873 | gathering succeeds if and only if null is reached within the limit over acceptable descriptors |
| MutableUpdates.CycleNeverEnds | umd/level_zero_driver/include/nested_structs_handler.hpp:42-63 | a cyclic chain never reaches null |
| MutableUpdates.SetUpdates | umd/vpu_driver/source/command/inference_execute.cpp:101-137 | succeeds exactly when all arguments exist, and then applies every update whatever the order |
| MutableUpdates.UpdatedAsDeclared | umd/level_zero_driver/source/cmdlist.cpp:875-909 | each argument gets the last value and last strides the chain declares for it, or stays |
| MutableUpdates.MutableCommands.UpdateMutableCommands | umd/level_zero_driver/source/cmdlist.cpp:875-909 | exactly when it succeeds, and the arguments of all commands then |
| ResourceCleaner.StepKeepsInv | umd/level_zero_driver/source/context.cpp:256-293 | every step keeps who holds the mutex, who is told to break and which requests are unseen consistent |
| ResourceCleaner.ThreadsRefineOneCall | umd/level_zero_driver/source/context.cpp:216-254 | with the context's mutex, any number of threads makes the steps of one call at a time |
| ResourceCleaner.BreakIsFinal | umd/level_zero_driver/source/context.cpp:273-288 | in every run a cleaner told to break is told nothing else |
| ResourceCleaner.NoLostWakeUp | umd/level_zero_driver/source/context.cpp:273-280 | in no run does a thread join a sleeping worker |
| ResourceCleaner.JoinEnds | umd/level_zero_driver/source/context.cpp:273-280 | while a thread joins, the worker can always step and is at most three steps from its end; then the join returns |
| ResourceCleaner.PruneIsDue | umd/level_zero_driver/source/context.cpp:259-269 | in every run memory is released only after a report of idleness to the same cleaner, and not before the timeout read when the timer was set |
| ResourceCleaner.NoticedMeansActed | umd/level_zero_driver/source/context.cpp:262-269 | in every run, a step in which the worker takes note of a request releases memory or sets the timer to the clock plus the timeout |
| ResourceCleaner.RequestActedUpon | umd/level_zero_driver/source/context.cpp:262-269 | a worker that has its mutex back with a request open acts on it in its next step |
| ResourceCleaner.ExpiredTimerPrunes | umd/level_zero_driver/source/context.cpp:262-265 | from every reachable state with a timer expired and the mutex free, two steps of the worker bring it to releasing memory |
| ResourceCleaner.PruneOncePerArming | umd/level_zero_driver/source/context.cpp:264-267 | in every run, between two releases the timer was set again |
| ResourceCleaner.AsleepIsArmed | umd/level_zero_driver/source/context.cpp:259-288 | a setIdle that finds the worker asleep can end with the timer set from the clock and the timeout |
| ResourceCleaner.TimeoutStep | umd/level_zero_driver/source/context.cpp:248-258 | the timeout used is that of the cleaner's creation or the last one applied to it |
| ResourceCleaner.EnableMeans | umd/level_zero_driver/source/context.cpp:222-228 | enabling leaves a cleaner, the same one or a new one asked for nothing |
| ResourceCleaner.DisableMeans | umd/level_zero_driver/source/context.cpp:229-232 | disabling begins to end the cleaner, if there is one |
| ResourceCleaner.EndingGoesOn | umd/level_zero_driver/source/context.cpp:273-280 | a call that ends the cleaner returns only when it is gone |
| ResourceCleaner.SetIdleGoesOn | umd/level_zero_driver/source/context.cpp:282-288 | a setIdle writes its request, and returns with the worker not asleep |
| ResourceCleaner.OnlyEarlyRequestsOverlooked | umd/level_zero_driver/source/context.cpp:259-288 | in every run only a report made before the worker first slept can be overlooked |
| ResourceCleaner.OverlookedExactly | umd/level_zero_driver/source/context.cpp:259-288 | in every run, a setIdle about to write can end overlooked without further calls if and only if the worker has not yet taken its mutex |
| ResourceCleaner.StartingSleeps | umd/level_zero_driver/source/context.cpp:259-288 | from every sound state with the worker starting, the call can end and the worker go to sleep without noticing |
| ResourceCleaner.EarlyRequestOverlooked | umd/level_zero_driver/source/context.cpp:259-288 | a run in which the worker sleeps through a report with no timer set |
| MetricActivation.MetricContext.DeactivateMetricGroups | umd/level_zero_driver/source/metric.cpp:281-295 | removes exactly the caller's entries and flags |
| MetricActivation.MetricContext.ActivateMetricGroup | umd/level_zero_driver/source/metric.cpp:297-341 | which outcome occurs exactly when; the branch for a group activated beforehand never does |
| MetricActivation.MetricContext.ActivateMetricGroups | umd/level_zero_driver/source/metric.cpp:343-366 | flags and list stay consistent; success exactly when every request is granted |
| MetricActivation.ListedOnce | umd/level_zero_driver/source/metric.cpp:316-332 | a group appears once in the list |
| MetricActivation.GrantedExactly | umd/level_zero_driver/source/metric.cpp:297-341 | all requests are granted if and only if the groups are on the device, in free domains, and pairwise in different ones |
| MetricActivation.ActiveExactly | umd/level_zero_driver/source/metric.cpp:343-366 | after a call a group is active exactly if it was before or is the first one asked for in a free domain, refused requests notwithstanding |
| MetricActivation.ActivationExact | umd/level_zero_driver/source/metric.cpp:343-366 | one call: success condition, other contexts' entries unchanged, the caller's entries are the requested groups |
| MetricActivation.RunKeepsHoldings | umd/level_zero_driver/source/metric.cpp:281-366 | in every run the list stays well formed and only a context's own calls change what it holds |
| QueryPool.SlotLayout | umd/level_zero_driver/source/metric_query.cpp:34-44 | tables and data areas are 64-byte aligned, in order and inside the buffer |
| QueryPool.SlotsDisjoint | umd/level_zero_driver/source/metric_query.cpp:34-44 | different slots share no byte |
| QueryPool.SlotsTight | umd/level_zero_driver/source/metric_query.cpp:34-44 | slots take no more room than alignment needs |
| QueryPool.EffectOnData | umd/level_zero_driver/source/metric_query.cpp:83-166 | what each operation does to the query's data and which slots are live |
| QueryPool.EffectKeepsValid | umd/level_zero_driver/source/metric_query.cpp:83-166 | every operation keeps the tables of all live queries leading to their own data |
| QueryPool.RunValid | umd/level_zero_driver/source/metric_query.cpp:46-181 | the same over every run of create, reset, destroy and device writes |
| QueryPool.OtherQueriesKeep | umd/level_zero_driver/source/metric_query.cpp:83-166 | over every run a query's data, table and liveness change only by operations on that query |
| QueryPool.MetricQueryPool.CreateMetricQuery | umd/level_zero_driver/source/metric_query.cpp:83-122 | exactly when a query is created and which error otherwise; the entry of its group then holds the device address of its data, and nothing else changes |
| QueryPool.MetricQueryPool.ResetQuery | umd/level_zero_driver/source/metric_query.cpp:159-166 | its data becomes zero, nothing else changes |
| QueryPool.MetricQueryPool.DestroyQuery | umd/level_zero_driver/source/metric_query.cpp:124-129 | its slot becomes free, no byte changes |
| QueryPool.MetricQueryPool.DeviceStores | umd/level_zero_driver/source/metric_query.cpp:24-33 | following the table, the device writes the query's own data area |
| QueryPool.MetricQueryPool.GetData | umd/level_zero_driver/source/metric_query.cpp:131-157 | sizes and errors, and that the data is the query's whole data |
| QueryPool.MetricQueryPool.DestroyPool | umd/level_zero_driver/source/metric_query.cpp:168-181 | succeeds exactly when no query is live |
| MetricDecoding.PlacesExact | umd/level_zero_driver/source/metric.cpp:218 | for two or more samples the decoder reads each value at its place if and only if all counters have one size |
| MetricDecoding.PlacesExactOnce | umd/level_zero_driver/source/metric.cpp:218 | for one sample this holds if and only if all counters but the last have the size of the stride |
| MetricDecoding.MixedGroupMisread | umd/level_zero_driver/source/metric.cpp:218 | a mixed group whose first sample is read right and whose second is not |
| MetricDecoding.ValueIsCounter | umd/level_zero_driver/source/metric.cpp:190-219 | in uniform groups value i is counter i mod n of sample i div n, read inside the raw data |
| MetricDecoding.CalculateMetricValues | umd/level_zero_driver/source/metric.cpp:173-222 | the count reported or cut, every value decoded with its type and the rest of its union kept, the rest of the array untouched |
| MetricDecoding.LoopEndsExactly | umd/level_zero_driver/source/metric.cpp:246 | the loop with its 8-bit counter ends if and only if there are at most 255 values |
| MetricDecoding.FlagsNeverEnd | umd/level_zero_driver/source/metric.cpp:246 | 256 samples of one flag keep the loop running for ever |
| MetricDecoding.MaximumStep | umd/level_zero_driver/source/metric.cpp:252-272 | taking the larger of the maximum so far and a value gives the maximum, also with NaNs |
| MetricDecoding.CalculateMaxMetricValues | umd/level_zero_driver/source/metric.cpp:224-279 | per metric the result is the maximum of the caller's value and all values read; in uniform groups, of that counter in all samples, as plain numbers for integers and flags |
| MetricDecoding.MaximaOfSamples | umd/level_zero_driver/source/metric.cpp:224-279 | in uniform groups the maxima are those of the caller's values and that counter of all samples |
| MetricDecoding.IntegerOrder | umd/level_zero_driver/source/metric.cpp:253-272 | integers and flags are compared as numbers |
| MetricOrder.Less32IsLess | umd/level_zero_driver/source/metric.cpp:261-264 | finite binary32 values are compared by their exact real values |
| MetricOrder.Less64IsLess | umd/level_zero_driver/source/metric.cpp:265-268 | finite binary64 values are compared by their exact real values |
| MetricOrder.InfinitiesAndNaNs | umd/level_zero_driver/source/metric.cpp:261-268 | infinities lie above and below all numbers, and a NaN is in no order |
| MetricOrder.LargestValue32 | umd/level_zero_driver/source/metric.cpp:261-264 | of finite binary32 counters the maximum has the largest real value |
| Bmp.SwapRows | validation/umd-test/image.cpp:116-118 | two rows are exchanged and nothing else changes |
| Bmp.ReverseRows | validation/umd-test/image.cpp:109-122 | the rows are in reverse order and the rest of the file is unchanged |
| Bmp.ToPlanes | validation/umd-test/image.cpp:124-132 | plane c holds channel c of every pixel |
| Bmp.RowsShowPicture | validation/umd-test/image.cpp:109-122 | after the reversal the pixel area shows the picture, top row first |
| Bmp.PlanesShowPicture | validation/umd-test/image.cpp:124-135 | byte c*H*W + y*W + x is channel c of pixel (x, y) of the picture |
| Bmp.Pixels | validation/umd-test/image.cpp:109-135 | both transformations together show the picture of a bottom-up or top-down file |
| Bmp.Load | validation/umd-test/image.cpp:76-136 | the outcome for every header; read off the file's bytes alone, where each byte of each pixel comes from in both layouts, for either sign of the height |
| HalfFloat.ConvertedNormal | validation/umd-test/utilities/data_handle.cpp:98-99 | the fields of the float for a normal half |
| HalfFloat.ConvertedSubnormal | validation/umd-test/utilities/data_handle.cpp:100-104 | the fields of the float for a subnormal half |
| HalfFloat.FloatIsExact | validation/umd-test/utilities/data_handle.cpp:101 | the float of a number below 2^24 has exactly its value |
| HalfFloat.ConversionExact | validation/umd-test/utilities/data_handle.cpp:93-107 | for every finite half the float is finite and has exactly the same real value |
| HalfFloat.SpecialsBecomeFinite | validation/umd-test/utilities/data_handle.cpp:98-99 | infinities and NaNs become finite floats |
| HalfFloat.DecodeOutput | validation/umd-test/graph_utilities.cpp:113-119 | the decoded buffer has the values of the raw one |
| HalfFloat.MaxElement | validation/umd-test/graph_utilities.cpp:127-128 | the index of the first maximum |
| HalfFloat.ClassIndex | validation/umd-test/graph_utilities.cpp:113-128 | for finite halves the class index is the first position of the true maximum |
| Telemetry.MaskBits | tools/intel-npu-smi/src/pmt_telemetry.cpp:129-132 | the mask is exactly the bits from lsb to msb, 63 included |
| Telemetry.PmtTelemetry.Read | tools/intel-npu-smi/src/pmt_telemetry.cpp:110-136 | floor(V / 2^lsb) mod 2^(msb-lsb+1) of the little-endian word, 0 for bad ranges |
| Telemetry.PmtTelemetry.GetFrequency | tools/intel-npu-smi/src/pmt_telemetry.cpp:138-144 | the first workpoint byte, scaled by generation |
| Telemetry.PmtTelemetry.GetVoltage | tools/intel-npu-smi/src/pmt_telemetry.cpp:146-148 | the second workpoint byte |
| Telemetry.PmtTelemetry.GetTileConfig | tools/intel-npu-smi/src/pmt_telemetry.cpp:150-152 | the third workpoint byte |
| Telemetry.PmtTelemetry.GetTemperature | tools/intel-npu-smi/src/pmt_telemetry.cpp:154-156 | the sixth temperature byte |
| Telemetry.PmtTelemetry.GetEnergy | tools/intel-npu-smi/src/pmt_telemetry.cpp:158-170 | integer and fraction parts recombine to the 32-bit reading over 2^14 |
| Telemetry.FieldsRebuildWord | tools/intel-npu-smi/src/pmt_telemetry.cpp:129-135 | however a register is cut into adjacent fields, what read returns for them rebuilds the word |

## Left out

- MetricDecoding.CalculateMaxMetricValues: only for at most 255 values, where its loop ends; LoopEndsExactly shows that it does not end otherwise.
- MetricDecoding.CalculateMetricValues: the raw data is taken to be followed by eight bytes of other memory, which a group of mixed sizes may read; groups whose counters are all of an unsupported type, where the source divides by zero, are excluded.
- MemoryFill.FillAsCopyMeaning: the pattern buffer is abstract, with the size asked for or more, and apart from the destination.
- CopyRegion.RegionMeaning: only the memory effect, since events are repeated for every row; each region lies in one buffer.
- Bmp.Load: files shorter than the two headers, and files whose header passes all checks but announces more pixels than the file has (or a negative width), which the source reads past, are excluded.
- ResourceCleaner.PruneIsDue: steps begin after the cleaner's constructor; the thread may start before the action field is initialised, which is not modelled.
- QueryPool.SlotLayout: sizes do not overflow 64 bits.
- EventOrder.AppendOrdered: internal fences are written by nobody else and start unsignalled; a wait passes when the stored value is at least the value waited for.
- CommandQueues.CommandQueue.ExecuteCommandLists: host calls on one queue are serialised; a null job in a list is not modelled.
- CommandQueues.CommandQueue.SubmitLists: a job of several buffers is submitted as a whole or not at all, while the source may submit its first buffers and then fail (umd/vpu_driver/source/device/vpu_command_queue.cpp:28-64).
- ImmediateLists.SubmissionsAreSerial: rests on that: buffers of a refused job left on the device are not seen by the next append.
- HalfFloat.ClassIndex: the FP32 branch, which only copies, is not modelled.
- Telemetry.PmtTelemetry.GetFrequency: doubles are reals, so rounding is not modelled; getNocBandwidth and the reading of the telemetry file are left out.
- The preemption buffer, in-order and turbo queue modes, busy waiting, workload types and the idle report inside waitForJobs.
- The API layer: tracing, null checks before the calls, handle tables; creation and destruction of queues and lists.
- Appends that only add a kind of command: timestamps, metric queries, graph initialisation, event reset beyond its place in the order.
- Graphs, compiler, disk cache, buffer object allocation, memory statistics and context teardown: no algorithmic property claimed.
- Firmware internals beyond the meaning of the modelled commands.
- Metric streamers, sysman, the smi display and process scan, and the test environment: input, output and user interface.
