# Verification of the image pipeline

A server captures frames into shared memory and passes them through a chain of child processes. This project models
the protocols and the arithmetic that the repository rests on and proves what they promise. `dafny verify
dfyconfig.toml` checks all of it.

## What is modelled

**The buffer pipeline** (`Pipeline`, `PipelineInvariant`, `PipelineSafety`, `PipelineTheorems`, `PipelineLiveness`,
`PipelineQuit`, `PipelineProgress`).
A transition system for any number `n >= 2` of modules and any number of buffers. Each thread of
`pipeline_server.c` and each child of `pipeline_client.c` has a program counter; one step is one action on a
semaphore, the ring's mutex or a shared field (the constructors of `Pipeline.Pc` and `Children.ChildPc` name the
statement that leaves them). The free ring, the one-slot mailboxes (`new_cmd`, `result`, `cmd`, `dataoffset`), the
process slots (`sem_job`, `sem_result`, `cmd`, `cmd_offs`, `cmd_result`), the data area and the exit flag are state. A
run is any sequence of enabled steps, so every interleaving is covered. `pipeline_destroy` may raise the exit flag at
any step. The children are an arbitrary function from a stage and its input history to the new buffer contents and a
status, so they may keep state. History fields record what each stage received and which commands were posted.

**The credit-based pipeline** (`CreditPipeline`, `CreditInvariant`, `CreditSafety`, `CreditTheorems`,
`CreditProgress`) is the other
protocol for the same job, `streamer/src/pipeline.c`: the next thread reads the previous child's slot directly and
gives it back by posting `prev->sem`. Both are proved against the same sequential filter (`FilterSpec`).

**The ring** (`RingBuffers`) exists as a class that is used by one caller at a time and as the value that the two
transition systems step through action by action; both rest on the same queue function.

**The intrusive list and the connection table** (`IntrusiveLists`): heap nodes whose `next` and `prev` represent a
sequence, every list operation, and the TCP server's loops over its connections.

**The line framer** (`LineFramer`), **the object detector** (`ObjectDetector`), **the configuration check**
(`ConfigCheck`) with the table the server builds (`ServerTable`), **the shared-memory layout** (`SharedMemory`), and **GVSP** packets, timestamps and frame assembly
(`GvspPacket`, `GvspTimestamp`, `GvspReceiver`).

`Sums` holds sums and multiset unions over the modules; `Children` what a thread shares with its child; `Basics`
optional values and 64-bit words.

## Findings

Places where the code does not always do what its surroundings suggest. Each is a lemma.

- A child whose action returns -1 leaves its loop after reporting success. The next job for it is never answered, and
  no continuation of such a run has all threads exited (`PipelineLiveness.QuitIsFatal`). A state in which no thread and
  no child can move, before or after the exit flag, is a clean end if and only if no action ever returned -1
  (`PipelineLiveness.EndIsCleanIffNoneQuit`). It does happen: `PipelineQuit.QuitHappens`, `PipelineQuit.QuitBlocks`,
  and with two modules and one buffer `PipelineQuit.QuitExample`.
- The ring's push has no overflow check. Pushing into a full ring overwrites the oldest offset
  (`RingBuffers.PutWhenFullLosesOldest`); in both pipelines it never happens (`PipelineTheorems.RingIsQueue`,
  `CreditTheorems.RingIsQueue`).
- The TCP server takes one line per read. A second complete line waits for the next read
  (`LineFramer.SecondLineWaits`, `LineFramer.AllDeliveredIff`). A connection is never read again exactly when the last
  512 bytes it sent hold no newline (`LineFramer.FullIff`, `LineFramer.FullIsStuck`).
- One large frame after fifteen others is taken for a whole object (`ObjectDetector.OneLargeFrameIsEnough`); when a
  break is reported is `ObjectDetector.BreakIff`.
- The configuration check walks by position in the file, the server links by id. An accepted file can give the server a
  source that is its own successor (`ConfigCheck.CheckedByPosition`) or a table with a hole
  (`ServerTable.SameIdIsAccepted`), and ids other than the positions can be right (`ServerTable.OtherIdsCanBeRight`).
  The server runs a chain if and only if the ids differ, no `next_id` is the number -1, and the same check accepts the
  server's table (`ServerTable.RunsChainIff`).
- An explicit `next_id` of -1 passes the check (`ConfigCheck.MinusOneIsAccepted`,
  `ConfigCheck.ChainWithoutLastIsAccepted`); the exact condition is `ConfigCheck.ShapeIff`.
- The GVSP data size comes from the receive buffer, so a short datagram carries bytes of earlier ones
  (`GvspReceiver.OwnDataIff`). The 64-bit block id is not converted from network order: 1 is reported as 2^56
  (`GvspPacket.FrameIdOfOne`, `GvspPacket.FrameIdIsSentIff`), which still tells frames apart
  (`GvspPacket.FrameIdsTellApart`).
- `memory_get_size` wraps; exactly when it does, some slot lies outside (`SharedMemory.InsideIff`,
  `SharedMemory.WrappedSizeIsTooSmall`).

## Assumptions

- The modules form a chain, which is what the configuration check is for, and every `process_start` succeeds: the
  process table has a slot for every module that starts a child. `SharedMemory.LayoutFeedsPipeline` ties this and the
  distinct buffer offsets to the layout.
- Steps are sequentially consistent, and `pipeline_action` returns.
- The slot of a child is kept inside its module. Its id is taken from the process counter, and
  `PipelineTheorems.ChildExclusive` shows that ids of different modules differ, so the slots are different ones.
- In the credit-based pipeline the children write 0 or 1 into `cmd_result`, as `streamer/examples` does.
- The callbacks of the TCP server leave `request` alone, and GVSP frames fit their buffer (the code does not check).

## Model

| member | source | states |
|---|---|---|
| PipelineTheorems.DeliveryIsFilter | pipeline/src/pipeline_server.c:48-180 | In every reachable state, for every chain length and interleaving, the finalization has received in order a prefix of what the sequential chain of filters makes of the captured frames, and all of it once every thread has exited. |
| PipelineTheorems.DeliveredWherePassed | pipeline/src/pipeline_server.c:157-168 | For process stages that judge each frame alone, whatever the source captures: the delivered frames are, in order, a prefix of the captured ones for which every process stage returned cmd_result 0, and all of those once every thread has exited. |
| PipelineProgress.CapturedIsProduced | pipeline/src/pipeline_client.c:70-75 | In every reachable state the captured frames are what the source's child made, one after the other, each from the ones before it. |
| PipelineProgress.DeliveredIsProduced | pipeline/src/pipeline_server.c:48-180 | End to end: what the finalization received is a prefix of what the chain of actions makes of the source's first frames, and all of it at the end. |
| PipelineProgress.ActionEffect | pipeline/src/pipeline_client.c:70-75 | An action works on the buffer its thread submitted, sees what is in it and replaces it; the rest of the data area stays. |
| PipelineTheorems.BuffersConserved | pipeline/src/pipeline_server.c:104-168 | Each offset is in exactly one of the ring, one thread's hands, one unread mailbox; at the end the ring holds each once. |
| PipelineTheorems.BuffersNotShared | pipeline/src/pipeline_server.c:104-168 | A buffer in a thread's hands is not queued, not in any mailbox, not in another thread's hands. |
| PipelineTheorems.RingIsQueue | misc/src/ring_buffer.c:38-59 | At semaphore and mutex granularity the ring is a FIFO queue: semaphore plus operations under way equals `used`, a popper finds an offset, a pusher finds room, one thread at a time is inside. |
| PipelineTheorems.MailboxExclusive | pipeline/src/pipeline_server.c:142-168 | One token per mailbox: a message is neither overwritten unread nor read while it is written, and is read once. |
| PipelineTheorems.ChildExclusive | pipeline/src/pipeline_server.c:109-112 | Thread and child never use slot or buffer at once, the result read is the one for the buffer just submitted, started stages own distinct slots of the table. |
| PipelineTheorems.SlotsFit | pmngr/src/process_mngr.c:66-78 | In every reachable state the process counter is within the table and a module that has not started finds a free slot. |
| PipelineTheorems.StopOnce | pipeline/src/pipeline_server.c:170-177 | On each link and to each child: jobs, then one STOP, then nothing; the STOP arrives after every frame sent before it. |
| PipelineTheorems.InitInv | pipeline/src/pipeline_server.c:257-282 | The semaphores, commands and ring that pipeline_thread sets up satisfy the invariant. |
| PipelineSafety.StepKeepsInv | pipeline/src/pipeline_server.c:48-180 | Every action of every thread and child keeps the invariant of mailboxes, slots, streams, ring, buffers and ids. |
| PipelineLiveness.NoDeadlock | pipeline/src/pipeline_server.c:95-180 | While no child has quit, in a reachable state where some thread has not exited a thread or a child can move, with or without the exit flag. |
| PipelineProgress.ThreadWaitsIff | pipeline/src/pipeline_server.c:48-180 | In a reachable state a thread cannot move if and only if it waits at an empty semaphore, at the held mutex of the ring, or has exited. |
| PipelineProgress.ChildWaitsIff | pipeline/src/pipeline_client.c:62-63 | A child cannot move if and only if it waits for a job or has left its loop; the exit flag can be raised whenever it is down. |
| PipelineProgress.NoLivelock | pipeline/src/pipeline_server.c:104-118 | Every run of more than a bounded number of steps without the exit flag makes the source look at the flag again. |
| PipelineProgress.KeepsCapturing | pipeline/src/pipeline_server.c:104-118 | While the flag is down and no action returns -1, from every reachable state a run leads to one more captured frame. |
| PipelineProgress.StopNeedsExit | pipeline/src/pipeline_server.c:104-127 | No thread begins to stop, and no STOP is sent to a module or child, before the exit flag is raised. |
| PipelineProgress.CanShutDown | pipeline/src/pipeline_server.c:328-330 | If no action returns -1, from every reachable state a run leads to all threads exited and the whole filtered stream delivered. |
| PipelineLiveness.StepDescends | pipeline/src/pipeline_server.c:104-179 | Once the exit flag is set, every step makes a natural-number measure smaller. |
| PipelineLiveness.ShutdownTerminates | pipeline/src/pipeline_server.c:104-179 | From any reachable state with the exit flag set the length of every run is bounded, and a run to a state without a next step exists. |
| PipelineLiveness.ShutdownCompletes | pipeline/src/pipeline_server.c:104-179 | If no action returns -1, a run that cannot go on has all threads exited, all children stopped, the whole filtered stream delivered and every buffer back in the ring. |
| PipelineLiveness.EndIsCleanIffNoneQuit | pipeline/src/pipeline_client.c:75-91 | A reachable state in which no thread and no child can move, before or after the exit flag, has all threads exited if and only if no action of any child has returned -1. |
| PipelineLiveness.QuitIsFatal | pipeline/src/pipeline_client.c:78-91 | After some action returned -1, no continuation ends with all threads exited. |
| PipelineQuit.QuitHappens | pipeline/src/pipeline_client.c:75-91 | For every configuration whose first capture returns -1, a state with a quit child is reachable before the exit flag. |
| PipelineQuit.QuitBlocks | pipeline/src/pipeline_client.c:75-91 | And so is one in which no thread and no child can move although threads have not exited. |
| PipelineQuit.QuitExample | pipeline/src/pipeline_client.c:75-91 | Such a configuration exists with two modules and one buffer. |
| FilterSpec.ChainOfLogs | pipeline/src/pipeline_server.c:141-168 | If each stage was given a prefix of what the one before forwarded, the last output is a prefix of the sequential chain's. |
| FilterSpec.PassesIff | pipeline/src/pipeline_client.c:75-85 | A frame is forwarded if and only if the status was 0 or -1, the status of a child that quits. |
| FilterSpec.ChainKeeps | pipeline/src/pipeline_server.c:157-168 | For stateless process stages the sequential chain keeps, in order, exactly the captured frames that all stages passed. |
| CreditTheorems.DeliveryIsFilter | streamer/src/pipeline.c:23-121 | The credit-based protocol implements the same sequential filter, at every moment and at the end. |
| CreditTheorems.DeliveredWherePassed | streamer/src/pipeline.c:58-73 | For middle stages that judge each packet alone: the finish thread receives, in order, the captured packets that every middle stage passed. |
| CreditProgress.ActionEffect | streamer/examples/filter.c:53-72 | An action works on the buffer its thread submitted, sees what is in it and replaces it; the rest of the data area stays. |
| CreditTheorems.RingIsQueue | misc/src/ring_buffer.c:38-59 | In this protocol too the ring is a FIFO queue at semaphore and mutex granularity, and every push finds room. |
| CreditTheorems.SlotStableWhileRead | streamer/src/pipeline.c:34-83 | One token per stage among its thread, its child, the next thread and the semaphores; while the next thread reads the slot nobody changes it and it describes the packet processed last. |
| CreditTheorems.BuffersConserved | streamer/src/pipeline.c:30-117 | No packet is duplicated or lost, and all are back in the ring at the end. |
| CreditTheorems.StopAfterEveryPacket | streamer/src/pipeline.c:42-63 | Each child gets jobs and then one STOP; the next thread stops only after every earlier packet has left the link. |
| CreditTheorems.NoDeadlock | streamer/src/pipeline.c:23-121 | In a reachable state where some thread has not exited a thread or a child can move, with or without the exit flag; when all have exited, all children have too. |
| CreditProgress.ThreadWaitsIff | streamer/src/pipeline.c:23-121 | In a reachable state a thread cannot move if and only if it waits at an empty semaphore, at the held mutex of the ring, or has exited. |
| CreditProgress.ChildWaitsIff | streamer/examples/capturer.c:53-54 | A child cannot move if and only if it waits for a job or has exited; the exit flag can be raised whenever it is down. |
| CreditProgress.NoLivelock | streamer/src/pipeline.c:30-39 | Every run of more than a bounded number of steps without the exit flag makes the start thread look at the flag again. |
| CreditProgress.KeepsCapturing | streamer/src/pipeline.c:30-39 | While the flag is down, from every reachable state a run leads to one more packet given to the first child. |
| CreditProgress.FirstPacket | streamer/src/pipeline.c:30-39 | With the flag down a state is reachable in which a packet has been captured. |
| CreditProgress.StopNeedsExit | streamer/src/pipeline.c:30-43 | No thread begins to stop, and no child is sent STOP, before the exit flag is raised. |
| CreditProgress.CanShutDown | streamer/src/pipeline.c:30-121 | From every reachable state a run leads to all threads exited and the whole filtered stream delivered. |
| CreditTheorems.StepDescends | streamer/src/pipeline.c:23-121 | Once the exit flag is set, every step makes a natural-number measure smaller. |
| CreditTheorems.ShutdownCompletes | streamer/src/pipeline.c:30-121 | Runs after the exit flag are bounded, and one that cannot go on has delivered all, returned every buffer and stopped every child. |
| CreditSafety.StepKeepsInv | streamer/src/pipeline.c:23-121 | Every action keeps the invariant of the credit-based protocol. |
| RingBuffers.RingBuffer.Create | misc/src/ring_buffer.c:7-30 | A new ring is empty or holds max_cnt zero offsets, semaphore and counter agreeing. |
| RingBuffers.RingBuffer.Pop | misc/src/ring_buffer.c:38-48 | Returns and removes the oldest offset. |
| RingBuffers.RingBuffer.Push | misc/src/ring_buffer.c:50-59 | With room, appends the offset. |
| RingBuffers.RingBuffer.Fill | pipeline/src/pipeline_server.c:267-269 | A ring created full and filled by index hands out the buffer offsets in ascending order. |
| RingBuffers.TakeFirst | misc/src/ring_buffer.c:43-45 | The index arithmetic of a pop removes the first element of the queue, across the wrap-around. |
| RingBuffers.PutLast | misc/src/ring_buffer.c:54-56 | The index arithmetic of a push appends to the queue, across the wrap-around. |
| RingBuffers.PutWhenFullLosesOldest | misc/src/ring_buffer.c:52-56 | Without room the push overwrites the oldest offset and the counter leaves its range. |
| IntrusiveLists.RingInverse | misc/include/misc/list.h:24-94 | next and prev are inverse to each other everywhere on a list. |
| IntrusiveLists.RingUnique | misc/include/misc/list.h:24-94 | The heap determines the sequence that a list represents. |
| IntrusiveLists.Init | misc/include/misc/list.h:92-94 | An initialised list is empty. |
| IntrusiveLists.First | misc/include/misc/list.h:16-18 | The first element, or the head of an empty list. |
| IntrusiveLists.Last | misc/include/misc/list.h:20-22 | The last element, or the head of an empty list. |
| IntrusiveLists.IsEmpty | misc/include/misc/list.h:84-86 | True exactly for the empty list. |
| IntrusiveLists.AddFront | misc/include/misc/list.h:24-32 | Traps exactly for an element that is linked already and then changes nothing; otherwise inserts in front. |
| IntrusiveLists.AddBack | misc/include/misc/list.h:34-42 | The same at the back. |
| IntrusiveLists.InsertAfter | misc/include/misc/list.h:44-54 | The same behind any element, or behind the head. |
| IntrusiveLists.InsertBefore | misc/include/misc/list.h:56-66 | The same in front of any element, or of the head. |
| IntrusiveLists.Replace | misc/include/misc/list.h:68-75 | The new element takes the place of the old if and only if it is not the head and not on the list already; the old one ends unlinked. |
| IntrusiveLists.Remove | misc/include/misc/list.h:77-82 | Removes that element only, which ends unlinked. |
| IntrusiveLists.Server.ConnectionAdd | tcp/src/tcp_process.c:71-82 | Appends a fresh connection, counts it, never traps; nothing changes when there is no memory. |
| IntrusiveLists.Server.ConnectionDelete | tcp/src/tcp_process.c:99-107 | Removes that connection, counts down and closes its descriptor. |
| IntrusiveLists.Server.VisitNext | tcp/src/tcp_process.c:270-292 | One round of the pass: the next item is the right one even when the connection is deleted. |
| IntrusiveLists.Server.Sweep | tcp/src/tcp_process.c:264-329 | The pass that may delete what it visits visits each connection once, in order, up to the one whose callback raises the exit flag; the closed ones are gone and the others remain in order. |
| IntrusiveLists.Server.Destroy | tcp/src/tcp_process.c:142-152 | Ends with an empty list and a zero count, every descriptor closed once, in order. |
| LineFramer.Connection.OnReadable | tcp/src/tcp_process.c:276-328 | The buffer code computes the framing function; a full buffer is skipped unchanged. |
| LineFramer.Connection.FindNewline | tcp/src/tcp_process.c:296 | The first newline among the used bytes, -1 exactly when there is none. |
| LineFramer.Connection.CutLine | tcp/src/tcp_process.c:297-328 | The line is what is before the newline, the buffer keeps what is behind it. |
| LineFramer.Serve | tcp/src/tcp_process.c:276-328 | A connection's reads, one after the other, deliver the lines of the framing function. |
| LineFramer.BytesKept | tcp/src/tcp_process.c:281-328 | For any split into reads: delivered lines with their newlines, then the buffer, are exactly the bytes read. |
| LineFramer.LinesHaveNoNewline | tcp/src/tcp_process.c:296-299 | No delivered line contains a newline. |
| LineFramer.FullMeansNoLine | tcp/src/tcp_process.c:276-281 | The buffer stays within 512 bytes and holds no newline when it is full. |
| LineFramer.FullIsStuck | tcp/src/tcp_process.c:276-280 | A connection accepts no further read if and only if the last 512 bytes of its stream hold no newline. |
| LineFramer.FullIff | tcp/src/tcp_process.c:276-328 | The buffer is full if and only if the last 512 bytes of the stream hold no newline, however it was read. |
| LineFramer.StuckForGood | tcp/src/tcp_process.c:276-280 | No longer sequence of reads continues one that ends like that. |
| LineFramer.DeliveredAreFirstLines | tcp/src/tcp_process.c:296-328 | Whatever the reads, the delivered lines are the first complete lines of the stream and the buffer holds the others. |
| LineFramer.ChunkingDoesNotMatter | tcp/src/tcp_process.c:281-328 | Two splits of the same bytes deliver the same lines as far as both got, and end alike when no complete line waits. |
| LineFramer.BacklogBound | tcp/src/tcp_process.c:296-328 | The complete lines waiting are at most m exactly when no run of final reads brought more than m newlines above one per read. |
| LineFramer.AllDeliveredIff | tcp/src/tcp_process.c:296-328 | All complete lines have been delivered if and only if no run of final reads brought more newlines than it has reads. |
| LineFramer.SecondLineWaits | tcp/src/tcp_process.c:296-328 | Of two lines that arrive in one read only the first is delivered. |
| ObjectDetector.Detector.OnFrame | cvcamera/src/cvcollector.cpp:127-153 | After each frame the counters are those of the history, and a break is reported, with the object's length, exactly when the history has one. |
| ObjectDetector.Collect | cvcamera/src/cvcollector.cpp:67-153 | The breaks over a stream are its one split into objects, each with its length. |
| ObjectDetector.CountersDescribeTail | cvcamera/src/cvcollector.cpp:62-65 | The counters are the 1-based position of the last frame >= 150 since the last break and the numbers of small and other frames behind it, and add up to the frames since the break. |
| ObjectDetector.BreaksSplit | cvcamera/src/cvcollector.cpp:131-144 | Each segment ends with the first frame that completes an object; no complete object is left over. |
| ObjectDetector.SplitIsUnique | cvcamera/src/cvcollector.cpp:131-144 | A stream has one such split only. |
| ObjectDetector.BreaksAreApart | cvcamera/src/cvcollector.cpp:133-143 | Breaks are at least 24 frames apart, each at the eighth small frame behind the last large one. |
| ObjectDetector.BreakIff | cvcamera/src/cvcollector.cpp:131-153 | Some break is reported if and only if a large frame, sixteenth or later, is followed by eight small ones before the next large one. |
| ObjectDetector.LimitsAre | cvcamera/src/cvcollector.cpp:130-153 | n frames without a radius, one radius a, then m radii b hold an object if and only if n >= 15, a >= 150, m >= 8 and b < 135; no number is neither small nor large. |
| ObjectDetector.OneLargeFrameIsEnough | cvcamera/src/cvcollector.cpp:130-150 | Fifteen small frames, one large and eight small are an object. |
| ConfigCheck.DfsCheck | config/src/config.cpp:21-39 | The marking recursion decides the check function, marks only more, and terminates by the number of unmarked modules. |
| ConfigCheck.CheckIff | config/src/config.cpp:21-39 | The check accepts if and only if following `next` visits every unmarked module exactly once and then ends at -1. |
| ConfigCheck.ReadConfiguration | config/src/config.cpp:70-131 | After parsing, a configuration is accepted if and only if the entries without a successor are the LAST ones, one is FIRST, and from it every entry is visited once; the modules are those of the entries. |
| ServerTable.GoodIff | config/src/config.cpp:21-111 | What is accepted, read off the file: the entries without next_id are the LAST ones, one is FIRST, and from it next_id leads through every entry once to a missing next_id or -1. |
| ServerTable.ShapeIsGood | config/src/config.cpp:105-126 | Whatever stands in pipeline shape in the file is accepted, wherever its FIRST entry is. |
| ConfigCheck.OnePredecessor | config/src/config.cpp:21-39 | Accepted: every module but the first has a predecessor, none has two, one has no successor. |
| ConfigCheck.ShapeIff | config/src/config.cpp:92-111 | An accepted configuration is source, process stages, finalization in a chain if and only if no entry has the number -1 as next_id. |
| ConfigCheck.MinusOneIsAccepted | config/src/config.cpp:92-100 | A single FIRST entry with the number -1 is accepted and is no pipeline. |
| ConfigCheck.ChainWithoutLastIsAccepted | config/src/config.cpp:92-100 | So is a chain that ends in a process stage. |
| ConfigCheck.Arrange | pipeline/src/pipeline_server.c:204-226 | The server's table holds each module under its id; the later of two with one id stays. |
| ConfigCheck.TableIsArranged | pipeline/src/pipeline_server.c:204-226 | When ids do not clash every place of the table holds the module with that id. |
| ServerTable.LaterStays | pipeline/src/pipeline_server.c:204-226 | Of several modules with one id the last one stays in the table. |
| ConfigCheck.IdsArePositions | pipeline/src/pipeline_server.c:204-226 | When ids are positions the table is the file order, and the server runs the chain that was checked if and only if no entry has the number -1. |
| ConfigCheck.CheckedByPosition | pipeline/src/pipeline_server.c:204-226 | Otherwise an accepted configuration can give the server a source that is its own successor. |
| ServerTable.RunsChainIff | pipeline/src/pipeline_server.c:204-226 | From an accepted configuration with ids that fit the table, the server runs source, process stages and finalization in a chain if and only if the ids differ, no entry has the number -1, and the same check accepts the table from the FIRST module. |
| ServerTable.FilledIff | pipeline/src/pipeline_server.c:204-226 | Every place of the table is written if and only if no two modules have the same id. |
| ServerTable.TableIff | config/src/config.cpp:21-39 | A table with one FIRST and the right ends is a chain if and only if no entry has the number -1 and the check accepts it. |
| ServerTable.OtherIdsCanBeRight | pipeline/src/pipeline_server.c:204-226 | Four modules whose ids are not their positions and that the server runs as a chain. |
| ServerTable.SameIdIsAccepted | pipeline/src/pipeline_server.c:204-226 | Two entries with one id are accepted and leave a hole. |
| SharedMemory.SizeIsNeeded | shmem/include/shmem/shared_memory_map.h:26-51 | For all counts and sizes the computed size is the needed one modulo 2^64, and data offset plus data size is the total. |
| SharedMemory.AlignOfWrap | shmem/include/shmem/shared_memory_map.h:4 | Aligning a wrapped size is wrapping the size rounded up to a multiple of 256. |
| SharedMemory.InsideIff | shmem/include/shmem/shared_memory_map.h:26-51 | Every slot lies in its area and every area in the memory if and only if the needed bytes fit 64 bits. |
| SharedMemory.SlotsDisjoint | shmem/include/shmem/shared_memory_map.h:37-46 | Header, process slots and data slots share no byte. |
| SharedMemory.LayoutFeedsPipeline | pipeline/src/pipeline_server.c:264-269 | The buffer offsets are distinct, so the pipeline starts from a valid configuration exactly when the process table is large enough. |
| SharedMemory.WrappedSizeIsTooSmall | shmem/include/shmem/shared_memory_map.h:26-30 | 2^30 buffers of 2^34 bytes wrap to an empty data area. |
| GvspPacket.AccessorsReadHeader | capture/include/capture/gvsp.h:84-144 | For every header of either form the accessors return the fields that were sent and the data behind it, the 64-bit block id byte-reversed. |
| GvspPacket.PacketIsHeaderAndData | capture/include/capture/gvsp.h:84-144 | Every packet is its decoded header followed by its data. |
| GvspPacket.FrameIdsTellApart | capture/include/capture/gvsp.h:120-130 | Two extended packets get the same frame id exactly when they carry the same block id. |
| GvspPacket.FrameIdIsSentIff | capture/include/capture/gvsp.h:120-130 | The extended frame id is the one sent if and only if its bytes read the same backwards. |
| GvspPacket.FrameIdOfOne | capture/include/capture/gvsp.h:120-130 | Block id 1 in an extended header is reported as 2^56. |
| GvspTimestamp.ExactIff | capture/include/capture/gvsp.h:191-208 | For f >= 1 the result is floor(t * 10^9 / f) if and only if the product of the rest and the result fit 64 bits. |
| GvspTimestamp.SplitIsExact | capture/include/capture/gvsp.h:201-206 | Converting seconds and rest separately loses nothing to rounding. |
| GvspTimestamp.ExactWhenFrequencyIsLow | capture/include/capture/gvsp.h:201-206 | While (f - 1) * 10^9 fits 64 bits only the size of the result matters. |
| GvspTimestamp.Monotone | capture/include/capture/gvsp.h:201-206 | Then later ticks never give an earlier time. |
| GvspTimestamp.ZeroFrequency | capture/include/capture/gvsp.h:197-199 | Without a frequency the result is 0. |
| GvspTimestamp.TicksAreEightBytes | capture/include/capture/gvsp.h:201 | The two halves put together are the eight bytes as one number. |
| GvspReceiver.Receiver.OnDatagram | capture/src/camera.c:93-223 | One datagram: frame data, counters and callbacks stay those of the packets received; the duplicate branch is dead. |
| GvspReceiver.Receiver.SwitchFrame | capture/src/camera.c:113-128 | Hands over the frame under way with its id and begins anew. |
| GvspReceiver.Receiver.Assemble | capture/src/camera.c:113-223 | One packet: a new id hands over the frame under way and begins anew, then the packet is taken, or ignored while no frame has begun. |
| GvspReceiver.Receiver.TakePacket | capture/src/camera.c:130-213 | Appends the data of a block without error and counts errors and unknown content. |
| GvspReceiver.ClassOfHeader | capture/src/camera.c:130-213 | On the wire: status 0x80 is an error, otherwise content 1 is a leader, 2 a trailer, 3 a block, anything else ignored; only a block without error adds data, and all of it. |
| GvspReceiver.Stream | capture/src/camera.c:103-222 | Over any datagrams the callbacks are the complete frames in order, and received = error + ignored + leaders + blocks + trailers. |
| GvspReceiver.RunsAreMaximal | capture/src/camera.c:111-128 | Frames are the maximal runs of equal ids behind the ignored initial run of id 0. |
| GvspReceiver.StartsAreTheChanges | capture/src/camera.c:113-128 | Frames begin exactly where the id changes. |
| GvspReceiver.FramesSnoc | capture/src/camera.c:113-128 | One packet more completes a frame exactly if it changes the id of a frame under way. |
| GvspReceiver.NoByteLost | capture/src/camera.c:188-190 | The data handed over and the data under way are, in order, the data of every good block since the first start. |
| GvspReceiver.EveryPacketCounted | capture/src/camera.c:103-222 | Every packet is an error, ignored, a leader, a block or a trailer, once. |
| GvspReceiver.CountsAre | capture/src/camera.c:129-223 | Before the first start every packet is ignored; from then on each counter counts the packets of its class. |
| GvspReceiver.OwnDataIff | capture/include/capture/gvsp.h:144-151 | For a datagram of any length: the copied data is its own data followed by what is left in the receive buffer, and is its own alone if and only if nothing is left. |

## Left out

- `model/src/model.c` and `streamer/src/streamer.c`: near-copies of the mailbox protocol.
- `command_server/src/command_server.c`: creates its ring already full, so its pushes are outside the ring's contract.
- `messenger/src/messenger.c`: its framing returns before it consumes the line.
- The byte-level reassembly of frames in `cvcamera/src/cvcollector.cpp`: the detector is modelled per complete frame, and `findRadius` is an input.
- Threads and children are steps of a transition system, not classes, because they run concurrently; the ring is both.
- fork, exec, environment and signals: `process_start` is slot allocation; `process_kill_all` and the process counter that is never reset are not modelled.
- Starting and joining threads, destroying the process slots, and logging; the log line that `streamer/src/pipeline.c` prints after giving a slot back reads the slot without protection.
- Memory allocation failures except in `connection_add`, and string copying.
- Sockets, select, mmap, JSON parsing, OpenCV, aravis and glib code, the Python bindings, GVCP registers: I/O or foreign code. Events, reads, datagrams and parsed entries are inputs.
- A line with a zero byte in it: the callbacks of the TCP server would see only what is in front of that byte.
- The 32-bit counters of the detector, of the list and of the GVSP receiver are unbounded numbers.
- GVSP leader fields other than the timestamp, and the per-frame error count, which nothing reads.
- PipelineLiveness.ShutdownCompletes: needs children that never return -1; EndIsCleanIffNoneQuit gives the exact condition.
- PipelineLiveness.NoDeadlock: for states in which no child has quit; QuitBlocks shows a reachable one that is blocked otherwise.
- GvspReceiver.Receiver.OnDatagram: needs room in the frame buffer, which the code does not check; what C does beyond the buffer is not defined.
- GvspReceiver.Receiver.TakePacket: needs room for the block, for the same reason.
- GvspReceiver.Receiver.Assemble: needs room for the block, for the same reason.
- GvspReceiver.Stream: needs sessions in which every frame fits its buffer, for the same reason.
- ConfigCheck.Arrange: needs ids inside the table; the code writes through any id, and what C does outside the table is not defined.
- ServerTable.RunsChainIff: needs ids inside the table, for the same reason.
