# The queue, the file system and the framing of the message broker

The broker of this repository rests on three pieces of C: a bounded producer-consumer queue with
three mutexes and two condition variables, TecnicoFS (an in-memory file system over malloc'ed tables),
and a wire format of opcodes and packed structs. This project models the three and proves what each
is for.

**The queue** (`RingModel`, `PcQueue`, `WrapAround`, `QueueMachine`, `QueueSafety`, `QueueContents`,
`QueueRuns`, `QueueLiveness`, `QueueReach`).
`PcQueue.Queue` is the queue as one thread sees it, an array updated in place, with the history of
everything ever enqueued as a ghost field. `QueueMachine` is the queue as any number of threads see it:
each call of `pcq_enqueue` or `pcq_dequeue` is a record with a program counter, and one step executes
one lock, wait, comparison, write, unlock or signal line of one call (`QueueMachine.Line` is the
program). Waiting releases the size lock and sleeps in one step, a signal moves one sleeper of the
right kind (any one) to "awake, must lock again" and is lost if there is none, and sleepers may also
wake up for no reason. The counters `pcq_head` and `pcq_tail` are `size_t` and wrap at `modulus`. What
the two buffer writes do is recorded in a history, and the theorems are about every run from
`pcq_create` on, for every capacity, every number of calls and every element, NULL included: no line
faults, the opposite lock orders cannot deadlock, no wake-up is lost, every schedule with finitely many
spurious wake-ups ends, with all calls returned exactly when the workload fits, and calls appear in the
history once and in real-time order, even when counters have wrapped. The history is one of the
sequential queue exactly as long as no element is stored over a waiting one. `QueueReach` shows that the
runs are there: any call at any time, any schedule, every workload.

**TecnicoFS** (`FsBytes`, `FsModel`, `AbsFs`, `FsInv`, `FsCount`, `FsRefine`, `FsSimulation`, `FsRuns`,
`FsRoundTrip`, `FsHistory`, `FsLaws`, `FsMisuse`, `Tfs`). `Tfs.TecnicoFs` is the program: arrays for the inode table, the open-file table and
the three allocation tables, and one flat byte array `data` in which the root directory is read and written as
44-byte records, with the loops of the source. `FsModel` says on values what each C function does to
the tables, and the methods of the class are proved to do just that. `AbsFs` is what the file system is
for: names with byte strings and handles with independent offsets, bounded by four limits, without
inodes, blocks or slots. `FsInv` proves the invariant over the five tables, `FsSimulation` the
simulation of each operation, failures included, and `FsRuns` lifts it to whole runs. `FsLaws` says
what each call does in terms of paths, bytes and handles alone, and that this leaves nothing open;
`FsRoundTrip` and `FsHistory` are about calls one after the other, and `FsMisuse` shows what happens when
the preconditions are ignored. The
`ALWAYS_ASSERT`s of the source (valid inode and block numbers, taken inodes and handles) are
preconditions that every caller is proved to meet.

**The framing** (`Framing`). The struct builders fill memory with arbitrary contents in place, `Pipe`
is the byte stream, and `Parse` is the reader's loop; `Post` and `Collect` put them together, from the
values of a message to the values the broker reads.

Where code and comments differ the model follows the code. `producer-consumer.h` says that elements go
in at the front and come out at the back; the code stores at the tail and fetches at the head.
`operations.h` speaks of links in `tfs_unlink`; there are none in the code.

Some laws hold only under conditions. Each condition is something a caller can check, is shown to be
exact, and comes with a run on which the law fails without it:

- first in, first out: an enqueue keeps the order exactly when its element lands in a slot of no waiting
  element (`RingModel.Lands`; `WrapAround.FifoExact`, and `WrapAround.LandsIfNull` for what the caller
  sees). In the machine the buffer is in order exactly as long as that is so
  (`QueueContents.ContentsNext`, `QueueRuns.RunContentsExact`). A capacity that divides 2^w never sees it
  fail, no capacity does for the first 2^w enqueues (`QueueRuns.RunLands`), and every other capacity can
  be driven to it (`WrapAround.EveryWrapLosesAnElement`).
- truncating must not happen under a handle with an offset, and unlinking not under an open handle
  (`AbsFs.MayTruncate`, `AbsFs.MayUnlink`). Exactly the calls that respect this keep the invariant
  (`FsSimulation.OpenExact`, `FsSimulation.UnlinkKeepsIff`, `FsRuns.StepExact`), and exactly such runs
  (`FsRuns.RunExact`). `FsMisuse.TruncateUnderHandle` and `FsMisuse.UnlinkUnderHandle` are runs from
  formatting on that do not.
- the length of a write must not wrap around with the offset: `FsModel.WriteLengthExact`, and
  `FsMisuse.WrappedWrite` for a run.

## Model

| member | source | states |
|---|---|---|
| RingModel.SlotsDiffer | producer-consumer/producer-consumer.c:93-96 | two logical indices less than one capacity apart never share a slot of the buffer |
| RingModel.WrappedSlot | producer-consumer/producer-consumer.c:93-96 | a counter that wraps at `modulus` still selects the slot of its logical index, before the first wrap or for ever if the capacity divides the modulus |
| RingModel.WrapExact | producer-consumer/producer-consumer.c:93-96 | every counter value selects its slot if and only if the capacity divides the modulus |
| RingModel.FitsLands | producer-consumer/producer-consumer.c:93-96 | while the counter fits (the capacity divides the modulus, or at most `modulus` enqueues) an element is stored in a slot of no waiting element |
| RingModel.WrapLands | producer-consumer/producer-consumer.c:93-96 | when the counter wraps with one slot free, the next element is stored in that slot if and only if the capacity divides the modulus |
| RingModel.HeadBeforeTailLands | producer-consumer/producer-consumer.c:93-96 | for any capacity an element is stored in a slot of no waiting element unless the tail has wrapped and the head has not |
| RingModel.StoreKeepsSlots | producer-consumer/producer-consumer.c:95-96 | a store that lands in a slot of no waiting element finds NULL there and appends exactly one element to the waiting ones |
| RingModel.EraseKeepsSlots | producer-consumer/producer-consumer.c:147-149 | the slot fetched from holds the oldest element, and erasing it removes exactly that one |
| RingModel.StoreExact | producer-consumer/producer-consumer.c:95 | the store leaves the buffer holding exactly the waiting elements, each in the slot its wrapped counter selects, if and only if it lands in a slot of no waiting element |
| PcQueue.WrapLosesAnElement | producer-consumer/producer-consumer.c:93-102 | concrete run (capacity 3, counters modulo 4): after 1 2 3 4 5 went in, 1 2 3 5 come out |
| PcQueue.PushExact | producer-consumer/producer-consumer.c:93-102 | an enqueue leaves a queue at rest that is not full in order if and only if the element lands in a slot of no waiting element |
| PcQueue.PopKeeps | producer-consumer/producer-consumer.c:145-156 | a dequeue returns and removes the oldest element, wherever the counters have wrapped |
| WrapAround.AtRestInOrder | producer-consumer/producer-consumer.c:119-172 | dequeuing everything from a queue at rest returns the waiting elements in order |
| WrapAround.FifoExact | producer-consumer/producer-consumer.c:93-102 | an enqueue keeps the order of what comes out if and only if the element lands in a slot of no waiting element, and if and only if the queue is still one at rest |
| WrapAround.LandsIfNull | producer-consumer/producer-consumer.c:95 | without NULL elements that can be seen before the call: the slot of the tail holds NULL |
| WrapAround.StoredOver | producer-consumer/producer-consumer.c:93-102 | an element stored over a waiting one comes out some dequeues later, in its place |
| WrapAround.EveryWrapLosesAnElement | producer-consumer/producer-consumer.c:10-172 | every capacity that does not divide the modulus loses the order of a queue used from `pcq_create` on, whatever was enqueued |
| PcQueue.Queue.constructor | producer-consumer/producer-consumer.c:10-40 | a new queue is empty, all slots NULL |
| PcQueue.Queue.Enqueue | producer-consumer/producer-consumer.c:93-102 | what the fields become; the queue stays in order, its contents longer by the element (NULL or not), if and only if the element lands in a slot of no waiting element |
| PcQueue.Queue.Dequeue | producer-consumer/producer-consumer.c:145-156 | returns the oldest element and removes exactly it |
| PcQueue.Queue.Destroy | producer-consumer/producer-consumer.c:42-49 | the loop over the whole capacity frees each waiting element that is not NULL once and nothing that was consumed |
| PcQueue.NonNullAreTheContents | producer-consumer/producer-consumer.c:47-49 | the non-NULL slots are, as a multiset, the non-NULL elements enqueued and not dequeued |
| QueueSafety.InvCreated | producer-consumer/producer-consumer.c:26-37 | the invariant holds after `pcq_create` |
| QueueSafety.LockInvAct | producer-consumer/producer-consumer.c:66-172 | every line keeps each lock held by exactly the call whose program counter says so |
| QueueSafety.InFlightAct | producer-consumer/producer-consumer.c:93-104 | every line of the critical sections keeps head, tail and size equal to the history's counts up to the correction for that line (tail - head is size + 1 between the store and the increment of the size) |
| QueueSafety.RingInvHolder | producer-consumer/producer-consumer.c:72-104 | every line of the holder of the size lock keeps counters and history in agreement, whatever the counters have wrapped to |
| QueueSafety.InvNext | producer-consumer/producer-consumer.c:66-172 | the invariant on locks, counters and calls is inductive over calls, lines, signals and spurious wake-ups, NULL elements and wrapped counters included |
| QueueSafety.EmptyBranchUnreachable | producer-consumer/producer-consumer.c:137-139 | the head == tail branch of `pcq_dequeue` is never taken |
| QueueSafety.NoFault | producer-consumer/producer-consumer.c:66-172 | no remainder by zero even at capacity 0, no access outside the buffer, no unlock or wait by a thread that is not the owner, no size below zero |
| QueueSafety.LinesAreSafe | producer-consumer/producer-consumer.c:66-172 | the same line by line: the buffer has slots where it is accessed, a call waits and unlocks only with mutexes it holds, and the size is above zero where it is decremented |
| QueueSafety.AccessesAreLocked | producer-consumer/producer-consumer.c:72-102 | every access to buffer, counters and size is made holding the size lock, and each end is moved holding its own lock too |
| QueueSafety.AtRest | producer-consumer/producer-consumer.c:70-104 | whenever the size lock is free, size = tail - head (as unwrapped counts) is at most the capacity |
| QueueContents.StoreKeeps | producer-consumer/producer-consumer.c:95-96 | the store keeps buffer and history in agreement if and only if it lands in a slot of no waiting element |
| QueueContents.EraseKeeps | producer-consumer/producer-consumer.c:147-148 | the erase always does |
| QueueContents.Fetched | producer-consumer/producer-consumer.c:145-147 | what a dequeue fetches is the oldest waiting element |
| QueueContents.ContentsNext | producer-consumer/producer-consumer.c:66-172 | so does every other step: the buffer holds what the history leaves waiting, and the history is one of the sequential queue, exactly as long as every element landed |
| QueueContents.BufferAtRest | producer-consumer/producer-consumer.c:70-104 | whenever the size lock is free the buffer is that of a queue at rest |
| QueueRuns.RunInv | producer-consumer/producer-consumer.c:66-172 | the invariant holds in every state of every run |
| QueueRuns.RunContentsExact | producer-consumer/producer-consumer.c:66-172 | the buffer is in order in all states of a run up to some point if and only if every element enqueued by then landed in a slot of no waiting element |
| QueueRuns.RunLands | producer-consumer/producer-consumer.c:93-96 | which they do for ever if the capacity divides the modulus, and otherwise for the first `modulus` enqueues |
| QueueRuns.ReplayIsFifo | producer-consumer/producer-consumer.c:91-96 | a history the sequential bounded queue accepts pops what it pushed, in order, and leaves at most a capacity of elements |
| QueueRuns.ReturnedOnce | producer-consumer/producer-consumer.c:66-172 | each returned call appears in the history exactly once, in every run |
| QueueRuns.Linearisable | producer-consumer/producer-consumer.c:66-172 | as long as every element landed, history of enqueued = history of dequeued followed by the contents |
| QueueRuns.CallsGetTheirEvents | producer-consumer/producer-consumer.c:66-172 | the event of `pcq_enqueue(elem)` pushes `elem`, that of `pcq_dequeue` pops what the call returns |
| QueueRuns.RealTimeOrder | producer-consumer/producer-consumer.c:66-172 | a call that returned before another was made comes first in the history |
| QueueRuns.NoNullRead | producer-consumer/producer-consumer.c:169-170 | if no NULL is enqueued, the debug line of `pcq_dequeue` reads through no NULL |
| QueueLiveness.WakeInvNext | producer-consumer/producer-consumer.c:72-77 | every step keeps: if a dequeue sleeps, the size is at most the pending signals plus the awake dequeues; dually for enqueues |
| QueueLiveness.RunWakeInv | producer-consumer/producer-consumer.c:106-113 | no wake-up is lost, in every state of every run, although signals follow the unlocks |
| QueueLiveness.CountInvNext | producer-consumer/producer-consumer.c:66-172 | the history has as many pushes and pops as there are calls past their store or erase |
| QueueLiveness.LockOrder | producer-consumer/producer-consumer.c:79-89 | whoever waits for the head or tail lock holds the size lock, and whoever holds one without the size lock only releases it |
| QueueLiveness.HolderMoves | producer-consumer/producer-consumer.c:133-143 | the holder of the size lock can move, or it waits for an end lock whose owner can |
| QueueLiveness.SomeoneMoves | producer-consumer/producer-consumer.c:66-172 | no deadlock: while a call is neither asleep nor returned, some call can execute its next line |
| QueueLiveness.StuckMeans | producer-consumer/producer-consumer.c:125-130 | where nobody can move, all others have returned, a sleeping dequeue means an empty queue and a sleeping enqueue a full one |
| QueueLiveness.WorkShrinks | producer-consumer/producer-consumer.c:66-172 | every step that is not a spurious wake-up makes the remaining work smaller, the wake-up it causes included |
| QueueLiveness.WorkNext | producer-consumer/producer-consumer.c:66-172 | an executed line lowers the work, a spurious wake-up adds at most two and a new call at most 17 |
| QueueLiveness.SchedulesAreFinite | producer-consumer/producer-consumer.c:66-172 | a run executes at most 17 lines for each call made, whenever it is made, and two more for each spurious wake-up |
| QueueLiveness.RunContinues | producer-consumer/producer-consumer.c:66-172 | a state in which some call is enabled has a next state |
| QueueLiveness.Completion | producer-consumer/producer-consumer.c:66-172 | a stuck state has completed every call if and only if dequeues <= enqueues <= dequeues + capacity (at capacity 0: there are no calls) |
| QueueLiveness.EveryScheduleCompletes | producer-consumer/producer-consumer.c:66-172 | the same for whole runs, spurious wake-ups included: bounded, sleepers only on an empty or full queue, complete if and only if the workload fits |
| QueueLiveness.ThreadsComplete | producer-consumer/producer-consumer.c:66-172 | threads that make several calls of one kind in a row: where nothing can go on, all their calls have been made and completed if and only if the whole workload fits |
| QueueReach.CanEnqueue | producer-consumer/producer-consumer.c:66-70 | at any time `pcq_enqueue` can be called with any element, which adds exactly that call |
| QueueReach.CanDequeue | producer-consumer/producer-consumer.c:119-123 | so can `pcq_dequeue` |
| QueueReach.CanWake | producer-consumer/producer-consumer.c:106-113 | any sleeper of the right kind can be the one a signal wakes |
| QueueReach.CanWakeSpuriously | producer-consumer/producer-consumer.c:72-77 | any sleeper can wake up for no reason |
| QueueReach.EnabledIff | producer-consumer/producer-consumer.c:66-172 | a call that has neither returned nor sleeps can go on unless its line locks a mutex that is taken |
| QueueReach.CanRun | producer-consumer/producer-consumer.c:66-172 | and any call that can go on may be the next to do so |
| QueueReach.EveryWorkloadRuns | producer-consumer/producer-consumer.c:66-172 | every workload, at any capacity, has a run that makes its calls and goes on until nothing can; it returns from all of them if and only if the workload fits |
| QueueReach.HandOver | producer-consumer/producer-consumer.c:119-172 | from `pcq_create` on, for every element, a run in which a dequeue made on the empty queue sleeps, is woken by the enqueue of the element and returns it |
| QueueLiveness.DestroyFreesTheRest | producer-consumer/producer-consumer.c:42-49 | what `pcq_destroy` frees after a run is what was enqueued and not dequeued, but for NULL, each as often as it waits |
| FsBytes.IntRoundTrip | fs/state.h:15-18 | the four bytes of `d_inumber` decode to the number stored, negative ones included |
| FsBytes.IntLittleEndian | fs/state.h:17 | those bytes are the two's complement of the number, the low byte first |
| FsBytes.StrnEqPad | fs/state.c:391-393 | a bounded comparison with a padded name is equality of the names, cut at the bound |
| FsBytes.ZeroedNameNeverMatches | fs/state.c:309-311 | a cleared name field equals no name |
| FsBytes.DirWriteInum | fs/state.c:351 | storing `d_inumber` changes that number of that record and no other byte of any record |
| FsBytes.DirWriteName | fs/state.c:352-353 | the same for `d_name` |
| FsBytes.StrncpyPads | fs/state.c:352-353 | strncpy of 39 characters and the explicit terminator fill the whole 40-byte field |
| FsBytes.BlockAt | fs/state.c:448-454 | block b is bytes b * size to (b + 1) * size of the flat array |
| FsBytes.SpliceBlocks | fs/operations.c:225-229 | a write inside block b changes that block at those offsets and no other block |
| FsModel.FirstFree | fs/state.c:410-423 | the lowest free index, or -1 exactly when all are taken |
| FsModel.FindSlot | fs/state.c:391-399 | the lowest live slot whose name field compares equal, or -1 when there is none |
| FsModel.MatchSlot | fs/state.c:308-315 | the lowest slot whose name field compares equal, dead or alive, or -1 |
| FsModel.WriteLengthExact | fs/operations.c:205-208 | a write stays inside its block, clipped only at its end, if and only if length + offset is a `size_t` |
| FsModel.ReadLengthExact | fs/operations.c:265-269 | a read is clipped at the end of the file when the offset is not past it; past it the difference wraps and everything asked for is read |
| FsModel.InvReadable | fs/operations.c:265-279 | in every state with the invariant a read stays within one block |
| FsInv.FindSlotExact | fs/state.c:375-400 | the 40-byte comparison finds the live entry of exactly that name, over-long names included, and -1 means that there is none |
| FsInv.MatchSlotExact | fs/state.c:308-314 | clearing an entry, without looking at inode numbers, stops at the live entry of that name, and every field compared on the way is NUL-terminated |
| FsInv.NamesInvAdd | fs/state.c:349-356 | filling the first free slot keeps names unique and keeps every free slot before a live one zeroed |
| FsInv.NamesInvClear | fs/state.c:309-313 | so does clearing a slot |
| FsInv.CreateUndone | fs/operations.c:131-132 | when the directory refuses the entry, deleting the new inode restores every table (the free inode's own fields excepted) |
| FsInv.CreateInv | fs/operations.c:118-140 | creating a file keeps the invariant and adds exactly one entry |
| FsInv.TruncateInv | fs/operations.c:106-111 | truncating keeps the invariant; the block goes back and belongs to nobody |
| FsInv.DeleteBlocks | fs/state.c:252-267 | deleting an inode leaves the taken blocks exactly the owned ones and changes no block's bytes |
| FsInv.UnlinkTablesInv | fs/operations.c:305-316 | unlinking keeps all of the invariant but the part about open handles, and zeroes exactly the looked-up entry, open or not |
| FsInv.UnlinkInv | fs/operations.c:305-316 | and that part too when no handle is on the file |
| FsInv.WriteBlock | fs/operations.c:210-223 | a write uses the file's own block, or a free one that belongs to nobody |
| FsInv.WriteInv | fs/operations.c:205-236 | writing keeps the invariant: sizes, offsets, and one distinct taken block for each file with data |
| FsInv.ReadInv | fs/operations.c:265-279 | so does reading |
| FsCount.OwnersSize | fs/state.c:410-438 | the taken blocks are as many as the inodes with data: none leaked, shared or freed twice |
| FsCount.LinksSize | fs/state.c:162-179 | the live directory entries are as many as the taken inodes besides the root |
| FsRefine.RelWellFormed | fs/operations.c:265-269 | in every related state each handle is on an existing file and not past its end |
| FsRefine.RelBounded | fs/operations.c:205-208 | and no file is larger than a block |
| FsRefine.RelUnique | fs/operations.c:68-77 | the tables stand for one abstract state only |
| FsRefine.LookupRefines | fs/operations.c:68-77 | lookup succeeds exactly on existing names, with the inode that holds the contents |
| FsRefine.InodesFull | fs/state.c:162-179 | the inode table is full if and only if files + 1 = its size |
| FsRefine.DirectoryFull | fs/state.c:349-359 | the directory is full if and only if files = the records of a block |
| FsRefine.BlocksFull | fs/state.c:410-423 | the blocks are exhausted if and only if files with data + 1 = their number |
| FsRefine.HandlesFull | fs/state.c:468-480 | the open-file table is full if and only if there are that many handles; otherwise the lowest unused one is given out |
| FsRefine.CloseRefines | fs/operations.c:163-184 | `tfs_close` removes that handle and nothing else |
| FsRefine.ReadRefines | fs/operations.c:247-286 | `tfs_read` returns the file's bytes from the handle's offset on and moves only that offset |
| FsRefine.WriteContents | fs/operations.c:225-236 | a write changes one file's bytes at the offset, and every other file's contents stay |
| FsSimulation.WriteRefines | fs/operations.c:186-243 | `tfs_write` overwrites from the handle's offset, clipped at the block size, or fails for lack of a block without any change |
| FsSimulation.UnlinkRefines | fs/operations.c:288-330 | `tfs_unlink` removes exactly that name, or fails without any change |
| FsSimulation.OpenExistingRefines | fs/operations.c:99-117 | opening an existing file, truncated or not, at its start or end; truncated even when no handle is left |
| FsSimulation.OpenRefines | fs/operations.c:79-161 | `tfs_open` in all its branches, with a file that remains created when no handle is left |
| FsSimulation.CreateFailsIff | fs/operations.c:118-151 | opening a new file fails if and only if inodes, directory records or handles have run out or the name is too long |
| FsSimulation.WriteFailsIff | fs/operations.c:210-220 | a write to an open file fails if and only if it is not empty, the file is, and the other files with data and the root use all blocks; the state is then unchanged |
| FsSimulation.OpenExact | fs/operations.c:99-117 | opening keeps the invariant if and only if it does not truncate a file under a handle that is not at its start |
| FsSimulation.TruncateExact | fs/operations.c:106-111 | the same on the tables: if and only if every handle on the inode is at its start |
| FsSimulation.ReadTruncated | fs/operations.c:247-286 | what a handle reads after its file was truncated: nothing if and only if it is at the start; any other handle gets all it asks for, from the freed block up to its end, and beyond that the read leaves the block |
| FsSimulation.UnlinkKeepsIff | fs/operations.c:288-330 | unlinking keeps the invariant if and only if the file is not open |
| FsSimulation.UnlinkExact | fs/operations.c:315-316 | the same on the tables; and any handle on the file stays open, on an inode that is free |
| FsRuns.FormattedIsEmpty | fs/operations.c:37-41 | a formatted system satisfies the invariant and stands for no files and no handles, whatever its name fields hold |
| FsRuns.StepRefines | fs/operations.c:79-330 | each operation returns what the abstract operation returns and leads to a related state |
| FsRuns.StepExact | fs/operations.c:79-330 | of the operations whose length does not wrap, exactly those that respect the preconditions lead to a state with the invariant |
| FsRuns.RunRefines | fs/operations.c:79-330 | every run of operations returns the abstract results, and every state in it satisfies the invariant |
| FsRuns.RunExact | fs/operations.c:79-330 | exactly the runs that respect the preconditions keep the invariant throughout |
| FsRuns.RunFromFormatted | fs/operations.c:25-44 | in particular every run of a newly formatted system behaves like one that starts empty |
| FsHistory.HandleStep | fs/operations.c:79-184 | a handle is open after a call if that call opened it, or it was open and was not closed |
| FsHistory.CallsOnHandles | fs/operations.c:163-286 | in every run of the tables `tfs_close(h)` returns 0 if an open returned h and no close has closed it since, and -1 otherwise; through a handle that is not open reads and writes return -1, and a read through an open one does not |
| FsLaws.PathLaw | fs/operations.c:53-76 | a valid path is a slash followed by a name that is not empty, and the name is what follows the slash |
| FsLaws.PathInjective | fs/operations.c:53-76 | two paths with one name are one path |
| FsLaws.OpenLaw | fs/operations.c:79-161 | what `tfs_open` leaves: the file missing, created (even when no handle is left), truncated or as it was; the lowest unused handle, at the end of the file or at its start; all others as before |
| FsLaws.OpenSpecUnique | fs/operations.c:79-161 | only one new state and result satisfy that |
| FsLaws.CloseLaw | fs/operations.c:163-184 | `tfs_close` returns 0 and closes that handle alone, or returns -1 without change if it was not open |
| FsLaws.CloseSpecUnique | fs/operations.c:163-184 | only one new state and result satisfy that |
| FsLaws.WriteLaw | fs/operations.c:186-243 | at any offset `tfs_write` returns min(length, block size - offset), or -1 exactly for lack of a block; the bytes replace those from the offset on, the rest of the file and all other files stay |
| FsLaws.WriteSpecUnique | fs/operations.c:186-243 | only one new state and result satisfy that |
| FsLaws.ReadLaw | fs/operations.c:247-286 | `tfs_read` returns the bytes from the offset on, as many as asked for and there are, and moves the handle; -1 if it is not open |
| FsLaws.ReadSpecUnique | fs/operations.c:247-286 | only one new state and result satisfy that |
| FsLaws.UnlinkLaw | fs/operations.c:288-330 | `tfs_unlink` returns 0 and removes that file alone, or returns -1 without change if there is none |
| FsLaws.UnlinkSpecUnique | fs/operations.c:288-330 | only one new state and result satisfy that |
| FsLaws.CreatedApart | fs/operations.c:118-147 | creating one path does not make another exist |
| FsLaws.UnlinkedApart | fs/operations.c:315-316 | unlinking one path leaves every other one there, to be opened and read as before |
| FsLaws.UnlinkedGone | fs/operations.c:305-316 | an unlinked path cannot be opened without creating it, nor unlinked again |
| FsLaws.TooLong | fs/state.c:334-336 | with room for everything else, creating a file fails if and only if its path is longer than 40 characters |
| FsLaws.AppendLaw | fs/operations.c:113-114 | a write through a handle opened to append leaves the old contents followed by the bytes, clipped at the block size |
| FsLaws.FromStartLaw | fs/operations.c:115-117 | a handle opened otherwise reads the file from its first byte on |
| FsLaws.ClosedIsClosed | fs/operations.c:163-184 | after a close, close, write and read through the handle return -1 |
| FsRoundTrip.WritesAppend | fs/operations.c:186-243 | writes in chunks leave the concatenation of those that did not fail, clipped at the block size, whatever is done to other files and handles in between |
| FsRoundTrip.WritesSucceedIff | fs/operations.c:210-220 | writes through a handle all succeed if and only if the file has data, or there is a block for it, or there is nothing to write |
| FsRoundTrip.ReadsAdvance | fs/operations.c:247-286 | reads in chunks yield the contents from the offset on, as far as the lengths reach, whatever is done to other files and handles in between |
| FsRoundTrip.RoundTrip | fs/operations.c:186-286 | what is written in chunks to a new or truncated file, or to one opened to append, is read back after the old contents in other chunks through a new handle, which is always available once the first is closed, with any other use of the file system in between |
| FsRuns.RunAbsConcat | fs/operations.c:79-330 | a sequence of operations in two parts behaves like one part and then the other |
| FsRoundTrip.TablesRoundTrip | fs/operations.c:79-286 | the round trip of one run of the tables: open, writes, close, open, reads, in terms of the values the calls return, the 0 of the close included |
| FsRoundTrip.SimpleSession | fs/operations.c:79-286 | such runs exist, with other calls in between |
| FsMisuse.TruncateUnderHandle | fs/operations.c:106-111 | run: create, write a byte, open again to truncate; the file is empty and the first handle still reads a byte |
| FsMisuse.UnlinkUnderHandle | fs/operations.c:315-316 | run: create, unlink while open, create another file; a write through the first handle ends up in the other file |
| FsMisuse.WrappedWrite | fs/operations.c:205-208 | run: create, write a byte, write 2^64 - 1 more; the sum wraps, nothing is clipped and the write would leave the block |
| Tfs.FlatEntry | fs/state.c:384-396 | the record read at byte b * size + 44 * i is entry i of block b |
| Tfs.TecnicoFs.InodeAlloc | fs/state.c:162-179 | the loop takes the lowest free inode |
| Tfs.TecnicoFs.DataBlockAlloc | fs/state.c:410-423 | the loop takes the lowest free block |
| Tfs.TecnicoFs.DataBlockFree | fs/state.c:431-438 | frees that block |
| Tfs.TecnicoFs.AddToOpenFileTable | fs/state.c:468-480 | the loop takes the lowest free handle and sets its inode and offset |
| Tfs.TecnicoFs.RemoveFromOpenFileTable | fs/state.c:488-496 | frees that handle |
| Tfs.TecnicoFs.WriteBytes | fs/state.c:448-454 | writing into a block of the flat array splices that block and touches no byte outside the range |
| Tfs.TecnicoFs.FindInDir | fs/state.c:375-400 | the scan of the records returns what the lookup on values returns |
| Tfs.TecnicoFs.AddDirEntry | fs/state.c:333-360 | the scan fills the first free record, or refuses the name or a full directory without any change |
| Tfs.TecnicoFs.MatchEntry | fs/state.c:308-309 | the scan stops at the first record whose name matches, and compares only terminated names up to there |
| Tfs.TecnicoFs.ClearDirEntry | fs/state.c:297-316 | zeroes that record, or reports that there is none |
| Tfs.TecnicoFs.CreateFileInode | fs/state.c:198-244 | allocates and initialises an empty file's inode |
| Tfs.TecnicoFs.CreateDirectoryInode | fs/state.c:198-233 | takes the lowest free inode and block and marks every record of the block free, or fails without taking an inode |
| Tfs.TecnicoFs.DeleteInode | fs/state.c:252-267 | frees the inode, and its block if it has data |
| Tfs.TecnicoFs.constructor | fs/state.c:95-128 | tables of the sizes asked for, all entries free, memory arbitrary |
| Tfs.TecnicoFs.Init | fs/operations.c:37-43 | succeeds exactly when there is an inode and a block, and then stands for the empty file system; otherwise nothing is taken |
| Tfs.TecnicoFs.Open | fs/operations.c:79-161 | the program's `tfs_open` does the abstract open and satisfies its law, every failure branch included |
| Tfs.TecnicoFs.Close | fs/operations.c:163-184 | `tfs_close` does the abstract close and satisfies its law |
| Tfs.TecnicoFs.Write | fs/operations.c:186-243 | `tfs_write` does the abstract write, satisfies its law, and changes only bytes [b * size + offset, b * size + offset + n) of the flat array |
| Tfs.TecnicoFs.Read | fs/operations.c:247-286 | `tfs_read` does the abstract read and satisfies its law |
| Tfs.TecnicoFs.Unlink | fs/operations.c:288-330 | `tfs_unlink` does the abstract unlink and satisfies its law |
| Framing.StrCpyField | protocol/protocols.c:66-71 | a string copied into a field reads back the same, whatever the memory held before |
| Framing.Uint64RoundTrip | protocol/protocols.h:79-85 | the eight bytes of a uint64_t field decode to the number stored |
| Framing.LittleEndian | protocol/protocols.h:79-85 | those bytes are the number's, the low byte first |
| Framing.SizesOf | protocol/protocols.c:107-131 | which eight opcodes have a struct, and how long each struct is |
| Framing.RequestProto | protocol/protocols.c:66-71 | the struct has the size its opcodes call for, each string is at its place with its NUL, and both decode from it |
| Framing.ResponseProto | protocol/protocols.c:73-78 | the same for the return code and the message |
| Framing.ListBoxesRequestProto | protocol/protocols.c:80-85 | the same for the pipe name |
| Framing.ListBoxesResponseProto | protocol/protocols.c:87-99 | the same for all five fields, in the order of the struct |
| Framing.ParseWire | protocol/protocols.c:57-64 | reading an opcode and then the struct it calls for, repeatedly, recovers any sequence of frames |
| Framing.ParseAppend | protocol/protocols.c:57-64 | a frame sent after a readable stream is read last, and what was there before is read as before |
| Framing.WireInjective | protocol/protocols.c:107-131 | no two sequences of frames have the same bytes |
| Framing.Pipe.Send | protocol/protocols.c:25-42 | appends the opcode and then the struct, so that a stream of frames stays one |
| Framing.Pipe.ReceiveAll | mbroker/mbroker.c:89-111 | the reading loop consumes the stream and returns exactly the packets it consists of |
| Framing.Pipe.Post | protocol/protocols.c:25-42 | building a message and sending it adds exactly that message to those in the stream |
| Framing.Pipe.Collect | mbroker/mbroker.c:89-111 | the reading loop and the fields of the structs give exactly the messages that were posted, in order |

## Left out

- QueueRuns.NoNullRead: about runs without NULL elements in which every element landed. The read is in a debug line and evaluated only with verbose logging (utils/logging.h:53-55); with a NULL element it would fault there.
- QueueRuns.Linearisable: as long as every element landed in a slot of no waiting element; beyond that the buffer is no longer in order (QueueRuns.RunContentsExact), and on the fields of the queue the order of what comes out is lost by exactly that enqueue (WrapAround.FifoExact); which later call of a run returns the wrong element is not stated for the machine.
- QueueLiveness.EveryScheduleCompletes: the bound counts spurious wake-ups, which could go on for ever. They also stand for a `pthread_cond_signal` that wakes more than one sleeper, as POSIX allows.
- FsSimulation.OpenRefines: truncation only while no handle on the file has an offset, exactly as FsSimulation.OpenExact requires; what a handle reads after such a truncation belongs to no file (FsSimulation.ReadTruncated). The same for FsInv.TruncateInv, FsSimulation.OpenExistingRefines and Tfs.TecnicoFs.Open.
- FsSimulation.UnlinkRefines: only while no handle is open on the file, exactly as FsSimulation.UnlinkKeepsIff requires. The same for FsInv.UnlinkInv and Tfs.TecnicoFs.Unlink.
- FsRuns.StepRefines: under these three conditions, which FsRuns.StepExact shows to be exact; likewise FsRuns.RunRefines and FsRuns.RunFromFormatted, by FsRuns.RunExact.
- FsSimulation.WriteRefines: only for lengths that do not wrap around with the offset into the block; FsModel.WriteLengthExact shows that the others leave the block. The same for FsInv.WriteInv, FsSimulation.WriteFailsIff and Tfs.TecnicoFs.Write.
- Tfs.TecnicoFs.constructor: on an uninitialised system only; `state_init` overwrites the parameters before it finds the system initialised (fs/state.c:96-100). A block size of zero is excluded because the allocators then divide by it (fs/state.c:164), table sizes above an `int` because the numbers are returned as one (fs/state.c:173), and malloc does not fail.
- Tfs.TecnicoFs.Tables: does not limit the product of block count and block size to a `size_t` (fs/state.c:104), nor the records of a block to an `int` (fs/state.c:391); beyond these limits the C code behaves differently.
- Framing.RequestProto: strings must fit their fields; the C code writes past the end otherwise. The same holds for the other builders.
- Framing.Pipe.ReceiveAll: streams of known opcodes that end with a frame; on others the program panics (Parse gives None).
- `tfs_destroy`, `state_destroy`, and the functions that are declared but not defined (`tfs_sym_link`, `tfs_link`, `tfs_copy_from_external_fs`).
- `g_library_mutex`: each TecnicoFS call is one critical section and is modelled as one step; a failing lock or unlock is not modelled.
- Failing `pthread_mutex_init`, `pthread_cond_init` and `calloc` in `pcq_create`, and the return value of `pcq_destroy`; pthread calls in the queue succeed.
- Memory that is not sequentially consistent: all accesses of the queue are under locks (QueueSafety.AccessesAreLocked), so there is nothing more to see.
- Fairness: the completion theorem needs none, since every schedule with finitely many spurious wake-ups is finite.
- Which thread makes which call: QueueLiveness.ThreadsComplete takes the totals of the calls threads are to make, and that a thread with calls left to make is asleep when nothing can go on.
- The byte order of integers is taken to be little-endian and their representation two's complement; padding inside `dir_entry_t` (there is none) and alignment are not modelled.
- `insert_delay`, `touch_all_memory`, and logging: no functional meaning.
- `PUBLISHER_MESSAGE` and `SUBSCRIBER_MESSAGE` frames and `message_proto`: `proto_size` panics on these opcodes.
- Named pipes, file descriptors and short reads; `recv_opcode`, `create_pipe` and `open_pipe`.
- The manager, publisher and subscriber programs, the handlers in `mbroker/requests.c`, `mbroker/box_metadata.c`, and the broker's signal handling, thread creation and shutdown.
