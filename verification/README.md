# mknm_os: the kernel's hard parts, modelled and proved

`mknm_os` is a bare-metal x86-64 kernel. This project models the parts of it whose correctness cannot be
read off one function, and proves what they promise for every input, every run and every interleaving.
`dafny verify dfyconfig.toml` checks everything.

## What is modelled

| file | part of the kernel |
|---|---|
| `FrameBitmap.dfy` | the packed bitmap of 4 KiB frames: built from the UEFI memory map, searched first-fit |
| `SlabHeap.dfy`, `HeapAccounts.dfy`, `ObjectAllocator.dfy`, `Multiples.dfy` | the slab allocator on top of it: first as a machine on values, with safety and no leaks over every run, then as the code stores it, with free lists threaded through the free memory |
| `TrbRing.dfy`, `RingWrites.dfy` | the xHCI producer ring and the controller on its other side (sections 4.9.2 and 4.9.3 of the xHCI specification), with a push as one step and as two writes |
| `TransferRings.dfy`, `Listeners.dfy` | all transfer rings together, and the map from TRB addresses to waiting requests |
| `EventPath.dfy` | the way of a transfer event from the controller through the event ring and a channel to the request that waits for it |
| `CommandRing.dfy`, `EventRing.dfy` | the command ring and the event ring (section 4.9.4 of the xHCI specification) |
| `AsyncRuntime.dfy`, `AsyncRuns.dfy`, `LostWakeups.dfy` | channels, wakers, tasks and the executor as interleaved steps, over whole runs, and what a lost wake-up costs |
| `RwSpinLock.dfy` | the reader-writer spin lock as interleaved atomic steps |
| `FrameBuffer.dfy`, `Windows.dfy`, `Console.dfy` | pixels: clipped copies, overlapping moves, layered windows, and the text console |
| `UsbDescriptors.dfy` | grouping the descriptors of section 9.6 of the USB 2.0 specification |
| `Timers.dfy`, `MessageQueue.dfy`, `TaskSwitch.dfy` | the timer heap, the event queue and the round-robin task switch |
| `PciScan.dfy` | enumeration of the PCI buses through bridges |
| `Common.dfy` | what several files share |

Objects whose methods update fields are classes. Each of their methods is tied to a function or a relation on
values, and what the kernel promises is proved of those: as invariants that every step keeps, and as
statements about whole runs. Protocols between two parties (driver and controller, several threads, several
tasks) are state machines in which the other party may do anything its own specification allows.

Where the code falls short of what one would like, the code is modelled as it is, and the exact condition is
proved:

- The command ring never moves its dequeue index, so it takes 30 commands in its lifetime (`CommandRing`).
- The descriptor parser does not return when an Interface in front is followed by another Configuration, and
  returns in every other case (`UsbDescriptors.HaltsIffParsable`).
- A block of exactly 2048 bytes is never served (`SlabHeap.ExactlyTwoKiBFails`).
- The memory map is marked exactly if and only if no entry lies above an available one that comes later
  (`FrameBitmap.ExactIffInOrder`); whatever the order, no frame is offered that is not available
  (`SlabHeap.OnlyAvailableMemoryIsUsed`).
- The frame search never hands out the last run of its range (`FrameBitmap.LastRunIsSkipped`).
- A task timer with a period of two ticks fires every third tick (`Timers.PreemptionEveryThirdTick`).
- A wake-up is lost exactly when another task registers over the waker of one that still awaits the channel
  and is not scheduled (`AsyncRuns.MissedIffLost`); `LostWakeups.LosingRun` is a run that does it.
- A small block aligned to more than a frame gets null although frames are left, whenever the next free frame
  does not happen to be aligned, and each such call keeps that frame for its size class
  (`SlabHeap.NullIff`, `SlabHeap.NullKeepsAFrame`, `SlabHeap.HugeAlignmentFails`).
- The lock word counts its holders for fewer than 2^63 threads and for no more (`RwSpinLock.CountsIffFewer`);
  mutual exclusion holds for up to 2^63 and for no more (`RwSpinLock.ExcludesIffAtMost`).
- Replacing a transfer ring strands the listeners of whatever waits on it, and nothing else does
  (`Listeners.AgreesIffNoneStranded`, `Listeners.StrandingRun`).
- A PCI function is listed twice exactly when there are two ways to it (`PciScan.OnceIffOneWay`).
- A newline byte is not only obeyed but also stored and drawn as the first cell of the new line (`Console`).

## Model

| member | source | states |
|---|---|---|
| `FrameBitmap.ByteUpdate` | kernel/src/memory_manager.rs:165-179 | setting or clearing bit i of a byte changes what bit j says exactly when i is j |
| `FrameBitmap.MaskIsShift` | kernel/src/memory_manager.rs:165-179 | the table of masks is the shifted one of the code |
| `FrameBitmap.UsedAfterByte` | kernel/src/memory_manager.rs:165-173 | storing the updated byte adds or removes exactly one frame of the set of used frames |
| `FrameBitmap.BitMapMemoryManager.SetBit` | kernel/src/memory_manager.rs:165-173 | the set of used frames gains or loses exactly the given frame |
| `FrameBitmap.BitMapMemoryManager.GetBit` | kernel/src/memory_manager.rs:175-179 | true exactly for the frames in the used set |
| `FrameBitmap.BitMapMemoryManager.MarkAllocated` | kernel/src/memory_manager.rs:181-185 | the used set grows by exactly the run of frames |
| `FrameBitmap.BitMapMemoryManager.Free` | kernel/src/memory_manager.rs:206-210 | the used set shrinks by exactly the run of frames |
| `FrameBitmap.FirstFit` | kernel/src/memory_manager.rs:187-204 | reference search: the least start below `end - n` whose whole run is free; None only if there is none |
| `FrameBitmap.SkipIsSafe` | kernel/src/memory_manager.rs:196-201 | jumping past the first used frame found loses no start |
| `FrameBitmap.BitMapMemoryManager.FreeRun` | kernel/src/memory_manager.rs:192-195 | the length of the free run at a start, capped, with a used frame behind it when it is short |
| `FrameBitmap.BitMapMemoryManager.Allocate` | kernel/src/memory_manager.rs:187-204 | the skipping search equals first-fit on the set of frames, and only the run it returns becomes used |
| `FrameBitmap.LastRunIsSkipped` | kernel/src/memory_manager.rs:191 | when only the last run of the range is free the search fails |
| `FrameBitmap.EntriesArePrefix` | kernel/src/memory_map.rs:43-60 | the entries read are the longest prefix of the map without a zero attribute |
| `FrameBitmap.BitMapMemoryManager.Clear` | kernel/src/memory_manager.rs:141 | whatever the memory held, no frame is used afterwards |
| `FrameBitmap.BitMapMemoryManager.MarkEntry` | kernel/src/memory_manager.rs:144-161 | one map entry marks the gap before it and, unless available, itself |
| `FrameBitmap.BitMapMemoryManager.NewAt` | kernel/src/memory_manager.rs:138-163 | the used set and the range are those of the marking of all entries |
| `FrameBitmap.UnmarkedIsAvailable` | kernel/src/memory_manager.rs:138-163 | for every page-aligned map, in any order and with any overlap: a frame below the range end that is left unmarked is available |
| `FrameBitmap.AvailableIsUnmarked` | kernel/src/memory_manager.rs:143-162 | of disjoint entries with the available ones in order, every available frame lies below the range end and stays unmarked |
| `FrameBitmap.OutOfOrderIsLost` | kernel/src/memory_manager.rs:143-162 | an available entry that comes after one above it is marked whole |
| `FrameBitmap.ExactIffInOrder` | kernel/src/memory_manager.rs:138-163 | for every map of disjoint, non-empty, page-aligned entries: free below the range end iff available, and none beyond, holds if and only if no entry lies above an available one that comes later |
| `FrameBitmap.FreeIffAvailable` | kernel/src/memory_manager.rs:138-163 | that exactness frame by frame, for disjoint entries with the available ones in order |
| `FrameBitmap.OthersAreMarked` | kernel/src/memory_map.rs:72-78 | memory of any kind but boot-services code and data and conventional memory is marked, whatever else the map says of it |
| `FrameBitmap.AvailableKinds` | kernel/src/memory_map.rs:72-78 | memory is available if and only if an entry of one of those three kinds covers it |
| `FrameBitmap.UnsortedMapLosesFrames` | kernel/src/memory_manager.rs:143-162 | two available entries out of order: one is marked and the other is beyond the range |
| `FrameBitmap.UnsortedMapMayBeExact` | kernel/src/memory_manager.rs:143-162 | an unsorted map that is marked exactly: what is out of order is not available |
| `SlabHeap.ClassOf` | kernel/src/memory_manager.rs:424-431 | the first class strictly larger than the size; none exactly from 2048 on |
| `SlabHeap.AllocKeepsInv` | kernel/src/memory_manager.rs:413-448 | allocation keeps the heap invariant, on every path |
| `SlabHeap.DeallocKeepsInv` | kernel/src/memory_manager.rs:450-464 | freeing a live block keeps the heap invariant |
| `SlabHeap.AllocReturnsFreshBlock` | kernel/src/memory_manager.rs:413-448 | a block handed out was not live, is non-null and aligned, and is the only change to the live blocks |
| `SlabHeap.FrameCountIsLeast` | kernel/src/memory_manager.rs:418 | the frames of a large block are the fewest that hold it, so less than a frame is wasted |
| `SlabHeap.LargeIff` | kernel/src/memory_manager.rs:414-422 | above 2048 bytes, told by the set of frames: a panic iff the alignment is above a frame or the range has too few; null iff otherwise no run of frames below the last is free; else the least free run, and only its frames become used |
| `SlabHeap.ServedFromList` | kernel/src/memory_manager.rs:433-435 | a small block is the first aligned object its class lists, and no frame is used for it |
| `SlabHeap.ServedFromNewPage` | kernel/src/memory_manager.rs:436-444 | if none is aligned it is the base of the first free frame, which becomes used, or null if that is not aligned |
| `SlabHeap.ExtensionServes` | kernel/src/memory_manager.rs:379-385 | after an extension the page base is first in the list and satisfies any alignment up to a frame |
| `SlabHeap.AfterExtension` | kernel/src/memory_manager.rs:437-444 | after an extension the second look at the list finds the page base, or nothing when that is not aligned |
| `SlabHeap.NullIff` | kernel/src/memory_manager.rs:424-447 | for every size below 2048 and every alignment: null exactly when no listed object is aligned and no frame can be allocated or the base of the one allocated is not aligned either |
| `SlabHeap.NullMeansOutOfFrames` | kernel/src/memory_manager.rs:424-447 | up to frame alignment null means that no frame can be allocated |
| `SlabHeap.NullKeepsAFrame` | kernel/src/memory_manager.rs:434-447 | a null result changes the heap exactly when the alignment is above a frame and a frame was found, which the class then keeps |
| `SlabHeap.HugeAlignmentOnFirstPage` | kernel/src/memory_manager.rs:434-447 | that happens to every class that still has its first page only |
| `SlabHeap.HugeAlignmentFails` | kernel/src/memory_manager.rs:434-447 | a concrete heap and layout on which it happens |
| `SlabHeap.ExactlyTwoKiBFails` | kernel/src/memory_manager.rs:424-431 | a size of exactly 2048 gets null and changes nothing |
| `SlabHeap.PartsNeverOverlap` | kernel/src/memory_manager.rs:351-385 | live blocks, free objects and page headers are pairwise disjoint under the invariant |
| `SlabHeap.PartsInUsedFrames` | kernel/src/memory_manager.rs:413-464 | every byte of each of them lies in a frame marked used and offered by the firmware |
| `SlabHeap.StartInv` | kernel/src/memory_manager.rs:400-411 | the heap of six fresh pages satisfies the invariant |
| `SlabHeap.RunInv` | kernel/src/memory_manager.rs:413-464 | the invariant holds in every state of every run of allocations and matching deallocations, and the reserved frames and the range never change |
| `SlabHeap.AllocatorSafety` | kernel/src/memory_manager.rs:351-464 | in every state of every run: disjointness, used frames, and each live block non-null, aligned and large enough |
| `SlabHeap.OfferedIsAvailable` | kernel/src/memory_manager.rs:138-163 | a heap on the bitmap of a page-aligned map, in any order, offers only frames the firmware calls available |
| `SlabHeap.OfferedIffAvailable` | kernel/src/memory_manager.rs:138-163 | with the available entries in order it offers all of them but frame 0 |
| `SlabHeap.OnlyAvailableMemoryIsUsed` | kernel/src/memory_manager.rs:138-464 | from the memory map to the clients: for any order of the map and over every run, every byte in use is memory the map calls available, and no entry of another kind covers it |
| `HeapAccounts.PageComplete` | kernel/src/memory_manager.rs:366-385 | a page lists every object boundary in it, and a first page all but its header |
| `HeapAccounts.AllocAccounted` | kernel/src/memory_manager.rs:413-448 | allocation keeps every object slot and every used frame accounted for |
| `HeapAccounts.DeallocAccounted` | kernel/src/memory_manager.rs:450-464 | so does deallocation |
| `HeapAccounts.StartAccounted` | kernel/src/memory_manager.rs:400-411 | so does the start |
| `HeapAccounts.NothingLeaks` | kernel/src/memory_manager.rs:400-464 | in every state of every run each object slot is free or handed out, and each used frame is reserved, a slab page or part of a live large block |
| `HeapAccounts.AllGivenBack` | kernel/src/memory_manager.rs:400-464 | once all blocks are given back, the free lists hold exactly all object slots and no other frame is in use |
| `HeapAccounts.LargeRoundTrip` | kernel/src/memory_manager.rs:413-453 | freeing a large block restores the heap exactly |
| `HeapAccounts.SmallRoundTrip` | kernel/src/memory_manager.rs:434-464 | freeing a small block restores the heap up to the order of its free list, and exactly the extended heap when its class had to be extended |
| `ObjectAllocator.HeaderTakesOneSlot` | kernel/src/memory_manager.rs:351-368 | the space computed from `PageHeader` is one object in each class, and the larger locked header fits it |
| `ObjectAllocator.FreeLists.PushFront` | kernel/src/memory_manager.rs:301-307 | the list gains the object in front; one link and the head are written |
| `ObjectAllocator.FreeLists.PopFilter` | kernel/src/memory_manager.rs:309-339 | exactly the first aligned node is unlinked, the rest keep their order, other memory is untouched; 0 and no change when none is aligned |
| `ObjectAllocator.UnlinkedChain` | kernel/src/memory_manager.rs:329-334 | redirecting one link takes out one node of an acyclic list |
| `ObjectAllocator.FreeLists.Thread` | kernel/src/memory_manager.rs:366-385 | the downward loop ends without underflow and puts all objects of the page in front, in address order |
| `ObjectAllocator.NewPage` | kernel/src/memory_manager.rs:351-377 | a first page lists every object after its header, and nothing outside the page is written |
| `ObjectAllocator.MakePages` | kernel/src/memory_manager.rs:400-408 | six pages in distinct fresh frames, or none is left |
| `ObjectAllocator.New` | kernel/src/memory_manager.rs:400-411 | the new allocator represents the start heap; the panic happens only when frames run out |
| `ObjectAllocator.ListsApart` | kernel/src/memory_manager.rs:296-307 | no node or head of one list is a node or head of another |
| `ObjectAllocator.Allocator.constructor` | kernel/src/memory_manager.rs:409-411 | six finished pages make a valid allocator |
| `ObjectAllocator.Allocator.PopAligned` | kernel/src/memory_manager.rs:434-435 | one class loses its first aligned object; the other five lists are undisturbed |
| `ObjectAllocator.Allocator.Extend` | kernel/src/memory_manager.rs:379-385 | a fresh frame becomes free objects of one class; the other five lists are undisturbed |
| `ObjectAllocator.Allocator.Alloc` | kernel/src/memory_manager.rs:413-448 | the stored allocator does what the heap machine does, outcome included, and serves a large request exactly as the free frames allow |
| `ObjectAllocator.Allocator.AllocLarge` | kernel/src/memory_manager.rs:414-422 | the same for requests above 2048 bytes: when it panics, when it is null, and which frames it takes |
| `ObjectAllocator.Allocator.DeallocLarge` | kernel/src/memory_manager.rs:451-454 | the same for freeing frames |
| `ObjectAllocator.Allocator.DeallocSmall` | kernel/src/memory_manager.rs:456-463 | the same for freeing an object |
| `ObjectAllocator.Allocator.Dealloc` | kernel/src/memory_manager.rs:450-464 | the same for deallocation with the layout of the allocation |
| `ObjectAllocator.ClientWritesAreHarmless` | kernel/src/memory_manager.rs:301-307 | clients that write only into their own blocks cannot damage a free list or the page header it hangs from |
| `RwSpinLock.NextKeepsInv` | kernel/src/memory_manager.rs:78-118 | with up to 2^63 threads each atomic step keeps: word = 2 x readers + writers modulo 2^64, one writer at most, never with a reader |
| `RwSpinLock.ZeroIsFree` | kernel/src/memory_manager.rs:84-104 | a thread outside the lock that sees the word at 0 sees a free lock, even if the word can wrap around |
| `RwSpinLock.RunInv` | kernel/src/memory_manager.rs:78-118 | that holds in every state of every interleaving, stale loads and spurious failures included |
| `RwSpinLock.MutualExclusion` | kernel/src/memory_manager.rs:84-118 | while one thread writes, no other thread reads or writes, with up to 2^63 threads |
| `RwSpinLock.CrowdRun` | kernel/src/memory_manager.rs:93-100 | from idle threads a run reaches any number of readers up to 2^63 |
| `RwSpinLock.OverflowAtTwoToThe63` | kernel/src/memory_manager.rs:93-100 | with 2^63 threads a run reaches a lock that looks free while it is held |
| `RwSpinLock.WriterAmongReaders` | kernel/src/memory_manager.rs:93-104 | with one thread more a run lets a writer in among the readers |
| `RwSpinLock.CountsIffFewer` | kernel/src/memory_manager.rs:78-118 | the word counts the holders in every state of every run if and only if there are fewer than 2^63 threads |
| `RwSpinLock.ExcludesIffAtMost` | kernel/src/memory_manager.rs:78-118 | a writer is alone in every state of every run if and only if there are at most 2^63 threads |
| `TrbRing.ProducerRing.constructor` | kernel/src/usb/ring/ring.rs:26-44 | a fresh ring: blank TRBs, the link TRB last, cycle state set |
| `TrbRing.ProducerRing.AdvanceEnque` | kernel/src/usb/ring/ring.rs:55-62 | the second half of a push: the index moves on; at the end of a lap the link TRB gets the old cycle bit and the state toggles |
| `TrbRing.StoredIsBothWrites` | kernel/src/usb/ring/ring.rs:69-73 | a push is its two writes, one after the other |
| `TrbRing.ProducerRing.Push` | kernel/src/usb/ring/ring.rs:64-76 | refused exactly when the ring is full; otherwise stored, with its address returned |
| `TrbRing.ProducerRing.SetDequePtr` | kernel/src/usb/ring/ring.rs:78-81 | the dequeue index becomes the slot after the reported TRB |
| `TrbRing.StoredTakesRoom` | kernel/src/usb/ring/ring.rs:46-76 | every accepted push takes exactly one place |
| `TrbRing.SlotAhead` | kernel/src/usb/ring/ring.rs:46-62 | slot and cycle bit of a TRB that lies up to one lap ahead |
| `TrbRing.FullIffOutstanding` | kernel/src/usb/ring/ring.rs:65-67 | full exactly when N - 2 pushed TRBs are unacknowledged |
| `TrbRing.NextTrb` | kernel/src/usb/ring/ring.rs:64-76 | at its slot the controller finds the oldest unfetched TRB with the bit it expects, or a stale bit when there is none |
| `TrbRing.LinkIsReady` | kernel/src/usb/ring/ring.rs:55-62 | a controller that has come to the link TRB always owns it |
| `TrbRing.NextKeepsInv` | kernel/src/usb/ring/ring.rs:46-81 | push, fetch and in-order acknowledgement keep the protocol invariant |
| `TrbRing.RunInv` | kernel/src/usb/ring/ring.rs:26-81 | the invariant holds in every state of every interleaving |
| `TrbRing.RingIsFifo` | kernel/src/usb/ring/ring.rs:26-81 | the controller fetches exactly the pushed work, in order, each TRB from the slot its push was given, with at most N - 2 unacknowledged |
| `TrbRing.ControllerMakesProgress` | kernel/src/usb/ring/ring.rs:55-76 | pending work is fetched after at most two looks |
| `RingWrites.WaitsAndResumes` | kernel/src/usb/ring/ring.rs:55-73 | a controller that comes to the link TRB between the two writes of a push waits, and follows the link once the second is done |
| `RingWrites.LookCommutes` | kernel/src/usb/ring/ring.rs:64-76 | any other look between the writes finds what it would find after them |
| `RingWrites.FineStepRefines` | kernel/src/usb/ring/ring.rs:55-81 | every step with a push as two writes is a step with an atomic push, or changes nothing |
| `RingWrites.FineRunInv` | kernel/src/usb/ring/ring.rs:26-81 | the invariant holds in every state of every such run |
| `RingWrites.FineRingIsFifo` | kernel/src/usb/ring/ring.rs:26-81 | so the ring is a FIFO with looks between the two writes as well |
| `TransferRings.RequestFields` | kernel/src/usb/ring/transfer.rs:25-34 | direction, type and recipient in each bmRequestType, and each bRequest |
| `TransferRings.ControlTrbs` | kernel/src/usb/ring/transfer.rs:79-148 | two stages without data, three with, each of which raises an event; the setup stage carries the caller's value, index and length and the request; data goes the way the request type says, the status stage against it, or to the host without data |
| `TransferRings.TransferRingSet.constructor` | kernel/src/usb/ring/transfer.rs:44-50 | no rings, no listeners |
| `TransferRings.TransferRingSet.InitRingAt` | kernel/src/usb/ring/transfer.rs:66-69 | the key gets a fresh ring and nothing else changes |
| `TransferRings.TransferRingSet.PushTransferTrb` | kernel/src/usb/ring/transfer.rs:157-180 | refused exactly without room; an interrupting TRB files a new channel under its address |
| `TransferRings.TransferRingSet.OnTrfEvent` | kernel/src/usb/ring/transfer.rs:52-64 | the ring's dequeue index moves past the reported TRB, and the listener there, if any, is removed and gets the event, as a success iff the code is Success or ShortPacket |
| `TransferRings.TransferRingSet.PushStage` | kernel/src/usb/ring/transfer.rs:125-148 | one stage more with the next channel, refused exactly when the stages so far fill the ring |
| `TransferRings.TransferRingSet.PushTwoStages` | kernel/src/usb/ring/transfer.rs:125-133 | without data: as many stages as fit; the channel is that of the setup stage |
| `TransferRings.TransferRingSet.PushThreeStages` | kernel/src/usb/ring/transfer.rs:134-152 | with data: as many stages as fit; the channel is that of the data stage |
| `TransferRings.TransferRingSet.ControlRequest` | kernel/src/usb/ring/transfer.rs:72-154 | succeeds exactly when the ring has room for all stages; the doorbell rings only then |
| `TransferRings.PushedOneMore` | kernel/src/usb/ring/transfer.rs:125-148 | pushing a prefix of the stages and then one more is pushing the longer prefix |
| `Listeners.AddressesDiffer` | kernel/src/usb/ring/ring.rs:64-81 | TRBs that may be outstanding together have different addresses, in one ring or in two |
| `Listeners.NotFiledYet` | kernel/src/usb/ring/transfer.rs:173-176 | a push never overwrites a listener: its address is not filed |
| `Listeners.PushKeepsSound` | kernel/src/usb/ring/transfer.rs:157-180 | filing a channel keeps every outstanding TRB with its own channel, whatever listeners were left behind |
| `Listeners.PushKeepsBook` | kernel/src/usb/ring/transfer.rs:157-180 | filing a channel keeps listeners and outstanding TRBs in agreement |
| `Listeners.ReportKeepsBook` | kernel/src/usb/ring/transfer.rs:52-64 | answering the next outstanding TRB keeps them in agreement |
| `Listeners.InitKeepsBook` | kernel/src/usb/ring/transfer.rs:66-69 | replacing a ring keeps them in agreement if and only if nothing waits on it |
| `Listeners.InitLosesWaiter` | kernel/src/usb/ring/transfer.rs:66-69 | otherwise a listener is left at an address where no TRB is outstanding |
| `Listeners.WNextKeepsInv` | kernel/src/usb/ring/transfer.rs:52-180 | every action of driver or controller, replacing a busy ring included, keeps the rings in step and every outstanding TRB with its own channel |
| `Listeners.AgreementKept` | kernel/src/usb/ring/transfer.rs:52-180 | an action breaks the agreement of listeners and outstanding TRBs if and only if it replaces a ring on which something waits |
| `Listeners.RunInvariant` | kernel/src/usb/ring/transfer.rs:52-180 | that invariant holds in every state of every run |
| `Listeners.OutstandingIsFiled` | kernel/src/usb/ring/transfer.rs:52-180 | so in every run an outstanding interrupting TRB has its own unanswered channel filed at its address, and every answer named the channel's own TRB |
| `Listeners.AgreesIffNoneStranded` | kernel/src/usb/ring/transfer.rs:52-180 | listeners and outstanding TRBs agree all along a run if and only if no ring is replaced while something waits on it |
| `Listeners.StrandingRun` | kernel/src/usb/ring/transfer.rs:66-69 | a run of three actions that leaves a listener without a TRB |
| `Listeners.ListenersMatchOutstanding` | kernel/src/usb/ring/transfer.rs:52-180 | until that happens the listener keys are exactly the addresses of outstanding interrupting TRBs, and every channel waits at its own TRB or was answered for it |
| `Listeners.OutstandingIff` | kernel/src/usb/ring/transfer.rs:157-180 | both directions of that equality for one address |
| `Listeners.AnsweredOnceByItsOwnEvent` | kernel/src/usb/ring/transfer.rs:52-64 | a report answers the unanswered channel of the reported TRB with that event, as a success iff its code says so, and no other channel |
| `CommandRing.CommandQueue.constructor` | kernel/src/usb/ring/command.rs:14-25 | 32 slots whatever size is asked for |
| `CommandRing.CommandQueue.PushCommand` | kernel/src/usb/ring/command.rs:29-39 | accepted unless full; the command is in the ring and the channel returned is the one filed under its address |
| `CommandRing.CommandQueue.OnCommandCompletion` | kernel/src/usb/ring/command.rs:45-49 | the listener is answered and removed; the ring is not touched |
| `CommandRing.PushSpends` | kernel/src/usb/ring/command.rs:29-39 | the k-th command asked for gets channel k and uses up one of thirty places for good, or is refused |
| `CommandRing.CompletionRefundsNothing` | kernel/src/usb/ring/command.rs:45-49 | a completion gives no place back |
| `CommandRing.CompletionAnswers` | kernel/src/usb/ring/command.rs:45-49 | a completion answers the channel of the slot it names, if unanswered, with the whole completion, and no other |
| `CommandRing.LifetimeBudget` | kernel/src/usb/ring/command.rs:14-49 | after any run exactly min(pushes, 30) commands were accepted, each channel filed or answered by its own completion |
| `CommandRing.PushReturns` | kernel/src/usb/ring/command.rs:29-39 | over every run the k-th push returns channel k below thirty and nothing from there on |
| `CommandRing.CompletionsDoNotMakeRoom` | kernel/src/usb/ring/command.rs:29-49 | the 31st command is refused even when all before it completed |
| `CommandRing.CommandsAreFetched` | kernel/src/usb/ring/command.rs:29-39 | over every run slot k holds the k-th command with the set cycle bit, and the controller fetches exactly the accepted commands in order |
| `CommandRing.AnsweredByFirst` | kernel/src/usb/ring/command.rs:29-49 | over every run channel k has been sent the first completion that named slot k since the k-th command was asked for, and nothing else |
| `CommandRing.CommandGetsItsAnswer` | kernel/src/usb/ring/command.rs:29-49 | so whoever pushes a command that is accepted gets the completion of that command |
| `EventRing.NextEvent` | kernel/src/usb/ring/ring.rs:121-135 | the slot at the dequeue index holds the next unread event with the expected bit, or a stale bit when all are read |
| `EventRing.RoutedDelivers` | kernel/src/usb/ring/event.rs:70-88 | routing one more event extends the delivered sequence of its kind only |
| `EventRing.RightMailbox` | kernel/src/usb/ring/event.rs:70-88 | each listener has been sent all events of its own kind and no others |
| `EventRing.PopTakesNext` | kernel/src/usb/ring/ring.rs:121-135 | a pop yields the next unread event exactly once, and nothing and no change when all are read |
| `EventRing.Events.constructor` | kernel/src/usb/ring/ring.rs:107-115 | nothing written, nothing read |
| `EventRing.Events.Pop` | kernel/src/usb/ring/ring.rs:121-135 | the one pop that the step machine takes too, on any ring contents |
| `EventRing.Events.DrainOne` | kernel/src/usb/ring/event.rs:56-62 | one turn of the drain loop delivers one more event of the tape, or finds none |
| `EventRing.Events.OnXhcInterrupt` | kernel/src/usb/ring/event.rs:55-68 | everything written is delivered in order per listener and the reported pointer is the next unread slot, unless an unsupported event stops the driver right there |
| `EventRing.WriteKeepsTape` | kernel/src/usb/ring/ring.rs:106-135 | a cycle-correct write adds one event and overwrites none of the last lap |
| `EventRing.NextKeepsInv` | kernel/src/usb/ring/event.rs:55-88 | writes between the driver's steps keep the invariant |
| `EventRing.DrainIsExactlyOnce` | kernel/src/usb/ring/event.rs:55-88 | over every run what is delivered is what was written, once, in order per listener, never a stale slot |
| `EventPath.InTurn` | kernel/src/usb/ring/event.rs:55-74 | what reaches the channel are the first transfer events raised, and what the task has received the first of these |
| `EventPath.HandlingIsReport` | kernel/src/usb/xhci.rs:155-160 | the event the task handles is about the first outstanding TRB of its ring, however many events are under way |
| `EventPath.StepRefines` | kernel/src/usb/xhci.rs:155-160 | each step of the whole path is an action of `Listeners` or changes nothing there |
| `EventPath.NextKeepsInv` | kernel/src/usb/xhci.rs:155-160 | controller, interrupt handler, channel and task keep the invariant of the path, whatever their interleaving |
| `EventPath.RunInv` | kernel/src/usb/xhci.rs:155-160 | it holds in every state of every run |
| `EventPath.EveryEventFindsItsRequest` | kernel/src/usb/xhci.rs:155-160 | events are handled in the order they were raised, and the channels answered are exactly those the handled events were for, each once, with its own event, as a success iff the code is Success or ShortPacket |
| `EventPath.DrainedMeansAnswered` | kernel/src/usb/ring/event.rs:55-74 | once ring and channel are empty every event raised has been answered |
| `AsyncRuntime.NextKeepsInv` | kernel/src/usb/runtime.rs:42-149 | every step of any senders, executor and tasks keeps the invariant, with no discipline asked |
| `AsyncRuntime.WakerNoticedKept` | kernel/src/usb/runtime.rs:62-84 | a message behind a registered waker always has a sender that has yet to take the waker |
| `AsyncRuntime.FifoKept` | kernel/src/usb/runtime.rs:60-85 | per channel, sent = received + queued, in order |
| `AsyncRuns.RunInv` | kernel/src/usb/runtime.rs:37-162 | the invariant holds in every state of every interleaving |
| `AsyncRuns.ReceivedInOrder` | kernel/src/usb/runtime.rs:60-85 | so each channel is a FIFO that loses nothing, over every run |
| `AsyncRuntime.WillBePolledKept` | kernel/src/usb/runtime.rs:62-149 | a task that is scheduled, running, registered or about to be scheduled stays so, unless the step evicts it |
| `AsyncRuntime.EvictedIsUnheard` | kernel/src/usb/runtime.rs:65-68 | an evicted task awaits its channel with nothing on that channel left to schedule it |
| `AsyncRuntime.StepLosesIffEvicts` | kernel/src/usb/runtime.rs:62-149 | a step leaves some unfinished task out of reach if and only if it evicts |
| `AsyncRuns.MissedIffLost` | kernel/src/usb/runtime.rs:37-162 | for every task in every state of every run: it is unfinished and out of reach if and only if it was evicted and has not been scheduled by accident since |
| `AsyncRuns.RunLosesIffEvicts` | kernel/src/usb/runtime.rs:37-162 | all along a run every unfinished task can be reached if and only if no step evicts |
| `AsyncRuns.NoLostWakeup` | kernel/src/usb/runtime.rs:60-85 | a task awaiting a non-empty channel is scheduled, or about to be, or its registered waker is about to be taken, if and only if it is not lost in that sense |
| `AsyncRuns.QuiescentMeansDrained` | kernel/src/usb/runtime.rs:60-149 | when nothing is left to do, every unfinished task waits, and on an empty channel unless it is itself lost |
| `AsyncRuns.ResultOnce` | kernel/src/usb/runtime.rs:104-149 | in every run each task yields its result once, and a finished task is never polled again |
| `AsyncRuns.SomebodyCanMove` | kernel/src/usb/runtime.rs:60-149 | the two locks of a channel cannot deadlock |
| `LostWakeups.MessageIsLost` | kernel/src/usb/runtime.rs:78-84 | the next message on the channel waits in the queue without the evicted task being told |
| `AsyncRuntime.UnheardStays` | kernel/src/usb/runtime.rs:60-149 | whatever is sent, it stays unheard until it is scheduled by accident |
| `LostWakeups.EvictedIsForgotten` | kernel/src/usb/runtime.rs:65-68 | if it left no waker in another channel, nothing at all will schedule it |
| `LostWakeups.ForgottenForEver` | kernel/src/usb/runtime.rs:60-149 | and that stays so whatever is sent |
| `LostWakeups.LosingRun` | kernel/src/usb/runtime.rs:60-85 | a run of eleven steps from the start: two tasks register on one channel, and a message leaves the first forgotten in front of it |
| `FrameBuffer.Intersection` | kernel/src/graphic/graphics.rs:116-128 | exactly the common points; None exactly when there are none |
| `FrameBuffer.MoveRelative` | kernel/src/graphic/graphics.rs:103-110 | exactly the points shifted by the offset |
| `FrameBuffer.RowMembership` | kernel/src/graphic/frame_buffer.rs:78-81 | a slice between two columns of a row is exactly the bytes of those pixels, for any stride |
| `FrameBuffer.EveryByteIsInAPixel` | kernel/src/graphic/frame_buffer.rs:78-81 | every byte belongs to exactly one pixel |
| `FrameBuffer.FrameBuffer.constructor` | kernel/src/graphic/frame_buffer.rs:110-122 | a buffer of its own with rows as wide as the picture |
| `FrameBuffer.FrameBuffer.FromRaw` | kernel/src/graphic/frame_buffer.rs:96-108 | a buffer over video memory with padded rows |
| `FrameBuffer.FrameBuffer.ColorIsBytes` | kernel/src/graphic/frame_buffer.rs:42-47 | a colour is read from blue, green, red or from red, green, blue in the first three bytes, by the format |
| `FrameBuffer.FrameBuffer.Write` | kernel/src/graphic/frame_buffer.rs:26-39 | blue, green, red or red, green, blue go into the first three bytes of the pixel, by the format; every other byte and the reserved byte are unchanged |
| `FrameBuffer.FrameBuffer.CopyRow` | kernel/src/graphic/frame_buffer.rs:167-175 | one row slice replaced by pixels of another buffer, all else unchanged |
| `FrameBuffer.FrameBuffer.Copy` | kernel/src/graphic/frame_buffer.rs:138-177 | exactly the pixels both on screen and under the source are replaced, for any offset and any strides |
| `FrameBuffer.SliceOfRow` | kernel/src/graphic/frame_buffer.rs:78-81 | which bytes a copied row slice replaces and where each comes from, for any two strides |
| `FrameBuffer.FrameBuffer.CopyWithin` | kernel/src/graphic/frame_buffer.rs:193 | the bytes move as from a snapshot |
| `FrameBuffer.FrameBuffer.MoveRow` | kernel/src/graphic/frame_buffer.rs:185-193 | one row moved as if from a snapshot, even onto itself |
| `FrameBuffer.FrameBuffer.MoveRows` | kernel/src/graphic/frame_buffer.rs:183-207 | the row order makes the in-place moves equal one simultaneous copy, byte for byte |
| `FrameBuffer.FrameBuffer.MoveRect` | kernel/src/graphic/frame_buffer.rs:179-208 | every overlap of source and destination: the colours move as from a snapshot and all others stay |
| `Windows.Window.DrawTo` | kernel/src/graphic/window.rs:35-60 | exactly the visible, non-transparent pixels of the window are painted |
| `Windows.Window.DrawRowThrough` | kernel/src/graphic/window.rs:50-55 | one row of that loop |
| `Windows.Window.DrawThrough` | kernel/src/graphic/window.rs:41-57 | the same for the loop with a transparent colour |
| `Windows.HiddenMembers` | kernel/src/graphic/window.rs:155-157 | hiding removes that layer and no other, and keeps the stack free of duplicates |
| `Windows.RaisedIsInsertion` | kernel/src/graphic/window.rs:159-180 | a raised layer is at the requested height or on top, the others keep their order, no duplicates |
| `Windows.HiddenCommutes` | kernel/src/graphic/window.rs:155-157 | two layers can be hidden in either order |
| `Windows.RunsKeepOrder` | kernel/src/graphic/window.rs:155-180 | over every run of hides and raises: no duplicates, and the layers not named keep their order |
| `Windows.LayeredWindowManager.constructor` | kernel/src/graphic/window.rs:121-129 | no layers, a shadow of the screen's size |
| `Windows.LayeredWindowManager.NewLayer` | kernel/src/graphic/window.rs:131-135 | the window is appended and its index returned; it is not on the stack yet |
| `Windows.LayeredWindowManager.HideLayer` | kernel/src/graphic/window.rs:155-157 | the stack without that layer |
| `Windows.LayeredWindowManager.UpDownLayer` | kernel/src/graphic/window.rs:159-180 | the stack with the layer raised, for every height and whether or not it was shown |
| `Windows.LayeredWindowManager.TopmostDecides` | kernel/src/graphic/window.rs:145-153 | the topmost updated layer that paints a position decides its colour |
| `Windows.LayeredWindowManager.NoneKeepsShadow` | kernel/src/graphic/window.rs:145-153 | where no updated layer paints, the previous shadow shows |
| `Windows.LayeredWindowManager.DrawLayer` | kernel/src/graphic/window.rs:147-150 | an updated layer covers exactly the positions it paints |
| `Windows.LayeredWindowManager.DrawLayers` | kernel/src/graphic/window.rs:146-151 | the shadow becomes the composition of all updated layers |
| `Windows.LayeredWindowManager.Draw` | kernel/src/graphic/window.rs:145-153 | screen and shadow show the composition at every position |
| `Console.PaperKeepsEveryByte` | kernel/src/console.rs:106-125 | printing loses no byte, repeats none and keeps their order |
| `Console.PaperIsWellWrapped` | kernel/src/console.rs:106-125 | a line ends because it is full or a newline follows, never both, and newlines stand only at the start of lines |
| `Console.LayoutIsUnique` | kernel/src/console.rs:106-125 | what is printed is the only such layout of those bytes |
| `Console.PrintedInPieces` | kernel/src/console.rs:106-133 | printing in pieces is printing at once |
| `Console.ShiftedToFront` | kernel/src/graphic/font.rs:8-14 | the tested bit of a shifted row is the bit of that column from the left |
| `Console.IsInked` | kernel/src/graphic/font.rs:10 | the test of the drawing loop finds exactly the set bits of the glyph, left to right |
| `Console.WriteAscii` | kernel/src/graphic/font.rs:5-15 | exactly the glyph's pixels get the colour |
| `Console.ClearRows` | kernel/src/console.rs:84-88 | exactly the given rows of the text area get the background |
| `Console.Console.constructor` | kernel/src/console.rs:61-79 | the text area is cleared; grid and pixels agree, ready to print, if and only if one character fits |
| `Console.Console.RotateRows` | kernel/src/console.rs:90-93 | the swaps move the grid up by one row and clear the last |
| `Console.Console.MovePixelsUp` | kernel/src/console.rs:82 | every text row but the first appears one row higher |
| `Console.Console.ScrollUp` | kernel/src/console.rs:81-94 | grid and pixels move up by one text row together |
| `Console.NewLineShows` | kernel/src/console.rs:96-104 | a new line shows below the others, or pushes the first one off a full screen |
| `Console.Console.NewLine` | kernel/src/console.rs:96-104 | the cursor is at the start of a fresh line and grid and pixels agree |
| `Console.CellShows` | kernel/src/console.rs:116-118 | the cell at the cursor was blank, and storing the byte there shows it |
| `Console.Console.DrawCell` | kernel/src/console.rs:116-117 | drawing over a blank cell keeps the pixels equal to the rendering of the grid |
| `Console.Console.PutCell` | kernel/src/console.rs:116-118 | the byte joins the last line, and grid, cursor and pixels follow |
| `Console.Console.PutByte` | kernel/src/console.rs:112-122 | one byte is printed: the grid shows the end of the paper and the pixels render the grid |
| `Console.Console.PutString` | kernel/src/console.rs:106-125 | the same for any string, and the flushed half of the canvas shows it too |
| `UsbDescriptors.ConstructInterfaceAlternate` | kernel/src/usb/usbd.rs:405-425 | the loop computes the alternate at the front: None without an Interface or when a Configuration ends the run |
| `UsbDescriptors.ConstructInterface` | kernel/src/usb/usbd.rs:427-444 | the loop collects the leading alternates of one number and what follows them |
| `UsbDescriptors.ConstructConfiguration` | kernel/src/usb/usbd.rs:446-458 | None exactly without a leading Configuration; otherwise well grouped, and flattening gives the list back exactly when the tail is empty or starts with an Interface |
| `UsbDescriptors.AlternateReads` | kernel/src/usb/usbd.rs:405-425 | without a Configuration an alternate is always read, and what follows it starts with the next Interface |
| `UsbDescriptors.AlternateKept` | kernel/src/usb/usbd.rs:405-425 | flattening it gives the consumed descriptors back |
| `UsbDescriptors.AlternatesNumbered` | kernel/src/usb/usbd.rs:427-444 | all collected alternates share the number, and what follows has another |
| `UsbDescriptors.AlternatesKept` | kernel/src/usb/usbd.rs:427-444 | flattening the alternates and appending the rest gives the list back |
| `UsbDescriptors.NextInterfaceReads` | kernel/src/usb/usbd.rs:427-444 | without a Configuration each turn of the outer loop consumes something |
| `UsbDescriptors.AlternatesKeepConfiguration` | kernel/src/usb/usbd.rs:417-443 | no turn ever gets past a Configuration |
| `UsbDescriptors.HaltsIffParsable` | kernel/src/usb/usbd.rs:446-458 | the parser returns exactly when the tail does not start with an Interface or holds no Configuration |
| `UsbDescriptors.InterfacesKept` | kernel/src/usb/usbd.rs:446-458 | flattening all interfaces gives the tail back |
| `UsbDescriptors.InterfacesGrouped` | kernel/src/usb/usbd.rs:446-458 | alternates share their interface's number, no interface is empty, neighbours differ in number |
| `UsbDescriptors.NextOfFlat` | kernel/src/usb/usbd.rs:427-444 | reading the front of a flattened grouping gives its first interface |
| `UsbDescriptors.InterfacesOfFlat` | kernel/src/usb/usbd.rs:446-458 | parsing a flattened grouping gives the grouping |
| `UsbDescriptors.RoundTrip` | kernel/src/usb/usbd.rs:446-458 | the result is the only well-formed grouping that flattens to the list |
| `MessageQueues.MessageQueue.constructor` | kernel/src/main.rs:392-399 | empty |
| `MessageQueues.MessageQueue.Push` | kernel/src/main.rs:401-410 | refused exactly when full; otherwise appended, across the wrap of the buffer |
| `MessageQueues.MessageQueue.Pop` | kernel/src/main.rs:412-421 | the oldest message, across the wrap; None exactly when empty |
| `Timers.TimerManager.AddTimer` | kernel/src/timer.rs:79-81 | the heap gains the timer |
| `Timers.TimerManager.Pop` | kernel/src/timer.rs:34-39 | a timer of least timeout leaves the heap; ties in any order |
| `Timers.TimerManager.TopIsOver` | kernel/src/timer.rs:64 | true exactly when some timer is over |
| `Timers.TopIsLeft` | kernel/src/timer.rs:64-70 | a timer that is over was never re-armed by the same tick, which is why the loop ends |
| `Timers.PopKeepsOrder` | kernel/src/timer.rs:64-74 | timers expire in non-decreasing timeout order |
| `Timers.Offer` | kernel/src/timer.rs:72 | a refused push is ignored: the queue holds what fitted of all that was offered |
| `Timers.Tell` | kernel/src/timer.rs:67-73 | a user timer offers its message, a task timer none |
| `Timers.TimerManager.PopAndRearm` | kernel/src/timer.rs:65-70 | the earliest timer leaves the heap; a task timer comes back one period ahead |
| `Timers.TimerManager.FireTop` | kernel/src/timer.rs:65-73 | one turn: the heap's part together with the message to the queue |
| `Timers.TimerManager.FireAll` | kernel/src/timer.rs:64-74 | the loop ends, with no timer over |
| `Timers.TimerManager.Tick` | kernel/src/timer.rs:59-77 | exactly the expired timers are popped, in order; task timers are re-armed and signalled; the first messages that fit are queued |
| `Timers.InitializeTimer` | kernel/src/timer.rs:125-131 | one task timer, one period away |
| `Timers.TickLeavesNoneOver` | kernel/src/timer.rs:59-77 | no timer in the heap lies before the new tick |
| `Timers.TickConserves` | kernel/src/timer.rs:59-77 | a tick never grows the heap and keeps the number of task timers |
| `Timers.TickIsDetermined` | kernel/src/timer.rs:34-77 | the next heap and the signal do not depend on the order of ties |
| `Timers.UnitTickKeepsArmed` | kernel/src/timer.rs:16-77 | one unit tick keeps the single task timer in phase and signals exactly on a multiple of three |
| `Timers.RunArmed` | kernel/src/timer.rs:59-131 | that phase holds in every state of every run |
| `Timers.PreemptionEveryThirdTick` | kernel/src/timer.rs:16-131 | over every run of unit ticks and user timers, preemption is signalled exactly at ticks 3, 6, 9 and so on |
| `TaskSwitch.TaskManager.constructor` | kernel/src/task.rs:22-29 | a blank context for the running code and the second task |
| `TaskSwitch.TaskManager.SwitchContext` | kernel/src/task.rs:35-38 | the registers are saved in one context and loaded from the other |
| `TaskSwitch.TaskManager.SwitchTasks` | kernel/src/task.rs:41-55 | wherever the deque wraps, the front task is saved at the back and the next one runs |
| `TaskSwitch.StepKeepsRegisters` | kernel/src/task.rs:41-55 | a switch leaves the registers of every task as that task sees them; a computation changes only its own |
| `TaskSwitch.WhileSuspended` | kernel/src/task.rs:41-55 | a suspended task's registers are safe, and fewer than n switches have passed |
| `TaskSwitch.ResumesWhatItLeft` | kernel/src/task.rs:41-55 | with n >= 2 tasks each resumes after exactly n switches with exactly the registers it was suspended with |
| `PciScan.OrIsSum` | kernel/src/pci.rs:7-11 | the fields of an address share no bit, so joining them is adding them |
| `PciScan.AddressDecodes` | kernel/src/pci.rs:7-11 | bus, device, function and register can be read back from an address |
| `PciScan.AddressesDiffer` | kernel/src/pci.rs:7-11 | two addresses are the same if and only if function and register word are |
| `PciScan.DecodedIsLocal` | kernel/src/pci.rs:147-181 | what the scan sees of a function depends on that function's registers alone |
| `PciScan.WordFields` | kernel/src/pci.rs:147-181 | which bytes of a register the shifts and masks pick |
| `PciScan.SeesHeader` | kernel/src/pci.rs:147-181 | what the scan sees, on the bytes of the header: present iff bytes 0 and 1 are not both 0xff, single-function iff bit 7 of byte 0x0e is clear, bridge iff bytes 0x0b and 0x0a are 6 and 4, secondary bus byte 0x19 |
| `PciScan.RegistersHaveBytes` | kernel/src/pci.rs:17-20 | any contents of the registers are the bytes of some header |
| `PciScan.OnBusMembers` | kernel/src/pci.rs:89-112 | what is scanned on a bus: function 0 of each present device, and the present others of multi-function devices |
| `PciScan.PciController.constructor` | kernel/src/pci.rs:48-53 | an empty table of 32 entries |
| `PciScan.PciController.AddDevice` | kernel/src/pci.rs:80-87 | refused exactly when 32 entries are taken |
| `PciScan.PciController.ScanFunction` | kernel/src/pci.rs:114-131 | ends on every configuration space; succeeds exactly when the whole depth-first listing below the function fits, and then appends it |
| `PciScan.PciController.ScanDevice` | kernel/src/pci.rs:98-112 | the same for the functions of a device |
| `PciScan.PciController.ScanBus` | kernel/src/pci.rs:89-96 | the same for a bus |
| `PciScan.RootsAreOnRootBuses` | kernel/src/pci.rs:56-69 | the scan starts from what shows on bus 0, or on the buses numbered like the functions of a host bridge with several |
| `PciScan.ReachableIsAttached` | kernel/src/pci.rs:56-131 | reachable in the decoded view is attached by bridges in the bytes of the headers |
| `PciScan.ScanFinds` | kernel/src/pci.rs:56-131 | the outcome of a whole scan on those bytes: exactly the attached functions, each once iff one way leads to each, never with a cycle of bridges |
| `PciScan.PciController.ScanAllBus` | kernel/src/pci.rs:56-69 | the same for all root buses of any register contents; on success the table holds exactly the functions attached according to the bytes of the headers, each once if and only if there is one way to each, and a cycle of bridges never succeeds |
| `PciScan.PciController.ScanRoots` | kernel/src/pci.rs:57-68 | the outcome for the host bridge's buses, single-function or not |
| `PciScan.DepthDoesNotMatter` | kernel/src/pci.rs:89-131 | a finite listing needs no more depth than it has entries, which is why a capacity bounds the recursion |
| `PciScan.ThenMore` | kernel/src/pci.rs:89-112 | outcomes compose: scanning one list and then another is scanning both |
| `PciScan.ListedIsReachable` | kernel/src/pci.rs:114-131 | everything listed is reached through a chain of bridges |
| `PciScan.ChainIsListed` | kernel/src/pci.rs:114-131 | everything a chain of bridges reaches is listed |
| `PciScan.OkListsExactlyReachable` | kernel/src/pci.rs:56-131 | on success the table holds exactly the reachable functions |
| `PciScan.ListingBalance` | kernel/src/pci.rs:89-131 | a function is listed once for each time the scan starts from it or passes a bridge to its bus |
| `PciScan.OnceIffOneWay` | kernel/src/pci.rs:56-131 | on success nothing is listed twice, if and only if no two bridges reached lead to the same function and none back to a root bus |
| `PciScan.CycleMeansFull` | kernel/src/pci.rs:56-131 | when a bridge points back at the bus of an ancestor the scan always ends in the error, with a full table |

## Left out

- Inline and global assembly, segment and page tables, interrupt descriptors, ACPI, the APIC and port I/O: hardware effects, the doorbell of the command ring among them. Of `switch_context` only the effect of saving and restoring is modelled.
- `kernel/src/usb/xhci.rs`, `device.rs`, `context.rs`, the device conversations and the class drivers: register access and wrappers over a crate that is not part of this model.
- The PCI configuration space is constant during a scan; port I/O is not modelled.
- A TRB is written in one step, although it is more than one word of memory.
- Reading descriptors from raw bytes: the model starts from a list of descriptors.
- `BroadcastReceiver` and `BroadcastSender`: not used by the modelled code. The oneshot channels come from a crate that is not part of this model; a task that parks on one counts as awaiting a channel of its own.
- `SpinMutex` and `SingleMutex`: sections under these locks are single steps.
- Objects shared between threads (the channels and tasks of the runtime, the lock word) are states of step machines, not classes: a step is one critical section or one atomic instruction, and update in place inside a step is not captured.
- Memory ordering: atomic operations are sequentially consistent steps.
- The glyph table: any font whose glyph 0 is blank. `fill_rect`, `draw_bitpattern` and the mouse cursor would only add easy members.
- Integer widths: coordinates, timeouts and addresses are unbounded, so overflow of `i32` coordinates and of the 64-bit tick is not modelled. The lock word is modelled with its 64-bit wrap-around.
- Reads and writes of the heap's own headers by a client that breaks the rules of `GlobalAlloc` (freeing twice, writing outside its block).
- The internals of `VecDeque`, `BTreeMap` and `BinaryHeap`: a sequence with an arbitrary split into two slices, a map, and a multiset whose `pop` takes any timer of least timeout.
- TransferRings.TransferRingSet.PushTransferTrb: the rings are values in the map, replaced on each push, where the source updates the ring in place; `TrbRing.ProducerRing` has the in-place form of one ring.
- TransferRings.TransferRingSet.OnTrfEvent: requires a known ring and a pointer into it; the source panics on an unknown ring and, unless it is optimised, on any other pointer.
- Listeners.WNextKeepsInv: an event is always about the ring that its key names now; events of a ring that was replaced are not modelled.
- EventPath.NextKeepsInv: for the same reason a ring is not replaced while one of its events is under way; the source would take a pointer into the old ring for one into the new.
- FrameBitmap.UnmarkedIsAvailable: entries start at page boundaries, as the UEFI specification promises of a memory map.
- FrameBitmap.BitMapMemoryManager.Allocate: requires no more frames than the range ends at, and `SlabHeap.Alloc` aborts on more; that is the panic of an unoptimised build. In an optimised build the subtraction wraps around and the search runs on past the range.
- FrameBuffer.FrameBuffer.MoveRect: requires the destination inside the buffer; the source checks only the source rectangle, and a destination across the end of a row would wrap into the next row.
- FrameBuffer.FrameBuffer.MoveRows: requires the same, since it is the loop of `MoveRect`.
- FrameBuffer.FrameBuffer.Copy: requires two different buffers, which the borrow rules of the source give.
- TaskSwitch.TaskManager.SwitchTasks: requires two contexts; with fewer the source panics.
- PciScan.PciController.ScanDevice: requires that function 0 is present, which its only caller has checked.
- RwSpinLock.OverflowAtTwoToThe63: the addition wraps around as in an optimised build; an unoptimised build panics on it instead.
- Timers.TimerManager.Tick: does not model overflow of the tick counter or of a re-armed timeout.
- UsbDescriptors.ConstructConfiguration: requires a list on which the loop ends; `UsbDescriptors.HaltsIffParsable` shows that on all other lists the source does not return.
