# A model of the JOS kernel and file server

JOS is a small exokernel-style operating system for the Intel 80386: a kernel
with page tables, environments (processes), message passing and a scheduler,
and a user-level library and file server on top. This project models five of
its parts in Dafny and proves what they are for.

**Physical memory and address spaces** (`Mmu`, `Queue`, `PageGraph`, `PageOps`,
`PageSys`, `Teardown`, `Kernel`, `EnvIds`, `Envs`). Memory is a sequence of
4096-byte frames; page directories, page tables and data pages are frames like
any other, as section 5.2 of the Intel 80386 Programmer's Reference Manual lays
them out. Every place that names a frame is a *reference*. One invariant,
`PageOps.Inv`, says that each counter equals the number of references, that the
free list is duplicate-free and holds exactly the frames that are unreferenced,
unreserved and not in flight, and that directories and tables are never shared.
The user part of all address spaces together is one flat map from virtual page
to entry (`PageGraph.FlatOf`); the page operations are single-key operations on
it. Class `Kern.Kernel` performs them in place, word by word, and class
`Envs.EnvTable` adds the environment table and the page system calls.
`KernelExamples` are runs in which the code goes wrong.

**Copy-on-write fork** (`CowFork`, `CowKernel`, `CowRun`). `CowFork` is a state
machine whose steps are single memory accesses and system calls of all
environments, in any interleaving. `View` is what the environments read; the run
on private memories is the specification. `CowKernel` shows that the page system
calls on the two-level tables are these steps, and `CowRun` puts both together:
every run of system calls and memory accesses over directories, tables,
reference counts and free list is a run on private memories.

**File system** (`FsBytes`, `FsLayout`, `FsOps`, `FsSpace`, `FsResize`,
`BlockCache`, `Fs`, `FsNames`, `FsDirs`, `FsPaths`, `FsFormat`). The disk is a
sequence of blocks of bytes; super block, bitmap, File structures and indirect
blocks are read out of these bytes. `FsLayout.FsInv` is the ownership invariant,
`FsNames.Tree` adds directories without holes and with unique names. `FsSpace`
counts the free blocks that reading and writing need. The classes work through a
write-back block cache whose panics are shown unreachable. `FsFormat` is the
program that writes the first image, and `FsExamples` are disks made by it on
which the code does not do what its comments say.

**Messages and scheduling** (`Sched`, `Ipc`). Send, receive and yield with the
two compacting wait arrays, and the choice by priority, number of sends and
circular order.

**Two algorithms** (`Kdebug`, `SpawnStack`): the binary search over symbol
table entries of mixed types, and the stack page of a spawned program.

Code that changes things in place is a class or a method with loops, proved
against a function of the old state; lemmas about that function say what it
means. Values are unbounded integers; 32-bit wrap-around is written out where
it matters (environment ids, the search address, the argument-size test, the
send counter, the block count of file_flush and file_truncate_blocks). Signed
overflow is taken to wrap around.

## Where the code differs from its comments

These came out of the proofs; each is stated as an equivalence and shown at a
concrete input.

- `page_remove` tests the slot and not the page: with a table present and the
  entry not present it goes through a null page pointer
  (`Kern.Kernel.PageRemove`, result `fault`; `KernelExamples.UnmapNothing`).
- `sys_page_map` frees a page that is still mapped when `page_insert` runs out
  of memory: the books survive exactly when it does not
  (`PageSys.MapSharedAccounting`; `KernelExamples.MapWithoutMemory`).
- `pgfault` refuses a page only if its table is missing *and* it is not
  copy-on-write, and a mapped page has its table. So a write fault is served if
  and only if the page is mapped, and a page is made writable against the comment
  if and only if it is mapped, not writable and not copy-on-write
  (`CowFork.ServedAgainstComment`, `CowKernel.MappedNotRefused`;
  `CowFork.ReadOnlyServed`). The copy-on-write theorems are proved for that
  handler.
- A read at any offset after a successful write need not succeed: a hole outside
  the range written needs a free block (`Fs.FileSystem.WriteThenRead` has the
  exact condition, and the read succeeds inside the range written;
  `FsExamples.FullDiskHole`).
- Shrinking a file does not clear the tail of its last block; a gap reads as
  zeros exactly when that tail was zero (`Fs.GapIsZero`;
  `FsExamples.GapKeepsOldBytes`).
- `file_flush` computes the number of blocks as a signed number: for sizes above
  2^31 - 4096 it flushes no data block (`FsLayout.BlockCountExact`,
  `Fs.FileSystem.FileFlush`; `FsExamples.FlushMisses`).
- `file_set_size` takes negative sizes and stores them: the invariant is kept if
  and only if the size is not negative (`FsResize.SetSizeWordCorrect`,
  `Fs.FileSystem.FileSetSize`; `FsExamples.NegativeSize`).
- `file_create` leaves the directory with a larger size and a hole if and only if
  all entries are taken and the directory has its largest size or too few blocks
  are free (`FsDirs.DirFull`, `FsDirs.CreateCorrect`;
  `FsExamples.CreateOnFullDisk`).
- `fsformat` with no files points the root at a block that stays free; the
  invariant holds exactly when there is a file (`FsFormat.Format`,
  `FsFormat.EmptyImage`).
- A send to oneself, by 0 or by one's own id, sleeps forever; the sender is
  queued for itself if and only if it names itself (`Ipc.SelfSendQueues`,
  `Ipc.NamesSelf`, `Ipc.SelfSendSleepsForever`; `Ipc.LonelySend`). So do environments whose sends
  wait for one another (`Ipc.WaitInsideForever`, `Ipc.CrossSendQueues`).
- The fewest-sends rule does not keep counters level when an environment completes
  two sends in one turn: over every run they stay within one of each other if and
  only if every member that completes a send had the fewest (`Ipc.LevelOverRun`;
  `Ipc.TwoSendsInATurn`).
- `stab_binsearch` goes on with `addr + 1` after an exact match.  It brackets
  `addr` if and only if no entry stands at `addr`, or none at `addr + 1`, or
  bisecting the positions meets the first entry at `addr + 1` before any at
  `addr`; at the two largest addresses the wrap-around of `addr` changes the
  condition (`Kdebug.Succeeds`, `Kdebug.SearchBracketsExactly`;
  `Kdebug.SearchMisses`, `Kdebug.SearchSucceeds`, `Kdebug.SearchBelowTop`).
  Left > right says only that there is no entry of the type
  (`Kdebug.LeftBeyondRight`).
- The size test of `init_stack` compares 32-bit addresses: it passes lists that do
  not fit, and then the code stores outside the page; it stays inside if and only
  if the list fits (`SpawnStack.TooLargeExactly`, `SpawnStack.StaysInsideExactly`,
  `SpawnStack.InitStack`; `SpawnStack.TooLargeMisses`).

## Model

| member | source | states |
|---|---|---|
| Mmu.AddressSplit | inc/mmu.h:29-44 | an address is put together again from its three parts, and VPN is the pair of indices |
| Mmu.AddressJoin | inc/mmu.h:29-44 | the parts of an address put together are the parts given |
| Mmu.PteRoundTrip | inc/mmu.h:59-78 | a table entry decodes to the page and permissions it was made from |
| Mmu.PermissionBits | inc/mmu.h:59-78 | which bit of a permission each flag is, and what adding PTE_P to it gives |
| Mmu.UserPermExactly | inc/mmu.h:70-75 | the page system calls take exactly the sixteen permissions with PTE_U, PTE_P and no bits but PTE_W and the three left to users |
| Mmu.MemoryMap | inc/memlayout.h:20-72 | the regions above UTOP follow one another, each at the start of a table of its own |
| Errors.NumbersMatchMessages | lib/printfmt.c:38-56 | the error numbers are in step with the list of messages |
| Queue.List.constructor | inc/queue.h:168-170 | an empty, well-linked list |
| Queue.List.InsertHead | inc/queue.h:201-207 | the element becomes the first; links and back links stay consistent |
| Queue.List.Remove | inc/queue.h:212-217 | exactly that element is gone, found through its links alone |
| PageGraph.StorePte | kern/pmap.c:439-451 | a store into a table entry changes what the two-level walk finds at that one place, for all roots |
| PageGraph.AddKeepsBalance | kern/pmap.c:617-637 | a new reference together with a raised counter keeps counters and free list exact |
| PageGraph.DropKeepsBalance | kern/pmap.c:549-553 | a dropped reference with page_decref keeps them exact, freeing the page exactly at zero |
| PageGraph.TakeKeepsBalance | kern/pmap.c:520-530 | page_alloc moves the head of the free list into flight |
| PageGraph.GiveKeepsBalance | kern/pmap.c:537-542 | page_free puts a page in flight back |
| PageGraph.BootBalance | kern/pmap.c:466-492 | the books page_init makes are exact for the boot directory |
| PageGraph.FlatAfterInsert | kern/pmap.c:617-637 | the graph change of an insertion, with or without a new table, is one key of the flat map |
| PageGraph.InsertFresh | kern/pmap.c:617-637 | the final store into an entry that is not present adds exactly that reference |
| PageGraph.InsertAgain | kern/pmap.c:617-637 | re-inserting the same page changes the permissions and no counter |
| PageGraph.ErasePte | kern/pmap.c:708-720 | clearing an entry after page_decref removes exactly one reference and accounts for it |
| PageGraph.HookTableCorrect | kern/pmap.c:574-592 | hooking a cleared table adds one directory entry and maps nothing |
| PageGraph.ClearPde | kern/env.c:400-402 | clearing the directory entry of an empty table removes exactly that reference |
| PageGraph.ClearDir | kern/env.c:405-409 | forgetting a directory without tables removes exactly its reference |
| PageOps.WalkCorrect | kern/pmap.c:574-592 | pgdir_walk changes no mapping and adds a table exactly when one is missing and a page is free |
| PageOps.RemoveIsDelete | kern/pmap.c:708-720 | page_remove is a single-key delete of the flat map and keeps the invariant |
| PageOps.InsertIsUpdate | kern/pmap.c:617-637 | page_insert is a single-key update, also for the same page; it fails without effect exactly when a table is missing and memory is used up |
| PageOps.SegmentStep | kern/pmap.c:650-663 | one turn of boot_map_segment extends the mapped range by one page and nothing else |
| PageOps.MissingStep | kern/pmap.c:650-663 | one turn takes the table of its page, if it was missing, out of those missing, and no other |
| PageOps.SetupCorrect | kern/env.c:100-143 | a new environment maps nothing in its user part, shares the kernel part, and owns one page |
| PageOps.SelfMaps | kern/env.c:137-140 | the new directory appears in itself twice: writable for the kernel only, readable for users, and there is no table below UTOP |
| PageOps.TablesReadable | inc/memlayout.h:136-150 | so what stands at UVPT, by page number, is the entry of that page, wherever there is a table |
| PageOps.OwnedAddresses | inc/memlayout.h:90-116 | an environment owns the addresses below UTOP, the boot directory all but those of the two self maps |
| PageOps.DropTableCorrect | kern/env.c:400-402 | giving back an emptied table keeps the invariant |
| PageOps.DropDirCorrect | kern/env.c:405-409 | giving back an emptied directory keeps the invariant |
| PageSys.MapNewCorrect | kern/syscall.c:275-311 | sys_page_alloc maps a cleared page nobody else refers to, and fails without a trace |
| PageSys.MapNewAnswer | kern/syscall.c:275-311 | it fails if and only if no page is free, or one only and that is needed for a table |
| PageSys.MapSharedCorrect | kern/syscall.c:330-372 | a successful sys_page_map makes an alias with the permissions asked for and touches no data |
| PageSys.MapAnswer | kern/syscall.c:330-372 | what sys_page_map answers, on the flat spaces: the source must be mapped, and for writing if the target is to be |
| PageSys.MapMeaning | kern/syscall.c:330-372 | what a successful sys_page_map does: one key of the flat spaces, and no data |
| PageSys.MapSharedAccounting | kern/syscall.c:330-372 | the page accounting survives sys_page_map if and only if page_insert does not run out of memory |
| PageSys.FlatAt | kern/pmap.c:439-451 | the flat map at a page is what the walk of check_va2pa finds |
| Teardown.TeardownAccounts | kern/env.c:367-414 | env_free lowers each count by exactly the environment's references; free afterwards is exactly what it held alone |
| Teardown.TeardownFlat | kern/env.c:367-414 | the flat spaces lose the pages of that environment and nothing else |
| Kern.Kernel.constructor | kern/pmap.c:466-492 | page_init: the free list is exactly the pages but page 0, the I/O hole and what the kernel occupies, and the invariant holds |
| Kern.Kernel.PageAlloc | kern/pmap.c:520-530 | the first free page, or -E_NO_MEM and no change |
| Kern.Kernel.PageFree | kern/pmap.c:537-542 | a page in flight is the first free page |
| Kern.Kernel.PageDecref | kern/pmap.c:549-553 | the counter falls by one and the page is free exactly at zero |
| Kern.Kernel.PgdirWalk | kern/pmap.c:574-592 | the slot of the table entry, with a new table if asked for and possible |
| Kern.Kernel.PageLookup | kern/pmap.c:677-690 | the page that the walk finds, and its slot |
| Kern.Kernel.PageRemove | kern/pmap.c:708-720 | the state is that of the single-key delete; a null page exactly when the table exists and the entry does not |
| Kern.Kernel.PageInsert | kern/pmap.c:617-637 | the state and result of the single-key update |
| Kern.Kernel.BootMapSegment | kern/pmap.c:650-663 | exactly the range is mapped to consecutive pages; a walk fails if and only if more tables are missing than pages are free |
| Kern.Kernel.EnvSetupVm | kern/env.c:100-143 | the new directory, or -E_NO_MEM and no change |
| Kern.Kernel.FreeSpace | kern/env.c:367-414 | nothing of the environment is left, nobody else's translations change, and data pages keep their content |
| Kern.Kernel.FreeEntries | kern/env.c:394-398 | the inner loop removes every entry of one table |
| EnvIds.IdClosedForm | kern/env.c:167-171 | the ids of a slot are the multiples of 4096 below 2^31, plus the slot, round and round |
| EnvIds.IdNamesSlot | kern/env.c:167-171 | ids are positive and ENVX leads back to the slot |
| EnvIds.IdReissued | kern/env.c:167-171 | an id comes back after 524287 allocations of its slot and never before |
| Envs.Identity | kern/env.c:154-225 | ids of allocated slots are positive, name their slot and are pairwise distinct |
| Envs.AllowedExactly | kern/env.c:37-70 | whom a call may act on: exactly the caller, under 0 or its id, and its children, under theirs |
| Envs.ReceiverExactly | kern/env.c:37-70 | who can be sent to: exactly the environments in use, under their ids, and oneself under 0 |
| Envs.ActsExactly | kern/syscall.c:108-398 | so for every call in a run |
| Envs.SendsToExactly | kern/syscall.c:445-504 | so for every send in a run |
| Envs.WithEnvMeaning | kern/env.c:154-225 | a new environment has the first free slot, an id that names it, the parent and status asked for and a directory without pages; without a slot or a page nothing happens |
| Envs.SendMeaning | kern/syscall.c:466-501 | every answer of a send to a waiting environment, on the flat spaces; a page goes along exactly with an address on both sides, and the receiver runs again exactly at success |
| Envs.StaleIdRejected | kern/env.c:37-70 | an old id is accepted if and only if the slot is in use by an allocation a multiple of 524287 later |
| Envs.EnvTable.constructor | kern/env.c:77-87 | all slots free, in order, and the table consistent |
| Envs.EnvTable.Envid2env | kern/env.c:37-70 | the slot with that id, permission checked, or -E_BAD_ENV |
| Envs.EnvTable.EnvAlloc | kern/env.c:154-225 | the first free slot, with its next id, the parent given, runnable and with an empty user space; everybody else's id, parent and status as before; -E_NO_FREE_ENV and -E_NO_MEM, without effect, exactly when there is no slot or no page |
| Envs.EnvTable.EnvFree | kern/env.c:367-414 | the slot is free, its references are gone, counts and free list change by exactly what it held |
| Envs.EnvTable.EnvDestroy | kern/env.c:422-430 | env_free, and nobody runs if it was the running environment |
| Envs.EnvTable.SysExofork | kern/syscall.c:78-98 | a child of the caller, not runnable, with an empty user space, under an id by which the caller may act on it; both errors |
| Envs.EnvTable.SysPageAlloc | kern/syscall.c:275-311 | every error case and its condition, and the new mapping as one key of the flat spaces |
| Envs.EnvTable.SysPageMap | kern/syscall.c:330-372 | every error case and its condition, the alias, and that only a failing page_insert spoils the books |
| Envs.EnvTable.SysPageUnmap | kern/syscall.c:382-398 | every error case and the single-key delete of the flat spaces |
| Envs.EnvTable.SysEnvSetStatus | kern/syscall.c:108-128 | every error case; one status changes and nothing else |
| Envs.EnvTable.SysIpcTrySend | kern/syscall.c:445-504 | the page of a delivered message is an alias with the permissions asked for; a sender nobody waits for stops; every error case, and the freed page of a failing page_insert |
| Envs.SendResultIsPageError | kern/syscall.c:466-487 | the answer on the page tables is the one the model of messages works with |
| Envs.EnvTable.SysIpcRecv | kern/syscall.c:518-557 | the caller stops and the sender next in line may run; memory and free slots stay |
| Envs.EnvTable.Run | kern/syscall.c:562-633 | over any sequence of calls the accounting invariant and the environment table are in order at every point of the trace; it stops exactly at the first call that does not go on |
| Envs.EnvTable.Perform | kern/syscall.c:562-633 | what each call, IPC and status changes included, does to memory, table, free slots and curenv; it goes on exactly when it meets no null page and neither sys_page_map nor sys_ipc_try_send runs out of memory half-way |
| KernelExamples.UnmapNothing | kern/pmap.c:708-720 | a run in which sys_page_unmap goes through a null page |
| KernelExamples.MapWithoutMemory | kern/syscall.c:359-367 | a run in which sys_page_map puts a mapped page on the free list |
| CowFork.SoleMapping | lib/fork.c:72-100 | a writable page of the range is mapped nowhere else |
| CowFork.DuppageShares | lib/fork.c:72-100 | duppage leaves the shared page writable for nobody |
| CowFork.DuppageMarks | lib/fork.c:72-100 | a page that was writable or copy-on-write is copy-on-write and not writable in both environments afterwards; any other stays as it was and is read-only in the child |
| CowFork.PageNumbers | lib/fork.c:132-138 | the loop of fork visits the pages from UTEXT up to the exception stack; the temporary page lies below |
| CowFork.StepRefines | lib/fork.c:18-153 | every step keeps the invariant and is the corresponding step on private memories |
| CowFork.RunRefines | lib/fork.c:18-153 | so is every run, over every interleaving of writes, faults and forks |
| CowFork.StartKeepsInv | lib/fork.c:119-153 | an environment whose pages are mapped once each satisfies the invariant |
| CowFork.ServedExactly | lib/fork.c:18-58 | a write fault is served, to the end, if and only if the page is mapped; only that page is remapped |
| CowFork.ServedAgainstComment | lib/fork.c:24-31 | a page is made writable against the comment if and only if it is mapped, not writable and not copy-on-write |
| CowFork.ReadOnlyServed | lib/fork.c:24-31 | a read-only page for which that happens |
| CowFork.Isolation | lib/fork.c:18-153 | a step of one environment never changes what another running one reads |
| CowFork.FaultAllocStep | lib/fork.c:18-58 | taking the page for the copy is invisible |
| CowFork.FaultCopyStep | lib/fork.c:18-58 | copying a word is invisible |
| CowFork.FaultMoveStep | lib/fork.c:18-58 | installing the copy is invisible |
| CowFork.ForkPageStep | lib/fork.c:119-153 | one turn of fork's loop copies one page, as seen by the child |
| CowFork.ForkEndStep | lib/fork.c:119-153 | giving the child its exception stack and starting it changes nothing that is read |
| CowFork.ExitStep | kern/env.c:367-414 | an environment that ends takes its own memory with it and nothing else |
| CowFork.UserSpace.Pgfault | lib/fork.c:18-58 | afterwards the page is mapped for its user to write, is not copy-on-write, and nobody reads anything different |
| CowFork.UserSpace.DupPage | lib/fork.c:72-100 | one turn of the loop: the page is in both environments with the permissions of DuppageMarks, and nothing else changes |
| CowFork.UserSpace.Fork | lib/fork.c:119-153 | the child starts with the parent's contents; every page the loop visits has the permissions of DuppageMarks in both, the exception stack is the child's own, writable and not copy-on-write; nobody else's change |
| CowKernel.AllocIsFaultAlloc | kern/syscall.c:275-311 | sys_page_alloc on the two-level tables is the first step of the handler |
| CowKernel.MapIsFaultMove | kern/syscall.c:330-372 | sys_page_map from the temporary page is the step that installs the copy |
| CowKernel.UnmapIsFaultDone | kern/syscall.c:382-398 | sys_page_unmap of the temporary page is the last step |
| CowKernel.MapTwiceIsDuppage | kern/syscall.c:611-614 | the map-and-update-permissions call is duppage of a writable or copy-on-write page, and no mapped page changes |
| CowKernel.MapOnceIsDuppage | lib/fork.c:92-95 | the read-only mapping is duppage of any other page, and no mapped page changes |
| CowKernel.DupCallsAreDuppage | lib/fork.c:72-100 | the calls of duppage are its step on what is seen, mappings and content |
| CowKernel.MapNewAgrees | kern/syscall.c:275-311 | sys_page_alloc hands out a page nothing is mapped to, and nothing else looks different |
| CowKernel.MappedNotRefused | lib/fork.c:30-31 | a mapped page has its table, so the test of pgfault refuses none |
| CowKernel.TablelessRefused | lib/fork.c:30-31 | a page without a table is refused |
| CowRun.StepMatches | lib/fork.c:18-153 | every call on the two-level tables keeps the page accounting and the copy-on-write invariant and is the step on private memories |
| CowRun.KernelRefinesPrivate | lib/fork.c:18-153 | so is every run of calls and memory accesses, over every interleaving |
| CowRun.StartIsGood | kern/env.c:154-225 | a run can start with one environment whose pages are mapped once each |
| FsBytes.PutWordCorrect | inc/fs.h:30-45 | a stored word reads back and no other word or byte changes |
| FsBytes.SetBitCorrect | fs/fs.c:40-46 | setting a bit sets that bit only |
| FsBytes.ClearBitCorrect | fs/fs.c:57-79 | clearing a bit clears that bit only |
| FsLayout.ReservedAccess | fs/bc.c:6-60 | under the invariant super block and bitmap pass the checks of diskaddr and bc_pgfault; every access of Fs and FsPaths requires these checks (Cache.Accessible), so the panics are unreachable |
| FsLayout.HomeAccess | fs/bc.c:6-60 | so do the blocks of File structures; this discharges the `requires` of the accesses to them |
| FsLayout.OwnedAccess | fs/bc.c:6-60 | so do all direct, indirect and data blocks; this discharges the `requires` of the accesses to them |
| FsLayout.ReservedExactly | fs/fs.c:85-102 | the bitmap has a bit for every block, and no more blocks than that takes |
| FsLayout.StoreDirect | fs/fs.c:145-168 | a store into a direct slot changes that one place of that one file |
| FsLayout.StoreIndirect | fs/fs.c:145-168 | a store of the indirect block number changes the slots behind it and nothing else |
| FsLayout.StoreTable | fs/fs.c:145-168 | a store into an indirect block changes one slot |
| FsLayout.MarkUsedCorrect | fs/fs.c:57-79 | exactly that block is not free any more |
| FsLayout.MarkFreeCorrect | fs/fs.c:40-46 | exactly that block is free too |
| FsOps.FirstFreeCorrect | fs/fs.c:57-79 | the search finds the first free block |
| FsOps.AllocBlockCorrect | fs/fs.c:57-79 | the first free block, which belongs to nobody, or -E_NO_DISK exactly when none is free |
| FsOps.WalkCorrect | fs/fs.c:145-168 | file_block_walk keeps the invariant and all content, adding a cleared indirect block if needed and asked for; the answer in every case |
| FsOps.NoSlotTooFar | fs/fs.c:145-151 | past the largest file there is no slot: -E_INVAL and no change |
| FsOps.GetBlockCorrect | fs/fs.c:179-199 | file_get_block keeps the invariant and everything that can be read; both errors and their cause |
| FsSpace.GetBlockSpace | fs/fs.c:179-199 | it succeeds if and only if one block is free for a hole, two with a new indirect block, and takes exactly these |
| FsSpace.TransferStep | fs/fs.c:363-412 | getting one block of a range leaves the outcome of the rest what it was |
| FsSpace.AllocatedTransfers | fs/fs.c:363-384 | a range within one whose blocks are there can be transferred |
| FsLayout.BlockCountExact | fs/fs.c:441-479 | the signed and unsigned block counts are right exactly for sizes up to 2^31 - 4096 |
| FsResize.FreeCounted | fs/fs.c:441-456 | file_truncate_blocks frees what it should even where its counts wrap around |
| FsResize.WriteChunkCorrect | fs/fs.c:391-412 | the bytes land where they belong in this file and nowhere else |
| FsResize.FreeFileBlockCorrect | fs/fs.c:417-429 | the slot is empty, its block free, everything else as before; the answer in every case |
| FsResize.FreeRangeCorrect | fs/fs.c:441-456 | the loop frees exactly the blocks of the range |
| FsResize.TruncateCorrect | fs/fs.c:441-456 | exactly the slots past the new end, and the indirect block when direct slots suffice, are freed; the prefix keeps its bytes; also for directories, once no File structure in the blocks given up counts |
| FsResize.TruncateCounts | fs/fs.c:441-456 | the number of free blocks rises by exactly the number of blocks given up |
| FsResize.SetSizeCorrect | fs/fs.c:460-467 | the new size, the content up to it, and every other file as before |
| FsLayout.NegativeCount | fs/fs.c:441-456 | the block count of a negative size is zero or more than any file has |
| FsResize.SetSizeWordCorrect | fs/fs.c:460-467 | for all 32-bit sizes: the invariant is kept if and only if the size is not negative |
| FsResize.RemoveFileCorrect | fs/fs.c:492-506 | everything the file had is free, its name and size are empty and the rest of its structure is as before, every other file as before |
| Cache.BlockCache.Fault | fs/bc.c:31-60 | faulting a block in changes nothing that is seen, and leaves the page dirty |
| Cache.BlockCache.Write | fs/bc.c:31-60 | a store is seen at once and reaches no disk block |
| Cache.BlockCache.FlushBlock | fs/bc.c:70-89 | the block is on disk, nothing looks different, no other disk block changes |
| Fs.FileSystem.BlockIsFree | fs/fs.c:29-36 | the bit of the bitmap, read through the cache |
| Fs.FileSystem.TakeBlock | fs/fs.c:57-79 | the first free block is taken; the first bitmap block is on disk |
| Fs.FileSystem.FileBlockWalk | fs/fs.c:145-168 | the disk and result of the walk |
| Fs.FileSystem.FileGetBlock | fs/fs.c:179-199 | the disk and result of getting a block |
| Fs.FileSystem.FileRead | fs/fs.c:363-384 | the bytes of the content from the offset: the count asked for, or all up to the end of the file; exactly when it fails, and with which error; no content changes |
| Fs.FileSystem.FileWrite | fs/fs.c:391-412 | the old bytes overwritten at [off, off+n), across blocks and the indirect block; exactly when it fails; exactly the holes of the range are filled, and as many blocks taken; other files as before |
| Fs.FileSystem.WriteThenRead | fs/fs.c:363-412 | a read after a successful write succeeds inside the range written, exactly under the condition of FileRead elsewhere, and returns the old bytes overwritten: the count asked for, or all up to the end of the file |
| Fs.FileSystem.FileTruncateBlocks | fs/fs.c:441-456 | the loop computes the truncation |
| Fs.FileSystem.FileSetSize | fs/fs.c:460-467 | the new size, for files and directories and all 32-bit sizes; the invariant is kept exactly if it is not negative; the structure is on disk |
| Fs.FileSystem.FileFlush | fs/fs.c:474-488 | structure and indirect block are on disk, and the data blocks if and only if the size is at most 2^31 - 4096 or they were before |
| Fs.FileSystem.FileRemove | fs/fs.c:492-506 | the removal, and the structure on disk |
| Fs.FileSystem.FsSync | fs/fs.c:510-515 | every block but the boot block is on disk |
| Fs.RegrownTail | fs/fs.c:441-467 | what a gap holds after shrinking and growing |
| Fs.GapIsZero | fs/fs.c:441-467 | a gap reads as zeros if and only if the tail of the last block kept was zero |
| FsNames.LookupIff | fs/fs.c:206-229 | a lookup finds an entry if and only if it is an entry with that name |
| FsNames.FileLayout | inc/fs.h:9-45 | the fields of struct File follow one another and fill 256 bytes, sixteen structures to a block |
| FsNames.EntryOnce | fs/fs.c:206-259 | no File structure is an entry of two directories, and the root of none |
| FsNames.ComponentsAppend | fs/fs.c:263-324 | slashes only separate components, however many stand together |
| FsNames.ComponentsAreWords | fs/fs.c:277-324 | components are non-empty and contain no slash |
| FsNames.ComponentsOfWord | fs/fs.c:293-301 | what has no slash is one component |
| FsNames.FoundExactly | fs/fs.c:277-324 | a path leads to a file if and only if a chain of directory entries with its names does |
| FsNames.WalkStops | fs/fs.c:277-324 | otherwise it stops at one component: which error follows from what, and when just the last name is missing |
| FsNames.PathUnique | fs/fs.c:277-324 | a file is found under one sequence of components only |
| FsNames.OneMorePath | fs/fs.c:277-349 | one entry more changes how its own path resolves, the error of paths behind it, and no other path |
| FsDirs.SetNameAdds | fs/fs.c:333-349 | naming an unused entry keeps the tree and adds exactly that name |
| FsDirs.GrowCorrect | fs/fs.c:247-258 | unless the directory has its largest size or too few blocks are free, sixteen unused entries more and no lookup notices; otherwise a hole |
| FsDirs.DirAllocCorrect | fs/fs.c:234-259 | an unused entry of the directory, and no lookup notices, if and only if the directory is not full; otherwise it has a hole |
| FsDirs.DirAllocTakesFirst | fs/fs.c:234-259 | it takes the first unused entry, wherever it stands |
| FsDirs.CreateCorrect | fs/fs.c:333-349 | unless the directory is full, the path opens to the new regular file, all others resolve as before, names stay unique, files read the same; in a full one it fails and leaves a hole; and every other error case |
| FsDirs.RemoveTakesAway | fs/fs.c:492-506 | removing a regular file takes away exactly its name |
| FsDirs.RemoveCorrect | fs/fs.c:492-506 | the path of a regular file is not found any more and all others resolve as before |
| FsDirs.RemoveRootCorrect | fs/fs.c:492-506 | removing the root leaves an empty root, no path but its own, and everything outside its blocks in order |
| FsDirs.DataKeepsPaths | fs/fs.c:363-467 | reading, writing and resizing keep the directories in order, and every path leads where it led |
| FsPaths.Strcmp | lib/string.c:71-77 | equal exactly when the bytes are the name and its end |
| FsPaths.SkipSlashes | fs/fs.c:263-268 | the rest behind the leading slashes |
| FsPaths.NameSpace.DirLookup | fs/fs.c:206-229 | the entry with that name, or -E_NOT_FOUND; nothing changes |
| FsPaths.NameSpace.DirAllocFile | fs/fs.c:234-259 | the first unused entry, or one in a new block |
| FsPaths.NameSpace.WalkPath | fs/fs.c:277-324 | component-by-component lookup of the path's components |
| FsPaths.NameSpace.FileCreate | fs/fs.c:333-349 | the disk and result of creation; -E_FILE_EXISTS exactly for a path that is found, the error of the walk, or for a missing name failure if and only if the directory is full; the entry's block is on disk |
| FsPaths.NameSpace.FileOpen | fs/fs.c:354-357 | the file the path resolves to, or the error |
| FsPaths.NameSpace.FileRemovePath | fs/fs.c:492-506 | zero exactly for a path that is found, -E_NOT_FOUND for a missing name and the error of the walk otherwise, without a change; the removal of a regular file or the root keeps the tree in order |
| FsPaths.CreateWriteOpenRead | fs/fs.c:333-412 | a file that is created and written is opened by its path and reads as what was written; no other path leads elsewhere |
| FsFormat.Formatter.constructor | fs/fsformat.c:92-120 | super block, root and bitmap of an empty disk |
| FsFormat.Formatter.FinishFile | fs/fsformat.c:135-148 | exactly the slots, the size and, from ten blocks on, an indirect block are written |
| FsFormat.Formatter.WriteFile | fs/fsformat.c:181-209 | one more file is described and its content stored; when it panics |
| FsFormat.Formatter.FinishDir | fs/fsformat.c:170-178 | the entries are in the root's blocks; when it panics |
| FsFormat.Formatter.FinishDisk | fs/fsformat.c:123-132 | the free blocks are exactly those from the position reached |
| FsFormat.ImageInv | fs/fsformat.c:123-178 | the image of at least one file satisfies the ownership invariant |
| FsFormat.EmptyImage | fs/fsformat.c:170-178 | the image of no files does not: its root owns a free block |
| FsFormat.ImageTree | fs/fsformat.c:159-178 | with different names the image is a tree and each name leads to its file |
| FsFormat.ImageContent | fs/fsformat.c:181-209 | each file reads as what was put in |
| FsFormat.ImageTail | fs/fsformat.c:181-209 | its last block is filled up with zeros |
| FsFormat.ImageSuper | fs/fs.c:11-20 | the file server takes the image for a file system: magic number, size of the disk, and a root directory named "/" |
| FsFormat.Format | fs/fsformat.c:219-243 | an image is written if and only if everything fits; it satisfies the invariant if and only if it has a file |
| FsExamples.FullDiskHole | fs/fs.c:363-412 | a read after a write that finds a hole and no free block |
| FsExamples.GapKeepsOldBytes | fs/fs.c:441-467 | a gap that does not read as zeros |
| FsExamples.FlushMisses | fs/fs.c:474-488 | a file of 2^31 - 1 bytes whose written block is not on disk after file_flush |
| FsExamples.NegativeSize | fs/fs.c:460-467 | a file whose size becomes -1 |
| FsExamples.CreateOnFullDisk | fs/fs.c:333-349 | a file_create that leaves the root with a hole |
| Sched.SchedYield | kern/sched.c:11-68 | the loop finds the environment that should run next |
| Sched.ChoiceUnique | kern/sched.c:24-52 | highest priority, fewest sends, next in circular order determine one environment |
| Sched.DistanceExactly | kern/sched.c:35-36 | the distance of two slots is the number of steps upwards, round the table, from one to the other |
| Sched.ChoiceGoesRound | kern/sched.c:35-57 | whoever is passed over on the way from the last one that ran is not eligible, of lower priority, or ahead in sends |
| Sched.ChoiceIsBest | kern/sched.c:35-57 | nobody who can run has a higher priority, or the same and fewer sends |
| Sched.IdleOnlyWhenAlone | kern/sched.c:35-62 | idle preempts a candidate if and only if all candidates have priority 0 and a counter of at least 0xffffffff |
| Sched.EverybodyRuns | kern/sched.c:35-57 | every contender runs after as many yields as it has contenders ahead |
| Sched.RoundRobin | kern/sched.c:35-57 | each of the contenders runs within as many yields as there are contenders |
| Sched.SendKeepsLevel | kern/syscall.c:496-498 | a send by whoever is picked keeps the counters within one of each other |
| Sched.LevelForever | kern/sched.c:35-57 | so over whole runs, until a counter wraps |
| Ipc.StepKeepsInv | kern/syscall.c:445-557 | receiving environments sleep with from = 0; queued senders are distinct and asleep; counters stay below 0xffffffff |
| Ipc.QueueRoom | kern/syscall.c:455-462 | the overflow panic is unreachable |
| Ipc.MailboxStep | kern/syscall.c:445-557 | exactly which call changes which IPC fields, and to what; the receiver of a message is answered 0; a failed send changes none |
| Ipc.SendAnswer | kern/syscall.c:445-504 | what a send answers its caller, in every case |
| Ipc.RecvAnswer | kern/syscall.c:518-557 | what a receive does to every environment: its caller stops, and the first in its line may run and is answered -E_IPC_NOT_RECV |
| Ipc.CallFrame | kern/syscall.c:445-557 | whom no call changes at all |
| Ipc.RunsNext | kern/syscall.c:68-71 | who runs after each call |
| Ipc.LookupExactly | kern/env.c:37-60 | an id leads to the environment in use that has it, and 0 to the caller |
| Ipc.SendCounts | kern/syscall.c:496-498 | a send returns zero if and only if it delivers, and only then counts |
| Ipc.InvForever | kern/syscall.c:445-557 | the invariant holds throughout every run |
| Ipc.RecvingSleeps | kern/syscall.c:518-557 | a receiving environment never runs and has from = 0, at every moment of every run |
| Ipc.MessageKept | kern/syscall.c:445-557 | a delivered message is never overwritten before the next receive |
| Ipc.DeliveryHasReceive | kern/syscall.c:445-557 | every delivery has its own receive before it |
| Ipc.SendsPairWithReceives | kern/syscall.c:445-557 | receives and deliveries alternate, counted over every run |
| Ipc.QueueStep | kern/syscall.c:532-550 | a call lengthens one destination's line at its end or shortens it at its front; all other lines stay |
| Ipc.WokenInTurn | kern/syscall.c:532-550 | a queued sender becomes runnable if and only if it is its turn, and then gets -E_IPC_NOT_RECV |
| Ipc.FirstInFirstOut | kern/syscall.c:400-404 | over every run the line of each destination is first in, first out |
| Ipc.NamesSelf | kern/env.c:37-60 | 0 and one's own id are the two ways to name oneself |
| Ipc.SelfSendQueues | kern/syscall.c:445-462 | a send queues its caller for itself if and only if it names the caller |
| Ipc.WaitInsideForever | kern/syscall.c:518-557 | environments queued for one another, or for 0, sleep in every later state of every run |
| Ipc.SelfSendSleepsForever | kern/syscall.c:445-462 | after a send to oneself the sender is asleep in every later state of every run |
| Ipc.LonelySend | kern/syscall.c:445-462 | a state in which a send to 0 and a send to one's own id both do this |
| Ipc.CrossSendQueues | kern/syscall.c:445-462 | two environments that send to each other wait for one another |
| Ipc.IdleNeverPreempts | kern/sched.c:59-62 | in reachable states idle is not chosen while another environment can run |
| Ipc.StepLevel | kern/syscall.c:496-498 | a call keeps the counters of a set within one of each other if and only if it completes no send of a member, or the member had the fewest |
| Ipc.LevelOverRun | kern/syscall.c:496-498 | so over every run of sends that complete, queue or fail, receives and yields |
| Ipc.PickedIsLeast | kern/sched.c:35-57 | whoever is picked has the fewest completed sends of the eligible environments of its priority |
| Ipc.TurnsKeepLevel | kern/sched.c:35-57 | so counters stay level over runs with at most one completed send in a turn, while the same environments are eligible |
| Ipc.TwoSendsInATurn | kern/syscall.c:496-498 | a run of two sends in one turn after which they are two apart |
| Ipc.IpcKernel.TrySend | kern/syscall.c:445-504 | the state after a send, whoever runs then, and the invariant |
| Ipc.IpcKernel.FindWaiting | kern/syscall.c:532-541 | the first waiting pair for the receiver |
| Ipc.IpcKernel.Compact | kern/syscall.c:542-548 | exactly that pair is taken out of both arrays, in place |
| Ipc.IpcKernel.Recv | kern/syscall.c:518-557 | the state after a receive, whoever runs then, and the invariant |
| Ipc.IpcKernel.Yield | kern/syscall.c:68-71 | the next environment runs |
| Kdebug.TurnDecreases | kern/kdebug.c:66-90 | every turn makes progress although an exact match may leave the range as it is |
| Kdebug.StabBinsearch | kern/kdebug.c:60-103 | it stops on every table, stays inside the region, and computes the search function |
| Kdebug.SearchBrackets | kern/kdebug.c:60-103 | whether the result is the last entry at or below the address with the right end before the next one can be seen from the entry returned; sufficient conditions on the table |
| Kdebug.SearchBracketsExactly | kern/kdebug.c:60-103 | it is so if and only if the table has no entry at `addr`, none at `addr + 1`, or a bisection of positions meets the first at `addr + 1` before any at `addr`; with the exact conditions at the two largest addresses |
| Kdebug.SearchBelowAll | kern/kdebug.c:60-103 | the result when every entry lies above the address |
| Kdebug.LeftBeyondRight | kern/kdebug.c:41-43 | left > right if and only if there is no entry of the type |
| Kdebug.SearchNone | kern/kdebug.c:94-95 | without an entry of the type the region is empty and starts where it did |
| Kdebug.SearchMisses | kern/kdebug.c:84-89 | two tables on which the search goes wrong |
| Kdebug.SearchSucceeds | kern/kdebug.c:84-89 | a table with entries at `addr` and `addr + 1` on which the search is right |
| Kdebug.SearchBelowTop | kern/kdebug.c:84-89 | two tables with entries at the two largest addresses: right on one, wrong on the other |
| SpawnStack.TooLargeExactly | lib/spawn.c:180-192 | which lists the size test refuses, for all sizes, on 32-bit addresses |
| SpawnStack.TooLargeWrapped | lib/spawn.c:173-192 | that the sum of the lengths wraps around as well makes no difference to the test |
| SpawnStack.StaysInsideExactly | lib/spawn.c:215-226 | the stores stay inside the page if and only if the list fits |
| SpawnStack.TooLargeMisses | lib/spawn.c:189-192 | an argument list that passes the test and does not fit |
| SpawnStack.Regions | lib/spawn.c:180-192 | header, pointers and strings follow one another inside the page |
| SpawnStack.StoreArgCorrect | lib/spawn.c:215-219 | storing an argument leaves the earlier ones in place |
| SpawnStack.StoreHeaderCorrect | lib/spawn.c:220-226 | the end of the pointers and the two parameters |
| SpawnStack.RoundTrip | lib/spawn.c:166-240 | the child decodes exactly the argument list |
| SpawnStack.InitStack | lib/spawn.c:166-240 | every error case, for lists of any size; on success the page decodes to the argument list and the assertion holds; it stores outside the page exactly when the test passes a list that does not stay inside |

## Left out

- Envs.EnvTable.SysPageMap: `pp_ref` has 16 bits and its overflow is not modelled; every page has room for one more reference.
- Envs.EnvTable.Perform: a sys_page_map or sys_ipc_try_send that could reach 65536 references is not made.
- Envs.EnvTable.Run: a run ends when page_remove meets a null page or page_insert runs out of memory under sys_page_map or sys_ipc_try_send; whether a receiver waits, and which sender is next, are parameters here and the subject of Ipc.
- Envs.EnvTable.SysPageUnmap: `fault` stands for the access through the null page; what the machine does then is not modelled.
- Kern.Kernel.constructor: boot_alloc and i386_vm_init are parameters (the page they stop at and the directory they make).
- Kern.Kernel.FreeTable: env_free clears a directory entry before it lowers the count; the order within one turn cannot be observed.
- CowFork.UserSpace.Fork: the parent's reads of its own page tables and the system call that follows are one step; sfork, PTE_SHARE and pages sent by IPC share writable memory on purpose and are not steps.
- CowFork.UserSpace.Pgfault: it is called for a write fault on a mapped page; the user exception stack itself lies outside the range.
- CowKernel.DupCallsAreDuppage: the case in which the calls succeed; running out of memory panics in duppage.
- CowRun.KernelRefinesPrivate: a step whose system call fails is not a step; every count has room for one more reference where sys_page_map is called.
- Cache.BlockCache.Fault: the nested faults that block_is_free takes on the bitmap while a fault is handled are folded into the fault.
- Fs.FileSystem.TakeBlock: only the first bitmap block is flushed, so durability of an allocation is claimed for disks of at most 32768 blocks; order of writes and crashes are not modelled.
- Fs.FileSystem.FileRead: regular files and non-negative offsets; directories are read by the lookup only.
- Fs.FileSystem.FileWrite: regular files, ending below 2^31 (beyond, the size becomes negative as FileSetSize says); on an error part of the range may have been written, and the file may have grown.
- Fs.FileSystem.FileSetSize: a directory is shrunk once the File structures in the blocks given up do not count any more; growing one breaks the assumption of dir_lookup.
- Fs.FileSystem.FileRemove: of a directory, likewise.
- FsDirs.RemoveCorrect: no directory below the root; neither fsformat nor file_create makes one.
- FsPaths.NameSpace.FileRemovePath: no directory below the root, for the same reason.
- FsPaths.NameSpace.WalkPath: directories are without holes, so that a lookup allocates nothing; FsDirs.CreateCorrect says when a hole arises.
- FsDirs.CreateCorrect: a new entry keeps the type that its structure had; unused structures are assumed to be regular, which removal keeps.
- FsFormat.Formatter.DirAdd: the buffer of entries is assumed to be zeroed, and names to fit their field.
- Ipc.IpcKernel.TrySend: the page that goes with a message is a parameter (what page_lookup finds, whether page_insert fails); the page tables are not part of this state.
- Ipc.StepKeepsInv: no environment is created, destroyed or given another status from outside during a run.
- Sched.LevelForever: up to the wrap-around of a counter, after which the counters differ by their whole range; Ipc.LevelOverRun is about runs of all calls, up to the same point.
- SpawnStack.InitStack: once the code stores outside the page, nothing more is said.
- Trap entry, env_run and env_pop_tf: a kernel step ends where they begin.
- ELF loading, memory-mapped files and the request marshalling of the file server: not part of this model.
- Progress of ipc_send in lib/ipc.c: it retries once and panics, so there is none to prove.
- Device drivers, console, interrupts, boot loader and monitor: hardware and user interface.
