# Models of a flash translation layer and of xv6

Dafny models of the systems code in this repository, with proofs of what that code is for.

* **HW3 flash translation layer** (`nand.dfy`, `ftl_*.dfy`, `ftl.dfy`). A NAND simulator that demands sequential
  programming and erase before write; per bank a page map, validity marks, a write frontier, one spare block and
  greedy garbage collection; a sector-granular write buffer in front. The tables are arrays updated in place. Ghost
  state ties them to a value on which the invariants are stated: the map is injective, spare areas are its inverse, a
  programmed page is valid iff mapped, and a pigeonhole argument shows that collection always makes progress. The host
  sees a flat array of sectors (`Ftl.Device.FtlRead`, `FtlRun.ReadAfterRun`). Sizes are parameters.
* **xv6 log** (`log_disk.dfy`, `log.dfy`, `log_group.dfy`, `log_refinement.dfy`, `log_budget.dfy`). Every bwrite is
  one atomic disk step recorded in a trace; a crash keeps a prefix of it. Crash atomicity of commit, also when
  recovery itself crashes any number of times; group commit as a machine of interleaved operations, over any number of
  boots, which the log's methods refine; and, for operations within their budgets, how large the log must be and whom
  begin_op lets in.
* **xv6 buffer cache** (`bio.dfy`, `bio_run.dfy`). The doubly linked list, recycling by time of release, and what a
  block contains as seen through the cache.
* **xv6 files** (`fs_state.dfy`, `fs.dfy`, `fs_run.dfy`). Block allocator, direct and indirect slots, read, write and
  truncate as operations on byte sequences, exact block ownership, and the transactions of filewrite: that they log
  all they change, and their size.
* **K&R allocator** (`umalloc_list.dfy`, `umalloc.dfy`, `umalloc_run.dfy`). Headers in memory linked into a circular,
  address-ordered list.
* **Address spaces** (`vm_state.dfy`, `vm.dfy`, `vm_run.dfy`). Two-level page tables refine a flat page map, and every
  frame has exactly one use.
* **Processes** (`proc_table.dfy`, `cfs_state.dfy`, `cfs.dfy`, `cfs_run.dfy`, `pipe.dfy`). fork, exit and wait; the
  fair scheduler added to xv6 with its saturating 32-bit virtual runtimes, exactly when a wakeup keeps them together,
  and that processes then share the processor by weight; pipes with wrapping counters, sleep and wakeup, and kills.
* **Shell parser and grep** (`sh_tokens.dfy`, `sh_grammar.dfy`, `sh_lines.dfy`, `sh.dfy`, `grep.dfy`). The recursive
  descent parser over a mutable buffer agrees with a grammar, of which a canonical rendering is the inverse; what
  whole lines mean, read off their characters; the matcher decides membership in a declaratively given language.

Code that works step by step is modelled by classes and methods over arrays and fields; the values they stand for, and
what is proved about them, are in separate modules (`FtlBank`, `LogDisk`, `FsState`, `FreeLists`, `VmState`,
`CfsState`, `ShellGrammar`). Runs are methods that take any list of operations (`FtlRun.Run`, `FsRun.Run`,
`ProcTable.Run`, `CfsRun.Run`, `Pipes.Run`, `UmallocRun.Run`, `AddressSpaceRun.Run`, `BufferCacheRun.Run`) or
sequences of states (`LogGroup`).

## What the proofs turned up

* `nand_write` is documented to return NAND_ERR_OVERWRITE for a written page (nand.c:59). It tests the position first,
  so it returns NAND_ERR_POSITION, and OVERWRITE is unreachable. The model follows the code.
* `ftl_write` of no sectors inside a page links a page that is not buffered to a free buffer page and stores nothing.
  That buffer page still counts as free, so the next page to be buffered gets it too, and its data are read back from
  the first page (`Ftl.Device.FtlWrite`, `FtlHost.EmptyLinkMixesPages`).
* `ftl_write` of no sectors at sector 0 computes its last page as -1 in size_t, 64 bits wide here. The page loop then
  has no bound, and overwrites pages 0, 1, 2 and on with words from behind the host's buffer until no buffer page is
  left (`Ftl.Device.BufferStray`, `FtlHost.StrayEndsAtOnce`).
* `mkfs` makes the log LOGSIZE blocks long, header included (mkfs.c:25), one less than begin_op reserves for: with
  that size three operations within their budgets reach "too big a transaction" (`LogBudget.ReservationSufficesIff`).
* `begin_op` counts MAXOPBLOCKS for every running operation, whatever it has logged already. On the two counters it
  looks at the test is exact if and only if the log has more than LOGSIZE blocks (`LogBudget.AdmitsExactlyIff`), but
  it also turns operations away for which there is room: with two running that have logged ten and five blocks, 15 + 5
  + 10 blocks would fit (`LogBudget.RefusesThoughSafe`).
* `log_write` checks for space before it looks for the block in the list, so that rewriting a block that needs no
  space can panic as well, with any log that can hold a block (`LogBudget.AbsorbingPanicsIff`,
  `LogBudget.AbsorbingCanPanicIff`).
* `malloc` computes its unit count in 32-bit arithmetic that wraps for the largest requests: malloc(0xFFFFFFFF) hands
  out a block that is all header. From 2^31 bytes on the argument of sbrk is not positive: it takes memory away, or
  none, and the header is then written at the old break, where the process has no memory (`Umalloc.Allocator.Malloc`).
* `wakeup1` starts its search for the least virtual runtime from 0, so that a woken process is put one tick ahead of 0
  when all others are positive, however far they are, and ahead of the ones woken before it. The bound on the spread
  of virtual runtimes survives exactly under `CfsState.WakeupKeeps`, a condition on the table before the call
  (`CfsState.WakeupKeepsSpreadIff`): next to one process of virtual runtime v up to v + 1000 = 30570
  (`CfsState.WakeupOfOne`), and with nobody competing for up to eleven sleepers of nice value 5
  (`CfsState.WakeupOfMany`). `kill` makes a sleeper compete with the virtual runtime it has, with a condition of its
  own (`CfsState.KillKeepsFairIff`).
* `pipewrite` of a killed process returns without waking readers when the pipe is full, and can leave a reader asleep
  in front of 512 bytes (`Pipes.Pipe.PipeWrite`, `Pipes.KilledWriterLeavesReaderAsleep`).
* `allocuvm` that runs out of memory unmaps the whole range it was to grow by, pages mapped there before included, so
  that everything is as before if and only if there were none (`AddressSpaces.Memory.Allocuvm`,
  `AddressSpaces.Memory.RestoredIfNone`). growproc and exec grow by unmapped ranges.
* The shell parses `>>` like `>`: neither appends (`ShellGrammar.AppendsLikeGreater`).
* binit puts every buffer under (0, 0), so that several may lie under that block; uniqueness and coherence are proved
  for all other blocks, and xv6 never reads that one.

## Model

| member | source | states |
|---|---|---|
| NandFlash.Nand.NandInit | 3-2/EmbeddedSul/HW3/nand.c:42-51 | refuses a nonpositive dimension, and otherwise hands out an erased chip of that size |
| NandFlash.Nand.Write | 3-2/EmbeddedSul/HW3/nand.c:70-99 | a page is programmed only at its block's next position; each refusal has its error code and changes nothing; flat arrays refine per-block page lists |
| NandFlash.Nand.Read | 3-2/EmbeddedSul/HW3/nand.c:101-114 | exactly the programmed pages can be read, and they hold what was programmed since the last erase |
| NandFlash.Nand.Erase | 3-2/EmbeddedSul/HW3/nand.c:125-138 | empties one block and no other; erasing an empty block is refused |
| NandFlash.PageIdxInjective | 3-2/EmbeddedSul/HW3/nand.c:73-74 | the flat page index keeps banks, blocks and pages apart |
| FtlBank.Geometry.UserPagesFit | 3-2/EmbeddedSul/HW3/ftl.h:31-38 | over-provisioning leaves at least a block of pages beyond the user pages, the spare block not counted |
| FtlBank.UserShare | 3-2/EmbeddedSul/HW3/ftl.h:31-38 | of the blocks but the spare one, 100 in 107 are for the user |
| FtlBank.MapInjective | 3-2/EmbeddedSul/HW3/ftl.c:419-433 | in a sound bank two logical pages never share a physical page |
| FtlBank.ValidIffImage | 3-2/EmbeddedSul/HW3/ftl.c:419-433 | a programmed page is marked valid if and only if it is the image of some logical page |
| FtlBank.FrontierIsNextPosition | 3-2/EmbeddedSul/HW3/ftl.c:424-431 | the page the write frontier points to is the one the NAND accepts next, outside the spare block |
| FtlBank.AppendOk | 3-2/EmbeddedSul/HW3/ftl.c:419-433 | storing a page behind the frontier keeps the bank sound and changes that logical page only |
| FtlBank.OpenedBankOk | 3-2/EmbeddedSul/HW3/ftl.c:260-284 | a freshly opened bank is sound and stores nothing |
| FtlGc.SomePageInvalid | 3-2/EmbeddedSul/HW3/ftl.c:207-258 | by pigeonhole, a bank whose frontier is used up has an invalid page |
| FtlGc.AllValidFillsBank | 3-2/EmbeddedSul/HW3/ftl.c:207-258 | were all pages valid, distinct logical pages would fill every block but the spare one |
| FtlGc.VictimHasInvalidPage | 3-2/EmbeddedSul/HW3/ftl.c:143-165 | the greedy victim is never the spare block and always has a page to reclaim |
| FtlGc.LiveOwner | 3-2/EmbeddedSul/HW3/ftl.c:222-240 | the spare area of a valid victim page names the logical page mapped to it |
| FtlGc.CopyMove | 3-2/EmbeddedSul/HW3/ftl.c:222-240 | copying one live page extends the part of the victim already moved to the spare block |
| FtlGc.CopySkip | 3-2/EmbeddedSul/HW3/ftl.c:222-240 | an invalid victim page needs no copy |
| FtlGc.CollectOk | 3-2/EmbeddedSul/HW3/ftl.c:207-258 | after erasing the victim the bank is sound, stores the same pages, and has room for the pending write |
| FtlState.BufferedDistinct | 3-2/EmbeddedSul/HW3/ftl.c:591-673 | two logical pages never share a buffer page |
| FtlState.OpenedStateOk | 3-2/EmbeddedSul/HW3/ftl.c:260-284 | the opened device is sound and every sector reads as erased |
| FtlHost.PieceBounds | 3-2/EmbeddedSul/HW3/ftl.c:286-417 | the page pieces of a sector run lie inside their pages and cover the run without gap or overlap |
| FtlHost.WrittenAll | 3-2/EmbeddedSul/HW3/ftl.c:446-545 | writing the pieces one by one overwrites exactly the run in the host's view |
| FtlHost.BufferedUpdates | 3-2/EmbeddedSul/HW3/ftl.c:591-673 | buffering a piece keeps the buffer sound and changes exactly its sectors in the view |
| FtlHost.DirectUpdates | 3-2/EmbeddedSul/HW3/ftl.c:435-545 | writing a page through, merged with and dropped from the buffer, changes exactly the piece's sectors in the view |
| FtlHost.FlushUpdates | 3-2/EmbeddedSul/HW3/ftl.c:705-743 | flushing one page changes no sector of the view |
| FtlBuffer.DrainedSectors | 3-2/EmbeddedSul/HW3/ftl.c:705-743 | a page drained from the buffer reads the same from flash afterwards |
| Ftl.Device.BankTables | 3-2/EmbeddedSul/HW3/ftl.c:260-284 | the page map, marks and write frontiers of a device with nothing on it |
| Ftl.Device.BufferTables | 3-2/EmbeddedSul/HW3/ftl.c:260-284 | an empty write buffer |
| Ftl.Device.FtlOpen | 3-2/EmbeddedSul/HW3/ftl.c:260-284 | a sound device on which every sector reads 0xFFFFFFFF |
| Ftl.Device.CountInvalid | 3-2/EmbeddedSul/HW3/ftl.c:143-165 | the number of invalid pages of a block |
| Ftl.Device.GetVictimPblkGreedy | 3-2/EmbeddedSul/HW3/ftl.c:143-165 | a block with the most invalid pages, the first of them |
| Ftl.Device.CopyLivePages | 3-2/EmbeddedSul/HW3/ftl.c:213-241 | the live pages of the victim are in the spare block, their map entries moved, all NAND calls accepted |
| Ftl.Device.GarbageCollection | 3-2/EmbeddedSul/HW3/ftl.c:207-258 | the bank stays sound, stores the same pages, other banks are untouched, and the frontier is below its trigger |
| Ftl.Device.AppendPage | 3-2/EmbeddedSul/HW3/ftl.c:419-433 | one page of one bank is stored anew, everything else stored stays |
| Ftl.Device.WriteThroughLpn | 3-2/EmbeddedSul/HW3/ftl.c:419-433 | after it the flash holds the data for that logical page and the old data for all others; its NAND calls are never refused |
| Ftl.Device.ReadNandPage | 3-2/EmbeddedSul/HW3/ftl.c:300-340 | what the flash stores for a logical page, or that it was never written |
| Ftl.Device.ReadSectors | 3-2/EmbeddedSul/HW3/ftl.c:286-417 | a page piece is delivered from the buffer where valid there, else from flash, else erased |
| Ftl.Device.FtlRead | 3-2/EmbeddedSul/HW3/ftl.c:286-417 | returns the run of the flat sector view, which may be empty, leaves the rest of the caller's buffer and the device unchanged |
| Ftl.Device.WriteDirectlyNandBufferCheck | 3-2/EmbeddedSul/HW3/ftl.c:435-444 | buffered sectors are merged into the page and its buffer page is freed |
| Ftl.Device.PackPage | 3-2/EmbeddedSul/HW3/ftl.c:446-545 | a whole page image: the new sectors, and the current ones around them |
| Ftl.Device.WriteDirectlyNand | 3-2/EmbeddedSul/HW3/ftl.c:446-545 | overwrites exactly the run in the flat view |
| Ftl.Device.NeededBufferPageCalculate | 3-2/EmbeddedSul/HW3/ftl.c:547-555 | how many pages of a range have no buffer page yet |
| Ftl.Device.UsableBufferPageCalculate | 3-2/EmbeddedSul/HW3/ftl.c:557-570 | how many buffer pages are free |
| Ftl.Device.FrontendBufferPageCalculate | 3-2/EmbeddedSul/HW3/ftl.c:572-589 | the lowest free buffer page, or the maximal int exactly if there is none |
| Ftl.Device.BufferPage | 3-2/EmbeddedSul/HW3/ftl.c:596-672 | a piece is buffered, using a fresh buffer page only if the page had none |
| Ftl.Device.BufferPages | 3-2/EmbeddedSul/HW3/ftl.c:596-672 | given enough free buffer pages every page of the run finds one, and the view is overwritten |
| Ftl.Device.WriteToBuffer | 3-2/EmbeddedSul/HW3/ftl.c:591-673 | flushes first if needed; the view is overwritten exactly on the run; the buffer stays sound unless an empty write inside a page links a page that was not buffered; an empty write at sector 0 stores words it was not given, up to an exact page |
| Ftl.Device.BufferNothing | 3-2/EmbeddedSul/HW3/ftl.c:618-673 | an empty write elsewhere than at sector 0: inside a page that is not buffered, the page is linked to the lowest free buffer page, nothing is stored, and the buffer is unsound exactly then |
| Ftl.Device.BufferStray | 3-2/EmbeddedSul/HW3/ftl.c:618-673 | an empty write at sector 0: pages 0, 1, 2 and on are overwritten whole, up to the first page that is not buffered when the pages before it have used up the free buffer pages |
| FtlHost.StrayEndsAtOnce | 3-2/EmbeddedSul/HW3/ftl.c:618-632 | it stores nothing if and only if page 0 is not buffered and no buffer page is free |
| FtlHost.EmptyLink | 3-2/EmbeddedSul/HW3/ftl.c:618-630 | linking a page to a free buffer page without storing anything keeps the view and breaks the one-to-one link |
| FtlHost.EmptyLinkMixesPages | 3-2/EmbeddedSul/HW3/ftl.c:572-640 | what the next page to be buffered stores there is then read back from the first page as well |
| Ftl.Device.FtlWrite | 3-2/EmbeddedSul/HW3/ftl.c:676-703 | on either path the flat view is overwritten exactly on the run, and at sector 0 by an empty write further; a write stores what it is given and nothing else and leaves the device sound if and only if it is not empty, or starts at the boundary of a later page, or inside a page that is buffered, or at sector 0 with page 0 not buffered and no buffer page free |
| Ftl.Device.FlushPage | 3-2/EmbeddedSul/HW3/ftl.c:710-741 | one buffer page goes to flash, the view unchanged |
| Ftl.Device.FtlFlush | 3-2/EmbeddedSul/HW3/ftl.c:705-743 | the view is unchanged, all buffer pages are free and no page is buffered |
| FtlRun.FlatHoldsLastWrite | 3-2/EmbeddedSul/HW3/ftl.c:676-703 | the flat reference array holds the last value written to a sector |
| FtlRun.FlatErasedElsewhere | 3-2/EmbeddedSul/HW3/ftl.c:676-703 | and the erased pattern where nothing was written |
| FtlRun.Run | 3-2/EmbeddedSul/HW3/ftl.c:286-743 | after any sequence of writes and flushes, of which empty ones start at the boundary of a later page, the device's view is the flat array's contents |
| FtlRun.ReadAfterRun | 3-2/EmbeddedSul/HW3/ftl.c:286-743 | a read after any run returns, sector by sector, the last value written or 0xFFFFFFFF |
| LogDisk.HeadRoundTrip | 3-1/OS/xv6-sse-local/log.c:86-112 | the header block read back gives the list that was written |
| LogDisk.InstalledBlocks | 3-1/OS/xv6-sse-local/log.c:70-82 | installing puts each logged copy in place and leaves every other block |
| LogDisk.InstalledRecovers | 3-1/OS/xv6-sse-local/log.c:70-122 | a crash in the middle of installing recovers to the same home blocks |
| LogDisk.RecoverIdempotent | 3-1/OS/xv6-sse-local/log.c:116-122 | a finished recovery leaves an empty header and recovers to itself |
| LogDisk.RecoveryCrashHarmless | 3-1/OS/xv6-sse-local/log.c:116-122 | cutting recovery off after any of its writes changes nothing about what recovery yields |
| LogDisk.CrashChainHarmless | 3-1/OS/xv6-sse-local/log.c:116-122 | nor does any number of such crashes |
| LogDisk.LoggedRecovers | 3-1/OS/xv6-sse-local/log.c:178-190 | before the header is written a crash loses the whole transaction |
| LogDisk.SealedRecovers | 3-1/OS/xv6-sse-local/log.c:102-112 | once the header is written a crash keeps the whole transaction |
| LogDisk.LoggingImage | 3-1/OS/xv6-sse-local/log.c:178-190 | the image after so many of write_log's writes |
| LogDisk.InstallingImage | 3-1/OS/xv6-sse-local/log.c:70-82 | the image after so many of install_trans' writes within a commit |
| LogDisk.CommitCrash | 3-1/OS/xv6-sse-local/log.c:177-202 | commit cut off after any of its writes recovers to all old or all new contents, and which of the two is decided by the header write |
| LogDisk.CommitDone | 3-1/OS/xv6-sse-local/log.c:193-202 | a finished commit leaves an empty header and the new contents in place |
| LogDisk.CommitThenCrashes | 3-1/OS/xv6-sse-local/log.c:69-122 | a crash anywhere in commit, then any number of crashes in recovery: home blocks all old or all new |
| Log.Log.InstallTrans | 3-1/OS/xv6-sse-local/log.c:70-82 | the disk images it goes through, block by block, and where it ends |
| Log.Log.ReadHead | 3-1/OS/xv6-sse-local/log.c:86-97 | the in-memory list is the one encoded in the header block |
| Log.Log.WriteHead | 3-1/OS/xv6-sse-local/log.c:102-112 | one disk write that encodes the list |
| Log.Log.RecoverFromLog | 3-1/OS/xv6-sse-local/log.c:116-122 | the recovered disk by exactly the modelled trace of writes; the log is empty afterwards |
| Log.Log.BeginOp | 3-1/OS/xv6-sse-local/log.c:126-142 | admits an operation exactly if no commit runs and the blocks logged plus 10 for every running operation and for itself are at most 30 |
| Log.Log.LogWrite | 3-1/OS/xv6-sse-local/log.c:214-233 | which panic is hit and when; otherwise the block is recorded once, absorbed if already there, and pinned; the log stays sound exactly unless a block of the log itself is recorded |
| Log.Log.WriteLog | 3-1/OS/xv6-sse-local/log.c:178-190 | the cached blocks are copied to the log by exactly the modelled trace of writes |
| Log.Log.Commit | 3-1/OS/xv6-sse-local/log.c:193-202 | its writes are exactly the trace about which crash atomicity is proved |
| Log.Log.EndOp | 3-1/OS/xv6-sse-local/log.c:146-174 | panics exactly during a commit; the last operation out commits, an earlier one changes no log state |
| LogBudget.ReservedKept | 3-1/OS/xv6-sse-local/log.c:126-233 | as long as operations keep to their budgets, list length plus unused budgets never exceeds LOGSIZE, whatever step is taken |
| LogBudget.RoomForBudget | 3-1/OS/xv6-sse-local/log.c:126-141 | an operation with budget left finds room in a log larger than LOGSIZE |
| LogBudget.JoinsGroup | 3-1/OS/xv6-sse-local/log.c:126-142 | an operation joins a group while there is room: for all k and m with k + 10 m at most 30, a state with k blocks logged and m - 1 operations running is reached by operations within their budgets, and the m-th gets in; the first finds the list empty |
| LogBudget.ReachableIdle | 3-1/OS/xv6-sse-local/log.c:126-174 | between commits the list is empty unless an operation is running, and no more than three are |
| LogBudget.RefusalJustified | 3-1/OS/xv6-sse-local/log.c:126-142 | outside a commit an operation is turned away only where some reachable state with as many blocks logged and as many operations running can overrun the log together with it, each operation within its budget |
| LogBudget.AdmitsExactlyIff | 3-1/OS/xv6-sse-local/log.c:126-142 | an operation is let in exactly if there is no such state, in all reachable states, if and only if the log has more than LOGSIZE blocks |
| LogBudget.Overruns | 3-1/OS/xv6-sse-local/log.c:126-233 | operations whose budgets add up to more than the log fill it with distinct blocks, and then one of them panics |
| LogBudget.RefusesThoughSafe | 3-1/OS/xv6-sse-local/log.c:126-142 | a reachable state in which begin_op turns away an operation for which there is room |
| LogGroup.ContentsKept | 3-1/OS/xv6-sse-local/log.c:126-233 | in every step, however much an operation writes, disk and cache stand for the committed groups and the current updates, and list entries stay distinct |
| LogGroup.WholeKept | 3-1/OS/xv6-sse-local/log.c:146-174 | no step spreads an operation's updates over two groups |
| LogGroup.RunInv | 3-1/OS/xv6-sse-local/log.c:126-233 | all of this holds at the end of every interleaving |
| LogGroup.CommitRunsAlone | 3-1/OS/xv6-sse-local/log.c:146-174 | in every reachable state committing implies that no operation is outstanding, so the panic in end_op is unreachable |
| LogGroup.GroupsSurviveCrashes | 3-1/OS/xv6-sse-local/log.c:116-202 | a crash in any reachable state, followed by crashing recoveries, leaves the effect of a whole number of commit groups: all committed ones, or also the one being committed |
| LogGroup.OperationsAreWhole | 3-1/OS/xv6-sse-local/log.c:146-174 | every operation lies in one group, hence is wholly present or wholly absent |
| LogGroup.EpochSurvives | 3-1/OS/xv6-sse-local/log.c:116-202 | one boot, its crash and its recoveries: all groups committed since the boot survive, or also the one being committed, and the log is clean |
| LogGroup.EpochsSurvive | 3-1/OS/xv6-sse-local/log.c:116-202 | over any number of boots, each cut off by a crash and crashing recoveries, the disk holds what survived of each, one after the other |
| LogRefinement.WholeCommit | 3-1/OS/xv6-sse-local/log.c:193-202 | a commit is a run of machine steps that goes through exactly the disk images of its trace |
| LogRefinement.Drive | 3-1/OS/xv6-sse-local/log.c:126-233 | any calls of begin_op, log_write and end_op take the log through states of the machine, call by call; calls within the budgets stay within them; only a write to a full log panics; and every image the disk went through is one the machine can show |
| LogRefinement.DriveAndBegin | 3-1/OS/xv6-sse-local/log.c:126-142 | begin_op after any such calls lets the operation in exactly if it is safe in that sense |
| LogBudget.FillLog | 3-1/OS/xv6-sse-local/log.c:126-233 | three operations within their budgets can fill the log up to any level it admits |
| LogBudget.ReservationSufficesIff | 3-1/OS/xv6-sse-local/log.c:213-233 | an in-budget appending log_write can panic if and only if the log has no more than LOGSIZE blocks, as mkfs.c:25 makes it |
| LogBudget.AbsorbingPanicsIff | 3-1/OS/xv6-sse-local/log.c:213-233 | in any reachable state rewriting a logged block panics exactly when the list has LOGSIZE blocks, or one less than the log has if that is not more |
| LogBudget.AbsorbingCanPanicIff | 3-1/OS/xv6-sse-local/log.c:213-233 | three operations within their budgets bring that about for every log that can hold a block |
| FileSys.FileSystem.Balloc | 3-1/OS/xv6-sse-local/fs.c:57-78 | the lowest free block, now taken and zeroed, the two blocks it logs, or that all are in use |
| FileSys.FileSystem.Bfree | 3-1/OS/xv6-sse-local/fs.c:82-97 | clears one bit, and panics exactly on a free block |
| FileSys.FileSystem.Bmap | 3-1/OS/xv6-sse-local/fs.c:374-401 | an existing block is found without change; a missing one gets a fresh block, and the indirect block if needed, and no file changes; every block, bitmap bit and inode that differs afterwards is logged; past the last block it panics |
| FileSys.FileSystem.ReadPiece | 3-1/OS/xv6-sse-local/fs.c:470-475 | a piece of the contents; without holes reading never allocates |
| FileSys.FileSystem.Readi | 3-1/OS/xv6-sse-local/fs.c:454-477 | exactly the requested slice of the contents cut at the end of file, and nothing changes; -1 exactly on the stated bounds; devices go to their driver |
| FileSys.FileSystem.Iupdate | 3-1/OS/xv6-sse-local/fs.c:222-237 | the in-memory inode is what is on disk |
| FileSys.FileSystem.MapPiece | 3-1/OS/xv6-sse-local/fs.c:500-501 | the block an iteration works on; one that was missing starts at or past the end of file |
| FileSys.FileSystem.WritePiece | 3-1/OS/xv6-sse-local/fs.c:499-505 | one piece is stored, mapping at most the block it starts in; the block it is stored in is logged, and so is all that differs on disk |
| FileSys.FileSystem.Writei | 3-1/OS/xv6-sse-local/fs.c:483-512 | the contents become the overwritten contents, other files stay, no holes appear, the inode is on disk; the block of every position written is logged, and whatever block, bitmap bit or inode differs on disk; the number of logged blocks is bounded; a device's driver changes no file |
| FileSys.PieceLogged | 3-1/OS/xv6-sse-local/fs.c:499-505 | the block an iteration has mapped and patched is in the log for all positions of the piece, and earlier blocks stay where they are |
| FileSys.FileSystem.FreeSlot | 3-1/OS/xv6-sse-local/fs.c:415-432 | the block freed was allocated: "freeing free block" is unreachable |
| FileSys.FileSystem.Itrunc | 3-1/OS/xv6-sse-local/fs.c:409-436 | frees exactly the blocks of the inode, empties the file, and leaves the others; every bitmap bit and inode that differs on disk is logged |
| FileSys.FileSystem.WriteChunk | 3-1/OS/xv6-sse-local/file.c:140-145 | one transaction of filewrite logs at most MAXOPBLOCKS distinct blocks, and all that it changes on disk |
| FileSys.FileSystem.Filewrite | 3-1/OS/xv6-sse-local/file.c:126-154 | its transactions, one for every 1536 bytes, lead without a gap from the disk before to the disk after, each logging whatever it changes and at most MAXOPBLOCKS blocks; the file and the offset advance by what was written, the whole or up to a chunk that writei refuses, and n or -1 is returned accordingly |
| FileSys.LeadMore | 3-1/OS/xv6-sse-local/file.c:135-152 | one more transaction that logs what it changes continues the chain |
| FileSys.ChunkFits | 3-1/OS/xv6-sse-local/file.c:127-138 | touched blocks, fresh blocks' bitmap blocks and the three fixed ones fit, because an unaligned chunk starts in a block that exists |
| FsState.UintRoundTrip | 3-1/OS/xv6-sse-local/fs.c:386-400 | entries of an indirect block are stored and read back independently |
| FsState.RootSizeRounded | 3-1/OS/xv6-sse-local/mkfs.c:158-163 | moving the root directory's size to the next block boundary leaves no hole if and only if its entries end inside a block |
| FsState.MetadataBlocks | 3-1/OS/xv6-sse-local/fs.h:38-48 | inode i and bit b lie in the block that is logged for them, and those are the inode and bitmap blocks as mkfs lays them out |
| FsState.LittleEndian | 3-1/OS/xv6-sse-local/fs.c:386-394 | a word of an indirect block is stored least significant byte first |
| FsState.AddressOnDisk | 3-1/OS/xv6-sse-local/fs.c:374-401 | where on disk the address of the n-th block is found: twelve in the inode, the others in the block its thirteenth address names |
| FsState.SlotSetOwned | 3-1/OS/xv6-sse-local/fs.c:374-401 | entering a fresh block in one slot keeps ownership exact |
| FsState.GrownTwo | 3-1/OS/xv6-sse-local/fs.c:386-400 | allocating the indirect block and then a block in it leaves every file's bytes |
| FsState.GrownMapped | 3-1/OS/xv6-sse-local/fs.c:374-401 | mapping the first missing block keeps files free of holes |
| FsState.PieceByte | 3-1/OS/xv6-sse-local/fs.c:499-505 | byte by byte, storing a piece changes exactly its range |
| FsState.BlocksStep | 3-1/OS/xv6-sse-local/fs.c:499-505 | a piece maps a new block only at a block boundary at or past the end of file |
| FsState.CountStep | 3-1/OS/xv6-sse-local/fs.c:499-505 | each piece touches one block, and is counted as fresh only then |
| FsState.TruncatedOwned | 3-1/OS/xv6-sse-local/fs.c:409-436 | after truncation ownership is exact again |
| FsState.FreedAll | 3-1/OS/xv6-sse-local/fs.c:415-432 | the bits cleared are those of the inode's slots and no others |
| FsState.OverwrittenTwice | 3-1/OS/xv6-sse-local/file.c:135-152 | two adjacent chunks written one after the other are their concatenation written at once |
| FsRun.Run | 3-1/OS/xv6-sse-local/fs.c:374-512 | any run of writes and truncations changes the files as it would change byte sequences, and keeps ownership, absence of holes and write-through |
| FsRun.InUseIffOneSlot | 3-1/OS/xv6-sse-local/fs.c:56-96 | a bit is set if and only if the block is metadata or named by a slot, and then by exactly one |
| FreeLists.UnitsHaveOneOwner | 3-1/OS/xv6-sse-local/umalloc.c:24-90 | no unit of memory belongs to two blocks, free or handed out |
| FreeLists.InsertedList | 3-1/OS/xv6-sse-local/umalloc.c:33-43 | after insertion with coalescing the list is ordered and has no two adjacent blocks |
| FreeLists.InsertedUnits | 3-1/OS/xv6-sse-local/umalloc.c:33-43 | insertion adds exactly the units of the block |
| FreeLists.FreedOk | 3-1/OS/xv6-sse-local/umalloc.c:25-44 | freeing moves a block's units to the free side and the heap stays tiled |
| FreeLists.CarvedOk | 3-1/OS/xv6-sse-local/umalloc.c:75-84 | carving moves units the other way, and those were in no handed-out block |
| FreeLists.RegionOk | 3-1/OS/xv6-sse-local/umalloc.c:52-58 | a region above all others joins the heap without overlap |
| FreeLists.UnitsSufficeIff | 3-1/OS/xv6-sse-local/umalloc.c:69 | the unit count covers header and request if and only if the addition does not wrap, and then by less than another header; malloc(0xFFFFFFFF) asks for one unit |
| FreeLists.WithoutLinked | 3-1/OS/xv6-sse-local/umalloc.c:75-83 | both ways of carving leave the headers in memory linked as the new list |
| FreeLists.SmallNext | 3-1/OS/xv6-sse-local/umalloc.c:74-89 | once around the list without a fit means that no block fits |
| Umalloc.Allocator.FindPlace | 3-1/OS/xv6-sse-local/umalloc.c:30-32 | the search of free ends, at the one place where the block belongs |
| Umalloc.Allocator.LinkIn | 3-1/OS/xv6-sse-local/umalloc.c:33-43 | after the pointer writes the headers form the list with the block inserted |
| Umalloc.Allocator.Free | 3-1/OS/xv6-sse-local/umalloc.c:25-44 | the heap stays tiled and ordered, the block is no longer handed out, and no other is affected; the list is the old one with the block put in its place and joined with its neighbours, and starts at the entry before |
| Umalloc.Allocator.Sbrk | 3-1/OS/xv6-sse-local/proc.c:171-187 | growth above all earlier memory or refusal; a nonpositive size shrinks the process, to deallocuvm's new size, and still yields the old break unless nothing is left |
| Umalloc.NewSize | 3-1/OS/xv6-sse-local/vm.c:256-278 | deallocuvm's new size: smaller by the amount taken away, unchanged if the sum wraps |
| Umalloc.SbrkArgument | 3-1/OS/xv6-sse-local/umalloc.c:54 | the size in bytes as an int: positive exactly below 2^31 |
| Umalloc.Allocator.Morecore | 3-1/OS/xv6-sse-local/umalloc.c:47-61 | exactly the units asked for, but at least 4096, above all earlier memory and on the list, or nothing changed if sbrk refused; from 2^31 bytes on no memory, the header's place being at the break |
| Umalloc.Allocator.CarveOut | 3-1/OS/xv6-sse-local/umalloc.c:76-82 | an exact fit is unlinked, a larger block gives its tail end |
| Umalloc.Allocator.Take | 3-1/OS/xv6-sse-local/umalloc.c:75-85 | the block handed out is new, of the asked size, and disjoint from all others |
| Umalloc.Allocator.Malloc | 3-1/OS/xv6-sse-local/umalloc.c:64-90 | for every request: room for it if and only if the size computation does not wrap; ends after at most one sbrk, and without one if a block fits, and then takes the tail end of the first that fits; 0 exactly if sbrk refused; otherwise a fresh block; a size of 2^31 bytes or more takes memory away instead |
| UmallocRun.Run | 3-1/OS/xv6-sse-local/umalloc.c:24-90 | in any run of requests and releases the blocks in hand are exactly those granted and not released, pairwise disjoint, apart from the free list, and large enough exactly unless the request wrapped; the run ends early exactly at a request of 2^31 bytes or more |
| VmState.PagesShareNoFrame | 3-1/OS/xv6-sse-local/vm.c:222-345 | no frame is mapped twice, by one address space or by two, nor free or a directory at the same time |
| VmState.TableAdded | 3-1/OS/xv6-sse-local/vm.c:44-53 | a new page table leaves every flat map as it was |
| VmState.EntryDecides | 3-1/OS/xv6-sse-local/vm.c:49-52 | directory entries take no right away: the processor grants user access or writing to a page exactly if the page's own entry does |
| VmState.EntryWritten | 3-1/OS/xv6-sse-local/vm.c:73 | writing an entry changes the flat map of one address space at one page |
| VmState.PageMapped | 3-1/OS/xv6-sse-local/vm.c:69-73 | mapping a page keeps frame ownership exact |
| VmState.PageUnmapped | 3-1/OS/xv6-sse-local/vm.c:266-276 | unmapping a page releases exactly its frame |
| VmState.SpaceDropped | 3-1/OS/xv6-sse-local/vm.c:284-298 | an address space without user pages can be given up |
| AddressSpaces.Memory.Freerange | 3-1/OS/xv6-sse-local/kalloc.c:47-53 | the frames of the range are free, no address space changes |
| AddressSpaces.Memory.Kalloc | 3-1/OS/xv6-sse-local/kalloc.c:83-95 | the first free frame, or none exactly if there is none |
| AddressSpaces.Memory.Kfree | 3-1/OS/xv6-sse-local/kalloc.c:60-78 | the frame is free once, filled with junk, and no address space changes |
| AddressSpaces.Memory.Walkpgdir | 3-1/OS/xv6-sse-local/vm.c:36-55 | the table that holds the entry; it may make one for one frame, with a directory entry that grants user access and writing, but no flat map changes and no frame in use is touched; none exactly if it is missing and no frame is free |
| AddressSpaces.Memory.MapPage | 3-1/OS/xv6-sse-local/vm.c:69-73 | the flat map gains exactly that page; it panics exactly on a page already present; it fails, with nothing changed, exactly if a table is missing and memory is exhausted |
| AddressSpaces.Memory.AllocPage | 3-1/OS/xv6-sse-local/vm.c:233-247 | one page of growth: a zeroed frame, or page tables at most; what it costs; panics exactly on a mapped page while there is memory |
| AddressSpaces.Memory.Deallocuvm | 3-1/OS/xv6-sse-local/vm.c:256-280 | exactly the pages between the rounded sizes are unmapped, skipping missing tables, and exactly their frames freed |
| AddressSpaces.Memory.Freevm | 3-1/OS/xv6-sse-local/vm.c:284-298 | every frame of the address space, user pages, tables and directory, is freed once; other frames and spaces stay |
| AddressSpaces.Memory.Allocuvm | 3-1/OS/xv6-sse-local/vm.c:222-250 | which outcome it is, from the map and the number of free frames before: success if and only if no page of the range is mapped and frames for pages and missing tables suffice, the remap panic if and only if they last up to a page that is mapped; success maps the pages to zeroed frames of their own; failure leaves the whole range unmapped, hence everything as it was, up to tables, if and only if nothing was mapped there |
| AddressSpaces.Memory.MappedGrants | 3-1/OS/xv6-sse-local/vm.c:239-244 | the processor lets the user read and write every page of a range that was allocated |
| AddressSpaces.RoundedUp | 3-1/OS/xv6-sse-local/mmu.h:90 | the pages below a rounded size are those that hold one of its bytes |
| AddressSpaces.SpentIsNeeded | 3-1/OS/xv6-sse-local/vm.c:222-250 | the free frames used so far are a page each and the tables that were missing |
| AddressSpaces.Memory.TooFewFrames | 3-1/OS/xv6-sse-local/vm.c:222-250 | out of frames at one page, the range cannot succeed and no mapped page is reached |
| AddressSpaces.Memory.RestoredIfNone | 3-1/OS/xv6-sse-local/vm.c:234-246 | after the range was taken back everything is as before, up to tables, if and only if nothing was mapped in it |
| AddressSpaces.Memory.Setupkvm | 3-1/OS/xv6-sse-local/vm.c:119-136 | a new space with exactly the kernel map if and only if frames for directory and kernel tables suffice, else every frame given back |
| AddressSpaces.Memory.SpaceGrants | 3-1/OS/xv6-sse-local/vm.c:129-134 | the processor grants on every page what the kernel map grants |
| AddressSpaces.Memory.MapRegion | 3-1/OS/xv6-sse-local/vm.c:130-131 | one row of the kernel map, page by page |
| AddressSpaces.Memory.CopyPage | 3-1/OS/xv6-sse-local/vm.c:325-338 | one more page copied: same contents and flags, a frame of its own; panics exactly on a page that is not present |
| AddressSpaces.Memory.Copyuvm | 3-1/OS/xv6-sse-local/vm.c:316-345 | which outcome it is, from the map and the number of free frames before: a copy if and only if all pages are present and frames suffice, the panic if and only if they last up to a page that is not; a copy has disjoint frames with equal contents and flags, the original untouched; otherwise every frame is given back |
| AddressSpaces.Memory.CopyGrants | 3-1/OS/xv6-sse-local/vm.c:325-338 | the processor grants on every copied page what it grants on the original |
| AddressSpaces.Memory.TooFewToCopy | 3-1/OS/xv6-sse-local/vm.c:325-344 | out of frames at one page, no copy is possible and no missing page is reached |
| AddressSpaces.Memory.GoneAgain | 3-1/OS/xv6-sse-local/vm.c:342-344 | building an address space and freeing it restores ownership and contents of all frames |
| AddressSpaces.Memory.AllUndone | 3-1/OS/xv6-sse-local/vm.c:234-246 | the partial growth taken back by deallocuvm leaves the range unmapped, its frames free, and new page tables at most |
| AddressSpaceRun.Run | 3-1/OS/xv6-sse-local/vm.c:119-345 | in any run of making, growing, shrinking, copying and dropping address spaces, growth of mapped ranges included, no frame is lost: each is free once, or belongs to a living space, and all are free when none is left |
| AddressSpaceRun.OneStep | 3-1/OS/xv6-sse-local/vm.c:119-345 | one step, and which address spaces there are afterwards |
| BufferCache.Unlinked | 3-1/OS/xv6-sse-local/bio.c:132-133 | taking a buffer out of the list leaves next and prev inverse |
| BufferCache.Pushed | 3-1/OS/xv6-sse-local/bio.c:134-137 | linking one in behind the head does too |
| BufferCache.Cache.constructor | 3-1/OS/xv6-sse-local/bio.c:39-56 | every buffer is in the list once |
| BufferCache.Cache.Find | 3-1/OS/xv6-sse-local/bio.c:69-76 | the first buffer of the block in list order, or that there is none |
| BufferCache.Cache.FindRecyclable | 3-1/OS/xv6-sse-local/bio.c:81-91 | the last buffer in list order that is neither in use nor dirty, or that there is none |
| BufferCache.Cache.Bget | 3-1/OS/xv6-sse-local/bio.c:62-92 | the block's buffer if cached, else the least recently released buffer neither in use nor dirty; a panic exactly if there is none; no block's contents change |
| BufferCache.Cache.Fill | 3-1/OS/xv6-sse-local/bio.c:101-105 | the second half of bread: a valid buffer stays, another one is read from disk |
| BufferCache.Cache.Bread | 3-1/OS/xv6-sse-local/bio.c:97-106 | the buffer holds the block's current contents, cached or from disk |
| BufferCache.Cache.Bwrite | 3-1/OS/xv6-sse-local/bio.c:110-116 | the block's contents are the new data, on disk and clean; other blocks stay; the cache stays coherent exactly unless another buffer of that block, which only (0, 0) has, goes stale |
| BufferCache.Cache.Brelse | 3-1/OS/xv6-sse-local/bio.c:121-141 | a last release moves the buffer to the front, so that the list stays ordered by time of release |
| BufferCacheRun.Run | 3-1/OS/xv6-sse-local/bio.c:62-141 | the cache is transparent: over any schedule of callers that wait for, hold, change and release buffers, every look shows what was last written to its block, use counts are exact, and no buffer in use is recycled |
| BufferCacheRun.TakeStep | 3-1/OS/xv6-sse-local/bio.c:62-141 | one step of one caller: who holds what afterwards, and what is recorded |
| BufferCacheRun.HeldMore | 3-1/OS/xv6-sse-local/bio.c:69-90 | bget hands a buffer to one more caller and takes it from none |
| BufferCacheRun.HeldLess | 3-1/OS/xv6-sse-local/bio.c:121-141 | brelse takes it from exactly one |
| ProcTable.ExitedParented | 3-1/OS/xv6-sse-local/proc.c:243-284 | after exit nobody has the process as parent, and everybody has one that can wait |
| ProcTable.ExitedWaiting | 3-1/OS/xv6-sse-local/proc.c:267-279 | exit wakes its parent, and init when it hands over a zombie: nobody is left asleep in wait over one |
| ProcTable.ExitedAccounted | 3-1/OS/xv6-sse-local/proc.c:243-284 | the zombie is the one process not yet waited for that is new |
| ProcTable.ReapedKeeps | 3-1/OS/xv6-sse-local/proc.c:304-316 | freeing a zombie's slot keeps both |
| ProcTable.Table.Allocproc | 3-1/OS/xv6-sse-local/proc.c:79-105 | a free slot becomes an embryo with a new pid, or there is none |
| ProcTable.Table.FinishFork | 3-1/OS/xv6-sse-local/proc.c:193-236 | the embryo becomes a runnable child, or its slot is free again |
| ProcTable.Table.Wakeup | 3-1/OS/xv6-sse-local/proc.c:533-591 | exactly the processes asleep on the channel are runnable |
| ProcTable.Table.Kill | 3-1/OS/xv6-sse-local/proc.c:596-614 | the first process of that pid, and no other, is marked, and woken if asleep |
| ProcTable.Table.Exit | 3-1/OS/xv6-sse-local/proc.c:243-284 | the new table, slot by slot, and that all invariants still hold |
| ProcTable.Table.Wait | 3-1/OS/xv6-sse-local/proc.c:290-329 | reaps a zombie child if there is one, whose pid was not returned before; sleeps exactly if it has children, no zombie and was not killed |
| ProcTable.Run | 3-1/OS/xv6-sse-local/proc.c:193-329 | in any interleaving nobody sleeps in wait over a zombie child, and waited pids are distinct and those of exited processes |
| CfsState.IsOverflow | 3-1/OS/xv6-sse-local/proc.c:754-766 | true exactly if the 32-bit sum overflows, and its own subtractions do not |
| CfsState.RescaledOrder | 3-1/OS/xv6-sse-local/proc.c:768-802 | saturating rescaling keeps the order of virtual runtimes and never widens a gap |
| CfsState.SlicesFillThePeriod | 3-1/OS/xv6-sse-local/proc.c:404-411 | the slices of n runnable processes sum to between 10000 and 10000 + n - 1 |
| CfsState.SliceRange | 3-1/OS/xv6-sse-local/proc.c:404-411 | no slice is empty or longer than ten ticks |
| CfsState.WeightSteps | 3-1/OS/xv6-sse-local/proc.c:332 | a nice value weighs between 1.24 and 1.27 times what the next higher one does, and 0 weighs 1024 |
| CfsState.SliceFavours | 3-1/OS/xv6-sse-local/proc.c:404-411 | on one table the lower nice value has no shorter slice, and a slice is the share of ten ticks rounded up |
| CfsState.ChargeTable | 3-1/OS/xv6-sse-local/trap.c:62 | what a tick is charged, and a woken process favoured, at each of the eleven nice values |
| CfsState.ChargeFavours | 3-1/OS/xv6-sse-local/trap.c:62 | a lower nice value is charged less for a tick |
| Cfs.Scheduler.OverflowHandler | 3-1/OS/xv6-sse-local/proc.c:768-802 | every runnable, running or sleeping process is moved by the same amount, saturating |
| Cfs.Scheduler.TotalWeightOfRunnable | 3-1/OS/xv6-sse-local/proc.c:339-349 | the sum of the weights of runnable processes, without wrap |
| Cfs.Scheduler.PickNext | 3-1/OS/xv6-sse-local/proc.c:395-403 | a runnable process of least virtual runtime, the one come across if it is one |
| Cfs.Scheduler.Schedule | 3-1/OS/xv6-sse-local/proc.c:382-418 | the process dispatched has least virtual runtime; its slice; the bound is kept |
| Cfs.Scheduler.MakeRoom | 3-1/OS/xv6-sse-local/trap.c:62-65 | the rescaling loop ends, after at most one pass |
| Cfs.Scheduler.Charge | 3-1/OS/xv6-sse-local/trap.c:57-68 | the charge is applied without overflow, everybody rescaled alike if needed; the bound is kept |
| Cfs.Scheduler.Tick | 3-1/OS/xv6-sse-local/trap.c:53-135 | charge, wakeup of the sleepers on the tick counter, preemption at the end of the slice; the bound survives exactly if that wakeup keeps it |
| Cfs.Scheduler.Fork | 3-1/OS/xv6-sse-local/proc.c:193-236 | the child takes the first free slot, a new pid, nice value and virtual runtime of its parent, or nothing changes; the bound is kept |
| Cfs.Scheduler.SetNice | 3-1/OS/xv6-sse-local/proc.c:653-669 | the first process of that pid gets the nice value; -1 exactly if it is out of range or there is no such pid; the bound is kept |
| Cfs.Scheduler.Kill | 3-1/OS/xv6-sse-local/proc.c:596-614 | the first process of that pid competes again if it slept; the bound survives exactly under the condition on the table before |
| CfsState.KillKeepsFairIff | 3-1/OS/xv6-sse-local/proc.c:600-608 | that condition: its old virtual runtime is within the bound of all competing ones |
| CfsState.FairCharged | 3-1/OS/xv6-sse-local/trap.c:57-68 | a tick of the process that was dispatched as the least keeps the bound, because its slice ends in time |
| CfsState.FairResumed | 3-1/OS/xv6-sse-local/proc.c:382-418 | dispatching a process of least virtual runtime keeps the bound for its whole slice ahead |
| Cfs.Scheduler.Wakeup1 | 3-1/OS/xv6-sse-local/proc.c:533-591 | exactly the sleepers on the channel compete, each with the value its predecessors leave it; the bound survives exactly under the condition on the table before |
| Cfs.Scheduler.ScanOthers | 3-1/OS/xv6-sse-local/proc.c:551-563 | the least virtual runtime of the other competing processes, told apart by pid, and whether there is one |
| CfsState.WokenValue | 3-1/OS/xv6-sse-local/proc.c:536-577 | in closed form: the k-th woken process gets the least of 0 and the competing values, less the bonuses handed out so far and its own; 0 if it is alone |
| CfsState.WakeupKeepsSpreadIff | 3-1/OS/xv6-sse-local/proc.c:533-591 | after a wakeup competing virtual runtimes are within the bound if and only if the greatest before it exceeds the lowest value handed out by no more, both read off the table before the call |
| CfsState.WakeupKeepsFairIff | 3-1/OS/xv6-sse-local/proc.c:533-591 | the same for what the running process can still reach in its slice |
| CfsState.WakeupOfOne | 3-1/OS/xv6-sse-local/proc.c:536-577 | next to one process of virtual runtime v, waking another keeps the bound if and only if v + 1000 does not exceed it |
| CfsState.WakeupOfMany | 3-1/OS/xv6-sse-local/proc.c:536-577 | with nobody competing, waking n sleepers of nice value 5 keeps it if and only if n is at most 11 |
| CfsState.WokenGoesFirst | 3-1/OS/xv6-sse-local/proc.c:551-577 | a woken process is ahead of all it is compared with, unless saturated |
| CfsState.WokenOneTickAheadIff | 3-1/OS/xv6-sse-local/proc.c:536-569 | it is one tick ahead of the least of them if and only if that least is not positive |
| CfsRun.Run | 3-1/OS/xv6-sse-local/proc.c:367-591 | over any run, virtual runtimes of competing processes stay within ten ticks of the lightest process up to a step if and only if every wakeup, tick and kill before it met its condition; while they do, each step moves all of them alike and the running one by its charge besides |
| CfsRun.Drift | 3-1/OS/xv6-sse-local/trap.c:57-68 | between two processes that compete all the time, the gap changes by what they are charged for their ticks, across all rescalings |
| CfsRun.SharesByWeight | 3-1/OS/xv6-sse-local/proc.c:367-591 | so they share the processor in proportion to their weights: the charges for their ticks differ by at most twice the bound, however long it lasts |
| CfsRun.LowerNiceGetsMore | 3-1/OS/xv6-sse-local/proc.c:367-591 | the lower nice value gets more ticks than the other once the other would have been charged that much less at the lower nice value |
| CfsRun.LowerNiceWins | 3-1/OS/xv6-sse-local/proc.c:367-591 | and in the long run always |
| Pipes.CountersExact | 3-1/OS/xv6-sse-local/pipe.c:85 | full and empty are told apart exactly in spite of 32-bit wrap-around |
| Pipes.IndexExact | 3-1/OS/xv6-sse-local/pipe.c:93 | ring positions survive the wrap because PIPESIZE divides 2^32 |
| Pipes.Pipe.PipeWrite | 3-1/OS/xv6-sse-local/pipe.c:79-98 | how much is written before it sleeps, fails, is found killed or returns, and who is woken; a sleeping reader keeps its cause exactly unless a killed writer fills an empty pipe |
| Pipes.Pipe.PipeRead | 3-1/OS/xv6-sse-local/pipe.c:101-121 | sleeps exactly on an empty pipe that can still be written, or returns -1 there if killed; otherwise delivers the oldest bytes in order |
| Pipes.WriteGivesUp | 3-1/OS/xv6-sse-local/pipe.c:86-89 | a writer that returns -1 wakes nobody, which harms exactly if it put bytes in front of a sleeping reader |
| Pipes.KilledWriterLeavesReaderAsleep | 3-1/OS/xv6-sse-local/pipe.c:86-89 | a schedule that ends with a reader asleep in front of PIPESIZE bytes |
| Pipes.Pipe.PipeClose | 3-1/OS/xv6-sse-local/pipe.c:60-74 | closing an end wakes the other side; the pipe is freed exactly when both are closed, and then nobody is in it |
| Pipes.Run | 3-1/OS/xv6-sse-local/pipe.c:60-121 | under any schedule, kills included, the bytes read are a prefix of those written, at most PIPESIZE in flight, no writer sleeps without cause or together with a reader; without kills no reader sleeps without cause either |
| Pipes.TakeStep | 3-1/OS/xv6-sse-local/pipe.c:60-121 | one step: a writer that goes on stores what fits, a reader takes what is there |
| ShellTokens.LexRoundTrip | 3-1/OS/xv6-sse-local/sh.c:266-308 | tokens written down with blanks between them are read back |
| ShellTokens.LexLaid | 3-1/OS/xv6-sse-local/sh.c:263-308 | so are tokens laid out with any spaces, tabs, carriage returns, newlines and vertical tabs between them, or with nothing next to a symbol |
| ShellTokens.LexUpToClose | 3-1/OS/xv6-sse-local/sh.c:266-308 | a closing parenthesis ends whatever token stands before it |
| ShellGrammar.LineParses | 3-1/OS/xv6-sse-local/sh.c:345-444 | the canonical tokens of a command parse to that command, up to what follows the line |
| ShellGrammar.RoundTrip | 3-1/OS/xv6-sse-local/sh.c:265-492 | every command whose simple commands have fewer than MAXARGS nonempty words is read back from its rendering |
| ShellGrammar.ReturnedIffGood | 3-1/OS/xv6-sse-local/sh.c:265-492 | and those are exactly the commands that any input stands for; every redirection in them is of standard input for reading only, or of standard output for writing only with creation |
| ShellGrammar.AppendsLikeGreater | 3-1/OS/xv6-sse-local/sh.c:383-395 | a line with >> is the same command as with >: nothing is opened for appending |
| ShellLines.SimpleLine | 3-1/OS/xv6-sse-local/sh.c:375-446 | a simple command with its words and redirections in any order and any layout: each redirection is put around what stands before it, each word goes to the program, from ten words on it is refused |
| ShellLines.Redirected | 3-1/OS/xv6-sse-local/sh.c:383-395 | < opens its file with O_RDONLY as 0, > and >> with O_WRONLY and O_CREATE as 1, behind parentheses and behind or before a word |
| ShellLines.Combined | 3-1/OS/xv6-sse-local/sh.c:345-413 | whatever command lines stand between parentheses: what |, ; and & make of them |
| ShellLines.PrecedenceTokens | 3-1/OS/xv6-sse-local/sh.c:345-372 | | binds more strongly than &, & more strongly than ;, and | and ; group to the right |
| ShellLines.LineLonger | 3-1/OS/xv6-sse-local/sh.c:345-446 | a parse does not look beyond the closing parenthesis behind it |
| ShellLines.NothingLost | 3-1/OS/xv6-sse-local/sh.c:328-446 | every word, redirection and operator of a line that is accepted is in the command, as often as in the line, and nothing else is |
| Shell.Parser.GetToken | 3-1/OS/xv6-sse-local/sh.c:266-308 | the next token, its span and kind; the cursor is behind it |
| Shell.Parser.Peek | 3-1/OS/xv6-sse-local/sh.c:311-320 | whether the next token starts with one of the symbols; no token is consumed |
| Shell.Parser.ParseLine | 3-1/OS/xv6-sse-local/sh.c:345-359 | terminates on every input and agrees with the grammar: tree, remaining tokens, or the panic message |
| Shell.Parser.ParsePipe | 3-1/OS/xv6-sse-local/sh.c:362-372 | the same for pipelines |
| Shell.Parser.ParseRedirs | 3-1/OS/xv6-sse-local/sh.c:375-397 | the same for redirections, wrapped around the command in order |
| Shell.Parser.ParseBlock | 3-1/OS/xv6-sse-local/sh.c:400-413 | the same for parentheses; the first panic is unreachable |
| Shell.Parser.ParseExec | 3-1/OS/xv6-sse-local/sh.c:416-446 | the same for simple commands, argv filled in underneath the redirections |
| Shell.Parser.NulTerminate | 3-1/OS/xv6-sse-local/sh.c:450-492 | writes NUL at the ends of the words and nowhere else |
| Shell.EndsOutsideWords | 3-1/OS/xv6-sse-local/sh.c:450-492 | no such write falls inside a word |
| Shell.WordsSurvive | 3-1/OS/xv6-sse-local/sh.c:450-492 | so every argv and file pointer points to its word as a C string |
| Shell.ParseCmd | 3-1/OS/xv6-sse-local/sh.c:328-342 | the command read off the terminated buffer is the grammar's, with redirections of standard input for reading and standard output for writing only; renderings come back as themselves; panics leave the buffer alone |
| Grep.HeadThenTail | 3-1/OS/xv6-sse-local/grep.c:85-107 | a match is a match of the first item followed by one of the rest |
| Grep.EndOnlyLast | 3-1/OS/xv6-sse-local/grep.c:91 | $ is an anchor only at the end of a pattern |
| Grep.PlainPatterns | 3-1/OS/xv6-sse-local/grep.c:73-96 | without a star a pattern is searched for as it stands, . standing for any character, ^ keeping it to the start and $ to the end of the text |
| Grep.StarredLine | 3-1/OS/xv6-sse-local/grep.c:85-107 | ^c*$ is matched exactly by lines of nothing but c, or by any line if c is . |
| Grep.MatchHere | 3-1/OS/xv6-sse-local/grep.c:85-96 | true exactly if a prefix of the text from here on is in the language of the pattern |
| Grep.MatchStar | 3-1/OS/xv6-sse-local/grep.c:99-107 | true exactly if a run of fitting characters can be followed by a match; terminates |
| Grep.MatchText | 3-1/OS/xv6-sse-local/grep.c:73-82 | true exactly if some part of the text is in the pattern's language, at the start under ^ and up to the end under $ |

## Left out

- Ftl.Device.WriteDirectlyNand: runs of at least one sector; its one caller, ftl_write, passes no empty ones.
- Ftl.Device.WriteToBuffer: runs of no more pages than the buffer has; ftl_write sends longer ones straight to flash.
- Ftl.Device.FtlRead: addresses are on the device; beyond it the tables are indexed out of bounds.
- Ftl.Device.FtlWrite: an empty write at sector 0 needs a device with more pages than the buffer, as the shipped one
  is; on a smaller one the source indexes its tables out of bounds. What lies behind the host's buffer is arbitrary.
- FtlRun.Run: empty writes inside a page and at sector 0 are excluded, since they break the property.
- Ftl.Device.GarbageCollection: greedy policy only (ftl.h:54); the cost-benefit and CAT policies use floating point
  with overflowing conversions, and ages, erase counts and statistics influence nothing that is modelled.
- The page cases that ftl_read, write_to_buffer and write_directly_nand spell out separately (first, middle, last,
  only) are one page piece each, with its bounds computed; what every case reads and writes is the same.
- ftl_trim: it indexes the buffer map with a physical page number.
- FtlBank.Geometry.UserPagesFit: sizes are such that sector addresses and spare words fit 32-bit ints, as they do for
  the shipped constants.
- HW2, HW4 and HW5 are earlier, unfinished or unmerged versions of the same device.
- Log.Log.LogWrite: a clean cached buffer is taken to equal the disk block, which `bio.dfy` shows of the cache; the
  cache here is the map of pinned dirty blocks.
- Locks are modelled by atomic sections: what a source function does between acquire and release, or between two
  sleeps, is one method or one step.
- BufferCache.Cache.Bget: stops in front of the sleep lock, which `BufferCacheRun.Run` models; iderw is a transfer
  done at once.
- BufferCache.Cache.Bread: nothing is said about what was last written to block (0, 0), under which several buffers
  may lie; a clean buffer of it holds what is on disk.
- BufferCache.Cache.Bwrite: which data are current is not said for block (0, 0), for the same reason.
- BufferCacheRun.Run: nobody asks for block (0, 0); a caller is one bread in progress, so a process that holds several
  buffers is several callers.
- FileSys.FileSystem.Readi: what the driver of a device (T_DEV) returns is arbitrary; the device switch and its checks
  are not part of this model.
- FileSys.FileSystem.WriteChunk: likewise.
- FileSys.FileSystem.Filewrite: likewise; for devices nothing is said about the offset.
- FileSys.FileSystem.Writei: when balloc panics the machine stops, so nothing is claimed about the state then except
  that all blocks were in use.
- FsRun.Run: link counts, major and minor numbers, directories, path names, ialloc and the inode cache are left out;
  inodes are records, and the bitmap a sequence of booleans.
- FsRun.Run: device inodes are excluded; an image as mkfs builds it is taken to satisfy the invariant, which its root
  directory does under the condition of `FsState.RootSizeRounded`.
- LogBudget.AbsorbingCanPanicIff: supposes LOGSIZE blocks outside the log, as they are needed to fill it.
- LogBudget.ReservationSufficesIff: supposes more than LOGSIZE blocks outside the log, since fewer cannot fill it.
- LogBudget.AdmitsExactlyIff: supposes more than LOGSIZE blocks outside the log, since fewer cannot fill it.
- LogBudget.RefusalJustified: likewise.
- LogRefinement.DriveAndBegin: likewise for refusals.
- CfsRun.SharesByWeight: over periods in which the bound on the spread of virtual runtimes holds and both compete.
- Umalloc.Allocator.Malloc: ends where it would write a header above the break; what the hardware makes of that write
  depends on how much of the page is mapped, and is not modelled.
- Umalloc.Allocator.Sbrk: stands for the system call; it grants memory above all it granted before, or refuses. Sizes
  are multiples of a header, and the page granularity of shrinking is left out.
- AddressSpaces.Memory.Kfree: frames are the pages that kfree accepts, numbered from 0, so that its range panics and
  the panic for address 0 in deallocuvm do not arise; entries are records, frame plus flags.
- AddressSpaces.Memory.Deallocuvm: the entry is cleared just before its frame is freed; the source does it just after.
- AddressSpaces.Memory.Deallocuvm: from a size of at most KERNBASE, as sizes of processes are; above it the kernel's
  mappings would be freed.
- AddressSpaces.Memory.Copyuvm: likewise.
- AddressSpaces.Memory.Allocuvm: after the panic nothing is promised but that the tables are sound.
- AddressSpaceRun.Run: calls that would panic, by the exact conditions above, are not made.
- AddressSpaces.Memory.MapRegion: kmap is a parameter whose rows lie above KERNBASE in order without overlap.
- loaduvm, copyout, clearpteu, exec and the switching of page tables would only add easy members.
- ProcTable.Table.Wakeup: virtual runtimes are in `cfs.dfy` and not repeated here; pids do not wrap.
- CfsRun.Run: one processor, whose ticks are the only ones the source charges.
- Cfs.Scheduler.Schedule: the statistics field runtime is left out.
- Cfs.Scheduler.Kill: the killed mark is in `proc_table.dfy` and not repeated here.
- Pipes.Run: a killed process makes no further calls, as trap.c ensures.
- Pipes.Pipe.PipeClose: an end is closed only when no call that uses it is in progress, as reference counts of open
  files ensure.
- Shell.Parser.ParseExec: commands are values; that redirections already point to the exec node when argv is filled in
  is modelled by filling it in underneath them. runcmd, getcmd and panic's exit are left out.
- grep's reading loop and its buffer are left out; C strings are sequences of characters other than NUL.
- Traps other than the tick, interrupts, disk and console drivers, boot and user programs are hardware or input and
  output; the sockets, signals, compiler and exercise programs elsewhere in the repository are unrelated.
