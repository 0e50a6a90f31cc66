# Verified models of four systems programs

This project models the core logic of four C programs and proves properties of the models.

- **A heap allocator** (`Memory Manager`): boundary tags, segregated free lists in a
  size-ordered list of lists, best fit, splitting, coalescing on both sides, growth by pages.
  The heap is a sequence of 8-byte words; headers, footers and links live in it. The class
  `Allocator.Heap` updates those words in place, as the program does. Its invariant says that
  some map of blocks tiles the heap, agrees with every tag and bit, and is indexed exactly by
  the circular lists that the link words form.
- **A commit protocol** (`Server Store`): threads that commit and abort transactions, one step
  per atomic read or write of a status, in all interleavings.
- **A print spooler** (`Printer`): the budgeted search for conversion chains, the choice of
  printers, and jobs driven by commands and reports about child processes.
- **A recoder for Sun audio files** (`Audible`): reading and writing headers, annotations and
  frames byte by byte, slowing down, speeding up and encryption, up to whole files.

Dafny modules:

| files | content |
|---|---|
| `Integers`, `Options` | 32-bit integers, values that may be missing |
| `HeapTiling`, `FreeRings`, `FreeIndex`, `BoundaryTags` | blocks, circular lists, the index in the words, tags |
| `HeapSteps`, `DoubleInsert`, `Allocator` | the steps of the operations, the operations |
| `AllocatorRuns`, `AllocatorContents`, `AllocatorFaults` | whole runs, what becomes of contents, runs that go wrong |
| `Transactions`, `TransactionOutcome`, `TransactionAbort` | the protocol and its safety, how commits end, the cascade of an abort |
| `Conversions`, `Spooler`, `SpoolerRuns`, `SpoolerJobs`, `SpoolerProgram` | the search, the spooler as functions, all event sequences, single jobs over time, the program that computes these functions |
| `AudioBytes`, `AudioBits`, `AudioInterpolation`, `AudioFrames`, `AudioSamples` | samples, their digits and the key stream, interpolation, frames, which sample stands where |
| `AudioFile`, `AudioSizes`, `AudioRoundTrips`, `AudioOutput`, `AudioProgram` | files, sizes, what comes back, the bytes of whole files, the program |

`dafny verify dfyconfig.toml` verifies all of it.

## Where the code departs from its documentation or intent

The models follow the code. Each departure has its exact condition in a contract or lemma.

- When nothing fits and the first growth of a call on a heap fails, `mem_grow` takes the word
  below the epilogue for a footer and inserts what it leads to. If the heap ends in a free block,
  that is inserted a second time; otherwise it can be an allocated block, or nothing that has a
  meaning (`Allocator.Heap.MemRefuse`, `Reinserts`, `Misreads`, `AllocatorFaults.InsertsTwice`,
  `AllocatorFaults.InsertsAllocated`, `AllocatorFaults.ReadsPayload`).
- When the heap ends in an allocated block and nothing fits, a second page (requests above 4096
  bytes) makes it unlink a block whose links were never set if any size node exists (`Misreads`,
  `AllocatorFaults.FollowsNothing`).
- A request above 2^31 - 24 bytes gets a block that is too small (`AllocatorRuns.GetsRoom`,
  `AllocatorFaults.GetsTooLittle`).
- A growing `sf_realloc` copies nothing (`Allocator.Heap.Realloc`); when contents survive is in
  `AllocatorContents.Resize`, and a run in which they do not in `AllocatorFaults.LosesData`.
- `trans_commit` reads the status of a dependency twice; an abort in between is overlooked
  (`TransactionOutcome.OverlookingHappens`). A late abort overwrites COMMITTED
  (`Transactions.ClashHappens`, exactly when by `Transactions.UndoneExactly`). `trans_abort`
  follows the dependencies of a transaction, while
  `Server Store/include/transaction.h:144-146` speaks of its dependents, which are left as they
  are (`TransactionAbort.DependentsStay`, `TransactionAbort.DependentLeft`).
- With three conversions of a type the budget of 63 can miss a chain
  (`Conversions.BudgetExactly`).
- A successful exit of a paused job frees its printer and leaves it paused
  (`SpoolerRuns.SuccessWhilePaused`, `SpoolerRuns.SuccessWhilePausedHappens`). Of printers with
  the same name only the first can be enabled (`SpoolerRuns.RunsSane`).
- `getFactor` returns -1 for factors above 512 and for the default (`AudioFile.FactorKept`).
  Four bytes of ones are taken for the end of the input and read as 0. `validDataOffset`
  compares the offset with the size of a pointer; the unsigned subtraction that follows still
  refuses offsets below 24.

## Model

| member | source | states |
|---|---|---|
| `Allocator.Heap.Malloc` | Memory Manager/src/sfmm.c:15-64 | For every size, heap and number of granted pages: the call keeps the whole heap invariant and all live payloads unless growth goes wrong; its result is undefined iff `Misreads` holds, and it returns NULL with a heap that no reading of the words makes correct iff `Reinserts` holds. Otherwise it succeeds iff some free block fits or the granted pages make the tail fit; it takes a smallest fitting block, and grows only if none fits, by the least number of pages; what it returns still holds the words that were there; ENOMEM is set iff NULL comes back |
| `Allocator.Heap.Free` | Memory Manager/src/sfmm.c:66-91 | Aborts iff the block has no room for its recorded request; otherwise the block and its free neighbours become one free block, the invariant is kept and no other live payload changes |
| `Allocator.Heap.Release` | Memory Manager/src/sfmm.c:69-90 | `sf_free` past its tests: the new tiling is exactly `Freed`, with tags, bits and lists to match |
| `Allocator.Heap.Realloc` | Memory Manager/src/sfmm.c:93-126 | All branches: abort, free on size 0, in place on an equal or smaller request (every word of the block that remains is kept), allocate-then-free on a larger one, met exactly when `Malloc` would be; nothing is copied then, so the new payload holds the words that were there before |
| `Allocator.Heap.Shrink` | Memory Manager/src/sfmm.c:113-121 | A smaller request in place: invariant, exact new tiling `Shrunk`, own words and all other payloads kept |
| `Allocator.Heap.CutTail` | Memory Manager/src/sfmm.c:114-120 | Cutting the tail off a live block, joining it to a free block behind it, and clearing the bit of the block after that |
| `Allocator.Heap.Place` | Memory Manager/src/sfmm.c:48-61 | Allocating the front of a block taken from the index, split if 32 bytes or more remain: invariant, exact tiling `Placed`, payloads kept |
| `Allocator.Heap.FindFit` | Memory Manager/src/sfmm.c:28-37 | The walk over the size-ordered list of lists finds a block iff one in the heap fits, and then a smallest such block of the heap, the first one on its list |
| `Allocator.Heap.TakeFit` | Memory Manager/src/sfmm.c:28-39 | The found block, which was the first on its list, leaves the index; everything else stays |
| `Allocator.Heap.GrowUntil` | Memory Manager/src/sfmm.c:41-46 | The growth loop ends; it gets a block after the least number of pages, or uses up all that are granted; exact conditions for undefined behaviour and for the broken index |
| `Allocator.Heap.Obtain` | Memory Manager/src/sfmm.c:20-46 | Search, first page or growth: what block `sf_malloc` gets hold of, and when none |
| `Allocator.Heap.GraspTail` | Memory Manager/src/sfmm.c:169-184 | Unlinking the free tail, for the first time or again through its stale links; ill-defined iff the links were never set and some size node exists |
| `Allocator.Heap.MemExtend` | Memory Manager/src/sfmm.c:168-190 | `mem_grow` with a page granted: the tail is one page longer, everything else as before |
| `Allocator.Heap.MemRefuse` | Memory Manager/src/sfmm.c:173-177 | `mem_grow` without a page takes the word below the epilogue for a footer and inserts what it leads to: a tail that was taken out goes back; anything else (a free block that is indexed already, an allocated block, a payload word that looks like a header) leaves a heap that no reading of the words makes correct; undefined iff the word leads to nothing that looks like a header |
| `Allocator.Heap.MemInit` | Memory Manager/src/sfmm.c:141-157 | If the first page is granted: prologue, one free block of 4048 bytes with header and footer, epilogue, and the invariant but for that block being out of the index; otherwise nothing changes |
| `Allocator.Heap.CreateEpilogue` | Memory Manager/src/sfmm.c:399-405 | Only the last word changes, to an allocated block of size 0 with a free predecessor |
| `Allocator.Heap.JoinPrevious` | Memory Manager/src/sfmm.c:72-76 | Merging with the free block before, found through its footer |
| `Allocator.Heap.JoinNext` | Memory Manager/src/sfmm.c:78-84 | Merging with the free block behind; only words in between and link words change |
| `Allocator.Heap.Coalesce` | Memory Manager/src/sfmm.c:203-210 | Header and footer of the joined block; no other word changes |
| `Allocator.Heap.Absorb` | Memory Manager/src/sfmm.c:79-82 | A free block leaves the index and becomes the end of the block before it; only words in between and link words change |
| `Allocator.Heap.SplitBlock` | Memory Manager/src/sfmm.c:236-257 | The tail that is split off is indexed under its own size, or under the joined size if the block behind was free |
| `Allocator.Heap.SplitMerging` | Memory Manager/src/sfmm.c:245-251 | The branch that joins the tail with a free block behind it |
| `Allocator.Heap.SfMemGrow` | Memory Manager/include/sfmm.h:252-261 | One more page at the end, with everything before it as it was; or nothing, if no page is granted |
| `Allocator.Heap.RemoveHeader` | Memory Manager/src/sfmm.c:219-224 | The two link writes |
| `Allocator.Heap.AddHeaderToFreeList` | Memory Manager/src/sfmm.c:285-293 | The four link writes, in their order |
| `Allocator.Heap.TakeOut` | Memory Manager/src/sfmm.c:219-224 | Unlinking an indexed block removes it, and nothing else, from the index |
| `Allocator.Heap.Insert` | Memory Manager/src/sfmm.c:267-293 | A block enters the list of its own size, which is created in order if it is missing, and becomes the first on it |
| `Allocator.Heap.GetSizeNode` | Memory Manager/src/sfmm.c:415-423 | The first node of at least the size, by a walk along the size order |
| `Allocator.Heap.GetSentinelOfSize` | Memory Manager/src/sfmm.c:267-275 | The node of exactly the size, with the size order kept strictly increasing |
| `Allocator.Heap.SfAbort` | Memory Manager/src/sfmm.c:435-452 | A live pointer is refused iff the recorded request exceeds the block |
| `FreeIndex.Unlinks` | Memory Manager/src/sfmm.c:219-224 | Unlinking keeps all rings well-formed and drops exactly one block from the index |
| `FreeIndex.UnlinkTwice` | Memory Manager/src/sfmm.c:182-183 | Unlinking again through stale links changes no word at all |
| `FreeIndex.Pushes` | Memory Manager/src/sfmm.c:285-293 | Inserting at the front keeps all rings well-formed and adds exactly one block |
| `FreeIndex.AddsNode` | Memory Manager/src/sfmm.c:267-275 | A new size node at the place that `getSizeNode` found keeps the index and its order |
| `FreeRings.Bypass` | Memory Manager/src/sfmm.c:219-224 | The two writes on a circular doubly linked list remove one element |
| `FreeRings.LinkIn` | Memory Manager/src/sfmm.c:285-293 | The four writes insert one element |
| `BoundaryTags.Settles` | Memory Manager/src/sfmm.c:203-210 | Replacing a segment of blocks by another, tags included, keeps the layout: tiling, footers, prev_allocated bits, no two adjacent free blocks |
| `BoundaryTags.Extends` | Memory Manager/src/sfmm.c:168-190 | The same for growth at the end of the heap |
| `BoundaryTags.PreviousBlock` | Memory Manager/src/sfmm.c:72-75 | The prev_allocated bit and the footer below lead to the block before |
| `HeapSteps.FirstFit` | Memory Manager/src/sfmm.c:28-34 | The first non-empty list that is large enough holds a smallest fitting block of the whole heap |
| `HeapSteps.NewSizeFits` | Memory Manager/src/sfmm.c:463-471 | In 32-bit arithmetic the block size has room for header and request iff the request is at most 2^31 - 24; it is then the least multiple of 16, at least 32, that does |
| `HeapSteps.GrowStep` | Memory Manager/src/sfmm.c:41-46 | One page more keeps the plan: the tail has the predicted length and no earlier page was enough |
| `DoubleInsert.SameBlocks` | Memory Manager/src/sfmm.c:168-177 | The words of a heap determine its blocks |
| `DoubleInsert.InsertedTwice` | Memory Manager/src/sfmm.c:173-176 | After a second insertion of an indexed block no reading of the words is a correct heap |
| `DoubleInsert.InsertedWrongly` | Memory Manager/src/sfmm.c:173-176 | Nor after the insertion of anything else that looks like a header |
| `BoundaryTags.PrologueKept` | Memory Manager/src/sfmm.c:382-392 | The prologue, which is part of the layout, stays as it is |
| `AllocatorRuns.PayloadsApart` | Memory Manager/src/sfmm.c:48-63 | Payloads are 16-byte aligned, inside the heap and pairwise disjoint |
| `AllocatorRuns.GetsRoom` | Memory Manager/src/sfmm.c:48-58 | A returned block has room for the request iff the request is at most 2^31 - 24, and wastes less than 32 bytes |
| `AllocatorRuns.NothingLive` | Memory Manager/src/sfmm.c:66-91 | Without live blocks the heap is one free block of heap size minus 48 bytes |
| `AllocatorRuns.FreeAll` | Memory Manager/src/sfmm.c:66-91 | Freeing all live blocks in any order leaves that one block |
| `AllocatorRuns.FreedLive` | Memory Manager/src/sfmm.c:66-91 | Freeing removes one live block and keeps the others as they are |
| `AllocatorRuns.PlacedLive` | Memory Manager/src/sfmm.c:48-61 | Allocating adds one live block and keeps the others as they are |
| `AllocatorRuns.ShrunkLive` | Memory Manager/src/sfmm.c:113-121 | Shrinking keeps all live blocks |
| `AllocatorRuns.MovedLive` | Memory Manager/src/sfmm.c:105-111 | Growing replaces one live block by another |
| `AllocatorRuns.DoMalloc` | Memory Manager/src/sfmm.c:15-64 | A program sees a new payload with room for its request, or is refused, and no other payload changes; a request for 0 bytes changes nothing. What becomes of the requests that the code mishandles: undefined, NULL and a broken heap, or, above 2^31 - 24 bytes, a block that is too small |
| `AllocatorRuns.DoRealloc` | Memory Manager/src/sfmm.c:93-126 | A request for 0 bytes removes the payload; one that is not larger than the last is always met, in place, by a prefix with room for it, whatever growth would do; a larger one is refused, or replaces the payload by the words of a block that was free or was obtained by growth; and what becomes of the requests that the code mishandles |
| `AllocatorRuns.DoFree` | Memory Manager/src/sfmm.c:66-91 | The program sees one payload less, and no abort |
| `AllocatorRuns.Step` | Memory Manager/src/sfmm.c:15-126 | Every operation of every run keeps the heap invariant, the acceptance of all live pointers, and the agreement of memory with what the program itself wrote, unless it is a request for a new block that the code mishandles; that is then undefined, or NULL with a broken heap, or too large |
| `Allocator.Heap.Foresees` | Memory Manager/src/sfmm.c:168-184 | Whether a request would hit one of the two growth faults can be told before the call, from the tail bit, the size nodes and the search |
| `AllocatorRuns.Foretells` | Memory Manager/src/sfmm.c:15-126 | Whether an operation will be mishandled can be told before the call |
| `AllocatorRuns.Run` | Memory Manager/src/sfmm.c:15-126 | Over every sequence of operations from the first call on, up to the first one that is mishandled or names memory that is not live: the heap invariant, acceptance of all live pointers, and every live payload holding what the program last put there |
| `AllocatorContents.Resize` | Memory Manager/src/sfmm.c:93-126 | Contents under `sf_realloc`: a request that is not larger keeps them, whatever they are; a larger one that is met keeps them iff the chosen block already held the same words, as far as it lay within the heap; and if that block was free before, it never keeps contents that begin with a data word |
| `AllocatorContents.FreeHoldsLinks` | Memory Manager/src/sfmm.c:285-293 | The first two words of a free block are its links |
| `AllocatorFaults.LosesData` | Memory Manager/src/sfmm.c:105-111 | A run from a new heap in which a word that was written is gone after a larger `sf_realloc` |
| `AllocatorFaults.InsertsTwice` | Memory Manager/src/sfmm.c:173-176 | A run in which a refused growth inserts the free tail a second time |
| `AllocatorFaults.InsertsAllocated` | Memory Manager/src/sfmm.c:173-176 | A run in which it puts an allocated block on a free list |
| `AllocatorFaults.ReadsPayload` | Memory Manager/src/sfmm.c:173-176 | A run in which it reads a data word as a footer |
| `AllocatorFaults.FollowsNothing` | Memory Manager/src/sfmm.c:179-184 | A run in which a second page makes it unlink a block that was never linked |
| `AllocatorFaults.GetsTooLittle` | Memory Manager/src/sfmm.c:463-471 | A request for 2^32 bytes that gets a block of 32 |
| `Transactions.InvStep` | Server Store/src/transaction.c:103-157 | Every step of every thread keeps the invariant of the protocol |
| `Transactions.InvRun` | Server Store/src/transaction.c:103-157 | So does every interleaving |
| `Transactions.SafetyOfRuns` | Server Store/src/transaction.c:109-138 | Every schedule in which the two reads of a dependency are not interrupted and no commit clashes with an abort ends safe: committed transactions have only committed dependencies. In any schedule an uncommitted dependency of a committed transaction was aborted between two reads or had its commit overwritten |
| `Transactions.DepsAreDeclared` | Server Store/src/transaction.c:88-101 | A transaction always has exactly the dependencies that were declared for it, the last one first, none of them lost or added in any run |
| `Transactions.LaterFirst` | Server Store/src/transaction.c:95-96 | Of two dependencies the one in front was declared later |
| `Transactions.SafetyOfDeclarations` | Server Store/src/transaction.c:88-138 | Over events alone: after every such schedule a committed transaction has only committed transactions among those ever declared for it |
| `Transactions.BothConditionsCount` | Server Store/src/transaction.c:109-157 | Neither condition can be spared: two schedules from the start, each meeting one of them, that end with a committed transaction whose dependency is aborted |
| `Transactions.SafeStep` | Server Store/src/transaction.c:109-157 | A step from a safe state leads to a safe one iff it does not commit a transaction over an uncommitted dependency or abort one that a committed transaction depends on |
| `Transactions.CommitIsFinal` | Server Store/src/transaction.c:147-157 | A committed transaction of which no abort has passed its test stays committed in every continuation |
| `Transactions.UndoneExactly` | Server Store/src/transaction.c:147-157 | A commit can be taken back by some continuation iff an abort of the transaction has passed its test and not yet written |
| `Transactions.CommitsStay` | Server Store/src/transaction.c:138-157 | No commit is undone in a run without a clash (a commit written while an abort of the same transaction is between its test and its write) |
| `Transactions.ClashUndoes` | Server Store/src/transaction.c:155-157 | After a clash the waiting abort can take the commit back at once |
| `Transactions.OnlyAbortsUndo` | Server Store/src/transaction.c:155-157 | A step undoes a commit iff it is the write of an abort of that transaction |
| `Transactions.ClashHappens` | Server Store/src/transaction.c:147-157 | A run in which COMMITTED is overwritten |
| `TransactionOutcome.SchedulesEnd` | Server Store/src/transaction.c:109-157 | In no schedule of commits and aborts do the commits take more steps than there is work at the start |
| `TransactionOutcome.NoDeadlock` | Server Store/src/transaction.c:120-123 | In every reachable state, whatever was aborted, as long as the commit of a transaction is not done some commit of a transaction with an id up to its own can take a step, so there is no wait cycle |
| `TransactionOutcome.Verdict` | Server Store/src/transaction.c:109-138 | How a finished commit came out, from the final statuses of its dependencies and what it overlooked |
| `TransactionOutcome.BreaksOff` | Server Store/src/transaction.c:109-116 | A commit whose first look at a dependency finds it aborted looks at no other and waits for none: its next step writes that it has aborted |
| `TransactionOutcome.Outcome` | Server Store/src/transaction.c:103-145 | All complete schedules end in the statuses that the dependencies decide iff no successful commit overlooked an abort |
| `TransactionOutcome.TightOutcome` | Server Store/src/transaction.c:111-114 | They always do if the two reads of a dependency are not interrupted |
| `TransactionOutcome.CalmOutcome` | Server Store/src/transaction.c:103-145 | They always do, in every schedule, if at the start each pending transaction with a pending dependency that is bound to abort also has an aborted one |
| `TransactionOutcome.OverlookingHappens` | Server Store/src/transaction.c:111-114 | A schedule in which a transaction commits although its dependency aborted between the two reads |
| `TransactionOutcome.FateByReachability` | Server Store/src/transaction.c:103-145 | The decided status is COMMITTED iff no aborted transaction is reachable through pending dependencies |
| `TransactionAbort.Table.Create` | Server Store/src/transaction.c:28-55 | A new pending transaction with the next id and no dependency |
| `TransactionAbort.Table.AddDependency` | Server Store/src/transaction.c:88-101 | The dependency is put in front; dependencies keep pointing to smaller ids |
| `TransactionAbort.Table.Abort` | Server Store/src/transaction.c:147-175 | The cascade ends the program iff a committed transaction is reachable through pending dependencies; otherwise it aborts exactly the pending ones it reaches |
| `TransactionAbort.DependentsStay` | Server Store/src/transaction.c:159-164 | Transactions created after the aborted one keep their status, so its pending dependents are aborted with it iff it has none |
| `TransactionAbort.DependentLeft` | Server Store/src/transaction.c:159-164 | A table in which a dependent is left pending |
| `Conversions.SearchExact` | Printer/src/conversions.c:12-41 | The search returns a path iff the types differ and some declared chain has non-final links whose positions (counted from 1) add up to less than the budget |
| `Conversions.SearchResult` | Printer/src/conversions.c:12-41 | The path is a chain of declared conversions from the file type to the printer type, of at most as many links as the budget |
| `Conversions.FoundFirst` | Printer/src/conversions.c:12-41 | The path that is found takes the first direct conversion wherever there is one, and otherwise the first conversion from which an affordable chain leads on |
| `Conversions.ForemostUnique` | Printer/src/conversions.c:12-41 | There is only one such path |
| `Conversions.EnoughBudget` | Printer/src/conversions.c:27-31 | With n types of at most m conversions a budget above m(n - 2) finds a path whenever there is a chain |
| `Conversions.TwoConversionsSuffice` | Printer/src/conversions.c:27-31 | So 63 is enough for 31 types of at most two conversions |
| `Conversions.BudgetExactly` | Printer/src/conversions.c:27-31 | Among all tables that commands can declare, with at most m conversions of a type, the budget of 63 finds a path whenever there is a chain iff m is at most 2 |
| `Conversions.BudgetCanMiss` | Printer/src/conversions.c:27-31 | A sequence of declarations of 31 types, with three conversions of a type at most, and a chain that the budget of 63 misses |
| `Conversions.PathsStay` | Printer/src/conversions.c:93-107 | Declaring more never loses a path |
| `Conversions.DeclaringGrows` | Printer/src/conversions.c:57-107 | Declarations only extend the lists of conversions |
| `Conversions.DeclaringCloses` | Printer/src/conversions.c:57-91 | They keep every conversion pointing to a defined type |
| `Spooler.RunJobsOk` | Printer/src/jobs.c:107-130 | Starting jobs keeps the invariant of printers and jobs |
| `Spooler.ReleaseOk` | Printer/src/main.c:30-38 | Ending an active job and freeing its printer keeps it |
| `SpoolerRuns.StepOk` | Printer/src/main.c:23-53 | Every command and every plausible report keeps it |
| `SpoolerRuns.RunsOk` | Printer/src/main.c:23-77 | So does every sequence of them |
| `SpoolerRuns.BusyMeansOneJob` | Printer/src/jobs.c:119-130 | At the end of every sequence a printer is busy iff a running or paused job has it, and at most one has |
| `SpoolerRuns.SuccessWhilePaused` | Printer/src/main.c:29-33 | A report of success keeps the invariant iff the job is running |
| `SpoolerRuns.SuccessWhilePausedHappens` | Printer/src/main.c:29-33 | A run from the start to a paused job, after which such a report breaks it |
| `SpoolerRuns.RunsSane` | Printer/src/printers.c:103-113 | After every sequence of commands and reports only the first printer of a name is ever enabled, and every job has a defined type |
| `SpoolerRuns.ChosenPrinter` | Printer/src/printers.c:135-182 | Which printer is chosen, by position: the first eligible idle one of the own type; if there is none, the first eligible one that a conversion path leads to; if there is none, the first eligible one of the own type; none iff there is no such printer or the type is undefined |
| `SpoolerRuns.StartsExactly` | Printer/src/jobs.c:107-130 | Where only first printers of a name are enabled, a queued job starts iff an eligible printer of its type is enabled and idle, or the first one that a conversion path leads to is idle |
| `SpoolerRuns.NoneIsPassedOver` | Printer/src/jobs.c:107-117 | After every sequence of commands and reports, once `runJobs` has been through the jobs no queued job could start, on a printer of its type or by conversion |
| `SpoolerRuns.NoneIsPassedOverAfterEnd` | Printer/src/main.c:29-51 | The same after every plausible report that a process has ended |
| `SpoolerRuns.StartsWell` | Printer/src/printers.c:135-182 | In a state where only first printers of a name are enabled (as in all reachable ones), a job that starts gets an enabled, idle, eligible printer of its own type (for which no path is sought) or one that a conversion path leads to |
| `SpoolerRuns.JobsMatched` | Printer/src/printers.c:145-182 | After every sequence of commands and reports every active job has a printer that can print it, whatever was declared later |
| `SpoolerJobs.ReportsTell` | Printer/src/main.c:23-53 | Success completes a running job, failure and a fatal signal abort a running or paused one, a stop pauses a running one and a continuation resumes a paused one; nothing else in the job changes but the time |
| `SpoolerJobs.FlagsTell` | Printer/src/printers.c:91-113 | Enabling and disabling set the flag of the first printer of the name, and nothing else |
| `SpoolerJobs.PrinterAdded` | Printer/src/printers.c:7-50 | A new printer is disabled and idle, and is added iff its type is defined and there is room |
| `SpoolerJobs.WhoIsRemoved` | Printer/src/jobs.c:94-105 | After a command the jobs are those that `runJobs` left, in order, without exactly the completed or aborted ones whose last change is 60 seconds old or more |
| `SpoolerJobs.Submitted` | Printer/src/main.c:250-274 | A submission for a defined type and a non-empty set adds one job at the end, with the next id and what was asked for, queued or running |
| `SpoolerJobs.SubmittedStarts` | Printer/src/main.c:250-274 | Where only first printers of a name are enabled, it is started at once iff it can be |
| `SpoolerJobs.RunsNumbered` | Printer/src/jobs.c:15-46 | In every run jobs are in the order of their submission and no two have the same id |
| `SpoolerJobs.JobStays` | Printer/src/jobs.c:94-105 | In every run a job stays, with its id, file and set of printers, unless the run completed or aborted it and had a command 60 seconds or more after that |
| `SpoolerProgram.Imprimer.GetType` | Printer/src/types.c:41-50 | The first type of the name, or none if it is not defined |
| `SpoolerProgram.Imprimer.NewExtension` | Printer/src/types.c:7-38 | The table grows by one type while there is room, even for a name in use |
| `SpoolerProgram.Imprimer.GetConversion` | Printer/src/conversions.c:109-123 | The first declared conversion between the types |
| `SpoolerProgram.Imprimer.NewConversion` | Printer/src/conversions.c:57-107 | A new conversion between defined types is appended; the table stays closed |
| `SpoolerProgram.Imprimer.GetConversionPath` | Printer/src/conversions.c:12-41 | The recursion with its decrementing loop computes exactly the specified search, ends, and never looks at an undefined type |
| `SpoolerProgram.Imprimer.GetPrinter` | Printer/src/printers.c:52-61 | The first printer of the name |
| `SpoolerProgram.Imprimer.GetPrinterSet` | Printer/src/printers.c:63-89 | All printers without a list, none if a name is unknown, else those named |
| `SpoolerProgram.SelectedExactly` | Printer/src/printers.c:63-89 | A printer is in the set iff there is no list, or all names of the list are known and it is the first printer of one of them |
| `SpoolerProgram.Imprimer.AddPrinter` | Printer/src/printers.c:7-50 | A disabled, idle printer of a defined type is appended while there is room |
| `SpoolerProgram.Imprimer.EnablePrinter` | Printer/src/printers.c:103-113 | Only the flag of the first printer of the name changes |
| `SpoolerProgram.Imprimer.DisablePrinter` | Printer/src/printers.c:91-101 | Only the flag of the first printer of the name changes |
| `SpoolerProgram.Imprimer.BusyPrinter` | Printer/src/printers.c:115-123 | Only the flag of the first printer of the name changes |
| `SpoolerProgram.Imprimer.FreePrinter` | Printer/src/printers.c:125-133 | Only the flag of the first printer of the name changes |
| `SpoolerProgram.Imprimer.GetEligiblePrinter` | Printer/src/printers.c:135-182 | The three scanning loops: idle of the own type, else reachable by conversion, else busy of the own type |
| `SpoolerProgram.Imprimer.GetJobByPid` | Printer/src/jobs.c:48-57 | The first job of the process |
| `SpoolerProgram.Imprimer.NewJob` | Printer/src/jobs.c:15-46 | A queued job with the next id at the end of the list |
| `SpoolerProgram.Imprimer.RunJob` | Printer/src/jobs.c:119-130 | The job runs on the printer found by name if that is idle; else nothing changes |
| `SpoolerProgram.Imprimer.RunJobs` | Printer/src/jobs.c:107-117 | The loop over the list gives every queued job its try, in order |
| `SpoolerProgram.Imprimer.RemoveJob` | Printer/src/jobs.c:80-92 | The first job of the id leaves the list; without one nothing changes |
| `SpoolerProgram.Imprimer.RemoveJobs` | Printer/src/jobs.c:94-105 | Removing during the walk leaves exactly the jobs that are not finished or changed less than 60 seconds ago |
| `SpoolerProgram.Imprimer.SetJobStatus` | Printer/src/jobs.c:271-309 | The guarded status changes of pause, resume, complete and abort |
| `SpoolerProgram.Imprimer.Print` | Printer/src/main.c:250-274 | A submission: one new job of a defined type for a non-empty set of printers, started if it can be |
| `SpoolerProgram.Imprimer.AfterCommand` | Printer/src/main.c:66-72 | Starting and removing jobs after a command |
| `SpoolerProgram.Imprimer.Conclude` | Printer/src/main.c:30-38 | The end of a process: status, printer, and what can be started |
| `SpoolerProgram.Imprimer.PrintHandler` | Printer/src/main.c:23-53 | The handler follows a null pointer exactly if the report needs a job, or the printer of one, that is not there; otherwise every report has exactly the specified effect, and exit codes other than 0 and 1 have none |
| `SpoolerProgram.HandlerSurvives` | Printer/src/main.c:23-53 | In every run it survives the reports of all active jobs |
| `AudioBytes.DecodeEncode` | Audible/src/audioHelper.c:103-139 | A value survives being written and read iff it fits in its bytes and is not 32 bits of ones |
| `AudioBytes.EncodeDecode` | Audible/src/audioHelper.c:128-187 | Bytes survive being read and written iff they are not four bytes of ones |
| `AudioBytes.XorIntOnes` | Audible/src/transformations.c:131-132 | A sample encrypts to 32 bits of ones iff it is the complement of its key word |
| `AudioBytes.XorBack` | Audible/src/transformations.c:127-136 | Encrypt, write, read, decrypt gives the bytes of the sample iff that is not the case (or samples are shorter) |
| `AudioBits.EncodeAt` | Audible/src/audioHelper.c:151-187 | Byte i of a written value is its digit of that weight in base 256, the most significant first |
| `AudioBits.FrontWeighs` | Audible/src/audioHelper.c:128-139 | The first byte that is read weighs most |
| `AudioBits.XorBit` | Audible/src/transformations.c:131-132 | A bit of an encrypted value is set iff it is set in just one of sample and key word |
| `AudioBits.DrawsExactly` | Audible/src/myrand.c:19-22 | The state of the generator after n draws, in closed form: A^n * key + C * (1 + A + ... + A^(n-1)) modulo 2^64 |
| `AudioBits.KeyWordAt` | Audible/src/myrand.c:19-45 | Byte i of a key word, the most significant first, is bits 23 to 30 of the state after i + 1 draws |
| `AudioBits.FirstKeyWord` | Audible/src/myrand.c:19-45 | For the key 1 the first key word is 0x832C4F88, as a signed integer |
| `AudioInterpolation.CDivIs` | Audible/src/transformations.c:224-226 | Division rounds toward zero |
| `AudioInterpolation.Interpolates` | Audible/src/transformations.c:224-226 | Without overflow interpolated samples lie between the given two and are monotone in k |
| `AudioInterpolation.SafeExactly` | Audible/src/transformations.c:224-226 | No sample of a size overflows with a factor f iff (256^bytes - 1)(f - 1) < 2^31 |
| `AudioInterpolation.SafeFactors` | Audible/src/transformations.c:224-226 | For factors up to 1024: 8 and 16 bits always, 24 bits up to 129, 32 bits only without insertion |
| `AudioInterpolation.InterpolatedFits` | Audible/src/transformations.c:224-226 | A safely interpolated sample is read back as it was written |
| `AudioFrames.SpedSlowed` | Audible/src/transformations.c:152-204 | Speeding up what was slowed down gives back the frames, for every sequence and factor |
| `AudioFrames.SpedLength` | Audible/src/transformations.c:152-159 | Speeding up keeps one frame for every N, rounded up |
| `AudioFrames.SlowedLength` | Audible/src/transformations.c:181-204 | Slowing down gives N(frames - 1) + 1 frames |
| `AudioFrames.FramesOfBytes` | Audible/src/audio.c:119-151 | What reading makes of written frames |
| `AudioFrames.FramesKept` | Audible/src/audio.c:119-151 | Frames that are read and written are the bytes they came from iff these are all there and no 32-bit sample is all ones |
| `AudioFrames.CryptedTwice` | Audible/src/transformations.c:127-136 | Encrypting twice yields the same bytes for every key, channel count and frame sequence iff samples are shorter than 32 bits or none is the complement of its key word |
| `AudioSamples.FramesAt` | Audible/src/audio.c:119-127 | Sample c of frame i is read from its place among the bytes |
| `AudioSamples.FrameBytesAt` | Audible/src/audio.c:143-151 | It is written to the same place |
| `AudioSamples.SpedAt` | Audible/src/transformations.c:152-159 | Frame m of those kept is frame m * N of the input |
| `AudioSamples.SlowedBetween` | Audible/src/transformations.c:181-226 | Frame m * N + k of the slowed frames is S + (T - S) * k / N, sample by sample, for frames m and m + 1 of the input; it lies between the two and moves from the first to the second |
| `AudioSamples.SlowedLast` | Audible/src/transformations.c:181-204 | The last frame of the input is the last one written |
| `AudioSamples.CryptedAt` | Audible/src/transformations.c:127-136 | Sample c of frame i is combined with the key word after 4 * (i * channels + c) draws |
| `AudioFile.FactorKept` | Audible/src/transformations.c:244-248 | Of the factors 1 to 1024 exactly those up to 512 come back from the option word; the others are read as -1 |
| `AudioFile.ParseAccepts` | Audible/src/audio.c:23-33 | What is known of an accepted file, and that it is header, annotation and body |
| `AudioFile.HeaderBack` | Audible/src/audio.c:45-52 | A written header is read back, but for a size of all ones, which is read as 0 |
| `AudioFile.ParseRewritten` | Audible/src/audio.c:67-101 | What recoding writes is accepted again, with the same header, annotation and frame bytes |
| `AudioSizes.SizeRegular` | Audible/src/transformations.c:19-26 | The size announced after slowing down, counted again and announced after speeding up, is the original one iff the factor is at least 2 |
| `AudioSizes.SizeOfNothing` | Audible/src/transformations.c:19-26 | For a file without frames it never is |
| `AudioSizes.SizeIrregular` | Audible/src/transformations.c:19-26 | With -1 for a factor it never is |
| `AudioSizes.SpedSizeRegular` | Audible/src/transformations.c:22-23 | The size announced by speeding up is that of the frames written, and one frame more if the factor divides their number |
| `AudioRoundTrips.IntactExactly` | Audible/src/hw1.c:129-142 | The canonical rewriting of a file is the file itself iff its size is that of whole frames, all there and nothing more, and nothing in it is taken for the end of the input |
| `AudioRoundTrips.SlowAnnounces` | Audible/src/transformations.c:19-21 | A slowed file is exactly as long as its header says iff it has a frame (or factor 1); with a lost factor iff it has exactly one |
| `AudioRoundTrips.SpeedAnnounces` | Audible/src/transformations.c:22-23 | A file sped up is exactly as long as its header says iff the factor is at most 512 and does not divide the number of frames; if it divides it, the file is one frame shorter |
| `AudioRoundTrips.RoundTrip` | Audible/src/hw1.c:160-168 | Whole files, header included: slowing down and speeding up by f gives the canonical file iff there is a frame and 2 <= f <= 512 |
| `AudioRoundTrips.RoundTripIntact` | Audible/src/hw1.c:160-168 | An intact file comes back byte by byte iff the same holds |
| `AudioRoundTrips.CryptTwice` | Audible/src/hw1.c:158-168 | Whole files: encrypting twice with a key gives the file as it was read iff samples are shorter than 32 bits or none is the complement of its key word |
| `AudioRoundTrips.CryptTwiceIntact` | Audible/src/hw1.c:158-168 | An intact file comes back byte by byte iff the same holds |
| `AudioOutput.AcceptedExactly` | Audible/src/audio.c:23-79 | Which files are accepted, in bytes: ".snd", an offset from 24 to 1048 that is a multiple of 8 and not beyond the end, an encoding from 2 to 5, one or two channels, and no byte of ones in the annotation; and what is read from which place |
| `AudioOutput.DataAt` | Audible/src/audio.c:119-127 | Each sample of an accepted file in terms of its bytes |
| `AudioOutput.SlowWrites` | Audible/src/hw1.c:160-168 | Whole files: the bytes of sample c of frame m * f + k of the slowed file are those of S + (T - S) * k / f |
| `AudioOutput.SlowReadsBack` | Audible/src/hw1.c:160-168 | The slowed file is accepted, and that sample is read back from it iff it is not 32 bits of ones |
| `AudioOutput.SlowSamplesMove` | Audible/src/transformations.c:224-226 | These samples move from the one frame to the next |
| `AudioOutput.SpeedWrites` | Audible/src/hw1.c:160-168 | Whole files: the bytes of frame m of a file sped up are those of frame m * f of the input |
| `AudioOutput.CryptWrites` | Audible/src/hw1.c:158-168 | Whole files: sample number p is written combined with the key word after 4 * p draws from the key |
| `AudioProgram.Recoder.GetStdinInt` | Audible/src/audioHelper.c:128-139 | The accumulating loop: the big-endian value, 0 at the end of the input and for four bytes of ones |
| `AudioProgram.Recoder.SignExtend` | Audible/src/audioHelper.c:103-115 | Setting the upper bytes one by one yields the signed value |
| `AudioProgram.Recoder.PutByteInt` | Audible/src/audioHelper.c:176-187 | The low bytes, most significant first |
| `AudioProgram.Recoder.PutCharInt` | Audible/src/audioHelper.c:151-162 | All four bytes, most significant first |
| `AudioProgram.Recoder.ReadHeader` | Audible/src/audio.c:23-33 | Six fields in order, and the four tests of validity |
| `AudioProgram.Recoder.WriteHeader` | Audible/src/audio.c:45-52 | Six fields in order |
| `AudioProgram.Recoder.ReadAnnotation` | Audible/src/audio.c:67-79 | Succeeds iff the size is a multiple of 8 up to 1024 and that many bytes follow, none of them 255; the buffer then holds them |
| `AudioProgram.Recoder.WriteAnnotation` | Audible/src/audio.c:92-101 | The first bytes of the buffer, in order |
| `AudioProgram.Recoder.ReadFrame` | Audible/src/audio.c:119-127 | The buffer holds the samples of the next frame, 0 beyond the end of the input |
| `AudioProgram.Recoder.WriteFrame` | Audible/src/audio.c:143-151 | The bytes of the samples in order |
| `AudioProgram.Recoder.MyRand32` | Audible/src/myrand.c:39-45 | Four draws, the upper 8 of 15 bits of each, first one most significant |
| `AudioProgram.Recoder.CryptFrame` | Audible/src/transformations.c:127-136 | One frame, each sample combined with the next key word |
| `AudioProgram.Recoder.SpeedUp` | Audible/src/transformations.c:152-159 | One frame is read, and written iff its number is a multiple of the factor |
| `AudioProgram.Recoder.Insert` | Audible/src/transformations.c:193-199 | All interpolated frames between two frames, in order |
| `AudioProgram.Recoder.SlowDown` | Audible/src/transformations.c:181-204 | One frame and those inserted behind it are written; the buffer then holds the next one |
| `AudioProgram.Recoder.CopyFrame` | Audible/src/transformations.c:217-222 | The first samples are copied |
| `AudioProgram.Recoder.RecodeFrames` | Audible/src/hw1.c:160-168 | The loop writes exactly the transformed sequence of frames |
| `AudioProgram.Recoder.Run` | Audible/src/hw1.c:129-170 | Succeeds iff header and annotation are accepted, and then writes exactly the recoded file that the theorems speak of |

## Left out

Allocator:

- The header pointer that a failed search leaves unset, and the write through it: modelled as
  "no candidate, size 0".
- Failure of `sf_add_free_list`, and what `sf_mem_grow` does beyond its contract: a call gets
  the number of pages that will be granted as a parameter, and fresh pages hold no link words.
- Heaps of 2^31 bytes or more (`SmallHeap`), and requests for which rounding up overflows an int
  (`Computable`).
- Allocator.Heap.SfAbort: says nothing of pointers that are not live, whose words can be anything.
- Allocator.Heap.MemRefuse: data words have no bits here, and a word that reads as a header of
  size 0 counts as leading nowhere.
- AllocatorRuns.Run: ends with the first operation that the code mishandles, because nothing is
  promised of the heap after it.
- AllocatorContents.Resize: the words of pages obtained during the call are unknown.

Transactions:

- Dependencies that are declared while the commit of their transaction is under way: here they
  come before it.
- Semaphores, mutexes and reference counts: waiting is a guard on a status, and an abort waits
  for the end of a commit of the same transaction.
- TransactionAbort.Table.Abort: the cascade runs without interference; in the protocol its aborts
  are separate steps of any threads.
- A condition on the start that is also necessary for all schedules to end alike: whether an
  abort can be overlooked also depends on the order of the dependencies of all transactions that
  must finish first.
- The store, whose implementation is inside a comment, the client registry and the network.

Spooler:

- Processes, pipes, files and messages; the splitting of command lines; batch mode.
- Process numbers that are used again: they are fresh here.
- The linked list of jobs and the arrays of pointers are sequences; walks over them are loops.

Recoder:

- AudioProgram.Recoder.Run: does not model the rewriting of the annotation without `-p`, nor the
  parsing of arguments.
- Failure of output. Signed overflow, undefined in C, is wrap-around here; the whole-file
  theorems on speed ask for sizes below 2^31, where it does not occur in the sizes.
