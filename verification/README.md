# Page replacement in the OS simulator, modelled in Dafny

This project models the page-replacement engine of `KernelFunctions.java`, the
part of an operating-system simulator that runs when a process touches a
virtual page. It models one process's page table, its list of allocated frames,
the rotation cursor `framePtr` shared by CLOCK and COUNT, and the FIFO queue and
set. Every operation is a pure function that takes a `Process` value and returns
the new one:

- `pageReplacement` is the fault entry. A resident page needs nothing. Below
  capacity, `addPageFrame` appends a free frame and loads the page into it. At
  capacity, `pageReplAlgorithm` runs the configured policy.
- `doneMemAccess` records one access. It sets the reference bit and the time
  stamp, and increments the access count.
- `findvPage` is the linear search for the valid entry holding a frame.
- There are four policies:
  - FIFO evicts the head of a load-order queue.
  - LRU evicts the oldest time stamp.
  - CLOCK is a second-chance sweep.
  - COUNT is one aging turn of the ring that evicts the first count 0, or
    else the lowest count met.

Modules follow the structure of the code:

| module | file | contents |
|---|---|---|
| `Wrappers` | wrappers.dfy | `Option` |
| `PageTable` | page_table.dfy | entries, processes, `findvPage`, `doneMemAccess`, the frame/page bijection `FrameMap` |
| `FrameRing` | frame_ring.dfy | cursor arithmetic, the page met at each offset of a sweep, the marks a sweep leaves |
| `FifoPolicy` | fifo.dfy | `pageReplAlgorithmFIFO` |
| `LruPolicy` | lru.dfy | `pageReplAlgorithmLRU` |
| `ClockPolicy` | clock.dfy | `pageReplAlgorithmCLOCK` |
| `CountPolicy` | count.dfy | `pageReplAlgorithmCOUNT` |
| `KernelFunctions` | kernel.dfy | `pageReplacement`, `addPageFrame`, `pageReplAlgorithm` |

The CLOCK and COUNT `while(true)` loops are recursive functions over the ring.

- **CLOCK** terminates because every skip clears one set reference bit. Its
  `decreases` measure is the set of pages with the bit set.
- **COUNT** terminates because the cursor comes back to where it started.

Each sweep has an independent reference definition: `ClockReference` and
`CountReference`. Each reference says which offset of the turn stops the sweep,
and which pages the sweep marks on its way. Lemmas show that the loop reaches
exactly that outcome.

`PageTable.FrameMap` is the invariant every fault is meant to keep. It says that
no frame is listed twice, no two resident pages share a frame, every resident
page's frame is allocated, and every allocated frame is held by a resident
page. The model proves it is kept by:

- `addPageFrame`;
- LRU, CLOCK and COUNT.

FIFO does not keep it (see below). What FIFO runs do keep, starting from the
empty queue and set, is `FifoPolicy.QueueFrames`. Under it, the queue and set
hold the same pages, each once, and every queued page is resident. The queued
pages also hold pairwise distinct frames, all among the first `|fifoQueue|`
allocated ones. Both FIFO branches keep it, `addPageFrame` keeps it, and so
does a whole fault under FIFO.

Three behaviours of the code are easy to misread:

- **LRU's time stamp.** LRU stamps the newly loaded page with the wall clock
  (`System.currentTimeMillis()`, KernelFunctions.java:179), while every other
  time stamp is the simulation clock passed to `doneMemAccess`. Here the new
  stamp is the parameter `wallClock`.
- **COUNT's cursor after the fallback.** When COUNT finds no page with count 0,
  it leaves the cursor one past the slot where the turn started, unlike the
  count-0 exit, which leaves the cursor one past the victim.
  `LowestReference` states this.
- **FIFO's fill branch.** This branch takes `allocatedFrames[fifoSet.size()]`
  without invalidating the page already in that frame. `addPageFrame` never adds
  to the FIFO set, so on the first FIFO fault the set is empty while every frame
  is in use. The new page then shares a frame with a resident page.
  `FifoFillSharesFrame` exhibits this on a two-page table. Pages loaded by
  `addPageFrame` never enter the queue, and FIFO invalidates only pages it
  polls from the queue, so such pages stay resident for good. The
  bijection is therefore not kept by FIFO runs.

## Model

| member | source | states |
|---|---|---|
| `PageTable.FindVPageFrom` | KernelFunctions.java:242-253 | the search loop from index `i` answers -1 or an index from `i` on whose entry is valid and holds the frame |
| `PageTable.FindVPageFromSpec` | KernelFunctions.java:242-253 | the search from index `i` returns -1 exactly when no valid entry from `i` on holds the frame, and otherwise no valid entry between `i` and the answer holds it |
| `PageTable.FindVPage` | KernelFunctions.java:239-254 | `findvPage` answers -1 or an index of the table whose entry is valid and holds the frame |
| `PageTable.FindVPageSpec` | KernelFunctions.java:239-254 | `findvPage` answers -1 exactly when no valid entry holds the frame; otherwise it answers the smallest index of one that does |
| `PageTable.FindVPageResidency` | KernelFunctions.java:244-246 | the lookup reads only the valid bits and frame numbers, so tables that agree on those give the same answer |
| `PageTable.DoneMemAccess` | KernelFunctions.java:73-86 | entry `vpage` gets the reference bit, the time stamp `clock` and its count plus one; no other entry and no other process field changes, and no page moves |
| `PageTable.DoneMemAccessKeepsFrameMap` | KernelFunctions.java:73-86 | after an access, `findvPage` answers as before for every frame and the frame/page bijection still holds |
| `PageTable.ReassignPreservesFrameMap` | KernelFunctions.java:116-120 | handing a resident victim's frame to a non-resident page, leaving every other page where it was, keeps the frame/page bijection |
| `FrameRing.AdvanceIsMod` | KernelFunctions.java:146 | the model's cursor step equals the source's `(framePtr + 1) % allocatedFrames.length` |
| `FrameRing.PageAtDistinct` | KernelFunctions.java:140-141 | when no frame is listed twice, two different offsets of one turn of the ring meet two different pages |
| `FrameRing.MarkUpToEntry` | KernelFunctions.java:144-146 | after the first `k` offsets of a turn, each page met has been marked exactly once and every other entry is untouched |
| `FifoPolicy.FifoFill` | KernelFunctions.java:95-105 | below capacity, the new page is valid in frame `allocatedFrames[fifoSet.size()]` and is appended to queue and set; no other entry changes |
| `FifoPolicy.FifoEvict` | KernelFunctions.java:107-124 | at capacity, the queue head loses its validity and its frame goes to the new page; the head leaves queue and set and the new page joins both; no other entry changes |
| `FifoPolicy.FifoStep` | KernelFunctions.java:95-125 | one pass of the loop body is a no-op when the page is in the set; otherwise it is the fill branch below capacity and the eviction branch at capacity |
| `FifoPolicy.FifoLoop` | KernelFunctions.java:94-126 | the `for` loop, however many passes it has left, ends in the state after a single pass of the body |
| `FifoPolicy.PageReplAlgorithmFIFO` | KernelFunctions.java:89-128 | `pageReplAlgorithmFIFO` loads at most one page: it equals one pass of the loop body |
| `FifoPolicy.FifoKeepsSynced` | KernelFunctions.java:103-123 | if the queue and set held the same pages, each once, they still do afterwards, and they have equal size |
| `FifoPolicy.PushKeepsSynced` | KernelFunctions.java:103-104 | adding a page that is not in the set to both the set and the queue keeps them holding the same pages, each once |
| `FifoPolicy.PopPushKeepsSynced` | KernelFunctions.java:113-123 | polling the head from the queue, removing it from the set, and adding a new page to both keeps them holding the same pages, each once |
| `FifoPolicy.SyncedSize` | KernelFunctions.java:95 | a queue and set holding the same pages, each once, have the same size, so `fifoSet.size()` counts the queued pages |
| `FifoPolicy.FifoEvictionKeepsFrameMap` | KernelFunctions.java:107-124 | the eviction branch keeps the frame/page bijection and keeps every queued page resident |
| `FifoPolicy.FillKeepsQueueFrames` | KernelFunctions.java:95-105 | the fill branch keeps the FIFO invariant: the frame it hands out, `allocatedFrames[fifoSet.size()]`, is held by no queued page |
| `FifoPolicy.PushKeepsQueueHolds` | KernelFunctions.java:98-104 | queueing a page loaded into the first frame past the queued ones keeps the queued pages resident, in distinct frames, among the first queue-length frames |
| `FifoPolicy.EvictKeepsQueueFrames` | KernelFunctions.java:107-124 | the eviction branch keeps the FIFO invariant: the new page takes over the head's frame, which no other queued page holds |
| `FifoPolicy.FifoKeepsQueueFrames` | KernelFunctions.java:89-128 | every FIFO call keeps the FIFO invariant when no frame is listed twice |
| `FifoPolicy.FifoFillSharesFrame` | KernelFunctions.java:95-105 | on a table whose frame was loaded by `addPageFrame`, the fill branch puts a second page into the same frame and breaks the bijection |
| `LruPolicy.LruScan` | KernelFunctions.java:167-172 | the scan ends with the first valid entry of smallest time stamp (ties go to the lower index), or none when no entry is valid |
| `LruPolicy.LruVictim` | KernelFunctions.java:163-172 | the victim is a valid entry whose stamp is no larger than any valid entry's and strictly smaller than every earlier valid entry's; there is none exactly when no entry is valid |
| `LruPolicy.PageReplAlgorithmLRU` | KernelFunctions.java:161-181 | with no valid entry nothing changes; otherwise the victim is invalidated, `vpage` takes its frame and the new stamp, and every other entry is unchanged |
| `LruPolicy.LruEvictsOldest` | KernelFunctions.java:166-176 | a page that LRU invalidates has the globally smallest stamp among resident pages, and no resident page before it has a stamp as small |
| `LruPolicy.LruKeepsFrameMap` | KernelFunctions.java:174-180 | LRU keeps the frame/page bijection |
| `ClockPolicy.ClearShrinksUsed` | KernelFunctions.java:144-146 | a second chance removes exactly the skipped page from the set of pages whose reference bit is set, so the sweep terminates |
| `ClockPolicy.ClockSweep` | KernelFunctions.java:138-157 | the loop evicts the page `findvPage` gives for the frame where it stopped; `vpage` takes that frame with the reference bit set; every other entry at most loses its reference bit |
| `ClockPolicy.PageReplAlgorithmCLOCK` | KernelFunctions.java:133-158 | the cursor ends one past the slot of the reused frame; the page that held that frame is gone and `vpage` holds it with the reference bit set; other entries at most lose the reference bit |
| `ClockPolicy.FirstUnused` | KernelFunctions.java:144-148 | every page met before the returned offset has its reference bit set, and the page at that offset (when it is inside the turn) has it clear |
| `ClockPolicy.ClockSweepFrom` | KernelFunctions.java:138-157 | the loop, entered after any number of skips up to the first page with a clear bit, ends in the reference outcome |
| `ClockPolicy.ClockReferenceEntries` | KernelFunctions.java:143-153 | in the reference outcome the victim is invalid with its reference bit clear, `vpage` holds the victim's frame with the bit set and nothing else of it changed, pages passed over lost the bit, and other entries are untouched |
| `ClockPolicy.ClockVictimIsFirstUnused` | KernelFunctions.java:133-158 | the victim is the page of the first frame from `framePtr` with a clear reference bit (the `framePtr` frame when all were set) and leaves invalid with the bit clear; `vpage` takes its frame with the bit set, keeping its count and time stamp; pages passed over lose the bit, other entries are unchanged; the cursor ends one past the victim's slot |
| `ClockPolicy.ClockKeepsFrameMap` | KernelFunctions.java:148-154 | CLOCK keeps the frame/page bijection |
| `CountPolicy.CountSweepPost` | KernelFunctions.java:195-234 | `CountSweep`, the `while(true)` loop with the fallback after it, one iteration per call: every run of it evicts a resident page in favour of `vpage` (reference bit set, count 3), lowering at most the other counts; a stop on count 0 leaves the cursor one past the victim's slot, the fallback one past the start |
| `CountPolicy.PageReplAlgorithmCOUNT` | KernelFunctions.java:186-236 | some resident page is replaced by `vpage`; when the cursor does not end one past the start, the victim is the page of the frame just behind the cursor |
| `CountPolicy.FirstZero` | KernelFunctions.java:205-214 | every page met before the returned offset has a non-zero count, and the page at that offset (when it is inside the turn) has count 0 |
| `CountPolicy.FirstMinOffset` | KernelFunctions.java:199-203 | the returned offset meets a count no larger than any other offset's and strictly smaller than every earlier offset's, so the first minimum wins |
| `CountPolicy.ResumeChain` | KernelFunctions.java:216-222 | aging a page with non-zero count and moving on does not change where the loop ends, for every offset up to the first zero |
| `CountPolicy.CountSweepFromStart` | KernelFunctions.java:195-234 | the loop from the starting cursor ends in the reference outcome of the turn |
| `CountPolicy.CountIsReference` | KernelFunctions.java:186-236 | COUNT on a process yields the page table and cursor of the reference outcome of the turn from `framePtr` |
| `CountPolicy.ZeroReference` | KernelFunctions.java:205-214 | with some count 0 in the turn, the first such page is evicted, only the pages met before it are aged (count / 3), and the cursor ends one past its slot; the victim is otherwise unchanged, and `vpage` takes its frame with the reference bit set and count 3, keeping its time stamp |
| `CountPolicy.LowestReference` | KernelFunctions.java:225-234 | with no count 0 in the turn, every page met is aged, the first page of lowest original count is evicted, and the cursor ends one past the starting slot; the victim leaves aged, and `vpage` takes its frame with the reference bit set and count 3, keeping its time stamp |
| `CountPolicy.CountKeepsFrameMap` | KernelFunctions.java:207-209 | COUNT keeps the frame/page bijection |
| `KernelFunctions.AddPageFrame` | KernelFunctions.java:23-50 | with free frame -1 nothing changes; otherwise the frame list is the old one (empty for a missing list) followed by the free frame, and `vpage` is valid in it; no other entry changes |
| `KernelFunctions.AddPageFrameKeepsFrameMap` | KernelFunctions.java:35-49 | loading a non-resident page into a frame not yet allocated keeps the frame/page bijection |
| `KernelFunctions.AddPageFrameKeepsQueueFrames` | KernelFunctions.java:35-49 | `addPageFrame` keeps the FIFO invariant: the page it loads is not queued, and the frames the queue may use are unchanged |
| `KernelFunctions.PageReplacementKeepsQueueFrames` | KernelFunctions.java:10-18 | under FIFO, a fault keeps the FIFO invariant and a duplicate-free frame list, given a free frame not yet allocated |
| `KernelFunctions.PageReplAlgorithm` | KernelFunctions.java:53-63 | the configured policy runs and no other; the frame list never changes, and only FIFO touches the FIFO queue and set |
| `KernelFunctions.PageReplacement` | KernelFunctions.java:10-18 | a resident page changes nothing; otherwise `addPageFrame` runs below capacity and the policy at capacity; the page becomes resident exactly when a frame was found, or the policy loads it |
| `KernelFunctions.CapacityBound` | KernelFunctions.java:14-17 | when fullness means reaching a capacity, a fault only appends to the frame list and never takes it past the capacity |
| `KernelFunctions.PageReplacementKeepsFrameMap` | KernelFunctions.java:10-18 | a fault keeps the frame/page bijection, given a fresh free frame and, under FIFO, the eviction branch with queue and set in step |

## Left out

- `logProcessState` and the `System.out.println` diagnostics are left out, because they only print to the console.
- The `Kernel` and `Process` classes are not part of this model:
  - the result of `getNextFreeFrame()` is the parameter `freeFrame`, with the code's -1 for "none";
  - the result of `areAllocatedFramesFull()` is the parameter `framesFull`, or the test `|allocatedFrames| >= capacity` in `CapacityBound`.
- The global `krn.pagingAlgorithm` switch is the `Policy` argument, and the unused `doingCount` local is dropped.
- LRU's `System.currentTimeMillis()` reading is the parameter `wallClock`.
- Time stamps are `int` rather than `double`.
- The `Double.MAX_VALUE` and `Long.MAX_VALUE` sentinels become `Option.None`.
- Counts are unbounded `nat`, so the 32-bit overflow of `count++` after 2^31 - 1 accesses is not modelled. Integer division by 3 of a non-negative count is the same in Java and Dafny.
- Array accesses that would throw in Java are excluded by `requires` instead of being modelled as exceptions:
  - CLOCK and COUNT require a non-empty frame list, a cursor inside it, and every allocated frame held by a valid entry (`SweepReady`), so `findvPage` never answers -1 there;
  - FIFO's eviction branch requires a non-empty queue whose head names a page (`FifoReady`).
- COUNT's `if (lowestCountPage != -1)` after the loop always holds: the first page met always beats `Long.MAX_VALUE`. The model takes the candidate's value without the test.
- The FIFO `for` loop is kept literally (`FifoLoop`) and proved equal to one pass of its body.
- The reference lemmas need the bijection's distinctness:
  - ClockVictimIsFirstUnused is proved only when no frame is listed twice and `vpage` is not resident. Without distinct frames a turn can meet a page twice, and then "each page passed over loses its bit once" does not describe the code.
  - CountIsReference is proved only when no frame is listed twice, for the same reason: the turn must age each page at most once.
  - ZeroReference is proved only when no frame is listed twice and `vpage` is not resident.
  - LowestReference is proved only when no frame is listed twice and `vpage` is not resident.
- FifoEvictionKeepsFrameMap covers only the eviction branch, and its `requires` is never met in a run. Once `addPageFrame` has loaded a page, that page stays resident without entering the FIFO set, so a full, in-step, resident queue cannot coexist with the bijection. The fill branch does not keep the bijection either (see FifoFillSharesFrame). What FIFO runs do keep is QueueFrames (FifoKeepsQueueFrames, PageReplacementKeepsQueueFrames).
- PageReplacementKeepsFrameMap has the same FIFO restriction, so under FIFO it says nothing about a real run.
- PageReplAlgorithmCOUNT states only what every run guarantees. The exact victim and cursor are given by CountIsReference with ZeroReference and LowestReference.
