/** The fault entry of the engine: `pageReplacement`, `addPageFrame` and the
    policy dispatch `pageReplAlgorithm`. */
module KernelFunctions {
  import opened PageTable
  import opened FrameRing
  import opened FifoPolicy
  import opened LruPolicy
  import opened ClockPolicy
  import opened CountPolicy

  /** The kernel's paging algorithm setting. */
  datatype Policy = FIFO | LRU | CLOCK | COUNT

  /** `addPageFrame`: append the free frame handed out by the kernel to the
      allocated frames and load `vpage` into it; `freeFrame == -1` means
      the free list was empty and nothing changes. */
  function AddPageFrame(p: Process, vpage: nat, freeFrame: int): (r: Process)
    requires vpage < |p.pageTable|
    ensures freeFrame == -1 ==> r == p
    ensures freeFrame != -1 ==>
      && r == p.(pageTable := r.pageTable, allocatedFrames := r.allocatedFrames)
      && r.allocatedFrames == p.allocatedFrames + [freeFrame]
      && |r.pageTable| == |p.pageTable|
      && Holds(r.pageTable[vpage], freeFrame)
      && r.pageTable[vpage] == p.pageTable[vpage].(valid := true, frameNum := freeFrame)
      && forall i :: 0 <= i < |p.pageTable| && i != vpage ==> r.pageTable[i] == p.pageTable[i]
  {
    if freeFrame == -1 then p
    else
      var pt := p.pageTable;
      p.(allocatedFrames := p.allocatedFrames + [freeFrame],
         pageTable := pt[vpage := pt[vpage].(frameNum := freeFrame, valid := true)])
  }

  /** Loading a non-resident page into a frame not yet allocated keeps the
      frame/page bijection. */
  lemma AddPageFrameKeepsFrameMap(p: Process, vpage: nat, freeFrame: int)
    requires vpage < |p.pageTable| && !p.pageTable[vpage].valid
    requires FrameMap(p.pageTable, p.allocatedFrames) && freeFrame !in p.allocatedFrames
    ensures FrameMap(AddPageFrame(p, vpage, freeFrame).pageTable, AddPageFrame(p, vpage, freeFrame).allocatedFrames)
  {
    var r := AddPageFrame(p, vpage, freeFrame);
    if freeFrame != -1 {
      var pt, pt', frames, frames' := p.pageTable, r.pageTable, p.allocatedFrames, r.allocatedFrames;
      forall k | 0 <= k < |frames'|
        ensures FindVPage(pt', frames'[k]) != -1
      {
        if k == |frames| {
          HolderFound(pt', frames'[k], vpage);
        } else {
          var h := FindVPage(pt, frames[k]);
          assert h != vpage;
          HolderFound(pt', frames'[k], h);
        }
      }
    }
  }

  /** `addPageFrame` keeps the FIFO invariant: the page it loads is not
      queued, and appending a frame leaves the first `|fifoQueue|` frames
      as they were. */
  lemma AddPageFrameKeepsQueueFrames(p: Process, vpage: nat, freeFrame: int)
    requires vpage < |p.pageTable| && !p.pageTable[vpage].valid && QueueFrames(p)
    ensures QueueFrames(AddPageFrame(p, vpage, freeFrame))
  {
    var r := AddPageFrame(p, vpage, freeFrame);
    if freeFrame != -1 {
      var q, n := p.fifoQueue, |p.fifoQueue|;
      assert r.allocatedFrames[..n] == p.allocatedFrames[..n];
      forall k | 0 <= k < n
        ensures r.pageTable[q[k]] == p.pageTable[q[k]]
      {
        assert q[k] != vpage;
      }
    }
  }

  /** What the configured policy needs of the process. */
  predicate PolicyReady(p: Process, vpage: nat, policy: Policy) {
    match policy
    case FIFO => FifoReady(p, vpage)
    case LRU => vpage < |p.pageTable|
    case CLOCK => vpage < |p.pageTable| && SweepReady(p.pageTable, p.allocatedFrames, p.framePtr)
    case COUNT => vpage < |p.pageTable| && SweepReady(p.pageTable, p.allocatedFrames, p.framePtr)
  }

  /** `pageReplAlgorithm`: run the configured policy. LRU's wall-clock
      reading is the parameter `wallClock`. */
  function PageReplAlgorithm(p: Process, vpage: nat, policy: Policy, wallClock: int): (r: Process)
    requires vpage < |p.pageTable| && PolicyReady(p, vpage, policy)
    ensures r.allocatedFrames == p.allocatedFrames && |r.pageTable| == |p.pageTable|
    ensures policy == FIFO ==> r == PageReplAlgorithmFIFO(p, vpage)
    ensures policy == LRU ==> r == PageReplAlgorithmLRU(p, vpage, wallClock)
    ensures policy == CLOCK ==> r == PageReplAlgorithmCLOCK(p, vpage)
    ensures policy == COUNT ==> r == PageReplAlgorithmCOUNT(p, vpage)
    ensures policy != FIFO ==> r.fifoQueue == p.fifoQueue && r.fifoSet == p.fifoSet
  {
    match policy
    case FIFO => PageReplAlgorithmFIFO(p, vpage)
    case LRU => PageReplAlgorithmLRU(p, vpage, wallClock)
    case CLOCK => PageReplAlgorithmCLOCK(p, vpage)
    case COUNT => PageReplAlgorithmCOUNT(p, vpage)
  }

  /** Whether the configured policy installs the faulting page: FIFO unless
      the page is already in its set, LRU when some page is resident, CLOCK
      and COUNT always. */
  predicate PolicyLoads(p: Process, vpage: nat, policy: Policy) {
    match policy
    case FIFO => vpage !in p.fifoSet
    case LRU => LruVictim(p.pageTable).Some?
    case CLOCK => true
    case COUNT => true
  }

  /** `pageReplacement`: the fault entry. `framesFull` is the process's
      answer to `areAllocatedFramesFull()`, `freeFrame` the kernel's answer
      to `getNextFreeFrame()` (-1 when none). */
  function PageReplacement(p: Process, vpage: nat, policy: Policy, framesFull: bool,
                           freeFrame: int, wallClock: int): (r: Process)
    requires vpage < |p.pageTable|
    requires !p.pageTable[vpage].valid && framesFull ==> PolicyReady(p, vpage, policy)
    ensures p.pageTable[vpage].valid ==> r == p
    ensures !p.pageTable[vpage].valid && !framesFull ==> r == AddPageFrame(p, vpage, freeFrame)
    ensures !p.pageTable[vpage].valid && framesFull ==> r == PageReplAlgorithm(p, vpage, policy, wallClock)
    ensures |r.pageTable| == |p.pageTable|
    ensures r.allocatedFrames == p.allocatedFrames
         || (!framesFull && freeFrame != -1 && r.allocatedFrames == p.allocatedFrames + [freeFrame])
    ensures r.pageTable[vpage].valid <==>
      || p.pageTable[vpage].valid
      || (!framesFull && freeFrame != -1)
      || (framesFull && PolicyLoads(p, vpage, policy))
  {
    if p.pageTable[vpage].valid then p
    else if !framesFull then AddPageFrame(p, vpage, freeFrame)
    else PageReplAlgorithm(p, vpage, policy, wallClock)
  }

  /** The allocated-frame list never shrinks, and never outgrows its
      capacity when `framesFull` is the test `|allocatedFrames| >= capacity`. */
  lemma CapacityBound(p: Process, vpage: nat, policy: Policy, capacity: nat, freeFrame: int, wallClock: int)
    requires vpage < |p.pageTable| && |p.allocatedFrames| <= capacity
    requires !p.pageTable[vpage].valid && |p.allocatedFrames| >= capacity ==> PolicyReady(p, vpage, policy)
    ensures
      var r := PageReplacement(p, vpage, policy, |p.allocatedFrames| >= capacity, freeFrame, wallClock);
      && p.allocatedFrames <= r.allocatedFrames
      && |r.allocatedFrames| <= capacity
  {
  }

  /** A fault keeps the frame/page bijection, provided the free frame is
      not already allocated and, under FIFO, the fault takes the eviction
      branch with the queue in step with the set and every queued page
      resident. */
  lemma PageReplacementKeepsFrameMap(p: Process, vpage: nat, policy: Policy, framesFull: bool,
                                     freeFrame: int, wallClock: int)
    requires vpage < |p.pageTable| && FrameMap(p.pageTable, p.allocatedFrames)
    requires freeFrame !in p.allocatedFrames
    requires !p.pageTable[vpage].valid && framesFull ==> PolicyReady(p, vpage, policy)
    requires !p.pageTable[vpage].valid && framesFull && policy == FIFO ==>
      && |p.fifoSet| >= |p.allocatedFrames| && vpage !in p.fifoSet
      && FifoSynced(p.fifoQueue, p.fifoSet) && QueueResident(p)
    ensures
      var r := PageReplacement(p, vpage, policy, framesFull, freeFrame, wallClock);
      FrameMap(r.pageTable, r.allocatedFrames)
  {
    if !p.pageTable[vpage].valid {
      if !framesFull {
        AddPageFrameKeepsFrameMap(p, vpage, freeFrame);
      } else {
        match policy
        case FIFO => FifoEvictionKeepsFrameMap(p, vpage);
        case LRU => LruKeepsFrameMap(p, vpage, wallClock);
        case CLOCK => ClockKeepsFrameMap(p, vpage);
        case COUNT => CountKeepsFrameMap(p, vpage);
      }
    }
  }

  /** Under FIFO, a fault keeps the FIFO invariant and keeps the frame list
      free of duplicates, given a free frame not already allocated: from the
      empty queue and set on, every state of a run satisfies both. */
  lemma PageReplacementKeepsQueueFrames(p: Process, vpage: nat, framesFull: bool, freeFrame: int, wallClock: int)
    requires vpage < |p.pageTable| && QueueFrames(p) && DistinctFrames(p.allocatedFrames)
    requires freeFrame !in p.allocatedFrames
    requires !p.pageTable[vpage].valid && framesFull ==> FifoReady(p, vpage)
    ensures
      var r := PageReplacement(p, vpage, FIFO, framesFull, freeFrame, wallClock);
      QueueFrames(r) && DistinctFrames(r.allocatedFrames)
  {
    if !p.pageTable[vpage].valid {
      if !framesFull {
        AddPageFrameKeepsQueueFrames(p, vpage, freeFrame);
      } else {
        FifoKeepsQueueFrames(p, vpage);
      }
    }
  }
}
