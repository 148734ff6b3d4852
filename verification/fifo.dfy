/** `pageReplAlgorithmFIFO`: a queue of resident pages in load order and a
    companion set; the victim is the head of the queue. */
module FifoPolicy {
  import opened PageTable

  /** The queue and the set hold the same pages, each page once. */
  predicate FifoSynced(q: seq<int>, s: set<int>) {
    && (forall i, j :: 0 <= i < j < |q| ==> q[i] != q[j])
    && s == set x | x in q
  }

  /** What one pass of the loop body needs so that it does not fail: when
      it is going to evict, the queue has a head and the head names a page. */
  predicate FifoReady(p: Process, vpage: nat) {
    && vpage < |p.pageTable|
    && (|p.fifoSet| >= |p.allocatedFrames| && vpage !in p.fifoSet ==>
          |p.fifoQueue| > 0 && 0 <= p.fifoQueue[0] < |p.pageTable|)
  }

  /** The fill branch: below capacity (set smaller than the frame list) a
      page not in the set is loaded into frame `allocatedFrames[fifoSet.size()]`,
      whatever page that frame holds, and appended to the queue and set. */
  function FifoFill(p: Process, vpage: nat): (r: Process)
    requires vpage < |p.pageTable| && |p.fifoSet| < |p.allocatedFrames| && vpage !in p.fifoSet
    ensures r == p.(pageTable := r.pageTable, fifoQueue := r.fifoQueue, fifoSet := r.fifoSet)
    ensures r.fifoQueue == p.fifoQueue + [vpage]
    ensures r.fifoSet == p.fifoSet + {vpage}
    ensures |r.pageTable| == |p.pageTable|
    ensures r.pageTable[vpage] == p.pageTable[vpage].(valid := true, frameNum := p.allocatedFrames[|p.fifoSet|])
    ensures forall i :: 0 <= i < |p.pageTable| && i != vpage ==> r.pageTable[i] == p.pageTable[i]
  {
    var pt := p.pageTable;
    var frame := p.allocatedFrames[|p.fifoSet|];
    p.(pageTable := pt[vpage := pt[vpage].(frameNum := frame, valid := true)],
       fifoSet := p.fifoSet + {vpage},
       fifoQueue := p.fifoQueue + [vpage])
  }

  /** The eviction branch: at capacity the head of the queue is invalidated,
      `vpage` takes its frame, and the queue and set move on by one page. */
  function FifoEvict(p: Process, vpage: nat): (r: Process)
    requires FifoReady(p, vpage) && |p.fifoSet| >= |p.allocatedFrames| && vpage !in p.fifoSet
    ensures r == p.(pageTable := r.pageTable, fifoQueue := r.fifoQueue, fifoSet := r.fifoSet)
    ensures
      var h := p.fifoQueue[0];
      && r.fifoQueue == p.fifoQueue[1..] + [vpage]
      && r.fifoSet == (p.fifoSet - {h}) + {vpage}
      && Reassigned(p.pageTable, r.pageTable, h, vpage, p.pageTable[h].frameNum)
      && r.pageTable[h] == p.pageTable[h].(valid := h == vpage)
      && (h != vpage ==> r.pageTable[vpage] == p.pageTable[vpage].(valid := true, frameNum := p.pageTable[h].frameNum))
      && forall i :: 0 <= i < |p.pageTable| && i != h && i != vpage ==> r.pageTable[i] == p.pageTable[i]
  {
    var pt := p.pageTable;
    var h := p.fifoQueue[0];
    var frame := pt[h].frameNum;
    var pt1 := pt[h := pt[h].(valid := false)];
    p.(pageTable := pt1[vpage := pt1[vpage].(frameNum := frame, valid := true)],
       fifoSet := (p.fifoSet - {h}) + {vpage},
       fifoQueue := p.fifoQueue[1..] + [vpage])
  }

  /** One pass of the body of the `for` loop: nothing when `vpage` is
      already in the set, else the fill or the eviction branch. */
  function FifoStep(p: Process, vpage: nat): (r: Process)
    requires FifoReady(p, vpage)
    ensures vpage in p.fifoSet ==> r == p
    ensures vpage !in p.fifoSet && |p.fifoSet| < |p.allocatedFrames| ==> r == FifoFill(p, vpage)
    ensures vpage !in p.fifoSet && |p.fifoSet| >= |p.allocatedFrames| ==> r == FifoEvict(p, vpage)
  {
    if |p.fifoSet| < |p.allocatedFrames| then
      if vpage !in p.fifoSet then FifoFill(p, vpage) else p
    else if vpage !in p.fifoSet then FifoEvict(p, vpage)
    else p
  }

  /** The `for` loop over the page-table indices from `i`: the body runs
      `|pageTable| - i` times. */
  function FifoLoop(p: Process, vpage: nat, i: nat): (r: Process)
    requires FifoReady(p, vpage) && i <= |p.pageTable|
    ensures i < |p.pageTable| ==> r == FifoStep(p, vpage)
    ensures i == |p.pageTable| ==> r == p
    decreases |p.pageTable| - i
  {
    if i == |p.pageTable| then p
    else FifoLoop(FifoStep(p, vpage), vpage, i + 1)
  }

  /** `pageReplAlgorithmFIFO`: however many times its loop runs, it loads at
      most one page, exactly as one pass of the body. */
  function PageReplAlgorithmFIFO(p: Process, vpage: nat): (r: Process)
    requires FifoReady(p, vpage)
    ensures r == FifoStep(p, vpage)
  {
    FifoLoop(p, vpage, 0)
  }

  /** FIFO keeps the queue and the set in step. */
  lemma FifoKeepsSynced(p: Process, vpage: nat)
    requires FifoReady(p, vpage) && FifoSynced(p.fifoQueue, p.fifoSet)
    ensures FifoSynced(PageReplAlgorithmFIFO(p, vpage).fifoQueue, PageReplAlgorithmFIFO(p, vpage).fifoSet)
    ensures |PageReplAlgorithmFIFO(p, vpage).fifoQueue| == |PageReplAlgorithmFIFO(p, vpage).fifoSet|
  {
    var r := PageReplAlgorithmFIFO(p, vpage);
    if vpage !in p.fifoSet {
      if |p.fifoSet| >= |p.allocatedFrames| {
        PopPushKeepsSynced(p.fifoQueue, p.fifoSet, vpage);
      } else {
        PushKeepsSynced(p.fifoQueue, p.fifoSet, vpage);
      }
    }
    SyncedSize(r.fifoQueue, r.fifoSet);
  }

  /** Appending a new page to both keeps them in step. */
  lemma PushKeepsSynced(q: seq<int>, s: set<int>, x: int)
    requires FifoSynced(q, s) && x !in s
    ensures FifoSynced(q + [x], s + {x})
  {
    assert forall y :: y in q + [x] <==> y in q || y == x;
  }

  /** Dropping the head and appending a new page keeps them in step. */
  lemma PopPushKeepsSynced(q: seq<int>, s: set<int>, x: int)
    requires |q| > 0 && FifoSynced(q, s) && x !in s
    ensures FifoSynced(q[1..] + [x], (s - {q[0]}) + {x})
  {
    var t := q[1..];
    forall y
      ensures y in s - {q[0]} <==> y in t
    {
      if y in t {
        var k :| 0 <= k < |t| && t[k] == y;
        assert q[k + 1] == y;
      }
      if y in s - {q[0]} {
        var k :| 0 <= k < |q| && q[k] == y;
        assert k != 0;
        assert t[k - 1] == y;
      }
    }
    PushKeepsSynced(t, s - {q[0]}, x);
  }

  /** A queue and set in step have the same size. */
  lemma {:induction false} SyncedSize(q: seq<int>, s: set<int>)
    requires FifoSynced(q, s)
    ensures |q| == |s|
    decreases |q|
  {
    if |q| > 0 {
      var x := q[|q| - 1];
      var q' := q[..|q| - 1];
      assert FifoSynced(q', s - {x}) by {
        forall y
          ensures y in s - {x} <==> y in q'
        {
          if y in s - {x} {
            assert y in q;
            var k :| 0 <= k < |q| && q[k] == y;
            assert k < |q| - 1;
          }
        }
      }
      SyncedSize(q', s - {x});
    }
  }

  /** Every page in the queue is resident. */
  predicate QueueResident(p: Process) {
    forall k :: 0 <= k < |p.fifoQueue| ==> 0 <= p.fifoQueue[k] < |p.pageTable| && p.pageTable[p.fifoQueue[k]].valid
  }

  /** The eviction branch keeps the frame/page bijection and keeps every
      queued page resident. (The fill branch keeps neither: see
      FifoFillSharesFrame.) */
  lemma FifoEvictionKeepsFrameMap(p: Process, vpage: nat)
    requires FifoReady(p, vpage) && !p.pageTable[vpage].valid
    requires |p.fifoSet| >= |p.allocatedFrames| && vpage !in p.fifoSet
    requires FifoSynced(p.fifoQueue, p.fifoSet) && QueueResident(p)
    requires FrameMap(p.pageTable, p.allocatedFrames)
    ensures FrameMap(PageReplAlgorithmFIFO(p, vpage).pageTable, p.allocatedFrames)
    ensures QueueResident(PageReplAlgorithmFIFO(p, vpage))
  {
    var r := PageReplAlgorithmFIFO(p, vpage);
    var h := p.fifoQueue[0];
    ReassignPreservesFrameMap(p.pageTable, r.pageTable, p.allocatedFrames, h, vpage, p.pageTable[h].frameNum);
    forall k | 0 <= k < |r.fifoQueue|
      ensures 0 <= r.fifoQueue[k] < |r.pageTable| && r.pageTable[r.fifoQueue[k]].valid
    {
      if k < |r.fifoQueue| - 1 {
        assert r.fifoQueue[k] == p.fifoQueue[k + 1] != h;
      }
    }
  }

  /** Every page of `q` is resident, and the pages of `q` hold pairwise
      distinct frames among the first `|q|` of `frames`. */
  predicate QueueHolds(pt: seq<Entry>, q: seq<int>, frames: seq<int>)
    requires |q| <= |frames|
  {
    && (forall k :: 0 <= k < |q| ==> 0 <= q[k] < |pt| && pt[q[k]].valid && pt[q[k]].frameNum in frames[..|q|])
    && forall k, l :: 0 <= k < l < |q| && 0 <= q[k] < |pt| && 0 <= q[l] < |pt| ==>
         pt[q[k]].frameNum != pt[q[l]].frameNum
  }

  /** The invariant FIFO runs keep, from the empty queue and set on: the
      queue and set are in step, there are no more queued pages than frames,
      every queued page is resident, and the queued pages hold pairwise
      distinct frames among the first `|fifoQueue|` allocated ones. */
  predicate QueueFrames(p: Process) {
    && FifoSynced(p.fifoQueue, p.fifoSet)
    && |p.fifoQueue| <= |p.allocatedFrames|
    && QueueHolds(p.pageTable, p.fifoQueue, p.allocatedFrames)
  }

  /** Loading a new page into the first frame past the queued ones and
      queueing it keeps QueueHolds. */
  lemma PushKeepsQueueHolds(pt: seq<Entry>, pt': seq<Entry>, q: seq<int>, frames: seq<int>, x: nat)
    requires |q| < |frames| && DistinctFrames(frames) && QueueHolds(pt, q, frames)
    requires x < |pt| && x !in q && |pt'| == |pt|
    requires pt'[x].valid && pt'[x].frameNum == frames[|q|]
    requires forall i :: 0 <= i < |pt| && i != x ==> pt'[i] == pt[i]
    ensures QueueHolds(pt', q + [x], frames)
  {
    var n := |q|;
    var q' := q + [x];
    forall k | 0 <= k < n
      ensures q'[k] == q[k] && pt'[q[k]] == pt[q[k]]
      ensures pt[q[k]].frameNum in frames[..n + 1] && pt[q[k]].frameNum != frames[n]
    {
      assert q[k] != x;
      var j :| 0 <= j < n && frames[..n][j] == pt[q[k]].frameNum;
      assert frames[..n + 1][j] == frames[j];
    }
    assert frames[..n + 1][n] == frames[n];
  }

  /** The fill branch keeps QueueFrames: the frame it hands out,
      `allocatedFrames[fifoSet.size()]`, is the first one no queued page holds. */
  lemma FillKeepsQueueFrames(p: Process, vpage: nat)
    requires vpage < |p.pageTable| && |p.fifoSet| < |p.allocatedFrames| && vpage !in p.fifoSet
    requires QueueFrames(p) && DistinctFrames(p.allocatedFrames)
    ensures QueueFrames(FifoFill(p, vpage))
  {
    var r := FifoFill(p, vpage);
    SyncedSize(p.fifoQueue, p.fifoSet);
    PushKeepsSynced(p.fifoQueue, p.fifoSet, vpage);
    PushKeepsQueueHolds(p.pageTable, r.pageTable, p.fifoQueue, p.allocatedFrames, vpage);
  }

  /** The eviction branch keeps QueueFrames: the new page takes over the
      head's frame, which no other queued page holds. */
  lemma EvictKeepsQueueFrames(p: Process, vpage: nat)
    requires FifoReady(p, vpage) && |p.fifoSet| >= |p.allocatedFrames| && vpage !in p.fifoSet
    requires QueueFrames(p)
    ensures QueueFrames(FifoEvict(p, vpage))
  {
    var r := FifoEvict(p, vpage);
    var q := p.fifoQueue;
    var h := q[0];
    PopPushKeepsSynced(q, p.fifoSet, vpage);
    assert vpage !in q;
    forall k | 1 <= k < |q|
      ensures q[k] != h && q[k] != vpage
      ensures r.pageTable[q[k]] == p.pageTable[q[k]]
      ensures p.pageTable[q[k]].frameNum != p.pageTable[h].frameNum
    {
    }
    forall k | 0 <= k < |r.fifoQueue| - 1
      ensures r.fifoQueue[k] == q[k + 1]
    {
    }
  }

  /** Every FIFO fault keeps QueueFrames. */
  lemma FifoKeepsQueueFrames(p: Process, vpage: nat)
    requires FifoReady(p, vpage) && QueueFrames(p) && DistinctFrames(p.allocatedFrames)
    ensures QueueFrames(PageReplAlgorithmFIFO(p, vpage))
  {
    if vpage !in p.fifoSet {
      if |p.fifoSet| < |p.allocatedFrames| {
        FillKeepsQueueFrames(p, vpage);
      } else {
        EvictKeepsQueueFrames(p, vpage);
      }
    }
  }

  /** The fill branch on the first FIFO fault: page 0 was loaded into frame
      7 by `addPageFrame` (which does not touch the FIFO queue), so the set
      is empty while the frame list is full, and FIFO loads page 1 into
      frame 7 too, without invalidating page 0. */
  lemma FifoFillSharesFrame()
    ensures
      var e0 := Entry(true, 7, true, 1, 0);
      var e1 := Entry(false, 0, false, 0, 0);
      var p := Process([e0, e1], [7], 0, [], {});
      var r := PageReplAlgorithmFIFO(p, 1);
      && FrameMap(p.pageTable, p.allocatedFrames)
      && Holds(r.pageTable[0], 7) && Holds(r.pageTable[1], 7)
      && !FrameMap(r.pageTable, r.allocatedFrames)
  {
    var e0 := Entry(true, 7, true, 1, 0);
    var e1 := Entry(false, 0, false, 0, 0);
    var p := Process([e0, e1], [7], 0, [], {});
    assert FindVPage(p.pageTable, 7) == 0;
  }
}
