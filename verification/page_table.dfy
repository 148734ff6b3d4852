/** The per-process state the page-replacement engine works on: the page
    table, the list of allocated frames, the rotation cursor shared by CLOCK
    and COUNT, and the FIFO queue/set pair. Also the frame lookup
    (`findvPage`), the access recorder (`doneMemAccess`) and the frame/page
    bijection that the policies are meant to keep. */
module PageTable {

  /** One page-table entry. The simulator keeps the time stamp as a double;
      here it is an integer time. `count` is unbounded (see README). */
  datatype Entry = Entry(valid: bool, frameNum: int, used: bool, count: nat, tmStamp: int)

  /** The fields of a process that the engine reads and writes. A null
      `allocatedFrames` array is the empty sequence. */
  datatype Process = Process(
    pageTable: seq<Entry>,
    allocatedFrames: seq<int>,
    framePtr: nat,
    fifoQueue: seq<int>,
    fifoSet: set<int>)

  /** Entry `e` is resident in frame `fr`. */
  predicate Holds(e: Entry, fr: int) {
    e.valid && e.frameNum == fr
  }

  /** The linear search of `findvPage`, from index `i` on. */
  function FindVPageFrom(pt: seq<Entry>, fr: int, i: nat): (r: int)
    requires i <= |pt|
    ensures r == -1 || (i <= r < |pt| && Holds(pt[r], fr))
    decreases |pt| - i
  {
    if i == |pt| then -1
    else if pt[i].valid && pt[i].frameNum == fr then i
    else FindVPageFrom(pt, fr, i + 1)
  }

  /** The search from `i` answers the first index from `i` on holding `fr`,
      and -1 exactly when there is none. */
  lemma {:induction false} FindVPageFromSpec(pt: seq<Entry>, fr: int, i: nat)
    requires i <= |pt|
    ensures var r := FindVPageFrom(pt, fr, i);
      && (r == -1 <==> forall k :: i <= k < |pt| ==> !Holds(pt[k], fr))
      && (r != -1 ==> forall k :: i <= k < r ==> !Holds(pt[k], fr))
    decreases |pt| - i
  {
    if i < |pt| && !Holds(pt[i], fr) {
      FindVPageFromSpec(pt, fr, i + 1);
    }
  }

  /** `findvPage`: the smallest index of a valid entry holding frame `fr`,
      or -1 when no valid entry holds it (FindVPageSpec). */
  function FindVPage(pt: seq<Entry>, fr: int): (r: int)
    ensures -1 <= r < |pt|
    ensures r != -1 ==> Holds(pt[r], fr)
  {
    FindVPageFrom(pt, fr, 0)
  }

  /** `findvPage` answers -1 exactly when no valid entry holds `fr`, and
      otherwise the smallest index of one that does. */
  lemma FindVPageSpec(pt: seq<Entry>, fr: int)
    ensures var r := FindVPage(pt, fr);
      && (r == -1 <==> forall k :: 0 <= k < |pt| ==> !Holds(pt[k], fr))
      && (r != -1 ==> forall k :: 0 <= k < r ==> !Holds(pt[k], fr))
  {
    FindVPageFromSpec(pt, fr, 0);
  }

  /** A valid entry holding `fr` is found, at its index or before. */
  lemma HolderFound(pt: seq<Entry>, fr: int, h: nat)
    requires h < |pt| && Holds(pt[h], fr)
    ensures 0 <= FindVPage(pt, fr) <= h
  {
    FindVPageSpec(pt, fr);
  }

  /** Two tables agree on which page sits in which frame; `used`, `count`
      and `tmStamp` may differ. */
  predicate SameResidency(pt: seq<Entry>, pt': seq<Entry>) {
    && |pt'| == |pt|
    && forall i :: 0 <= i < |pt| ==> pt'[i].valid == pt[i].valid && pt'[i].frameNum == pt[i].frameNum
  }

  /** The lookup only looks at residency. */
  lemma FindVPageResidency(pt: seq<Entry>, pt': seq<Entry>, fr: int)
    requires SameResidency(pt, pt')
    ensures FindVPage(pt', fr) == FindVPage(pt, fr)
  {
    var r, r' := FindVPage(pt, fr), FindVPage(pt', fr);
    FindVPageSpec(pt, fr);
    FindVPageSpec(pt', fr);
    if r != -1 {
      assert Holds(pt'[r], fr);
    }
    if r' != -1 {
      assert Holds(pt[r'], fr);
    }
  }

  /** Every allocated frame is held by some valid entry: what CLOCK and COUNT
      need so that `findvPage` never answers -1 during their sweeps. */
  predicate AllFramesMapped(pt: seq<Entry>, frames: seq<int>) {
    forall k :: 0 <= k < |frames| ==> FindVPage(pt, frames[k]) != -1
  }

  predicate DistinctFrames(frames: seq<int>) {
    forall k, l :: 0 <= k < l < |frames| ==> frames[k] != frames[l]
  }

  /** The frame/page bijection: no frame is listed twice, no two valid
      entries share a frame, every valid entry's frame is allocated, and
      every allocated frame is held by a valid entry. */
  ghost predicate FrameMap(pt: seq<Entry>, frames: seq<int>) {
    && DistinctFrames(frames)
    && (forall i, j :: 0 <= i < |pt| && 0 <= j < |pt| && i != j && pt[i].valid && pt[j].valid ==>
          pt[i].frameNum != pt[j].frameNum)
    && (forall i :: 0 <= i < |pt| && pt[i].valid ==> pt[i].frameNum in frames)
    && AllFramesMapped(pt, frames)
  }

  /** Residency after a replacement: `vpage` now holds `frame`, the victim is
      no longer resident, and no other entry changed frame or validity. */
  predicate Reassigned(pt: seq<Entry>, pt': seq<Entry>, victim: nat, vpage: nat, frame: int)
    requires victim < |pt| && vpage < |pt|
  {
    && |pt'| == |pt|
    && Holds(pt'[vpage], frame)
    && (victim != vpage ==> !pt'[victim].valid)
    && forall i :: 0 <= i < |pt| && i != victim && i != vpage ==>
         pt'[i].valid == pt[i].valid && pt'[i].frameNum == pt[i].frameNum
  }

  /** Handing a resident victim's frame to a non-resident page keeps the
      bijection. Every policy's eviction step is an instance. */
  lemma ReassignPreservesFrameMap(pt: seq<Entry>, pt': seq<Entry>, frames: seq<int>,
                                  victim: nat, vpage: nat, frame: int)
    requires victim < |pt| && vpage < |pt|
    requires FrameMap(pt, frames)
    requires Holds(pt[victim], frame) && !pt[vpage].valid
    requires Reassigned(pt, pt', victim, vpage, frame)
    ensures FrameMap(pt', frames)
  {
    forall i, j | 0 <= i < |pt'| && 0 <= j < |pt'| && i != j && pt'[i].valid && pt'[j].valid
      ensures pt'[i].frameNum != pt'[j].frameNum
    {
      if i == vpage {
        assert j != victim;
      } else if j == vpage {
        assert i != victim;
      }
    }
    forall k | 0 <= k < |frames|
      ensures FindVPage(pt', frames[k]) != -1
    {
      if frames[k] == frame {
        HolderFound(pt', frames[k], vpage);
      } else {
        var h := FindVPage(pt, frames[k]);
        assert h != victim && h != vpage;
        HolderFound(pt', frames[k], h);
      }
    }
  }

  /** `doneMemAccess`: record one access to `vpage` at time `clock`. */
  function DoneMemAccess(p: Process, vpage: nat, clock: int): (r: Process)
    requires vpage < |p.pageTable|
    ensures r == p.(pageTable := r.pageTable)
    ensures |r.pageTable| == |p.pageTable|
    ensures r.pageTable[vpage].used
    ensures r.pageTable[vpage].tmStamp == clock
    ensures r.pageTable[vpage].count == p.pageTable[vpage].count + 1
    ensures SameResidency(p.pageTable, r.pageTable)
    ensures forall i :: 0 <= i < |p.pageTable| && i != vpage ==> r.pageTable[i] == p.pageTable[i]
  {
    var e := p.pageTable[vpage];
    p.(pageTable := p.pageTable[vpage := e.(used := true, tmStamp := clock, count := e.count + 1)])
  }

  /** Recording an access never moves a page: the lookup answers as before
      for every frame, and the bijection is kept. */
  lemma DoneMemAccessKeepsFrameMap(p: Process, vpage: nat, clock: int)
    requires vpage < |p.pageTable|
    requires FrameMap(p.pageTable, p.allocatedFrames)
    ensures forall fr :: FindVPage(DoneMemAccess(p, vpage, clock).pageTable, fr) == FindVPage(p.pageTable, fr)
    ensures FrameMap(DoneMemAccess(p, vpage, clock).pageTable, p.allocatedFrames)
  {
    var pt' := DoneMemAccess(p, vpage, clock).pageTable;
    forall fr
      ensures FindVPage(pt', fr) == FindVPage(p.pageTable, fr)
    {
      FindVPageResidency(p.pageTable, pt', fr);
    }
  }
}
