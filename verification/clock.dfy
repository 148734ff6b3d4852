/** `pageReplAlgorithmCLOCK`: the second-chance sweep over `allocatedFrames`
    from the cursor `framePtr`. */
module ClockPolicy {
  import opened PageTable
  import opened FrameRing

  /** The pages whose reference bit is set. Each skip of the sweep removes
      one of them, which is why the sweep ends. */
  function UsedPages(pt: seq<Entry>): (used: set<nat>) {
    set i: nat | i < |pt| && pt[i].used
  }

  /** Clearing a set reference bit removes exactly that page from the set. */
  lemma ClearShrinksUsed(pt: seq<Entry>, v: nat)
    requires v < |pt| && pt[v].used
    ensures UsedPages(pt[v := pt[v].(used := false)]) == UsedPages(pt) - {v}
    ensures |UsedPages(pt[v := pt[v].(used := false)])| == |UsedPages(pt)| - 1
  {
    assert UsedPages(pt[v := pt[v].(used := false)]) == UsedPages(pt) - {v};
  }

  /** Install `vpage` in `frame` in place of `victim`, as the replace branch
      does: the victim is invalidated first, then `vpage` gets the frame,
      the valid bit and the reference bit. */
  function ClockInstall(pt: seq<Entry>, victim: nat, frame: int, vpage: nat): (t: seq<Entry>)
    requires victim < |pt| && vpage < |pt|
  {
    var pt1 := pt[victim := pt[victim].(valid := false)];
    pt1[vpage := pt1[vpage].(frameNum := frame, valid := true, used := true)]
  }

  /** Where the sweep stopped: the new table, the slot whose frame was
      reused and the page that was evicted from it. */
  datatype ClockOutcome = ClockOutcome(table: seq<Entry>, victimSlot: nat, victim: nat)

  /** What any run of the loop from table `pt` delivers: the victim is the
      page `findvPage` gives for the victim slot's frame, `vpage` now holds
      that frame with its reference bit set, the victim is gone, and every
      other entry at most lost its reference bit. */
  predicate ClockPost(pt: seq<Entry>, frames: seq<int>, vpage: nat, r: ClockOutcome)
    requires vpage < |pt|
  {
    && r.victimSlot < |frames| && r.victim < |pt| && |r.table| == |pt|
    && r.victim == FindVPage(pt, frames[r.victimSlot])
    && Reassigned(pt, r.table, r.victim, vpage, frames[r.victimSlot])
    && r.table[vpage].used
    && forall i :: 0 <= i < |pt| && i != r.victim && i != vpage ==>
         r.table[i] == pt[i].(used := r.table[i].used) && (r.table[i].used ==> pt[i].used)
  }

  /** A skip (clearing the reference bit of the page met) does not change
      what the rest of the loop delivers, seen from before the skip. */
  lemma SkipKeepsPost(pt: seq<Entry>, frames: seq<int>, v: nat, vpage: nat, r: ClockOutcome)
    requires v < |pt| && vpage < |pt| && pt[v].used
    requires ClockPost(pt[v := pt[v].(used := false)], frames, vpage, r)
    ensures ClockPost(pt, frames, vpage, r)
  {
    var pt1 := pt[v := pt[v].(used := false)];
    FindVPageResidency(pt, pt1, frames[r.victimSlot]);
  }

  lemma InstallPost(pt: seq<Entry>, frames: seq<int>, ptr: nat, vpage: nat)
    requires ptr < |frames| && vpage < |pt|
    requires FindVPage(pt, frames[ptr]) != -1
    ensures ClockPost(pt, frames, vpage,
      ClockOutcome(ClockInstall(pt, FindVPage(pt, frames[ptr]), frames[ptr], vpage), ptr, FindVPage(pt, frames[ptr])))
  {
  }

  /** The `while(true)` loop, one iteration per call, from cursor `ptr`. */
  function ClockSweep(pt: seq<Entry>, frames: seq<int>, ptr: nat, vpage: nat): (r: ClockOutcome)
    requires SweepReady(pt, frames, ptr) && vpage < |pt|
    ensures ClockPost(pt, frames, vpage, r)
    decreases UsedPages(pt)
  {
    var frame := frames[ptr];
    var v := FindVPage(pt, frame);
    if pt[v].used then
      var pt1 := pt[v := pt[v].(used := false)];
      ClearShrinksUsed(pt, v);
      PageAtResidency(pt, pt1, frames, ptr, 0);
      var r := ClockSweep(pt1, frames, Advance(ptr, |frames|), vpage);
      SkipKeepsPost(pt, frames, v, vpage, r);
      r
    else
      InstallPost(pt, frames, ptr, vpage);
      ClockOutcome(ClockInstall(pt, v, frame, vpage), ptr, v)
  }

  /** `pageReplAlgorithmCLOCK` on a process: run the sweep from `framePtr`
      and leave the cursor one past the victim's slot. */
  function PageReplAlgorithmCLOCK(p: Process, vpage: nat): (r: Process)
    requires vpage < |p.pageTable| && SweepReady(p.pageTable, p.allocatedFrames, p.framePtr)
    ensures r == p.(pageTable := r.pageTable, framePtr := r.framePtr)
    ensures r.framePtr < |p.allocatedFrames|
    ensures
      var s := Behind(r.framePtr, |p.allocatedFrames|);
      var v := FindVPage(p.pageTable, p.allocatedFrames[s]);
      && 0 <= v
      && Reassigned(p.pageTable, r.pageTable, v, vpage, p.allocatedFrames[s])
      && r.pageTable[vpage].used
      && forall i :: 0 <= i < |p.pageTable| && i != v && i != vpage ==>
           r.pageTable[i] == p.pageTable[i].(used := r.pageTable[i].used)
           && (r.pageTable[i].used ==> p.pageTable[i].used)
  {
    var o := ClockSweep(p.pageTable, p.allocatedFrames, p.framePtr, vpage);
    p.(pageTable := o.table, framePtr := Advance(o.victimSlot, |p.allocatedFrames|))
  }

  /** Offset, from `j` on, of the first page met whose reference bit is
      clear, or `n` when every page met has it set. */
  function FirstUnused(pt: seq<Entry>, frames: seq<int>, start: nat, j: nat): (u: nat)
    requires SweepReady(pt, frames, start) && j <= |frames|
    ensures j <= u <= |frames|
    ensures forall o :: j <= o < u ==> pt[PageAt(pt, frames, start, o)].used
    ensures u < |frames| ==> !pt[PageAt(pt, frames, start, u)].used
    decreases |frames| - j
  {
    if j == |frames| then j
    else if !pt[PageAt(pt, frames, start, j)].used then j
    else FirstUnused(pt, frames, start, j + 1)
  }

  /** Reference outcome of a CLOCK sweep from `start`: the pages of the first
      `u` offsets lose their reference bit and the page at offset `u` is the
      victim, where `u` is the first offset whose page has the bit clear
      (offset `n`, the start slot again, when all had it set). */
  function ClockReference(pt: seq<Entry>, frames: seq<int>, start: nat, vpage: nat): (ref: ClockOutcome)
    requires SweepReady(pt, frames, start) && vpage < |pt|
  {
    var u := FirstUnused(pt, frames, start, 0);
    var v := PageAt(pt, frames, start, u);
    var s := Slot(|frames|, start, u);
    ClockOutcome(ClockInstall(MarkUpTo(pt, frames, start, u, ClearUsed), v, frames[s], vpage), s, v)
  }

  /** The page met at offset `k` of the loop, entered after `k` skips, is
      the one `findvPage` gives on the original table; its reference bit is
      still the original one unless it was met at offset 0 of a full turn. */
  lemma ClockMeets(pt: seq<Entry>, frames: seq<int>, start: nat, k: nat)
    requires SweepReady(pt, frames, start) && DistinctFrames(frames) && k <= |frames|
    ensures SweepReady(MarkUpTo(pt, frames, start, k, ClearUsed), frames, Slot(|frames|, start, k))
    ensures
      var ptk := MarkUpTo(pt, frames, start, k, ClearUsed);
      var v := PageAt(pt, frames, start, k);
      && FindVPage(ptk, frames[Slot(|frames|, start, k)]) == v
      && ptk[v].used == (k < |frames| && pt[v].used)
  {
    var ptk := MarkUpTo(pt, frames, start, k, ClearUsed);
    var ptr := Slot(|frames|, start, k);
    PageAtResidency(pt, ptk, frames, start, k);
    PageAtResidency(ptk, ptk, frames, ptr, 0);
    var v := PageAt(pt, frames, start, k);
    MarkUpToEntry(pt, frames, start, k, ClearUsed, v);
    if k < |frames| {
      FirstVisit(pt, frames, start, k);
    } else {
      assert v == PageAt(pt, frames, start, 0);
      assert Visited(pt, frames, start, k, v);
    }
  }

  /** One skip: the loop after `k` skips continues as the loop after `k + 1`. */
  lemma ClockSkip(pt: seq<Entry>, frames: seq<int>, start: nat, vpage: nat, k: nat)
    requires SweepReady(pt, frames, start) && DistinctFrames(frames) && vpage < |pt|
    requires k < |frames| && pt[PageAt(pt, frames, start, k)].used
    ensures SweepReady(MarkUpTo(pt, frames, start, k, ClearUsed), frames, Slot(|frames|, start, k))
    ensures SweepReady(MarkUpTo(pt, frames, start, k + 1, ClearUsed), frames, Slot(|frames|, start, k + 1))
    ensures ClockSweep(MarkUpTo(pt, frames, start, k, ClearUsed), frames, Slot(|frames|, start, k), vpage)
            == ClockSweep(MarkUpTo(pt, frames, start, k + 1, ClearUsed), frames, Slot(|frames|, start, k + 1), vpage)
  {
    ClockMeets(pt, frames, start, k);
    ClockMeets(pt, frames, start, k + 1);
    SlotStep(|frames|, start, k);
  }

  /** The stop: the loop after `u` skips replaces the page it meets. */
  lemma ClockStop(pt: seq<Entry>, frames: seq<int>, start: nat, vpage: nat)
    requires SweepReady(pt, frames, start) && DistinctFrames(frames) && vpage < |pt|
    ensures
      var u := FirstUnused(pt, frames, start, 0);
      && SweepReady(MarkUpTo(pt, frames, start, u, ClearUsed), frames, Slot(|frames|, start, u))
      && ClockSweep(MarkUpTo(pt, frames, start, u, ClearUsed), frames, Slot(|frames|, start, u), vpage)
         == ClockReference(pt, frames, start, vpage)
  {
    ClockMeets(pt, frames, start, FirstUnused(pt, frames, start, 0));
  }

  /** The loop, entered after its first `k` skips, ends in the reference
      outcome. */
  lemma {:induction false} ClockSweepFrom(pt: seq<Entry>, frames: seq<int>, start: nat, vpage: nat, k: nat)
    requires SweepReady(pt, frames, start) && DistinctFrames(frames) && vpage < |pt|
    requires k <= FirstUnused(pt, frames, start, 0)
    ensures SweepReady(MarkUpTo(pt, frames, start, k, ClearUsed), frames, Slot(|frames|, start, k))
    ensures ClockSweep(MarkUpTo(pt, frames, start, k, ClearUsed), frames, Slot(|frames|, start, k), vpage)
            == ClockReference(pt, frames, start, vpage)
    decreases |frames| - k
  {
    var u := FirstUnused(pt, frames, start, 0);
    if k < u {
      ClockSkip(pt, frames, start, vpage, k);
      ClockSweepFrom(pt, frames, start, vpage, k + 1);
    } else {
      assert k == u;
      ClockStop(pt, frames, start, vpage);
    }
  }

  /** The table of the reference outcome, entry by entry: the victim is
      gone with its reference bit clear, `vpage` holds the victim's frame
      with the bit set, the pages passed over lost the bit, and every other
      entry is untouched. */
  lemma ClockReferenceEntries(pt: seq<Entry>, frames: seq<int>, start: nat, vpage: nat)
    requires SweepReady(pt, frames, start) && DistinctFrames(frames) && vpage < |pt| && !pt[vpage].valid
    ensures
      var u := FirstUnused(pt, frames, start, 0);
      var v := PageAt(pt, frames, start, u);
      var s := Slot(|frames|, start, u);
      var ref := ClockReference(pt, frames, start, vpage);
      && ref.victimSlot == s && ref.victim == v
      && ref.table[v] == pt[v].(valid := false, used := false)
      && ref.table[vpage] == pt[vpage].(frameNum := frames[s], valid := true, used := true)
      && forall i :: 0 <= i < |pt| && i != v && i != vpage ==>
           ref.table[i] == if Visited(pt, frames, start, u, i) then pt[i].(used := false) else pt[i]
  {
    var u := FirstUnused(pt, frames, start, 0);
    forall i | 0 <= i < |pt|
      ensures MarkUpTo(pt, frames, start, u, ClearUsed)[i]
              == if Visited(pt, frames, start, u, i) then pt[i].(used := false) else pt[i]
    {
      MarkUpToEntry(pt, frames, start, u, ClearUsed, i);
    }
    ClockMeets(pt, frames, start, u);
    VisitedResident(pt, frames, start, u, vpage);
  }

  /** The victim is the page of the first frame from `framePtr` whose
      reference bit is clear (the `framePtr` frame itself when all were
      set); it leaves with its bit clear, `vpage` takes its frame with the
      bit set and keeps its count and time stamp, every page passed over
      before it has its bit cleared, every other entry is unchanged, and the
      cursor ends one past the victim's slot. */
  lemma ClockVictimIsFirstUnused(p: Process, vpage: nat)
    requires vpage < |p.pageTable| && SweepReady(p.pageTable, p.allocatedFrames, p.framePtr)
    requires DistinctFrames(p.allocatedFrames) && !p.pageTable[vpage].valid
    ensures
      var pt, frames, start := p.pageTable, p.allocatedFrames, p.framePtr;
      var u := FirstUnused(pt, frames, start, 0);
      var v := PageAt(pt, frames, start, u);
      var r := PageReplAlgorithmCLOCK(p, vpage);
      && r.framePtr == Advance(Slot(|frames|, start, u), |frames|)
      && Holds(pt[v], frames[Slot(|frames|, start, u)])
      && r.pageTable[v] == pt[v].(valid := false, used := false)
      && r.pageTable[vpage] == pt[vpage].(frameNum := frames[Slot(|frames|, start, u)], valid := true, used := true)
      && forall i :: 0 <= i < |pt| && i != v && i != vpage ==>
           r.pageTable[i] == if Visited(pt, frames, start, u, i) then pt[i].(used := false) else pt[i]
  {
    var pt, frames, start := p.pageTable, p.allocatedFrames, p.framePtr;
    ClockSweepFrom(pt, frames, start, vpage, 0);
    ClockReferenceEntries(pt, frames, start, vpage);
  }

  /** CLOCK keeps the frame/page bijection. */
  lemma ClockKeepsFrameMap(p: Process, vpage: nat)
    requires vpage < |p.pageTable| && SweepReady(p.pageTable, p.allocatedFrames, p.framePtr)
    requires FrameMap(p.pageTable, p.allocatedFrames) && !p.pageTable[vpage].valid
    ensures FrameMap(PageReplAlgorithmCLOCK(p, vpage).pageTable, p.allocatedFrames)
  {
    var r := PageReplAlgorithmCLOCK(p, vpage);
    var s := Behind(r.framePtr, |p.allocatedFrames|);
    var v := FindVPage(p.pageTable, p.allocatedFrames[s]);
    ReassignPreservesFrameMap(p.pageTable, r.pageTable, p.allocatedFrames, v, vpage, p.allocatedFrames[s]);
  }
}
