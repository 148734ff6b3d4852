/** `pageReplAlgorithmCOUNT`: one turn of the ring from `framePtr` that
    evicts the first page with count 0, aging (count / 3) every other page
    it passes, and otherwise evicts the page with the lowest count met. */
module CountPolicy {
  import opened Wrappers
  import opened PageTable
  import opened FrameRing

  /** The fallback candidate: a page met and its count when it was met. */
  datatype Candidate = Candidate(page: nat, count: nat)

  /** Install `vpage` in `frame` in place of `victim`: the victim is
      invalidated first, then `vpage` gets the frame, the valid and
      reference bits, and the reset count 3. */
  function CountInstall(pt: seq<Entry>, victim: nat, frame: int, vpage: nat): (t: seq<Entry>)
    requires victim < |pt| && vpage < |pt|
  {
    var pt1 := pt[victim := pt[victim].(valid := false)];
    pt1[vpage := pt1[vpage].(frameNum := frame, valid := true, used := true, count := 3)]
  }

  /** How the method ended: the new table and cursor, the evicted page, and
      whether it was evicted for having count 0 (`return` inside the loop)
      or as the fallback after the loop. */
  datatype CountOutcome = CountOutcome(table: seq<Entry>, framePtr: nat, victim: nat, zeroFound: bool)

  /** Number of loop iterations left before the cursor, now at `ptr`, is
      back at `start` (a full turn when `ptr == start`). */
  function Remaining(ptr: nat, start: nat, n: nat): (k: nat)
    requires ptr < n && start < n
  {
    if ptr < start then start - ptr else start + n - ptr
  }

  /** Replacing `victim` by `vpage`: the victim was resident and is gone,
      `vpage` has its frame, the reference bit and count 3, and every
      other entry at most had its count lowered. */
  predicate CountReplaced(pt: seq<Entry>, pt': seq<Entry>, victim: nat, vpage: nat)
    requires victim < |pt| && vpage < |pt|
  {
    && pt[victim].valid
    && Reassigned(pt, pt', victim, vpage, pt[victim].frameNum)
    && pt'[vpage].used && pt'[vpage].count == 3
    && forall i :: 0 <= i < |pt| && i != victim && i != vpage ==>
         pt'[i] == pt[i].(count := pt'[i].count) && pt'[i].count <= pt[i].count
  }

  /** What any run of the loop from cursor `ptr` delivers. */
  predicate CountPost(pt: seq<Entry>, frames: seq<int>, start: nat, vpage: nat, r: CountOutcome)
    requires vpage < |pt| && start < |frames|
  {
    && r.victim < |pt| && r.framePtr < |frames|
    && CountReplaced(pt, r.table, r.victim, vpage)
    && (r.zeroFound ==> r.victim == FindVPage(pt, frames[Behind(r.framePtr, |frames|)]))
    && (!r.zeroFound ==> r.framePtr == Advance(start, |frames|))
  }

  /** Aging the page met does not change what the rest of the loop
      delivers, seen from before the aging. */
  lemma AgeKeepsPost(pt: seq<Entry>, frames: seq<int>, start: nat, v: nat, vpage: nat, r: CountOutcome)
    requires v < |pt| && vpage < |pt| && start < |frames|
    requires CountPost(pt[v := pt[v].(count := pt[v].count / 3)], frames, start, vpage, r)
    ensures CountPost(pt, frames, start, vpage, r)
  {
    var pt1 := pt[v := pt[v].(count := pt[v].count / 3)];
    if r.zeroFound {
      FindVPageResidency(pt, pt1, frames[Behind(r.framePtr, |frames|)]);
    }
  }

  lemma ZeroPost(pt: seq<Entry>, frames: seq<int>, start: nat, ptr: nat, vpage: nat)
    requires SweepReady(pt, frames, ptr) && start < |frames| && vpage < |pt|
    requires pt[FindVPage(pt, frames[ptr])].count == 0
    ensures
      var v := FindVPage(pt, frames[ptr]);
      CountPost(pt, frames, start, vpage,
        CountOutcome(CountInstall(pt, v, frames[ptr], vpage), Advance(ptr, |frames|), v, true))
  {
  }

  lemma FallbackPost(pt: seq<Entry>, frames: seq<int>, start: nat, w: nat, vpage: nat)
    requires w < |pt| && vpage < |pt| && start < |frames| && pt[w].valid
    ensures
      CountPost(pt, frames, start, vpage,
        CountOutcome(CountInstall(pt, w, pt[w].frameNum, vpage), Advance(start, |frames|), w, false))
  {
  }

  /** The `while(true)` loop, one iteration per call, with the cursor at
      `ptr` and `lowest` the candidate so far (`None` stands for the
      initial `Long.MAX_VALUE`); the code after the loop is the fallback
      branch. CountSweepPost states what it delivers. */
  function CountSweep(pt: seq<Entry>, frames: seq<int>, start: nat, ptr: nat,
                      lowest: Option<Candidate>, vpage: nat): (r: CountOutcome)
    requires SweepReady(pt, frames, ptr) && start < |frames| && vpage < |pt|
    requires lowest.Some? ==> lowest.value.page < |pt| && pt[lowest.value.page].valid
    decreases Remaining(ptr, start, |frames|)
  {
    var n := |frames|;
    var frame := frames[ptr];
    var v := FindVPage(pt, frame);
    var c := pt[v].count;
    var lowest' := if lowest.None? || c < lowest.value.count then Some(Candidate(v, c)) else lowest;
    if c == 0 then
      CountOutcome(CountInstall(pt, v, frame, vpage), Advance(ptr, n), v, true)
    else
      var pt1 := pt[v := pt[v].(count := c / 3)];
      var next := Advance(ptr, n);
      PageAtResidency(pt, pt1, frames, ptr, 0);
      if next == start then
        var w := lowest'.value.page;
        CountOutcome(CountInstall(pt1, w, pt1[w].frameNum, vpage), Advance(next, n), w, false)
      else
        PageAtResidency(pt1, pt1, frames, next, 0);
        CountSweep(pt1, frames, start, next, lowest', vpage)
  }

  /** Every run of the loop evicts a resident page in favour of `vpage`,
      lowering at most the counts of the others; a stop on count 0 leaves
      the cursor one past the victim's slot, the fallback one past `start`. */
  lemma {:induction false} CountSweepPost(pt: seq<Entry>, frames: seq<int>, start: nat, ptr: nat,
                                          lowest: Option<Candidate>, vpage: nat)
    requires SweepReady(pt, frames, ptr) && start < |frames| && vpage < |pt|
    requires lowest.Some? ==> lowest.value.page < |pt| && pt[lowest.value.page].valid
    ensures CountPost(pt, frames, start, vpage, CountSweep(pt, frames, start, ptr, lowest, vpage))
    decreases Remaining(ptr, start, |frames|)
  {
    var n := |frames|;
    var v := FindVPage(pt, frames[ptr]);
    var c := pt[v].count;
    var lowest' := if lowest.None? || c < lowest.value.count then Some(Candidate(v, c)) else lowest;
    if c == 0 {
      ZeroPost(pt, frames, start, ptr, vpage);
    } else {
      var pt1 := pt[v := pt[v].(count := c / 3)];
      var next := Advance(ptr, n);
      PageAtResidency(pt, pt1, frames, ptr, 0);
      if next == start {
        var w := lowest'.value.page;
        FallbackPost(pt1, frames, start, w, vpage);
        AgeKeepsPost(pt, frames, start, v, vpage,
          CountOutcome(CountInstall(pt1, w, pt1[w].frameNum, vpage), Advance(next, n), w, false));
      } else {
        PageAtResidency(pt1, pt1, frames, next, 0);
        CountSweepPost(pt1, frames, start, next, lowest', vpage);
        AgeKeepsPost(pt, frames, start, v, vpage, CountSweep(pt1, frames, start, next, lowest', vpage));
      }
    }
  }

  /** `pageReplAlgorithmCOUNT` on a process. */
  function PageReplAlgorithmCOUNT(p: Process, vpage: nat): (r: Process)
    requires vpage < |p.pageTable| && SweepReady(p.pageTable, p.allocatedFrames, p.framePtr)
    ensures r == p.(pageTable := r.pageTable, framePtr := r.framePtr)
    ensures r.framePtr < |p.allocatedFrames|
    ensures exists v :: 0 <= v < |p.pageTable| && CountReplaced(p.pageTable, r.pageTable, v, vpage)
    ensures r.framePtr != Advance(p.framePtr, |p.allocatedFrames|) ==>
      var v := FindVPage(p.pageTable, p.allocatedFrames[Behind(r.framePtr, |p.allocatedFrames|)]);
      0 <= v && CountReplaced(p.pageTable, r.pageTable, v, vpage)
  {
    CountSweepPost(p.pageTable, p.allocatedFrames, p.framePtr, p.framePtr, None, vpage);
    var o := CountSweep(p.pageTable, p.allocatedFrames, p.framePtr, p.framePtr, None, vpage);
    p.(pageTable := o.table, framePtr := o.framePtr)
  }

  /** The count of the page met at offset `o` of the turn from `start`. */
  function CountAt(pt: seq<Entry>, frames: seq<int>, start: nat, o: nat): (c: nat)
    requires SweepReady(pt, frames, start) && o <= |frames|
  {
    pt[PageAt(pt, frames, start, o)].count
  }

  /** Offset, from `j` on, of the first page met with count 0, or `n`. */
  function FirstZero(pt: seq<Entry>, frames: seq<int>, start: nat, j: nat): (z: nat)
    requires SweepReady(pt, frames, start) && j <= |frames|
    ensures j <= z <= |frames|
    ensures forall o :: j <= o < z ==> CountAt(pt, frames, start, o) != 0
    ensures z < |frames| ==> CountAt(pt, frames, start, z) == 0
    decreases |frames| - j
  {
    if j == |frames| then j
    else if CountAt(pt, frames, start, j) == 0 then j
    else FirstZero(pt, frames, start, j + 1)
  }

  /** Offset, among the first `k`, of the first page met with the lowest
      count: no earlier page has a count as low, no later one a lower. */
  function FirstMinOffset(pt: seq<Entry>, frames: seq<int>, start: nat, k: nat): (m: nat)
    requires SweepReady(pt, frames, start) && 0 < k <= |frames|
    ensures m < k
    ensures forall o :: 0 <= o < k ==> CountAt(pt, frames, start, m) <= CountAt(pt, frames, start, o)
    ensures forall o :: 0 <= o < m ==> CountAt(pt, frames, start, m) < CountAt(pt, frames, start, o)
    decreases k
  {
    if k == 1 then 0
    else
      var m := FirstMinOffset(pt, frames, start, k - 1);
      if CountAt(pt, frames, start, k - 1) < CountAt(pt, frames, start, m) then k - 1 else m
  }

  /** The candidate the loop holds after `k` iterations. */
  function LowestAfter(pt: seq<Entry>, frames: seq<int>, start: nat, k: nat): (l: Option<Candidate>)
    requires SweepReady(pt, frames, start) && k <= |frames|
    ensures l.Some? ==> l.value.page < |pt| && pt[l.value.page].valid
  {
    if k == 0 then None
    else
      var m := FirstMinOffset(pt, frames, start, k);
      Some(Candidate(PageAt(pt, frames, start, m), CountAt(pt, frames, start, m)))
  }

  /** Reference outcome of a COUNT turn from `start`: with `z` the first
      offset whose page has count 0, the pages before it are aged and it is
      evicted, the cursor one past its slot; with no such offset, every page
      of the turn is aged, the first page of lowest count is evicted, and
      the cursor ends one past `start`. */
  function CountReference(pt: seq<Entry>, frames: seq<int>, start: nat, vpage: nat): (ref: CountOutcome)
    requires SweepReady(pt, frames, start) && vpage < |pt|
  {
    var n := |frames|;
    var z := FirstZero(pt, frames, start, 0);
    if z < n then
      var v := PageAt(pt, frames, start, z);
      var s := Slot(n, start, z);
      CountOutcome(CountInstall(MarkUpTo(pt, frames, start, z, Age), v, frames[s], vpage), Advance(s, n), v, true)
    else
      var m := FirstMinOffset(pt, frames, start, n);
      var w := PageAt(pt, frames, start, m);
      CountOutcome(CountInstall(MarkUpTo(pt, frames, start, n, Age), w, frames[Slot(n, start, m)], vpage),
                   Advance(start, n), w, false)
  }

  /** The page met at offset `k` of the loop, entered after `k` agings, is
      the one `findvPage` gives on the original table, with its original
      count. */
  lemma CountMeets(pt: seq<Entry>, frames: seq<int>, start: nat, k: nat)
    requires SweepReady(pt, frames, start) && DistinctFrames(frames) && k < |frames|
    ensures SweepReady(MarkUpTo(pt, frames, start, k, Age), frames, Slot(|frames|, start, k))
    ensures
      var ptk := MarkUpTo(pt, frames, start, k, Age);
      var v := PageAt(pt, frames, start, k);
      && FindVPage(ptk, frames[Slot(|frames|, start, k)]) == v
      && ptk[v] == pt[v]
  {
    var ptk := MarkUpTo(pt, frames, start, k, Age);
    var ptr := Slot(|frames|, start, k);
    PageAtResidency(pt, ptk, frames, start, k);
    PageAtResidency(ptk, ptk, frames, ptr, 0);
    var v := PageAt(pt, frames, start, k);
    MarkUpToEntry(pt, frames, start, k, Age, v);
    FirstVisit(pt, frames, start, k);
  }

  /** The candidate update of one iteration, as the loop performs it. */
  lemma LowestStep(pt: seq<Entry>, frames: seq<int>, start: nat, k: nat)
    requires SweepReady(pt, frames, start) && k < |frames|
    ensures
      var l := LowestAfter(pt, frames, start, k);
      var c := CountAt(pt, frames, start, k);
      LowestAfter(pt, frames, start, k + 1)
      == if l.None? || c < l.value.count then Some(Candidate(PageAt(pt, frames, start, k), c)) else l
  {
  }

  /** The three ways one iteration of the loop can go. */
  lemma UnfoldAge(pt: seq<Entry>, frames: seq<int>, start: nat, ptr: nat, lowest: Option<Candidate>, vpage: nat)
    requires SweepReady(pt, frames, ptr) && start < |frames| && vpage < |pt|
    requires lowest.Some? ==> lowest.value.page < |pt| && pt[lowest.value.page].valid
    requires pt[FindVPage(pt, frames[ptr])].count != 0 && Advance(ptr, |frames|) != start
    ensures
      var v := FindVPage(pt, frames[ptr]);
      var c := pt[v].count;
      var pt1 := pt[v := pt[v].(count := c / 3)];
      && SweepReady(pt1, frames, Advance(ptr, |frames|))
      && CountSweep(pt, frames, start, ptr, lowest, vpage)
         == CountSweep(pt1, frames, start, Advance(ptr, |frames|),
                       if lowest.None? || c < lowest.value.count then Some(Candidate(v, c)) else lowest, vpage)
  {
    var v := FindVPage(pt, frames[ptr]);
    var pt1 := pt[v := pt[v].(count := pt[v].count / 3)];
    PageAtResidency(pt, pt1, frames, ptr, 0);
    PageAtResidency(pt1, pt1, frames, Advance(ptr, |frames|), 0);
  }

  lemma UnfoldZero(pt: seq<Entry>, frames: seq<int>, start: nat, ptr: nat, lowest: Option<Candidate>, vpage: nat)
    requires SweepReady(pt, frames, ptr) && start < |frames| && vpage < |pt|
    requires lowest.Some? ==> lowest.value.page < |pt| && pt[lowest.value.page].valid
    requires pt[FindVPage(pt, frames[ptr])].count == 0
    ensures
      var v := FindVPage(pt, frames[ptr]);
      CountSweep(pt, frames, start, ptr, lowest, vpage)
      == CountOutcome(CountInstall(pt, v, frames[ptr], vpage), Advance(ptr, |frames|), v, true)
  {
  }

  lemma UnfoldLast(pt: seq<Entry>, frames: seq<int>, start: nat, ptr: nat, lowest: Option<Candidate>, vpage: nat)
    requires SweepReady(pt, frames, ptr) && start < |frames| && vpage < |pt|
    requires lowest.Some? ==> lowest.value.page < |pt| && pt[lowest.value.page].valid
    requires pt[FindVPage(pt, frames[ptr])].count != 0 && Advance(ptr, |frames|) == start
    ensures
      var v := FindVPage(pt, frames[ptr]);
      var c := pt[v].count;
      var pt1 := pt[v := pt[v].(count := c / 3)];
      var w := if lowest.None? || c < lowest.value.count then v else lowest.value.page;
      CountSweep(pt, frames, start, ptr, lowest, vpage)
      == CountOutcome(CountInstall(pt1, w, pt1[w].frameNum, vpage), Advance(start, |frames|), w, false)
  {
  }

  /** One aging step: the loop after `k` agings continues as the loop after
      `k + 1`, holding the candidate `LowestAfter` describes. */
  lemma CountAgeStep(pt: seq<Entry>, frames: seq<int>, start: nat, vpage: nat, k: nat)
    requires SweepReady(pt, frames, start) && DistinctFrames(frames) && vpage < |pt|
    requires k + 1 < |frames| && CountAt(pt, frames, start, k) != 0
    ensures Resume(pt, frames, start, vpage, k) == Resume(pt, frames, start, vpage, k + 1)
  {
    var n := |frames|;
    CountMeets(pt, frames, start, k);
    CountMeets(pt, frames, start, k + 1);
    SlotStep(n, start, k);
    LowestStep(pt, frames, start, k);
    var ptk := MarkUpTo(pt, frames, start, k, Age);
    var ptr := Slot(n, start, k);
    UnfoldAge(ptk, frames, start, ptr, LowestAfter(pt, frames, start, k), vpage);
  }

  /** CountAgeStep with the next offset passed in as `j`: ResumeChain's
      recursive call and this step then name the same term, which keeps the
      solver from having to equate `Resume(k + 1)` with `Resume(j)`. */
  lemma CountAgeStepTo(pt: seq<Entry>, frames: seq<int>, start: nat, vpage: nat, k: nat, j: nat)
    requires SweepReady(pt, frames, start) && DistinctFrames(frames) && vpage < |pt|
    requires j == k + 1 && j < |frames| && CountAt(pt, frames, start, k) != 0
    ensures Resume(pt, frames, start, vpage, k) == Resume(pt, frames, start, vpage, j)
  {
    CountAgeStep(pt, frames, start, vpage, k);
  }

  /** The outcome of the loop entered after its first `k` agings. */
  ghost function Resume(pt: seq<Entry>, frames: seq<int>, start: nat, vpage: nat, k: nat): (r: CountOutcome)
    requires SweepReady(pt, frames, start) && DistinctFrames(frames) && vpage < |pt| && k < |frames|
  {
    CountMeets(pt, frames, start, k);
    CountSweep(MarkUpTo(pt, frames, start, k, Age), frames, start, Slot(|frames|, start, k),
               LowestAfter(pt, frames, start, k), vpage)
  }

  /** The stop on a zero count: the loop after `z` agings evicts the page it
      meets. */
  lemma CountZeroStop(pt: seq<Entry>, frames: seq<int>, start: nat, vpage: nat, k: nat)
    requires SweepReady(pt, frames, start) && DistinctFrames(frames) && vpage < |pt|
    requires k < |frames| && k == FirstZero(pt, frames, start, 0)
    ensures Resume(pt, frames, start, vpage, k) == CountReference(pt, frames, start, vpage)
  {
    CountMeets(pt, frames, start, k);
    UnfoldZero(MarkUpTo(pt, frames, start, k, Age), frames, start, Slot(|frames|, start, k),
               LowestAfter(pt, frames, start, k), vpage);
  }

  /** The last iteration of a turn without a zero count: the fallback
      evicts the first page of lowest count. */
  lemma CountLastStop(pt: seq<Entry>, frames: seq<int>, start: nat, vpage: nat, k: nat)
    requires SweepReady(pt, frames, start) && DistinctFrames(frames) && vpage < |pt|
    requires k + 1 == |frames| && FirstZero(pt, frames, start, 0) == |frames|
    ensures Resume(pt, frames, start, vpage, k) == CountReference(pt, frames, start, vpage)
  {
    var n := |frames|;
    CountMeets(pt, frames, start, k);
    SlotStep(n, start, k);
    LowestStep(pt, frames, start, k);
    var ptk := MarkUpTo(pt, frames, start, k, Age);
    UnfoldLast(ptk, frames, start, Slot(n, start, k), LowestAfter(pt, frames, start, k), vpage);
    var m := FirstMinOffset(pt, frames, start, n);
    var w := PageAt(pt, frames, start, m);
    assert MarkUpTo(pt, frames, start, n, Age)[w].frameNum == frames[Slot(n, start, m)];
  }

  /** The agings from offset `k` up to `last` carry the loop's state from
      one iteration to the next. */
  lemma {:induction false} ResumeChain(pt: seq<Entry>, frames: seq<int>, start: nat, vpage: nat, k: nat, last: nat)
    requires SweepReady(pt, frames, start) && DistinctFrames(frames) && vpage < |pt|
    requires k <= last < |frames| && last <= FirstZero(pt, frames, start, 0)
    ensures Resume(pt, frames, start, vpage, k) == Resume(pt, frames, start, vpage, last)
    decreases last - k
  {
    if k != last {
      var j := k + 1;
      ResumeChain(pt, frames, start, vpage, j, last);
      CountAgeStepTo(pt, frames, start, vpage, k, j);
    }
  }

  /** With a zero count met in the turn, the loop stops there. */
  lemma ZeroPath(pt: seq<Entry>, frames: seq<int>, start: nat, vpage: nat)
    requires SweepReady(pt, frames, start) && DistinctFrames(frames) && vpage < |pt|
    requires FirstZero(pt, frames, start, 0) < |frames|
    ensures Resume(pt, frames, start, vpage, 0) == CountReference(pt, frames, start, vpage)
  {
    var z := FirstZero(pt, frames, start, 0);
    ResumeChain(pt, frames, start, vpage, 0, z);
    CountZeroStop(pt, frames, start, vpage, z);
  }

  /** With no zero count met in the turn, the loop ages every page and
      falls back to the lowest count. */
  lemma LowestPath(pt: seq<Entry>, frames: seq<int>, start: nat, vpage: nat)
    requires SweepReady(pt, frames, start) && DistinctFrames(frames) && vpage < |pt|
    requires FirstZero(pt, frames, start, 0) == |frames|
    ensures Resume(pt, frames, start, vpage, 0) == CountReference(pt, frames, start, vpage)
  {
    var last := |frames| - 1;
    ResumeChain(pt, frames, start, vpage, 0, last);
    CountLastStop(pt, frames, start, vpage, last);
  }

  /** The whole loop, from the cursor, ends in the reference outcome. */
  lemma CountSweepFromStart(pt: seq<Entry>, frames: seq<int>, start: nat, vpage: nat)
    requires SweepReady(pt, frames, start) && DistinctFrames(frames) && vpage < |pt|
    ensures Resume(pt, frames, start, vpage, 0) == CountReference(pt, frames, start, vpage)
  {
    if FirstZero(pt, frames, start, 0) < |frames| {
      ZeroPath(pt, frames, start, vpage);
    } else {
      LowestPath(pt, frames, start, vpage);
    }
  }

  /** COUNT on a process ends in the reference outcome of the turn from
      `framePtr`. */
  lemma CountIsReference(p: Process, vpage: nat)
    requires vpage < |p.pageTable| && SweepReady(p.pageTable, p.allocatedFrames, p.framePtr)
    requires DistinctFrames(p.allocatedFrames)
    ensures
      var ref := CountReference(p.pageTable, p.allocatedFrames, p.framePtr, vpage);
      var r := PageReplAlgorithmCOUNT(p, vpage);
      r.pageTable == ref.table && r.framePtr == ref.framePtr
  {
    CountSweepFromStart(p.pageTable, p.allocatedFrames, p.framePtr, vpage);
    assert Resume(p.pageTable, p.allocatedFrames, p.framePtr, vpage, 0) == CountReference(p.pageTable, p.allocatedFrames, p.framePtr, vpage);
  }

  /** The entries of the reference outcome other than the victim and
      `vpage`: aged when met before the stop, untouched otherwise. */
  lemma ReferenceEntries(pt: seq<Entry>, frames: seq<int>, start: nat, vpage: nat, k: nat, v: nat, frame: int)
    requires SweepReady(pt, frames, start) && DistinctFrames(frames) && k <= |frames|
    requires vpage < |pt| && v < |pt|
    ensures
      var t := CountInstall(MarkUpTo(pt, frames, start, k, Age), v, frame, vpage);
      forall i :: 0 <= i < |pt| && i != v && i != vpage ==>
        t[i] == if Visited(pt, frames, start, k, i) then pt[i].(count := pt[i].count / 3) else pt[i]
  {
    forall i | 0 <= i < |pt|
      ensures MarkUpTo(pt, frames, start, k, Age)[i]
              == if Visited(pt, frames, start, k, i) then pt[i].(count := pt[i].count / 3) else pt[i]
    {
      MarkUpToEntry(pt, frames, start, k, Age, i);
    }
  }

  /** COUNT's first rule, on the reference outcome (which CountIsReference
      shows COUNT reaches), with the zero test made before aging: when some
      page met in the turn has count 0, the first such page is evicted, only
      the pages met before it are aged, and the cursor ends one past its
      slot; the victim leaves otherwise unchanged, and `vpage` takes its
      frame with the reference bit set and count 3, keeping its time stamp. */
  lemma ZeroReference(pt: seq<Entry>, frames: seq<int>, start: nat, vpage: nat)
    requires SweepReady(pt, frames, start) && DistinctFrames(frames) && vpage < |pt| && !pt[vpage].valid
    requires FirstZero(pt, frames, start, 0) < |frames|
    ensures
      var n := |frames|;
      var z := FirstZero(pt, frames, start, 0);
      var v := PageAt(pt, frames, start, z);
      var ref := CountReference(pt, frames, start, vpage);
      && ref.framePtr == Advance(Slot(n, start, z), n)
      && ref.table[v] == pt[v].(valid := false)
      && ref.table[vpage] == pt[vpage].(frameNum := frames[Slot(n, start, z)], valid := true, used := true, count := 3)
      && forall i :: 0 <= i < |pt| && i != v && i != vpage ==>
           ref.table[i] == if Visited(pt, frames, start, z, i) then pt[i].(count := pt[i].count / 3) else pt[i]
  {
    var n := |frames|;
    var z := FirstZero(pt, frames, start, 0);
    var v := PageAt(pt, frames, start, z);
    ReferenceEntries(pt, frames, start, vpage, z, v, frames[Slot(n, start, z)]);
    MarkUpToEntry(pt, frames, start, z, Age, v);
    MarkUpToEntry(pt, frames, start, z, Age, vpage);
    FirstVisit(pt, frames, start, z);
    VisitedResident(pt, frames, start, z, vpage);
  }

  /** COUNT's fallback rule, on the reference outcome: when no page met in
      the turn has count 0, every page met is aged, the first page of lowest
      original count is evicted, and the cursor ends one past the starting
      slot (not one past the victim); the victim leaves aged like the rest,
      and `vpage` takes its frame with the reference bit set and count 3,
      keeping its time stamp. */
  lemma LowestReference(pt: seq<Entry>, frames: seq<int>, start: nat, vpage: nat)
    requires SweepReady(pt, frames, start) && DistinctFrames(frames) && vpage < |pt| && !pt[vpage].valid
    requires FirstZero(pt, frames, start, 0) == |frames|
    ensures
      var n := |frames|;
      var m := FirstMinOffset(pt, frames, start, n);
      var v := PageAt(pt, frames, start, m);
      var ref := CountReference(pt, frames, start, vpage);
      && ref.framePtr == Advance(start, n)
      && ref.table[v] == pt[v].(valid := false, count := pt[v].count / 3)
      && ref.table[vpage] == pt[vpage].(frameNum := frames[Slot(n, start, m)], valid := true, used := true, count := 3)
      && forall i :: 0 <= i < |pt| && i != v && i != vpage ==>
           ref.table[i] == if Visited(pt, frames, start, n, i) then pt[i].(count := pt[i].count / 3) else pt[i]
  {
    var n := |frames|;
    var m := FirstMinOffset(pt, frames, start, n);
    var v := PageAt(pt, frames, start, m);
    ReferenceEntries(pt, frames, start, vpage, n, v, frames[Slot(n, start, m)]);
    MarkUpToEntry(pt, frames, start, n, Age, v);
    MarkUpToEntry(pt, frames, start, n, Age, vpage);
    assert Visited(pt, frames, start, n, v);
    VisitedResident(pt, frames, start, n, vpage);
  }

  /** COUNT keeps the frame/page bijection. */
  lemma CountKeepsFrameMap(p: Process, vpage: nat)
    requires vpage < |p.pageTable| && SweepReady(p.pageTable, p.allocatedFrames, p.framePtr)
    requires FrameMap(p.pageTable, p.allocatedFrames) && !p.pageTable[vpage].valid
    ensures FrameMap(PageReplAlgorithmCOUNT(p, vpage).pageTable, p.allocatedFrames)
  {
    var r := PageReplAlgorithmCOUNT(p, vpage);
    var v :| 0 <= v < |p.pageTable| && CountReplaced(p.pageTable, r.pageTable, v, vpage);
    ReassignPreservesFrameMap(p.pageTable, r.pageTable, p.allocatedFrames, v, vpage, p.pageTable[v].frameNum);
  }
}
