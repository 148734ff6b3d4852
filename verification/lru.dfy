/** `pageReplAlgorithmLRU`: evict the resident page with the smallest time
    stamp, the first one in page order on ties. */
module LruPolicy {
  import opened Wrappers
  import opened PageTable

  /** `best` is the first valid entry of smallest time stamp among the
      first `k` entries, and is `None` exactly when none of them is valid. */
  predicate IsFirstOldest(pt: seq<Entry>, k: nat, best: Option<nat>)
    requires k <= |pt|
  {
    match best
    case None => forall j :: 0 <= j < k ==> !pt[j].valid
    case Some(v) =>
      && v < k && pt[v].valid
      && (forall j :: 0 <= j < k && pt[j].valid ==> pt[v].tmStamp <= pt[j].tmStamp)
      && (forall j :: 0 <= j < v && pt[j].valid ==> pt[v].tmStamp < pt[j].tmStamp)
  }

  /** The search loop from index `i`, with `best` the page found so far
      (`None` standing for `lruPage == -1`, `minTime == Double.MAX_VALUE`). */
  function LruScan(pt: seq<Entry>, i: nat, best: Option<nat>): (r: Option<nat>)
    requires i <= |pt| && IsFirstOldest(pt, i, best)
    ensures IsFirstOldest(pt, |pt|, r)
    decreases |pt| - i
  {
    if i == |pt| then best
    else if pt[i].valid && (best.None? || pt[i].tmStamp < pt[best.value].tmStamp) then
      LruScan(pt, i + 1, Some(i))
    else
      LruScan(pt, i + 1, best)
  }

  /** The least recently used resident page, if any page is resident. */
  function LruVictim(pt: seq<Entry>): (r: Option<nat>)
    ensures IsFirstOldest(pt, |pt|, r)
  {
    LruScan(pt, 0, None)
  }

  /** `pageReplAlgorithmLRU`. The new page's time stamp comes from the wall
      clock in the simulator; here it is the parameter `wallClock`. */
  function PageReplAlgorithmLRU(p: Process, vpage: nat, wallClock: int): (r: Process)
    requires vpage < |p.pageTable|
    ensures r == p.(pageTable := r.pageTable)
    ensures |r.pageTable| == |p.pageTable|
    ensures (forall j :: 0 <= j < |p.pageTable| ==> !p.pageTable[j].valid) ==> r == p
    ensures LruVictim(p.pageTable).Some? ==>
      var v := LruVictim(p.pageTable).value;
      && Reassigned(p.pageTable, r.pageTable, v, vpage, p.pageTable[v].frameNum)
      && r.pageTable[vpage].tmStamp == wallClock
      && r.pageTable[vpage].used == p.pageTable[vpage].used
      && r.pageTable[vpage].count == p.pageTable[vpage].count
      && (v != vpage ==> r.pageTable[v] == p.pageTable[v].(valid := false))
      && forall i :: 0 <= i < |p.pageTable| && i != v && i != vpage ==> r.pageTable[i] == p.pageTable[i]
  {
    match LruVictim(p.pageTable)
    case None => p
    case Some(v) =>
      var frame := p.pageTable[v].frameNum;
      var pt1 := p.pageTable[v := p.pageTable[v].(valid := false)];
      p.(pageTable := pt1[vpage := pt1[vpage].(frameNum := frame, valid := true, tmStamp := wallClock)])
  }

  /** The victim is the resident page of globally smallest time stamp; no
      resident page before it in page order has a time stamp as small. */
  lemma LruEvictsOldest(p: Process, vpage: nat, wallClock: int, v: nat)
    requires vpage < |p.pageTable| && v < |p.pageTable| && v != vpage
    requires p.pageTable[v].valid && !PageReplAlgorithmLRU(p, vpage, wallClock).pageTable[v].valid
    ensures forall j :: 0 <= j < |p.pageTable| && p.pageTable[j].valid ==> p.pageTable[v].tmStamp <= p.pageTable[j].tmStamp
    ensures forall j :: 0 <= j < v && p.pageTable[j].valid ==> p.pageTable[v].tmStamp < p.pageTable[j].tmStamp
  {
    var w := LruVictim(p.pageTable);
    assert w.Some?;
    assert w.value == v;
  }

  /** LRU keeps the frame/page bijection. */
  lemma LruKeepsFrameMap(p: Process, vpage: nat, wallClock: int)
    requires vpage < |p.pageTable|
    requires FrameMap(p.pageTable, p.allocatedFrames) && !p.pageTable[vpage].valid
    ensures FrameMap(PageReplAlgorithmLRU(p, vpage, wallClock).pageTable, p.allocatedFrames)
  {
    var r := PageReplAlgorithmLRU(p, vpage, wallClock);
    match LruVictim(p.pageTable)
    case None =>
    case Some(v) =>
      ReassignPreservesFrameMap(p.pageTable, r.pageTable, p.allocatedFrames, v, vpage, p.pageTable[v].frameNum);
  }
}
