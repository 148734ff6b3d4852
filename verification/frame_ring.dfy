/** The rotation cursor over `allocatedFrames` shared by CLOCK and COUNT:
    slot arithmetic, the page found at each offset of a sweep, and a
    reference description of a sweep's effect on the entries it passes. */
module FrameRing {
  import opened PageTable

  /** What a sweep from `ptr` needs so that no array access in it fails:
      a non-empty frame list, a cursor inside it, and a valid entry for
      every allocated frame. */
  predicate SweepReady(pt: seq<Entry>, frames: seq<int>, ptr: nat) {
    0 < |frames| && ptr < |frames| && AllFramesMapped(pt, frames)
  }

  lemma ModWrap(x: int, n: int)
    requires 0 < n && 0 <= x < 2 * n
    ensures x % n == if x < n then x else x - n
  {
  }

  /** The cursor step of the simulator, `(ptr + 1) % n`, written without
      the modulus (AdvanceIsMod shows the two agree). */
  function Advance(ptr: nat, n: nat): (r: nat)
    requires ptr < n
    ensures r < n
  {
    if ptr + 1 < n then ptr + 1 else 0
  }

  lemma AdvanceIsMod(ptr: nat, n: nat)
    requires ptr < n
    ensures Advance(ptr, n) == (ptr + 1) % n
  {
    ModWrap(ptr + 1, n);
  }

  /** The slot just behind cursor `ptr`: the one the cursor last left. */
  function Behind(ptr: nat, n: nat): (s: nat)
    requires ptr < n
    ensures s < n && Advance(s, n) == ptr
  {
    if ptr == 0 then n - 1 else ptr - 1
  }

  /** The slot `j` steps after `start` on the ring, for at most one full
      turn; it is where `j` calls of `Advance` from `start` lead. */
  function Slot(n: nat, start: nat, j: nat): (s: nat)
    requires start < n && j <= n
    ensures s < n
  {
    if start + j < n then start + j else start + j - n
  }

  lemma SlotStep(n: nat, start: nat, j: nat)
    requires start < n && j < n
    ensures Advance(Slot(n, start, j), n) == Slot(n, start, j + 1)
    ensures Slot(n, start, j + 1) == start <==> j + 1 == n
  {
  }

  /** The page `findvPage` returns for the frame `j` slots after `start`. */
  function PageAt(pt: seq<Entry>, frames: seq<int>, start: nat, j: nat): (v: nat)
    requires SweepReady(pt, frames, start) && j <= |frames|
    ensures v < |pt| && Holds(pt[v], frames[Slot(|frames|, start, j)])
  {
    FindVPage(pt, frames[Slot(|frames|, start, j)])
  }

  lemma PageAtResidency(pt: seq<Entry>, pt': seq<Entry>, frames: seq<int>, start: nat, j: nat)
    requires SweepReady(pt, frames, start) && SameResidency(pt, pt') && j <= |frames|
    ensures SweepReady(pt', frames, start)
    ensures PageAt(pt', frames, start, j) == PageAt(pt, frames, start, j)
  {
    forall k | 0 <= k < |frames|
      ensures FindVPage(pt', frames[k]) != -1
    {
      FindVPageResidency(pt, pt', frames[k]);
    }
    FindVPageResidency(pt, pt', frames[Slot(|frames|, start, j)]);
  }

  /** With no frame listed twice, one sweep of at most `n` slots meets every
      page at most once. */
  lemma PageAtDistinct(pt: seq<Entry>, frames: seq<int>, start: nat, j: nat, k: nat)
    requires SweepReady(pt, frames, start) && DistinctFrames(frames)
    requires j < |frames| && k < |frames| && j != k
    ensures PageAt(pt, frames, start, j) != PageAt(pt, frames, start, k)
  {
    var n := |frames|;
    var sj, sk := Slot(n, start, j), Slot(n, start, k);
    if sj < sk {
      assert frames[sj] != frames[sk];
    } else {
      assert frames[sk] != frames[sj];
    }
  }

  /** What a sweep does to a page it passes over: CLOCK clears the reference
      bit, COUNT ages the counter by integer division by 3. */
  datatype Mark = ClearUsed | Age

  function Apply(m: Mark, e: Entry): (r: Entry)
    ensures r.valid == e.valid && r.frameNum == e.frameNum && r.tmStamp == e.tmStamp
  {
    match m
    case ClearUsed => e.(used := false)
    case Age => e.(count := e.count / 3)
  }

  /** Some offset below `k` of the sweep from `start` meets page `i`. */
  predicate Visited(pt: seq<Entry>, frames: seq<int>, start: nat, k: nat, i: nat)
    requires SweepReady(pt, frames, start) && k <= |frames|
  {
    exists j :: 0 <= j < k && PageAt(pt, frames, start, j) == i
  }

  /** Reference effect of passing the first `k` offsets of a sweep from
      `start`: the mark applied to each page met, in order. */
  function MarkUpTo(pt: seq<Entry>, frames: seq<int>, start: nat, k: nat, m: Mark): (r: seq<Entry>)
    requires SweepReady(pt, frames, start) && k <= |frames|
    ensures SameResidency(pt, r)
    decreases k
  {
    if k == 0 then pt
    else
      var q := MarkUpTo(pt, frames, start, k - 1, m);
      var v := PageAt(pt, frames, start, k - 1);
      q[v := Apply(m, q[v])]
  }

  /** The page met at offset `k` was not met before it in the same turn. */
  lemma FirstVisit(pt: seq<Entry>, frames: seq<int>, start: nat, k: nat)
    requires SweepReady(pt, frames, start) && DistinctFrames(frames) && k < |frames|
    ensures !Visited(pt, frames, start, k, PageAt(pt, frames, start, k))
  {
    forall j | 0 <= j < k
      ensures PageAt(pt, frames, start, j) != PageAt(pt, frames, start, k)
    {
      PageAtDistinct(pt, frames, start, j, k);
    }
  }

  lemma VisitedStep(pt: seq<Entry>, frames: seq<int>, start: nat, k: nat, i: nat)
    requires SweepReady(pt, frames, start) && k < |frames|
    ensures Visited(pt, frames, start, k + 1, i) <==>
      Visited(pt, frames, start, k, i) || PageAt(pt, frames, start, k) == i
  {
    if Visited(pt, frames, start, k + 1, i) && PageAt(pt, frames, start, k) != i {
      var j :| 0 <= j < k + 1 && PageAt(pt, frames, start, j) == i;
      assert j < k;
    }
  }

  /** A sweep meets only resident pages. */
  lemma VisitedResident(pt: seq<Entry>, frames: seq<int>, start: nat, k: nat, i: nat)
    requires SweepReady(pt, frames, start) && k <= |frames| && i < |pt| && !pt[i].valid
    ensures !Visited(pt, frames, start, k, i)
  {
    forall j | 0 <= j < k
      ensures PageAt(pt, frames, start, j) != i
    {
      var v := PageAt(pt, frames, start, j);
    }
  }

  /** Within one turn of the ring, each page met is marked exactly once and
      every other entry is untouched. */
  lemma {:induction false} MarkUpToEntry(pt: seq<Entry>, frames: seq<int>, start: nat, k: nat, m: Mark, i: nat)
    requires SweepReady(pt, frames, start) && DistinctFrames(frames) && k <= |frames| && i < |pt|
    ensures MarkUpTo(pt, frames, start, k, m)[i] ==
      if Visited(pt, frames, start, k, i) then Apply(m, pt[i]) else pt[i]
  {
    if k > 0 {
      MarkUpToEntry(pt, frames, start, k - 1, m, i);
      VisitedStep(pt, frames, start, k - 1, i);
      if i == PageAt(pt, frames, start, k - 1) {
        FirstVisit(pt, frames, start, k - 1);
      }
    }
  }
}
