/** The physical frame allocator on values: which frames are used, and what `alloc` and
    `free` do to them. The class in Pmm.dfy is proved against these functions. */
module Frames {
  import opened Wrappers
  import opened Arithmetic

  const PAGE_SIZE: nat := 0x1000
  const MEMORY_BASE: nat := 0x200_0000
  /** The first frame the allocator looks at. */
  const BASE: nat := MEMORY_BASE / PAGE_SIZE

  /** used[i] is bit i of the bitmap, len is `bitmap_len`, free and total are the counters. */
  datatype Bitmap = Bitmap(used: seq<bool>, len: nat, free: int, total: int)

  /** A page past the end of the bitmap counts as not free. */
  predicate AllFree(used: seq<bool>, idx: nat, count: nat) {
    count > 0 ==> idx + count <= |used| && forall j :: idx <= j < idx + count ==> !used[j]
  }

  lemma FreeFits(used: seq<bool>, idx: nat, count: nat)
    requires AllFree(used, idx, count) && idx <= |used|
    ensures idx + count <= |used|
  {
  }

  function Fill(used: seq<bool>, idx: nat, count: nat, bit: bool): (r: seq<bool>)
    ensures |r| == |used|
    ensures forall j :: 0 <= j < |used| ==> r[j] == if idx <= j < idx + count then bit else used[j]
  {
    seq(|used|, j requires 0 <= j < |used| => if idx <= j < idx + count then bit else used[j])
  }

  function MaxIdx(len: nat, upper: nat): nat {
    if upper == 0 then len else if len < upper / PAGE_SIZE then len else upper / PAGE_SIZE
  }

  function FirstFit(used: seq<bool>, idx: nat, count: nat, alignment: nat, maxIdx: nat): Option<nat>
    requires alignment >= 1
    decreases maxIdx - idx
  {
    if idx >= maxIdx then None
    else if AllFree(used, idx, count) then Some(idx)
    else FirstFit(used, idx + alignment, count, alignment, maxIdx)
  }

  function Alloc(b: Bitmap, count: nat, alignment: nat, upper: nat): (Bitmap, Option<nat>)
    requires alignment >= 1
  {
    match FirstFit(b.used, BASE, count, alignment, MaxIdx(b.len, upper))
    case None => (b, None)
    case Some(idx) =>
      (b.(used := Fill(b.used, idx, count, true), free := if b.total != 0 then b.free - count else b.free), Some(idx))
  }

  function Free(b: Bitmap, idx: nat, count: nat): Bitmap {
    b.(used := Fill(b.used, idx, count, false), free := b.free + count)
  }

  /** The k-th page at which an allocation may start. */
  function Candidate(k: nat, alignment: nat): nat { BASE + k * alignment }

  predicate Fits(b: Bitmap, count: nat, alignment: nat, upper: nat, k: nat) {
    Candidate(k, alignment) < MaxIdx(b.len, upper) && AllFree(b.used, Candidate(k, alignment), count)
  }

  lemma {:induction false} FirstFitFromCandidate(b: Bitmap, count: nat, alignment: nat, upper: nat, k: nat)
    requires alignment >= 1
    requires forall j :: 0 <= j < k ==> !Fits(b, count, alignment, upper, j)
    ensures match FirstFit(b.used, Candidate(k, alignment), count, alignment, MaxIdx(b.len, upper))
      case None => forall j: nat :: !Fits(b, count, alignment, upper, j)
      case Some(idx) => exists j: nat :: idx == Candidate(j, alignment) && Fits(b, count, alignment, upper, j)
                                      && forall i :: 0 <= i < j ==> !Fits(b, count, alignment, upper, i)
    decreases MaxIdx(b.len, upper) - Candidate(k, alignment)
  {
    var idx, max := Candidate(k, alignment), MaxIdx(b.len, upper);
    if idx >= max {
      forall j: nat ensures !Fits(b, count, alignment, upper, j) {
        if j >= k {
          CandidateMonotone(k, j, alignment);
        }
      }
    } else if AllFree(b.used, idx, count) {
      assert Fits(b, count, alignment, upper, k);
    } else {
      assert Candidate(k + 1, alignment) == idx + alignment;
      FirstFitFromCandidate(b, count, alignment, upper, k + 1);
    }
  }

  lemma CandidateMonotone(i: nat, j: nat, alignment: nat)
    requires i <= j
    ensures Candidate(i, alignment) <= Candidate(j, alignment)
  {
    assert (j - i) * alignment >= 0;
    assert j * alignment == i * alignment + (j - i) * alignment;
  }

  /** `alloc` takes the lowest candidate whose pages are all free, and fails with nothing
      changed if and only if there is none. */
  lemma AllocTakesLowest(b: Bitmap, count: nat, alignment: nat, upper: nat)
    requires alignment >= 1
    ensures var (b', r) := Alloc(b, count, alignment, upper);
      match r
      case None => b' == b && forall k: nat :: !Fits(b, count, alignment, upper, k)
      case Some(idx) =>
        && (exists k: nat :: idx == Candidate(k, alignment) && Fits(b, count, alignment, upper, k)
                          && forall i :: 0 <= i < k ==> !Fits(b, count, alignment, upper, i))
        && |b'.used| == |b.used| && b'.len == b.len && b'.total == b.total
        && (forall j :: 0 <= j < |b.used| ==> (b'.used[j] <==> b.used[j] || idx <= j < idx + count))
  {
    assert Candidate(0, alignment) == BASE;
    FirstFitFromCandidate(b, count, alignment, upper, 0);
  }

  predicate InUse(used: seq<bool>, j: nat) { j < |used| ==> used[j] }

  /** One of count pages from page i on is taken, or lies past the end. */
  predicate Blocked(used: seq<bool>, i: nat, count: nat) { exists j: nat :: i <= j < i + count && InUse(used, j) }

  /** An allocation may start at page i: behind `memory_base`, below the upper limit, if there is one,
      and a multiple of the alignment away from `memory_base`. */
  predicate StartsAt(b: Bitmap, alignment: nat, upper: nat, i: nat)
    requires alignment >= 1
  {
    0x2000 <= i < b.len && (i - 0x2000) % alignment == 0 && (upper > 0 ==> i < upper / 0x1000)
  }

  lemma BlockedIff(used: seq<bool>, i: nat, count: nat)
    ensures AllFree(used, i, count) <==> !Blocked(used, i, count)
  {
    if !AllFree(used, i, count) {
      if i + count > |used| {
        assert InUse(used, i + count - 1);
      } else {
        var j :| i <= j < i + count && used[j];
        assert InUse(used, j);
      }
    }
  }

  lemma CandidateStarts(b: Bitmap, alignment: nat, upper: nat, k: nat)
    requires alignment >= 1
    ensures Candidate(k, alignment) < MaxIdx(b.len, upper) <==> StartsAt(b, alignment, upper, Candidate(k, alignment))
  {
    Unique(k * alignment, alignment, 0, k);
  }

  lemma StartIsCandidate(b: Bitmap, alignment: nat, upper: nat, i: nat)
    requires alignment >= 1 && StartsAt(b, alignment, upper, i)
    ensures i >= 0x2000 && Candidate((i - 0x2000) / alignment, alignment) == i < MaxIdx(b.len, upper)
  {
    assert i - 0x2000 == (i - 0x2000) / alignment * alignment + (i - 0x2000) % alignment;
  }

  /** `alloc`, start by start: it takes the first start that is not blocked, and fails, with nothing
      changed, if and only if all are blocked. */
  lemma AllocIsFirst(b: Bitmap, count: nat, alignment: nat, upper: nat)
    requires alignment >= 1
    ensures var (b', r) := Alloc(b, count, alignment, upper);
      match r
      case None => b' == b && forall i: nat :: StartsAt(b, alignment, upper, i) ==> Blocked(b.used, i, count)
      case Some(idx) =>
        && StartsAt(b, alignment, upper, idx) && !Blocked(b.used, idx, count)
        && (forall i: nat :: StartsAt(b, alignment, upper, i) && i < idx ==> Blocked(b.used, i, count))
        && b' == Bitmap(b'.used, b.len, if b.total != 0 then b.free - count else b.free, b.total)
        && |b'.used| == |b.used|
        && forall j :: 0 <= j < |b.used| ==> (b'.used[j] <==> b.used[j] || idx <= j < idx + count)
  {
    hide FirstFit, StartsAt, Candidate, MaxIdx, Blocked, AllFree;
    AllocTakesLowest(b, count, alignment, upper);
    var (b', r) := Alloc(b, count, alignment, upper);
    forall i: nat | StartsAt(b, alignment, upper, i) && (r.Some? ==> i < r.value) ensures Blocked(b.used, i, count) {
      StartIsCandidate(b, alignment, upper, i);
      BlockedIff(b.used, i, count);
      var k := (i - 0x2000) / alignment;
      if r.Some? {
        var n: nat :| r.value == Candidate(n, alignment) && Fits(b, count, alignment, upper, n)
                   && forall m: nat :: m < n ==> !Fits(b, count, alignment, upper, m);
        if n <= k {
          CandidateMonotone(n, k, alignment);
        }
      }
      assert !Fits(b, count, alignment, upper, k);
    }
    if r.Some? {
      BlockedIff(b.used, r.value, count);
      var n: nat :| r.value == Candidate(n, alignment) && Fits(b, count, alignment, upper, n);
      CandidateStarts(b, alignment, upper, n);
    }
  }

  /** Until `init` has set up a bitmap that reaches above `memory_base`, `alloc` fails. */
  lemma NothingBelowBase(b: Bitmap, count: nat, alignment: nat, upper: nat)
    requires b.len <= BASE && alignment >= 1
    ensures Alloc(b, count, alignment, upper) == (b, None)
  {
  }

  /** The number of clear bits among lo .. hi. */
  function Clear(used: seq<bool>, lo: nat, hi: nat): nat
    requires hi <= |used|
    decreases hi - lo
  {
    if lo >= hi then 0 else Clear(used, lo, hi - 1) + if used[hi - 1] then 0 else 1
  }

  lemma {:induction false} ClearIsPositive(used: seq<bool>, lo: nat, hi: nat)
    requires hi <= |used|
    ensures Clear(used, lo, hi) > 0 <==> exists j :: lo <= j < hi && !used[j]
    decreases hi - lo
  {
    if lo < hi {
      ClearIsPositive(used, lo, hi - 1);
      if used[hi - 1] {
        assert forall j :: lo <= j < hi && !used[j] ==> j < hi - 1;
      }
    }
  }

  lemma {:induction false} ClearAfterFill(used: seq<bool>, lo: nat, hi: nat, idx: nat, count: nat)
    requires hi <= |used| && lo <= idx && idx + count <= hi && AllFree(used, idx, count)
    ensures Clear(Fill(used, idx, count, true), lo, hi) == Clear(used, lo, hi) - count
    decreases hi - lo
  {
    if lo < hi {
      if idx + count < hi {
        ClearAfterFill(used, lo, hi - 1, idx, count);
      } else if count > 0 {
        ClearAfterFill(used, lo, hi - 1, idx, count - 1);
        ClearDepends(Fill(used, idx, count, true), Fill(used, idx, count - 1, true), lo, hi - 1);
      } else {
        ClearDepends(Fill(used, idx, count, true), used, lo, hi);
      }
    }
  }

  lemma {:induction false} ClearDepends(u: seq<bool>, v: seq<bool>, lo: nat, hi: nat)
    requires hi <= |u| && hi <= |v| && forall j :: lo <= j < hi ==> u[j] == v[j]
    ensures Clear(u, lo, hi) == Clear(v, lo, hi)
    decreases hi - lo
  {
    if lo < hi {
      ClearDepends(u, v, lo, hi - 1);
    }
  }

  /** A single frame can be had if and only if some bit is clear. */
  lemma AllocOne(b: Bitmap)
    requires b.len <= |b.used|
    ensures var (b', r) := Alloc(b, 1, 1, 0);
      match r
      case None => b' == b && Clear(b.used, BASE, b.len) == 0
      case Some(f) =>
        && BASE <= f < b.len && !b.used[f] && b'.len == b.len && b'.total == b.total && b'.used == b.used[f := true]
        && Clear(b'.used, BASE, b.len) == Clear(b.used, BASE, b.len) - 1
  {
    AllocTakesLowest(b, 1, 1, 0);
    ClearIsPositive(b.used, BASE, b.len);
    var (b', r) := Alloc(b, 1, 1, 0);
    match r
    case None =>
      forall j | BASE <= j < b.len ensures b.used[j] {
        assert Candidate(j - BASE, 1) == j;
        assert !Fits(b, 1, 1, 0, j - BASE);
      }
    case Some(f) =>
      assert b'.used == b.used[f := true];
      ClearAfterFill(b.used, BASE, b.len, f, 1);
  }

  /** A contiguous run of pages handed out by one call. */
  datatype Run = Run(start: nat, count: nat)

  predicate InRun(r: Run, f: nat) { r.start <= f < r.start + r.count }

  predicate Disjoint(a: Run, b: Run) {
    a.start + a.count <= b.start || b.start + b.count <= a.start || a.count == 0 || b.count == 0
  }
}
