/** `Pmm::init` on values: the bitmap is built at `memory_base` from the boot loader's map. */
module FrameInit {
  import opened Wrappers
  import opened Frames

  datatype Region = Region(addr: nat, len: nat, available: bool)

  function RoundUp(n: nat, s: nat): nat
    requires s > 0
  {
    (n + s - 1) / s * s
  }

  function RoundDown(n: nat, s: nat): nat
    requires s > 0
  {
    n / s * s
  }

  /** The source calls this `overlaps`; it is containment of the first range in the second. */
  predicate Overlaps(a: nat, aLen: nat, b: nat, bLen: nat) { a >= b && a + aLen <= b + bLen }

  function MemoryTop(mmap: seq<Region>): nat {
    if mmap == [] then 0
    else
      var (top, last) := (MemoryTop(mmap[..|mmap| - 1]), mmap[|mmap| - 1]);
      if last.available && last.addr + last.len > top then last.addr + last.len else top
  }

  /** top is where the highest available region ends, and 0 if there is none. */
  predicate IsHighestEnd(mmap: seq<Region>, top: nat) {
    && (forall r :: r in mmap && r.available ==> r.addr + r.len <= top)
    && (top == 0 || exists r :: r in mmap && r.available && r.addr + r.len == top)
  }

  lemma {:induction false} TopIsHighest(mmap: seq<Region>)
    ensures IsHighestEnd(mmap, MemoryTop(mmap))
  {
    if mmap != [] {
      var front, last := mmap[..|mmap| - 1], mmap[|mmap| - 1];
      TopIsHighest(front);
      assert mmap == front + [last];
      if MemoryTop(mmap) != 0 && !(last.available && last.addr + last.len == MemoryTop(mmap)) {
        var r :| r in front && r.available && r.addr + r.len == MemoryTop(mmap);
        assert r in mmap;
      }
    }
  }

  /** len pages reach to the end of every available region, and one page less does not. */
  predicate CoversAvailable(mmap: seq<Region>, len: nat) {
    && (forall r :: r in mmap && r.available ==> r.addr + r.len <= len * 0x1000)
    && (len == 0 || exists r :: r in mmap && r.available && r.addr + r.len > (len - 1) * 0x1000)
  }

  lemma LenCovers(mmap: seq<Region>)
    ensures CoversAvailable(mmap, BitmapLen(mmap))
  {
    hide MemoryTop;
    TopIsHighest(mmap);
    var top, len := MemoryTop(mmap), BitmapLen(mmap);
    assert top <= len * 0x1000 && (len > 0 ==> top > (len - 1) * 0x1000);
  }

  /** The number of pages that the bitmap describes, and of bytes that are set up for it. */
  function BitmapLen(mmap: seq<Region>): nat { (MemoryTop(mmap) + PAGE_SIZE - 1) / PAGE_SIZE }

  function BitmapBytes(mmap: seq<Region>): nat { BitmapLen(mmap) / 8 }

  /** The whole pages that hold the bitmap, the last of which may be used in part only. */
  function BitmapPages(bytes: nat): nat { (bytes + PAGE_SIZE - 1) / PAGE_SIZE }

  /** The pages that one region of the map makes free. */
  function Freed(r: Region, bytes: nat): Run {
    var start, len := RoundUp(r.addr, PAGE_SIZE), RoundDown(r.len, PAGE_SIZE);
    if !r.available || len == 0 || start + len < MEMORY_BASE then Run(0, 0)
    else
      var (start1, len1) := if start < MEMORY_BASE then (MEMORY_BASE, len - (MEMORY_BASE - start)) else (start, len);
      var (start2, len2) :=
        if Overlaps(MEMORY_BASE, bytes, start1, len1) then (MEMORY_BASE + bytes, len1 - bytes) else (start1, len1);
      Run(start2 / PAGE_SIZE, len2 / PAGE_SIZE)
  }

  function FreeRegions(b: Bitmap, mmap: seq<Region>, bytes: nat, n: nat): Bitmap
    requires n <= |mmap|
  {
    if n == 0 then b
    else
      var (b', run) := (FreeRegions(b, mmap, bytes, n - 1), Freed(mmap[n - 1], bytes));
      Free(b', run.start, run.count)
  }

  /** The bitmap once its bytes are set, before any region is freed. b0 stands for the memory at
      `memory_base` before the call, whatever it holds. */
  function AllReserved(b0: Bitmap, mmap: seq<Region>): Bitmap {
    b0.(used := Fill(b0.used, 0, 8 * BitmapBytes(mmap), true), len := BitmapLen(mmap))
  }

  /** The bitmap when only the trailing `alloc` of `init` is left to do. */
  function BeforeLast(b0: Bitmap, mmap: seq<Region>): Bitmap {
    var b := FreeRegions(AllReserved(b0, mmap), mmap, BitmapBytes(mmap), |mmap|);
    b.(total := b.free, used := Fill(b.used, BASE, BitmapPages(BitmapBytes(mmap)), true))
  }

  function Init(b0: Bitmap, mmap: seq<Region>): Bitmap {
    Alloc(BeforeLast(b0, mmap), BitmapPages(BitmapBytes(mmap)), 1, 0).0
  }

  /** The pages that the trailing `alloc` takes, although the bitmap's own are reserved by then. */
  function Wasted(b0: Bitmap, mmap: seq<Region>): Run {
    match Alloc(BeforeLast(b0, mmap), BitmapPages(BitmapBytes(mmap)), 1, 0).1
    case None => Run(0, 0)
    case Some(idx) => Run(idx, BitmapPages(BitmapBytes(mmap)))
  }

  predicate Aligned(r: Region) { r.addr % PAGE_SIZE == 0 && r.len % PAGE_SIZE == 0 }

  predicate AlignedRegions(mmap: seq<Region>) { forall r :: r in mmap && r.available ==> Aligned(r) }

  /** The bits that the bitmap's bytes do not reach read as reserved, up to and with the one behind
      its end. */
  predicate TailReserved(b0: Bitmap, mmap: seq<Region>) {
    && BitmapLen(mmap) < |b0.used|
    && forall j :: 8 * BitmapBytes(mmap) <= j <= BitmapLen(mmap) ==> b0.used[j]
  }

  /** The bit behind the bitmap reads as set. */
  predicate EndReserved(b0: Bitmap, mmap: seq<Region>) {
    BitmapLen(mmap) < |b0.used| && b0.used[BitmapLen(mmap)]
  }

  predicate Bootable(b0: Bitmap, mmap: seq<Region>) { AlignedRegions(mmap) && TailReserved(b0, mmap) }

  /** Page j lies wholly inside an available region. */
  predicate InAvailable(r: Region, j: nat) {
    r.available && r.addr <= j * PAGE_SIZE && j * PAGE_SIZE + PAGE_SIZE <= r.addr + r.len
  }

  lemma FreedIsInside(r: Region, bytes: nat, j: nat)
    requires r.available ==> r.addr % PAGE_SIZE == 0 && r.len % PAGE_SIZE == 0
    requires InRun(Freed(r, bytes), j)
    ensures InAvailable(r, j) && BASE <= j
  {
  }

  /** Region r holds the whole bitmap, and has L pages at or above `memory_base`. */
  predicate Home(r: Region, bytes: nat) {
    r.available && r.addr <= MEMORY_BASE && MEMORY_BASE + bytes <= r.addr + r.len
  }

  /** Page j of region r is freed: it is not below `memory_base`, and if r holds the bitmap it is
      not below the bitmap's last page, nor r's own last page when the bitmap ends inside a page. */
  predicate Given(r: Region, bytes: nat, j: nat) {
    && InAvailable(r, j) && BASE <= j
    && (Home(r, bytes) ==>
         BASE + bytes / PAGE_SIZE <= j && (bytes % PAGE_SIZE > 0 ==> j * PAGE_SIZE + PAGE_SIZE < r.addr + r.len))
  }

  lemma HomeIsOverlap(r: Region, bytes: nat)
    requires r.available && r.addr % PAGE_SIZE == 0 && r.len % PAGE_SIZE == 0 && r.len > 0
    requires r.addr + r.len >= MEMORY_BASE
    ensures var n := r.addr + r.len - MEMORY_BASE;
      Freed(r, bytes) ==
        if Home(r, bytes) then Run((MEMORY_BASE + bytes) / PAGE_SIZE, (n - bytes) / PAGE_SIZE)
        else if r.addr < MEMORY_BASE then Run(BASE, n / PAGE_SIZE)
        else Run(r.addr / PAGE_SIZE, r.len / PAGE_SIZE)
  {
    assert RoundUp(r.addr, PAGE_SIZE) == r.addr && RoundDown(r.len, PAGE_SIZE) == r.len;
  }

  lemma NothingFreed(r: Region, bytes: nat)
    requires r.available ==> r.addr % PAGE_SIZE == 0 && r.len % PAGE_SIZE == 0
    requires !r.available || r.len == 0 || r.addr + r.len < MEMORY_BASE
    ensures Freed(r, bytes).count == 0
  {
  }

  lemma FreedIffGiven(r: Region, bytes: nat, j: nat)
    requires r.available ==> r.addr % PAGE_SIZE == 0 && r.len % PAGE_SIZE == 0
    ensures InRun(Freed(r, bytes), j) <==> Given(r, bytes, j)
  {
    hide Freed;
    if !r.available || r.len == 0 || r.addr + r.len < MEMORY_BASE {
      NothingFreed(r, bytes);
    } else {
      HomeIsOverlap(r, bytes);
      var n := r.addr + r.len - MEMORY_BASE;
      assert n % PAGE_SIZE == 0;
      if Home(r, bytes) {
        LastPart(n / PAGE_SIZE, bytes);
      }
    }
  }

  lemma LastPart(pages: nat, bytes: nat)
    requires bytes <= pages * PAGE_SIZE
    ensures (pages * PAGE_SIZE - bytes) / PAGE_SIZE == pages - BitmapPages(bytes)
    ensures BitmapPages(bytes) == bytes / PAGE_SIZE + if bytes % PAGE_SIZE > 0 then 1 else 0
  {
  }

  /** A region with its start and its length rounded, each on its own. */
  function Rounded(r: Region): Region { Region(RoundUp(r.addr, PAGE_SIZE), RoundDown(r.len, PAGE_SIZE), r.available) }

  lemma RoundedIsAligned(r: Region)
    ensures Aligned(Rounded(r)) && (Aligned(r) ==> Rounded(r) == r)
  {
  }

  lemma FreedOfRounded(r: Region, bytes: nat)
    ensures Freed(r, bytes) == Freed(Rounded(r), bytes)
  {
    hide RoundUp, RoundDown;
    RoundingTwice(r.addr);
    RoundingTwice(r.len);
  }

  lemma RoundingTwice(n: nat)
    ensures RoundUp(RoundUp(n, PAGE_SIZE), PAGE_SIZE) == RoundUp(n, PAGE_SIZE)
    ensures RoundDown(RoundDown(n, PAGE_SIZE), PAGE_SIZE) == RoundDown(n, PAGE_SIZE)
  {
  }

  /** Which pages a region frees, aligned or not. */
  lemma FreedIff(r: Region, bytes: nat, j: nat)
    ensures InRun(Freed(r, bytes), j) <==> Given(Rounded(r), bytes, j)
  {
    hide Freed, Given, Rounded;
    RoundedIsAligned(r);
    FreedOfRounded(r, bytes);
    FreedIffGiven(Rounded(r), bytes, j);
  }

  lemma {:induction false} FreedBits(b: Bitmap, mmap: seq<Region>, bytes: nat, n: nat, j: nat)
    requires n <= |mmap| && j < |b.used|
    ensures |FreeRegions(b, mmap, bytes, n).used| == |b.used|
    ensures !FreeRegions(b, mmap, bytes, n).used[j] <==>
      !b.used[j] || exists i :: 0 <= i < n && InRun(Freed(mmap[i], bytes), j)
  {
    hide Freed;
    if n > 0 {
      FreedBits(b, mmap, bytes, n - 1, j);
    }
  }

  /** The bit of page j is one of those that the bitmap's bytes do not reach, and reads as clear. */
  predicate Stray(b0: Bitmap, mmap: seq<Region>, j: nat) { 8 * BitmapBytes(mmap) <= j < |b0.used| && !b0.used[j] }

  predicate HoldsBitmap(mmap: seq<Region>, j: nat) { BASE <= j < BASE + BitmapPages(BitmapBytes(mmap)) }

  /** One of the first n regions gives page j. */
  predicate GivenAmong(mmap: seq<Region>, n: nat, j: nat)
    requires n <= |mmap|
  {
    exists i :: 0 <= i < n && Given(Rounded(mmap[i]), BitmapBytes(mmap), j)
  }

  predicate GivenBy(mmap: seq<Region>, j: nat) { GivenAmong(mmap, |mmap|, j) }

  /** The clear bits after the first n regions are freed. */
  lemma FreeRegionsBits(b0: Bitmap, mmap: seq<Region>, n: nat, j: nat)
    requires n <= |mmap| && j < |b0.used|
    ensures var b := FreeRegions(AllReserved(b0, mmap), mmap, BitmapBytes(mmap), n);
      |b.used| == |b0.used| && (!b.used[j] <==> GivenAmong(mmap, n, j) || Stray(b0, mmap, j))
  {
    hide Freed, Given, Rounded;
    var bytes := BitmapBytes(mmap);
    FreedBits(AllReserved(b0, mmap), mmap, bytes, n, j);
    forall i | 0 <= i < n ensures InRun(Freed(mmap[i], bytes), j) <==> Given(Rounded(mmap[i]), bytes, j) {
      FreedIff(mmap[i], bytes, j);
    }
  }

  /** Page j is free when only the trailing `alloc` of `init` is left to do. */
  predicate Spare(b0: Bitmap, mmap: seq<Region>, j: nat) {
    j < |b0.used| && (GivenBy(mmap, j) || Stray(b0, mmap, j)) && !HoldsBitmap(mmap, j)
  }

  lemma BeforeLastBits(b0: Bitmap, mmap: seq<Region>, j: nat)
    requires j < |b0.used|
    ensures var b := BeforeLast(b0, mmap);
      b.len == BitmapLen(mmap) && |b.used| == |b0.used| && (!b.used[j] <==> Spare(b0, mmap, j))
  {
    hide GivenAmong;
    FreeRegionsBits(b0, mmap, |mmap|, j);
    FreeRegionsSizes(AllReserved(b0, mmap), mmap, BitmapBytes(mmap), |mmap|);
  }

  /** After `init`, on any map and any memory, a bit is clear if and only if a region gave its page
      or it was clear and never set, its page does not hold the bitmap, and the trailing `alloc`
      did not take it. */
  lemma ClearIffGiven(b0: Bitmap, mmap: seq<Region>, j: nat)
    requires j < |b0.used|
    ensures |Init(b0, mmap).used| == |b0.used| && Init(b0, mmap).len == BitmapLen(mmap)
    ensures !Init(b0, mmap).used[j] <==>
      (GivenBy(mmap, j) || Stray(b0, mmap, j)) && !HoldsBitmap(mmap, j) && !InRun(Wasted(b0, mmap), j)
  {
    hide FirstFit, AllFree, GivenBy, BeforeLast;
    BeforeLastBits(b0, mmap, j);
    AllocTakesLowest(BeforeLast(b0, mmap), BitmapPages(BitmapBytes(mmap)), 1, 0);
  }

  lemma BitmapPagesHold(bytes: nat, j: nat)
    requires j >= BASE
    ensures j < BASE + BitmapPages(bytes) <==> j * 0x1000 < 0x200_0000 + bytes
  {
  }

  /** The same by the numbers: the first `bitmap_len / 8` bytes of the bitmap are set and lie at
      `memory_base`. */
  lemma InitBits(b0: Bitmap, mmap: seq<Region>, j: nat)
    requires j < |b0.used|
    ensures var b := Init(b0, mmap);
      && CoversAvailable(mmap, b.len) && |b.used| == |b0.used|
      && (!b.used[j] <==>
            && (GivenBy(mmap, j) || (b.len / 8 * 8 <= j && !b0.used[j]))
            && !(0x2000 <= j && j * 0x1000 < 0x200_0000 + b.len / 8)
            && !InRun(Wasted(b0, mmap), j))
  {
    hide Init, Wasted, GivenBy, BitmapPages, CoversAvailable, BitmapLen;
    LenCovers(mmap);
    ClearIffGiven(b0, mmap, j);
    if j >= BASE {
      BitmapPagesHold(BitmapBytes(mmap), j);
    }
  }

  /** As many free pages in a row as the bitmap has, from page idx below its end on. */
  predicate SpareRun(b0: Bitmap, mmap: seq<Region>, idx: nat) {
    && BASE <= idx < BitmapLen(mmap)
    && forall j :: idx <= j < idx + BitmapPages(BitmapBytes(mmap)) ==> Spare(b0, mmap, j)
  }

  /** Pages are lost to the trailing `alloc` if and only if there is a bitmap and somewhere are as
      many free pages in a row as it has; those lost are the lowest such. */
  lemma WastedIff(b0: Bitmap, mmap: seq<Region>)
    requires BitmapLen(mmap) <= |b0.used|
    ensures var lost := Wasted(b0, mmap);
      && (lost.count > 0 <==> BitmapBytes(mmap) > 0 && exists idx: nat :: SpareRun(b0, mmap, idx))
      && (lost.count > 0 ==>
            && lost.count == BitmapPages(BitmapBytes(mmap)) && SpareRun(b0, mmap, lost.start)
            && forall idx: nat :: SpareRun(b0, mmap, idx) ==> lost.start <= idx)
  {
    hide FirstFit, Spare, BeforeLast, GivenBy;
    var b, n := BeforeLast(b0, mmap), BitmapPages(BitmapBytes(mmap));
    assert BitmapBytes(mmap) > 0 <==> n > 0;
    BeforeLastSizes(b0, mmap);
    forall k: nat | n > 0 ensures Fits(b, n, 1, 0, k) <==> SpareRun(b0, mmap, BASE + k) {
      FitsIffSpare(b0, mmap, k);
    }
    AllocTakesLowest(b, n, 1, 0);
    forall idx: nat | n > 0 && SpareRun(b0, mmap, idx) ensures idx >= BASE && Fits(b, n, 1, 0, idx - BASE) {
      assert BASE + (idx - BASE) == idx;
    }
  }

  lemma BeforeLastSizes(b0: Bitmap, mmap: seq<Region>)
    ensures BeforeLast(b0, mmap).len == BitmapLen(mmap) && |BeforeLast(b0, mmap).used| == |b0.used|
  {
    FreeRegionsSizes(AllReserved(b0, mmap), mmap, BitmapBytes(mmap), |mmap|);
  }

  lemma FitsIffSpare(b0: Bitmap, mmap: seq<Region>, k: nat)
    requires BitmapPages(BitmapBytes(mmap)) > 0
    ensures Fits(BeforeLast(b0, mmap), BitmapPages(BitmapBytes(mmap)), 1, 0, k) <==> SpareRun(b0, mmap, BASE + k)
  {
    hide Spare, BeforeLast, GivenBy;
    BeforeLastSizes(b0, mmap);
    var b, n := BeforeLast(b0, mmap), BitmapPages(BitmapBytes(mmap));
    forall j: nat | j < |b0.used| ensures !b.used[j] <==> Spare(b0, mmap, j) {
      BeforeLastBits(b0, mmap, j);
    }
    forall j: nat ensures Spare(b0, mmap, j) ==> j < |b0.used| {
      SpareIsInMemory(b0, mmap, j);
    }
    assert Candidate(k, 1) == BASE + k;
    if SpareRun(b0, mmap, BASE + k) {
      assert Spare(b0, mmap, BASE + k + n - 1);
    }
  }

  lemma SpareIsInMemory(b0: Bitmap, mmap: seq<Region>, j: nat)
    ensures Spare(b0, mmap, j) ==> j < |b0.used|
  {
  }

  /** After `init` every clear bit that the bitmap's bytes reach, or that read as set before, names a
      page wholly inside an available region, at or above `memory_base` and outside the pages that
      hold the bitmap. */
  lemma ClearBitsAreAvailable(b0: Bitmap, mmap: seq<Region>, j: nat)
    requires AlignedRegions(mmap) && j < |b0.used| && !Stray(b0, mmap, j)
    ensures |Init(b0, mmap).used| == |b0.used| && Init(b0, mmap).len == BitmapLen(mmap)
    ensures !Init(b0, mmap).used[j] ==>
      && BASE + BitmapPages(BitmapBytes(mmap)) <= j
      && exists r :: r in mmap && InAvailable(r, j)
  {
    hide Init, Given, Rounded, InAvailable;
    ClearIffGiven(b0, mmap, j);
    forall i | 0 <= i < |mmap| && Given(Rounded(mmap[i]), BitmapBytes(mmap), j)
      ensures mmap[i] in mmap && InAvailable(mmap[i], j) && BASE <= j
    {
      RoundedIsAligned(mmap[i]);
      GivenIsInside(Rounded(mmap[i]), BitmapBytes(mmap), j);
      RoundedIsAvailable(mmap[i]);
    }
  }

  lemma RoundedIsAvailable(r: Region)
    ensures Rounded(r).available == r.available
  {
  }

  lemma GivenIsInside(r: Region, bytes: nat, j: nat)
    requires Given(r, bytes, j)
    ensures InAvailable(r, j) && BASE <= j && r.available
  {
  }

  lemma {:induction false} FreeRegionsSizes(b: Bitmap, mmap: seq<Region>, bytes: nat, n: nat)
    requires n <= |mmap|
    ensures var b' := FreeRegions(b, mmap, bytes, n);
      |b'.used| == |b.used| && b'.len == b.len && b'.total == b.total
  {
    hide Freed;
    if n > 0 {
      FreeRegionsSizes(b, mmap, bytes, n - 1);
    }
  }

  /** Available regions do not overlap. */
  predicate DisjointRegions(mmap: seq<Region>) {
    forall i, j :: 0 <= i < j < |mmap| && mmap[i].available && mmap[j].available ==>
      mmap[i].addr + mmap[i].len <= mmap[j].addr || mmap[j].addr + mmap[j].len <= mmap[i].addr
  }

  lemma AvailableIsBelow(mmap: seq<Region>, r: Region, j: nat)
    requires r in mmap && InAvailable(r, j)
    ensures j < BitmapLen(mmap)
  {
    TopIsHighest(mmap);
  }

  lemma {:induction false} ClearOneMore(used: seq<bool>, lo: nat, hi: nat, j: nat)
    requires hi <= |used| && lo <= j < hi
    ensures Clear(used[j := false], lo, hi) == Clear(used, lo, hi) + if used[j] then 1 else 0
    decreases hi - lo
  {
    if j == hi - 1 {
      ClearDepends(used[j := false], used, lo, hi - 1);
    } else {
      ClearOneMore(used, lo, hi - 1, j);
    }
  }

  /** Freeing pages adds those that were not free to the clear bits. */
  lemma {:induction false} ClearAfterFreeing(used: seq<bool>, lo: nat, hi: nat, idx: nat, count: nat)
    requires hi <= |used| && lo <= idx && idx + count <= hi
    ensures Clear(Fill(used, idx, count, false), lo, hi) == Clear(used, lo, hi) + count - Clear(used, idx, idx + count)
  {
    if count == 0 {
      assert Fill(used, idx, 0, false) == used;
    } else {
      var u, last := Fill(used, idx, count - 1, false), idx + count - 1;
      assert Fill(used, idx, count, false) == u[last := false];
      ClearAfterFreeing(used, lo, hi, idx, count - 1);
      ClearOneMore(u, lo, hi, last);
    }
  }

  /** Freeing used pages adds them to the clear bits. */
  lemma ClearAfterFree(used: seq<bool>, lo: nat, hi: nat, idx: nat, count: nat)
    requires hi <= |used| && lo <= idx && idx + count <= hi
    requires forall j :: idx <= j < idx + count ==> used[j]
    ensures Clear(Fill(used, idx, count, false), lo, hi) == Clear(used, lo, hi) + count
  {
    ClearAfterFreeing(used, lo, hi, idx, count);
    if count > 0 {
      ClearIsPositive(used, idx, idx + count);
    }
  }

  /** The clear bits of a stretch, counted. */
  lemma {:induction false} ClearIsCount(used: seq<bool>, lo: nat, hi: nat, pages: set<nat>)
    requires lo <= hi <= |used| && forall j: nat :: j in pages <==> lo <= j < hi && !used[j]
    ensures Clear(used, lo, hi) == |pages|
    decreases hi - lo
  {
    if lo < hi {
      ClearIsCount(used, lo, hi - 1, pages - {hi - 1});
    } else {
      assert pages == {};
    }
  }

  lemma {:induction false} NothingClear(used: seq<bool>, hi: nat)
    requires hi <= |used| && forall j :: 0 <= j < hi ==> used[j]
    ensures Clear(used, 0, hi) == 0
  {
    if hi > 0 {
      NothingClear(used, hi - 1);
    }
  }

  /** The pages that region i gives although one of the regions before it gave them. */
  function Again(mmap: seq<Region>, i: nat): set<nat>
    requires i < |mmap|
  {
    set j: nat | j < BitmapLen(mmap) && Given(Rounded(mmap[i]), BitmapBytes(mmap), j) && GivenAmong(mmap, i, j)
  }

  /** How many pages are counted more than once. */
  function Recounted(mmap: seq<Region>, n: nat): nat
    requires n <= |mmap|
  {
    if n == 0 then 0 else Recounted(mmap, n - 1) + |Again(mmap, n - 1)|
  }

  /** The pages of the bitmap that some region gives. */
  function OwnGiven(mmap: seq<Region>): set<nat> {
    set j: nat | j < BitmapLen(mmap) && HoldsBitmap(mmap, j) && GivenBy(mmap, j)
  }

  lemma ReservedBits(b0: Bitmap, mmap: seq<Region>, n: nat, j: nat)
    requires TailReserved(b0, mmap) && n <= |mmap| && j < BitmapLen(mmap)
    ensures var b := FreeRegions(AllReserved(b0, mmap), mmap, BitmapBytes(mmap), n);
      |b.used| == |b0.used| && (!b.used[j] <==> GivenAmong(mmap, n, j))
  {
    FreeRegionsBits(b0, mmap, n, j);
  }

  lemma RunFits(b0: Bitmap, mmap: seq<Region>, n: nat)
    requires TailReserved(b0, mmap) && n < |mmap|
    ensures var b := FreeRegions(AllReserved(b0, mmap), mmap, BitmapBytes(mmap), n);
      var run := Freed(mmap[n], BitmapBytes(mmap));
      |b.used| == |b0.used| && run.start + run.count <= BitmapLen(mmap) < |b0.used|
  {
    hide Freed, FreeRegions;
    FreedFits(mmap, mmap[n], BitmapBytes(mmap));
    FreeRegionsSizes(AllReserved(b0, mmap), mmap, BitmapBytes(mmap), n);
    TailSize(b0, mmap);
  }

  lemma AgainIs(b0: Bitmap, mmap: seq<Region>, n: nat, j: nat)
    requires TailReserved(b0, mmap) && n < |mmap|
    ensures var b := FreeRegions(AllReserved(b0, mmap), mmap, BitmapBytes(mmap), n);
      var run := Freed(mmap[n], BitmapBytes(mmap));
      && |b.used| == |b0.used| && run.start + run.count <= BitmapLen(mmap) < |b0.used|
      && (j in Again(mmap, n) <==> run.start <= j < run.start + run.count && !b.used[j])
  {
    hide Freed, FreeRegions, AllReserved, TailReserved, Given, Rounded, GivenAmong, BitmapLen, BitmapBytes;
    RunFits(b0, mmap, n);
    if j < BitmapLen(mmap) {
      ReservedBits(b0, mmap, n, j);
      FreedIff(mmap[n], BitmapBytes(mmap), j);
    }
  }

  /** One turn of the loop of `init`: of its pages, those given before are clear already. */
  lemma FreeOnceMore(b0: Bitmap, mmap: seq<Region>, n: nat)
    requires TailReserved(b0, mmap) && n < |mmap|
    ensures var b := FreeRegions(AllReserved(b0, mmap), mmap, BitmapBytes(mmap), n);
      var run := Freed(mmap[n], BitmapBytes(mmap));
      && |b.used| == |b0.used| && run.start + run.count <= BitmapLen(mmap) < |b0.used|
      && Clear(b.used, run.start, run.start + run.count) == |Again(mmap, n)|
  {
    hide Freed, FreeRegions, AllReserved, TailReserved, Again, BitmapLen, BitmapBytes, Clear;
    var b := FreeRegions(AllReserved(b0, mmap), mmap, BitmapBytes(mmap), n);
    var run := Freed(mmap[n], BitmapBytes(mmap));
    RunFits(b0, mmap, n);
    forall j: nat
      ensures j in Again(mmap, n) <==> run.start <= j < run.start + run.count && !b.used[j]
    {
      AgainIs(b0, mmap, n, j);
    }
    ClearIsCount(b.used, run.start, run.start + run.count, Again(mmap, n));
  }

  lemma TailSize(b0: Bitmap, mmap: seq<Region>)
    requires TailReserved(b0, mmap)
    ensures BitmapLen(mmap) < |b0.used|
  {
  }

  lemma FreeRegionsStep(b: Bitmap, mmap: seq<Region>, bytes: nat, n: nat)
    requires n < |mmap|
    ensures var (b', run) := (FreeRegions(b, mmap, bytes, n), Freed(mmap[n], bytes));
      FreeRegions(b, mmap, bytes, n + 1) == Free(b', run.start, run.count)
  {
    hide Freed, Free;
  }

  lemma NoRegionsCount(b0: Bitmap, mmap: seq<Region>)
    requires TailReserved(b0, mmap)
    ensures var b := FreeRegions(AllReserved(b0, mmap), mmap, BitmapBytes(mmap), 0);
      && |b.used| == |b0.used| && BitmapLen(mmap) < |b0.used|
      && b.free == b0.free && Clear(b.used, 0, BitmapLen(mmap)) == 0
  {
    hide Clear;
    NothingClear(AllReserved(b0, mmap).used, BitmapLen(mmap));
  }

  /** The counter and the clear bits after n regions. */
  lemma {:induction false} FreeRegionsCount(b0: Bitmap, mmap: seq<Region>, n: nat)
    requires TailReserved(b0, mmap) && n <= |mmap|
    ensures var b := FreeRegions(AllReserved(b0, mmap), mmap, BitmapBytes(mmap), n);
      && |b.used| == |b0.used| && BitmapLen(mmap) < |b0.used|
      && b.free - b0.free == Clear(b.used, 0, BitmapLen(mmap)) + Recounted(mmap, n)
  {
    hide Freed, Again, FreeRegions, AllReserved, TailReserved, BitmapLen, BitmapBytes, Clear;
    if n == 0 {
      NoRegionsCount(b0, mmap);
    } else {
      FreeRegionsCount(b0, mmap, n - 1);
      FreeRegionsCountStep(b0, mmap, n - 1);
    }
  }

  lemma FreeRegionsCountStep(b0: Bitmap, mmap: seq<Region>, n: nat)
    requires TailReserved(b0, mmap) && n < |mmap|
    ensures var (b, b') := (FreeRegions(AllReserved(b0, mmap), mmap, BitmapBytes(mmap), n),
                            FreeRegions(AllReserved(b0, mmap), mmap, BitmapBytes(mmap), n + 1));
      var len := BitmapLen(mmap);
      && |b.used| == |b'.used| == |b0.used| && len < |b0.used|
      && b'.free - Clear(b'.used, 0, len) - Recounted(mmap, n + 1) ==
           b.free - Clear(b.used, 0, len) - Recounted(mmap, n)
  {
    hide Freed, Again, FreeRegions, AllReserved, TailReserved, BitmapLen, BitmapBytes, Clear;
    var bytes := BitmapBytes(mmap);
    var b, run := FreeRegions(AllReserved(b0, mmap), mmap, bytes, n), Freed(mmap[n], bytes);
    FreeOnceMore(b0, mmap, n);
    FreeRegionsStep(AllReserved(b0, mmap), mmap, bytes, n);
    ClearAfterFreeing(b.used, 0, BitmapLen(mmap), run.start, run.count);
  }

  /** The pages that some region gives. */
  function AllGiven(mmap: seq<Region>): set<nat> { set j: nat | j < BitmapLen(mmap) && GivenBy(mmap, j) }

  lemma GivenAreClear(b0: Bitmap, mmap: seq<Region>)
    requires TailReserved(b0, mmap)
    ensures var b := FreeRegions(AllReserved(b0, mmap), mmap, BitmapBytes(mmap), |mmap|);
      |b.used| == |b0.used| && BitmapLen(mmap) < |b0.used| && Clear(b.used, 0, BitmapLen(mmap)) == |AllGiven(mmap)|
  {
    hide FreeRegions, GivenAmong, AllReserved, TailReserved;
    var b := FreeRegions(AllReserved(b0, mmap), mmap, BitmapBytes(mmap), |mmap|);
    FreeRegionsCount(b0, mmap, |mmap|);
    forall j: nat | j < BitmapLen(mmap) ensures !b.used[j] <==> GivenBy(mmap, j) {
      ReservedBits(b0, mmap, |mmap|, j);
    }
    ClearIsCount(b.used, 0, BitmapLen(mmap), AllGiven(mmap));
  }

  /** The counter does not depend on the bits. */
  lemma {:induction false} FreeDepends(b: Bitmap, b': Bitmap, mmap: seq<Region>, bytes: nat, n: nat)
    requires n <= |mmap| && b.free == b'.free
    ensures FreeRegions(b, mmap, bytes, n).free == FreeRegions(b', mmap, bytes, n).free
  {
    hide Freed;
    if n > 0 {
      FreeDepends(b, b', mmap, bytes, n - 1);
    }
  }

  /** b0 with every bit set. */
  function Sealed(b0: Bitmap): Bitmap { b0.(used := seq(|b0.used|, _ => true)) }

  /** What the regions add to the counter, whatever the memory held. */
  lemma GivenAreCounted(b0: Bitmap, mmap: seq<Region>)
    requires BitmapLen(mmap) < |b0.used|
    ensures BeforeLast(b0, mmap).free == BeforeLast(b0, mmap).total ==
      b0.free + |AllGiven(mmap)| + Recounted(mmap, |mmap|)
  {
    hide FreeRegions, AllGiven, Recounted, BitmapLen, BitmapBytes;
    var b1 := Sealed(b0);
    FreeRegionsCount(b1, mmap, |mmap|);
    GivenAreClear(b1, mmap);
    FreeDepends(AllReserved(b0, mmap), AllReserved(b1, mmap), mmap, BitmapBytes(mmap), |mmap|);
  }

  /** The pages below the end of the bitmap that are clear though no region gave them. */
  function OnlyStray(b0: Bitmap, mmap: seq<Region>): set<nat> {
    set j: nat | j < BitmapLen(mmap) && Stray(b0, mmap, j) && !GivenBy(mmap, j) && !HoldsBitmap(mmap, j)
  }

  /** The clear bits once the bitmap's pages are reserved again. */
  lemma ClearBeforeLast(b0: Bitmap, mmap: seq<Region>)
    requires BitmapLen(mmap) < |b0.used|
    ensures |BeforeLast(b0, mmap).used| == |b0.used|
    ensures Clear(BeforeLast(b0, mmap).used, 0, BitmapLen(mmap))
      == |AllGiven(mmap)| - |OwnGiven(mmap)| + |OnlyStray(b0, mmap)|
  {
    hide BeforeLast, GivenAmong, BitmapLen, BitmapBytes, Stray;
    BeforeLastSizes(b0, mmap);
    var b, given, own, stray := BeforeLast(b0, mmap), AllGiven(mmap), OwnGiven(mmap), OnlyStray(b0, mmap);
    forall j: nat | j < BitmapLen(mmap) ensures !b.used[j] <==> j in given - own + stray {
      BeforeLastBits(b0, mmap, j);
    }
    ClearIsCount(b.used, 0, BitmapLen(mmap), given - own + stray);
    assert own <= given && (given - own) !! stray;
  }

  function PagesAbove(r: Region): nat {
    if MEMORY_BASE <= r.addr + r.len then (r.addr + r.len - MEMORY_BASE) / PAGE_SIZE else 0
  }

  /** The last page of the bitmap is used in part only and gets freed with its region. */
  predicate Loose(r: Region, bytes: nat) { bytes % PAGE_SIZE > 0 && PagesAbove(r) >= bytes / PAGE_SIZE + 2 }

  lemma GivenToBitmap(r: Region, bytes: nat, j: nat)
    requires Home(r, bytes) && r.addr % PAGE_SIZE == 0 && r.len % PAGE_SIZE == 0
    requires BASE <= j < BASE + BitmapPages(bytes)
    ensures Given(r, bytes, j) <==> Loose(r, bytes) && j == BASE + bytes / PAGE_SIZE
  {
    var pages := PagesAbove(r);
    assert r.addr + r.len - MEMORY_BASE == pages * PAGE_SIZE;
    LastPart(pages, bytes);
  }

  lemma HomeHoldsBitmap(r: Region, bytes: nat, j: nat)
    requires Home(r, bytes) && r.addr % PAGE_SIZE == 0 && r.len % PAGE_SIZE == 0
    requires BASE <= j < BASE + BitmapPages(bytes)
    ensures InAvailable(r, j)
  {
  }

  lemma HomeAvailable(r: Region, bytes: nat)
    requires Home(r, bytes)
    ensures r.available
  {
  }

  lemma OneRegion(mmap: seq<Region>, i: nat, h: nat, j: nat)
    requires DisjointRegions(mmap) && i < |mmap| && h < |mmap| && InAvailable(mmap[i], j) && InAvailable(mmap[h], j)
    ensures i == h
  {
  }

  /** The last call of `init` gives away as many pages as the bitmap has, and counts them. */
  lemma GivenAway(b: Bitmap, count: nat)
    requires b.len < |b.used| && b.used[b.len]
    requires b.total == 0 ==> Clear(b.used, 0, b.len) == 0
    ensures var b' := Alloc(b, count, 1, 0).0;
      |b'.used| == |b.used| && b'.free - Clear(b'.used, 0, b.len) == b.free - Clear(b.used, 0, b.len)
  {
    AllocTakesLowest(b, count, 1, 0);
    match Alloc(b, count, 1, 0)
    case (_, None) =>
    case (b', Some(idx)) =>
      assert AllFree(b.used, idx, count);
      assert idx + count <= b.len by {
        assert count > 0 && idx < b.len ==> !b.used[idx];
      }
      ClearAfterFill(b.used, 0, b.len, idx, count);
  }

  /** Some page is given, or none is clear without having been given. */
  predicate Countable(b0: Bitmap, mmap: seq<Region>) {
    EndReserved(b0, mmap) && (AllGiven(mmap) == {} ==> OnlyStray(b0, mmap) == {})
  }

  lemma OwnIsGiven(mmap: seq<Region>)
    ensures OwnGiven(mmap) <= AllGiven(mmap)
  {
  }

  /** If no page was free before the trailing `alloc`, none is afterwards. */
  lemma NoTotalNoPages(b0: Bitmap, mmap: seq<Region>)
    requires Countable(b0, mmap) && b0.free == 0
    ensures var b := Init(b0, mmap);
      && b.len <= |b.used| && |BeforeLast(b0, mmap).used| == |b.used| && b.len == BitmapLen(mmap)
      && b.total == BeforeLast(b0, mmap).total
      && (b.total == 0 ==> Clear(BeforeLast(b0, mmap).used, 0, b.len) == 0 && Clear(b.used, 0, b.len) == 0)
  {
    hide Freed, FirstFit, OwnGiven, AllGiven, OnlyStray, Recounted, BeforeLast, BitmapLen, BitmapBytes;
    var b3 := BeforeLast(b0, mmap);
    GivenAreCounted(b0, mmap);
    ClearBeforeLast(b0, mmap);
    OwnIsGiven(mmap);
    BeforeLastSizes(b0, mmap);
    AllocTakesLowest(b3, BitmapPages(BitmapBytes(mmap)), 1, 0);
    hide Alloc;
    ClearShrinks(b3.used, Init(b0, mmap).used, BitmapLen(mmap));
  }

  /** After `init`, on any map, the free counter is the number of clear bits, and one more for every
      page of the bitmap that a region gave, which are freed with it and reserved again without the
      counter being told, and for every time that a page was given again, and one less for every page
      that is clear though no region gave it. */
  lemma InitAccounts(b0: Bitmap, mmap: seq<Region>)
    requires Countable(b0, mmap) && b0.free == 0
    ensures var b := Init(b0, mmap);
      && b.len <= |b.used|
      && b.free + |OnlyStray(b0, mmap)| == Clear(b.used, 0, b.len) + |OwnGiven(mmap)| + Recounted(mmap, |mmap|)
  {
    hide Freed, Alloc, OwnGiven, AllGiven, OnlyStray, Recounted, BeforeLast, BitmapLen, BitmapBytes;
    GivenAreCounted(b0, mmap);
    ClearBeforeLast(b0, mmap);
    NoTotalNoPages(b0, mmap);
    BeforeLastSizes(b0, mmap);
    BeforeLastGuard(b0, mmap);
    GivenAway(BeforeLast(b0, mmap), BitmapPages(BitmapBytes(mmap)));
  }

  lemma BeforeLastGuard(b0: Bitmap, mmap: seq<Region>)
    requires EndReserved(b0, mmap)
    ensures BitmapLen(mmap) < |BeforeLast(b0, mmap).used| && BeforeLast(b0, mmap).used[BitmapLen(mmap)]
  {
    hide BeforeLast, GivenBy;
    BeforeLastBits(b0, mmap, BitmapLen(mmap));
    if GivenBy(mmap, BitmapLen(mmap)) {
      GivenIsBelow(mmap, BitmapLen(mmap));
    }
  }

  /** No page is given by two regions. */
  ghost predicate GivenOnce(mmap: seq<Region>) {
    forall i, k, j: nat :: 0 <= i < k < |mmap| && Given(Rounded(mmap[i]), BitmapBytes(mmap), j) ==>
      !Given(Rounded(mmap[k]), BitmapBytes(mmap), j)
  }

  /** No region gives a page of the bitmap. */
  ghost predicate KeepsBitmap(mmap: seq<Region>) {
    forall j: nat :: HoldsBitmap(mmap, j) ==> !GivenBy(mmap, j)
  }

  lemma {:induction false} RecountedIff(mmap: seq<Region>, n: nat)
    requires n <= |mmap|
    ensures Recounted(mmap, n) == 0 <==> forall k :: 0 <= k < n ==> Again(mmap, k) == {}
  {
    hide Again;
    if n > 0 {
      RecountedIff(mmap, n - 1);
    }
  }

  lemma GivenOnceIff(mmap: seq<Region>)
    ensures GivenOnce(mmap) <==> forall k :: 0 <= k < |mmap| ==> Again(mmap, k) == {}
  {
    hide Given, Rounded;
    forall i, k, j: nat | 0 <= i < k < |mmap| && Given(Rounded(mmap[i]), BitmapBytes(mmap), j)
        && Given(Rounded(mmap[k]), BitmapBytes(mmap), j)
      ensures j in Again(mmap, k)
    {
      assert GivenBy(mmap, j) && GivenAmong(mmap, k, j);
      GivenIsBelow(mmap, j);
    }
    forall k, j | 0 <= k < |mmap| && j in Again(mmap, k) ensures !GivenOnce(mmap) {
      var i :| 0 <= i < k && Given(Rounded(mmap[i]), BitmapBytes(mmap), j);
    }
  }

  lemma KeepsBitmapIff(mmap: seq<Region>)
    ensures KeepsBitmap(mmap) <==> OwnGiven(mmap) == {}
  {
    hide GivenAmong;
    forall j: nat | HoldsBitmap(mmap, j) && GivenBy(mmap, j) ensures j in OwnGiven(mmap) {
      GivenIsBelow(mmap, j);
    }
  }

  /** The counter is exact if and only if as many pages are clear without having been given as there
      are pages of the bitmap given and pages given again. */
  lemma InitExactIff(b0: Bitmap, mmap: seq<Region>)
    requires Countable(b0, mmap) && b0.free == 0
    ensures var b := Init(b0, mmap);
      && b.len <= |b.used|
      && (b.free == Clear(b.used, 0, b.len) <==>
            |OwnGiven(mmap)| + Recounted(mmap, |mmap|) == |OnlyStray(b0, mmap)|)
      && (TailReserved(b0, mmap) ==>
            (b.free == Clear(b.used, 0, b.len) <==> KeepsBitmap(mmap) && GivenOnce(mmap)))
  {
    hide Init, OwnGiven, OnlyStray, KeepsBitmap, GivenOnce, TailReserved, Countable;
    InitAccounts(b0, mmap);
    OverIff(mmap);
    if TailReserved(b0, mmap) {
      NothingStray(b0, mmap);
    }
  }

  lemma OverIff(mmap: seq<Region>)
    ensures |OwnGiven(mmap)| + Recounted(mmap, |mmap|) == 0 <==> KeepsBitmap(mmap) && GivenOnce(mmap)
  {
    hide OwnGiven, Again, KeepsBitmap, GivenOnce;
    RecountedIff(mmap, |mmap|);
    GivenOnceIff(mmap);
    KeepsBitmapIff(mmap);
  }

  lemma NothingStray(b0: Bitmap, mmap: seq<Region>)
    requires TailReserved(b0, mmap)
    ensures Countable(b0, mmap) && OnlyStray(b0, mmap) == {}
  {
    hide GivenAmong, BitmapLen, BitmapBytes;
    assert 8 * BitmapBytes(mmap) <= BitmapLen(mmap) by { TailIsShort(mmap); }
  }

  lemma TailIsShort(mmap: seq<Region>)
    ensures 8 * BitmapBytes(mmap) <= BitmapLen(mmap)
  {
    hide BitmapLen;
  }

  /** Aligned regions that do not overlap give no page twice. */
  lemma DisjointGiveOnce(mmap: seq<Region>)
    requires AlignedRegions(mmap) && DisjointRegions(mmap)
    ensures GivenOnce(mmap)
  {
    hide Given, InAvailable, Rounded;
    forall i, j: nat | 0 <= i < |mmap| && Given(Rounded(mmap[i]), BitmapBytes(mmap), j)
      ensures InAvailable(mmap[i], j)
    {
      assert mmap[i] in mmap;
      GivenIsInside(Rounded(mmap[i]), BitmapBytes(mmap), j);
      RoundedIsAvailable(mmap[i]);
      RoundedIsAligned(mmap[i]);
    }
    forall i, k, j: nat | 0 <= i < k < |mmap| && InAvailable(mmap[i], j) && InAvailable(mmap[k], j) ensures false {
      OneRegion(mmap, i, k, j);
    }
  }

  /** On aligned regions that do not overlap, one of which holds the whole bitmap, the only page of the
      bitmap that can be given is its last, when it is loose. */
  lemma HomeAccounts(b0: Bitmap, mmap: seq<Region>, h: nat)
    requires Bootable(b0, mmap) && DisjointRegions(mmap) && b0.free == 0
    requires h < |mmap| && Home(mmap[h], BitmapBytes(mmap)) && mmap[h].len > 0
    ensures var b := Init(b0, mmap);
      b.len <= |b.used| && b.free == Clear(b.used, 0, b.len) + if Loose(mmap[h], BitmapBytes(mmap)) then 1 else 0
  {
    hide Init, Home, Loose, DisjointRegions, Again, GivenOnce, TailReserved, BitmapPages, Countable, OnlyStray;
    NothingStray(b0, mmap);
    InitAccounts(b0, mmap);
    DisjointGiveOnce(mmap);
    GivenOnceIff(mmap);
    RecountedIff(mmap, |mmap|);
    var p := BASE + BitmapBytes(mmap) / PAGE_SIZE;
    forall j: nat ensures j in OwnGiven(mmap) <==> Loose(mmap[h], BitmapBytes(mmap)) && j == p {
      HomeGives(mmap, h, j);
    }
    assert OwnGiven(mmap) == if Loose(mmap[h], BitmapBytes(mmap)) then {p} else {};
  }

  lemma HomeGives(mmap: seq<Region>, h: nat, j: nat)
    requires AlignedRegions(mmap) && DisjointRegions(mmap)
    requires h < |mmap| && Home(mmap[h], BitmapBytes(mmap)) && mmap[h].len > 0
    ensures j in OwnGiven(mmap) <==>
      Loose(mmap[h], BitmapBytes(mmap)) && j == BASE + BitmapBytes(mmap) / PAGE_SIZE
  {
    hide Given, InAvailable, Home, Loose, Rounded, BitmapPages, GivenOnce, DisjointRegions;
    var bytes, p := BitmapBytes(mmap), BASE + BitmapBytes(mmap) / PAGE_SIZE;
    assert mmap[h] in mmap;
    assert mmap[h].available by { HomeAvailable(mmap[h], bytes); }
    RoundedIsAligned(mmap[h]);
    if Loose(mmap[h], bytes) {
      LoosePage(mmap[h], bytes);
    }
    if BASE <= j < BASE + BitmapPages(bytes) {
      GivenToBitmap(mmap[h], bytes, j);
      HomeHoldsBitmap(mmap[h], bytes, j);
      AvailableIsBelow(mmap, mmap[h], j);
      forall i | 0 <= i < |mmap| && Given(Rounded(mmap[i]), bytes, j) ensures i == h {
        assert mmap[i] in mmap;
        GivenIsInside(Rounded(mmap[i]), bytes, j);
        RoundedIsAvailable(mmap[i]);
        RoundedIsAligned(mmap[i]);
        OneRegion(mmap, i, h, j);
      }
    }
  }

  lemma LoosePage(r: Region, bytes: nat)
    requires Loose(r, bytes)
    ensures BASE <= BASE + bytes / PAGE_SIZE < BASE + BitmapPages(bytes)
  {
  }

  /** Fewer clear bits. */
  lemma {:induction false} ClearShrinks(u: seq<bool>, v: seq<bool>, hi: nat)
    requires hi <= |u| && hi <= |v| && forall j :: 0 <= j < hi && u[j] ==> v[j]
    ensures Clear(v, 0, hi) <= Clear(u, 0, hi)
  {
    if hi > 0 {
      ClearShrinks(u, v, hi - 1);
    }
  }

  lemma BootedBitmap(b0: Bitmap, mmap: seq<Region>)
    requires EndReserved(b0, mmap)
    ensures var b := Init(b0, mmap); b.len == BitmapLen(mmap) < |b.used| && b.used[b.len]
  {
    hide Init, Wasted;
    InitIsGuardedIff(b0, mmap);
  }

  /** What is freed lies below the end of the bitmap. */
  lemma GivenIsBelow(mmap: seq<Region>, j: nat)
    requires GivenBy(mmap, j)
    ensures j < BitmapLen(mmap)
  {
    hide Freed;
    var i :| 0 <= i < |mmap| && Given(Rounded(mmap[i]), BitmapBytes(mmap), j);
    TopIsHighest(mmap);
  }

  /** The bit behind the end of the bitmap is set after `init` if and only if it was set before, its
      page holds the bitmap, or the trailing `alloc` ran past the end and took it. */
  lemma InitIsGuardedIff(b0: Bitmap, mmap: seq<Region>)
    requires BitmapLen(mmap) < |b0.used|
    ensures var (b, len) := (Init(b0, mmap), BitmapLen(mmap));
      && b.len == len && |b.used| == |b0.used|
      && (b.used[len] <==> b0.used[len] || HoldsBitmap(mmap, len) || InRun(Wasted(b0, mmap), len))
  {
    hide Init, Wasted, GivenBy;
    var len := BitmapLen(mmap);
    ClearIffGiven(b0, mmap, len);
    if GivenBy(mmap, len) {
      GivenIsBelow(mmap, len);
    }
  }

  /** The run that a region frees ends inside the bitmap. */
  lemma FreedFits(mmap: seq<Region>, r: Region, bytes: nat)
    requires r in mmap
    ensures Freed(r, bytes).start + Freed(r, bytes).count <= BitmapLen(mmap)
  {
    hide Freed;
    FreedOfRounded(r, bytes);
    var s := Rounded(r);
    if !s.available || s.len == 0 || s.addr + s.len < MEMORY_BASE {
      NothingIsFreed(s, bytes);
    } else {
      TopIsHighest(mmap);
      RoundedIsAligned(r);
      HomeIsOverlap(s, bytes);
      RoundedEnd(r, MemoryTop(mmap));
    }
  }

  lemma NothingIsFreed(r: Region, bytes: nat)
    requires !r.available || r.len == 0 || r.addr + r.len < MEMORY_BASE
    requires Aligned(r)
    ensures Freed(r, bytes) == Run(0, 0)
  {
  }

  lemma RoundedEnd(r: Region, top: nat)
    requires r.addr + r.len <= top
    ensures (Rounded(r).addr + Rounded(r).len) / PAGE_SIZE <= (top + PAGE_SIZE - 1) / PAGE_SIZE
  {
  }

  /** Rounding the start up does not push the region past its end. */
  predicate SlackFits(r: Region) { r.addr % PAGE_SIZE == 0 || r.len % PAGE_SIZE >= PAGE_SIZE - r.addr % PAGE_SIZE }

  lemma RoundUpIs(n: nat)
    ensures RoundUp(n, PAGE_SIZE) == if n % PAGE_SIZE == 0 then n else n - n % PAGE_SIZE + PAGE_SIZE
  {
  }

  /** The branches of `init` in which a region frees nothing: it is shorter than a page, it ends at
      or below `memory_base`, or less than a page of it is left behind the bitmap. */
  predicate FreesNothing(r: Region, bytes: nat) {
    var s := Rounded(r);
    || s.len == 0 || s.addr + s.len <= MEMORY_BASE
    || (Home(s, bytes) && s.addr + s.len < MEMORY_BASE + bytes + PAGE_SIZE)
  }

  /** Start and length are rounded apart from each other: what an available region frees lies inside
      it if and only if its start is aligned or its length leaves enough slack, or it frees nothing,
      or it holds a bitmap that ends inside a page, which costs it its last page. */
  lemma FreedInsideIffSlack(r: Region, bytes: nat)
    requires r.available
    ensures (forall j: nat :: InRun(Freed(r, bytes), j) ==> InAvailable(r, j)) <==>
      SlackFits(r) || FreesNothing(r, bytes) || (bytes % PAGE_SIZE > 0 && Home(Rounded(r), bytes))
  {
    hide Freed, Given, InAvailable, SlackFits, FreesNothing, Home, Rounded;
    forall j: nat ensures InRun(Freed(r, bytes), j) <==> Given(Rounded(r), bytes, j) {
      FreedIff(r, bytes, j);
    }
    if SlackFits(r) || FreesNothing(r, bytes) || (bytes % PAGE_SIZE > 0 && Home(Rounded(r), bytes)) {
      forall j: nat | Given(Rounded(r), bytes, j) ensures InAvailable(r, j) {
        FreedPageFits(r, bytes, j);
      }
    } else {
      var last := (RoundUp(r.addr, PAGE_SIZE) + RoundDown(r.len, PAGE_SIZE)) / PAGE_SIZE - 1;
      LastPageSticksOut(r, bytes);
      assert !InAvailable(r, last);
    }
  }

  lemma FreedPageFits(r: Region, bytes: nat, j: nat)
    requires r.available && Given(Rounded(r), bytes, j)
    requires SlackFits(r) || FreesNothing(r, bytes) || (bytes % PAGE_SIZE > 0 && Home(Rounded(r), bytes))
    ensures InAvailable(r, j)
  {
    RoundUpIs(r.addr);
  }

  lemma LastPageSticksOut(r: Region, bytes: nat)
    requires r.available && !SlackFits(r) && !FreesNothing(r, bytes)
    requires !(bytes % PAGE_SIZE > 0 && Home(Rounded(r), bytes))
    ensures var last := (RoundUp(r.addr, PAGE_SIZE) + RoundDown(r.len, PAGE_SIZE)) / PAGE_SIZE - 1;
      last >= 0 && Given(Rounded(r), bytes, last) && !InAvailable(r, last)
  {
    RoundUpIs(r.addr);
  }
}
