/** From the boot loader's memory map to the heap: `Pmm::init`, then `new_address_space`, then
    any calls of `malloc`. */
module Boot {
  import opened Wrappers
  import opened Paging
  import opened Frames
  import opened Tables
  import opened Mapping
  import opened AddressSpace
  import Heap
  import FrameInit

  /** What is reserved stays reserved. */
  ghost predicate ReservesMore(s: Sys, s': Sys) {
    && s'.frames.len == s.frames.len && |s'.frames.used| == |s.frames.used|
    && forall f: nat :: Reserved(s.frames, f) ==> Reserved(s'.frames, f)
  }

  ghost predicate WasFree(s: Sys, b: Heap.Block) {
    forall f: nat :: InRun(Heap.Run(b), f) ==> !Reserved(s.frames, f)
  }

  /** A call takes its block's frames from the free ones. */
  lemma MallocTakesFree(h: Heap.State, root: nat, bytes: nat)
    requires Heap.Ready(h, root) && Heap.Roomy(h, bytes)
    ensures ReservesMore(h.sys, Heap.Malloc(h, root, bytes).0.sys)
    ensures Heap.Malloc(h, root, bytes).1.Pointer? ==>
      Heap.NewBlock(h, bytes).Some? && WasFree(h.sys, Heap.NewBlock(h, bytes).value)
  {
    hide Inv, Heap.Ready, Heap.WriteHeader, MapRange, FirstFit, Heap.PagesFor, Heap.HeaderAt, CanMapRange;
    var n := Heap.PagesFor(bytes);
    Heap.ReadyTop(h, root);
    Heap.TakeFrames(h, root, n);
    AllocTakesLowest(h.sys.frames, n, 1, 0);
    match Alloc(h.sys.frames, n, 1, 0)
    case (_, None) =>
    case (frames, Some(p)) =>
      var h1 := Heap.State(Sys(h.sys.mem, frames), h.top);
      Heap.HeapRange(h1, root, bytes);
      MapRangeMaps(h1.sys, root, 1, h.top / PAGE_SIZE, p, n, Heap.HEAP_PERMS);
  }

  /** The frames of every block of a run of calls were free when the run began. */
  lemma {:induction false} CallsTakeFree(h: Heap.State, root: nat, blocks: seq<Heap.Block>, cs: seq<Heap.Call>)
    requires Heap.HeapOk(h, root, blocks)
    ensures match Heap.Calls(h, root, blocks, cs)
      case None => true
      case Some((h', blocks')) =>
        && blocks <= blocks' && ReservesMore(h.sys, h'.sys)
        && forall k :: |blocks| <= k < |blocks'| ==> WasFree(h.sys, blocks'[k])
    decreases |cs|
  {
    hide Heap.HeapOk, Heap.Malloc, Heap.Store, Heap.NewBlock, Heap.Returned, Heap.PagesFor;
    if cs != [] {
      StepTakesFree(h, root, blocks, cs[0]);
      match Heap.Step(h, root, blocks, cs[0])
      case None =>
      case Some((h1, blocks1)) => CallsTakeFree(h1, root, blocks1, cs[1..]);
    }
  }

  lemma StepTakesFree(h: Heap.State, root: nat, blocks: seq<Heap.Block>, c: Heap.Call)
    requires Heap.HeapOk(h, root, blocks)
    ensures match Heap.Step(h, root, blocks, c)
      case None => true
      case Some((h', blocks')) =>
        && Heap.HeapOk(h', root, blocks') && blocks <= blocks' && ReservesMore(h.sys, h'.sys)
        && forall k :: |blocks| <= k < |blocks'| ==> WasFree(h.sys, blocks'[k])
  {
    hide Heap.Malloc, Heap.Store, Heap.NewBlock, Heap.Returned, Heap.PagesFor, Heap.Ready, Heap.Placed, Heap.Headed,
      Heap.Apart, WasFree;
    Heap.StepIsOk(h, root, blocks, c);
    match c
    case Request(bytes) =>
      if h.top + Heap.PagesFor(bytes) * PAGE_SIZE <= Heap.HEAP_END {
        MallocTakesFree(h, root, bytes);
      }
    case Write(_, _, _) =>
  }

  /** Page j of physical memory is usable: it lies in an available region, at or above
      `memory_base`, and behind the pages that hold the bitmap. */
  predicate Usable(mmap: seq<FrameInit.Region>, j: nat) {
    && BASE + FrameInit.BitmapPages(FrameInit.BitmapBytes(mmap)) <= j
    && exists r :: r in mmap && FrameInit.InAvailable(r, j)
  }

  /** Whatever `malloc` hands out after boot lies in usable memory, each block apart from all
      others and from all page tables. */
  lemma BootedHeap(b0: Bitmap, mmap: seq<FrameInit.Region>, mem: Memory, cs: seq<Heap.Call>)
    requires FrameInit.Bootable(b0, mmap) && FrameInit.BitmapLen(mmap) <= PAGE_LIMIT
    requires 512 * FrameInit.BitmapLen(mmap) <= |mem|
    ensures match NewAddressSpace(Sys(mem, FrameInit.Init(b0, mmap)))
      case None => true
      case Some((s, root)) =>
        Heap.HeapOk(Heap.State(s, MEMORY_BASE), root, []) &&
        match Heap.Calls(Heap.State(s, MEMORY_BASE), root, [], cs)
        case None => true
        case Some((h, blocks)) =>
          && Heap.HeapOk(h, root, blocks)
          && forall b, f: nat :: b in blocks && InRun(Heap.Run(b), f) ==> Usable(mmap, f)
  {
    hide FrameInit.Init, NewAddressSpace, Heap.HeapOk, Heap.Calls, Usable, FrameInit.Bootable;
    var s0 := Sys(mem, FrameInit.Init(b0, mmap));
    BootFits(b0, mmap, mem);
    NewSpaceReserves(s0);
    Heap.HeapStarts(s0);
    match NewAddressSpace(s0)
    case None =>
    case Some((s, root)) =>
      Heap.CallsAreOk(Heap.State(s, MEMORY_BASE), root, [], cs);
      CallsTakeFree(Heap.State(s, MEMORY_BASE), root, [], cs);
      match Heap.Calls(Heap.State(s, MEMORY_BASE), root, [], cs)
      case None =>
      case Some((h, blocks)) =>
        forall k, f: nat | 0 <= k < |blocks| && InRun(Heap.Run(blocks[k]), f)
          ensures Usable(mmap, f)
        {
          assert WasFree(s, blocks[k]);
          assert !Reserved(s0.frames, f);
          PlacedBelow(h, root, blocks, k);
          FreeIsUsable(b0, mmap, f);
        }
  }

  lemma BootFits(b0: Bitmap, mmap: seq<FrameInit.Region>, mem: Memory)
    requires FrameInit.Bootable(b0, mmap) && FrameInit.BitmapLen(mmap) <= PAGE_LIMIT
    requires 512 * FrameInit.BitmapLen(mmap) <= |mem|
    ensures var s := Sys(mem, FrameInit.Init(b0, mmap));
      && FramesFit(s) && s.frames.len < |s.frames.used| && s.frames.used[s.frames.len]
      && s.frames.len == FrameInit.BitmapLen(mmap)
  {
    hide FrameInit.Init;
    FrameInit.BootedBitmap(b0, mmap);
  }

  lemma PlacedBelow(h: Heap.State, root: nat, blocks: seq<Heap.Block>, k: nat)
    requires Heap.HeapOk(h, root, blocks) && k < |blocks|
    ensures blocks[k].frame + Heap.Pages(blocks[k]) <= h.sys.frames.len
  {
    assert Heap.Placed(h.sys, root, blocks[k]);
  }

  lemma FreeIsUsable(b0: Bitmap, mmap: seq<FrameInit.Region>, f: nat)
    requires FrameInit.Bootable(b0, mmap) && f < FrameInit.BitmapLen(mmap) && !Reserved(FrameInit.Init(b0, mmap), f)
    ensures Usable(mmap, f)
  {
    hide FrameInit.Init, FrameInit.InAvailable;
    FrameInit.ClearBitsAreAvailable(b0, mmap, 0);
    FrameInit.ClearBitsAreAvailable(b0, mmap, f);
  }
}
