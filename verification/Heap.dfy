/** `malloc` on values: it composes the frame allocator and the page tables. */
module Heap {
  import opened Wrappers
  import opened Paging
  import opened Frames
  import opened Tables
  import opened Mapping
  import opened FrameBudget
  import opened AddressSpace
  import opened PagingRuns

  const HEAP_PERMS: bv12 := PRESENT | WRITE
  /** The end of the lower canonical half. */
  const HEAP_END: nat := 0x8000_0000_0000

  datatype State = State(sys: Sys, top: nat)

  datatype Result = NoMemory | NullTable | Pointer(address: nat)

  /** The request rounded up to words, without and with its 16-byte header. */
  function Payload(bytes: nat): nat { (bytes + 7) / 8 * 8 }

  function Rounded(bytes: nat): nat { Payload(bytes) + 16 }

  function PagesFor(bytes: nat): nat { (Rounded(bytes) + PAGE_SIZE - 1) / PAGE_SIZE + 1 }

  /** Where the header of a request starts that is placed at `top`: the block ends with the
      last byte of its last page. */
  function HeaderAt(top: nat, bytes: nat): nat { top + (PagesFor(bytes) * PAGE_SIZE - Rounded(bytes)) }

  /** A 64-bit store and load at a virtual address that is a multiple of 8, through the walk. */
  function Store(m: Memory, root: nat, virt: nat, w: Word): Memory {
    match HwWalk(m, root, PageNumber(virt))
    case Fault => m
    case t => SetCell(m, PhysicalAddress(t, virt) / PAGE_SIZE, PhysicalAddress(t, virt) % PAGE_SIZE / 8, w)
  }

  function Load(m: Memory, root: nat, virt: nat): Word {
    match HwWalk(m, root, PageNumber(virt))
    case Fault => ZERO
    case t => Cell(m, PhysicalAddress(t, virt) / PAGE_SIZE, PhysicalAddress(t, virt) % PAGE_SIZE / 8)
  }

  function WriteHeader(m: Memory, root: nat, top: nat, bytes: nat): Memory {
    var m1 := Store(m, root, HeaderAt(top, bytes), WordOf(Payload(bytes)));
    Store(m1, root, HeaderAt(top, bytes) + 8, WordOf(PagesFor(bytes)))
  }

  function Malloc(h: State, root: nat, bytes: nat): (State, Result) {
    match Alloc(h.sys.frames, PagesFor(bytes), 1, 0)
    case (_, None) => (h, NoMemory)
    case (frames, Some(p)) =>
      match MapRange(Sys(h.sys.mem, frames), root, 1, PageNumber(h.top), p, PagesFor(bytes), HEAP_PERMS)
      case None => (h, NullTable)
      case Some(s) =>
        (State(Sys(WriteHeader(s.mem, root, h.top, bytes), s.frames), h.top + PAGE_SIZE * PagesFor(bytes)),
         Pointer(HeaderAt(h.top, bytes) + 16))
  }

  /** A block handed out: the old `top`, the request and the first of its frames. */
  datatype Block = Block(base: nat, bytes: nat, frame: nat)

  function Pages(b: Block): nat { PagesFor(b.bytes) }

  function Run(b: Block): Frames.Run { Frames.Run(b.frame, Pages(b)) }

  /** The address that the caller got. */
  function Returned(b: Block): nat { HeaderAt(b.base, b.bytes) + 16 }

  predicate Inside(b: Block, virt: nat) { b.base <= virt < b.base + Pages(b) * PAGE_SIZE }

  /** Page i of a block is mapped to its i-th frame, for the kernel to read and write. */
  predicate PageMapped(m: Memory, root: nat, b: Block, i: nat) {
    var t := Walk(m, root, b.base / PAGE_SIZE + i);
    t.Mapped? && t.level == 1 && t.leaf == Leaf(1, b.frame + i, HEAP_PERMS) && t.rights == WRITE
  }

  predicate Apart(a: Block, b: Block) {
    && (a.base + Pages(a) * PAGE_SIZE <= b.base || b.base + Pages(b) * PAGE_SIZE <= a.base)
    && Disjoint(Run(a), Run(b))
  }

  /** The pages of a block lie in frames of its own and are mapped to them in order. */
  ghost predicate Placed(s: Sys, root: nat, b: Block) {
    && b.base % PAGE_SIZE == 0 && b.frame + Pages(b) <= s.frames.len
    && RunIsData(s, root, Run(b))
    && forall i: nat :: i < Pages(b) ==> PageMapped(s.mem, root, b, i)
  }

  /** The header of a block holds its size and its page count. */
  predicate Headed(m: Memory, root: nat, b: Block) {
    && Load(m, root, HeaderAt(b.base, b.bytes)) == WordOf(Payload(b.bytes))
    && Load(m, root, HeaderAt(b.base, b.bytes) + 8) == WordOf(Pages(b))
  }

  /** No 2 MiB page lies above page x, and the tables there are let it be written. */
  predicate HeapPath(m: Memory, root: nat, x: nat) {
    SmallPath(m, root, 1, x) && Has(PathFlags(m, root, 1, x / 512), WRITE)
  }

  /** The heap has its frames and its part of the address space to itself. */
  ghost predicate Ready(h: State, root: nat) {
    && Inv(h.sys, root) && h.sys.frames.len < |h.sys.frames.used| && h.sys.frames.used[h.sys.frames.len]
    && h.top % PAGE_SIZE == 0 && MEMORY_BASE <= h.top <= HEAP_END
    && forall x :: MEMORY_BASE / PAGE_SIZE <= x < HEAP_END / PAGE_SIZE ==> HeapPath(h.sys.mem, root, x)
  }

  ghost predicate HeapOk(h: State, root: nat, blocks: seq<Block>) {
    && Ready(h, root)
    && (forall b :: b in blocks ==> MEMORY_BASE <= b.base && b.base + Pages(b) * PAGE_SIZE <= h.top)
    && (forall b :: b in blocks ==> Placed(h.sys, root, b) && Headed(h.sys.mem, root, b))
    && (forall i, j :: 0 <= i < j < |blocks| ==> Apart(blocks[i], blocks[j]))
  }

  lemma PageOfLow(virt: nat)
    requires virt < HEAP_END
    ensures PageNumber(virt) == virt / PAGE_SIZE
  {
  }

  predicate WordAligned(virt: nat) { virt % 8 == 0 }

  lemma RoundedIsWords(bytes: nat)
    ensures Rounded(bytes) % 8 == 0
  {
  }

  lemma EightsOff(t: nat, n: nat, k: nat)
    ensures (t * PAGE_SIZE + (n * PAGE_SIZE - 8 * k)) % 8 == 0
  {
    assert t * PAGE_SIZE + (n * PAGE_SIZE - 8 * k) == 8 * (512 * t + 512 * n - k);
  }

  lemma HeaderMod8(top: nat, bytes: nat)
    requires top % PAGE_SIZE == 0
    ensures HeaderAt(top, bytes) % 8 == 0
  {
    hide PagesFor, Rounded;
    RoundedIsWords(bytes);
    EightsOff(top / PAGE_SIZE, PagesFor(bytes), Rounded(bytes) / 8);
  }

  /** The header lies inside the block, on a word boundary. */
  lemma HeaderIsAligned(top: nat, bytes: nat)
    requires top % PAGE_SIZE == 0
    ensures WordAligned(HeaderAt(top, bytes)) && WordAligned(HeaderAt(top, bytes) + 8)
  {
    hide HeaderAt;
    HeaderMod8(top, bytes);
  }

  lemma HeaderIsInside(top: nat, bytes: nat)
    ensures top <= HeaderAt(top, bytes) && HeaderAt(top, bytes) + 16 <= top + PagesFor(bytes) * PAGE_SIZE
  {
    assert 16 <= Rounded(bytes) <= PagesFor(bytes) * PAGE_SIZE;
  }

  /** Where a block lies in its pages: what is behind the returned address is the least multiple of 8 that
      holds the request, it ends with the last page, and the page in front of the header is empty. */
  lemma BlockGeometry(b: Block)
    ensures var end := b.base + Pages(b) * PAGE_SIZE;
      && Returned(b) + b.bytes <= end < Returned(b) + b.bytes + 8 && (end - Returned(b)) % 8 == 0
      && b.base + 0x1000 <= Returned(b) - 16 < b.base + 0x2000
  {
    var n := PagesFor(b.bytes);
    assert Rounded(b.bytes) <= (n - 1) * PAGE_SIZE < Rounded(b.bytes) + PAGE_SIZE;
    assert n * PAGE_SIZE == (n - 1) * PAGE_SIZE + PAGE_SIZE;
  }

  /** Every byte that was asked for lies inside the block. */
  lemma RequestIsInside(b: Block, k: nat)
    requires k < b.bytes
    ensures Inside(b, Returned(b) + k)
  {
    hide Returned, Pages;
    BlockGeometry(b);
  }

  /** The first word in front of the returned address but one stands for the bytes behind it, and the
      next one for the pages of the block. */
  lemma HeaderSays(m: Memory, root: nat, b: Block)
    requires Headed(m, root, b) && b.base + Pages(b) * PAGE_SIZE <= HEAP_END
    ensures Returned(b) >= 16
    ensures ValueOf(Load(m, root, Returned(b) - 16)) == b.base + Pages(b) * PAGE_SIZE - Returned(b)
    ensures ValueOf(Load(m, root, Returned(b) - 8)) == Pages(b)
  {
    hide Load, WordOf, ValueOf;
    WordRoundTrip(Payload(b.bytes));
    WordRoundTrip(Pages(b));
  }

  /** Contiguity: every byte of a block translates to the byte at the same distance from the
      start of its frames. */
  lemma BlockIsContiguous(s: Sys, root: nat, b: Block, virt: nat)
    requires Inv(s, root) && Placed(s, root, b) && Inside(b, virt) && virt < HEAP_END
    ensures var t := HwWalk(s.mem, root, PageNumber(virt));
      t.Mapped? && t.level == 1 && PhysicalAddress(t, virt) == b.frame * PAGE_SIZE + (virt - b.base)
  {
    hide Inv, Walk, HwWalk, RunIsData, Load;
    TreeOf(s, root);
    PageOfLow(virt);
    HwWalkReadsSlots(s.mem, root, PageNumber(virt));
    var i := virt / PAGE_SIZE - b.base / PAGE_SIZE;
    assert PageMapped(s.mem, root, b, i);
  }

  /** A write to a frame that is no table leaves the tables and every translation alone. */
  lemma DataWrite(s: Sys, root: nat, f: nat, i: nat, w: Word)
    requires Inv(s, root) && NotTable(s.mem, root, f) && i < 512 && 512 * f + 512 <= |s.mem|
    ensures var m' := SetCell(s.mem, f, i, w);
      && Inv(Sys(m', s.frames), root)
      && (forall l: nat, k: nat ::
           Tab(m', root, l, k) == Tab(s.mem, root, l, k) && Slot(m', root, l, k) == Slot(s.mem, root, l, k))
  {
    var m' := SetCell(s.mem, f, i, w);
    CellOfSetCell(s.mem, f, i, w);
    forall l: nat, k: nat
      ensures Tab(m', root, l, k) == Tab(s.mem, root, l, k) && Slot(m', root, l, k) == Slot(s.mem, root, l, k)
    {
      TabFrame(s.mem, m', root, l, k);
    }
  }

  /** The frame and the word in it that address virt of a block stands for. */
  function FrameOf(b: Block, virt: nat): nat
    requires Inside(b, virt)
  {
    b.frame + (virt / PAGE_SIZE - b.base / PAGE_SIZE)
  }

  /** Loads and stores in a block go to its own frames. */
  lemma Access(s: Sys, root: nat, b: Block, virt: nat, w: Word)
    requires Inv(s, root) && Placed(s, root, b) && Inside(b, virt) && virt < HEAP_END
    ensures Store(s.mem, root, virt, w) == SetCell(s.mem, FrameOf(b, virt), virt % PAGE_SIZE / 8, w)
    ensures Load(s.mem, root, virt) == Cell(s.mem, FrameOf(b, virt), virt % PAGE_SIZE / 8)
    ensures IsData(s, root, FrameOf(b, virt)) && 512 * FrameOf(b, virt) + 512 <= |s.mem|
  {
    hide HwWalk, Walk, Tree, Tab, PageMapped, PageNumber, Cell, SetCell;
    BlockIsContiguous(s, root, b, virt);
    FrameInRun(b, virt);
    PhysicalParts(b, virt);
    assert InRun(Run(b), FrameOf(b, virt));
  }

  /** What a store changes: nothing of the tables, and of the words of all blocks only its own. */
  ghost predicate Stored(s: Sys, s': Sys, root: nat) {
    && s'.frames == s.frames && |s'.mem| == |s.mem| && Inv(s', root)
    && forall l: nat, k: nat ::
         Tab(s'.mem, root, l, k) == Tab(s.mem, root, l, k) && Slot(s'.mem, root, l, k) == Slot(s.mem, root, l, k)
  }

  lemma StoreInBlock(s: Sys, root: nat, b: Block, virt: nat, w: Word)
    requires Inv(s, root) && Placed(s, root, b) && Inside(b, virt) && virt < HEAP_END
    ensures Stored(s, Sys(Store(s.mem, root, virt, w), s.frames), root)
  {
    hide Store, Load, Tab, Tree;
    Access(s, root, b, virt, w);
    DataWrite(s, root, FrameOf(b, virt), virt % PAGE_SIZE / 8, w);
  }

  lemma StoredKeepsPages(s: Sys, s': Sys, root: nat, b: Block)
    requires Stored(s, s', root) && RunIsData(s, root, Run(b)) && forall i: nat :: i < Pages(b) ==>
      PageMapped(s.mem, root, b, i)
    ensures RunIsData(s', root, Run(b)) && forall i: nat :: i < Pages(b) ==> PageMapped(s'.mem, root, b, i)
  {
    forall f: nat | InRun(Run(b), f) ensures IsData(s', root, f) {
      assert IsData(s, root, f);
    }
    forall i: nat | i < Pages(b) ensures PageMapped(s'.mem, root, b, i) {
      assert PageMapped(s.mem, root, b, i);
    }
  }

  /** A load from any other word of any block sees what it saw before the store. */
  lemma LoadAfterStore(s: Sys, root: nat, b: Block, virt: nat, w: Word, b': Block, virt': nat)
    requires Inv(s, root) && Placed(s, root, b) && Inside(b, virt) && virt < HEAP_END && WordAligned(virt)
    requires Placed(s, root, b') && Inside(b', virt') && virt' < HEAP_END && WordAligned(virt')
    requires b == b' || Apart(b, b')
    ensures Load(Store(s.mem, root, virt, w), root, virt') == if virt == virt' then w else Load(s.mem, root, virt')
  {
    hide Inv, Stored, Placed, Inside, Apart, Load, Store, Cell, SetCell, FrameOf;
    var f, i := FrameOf(b, virt), virt % PAGE_SIZE / 8;
    Access(s, root, b, virt, w);
    Access(s, root, b', virt', w);
    StoreInBlock(s, root, b, virt, w);
    LoadAt(s, Sys(SetCell(s.mem, f, i, w), s.frames), root, b', virt');
    CellOfSetCell(s.mem, f, i, w);
    BlocksAligned(s, root, b);
    BlocksAligned(s, root, b');
    SameWord(b, virt, b', virt');
  }

  lemma BlocksAligned(s: Sys, root: nat, b: Block)
    requires Placed(s, root, b)
    ensures b.base % PAGE_SIZE == 0
  {
  }

  lemma LoadAt(s: Sys, s': Sys, root: nat, b: Block, virt: nat)
    requires Inv(s, root) && Placed(s, root, b) && Inside(b, virt) && virt < HEAP_END && Stored(s, s', root)
    ensures Load(s'.mem, root, virt) == Cell(s'.mem, FrameOf(b, virt), virt % PAGE_SIZE / 8)
  {
    hide Inv, Stored, Walk, HwWalk, RunIsData, PageMapped, FrameOf, PageNumber, Cell;
    PageInRange(virt);
    SameTranslation(s, s', root, PageNumber(virt));
    BlockIsContiguous(s, root, b, virt);
    PhysicalParts(b, virt);
  }

  lemma PageInRange(virt: nat)
    ensures PageNumber(virt) < VPAGES
  {
  }

  lemma SameTranslation(s: Sys, s': Sys, root: nat, v: nat)
    requires Inv(s, root) && Stored(s, s', root) && v < VPAGES
    ensures HwWalk(s'.mem, root, v) == HwWalk(s.mem, root, v)
  {
    hide HwWalk, Tree, Tab;
    TreeOf(s, root);
    TreeOf(s', root);
    HwWalkReadsSlots(s.mem, root, v);
    HwWalkReadsSlots(s'.mem, root, v);
  }

  lemma FrameInRun(b: Block, virt: nat)
    requires Inside(b, virt) && b.base % PAGE_SIZE == 0
    ensures InRun(Run(b), FrameOf(b, virt))
  {
  }

  lemma PhysicalParts(b: Block, virt: nat)
    requires Inside(b, virt) && b.base % PAGE_SIZE == 0
    ensures var a := b.frame * PAGE_SIZE + (virt - b.base);
      a / PAGE_SIZE == FrameOf(b, virt) && a % PAGE_SIZE == virt % PAGE_SIZE
  {
    assert virt - b.base == (virt / PAGE_SIZE - b.base / PAGE_SIZE) * PAGE_SIZE + virt % PAGE_SIZE;
  }

  lemma WordOffset(x: nat)
    requires WordAligned(x)
    ensures x == x / PAGE_SIZE * PAGE_SIZE + x % PAGE_SIZE / 8 * 8
  {
    assert x % PAGE_SIZE % 8 == 0;
  }

  /** Different words of blocks lie in different words of memory. */
  lemma SameWord(b: Block, virt: nat, b': Block, virt': nat)
    requires Inside(b, virt) && Inside(b', virt') && (b == b' || Apart(b, b'))
    requires b.base % PAGE_SIZE == 0 && b'.base % PAGE_SIZE == 0 && WordAligned(virt) && WordAligned(virt')
    ensures FrameOf(b, virt) == FrameOf(b', virt') && virt % PAGE_SIZE / 8 == virt' % PAGE_SIZE / 8 <==> virt == virt'
  {
    hide Inside, Apart, FrameOf;
    FrameInRun(b, virt);
    FrameInRun(b', virt');
    if b == b' {
      SameFrame(b, virt, virt');
      if FrameOf(b, virt) == FrameOf(b', virt') && virt % PAGE_SIZE / 8 == virt' % PAGE_SIZE / 8 {
        WordOffset(virt);
        WordOffset(virt');
      }
    } else {
      ApartFrames(b, b', FrameOf(b, virt));
      ApartAddresses(b, b', virt);
    }
  }

  lemma SameFrame(b: Block, x: nat, y: nat)
    requires Inside(b, x) && Inside(b, y)
    ensures FrameOf(b, x) == FrameOf(b, y) ==> x / PAGE_SIZE == y / PAGE_SIZE
  {
  }

  lemma ApartAddresses(b: Block, b': Block, virt: nat)
    requires Apart(b, b') && Inside(b, virt)
    ensures !Inside(b', virt)
  {
  }

  lemma ApartFrames(b: Block, b': Block, f: nat)
    requires Apart(b, b') && InRun(Run(b), f)
    ensures !InRun(Run(b'), f)
  {
  }

  /** Frames in use as data keep their state and content. */
  ghost predicate KeepsFrames(s: Sys, s': Sys, root: nat) {
    && s'.frames.len == s.frames.len && |s'.frames.used| == |s.frames.used|
    && forall f: nat :: IsData(s, root, f) ==>
         IsData(s', root, f) && forall i: nat :: Cell(s'.mem, f, i) == Cell(s.mem, f, i)
  }

  lemma PlacedStays(s: Sys, s': Sys, root: nat, b: Block)
    requires Placed(s, root, b) && KeepsFrames(s, s', root)
    requires forall v: nat :: b.base / PAGE_SIZE <= v < b.base / PAGE_SIZE + Pages(b) ==>
      Walk(s'.mem, root, v) == Walk(s.mem, root, v)
    ensures Placed(s', root, b)
  {
    hide IsData, Walk;
    forall i: nat | i < Pages(b) ensures PageMapped(s'.mem, root, b, i) {
      assert PageMapped(s.mem, root, b, i);
    }
  }

  lemma LoadStays(s: Sys, s': Sys, root: nat, b: Block, virt: nat)
    requires Inv(s, root) && Inv(s', root) && Placed(s, root, b) && Placed(s', root, b) && KeepsFrames(s, s', root)
    requires Inside(b, virt) && virt < HEAP_END
    ensures Load(s'.mem, root, virt) == Load(s.mem, root, virt)
  {
    hide Inv, Placed, Load, Store, IsData, FrameOf;
    Access(s, root, b, virt, ZERO);
    Access(s', root, b, virt, ZERO);
  }

  lemma HeadedStays(s: Sys, s': Sys, root: nat, b: Block)
    requires Inv(s, root) && Inv(s', root) && Placed(s, root, b) && Placed(s', root, b) && KeepsFrames(s, s', root)
    requires Headed(s.mem, root, b) && b.base + Pages(b) * PAGE_SIZE <= HEAP_END
    ensures Headed(s'.mem, root, b)
  {
    hide Inv, Placed, Load, KeepsFrames;
    HeaderIsInside(b.base, b.bytes);
    LoadStays(s, s', root, b, HeaderAt(b.base, b.bytes));
    LoadStays(s, s', root, b, HeaderAt(b.base, b.bytes) + 8);
  }

  /** The frames of a new block were free and are its own. */
  lemma TakeFrames(h: State, root: nat, count: nat)
    requires Ready(h, root)
    ensures match Alloc(h.sys.frames, count, 1, 0)
      case (_, None) => true
      case (frames, Some(p)) =>
        var s1 := Sys(h.sys.mem, frames);
        && Ready(State(s1, h.top), root) && KeepsFrames(h.sys, s1, root)
        && p + count <= frames.len && RunIsData(s1, root, Frames.Run(p, count))
        && AllFree(h.sys.frames.used, p, count)
  {
    hide Tree, Tab, Slot, FirstFit;
    AllocTakesLowest(h.sys.frames, count, 1, 0);
    match Alloc(h.sys.frames, count, 1, 0)
    case (_, None) =>
    case (frames, Some(p)) =>
      assert AllFree(h.sys.frames.used, p, count);
      assert p + count <= frames.len by {
        assert p < frames.len;
      }
  }

  ghost predicate Roomy(h: State, bytes: nat) { h.top + PagesFor(bytes) * PAGE_SIZE <= HEAP_END }

  lemma HeapRange(h: State, root: nat, bytes: nat)
    requires Ready(h, root) && Roomy(h, bytes)
    ensures PageNumber(h.top) == h.top / PAGE_SIZE
    ensures CanMapRange(h.sys, root, 1, h.top / PAGE_SIZE, PagesFor(bytes), HEAP_PERMS)
  {
    hide Inv, SmallPath, PathFlags;
    forall x | h.top / PAGE_SIZE <= x < h.top / PAGE_SIZE + PagesFor(bytes) ensures SmallPath(h.sys.mem, root, 1, x) {
      assert HeapPath(h.sys.mem, root, x);
    }
  }

  /** Mapping heap pages keeps what the tables above grant of the heap's permissions. */
  lemma PathGrows(s: Sys, s': Sys, root: nat, x: nat)
    requires Maps(s, s', root, 1, HEAP_PERMS) && HeapPath(s.mem, root, x)
    ensures HeapPath(s'.mem, root, x)
  {
    hide PathFlags, TabMaps, DataKept, Tab, Slot;
    assert SlotGrows(s, s', root, 2, x / 512, HEAP_PERMS);
    FlagsAgree(s, s', root, 1, HEAP_PERMS, 1, x / 512);
    WriteOfPerms(PathFlags(s.mem, root, 1, x / 512), PathFlags(s'.mem, root, 1, x / 512));
  }

  lemma WriteOfPerms(a: bv12, b: bv12)
    requires a & HEAP_PERMS == b & HEAP_PERMS && Has(a, WRITE)
    ensures Has(b, WRITE) && b & HEAP_PERMS & RIGHTS == WRITE
  {
  }

  ghost predicate SameSlots(m: Memory, m': Memory, root: nat) {
    forall l: nat, k: nat :: Slot(m', root, l, k) == Slot(m, root, l, k)
  }

  lemma {:induction false} SameFlags(m: Memory, m': Memory, root: nat, l: nat, k: nat)
    requires SameSlots(m, m', root)
    ensures PathFlags(m', root, l, k) == PathFlags(m, root, l, k)
    decreases 4 - l
  {
    hide Slot;
    if l < 4 {
      SameFlags(m, m', root, l + 1, k / 512);
    }
  }

  lemma SamePaths(m: Memory, m': Memory, root: nat)
    requires SameSlots(m, m', root)
    ensures forall x :: MEMORY_BASE / PAGE_SIZE <= x < HEAP_END / PAGE_SIZE ==>
      (HeapPath(m', root, x) <==> HeapPath(m, root, x))
  {
    hide Slot, PathFlags;
    forall x | MEMORY_BASE / PAGE_SIZE <= x < HEAP_END / PAGE_SIZE
      ensures HeapPath(m', root, x) <==> HeapPath(m, root, x)
    {
      SameFlags(m, m', root, 1, x / 512);
    }
  }

  lemma HeapPart(h: State, root: nat, bytes: nat, n: nat)
    requires Ready(h, root) && Roomy(h, bytes) && n <= PagesFor(bytes)
    ensures CanMapRange(h.sys, root, 1, h.top / PAGE_SIZE, n, HEAP_PERMS)
  {
    hide Inv, Ready, PagesFor;
    HeapRange(h, root, bytes);
  }

  /** Mapping the first n pages of a new block leaves the heap ready and every frame in use alone. */
  lemma MapKeepsFrames(h: State, root: nat, bytes: nat, p: nat, n: nat)
    requires Ready(h, root) && Roomy(h, bytes) && n <= PagesFor(bytes)
    ensures match MapRange(h.sys, root, 1, h.top / PAGE_SIZE, p, n, HEAP_PERMS)
      case None => true
      case Some(s) => Ready(State(s, h.top), root) && KeepsFrames(h.sys, s, root)
  {
    hide Inv, IsData, MapRange, PagesFor;
    HeapPart(h, root, bytes, n);
    MapRangeMaps(h.sys, root, 1, h.top / PAGE_SIZE, p, n, HEAP_PERMS);
    match MapRange(h.sys, root, 1, h.top / PAGE_SIZE, p, n, HEAP_PERMS)
    case None =>
    case Some(s) =>
      MapsKeepData(h.sys, s, root, 1, HEAP_PERMS);
      assert Reserved(s.frames, s.frames.len);
      forall x | MEMORY_BASE / PAGE_SIZE <= x < HEAP_END / PAGE_SIZE
        ensures HeapPath(s.mem, root, x)
      {
        PathGrows(h.sys, s, root, x);
      }
  }

  lemma MapKeepsReady(h: State, root: nat, bytes: nat, p: nat)
    requires Ready(h, root) && Roomy(h, bytes)
    ensures match MapRange(h.sys, root, 1, h.top / PAGE_SIZE, p, PagesFor(bytes), HEAP_PERMS)
      case None => true
      case Some(s) => Ready(State(s, h.top + PAGE_SIZE * PagesFor(bytes)), root) && KeepsFrames(h.sys, s, root)
  {
    hide Inv, MapRange, KeepsFrames;
    MapKeepsFrames(h, root, bytes, p, PagesFor(bytes));
  }

  lemma MapPlaces(h: State, root: nat, bytes: nat, p: nat)
    requires Ready(h, root) && Roomy(h, bytes)
    requires p + PagesFor(bytes) <= h.sys.frames.len && RunIsData(h.sys, root, Frames.Run(p, PagesFor(bytes)))
    ensures match MapRange(h.sys, root, 1, h.top / PAGE_SIZE, p, PagesFor(bytes), HEAP_PERMS)
      case None => true
      case Some(s) => Placed(s, root, Block(h.top, bytes, p))
  {
    hide Inv, Tree, IsData, MapRange, Walk, PathFlags;
    HeapRange(h, root, bytes);
    MapKeepsReady(h, root, bytes, p);
    var b, slot := Block(h.top, bytes, p), h.top / PAGE_SIZE;
    match MapRange(h.sys, root, 1, slot, p, PagesFor(bytes), HEAP_PERMS)
    case None =>
    case Some(s) =>
      forall i: nat | i < Pages(b) ensures PageMapped(s.mem, root, b, i) {
        MapRangeWalk(h.sys, root, 1, slot, p, PagesFor(bytes), HEAP_PERMS, slot + i);
        assert HeapPath(h.sys.mem, root, slot + i);
        WriteOfPerms(PathFlags(h.sys.mem, root, 1, (slot + i) / 512), PathFlags(h.sys.mem, root, 1, (slot + i) / 512));
      }
      forall f: nat | InRun(Run(b), f) ensures f < |s.frames.used| && IsData(s, root, f) {
        assert IsData(h.sys, root, f);
      }
  }

  lemma MapKeepsBlock(h: State, root: nat, bytes: nat, p: nat, n: nat, b: Block)
    requires Ready(h, root) && Roomy(h, bytes) && n <= PagesFor(bytes)
    requires Placed(h.sys, root, b) && Headed(h.sys.mem, root, b) && b.base + Pages(b) * PAGE_SIZE <= h.top
    ensures match MapRange(h.sys, root, 1, h.top / PAGE_SIZE, p, n, HEAP_PERMS)
      case None => true
      case Some(s) => Placed(s, root, b) && Headed(s.mem, root, b)
  {
    hide Inv, Tree, IsData, MapRange, Walk, PathFlags, PageMapped, Headed, PagesFor;
    var slot := h.top / PAGE_SIZE;
    HeapPart(h, root, bytes, n);
    MapKeepsFrames(h, root, bytes, p, n);
    match MapRange(h.sys, root, 1, slot, p, n, HEAP_PERMS)
    case None =>
    case Some(s) =>
      forall v: nat | b.base / PAGE_SIZE <= v < b.base / PAGE_SIZE + Pages(b)
        ensures Walk(s.mem, root, v) == Walk(h.sys.mem, root, v)
      {
        MapRangeWalk(h.sys, root, 1, slot, p, n, HEAP_PERMS, v);
      }
      PlacedStays(h.sys, s, root, b);
      HeadedStays(h.sys, s, root, b);
  }

  lemma StoreKeepsReady(h: State, root: nat, b: Block, virt: nat, w: Word)
    requires Ready(h, root) && Placed(h.sys, root, b) && Inside(b, virt) && virt < HEAP_END
    ensures var s' := Sys(Store(h.sys.mem, root, virt, w), h.sys.frames);
      Ready(State(s', h.top), root) && Placed(s', root, b)
  {
    hide Inv, Slot, Store, RunIsData, PageMapped, HeapPath;
    var s' := Sys(Store(h.sys.mem, root, virt, w), h.sys.frames);
    StoreInBlock(h.sys, root, b, virt, w);
    StoredKeepsPages(h.sys, s', root, b);
    SamePaths(h.sys.mem, s'.mem, root);
  }

  /** A store into one block leaves every other block where it is, header included. */
  lemma StoreKeepsBlock(s: Sys, root: nat, b: Block, virt: nat, w: Word, b': Block)
    requires Inv(s, root) && Placed(s, root, b) && Inside(b, virt) && virt < HEAP_END && WordAligned(virt)
    requires Placed(s, root, b') && Headed(s.mem, root, b') && Apart(b, b')
    requires b'.base + Pages(b') * PAGE_SIZE <= HEAP_END
    ensures var s' := Sys(Store(s.mem, root, virt, w), s.frames);
      Placed(s', root, b') && Headed(s'.mem, root, b')
  {
    hide Inv, Store, Load, Stored, RunIsData, PageMapped, Apart, HeaderAt, PagesFor, Payload, WordOf, WordAligned;
    var s' := Sys(Store(s.mem, root, virt, w), s.frames);
    StoreInBlock(s, root, b, virt, w);
    StoredKeepsPages(s, s', root, b');
    ApartAddresses(b, b', virt);
    HeaderIsAligned(b'.base, b'.bytes);
    HeaderIsInside(b'.base, b'.bytes);
    LoadAfterStore(s, root, b, virt, w, b', HeaderAt(b'.base, b'.bytes));
    LoadAfterStore(s, root, b, virt, w, b', HeaderAt(b'.base, b'.bytes) + 8);
  }

  lemma ReadyInv(h: State, root: nat)
    requires Ready(h, root)
    ensures Inv(h.sys, root)
  {
  }

  lemma HeaderIsWritten(h: State, root: nat, b: Block)
    requires Ready(h, root) && Placed(h.sys, root, b) && b.base + Pages(b) * PAGE_SIZE <= HEAP_END
    ensures var s' := Sys(WriteHeader(h.sys.mem, root, b.base, b.bytes), h.sys.frames);
      Ready(State(s', h.top), root) && Placed(s', root, b) && Headed(s'.mem, root, b)
  {
    hide Inv, Ready, Placed, Store, Load, HeaderAt, PagesFor, Payload, WordOf, WordAligned;
    BlocksAligned(h.sys, root, b);
    ReadyInv(h, root);
    var at := HeaderAt(b.base, b.bytes);
    var w1, w2 := WordOf(Payload(b.bytes)), WordOf(Pages(b));
    HeaderIsAligned(b.base, b.bytes);
    HeaderIsInside(b.base, b.bytes);
    var h1 := State(Sys(Store(h.sys.mem, root, at, w1), h.sys.frames), h.top);
    StoreKeepsReady(h, root, b, at, w1);
    ReadyInv(h1, root);
    StoreKeepsReady(h1, root, b, at + 8, w2);
    LoadAfterStore(h.sys, root, b, at, w1, b, at);
    LoadAfterStore(h1.sys, root, b, at + 8, w2, b, at);
    LoadAfterStore(h1.sys, root, b, at + 8, w2, b, at + 8);
  }

  lemma HeaderKeepsBlock(h: State, root: nat, b: Block, b': Block)
    requires Ready(h, root) && Placed(h.sys, root, b) && b.base + Pages(b) * PAGE_SIZE <= HEAP_END
    requires Placed(h.sys, root, b') && Headed(h.sys.mem, root, b') && Apart(b, b')
    requires b'.base + Pages(b') * PAGE_SIZE <= HEAP_END
    ensures var s' := Sys(WriteHeader(h.sys.mem, root, b.base, b.bytes), h.sys.frames);
      Placed(s', root, b') && Headed(s'.mem, root, b')
  {
    hide Inv, Ready, Store, Placed, Headed, Apart, HeaderAt, PagesFor, Payload, WordOf, WordAligned;
    ReadyInv(h, root);
    var at := HeaderAt(b.base, b.bytes);
    var w1, w2 := WordOf(Payload(b.bytes)), WordOf(Pages(b));
    BlocksAligned(h.sys, root, b);
    HeaderIsAligned(b.base, b.bytes);
    HeaderIsInside(b.base, b.bytes);
    var h1 := State(Sys(Store(h.sys.mem, root, at, w1), h.sys.frames), h.top);
    StoreKeepsReady(h, root, b, at, w1);
    ReadyInv(h1, root);
    StoreKeepsBlock(h.sys, root, b, at, w1, b');
    StoreKeepsBlock(h1.sys, root, b, at + 8, w2, b');
  }

  /** The block that a successful call adds. */
  function NewBlock(h: State, bytes: nat): Option<Block> {
    match Alloc(h.sys.frames, PagesFor(bytes), 1, 0).1
    case None => None
    case Some(p) => Some(Block(h.top, bytes, p))
  }

  lemma TakeKeepsBlock(h: State, root: nat, bytes: nat, b: Block)
    requires Ready(h, root) && Placed(h.sys, root, b) && Headed(h.sys.mem, root, b)
    requires b.base + Pages(b) * PAGE_SIZE <= h.top
    ensures match Alloc(h.sys.frames, PagesFor(bytes), 1, 0)
      case (_, None) => true
      case (frames, Some(p)) =>
        var s1 := Sys(h.sys.mem, frames);
        Placed(s1, root, b) && Headed(s1.mem, root, b) && Apart(Block(h.top, bytes, p), b)
  {
    hide Inv, IsData, Walk, PageMapped, Headed;
    TakeFrames(h, root, PagesFor(bytes));
    match Alloc(h.sys.frames, PagesFor(bytes), 1, 0)
    case (_, None) =>
    case (frames, Some(p)) =>
      PlacedStays(h.sys, Sys(h.sys.mem, frames), root, b);
      FreshIsDisjoint(h.sys, root, Run(b), Frames.Run(p, PagesFor(bytes)));
  }

  /** A call keeps every block that there is. */
  lemma MallocKeepsBlock(h: State, root: nat, bytes: nat, b: Block)
    requires Ready(h, root) && Roomy(h, bytes) && Placed(h.sys, root, b) && Headed(h.sys.mem, root, b)
    requires b.base + Pages(b) * PAGE_SIZE <= h.top
    ensures var (h', r) := Malloc(h, root, bytes);
      r.Pointer? ==> Placed(h'.sys, root, b) && Headed(h'.sys.mem, root, b) && Apart(NewBlock(h, bytes).value, b)
  {
    hide Ready, Placed, Headed, Apart, MapRange, WriteHeader, PagesFor, HeaderAt;
    ReadyTop(h, root);
    TakeFrames(h, root, PagesFor(bytes));
    TakeKeepsBlock(h, root, bytes, b);
    match Alloc(h.sys.frames, PagesFor(bytes), 1, 0)
    case (_, None) =>
    case (frames, Some(p)) =>
      var h1 := State(Sys(h.sys.mem, frames), h.top);
      MapKeepsReady(h1, root, bytes, p);
      MapPlaces(h1, root, bytes, p);
      MapKeepsBlock(h1, root, bytes, p, PagesFor(bytes), b);
      match MapRange(h1.sys, root, 1, h.top / PAGE_SIZE, p, PagesFor(bytes), HEAP_PERMS)
      case None =>
      case Some(s) =>
        HeaderKeepsBlock(State(s, h.top + PAGE_SIZE * PagesFor(bytes)), root, Block(h.top, bytes, p), b);
  }

  /** The bits of an entry that maps a page of a block. */
  lemma HeapLeaf(page: nat)
    ensures Leaf(1, page, HEAP_PERMS) == Word(false, page, 0x003)
  {
  }

  /** What a successful call gives its caller, address by address: the memory from the old `top` to the
      new one is mapped to a run of frames that were free, to be read and written by the kernel; the
      returned pointer leaves room for the request, the least multiple of 8 that does; and the two words
      in front of it stand for that room and for the number of pages. */
  lemma MallocGives(h: State, root: nat, bytes: nat, virt: nat)
    requires Ready(h, root) && Roomy(h, bytes) && Malloc(h, root, bytes).1.Pointer?
    requires h.top <= virt < Malloc(h, root, bytes).0.top
    ensures var (h', a) := (Malloc(h, root, bytes).0, Malloc(h, root, bytes).1.address);
      && a + bytes <= h'.top < a + bytes + 8 && (h'.top - a) % 8 == 0 && h.top + 0x1000 <= a - 16 < h.top + 0x2000
      && ValueOf(Load(h'.sys.mem, root, a - 16)) == h'.top - a
      && ValueOf(Load(h'.sys.mem, root, a - 8)) * 0x1000 == h'.top - h.top
      && NewBlock(h, bytes).Some?
      && var (p, t) := (NewBlock(h, bytes).value.frame, HwWalk(h'.sys.mem, root, PageNumber(virt)));
         && t.Mapped? && t.level == 1 && t.rights == WRITE && t.leaf.low == 0x003 && !t.leaf.high
         && PhysicalAddress(t, virt) == p * 0x1000 + (virt - h.top)
         && t.leaf.page < |h.sys.frames.used| && !h.sys.frames.used[t.leaf.page]
  {
    hide Ready, Placed, Headed, Malloc, Load, PagesFor, HeaderAt, PageNumber, ValueOf, Returned;
    var (h', r) := Malloc(h, root, bytes);
    MallocAddsBlock(h, root, bytes);
    NewBlockIs(h, root, bytes);
    var b := NewBlock(h, bytes).value;
    BlockGeometry(b);
    HeaderSays(h'.sys.mem, root, b);
    ReadyInv(h', root);
    BlockEntry(h'.sys, root, b, virt);
  }

  lemma NewBlockIs(h: State, root: nat, bytes: nat)
    requires Ready(h, root) && NewBlock(h, bytes).Some?
    ensures var b := NewBlock(h, bytes).value;
      b.base == h.top && b.bytes == bytes && b.frame + Pages(b) <= |h.sys.frames.used|
      && forall f :: b.frame <= f < b.frame + Pages(b) ==> !h.sys.frames.used[f]
  {
    assert PagesFor(bytes) > 0;
    hide Ready, PagesFor;
    TakeFrames(h, root, PagesFor(bytes));
    var b := NewBlock(h, bytes).value;
    assert AllFree(h.sys.frames.used, b.frame, PagesFor(bytes));
  }

  lemma BlockEntry(s: Sys, root: nat, b: Block, virt: nat)
    requires Inv(s, root) && Placed(s, root, b) && Inside(b, virt) && virt < HEAP_END
    ensures var t := HwWalk(s.mem, root, PageNumber(virt));
      && t.Mapped? && t.level == 1 && t.rights == WRITE && t.leaf.low == 0x003 && !t.leaf.high
      && t.leaf.page == FrameOf(b, virt) && PhysicalAddress(t, virt) == b.frame * PAGE_SIZE + (virt - b.base)
  {
    hide Inv, Walk, HwWalk, RunIsData, Leaf, PageNumber, PhysicalAddress;
    BlockIsContiguous(s, root, b, virt);
    TreeOf(s, root);
    PageOfLow(virt);
    PageInRange(virt);
    HwWalkReadsSlots(s.mem, root, PageNumber(virt));
    var i := virt / PAGE_SIZE - b.base / PAGE_SIZE;
    assert PageMapped(s.mem, root, b, i);
    HeapLeaf(b.frame + i);
  }

  lemma ReadyTop(h: State, root: nat)
    requires Ready(h, root)
    ensures PageNumber(h.top) == h.top / PAGE_SIZE && MEMORY_BASE <= h.top <= HEAP_END
  {
  }

  /** A call adds its block. */
  lemma MallocAddsBlock(h: State, root: nat, bytes: nat)
    requires Ready(h, root) && Roomy(h, bytes)
    ensures var (h', r) := Malloc(h, root, bytes);
      r.Pointer? ==>
        && NewBlock(h, bytes).Some?
        && var b := NewBlock(h, bytes).value;
        && Ready(h', root) && Placed(h'.sys, root, b) && Headed(h'.sys.mem, root, b)
        && r.address == Returned(b) && h'.top == b.base + Pages(b) * PAGE_SIZE
  {
    hide Ready, Placed, Headed, Apart, MapRange, WriteHeader, PagesFor, HeaderAt;
    ReadyTop(h, root);
    TakeFrames(h, root, PagesFor(bytes));
    match Alloc(h.sys.frames, PagesFor(bytes), 1, 0)
    case (_, None) =>
    case (frames, Some(p)) =>
      var h1 := State(Sys(h.sys.mem, frames), h.top);
      MapKeepsReady(h1, root, bytes, p);
      MapPlaces(h1, root, bytes, p);
      match MapRange(h1.sys, root, 1, h.top / PAGE_SIZE, p, PagesFor(bytes), HEAP_PERMS)
      case None =>
      case Some(s) =>
        HeaderIsWritten(State(s, h.top + PAGE_SIZE * PagesFor(bytes)), root, Block(h.top, bytes, p));
  }

  lemma MallocIsOk(h: State, root: nat, blocks: seq<Block>, bytes: nat)
    requires HeapOk(h, root, blocks) && Roomy(h, bytes)
    ensures var (h', r) := Malloc(h, root, bytes);
      match r
      case NoMemory => h' == h
      case NullTable => true
      case Pointer(a) =>
        NewBlock(h, bytes).Some? && a == Returned(NewBlock(h, bytes).value)
          && HeapOk(h', root, blocks + [NewBlock(h, bytes).value])
  {
    hide Ready, Placed, Headed, Apart, Malloc;
    MallocAddsBlock(h, root, bytes);
    ReadyTop(h, root);
    forall b | b in blocks
      ensures var (h', r) := Malloc(h, root, bytes);
        r.Pointer? ==> Placed(h'.sys, root, b) && Headed(h'.sys.mem, root, b) && Apart(NewBlock(h, bytes).value, b)
    {
      MallocKeepsBlock(h, root, bytes, b);
    }
    NoMemoryChangesNothing(h, root, bytes);
    var (h', r) := Malloc(h, root, bytes);
    if r.Pointer? {
      var b := NewBlock(h, bytes).value;
      forall i, j | 0 <= i < j < |blocks + [b]|
        ensures Apart((blocks + [b])[i], (blocks + [b])[j])
      {
        if j == |blocks| {
          ApartIsSymmetric(b, blocks[i]);
        }
      }
    }
  }

  lemma ApartIsSymmetric(a: Block, b: Block)
    requires Apart(a, b)
    ensures Apart(b, a)
  {
  }

  lemma NoMemoryChangesNothing(h: State, root: nat, bytes: nat)
    ensures Malloc(h, root, bytes).1 == NoMemory ==> Malloc(h, root, bytes).0 == h
  {
  }

  /** With as many clear bits as the block and the largest possible number of new tables
      take, a call does not run into a null table. */
  lemma EnoughForMalloc(h: State, root: nat, bytes: nat)
    requires Ready(h, root) && Roomy(h, bytes)
    requires var n := PagesFor(bytes);
      ClearFrames(h.sys) >= n + TablesFor(n, 512) + TablesFor(n, 512 * 512) + TablesFor(n, 512 * 512 * 512)
    ensures Malloc(h, root, bytes).1 != NullTable
  {
    hide Inv, MapRange, WriteHeader, FirstFit, Rounded, HeaderAt;
    var n := PagesFor(bytes);
    ReadyTop(h, root);
    TakeFrames(h, root, n);
    AllocTakesLowest(h.sys.frames, n, 1, 0);
    match Alloc(h.sys.frames, n, 1, 0)
    case (_, None) =>
    case (frames, Some(p)) =>
      var s1 := Sys(h.sys.mem, frames);
      ClearAfterFill(h.sys.frames.used, BASE, frames.len, p, n);
      HeapRange(State(s1, h.top), root, bytes);
      EnoughFrames(s1, root, h.top / PAGE_SIZE, p, n, HEAP_PERMS);
  }

  /** No run of n free pages starts anywhere in the bitmap. */
  predicate NoRun(b: Bitmap, n: nat) { forall i: nat :: 0x2000 <= i < b.len ==> Blocked(b.used, i, n) }

  lemma NoRunIff(b: Bitmap, n: nat)
    ensures Alloc(b, n, 1, 0).1 == None <==> NoRun(b, n)
  {
    hide Alloc, Blocked;
    AllocIsFirst(b, n, 1, 0);
    assert forall i: nat :: StartsAt(b, 1, 0, i) <==> 0x2000 <= i < b.len;
  }

  lemma PagesForIs(bytes: nat)
    ensures PagesFor(bytes) == ((bytes + 7) / 8 * 8 + 16 + 4095) / 4096 + 1 > 0
  {
  }

  /** How a call ends: without memory if and only if no run of free pages is as long as the request with
      its header and one page more, and through a null table if and only if what is left is less than
      the tables that are missing. */
  lemma MallocEnds(h: State, root: nat, bytes: nat)
    requires Ready(h, root) && Roomy(h, bytes)
    ensures var n := ((bytes + 7) / 8 * 8 + 16 + 4095) / 4096 + 1;
      var (lo, hi) := (h.top / 0x1000 / 512, (h.top / 0x1000 + (n - 1)) / 512);
      match Malloc(h, root, bytes).1
      case NoMemory => NoRun(h.sys.frames, n)
      case NullTable => !NoRun(h.sys.frames, n) && ClearFrames(h.sys) < n + Need(h.sys.mem, root, 1, lo, hi)
      case Pointer(_) => !NoRun(h.sys.frames, n) && ClearFrames(h.sys) >= n + Need(h.sys.mem, root, 1, lo, hi)
  {
    hide Inv, Ready, MapRange, WriteHeader, FirstFit, PagesFor, HeaderAt, Need, NoRun, CanMapRange, ClearFrames;
    PagesForIs(bytes);
    ReadyTop(h, root);
    NoRunIff(h.sys.frames, PagesFor(bytes));
    TakeFrames(h, root, PagesFor(bytes));
    TakenFrames(h, root, PagesFor(bytes));
    match Alloc(h.sys.frames, PagesFor(bytes), 1, 0)
    case (_, None) =>
    case (frames, Some(p)) =>
      var s1 := Sys(h.sys.mem, frames);
      HeapRange(State(s1, h.top), root, bytes);
      MapRangeBudget(s1, root, 1, h.top / PAGE_SIZE, p, PagesFor(bytes), HEAP_PERMS);
  }

  lemma TakenFrames(h: State, root: nat, n: nat)
    requires Ready(h, root)
    ensures match Alloc(h.sys.frames, n, 1, 0)
      case (_, None) => true
      case (frames, Some(p)) =>
        frames.len <= |frames.used| && ClearFrames(Sys(h.sys.mem, frames)) == ClearFrames(h.sys) - n
  {
    hide Tree, Tab, HeapPath, FirstFit;
    TakeFrames(h, root, n);
    AllocTakesLowest(h.sys.frames, n, 1, 0);
    match Alloc(h.sys.frames, n, 1, 0)
    case (_, None) =>
    case (frames, Some(p)) => ClearAfterFill(h.sys.frames.used, BASE, frames.len, p, n);
  }

  /** A caller asks for memory, or writes word k of the i-th block that it was given: any word that
      holds a byte of what was asked for. */
  datatype Call = Request(bytes: nat) | Write(i: nat, k: nat, w: Word)

  /** None where the upper half would be reached, a null table is run into, or a write misses
      the memory that was asked for. */
  function Step(h: State, root: nat, blocks: seq<Block>, c: Call): Option<(State, seq<Block>)> {
    match c
    case Request(bytes) =>
      if h.top + PagesFor(bytes) * PAGE_SIZE > HEAP_END then None
      else
        (match Malloc(h, root, bytes)
         case (_, NoMemory) => Some((h, blocks))
         case (_, NullTable) => None
         case (h', Pointer(_)) =>
           if NewBlock(h, bytes).Some? then Some((h', blocks + [NewBlock(h, bytes).value])) else None)
    case Write(i, k, w) =>
      if i < |blocks| && 8 * k < blocks[i].bytes then
        Some((State(Sys(Store(h.sys.mem, root, Returned(blocks[i]) + 8 * k, w), h.sys.frames), h.top), blocks))
      else None
  }

  /** How a step ends: it is impossible exactly where the upper half would be reached, a null table is run
      into or a write misses, and a request adds its block exactly if there is a run of frames for it. */
  lemma StepEnds(h: State, root: nat, blocks: seq<Block>, c: Call)
    requires HeapOk(h, root, blocks)
    ensures match c
      case Request(bytes) =>
        var n := ((bytes + 7) / 8 * 8 + 16 + 4095) / 4096 + 1;
        var (lo, hi) := (h.top / 0x1000 / 512, (h.top / 0x1000 + (n - 1)) / 512);
        (match Step(h, root, blocks, c)
         case None =>
           || h.top + n * 0x1000 > 0x8000_0000_0000
           || (!NoRun(h.sys.frames, n) && ClearFrames(h.sys) < n + Need(h.sys.mem, root, 1, lo, hi))
         case Some((h', blocks')) =>
           && h.top + n * 0x1000 <= 0x8000_0000_0000
           && if NoRun(h.sys.frames, n) then h' == h && blocks' == blocks
              else
                && ClearFrames(h.sys) >= n + Need(h.sys.mem, root, 1, lo, hi)
                && h'.top == h.top + n * 0x1000 && |blocks'| == |blocks| + 1 && blocks'[..|blocks|] == blocks
                && blocks'[|blocks|].base == h.top && blocks'[|blocks|].bytes == bytes)
      case Write(i, k, _) =>
        match Step(h, root, blocks, c)
        case None => i >= |blocks| || 8 * k >= blocks[i].bytes
        case Some((h', blocks')) => i < |blocks| && 8 * k < blocks[i].bytes && h'.top == h.top && blocks' == blocks
  {
    hide Ready, Placed, Headed, Apart, Malloc, NewBlock, Store, Returned, PagesFor, Need, NoRun, ClearFrames;
    match c
    case Request(bytes) =>
      PagesForIs(bytes);
      if Roomy(h, bytes) {
        MallocEnds(h, root, bytes);
        MallocAddsBlock(h, root, bytes);
        NoMemoryChangesNothing(h, root, bytes);
        if NewBlock(h, bytes).Some? {
          NewBlockIs(h, root, bytes);
        }
      }
    case Write(_, _, _) =>
  }

  function Calls(h: State, root: nat, blocks: seq<Block>, cs: seq<Call>): Option<(State, seq<Block>)>
    decreases |cs|
  {
    if cs == [] then Some((h, blocks))
    else
      match Step(h, root, blocks, cs[0])
      case None => None
      case Some((h', blocks')) => Calls(h', root, blocks', cs[1..])
  }

  lemma PayloadIsInside(b: Block, k: nat)
    requires 8 * k < b.bytes
    ensures HeaderAt(b.base, b.bytes) + 16 <= Returned(b) + 8 * k && Inside(b, Returned(b) + 8 * k)
  {
    assert Rounded(b.bytes) <= PagesFor(b.bytes) * PAGE_SIZE;
  }

  lemma PayloadIsAligned(b: Block, k: nat)
    requires b.base % PAGE_SIZE == 0
    ensures WordAligned(Returned(b) + 8 * k)
  {
    hide HeaderAt;
    HeaderMod8(b.base, b.bytes);
  }

  /** A write into a block keeps its own header. */
  lemma WriteKeepsOwn(h: State, root: nat, b: Block, k: nat, w: Word)
    requires Ready(h, root) && Placed(h.sys, root, b) && Headed(h.sys.mem, root, b)
    requires b.base + Pages(b) * PAGE_SIZE <= HEAP_END && 8 * k < b.bytes
    ensures var s' := Sys(Store(h.sys.mem, root, Returned(b) + 8 * k, w), h.sys.frames);
      Ready(State(s', h.top), root) && Placed(s', root, b) && Headed(s'.mem, root, b)
  {
    hide Inv, Ready, Placed, Store, Load, HeaderAt, PagesFor, Payload, WordOf, WordAligned;
    var virt := Returned(b) + 8 * k;
    BlocksAligned(h.sys, root, b);
    ReadyInv(h, root);
    HeaderIsAligned(b.base, b.bytes);
    HeaderIsInside(b.base, b.bytes);
    PayloadIsInside(b, k);
    PayloadIsAligned(b, k);
    StoreKeepsReady(h, root, b, virt, w);
    LoadAfterStore(h.sys, root, b, virt, w, b, HeaderAt(b.base, b.bytes));
    LoadAfterStore(h.sys, root, b, virt, w, b, HeaderAt(b.base, b.bytes) + 8);
  }

  lemma WriteKeepsOther(h: State, root: nat, b: Block, k: nat, w: Word, b': Block)
    requires Ready(h, root) && Placed(h.sys, root, b) && 8 * k < b.bytes
    requires b.base + Pages(b) * PAGE_SIZE <= HEAP_END
    requires Placed(h.sys, root, b') && Headed(h.sys.mem, root, b') && Apart(b, b')
    requires b'.base + Pages(b') * PAGE_SIZE <= HEAP_END
    ensures var s' := Sys(Store(h.sys.mem, root, Returned(b) + 8 * k, w), h.sys.frames);
      Placed(s', root, b') && Headed(s'.mem, root, b')
  {
    hide Inv, Ready, Placed, Headed, Store, Apart, HeaderAt, PagesFor, Payload, WordOf, WordAligned;
    BlocksAligned(h.sys, root, b);
    ReadyInv(h, root);
    HeaderIsAligned(b.base, b.bytes);
    HeaderIsInside(b.base, b.bytes);
    PayloadIsInside(b, k);
    PayloadIsAligned(b, k);
    StoreKeepsBlock(h.sys, root, b, Returned(b) + 8 * k, w, b');
  }

  lemma WriteIsOk(h: State, root: nat, blocks: seq<Block>, i: nat, k: nat, w: Word)
    requires HeapOk(h, root, blocks) && i < |blocks| && 8 * k < blocks[i].bytes
    ensures var s' := Sys(Store(h.sys.mem, root, Returned(blocks[i]) + 8 * k, w), h.sys.frames);
      HeapOk(State(s', h.top), root, blocks)
  {
    hide Ready, Placed, Headed, Apart, Store, Returned;
    ReadyTop(h, root);
    var b := blocks[i];
    assert b in blocks;
    var s' := Sys(Store(h.sys.mem, root, Returned(b) + 8 * k, w), h.sys.frames);
    WriteKeepsOwn(h, root, b, k, w);
    forall j: nat | j < |blocks|
      ensures Placed(s', root, blocks[j]) && Headed(s'.mem, root, blocks[j])
    {
      assert blocks[j] in blocks;
      if j < i {
        ApartIsSymmetric(blocks[j], b);
      }
      if j != i {
        WriteKeepsOther(h, root, b, k, w, blocks[j]);
      }
    }
  }

  /** A call leaves every word of every block that there is as it was. */
  lemma MallocKeepsWord(h: State, root: nat, bytes: nat, b: Block, virt: nat)
    requires Ready(h, root) && Roomy(h, bytes) && Placed(h.sys, root, b) && Headed(h.sys.mem, root, b)
    requires b.base + Pages(b) * PAGE_SIZE <= h.top && Inside(b, virt) && WordAligned(virt)
    ensures var (h', r) := Malloc(h, root, bytes);
      r.Pointer? ==> Load(h'.sys.mem, root, virt) == Load(h.sys.mem, root, virt)
  {
    hide Ready, Placed, Headed, Apart, MapRange, WriteHeader, Load, PagesFor, HeaderAt, KeepsFrames, WordAligned;
    ReadyTop(h, root);
    TakeFrames(h, root, PagesFor(bytes));
    TakeKeepsBlock(h, root, bytes, b);
    match Alloc(h.sys.frames, PagesFor(bytes), 1, 0)
    case (_, None) =>
    case (frames, Some(p)) =>
      var h1 := State(Sys(h.sys.mem, frames), h.top);
      MapKeepsReady(h1, root, bytes, p);
      MapPlaces(h1, root, bytes, p);
      MapKeepsBlock(h1, root, bytes, p, PagesFor(bytes), b);
      match MapRange(h1.sys, root, 1, h.top / PAGE_SIZE, p, PagesFor(bytes), HEAP_PERMS)
      case None =>
      case Some(s) =>
        ReadyInv(h1, root);
        ReadyInv(State(s, h.top + PAGE_SIZE * PagesFor(bytes)), root);
        LoadStays(h1.sys, s, root, b, virt);
        HeaderKeepsWord(State(s, h.top + PAGE_SIZE * PagesFor(bytes)), root, Block(h.top, bytes, p), b, virt);
  }

  lemma HeaderKeepsWord(h: State, root: nat, b: Block, b': Block, virt: nat)
    requires Ready(h, root) && Placed(h.sys, root, b) && b.base + Pages(b) * PAGE_SIZE <= HEAP_END
    requires Placed(h.sys, root, b') && Headed(h.sys.mem, root, b') && Apart(b, b')
    requires b'.base + Pages(b') * PAGE_SIZE <= HEAP_END && Inside(b', virt) && WordAligned(virt)
    ensures Load(WriteHeader(h.sys.mem, root, b.base, b.bytes), root, virt) == Load(h.sys.mem, root, virt)
  {
    hide Inv, Ready, Store, Load, Placed, Headed, Apart, HeaderAt, PagesFor, Payload, WordOf, WordAligned;
    ReadyInv(h, root);
    var at := HeaderAt(b.base, b.bytes);
    var w1, w2 := WordOf(Payload(b.bytes)), WordOf(Pages(b));
    BlocksAligned(h.sys, root, b);
    HeaderIsAligned(b.base, b.bytes);
    HeaderIsInside(b.base, b.bytes);
    var h1 := State(Sys(Store(h.sys.mem, root, at, w1), h.sys.frames), h.top);
    StoreKeepsReady(h, root, b, at, w1);
    ReadyInv(h1, root);
    StoreKeepsBlock(h.sys, root, b, at, w1, b');
    LoadAfterStore(h.sys, root, b, at, w1, b', virt);
    LoadAfterStore(h1.sys, root, b, at + 8, w2, b', virt);
    ApartAddresses(b', b, virt) by { ApartIsSymmetric(b, b'); }
  }

  /** The last value that the calls write to word k of block i, if they write it. */
  function LastWritten(cs: seq<Call>, i: nat, k: nat, w0: Word): Word {
    if cs == [] then w0
    else
      var c := cs[|cs| - 1];
      if c.Write? && c.i == i && c.k == k then c.w else LastWritten(cs[..|cs| - 1], i, k, w0)
  }

  /** Word k of the memory that the caller got for block b. */
  function WordAt(m: Memory, root: nat, b: Block, k: nat): Word { Load(m, root, Returned(b) + 8 * k) }

  lemma StepReadsBack(h: State, root: nat, blocks: seq<Block>, c: Call, i: nat, k: nat)
    requires HeapOk(h, root, blocks) && i < |blocks| && 8 * k < blocks[i].bytes
    ensures match Step(h, root, blocks, c)
      case None => true
      case Some((h', _)) =>
        WordAt(h'.sys.mem, root, blocks[i], k) ==
          if c.Write? && c.i == i && c.k == k then c.w else WordAt(h.sys.mem, root, blocks[i], k)
  {
    hide Ready, Placed, Headed, Apart, Malloc, Store, Load, NewBlock, Returned, Inside, PagesFor, WordAligned;
    ReadyTop(h, root);
    ReadyInv(h, root);
    var b := blocks[i];
    assert b in blocks;
    BlocksAligned(h.sys, root, b);
    PayloadIsInside(b, k);
    PayloadIsAligned(b, k);
    match c
    case Request(bytes) =>
      if Roomy(h, bytes) {
        MallocKeepsWord(h, root, bytes, b, Returned(b) + 8 * k);
      }
    case Write(j, n, w) =>
      if j < |blocks| && 8 * n < blocks[j].bytes {
        var b' := blocks[j];
        assert b' in blocks;
        BlocksAligned(h.sys, root, b');
        PayloadIsInside(b', n);
        PayloadIsAligned(b', n);
        BlocksApart(h, root, blocks, i, j);
        if i != j {
          ApartAddresses(b', b, Returned(b') + 8 * n);
        }
        InsideIsLow(h, b', Returned(b') + 8 * n);
        InsideIsLow(h, b, Returned(b) + 8 * k);
        LoadAfterStore(h.sys, root, b', Returned(b') + 8 * n, w, b, Returned(b) + 8 * k);
      }
  }

  lemma InsideIsLow(h: State, b: Block, virt: nat)
    requires Inside(b, virt) && b.base + Pages(b) * PAGE_SIZE <= h.top <= HEAP_END
    ensures virt < HEAP_END
  {
  }

  lemma BlocksApart(h: State, root: nat, blocks: seq<Block>, i: nat, j: nat)
    requires HeapOk(h, root, blocks) && i < |blocks| && j < |blocks|
    ensures i == j || (Apart(blocks[j], blocks[i]) && Apart(blocks[i], blocks[j]))
  {
    hide Ready, Placed, Headed, Apart;
    if i < j {
      ApartIsSymmetric(blocks[i], blocks[j]);
    } else if j < i {
      ApartIsSymmetric(blocks[j], blocks[i]);
    }
  }

  lemma StepIsOk(h: State, root: nat, blocks: seq<Block>, c: Call)
    requires HeapOk(h, root, blocks)
    ensures match Step(h, root, blocks, c)
      case None => true
      case Some((h', blocks')) => HeapOk(h', root, blocks') && blocks <= blocks'
  {
    hide HeapOk, Malloc, Store, NewBlock, Returned;
    match c
    case Request(bytes) =>
      if Roomy(h, bytes) {
        MallocIsOk(h, root, blocks, bytes);
      }
    case Write(i, k, w) =>
      if i < |blocks| && 8 * k < blocks[i].bytes {
        WriteIsOk(h, root, blocks, i, k, w);
      }
  }

  /** After any sequence of calls and of writes to the memory they returned, all blocks handed
      out are pairwise disjoint in virtual and in physical memory, each is still mapped to its
      own contiguous frames, and every header is intact. */
  lemma {:induction false} CallsAreOk(h: State, root: nat, blocks: seq<Block>, cs: seq<Call>)
    requires HeapOk(h, root, blocks)
    ensures match Calls(h, root, blocks, cs)
      case None => true
      case Some((h', blocks')) => HeapOk(h', root, blocks') && blocks <= blocks'
    decreases |cs|
  {
    hide HeapOk, Step;
    if cs != [] {
      StepIsOk(h, root, blocks, cs[0]);
      match Step(h, root, blocks, cs[0])
      case None =>
      case Some((h', blocks')) => CallsAreOk(h', root, blocks', cs[1..]);
    }
  }

  lemma NoDirectory(m: Memory, root: nat, x: nat)
    requires Tab(m, root, 2, x / 512 / 512) == None
    requires PathFlags(m, root, 2, x / 512 / 512) & (WRITE | PRESENT) == WRITE | PRESENT
    ensures HeapPath(m, root, x)
  {
    assert Slot(m, root, 2, x / 512) == ZERO;
    assert PathFlags(m, root, 1, x / 512) == PathFlags(m, root, 2, x / 512 / 512) & 0xFFF;
    hide PathFlags;
    GrantsWrite(PathFlags(m, root, 2, x / 512 / 512));
  }

  lemma GrantsWrite(a: bv12)
    requires a & (WRITE | PRESENT) == WRITE | PRESENT
    ensures Has(a & 0xFFF, WRITE)
  {
  }

  /** Memory keeps what is written to it: after any sequence of calls and writes a word of a block holds
      what was last written to it, and what it held before if nothing was. */
  lemma {:induction false} CallsReadBack(h: State, root: nat, blocks: seq<Block>, cs: seq<Call>, i: nat, k: nat)
    requires HeapOk(h, root, blocks) && i < |blocks| && 8 * k < blocks[i].bytes
    ensures match Calls(h, root, blocks, cs)
      case None => true
      case Some((h', _)) =>
        WordAt(h'.sys.mem, root, blocks[i], k) == LastWritten(cs, i, k, WordAt(h.sys.mem, root, blocks[i], k))
    decreases |cs|
  {
    hide HeapOk, Step, WordAt, LastWritten;
    if cs == [] {
      NothingWritten(i, k, WordAt(h.sys.mem, root, blocks[i], k));
    } else {
      StepReadsBack(h, root, blocks, cs[0], i, k);
      StepIsOk(h, root, blocks, cs[0]);
      match Step(h, root, blocks, cs[0])
      case None =>
      case Some((h', blocks')) =>
        CallsReadBack(h', root, blocks', cs[1..], i, k);
        FirstWritten(cs, i, k, WordAt(h.sys.mem, root, blocks[i], k));
    }
  }

  lemma NothingWritten(i: nat, k: nat, w0: Word)
    ensures LastWritten([], i, k, w0) == w0
  {
  }

  lemma {:induction false} FirstWritten(cs: seq<Call>, i: nat, k: nat, w0: Word)
    requires cs != []
    ensures var c := cs[0];
      LastWritten(cs, i, k, w0) == LastWritten(cs[1..], i, k, if c.Write? && c.i == i && c.k == k then c.w else w0)
    decreases |cs|
  {
    if |cs| > 1 {
      FirstWritten(cs[..|cs| - 1], i, k, w0);
      assert cs[..|cs| - 1][1..] == cs[1..][..|cs| - 2];
    } else {
      assert cs[1..] == [] && cs[..0] == [];
    }
  }

  /** The heap starts out well on a new address space, below a reserved bit. */
  lemma HeapStarts(s: Sys)
    requires FramesFit(s) && s.frames.len < |s.frames.used| && s.frames.used[s.frames.len]
    ensures match NewAddressSpace(s)
      case None => true
      case Some((s', root)) => HeapOk(State(s', MEMORY_BASE), root, [])
  {
    hide Inv, NewAddressSpace, Tab;
    NewSpaceTakesEight(s);
    NewSpaceReserves(s);
    match NewAddressSpace(s)
    case None =>
    case Some((s', root)) =>
      assert Reserved(s.frames, s.frames.len) && Reserved(s'.frames, s'.frames.len);
      forall x | MEMORY_BASE / PAGE_SIZE <= x < HEAP_END / PAGE_SIZE
        ensures HeapPath(s'.mem, root, x)
      {
        NewSpaceIsLow(s, x / 512 / 512);
        NewSpaceFlags(s, x / 512 / 512);
        NoDirectory(s'.mem, root, x);
      }
  }
}
