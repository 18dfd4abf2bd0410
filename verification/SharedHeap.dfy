/** The heap when every call runs in an address space of its own: `top` and the frames are shared,
    while each block is mapped in the address space of its caller. */
module SharedHeap {
  import opened Wrappers
  import opened Paging
  import opened Frames
  import opened Tables
  import opened Mapping
  import opened AddressSpace
  import opened PagingRuns
  import opened Spaces
  import opened Heap

  /** A block and the address space that it was handed out in. */
  datatype Owned = Owned(root: nat, block: Block)

  ghost predicate Shared(h: State) {
    && FramesFit(h.sys) && h.sys.frames.len < |h.sys.frames.used| && h.sys.frames.used[h.sys.frames.len]
    && h.top % PAGE_SIZE == 0 && MEMORY_BASE <= h.top <= HEAP_END
  }

  /** The heap is ready in every address space, and these are apart from each other. */
  ghost predicate AllReady(h: State, roots: set<nat>) {
    && Shared(h)
    && (forall r :: r in roots ==> Ready(h, r))
    && (forall r, r' :: r in roots && r' in roots && r != r' ==> Separate(h.sys.mem, r, r'))
  }

  /** The frames are in use as data and hold no table of any address space. */
  ghost predicate DataForAll(s: Sys, roots: set<nat>, run: Frames.Run) {
    forall r :: r in roots ==> RunIsData(s, r, run)
  }

  ghost predicate Stands(h: State, roots: set<nat>, o: Owned) {
    && o.root in roots && Placed(h.sys, o.root, o.block) && Headed(h.sys.mem, o.root, o.block)
    && o.block.base + Pages(o.block) * PAGE_SIZE <= h.top
    && DataForAll(h.sys, roots, Heap.Run(o.block))
  }

  /** A change in one address space leaves the heap ready in the others. */
  lemma BesideReady(h: State, s': Sys, root: nat, other: nat)
    requires Ready(h, other) && Local(h.sys, s', root) && Separate(h.sys.mem, other, root)
    ensures Ready(State(s', h.top), other) && Separate(s'.mem, other, root) && Separate(s'.mem, root, other)
  {
    hide Inv, Tab, Slot, DataKept, TabLocal;
    ReadyInv(h, other);
    OtherTables(h.sys, s', root, other);
    OtherStays(h.sys, s', root, other);
    assert Reserved(h.sys.frames, h.sys.frames.len);
    SamePaths(h.sys.mem, s'.mem, other);
  }

  lemma BesideData(s: Sys, s': Sys, root: nat, other: nat, run: Frames.Run)
    requires Inv(s, other) && Local(s, s', root) && Separate(s.mem, other, root) && RunIsData(s, other, run)
    ensures RunIsData(s', other, run)
  {
    hide Inv, Tab, Slot, DataKept, TabLocal;
    OtherTables(s, s', root, other);
    forall f: nat | InRun(run, f) ensures f < |s'.frames.used| && IsData(s', other, f) {
      assert IsData(s, other, f);
    }
  }

  lemma BesidePlaced(s: Sys, s': Sys, root: nat, other: nat, b: Block)
    requires Inv(s, other) && Local(s, s', root) && Separate(s.mem, other, root) && Placed(s, other, b)
    ensures Placed(s', other, b)
  {
    hide Inv, Tab, DataKept, TabLocal, RunIsData;
    OtherTables(s, s', root, other);
    BesideData(s, s', root, other, Heap.Run(b));
    forall i: nat | i < Pages(b) ensures PageMapped(s'.mem, other, b, i) {
      assert PageMapped(s.mem, other, b, i);
    }
  }

  /** And so do loads from blocks there. */
  lemma BesideLoad(s: Sys, s': Sys, root: nat, other: nat, b: Block, virt: nat)
    requires Inv(s, other) && Local(s, s', root) && Separate(s.mem, other, root) && Placed(s, other, b)
    requires RunIsData(s, root, Heap.Run(b)) && Inside(b, virt) && virt < HEAP_END
    ensures Load(s'.mem, other, virt) == Load(s.mem, other, virt)
  {
    hide Inv, Load, Store, FrameOf, Separate, Cell, SetCell, Tab, TabLocal, PageMapped;
    BesidePlaced(s, s', root, other, b);
    OtherStays(s, s', root, other);
    BlocksAligned(s, other, b);
    FrameInRun(b, virt);
    Access(s, other, b, virt, ZERO);
    Access(s', other, b, virt, ZERO);
    assert IsData(s, root, FrameOf(b, virt));
  }

  lemma BesideHeaded(s: Sys, s': Sys, root: nat, other: nat, b: Block)
    requires Inv(s, other) && Local(s, s', root) && Separate(s.mem, other, root) && Placed(s, other, b)
    requires RunIsData(s, root, Heap.Run(b)) && Headed(s.mem, other, b) && b.base + Pages(b) * PAGE_SIZE <= HEAP_END
    ensures Headed(s'.mem, other, b)
  {
    hide Inv, Placed, Load, Local, Separate, RunIsData;
    HeaderIsInside(b.base, b.bytes);
    BesideLoad(s, s', root, other, b, HeaderAt(b.base, b.bytes));
    BesideLoad(s, s', root, other, b, HeaderAt(b.base, b.bytes) + 8);
  }

  /** The frames of a new block. */
  lemma TakeShared(h: State, roots: set<nat>, count: nat)
    requires AllReady(h, roots)
    ensures match Alloc(h.sys.frames, count, 1, 0)
      case (_, None) => true
      case (frames, Some(p)) =>
        var s1 := Sys(h.sys.mem, frames);
        && AllReady(State(s1, h.top), roots) && DataForAll(s1, roots, Frames.Run(p, count))
        && p + count <= frames.len && p > 0
  {
    hide Ready, Separate, RunIsData, FirstFit;
    AllocTakesLowest(h.sys.frames, count, 1, 0);
    match Alloc(h.sys.frames, count, 1, 0)
    case (_, None) =>
    case (frames, Some(p)) =>
      assert p + count <= frames.len by {
        assert AllFree(h.sys.frames.used, p, count);
      }
      forall r | r in roots
        ensures Ready(State(Sys(h.sys.mem, frames), h.top), r)
          && RunIsData(Sys(h.sys.mem, frames), r, Frames.Run(p, count))
      {
        TakeFrames(h, r, count);
      }
  }

  lemma TakeSharedStands(h: State, roots: set<nat>, bytes: nat, o: Owned)
    requires AllReady(h, roots) && Stands(h, roots, o)
    ensures match Alloc(h.sys.frames, PagesFor(bytes), 1, 0)
      case (_, None) => true
      case (frames, Some(p)) =>
        Stands(State(Sys(h.sys.mem, frames), h.top), roots, o) && Apart(Block(h.top, bytes, p), o.block)
  {
    hide Ready, Separate, Placed, Headed, Apart, PagesFor, IsData;
    TakeKeepsBlock(h, o.root, bytes, o.block);
    match Alloc(h.sys.frames, PagesFor(bytes), 1, 0)
    case (_, None) =>
    case (frames, Some(p)) =>
      forall r | r in roots ensures RunIsData(Sys(h.sys.mem, frames), r, Heap.Run(o.block)) {
        TakeFrames(h, r, PagesFor(bytes));
        assert RunIsData(h.sys, r, Heap.Run(o.block));
      }
  }

  /** Mapping the first n pages of a new block in one address space. */
  lemma MapIsLocal(h: State, root: nat, bytes: nat, p: nat, n: nat)
    requires Ready(h, root) && Roomy(h, bytes) && n <= PagesFor(bytes)
    ensures match MapRange(h.sys, root, 1, h.top / PAGE_SIZE, p, n, HEAP_PERMS)
      case None => true
      case Some(s) => Local(h.sys, s, root)
  {
    hide Ready, MapRange, Maps, Local, PagesFor;
    HeapPart(h, root, bytes, n);
    MapRangeMaps(h.sys, root, 1, h.top / PAGE_SIZE, p, n, HEAP_PERMS);
    match MapRange(h.sys, root, 1, h.top / PAGE_SIZE, p, n, HEAP_PERMS)
    case None =>
    case Some(s) => MapsIsLocal(h.sys, s, root, 1, HEAP_PERMS);
  }

  lemma MapShared(h: State, roots: set<nat>, root: nat, bytes: nat, p: nat, n: nat)
    requires AllReady(h, roots) && root in roots && Roomy(h, bytes) && n <= PagesFor(bytes)
    ensures match MapRange(h.sys, root, 1, h.top / PAGE_SIZE, p, n, HEAP_PERMS)
      case None => true
      case Some(s) => AllReady(State(s, h.top), roots)
  {
    hide Ready, MapRange, Separate, Local, PagesFor, Roomy;
    MapIsLocal(h, root, bytes, p, n);
    MapKeepsFrames(h, root, bytes, p, n);
    match MapRange(h.sys, root, 1, h.top / PAGE_SIZE, p, n, HEAP_PERMS)
    case None =>
    case Some(s) =>
      ReadyShared(State(s, h.top), root);
      forall other | other in roots && other != root
        ensures Ready(State(s, h.top), other) && Separate(s.mem, other, root) && Separate(s.mem, root, other)
      {
        BesideReady(h, s, root, other);
      }
      forall r, r' | r in roots && r' in roots && r != r' && r != root && r' != root
        ensures Separate(s.mem, r, r')
      {
        ReadyInv(h, r);
        ReadyInv(h, r');
        BothKept(h.sys, s, root, r, r');
      }
  }

  lemma ReadyShared(h: State, root: nat)
    requires Ready(h, root)
    ensures Shared(h)
  {
    hide Tree, Tab, HeapPath;
  }

  lemma MapSharedData(h: State, roots: set<nat>, root: nat, bytes: nat, p: nat, n: nat, run: Frames.Run)
    requires AllReady(h, roots) && root in roots && Roomy(h, bytes) && n <= PagesFor(bytes)
    requires DataForAll(h.sys, roots, run)
    ensures match MapRange(h.sys, root, 1, h.top / PAGE_SIZE, p, n, HEAP_PERMS)
      case None => true
      case Some(s) => DataForAll(s, roots, run)
  {
    hide Ready, MapRange, Separate, Local, PagesFor, Roomy, IsData;
    MapIsLocal(h, root, bytes, p, n);
    MapKeepsFrames(h, root, bytes, p, n);
    match MapRange(h.sys, root, 1, h.top / PAGE_SIZE, p, n, HEAP_PERMS)
    case None =>
    case Some(s) =>
      forall r | r in roots ensures RunIsData(s, r, run) {
        assert RunIsData(h.sys, r, run);
        if r != root {
          ReadyInv(h, r);
          BesideData(h.sys, s, root, r, run);
        }
      }
  }

  lemma MapSharedStands(h: State, roots: set<nat>, root: nat, bytes: nat, p: nat, n: nat, o: Owned)
    requires AllReady(h, roots) && root in roots && Roomy(h, bytes) && n <= PagesFor(bytes) && Stands(h, roots, o)
    ensures match MapRange(h.sys, root, 1, h.top / PAGE_SIZE, p, n, HEAP_PERMS)
      case None => true
      case Some(s) => Stands(State(s, h.top), roots, o)
  {
    hide Ready, MapRange, Separate, Local, PagesFor, Roomy, Placed, Headed, RunIsData;
    MapIsLocal(h, root, bytes, p, n);
    MapSharedData(h, roots, root, bytes, p, n, Heap.Run(o.block));
    match MapRange(h.sys, root, 1, h.top / PAGE_SIZE, p, n, HEAP_PERMS)
    case None =>
    case Some(s) =>
      if o.root == root {
        MapKeepsBlock(h, root, bytes, p, n, o.block);
      } else {
        ReadyInv(h, o.root);
        BesidePlaced(h.sys, s, root, o.root, o.block);
        BesideHeaded(h.sys, s, root, o.root, o.block);
      }
  }

  /** A store into a block, through the address space that it is mapped in, is a store to a frame that
      holds no table of any address space. */
  lemma StoreIsData(h: State, roots: set<nat>, root: nat, b: Block, virt: nat, w: Word, r: nat)
    requires AllReady(h, roots) && root in roots && r in roots
    requires Placed(h.sys, root, b) && DataForAll(h.sys, roots, Heap.Run(b)) && Inside(b, virt) && virt < HEAP_END
    ensures Stored(h.sys, Sys(Store(h.sys.mem, root, virt, w), h.sys.frames), r)
  {
    hide Ready, Separate, Store, Load, Tree, Tab, Slot, PageMapped, FrameOf, Cell, SetCell;
    ReadyInv(h, root);
    ReadyInv(h, r);
    BlocksAligned(h.sys, root, b);
    FrameInRun(b, virt);
    Access(h.sys, root, b, virt, w);
    assert RunIsData(h.sys, r, Heap.Run(b));
    assert IsData(h.sys, r, FrameOf(b, virt));
    DataWrite(h.sys, r, FrameOf(b, virt), virt % PAGE_SIZE / 8, w);
    SetCellSize(h.sys.mem, FrameOf(b, virt), virt % PAGE_SIZE / 8, w);
  }

  lemma SetCellSize(m: Memory, f: nat, i: nat, w: Word)
    ensures |SetCell(m, f, i, w)| == |m|
  {
  }

  lemma StoredReady(h: State, s': Sys, root: nat)
    requires Ready(h, root) && Stored(h.sys, s', root)
    ensures Ready(State(s', h.top), root)
  {
    hide Inv, Tab;
    SamePaths(h.sys.mem, s'.mem, root);
  }

  lemma StoredSeparate(s: Sys, s': Sys, r: nat, r': nat)
    requires Stored(s, s', r) && Stored(s, s', r') && Separate(s.mem, r, r')
    ensures Separate(s'.mem, r, r')
  {
    hide Inv, Tab, Slot;
  }

  lemma StoreShared(h: State, roots: set<nat>, root: nat, b: Block, virt: nat, w: Word)
    requires AllReady(h, roots) && root in roots
    requires Placed(h.sys, root, b) && DataForAll(h.sys, roots, Heap.Run(b)) && Inside(b, virt) && virt < HEAP_END
    ensures var s' := Sys(Store(h.sys.mem, root, virt, w), h.sys.frames);
      AllReady(State(s', h.top), roots) && forall r :: r in roots ==> Stored(h.sys, s', r)
  {
    hide Ready, Separate, Store, Stored, Placed, Inside, DataForAll;
    var s' := Sys(Store(h.sys.mem, root, virt, w), h.sys.frames);
    forall r | r in roots ensures Stored(h.sys, s', r) && Ready(State(s', h.top), r) {
      StoreIsData(h, roots, root, b, virt, w, r);
      StoredReady(h, s', r);
    }
    ReadyShared(State(s', h.top), root);
    forall r, r' | r in roots && r' in roots && r != r' ensures Separate(s'.mem, r, r') {
      StoredSeparate(h.sys, s', r, r');
    }
  }

  lemma StoredData(s: Sys, s': Sys, roots: set<nat>, run: Frames.Run)
    requires (forall r :: r in roots ==> Stored(s, s', r)) && DataForAll(s, roots, run)
    ensures DataForAll(s', roots, run)
  {
    hide Inv, Tab, Slot;
    forall r | r in roots ensures RunIsData(s', r, run) {
      assert RunIsData(s, r, run) && Stored(s, s', r);
      forall f: nat | InRun(run, f) ensures f < |s'.frames.used| && IsData(s', r, f) {
        assert IsData(s, r, f);
      }
    }
  }

  /** A store into one block leaves loads from the others alone, in whichever address space they are. */
  lemma StoreKeepsLoad(h: State, roots: set<nat>, root: nat, b: Block, virt: nat, w: Word, o: Owned, virt': nat)
    requires AllReady(h, roots) && root in roots
    requires Placed(h.sys, root, b) && DataForAll(h.sys, roots, Heap.Run(b)) && Inside(b, virt) && virt < HEAP_END
    requires Stands(h, roots, o) && Apart(b, o.block) && Inside(o.block, virt') && virt' < HEAP_END
    ensures Load(Store(h.sys.mem, root, virt, w), o.root, virt') == Load(h.sys.mem, o.root, virt')
  {
    hide Ready, Separate, Load, Store, FrameOf, Cell, SetCell, PageMapped, RunIsData, Tab, Tree, Headed, Apart;
    var f, i := FrameOf(b, virt), virt % PAGE_SIZE / 8;
    StoreIsData(h, roots, root, b, virt, w, o.root);
    ReadyInv(h, root);
    ReadyInv(h, o.root);
    BlocksAligned(h.sys, root, b);
    BlocksAligned(h.sys, o.root, o.block);
    Access(h.sys, root, b, virt, w);
    Access(h.sys, o.root, o.block, virt', w);
    LoadAt(h.sys, Sys(Store(h.sys.mem, root, virt, w), h.sys.frames), o.root, o.block, virt');
    FrameInRun(b, virt);
    FrameInRun(o.block, virt');
    ApartFrames(b, o.block, f);
    CellOfSetCell(h.sys.mem, f, i, w);
  }

  lemma StoreSharedStands(h: State, roots: set<nat>, root: nat, b: Block, virt: nat, w: Word, o: Owned)
    requires AllReady(h, roots) && root in roots
    requires Placed(h.sys, root, b) && DataForAll(h.sys, roots, Heap.Run(b)) && Inside(b, virt) && virt < HEAP_END
    requires Stands(h, roots, o) && Apart(b, o.block)
    ensures Stands(State(Sys(Store(h.sys.mem, root, virt, w), h.sys.frames), h.top), roots, o)
  {
    hide Ready, Separate, Store, Load, Stored, Inside, Apart, RunIsData, PageMapped, HeaderAt, WordOf, Payload,
      PagesFor;
    var s' := Sys(Store(h.sys.mem, root, virt, w), h.sys.frames);
    StoreShared(h, roots, root, b, virt, w);
    StoredData(h.sys, s', roots, Heap.Run(o.block));
    StoreIsData(h, roots, root, b, virt, w, o.root);
    StoredKeepsPages(h.sys, s', o.root, o.block);
    StoredSizes(h.sys, s', o.root);
    HeaderAddresses(o.block);
    StoreKeepsLoad(h, roots, root, b, virt, w, o, HeaderAt(o.block.base, o.block.bytes));
    StoreKeepsLoad(h, roots, root, b, virt, w, o, HeaderAt(o.block.base, o.block.bytes) + 8);
  }

  lemma StoredSizes(s: Sys, s': Sys, root: nat)
    requires Stored(s, s', root)
    ensures s'.frames == s.frames
  {
  }

  lemma HeaderAddresses(b: Block)
    ensures Inside(b, HeaderAt(b.base, b.bytes)) && Inside(b, HeaderAt(b.base, b.bytes) + 8)
    ensures HeaderAt(b.base, b.bytes) + 16 <= b.base + Pages(b) * PAGE_SIZE
  {
    hide HeaderAt;
    HeaderIsInside(b.base, b.bytes);
  }

  /** The frames of a call on heap h, and the heap's memory after its first i pages are mapped. */
  function Taken(h: State, bytes: nat): Option<(Sys, nat)> {
    match Alloc(h.sys.frames, PagesFor(bytes), 1, 0)
    case (_, None) => None
    case (frames, Some(p)) => Some((Sys(h.sys.mem, frames), p))
  }

  function MappedSoFar(h: State, root: nat, bytes: nat, i: nat): Option<Sys> {
    match Taken(h, bytes)
    case None => None
    case Some((s1, p)) => MapRange(s1, root, 1, PageNumber(h.top), p, i, HEAP_PERMS)
  }

  /** And after the first word of its header is written. */
  function FirstStored(s: Sys, root: nat, top: nat, bytes: nat): Sys {
    Sys(Store(s.mem, root, HeaderAt(top, bytes), WordOf(Payload(bytes))), s.frames)
  }

  lemma SharedTop(h: State)
    requires Shared(h)
    ensures PageNumber(h.top) == h.top / PAGE_SIZE && h.top <= HEAP_END
  {
    if h.top < HEAP_END {
      PageOfLow(h.top);
    }
  }

  /** In the middle of mapping. */
  lemma MappingShared(h: State, roots: set<nat>, root: nat, bytes: nat, i: nat)
    requires AllReady(h, roots) && root in roots && Roomy(h, bytes) && i <= PagesFor(bytes)
    ensures match MappedSoFar(h, root, bytes, i)
      case None => true
      case Some(s) =>
        && AllReady(State(s, h.top), roots)
        && NewBlock(h, bytes).Some? && DataForAll(s, roots, Heap.Run(NewBlock(h, bytes).value))
  {
    hide AllReady, DataForAll, MapRange, PagesFor, Roomy, Shared;
    AllReadyShared(h, roots);
    TakeShared(h, roots, PagesFor(bytes));
    match Alloc(h.sys.frames, PagesFor(bytes), 1, 0)
    case (_, None) =>
    case (frames, Some(p)) =>
      var h1 := State(Sys(h.sys.mem, frames), h.top);
      SameRoom(h, h1, bytes);
      MapShared(h1, roots, root, bytes, p, i);
      MapSharedData(h1, roots, root, bytes, p, i, Frames.Run(p, PagesFor(bytes)));
  }

  lemma AllReadyShared(h: State, roots: set<nat>)
    requires AllReady(h, roots)
    ensures Shared(h) && PageNumber(h.top) == h.top / PAGE_SIZE && h.top <= HEAP_END
  {
    hide Shared;
    SharedTop(h);
  }

  lemma SameRoom(h: State, h': State, bytes: nat)
    requires Roomy(h, bytes) && h'.top == h.top
    ensures Roomy(h', bytes)
  {
  }

  lemma MappingStands(h: State, roots: set<nat>, root: nat, bytes: nat, i: nat, o: Owned)
    requires AllReady(h, roots) && root in roots && Roomy(h, bytes) && i <= PagesFor(bytes) && Stands(h, roots, o)
    ensures match MappedSoFar(h, root, bytes, i)
      case None => true
      case Some(s) =>
        Stands(State(s, h.top), roots, o) && NewBlock(h, bytes).Some? && Apart(NewBlock(h, bytes).value, o.block)
  {
    hide AllReady, Stands, Apart, MapRange, PagesFor, Roomy, Shared;
    AllReadyShared(h, roots);
    TakeShared(h, roots, PagesFor(bytes));
    TakeSharedStands(h, roots, bytes, o);
    match Alloc(h.sys.frames, PagesFor(bytes), 1, 0)
    case (_, None) =>
    case (frames, Some(p)) =>
      var h1 := State(Sys(h.sys.mem, frames), h.top);
      SameRoom(h, h1, bytes);
      MapSharedStands(h1, roots, root, bytes, p, i, o);
  }

  /** All pages are mapped: the new block is in place. */
  lemma NewBlockPlaced(h: State, roots: set<nat>, root: nat, bytes: nat)
    requires AllReady(h, roots) && root in roots && Roomy(h, bytes)
    ensures match MappedSoFar(h, root, bytes, PagesFor(bytes))
      case None => true
      case Some(s) =>
        && NewBlock(h, bytes).Some? && Placed(s, root, NewBlock(h, bytes).value)
        && NewBlock(h, bytes).value.base == h.top && NewBlock(h, bytes).value.bytes == bytes
  {
    hide AllReady, Ready, Placed, MapRange, PagesFor, Roomy, Shared, RunIsData;
    AllReadyShared(h, roots);
    TakeShared(h, roots, PagesFor(bytes));
    match Alloc(h.sys.frames, PagesFor(bytes), 1, 0)
    case (_, None) =>
    case (frames, Some(p)) =>
      var h1 := State(Sys(h.sys.mem, frames), h.top);
      SameRoom(h, h1, bytes);
      OneReady(h1, roots, root);
      MapPlaces(h1, root, bytes, p);
  }

  lemma OneReady(h: State, roots: set<nat>, root: nat)
    requires AllReady(h, roots) && root in roots
    ensures Ready(h, root)
  {
  }

  /** The state after the first header word. */
  lemma FirstShared(h: State, roots: set<nat>, root: nat, bytes: nat)
    requires AllReady(h, roots) && root in roots && Roomy(h, bytes)
    ensures match MappedSoFar(h, root, bytes, PagesFor(bytes))
      case None => true
      case Some(s) =>
        var s' := FirstStored(s, root, h.top, bytes);
        && AllReady(State(s', h.top), roots)
        && NewBlock(h, bytes).Some? && Placed(s', root, NewBlock(h, bytes).value)
        && DataForAll(s', roots, Heap.Run(NewBlock(h, bytes).value))
  {
    hide AllReady, Ready, Placed, DataForAll, MappedSoFar, PagesFor, NewBlock, Store, HeaderAt, WordOf, Stored, Inside;
    MappingShared(h, roots, root, bytes, PagesFor(bytes));
    NewBlockPlaced(h, roots, root, bytes);
    match MappedSoFar(h, root, bytes, PagesFor(bytes))
    case None =>
    case Some(s) =>
      var b := NewBlock(h, bytes).value;
      HeaderAddresses(b);
      StoreShared(State(s, h.top), roots, root, b, HeaderAt(h.top, bytes), WordOf(Payload(bytes)));
      StoredData(s, FirstStored(s, root, h.top, bytes), roots, Heap.Run(b));
      OneReady(State(s, h.top), roots, root);
      StoreKeepsReady(State(s, h.top), root, b, HeaderAt(h.top, bytes), WordOf(Payload(bytes)));
  }

  lemma FirstStands(h: State, roots: set<nat>, root: nat, bytes: nat, o: Owned)
    requires AllReady(h, roots) && root in roots && Roomy(h, bytes) && Stands(h, roots, o)
    ensures match MappedSoFar(h, root, bytes, PagesFor(bytes))
      case None => true
      case Some(s) => Stands(State(FirstStored(s, root, h.top, bytes), h.top), roots, o)
  {
    hide AllReady, Placed, DataForAll, Stands, MappedSoFar, PagesFor, NewBlock, Store, HeaderAt, WordOf, Inside, Apart;
    MappingShared(h, roots, root, bytes, PagesFor(bytes));
    MappingStands(h, roots, root, bytes, PagesFor(bytes), o);
    NewBlockPlaced(h, roots, root, bytes);
    match MappedSoFar(h, root, bytes, PagesFor(bytes))
    case None =>
    case Some(s) =>
      var b := NewBlock(h, bytes).value;
      HeaderAddresses(b);
      StoreSharedStands(State(s, h.top), roots, root, b, HeaderAt(h.top, bytes), WordOf(Payload(bytes)), o);
  }

  lemma MallocParts(h: State, root: nat, bytes: nat)
    ensures var (h', r) := Malloc(h, root, bytes);
      r.Pointer? ==>
        var s := MappedSoFar(h, root, bytes, PagesFor(bytes));
        && s.Some?
        && h'.top == h.top + PAGE_SIZE * PagesFor(bytes)
        && h'.sys.frames == s.value.frames
        && h'.sys.mem == Store(FirstStored(s.value, root, h.top, bytes).mem, root, HeaderAt(h.top, bytes) + 8,
             WordOf(PagesFor(bytes)))
  {
    hide MapRange, Store, HeaderAt, PagesFor, WordOf;
  }

  lemma LaterTop(h: State, roots: set<nat>, top: nat)
    requires AllReady(h, roots) && h.top <= top <= HEAP_END && top % PAGE_SIZE == 0
    ensures AllReady(State(h.sys, top), roots)
  {
    hide Inv, Separate;
    forall r | r in roots ensures Ready(State(h.sys, top), r) {
      assert Ready(h, r);
    }
  }

  lemma LaterStands(h: State, roots: set<nat>, top: nat, o: Owned)
    requires Stands(h, roots, o) && h.top <= top
    ensures Stands(State(h.sys, top), roots, o)
  {
    hide Placed, Headed, DataForAll;
  }

  /** A successful call leaves the heap ready everywhere, and its block stands in its caller's
      address space. */
  lemma MallocShared(h: State, roots: set<nat>, root: nat, bytes: nat)
    requires AllReady(h, roots) && root in roots && Roomy(h, bytes)
    ensures var (h', r) := Malloc(h, root, bytes);
      r.Pointer? ==>
        && NewBlock(h, bytes).Some? && AllReady(h', roots)
        && Stands(h', roots, Owned(root, NewBlock(h, bytes).value))
  {
    hide AllReady, Ready, Placed, Headed, DataForAll, MappedSoFar, PagesFor, NewBlock, Store, HeaderAt, WordOf, Malloc,
      FirstStored, Stored, Inside;
    AllReadyShared(h, roots);
    OneReady(h, roots, root);
    FirstShared(h, roots, root, bytes);
    NewBlockPlaced(h, roots, root, bytes);
    MallocParts(h, root, bytes);
    MallocAddsBlock(h, root, bytes);
    var (h', r) := Malloc(h, root, bytes);
    if r.Pointer? {
      var b := NewBlock(h, bytes).value;
      var s := FirstStored(MappedSoFar(h, root, bytes, PagesFor(bytes)).value, root, h.top, bytes);
      FirstFrames(MappedSoFar(h, root, bytes, PagesFor(bytes)).value, root, h.top, bytes);
      HeaderAddresses(b);
      StoreShared(State(s, h.top), roots, root, b, HeaderAt(h.top, bytes) + 8, WordOf(PagesFor(bytes)));
      StoredData(s, h'.sys, roots, Heap.Run(b));
      AllReadyShared(State(h'.sys, h.top), roots);
      RoomIsAligned(h, roots, bytes);
      LaterTop(State(h'.sys, h.top), roots, h'.top);
    }
  }

  lemma FirstFrames(s: Sys, root: nat, top: nat, bytes: nat)
    ensures FirstStored(s, root, top, bytes).frames == s.frames
  {
  }

  lemma RoomIsAligned(h: State, roots: set<nat>, bytes: nat)
    requires AllReady(h, roots) && Roomy(h, bytes)
    ensures var top := h.top + PAGE_SIZE * PagesFor(bytes); top <= HEAP_END && top % PAGE_SIZE == 0
  {
    hide PagesFor, Ready, Separate;
  }

  /** And every earlier block stays, in whichever address space it is, apart from the new one. */
  lemma MallocStands(h: State, roots: set<nat>, root: nat, bytes: nat, o: Owned)
    requires AllReady(h, roots) && root in roots && Roomy(h, bytes) && Stands(h, roots, o)
    ensures var (h', r) := Malloc(h, root, bytes);
      r.Pointer? ==> NewBlock(h, bytes).Some? && Stands(h', roots, o) && Apart(NewBlock(h, bytes).value, o.block)
  {
    hide AllReady, Placed, DataForAll, Stands, MappedSoFar, PagesFor, NewBlock, Store, HeaderAt, WordOf, Malloc,
      FirstStored, Inside, Apart;
    AllReadyShared(h, roots);
    FirstShared(h, roots, root, bytes);
    FirstStands(h, roots, root, bytes, o);
    MappingStands(h, roots, root, bytes, PagesFor(bytes), o);
    NewBlockPlaced(h, roots, root, bytes);
    MallocParts(h, root, bytes);
    var (h', r) := Malloc(h, root, bytes);
    if r.Pointer? {
      var b := NewBlock(h, bytes).value;
      var s := FirstStored(MappedSoFar(h, root, bytes, PagesFor(bytes)).value, root, h.top, bytes);
      FirstFrames(MappedSoFar(h, root, bytes, PagesFor(bytes)).value, root, h.top, bytes);
      HeaderAddresses(b);
      StoreSharedStands(State(s, h.top), roots, root, b, HeaderAt(h.top, bytes) + 8, WordOf(PagesFor(bytes)), o);
      LaterStands(State(h'.sys, h.top), roots, h'.top, o);
    }
  }

  /** A new address space joins. */
  lemma SpaceJoins(h: State, roots: set<nat>)
    requires AllReady(h, roots)
    ensures match NewAddressSpace(h.sys)
      case None => true
      case Some((s', root)) => AllReady(State(s', h.top), roots + {root})
  {
    hide Inv, Separate, Fresh, NewAddressSpace, Tab, Slot;
    NewSpaceTakesEight(h.sys);
    NewSpaceReserves(h.sys);
    NewSpaceIsFresh(h.sys);
    match NewAddressSpace(h.sys)
    case None =>
    case Some((s', root)) =>
      NewIsReady(h);
      ReadyShared(State(s', h.top), root);
      forall r | r in roots
        ensures Ready(State(s', h.top), r) && Separate(s'.mem, r, root) && Separate(s'.mem, root, r)
      {
        JoinsReady(h, s', root, r);
      }
      forall r, r' | r in roots && r' in roots && r != r' ensures Separate(s'.mem, r, r') {
        JoinsSeparate(h.sys, s', root, r, r');
      }
  }

  lemma NewIsReady(h: State)
    requires Shared(h)
    ensures match NewAddressSpace(h.sys)
      case None => true
      case Some((s', root)) => Ready(State(s', h.top), root)
  {
    hide Inv, NewAddressSpace, Tab;
    HeapStarts(h.sys);
    match NewAddressSpace(h.sys)
    case None =>
    case Some((s', root)) => assert Ready(State(s', MEMORY_BASE), root);
  }

  lemma JoinsReady(h: State, s': Sys, root: nat, r: nat)
    requires Ready(h, r) && Fresh(h.sys, s', root)
    ensures Ready(State(s', h.top), r) && Separate(s'.mem, r, root) && Separate(s'.mem, root, r)
  {
    hide Tab, Slot, Tree;
    ReadyInv(h, r);
    SpaceBesideFresh(Machine(h.sys, []), s', root, r);
    TablesBesideFresh(h.sys, s', root, r);
    assert Reserved(h.sys.frames, h.sys.frames.len);
    SamePaths(h.sys.mem, s'.mem, r);
  }

  lemma JoinsSeparate(s: Sys, s': Sys, root: nat, r: nat, r': nat)
    requires Fresh(s, s', root) && Inv(s, r) && Inv(s, r') && Separate(s.mem, r, r')
    ensures Separate(s'.mem, r, r')
  {
    hide Tab, Slot, Fresh, Inv;
    TablesBesideFresh(s, s', root, r);
    TablesBesideFresh(s, s', root, r');
  }
}
