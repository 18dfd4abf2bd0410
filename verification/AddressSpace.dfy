/** `new_address_space` and `get_entry` on values. */
module AddressSpace {
  import opened Wrappers
  import opened Paging
  import opened Frames
  import opened Tables
  import opened Mapping
  import opened FrameBudget
  import opened Editing

  const KERNEL_BASE: nat := 0xFFFF_FFFF_8000_0000
  const PHYSICAL_BASE: nat := 0xFFFF_8000_0000_0000
  const KERNEL_PAGES: nat := 64
  const PHYSICAL_PAGES: nat := 512 * 4

  /** The number of the virtual page that holds address virt: its bits 12 to 47. */
  function PageNumber(virt: nat): nat { virt / PAGE_SIZE % VPAGES }

  /** The 64-bit word with value n. */
  function WordOf(n: nat): Word {
    Word(n / 0x8000_0000_0000_0000 % 2 == 1, n / PAGE_SIZE % 0x8_0000_0000_0000, (n % PAGE_SIZE) as bv12)
  }

  /** The number that a 64-bit word stands for. */
  function ValueOf(w: Word): nat {
    w.low as nat + w.page * 0x1000 + if w.high then 0x8000_0000_0000_0000 else 0
  }

  lemma Doubled(a: bv12)
    requires a as nat < 0x800
    ensures (a << 1) as nat == 2 * (a as nat) && ((a << 1) | (1 as bv12)) as nat == 2 * (a as nat) + 1
  {
  }

  lemma {:induction false} BitsOf(x: nat) returns (a: bv12)
    requires x < 0x1000
    ensures a as nat == x
  {
    if x == 0 {
      a := 0;
    } else {
      var h := BitsOf(x / 2);
      Doubled(h);
      a := if x % 2 == 0 then h << 1 else (h << 1) | (1 as bv12);
    }
  }

  lemma BitsBack(a: bv12)
    ensures (a as nat) as bv12 == a
  {
  }

  lemma LowBits(x: nat)
    requires x < 0x1000
    ensures (x as bv12) as nat == x
  {
    var a := BitsOf(x);
    BitsBack(a);
  }

  lemma WordParts(n: nat)
    requires n < 0x1_0000_0000_0000_0000
    ensures n ==
      n % 0x1000 + n / 0x1000 % 0x8_0000_0000_0000 * 0x1000 + n / 0x8000_0000_0000_0000 * 0x8000_0000_0000_0000
    ensures n / 0x8000_0000_0000_0000 < 2
  {
    TopPart(n / 0x1000);
  }

  lemma TopPart(q: nat)
    ensures q == q % 0x8_0000_0000_0000 + q / 0x8_0000_0000_0000 * 0x8_0000_0000_0000
  {
  }

  /** A stored 64-bit number reads back as itself. */
  lemma WordRoundTrip(n: nat)
    requires n < 0x1_0000_0000_0000_0000
    ensures ValueOf(WordOf(n)) == n
  {
    LowBits(n % PAGE_SIZE);
    WordParts(n);
  }

  /** The source's answer for address virt: a subtraction in the upper half, the 4 KiB-level
      entry elsewhere, zero where a table is missing. */
  function GetEntry(m: Memory, root: nat, virt: nat): Word {
    if virt >= KERNEL_BASE then WordOf(virt - KERNEL_BASE)
    else if virt >= PHYSICAL_BASE then WordOf(virt - PHYSICAL_BASE)
    else
      match Find(m, root, 1, PageNumber(virt) / 512)
      case None => ZERO
      case Some(f) => Cell(m, f, PageNumber(virt) % 512)
  }

  /** The physical address that a translation of the page of virt gives to virt. */
  function PhysicalAddress(t: Translation, virt: nat): nat
    requires t.Mapped?
  {
    PhysicalPage(t, PageNumber(virt)) * PAGE_SIZE + virt % PAGE_SIZE
  }

  /** In the lower half `get_entry` is the 4 KiB entry of the address, zero where a table is missing, and
      the hardware's leaf, as long as no 2 MiB page maps the address; nothing is mapped exactly where
      the entry is not present. */
  lemma GetEntryIsLeaf(s: Sys, root: nat, virt: nat)
    requires Inv(s, root) && virt < PHYSICAL_BASE && SmallPath(s.mem, root, 1, PageNumber(virt))
    ensures var (e, t) := (GetEntry(s.mem, root, virt), HwWalk(s.mem, root, PageNumber(virt)));
      && e == Slot(s.mem, root, 1, PageNumber(virt)) && (t == Fault <==> !Has(e.low, PRESENT))
      && (t.Mapped? ==> t.leaf == e && t.level == 1)
  {
    hide Inv, Tree, Walk, HwWalk, PathFlags;
    var v := PageNumber(virt);
    SlotsAreInside(1, v);
    TreeOf(s, root);
    HwWalkReadsSlots(s.mem, root, v);
    FindIsTab(s.mem, root, 1, v / 512);
    if Has(Slot(s.mem, root, 1, v).low, PRESENT) {
      WalkFindsLeaf(s.mem, root, 1, v);
    } else {
      NotPresentFaults(s.mem, root, v);
    }
  }

  lemma TreeOf(s: Sys, root: nat)
    requires Inv(s, root)
    ensures Tree(s.mem, root)
  {
  }

  lemma NotPresentFaults(m: Memory, root: nat, v: nat)
    requires Tree(m, root) && !Has(Slot(m, root, 1, v).low, PRESENT) && SmallPath(m, root, 1, v)
    ensures Walk(m, root, v) == Fault
  {
    assert Shape(Slot(m, root, 3, v / 512 / 512), 3);
  }

  /** Memory of which frame root is zero holds the empty address space. */
  lemma {:induction false} EmptySlots(m: Memory, root: nat, l: nat, k: nat)
    requires forall i: nat :: Cell(m, root, i) == ZERO
    ensures Tab(m, root, l, k) == if l == 4 && k == 0 then Some(root) else None
    ensures Slot(m, root, l, k) == ZERO
    decreases 5 - l
  {
    if l < 4 {
      EmptySlots(m, root, l + 1, k);
      EmptySlots(m, root, l + 1, k / 512);
    }
  }

  ghost predicate FramesFit(s: Sys) {
    s.frames.len <= |s.frames.used| && s.frames.len <= PAGE_LIMIT && 512 * s.frames.len <= |s.mem|
  }

  function KernelSlot(): nat { PageNumber(KERNEL_BASE) / 512 }

  function PhysicalSlot(): nat { PageNumber(PHYSICAL_BASE) / 512 }

  /** None where a null pointer is used. */
  function NewAddressSpace(s: Sys): Option<(Sys, nat)> {
    match Alloc(s.frames, 1, 1, 0)
    case (_, None) => None
    case (frames, Some(root)) =>
      match MapRange(Sys(ZeroFrame(s.mem, root), frames), root, 2, KernelSlot(), 0, KERNEL_PAGES, WRITE | PRESENT)
      case None => None
      case Some(s1) =>
        match MapRange(s1, root, 2, PhysicalSlot(), 0, PHYSICAL_PAGES, WRITE | PRESENT)
        case None => None
        case Some(s2) => Some((s2, root))
  }

  lemma EmptySpace(s: Sys)
    requires FramesFit(s)
    ensures match Alloc(s.frames, 1, 1, 0)
      case (_, None) => ClearFrames(s) == 0
      case (frames, Some(root)) =>
        var s' := Sys(ZeroFrame(s.mem, root), frames);
        Inv(s', root) && ClearFrames(s') == ClearFrames(s) - 1 && forall i: nat :: Cell(s'.mem, root, i) == ZERO
  {
    AllocOne(s.frames);
    match Alloc(s.frames, 1, 1, 0)
    case (_, None) =>
    case (frames, Some(root)) =>
      var m' := ZeroFrame(s.mem, root);
      CellOfZeroFrame(s.mem, root);
      forall l: nat, k: nat
        ensures Tab(m', root, l, k) == if l == 4 && k == 0 then Some(root) else None
        ensures Slot(m', root, l, k) == ZERO
      {
        EmptySlots(m', root, l, k);
      }
  }

  lemma KernelPart(s: Sys, root: nat)
    requires Inv(s, root) && forall i: nat :: Cell(s.mem, root, i) == ZERO
    ensures CanMapRange(s, root, 2, KernelSlot(), KERNEL_PAGES, WRITE | PRESENT)
    ensures Need(s.mem, root, 2, KernelSlot() / 512, (KernelSlot() + (KERNEL_PAGES - 1)) / 512) == 2
    ensures forall v: nat :: Walk(s.mem, root, v) == Fault
    ensures forall k: nat :: PathFlags(s.mem, root, 2, k) == 0xFFF
  {
    hide Inv, Tab, Slot;
    forall l: nat, k: nat
      ensures Slot(s.mem, root, l, k) == ZERO && (1 <= l <= 3 ==> Tab(s.mem, root, l, k) == None)
    {
      EmptySlots(s.mem, root, l, k);
    }
    assert KernelSlot() == 0x7FF_FC00;
    MissingInBound(s.mem, root, 2, 0x3_FFFE, 0x3_FFFF);
    MissingInBound(s.mem, root, 3, 0x1FF, 0x200);
    assert Need(s.mem, root, 3, 0x1FF, 0x1FF) == MissingIn(s.mem, root, 3, 0x1FF, 0x200);
  }

  lemma PhysicalPart(s: Sys, s1: Sys, root: nat)
    requires Inv(s, root) && forall i: nat :: Cell(s.mem, root, i) == ZERO
    requires CanMapRange(s, root, 2, KernelSlot(), KERNEL_PAGES, WRITE | PRESENT)
    requires MapRange(s, root, 2, KernelSlot(), 0, KERNEL_PAGES, WRITE | PRESENT) == Some(s1)
    ensures CanMapRange(s1, root, 2, PhysicalSlot(), PHYSICAL_PAGES, WRITE | PRESENT)
    ensures Need(s1.mem, root, 2, PhysicalSlot() / 512, (PhysicalSlot() + (PHYSICAL_PAGES - 1)) / 512) == 5
  {
    hide Inv, Tab, Slot, MapRange, Maps;
    assert KernelSlot() == 0x7FF_FC00 && PhysicalSlot() == 0x400_0000;
    MapRangeMaps(s, root, 2, KernelSlot(), 0, KERNEL_PAGES, WRITE | PRESENT);
    forall j: nat, t: nat | 2 <= j <= 3 && !Above(2, 0x3_FFFE, 0x3_FFFE, j, t)
      ensures Tab(s1.mem, root, j, t) == None
    {
      EmptySlots(s.mem, root, j, t);
      MapRangeTabs(s, root, 2, KernelSlot(), 0, KERNEL_PAGES, WRITE | PRESENT, j, t);
    }
    MissingInBound(s1.mem, root, 2, 0x2_0000, 0x2_0004);
    MissingInBound(s1.mem, root, 3, 0x100, 0x101);
    assert Need(s1.mem, root, 3, 0x100, 0x100) == MissingIn(s1.mem, root, 3, 0x100, 0x101);
  }

  /** What the new address space translates address virt to: a 2 MiB entry with bits 0, 1 and 7. */
  predicate Translates(t: Translation, virt: nat, base: nat) {
    && t.Mapped? && t.level == 2 && t.rights == WRITE && t.leaf.low == 0x083 && !t.leaf.high
    && PhysicalAddress(t, virt) == virt - base
  }

  /** A new address space takes exactly 8 frames, and can be made if and only if there are 8. */
  lemma NewSpaceTakesEight(s: Sys)
    requires FramesFit(s)
    ensures match NewAddressSpace(s)
      case None => ClearFrames(s) < 8
      case Some((s', root)) => Inv(s', root) && ClearFrames(s') == ClearFrames(s) - 8
  {
    hide Inv, Tree, MapRange, Maps, Walk, PathFlags, ZeroFrame;
    EmptySpace(s);
    match Alloc(s.frames, 1, 1, 0)
    case (_, None) =>
    case (frames, Some(root)) =>
      var s0 := Sys(ZeroFrame(s.mem, root), frames);
      KernelPart(s0, root);
      MapRangeBudget(s0, root, 2, KernelSlot(), 0, KERNEL_PAGES, WRITE | PRESENT);
      MapRangeMaps(s0, root, 2, KernelSlot(), 0, KERNEL_PAGES, WRITE | PRESENT);
      match MapRange(s0, root, 2, KernelSlot(), 0, KERNEL_PAGES, WRITE | PRESENT)
      case None =>
      case Some(s1) =>
        PhysicalPart(s0, s1, root);
        MapRangeBudget(s1, root, 2, PhysicalSlot(), 0, PHYSICAL_PAGES, WRITE | PRESENT);
        MapRangeMaps(s1, root, 2, PhysicalSlot(), 0, PHYSICAL_PAGES, WRITE | PRESENT);
  }

  /** The page-by-page content of a new address space. */
  function FreshWalk(v: nat): Translation {
    if PhysicalSlot() <= v / 512 < PhysicalSlot() + PHYSICAL_PAGES then
      Mapped(Leaf(2, 512 * (v / 512 - PhysicalSlot()), WRITE | PRESENT), 2, WRITE)
    else if KernelSlot() <= v / 512 < KernelSlot() + KERNEL_PAGES then
      Mapped(Leaf(2, 512 * (v / 512 - KernelSlot()), WRITE | PRESENT), 2, WRITE)
    else Fault
  }

  lemma WindowLeaf(i: nat, rights: bv12)
    ensures var w := Leaf(2, PageAt(2, 0, i), WRITE | PRESENT);
      MappedBy(w, 2, rights) == Mapped(Leaf(2, 512 * i, WRITE | PRESENT), 2, rights)
  {
  }

  lemma NewSpaceWalk(s: Sys, v: nat)
    requires FramesFit(s) && v < VPAGES
    ensures match NewAddressSpace(s)
      case None => true
      case Some((s', root)) => Walk(s'.mem, root, v) == FreshWalk(v)
  {
    hide Inv, Tree, MapRange, Maps, Walk, PathFlags, ZeroFrame, Leaf, MappedBy;
    EmptySpace(s);
    match Alloc(s.frames, 1, 1, 0)
    case (_, None) =>
    case (frames, Some(root)) =>
      var s0 := Sys(ZeroFrame(s.mem, root), frames);
      KernelPart(s0, root);
      MapRangeWalk(s0, root, 2, KernelSlot(), 0, KERNEL_PAGES, WRITE | PRESENT, v);
      MapRangeMaps(s0, root, 2, KernelSlot(), 0, KERNEL_PAGES, WRITE | PRESENT);
      match MapRange(s0, root, 2, KernelSlot(), 0, KERNEL_PAGES, WRITE | PRESENT)
      case None =>
      case Some(s1) =>
        PhysicalPart(s0, s1, root);
        MapRangeWalk(s1, root, 2, PhysicalSlot(), 0, PHYSICAL_PAGES, WRITE | PRESENT, v);
        FlagsAgree(s0, s1, root, 2, WRITE | PRESENT, 2, v / 512 / 512);
        assert Up(1, v, 2) == v / 512;
        if PhysicalSlot() <= v / 512 {
          WindowLeaf(v / 512 - PhysicalSlot(), WRITE);
        }
        if KernelSlot() <= v / 512 {
          WindowLeaf(v / 512 - KernelSlot(), WRITE);
        }
        assert 0xFFF & (WRITE | PRESENT) & RIGHTS == WRITE;
  }

  lemma PhysicalPageNumber(virt: nat)
    requires PHYSICAL_BASE <= virt < 0x1_0000_0000_0000_0000
    ensures PageNumber(virt) == 0x8_0000_0000 + (virt - PHYSICAL_BASE) / PAGE_SIZE
  {
  }

  lemma KernelPageNumber(virt: nat)
    requires KERNEL_BASE <= virt < 0x1_0000_0000_0000_0000
    ensures PageNumber(virt) == 0xF_FFF8_0000 + (virt - KERNEL_BASE) / PAGE_SIZE
  {
  }

  lemma LowPageNumber(virt: nat)
    requires virt < 0x8000_0000_0000
    ensures PageNumber(virt) < 0x8_0000_0000
  {
  }

  lemma SlotNumbers()
    ensures KernelSlot() == 0x7FF_FC00 && PhysicalSlot() == 0x400_0000
  {
  }

  lemma WindowPage(slot: nat, v: nat, rights: bv12)
    requires slot <= v / 512
    ensures var w := Leaf(2, 512 * (v / 512 - slot), WRITE | PRESENT);
      w.low == 0x083 && !w.high && PhysicalPage(Mapped(w, 2, rights), v) == v - 512 * slot
  {
  }

  lemma SameOffset(virt: nat, base: nat)
    requires base <= virt && base % PAGE_SIZE == 0
    ensures (virt - base) / PAGE_SIZE * PAGE_SIZE + virt % PAGE_SIZE == virt - base
  {
  }

  lemma PhysicalWindow(virt: nat)
    requires PHYSICAL_BASE <= virt < PHYSICAL_BASE + 0x1_0000_0000
    ensures Translates(FreshWalk(PageNumber(virt)), virt, PHYSICAL_BASE)
  {
    hide PageNumber, PhysicalSlot, KernelSlot, PhysicalPage;
    SlotNumbers();
    PhysicalPageNumber(virt);
    WindowPage(0x400_0000, PageNumber(virt), WRITE);
    SameOffset(virt, PHYSICAL_BASE);
  }

  lemma KernelWindow(virt: nat)
    requires KERNEL_BASE <= virt < KERNEL_BASE + 0x800_0000
    ensures Translates(FreshWalk(PageNumber(virt)), virt, KERNEL_BASE)
  {
    hide PageNumber, PhysicalSlot, KernelSlot, PhysicalPage;
    SlotNumbers();
    KernelPageNumber(virt);
    WindowPage(0x7FF_FC00, PageNumber(virt), WRITE);
    SameOffset(virt, KERNEL_BASE);
  }

  predicate InWindow(virt: nat, base: nat, size: nat) { base <= virt < base + size }

  lemma OutsideWindows(virt: nat)
    requires virt < 0x8000_0000_0000 || PHYSICAL_BASE <= virt < 0x1_0000_0000_0000_0000
    requires !InWindow(virt, PHYSICAL_BASE, 0x1_0000_0000) && !InWindow(virt, KERNEL_BASE, 0x800_0000)
    ensures FreshWalk(PageNumber(virt)) == Fault
  {
    hide PageNumber, PhysicalSlot, KernelSlot, Leaf;
    SlotNumbers();
    if virt < 0x8000_0000_0000 {
      LowPageNumber(virt);
    } else {
      PhysicalPageNumber(virt);
      if KERNEL_BASE <= virt {
        KernelPageNumber(virt);
      }
    }
  }

  /** Every address of the two windows translates to what `get_entry` computes for it by
      subtraction, writable, and every other canonical address is unmapped. */
  lemma NewSpaceTranslates(s: Sys, virt: nat)
    requires FramesFit(s) && (virt < 0x8000_0000_0000 || PHYSICAL_BASE <= virt < 0x1_0000_0000_0000_0000)
    ensures match NewAddressSpace(s)
      case None => true
      case Some((s', root)) =>
        var t := HwWalk(s'.mem, root, PageNumber(virt));
        if InWindow(virt, PHYSICAL_BASE, 0x1_0000_0000) then
          Translates(t, virt, PHYSICAL_BASE) && ValueOf(GetEntry(s'.mem, root, virt)) == PhysicalAddress(t, virt)
        else if InWindow(virt, KERNEL_BASE, 0x800_0000) then
          Translates(t, virt, KERNEL_BASE) && ValueOf(GetEntry(s'.mem, root, virt)) == PhysicalAddress(t, virt)
        else t == Fault
  {
    hide Inv, Tree, MapRange, Maps, Walk, HwWalk, NewAddressSpace, WordOf, ValueOf, FreshWalk, PageNumber,
      PhysicalAddress,
      Find;
    PageNumberFits(virt);
    NewSpaceWalk(s, PageNumber(virt));
    NewSpaceTakesEight(s);
    match NewAddressSpace(s)
    case None =>
    case Some((s', root)) =>
      TreeOf(s', root);
      HwWalkReadsSlots(s'.mem, root, PageNumber(virt));
      if InWindow(virt, PHYSICAL_BASE, 0x1_0000_0000) {
        PhysicalWindow(virt);
        WordRoundTrip(virt - PHYSICAL_BASE);
      } else if InWindow(virt, KERNEL_BASE, 0x800_0000) {
        KernelWindow(virt);
        WordRoundTrip(virt - KERNEL_BASE);
      } else {
        OutsideWindows(virt);
      }
  }

  lemma PageNumberFits(virt: nat)
    ensures PageNumber(virt) < VPAGES
  {
  }

  /** The lower half of a new address space has no page directory. */
  lemma NewSpaceIsLow(s: Sys, k: nat)
    requires FramesFit(s) && k < 0x2_0000
    ensures match NewAddressSpace(s)
      case None => true
      case Some((s', root)) => Tab(s'.mem, root, 2, k) == None
  {
    hide Inv, Tree, Tab, MapRange, Maps, PathFlags, ZeroFrame, Walk;
    EmptySpace(s);
    match Alloc(s.frames, 1, 1, 0)
    case (_, None) =>
    case (frames, Some(root)) =>
      var s0 := Sys(ZeroFrame(s.mem, root), frames);
      KernelPart(s0, root);
      EmptySlots(s0.mem, root, 2, k);
      assert KernelSlot() == 0x7FF_FC00 && PhysicalSlot() == 0x400_0000;
      MapRangeTabs(s0, root, 2, KernelSlot(), 0, KERNEL_PAGES, WRITE | PRESENT, 2, k);
      match MapRange(s0, root, 2, KernelSlot(), 0, KERNEL_PAGES, WRITE | PRESENT)
      case None =>
      case Some(s1) =>
        PhysicalPart(s0, s1, root);
        MapRangeTabs(s1, root, 2, PhysicalSlot(), 0, PHYSICAL_PAGES, WRITE | PRESENT, 2, k);
  }

  /** Whatever tables there are above the lower half let pages be written. */
  lemma NewSpaceFlags(s: Sys, k: nat)
    requires FramesFit(s)
    ensures match NewAddressSpace(s)
      case None => true
      case Some((s', root)) => PathFlags(s'.mem, root, 2, k) & (WRITE | PRESENT) == WRITE | PRESENT
  {
    hide Inv, Tree, Tab, MapRange, Maps, PathFlags, ZeroFrame, Walk, CanMapRange;
    EmptySpace(s);
    match Alloc(s.frames, 1, 1, 0)
    case (_, None) =>
    case (frames, Some(root)) =>
      var s0 := Sys(ZeroFrame(s.mem, root), frames);
      KernelPart(s0, root);
      MapRangeMaps(s0, root, 2, KernelSlot(), 0, KERNEL_PAGES, WRITE | PRESENT);
      match MapRange(s0, root, 2, KernelSlot(), 0, KERNEL_PAGES, WRITE | PRESENT)
      case None =>
      case Some(s1) =>
        PhysicalPart(s0, s1, root);
        MapRangeMaps(s1, root, 2, PhysicalSlot(), 0, PHYSICAL_PAGES, WRITE | PRESENT);
        FlagsAgree(s0, s1, root, 2, WRITE | PRESENT, 2, k);
        match MapRange(s1, root, 2, PhysicalSlot(), 0, PHYSICAL_PAGES, WRITE | PRESENT)
        case None =>
        case Some(s2) => FlagsAgree(s1, s2, root, 2, WRITE | PRESENT, 2, k);
  }

  /** What is reserved stays reserved, and the bitmap keeps its size. */
  lemma NewSpaceReserves(s: Sys)
    requires FramesFit(s)
    ensures match NewAddressSpace(s)
      case None => true
      case Some((s', _)) =>
        && s'.frames.len == s.frames.len && |s'.frames.used| == |s.frames.used|
        && forall f: nat :: Reserved(s.frames, f) ==> Reserved(s'.frames, f)
  {
    hide Inv, Tree, Tab, MapRange, PathFlags, ZeroFrame, Walk;
    EmptySpace(s);
    AllocOne(s.frames);
    match Alloc(s.frames, 1, 1, 0)
    case (_, None) =>
    case (frames, Some(root)) =>
      var s0 := Sys(ZeroFrame(s.mem, root), frames);
      KernelPart(s0, root);
      MapRangeMaps(s0, root, 2, KernelSlot(), 0, KERNEL_PAGES, WRITE | PRESENT);
      match MapRange(s0, root, 2, KernelSlot(), 0, KERNEL_PAGES, WRITE | PRESENT)
      case None =>
      case Some(s1) =>
        PhysicalPart(s0, s1, root);
        MapRangeMaps(s1, root, 2, PhysicalSlot(), 0, PHYSICAL_PAGES, WRITE | PRESENT);
  }
}
