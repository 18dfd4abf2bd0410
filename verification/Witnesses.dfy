/** Concrete inputs on which the code falls short of its intent. */
module Witnesses {
  import opened Wrappers
  import opened Paging
  import opened Frames
  import opened Tables
  import opened Mapping
  import opened FrameBudget
  import opened Editing
  import opened AddressSpace
  import opened FrameInit
  import Translations

  /** A machine with n free frames, all of its memory zero. */
  function MachineWith(n: nat): Sys {
    Sys(seq(512 * (BASE + n), _ => ZERO), Bitmap(seq(BASE + n, j => j < BASE), BASE + n, n, n))
  }

  lemma {:induction false} AllClear(used: seq<bool>, lo: nat, hi: nat)
    requires lo <= hi <= |used| && forall j :: lo <= j < hi ==> !used[j]
    ensures Frames.Clear(used, lo, hi) == hi - lo
    decreases hi - lo
  {
    if lo < hi {
      AllClear(used, lo, hi - 1);
    }
  }

  lemma MachineHas(n: nat)
    requires n <= 100
    ensures FramesFit(MachineWith(n)) && ClearFrames(MachineWith(n)) == n
  {
    AllClear(MachineWith(n).frames.used, BASE, BASE + n);
  }

  /** In a new address space the lower half is empty and can be mapped. */
  lemma LowHalf(s: Sys, slot: nat, count: nat, perms: bv12)
    requires FramesFit(s) && slot + count <= 0x8_0000_0000 && !Has(perms, LARGE)
    ensures match NewAddressSpace(s)
      case None => true
      case Some((s', root)) =>
        && CanMapRange(s', root, 1, slot, count, perms)
        && forall x :: slot <= x < slot + count ==> Tab(s'.mem, root, 2, x / 512 / 512) == None
  {
    hide Inv, NewAddressSpace, Tab;
    NewSpaceTakesEight(s);
    match NewAddressSpace(s)
    case None =>
    case Some((s', root)) =>
      forall x | slot <= x < slot + count
        ensures SmallPath(s'.mem, root, 1, x) && Tab(s'.mem, root, 2, x / 512 / 512) == None
      {
        NewSpaceIsLow(s, x / 512 / 512);
        NoTableIsSmall(s'.mem, root, x);
      }
  }

  lemma NoTableIsSmall(m: Memory, root: nat, x: nat)
    requires Tab(m, root, 2, x / 512 / 512) == None
    ensures SmallPath(m, root, 1, x) && Slot(m, root, 1, x) == ZERO && Tab(m, root, 1, x / 512) == None
  {
    assert Slot(m, root, 2, x / 512) == ZERO;
  }

  /** With 8 free frames an address space can be made, but mapping one page into it then runs
      through a null table. */
  lemma NullTableIsReached()
    ensures match NewAddressSpace(MachineWith(8))
      case None => false
      case Some((s, root)) => CanMapRange(s, root, 1, 0, 1, WRITE) && MapRange(s, root, 1, 0, 0, 1, WRITE) == None
  {
    hide Inv, NewAddressSpace, Tab, MapRange, MachineWith;
    var s0 := MachineWith(8);
    MachineHas(8);
    NewSpaceTakesEight(s0);
    LowHalf(s0, 0, 1, WRITE);
    match NewAddressSpace(s0)
    case None =>
    case Some((s, root)) =>
      NoTableIsSmall(s.mem, root, 0);
      NeedOfOne(s.mem, root, 1, 0);
      MapRangeBudget(s, root, 1, 0, 0, 1, WRITE);
  }

  /** An address space into which page 1 is mapped, and nothing else of the lower half. */
  ghost predicate OnePageMapped(s: Sys, root: nat) {
    && Inv(s, root) && CanEditRange(s, root, 1, 2, 1) && CanEditRange(s, root, 2, 512, 1)
    && CanEditRange(s, root, 2, 0, 1) && CanEditRange(s, root, 2, 1, 1)
    && Tab(s.mem, root, 2, 0).Some? && Slot(s.mem, root, 2, 1) == ZERO
    && Target(HwWalk(s.mem, root, 1), 1) == Some(0x3000)
    && HwWalk(s.mem, root, 2) == Fault && Slot(s.mem, root, 1, 2) == ZERO && Tab(s.mem, root, 1, 0).Some?
    && Tab(s.mem, root, 2, 1) == None && Tab(s.mem, root, 3, 0).Some?
  }

  /** The machine after mapping it. */
  function MappedSpace(): Option<(Sys, nat)> {
    match NewAddressSpace(MachineWith(14))
    case None => None
    case Some((s, root)) =>
      match MapRange(s, root, 1, 1, 0x3000, 1, WRITE)
      case None => None
      case Some(s') => Some((s', root))
  }

  lemma MappedOne()
    ensures match MappedSpace()
      case None => false
      case Some((s, root)) => OnePageMapped(s, root)
  {
    hide Inv, NewAddressSpace, Tab, Slot, MapRange, MachineWith, HwWalk, Maps;
    var s0 := MachineWith(14);
    MachineHas(14);
    NewSpaceTakesEight(s0);
    LowHalf(s0, 1, 2, WRITE);
    NewSpaceIsLow(s0, 1);
    match NewAddressSpace(s0)
    case None =>
    case Some((s, root)) =>
      ShorterMapping(s, root, WRITE);
      EnoughFrames(s, root, 1, 0x3000, 1, WRITE);
      MapRangeMaps(s, root, 1, 1, 0x3000, 1, WRITE);
      CanMapAgain(s, MapRange(s, root, 1, 1, 0x3000, 1, WRITE).value, root, 1, 1, 2, WRITE);
      MapRangeTabs(s, root, 1, 1, 0x3000, 1, WRITE, 1, 0);
      MapRangeTabs(s, root, 1, 1, 0x3000, 1, WRITE, 1, 1);
      MapRangeTabs(s, root, 1, 1, 0x3000, 1, WRITE, 2, 0);
      MapRangeTabs(s, root, 1, 1, 0x3000, 1, WRITE, 2, 1);
      MapRangeTabs(s, root, 1, 1, 0x3000, 1, WRITE, 3, 0);
      NeighbourIsEmpty(s, root);
      NextSlotIsEmpty(s, root);
      Translations.MappingTranslates(s, root, 1, 1, 0x3000, 1, WRITE, 1);
      Translations.MappingTranslates(s, root, 1, 1, 0x3000, 1, WRITE, 2);
      NewSpaceWalk(s0, 2);
      Translations.SoftwareView(s, root, 2);
  }

  lemma ShorterMapping(s: Sys, root: nat, perms: bv12)
    requires CanMapRange(s, root, 1, 1, 2, perms)
    ensures CanMapRange(s, root, 1, 1, 1, perms)
  {
    hide Inv;
  }

  lemma NeighbourIsEmpty(s: Sys, root: nat)
    requires CanMapRange(s, root, 1, 1, 2, WRITE) && Tab(s.mem, root, 2, 0) == None
    ensures match MapRange(s, root, 1, 1, 0x3000, 1, WRITE)
      case None => true
      case Some(s') => Slot(s'.mem, root, 1, 2) == ZERO
  {
    NoTableIsSmall(s.mem, root, 2);
    SlotsAreInside(1, 1);
    assert SmallPath(s.mem, root, 1, 1);
    DescendGrows(s, root, 1, 0, WRITE);
    var (s1, r) := Descend(s, root, 1, 0, WRITE);
    assert SlotGrows(s, s1, root, 1, 2, WRITE);
    assert MapRange(s, root, 1, 1, 0x3000, 0, WRITE) == Some(s);
    if r.Some? {
      LeafSlot(s1.mem, root, 1, 1, Leaf(1, 0x3000, WRITE), 1, 2);
    }
  }

  lemma NextSlotIsEmpty(s: Sys, root: nat)
    requires CanMapRange(s, root, 1, 1, 2, WRITE) && Tab(s.mem, root, 2, 0) == None
    ensures match MapRange(s, root, 1, 1, 0x3000, 1, WRITE)
      case None => true
      case Some(s') => Slot(s'.mem, root, 2, 1) == ZERO
  {
    ShorterMapping(s, root, WRITE);
    MapRangeMaps(s, root, 1, 1, 0x3000, 1, WRITE);
    NoTableIsSmall(s.mem, root, 512);
    match MapRange(s, root, 1, 1, 0x3000, 1, WRITE)
    case None =>
    case Some(s') =>
      MapRangeTabs(s, root, 1, 1, 0x3000, 1, WRITE, 1, 1);
      assert SlotGrows(s, s', root, 2, 1, WRITE);
      assert !Above(1, 0, 0, 1, 1);
  }

  /** `update_perms` on the neighbour of a mapped page, which is not mapped, maps it to physical page 0. */
  lemma UpdateMapsTheNeighbour()
    ensures match MappedSpace()
      case None => false
      case Some((s, root)) =>
        var r := EditRange(s.mem, root, 1, 2, 1, SetPerms(WRITE));
        && HwWalk(s.mem, root, 2) == Fault && r.Done?
        && var t := HwWalk(r.mem, root, 2); t.Mapped? && t.leaf.page == 0
  {
    hide Inv, Edits, SlotsEdited, EditRange, HwWalk, Slot, Tab, MappedSpace, CanEditRange;
    MappedOne();
    var (s, root) := MappedSpace().value;
    EditRangeEdits(s, root, 1, 2, 1, SetPerms(WRITE));
    Translations.UpdatingTranslates(s, root, 1, 2, 1, WRITE, 2);
    Translations.LeafPage(1, 0, WRITE);
  }

  /** `unmap_huge_pages` on the next gigabyte of the same address space runs through a null table. */
  lemma UnmapHugeCrashes()
    ensures match MappedSpace()
      case None => false
      case Some((s, root)) => CanEditRange(s, root, 2, 512, 1) && EditRange(s.mem, root, 2, 512, 1, Clear) == Crashed
  {
    hide Inv, HwWalk, Slot, Tab, MappedSpace, EditOne, Edits, SlotSet;
    MappedOne();
    var (s, root) := MappedSpace().value;
    assert EditRange(s.mem, root, 2, 512, 0, Clear) == Done(s.mem);
    EditOneEdits(s, root, 2, 512, Clear);
  }

  /** `update_huge_perms` on the neighbour of the gigabyte's first 2 MiB, which are not mapped, maps
      them to the 2 MiB at physical page 0. */
  lemma HugeUpdateMapsTheNeighbour()
    ensures match MappedSpace()
      case None => false
      case Some((s, root)) =>
        var r := EditRange(s.mem, root, 2, 1, 1, SetPerms(WRITE));
        && Slot(s.mem, root, 2, 1) == ZERO && r.Done? && Target(HwWalk(r.mem, root, 512), 512) == Some(0)
  {
    hide Inv, Edits, SlotsEdited, EditRange, HwWalk, Slot, Tab, MappedSpace, CanEditRange, Target;
    MappedOne();
    var (s, root) := MappedSpace().value;
    EditRangeEdits(s, root, 2, 1, 1, SetPerms(WRITE));
    Translations.UpdateTargets(s, root, 2, 1, 1, WRITE, 512);
  }

  /** `update_huge_perms` on the 2 MiB that hold the one mapped page, which is mapped to physical page
      0x3000, takes that page away from there. */
  lemma HugeUpdateMovesThePage()
    ensures match MappedSpace()
      case None => false
      case Some((s, root)) =>
        var r := EditRange(s.mem, root, 2, 0, 1, SetPerms(WRITE));
        && Target(HwWalk(s.mem, root, 1), 1) == Some(0x3000) && r.Done?
             && Target(HwWalk(r.mem, root, 1), 1) != Some(0x3000)
  {
    hide Inv, Edits, SlotsEdited, EditRange, HwWalk, Slot, Tab, MappedSpace, CanEditRange, Target;
    MappedOne();
    var (s, root) := MappedSpace().value;
    EditRangeEdits(s, root, 2, 0, 1, SetPerms(WRITE));
    Translations.UpdateTargets(s, root, 2, 0, 1, WRITE, 1);
  }

  /** `map_huge_pages` at an address that is no multiple of 2 MiB maps pages that fault. */
  lemma MisalignedHugePageFaults()
    ensures match NewAddressSpace(MachineWith(14))
      case None => false
      case Some((s, root)) =>
        && CanMapRange(s, root, 2, 1, 1, WRITE)
        && var r := MapRange(s, root, 2, 1, 0x3003, 1, WRITE);
           r.Some? && HwWalk(r.value.mem, root, 512) == Fault
  {
    hide Inv, NewAddressSpace, MapRange, MachineWith, HwWalk;
    var s0 := MachineWith(14);
    MachineHas(14);
    NewSpaceTakesEight(s0);
    match NewAddressSpace(s0)
    case None =>
    case Some((s, root)) =>
      HugeSlotOne(s, root);
      MapRangeBudget(s, root, 2, 1, 0x3003, 1, WRITE);
      NeedOfOne(s.mem, root, 2, 0);
      MissingAtMost(s.mem, root);
      Translations.MappingTranslates(s, root, 2, 1, 0x3003, 1, WRITE, 512);
  }

  lemma HugeSlotOne(s: Sys, root: nat)
    requires Inv(s, root)
    ensures CanMapRange(s, root, 2, 1, 1, WRITE) && CanEditRange(s, root, 2, 0, 2)
  {
    hide Inv;
  }

  lemma MissingAtMost(m: Memory, root: nat)
    ensures Missing(m, root, 2, 0) <= 2
  {
    hide Tab;
    assert Missing(m, root, 3, 0) <= 1;
  }

  /** 260 MiB of memory: the bitmap takes two whole pages and 128 bytes of a third. */
  const MEMORY: seq<Region> := [Region(0, 0x1040_0000, true)]

  function BeforeBoot(): Bitmap { Bitmap(seq(0x1_0401, _ => true), 0, 0, 0) }

  lemma MemorySizes()
    ensures BitmapLen(MEMORY) == 0x1_0400 && BitmapBytes(MEMORY) == 0x2080 && BitmapPages(0x2080) == 3
    ensures Bootable(BeforeBoot(), MEMORY) && DisjointRegions(MEMORY)
  {
    assert MemoryTop([]) == 0;
    assert MEMORY[..0] == [];
    assert MemoryTop(MEMORY) == 0x1040_0000;
  }

  /** After `init` on this memory `free_pages` is one too high. */
  lemma CounterIsOneTooHigh()
    ensures var b := Init(BeforeBoot(), MEMORY); b.len <= |b.used| && b.free == Frames.Clear(b.used, 0, b.len) + 1
  {
    hide Init, Bootable, DisjointRegions, BitmapLen, BitmapBytes;
    MemorySizes();
    assert Home(MEMORY[0], 0x2080) && Loose(MEMORY[0], 0x2080);
    HomeAccounts(BeforeBoot(), MEMORY, 0);
  }

  lemma MemoryIsSpare(j: nat)
    requires BASE + 3 <= j < BASE + 6
    ensures Spare(BeforeBoot(), MEMORY, j)
  {
    hide BitmapLen, BitmapBytes;
    MemorySizes();
    assert Given(Rounded(MEMORY[0]), 0x2080, j);
    assert GivenAmong(MEMORY, 1, j);
  }

  /** And three pages are lost to the trailing `alloc`. */
  lemma ThreePagesAreLost()
    ensures Wasted(BeforeBoot(), MEMORY) == Run(BASE + 3, 3)
  {
    hide Bootable, DisjointRegions, BitmapLen, BitmapBytes, Spare, Wasted;
    MemorySizes();
    WastedIff(BeforeBoot(), MEMORY);
    forall j: nat | BASE + 3 <= j < BASE + 6 ensures Spare(BeforeBoot(), MEMORY, j) {
      MemoryIsSpare(j);
    }
    assert SpareRun(BeforeBoot(), MEMORY, BASE + 3);
    forall j: nat | BASE <= j < BASE + 3 ensures !Spare(BeforeBoot(), MEMORY, j) {
      BitmapIsNotSpare(BeforeBoot(), MEMORY, j);
    }
    assert Spare(BeforeBoot(), MEMORY, Wasted(BeforeBoot(), MEMORY).start);
  }

  lemma BitmapIsNotSpare(b0: Bitmap, mmap: seq<Region>, j: nat)
    requires HoldsBitmap(mmap, j)
    ensures !Spare(b0, mmap, j)
  {
  }

  /** The same memory in two neighbouring regions, the first of which ends inside the bitmap. */
  const SPLIT: seq<Region> := [Region(0, 0x200_1000, true), Region(0x200_1000, 0xE3F_F000, true)]

  lemma SplitSizes()
    ensures BitmapLen(SPLIT) == 0x1_0400 && BitmapBytes(SPLIT) == 0x2080 && BitmapPages(0x2080) == 3
    ensures Bootable(BeforeBoot(), SPLIT) && DisjointRegions(SPLIT)
  {
    assert MemoryTop([]) == 0;
    assert SPLIT[..1][..0] == [];
    assert MemoryTop(SPLIT[..1]) == 0x200_1000;
    assert MemoryTop(SPLIT) == 0x1040_0000;
  }

  lemma SplitGives(j: nat)
    requires BASE <= j < BASE + 3
    ensures GivenBy(SPLIT, j)
  {
    hide BitmapLen, BitmapBytes;
    SplitSizes();
    assert Given(Rounded(SPLIT[if j == BASE then 0 else 1]), 0x2080, j);
  }

  /** Here `free_pages` is three too high after `init`, although no region holds the whole bitmap. */
  lemma CounterIsThreeTooHigh()
    ensures var b := Init(BeforeBoot(), SPLIT); b.len <= |b.used| && b.free == Frames.Clear(b.used, 0, b.len) + 3
  {
    hide Init, DisjointRegions, BitmapLen, BitmapBytes, GivenBy, Again, GivenOnce, TailReserved, Countable,
      OnlyStray;
    SplitSizes();
    NothingStray(BeforeBoot(), SPLIT);
    InitAccounts(BeforeBoot(), SPLIT);
    DisjointGiveOnce(SPLIT);
    GivenOnceIff(SPLIT);
    RecountedIff(SPLIT, 2);
    forall j: nat | BASE <= j < BASE + 3 ensures GivenBy(SPLIT, j) {
      SplitGives(j);
    }
    assert OwnGiven(SPLIT) == {BASE, BASE + 1, BASE + 2};
  }

  /** Two regions with a gap between them: the bitmap has 0x10402 bits, the last two of which are
      not set, and page 0x10400 lies in the gap. */
  const GAPPED: seq<Region> := [Region(0, 0x1000_0000, true), Region(0x1040_1000, 0x1000, true)]

  /** Memory that reads as zero at that bit. */
  function ZeroInTheGap(): Bitmap { Bitmap(seq(0x1_0403, j => j != 0x1_0400), 0, 0, 0) }

  lemma GappedSizes()
    ensures BitmapLen(GAPPED) == 0x1_0402 && BitmapBytes(GAPPED) == 0x2080 && BitmapPages(0x2080) == 3
  {
    assert MemoryTop([]) == 0;
    assert GAPPED[..1][..0] == [];
    assert MemoryTop(GAPPED[..1]) == 0x1000_0000;
    assert MemoryTop(GAPPED) == 0x1040_2000;
  }

  lemma GappedIsSpare(j: nat)
    requires BASE + 3 <= j < BASE + 6
    ensures Spare(ZeroInTheGap(), GAPPED, j)
  {
    hide BitmapLen, BitmapBytes;
    GappedSizes();
    assert Given(Rounded(GAPPED[0]), 0x2080, j);
  }

  /** After `init` the page in the gap can be allocated, although no region contains it. */
  lemma StrayBitIsClear()
    ensures |Init(ZeroInTheGap(), GAPPED).used| == 0x1_0403 && !Init(ZeroInTheGap(), GAPPED).used[0x1_0400]
    ensures forall r :: r in GAPPED ==> !InAvailable(r, 0x1_0400)
  {
    hide BitmapLen, BitmapBytes, Init, Wasted, GivenBy, Spare;
    var b0 := ZeroInTheGap();
    GappedSizes();
    ClearIffGiven(b0, GAPPED, 0x1_0400);
    WastedIff(b0, GAPPED);
    forall j: nat | BASE + 3 <= j < BASE + 6 ensures Spare(b0, GAPPED, j) {
      GappedIsSpare(j);
    }
    assert SpareRun(b0, GAPPED, BASE + 3);
    assert Stray(b0, GAPPED, 0x1_0400);
  }

  /** This region ends in the middle of page 0x10001, and yet frees it. */
  lemma FreesPastItsEnd()
    ensures var r := Region(0x1000_0800, 0x1000, true);
      InRun(Freed(r, BitmapBytes([r])), 0x1_0001) && r.addr + r.len < 0x1_0001 * PAGE_SIZE + PAGE_SIZE
  {
    var r := Region(0x1000_0800, 0x1000, true);
    assert MemoryTop([]) == 0;
    assert [r][..0] == [];
    assert MemoryTop([r]) == 0x1000_1800;
  }
}
