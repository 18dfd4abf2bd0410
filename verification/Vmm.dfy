/** The page-table code over physical memory held in an array of words. Addresses are byte
    addresses; the direct-map offset that the source adds to every table address is dropped. */
module Vmm {
  import opened Wrappers
  import opened Paging
  import opened Frames
  import opened Tables
  import opened Mapping
  import opened Editing
  import opened AddressSpace
  import Pmm

  datatype Entries = Entries(pml4: nat, pdp: nat, pd: nat, pt: nat)

  function VirtualToEntries(virt: nat): Entries {
    Entries(virt / 0x80_0000_0000 % 512, virt / 0x4000_0000 % 512, virt / 0x20_0000 % 512, virt / 0x1000 % 512)
  }

  lemma Digits36(x: nat)
    ensures x % 0x10_0000_0000 / 512 == x / 512 % 0x800_0000
  {
  }

  lemma Digits27(x: nat)
    ensures x % 0x800_0000 / 512 == x / 512 % 0x4_0000
  {
  }

  lemma Digits18(x: nat)
    ensures x % 0x4_0000 / 512 == x / 512 % 512
  {
  }

  lemma LowDigit27(x: nat)
    ensures x % 0x800_0000 % 512 == x % 512
  {
  }

  lemma LowDigit18(x: nat)
    ensures x % 0x4_0000 % 512 == x % 512
  {
  }

  lemma Pml4Digit(virt: nat)
    ensures virt / 0x80_0000_0000 % 512 == PageNumber(virt) / 512 / 512 / 512 % 512
  {
    var x := virt / PAGE_SIZE;
    Digits36(x);
    Digits27(x / 512);
    Digits18(x / 512 / 512);
    ThirtyNineBits(virt);
  }

  lemma PdpDigit(virt: nat)
    ensures virt / 0x4000_0000 % 512 == PageNumber(virt) / 512 / 512 % 512
  {
    var x := virt / PAGE_SIZE;
    Digits36(x);
    Digits27(x / 512);
    LowDigit18(x / 512 / 512);
    ThirtyBits(virt);
  }

  lemma ThirtyBits(virt: nat)
    ensures virt / 0x4000_0000 == virt / PAGE_SIZE / 512 / 512
  {
  }

  lemma ThirtyNineBits(virt: nat)
    ensures virt / 0x80_0000_0000 == virt / PAGE_SIZE / 512 / 512 / 512
  {
  }

  lemma PdDigit(virt: nat)
    ensures virt / 0x20_0000 % 512 == PageNumber(virt) / 512 % 512
  {
    var x := virt / PAGE_SIZE;
    Digits36(x);
    LowDigit27(x / 512);
    assert virt / 0x20_0000 == x / 512;
  }

  /** The bit fields of an address are the base-512 digits of its page number. */
  lemma EntriesOfPage(virt: nat)
    ensures var v := PageNumber(virt);
      VirtualToEntries(virt) == Entries(v / 512 / 512 / 512 % 512, v / 512 / 512 % 512, v / 512 % 512, v % 512)
  {
    hide PageNumber;
    Pml4Digit(virt);
    PdpDigit(virt);
    PdDigit(virt);
    PtDigit(virt);
  }

  lemma PtDigit(virt: nat)
    ensures virt / 0x1000 % 512 == PageNumber(virt) % 512
  {
  }

  lemma OrZero(flags: bv12)
    ensures 0 | flags | PRESENT == flags | PRESENT
  {
  }

  /** Table t of a descent is in memory, and the sizes are those of s. */
  predicate InMemory(s: Sys, s': Sys, r: Option<nat>) {
    && r.Some? && 512 * r.value + 512 <= |s'.mem| && |s'.mem| == |s.mem|
    && s'.frames.len == s.frames.len && |s'.frames.used| == |s.frames.used|
  }

  lemma RootFits(s: Sys, root: nat)
    requires Inv(s, root)
    ensures InMemory(s, s, Some(root)) && 512 * s.frames.len <= |s.mem| && s.frames.len <= |s.frames.used|
  {
    assert Tab(s.mem, root, 4, 0) == Some(root);
  }

  lemma DescendFits(s: Sys, root: nat, l: nat, k: nat, flags: bv12)
    requires Inv(s, root) && 1 <= l <= 4 && Up(l, k, 4) == 0 && NoLarge(s.mem, root, l, k) && !Has(flags, LARGE)
    ensures var (s', r) := Descend(s, root, l, k, flags);
      r.Some? ==> InMemory(s, s', r) && (l < 4 ==> Descend(s, root, l + 1, k / 512, flags).1.Some?)
  {
    hide Shape, Unshared, DataKept;
    DescendGrows(s, root, l, k, flags);
  }

  lemma DescendTop(s: Sys, root: nat, k: nat, flags: bv12)
    ensures Descend(s, root, 4, k, flags) == (s, Some(root))
  {
  }

  lemma DescendStep(s: Sys, root: nat, l: nat, k: nat, flags: bv12)
    requires l < 4
    ensures var (s1, r1) := Descend(s, root, l + 1, k / 512, flags);
      Descend(s, root, l, k, flags) == if r1.Some? then GetOrAlloc(s1, r1.value, k % 512, flags) else (s1, None)
  {
  }

  /** The three turns of a descent to a page table. */
  lemma DescendThree(s: Sys, root: nat, k: nat, flags: bv12)
    requires Inv(s, root) && Up(1, k, 4) == 0 && NoLarge(s.mem, root, 1, k) && !Has(flags, LARGE)
    requires Descend(s, root, 1, k, flags).1.Some?
    ensures var (s3, r3) := Descend(s, root, 3, k / 512 / 512, flags);
      var (s2, r2) := Descend(s, root, 2, k / 512, flags);
      var (s1, r1) := Descend(s, root, 1, k, flags);
      && InMemory(s, s3, r3) && InMemory(s, s2, r2) && InMemory(s, s1, r1)
      && GetOrAlloc(s, root, k / 512 / 512 % 512, flags) == (s3, r3)
      && GetOrAlloc(s3, r3.value, k / 512 % 512, flags) == (s2, r2)
      && GetOrAlloc(s2, r2.value, k % 512, flags) == (s1, r1)
  {
    hide GetOrAlloc, Descend, Inv, Has, NoLarge;
    NoLargeAbove(s.mem, root, k / 512);
    DescendFits(s, root, 1, k, flags);
    DescendFits(s, root, 2, k / 512, flags);
    DescendFits(s, root, 3, k / 512 / 512, flags);
    DescendTop(s, root, k / 512 / 512 / 512, flags);
    DescendStep(s, root, 1, k, flags);
    DescendStep(s, root, 2, k / 512, flags);
    DescendStep(s, root, 3, k / 512 / 512, flags);
  }

  lemma NoLargeAbove(m: Memory, root: nat, k: nat)
    ensures NoLarge(m, root, 2, k) && NoLarge(m, root, 3, k / 512)
  {
  }

  /** What `get_or_null_ent` finds level by level stays in memory. */
  lemma FindFits(s: Sys, root: nat, l: nat, k: nat)
    requires Inv(s, root) && 1 <= l <= 3 && Up(l, k, 4) == 0 && NoLarge(s.mem, root, l, k)
    ensures match Find(s.mem, root, l, k)
      case None => true
      case Some(f) => InMemory(s, s, Some(f)) && f > 0
  {
    hide Unshared;
    FindIsTab(s.mem, root, l, k);
    assert Shape(Slot(s.mem, root, l + 1, k), l + 1);
  }

  lemma FindTop(m: Memory, root: nat, k: nat)
    ensures Find(m, root, 4, k) == Some(root)
  {
  }

  lemma PageInside(virt: nat)
    ensures PageNumber(virt) < Slots(1)
  {
  }

  lemma FindStep(m: Memory, root: nat, l: nat, k: nat)
    requires l < 4
    ensures Find(m, root, l, k) ==
      match Find(m, root, l + 1, k / 512)
      case None => None
      case Some(t) => if Cell(m, t, k % 512).page != 0 then Some(Cell(m, t, k % 512).page) else None
  {
  }

  /** The two turns of a search for a page directory. */
  lemma FindTwo(s: Sys, root: nat, k: nat)
    requires Inv(s, root) && Up(2, k, 4) == 0
    ensures var (r3, r2) := (Find(s.mem, root, 3, k / 512), Find(s.mem, root, 2, k));
      && Pmm.Address(r3) == Cell(s.mem, root, k / 512 % 512).page * PAGE_SIZE
      && (r3 == None ==> r2 == None)
      && (r3.Some? ==> InMemory(s, s, r3) && r3.value > 0)
      && (r3.Some? ==> Pmm.Address(r2) == Cell(s.mem, r3.value, k % 512).page * PAGE_SIZE)
      && (r2.Some? ==> InMemory(s, s, r2) && r2.value > 0)
  {
    hide Find, Inv;
    FindFits(s, root, 3, k / 512);
    FindFits(s, root, 2, k);
    FindTop(s.mem, root, k / 512 / 512);
    FindStep(s.mem, root, 3, k / 512);
    FindStep(s.mem, root, 2, k);
  }

  lemma {:induction false} StoppedStays(m: Memory, root: nat, l: nat, slot: nat, n: nat, count: nat, edit: Edit)
    requires n <= count && !EditRange(m, root, l, slot, n, edit).Done?
    ensures EditRange(m, root, l, slot, count, edit) == EditRange(m, root, l, slot, n, edit)
  {
    hide EditOne;
    if n < count {
      StoppedStays(m, root, l, slot, n, count - 1, edit);
    }
  }

  /** One step of an editing loop. */
  lemma EditLoopStep(m: Memory, m1: Memory, root: nat, l: nat, slot: nat, i: nat, count: nat, edit: Edit)
    requires i < count && EditRange(m, root, l, slot, i, edit) == Done(m1)
    ensures var r := EditOne(m1, root, l, slot + i, edit);
      && EditRange(m, root, l, slot, i + 1, edit) == r
      && (!r.Done? ==> EditRange(m, root, l, slot, count, edit) == r)
  {
    hide EditOne;
    if !EditOne(m1, root, l, slot + i, edit).Done? {
      StoppedStays(m, root, l, slot, i + 1, count, edit);
    }
  }

  /** The i-th page after an address. */
  lemma PageStep(virt: nat, i: nat)
    requires PageNumber(virt) + i < VPAGES
    ensures PageNumber(virt + i * 0x1000) == PageNumber(virt) + i
  {
    assert (virt + i * 0x1000) / PAGE_SIZE == virt / PAGE_SIZE + i;
  }

  lemma HugePageStep(virt: nat, i: nat)
    requires PageNumber(virt) / 512 + i < Slots(2)
    ensures PageNumber(virt + i * 0x20_0000) / 512 == PageNumber(virt) / 512 + i
  {
    Digits36(virt / PAGE_SIZE);
    Digits36((virt + i * 0x20_0000) / PAGE_SIZE);
    HugeQuotient(virt, i);
    NoWrap(virt / PAGE_SIZE / 512, i);
  }

  lemma HugeQuotient(virt: nat, i: nat)
    ensures (virt + i * 0x20_0000) / PAGE_SIZE / 512 == virt / PAGE_SIZE / 512 + i
  {
  }

  lemma NoWrap(x: nat, i: nat)
    requires x % 0x800_0000 + i < 0x800_0000
    ensures (x + i) % 0x800_0000 == x % 0x800_0000 + i
  {
  }

  /** Entry off of the table in frame tab is entry s of level l of an address space, and no 2 MiB page. */
  ghost predicate EntryOf(m: Memory, root: nat, l: nat, s: nat, tab: nat, off: nat) {
    && 2 <= l <= 4 && Tree(m, root) && Tab(m, root, l, s / 512) == Some(tab) && s % 512 == off
    && !Has(Slot(m, root, l, s).low, LARGE)
  }

  lemma EntryLeads(m: Memory, root: nat, l: nat, s: nat, tab: nat, off: nat)
    requires EntryOf(m, root, l, s, tab, off)
    ensures Cell(m, tab, off).page * PAGE_SIZE == Pmm.Address(Tab(m, root, l - 1, s))
  {
    hide Unshared;
    assert Slot(m, root, l, s) == Cell(m, tab, off) && Shape(Slot(m, root, l, s), l);
  }

  class Machine {
    const ram: array<Word>
    const pmm: Pmm.Allocator

    constructor (ram: array<Word>, pmm: Pmm.Allocator)
      ensures this.ram == ram && this.pmm == pmm
    {
      this.ram, this.pmm := ram, pmm;
    }

    ghost function View(): Sys
      reads this, ram, pmm, pmm.bitmap
    {
      Sys(ram[..], pmm.View())
    }

    ghost predicate Valid()
      reads this, ram, pmm, pmm.bitmap
    {
      pmm.Valid() && ram as object != pmm.bitmap
    }

    method ClearFrame(frame: nat)
      requires 512 * frame + 512 <= ram.Length
      modifies ram
      ensures ram[..] == ZeroFrame(old(ram[..]), frame)
    {
      for i := 0 to 512
        invariant forall j :: 0 <= j < ram.Length ==>
          ram[j] == if 512 * frame <= j < 512 * frame + i then ZERO else old(ram[j])
      {
        ram[512 * frame + i] := ZERO;
      }
    }

    /** Returns 0 for the source's null pointer. */
    method GetOrAllocEnt(tab: nat, off: nat, flags: bv12) returns (next: nat)
      requires Valid() && off < 512 && 512 * (tab / PAGE_SIZE) + off < ram.Length
      requires 512 * pmm.bitmapLen <= ram.Length && pmm.bitmapLen <= 64 * pmm.bitmap.Length
      modifies ram, pmm, pmm.bitmap
      ensures pmm.bitmap == old(pmm.bitmap) && Valid()
      ensures (View(), next) == (GetOrAlloc(old(View()), tab / PAGE_SIZE, off, flags).0,
                                 Pmm.Address(GetOrAlloc(old(View()), tab / PAGE_SIZE, off, flags).1))
    {
      hide Pmm.BitAt, Pmm.Bits, Frames.Alloc, ZeroFrame, Frames.Clear;
      ghost var s := View();
      var at := 512 * (tab / PAGE_SIZE) + off;
      next := ram[at].page * PAGE_SIZE;
      if next == 0 {
        AllocOne(s.frames);
        next := pmm.Alloc(1);
        ram[at] := Word(false, next / PAGE_SIZE, 0);
        if next == 0 {
          assert ram[..] == s.mem[at := ZERO];
          return;
        }
        OrZero(flags);
        ram[at] := Word(false, next / PAGE_SIZE, ram[at].low | flags | PRESENT);
        assert ram[..] == s.mem[at := Word(false, next / PAGE_SIZE, flags | PRESENT)];
        ClearFrame(next / PAGE_SIZE);
      }
    }

    /** The body of the loop of `map_pages`. */
    method MapPage(pml4: nat, virt: nat, phys: nat, perms: bv12)
      requires Valid() && pml4 % PAGE_SIZE == 0 && phys % PAGE_SIZE == 0
      requires CanMap(View(), pml4 / PAGE_SIZE, 1, PageNumber(virt), perms)
      requires MapOne(View(), pml4 / PAGE_SIZE, 1, PageNumber(virt), phys / PAGE_SIZE, perms).Some?
      modifies ram, pmm, pmm.bitmap
      ensures pmm.bitmap == old(pmm.bitmap) && Valid()
      ensures Some(View()) == MapOne(old(View()), pml4 / PAGE_SIZE, 1, PageNumber(virt), phys / PAGE_SIZE, perms)
    {
      hide GetOrAlloc, Descend, Inv, Tree, Tab, Slot, Has, PageNumber, Pmm.Bits, VirtualToEntries;
      ghost var s, root, k := View(), pml4 / PAGE_SIZE, PageNumber(virt) / 512;
      RootFits(s, root);
      DescendThree(s, root, k, perms);
      ghost var (s3, r3) := Descend(s, root, 3, k / 512 / 512, perms);
      ghost var (s2, r2) := Descend(s, root, 2, k / 512, perms);
      ghost var (s1, r1) := Descend(s, root, 1, k, perms);
      EntriesOfPage(virt);
      var offs := VirtualToEntries(virt);
      var pdp := GetOrAllocEnt(pml4, offs.pml4, perms);
      assert View() == s3 && pdp / PAGE_SIZE == r3.value;
      var pd := GetOrAllocEnt(pdp, offs.pdp, perms);
      assert View() == s2 && pd / PAGE_SIZE == r2.value;
      var pt := GetOrAllocEnt(pd, offs.pd, perms);
      assert View() == s1 && pt / PAGE_SIZE == r1.value;
      ram[512 * (pt / PAGE_SIZE) + offs.pt] := Word(false, phys / PAGE_SIZE, perms | PRESENT);
    }

    method MapPages(pml4: nat, virt: nat, phys: nat, count: nat, perms: bv12) returns (ok: bool)
      requires Valid() && pml4 % PAGE_SIZE == 0 && phys % PAGE_SIZE == 0
      requires CanMapRange(View(), pml4 / PAGE_SIZE, 1, PageNumber(virt), count, perms)
      requires MapRange(View(), pml4 / PAGE_SIZE, 1, PageNumber(virt), phys / PAGE_SIZE, count, perms).Some?
      modifies ram, pmm, pmm.bitmap
      ensures pmm.bitmap == old(pmm.bitmap) && Valid() && ok
      ensures Some(View()) ==
        MapRange(old(View()), pml4 / PAGE_SIZE, 1, PageNumber(virt), phys / PAGE_SIZE, count, perms)
    {
      hide Inv, MapOne, Maps, CanMap, PageNumber, Pmm.Bits;
      ghost var root, slot, page := pml4 / PAGE_SIZE, PageNumber(virt), phys / PAGE_SIZE;
      var v, p := virt, phys;
      for i := 0 to count
        invariant pmm.bitmap == old(pmm.bitmap) && Valid()
        invariant v == virt + i * 0x1000 && p == phys + i * 0x1000
        invariant Some(View()) == MapRange(old(View()), root, 1, slot, page, i, perms)
      {
        ghost var s := View();
        MapRangeMaps(old(View()), root, 1, slot, page, i, perms);
        CanMapNext(old(View()), s, root, 1, slot, slot + i, perms, count);
        ShorterMaps(old(View()), root, 1, slot, page, count, perms, i + 1);
        PageStep(virt, i);
        assert p / PAGE_SIZE == page + i;
        MapPage(pml4, v, p, perms);
        v := v + 0x1000;
        p := p + 0x1000;
      }
      return true;
    }

    /** In every address space whose table this is, what is returned is the table that the hardware
        goes on to, or 0 if it goes no further. */
    method GetOrNullEnt(tab: nat, off: nat) returns (next: nat)
      requires off < 512 && 512 * (tab / PAGE_SIZE) + off < ram.Length
      ensures next == Cell(ram[..], tab / PAGE_SIZE, off).page * PAGE_SIZE
      ensures forall root: nat, l: nat, s: nat :: EntryOf(ram[..], root, l, s, tab / PAGE_SIZE, off) ==>
        next == Pmm.Address(Tab(ram[..], root, l - 1, s))
    {
      forall root: nat, l: nat, s: nat | EntryOf(ram[..], root, l, s, tab / PAGE_SIZE, off)
        ensures Cell(ram[..], tab / PAGE_SIZE, off).page * PAGE_SIZE == Pmm.Address(Tab(ram[..], root, l - 1, s))
      {
        EntryLeads(ram[..], root, l, s, tab / PAGE_SIZE, off);
      }
      next := ram[512 * (tab / PAGE_SIZE) + off].page * PAGE_SIZE;
    }

    /** The walk shared by `unmap_pages`, `update_perms` and `get_entry`. */
    method PageTableOf(pml4: nat, virt: nat) returns (pt: nat)
      requires pml4 % PAGE_SIZE == 0 && Inv(View(), pml4 / PAGE_SIZE)
      requires SmallPath(ram[..], pml4 / PAGE_SIZE, 1, PageNumber(virt))
      ensures pt == Pmm.Address(Find(ram[..], pml4 / PAGE_SIZE, 1, PageNumber(virt) / 512))
      ensures if pt == 0 then Find(ram[..], pml4 / PAGE_SIZE, 1, PageNumber(virt) / 512) == None
              else 512 * (pt / PAGE_SIZE) + 512 <= ram.Length
    {
      hide Find, Inv, Tree, Tab, Slot, Has, EntryOf, PageNumber, VirtualToEntries, Pmm.Bits;
      ghost var s, root, k := View(), pml4 / PAGE_SIZE, PageNumber(virt) / 512;
      SlotsAreInside(1, PageNumber(virt)) by { PageInside(virt); }
      RootFits(s, root);
      FindFits(s, root, 3, k / 512 / 512);
      FindFits(s, root, 2, k / 512);
      FindFits(s, root, 1, k);
      FindTop(s.mem, root, k / 512 / 512 / 512);
      FindStep(s.mem, root, 3, k / 512 / 512);
      FindStep(s.mem, root, 2, k / 512);
      FindStep(s.mem, root, 1, k);
      EntriesOfPage(virt);
      var offs := VirtualToEntries(virt);
      var pdp := GetOrNullEnt(pml4, offs.pml4);
      if pdp == 0 {
        return 0;
      }
      var pd := GetOrNullEnt(pdp, offs.pdp);
      if pd == 0 {
        return 0;
      }
      pt := GetOrNullEnt(pd, offs.pd);
    }

    /** The body of the loops of `unmap_pages` and `update_perms`. */
    method EditPage(pml4: nat, virt: nat, edit: Edit) returns (ok: bool)
      requires pml4 % PAGE_SIZE == 0 && Inv(View(), pml4 / PAGE_SIZE)
      requires SmallPath(ram[..], pml4 / PAGE_SIZE, 1, PageNumber(virt))
      modifies ram
      ensures EditOne(old(ram[..]), pml4 / PAGE_SIZE, 1, PageNumber(virt), edit) ==
        if ok then Done(ram[..]) else Stopped(ram[..])
    {
      hide Find, Inv, PageNumber, VirtualToEntries, Pmm.Bits;
      EntriesOfPage(virt);
      var pt := PageTableOf(pml4, virt);
      if pt == 0 {
        return false;
      }
      ghost var m := ram[..];
      var at := 512 * (pt / PAGE_SIZE) + VirtualToEntries(virt).pt;
      match edit {
        case Clear => ram[at] := ZERO;
        case SetPerms(perms) => ram[at] := Word(false, ram[at].page, perms | PRESENT);
      }
      assert ram[..] == m[at := Edited(edit, 1, m[at])];
      return true;
    }

    method UnmapPages(pml4: nat, virt: nat, count: nat) returns (ok: bool)
      requires Valid() && pml4 % PAGE_SIZE == 0
      requires CanEditRange(View(), pml4 / PAGE_SIZE, 1, PageNumber(virt), count)
      modifies ram
      ensures Valid() && View().frames == old(View()).frames
      ensures EditRange(old(ram[..]), pml4 / PAGE_SIZE, 1, PageNumber(virt), count, Clear) ==
        if ok then Done(ram[..]) else Stopped(ram[..])
    {
      ok := EditPages(pml4, virt, count, Clear);
    }

    method UpdatePerms(pml4: nat, virt: nat, count: nat, perms: bv12) returns (ok: bool)
      requires Valid() && pml4 % PAGE_SIZE == 0
      requires CanEditRange(View(), pml4 / PAGE_SIZE, 1, PageNumber(virt), count)
      modifies ram
      ensures Valid() && View().frames == old(View()).frames
      ensures EditRange(old(ram[..]), pml4 / PAGE_SIZE, 1, PageNumber(virt), count, SetPerms(perms))
           == if ok then Done(ram[..]) else Stopped(ram[..])
    {
      ok := EditPages(pml4, virt, count, SetPerms(perms));
    }

    /** The loop that `unmap_pages` and `update_perms` both run. */
    method EditPages(pml4: nat, virt: nat, count: nat, edit: Edit) returns (ok: bool)
      requires Valid() && pml4 % PAGE_SIZE == 0
      requires CanEditRange(View(), pml4 / PAGE_SIZE, 1, PageNumber(virt), count)
      modifies ram
      ensures Valid() && View().frames == old(View()).frames
      ensures EditRange(old(ram[..]), pml4 / PAGE_SIZE, 1, PageNumber(virt), count, edit) ==
        if ok then Done(ram[..]) else Stopped(ram[..])
    {
      hide Inv, EditOne, Edits, SmallPath, PageNumber, Find, Pmm.Bits;
      ghost var m, root, slot := ram[..], pml4 / PAGE_SIZE, PageNumber(virt);
      ghost var s := View();
      var v := virt;
      for i := 0 to count
        invariant v == virt + i * 0x1000
        invariant EditRange(m, root, 1, slot, i, edit) == Done(ram[..])
      {
        EditRangeEdits(s, root, 1, slot, i, edit);
        EditNext(s, View(), root, 1, slot, count, slot + i);
        PageStep(virt, i);
        EditLoopStep(m, ram[..], root, 1, slot, i, count, edit);
        ok := EditPage(pml4, v, edit);
        if !ok {
          return false;
        }
        v := v + 0x1000;
      }
      return true;
    }

    /** The body of the loop of `map_huge_pages`. */
    method MapHugePage(pml4: nat, virt: nat, phys: nat, perms: bv12)
      requires Valid() && pml4 % PAGE_SIZE == 0 && phys % PAGE_SIZE == 0
      requires CanMap(View(), pml4 / PAGE_SIZE, 2, PageNumber(virt) / 512, perms)
      requires MapOne(View(), pml4 / PAGE_SIZE, 2, PageNumber(virt) / 512, phys / PAGE_SIZE, perms).Some?
      modifies ram, pmm, pmm.bitmap
      ensures pmm.bitmap == old(pmm.bitmap) && Valid()
      ensures Some(View()) == MapOne(old(View()), pml4 / PAGE_SIZE, 2, PageNumber(virt) / 512, phys / PAGE_SIZE, perms)
    {
      hide GetOrAlloc, Descend, Inv, Tree, Tab, Slot, Has, PageNumber, Pmm.Bits, VirtualToEntries;
      ghost var s, root, k := View(), pml4 / PAGE_SIZE, PageNumber(virt) / 512 / 512;
      RootFits(s, root);
      DescendFits(s, root, 2, k, perms);
      DescendFits(s, root, 3, k / 512, perms);
      DescendTop(s, root, k / 512 / 512, perms);
      DescendStep(s, root, 2, k, perms);
      DescendStep(s, root, 3, k / 512, perms);
      ghost var (s2, r2) := Descend(s, root, 3, k / 512, perms);
      ghost var (s1, r1) := Descend(s, root, 2, k, perms);
      assert InMemory(s, s1, r1) && InMemory(s, s2, r2);
      EntriesOfPage(virt);
      var offs := VirtualToEntries(virt);
      var pdp := GetOrAllocEnt(pml4, offs.pml4, perms);
      assert View() == s2 && pdp / PAGE_SIZE == r2.value;
      var pd := GetOrAllocEnt(pdp, offs.pdp, perms);
      assert View() == s1 && pd / PAGE_SIZE == r1.value;
      ram[512 * (pd / PAGE_SIZE) + offs.pd] := Word(false, phys / PAGE_SIZE, perms | PRESENT | LARGE);
    }

    method MapHugePages(pml4: nat, virt: nat, phys: nat, count: nat, perms: bv12) returns (ok: bool)
      requires Valid() && pml4 % PAGE_SIZE == 0 && phys % PAGE_SIZE == 0
      requires CanMapRange(View(), pml4 / PAGE_SIZE, 2, PageNumber(virt) / 512, count, perms)
      requires MapRange(View(), pml4 / PAGE_SIZE, 2, PageNumber(virt) / 512, phys / PAGE_SIZE, count, perms).Some?
      modifies ram, pmm, pmm.bitmap
      ensures pmm.bitmap == old(pmm.bitmap) && Valid() && ok
      ensures Some(View()) ==
        MapRange(old(View()), pml4 / PAGE_SIZE, 2, PageNumber(virt) / 512, phys / PAGE_SIZE, count, perms)
    {
      hide Inv, MapOne, Maps, CanMap, PageNumber, Pmm.Bits;
      ghost var root, slot, page := pml4 / PAGE_SIZE, PageNumber(virt) / 512, phys / PAGE_SIZE;
      var v, p := virt, phys;
      for i := 0 to count
        invariant pmm.bitmap == old(pmm.bitmap) && Valid()
        invariant v == virt + i * 0x20_0000 && p == phys + i * 0x20_0000
        invariant Some(View()) == MapRange(old(View()), root, 2, slot, page, i, perms)
      {
        ghost var s := View();
        MapRangeMaps(old(View()), root, 2, slot, page, i, perms);
        CanMapNext(old(View()), s, root, 2, slot, slot + i, perms, count);
        ShorterMaps(old(View()), root, 2, slot, page, count, perms, i + 1);
        HugePageStep(virt, i);
        assert p / PAGE_SIZE == PageAt(2, page, i);
        MapHugePage(pml4, v, p, perms);
        v := v + 0x20_0000;
        p := p + 0x20_0000;
      }
      return true;
    }

    method NewAddressSpace() returns (pml4: nat)
      requires Valid() && FramesFit(View()) && ClearFrames(View()) >= 8
      modifies ram, pmm, pmm.bitmap
      ensures pmm.bitmap == old(pmm.bitmap) && Valid() && pml4 % PAGE_SIZE == 0
      ensures AddressSpace.NewAddressSpace(old(View())) == Some((View(), pml4 / PAGE_SIZE))
    {
      hide Inv, MapRange, CanMapRange, ZeroFrame, Frames.Clear, Pmm.Bits;
      ghost var s := View();
      NewSpaceTakesEight(s);
      EmptySpace(s);
      AllocOne(s.frames);
      pml4 := pmm.Alloc(1);
      ClearFrame(pml4 / PAGE_SIZE);
      ghost var s0, root := View(), pml4 / PAGE_SIZE;
      KernelPart(s0, root);
      var _ := MapHugePages(pml4, KERNEL_BASE, 0, KERNEL_PAGES, 3);
      PhysicalPart(s0, View(), root);
      var _ := MapHugePages(pml4, PHYSICAL_BASE, 0, PHYSICAL_PAGES, 3);
    }

    /** The walk shared by `unmap_huge_pages` and `update_huge_perms`, which checks the PML4 entry but
        not the next one. */
    method DirectoryOf(pml4: nat, virt: nat) returns (ok: bool, pd: nat)
      requires pml4 % PAGE_SIZE == 0 && Inv(View(), pml4 / PAGE_SIZE)
      ensures ok == Find(ram[..], pml4 / PAGE_SIZE, 3, PageNumber(virt) / 512 / 512 / 512).Some?
      ensures ok ==> pd == Pmm.Address(Find(ram[..], pml4 / PAGE_SIZE, 2, PageNumber(virt) / 512 / 512))
      ensures if ok && pd != 0 then 512 * (pd / PAGE_SIZE) + 512 <= ram.Length
              else Find(ram[..], pml4 / PAGE_SIZE, 2, PageNumber(virt) / 512 / 512) == None
    {
      hide Find, Inv, Tree, Tab, Slot, Has, EntryOf, PageNumber, VirtualToEntries, Pmm.Bits;
      ghost var s, root, k := View(), pml4 / PAGE_SIZE, PageNumber(virt) / 512 / 512;
      SlotsAreInside(1, PageNumber(virt)) by { PageInside(virt); }
      RootFits(s, root);
      FindTwo(s, root, k);
      EntriesOfPage(virt);
      var offs := VirtualToEntries(virt);
      var pdp := GetOrNullEnt(pml4, offs.pml4);
      if pdp == 0 {
        return false, 0;
      }
      pd := GetOrNullEnt(pdp, offs.pdp);
      ok := true;
    }

    /** The body of the loops of `unmap_huge_pages` and `update_huge_perms`. */
    method EditHugePage(pml4: nat, virt: nat, edit: Edit) returns (ok: bool)
      requires pml4 % PAGE_SIZE == 0 && Inv(View(), pml4 / PAGE_SIZE)
      requires EditOne(ram[..], pml4 / PAGE_SIZE, 2, PageNumber(virt) / 512, edit) != Crashed
      modifies ram
      ensures EditOne(old(ram[..]), pml4 / PAGE_SIZE, 2, PageNumber(virt) / 512, edit) ==
        if ok then Done(ram[..]) else Stopped(ram[..])
    {
      hide Find, Inv, PageNumber, VirtualToEntries, Pmm.Bits;
      EntriesOfPage(virt);
      var pd;
      ok, pd := DirectoryOf(pml4, virt);
      if !ok {
        return;
      }
      var at := 512 * (pd / PAGE_SIZE) + VirtualToEntries(virt).pd;
      ghost var m := ram[..];
      match edit {
        case Clear => ram[at] := ZERO;
        case SetPerms(perms) => ram[at] := Word(false, ram[at].page, perms | PRESENT | LARGE);
      }
      assert ram[..] == m[at := Edited(edit, 2, m[at])];
    }

    /** The loop that `unmap_huge_pages` and `update_huge_perms` both run. */
    method EditHugePages(pml4: nat, virt: nat, count: nat, edit: Edit) returns (ok: bool)
      requires Valid() && pml4 % PAGE_SIZE == 0
      requires CanEditRange(View(), pml4 / PAGE_SIZE, 2, PageNumber(virt) / 512, count)
      requires EditRange(ram[..], pml4 / PAGE_SIZE, 2, PageNumber(virt) / 512, count, edit) != Crashed
      modifies ram
      ensures Valid() && View().frames == old(View()).frames
      ensures EditRange(old(ram[..]), pml4 / PAGE_SIZE, 2, PageNumber(virt) / 512, count, edit)
           == if ok then Done(ram[..]) else Stopped(ram[..])
    {
      hide Inv, EditOne, Edits, SmallPath, PageNumber, Find, Pmm.Bits;
      ghost var m, root, slot := ram[..], pml4 / PAGE_SIZE, PageNumber(virt) / 512;
      ghost var s := View();
      var v := virt;
      for i := 0 to count
        invariant v == virt + i * 0x20_0000
        invariant EditRange(m, root, 2, slot, i, edit) == Done(ram[..])
      {
        EditRangeEdits(s, root, 2, slot, i, edit);
        EditNext(s, View(), root, 2, slot, count, slot + i);
        HugePageStep(virt, i);
        EditLoopStep(m, ram[..], root, 2, slot, i, count, edit);
        ok := EditHugePage(pml4, v, edit);
        if !ok {
          return false;
        }
        v := v + 0x20_0000;
      }
      return true;
    }

    method UnmapHugePages(pml4: nat, virt: nat, count: nat) returns (ok: bool)
      requires Valid() && pml4 % PAGE_SIZE == 0
      requires CanEditRange(View(), pml4 / PAGE_SIZE, 2, PageNumber(virt) / 512, count)
      requires EditRange(ram[..], pml4 / PAGE_SIZE, 2, PageNumber(virt) / 512, count, Clear) != Crashed
      modifies ram
      ensures Valid() && View().frames == old(View()).frames
      ensures EditRange(old(ram[..]), pml4 / PAGE_SIZE, 2, PageNumber(virt) / 512, count, Clear)
           == if ok then Done(ram[..]) else Stopped(ram[..])
    {
      ok := EditHugePages(pml4, virt, count, Clear);
    }

    method UpdateHugePerms(pml4: nat, virt: nat, count: nat, perms: bv12) returns (ok: bool)
      requires Valid() && pml4 % PAGE_SIZE == 0
      requires CanEditRange(View(), pml4 / PAGE_SIZE, 2, PageNumber(virt) / 512, count)
      requires EditRange(ram[..], pml4 / PAGE_SIZE, 2, PageNumber(virt) / 512, count, SetPerms(perms)) != Crashed
      modifies ram
      ensures Valid() && View().frames == old(View()).frames
      ensures EditRange(old(ram[..]), pml4 / PAGE_SIZE, 2, PageNumber(virt) / 512, count, SetPerms(perms))
           == if ok then Done(ram[..]) else Stopped(ram[..])
    {
      ok := EditHugePages(pml4, virt, count, SetPerms(perms));
    }

    method GetEntry(pml4: nat, virt: nat) returns (e: Word)
      requires Valid() && pml4 % PAGE_SIZE == 0 && Inv(View(), pml4 / PAGE_SIZE)
      requires virt < PHYSICAL_BASE ==> SmallPath(ram[..], pml4 / PAGE_SIZE, 1, PageNumber(virt))
      ensures e == AddressSpace.GetEntry(ram[..], pml4 / PAGE_SIZE, virt)
    {
      hide Inv, PageNumber, Find, Pmm.Bits, VirtualToEntries;
      if virt >= KERNEL_BASE {
        return WordOf(virt - KERNEL_BASE);
      }
      if virt >= PHYSICAL_BASE {
        return WordOf(virt - PHYSICAL_BASE);
      }
      var pt := PageTableOf(pml4, virt);
      if pt == 0 {
        return ZERO;
      }
      EntriesOfPage(virt);
      e := ram[512 * (pt / PAGE_SIZE) + VirtualToEntries(virt).pt];
    }
  }
}
