/** What the paging calls mean for the hardware: the walk of every page before and after. */
module Translations {
  import opened Wrappers
  import opened Paging
  import opened Frames
  import opened Tables
  import opened Mapping
  import opened Editing
  import opened PagingRuns
  import opened Rights

  lemma SoftwareView(s: Sys, root: nat, v: nat)
    requires Inv(s, root) && v < VPAGES
    ensures HwWalk(s.mem, root, v) == Walk(s.mem, root, v)
  {
    HwWalkReadsSlots(s.mem, root, v);
  }

  /** What the tables above the entry of page v allow of the permissions. */
  function Allowed(m: Memory, root: nat, l: nat, v: nat, perms: bv12): bv12
    requires 1 <= l
  {
    PathFlags(m, root, l, Up(1, v, l) / 512) & perms & RIGHTS
  }

  /** `map_pages` and `map_huge_pages` update a flat map from pages to entries: inside the range
      the hardware finds the given frames one after another, and every other page, mapped by
      either size, translates as before, however many tables had to be made. */
  lemma MappingTranslates(s: Sys, root: nat, l: nat, slot: nat, page: nat, count: nat, perms: bv12, v: nat)
    requires CanMapRange(s, root, l, slot, count, perms) && v < VPAGES
    ensures match MapRange(s, root, l, slot, page, count, perms)
      case None => true
      case Some(s') =>
        var t := HwWalk(s'.mem, root, v);
        if !InRange(l, slot, count, v) then t == HwWalk(s.mem, root, v)
        else if !LeafFits(page, l) then t == Fault
        else t == Mapped(Leaf(l, PageAt(l, page, Up(1, v, l) - slot), perms), l, Allowed(s.mem, root, l, v, perms))
  {
    hide Inv, MapRange, HwWalk, Walk, PathFlags, Leaf;
    SoftwareView(s, root, v);
    match MapRange(s, root, l, slot, page, count, perms)
    case None =>
    case Some(s') =>
      if InRange(l, slot, count, v) {
        PageAtFits(l, page, Up(1, v, l) - slot, perms);
      }
      MapRangeMaps(s, root, l, slot, page, count, perms);
      MapRangeWalk(s, root, l, slot, page, count, perms, v);
      SoftwareView(s', root, v);
  }

  /** A finished unmapping call unmaps exactly its range. */
  lemma UnmappingTranslates(s: Sys, root: nat, l: nat, slot: nat, count: nat, v: nat)
    requires CanEditRange(s, root, l, slot, count) && v < VPAGES
    ensures var r := EditRange(s.mem, root, l, slot, count, Clear);
      r.Done? ==> HwWalk(r.mem, root, v) == if InRange(l, slot, count, v) then Fault else HwWalk(s.mem, root, v)
  {
    hide Inv, Edits, SlotsEdited, EditRange, HwWalk, Walk, PathFlags, Slot;
    SoftwareView(s, root, v);
    EditRangeEdits(s, root, l, slot, count, Clear);
    EditRangeWalk(s, root, l, slot, count, Clear, v);
    var r := EditRange(s.mem, root, l, slot, count, Clear);
    if r.Done? {
      SoftwareView(Sys(r.mem, s.frames), root, v);
    }
  }

  lemma LeafIsPresent(l: nat, page: nat, perms: bv12)
    ensures Has(Leaf(l, page, perms).low, PRESENT)
  {
  }

  lemma UpdatedLeaf(e: Word, l: nat, flags: bv12, perms: bv12)
    ensures LeafWalk(Edited(SetPerms(perms), l, e), l, flags) ==
      MappedBy(Leaf(l, e.page, perms), l, flags & perms & RIGHTS)
  {
    hide Leaf, Has;
    LeafIsPresent(l, e.page, perms);
    LeafRights(flags, flags, l, e.page, perms);
  }

  /** A finished permission call leaves each page of its range mapped to the frame that its
      entry named, with the new permissions, and every other page alone. */
  lemma UpdatingTranslates(s: Sys, root: nat, l: nat, slot: nat, count: nat, perms: bv12, v: nat)
    requires CanEditRange(s, root, l, slot, count) && v < VPAGES
    ensures var r := EditRange(s.mem, root, l, slot, count, SetPerms(perms));
      var page := Slot(s.mem, root, l, Up(1, v, l)).page;
      r.Done? ==>
        var t := HwWalk(r.mem, root, v);
        if !InRange(l, slot, count, v) then t == HwWalk(s.mem, root, v)
        else if !LeafFits(page, l) then t == Fault
        else t == Mapped(Leaf(l, page, perms), l, Allowed(s.mem, root, l, v, perms))
  {
    hide Inv, Edits, SlotsEdited, EditRange, HwWalk, Walk, PathFlags, Slot, Leaf, LeafWalk, Edited, LeafFits;
    SoftwareView(s, root, v);
    EditRangeEdits(s, root, l, slot, count, SetPerms(perms));
    EditRangeWalk(s, root, l, slot, count, SetPerms(perms), v);
    var r := EditRange(s.mem, root, l, slot, count, SetPerms(perms));
    if r.Done? {
      SoftwareView(Sys(r.mem, s.frames), root, v);
      LeafPage(l, Slot(s.mem, root, l, Up(1, v, l)).page, perms);
      UpdatedLeaf(Slot(s.mem, root, l, Up(1, v, l)), l, PathFlags(s.mem, root, l, Up(1, v, l) / 512), perms);
    }
  }

  /** t is a translation by an entry of level l that holds the page number and, bit for bit, the
      permissions, PRESENT (bit 0) and, for 2 MiB, LARGE (bit 7). */
  predicate FoundEntry(t: Translation, l: nat, page: nat, perms: bv12, f: bv12) {
    && t.Mapped? && t.level == l && !t.leaf.high && t.leaf.page == page
    && (t.leaf.low & f != 0 <==> perms & f != 0 || f & 0x001 != 0 || (l == 2 && f & 0x080 != 0))
  }

  lemma LeafIsFound(l: nat, page: nat, perms: bv12, rights: bv12, f: bv12)
    ensures FoundEntry(Mapped(Leaf(l, page, perms), l, rights), l, page, perms, f)
  {
    OrBits(perms, PRESENT, f);
    OrBits(perms | PRESENT, LARGE, f);
  }

  lemma OrBits(a: bv12, b: bv12, f: bv12)
    ensures (a | b) & f != 0 <==> a & f != 0 || b & f != 0
  {
    assert (a | b) & f == (a & f) | (b & f);
  }

  /** The slot of level l that page v lies behind. */
  function SlotOf(l: nat, v: nat): nat { if l == 2 then v / 512 else v }

  lemma SlotIsUp(l: nat, slot: nat, count: nat, page: nat, v: nat)
    requires 1 <= l <= 2
    ensures Up(1, v, l) == SlotOf(l, v)
    ensures InRange(l, slot, count, v) <==> slot <= SlotOf(l, v) < slot + count
    ensures LeafFits(page, l) <==> (l == 2 ==> page % 512 < 2)
  {
  }

  /** The entry that the processor finds after a mapping call, bit by bit, and the physical page. */
  lemma MappedEntry(s: Sys, root: nat, l: nat, slot: nat, page: nat, count: nat, perms: bv12, v: nat, f: bv12)
    requires CanMapRange(s, root, l, slot, count, perms) && v < VPAGES
    requires slot <= SlotOf(l, v) < slot + count && (l == 2 ==> page % 512 < 2)
    ensures match MapRange(s, root, l, slot, page, count, perms)
      case None => true
      case Some(s') =>
        var t := HwWalk(s'.mem, root, v);
        if l == 1 then FoundEntry(t, 1, page + (v - slot), perms, f) && Target(t, v) == Some(page + (v - slot))
        else
          && FoundEntry(t, 2, page + 512 * (v / 512 - slot), perms, f)
          && Target(t, v) == Some(page / 512 * 512 + (v - 512 * slot))
  {
    hide MapRange, HwWalk, Leaf, FoundEntry, LeafFits, CanMapRange, Allowed, PageAt, Target, Up, InRange, SlotOf;
    LevelOf(s, root, l, slot, count, perms);
    SlotIsUp(l, slot, count, page, v);
    MappingTranslates(s, root, l, slot, page, count, perms, v);
    var i := SlotOf(l, v) - slot;
    LeafIsFound(l, PageAt(l, page, i), perms, Allowed(s.mem, root, l, v, perms), f);
    LeafTarget(l, slot, page, perms, Allowed(s.mem, root, l, v, perms), v);
  }

  lemma LeafTarget(l: nat, slot: nat, page: nat, perms: bv12, rights: bv12, v: nat)
    requires 1 <= l <= 2 && slot <= SlotOf(l, v)
    ensures var i := SlotOf(l, v) - slot;
      var t := Mapped(Leaf(l, PageAt(l, page, i), perms), l, rights);
      && PageAt(l, page, i) == (if l == 1 then page + (v - slot) else page + 512 * (v / 512 - slot))
      && Target(t, v) == Some(if l == 1 then page + (v - slot) else page / 512 * 512 + (v - 512 * slot))
  {
    hide Leaf;
    LeafPage(l, PageAt(l, page, SlotOf(l, v) - slot), perms);
    if l == 2 {
      HugeTarget(page, v, slot);
    }
  }

  lemma HugeTarget(page: nat, v: nat, slot: nat)
    requires slot <= v / 512
    ensures (page + 512 * (v / 512 - slot)) / 512 * 512 + v % 512 == page / 512 * 512 + (v - 512 * slot)
  {
  }

  /** The entry after a finished permission call: the page is kept, everything else is replaced. */
  lemma UpdatedEntry(s: Sys, root: nat, l: nat, slot: nat, count: nat, perms: bv12, v: nat, f: bv12)
    requires CanEditRange(s, root, l, slot, count) && v < VPAGES && slot <= SlotOf(l, v) < slot + count
    ensures var r := EditRange(s.mem, root, l, slot, count, SetPerms(perms));
      var page := Slot(s.mem, root, l, SlotOf(l, v)).page;
      r.Done? ==>
        var t := HwWalk(r.mem, root, v);
        if l == 2 && page % 512 >= 2 then t == Fault else FoundEntry(t, l, page, perms, f)
  {
    hide EditRange, HwWalk, Leaf, FoundEntry, LeafFits, CanEditRange, Allowed, Up, InRange, SlotOf, Slot;
    RangeIsInside(s, root, l, slot, count);
    var page := Slot(s.mem, root, l, SlotOf(l, v)).page;
    SlotIsUp(l, slot, count, page, v);
    UpdatingTranslates(s, root, l, slot, count, perms, v);
    LeafIsFound(l, page, perms, Allowed(s.mem, root, l, v, perms), f);
  }

  /** A finished unmapping call leaves zero in every entry of its range, and the others of its level
      as they were. */
  lemma UnmappedEntry(s: Sys, root: nat, l: nat, slot: nat, count: nat, x: nat)
    requires CanEditRange(s, root, l, slot, count)
    ensures var r := EditRange(s.mem, root, l, slot, count, Clear);
      r.Done? ==>
        Slot(r.mem, root, l, x) == if slot <= x < slot + count then Word(false, 0, 0) else Slot(s.mem, root, l, x)
  {
    hide EditRange, Slot, Inv, Edits;
    EditRangeEdits(s, root, l, slot, count, Clear);
  }

  /** The translations after mapping and unmapping a range. */
  lemma MapThenUnmapTranslates(s: Sys, root: nat, l: nat, slot: nat, page: nat, count: nat, perms: bv12, v: nat)
    requires CanMapRange(s, root, l, slot, count, perms) && v < VPAGES
    ensures match MapRange(s, root, l, slot, page, count, perms)
      case None => true
      case Some(s1) =>
        var r := EditRange(s1.mem, root, l, slot, count, Clear);
        r.Done? && HwWalk(r.mem, root, v) == if InRange(l, slot, count, v) then Fault else HwWalk(s.mem, root, v)
  {
    hide Inv, Edits, SlotsEdited, MapRange, EditRange, HwWalk, Walk, PathFlags;
    SoftwareView(s, root, v);
    MapThenUnmap(s, root, l, slot, page, count, perms, v);
    match MapRange(s, root, l, slot, page, count, perms)
    case None =>
    case Some(s1) =>
      MapRangeMaps(s, root, l, slot, page, count, perms);
      CanMapAgain(s, s1, root, l, slot, count, perms);
      EditRangeEdits(s1, root, l, slot, count, Clear);
      SoftwareView(Sys(EditRange(s1.mem, root, l, slot, count, Clear).mem, s1.frames), root, v);
  }

  /** None of the pages of the range is mapped. */
  ghost predicate Unmapped(m: Memory, root: nat, l: nat, slot: nat, count: nat)
    requires 1 <= l
  {
    forall v: nat :: v < VPAGES && InRange(l, slot, count, v) ==> HwWalk(m, root, v) == Fault
  }

  ghost predicate SameWalks(m: Memory, m': Memory, root: nat) {
    forall v: nat :: v < VPAGES ==> HwWalk(m', root, v) == HwWalk(m, root, v)
  }

  /** Mapping and then unmapping a range, of pages of either size, restores the processor's whole
      translation function if and only if nothing was mapped in the range. */
  lemma MapThenUnmapRestoresIff(s: Sys, root: nat, l: nat, slot: nat, page: nat, count: nat, perms: bv12)
    requires CanMapRange(s, root, l, slot, count, perms)
    ensures match MapRange(s, root, l, slot, page, count, perms)
      case None => true
      case Some(s1) =>
        var r := EditRange(s1.mem, root, l, slot, count, Clear);
        r.Done? && (SameWalks(s.mem, r.mem, root) <==> Unmapped(s.mem, root, l, slot, count))
  {
    hide CanMapRange, MapRange, EditRange, HwWalk, InRange;
    assert 1 <= l by { LevelOf(s, root, l, slot, count, perms); }
    match MapRange(s, root, l, slot, page, count, perms)
    case None =>
    case Some(s1) =>
      var r := EditRange(s1.mem, root, l, slot, count, Clear);
      MapThenUnmapTranslates(s, root, l, slot, page, count, perms, 0);
      forall v: nat | v < VPAGES
        ensures HwWalk(r.mem, root, v) == if InRange(l, slot, count, v) then Fault else HwWalk(s.mem, root, v)
      {
        MapThenUnmapTranslates(s, root, l, slot, page, count, perms, v);
      }
      if SameWalks(s.mem, r.mem, root) {
        forall v: nat | v < VPAGES && InRange(l, slot, count, v) ensures HwWalk(s.mem, root, v) == Fault {
          assert HwWalk(r.mem, root, v) == HwWalk(s.mem, root, v);
        }
      }
  }

  lemma LevelOf(s: Sys, root: nat, l: nat, slot: nat, count: nat, perms: bv12)
    requires CanMapRange(s, root, l, slot, count, perms)
    ensures 1 <= l <= 2
  {
  }

  /** `update_perms` keeps unmapped pages unmapped if and only if there are none in its range: the
      source makes an entry for physical page 0 out of an empty one. */
  lemma UpdateMapsUnmappedPages(s: Sys, root: nat, slot: nat, count: nat, perms: bv12)
    requires CanEditRange(s, root, 1, slot, count)
    ensures var r := EditRange(s.mem, root, 1, slot, count, SetPerms(perms));
      r.Done? ==>
        (SameFaults(s.mem, r.mem, root)
         <==> forall v :: slot <= v < slot + count ==> HwWalk(s.mem, root, v) != Fault)
  {
    hide CanEditRange, EditRange, Slot, HwWalk, Leaf;
    var r := EditRange(s.mem, root, 1, slot, count, SetPerms(perms));
    RangeIsInside(s, root, 1, slot, count);
    if r.Done? {
      forall v: nat | v < VPAGES
        ensures HwWalk(r.mem, root, v) == Fault <==> HwWalk(s.mem, root, v) == Fault && !(slot <= v < slot + count)
      {
        UpdatingTranslates(s, root, 1, slot, count, perms, v);
      }
      if SameFaults(s.mem, r.mem, root) {
        forall v | slot <= v < slot + count ensures HwWalk(s.mem, root, v) != Fault {
          assert HwWalk(r.mem, root, v) != Fault;
        }
      }
    }
  }

  ghost predicate SameFaults(m: Memory, m': Memory, root: nat) {
    forall v: nat :: v < VPAGES ==> (HwWalk(m', root, v) == Fault <==> HwWalk(m, root, v) == Fault)
  }

  lemma RangeIsInside(s: Sys, root: nat, l: nat, slot: nat, count: nat)
    requires CanEditRange(s, root, l, slot, count)
    ensures 1 <= l <= 2 && slot + count <= Slots(l)
  {
  }

  /** The physical page that the address field of the level-l entry of page v, taken as a leaf, gives
      to it; none when it sets reserved bits. An empty entry gives pages from physical page 0 on. */
  function ByEntry(m: Memory, root: nat, l: nat, v: nat): Option<nat>
    requires 1 <= l
  {
    var p := Slot(m, root, l, Up(1, v, l)).page;
    if !LeafFits(p, l) then None else if l == 2 then Some(p / 512 * 512 + v % 512) else Some(p)
  }

  /** Where a finished permission call leaves each page. */
  lemma UpdateTargets(s: Sys, root: nat, l: nat, slot: nat, count: nat, perms: bv12, v: nat)
    requires CanEditRange(s, root, l, slot, count) && v < VPAGES
    ensures var r := EditRange(s.mem, root, l, slot, count, SetPerms(perms));
      r.Done? ==>
        Target(HwWalk(r.mem, root, v), v) ==
          if InRange(l, slot, count, v) then ByEntry(s.mem, root, l, v) else Target(HwWalk(s.mem, root, v), v)
  {
    hide CanEditRange, EditRange, Slot, HwWalk, Leaf, LeafFits, InRange;
    RangeIsInside(s, root, l, slot, count);
    UpdatingTranslates(s, root, l, slot, count, perms, v);
    LeafPage(l, Slot(s.mem, root, l, Up(1, v, l)).page, perms);
  }

  ghost predicate SameTargets(m: Memory, m': Memory, root: nat) {
    forall v: nat :: v < VPAGES ==> Target(HwWalk(m', root, v), v) == Target(HwWalk(m, root, v), v)
  }

  /** Every page of the range is mapped as its level-l entry, taken as a leaf, says. */
  ghost predicate MappedByEntries(m: Memory, root: nat, l: nat, slot: nat, count: nat)
    requires 1 <= l
  {
    forall v: nat :: v < VPAGES && InRange(l, slot, count, v) ==>
      Target(HwWalk(m, root, v), v) == ByEntry(m, root, l, v)
  }

  /** A finished permission call, on pages of either size, leaves every page mapped to what it was
      mapped to if and only if each page of the range is mapped as its entry, taken as a leaf, says:
      not where the entry is empty, nor, but by chance, where it refers to a page table. */
  lemma UpdateKeepsTargetsIff(s: Sys, root: nat, l: nat, slot: nat, count: nat, perms: bv12)
    requires CanEditRange(s, root, l, slot, count)
    ensures var r := EditRange(s.mem, root, l, slot, count, SetPerms(perms));
      1 <= l && (r.Done? ==> (SameTargets(s.mem, r.mem, root) <==> MappedByEntries(s.mem, root, l, slot, count)))
  {
    hide CanEditRange, EditRange, HwWalk, InRange, ByEntry, Target;
    RangeIsInside(s, root, l, slot, count);
    var r := EditRange(s.mem, root, l, slot, count, SetPerms(perms));
    if r.Done? {
      forall v: nat | v < VPAGES
        ensures Target(HwWalk(r.mem, root, v), v) ==
          if InRange(l, slot, count, v) then ByEntry(s.mem, root, l, v) else Target(HwWalk(s.mem, root, v), v)
      {
        UpdateTargets(s, root, l, slot, count, perms, v);
      }
    }
  }

  /** `update_huge_perms` takes an entry that refers to a page table for a 2 MiB page: the table
      is cut off, and its pages fault or, when its frame has the right alignment, are mapped to
      the 2 MiB of memory around it. */
  lemma HugeUpdateOfTable(s: Sys, root: nat, slot: nat, perms: bv12, v: nat)
    requires CanEditRange(s, root, 2, slot, 1) && v < VPAGES && v / 512 == slot
    requires IsTable(Slot(s.mem, root, 2, slot))
    ensures var t := Slot(s.mem, root, 2, slot).page;
      var r := EditRange(s.mem, root, 2, slot, 1, SetPerms(perms));
      && Tab(s.mem, root, 1, slot) == Some(t)
      && r.Done? && Tab(r.mem, root, 1, slot) == None
      && var walk := HwWalk(r.mem, root, v);
         if t % 512 < 2 then walk == Mapped(Leaf(2, t, perms), 2, Allowed(s.mem, root, 2, v, perms)) else walk == Fault
  {
    hide CanEditRange, EditRange, Edits, Inv, HwWalk, Walk, PathFlags, Leaf, Edited;
    assert Up(1, v, 2) == slot;
    TableIsFound(s.mem, root, slot);
    EditRangeEdits(s, root, 2, slot, 1, SetPerms(perms));
    LeafIsNoTable(EditRange(s.mem, root, 2, slot, 1, SetPerms(perms)).mem, root, slot, Slot(s.mem, root, 2, slot),
      perms);
    UpdatingTranslates(s, root, 2, slot, 1, perms, v);
    PageAtFits(2, Slot(s.mem, root, 2, slot).page, 0, perms);
    LeafPage(2, Slot(s.mem, root, 2, slot).page, perms);
  }

  lemma TableIsFound(m: Memory, root: nat, slot: nat)
    requires IsTable(Slot(m, root, 2, slot))
    ensures TableBehind(m, root, 2, slot) && Tab(m, root, 1, slot) == Some(Slot(m, root, 2, slot).page)
  {
  }

  lemma LeafIsNoTable(m: Memory, root: nat, slot: nat, e: Word, perms: bv12)
    requires Slot(m, root, 2, slot) == Edited(SetPerms(perms), 2, e)
    ensures Tab(m, root, 1, slot) == None
  {
  }

  lemma LeafPage(l: nat, page: nat, perms: bv12)
    ensures Leaf(l, page, perms).page == page
  {
  }

  /** If every mapping and permission call of a run from a zeroed PML4 carries WRITE (or USER),
      then every translation the hardware finds after the run grants it, and no translation
      grants more than its leaf. */
  lemma RunsKeepRights(a: Machine, root: nat, ops: seq<Op>, flag: bv12, v: nat)
    requires Sound(a, root) && (forall i: nat :: Cell(a.sys.mem, root, i) == ZERO) && v < VPAGES
    requires flag == WRITE || flag == USER
    requires forall op :: op in ops ==> OpGrants(op, flag)
    ensures match Steps(a, root, ops)
      case None => true
      case Some(b) =>
        var t := HwWalk(b.sys.mem, root, v);
        t.Mapped? ==> Has(t.rights, flag) && t.rights & t.leaf.low == t.rights
  {
    hide Inv, Steps, HwWalk, Walk;
    RunsStaySound(a, root, ops);
    WalksKeepRights(a, root, ops, flag, v);
    match Steps(a, root, ops)
    case None =>
    case Some(b) => SoftwareView(b.sys, root, v);
  }
}
