/** `map_pages` and `map_huge_pages` on values: both write one leaf per step at slots that
    follow each other on one level (1 for 4 KiB pages, 2 for 2 MiB pages). */
module Mapping {
  import opened Wrappers
  import opened Paging
  import opened Frames
  import opened Tables

  function Leaf(l: nat, page: nat, perms: bv12): Word {
    Word(false, page, if l == 2 then perms | PRESENT | LARGE else perms | PRESENT)
  }

  /** The page i slots of level l after the given one. */
  function PageAt(l: nat, page: nat, i: nat): nat { if l == 2 then page + 512 * i else page + i }

  /** None where the source runs through a null table pointer. */
  function MapOne(s: Sys, root: nat, l: nat, slot: nat, page: nat, perms: bv12): Option<Sys> {
    match Descend(s, root, l, slot / 512, perms)
    case (_, None) => None
    case (s1, Some(f)) => Some(Sys(SetCell(s1.mem, f, slot % 512, Leaf(l, page, perms)), s1.frames))
  }

  function MapRange(s: Sys, root: nat, l: nat, slot: nat, page: nat, count: nat, perms: bv12): Option<Sys> {
    if count == 0 then Some(s)
    else
      match MapRange(s, root, l, slot, page, count - 1, perms)
      case None => None
      case Some(s1) => MapOne(s1, root, l, slot + (count - 1), PageAt(l, page, count - 1), perms)
  }

  /** What every table on the way down to table k of level l grants; all ones where a table
      is missing. */
  function PathFlags(m: Memory, root: nat, l: nat, k: nat): bv12
    decreases 4 - l
  {
    if l >= 4 then 0xFFF
    else
      var e := Slot(m, root, l + 1, k);
      PathFlags(m, root, l + 1, k / 512) & if IsTable(e) then e.low else 0xFFF
  }

  /** A leaf is found by the walk of every page behind its slot. */
  lemma WalkFindsLeaf(m: Memory, root: nat, l: nat, v: nat)
    requires 1 <= l <= 2 && v < VPAGES && Tab(m, root, l, Up(1, v, l) / 512).Some?
    requires var w := Slot(m, root, l, Up(1, v, l)); Has(w.low, PRESENT) && (l == 2 ==> Has(w.low, LARGE))
    ensures var w := Slot(m, root, l, Up(1, v, l));
      Walk(m, root, v) == MappedBy(w, l, PathFlags(m, root, l, Up(1, v, l) / 512) & w.low & RIGHTS)
  {
    var k4, k3, k2 := v / 512 / 512 / 512, v / 512 / 512, v / 512;
    assert Up(1, v, l) == if l == 1 then v else k2;
    assert IsTable(Slot(m, root, 3, k3)) && Tab(m, root, 2, k3).Some? by {
      if l == 1 {
        assert Tab(m, root, 1, k2).Some?;
      }
    }
    assert IsTable(Slot(m, root, 4, k4));
    PathFlagsOfPage(m, root, k2, k3, k4);
    if l == 1 {
      PathFlagsStep(m, root, 1, k2);
    }
  }

  lemma PathFlagsOfPage(m: Memory, root: nat, k2: nat, k3: nat, k4: nat)
    requires k3 == k2 / 512 && k4 == k3 / 512
    requires IsTable(Slot(m, root, 3, k3)) && IsTable(Slot(m, root, 4, k4))
    ensures PathFlags(m, root, 2, k3) == Slot(m, root, 4, k4).low & Slot(m, root, 3, k3).low
  {
    TopFlags(m, root, 3, k4);
    PathFlagsStep(m, root, 2, k3);
  }

  lemma PathFlagsStep(m: Memory, root: nat, l: nat, k: nat)
    requires l < 4 && IsTable(Slot(m, root, l + 1, k))
    ensures PathFlags(m, root, l, k) == PathFlags(m, root, l + 1, k / 512) & Slot(m, root, l + 1, k).low
  {
  }

  lemma TopFlags(m: Memory, root: nat, l: nat, k: nat)
    requires l == 3 && IsTable(Slot(m, root, l + 1, k))
    ensures PathFlags(m, root, l, k) == Slot(m, root, l + 1, k).low
  {
    assert PathFlags(m, root, l + 1, k / 512) == 0xFFF;
  }

  /** New, empty tables change no translation. */
  lemma GrowsKeepsWalk(s: Sys, s': Sys, root: nat, flags: bv12, v: nat)
    requires Grows(s, s', root, flags)
    ensures Walk(s'.mem, root, v) == Walk(s.mem, root, v)
  {
    var k4, k3, k2 := v / 512 / 512 / 512, v / 512 / 512, v / 512;
    assert SlotGrows(s, s', root, 4, k4, flags) && SlotGrows(s, s', root, 3, k3, flags);
    assert SlotGrows(s, s', root, 2, k2, flags) && SlotGrows(s, s', root, 1, v, flags);
    if Slot(s.mem, root, 4, k4) == ZERO {
      NothingBelow(s.mem, root, 4, k4, 3, k3);
      NothingBelow(s.mem, root, 4, k4, 2, k2);
      NothingBelow(s.mem, root, 4, k4, 1, v);
    } else if Slot(s.mem, root, 3, k3) == ZERO {
      NothingBelow(s.mem, root, 3, k3, 2, k2);
      NothingBelow(s.mem, root, 3, k3, 1, v);
    } else if Slot(s.mem, root, 2, k2) == ZERO {
      NothingBelow(s.mem, root, 2, k2, 1, v);
    }
  }

  /** What mapping leaves of level l with the given permissions does to everything else:
      tables of level l and above only grow, tables below may be cut off, and frames in use
      as data are untouched. */
  ghost predicate Maps(s: Sys, s': Sys, root: nat, l: nat, perms: bv12) {
    && s'.frames.len == s.frames.len && |s'.frames.used| == |s.frames.used| && s'.frames.total == s.frames.total
    && |s'.mem| == |s.mem|
    && (forall f: nat :: Reserved(s.frames, f) ==> Reserved(s'.frames, f))
    && (forall j: nat, k: nat :: TabMaps(s, s', root, l, j, k))
    && (forall j: nat, t: nat :: l < j ==> SlotGrows(s, s', root, j, t, perms))
    && DataKept(s, s', root)
  }

  predicate TabMaps(s: Sys, s': Sys, root: nat, l: nat, j: nat, k: nat) {
    || Tab(s'.mem, root, j, k) == Tab(s.mem, root, j, k)
    || if j < l then Tab(s'.mem, root, j, k) == None else TabGrows(s, s', root, j, k)
  }

  lemma MapsIsTransitive(s: Sys, s1: Sys, s2: Sys, root: nat, l: nat, perms: bv12)
    requires Maps(s, s1, root, l, perms) && Maps(s1, s2, root, l, perms)
    ensures Maps(s, s2, root, l, perms)
  {
    forall j: nat, k: nat
      ensures TabMaps(s, s2, root, l, j, k)
      ensures l < j ==> SlotGrows(s, s2, root, j, k, perms)
    {
      assert TabMaps(s, s1, root, l, j, k);
      assert TabMaps(s1, s2, root, l, j, k);
      assert l < j ==> SlotGrows(s, s1, root, j, k, perms) && SlotGrows(s1, s2, root, j, k, perms);
    }
    forall f: nat | Reserved(s.frames, f) && NotTable(s.mem, root, f)
      ensures NotTable(s1.mem, root, f)
    {
      assert forall j: nat, k: nat :: Tab(s1.mem, root, j, k) == Some(f) ==> TabMaps(s, s1, root, l, j, k);
    }
  }

  ghost predicate CanMap(s: Sys, root: nat, l: nat, slot: nat, perms: bv12) {
    && Inv(s, root) && 1 <= l <= 2 && Up(l, slot / 512, 4) == 0
    && NoLarge(s.mem, root, l, slot / 512) && !Has(perms, LARGE)
  }

  lemma LeafKeepsWalk(m: Memory, root: nat, l: nat, slot: nat, w: Word, v: nat)
    requires CanWriteLeaf(m, root, l, slot, w) && Up(1, v, l) != slot
    ensures Walk(SetCell(m, Tab(m, root, l, slot / 512).value, slot % 512, w), root, v) == Walk(m, root, v)
  {
    LeafSlot(m, root, l, slot, w, 4, v / 512 / 512 / 512);
    LeafSlot(m, root, l, slot, w, 3, v / 512 / 512);
    LeafSlot(m, root, l, slot, w, 2, v / 512);
    LeafSlot(m, root, l, slot, w, 1, v);
    assert l == 2 ==> Up(1, v, l) == v / 512;
  }

  lemma LeafMaps(s: Sys, root: nat, l: nat, slot: nat, w: Word, perms: bv12)
    requires CanWriteLeaf(s.mem, root, l, slot, w)
    ensures Maps(s, Sys(SetCell(s.mem, Tab(s.mem, root, l, slot / 512).value, slot % 512, w), s.frames), root, l, perms)
  {
    var f := Tab(s.mem, root, l, slot / 512).value;
    var s' := Sys(SetCell(s.mem, f, slot % 512, w), s.frames);
    forall j: nat, k: nat
      ensures TabMaps(s, s', root, l, j, k)
      ensures l < j ==> SlotGrows(s, s', root, j, k, perms)
    {
      LeafSlot(s.mem, root, l, slot, w, j, k);
    }
    assert !NotTable(s.mem, root, f);
    CellOfSetCell(s.mem, f, slot % 512, w);
  }

  lemma LeafKeepsInv(s: Sys, root: nat, l: nat, slot: nat, w: Word)
    requires Inv(s, root) && CanWriteLeaf(s.mem, root, l, slot, w)
    ensures Inv(Sys(SetCell(s.mem, Tab(s.mem, root, l, slot / 512).value, slot % 512, w), s.frames), root)
  {
    var m' := SetCell(s.mem, Tab(s.mem, root, l, slot / 512).value, slot % 512, w);
    LeafKeepsTree(s.mem, root, l, slot, w);
    forall j: nat, k: nat | Tab(m', root, j, k).Some?
      ensures Reserved(s.frames, Tab(m', root, j, k).value)
    {
      LeafSlot(s.mem, root, l, slot, w, j, k);
    }
  }

  lemma DescendMaps(s: Sys, root: nat, l: nat, k: nat, perms: bv12)
    requires Inv(s, root) && 1 <= l <= 4 && Up(l, k, 4) == 0 && NoLarge(s.mem, root, l, k) && !Has(perms, LARGE)
    ensures Maps(s, Descend(s, root, l, k, perms).0, root, l, perms)
  {
    DescendGrows(s, root, l, k, perms);
    var s1 := Descend(s, root, l, k, perms).0;
    forall j: nat, t: nat
      ensures TabMaps(s, s1, root, l, j, t)
    {
      assert TabGrows(s, s1, root, j, t);
      assert j < l ==> !OnPath(l, k, j, t);
    }
  }

  lemma MapOneMaps(s: Sys, root: nat, l: nat, slot: nat, page: nat, perms: bv12)
    requires CanMap(s, root, l, slot, perms)
    ensures var r := MapOne(s, root, l, slot, page, perms);
      && (r.Some? <==> Missing(s.mem, root, l, slot / 512) <= ClearFrames(s))
      && (r.Some? ==>
        && Inv(r.value, root) && Maps(s, r.value, root, l, perms)
        && ClearFrames(r.value) == ClearFrames(s) - Missing(s.mem, root, l, slot / 512))
  {
    DescendGrows(s, root, l, slot / 512, perms);
    var (s1, r1) := Descend(s, root, l, slot / 512, perms);
    if r1.Some? {
      var w := Leaf(l, page, perms);
      var s' := Sys(SetCell(s1.mem, r1.value, slot % 512, w), s1.frames);
      assert CanWriteLeaf(s1.mem, root, l, slot, w);
      LeafKeepsInv(s1, root, l, slot, w);
      LeafMaps(s1, root, l, slot, w, perms);
      DescendMaps(s, root, l, slot / 512, perms);
      MapsIsTransitive(s, s1, s', root, l, perms);
    }
  }

  /** The tables there are after mapping one leaf: those there were and those on its path. */
  lemma MapOneTabs(s: Sys, root: nat, l: nat, slot: nat, page: nat, perms: bv12, j: nat, t: nat)
    requires CanMap(s, root, l, slot, perms) && l <= j
    ensures match MapOne(s, root, l, slot, page, perms)
      case None => true
      case Some(s') =>
        && Slot(s'.mem, root, l, slot) == Leaf(l, page, perms)
        && Tab(s'.mem, root, l, slot / 512).Some?
        && (!OnPath(l, slot / 512, j, t) ==> Tab(s'.mem, root, j, t) == Tab(s.mem, root, j, t))
        && (OnPath(l, slot / 512, j, t) && j <= 4 ==> Tab(s'.mem, root, j, t).Some?)
  {
    DescendGrows(s, root, l, slot / 512, perms);
    var (s1, r1) := Descend(s, root, l, slot / 512, perms);
    if r1.Some? {
      var w := Leaf(l, page, perms);
      LeafSlot(s1.mem, root, l, slot, w, l, slot);
      LeafSlot(s1.mem, root, l, slot, w, l, slot / 512);
      LeafSlot(s1.mem, root, l, slot, w, j, t);
      if OnPath(l, slot / 512, j, t) && j <= 4 {
        TablesAbove(s1.mem, root, l, slot / 512, j);
      }
    }
  }

  /** Above a table there are tables. */
  lemma {:induction false} TablesAbove(m: Memory, root: nat, l: nat, k: nat, j: nat)
    requires Tab(m, root, l, k).Some? && l <= j <= 4
    ensures Tab(m, root, j, Up(l, k, j)).Some?
    decreases j - l
  {
    if l < j {
      TablesAbove(m, root, l + 1, k / 512, j);
    }
  }

  lemma MapOneWalk(s: Sys, root: nat, l: nat, slot: nat, page: nat, perms: bv12, v: nat)
    requires CanMap(s, root, l, slot, perms) && v < VPAGES
    ensures match MapOne(s, root, l, slot, page, perms)
      case None => true
      case Some(s') =>
        && (Up(1, v, l) == slot ==>
              Walk(s'.mem, root, v) ==
                MappedBy(Leaf(l, page, perms), l, PathFlags(s.mem, root, l, slot / 512) & perms & RIGHTS))
        && (Up(1, v, l) != slot ==> Walk(s'.mem, root, v) == Walk(s.mem, root, v))
  {
    DescendGrows(s, root, l, slot / 512, perms);
    var (s1, r1) := Descend(s, root, l, slot / 512, perms);
    if r1.Some? {
      if Up(1, v, l) != slot {
        GrowsKeepsWalk(s, s1, root, perms, v);
        LeafKeepsWalk(s1.mem, root, l, slot, Leaf(l, page, perms), v);
      } else {
        MapOneLeaf(s, root, l, slot, page, perms, v);
      }
    }
  }

  lemma MapOneLeaf(s: Sys, root: nat, l: nat, slot: nat, page: nat, perms: bv12, v: nat)
    requires CanMap(s, root, l, slot, perms) && v < VPAGES && Up(1, v, l) == slot
    ensures var r := MapOne(s, root, l, slot, page, perms);
      r.Some? ==>
        Walk(r.value.mem, root, v) ==
          MappedBy(Leaf(l, page, perms), l, PathFlags(s.mem, root, l, slot / 512) & perms & RIGHTS)
  {
    hide Inv, Maps, MapOne;
    match MapOne(s, root, l, slot, page, perms)
    case None =>
    case Some(s') =>
      MapOneTabs(s, root, l, slot, page, perms, l, slot);
      WalkFindsLeaf(s'.mem, root, l, v);
      MapOneMaps(s, root, l, slot, page, perms);
      FlagsAgree(s, s', root, l, perms, l, slot / 512);
      LeafRights(PathFlags(s.mem, root, l, slot / 512), PathFlags(s'.mem, root, l, slot / 512), l, page, perms);
  }

  lemma LeafRights(a: bv12, b: bv12, l: nat, page: nat, perms: bv12)
    requires a & perms == b & perms
    ensures b & Leaf(l, page, perms).low & RIGHTS == a & perms & RIGHTS
  {
  }

  /** New tables carry the permissions they are made for, so what the path grants of those
      permissions stays what it was. */
  lemma {:induction false} FlagsAgree(s: Sys, s': Sys, root: nat, l: nat, perms: bv12, j: nat, k: nat)
    requires Maps(s, s', root, l, perms) && l <= j
    ensures PathFlags(s'.mem, root, j, k) & perms == PathFlags(s.mem, root, j, k) & perms
    decreases 4 - j
  {
    if j < 4 {
      FlagsAgree(s, s', root, l, perms, j + 1, k / 512);
      assert SlotGrows(s, s', root, j + 1, k, perms);
    }
  }

  /** The number of slots of level l. */
  function Slots(l: nat): nat { if l == 2 then VPAGES / 512 else VPAGES }

  lemma SlotsAreInside(l: nat, slot: nat)
    requires 1 <= l <= 2 && slot < Slots(l)
    ensures Up(l, slot / 512, 4) == 0
  {
    var k := slot / 512;
    if l == 1 {
      assert Up(1, k, 4) == Up(2, k / 512, 4) == k / 512 / 512 / 512;
    } else {
      assert Up(2, k, 4) == k / 512 / 512;
    }
  }

  /** What the source needs of a mapping call: no wrap-around, no 2 MiB page on the way of
      4 KiB pages, permissions among the low 12 bits and without the large-page bit. */
  ghost predicate CanMapRange(s: Sys, root: nat, l: nat, slot: nat, count: nat, perms: bv12) {
    && Inv(s, root) && 1 <= l <= 2 && slot + count <= Slots(l) && !Has(perms, LARGE)
    && forall x :: slot <= x < slot + count ==> SmallPath(s.mem, root, l, x)
  }

  predicate SmallPath(m: Memory, root: nat, l: nat, slot: nat) { NoLarge(m, root, l, slot / 512) }

  lemma {:induction false} MapRangeMaps(s: Sys, root: nat, l: nat, slot: nat, page: nat, count: nat, perms: bv12)
    requires CanMapRange(s, root, l, slot, count, perms)
    ensures var r := MapRange(s, root, l, slot, page, count, perms);
      r.Some? ==> Inv(r.value, root) && Maps(s, r.value, root, l, perms)
  {
    hide Inv, MapOne;
    if count > 0 {
      MapRangeMaps(s, root, l, slot, page, count - 1, perms);
      match MapRange(s, root, l, slot, page, count - 1, perms)
      case None =>
      case Some(s1) => MapStep(s, s1, root, l, slot, slot + (count - 1), PageAt(l, page, count - 1), perms, count);
    }
  }

  lemma MapStep(s: Sys, s1: Sys, root: nat, l: nat, slot: nat, x: nat, page: nat, perms: bv12, count: nat)
    requires CanMapRange(s, root, l, slot, count, perms) && Inv(s1, root) && Maps(s, s1, root, l, perms)
    requires slot <= x < slot + count
    ensures CanMap(s1, root, l, x, perms)
    ensures var r := MapOne(s1, root, l, x, page, perms);
      r.Some? ==> Inv(r.value, root) && Maps(s, r.value, root, l, perms)
  {
    CanMapNext(s, s1, root, l, slot, x, perms, count);
    MapOneMaps(s1, root, l, x, page, perms);
    match MapOne(s1, root, l, x, page, perms)
    case None =>
    case Some(s2) => MapsIsTransitive(s, s1, s2, root, l, perms);
  }

  lemma CanMapNext(s: Sys, s1: Sys, root: nat, l: nat, slot: nat, x: nat, perms: bv12, count: nat)
    requires CanMapRange(s, root, l, slot, count, perms) && Inv(s1, root) && Maps(s, s1, root, l, perms)
    requires slot <= x < slot + count
    ensures CanMap(s1, root, l, x, perms)
  {
    SlotsAreInside(l, x);
    assert SmallPath(s.mem, root, l, x);
    assert l == 1 ==> SlotGrows(s, s1, root, 2, x / 512, perms);
  }

  lemma {:induction false} ShorterMaps(s: Sys, root: nat, l: nat, slot: nat, page: nat, count: nat, perms: bv12, n: nat)
    requires n <= count && MapRange(s, root, l, slot, page, count, perms).Some?
    ensures MapRange(s, root, l, slot, page, n, perms).Some?
  {
    hide MapOne;
    if n < count {
      ShorterMaps(s, root, l, slot, page, count - 1, perms, n);
    }
  }

  lemma CanMapAgain(s: Sys, s1: Sys, root: nat, l: nat, slot: nat, count: nat, perms: bv12)
    requires CanMapRange(s, root, l, slot, count, perms) && Inv(s1, root) && Maps(s, s1, root, l, perms)
    ensures CanMapRange(s1, root, l, slot, count, perms)
  {
    hide Inv;
    forall x | slot <= x < slot + count
      ensures SmallPath(s1.mem, root, l, x)
    {
      assert SmallPath(s.mem, root, l, x);
      assert l == 1 ==> SlotGrows(s, s1, root, 2, x / 512, perms);
    }
  }

  /** All leaves of a range set the same reserved bits. */
  lemma PageAtFits(l: nat, page: nat, i: nat, perms: bv12)
    requires 1 <= l <= 2
    ensures LeafFits(Leaf(l, PageAt(l, page, i), perms).page, l) <==> LeafFits(page, l)
  {
  }

  /** The translation that mapping `count` leaves from `slot` on must produce for page v. */
  function MappedAt(m: Memory, root: nat, l: nat, slot: nat, page: nat, count: nat, perms: bv12, v: nat): Translation {
    if 1 <= l <= 2 && slot <= Up(1, v, l) < slot + count then
      MappedBy(Leaf(l, PageAt(l, page, Up(1, v, l) - slot), perms), l,
        PathFlags(m, root, l, Up(1, v, l) / 512) & perms & RIGHTS)
    else Walk(m, root, v)
  }

  lemma {:induction false} MapRangeWalk(s: Sys, root: nat, l: nat, slot: nat, page: nat, count: nat, perms: bv12,
          v: nat)
    requires CanMapRange(s, root, l, slot, count, perms) && v < VPAGES
    ensures match MapRange(s, root, l, slot, page, count, perms)
      case None => true
      case Some(s') => Walk(s'.mem, root, v) == MappedAt(s.mem, root, l, slot, page, count, perms, v)
  {
    hide Inv, MapOne, Walk, PathFlags, Leaf;
    if count > 0 {
      MapRangeWalk(s, root, l, slot, page, count - 1, perms, v);
      WalkNext(s, root, l, slot, page, count, perms, v);
    }
  }

  lemma WalkNext(s: Sys, root: nat, l: nat, slot: nat, page: nat, count: nat, perms: bv12, v: nat)
    requires CanMapRange(s, root, l, slot, count, perms) && v < VPAGES && count > 0
    requires match MapRange(s, root, l, slot, page, count - 1, perms)
      case None => true
      case Some(s1) => Walk(s1.mem, root, v) == MappedAt(s.mem, root, l, slot, page, count - 1, perms, v)
    ensures match MapRange(s, root, l, slot, page, count, perms)
      case None => true
      case Some(s') => Walk(s'.mem, root, v) == MappedAt(s.mem, root, l, slot, page, count, perms, v)
  {
    hide Inv, Maps, CanMap, MapOne, Walk, PathFlags, Leaf;
    var x, p := slot + (count - 1), PageAt(l, page, count - 1);
    MapRangeMaps(s, root, l, slot, page, count - 1, perms);
    match MapRange(s, root, l, slot, page, count - 1, perms)
    case None =>
    case Some(s1) =>
      MapStep(s, s1, root, l, slot, x, p, perms, count);
      MapOneWalk(s1, root, l, x, p, perms, v);
      FlagsAgree(s, s1, root, l, perms, l, x / 512);
  }
}
