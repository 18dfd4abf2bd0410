/** Access rights over whole runs (Intel SDM volume 3A, section 4.6: a right is granted only
    if every level of the walk grants it). */
module Rights {
  import opened Wrappers
  import opened Paging
  import opened Tables
  import opened Mapping
  import opened Editing
  import opened PagingRuns
  import AddressSpace

  predicate Grants(e: Word, flag: bv12) { Has(e.low, PRESENT) ==> Has(e.low, flag) }

  /** Every present entry of every level carries the flag. */
  ghost predicate AllGrant(m: Memory, root: nat, flag: bv12) {
    forall l: nat, t: nat :: Grants(Slot(m, root, l, t), flag)
  }

  lemma NewTableGrants(e: Word, perms: bv12, flag: bv12)
    requires Has(perms, flag) && NewTable(e, perms)
    ensures Grants(e, flag)
  {
    OrKeeps(perms, PRESENT, flag);
  }

  lemma LeafHasFlag(l: nat, page: nat, perms: bv12, flag: bv12)
    requires Has(perms, flag)
    ensures Grants(Leaf(l, page, perms), flag)
  {
    hide Has;
    OrKeeps(perms, PRESENT, flag);
    OrKeeps(perms | PRESENT, LARGE, flag);
  }

  lemma OrKeeps(perms: bv12, more: bv12, flag: bv12)
    requires Has(perms, flag)
    ensures Has(perms | more, flag)
  {
  }

  lemma ZeroGrants(flag: bv12)
    ensures Grants(ZERO, flag)
  {
  }

  lemma LeafGrants(m: Memory, root: nat, l: nat, slot: nat, w: Word, flag: bv12)
    requires CanWriteLeaf(m, root, l, slot, w) && AllGrant(m, root, flag) && Grants(w, flag)
    ensures AllGrant(SetCell(m, Tab(m, root, l, slot / 512).value, slot % 512, w), root, flag)
  {
    hide SetCell, Tab, Grants;
    var m' := SetCell(m, Tab(m, root, l, slot / 512).value, slot % 512, w);
    ZeroGrants(flag);
    forall j: nat, t: nat ensures Grants(Slot(m', root, j, t), flag) {
      assert Grants(Slot(m, root, j, t), flag);
      LeafSlot(m, root, l, slot, w, j, t);
    }
  }

  lemma LeafCanBeWritten(l: nat, page: nat, perms: bv12)
    ensures l == 2 ==> Has(Leaf(l, page, perms).low, PRESENT) && Has(Leaf(l, page, perms).low, LARGE)
  {
  }

  lemma MapOneGrants(s: Sys, root: nat, l: nat, slot: nat, page: nat, perms: bv12, flag: bv12)
    requires CanMap(s, root, l, slot, perms) && AllGrant(s.mem, root, flag) && Has(perms, flag)
    ensures match MapOne(s, root, l, slot, page, perms)
      case None => true
      case Some(s') => AllGrant(s'.mem, root, flag)
  {
    hide Tree, Tab, Slot, Descend, SetCell, Grants, NewTable, Leaf;
    DescendGrows(s, root, l, slot / 512, perms);
    var (s1, r1) := Descend(s, root, l, slot / 512, perms);
    forall j: nat, t: nat ensures Grants(Slot(s1.mem, root, j, t), flag) {
      assert SlotGrows(s, s1, root, j, t, perms) && Grants(Slot(s.mem, root, j, t), flag);
      if NewTable(Slot(s1.mem, root, j, t), perms) {
        NewTableGrants(Slot(s1.mem, root, j, t), perms, flag);
      }
    }
    if r1.Some? {
      LeafHasFlag(l, page, perms, flag);
      LeafCanBeWritten(l, page, perms);
      LeafGrants(s1.mem, root, l, slot, Leaf(l, page, perms), flag);
    }
  }

  lemma {:induction false} MapRangeGrants(s: Sys, root: nat, l: nat, slot: nat, page: nat, count: nat, perms: bv12,
          flag: bv12)
    requires CanMapRange(s, root, l, slot, count, perms) && AllGrant(s.mem, root, flag) && Has(perms, flag)
    ensures match MapRange(s, root, l, slot, page, count, perms)
      case None => true
      case Some(s') => AllGrant(s'.mem, root, flag)
  {
    hide Inv, Maps, CanMap, MapOne, AllGrant;
    if count > 0 {
      var x, p := slot + (count - 1), PageAt(l, page, count - 1);
      MapRangeGrants(s, root, l, slot, page, count - 1, perms, flag);
      MapRangeMaps(s, root, l, slot, page, count - 1, perms);
      match MapRange(s, root, l, slot, page, count - 1, perms)
      case None =>
      case Some(s1) =>
        MapStep(s, s1, root, l, slot, x, p, perms, count);
        MapOneGrants(s1, root, l, x, p, perms, flag);
    }
  }

  predicate EditGrants(edit: Edit, flag: bv12) { edit.SetPerms? ==> Has(edit.perms, flag) }

  lemma EditOneGrants(s: Sys, root: nat, l: nat, slot: nat, edit: Edit, flag: bv12)
    requires Inv(s, root) && 1 <= l <= 2 && slot < Slots(l) && SmallPath(s.mem, root, l, slot)
    requires AllGrant(s.mem, root, flag) && EditGrants(edit, flag)
    ensures var r := EditOne(s.mem, root, l, slot, edit);
      r.Done? ==> AllGrant(r.mem, root, flag)
  {
    hide AllGrant, Grants;
    ZeroGrants(flag);
    SlotsAreInside(l, slot);
    FindIsTab(s.mem, root, l, slot / 512);
    if Tab(s.mem, root, l, slot / 512).Some? {
      if edit.SetPerms? {
        LeafHasFlag(l, Slot(s.mem, root, l, slot).page, edit.perms, flag);
      }
      LeafGrants(s.mem, root, l, slot, Edited(edit, l, Slot(s.mem, root, l, slot)), flag);
    }
  }

  lemma {:induction false} EditRangeGrants(s: Sys, root: nat, l: nat, slot: nat, count: nat, edit: Edit, flag: bv12)
    requires CanEditRange(s, root, l, slot, count) && AllGrant(s.mem, root, flag) && EditGrants(edit, flag)
    ensures var r := EditRange(s.mem, root, l, slot, count, edit);
      !r.Crashed? ==> AllGrant(r.mem, root, flag)
  {
    hide Inv, Edits, EditOne, Slot, Tab, AllGrant;
    if count > 0 {
      EditRangeGrants(s, root, l, slot, count - 1, edit, flag);
      EditRangeEdits(s, root, l, slot, count - 1, edit);
      var x := slot + (count - 1);
      match EditRange(s.mem, root, l, slot, count - 1, edit)
      case Done(m1) =>
        var s1 := Sys(m1, s.frames);
        EditNext(s, s1, root, l, slot, count, x);
        EditOneEdits(s1, root, l, x, edit);
        EditOneGrants(s1, root, l, x, edit, flag);
      case _ =>
    }
  }

  predicate OpGrants(op: Op, flag: bv12) {
    match op
    case Map(_, _, _, _, perms) => Has(perms, flag)
    case Change(_, _, _, edit) => EditGrants(edit, flag)
    case _ => true
  }

  lemma StepGrants(a: Machine, root: nat, op: Op, flag: bv12)
    requires AllGrant(a.sys.mem, root, flag) && OpGrants(op, flag)
    ensures match Step(a, root, op)
      case None => true
      case Some(b) => AllGrant(b.sys.mem, root, flag)
  {
    hide CanMapRange, CanEditRange, MapRange, EditRange, AllGrant;
    match op
    case Map(l, slot, page, count, perms) =>
      if CanMapRange(a.sys, root, l, slot, count, perms) {
        MapRangeGrants(a.sys, root, l, slot, page, count, perms, flag);
      }
    case Change(l, slot, count, edit) =>
      if CanEditRange(a.sys, root, l, slot, count) {
        EditRangeGrants(a.sys, root, l, slot, count, edit, flag);
      }
    case _ =>
  }

  lemma {:induction false} StepsGrant(a: Machine, root: nat, ops: seq<Op>, flag: bv12)
    requires AllGrant(a.sys.mem, root, flag) && forall op :: op in ops ==> OpGrants(op, flag)
    ensures match Steps(a, root, ops)
      case None => true
      case Some(b) => AllGrant(b.sys.mem, root, flag)
    decreases |ops|
  {
    hide AllGrant, Step;
    if ops != [] {
      StepGrants(a, root, ops[0], flag);
      match Step(a, root, ops[0])
      case None =>
      case Some(b) => StepsGrant(b, root, ops[1..], flag);
    }
  }

  /** If every mapping and permission call of a run from a zeroed PML4 carries WRITE (or USER),
      then every translation there ever is grants it. */
  lemma WalksKeepRights(a: Machine, root: nat, ops: seq<Op>, flag: bv12, v: nat)
    requires forall i: nat :: Cell(a.sys.mem, root, i) == ZERO
    requires flag == WRITE || flag == USER
    requires forall op :: op in ops ==> OpGrants(op, flag)
    ensures match Steps(a, root, ops)
      case None => true
      case Some(b) =>
        var t := Walk(b.sys.mem, root, v);
        t.Mapped? ==> Has(t.rights, flag) && t.rights & t.leaf.low == t.rights
  {
    hide Steps, Slot;
    forall l: nat, t: nat ensures Grants(Slot(a.sys.mem, root, l, t), flag) {
      AddressSpace.EmptySlots(a.sys.mem, root, l, t);
    }
    StepsGrant(a, root, ops, flag);
    match Steps(a, root, ops)
    case None =>
    case Some(b) =>
      var m := b.sys.mem;
      assert Grants(Slot(m, root, 4, v / 512 / 512 / 512), flag) && Grants(Slot(m, root, 3, v / 512 / 512), flag)
          && Grants(Slot(m, root, 2, v / 512), flag) && Grants(Slot(m, root, 1, v), flag);
  }
}
