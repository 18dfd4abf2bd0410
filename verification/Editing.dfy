/** `unmap_pages`, `update_perms` and their huge-page variants on values: each walks down
    without making tables and rewrites one entry per step. */
module Editing {
  import opened Wrappers
  import opened Paging
  import opened Tables
  import opened Mapping
  import FrameBudget

  datatype Edit = Clear | SetPerms(perms: bv12)

  function Edited(edit: Edit, l: nat, e: Word): Word {
    match edit
    case Clear => ZERO
    case SetPerms(perms) => Leaf(l, e.page, perms)
  }

  /** Stopped is the source's `return false`; Crashed is the null table that the huge-page
      variants run into when only the page directory is missing. */
  datatype Outcome = Done(mem: Memory) | Stopped(mem: Memory) | Crashed

  /** The frame of table k of level l, found the way `get_or_null_ent` does: by the address
      field of the entries alone. */
  function Find(m: Memory, root: nat, l: nat, k: nat): Option<nat>
    decreases 4 - l
  {
    if l >= 4 then Some(root)
    else
      match Find(m, root, l + 1, k / 512)
      case None => None
      case Some(t) => if Cell(m, t, k % 512).page != 0 then Some(Cell(m, t, k % 512).page) else None
  }

  function EditOne(m: Memory, root: nat, l: nat, slot: nat, edit: Edit): Outcome {
    match Find(m, root, l, slot / 512)
    case None => if l == 2 && Find(m, root, 3, slot / 512 / 512).Some? then Crashed else Stopped(m)
    case Some(f) => Done(SetCell(m, f, slot % 512, Edited(edit, l, Cell(m, f, slot % 512))))
  }

  function EditRange(m: Memory, root: nat, l: nat, slot: nat, count: nat, edit: Edit): Outcome {
    if count == 0 then Done(m)
    else
      match EditRange(m, root, l, slot, count - 1, edit)
      case Done(m1) => EditOne(m1, root, l, slot + (count - 1), edit)
      case other => other
  }

  /** Without large pages on the way, software and hardware find the same tables. */
  lemma {:induction false} FindIsTab(m: Memory, root: nat, l: nat, k: nat)
    requires Tree(m, root) && 1 <= l <= 4 && Up(l, k, 4) == 0 && NoLarge(m, root, l, k)
    ensures Find(m, root, l, k) == Tab(m, root, l, k)
    decreases 4 - l
  {
    if l < 4 {
      FindIsTab(m, root, l + 1, k / 512);
      assert Shape(Slot(m, root, l + 1, k), l + 1);
    }
  }

  /** What rewriting leaves of level l leaves alone. */
  ghost predicate Edits(s: Sys, s': Sys, root: nat, l: nat) {
    && s'.frames == s.frames && |s'.mem| == |s.mem|
    && (forall j: nat, k: nat :: TabEdits(s, s', root, l, j, k))
    && (forall j: nat, t: nat :: l < j ==> Slot(s'.mem, root, j, t) == Slot(s.mem, root, j, t))
    && DataKept(s, s', root)
  }

  /** Among the slots of level l, just the given one is rewritten. */
  ghost predicate SlotSet(m: Memory, m': Memory, root: nat, l: nat, slot: nat, w: Word) {
    forall x: nat :: Slot(m', root, l, x) == if x == slot then w else Slot(m, root, l, x)
  }

  predicate TabEdits(s: Sys, s': Sys, root: nat, l: nat, j: nat, k: nat) {
    Tab(s'.mem, root, j, k) == Tab(s.mem, root, j, k) || (j < l && Tab(s'.mem, root, j, k) == None)
  }

  lemma EditsIsTransitive(s: Sys, s1: Sys, s2: Sys, root: nat, l: nat)
    requires Edits(s, s1, root, l) && Edits(s1, s2, root, l)
    ensures Edits(s, s2, root, l)
  {
    forall j: nat, k: nat ensures TabEdits(s, s2, root, l, j, k) {
      assert TabEdits(s, s1, root, l, j, k) && TabEdits(s1, s2, root, l, j, k);
    }
    forall f: nat | NotTable(s.mem, root, f) ensures NotTable(s1.mem, root, f) {
      assert forall j: nat, k: nat :: Tab(s1.mem, root, j, k) == Some(f) ==> TabEdits(s, s1, root, l, j, k);
    }
  }

  lemma {:induction false} EditsKeepFlags(s: Sys, s': Sys, root: nat, l: nat, j: nat, k: nat)
    requires Edits(s, s', root, l) && l <= j
    ensures PathFlags(s'.mem, root, j, k) == PathFlags(s.mem, root, j, k)
    decreases 4 - j
  {
    if j < 4 {
      EditsKeepFlags(s, s', root, l, j + 1, k / 512);
    }
  }

  ghost predicate CanEditRange(s: Sys, root: nat, l: nat, slot: nat, count: nat) {
    && Inv(s, root) && 1 <= l <= 2 && slot + count <= Slots(l)
    && forall x :: slot <= x < slot + count ==> SmallPath(s.mem, root, l, x)
  }

  /** One step finds its table if and only if the hardware would, and then changes the
      translation of the pages behind its own slot only. */
  lemma EditOneEdits(s: Sys, root: nat, l: nat, slot: nat, edit: Edit)
    requires Inv(s, root) && 1 <= l <= 2 && slot < Slots(l) && SmallPath(s.mem, root, l, slot)
    ensures var r := EditOne(s.mem, root, l, slot, edit);
      && (Tab(s.mem, root, l, slot / 512) == None ==>
            r == if l == 2 && Tab(s.mem, root, 3, slot / 512 / 512).Some? then Crashed else Stopped(s.mem))
      && (Tab(s.mem, root, l, slot / 512).Some? ==>
            && r.Done?
            && Inv(Sys(r.mem, s.frames), root) && Edits(s, Sys(r.mem, s.frames), root, l)
            && SlotSet(s.mem, r.mem, root, l, slot, Edited(edit, l, Slot(s.mem, root, l, slot))))
  {
    SlotsAreInside(l, slot);
    FindIsTab(s.mem, root, l, slot / 512);
    if l == 2 {
      FindIsTab(s.mem, root, 3, slot / 512 / 512);
    }
    if Tab(s.mem, root, l, slot / 512).Some? {
      var w := Edited(edit, l, Slot(s.mem, root, l, slot));
      assert CanWriteLeaf(s.mem, root, l, slot, w);
      LeafKeepsInv(s, root, l, slot, w);
      LeafEdits(s, root, l, slot, w);
    }
  }

  lemma LeafEdits(s: Sys, root: nat, l: nat, slot: nat, w: Word)
    requires CanWriteLeaf(s.mem, root, l, slot, w)
    ensures var s' := Sys(SetCell(s.mem, Tab(s.mem, root, l, slot / 512).value, slot % 512, w), s.frames);
      && Edits(s, s', root, l)
      && SlotSet(s.mem, s'.mem, root, l, slot, w)
  {
    var f := Tab(s.mem, root, l, slot / 512).value;
    var s' := Sys(SetCell(s.mem, f, slot % 512, w), s.frames);
    forall j: nat, k: nat
      ensures TabEdits(s, s', root, l, j, k)
      ensures l < j ==> Slot(s'.mem, root, j, k) == Slot(s.mem, root, j, k)
    {
      LeafSlot(s.mem, root, l, slot, w, j, k);
    }
    forall x: nat
      ensures Slot(s'.mem, root, l, x) == if x == slot then w else Slot(s.mem, root, l, x)
    {
      LeafSlot(s.mem, root, l, slot, w, l, x);
    }
    assert !NotTable(s.mem, root, f);
    CellOfSetCell(s.mem, f, slot % 512, w);
  }

  /** The translation through a leaf of level l below tables that grant the given flags. */
  function LeafWalk(w: Word, l: nat, flags: bv12): Translation {
    if Has(w.low, PRESENT) then MappedBy(w, l, flags & w.low & RIGHTS) else Fault
  }

  lemma WalkFindsNothing(m: Memory, root: nat, l: nat, v: nat)
    requires 1 <= l <= 2 && Slot(m, root, l, Up(1, v, l)) == ZERO && SmallPath(m, root, l, Up(1, v, l))
    requires Tab(m, root, l, Up(1, v, l) / 512).Some?
    ensures Walk(m, root, v) == Fault
  {
    assert Tab(m, root, 2, v / 512 / 512).Some? by {
      if l == 1 {
        assert Tab(m, root, 1, v / 512).Some?;
      }
    }
    assert Tab(m, root, 3, v / 512 / 512 / 512).Some?;
  }

  lemma EditOneWalk(s: Sys, root: nat, l: nat, slot: nat, edit: Edit, v: nat)
    requires Inv(s, root) && 1 <= l <= 2 && slot < Slots(l) && SmallPath(s.mem, root, l, slot) && v < VPAGES
    ensures var r := EditOne(s.mem, root, l, slot, edit);
      && (r.Done? && Up(1, v, l) != slot ==> Walk(r.mem, root, v) == Walk(s.mem, root, v))
      && (r.Done? && Up(1, v, l) == slot ==>
            Walk(r.mem, root, v) ==
              LeafWalk(Edited(edit, l, Slot(s.mem, root, l, slot)), l, PathFlags(s.mem, root, l, slot / 512)))
  {
    hide Inv, Edits, EditOne, Walk, Slot, Tab, PathFlags;
    EditOneEdits(s, root, l, slot, edit);
    match EditOne(s.mem, root, l, slot, edit)
    case Done(m') =>
      if Up(1, v, l) != slot {
        EditOneKeepsWalk(s, root, l, slot, edit, v);
      } else {
        EditedLeafWalk(s, m', root, l, edit, v);
      }
    case _ =>
  }

  lemma EditOneKeepsWalk(s: Sys, root: nat, l: nat, slot: nat, edit: Edit, v: nat)
    requires Inv(s, root) && 1 <= l <= 2 && slot < Slots(l) && SmallPath(s.mem, root, l, slot)
    requires Up(1, v, l) != slot
    ensures var r := EditOne(s.mem, root, l, slot, edit);
      r.Done? ==> Walk(r.mem, root, v) == Walk(s.mem, root, v)
  {
    hide Walk;
    SlotsAreInside(l, slot);
    FindIsTab(s.mem, root, l, slot / 512);
    if Tab(s.mem, root, l, slot / 512).Some? {
      LeafKeepsWalk(s.mem, root, l, slot, Edited(edit, l, Slot(s.mem, root, l, slot)), v);
    }
  }

  lemma EditedLeafWalk(s: Sys, m': Memory, root: nat, l: nat, edit: Edit, v: nat)
    requires 1 <= l <= 2 && v < VPAGES && Edits(s, Sys(m', s.frames), root, l)
    requires var slot := Up(1, v, l);
      SmallPath(s.mem, root, l, slot) && Tab(s.mem, root, l, slot / 512).Some? &&
      Slot(m', root, l, slot) == Edited(edit, l, Slot(s.mem, root, l, slot))
    ensures var slot := Up(1, v, l);
      Walk(m', root, v) ==
        LeafWalk(Edited(edit, l, Slot(s.mem, root, l, slot)), l, PathFlags(s.mem, root, l, slot / 512))
  {
    hide Walk, Tab, Slot, PathFlags;
    var s', slot := Sys(m', s.frames), Up(1, v, l);
    assert TabEdits(s, s', root, l, l, slot / 512);
    EditsKeepFlags(s, s', root, l, l, slot / 512);
    if edit.Clear? {
      WalkFindsNothing(m', root, l, v);
    } else {
      WalkFindsLeaf(m', root, l, v);
    }
  }

  lemma NoEdit(s: Sys, root: nat, l: nat)
    ensures Edits(s, s, root, l)
  {
  }

  lemma EditNext(s: Sys, s1: Sys, root: nat, l: nat, slot: nat, count: nat, x: nat)
    requires CanEditRange(s, root, l, slot, count) && Edits(s, s1, root, l) && slot <= x < slot + count
    ensures SmallPath(s1.mem, root, l, x) && Tab(s1.mem, root, l, x / 512) == Tab(s.mem, root, l, x / 512)
    ensures Tab(s1.mem, root, 3, x / 512 / 512) == Tab(s.mem, root, 3, x / 512 / 512)
  {
    hide Inv, Slot, Tab;
    assert SmallPath(s.mem, root, l, x);
    assert TabEdits(s, s1, root, l, l, x / 512) && TabEdits(s, s1, root, l, 3, x / 512 / 512);
  }

  ghost predicate SlotsEdited(m: Memory, m': Memory, root: nat, l: nat, slot: nat, count: nat, edit: Edit) {
    forall x: nat :: Slot(m', root, l, x) ==
      if slot <= x < slot + count then Edited(edit, l, Slot(m, root, l, x)) else Slot(m, root, l, x)
  }

  predicate TableBehind(m: Memory, root: nat, l: nat, x: nat) { Tab(m, root, l, x / 512).Some? }

  /** A call finishes if and only if every slot of its range has a table, and has then
      rewritten exactly the range. */
  lemma {:induction false} EditRangeEdits(s: Sys, root: nat, l: nat, slot: nat, count: nat, edit: Edit)
    requires CanEditRange(s, root, l, slot, count)
    ensures var r := EditRange(s.mem, root, l, slot, count, edit);
      && (r.Done? <==> forall x :: slot <= x < slot + count ==> TableBehind(s.mem, root, l, x))
      && (r.Done? ==> Inv(Sys(r.mem, s.frames), root) && Edits(s, Sys(r.mem, s.frames), root, l)
                      && SlotsEdited(s.mem, r.mem, root, l, slot, count, edit))
  {
    hide Inv, Edits, EditOne, Slot, Tab;
    if count > 0 {
      EditRangeEdits(s, root, l, slot, count - 1, edit);
      var x := slot + (count - 1);
      match EditRange(s.mem, root, l, slot, count - 1, edit)
      case Done(m1) =>
        var s1 := Sys(m1, s.frames);
        EditNext(s, s1, root, l, slot, count, x);
        EditOneEdits(s1, root, l, x, edit);
        if TableBehind(s.mem, root, l, x) {
          var m' := EditOne(m1, root, l, x, edit).mem;
          EditsIsTransitive(s, s1, Sys(m', s.frames), root, l);
        }
      case _ =>
    } else {
      NoEdit(s, root, l);
    }
  }

  /** The translation that a finished call must leave for page v. */
  function EditedAt(m: Memory, root: nat, l: nat, slot: nat, count: nat, edit: Edit, v: nat): Translation {
    if 1 <= l && slot <= Up(1, v, l) < slot + count then
      LeafWalk(Edited(edit, l, Slot(m, root, l, Up(1, v, l))), l, PathFlags(m, root, l, Up(1, v, l) / 512))
    else Walk(m, root, v)
  }

  lemma {:induction false} EditRangeWalk(s: Sys, root: nat, l: nat, slot: nat, count: nat, edit: Edit, v: nat)
    requires CanEditRange(s, root, l, slot, count) && v < VPAGES
    ensures var r := EditRange(s.mem, root, l, slot, count, edit);
      r.Done? ==> Walk(r.mem, root, v) == EditedAt(s.mem, root, l, slot, count, edit, v)
  {
    hide Inv, Edits, EditOne, Slot, Tab, Walk, PathFlags;
    if count > 0 {
      EditRangeWalk(s, root, l, slot, count - 1, edit, v);
      EditRangeEdits(s, root, l, slot, count - 1, edit);
      var x := slot + (count - 1);
      match EditRange(s.mem, root, l, slot, count - 1, edit)
      case Done(m1) =>
        var s1 := Sys(m1, s.frames);
        EditNext(s, s1, root, l, slot, count, x);
        EditOneWalk(s1, root, l, x, edit, v);
        EditsKeepFlags(s, s1, root, l, l, x / 512);
      case _ =>
    }
  }

  /** A call that stops has finished exactly the slots before the first one without a table. */
  lemma {:induction false} StoppedAt(s: Sys, root: nat, l: nat, slot: nat, count: nat, edit: Edit) returns (n: nat)
    requires CanEditRange(s, root, l, slot, count) && !EditRange(s.mem, root, l, slot, count, edit).Done?
    ensures n < count && !TableBehind(s.mem, root, l, slot + n)
    ensures forall x :: slot <= x < slot + n ==> TableBehind(s.mem, root, l, x)
    ensures EditRange(s.mem, root, l, slot, n, edit).Done?
    ensures EditRange(s.mem, root, l, slot, count, edit) ==
      if l == 2 && Tab(s.mem, root, 3, (slot + n) / 512 / 512).Some? then Crashed
      else Stopped(EditRange(s.mem, root, l, slot, n, edit).mem)
  {
    hide Inv, Edits, EditOne, Slot, Tab;
    if EditRange(s.mem, root, l, slot, count - 1, edit).Done? {
      n := count - 1;
      var s1 := Sys(EditRange(s.mem, root, l, slot, n, edit).mem, s.frames);
      EditRangeEdits(s, root, l, slot, n, edit);
      EditRangeEdits(s, root, l, slot, count, edit);
      EditNext(s, s1, root, l, slot, count, slot + n);
      EditOneEdits(s1, root, l, slot + n, edit);
    } else {
      n := StoppedAt(s, root, l, slot, count - 1, edit);
    }
  }

  /** The n-th slot of the range is the first one without a table, and the table above that is there. */
  predicate HoleAt(m: Memory, root: nat, l: nat, slot: nat, n: nat) {
    && l == 2 && !TableBehind(m, root, l, slot + n) && Tab(m, root, 3, (slot + n) / 512 / 512).Some?
    && forall x :: slot <= x < slot + n ==> TableBehind(m, root, l, x)
  }

  /** A call runs through a null table if and only if its range has such a slot. */
  lemma CrashesIff(s: Sys, root: nat, l: nat, slot: nat, count: nat, edit: Edit)
    requires CanEditRange(s, root, l, slot, count)
    ensures EditRange(s.mem, root, l, slot, count, edit) == Crashed <==>
      exists n: nat :: n < count && HoleAt(s.mem, root, l, slot, n)
  {
    hide Inv, Edits, EditRange, SlotsEdited, Tab, SmallPath;
    EditRangeEdits(s, root, l, slot, count, edit);
    var r := EditRange(s.mem, root, l, slot, count, edit);
    if r.Done? {
      forall k: nat | k < count ensures !HoleAt(s.mem, root, l, slot, k) {
        assert TableBehind(s.mem, root, l, slot + k);
      }
    } else {
      var n := StoppedAt(s, root, l, slot, count, edit);
      assert r == Crashed <==> HoleAt(s.mem, root, l, slot, n);
      forall k: nat | k < count && k != n ensures !HoleAt(s.mem, root, l, slot, k) {
        assert slot + n < slot + count;
        if k < n {
          assert TableBehind(s.mem, root, l, slot + k);
        }
      }
    }
  }

  /** Mapping a range and unmapping it again leaves its pages unmapped and every other
      translation as it was, whatever tables the mapping made. */
  lemma MapThenUnmap(s: Sys, root: nat, l: nat, slot: nat, page: nat, count: nat, perms: bv12, v: nat)
    requires CanMapRange(s, root, l, slot, count, perms) && v < VPAGES
    ensures match MapRange(s, root, l, slot, page, count, perms)
      case None => true
      case Some(s1) =>
        var r := EditRange(s1.mem, root, l, slot, count, Clear);
        r.Done? && Walk(r.mem, root, v) == if InRange(l, slot, count, v) then Fault else Walk(s.mem, root, v)
  {
    hide Inv, Maps, MapRange, EditRange, Slot, Tab, Walk, PathFlags;
    match MapRange(s, root, l, slot, page, count, perms)
    case None =>
    case Some(s1) =>
      MapRangeMaps(s, root, l, slot, page, count, perms);
      CanMapAgain(s, s1, root, l, slot, count, perms);
      forall x | slot <= x < slot + count
        ensures TableBehind(s1.mem, root, l, x)
      {
        FrameBudget.MapRangeTabs(s, root, l, slot, page, count, perms, l, x / 512);
      }
      EditRangeEdits(s1, root, l, slot, count, Clear);
      EditRangeWalk(s1, root, l, slot, count, Clear, v);
      MapRangeWalk(s, root, l, slot, page, count, perms, v);
  }
}
