/** Growing the page tables: `get_or_alloc_ent` and the descent that `map_pages` and
    `map_huge_pages` share, on values. */
module Tables {
  import opened Wrappers
  import opened Paging
  import opened Frames

  /** Physical memory together with the allocator that hands out its frames. */
  datatype Sys = Sys(mem: Memory, frames: Bitmap)

  /** The next table under entry off of the table in frame tab, made when there is none.
      None where the source returns a null pointer. */
  function GetOrAlloc(s: Sys, tab: nat, off: nat, flags: bv12): (Sys, Option<nat>) {
    var e := Cell(s.mem, tab, off);
    if e.page != 0 then (s, Some(e.page))
    else
      match Alloc(s.frames, 1, 1, 0)
      case (frames', None) => (Sys(SetCell(s.mem, tab, off, ZERO), frames'), None)
      case (frames', Some(c)) => (Sys(LinkTable(s.mem, tab, off, c, flags), frames'), Some(c))
  }

  /** The frame of table k of level l, with every missing table on the way made. */
  function Descend(s: Sys, root: nat, l: nat, k: nat, flags: bv12): (Sys, Option<nat>)
    decreases 4 - l
  {
    if l >= 4 then (s, Some(root))
    else
      match Descend(s, root, l + 1, k / 512, flags)
      case (s1, None) => (s1, None)
      case (s1, Some(t)) => GetOrAlloc(s1, t, k % 512, flags)
  }

  ghost predicate Inv(s: Sys, root: nat) {
    && s.frames.len <= |s.frames.used| && s.frames.len <= PAGE_LIMIT && 512 * s.frames.len <= |s.mem|
    && Tree(s.mem, root)
    && forall l, k :: Tab(s.mem, root, l, k).Some? ==> Reserved(s.frames, Tab(s.mem, root, l, k).value)
  }

  /** The allocator will not hand out frame f. */
  predicate Reserved(b: Bitmap, f: nat) { f < |b.used| ==> b.used[f] }

  predicate NewTable(e: Word, flags: bv12) { IsTable(e) && e.low == flags | PRESENT && !e.high }

  /** s' has all the tables of s and perhaps more, all of them new, made from free frames and
      carrying the given flags; frames in use as data are untouched. */
  ghost predicate Grows(s: Sys, s': Sys, root: nat, flags: bv12) {
    && s'.frames.len == s.frames.len && |s'.frames.used| == |s.frames.used| && s'.frames.total == s.frames.total
    && |s'.mem| == |s.mem|
    && (forall f: nat :: Reserved(s.frames, f) ==> Reserved(s'.frames, f))
    && (forall l, k :: TabGrows(s, s', root, l, k))
    && (forall l, t :: SlotGrows(s, s', root, l, t, flags))
    && DataKept(s, s', root)
  }

  predicate TabGrows(s: Sys, s': Sys, root: nat, l: nat, k: nat) {
    || Tab(s'.mem, root, l, k) == Tab(s.mem, root, l, k)
    || (Tab(s.mem, root, l, k) == None && !Reserved(s.frames, Tab(s'.mem, root, l, k).value))
  }

  predicate SlotGrows(s: Sys, s': Sys, root: nat, l: nat, t: nat, flags: bv12) {
    || Slot(s'.mem, root, l, t) == Slot(s.mem, root, l, t)
    || (2 <= l && Slot(s.mem, root, l, t) == ZERO && NewTable(Slot(s'.mem, root, l, t), flags))
  }

  ghost predicate DataKept(s: Sys, s': Sys, root: nat) {
    forall f: nat, i: nat :: Reserved(s.frames, f) && NotTable(s.mem, root, f) ==>
      Cell(s'.mem, f, i) == Cell(s.mem, f, i)
  }

  lemma GrowsIsTransitive(s: Sys, s1: Sys, s2: Sys, root: nat, flags: bv12)
    requires Grows(s, s1, root, flags) && Grows(s1, s2, root, flags)
    ensures Grows(s, s2, root, flags)
  {
    forall l: nat, k: nat
      ensures TabGrows(s, s2, root, l, k) && SlotGrows(s, s2, root, l, k, flags)
    {
      assert TabGrows(s, s1, root, l, k) && TabGrows(s1, s2, root, l, k);
      assert SlotGrows(s, s1, root, l, k, flags) && SlotGrows(s1, s2, root, l, k, flags);
    }
    forall f: nat | Reserved(s.frames, f) && NotTable(s.mem, root, f)
      ensures NotTable(s1.mem, root, f)
    {
      assert forall l: nat, k: nat :: Tab(s1.mem, root, l, k) == Some(f) ==> TabGrows(s, s1, root, l, k);
    }
  }

  lemma LinkGrows(s: Sys, root: nat, l: nat, x: nat, c: nat, frames': Bitmap, flags: bv12)
    requires Inv(s, root) && CanLink(s.mem, root, l, x, c, flags)
    requires c < s.frames.len && !s.frames.used[c]
    requires frames'.used == s.frames.used[c := true] && frames'.len == s.frames.len && frames'.total == s.frames.total
    ensures var s' := Sys(LinkTable(s.mem, Tab(s.mem, root, l, x / 512).value, x % 512, c, flags), frames');
      && Grows(s, s', root, flags)
      && (forall j: nat, y: nat ::
           Tab(s'.mem, root, j, y) == if (j, y) == (l - 1, x) then Some(c) else Tab(s.mem, root, j, y))
  {
    hide CanLink, Tree, Tab, Slot, LinkTable, IsTable, NewTable, DataKept;
    LinkIsNew(s, root, l, x, c, flags);
    var t := Tab(s.mem, root, l, x / 512).value;
    var s' := Sys(LinkTable(s.mem, t, x % 512, c, flags), frames');
    forall j: nat, y: nat
      ensures Tab(s'.mem, root, j, y) == (if (j, y) == (l - 1, x) then Some(c) else Tab(s.mem, root, j, y))
      ensures TabGrows(s, s', root, j, y) && SlotGrows(s, s', root, j, y, flags)
    {
      LinkSlot(s.mem, root, l, x, c, flags, j, y);
    }
    LinkKeepsData(s, root, l, x, c, frames', flags);
  }

  lemma LinkIsNew(s: Sys, root: nat, l: nat, x: nat, c: nat, flags: bv12)
    requires CanLink(s.mem, root, l, x, c, flags)
    ensures NewTable(Word(false, c, flags | PRESENT), flags)
    ensures Tab(s.mem, root, l - 1, x) == None && Slot(s.mem, root, l, x) == ZERO && 2 <= l
      && Tab(s.mem, root, l, x / 512).Some?
    ensures |LinkTable(s.mem, Tab(s.mem, root, l, x / 512).value, x % 512, c, flags)| == |s.mem|
  {
  }

  lemma LinkKeepsData(s: Sys, root: nat, l: nat, x: nat, c: nat, frames': Bitmap, flags: bv12)
    requires CanLink(s.mem, root, l, x, c, flags) && c < |s.frames.used| && !s.frames.used[c]
    ensures DataKept(s, Sys(LinkTable(s.mem, Tab(s.mem, root, l, x / 512).value, x % 512, c, flags), frames'), root)
  {
    var t := Tab(s.mem, root, l, x / 512).value;
    var w := Word(false, c, flags | PRESENT);
    CellOfSetCell(s.mem, t, x % 512, w);
    CellOfZeroFrame(SetCell(s.mem, t, x % 512, w), c);
    assert !NotTable(s.mem, root, t);
  }

  lemma GetOrAllocGrows(s: Sys, root: nat, l: nat, x: nat, flags: bv12)
    requires Inv(s, root) && 2 <= l <= 4 && Tab(s.mem, root, l, x / 512).Some?
    requires !Has(Slot(s.mem, root, l, x).low, LARGE) && !Has(flags, LARGE)
    ensures var (s', r) := GetOrAlloc(s, Tab(s.mem, root, l, x / 512).value, x % 512, flags);
      && Inv(s', root) && Grows(s, s', root, flags)
      && (forall j: nat, y: nat :: (j, y) != (l - 1, x) ==> Tab(s'.mem, root, j, y) == Tab(s.mem, root, j, y))
      && Tab(s'.mem, root, l - 1, x) == r
      && var need := if Tab(s.mem, root, l - 1, x) == None then 1 else 0;
         var had := Clear(s.frames.used, BASE, s.frames.len);
         && (r.Some? <==> need <= had)
         && Clear(s'.frames.used, BASE, s.frames.len) == if r.Some? then had - need else had
  {
    var t := Tab(s.mem, root, l, x / 512).value;
    var (s', r) := GetOrAlloc(s, t, x % 512, flags);
    var e := Slot(s.mem, root, l, x);
    assert e == Cell(s.mem, t, x % 512);
    assert Shape(e, l);
    AllocOne(s.frames);
    if e.page == 0 {
      if r == None {
        assert s'.mem == s.mem;
      } else {
        LinkGrows(s, root, l, x, r.value, s'.frames, flags);
        LinkKeepsTree(s.mem, root, l, x, r.value, flags);
      }
    }
  }

  /** Table t of level j is table k of level l or one of the tables above it. */
  predicate OnPath(l: nat, k: nat, j: nat, t: nat) { l <= j && t == Up(l, k, j) }

  /** How many tables are missing on the way down to table k of level l. */
  function Missing(m: Memory, root: nat, l: nat, k: nat): nat
    decreases 4 - l
  {
    if l >= 4 then 0
    else Missing(m, root, l + 1, k / 512) + if Tab(m, root, l, k) == None then 1 else 0
  }

  function ClearFrames(s: Sys): nat
    requires s.frames.len <= |s.frames.used|
  {
    Clear(s.frames.used, BASE, s.frames.len)
  }

  /** No 2 MiB page covers entry s of a level-l table. */
  predicate NoLarge(m: Memory, root: nat, l: nat, k: nat) { l == 1 ==> !Has(Slot(m, root, 2, k).low, LARGE) }

  lemma {:induction false} DescendGrows(s: Sys, root: nat, l: nat, k: nat, flags: bv12)
    requires Inv(s, root) && 1 <= l <= 4 && Up(l, k, 4) == 0 && NoLarge(s.mem, root, l, k) && !Has(flags, LARGE)
    ensures var (s', r) := Descend(s, root, l, k, flags);
      && Inv(s', root) && Grows(s, s', root, flags)
      && (r.Some? ==> Tab(s'.mem, root, l, k) == r)
      && (forall j: nat, t: nat :: !OnPath(l, k, j, t) ==> Tab(s'.mem, root, j, t) == Tab(s.mem, root, j, t))
      && (r.Some? <==> Missing(s.mem, root, l, k) <= ClearFrames(s))
      && (r.Some? ==> ClearFrames(s') == ClearFrames(s) - Missing(s.mem, root, l, k))
    decreases 4 - l
  {
    hide Inv, Grows, Tab, GetOrAlloc, NoLarge, Has, Frames.Clear;
    if l < 4 {
      NoLargeUp(s.mem, root, l, k);
      DescendGrows(s, root, l + 1, k / 512, flags);
      var (s1, r1) := Descend(s, root, l + 1, k / 512, flags);
      assert forall j: nat, t: nat :: OnPath(l + 1, k / 512, j, t) ==> OnPath(l, k, j, t);
      if r1.Some? {
        EntryStaysSmall(s, s1, root, l, k, flags);
        assert !OnPath(l + 1, k / 512, l, k);
        GetOrAllocGrows(s1, root, l + 1, k, flags);
        var (s', r) := GetOrAlloc(s1, r1.value, k % 512, flags);
        GrowsIsTransitive(s, s1, s', root, flags);
      }
    } else {
      TopTable(s, root, k, flags);
    }
  }

  lemma NoLargeUp(m: Memory, root: nat, l: nat, k: nat)
    requires 1 <= l
    ensures NoLarge(m, root, l + 1, k / 512)
  {
  }

  /** An entry on the path of 4 KiB pages is no 2 MiB page, and does not become one. */
  lemma EntryStaysSmall(s: Sys, s1: Sys, root: nat, l: nat, k: nat, flags: bv12)
    requires Inv(s1, root) && Grows(s, s1, root, flags) && 1 <= l < 4 && NoLarge(s.mem, root, l, k)
    ensures !Has(Slot(s1.mem, root, l + 1, k).low, LARGE)
  {
    assert SlotGrows(s, s1, root, l + 1, k, flags);
    assert Shape(Slot(s1.mem, root, l + 1, k), l + 1);
  }

  lemma TopTable(s: Sys, root: nat, k: nat, flags: bv12)
    requires k == 0
    ensures Tab(s.mem, root, 4, k) == Some(root) && Grows(s, s, root, flags)
  {
  }
}
