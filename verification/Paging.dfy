/** Physical memory as 64-bit words, the four-level page tables stored in it, and the
    hardware's own walk over them (Intel SDM volume 3A, sections 4.5 and 4.6). */
module Paging {

  import opened Wrappers

  /** A 64-bit word split at the bit positions the page tables use: bit 63, bits 12 to 62
      (what `address_mask` selects, as a page number) and bits 0 to 11. */
  datatype Word = Word(high: bool, page: nat, low: bv12)

  const ZERO: Word := Word(false, 0, 0)

  const PRESENT: bv12 := 0x001
  const WRITE: bv12 := 0x002
  const USER: bv12 := 0x004
  const LARGE: bv12 := 0x080

  predicate Has(flags: bv12, flag: bv12) { flags & flag == flag }

  /** Physical addresses have at most 52 bits, so page numbers have at most 40. */
  const PAGE_LIMIT: nat := 0x100_0000_0000

  type Memory = seq<Word>

  /** Entry i of the table stored in frame f. */
  function Cell(m: Memory, f: nat, i: nat): Word {
    if i < 512 && 512 * f + i < |m| then m[512 * f + i] else ZERO
  }

  function SetCell(m: Memory, f: nat, i: nat, w: Word): Memory {
    if i < 512 && 512 * f + i < |m| then m[512 * f + i := w] else m
  }

  function ZeroFrame(m: Memory, f: nat): Memory {
    seq(|m|, j requires 0 <= j < |m| => if 512 * f <= j < 512 * f + 512 then ZERO else m[j])
  }

  lemma CellOfSetCell(m: Memory, f: nat, i: nat, w: Word)
    requires i < 512 && 512 * f + i < |m|
    ensures Cell(SetCell(m, f, i, w), f, i) == w
    ensures forall g: nat, j: nat :: g != f || j != i ==> Cell(SetCell(m, f, i, w), g, j) == Cell(m, g, j)
  {
  }

  lemma CellOfZeroFrame(m: Memory, f: nat)
    ensures forall j: nat :: Cell(ZeroFrame(m, f), f, j) == ZERO
    ensures forall g: nat, j: nat :: g != f ==> Cell(ZeroFrame(m, f), g, j) == Cell(m, g, j)
  {
  }

  predicate IsTable(e: Word) { Has(e.low, PRESENT) && !Has(e.low, LARGE) }

  /** The frame of the k-th table of level l (the root has level 4), if the tables reach it. */
  function Tab(m: Memory, root: nat, l: nat, k: nat): Option<nat>
    decreases 5 - l, 0
  {
    if l == 0 || l > 4 then None
    else if l == 4 then (if k == 0 then Some(root) else None)
    else
      var e := Slot(m, root, l + 1, k);
      if IsTable(e) then Some(e.page) else None
  }

  /** The s-th entry of level l, counted over all tables of that level: the entry which
      governs the virtual pages v with v / 512^(l - 1) == s. Zero where no table is. */
  function Slot(m: Memory, root: nat, l: nat, s: nat): Word
    decreases 5 - l, 1
  {
    match Tab(m, root, l, s / 512)
    case None => ZERO
    case Some(f) => Cell(m, f, s % 512)
  }

  /** The level-j entry on the path down to entry t of level l. */
  function Up(l: nat, t: nat, j: nat): nat
    requires l <= j
    decreases j - l
  {
    if l == j then t else Up(l + 1, t / 512, j)
  }

  /** Page v lies behind one of the count slots of level l from the given one on. */
  predicate InRange(l: nat, slot: nat, count: nat, v: nat)
    requires 1 <= l
  {
    slot <= Up(1, v, l) < slot + count
  }

  /** Entry t of level j is entry s of level l or lies below it. */
  predicate Below(j: nat, t: nat, l: nat, s: nat) { j <= l && Up(j, t, l) == s }

  predicate Shape(e: Word, l: nat) {
    || e == ZERO
    || (IsTable(e) && 0 < e.page < PAGE_LIMIT)
    || (l == 2 && Has(e.low, PRESENT) && Has(e.low, LARGE))
  }

  /** No two ways down the tables end in the same frame. */
  ghost predicate Unshared(m: Memory, root: nat) {
    forall l, k, l', k' ::
      Tab(m, root, l, k).Some? && Tab(m, root, l, k) == Tab(m, root, l', k') ==> l == l' && k == k'
  }

  ghost predicate Tree(m: Memory, root: nat) {
    && 0 < root < PAGE_LIMIT
    && (forall l, k :: Tab(m, root, l, k).Some? ==> 512 * Tab(m, root, l, k).value + 512 <= |m|)
    && (forall l, s :: 2 <= l <= 4 ==> Shape(Slot(m, root, l, s), l))
    && Unshared(m, root)
  }

  /** f is not one of the tables. */
  ghost predicate NotTable(m: Memory, root: nat, f: nat) {
    forall l, k :: Tab(m, root, l, k) != Some(f)
  }

  /** Memory may change anywhere outside the tables. */
  lemma {:induction false} TabFrame(m: Memory, m': Memory, root: nat, l: nat, k: nat)
    requires forall f, i :: Cell(m, f, i) == Cell(m', f, i) || NotTable(m, root, f)
    ensures Tab(m', root, l, k) == Tab(m, root, l, k)
    ensures Slot(m', root, l, k) == Slot(m, root, l, k)
    decreases 5 - l
  {
    if l < 4 {
      TabFrame(m, m', root, l + 1, k);
      TabFrame(m, m', root, l + 1, k / 512);
    }
    if Tab(m, root, l, k / 512).Some? {
      var f := Tab(m, root, l, k / 512).value;
      assert !NotTable(m, root, f);
    }
  }

  /** Writing one table entry changes nothing above it or beside it. */
  lemma {:induction false} TabBeside(m: Memory, m': Memory, root: nat, l: nat, s: nat, f: nat, j: nat, t: nat)
    requires Unshared(m, root) && Tab(m, root, l, s / 512) == Some(f)
    requires forall g, i :: Cell(m, g, i) == Cell(m', g, i) || (g == f && i == s % 512) || NotTable(m, root, g)
    ensures !Below(j + 1, t, l, s) ==> Tab(m', root, j, t) == Tab(m, root, j, t)
    ensures !Below(j, t, l, s) ==> Slot(m', root, j, t) == Slot(m, root, j, t)
    decreases 5 - j
  {
    if j < 4 {
      TabBeside(m, m', root, l, s, f, j + 1, t);
      TabBeside(m, m', root, l, s, f, j + 1, t / 512);
    }
    if !Below(j, t, l, s) {
      assert !Below(j + 1, t / 512, l, s);
      if Tab(m, root, j, t / 512).Some? {
        var g := Tab(m, root, j, t / 512).value;
        assert !NotTable(m, root, g);
      }
    }
  }

  /** What one page translates to: the entry that maps it, the level of that entry and
      which of WRITE and USER every level of the walk grants. */
  datatype Translation = Fault | Mapped(leaf: Word, level: nat, rights: bv12)

  const RIGHTS: bv12 := WRITE | USER

  /** The physical page that a translation gives to virtual page v: bits of v below the size of the
      leaf are taken over. */
  function PhysicalPage(t: Translation, v: nat): nat
    requires t.Mapped?
  {
    if t.level <= 1 then t.leaf.page
    else if t.level == 2 then t.leaf.page / 512 * 512 + v % 512
    else t.leaf.page / 0x4_0000 * 0x4_0000 + v % 0x4_0000
  }

  /** The physical page behind virtual page v, if it is mapped. */
  function Target(t: Translation, v: nat): Option<nat> { if t.Mapped? then Some(PhysicalPage(t, v)) else None }

  /** In a 2 MiB leaf bits 13 to 20 are reserved and in a 1 GiB leaf bits 13 to 29; bit 12, the
      lowest of the page number, selects a memory type. */
  predicate LeafFits(page: nat, l: nat) {
    if l == 3 then page % 0x4_0000 < 2 else l == 2 ==> page % 512 < 2
  }

  /** A present leaf: the processor faults when one of its reserved bits is set. */
  function MappedBy(w: Word, l: nat, rights: bv12): Translation {
    if LeafFits(w.page, l) then Mapped(w, l, rights) else Fault
  }

  /** The entries of the four levels, read as the hardware reads them. */
  function Decode(e4: Word, e3: Word, e2: Word, e1: Word): Translation {
    if !Has(e4.low, PRESENT) || Has(e4.low, LARGE) || !Has(e3.low, PRESENT) then Fault
    else if Has(e3.low, LARGE) then MappedBy(e3, 3, e4.low & e3.low & RIGHTS)
    else if !Has(e2.low, PRESENT) then Fault
    else if Has(e2.low, LARGE) then MappedBy(e2, 2, e4.low & e3.low & e2.low & RIGHTS)
    else if !Has(e1.low, PRESENT) then Fault
    else MappedBy(e1, 1, e4.low & e3.low & e2.low & e1.low & RIGHTS)
  }

  /** The hardware's walk for virtual page v: every level takes nine bits of v as its
      index and the 40-bit page number of its entry as the next table. */
  function HwWalk(m: Memory, root: nat, v: nat): Translation {
    var e4 := Cell(m, root, v / 512 / 512 / 512 % 512);
    var e3 := Cell(m, e4.page % PAGE_LIMIT, v / 512 / 512 % 512);
    var e2 := Cell(m, e3.page % PAGE_LIMIT, v / 512 % 512);
    var e1 := Cell(m, e2.page % PAGE_LIMIT, v % 512);
    Decode(e4, e3, e2, e1)
  }

  const VPAGES: nat := 0x10_0000_0000

  function Walk(m: Memory, root: nat, v: nat): Translation {
    Decode(Slot(m, root, 4, v / 512 / 512 / 512), Slot(m, root, 3, v / 512 / 512), Slot(m, root, 2, v / 512),
      Slot(m, root, 1, v))
  }

  /** The hardware's walk sees exactly the slots. */
  lemma HwWalkReadsSlots(m: Memory, root: nat, v: nat)
    requires Tree(m, root) && v < VPAGES
    ensures HwWalk(m, root, v) == Walk(m, root, v)
  {
    var k4, k3, k2 := v / 512 / 512 / 512, v / 512 / 512, v / 512;
    assert k4 < 512;
    var e4 := Slot(m, root, 4, k4);
    assert e4 == Cell(m, root, k4 % 512);
    if IsTable(e4) {
      assert Shape(e4, 4);
      assert e4.page % PAGE_LIMIT == e4.page;
      assert Tab(m, root, 3, k4) == Some(e4.page);
      var e3 := Slot(m, root, 3, k3);
      assert e3 == Cell(m, e4.page, k3 % 512);
      if IsTable(e3) {
        assert Shape(e3, 3);
        assert Tab(m, root, 2, k3) == Some(e3.page);
        var e2 := Slot(m, root, 2, k2);
        assert e2 == Cell(m, e3.page, k2 % 512);
        if IsTable(e2) {
          assert Shape(e2, 2);
          assert Tab(m, root, 1, k2) == Some(e2.page);
        }
      }
    }
  }

  /** Below a slot that holds no table there is nothing. */
  lemma {:induction false} NothingBelow(m: Memory, root: nat, l: nat, s: nat, j: nat, t: nat)
    requires l <= 4 && j < l && Up(j, t, l) == s
    requires Tab(m, root, l - 1, s) == None
    ensures Slot(m, root, j, t) == ZERO
    ensures j + 1 < l ==> Tab(m, root, j, t / 512) == None
    decreases l - j
  {
    if j + 1 < l {
      NothingBelow(m, root, l, s, j + 1, t / 512);
    }
  }

  /** m with a fresh, zeroed table in frame c hung into entry i of frame f. */
  function LinkTable(m: Memory, f: nat, i: nat, c: nat, flags: bv12): Memory {
    ZeroFrame(SetCell(m, f, i, Word(false, c, flags | PRESENT)), c)
  }

  ghost predicate CanLink(m: Memory, root: nat, l: nat, s: nat, c: nat, flags: bv12) {
    && Tree(m, root)
    && 2 <= l <= 4 && Tab(m, root, l, s / 512).Some? && Slot(m, root, l, s) == ZERO
    && NotTable(m, root, c) && 0 < c < PAGE_LIMIT && 512 * c + 512 <= |m|
    && !Has(flags, LARGE)
  }

  lemma LinkSlot(m: Memory, root: nat, l: nat, s: nat, c: nat, flags: bv12, j: nat, t: nat)
    requires CanLink(m, root, l, s, c, flags)
    ensures var m' := LinkTable(m, Tab(m, root, l, s / 512).value, s % 512, c, flags);
      && Slot(m', root, j, t) == (if (j, t) == (l, s) then Word(false, c, flags | PRESENT) else Slot(m, root, j, t))
      && Tab(m', root, j, t) == (if (j, t) == (l - 1, s) then Some(c) else Tab(m, root, j, t))
  {
    var f := Tab(m, root, l, s / 512).value;
    var w := Word(false, c, flags | PRESENT);
    var m' := LinkTable(m, f, s % 512, c, flags);
    assert !NotTable(m, root, f);
    CellOfSetCell(m, f, s % 512, w);
    CellOfZeroFrame(SetCell(m, f, s % 512, w), c);
    TabBeside(m, m', root, l, s, f, j, t);
    TabBeside(m, m', root, l, s, f, l, s / 512);
    assert !Below(l + 1, s / 512, l, s);
    assert Slot(m', root, l, s) == w;
    assert IsTable(w);
    assert Tab(m', root, l - 1, s) == Some(c);
    if Below(j, t, l, s) && j < l {
      NothingBelow(m, root, l, s, j, t);
      BelowFresh(m', root, l, s, c, j, t);
    }
    if Below(j + 1, t, l, s) && j + 1 < l {
      NothingBelow(m, root, l, s, j + 1, t);
      BelowFresh(m', root, l, s, c, j + 1, t);
    }
  }

  /** Below a slot that holds a zeroed table every slot is zero. */
  lemma {:induction false} BelowFresh(m: Memory, root: nat, l: nat, s: nat, c: nat, j: nat, t: nat)
    requires 1 < l <= 4 && j < l && Up(j, t, l) == s
    requires Tab(m, root, l - 1, s) == Some(c) && forall i: nat :: Cell(m, c, i) == ZERO
    ensures Slot(m, root, j, t) == ZERO
    decreases l - j
  {
    if j + 1 < l {
      BelowFresh(m, root, l, s, c, j + 1, t / 512);
    }
  }

  lemma LinkKeepsTree(m: Memory, root: nat, l: nat, s: nat, c: nat, flags: bv12)
    requires CanLink(m, root, l, s, c, flags)
    ensures Tree(LinkTable(m, Tab(m, root, l, s / 512).value, s % 512, c, flags), root)
  {
    var m' := LinkTable(m, Tab(m, root, l, s / 512).value, s % 512, c, flags);
    forall j: nat, t: nat | Tab(m', root, j, t).Some?
      ensures 512 * Tab(m', root, j, t).value + 512 <= |m'|
    {
      LinkSlot(m, root, l, s, c, flags, j, t);
    }
    forall j: nat, t: nat | 2 <= j <= 4
      ensures Shape(Slot(m', root, j, t), j)
    {
      LinkSlot(m, root, l, s, c, flags, j, t);
    }
    forall j: nat, t: nat, j': nat, t': nat | Tab(m', root, j, t).Some? && Tab(m', root, j, t) == Tab(m', root, j', t')
      ensures j == j' && t == t'
    {
      LinkSlot(m, root, l, s, c, flags, j, t);
      LinkSlot(m, root, l, s, c, flags, j', t');
    }
  }

  ghost predicate CanWriteLeaf(m: Memory, root: nat, l: nat, s: nat, w: Word) {
    && Tree(m, root)
    && 1 <= l <= 2 && Tab(m, root, l, s / 512).Some?
    && (l == 2 ==> w == ZERO || (Has(w.low, PRESENT) && Has(w.low, LARGE)))
  }

  lemma LeafIsNotTable(m: Memory, root: nat, l: nat, s: nat, w: Word)
    requires CanWriteLeaf(m, root, l, s, w)
    ensures 1 <= l <= 2 && (l == 2 ==> !IsTable(w)) && !Below(l + 1, s / 512, l, s)
  {
  }

  /** Below an entry that is no table there is nothing. */
  lemma CutOff(m: Memory, root: nat, l: nat, s: nat, j: nat, t: nat)
    requires 1 <= l <= 2 && (l == 2 ==> !IsTable(Slot(m, root, l, s)))
    ensures Below(j, t, l, s) && j < l ==> Slot(m, root, j, t) == ZERO
    ensures Below(j + 1, t, l, s) ==> Tab(m, root, j, t) == None
  {
    if Below(j, t, l, s) && j < l {
      NothingBelow(m, root, l, s, j, t);
    }
    if Below(j + 1, t, l, s) && j + 1 < l {
      NothingBelow(m, root, l, s, j, t * 512);
    }
  }

  /** Writing a leaf changes its own slot only, except that a leaf written over a table cuts
      that table off, so that the slots below read as zero. */
  lemma LeafSlot(m: Memory, root: nat, l: nat, s: nat, w: Word, j: nat, t: nat)
    requires CanWriteLeaf(m, root, l, s, w)
    ensures var m' := SetCell(m, Tab(m, root, l, s / 512).value, s % 512, w);
      && Slot(m', root, j, t) ==
           (if (j, t) == (l, s) then w else if Below(j, t, l, s) then ZERO else Slot(m, root, j, t))
      && Tab(m', root, j, t) == (if Below(j + 1, t, l, s) then None else Tab(m, root, j, t))
  {
    var f := Tab(m, root, l, s / 512).value;
    var m' := SetCell(m, f, s % 512, w);
    CellOfSetCell(m, f, s % 512, w);
    TabBeside(m, m', root, l, s, f, j, t);
    TabBeside(m, m', root, l, s, f, l, s / 512);
    LeafIsNotTable(m, root, l, s, w);
    hide CanWriteLeaf, SetCell, Unshared;
    assert Slot(m', root, l, s) == w;
    CutOff(m', root, l, s, j, t);
  }

  lemma LeafKeepsTree(m: Memory, root: nat, l: nat, s: nat, w: Word)
    requires CanWriteLeaf(m, root, l, s, w)
    ensures Tree(SetCell(m, Tab(m, root, l, s / 512).value, s % 512, w), root)
  {
    var m' := SetCell(m, Tab(m, root, l, s / 512).value, s % 512, w);
    forall j: nat, t: nat | Tab(m', root, j, t).Some?
      ensures 512 * Tab(m', root, j, t).value + 512 <= |m'|
    {
      LeafSlot(m, root, l, s, w, j, t);
    }
    forall j: nat, t: nat | 2 <= j <= 4
      ensures Shape(Slot(m', root, j, t), j)
    {
      LeafSlot(m, root, l, s, w, j, t);
    }
    forall j: nat, t: nat, j': nat, t': nat | Tab(m', root, j, t).Some? && Tab(m', root, j, t) == Tab(m', root, j', t')
      ensures j == j' && t == t'
    {
      LeafSlot(m, root, l, s, w, j, t);
      LeafSlot(m, root, l, s, w, j', t');
    }
  }
}
