/** Any number of address spaces over one frame allocator. */
module Spaces {
  import opened Wrappers
  import opened Paging
  import opened Frames
  import opened Tables
  import opened Mapping
  import opened Editing
  import opened AddressSpace
  import opened PagingRuns
  import Translations

  /** The tables of two address spaces lie in different frames. */
  ghost predicate Separate(m: Memory, r: nat, r': nat) {
    forall l, k, l', k' :: Tab(m, r, l, k).Some? ==> Tab(m, r, l, k) != Tab(m, r', l', k')
  }

  /** Data lies in frames that are marked used, and no two allocations meet. */
  ghost predicate DataReserved(a: Machine) {
    && (forall r, f: nat :: r in a.data && InRun(r, f) ==> f < |a.sys.frames.used| && Reserved(a.sys.frames, f))
    && (forall i, j :: 0 <= i < j < |a.data| ==> Disjoint(a.data[i], a.data[j]))
  }

  ghost predicate AllSound(a: Machine, roots: set<nat>) {
    && FramesFit(a.sys) && DataReserved(a)
    && (forall r :: r in roots ==> Sound(a, r))
    && (forall r, r' :: r in roots && r' in roots && r != r' ==> Separate(a.sys.mem, r, r'))
  }

  lemma SoundParts(a: Machine, root: nat)
    requires Sound(a, root)
    ensures FramesFit(a.sys) && DataReserved(a) && Inv(a.sys, root)
  {
    hide Tree, Tab;
    forall r, f: nat | r in a.data && InRun(r, f)
      ensures f < |a.sys.frames.used| && Reserved(a.sys.frames, f)
    {
      assert RunIsData(a.sys, root, r);
      assert IsData(a.sys, root, f);
    }
  }

  /** What a call on one address space may do to the rest of the machine: its tables come from
      frames that were free, and frames in use for anything else keep their content. */
  ghost predicate Local(s: Sys, s': Sys, root: nat) {
    && s'.frames.len == s.frames.len && |s'.frames.used| == |s.frames.used| && |s'.mem| == |s.mem|
    && (forall f: nat :: Reserved(s.frames, f) ==> Reserved(s'.frames, f))
    && (forall l: nat, k: nat :: TabLocal(s, s', root, l, k))
    && DataKept(s, s', root)
  }

  predicate TabLocal(s: Sys, s': Sys, root: nat, l: nat, k: nat) {
    || Tab(s'.mem, root, l, k) == None
    || Tab(s'.mem, root, l, k) == Tab(s.mem, root, l, k)
    || !Reserved(s.frames, Tab(s'.mem, root, l, k).value)
  }

  lemma MapsIsLocal(s: Sys, s': Sys, root: nat, l: nat, perms: bv12)
    requires Maps(s, s', root, l, perms)
    ensures Local(s, s', root)
  {
    hide Tab, Slot, DataKept;
    forall j: nat, k: nat ensures TabLocal(s, s', root, j, k) {
      assert TabMaps(s, s', root, l, j, k);
    }
  }

  lemma EditsIsLocal(s: Sys, s': Sys, root: nat, l: nat)
    requires Edits(s, s', root, l)
    ensures Local(s, s', root)
  {
    hide Tab, Slot, DataKept;
    forall j: nat, k: nat ensures TabLocal(s, s', root, j, k) {
      assert TabEdits(s, s', root, l, j, k);
    }
  }

  /** The tables of another address space stay what they are. */
  lemma OtherTables(s: Sys, s': Sys, root: nat, other: nat)
    requires Local(s, s', root) && Inv(s, other) && Separate(s.mem, other, root)
    ensures forall l: nat, k: nat ::
      Tab(s'.mem, other, l, k) == Tab(s.mem, other, l, k) && Slot(s'.mem, other, l, k) == Slot(s.mem, other, l, k)
  {
    hide Tree, TabLocal;
    forall f: nat, i: nat
      ensures Cell(s.mem, f, i) == Cell(s'.mem, f, i) || NotTable(s.mem, other, f)
    {
      if !NotTable(s.mem, other, f) {
        var l, k :| Tab(s.mem, other, l, k) == Some(f);
        assert Reserved(s.frames, f) && NotTable(s.mem, root, f);
      }
    }
    forall l: nat, k: nat
      ensures Tab(s'.mem, other, l, k) == Tab(s.mem, other, l, k)
        && Slot(s'.mem, other, l, k) == Slot(s.mem, other, l, k)
    {
      TabFrame(s.mem, s'.mem, other, l, k);
    }
  }

  lemma OtherStays(s: Sys, s': Sys, root: nat, other: nat)
    requires Local(s, s', root) && Inv(s, other) && Separate(s.mem, other, root)
    ensures Inv(s', other) && Separate(s'.mem, other, root) && Separate(s'.mem, root, other)
  {
    hide Tab, Slot;
    OtherTables(s, s', root, other);
    forall l: nat, k: nat, j: nat, t: nat | Tab(s'.mem, other, l, k).Some?
      ensures Tab(s'.mem, other, l, k) != Tab(s'.mem, root, j, t)
    {
      assert TabLocal(s, s', root, j, t);
    }
  }

  lemma OtherWalk(s: Sys, s': Sys, root: nat, other: nat, v: nat)
    requires Local(s, s', root) && Inv(s, other) && Separate(s.mem, other, root) && v < VPAGES
    ensures HwWalk(s'.mem, other, v) == HwWalk(s.mem, other, v)
  {
    hide Inv, Local, Separate, HwWalk, Tab;
    OtherTables(s, s', root, other);
    OtherStays(s, s', root, other);
    Translations.SoftwareView(s, other, v);
    Translations.SoftwareView(s', other, v);
  }

  lemma StepIsLocal(a: Machine, root: nat, op: Op)
    requires Sound(a, root) && !OnData(op)
    ensures match Step(a, root, op)
      case None => true
      case Some(b) => Local(a.sys, b.sys, root) && b.data == a.data && Sound(b, root)
  {
    hide Inv, CanMapRange, CanEditRange, Maps, Edits, MapRange, EditRange, Local, RunIsData, KeepsData;
    match op
    case Map(l, slot, page, count, perms) =>
      MapStepIsSound(a, root, l, slot, page, count, perms);
      if CanMapRange(a.sys, root, l, slot, count, perms) {
        MapRangeMaps(a.sys, root, l, slot, page, count, perms);
        match MapRange(a.sys, root, l, slot, page, count, perms)
        case None =>
        case Some(s') => MapsIsLocal(a.sys, s', root, l, perms);
      }
    case Change(l, slot, count, edit) =>
      ChangeStepIsSound(a, root, l, slot, count, edit);
      if CanEditRange(a.sys, root, l, slot, count) {
        EditIsLocal(a.sys, root, l, slot, count, edit);
      }
  }

  lemma EditIsLocal(s: Sys, root: nat, l: nat, slot: nat, count: nat, edit: Edit)
    requires CanEditRange(s, root, l, slot, count)
    ensures var r := EditRange(s.mem, root, l, slot, count, edit);
      !r.Crashed? ==> Local(s, Sys(r.mem, s.frames), root)
  {
    hide Inv, Edits, EditRange, Local;
    var n, r := count, EditRange(s.mem, root, l, slot, count, edit);
    if !r.Done? {
      n := StoppedAt(s, root, l, slot, count, edit);
      ShorterEdit(s, root, l, slot, count, n);
    }
    EditRangeEdits(s, root, l, slot, n, edit);
    if !r.Crashed? {
      EditsIsLocal(s, Sys(r.mem, s.frames), root, l);
    }
  }

  /** Data stays apart from the tables of the other address spaces. */
  lemma OtherSound(a: Machine, s': Sys, root: nat, other: nat)
    requires Sound(a, other) && Inv(a.sys, root) && Local(a.sys, s', root) && Separate(a.sys.mem, other, root)
    ensures Sound(Machine(s', a.data), other)
  {
    hide Inv, Tab, Slot, DataKept, TabLocal;
    OtherTables(a.sys, s', root, other);
    OtherStays(a.sys, s', root, other);
    forall r | r in a.data ensures RunIsData(s', other, r) {
      assert RunIsData(a.sys, other, r);
    }
  }

  lemma OthersKept(a: Machine, b: Machine, root: nat, other: nat)
    requires Sound(a, root) && Sound(a, other) && Separate(a.sys.mem, other, root)
    requires Local(a.sys, b.sys, root) && b.data == a.data
    ensures Sound(b, other) && Separate(b.sys.mem, other, root) && Separate(b.sys.mem, root, other)
  {
    hide Inv, Local, Separate, RunIsData;
    OtherSound(a, b.sys, root, other);
    OtherStays(a.sys, b.sys, root, other);
  }

  lemma BothKept(s: Sys, s': Sys, root: nat, r: nat, r': nat)
    requires Local(s, s', root) && Inv(s, r) && Inv(s, r')
    requires Separate(s.mem, r, root) && Separate(s.mem, r', root) && Separate(s.mem, r, r')
    ensures Separate(s'.mem, r, r')
  {
    hide Local, Tab, Slot, Inv;
    OtherTables(s, s', root, r);
    OtherTables(s, s', root, r');
  }

  /** A mapping, unmapping or permission call in one address space keeps all of them sound,
      and changes no translation in any other. */
  lemma CallIsIsolated(a: Machine, roots: set<nat>, root: nat, op: Op)
    requires AllSound(a, roots) && root in roots && !OnData(op)
    ensures match Step(a, root, op)
      case None => true
      case Some(b) =>
        && AllSound(b, roots)
        && forall other, v: nat :: other in roots && other != root && v < VPAGES ==>
             HwWalk(b.sys.mem, other, v) == HwWalk(a.sys.mem, other, v)
  {
    hide Inv, RunIsData, Separate, Step, Local, HwWalk;
    StepIsLocal(a, root, op);
    match Step(a, root, op)
    case None =>
    case Some(b) =>
      SoundParts(b, root);
      forall other | other in roots && other != root
        ensures Sound(b, other) && Separate(b.sys.mem, other, root) && Separate(b.sys.mem, root, other)
      {
        OthersKept(a, b, root, other);
      }
      forall r, r' | r in roots && r' in roots && r != r'
        ensures Separate(b.sys.mem, r, r')
      {
        if r != root && r' != root {
          BothKept(a.sys, b.sys, root, r, r');
        }
      }
      forall other, v: nat | other in roots && other != root && v < VPAGES
        ensures HwWalk(b.sys.mem, other, v) == HwWalk(a.sys.mem, other, v)
      {
        OtherWalk(a.sys, b.sys, root, other, v);
      }
  }

  lemma DataCallKeepsSpaces(a: Machine, roots: set<nat>, root: nat, op: Op)
    requires AllSound(a, roots) && root in roots && OnData(op)
    ensures match Step(a, root, op)
      case None => true
      case Some(b) => AllSound(b, roots) && b.sys.mem == a.sys.mem
  {
    hide Sound, Separate, Alloc, Free, KeepsData;
    forall r | r in roots
      ensures match Step(a, root, op)
        case None => true
        case Some(b) => Sound(b, r)
    {
      StepIsSound(a, r, op);
    }
    match Step(a, root, op)
    case None =>
    case Some(b) => SoundParts(b, root);
  }

  /** A new address space lies in frames that were free, and nothing in use is touched. */
  ghost predicate Fresh(s: Sys, s': Sys, root: nat) {
    && s'.frames.len == s.frames.len && |s'.frames.used| == |s.frames.used| && |s'.mem| == |s.mem|
    && (forall f: nat :: Reserved(s.frames, f) ==> Reserved(s'.frames, f))
    && (forall l: nat, k: nat :: TabFresh(s, s', root, l, k))
    && (forall f: nat, i: nat :: Reserved(s.frames, f) ==> Cell(s'.mem, f, i) == Cell(s.mem, f, i))
  }

  predicate TabFresh(s: Sys, s': Sys, root: nat, l: nat, k: nat) {
    Tab(s'.mem, root, l, k).Some? ==> !Reserved(s.frames, Tab(s'.mem, root, l, k).value)
  }

  /** Mapping into an empty address space. */
  lemma GrownFromEmpty(s: Sys, frames: Bitmap, root: nat, s2: Sys, perms: bv12)
    requires var s0 := Sys(ZeroFrame(s.mem, root), frames);
      && Maps(s0, s2, root, 2, perms) && (forall i: nat :: Cell(s0.mem, root, i) == ZERO)
      && !Reserved(s.frames, root) && frames.used == s.frames.used[root := true] && frames.len == s.frames.len
    ensures Fresh(s, s2, root)
  {
    hide Tab, Slot, ZeroFrame;
    var s0 := Sys(ZeroFrame(s.mem, root), frames);
    forall l: nat, k: nat
      ensures Tab(s0.mem, root, l, k) == (if l == 4 && k == 0 then Some(root) else None) && TabFresh(s, s2, root, l, k)
    {
      EmptySlots(s0.mem, root, l, k);
      assert TabMaps(s0, s2, root, 2, l, k);
    }
    CellOfZeroFrame(s.mem, root);
    forall f: nat, i: nat | Reserved(s.frames, f)
      ensures Cell(s2.mem, f, i) == Cell(s.mem, f, i)
    {
      assert Reserved(s0.frames, f) && NotTable(s0.mem, root, f);
    }
    ZeroFrameSize(s.mem, root);
  }

  lemma ZeroFrameSize(m: Memory, f: nat)
    ensures |ZeroFrame(m, f)| == |m|
  {
  }

  lemma NewSpaceIsFresh(s: Sys)
    requires FramesFit(s)
    ensures match NewAddressSpace(s)
      case None => true
      case Some((s', root)) => Fresh(s, s', root)
  {
    hide Inv, Tree, Tab, Slot, MapRange, Maps, PathFlags, ZeroFrame, Walk, Fresh;
    EmptySpace(s);
    AllocOne(s.frames);
    match Alloc(s.frames, 1, 1, 0)
    case (_, None) =>
    case (frames, Some(root)) =>
      var s0 := Sys(ZeroFrame(s.mem, root), frames);
      KernelPart(s0, root);
      MapRangeMaps(s0, root, 2, KernelSlot(), 0, KERNEL_PAGES, WRITE | PRESENT);
      match MapRange(s0, root, 2, KernelSlot(), 0, KERNEL_PAGES, WRITE | PRESENT)
      case None =>
      case Some(s1) =>
        PhysicalPart(s0, s1, root);
        MapRangeMaps(s1, root, 2, PhysicalSlot(), 0, PHYSICAL_PAGES, WRITE | PRESENT);
        match MapRange(s1, root, 2, PhysicalSlot(), 0, PHYSICAL_PAGES, WRITE | PRESENT)
        case None =>
        case Some(s2) =>
          MapsIsTransitive(s0, s1, s2, root, 2, WRITE | PRESENT);
          GrownFromEmpty(s, frames, root, s2, WRITE | PRESENT);
  }

  lemma TablesBesideFresh(s: Sys, s': Sys, root: nat, other: nat)
    requires Fresh(s, s', root) && Inv(s, other)
    ensures forall l: nat, k: nat ::
      Tab(s'.mem, other, l, k) == Tab(s.mem, other, l, k) && Slot(s'.mem, other, l, k) == Slot(s.mem, other, l, k)
  {
    hide Tree, TabFresh;
    forall f: nat, i: nat
      ensures Cell(s.mem, f, i) == Cell(s'.mem, f, i) || NotTable(s.mem, other, f)
    {
      if !NotTable(s.mem, other, f) {
        var l, k :| Tab(s.mem, other, l, k) == Some(f);
        assert Reserved(s.frames, f);
      }
    }
    forall l: nat, k: nat
      ensures Tab(s'.mem, other, l, k) == Tab(s.mem, other, l, k)
        && Slot(s'.mem, other, l, k) == Slot(s.mem, other, l, k)
    {
      TabFrame(s.mem, s'.mem, other, l, k);
    }
  }

  lemma SpaceBesideFresh(a: Machine, s': Sys, root: nat, other: nat)
    requires Fresh(a.sys, s', root) && Sound(a, other)
    ensures Sound(Machine(s', a.data), other) && Separate(s'.mem, other, root) && Separate(s'.mem, root, other)
    ensures other != root
  {
    hide Tab, Slot;
    TablesBesideFresh(a.sys, s', root, other);
    forall r | r in a.data ensures RunIsData(s', other, r) {
      assert RunIsData(a.sys, other, r);
    }
    forall l: nat, k: nat, j: nat, t: nat | Tab(s'.mem, other, l, k).Some?
      ensures Tab(s'.mem, other, l, k) != Tab(s'.mem, root, j, t)
    {
      assert TabFresh(a.sys, s', root, j, t);
    }
    OwnRoot(s'.mem, root);
    OwnRoot(s'.mem, other);
  }

  lemma OwnRoot(m: Memory, root: nat)
    ensures Tab(m, root, 4, 0) == Some(root)
  {
  }

  /** Data that is in use is no table of a new address space. */
  lemma NewSpaceIsSound(a: Machine, root: nat, s': Sys)
    requires DataReserved(a) && Fresh(a.sys, s', root) && Inv(s', root)
    ensures Sound(Machine(s', a.data), root)
  {
    hide Inv, Tab;
    forall r, f: nat | r in a.data && InRun(r, f)
      ensures f < |s'.frames.used| && IsData(s', root, f)
    {
      forall l: nat, k: nat ensures Tab(s'.mem, root, l, k) != Some(f) {
        assert TabFresh(a.sys, s', root, l, k);
      }
    }
  }

  lemma FreshWalk(s: Sys, s': Sys, root: nat, other: nat, v: nat)
    requires Fresh(s, s', root) && Inv(s, other) && Inv(s', other) && v < VPAGES
    ensures HwWalk(s'.mem, other, v) == HwWalk(s.mem, other, v)
  {
    hide Inv, Fresh, HwWalk, Tab;
    TablesBesideFresh(s, s', root, other);
    Translations.SoftwareView(s, other, v);
    Translations.SoftwareView(s', other, v);
  }

  /** Making an address space keeps all of them sound and changes no translation in any. */
  lemma NewSpaceIsIsolated(a: Machine, roots: set<nat>)
    requires AllSound(a, roots)
    ensures match NewAddressSpace(a.sys)
      case None => true
      case Some((s', root)) =>
        && AllSound(Machine(s', a.data), roots + {root}) && root !in roots
        && Fresh(a.sys, s', root)
        && forall other, v: nat :: other in roots && v < VPAGES ==>
             HwWalk(s'.mem, other, v) == HwWalk(a.sys.mem, other, v)
  {
    hide Inv, Sound, Separate, Fresh, FramesFit, DataReserved, NewAddressSpace, HwWalk;
    NewSpaceTakesEight(a.sys);
    NewSpaceIsFresh(a.sys);
    match NewAddressSpace(a.sys)
    case None =>
    case Some((s', root)) =>
      var b := Machine(s', a.data);
      NewSpaceIsSound(a, root, s');
      SoundParts(b, root);
      forall other | other in roots
        ensures Sound(b, other) && Separate(s'.mem, other, root) && Separate(s'.mem, root, other) && other != root
      {
        SpaceBesideFresh(a, s', root, other);
      }
      forall r, r' | r in roots && r' in roots && r != r' ensures Separate(s'.mem, r, r') {
        BothBesideFresh(a, s', root, r, r');
      }
      forall other, v: nat | other in roots && v < VPAGES
        ensures HwWalk(s'.mem, other, v) == HwWalk(a.sys.mem, other, v)
      {
        SoundParts(a, other);
        SoundParts(b, other);
        FreshWalk(a.sys, s', root, other, v);
      }
  }

  lemma BothBesideFresh(a: Machine, s': Sys, root: nat, r: nat, r': nat)
    requires Fresh(a.sys, s', root) && Sound(a, r) && Sound(a, r') && Separate(a.sys.mem, r, r')
    ensures Separate(s'.mem, r, r')
  {
    hide Tab, Slot, Fresh, Inv;
    TablesBesideFresh(a.sys, s', root, r);
    TablesBesideFresh(a.sys, s', root, r');
  }

  /** A call on one of the address spaces, or the making of another. */
  datatype Call = On(root: nat, op: Op) | New

  ghost function Turn(a: Machine, roots: set<nat>, c: Call): Option<(Machine, set<nat>)> {
    match c
    case On(root, op) =>
      if root in roots then
        match Step(a, root, op)
        case None => None
        case Some(b) => Some((b, roots))
      else None
    case New =>
      match NewAddressSpace(a.sys)
      case None => None
      case Some((s', root)) => Some((Machine(s', a.data), roots + {root}))
  }

  /** How a turn ends: an address space is made exactly if 8 frames are left, and is a new one; a call is
      made exactly on one that there is, where it is possible. */
  lemma TurnEnds(a: Machine, roots: set<nat>, c: Call)
    requires AllSound(a, roots)
    ensures match c
      case On(root, op) =>
        Turn(a, roots, c) ==
          (if root !in roots || Step(a, root, op) == None then None else Some((Step(a, root, op).value, roots)))
      case New =>
        && a.sys.frames.len <= |a.sys.frames.used|
        && match Turn(a, roots, c)
           case None => ClearFrames(a.sys) < 8
           case Some((b, roots')) =>
             ClearFrames(a.sys) >= 8 && b.data == a.data && roots < roots' && |roots'| == |roots| + 1
  {
    hide AllSound, Step, NewAddressSpace, Frames.Clear, Fresh;
    match c
    case On(_, _) =>
    case New =>
      SpacesFit(a, roots);
      NewSpaceTakesEight(a.sys);
      NewSpaceIsIsolated(a, roots);
  }

  lemma SpacesFit(a: Machine, roots: set<nat>)
    requires AllSound(a, roots)
    ensures FramesFit(a.sys) && a.sys.frames.len <= |a.sys.frames.used|
  {
    hide Sound, Separate, DataReserved;
  }

  ghost function Turns(a: Machine, roots: set<nat>, cs: seq<Call>): Option<(Machine, set<nat>)>
    decreases |cs|
  {
    if cs == [] then Some((a, roots))
    else
      match Turn(a, roots, cs[0])
      case None => None
      case Some((b, roots')) => Turns(b, roots', cs[1..])
  }

  /** The call maps, unmaps or changes permissions in the given address space. */
  predicate Touches(c: Call, root: nat) { c.On? && c.root == root && !OnData(c.op) }

  lemma TurnIsIsolated(a: Machine, roots: set<nat>, c: Call)
    requires AllSound(a, roots)
    ensures match Turn(a, roots, c)
      case None => true
      case Some((b, roots')) =>
        && AllSound(b, roots') && roots <= roots'
        && forall other, v: nat :: other in roots && !Touches(c, other) && v < VPAGES ==>
             HwWalk(b.sys.mem, other, v) == HwWalk(a.sys.mem, other, v)
  {
    hide AllSound, Step, NewAddressSpace, HwWalk, Fresh;
    match c
    case On(root, op) =>
      if root in roots {
        if OnData(op) {
          DataCallKeepsSpaces(a, roots, root, op);
        } else {
          CallIsIsolated(a, roots, root, op);
        }
      }
    case New => NewSpaceIsIsolated(a, roots);
  }

  /** Over every run of calls on any number of address spaces, each stays a tree of its own
      frames, apart from the others and from all data, and the translations of an address
      space change only through calls on it. */
  lemma {:induction false} SpacesAreIsolated(a: Machine, roots: set<nat>, cs: seq<Call>, other: nat, v: nat)
    requires AllSound(a, roots)
    ensures match Turns(a, roots, cs)
      case None => true
      case Some((b, roots')) =>
        && AllSound(b, roots') && roots <= roots'
        && (other in roots && v < VPAGES && (forall c :: c in cs ==> !Touches(c, other)) ==>
              HwWalk(b.sys.mem, other, v) == HwWalk(a.sys.mem, other, v))
    decreases |cs|
  {
    hide AllSound, Turn, HwWalk, Touches;
    if cs != [] {
      TurnIsIsolated(a, roots, cs[0]);
      match Turn(a, roots, cs[0])
      case None =>
      case Some((b, roots')) => SpacesAreIsolated(b, roots', cs[1..], other, v);
    }
  }
}
