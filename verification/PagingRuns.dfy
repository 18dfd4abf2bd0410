/** Whole runs of mapping, unmapping and permission changes in one address space, and of taking
    and giving back frames for data. Table frames are never freed. */
module PagingRuns {
  import opened Wrappers
  import opened Paging
  import opened Frames
  import opened Tables
  import opened Mapping
  import opened Editing
  import opened FrameBudget

  datatype Op =
    | Map(level: nat, slot: nat, page: nat, count: nat, perms: bv12)
    | Change(level: nat, slot: nat, count: nat, edit: Edit)
    | Take(count: nat, alignment: nat, upper: nat)
    | Give(i: nat)

  /** The operation is about data, not about the tables. */
  predicate OnData(op: Op) { op.Take? || op.Give? }

  /** The machine and the frames that are out as data. */
  datatype Machine = Machine(sys: Sys, data: seq<Run>)

  /** What is left after taking one run out. */
  function Without(runs: seq<Run>, i: nat): seq<Run>
    requires i < |runs|
  {
    runs[..i] + runs[i + 1..]
  }

  /** None where a caller breaks what the operation needs or a null table is reached. */
  ghost function Step(a: Machine, root: nat, op: Op): Option<Machine> {
    match op
    case Map(l, slot, page, count, perms) =>
      if CanMapRange(a.sys, root, l, slot, count, perms) then
        match MapRange(a.sys, root, l, slot, page, count, perms)
        case None => None
        case Some(s') => Some(Machine(s', a.data))
      else None
    case Change(l, slot, count, edit) =>
      if CanEditRange(a.sys, root, l, slot, count) then
        match EditRange(a.sys.mem, root, l, slot, count, edit)
        case Crashed => None
        case other => Some(Machine(Sys(other.mem, a.sys.frames), a.data))
      else None
    case Take(count, alignment, upper) =>
      if alignment == 0 then None
      else
        (match Alloc(a.sys.frames, count, alignment, upper)
         case (_, None) => Some(a)
         case (frames, Some(start)) => Some(Machine(Sys(a.sys.mem, frames), a.data + [Run(start, count)])))
    case Give(i) =>
      if i < |a.data| then
        var frames := Free(a.sys.frames, a.data[i].start, a.data[i].count);
        Some(Machine(Sys(a.sys.mem, frames), Without(a.data, i)))
      else None
  }

  /** How a step ends: it is impossible exactly where the call is not allowed, runs through a null table or
      gives back what is not there, and only `alloc` and `free` change what is out. */
  lemma StepEnds(a: Machine, root: nat, op: Op)
    ensures match op
      case Map(l, slot, _, count, perms) =>
        Step(a, root, op) == None <==>
          !CanMapRange(a.sys, root, l, slot, count, perms) || Unpayable(a.sys, root, l, slot, count)
      case Change(l, slot, count, _) =>
        Step(a, root, op) == None <==>
          || !CanEditRange(a.sys, root, l, slot, count)
          || exists n: nat :: n < count && HoleAt(a.sys.mem, root, l, slot, n)
      case Take(_, alignment, _) => Step(a, root, op) == None <==> alignment == 0
      case Give(i) => Step(a, root, op) == None <==> i >= |a.data|
    ensures match Step(a, root, op)
      case None => true
      case Some(b) =>
        match op
        case Take(count, alignment, upper) =>
          alignment > 0 && b.sys == Sys(a.sys.mem, Alloc(a.sys.frames, count, alignment, upper).0) &&
          (match Alloc(a.sys.frames, count, alignment, upper).1
           case None => b.data == a.data
           case Some(start) => b.data == a.data + [Run(start, count)])
        case Give(i) =>
          && i < |a.data| && b.data == a.data[..i] + a.data[i + 1..]
          && b.sys == Sys(a.sys.mem, Free(a.sys.frames, a.data[i].start, a.data[i].count))
        case _ => b.data == a.data
  {
    hide CanMapRange, CanEditRange, MapRange, EditRange, Need, Free, HoleAt, FirstFit;
    match op
    case Map(l, slot, page, count, perms) =>
      if CanMapRange(a.sys, root, l, slot, count, perms) {
        MapEnds(a.sys, root, l, slot, page, count, perms);
      }
    case Change(l, slot, count, edit) =>
      if CanEditRange(a.sys, root, l, slot, count) {
        CrashesIff(a.sys, root, l, slot, count, edit);
      }
    case _ =>
  }

  /** More tables are missing on the range than frames are left. */
  ghost predicate Unpayable(s: Sys, root: nat, l: nat, slot: nat, count: nat) {
    && count > 0 && s.frames.len <= |s.frames.used|
    && Need(s.mem, root, l, slot / 512, (slot + (count - 1)) / 512) > ClearFrames(s)
  }

  lemma MapEnds(s: Sys, root: nat, l: nat, slot: nat, page: nat, count: nat, perms: bv12)
    requires CanMapRange(s, root, l, slot, count, perms)
    ensures MapRange(s, root, l, slot, page, count, perms) == None <==> Unpayable(s, root, l, slot, count)
  {
    hide Tree, Tab, Need, SmallPath;
    if count > 0 {
      MapRangeBudget(s, root, l, slot, page, count, perms);
    }
  }

  ghost function Steps(a: Machine, root: nat, ops: seq<Op>): Option<Machine>
    decreases |ops|
  {
    if ops == [] then Some(a)
    else
      match Step(a, root, ops[0])
      case None => None
      case Some(b) => Steps(b, root, ops[1..])
  }

  /** The data given back in the course of a run. */
  ghost function GivenBack(a: Machine, root: nat, ops: seq<Op>): seq<Run>
    decreases |ops|
  {
    if ops == [] then []
    else
      match Step(a, root, ops[0])
      case None => []
      case Some(b) => GivenBy(a, ops[0]) + GivenBack(b, root, ops[1..])
  }

  function GivenBy(a: Machine, op: Op): seq<Run> {
    if op.Give? && op.i < |a.data| then [a.data[op.i]] else []
  }

  /** Frame f is in use as data: it is never handed out again and is no table. */
  ghost predicate IsData(s: Sys, root: nat, f: nat) { Reserved(s.frames, f) && NotTable(s.mem, root, f) }

  ghost predicate RunIsData(s: Sys, root: nat, r: Run) {
    forall f: nat :: InRun(r, f) ==> f < |s.frames.used| && IsData(s, root, f)
  }

  ghost predicate Sound(a: Machine, root: nat) {
    && Inv(a.sys, root)
    && (forall r :: r in a.data ==> RunIsData(a.sys, root, r))
    && (forall i, j :: 0 <= i < j < |a.data| ==> Disjoint(a.data[i], a.data[j]))
  }

  predicate InSome(runs: seq<Run>, f: nat) { exists r :: r in runs && InRun(r, f) }

  /** What is left alone when the given runs are given back: the other data is still out, and every
      other frame that is data stays data, with its content. */
  ghost predicate KeepsData(a: Machine, b: Machine, root: nat, given: seq<Run>) {
    && |b.sys.frames.used| == |a.sys.frames.used|
    && (forall r :: r in a.data ==> r in b.data || r in given)
    && forall f: nat :: IsData(a.sys, root, f) && !InSome(given, f) ==>
         IsData(b.sys, root, f) && forall i: nat :: Cell(b.sys.mem, f, i) == Cell(a.sys.mem, f, i)
  }

  lemma MapsKeepData(s: Sys, s': Sys, root: nat, l: nat, perms: bv12)
    requires Maps(s, s', root, l, perms)
    ensures forall f: nat :: IsData(s, root, f) ==>
      IsData(s', root, f) && forall i: nat :: Cell(s'.mem, f, i) == Cell(s.mem, f, i)
  {
    forall f: nat | IsData(s, root, f)
      ensures NotTable(s'.mem, root, f)
    {
      assert forall j: nat, k: nat :: Tab(s'.mem, root, j, k) == Some(f) ==> TabMaps(s, s', root, l, j, k);
    }
  }

  lemma EditsKeepData(s: Sys, s': Sys, root: nat, l: nat)
    requires Edits(s, s', root, l)
    ensures forall f: nat :: IsData(s, root, f) ==>
      IsData(s', root, f) && forall i: nat :: Cell(s'.mem, f, i) == Cell(s.mem, f, i)
  {
    forall f: nat | IsData(s, root, f)
      ensures NotTable(s'.mem, root, f)
    {
      assert forall j: nat, k: nat :: Tab(s'.mem, root, j, k) == Some(f) ==> TabEdits(s, s', root, l, j, k);
    }
  }

  lemma MapStepIsSound(a: Machine, root: nat, l: nat, slot: nat, page: nat, count: nat, perms: bv12)
    requires Sound(a, root)
    ensures match Step(a, root, Map(l, slot, page, count, perms))
      case None => true
      case Some(b) => Sound(b, root) && KeepsData(a, b, root, [])
  {
    hide Inv, CanMapRange, Maps, MapRange, IsData;
    if CanMapRange(a.sys, root, l, slot, count, perms) {
      MapRangeMaps(a.sys, root, l, slot, page, count, perms);
      match MapRange(a.sys, root, l, slot, page, count, perms)
      case None =>
      case Some(s') =>
        MapsKeepData(a.sys, s', root, l, perms);
        MapsSizes(a.sys, s', root, l, perms);
        SameDataIsSound(a, s', root);
    }
  }

  lemma MapsSizes(s: Sys, s': Sys, root: nat, l: nat, perms: bv12)
    requires Maps(s, s', root, l, perms)
    ensures |s'.frames.used| == |s.frames.used|
  {
  }

  lemma SameDataIsSound(a: Machine, s': Sys, root: nat)
    requires Sound(a, root) && Inv(s', root) && KeepsData(a, Machine(s', a.data), root, [])
    ensures Sound(Machine(s', a.data), root)
  {
    hide Inv, IsData;
    forall r | r in a.data
      ensures RunIsData(s', root, r)
    {
      assert RunIsData(a.sys, root, r);
    }
  }

  lemma ChangeStepIsSound(a: Machine, root: nat, l: nat, slot: nat, count: nat, edit: Edit)
    requires Sound(a, root)
    ensures match Step(a, root, Change(l, slot, count, edit))
      case None => true
      case Some(b) => Sound(b, root) && KeepsData(a, b, root, [])
  {
    hide Inv, CanEditRange, Edits, EditRange, IsData;
    if CanEditRange(a.sys, root, l, slot, count) {
      var n := count;
      var r := EditRange(a.sys.mem, root, l, slot, count, edit);
      if !r.Done? {
        n := StoppedAt(a.sys, root, l, slot, count, edit);
        ShorterEdit(a.sys, root, l, slot, count, n);
      }
      if !r.Crashed? {
        var s' := Sys(r.mem, a.sys.frames);
        EditRangeEdits(a.sys, root, l, slot, n, edit);
        EditsKeepData(a.sys, s', root, l);
        SameDataIsSound(a, s', root);
      }
    }
  }

  lemma ShorterEdit(s: Sys, root: nat, l: nat, slot: nat, count: nat, n: nat)
    requires CanEditRange(s, root, l, slot, count) && n <= count
    ensures CanEditRange(s, root, l, slot, n)
  {
  }

  lemma TakeStepIsSound(a: Machine, root: nat, count: nat, alignment: nat, upper: nat)
    requires Sound(a, root)
    ensures match Step(a, root, Take(count, alignment, upper))
      case None => true
      case Some(b) => Sound(b, root) && KeepsData(a, b, root, [])
  {
    hide Tree, Tab;
    if alignment > 0 {
      AllocTakesLowest(a.sys.frames, count, alignment, upper);
      match Alloc(a.sys.frames, count, alignment, upper)
      case (_, None) =>
      case (frames, Some(start)) =>
        var s', run := Sys(a.sys.mem, frames), Run(start, count);
        assert AllFree(a.sys.frames.used, start, count);
        forall r | r in a.data + [run]
          ensures RunIsData(s', root, r)
        {
          if r in a.data {
            assert RunIsData(a.sys, root, r);
          }
        }
        forall r | r in a.data
          ensures Disjoint(r, run)
        {
          assert RunIsData(a.sys, root, r);
          FreshIsDisjoint(a.sys, root, r, run);
        }
    }
  }

  lemma FreshIsDisjoint(s: Sys, root: nat, r: Run, run: Run)
    requires RunIsData(s, root, r) && AllFree(s.frames.used, run.start, run.count)
    ensures Disjoint(r, run)
  {
    var f := if r.start <= run.start then run.start else r.start;
    assert InRun(r, f) ==> f < |s.frames.used| && IsData(s, root, f);
    assert InRun(run, f) ==> f < |s.frames.used| && !s.frames.used[f];
  }

  /** Freeing data leaves what is reserved besides it reserved. */
  lemma FreeReserves(b: Bitmap, run: Run, f: nat)
    requires Reserved(b, f) && !InRun(run, f)
    ensures Reserved(Free(b, run.start, run.count), f)
  {
  }

  lemma GiveKeepsInv(s: Sys, root: nat, run: Run)
    requires Inv(s, root) && RunIsData(s, root, run)
    ensures Inv(Sys(s.mem, Free(s.frames, run.start, run.count)), root)
  {
    hide Tree, Tab, Reserved, InRun;
    var s' := Sys(s.mem, Free(s.frames, run.start, run.count));
    forall l: nat, k: nat | Tab(s.mem, root, l, k).Some?
      ensures Reserved(s'.frames, Tab(s.mem, root, l, k).value)
    {
      var f := Tab(s.mem, root, l, k).value;
      assert !NotTable(s.mem, root, f);
      FreeReserves(s.frames, run, f);
    }
  }

  lemma GiveKeepsData(s: Sys, root: nat, run: Run, f: nat)
    requires IsData(s, root, f) && !InSome([run], f)
    ensures IsData(Sys(s.mem, Free(s.frames, run.start, run.count)), root, f)
  {
    hide Tab;
    assert run in [run];
  }

  lemma WithoutAt(runs: seq<Run>, i: nat, k: nat)
    requires i < |runs| && k < |runs| - 1
    ensures |Without(runs, i)| == |runs| - 1 && Without(runs, i)[k] == runs[if k < i then k else k + 1]
  {
  }

  lemma StillThere(runs: seq<Run>, i: nat, r: Run)
    requires i < |runs| && r in runs
    ensures r in Without(runs, i) || r == runs[i]
  {
  }

  lemma GiveStepIsSound(a: Machine, root: nat, i: nat)
    requires Sound(a, root)
    ensures match Step(a, root, Give(i))
      case None => true
      case Some(b) => Sound(b, root) && KeepsData(a, b, root, GivenBy(a, Give(i)))
  {
    hide Inv, IsData, RunIsData, InSome, Disjoint, Free, Without;
    if i < |a.data| {
      var run, rest := a.data[i], Without(a.data, i);
      var s' := Sys(a.sys.mem, Free(a.sys.frames, run.start, run.count));
      assert run in a.data;
      GiveKeepsInv(a.sys, root, run);
      forall k | 0 <= k < |a.data| - 1
        ensures |rest| == |a.data| - 1 && rest[k] == a.data[if k < i then k else k + 1] && RunIsData(s', root, rest[k])
      {
        WithoutAt(a.data, i, k);
        OtherRunStays(a, root, i, if k < i then k else k + 1);
      }
      forall r | r in a.data ensures r in rest || r in [run] {
        StillThere(a.data, i, r);
      }
      forall f: nat | IsData(a.sys, root, f) && !InSome([run], f) ensures IsData(s', root, f) {
        GiveKeepsData(a.sys, root, run, f);
      }
      GiveIs(a, root, i);
      assert Sound(Machine(s', rest), root) && KeepsData(a, Machine(s', rest), root, [run]);
    }
  }

  lemma GiveIs(a: Machine, root: nat, i: nat)
    requires i < |a.data|
    ensures Step(a, root, Give(i)) ==
      Some(Machine(Sys(a.sys.mem, Free(a.sys.frames, a.data[i].start, a.data[i].count)), Without(a.data, i)))
    ensures |Free(a.sys.frames, a.data[i].start, a.data[i].count).used| == |a.sys.frames.used|
    ensures |Without(a.data, i)| == |a.data| - 1
  {
  }

  lemma OtherRunStays(a: Machine, root: nat, i: nat, k: nat)
    requires Sound(a, root) && i < |a.data| && k < |a.data| && k != i
    ensures RunIsData(Sys(a.sys.mem, Free(a.sys.frames, a.data[i].start, a.data[i].count)), root, a.data[k])
  {
    hide Tree, Tab;
    assert RunIsData(a.sys, root, a.data[k]);
    assert Disjoint(a.data[if i < k then i else k], a.data[if i < k then k else i]);
    forall f: nat | InRun(a.data[k], f) ensures !InRun(a.data[i], f) && IsData(a.sys, root, f) {
    }
  }

  lemma KeepsDataIsTransitive(a: Machine, b: Machine, c: Machine, root: nat, given: seq<Run>, more: seq<Run>)
    requires KeepsData(a, b, root, given) && KeepsData(b, c, root, more)
    ensures KeepsData(a, c, root, given + more)
  {
    hide IsData;
    forall f: nat | !InSome(given + more, f) ensures !InSome(given, f) && !InSome(more, f) {
      forall r | r in given || r in more ensures !InRun(r, f) {
        assert r in given + more;
      }
    }
  }

  /** After any run the tables are still a tree, marked used and apart from all data; the data that
      is out is pairwise disjoint, and what was not given back is still out, with its content. */
  lemma {:induction false} RunsStaySound(a: Machine, root: nat, ops: seq<Op>)
    requires Sound(a, root)
    ensures match Steps(a, root, ops)
      case None => true
      case Some(b) => Sound(b, root) && KeepsData(a, b, root, GivenBack(a, root, ops))
    decreases |ops|
  {
    hide Sound, Step, IsData, KeepsData, GivenBy;
    if ops == [] {
      NothingGiven(a, root);
    } else {
      var op := ops[0];
      StepIsSound(a, root, op);
      match Step(a, root, op)
      case None =>
      case Some(b) =>
        RunsStaySound(b, root, ops[1..]);
        match Steps(b, root, ops[1..])
        case None =>
        case Some(c) => KeepsDataIsTransitive(a, b, c, root, GivenBy(a, op), GivenBack(b, root, ops[1..]));
    }
  }

  lemma NothingGiven(a: Machine, root: nat)
    ensures KeepsData(a, a, root, [])
  {
  }

  lemma StepIsSound(a: Machine, root: nat, op: Op)
    requires Sound(a, root)
    ensures match Step(a, root, op)
      case None => true
      case Some(b) => Sound(b, root) && KeepsData(a, b, root, GivenBy(a, op))
  {
    hide Sound, Step, IsData, KeepsData;
    match op {
      case Map(l, slot, page, count, perms) => MapStepIsSound(a, root, l, slot, page, count, perms);
      case Change(l, slot, count, edit) => ChangeStepIsSound(a, root, l, slot, count, edit);
      case Take(count, alignment, upper) => TakeStepIsSound(a, root, count, alignment, upper);
      case Give(i) => GiveStepIsSound(a, root, i);
    }
  }

  /** A table frame is referenced by at most one entry of all tables. */
  lemma OneReference(s: Sys, root: nat, l: nat, t: nat, l': nat, t': nat)
    requires Inv(s, root) && 2 <= l <= 4 && 2 <= l' <= 4
    requires IsTable(Slot(s.mem, root, l, t)) && IsTable(Slot(s.mem, root, l', t'))
    requires Slot(s.mem, root, l, t).page == Slot(s.mem, root, l', t').page
    ensures l == l' && t == t'
  {
    assert Tab(s.mem, root, l - 1, t) == Some(Slot(s.mem, root, l, t).page);
    assert Tab(s.mem, root, l' - 1, t') == Some(Slot(s.mem, root, l', t').page);
  }
}
