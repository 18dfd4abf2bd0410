/** How many frames a mapping call takes: one for every missing table on its range. */
module FrameBudget {
  import opened Wrappers
  import opened Paging
  import opened Frames
  import opened Tables
  import opened Mapping

  /** The tables of level l missing among numbers lo .. hi. */
  function MissingIn(m: Memory, root: nat, l: nat, lo: nat, hi: nat): nat
    decreases hi - lo
  {
    if lo >= hi then 0 else MissingIn(m, root, l, lo, hi - 1) + if Tab(m, root, l, hi - 1) == None then 1 else 0
  }

  /** The tables missing on level l and above for level-l table numbers lo .. hi, both included. */
  function Need(m: Memory, root: nat, l: nat, lo: nat, hi: nat): nat
    decreases 4 - l
  {
    if l >= 4 then 0
    else MissingIn(m, root, l, lo, hi + 1) + Need(m, root, l + 1, lo / 512, hi / 512)
  }

  /** Table t of level j lies above some level-l table between lo and hi. */
  predicate Above(l: nat, lo: nat, hi: nat, j: nat, t: nat) { l <= j && Up(l, lo, j) <= t <= Up(l, hi, j) }

  /** The tables there are after a mapping call: those there were and those above its range. */
  lemma {:induction false} MapRangeTabs(s: Sys, root: nat, l: nat, slot: nat, page: nat, count: nat, perms: bv12,
          j: nat, t: nat)
    requires CanMapRange(s, root, l, slot, count, perms) && count > 0 && l <= j <= 3
    ensures match MapRange(s, root, l, slot, page, count, perms)
      case None => true
      case Some(s') => Tab(s'.mem, root, j, t).Some? <==>
        Tab(s.mem, root, j, t).Some? || Above(l, slot / 512, (slot + (count - 1)) / 512, j, t)
  {
    hide Inv, Maps, MapOne, CanMap, Tab;
    var x, p := slot + (count - 1), PageAt(l, page, count - 1);
    MapRangeMaps(s, root, l, slot, page, count - 1, perms);
    match MapRange(s, root, l, slot, page, count - 1, perms)
    case None =>
    case Some(s1) =>
      MapStep(s, s1, root, l, slot, x, p, perms, count);
      MapOneTabs(s1, root, l, x, p, perms, j, t);
      if count > 1 {
        MapRangeTabs(s, root, l, slot, page, count - 1, perms, j, t);
      }
  }

  lemma {:induction false} MissingInExtends(s: Sys, s1: Sys, root: nat, j: nat, lo: nat, hi: nat, hi': nat)
    requires lo <= hi <= hi' <= hi + 1
    requires Tab(s1.mem, root, j, hi') == None <==> Tab(s.mem, root, j, hi') == None && hi' != hi
    ensures MissingIn(s.mem, root, j, lo, hi' + 1) ==
      MissingIn(s.mem, root, j, lo, hi + 1) + if Tab(s1.mem, root, j, hi') == None then 1 else 0
  {
  }

  /** What is missing on the next page's path after the pages before it are mapped. */
  lemma {:induction false} NeedExtends(s: Sys, s1: Sys, root: nat, l: nat, lo: nat, hi: nat, hi': nat)
    requires lo <= hi <= hi' <= hi + 1
    requires forall j, t :: l <= j <= 3 ==>
      (Tab(s1.mem, root, j, t).Some? <==> Tab(s.mem, root, j, t).Some? || Above(l, lo, hi, j, t))
    ensures Need(s.mem, root, l, lo, hi') == Need(s.mem, root, l, lo, hi) + Missing(s1.mem, root, l, hi')
    decreases 4 - l
  {
    hide Tab;
    if l < 4 {
      assert Above(l, lo, hi, l, hi') <==> hi' == hi;
      MissingInExtends(s, s1, root, l, lo, hi, hi');
      assert forall j, t :: l < j <= 3 ==> (Above(l, lo, hi, j, t) <==> Above(l + 1, lo / 512, hi / 512, j, t));
      NeedExtends(s, s1, root, l + 1, lo / 512, hi / 512, hi' / 512);
    }
  }

  lemma {:induction false} NeedOfOne(m: Memory, root: nat, l: nat, k: nat)
    ensures Need(m, root, l, k, k) == Missing(m, root, l, k)
    decreases 4 - l
  {
    if l < 4 {
      NeedOfOne(m, root, l + 1, k / 512);
      assert MissingIn(m, root, l, k, k) == 0;
    }
  }

  lemma ShorterRange(s: Sys, root: nat, l: nat, slot: nat, count: nat, perms: bv12)
    requires CanMapRange(s, root, l, slot, count, perms) && count > 0
    ensures CanMapRange(s, root, l, slot, count - 1, perms)
    ensures s.frames.len <= |s.frames.used|
  {
    hide Tree, Tab, SmallPath;
  }

  lemma TableSteps(slot: nat, x: nat)
    requires slot < x
    ensures slot / 512 <= (x - 1) / 512 <= x / 512 <= (x - 1) / 512 + 1
  {
  }

  /** The last page of a range: what its step takes on top of the pages before it. */
  lemma LastStepBudget(s: Sys, s1: Sys, root: nat, l: nat, slot: nat, page: nat, count: nat, perms: bv12)
    requires CanMapRange(s, root, l, slot, count, perms) && count > 0
    requires MapRange(s, root, l, slot, page, count - 1, perms) == Some(s1)
    ensures var x, r := slot + (count - 1), MapRange(s, root, l, slot, page, count, perms);
      && s1.frames.len <= |s1.frames.used|
      && (r.Some? <==> Missing(s1.mem, root, l, x / 512) <= ClearFrames(s1))
      && (r.Some? ==>
            && r.value.frames.len <= |r.value.frames.used|
            && ClearFrames(r.value) == ClearFrames(s1) - Missing(s1.mem, root, l, x / 512))
  {
    hide Inv, Maps, MapOne, CanMap, CanMapRange, Tab, Missing, Frames.Clear, PageAt;
    var x, p := slot + (count - 1), PageAt(l, page, count - 1);
    ShorterRange(s, root, l, slot, count, perms);
    MapRangeMaps(s, root, l, slot, page, count - 1, perms);
    MapStep(s, s1, root, l, slot, x, p, perms, count);
    MapOneMaps(s1, root, l, x, p, perms);
    FramesInside(s1, root);
    match MapOne(s1, root, l, x, p, perms)
    case None =>
    case Some(s') => FramesInside(s', root);
  }

  lemma FramesInside(s: Sys, root: nat)
    requires Inv(s, root)
    ensures s.frames.len <= |s.frames.used|
  {
  }

  /** A mapping call succeeds if and only if there is a clear bit for every missing table on
      its range, and then takes exactly that many frames. */
  lemma {:induction false} MapRangeBudget(s: Sys, root: nat, l: nat, slot: nat, page: nat, count: nat, perms: bv12)
    requires CanMapRange(s, root, l, slot, count, perms) && count > 0
    ensures var need := Need(s.mem, root, l, slot / 512, (slot + (count - 1)) / 512);
      match MapRange(s, root, l, slot, page, count, perms)
      case None => need > ClearFrames(s)
      case Some(s') => s'.frames.len <= |s'.frames.used| && ClearFrames(s') == ClearFrames(s) - need
  {
    hide Inv, MapOne, CanMapRange, Tab, Missing, Need, Frames.Clear, PageAt;
    var lo, x := slot / 512, slot + (count - 1);
    ShorterRange(s, root, l, slot, count, perms);
    if count == 1 {
      NeedOfOne(s.mem, root, l, lo);
    } else {
      MapRangeBudget(s, root, l, slot, page, count - 1, perms);
      TableSteps(slot, x);
      NeedMonotone(s.mem, root, l, lo, (x - 1) / 512, x / 512);
    }
    match MapRange(s, root, l, slot, page, count - 1, perms)
    case None =>
    case Some(s1) =>
      LastStepBudget(s, s1, root, l, slot, page, count, perms);
      if count > 1 {
        NeedNext(s, s1, root, l, slot, page, count, perms);
      }
  }

  lemma NeedNext(s: Sys, s1: Sys, root: nat, l: nat, slot: nat, page: nat, count: nat, perms: bv12)
    requires CanMapRange(s, root, l, slot, count, perms) && count > 1
    requires MapRange(s, root, l, slot, page, count - 1, perms) == Some(s1)
    ensures var lo, x := slot / 512, slot + (count - 1);
      Need(s.mem, root, l, lo, x / 512) == Need(s.mem, root, l, lo, (x - 1) / 512) + Missing(s1.mem, root, l, x / 512)
  {
    hide Inv, MapOne, CanMapRange, Tab, Missing, Need, Above;
    var lo, x := slot / 512, slot + (count - 1);
    ShorterRange(s, root, l, slot, count, perms);
    forall j: nat, t: nat | l <= j <= 3
      ensures Tab(s1.mem, root, j, t).Some? <==> Tab(s.mem, root, j, t).Some? || Above(l, lo, (x - 1) / 512, j, t)
    {
      MapRangeTabs(s, root, l, slot, page, count - 1, perms, j, t);
    }
    TableSteps(slot, x);
    NeedExtends(s, s1, root, l, lo, (x - 1) / 512, x / 512);
  }

  lemma {:induction false} NeedMonotone(m: Memory, root: nat, l: nat, lo: nat, hi: nat, hi': nat)
    requires lo <= hi <= hi' <= hi + 1
    ensures Need(m, root, l, lo, hi) <= Need(m, root, l, lo, hi')
    decreases 4 - l
  {
    hide Tab;
    if l < 4 {
      NeedMonotone(m, root, l + 1, lo / 512, hi / 512, hi' / 512);
    }
  }

  lemma {:induction false} MissingInBound(m: Memory, root: nat, l: nat, lo: nat, hi: nat)
    requires lo <= hi
    ensures MissingIn(m, root, l, lo, hi) <= hi - lo
    ensures (forall t :: lo <= t < hi ==> Tab(m, root, l, t).Some?) ==> MissingIn(m, root, l, lo, hi) == 0
    ensures (forall t :: lo <= t < hi ==> Tab(m, root, l, t) == None) ==> MissingIn(m, root, l, lo, hi) == hi - lo
    decreases hi - lo
  {
    if lo < hi {
      MissingInBound(m, root, l, lo, hi - 1);
    }
  }

  /** The tables that count consecutive pages can lie in, over tables of s pages each. */
  function TablesFor(count: nat, s: nat): nat
    requires count > 0 && s > 1
  {
    (count + s - 2) / s + 1
  }

  lemma TablesBetween(slot: nat, count: nat)
    requires count > 0
    ensures (slot + (count - 1)) / 512 - slot / 512 + 1 <= TablesFor(count, 512)
    ensures (slot + (count - 1)) / 512 / 512 - slot / 512 / 512 + 1 <= TablesFor(count, 512 * 512)
    ensures (slot + (count - 1)) / 512 / 512 / 512 - slot / 512 / 512 / 512 + 1 <= TablesFor(count, 512 * 512 * 512)
  {
  }

  lemma NeedBound(m: Memory, root: nat, slot: nat, count: nat)
    requires count > 0
    ensures Need(m, root, 1, slot / 512, (slot + (count - 1)) / 512)
         <= TablesFor(count, 512) + TablesFor(count, 512 * 512) + TablesFor(count, 512 * 512 * 512)
    ensures TablesFor(count, 512) + TablesFor(count, 512 * 512) + TablesFor(count, 512 * 512 * 512) ==
      ((count + 510) / 512 + 1) + ((count + 0x3_FFFE) / 0x4_0000 + 1) + ((count + 0x7FF_FFFE) / 0x800_0000 + 1)
  {
    hide Tab, MissingIn;
    var lo, hi := slot / 512, (slot + (count - 1)) / 512;
    var lo2, hi2 := lo / 512, hi / 512;
    TablesBetween(slot, count);
    MissingInBound(m, root, 1, lo, hi + 1);
    MissingInBound(m, root, 2, lo2, hi2 + 1);
    MissingInBound(m, root, 3, lo2 / 512, hi2 / 512 + 1);
    assert Need(m, root, 3, lo2 / 512, hi2 / 512) == MissingIn(m, root, 3, lo2 / 512, hi2 / 512 + 1);
  }

  lemma TablesFromLast(count: nat)
    requires count > 0
    ensures var slot := 512 * 512 * 512 - 1;
      && (slot + (count - 1)) / 512 - slot / 512 + 1 == (count + 510) / 512 + 1
      && (slot + (count - 1)) / 512 / 512 - slot / 512 / 512 + 1 == (count + 0x3_FFFE) / 0x4_0000 + 1
      && (slot + (count - 1)) / 512 / 512 / 512 - slot / 512 / 512 / 512 + 1 == (count + 0x7FF_FFFE) / 0x800_0000 + 1
  {
  }

  /** The bound is reached, in an address space without tables, by the range that starts at the last
      page of the first 512 GiB. */
  lemma BoundIsReached(m: Memory, root: nat, count: nat)
    requires count > 0 && forall l: nat, t: nat :: 1 <= l <= 3 ==> Tab(m, root, l, t) == None
    ensures var slot := 512 * 512 * 512 - 1;
      Need(m, root, 1, slot / 512, (slot + (count - 1)) / 512) ==
        ((count + 510) / 512 + 1) + ((count + 0x3_FFFE) / 0x4_0000 + 1) + ((count + 0x7FF_FFFE) / 0x800_0000 + 1)
  {
    hide Tab, MissingIn;
    var slot := 512 * 512 * 512 - 1;
    var lo, hi := slot / 512, (slot + (count - 1)) / 512;
    var lo2, hi2 := lo / 512, hi / 512;
    TablesFromLast(count);
    MissingInBound(m, root, 1, lo, hi + 1);
    MissingInBound(m, root, 2, lo2, hi2 + 1);
    MissingInBound(m, root, 3, lo2 / 512, hi2 / 512 + 1);
    assert Need(m, root, 3, lo2 / 512, hi2 / 512) == MissingIn(m, root, 3, lo2 / 512, hi2 / 512 + 1);
  }

  /** With the frames that the bound asks for, no null table is reached. */
  lemma EnoughFrames(s: Sys, root: nat, slot: nat, page: nat, count: nat, perms: bv12)
    requires CanMapRange(s, root, 1, slot, count, perms) && count > 0
    requires ClearFrames(s) >= TablesFor(count, 512) + TablesFor(count, 512 * 512) + TablesFor(count, 512 * 512 * 512)
    ensures MapRange(s, root, 1, slot, page, count, perms).Some?
  {
    hide Inv, Tab;
    NeedBound(s.mem, root, slot, count);
    MapRangeBudget(s, root, 1, slot, page, count, perms);
  }

  lemma {:induction false} NothingNeeded(m: Memory, root: nat, l: nat, lo: nat, hi: nat)
    requires lo <= hi && forall j, t :: j <= 3 && Above(l, lo, hi, j, t) ==> Tab(m, root, j, t).Some?
    ensures Need(m, root, l, lo, hi) == 0
    decreases 4 - l
  {
    hide Tab;
    if l < 4 {
      assert forall t :: lo <= t < hi + 1 ==> Above(l, lo, hi, l, t);
      MissingInBound(m, root, l, lo, hi + 1);
      assert forall j, t :: Above(l + 1, lo / 512, hi / 512, j, t) ==> Above(l, lo, hi, j, t);
      NothingNeeded(m, root, l + 1, lo / 512, hi / 512);
    }
  }

  /** Mapping a range again always succeeds and takes no frame. */
  lemma RemapIsFree(s: Sys, root: nat, l: nat, slot: nat, page: nat, page': nat, count: nat, perms: bv12)
    requires CanMapRange(s, root, l, slot, count, perms) && count > 0
    ensures match MapRange(s, root, l, slot, page, count, perms)
      case None => true
      case Some(s') =>
        match MapRange(s', root, l, slot, page', count, perms)
        case None => false
        case Some(s'') => Inv(s', root) && Inv(s'', root) && ClearFrames(s'') == ClearFrames(s')
  {
    hide Maps, MapRange, Tab, Tree;
    var lo, hi := slot / 512, (slot + (count - 1)) / 512;
    match MapRange(s, root, l, slot, page, count, perms)
    case None =>
    case Some(s') =>
      forall j: nat, t: nat | j <= 3 && Above(l, lo, hi, j, t)
        ensures Tab(s'.mem, root, j, t).Some?
      {
        MapRangeTabs(s, root, l, slot, page, count, perms, j, t);
      }
      NothingNeeded(s'.mem, root, l, lo, hi);
      MapRangeMaps(s, root, l, slot, page, count, perms);
      CanMapAgain(s, s', root, l, slot, count, perms);
      MapRangeBudget(s', root, l, slot, page', count, perms);
      MapRangeMaps(s', root, l, slot, page', count, perms);
  }
}
