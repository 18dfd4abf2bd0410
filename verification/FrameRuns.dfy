/** Whole runs of `alloc` and of `free` of what is outstanding. */
module FrameRuns {
  import opened Wrappers
  import opened Frames
  import FrameInit

  type Positive = n: nat | n >= 1 witness 1

  /** GiveBack(i) frees the i-th outstanding run. */
  datatype Request = Take(count: nat, alignment: Positive, upper: nat) | GiveBack(i: nat)

  datatype Ledger = Ledger(bits: Bitmap, runs: seq<Run>)

  function Step(g: Ledger, r: Request): Ledger {
    match r
    case Take(count, alignment, upper) =>
      (match Alloc(g.bits, count, alignment, upper)
       case (_, None) => g
       case (bits, Some(start)) => Ledger(bits, g.runs + [Run(start, count)]))
    case GiveBack(i) =>
      if i < |g.runs| then Ledger(Free(g.bits, g.runs[i].start, g.runs[i].count), g.runs[..i] + g.runs[i + 1..]) else g
  }

  function Steps(g: Ledger, rs: seq<Request>): Ledger
    decreases |rs|
  {
    if rs == [] then g else Steps(Step(g, rs[0]), rs[1..])
  }

  function Total(runs: seq<Run>): nat {
    if runs == [] then 0 else runs[0].count + Total(runs[1..])
  }

  predicate Outstanding(runs: seq<Run>, f: nat) { exists r :: r in runs && InRun(r, f) }

  /** The books agree with the bitmap b0 that the run of requests began with. */
  ghost predicate Balanced(b0: Bitmap, g: Ledger) {
    && |g.bits.used| == |b0.used| && g.bits.len == b0.len && g.bits.total == b0.total
    && (forall r :: r in g.runs ==> BASE <= r.start < b0.len && AllFree(b0.used, r.start, r.count))
    && (forall i, j :: 0 <= i < j < |g.runs| ==> Disjoint(g.runs[i], g.runs[j]))
    && (forall f :: 0 <= f < |b0.used| ==> (g.bits.used[f] <==> b0.used[f] || Outstanding(g.runs, f)))
    && (b0.total != 0 ==> g.bits.free + Total(g.runs) == b0.free)
  }

  lemma {:induction false} TotalOfConcat(a: seq<Run>, b: seq<Run>)
    ensures Total(a + b) == Total(a) + Total(b)
  {
    if a == [] {
      assert a + b == b;
    } else {
      assert (a + b)[1..] == a[1..] + b;
      TotalOfConcat(a[1..], b);
    }
  }

  lemma FreshRun(b0: Bitmap, g: Ledger, run: Run)
    requires Balanced(b0, g) && AllFree(g.bits.used, run.start, run.count)
    ensures AllFree(b0.used, run.start, run.count)
    ensures forall r :: r in g.runs ==> Disjoint(r, run)
  {
    forall f | run.start <= f < run.start + run.count
      ensures !b0.used[f]
    {
      assert !g.bits.used[f];
    }
    forall r | r in g.runs
      ensures Disjoint(r, run)
    {
      var f := if r.start <= run.start then run.start else r.start;
      assert InRun(r, f) ==> Outstanding(g.runs, f);
      assert InRun(run, f) ==> !g.bits.used[f];
    }
  }

  lemma OneMoreOutstanding(runs: seq<Run>, run: Run, f: nat)
    ensures Outstanding(runs + [run], f) <==> Outstanding(runs, f) || InRun(run, f)
  {
    assert run in runs + [run];
  }

  lemma TakeBalances(b0: Bitmap, g: Ledger, count: nat, alignment: Positive, upper: nat)
    requires Balanced(b0, g)
    ensures Balanced(b0, Step(g, Take(count, alignment, upper)))
  {
    hide AllFree, Disjoint, Outstanding, FirstFit;
    AllocTakesLowest(g.bits, count, alignment, upper);
    match Alloc(g.bits, count, alignment, upper)
    case (_, None) =>
    case (bits, Some(start)) =>
      var run := Run(start, count);
      CandidateStart(g.bits, count, alignment, upper);
      TotalOfConcat(g.runs, [run]);
      FreshRun(b0, g, run);
      forall f: nat | f < |b0.used|
        ensures Outstanding(g.runs + [run], f) <==> Outstanding(g.runs, f) || InRun(run, f)
      {
        OneMoreOutstanding(g.runs, run, f);
      }
  }

  lemma CandidateStart(b: Bitmap, count: nat, alignment: Positive, upper: nat)
    ensures match Alloc(b, count, alignment, upper).1
      case None => true
      case Some(start) => BASE <= start < b.len && AllFree(b.used, start, count)
  {
    AllocTakesLowest(b, count, alignment, upper);
  }

  /** Giving back what was just taken undoes it, but for the counter while `total_pages` is not set. */
  lemma GiveBackUndoesTake(g: Ledger, count: nat, alignment: Positive, upper: nat)
    requires Alloc(g.bits, count, alignment, upper).1.Some?
    ensures var back := Step(Step(g, Take(count, alignment, upper)), GiveBack(|g.runs|));
      && back.runs == g.runs && back.bits.used == g.bits.used
      && back.bits == g.bits.(free := if g.bits.total != 0 then g.bits.free else g.bits.free + count)
  {
    hide FirstFit;
    CandidateStart(g.bits, count, alignment, upper);
    AllocTakesLowest(g.bits, count, alignment, upper);
    var start := Alloc(g.bits, count, alignment, upper).1.value;
    var used := Fill(g.bits.used, start, count, true);
    assert Fill(used, start, count, false) == g.bits.used;
    var runs := g.runs + [Run(start, count)];
    assert runs[..|g.runs|] + runs[|g.runs| + 1..] == g.runs;
  }

  lemma TotalWithout(runs: seq<Run>, i: nat)
    requires i < |runs|
    ensures Total(runs[..i] + runs[i + 1..]) == Total(runs) - runs[i].count
  {
    hide Total;
    assert runs == runs[..i] + ([runs[i]] + runs[i + 1..]);
    TotalOfOne(runs[i]);
    TotalOfConcat(runs[..i], [runs[i]] + runs[i + 1..]);
    TotalOfConcat([runs[i]], runs[i + 1..]);
    TotalOfConcat(runs[..i], runs[i + 1..]);
  }

  lemma GiveBackBalances(b0: Bitmap, g: Ledger, i: nat)
    requires Balanced(b0, g)
    ensures Balanced(b0, Step(g, GiveBack(i)))
  {
    hide Outstanding, Total, Disjoint;
    if i < |g.runs| {
      var run, rest := g.runs[i], g.runs[..i] + g.runs[i + 1..];
      assert run in g.runs;
      TotalWithout(g.runs, i);
      forall f: nat | f < |b0.used|
        ensures Outstanding(rest, f) <==> Outstanding(g.runs, f) && !InRun(run, f)
        ensures InRun(run, f) ==> !b0.used[f]
      {
        OthersOutstanding(g.runs, i, f);
      }
    }
  }

  lemma OthersOutstanding(runs: seq<Run>, i: nat, f: nat)
    requires i < |runs| && forall k, j :: 0 <= k < j < |runs| ==> Disjoint(runs[k], runs[j])
    ensures Outstanding(runs[..i] + runs[i + 1..], f) <==> Outstanding(runs, f) && !InRun(runs[i], f)
  {
    var rest := runs[..i] + runs[i + 1..];
    forall k | 0 <= k < |rest| && InRun(rest[k], f)
      ensures Outstanding(runs, f) && !InRun(runs[i], f)
    {
      var k' := if k < i then k else k + 1;
      assert rest[k] == runs[k'] && runs[k'] in runs;
    }
    forall k | 0 <= k < |runs| && k != i && InRun(runs[k], f)
      ensures Outstanding(rest, f)
    {
      assert runs[k] == rest[if k < i then k else k - 1];
    }
  }

  /** After any run of requests the outstanding runs are pairwise disjoint, a bit is set if and
      only if its page was reserved at first or is outstanding, and, once `total_pages` is set,
      the free counter plus the outstanding pages is what it was at first. */
  lemma {:induction false} StepsBalance(b0: Bitmap, g: Ledger, rs: seq<Request>)
    requires Balanced(b0, g)
    ensures Balanced(b0, Steps(g, rs))
    decreases |rs|
  {
    hide Balanced, Step;
    if rs != [] {
      match rs[0] {
        case Take(count, alignment, upper) => TakeBalances(b0, g, count, alignment, upper);
        case GiveBack(i) => GiveBackBalances(b0, g, i);
      }
      StepsBalance(b0, Step(g, rs[0]), rs[1..]);
    }
  }

  /** While `total_pages` is zero `alloc` does not count what it takes: a call keeps the balance
      of the counter if and only if the total is set, or nothing is taken. */
  lemma TakeConservesIff(g: Ledger, count: nat, alignment: Positive, upper: nat)
    ensures var g' := Step(g, Take(count, alignment, upper));
      g'.bits.free + Total(g'.runs) == g.bits.free + Total(g.runs)
      <==> g.bits.total != 0 || count == 0 || forall k: nat :: !Fits(g.bits, count, alignment, upper, k)
  {
    hide FirstFit, Fits, Total;
    AllocTakesLowest(g.bits, count, alignment, upper);
    match Alloc(g.bits, count, alignment, upper)
    case (_, None) =>
    case (_, Some(start)) =>
      TotalOfConcat(g.runs, [Run(start, count)]);
      TotalOfOne(Run(start, count));
  }

  lemma TotalOfOne(r: Run)
    ensures Total([r]) == r.count
  {
  }

  /** The bitmap ends in front of a reserved bit, or in one. */
  predicate Guarded(b: Bitmap)
    requires b.len < |b.used|
  {
    b.len <= BASE || b.used[b.len - 1] || b.used[b.len]
  }

  /** Some outstanding run reaches past the end of the bitmap. */
  ghost predicate Overruns(g: Ledger) { exists r :: r in g.runs && r.start + r.count > g.bits.len }

  ghost predicate StaysInside(b0: Bitmap, rs: seq<Request>) { !Overruns(Steps(Ledger(b0, []), rs)) }

  lemma OverrunIsUnguarded(b0: Bitmap, g: Ledger)
    requires b0.len < |b0.used| && Balanced(b0, g) && Overruns(g)
    ensures !Guarded(b0)
  {
    var r :| r in g.runs && r.start + r.count > g.bits.len;
    assert !b0.used[b0.len - 1] && !b0.used[b0.len];
  }

  /** Taking single pages until only the last is left below the end makes a two-page call overrun. */
  lemma {:induction false} Overrun(g: Ledger) returns (rs: seq<Request>)
    requires BASE < g.bits.len < |g.bits.used| && !g.bits.used[g.bits.len - 1] && !g.bits.used[g.bits.len]
    ensures Overruns(Steps(g, rs))
    decreases Clear(g.bits.used, BASE, g.bits.len - 1)
  {
    var used, last := g.bits.used, g.bits.len - 1;
    ClearIsPositive(used, BASE, last);
    if Clear(used, BASE, last) == 0 {
      rs := [Take(2, 1, 0)];
      OverrunNow(g);
      assert Steps(g, rs) == Step(g, rs[0]);
    } else {
      var op := Take(1, 1, 0);
      OneLess(g);
      var rest := Overrun(Step(g, op));
      rs := [op] + rest;
    }
  }

  lemma OverrunNow(g: Ledger)
    requires BASE < g.bits.len < |g.bits.used| && !g.bits.used[g.bits.len - 1] && !g.bits.used[g.bits.len]
    requires forall j :: BASE <= j < g.bits.len - 1 ==> g.bits.used[j]
    ensures Overruns(Step(g, Take(2, 1, 0)))
  {
    var last := g.bits.len - 1;
    AllocTakesLowest(g.bits, 2, 1, 0);
    assert Candidate(last - BASE, 1) == last;
    assert Fits(g.bits, 2, 1, 0, last - BASE);
    var start := Alloc(g.bits, 2, 1, 0).1.value;
    assert start == last by {
      assert !g.bits.used[start];
    }
    assert Run(start, 2) in Step(g, Take(2, 1, 0)).runs;
  }

  lemma OneLess(g: Ledger)
    requires BASE < g.bits.len < |g.bits.used| && exists j :: BASE <= j < g.bits.len - 1 && !g.bits.used[j]
    ensures var bits := Step(g, Take(1, 1, 0)).bits;
      && bits.len == g.bits.len && |bits.used| == |g.bits.used|
      && (forall j :: g.bits.len - 1 <= j < |bits.used| ==> bits.used[j] == g.bits.used[j])
      && Clear(bits.used, BASE, g.bits.len - 1) == Clear(g.bits.used, BASE, g.bits.len - 1) - 1
  {
    var j :| BASE <= j < g.bits.len - 1 && !g.bits.used[j];
    AllocTakesLowest(g.bits, 1, 1, 0);
    assert Candidate(j - BASE, 1) == j;
    assert Fits(g.bits, 1, 1, 0, j - BASE);
    var start := Alloc(g.bits, 1, 1, 0).1.value;
    assert start <= j;
    ClearAfterFill(g.bits.used, BASE, g.bits.len - 1, start, 1);
  }

  /** The source never checks the end of a run: every run of requests stays inside the bitmap
      if and only if the bitmap is guarded. */
  lemma InsideIffGuarded(b0: Bitmap)
    requires b0.len < |b0.used|
    ensures (forall rs :: StaysInside(b0, rs)) <==> Guarded(b0)
  {
    var g := Ledger(b0, []);
    if Guarded(b0) {
      forall rs
        ensures StaysInside(b0, rs)
      {
        StepsBalance(b0, g, rs);
        if Overruns(Steps(g, rs)) {
          OverrunIsUnguarded(b0, Steps(g, rs));
        }
      }
    } else {
      var rs := Overrun(g);
      assert !StaysInside(b0, rs);
    }
  }

  /** The counter, and the clear bits below the end of the bitmap, each together with what is
      outstanding. */
  predicate Steady(free: int, clear: int, g: Ledger) {
    && g.bits.len <= |g.bits.used|
    && g.bits.free + Total(g.runs) == free && Clear(g.bits.used, 0, g.bits.len) + Total(g.runs) == clear
  }

  lemma TakeIsSteady(b0: Bitmap, g: Ledger, count: nat, alignment: Positive, upper: nat, free: int, clear: int)
    requires Balanced(b0, g) && b0.len < |b0.used| && b0.used[b0.len]
    requires Steady(free, clear, g) && (b0.total == 0 ==> clear == 0)
    ensures Steady(free, clear, Step(g, Take(count, alignment, upper)))
  {
    hide Total, FirstFit, Disjoint, Outstanding;
    CandidateStart(g.bits, count, alignment, upper);
    AllocTakesLowest(g.bits, count, alignment, upper);
    match Alloc(g.bits, count, alignment, upper)
    case (_, None) =>
    case (_, Some(start)) =>
      TotalOfConcat(g.runs, [Run(start, count)]);
      TotalOfOne(Run(start, count));
      assert start + count <= b0.len by {
        assert g.bits.used[b0.len];
      }
      ClearAfterFill(g.bits.used, 0, b0.len, start, count);
  }

  lemma GiveBackIsSteady(b0: Bitmap, g: Ledger, i: nat, free: int, clear: int)
    requires Balanced(b0, g) && b0.len < |b0.used| && b0.used[b0.len] && Steady(free, clear, g)
    ensures Steady(free, clear, Step(g, GiveBack(i)))
  {
    hide Total, Disjoint;
    if i < |g.runs| {
      var run := g.runs[i];
      TotalWithout(g.runs, i);
      assert run in g.runs;
      assert run.start + run.count <= b0.len by {
        assert !AllFree(b0.used, b0.len, 1);
      }
      forall j | run.start <= j < run.start + run.count ensures g.bits.used[j] {
        assert InRun(run, j) && Outstanding(g.runs, j);
      }
      FrameInit.ClearAfterFree(g.bits.used, 0, b0.len, run.start, run.count);
    }
  }

  lemma {:induction false} StepsAreSteady(b0: Bitmap, g: Ledger, rs: seq<Request>, free: int, clear: int)
    requires Balanced(b0, g) && b0.len < |b0.used| && b0.used[b0.len]
    requires Steady(free, clear, g) && (b0.total == 0 ==> clear == 0)
    ensures Steady(free, clear, Steps(g, rs))
    decreases |rs|
  {
    hide Balanced, Steady, Step;
    if rs != [] {
      match rs[0] {
        case Take(count, alignment, upper) =>
          TakeBalances(b0, g, count, alignment, upper);
          TakeIsSteady(b0, g, count, alignment, upper, free, clear);
        case GiveBack(i) =>
          GiveBackBalances(b0, g, i);
          GiveBackIsSteady(b0, g, i, free, clear);
      }
      StepsAreSteady(b0, Step(g, rs[0]), rs[1..], free, clear);
    }
  }

  /** From boot on, over every run of requests, `free_pages` is the number of clear bits, and more by
      the pages of the bitmap that a region gave and by those given again, and less by the pages that
      were clear though no region gave them. */
  lemma CounterAfterBoot(b0: Bitmap, mmap: seq<FrameInit.Region>, rs: seq<Request>)
    requires FrameInit.Countable(b0, mmap) && b0.free == 0
    ensures var g := Steps(Ledger(FrameInit.Init(b0, mmap), []), rs);
      && g.bits.len == FrameInit.BitmapLen(mmap) <= |g.bits.used|
      && g.bits.free + |FrameInit.OnlyStray(b0, mmap)| ==
           Clear(g.bits.used, 0, g.bits.len) + |FrameInit.OwnGiven(mmap)| + FrameInit.Recounted(mmap, |mmap|)
  {
    hide FrameInit.Init, FrameInit.OwnGiven, FrameInit.OnlyStray, FrameInit.AllGiven, FrameInit.Recounted,
      FrameInit.BitmapLen, Balanced, Step;
    var b := FrameInit.Init(b0, mmap);
    FrameInit.BootedBitmap(b0, mmap);
    var g0, clear := Ledger(b, []), Clear(b.used, 0, b.len);
    FrameInit.InitAccounts(b0, mmap);
    FrameInit.NoTotalNoPages(b0, mmap);
    assert Balanced(b, g0) by { NothingTaken(b); }
    StepsAreSteady(b, g0, rs, b.free, clear);
    StepsBalance(b, g0, rs);
    BalancedLen(b, Steps(g0, rs));
  }

  /** The counter is the number of clear bits. */
  predicate Exact(b: Bitmap)
    requires b.len <= |b.used|
  {
    b.free == Clear(b.used, 0, b.len)
  }

  /** After any run since boot the counter is exact if and only if it was after `init`. */
  lemma CounterExactIff(b0: Bitmap, mmap: seq<FrameInit.Region>, rs: seq<Request>)
    requires FrameInit.Countable(b0, mmap) && b0.free == 0
    ensures var b := Steps(Ledger(FrameInit.Init(b0, mmap), []), rs).bits;
      && b.len <= |b.used|
      && (Exact(b) <==>
           |FrameInit.OwnGiven(mmap)| + FrameInit.Recounted(mmap, |mmap|) == |FrameInit.OnlyStray(b0, mmap)|)
      && (FrameInit.TailReserved(b0, mmap) ==>
            (Exact(b) <==> FrameInit.KeepsBitmap(mmap) && FrameInit.GivenOnce(mmap)))
  {
    hide FrameInit.Init, FrameInit.TailReserved, FrameInit.Countable, FrameInit.OwnGiven, FrameInit.OnlyStray,
      FrameInit.KeepsBitmap, FrameInit.GivenOnce, Step;
    CounterAfterBoot(b0, mmap, rs);
    FrameInit.OverIff(mmap);
    if FrameInit.TailReserved(b0, mmap) {
      FrameInit.NothingStray(b0, mmap);
    }
  }

  lemma NothingTaken(b: Bitmap)
    ensures Balanced(b, Ledger(b, []))
  {
  }

  lemma BalancedLen(b0: Bitmap, g: Ledger)
    requires Balanced(b0, g)
    ensures g.bits.len == b0.len
  {
  }
}
