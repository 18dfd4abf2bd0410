/** Any number of CPUs running `malloc` step by step under its spinlock, each call in the address
    space that is current on its CPU. */
module Interleaving {
  import opened Wrappers
  import opened Frames
  import opened Tables
  import opened Mapping
  import opened AddressSpace
  import opened Heap
  import opened SharedHeap

  /** Where a CPU is in `malloc`. From Allocating to Releasing it is inside the lock. */
  datatype Pc =
    | Idle
    | Locking(root: nat, bytes: nat)
    | Allocating(root: nat, bytes: nat)
    | Mapping(root: nat, bytes: nat, p: nat, i: nat)
    | FirstWord(root: nat, bytes: nat, base: nat)
    | SecondWord(root: nat, bytes: nat, base: nat)
    | Releasing(result: Result)

  predicate IsInside(pc: Pc) { !pc.Idle? && !pc.Locking? }

  /** A call in the order in which the lock was taken: its CPU, the PML4 that is current on it, and
      what the call returned. */
  datatype Entry = Entry(cpu: nat, root: nat, bytes: nat, result: Option<Result>)

  /** locked is bit 0 of the lock word. */
  datatype System = System(locked: bool, heap: State, cpus: seq<Pc>, log: seq<Entry>)

  datatype Event = Invoke(cpu: nat, root: nat, bytes: nat) | Go(cpu: nat)

  /** `lock bts`: sets the bit and reports whether it was clear. */
  function TestAndSet(s: System): (System, bool) { (s.(locked := true), !s.locked) }

  /** `lock btr`. */
  function TestAndReset(s: System): System { s.(locked := false) }

  function Goto(s: System, c: nat, pc: Pc): System
    requires c < |s.cpus|
  {
    s.(cpus := s.cpus[c := pc])
  }

  function Finish(log: seq<Entry>, r: Result): seq<Entry> {
    if log == [] then log else log[|log| - 1 := log[|log| - 1].(result := Some(r))]
  }

  /** One atomic step of one CPU; None where it has none. A CPU that finds the bit set spins. */
  function Next(s: System, e: Event): Option<System> {
    if e.cpu >= |s.cpus| then None
    else
      var c := e.cpu;
      match (e, s.cpus[c])
      case (Invoke(_, root, bytes), Idle) => Some(Goto(s, c, Locking(root, bytes)))
      case (Go(_), Locking(root, bytes)) =>
        var (s', won) := TestAndSet(s);
        if won then Some(Goto(s', c, Allocating(root, bytes)).(log := s.log + [Entry(c, root, bytes, None)]))
          else Some(s')
      case (Go(_), Allocating(root, bytes)) =>
        (match Alloc(s.heap.sys.frames, PagesFor(bytes), 1, 0)
         case (_, None) => Some(Goto(s, c, Releasing(NoMemory)))
         case (frames, Some(p)) =>
           Some(Goto(s, c, Mapping(root, bytes, p, 0)).(heap := s.heap.(sys := Sys(s.heap.sys.mem, frames)))))
      case (Go(_), Mapping(root, bytes, p, i)) =>
        if i < PagesFor(bytes) then
          (match MapOne(s.heap.sys, root, 1, PageNumber(s.heap.top) + i, PageAt(1, p, i), HEAP_PERMS)
           case None => None
           case Some(sys) => Some(Goto(s, c, Mapping(root, bytes, p, i + 1)).(heap := s.heap.(sys := sys))))
        else
          var heap := s.heap.(top := s.heap.top + PAGE_SIZE * PagesFor(bytes));
          Some(Goto(s, c, FirstWord(root, bytes, s.heap.top)).(heap := heap))
      case (Go(_), FirstWord(root, bytes, base)) =>
        var m := Store(s.heap.sys.mem, root, HeaderAt(base, bytes), WordOf(Payload(bytes)));
        Some(Goto(s, c, SecondWord(root, bytes, base)).(heap := s.heap.(sys := Sys(m, s.heap.sys.frames))))
      case (Go(_), SecondWord(root, bytes, base)) =>
        var m := Store(s.heap.sys.mem, root, HeaderAt(base, bytes) + 8, WordOf(PagesFor(bytes)));
        var heap := s.heap.(sys := Sys(m, s.heap.sys.frames));
        Some(Goto(s, c, Releasing(Pointer(HeaderAt(base, bytes) + 16))).(heap := heap))
      case (Go(_), Releasing(r)) => Some(TestAndReset(Goto(s, c, Idle)).(log := Finish(s.log, r)))
      case _ => None
  }

  function Trace(s: System, es: seq<Event>): Option<System>
    decreases |es|
  {
    if es == [] then Some(s)
    else
      match Next(s, es[0])
      case None => None
      case Some(s') => Trace(s', es[1..])
  }

  /** The heap after running the calls of a log one after another. */
  function Serial(h0: State, log: seq<Entry>): State {
    if log == [] then h0 else
      Malloc(Serial(h0, log[..|log| - 1]), log[|log| - 1].root, log[|log| - 1].bytes).0
  }

  /** What the k-th call of the log returns when the calls run one after another. */
  function SerialResult(h0: State, log: seq<Entry>, k: nat): Result
    requires k < |log|
  {
    Malloc(Serial(h0, log[..k]), log[k].root, log[k].bytes).1
  }

  /** The heap in the middle of a call that started on heap h. */
  predicate Partway(h: State, root: nat, bytes: nat, pc: Pc, now: State) {
    if pc.Idle? || pc.Locking? then false
    else if pc.Releasing? then pc.result != NullTable && Malloc(h, root, bytes) == (now, pc.result)
    else
      pc.root == root && pc.bytes == bytes &&
      if pc.Allocating? then now == h
      else if pc.Mapping? then
        && Taken(h, bytes).Some? && Taken(h, bytes).value.1 == pc.p && pc.i <= PagesFor(bytes)
        && now.top == h.top && MappedSoFar(h, root, bytes, pc.i) == Some(now.sys)
      else
        var all := MappedSoFar(h, root, bytes, PagesFor(bytes));
        && all.Some? && pc.base == h.top && now.top == h.top + PAGE_SIZE * PagesFor(bytes)
        && now.sys == if pc.FirstWord? then all.value else FirstStored(all.value, root, h.top, bytes)
  }

  /** The k-th call has returned what it returns in serial order, and not through a null table. */
  predicate Returned(h0: State, log: seq<Entry>, k: nat)
    requires k < |log|
  {
    log[k].result == Some(SerialResult(h0, log, k)) && log[k].result != Some(NullTable)
  }

  /** The system is in a state that some serial order of its calls explains. */
  ghost predicate Explained(h0: State, s: System) {
    var n := |s.log|;
    && (forall c :: 0 <= c < |s.cpus| && IsInside(s.cpus[c]) ==> s.locked && n > 0 && s.log[n - 1].cpu == c)
    && (s.locked ==>
          && n > 0 && s.log[n - 1].cpu < |s.cpus| && IsInside(s.cpus[s.log[n - 1].cpu])
          && var last := s.log[n - 1];
             && last.result == None
             && Partway(Serial(h0, s.log[..n - 1]), last.root, last.bytes, s.cpus[last.cpu], s.heap))
    && (!s.locked ==> s.heap == Serial(h0, s.log))
    && (forall k :: 0 <= k < n && (k < n - 1 || !s.locked) ==> Returned(h0, s.log, k))
  }

  /** The step of the CPU inside the lock carries its call on. */
  lemma PartwayStep(h: State, root: nat, bytes: nat, s: System, c: nat)
    requires c < |s.cpus| && Partway(h, root, bytes, s.cpus[c], s.heap) && !s.cpus[c].Releasing?
    ensures match Next(s, Go(c))
      case None => true
      case Some(s') =>
        s'.log == s.log && s'.locked == s.locked && s'.cpus == s.cpus[c := s'.cpus[c]] && IsInside(s'.cpus[c])
        && Partway(h, root, bytes, s'.cpus[c], s'.heap)
  {
    hide MapOne, FirstFit, Store, HeaderAt, PagesFor, WordOf;
  }

  lemma SerialDepends(h0: State, log: seq<Entry>, log': seq<Entry>, k: nat)
    requires k < |log| && k < |log'| && log[..k] == log'[..k]
    requires log[k].root == log'[k].root && log[k].bytes == log'[k].bytes
    ensures SerialResult(h0, log, k) == SerialResult(h0, log', k)
    ensures Serial(h0, log[..k + 1]) == Serial(h0, log'[..k + 1])
  {
    hide Malloc;
    assert log[..k + 1][..k] == log[..k] && log'[..k + 1][..k] == log'[..k];
  }

  /** Steps outside the lock: a call begins, or a CPU spins. */
  lemma WaitingStep(h0: State, s: System, e: Event)
    requires Explained(h0, s) && e.cpu < |s.cpus| && !IsInside(s.cpus[e.cpu]) && (s.locked || e.Invoke?)
    ensures match Next(s, e)
      case None => true
      case Some(s') => Explained(h0, s') && s'.log == s.log
  {
    hide Partway, Serial, SerialResult;
  }

  lemma AcquireStep(h0: State, s: System, c: nat)
    requires Explained(h0, s) && c < |s.cpus| && s.cpus[c].Locking? && !s.locked
    ensures match Next(s, Go(c))
      case None => false
      case Some(s') => Explained(h0, s') && s'.log == s.log + [Entry(c, s.cpus[c].root, s.cpus[c].bytes, None)]
  {
    hide Serial, SerialResult, Malloc;
    var s' := Next(s, Go(c)).value;
    assert s'.log[..|s.log|] == s.log;
    forall k | 0 <= k < |s.log|
      ensures Returned(h0, s'.log, k)
    {
      assert k < |s.log| - 1 || !s.locked ==> Returned(h0, s.log, k);
      assert s'.log[..k] == s.log[..k];
      SerialDepends(h0, s.log, s'.log, k);
    }
  }

  lemma InsideStep(h0: State, s: System, c: nat)
    requires Explained(h0, s) && c < |s.cpus| && IsInside(s.cpus[c]) && !s.cpus[c].Releasing?
    ensures match Next(s, Go(c))
      case None => true
      case Some(s') => Explained(h0, s') && s'.log == s.log
  {
    var n := |s.log|;
    assert s.locked && s.log[n - 1].cpu == c;
    var h := Serial(h0, s.log[..n - 1]);
    PartwayStep(h, s.log[n - 1].root, s.log[n - 1].bytes, s, c);
    hide Partway, Serial, SerialResult, Next;
  }

  lemma ReleaseStep(h0: State, s: System, c: nat)
    requires Explained(h0, s) && c < |s.cpus| && s.cpus[c].Releasing?
    ensures match Next(s, Go(c))
      case None => false
      case Some(s') => Explained(h0, s') && !s'.locked && s'.log == Finish(s.log, s.cpus[c].result)
  {
    hide Malloc;
    var n := |s.log|;
    var s' := Next(s, Go(c)).value;
    assert IsInside(s.cpus[c]) && s.locked && s.log[n - 1].cpu == c;
    assert s'.log[..n - 1] == s.log[..n - 1] && s'.log[..n] == s'.log && s.log[..n] == s.log;
    SerialDepends(h0, s.log, s'.log, n - 1);
    forall k | 0 <= k < n
      ensures Returned(h0, s'.log, k)
    {
      assert k < |s.log| - 1 || !s.locked ==> Returned(h0, s.log, k);
      assert s'.log[..k] == s.log[..k];
      SerialDepends(h0, s.log, s'.log, k);
    }
  }

  /** Calls keep their place in the log, and a result never changes. */
  predicate LogGrows(a: seq<Entry>, b: seq<Entry>) {
    |a| <= |b| && forall k :: 0 <= k < |a| ==>
      && a[k].cpu == b[k].cpu && a[k].root == b[k].root && a[k].bytes == b[k].bytes
      && (a[k].result.Some? ==> a[k].result == b[k].result)
  }

  lemma StepIsExplained(h0: State, s: System, e: Event)
    requires Explained(h0, s)
    ensures match Next(s, e)
      case None => true
      case Some(s') => Explained(h0, s') && LogGrows(s.log, s'.log) && |s'.cpus| == |s.cpus|
  {
    hide Partway, Serial, SerialResult;
    var c := e.cpu;
    if c < |s.cpus| && Next(s, e).Some? {
      if e.Invoke? || (s.cpus[c].Locking? && s.locked) {
        WaitingStep(h0, s, e);
      } else if s.cpus[c].Locking? {
        AcquireStep(h0, s, c);
      } else if s.cpus[c].Releasing? {
        ReleaseStep(h0, s, c);
      } else {
        InsideStep(h0, s, c);
      }
    }
  }

  lemma {:induction false} TraceIsExplained(h0: State, s: System, es: seq<Event>)
    requires Explained(h0, s)
    ensures match Trace(s, es)
      case None => true
      case Some(s') => Explained(h0, s') && LogGrows(s.log, s'.log) && |s'.cpus| == |s.cpus|
    decreases |es|
  {
    hide Explained, Next;
    if es != [] {
      StepIsExplained(h0, s, es[0]);
      match Next(s, es[0])
      case None =>
      case Some(s') => TraceIsExplained(h0, s', es[1..]);
    }
  }

  /** n CPUs, none of them in `malloc`. */
  function Start(h0: State, n: nat): System { System(false, h0, seq(n, _ => Idle), []) }

  lemma SerialOfNothing(h0: State)
    ensures Serial(h0, []) == h0
  {
  }

  lemma StartIsExplained(h0: State, n: nat)
    ensures Explained(h0, Start(h0, n))
  {
    SerialOfNothing(h0);
  }

  /** Every interleaving is a serial order of the calls: the lock bit is set exactly while one
      CPU is inside, every call that has returned gave what it gives in the order in which the
      lock was taken, and whenever the lock is free the heap is what that order leaves. */
  lemma EveryInterleavingIsSerial(h0: State, n: nat, es: seq<Event>)
    ensures match Trace(Start(h0, n), es)
      case None => true
      case Some(s) =>
        && |s.cpus| == n
        && (s.locked <==> exists c :: 0 <= c < n && IsInside(s.cpus[c]))
        && (forall c, d :: 0 <= c < n && 0 <= d < n && IsInside(s.cpus[c]) && IsInside(s.cpus[d]) ==> c == d)
        && (forall k :: 0 <= k < |s.log| ==>
             if s.locked && k == |s.log| - 1 then s.log[k].result == None else Returned(h0, s.log, k))
        && (!s.locked ==> s.heap == Serial(h0, s.log))
  {
    hide Partway, Serial, SerialResult, Trace;
    StartIsExplained(h0, n);
    TraceIsExplained(h0, Start(h0, n), es);
  }

  /** Only the CPU inside the lock changes the heap, and `top` only grows, by whole pages. */
  lemma OnlyTheHolderChanges(h0: State, s: System, e: Event)
    requires Explained(h0, s)
    ensures match Next(s, e)
      case None => true
      case Some(s') =>
        && (s'.heap != s.heap ==> s.locked && s.log != [] && s.log[|s.log| - 1].cpu == e.cpu && e.Go?)
        && s.heap.top <= s'.heap.top && s'.heap.top % PAGE_SIZE == s.heap.top % PAGE_SIZE
  {
    hide Partway, Serial, SerialResult, MapOne, FirstFit, Store, WordOf;
  }

  /** The block that the k-th call adds in serial order, and the address space that it is in. */
  function BlockOf(h0: State, log: seq<Entry>, k: nat): Option<Owned>
    requires k < |log|
  {
    if !SerialResult(h0, log, k).Pointer? then None
    else
      match NewBlock(Serial(h0, log[..k]), log[k].bytes)
      case None => None
      case Some(b) => Some(Owned(log[k].root, b))
  }

  lemma TopGrows(h: State, root: nat, bytes: nat)
    ensures var (h', r) := Malloc(h, root, bytes);
      h'.top == if r.Pointer? then h.top + PagesFor(bytes) * PAGE_SIZE else h.top
    ensures !Malloc(h, root, bytes).1.Pointer? ==> Malloc(h, root, bytes).0 == h
  {
    hide MapRange, WriteHeader, PagesFor, HeaderAt, FirstFit;
  }

  /** The calls run in known address spaces. */
  predicate RootsIn(log: seq<Entry>, roots: set<nat>) { forall k :: 0 <= k < |log| ==> log[k].root in roots }

  /** In serial order every call's block stands, apart from the blocks of all other calls, as
      long as the heap stays in the lower half. */
  lemma {:induction false} SerialBlocks(h0: State, roots: set<nat>, log: seq<Entry>)
    requires AllReady(h0, roots) && RootsIn(log, roots) && Serial(h0, log).top <= HEAP_END
    ensures AllReady(Serial(h0, log), roots)
    ensures forall k :: 0 <= k < |log| && BlockOf(h0, log, k).Some? ==>
      Stands(Serial(h0, log), roots, BlockOf(h0, log, k).value)
    ensures forall j, k :: 0 <= j < k < |log| && BlockOf(h0, log, j).Some? && BlockOf(h0, log, k).Some? ==>
      Apart(BlockOf(h0, log, k).value.block, BlockOf(h0, log, j).value.block)
    decreases |log|
  {
    hide AllReady, Malloc, NewBlock, Apart, PagesFor, Stands;
    if log != [] {
      var n := |log| - 1;
      var front, root, bytes := log[..n], log[n].root, log[n].bytes;
      var h := Serial(h0, front);
      TopGrows(h, root, bytes);
      SerialBlocks(h0, roots, front);
      forall k | 0 <= k < n
        ensures BlockOf(h0, log, k) == BlockOf(h0, front, k)
      {
        assert front[..k] == log[..k];
      }
      if Malloc(h, root, bytes).1.Pointer? {
        assert Roomy(h, bytes);
        MallocShared(h, roots, root, bytes);
        forall k | 0 <= k < n && BlockOf(h0, log, k).Some?
          ensures Stands(Malloc(h, root, bytes).0, roots, BlockOf(h0, log, k).value)
          ensures Apart(NewBlock(h, bytes).value, BlockOf(h0, log, k).value.block)
        {
          MallocStands(h, roots, root, bytes, BlockOf(h0, front, k).value);
        }
      }
    }
  }

  lemma PointerOfBlock(h: State, root: nat, bytes: nat)
    ensures match Malloc(h, root, bytes).1
      case Pointer(a) => NewBlock(h, bytes).Some? && a == Heap.Returned(NewBlock(h, bytes).value)
      case _ => true
  {
    hide MapRange, WriteHeader, HeaderAt, FirstFit;
  }

  /** Where the heap will end when the call that a CPU is in has moved `top`. */
  function Reach(pc: Pc, top: nat): nat {
    if pc.Allocating? || pc.Mapping? then top + PagesFor(pc.bytes) * PAGE_SIZE else top
  }

  /** All calls begun so far stay in the lower half. */
  predicate StaysLow(s: System) {
    s.heap.top <= HEAP_END && forall c :: 0 <= c < |s.cpus| ==> Reach(s.cpus[c], s.heap.top) <= HEAP_END
  }

  /** No step inside a call disturbs a block handed out before it, whichever address space it is in. */
  lemma PartwayKeepsBlock(h: State, roots: set<nat>, root: nat, bytes: nat, pc: Pc, now: State, o: Owned)
    requires AllReady(h, roots) && root in roots
    requires Partway(h, root, bytes, pc, now) && Reach(pc, now.top) <= HEAP_END
    requires Stands(h, roots, o)
    ensures Stands(now, roots, o)
  {
    hide AllReady, Malloc, Stands, Apart, PagesFor, FirstStored, MappedSoFar, Taken;
    if pc.Releasing? {
      TopGrows(h, root, bytes);
      if pc.result.Pointer? {
        assert Roomy(h, bytes);
        MallocStands(h, roots, root, bytes, o);
      }
    } else if !pc.Allocating? {
      assert Roomy(h, bytes);
      MappingStands(h, roots, root, bytes, if pc.Mapping? then pc.i else PagesFor(bytes), o);
      if pc.SecondWord? {
        FirstStands(h, roots, root, bytes, o);
      }
      LaterStands(State(now.sys, h.top), roots, now.top, o);
    }
  }

  lemma PartwayTop(h: State, root: nat, bytes: nat, pc: Pc, now: State)
    requires Partway(h, root, bytes, pc, now)
    ensures h.top <= now.top
  {
    hide Malloc, MappedSoFar, Taken, FirstStored;
    if pc.Releasing? {
      TopGrows(h, root, bytes);
    }
  }

  /** The calls that have returned. */
  function Finished(s: System): seq<Entry> {
    if s.locked && s.log != [] then s.log[..|s.log| - 1] else s.log
  }

  /** What the finished calls were given stands, whatever the call inside the lock is doing. */
  lemma FinishedBlocksStand(h0: State, roots: set<nat>, s: System)
    requires AllReady(h0, roots) && RootsIn(s.log, roots) && Explained(h0, s) && StaysLow(s)
    ensures var log := Finished(s);
      && (forall k :: 0 <= k < |log| && BlockOf(h0, log, k).Some? ==> Stands(s.heap, roots, BlockOf(h0, log, k).value))
      && (forall j, k :: 0 <= j < k < |log| && BlockOf(h0, log, j).Some? && BlockOf(h0, log, k).Some? ==>
            Apart(BlockOf(h0, log, k).value.block, BlockOf(h0, log, j).value.block))
  {
    hide AllReady, Malloc, Serial, NewBlock, Apart, PagesFor, Stands, Partway, SerialResult, BlockOf;
    var log, n := Finished(s), |s.log|;
    if s.locked {
      var h, last := Serial(h0, log), s.log[n - 1];
      PartwayTop(h, last.root, last.bytes, s.cpus[last.cpu], s.heap);
      SerialBlocks(h0, roots, log);
      forall k | 0 <= k < |log| && BlockOf(h0, log, k).Some?
        ensures Stands(s.heap, roots, BlockOf(h0, log, k).value)
      {
        PartwayKeepsBlock(h, roots, last.root, last.bytes, s.cpus[last.cpu], s.heap, BlockOf(h0, log, k).value);
      }
    } else {
      SerialBlocks(h0, roots, log);
    }
  }

  lemma FrontBlockOf(h0: State, log: seq<Entry>, n: nat, k: nat)
    requires k < n <= |log|
    ensures BlockOf(h0, log[..n], k) == BlockOf(h0, log, k)
  {
    hide Malloc, Serial, NewBlock;
    assert log[..n][..k] == log[..k];
  }

  /** Every call that begins runs in one of the given address spaces. */
  predicate EventsIn(es: seq<Event>, roots: set<nat>) { forall e :: e in es && e.Invoke? ==> e.root in roots }

  predicate CallersIn(s: System, roots: set<nat>) {
    RootsIn(s.log, roots) && forall c :: 0 <= c < |s.cpus| && s.cpus[c].Locking? ==> s.cpus[c].root in roots
  }

  lemma CallersStayIn(s: System, e: Event, roots: set<nat>)
    requires CallersIn(s, roots) && (e.Invoke? ==> e.root in roots)
    ensures match Next(s, e)
      case None => true
      case Some(s') => CallersIn(s', roots)
  {
    hide MapOne, FirstFit, Store, HeaderAt, PagesFor, WordOf;
  }

  lemma {:induction false} TraceStaysIn(s: System, es: seq<Event>, roots: set<nat>)
    requires CallersIn(s, roots) && EventsIn(es, roots)
    ensures match Trace(s, es)
      case None => true
      case Some(s') => CallersIn(s', roots)
    decreases |es|
  {
    hide Next, CallersIn;
    if es != [] {
      CallersStayIn(s, es[0], roots);
      match Next(s, es[0])
      case None =>
      case Some(s') => TraceStaysIn(s', es[1..], roots);
    }
  }

  /** In every reachable state the pointers that calls have returned are those of blocks that stand,
      each in the address space of its caller, pairwise apart in virtual and in physical memory. */
  lemma InterleavedBlocks(h0: State, roots: set<nat>, n: nat, es: seq<Event>)
    requires AllReady(h0, roots) && EventsIn(es, roots)
    ensures match Trace(Start(h0, n), es)
      case None => true
      case Some(s) => StaysLow(s) ==>
        && (forall k :: 0 <= k < |Finished(s)| ==> BlockStandsFor(h0, roots, s, k))
        && (forall j, k ::
              0 <= j < k < |Finished(s)| && BlockOf(h0, s.log, j).Some? && BlockOf(h0, s.log, k).Some? ==>
                Apart(BlockOf(h0, s.log, k).value.block, BlockOf(h0, s.log, j).value.block))
        && forall k :: |Finished(s)| <= k < |s.log| ==> s.log[k].result == None
  {
    hide AllReady, Malloc, Serial, NewBlock, Stands, Apart, PagesFor, Trace, Explained, BlockOf;
    StartIsExplained(h0, n);
    TraceIsExplained(h0, Start(h0, n), es);
    TraceStaysIn(Start(h0, n), es, roots);
    EveryInterleavingIsSerial(h0, n, es);
    match Trace(Start(h0, n), es)
    case None =>
    case Some(s) =>
      if StaysLow(s) {
        FinishedBlocksStand(h0, roots, s);
        forall k | 0 <= k < |Finished(s)|
          ensures BlockStandsFor(h0, roots, s, k) && BlockOf(h0, Finished(s), k) == BlockOf(h0, s.log, k)
        {
          assert Returned(h0, s.log, k);
          FrontBlockOf(h0, s.log, |Finished(s)|, k);
          assert s.log[..|s.log|] == s.log;
          ReturnedStands(h0, roots, s, k);
        }
      }
  }

  lemma ReturnedStands(h0: State, roots: set<nat>, s: System, k: nat)
    requires k < |s.log| && Returned(h0, s.log, k)
    requires BlockOf(h0, s.log, k).Some? ==> Stands(s.heap, roots, BlockOf(h0, s.log, k).value)
    ensures BlockStandsFor(h0, roots, s, k)
  {
    hide Malloc, Serial, NewBlock, Stands;
    PointerOfBlock(Serial(h0, s.log[..k]), s.log[k].root, s.log[k].bytes);
  }

  /** The k-th call returned nothing, or the address of a block that stands in its address space. */
  ghost predicate BlockStandsFor(h0: State, roots: set<nat>, s: System, k: nat)
    requires k < |s.log|
  {
    match s.log[k].result
    case Some(Pointer(a)) =>
      var o := BlockOf(h0, s.log, k);
      o.Some? && o.value.root == s.log[k].root && a == Heap.Returned(o.value.block) && Stands(s.heap, roots, o.value)
    case other => other == Some(NoMemory)
  }

  /** How many more steps of its own a CPU inside the lock takes at most. */
  function Remaining(pc: Pc): int {
    match pc
    case Allocating(_, bytes) => PagesFor(bytes) + 5
    case Mapping(_, bytes, _, i) => PagesFor(bytes) - i + 4
    case FirstWord(_, _, _) => 3
    case SecondWord(_, _, _) => 2
    case Releasing(_) => 1
    case _ => 0
  }

  /** The call that the CPU inside the lock runs. */
  function Current(h0: State, s: System): Result
    requires s.log != []
  {
    SerialResult(h0, s.log, |s.log| - 1)
  }

  lemma StuckIsNullTable(h: State, root: nat, bytes: nat, s: System, c: nat)
    requires c < |s.cpus| && Partway(h, root, bytes, s.cpus[c], s.heap)
    requires Next(s, Go(c)) == None
    ensures Malloc(h, root, bytes).1 == NullTable
  {
    hide MapOne, FirstFit, Store, HeaderAt, PagesFor, WordOf, WriteHeader;
    var pc := s.cpus[c];
    match Taken(h, bytes)
    case None =>
    case Some((s1, p)) =>
      assert pc.Mapping? && MapRange(s1, root, 1, PageNumber(h.top), p, pc.i + 1, HEAP_PERMS) == None;
      if MapRange(s1, root, 1, PageNumber(h.top), p, PagesFor(bytes), HEAP_PERMS).Some? {
        ShorterMaps(s1, root, 1, PageNumber(h.top), p, PagesFor(bytes), HEAP_PERMS, pc.i + 1);
      }
  }

  lemma StepCountsDown(h: State, root: nat, bytes: nat, s: System, c: nat)
    requires c < |s.cpus| && Partway(h, root, bytes, s.cpus[c], s.heap)
    ensures Remaining(s.cpus[c]) > 0
    ensures match Next(s, Go(c))
      case None => true
      case Some(s') => if s.cpus[c].Releasing? then !s'.locked else Remaining(s'.cpus[c]) < Remaining(s.cpus[c])
  {
    hide MapOne, FirstFit, Store, HeaderAt, PagesFor, WordOf, MappedSoFar;
  }

  /** n steps of one CPU. */
  function Alone(c: nat, n: nat): seq<Event> { seq(n, _ => Go(c)) }

  lemma OneStepMore(s: System, c: nat, n: nat)
    requires Next(s, Go(c)).Some?
    ensures Trace(s, Alone(c, n + 1)) == Trace(Next(s, Go(c)).value, Alone(c, n))
  {
    hide Next;
    assert Alone(c, n + 1)[0] == Go(c) && Alone(c, n + 1)[1..] == Alone(c, n);
  }

  /** The CPU gives the lock back in n steps of its own. */
  predicate ReleasesIn(s: System, c: nat, n: nat) {
    match Trace(s, Alone(c, n))
    case None => false
    case Some(s') => !s'.locked
  }

  lemma ReleasesNow(s: System, c: nat)
    ensures ReleasesIn(s, c, 0) == !s.locked
  {
  }

  lemma ReleasesLater(s: System, c: nat, n: nat)
    requires Next(s, Go(c)).Some?
    ensures ReleasesIn(s, c, n + 1) == ReleasesIn(Next(s, Go(c)).value, c, n)
  {
    hide Next, Trace, Alone;
    OneStepMore(s, c, n);
  }

  /** The CPU is inside the lock, with a call that does not run into a null table. */
  ghost predicate Holds(h0: State, s: System, c: nat) {
    Explained(h0, s) && c < |s.cpus| && IsInside(s.cpus[c]) && s.log != [] && Current(h0, s) != NullTable
  }

  lemma HolderStep(h0: State, s: System, c: nat)
    requires Holds(h0, s, c)
    ensures match Next(s, Go(c))
      case None => false
      case Some(s') =>
        && Remaining(s.cpus[c]) > 0
        && if s.cpus[c].Releasing? then !s'.locked
           else Holds(h0, s', c) && Remaining(s'.cpus[c]) < Remaining(s.cpus[c])
  {
    var h, last := Serial(h0, s.log[..|s.log| - 1]), s.log[|s.log| - 1];
    assert s.locked && last.cpu == c && Partway(h, last.root, last.bytes, s.cpus[c], s.heap);
    hide Partway, Serial, SerialResult, Remaining, Next, Explained, IsInside, Malloc;
    StepCountsDown(h, last.root, last.bytes, s, c);
    CurrentIs(h0, s);
    if Next(s, Go(c)) == None {
      StuckIsNullTable(h, last.root, last.bytes, s, c);
    } else if !s.cpus[c].Releasing? {
      InsideStep(h0, s, c);
      PartwayStep(h, last.root, last.bytes, s, c);
    }
  }

  /** The CPU inside the lock can always go on by itself: unless its call is one that runs into a null
      table, it gives the lock back within the steps that remain to it. */
  lemma {:induction false} HolderReleases(h0: State, s: System, c: nat) returns (n: nat)
    requires Holds(h0, s, c)
    ensures c < |s.cpus| && n <= Remaining(s.cpus[c]) && ReleasesIn(s, c, n)
    decreases if c < |s.cpus| then Remaining(s.cpus[c]) else 0
  {
    HolderStep(h0, s, c);
    var s' := Next(s, Go(c)).value;
    hide Holds, ReleasesIn, Remaining, Next;
    if s.cpus[c].Releasing? {
      n := 0;
      ReleasesNow(s', c);
    } else {
      n := HolderReleases(h0, s', c);
    }
    ReleasesLater(s, c, n);
    n := n + 1;
  }

  /** The lock is free, or the CPU that took it last gives it back when it goes on by itself, unless its
      call is one that runs into a null table. */
  ghost predicate LockComesBack(h0: State, s: System) {
    s.locked ==>
      && s.log != []
      && var c := s.log[|s.log| - 1].cpu;
         && c < |s.cpus| && IsInside(s.cpus[c])
         && (Current(h0, s) != NullTable ==> exists n: nat :: n <= Remaining(s.cpus[c]) && ReleasesIn(s, c, n))
  }

  /** So it is in every state that any interleaving reaches. */
  lemma EveryLockComesBack(h0: State, n: nat, es: seq<Event>)
    ensures match Trace(Start(h0, n), es)
      case None => true
      case Some(s) => LockComesBack(h0, s)
  {
    hide Trace, Serial, SerialResult, Remaining, Next, ReleasesIn;
    StartIsExplained(h0, n);
    TraceIsExplained(h0, Start(h0, n), es);
    match Trace(Start(h0, n), es)
    case None =>
    case Some(s) =>
      if s.locked && Current(h0, s) != NullTable {
        var k := HolderReleases(h0, s, s.log[|s.log| - 1].cpu);
      }
  }

  lemma CurrentIs(h0: State, s: System)
    requires s.log != []
    ensures var n := |s.log| - 1;
      Current(h0, s) == Malloc(Serial(h0, s.log[..n]), s.log[n].root, s.log[n].bytes).1
  {
    hide Malloc, Serial;
  }
}
