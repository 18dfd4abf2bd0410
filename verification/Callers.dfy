/** What becomes of every call of `malloc` on N CPUs: none is lost, and one that waits can get in. */
module Callers {
  import opened Wrappers
  import Heap
  import opened Interleaving

  /** What a CPU asks for, in which address space. */
  datatype Order = Order(root: nat, bytes: nat)

  /** The calls that begin on CPU c, in order. */
  function Begun(es: seq<Event>, c: nat): seq<Order> {
    if es == [] then []
    else
      var e := es[0];
      (if e.Invoke? && e.cpu == c then [Order(e.root, e.bytes)] else []) + Begun(es[1..], c)
  }

  /** The calls of CPU c that have taken the lock, in order. */
  function Entered(log: seq<Entry>, c: nat): seq<Order> {
    if log == [] then []
    else
      var last := log[|log| - 1];
      Entered(log[..|log| - 1], c) + if last.cpu == c then [Order(last.root, last.bytes)] else []
  }

  /** The call that a CPU spins for. */
  function Waiting(pc: Pc): seq<Order> { if pc.Locking? then [Order(pc.root, pc.bytes)] else [] }

  /** The logs differ in results only. */
  predicate SameCalls(a: seq<Entry>, b: seq<Entry>) {
    && |a| == |b|
    && forall k :: 0 <= k < |a| ==> a[k].cpu == b[k].cpu && a[k].root == b[k].root && a[k].bytes == b[k].bytes
  }

  lemma {:induction false} EnteredDepends(a: seq<Entry>, b: seq<Entry>, c: nat)
    requires SameCalls(a, b)
    ensures Entered(a, c) == Entered(b, c)
  {
    if a != [] {
      EnteredDepends(a[..|a| - 1], b[..|b| - 1], c);
    }
  }

  lemma EnteredOneMore(log: seq<Entry>, last: Entry, c: nat)
    ensures Entered(log + [last], c) == Entered(log, c) + if last.cpu == c then [Order(last.root, last.bytes)] else []
  {
    assert (log + [last])[..|log|] == log;
  }

  /** What one step adds to the calls of a CPU. */
  lemma StepKeepsCalls(s: System, e: Event, c: nat)
    requires c < |s.cpus|
    ensures match Next(s, e)
      case None => true
      case Some(s') =>
        && |s'.cpus| == |s.cpus|
        && Entered(s'.log, c) + Waiting(s'.cpus[c]) ==
             Entered(s.log, c) + Waiting(s.cpus[c])
             + if e.Invoke? && e.cpu == c then [Order(e.root, e.bytes)] else []
  {
    StepOnCpu(s, e, c);
    hide Next, Entered;
    match Next(s, e)
    case None =>
    case Some(s') =>
      if |s'.log| > |s.log| {
        EnteredOneMore(s.log, s'.log[|s.log|], c);
      } else {
        EnteredDepends(s.log, s'.log, c);
      }
  }

  /** One step: the log grows by the call of a CPU that takes the lock, and by nothing else. */
  lemma StepOnCpu(s: System, e: Event, c: nat)
    requires c < |s.cpus|
    ensures match Next(s, e)
      case None => true
      case Some(s') =>
        && |s'.cpus| == |s.cpus| && (c != e.cpu ==> s'.cpus[c] == s.cpus[c])
        && (c == e.cpu && e.Invoke? ==> s.cpus[c] == Idle && s'.cpus[c] == Locking(e.root, e.bytes))
        && (if |s'.log| == |s.log| then
             && (c == e.cpu && e.Go? ==> Waiting(s'.cpus[c]) == Waiting(s.cpus[c]))
             && SameCalls(s.log, s'.log)
           else
             && e.Go? && e.cpu < |s.cpus| && s.cpus[e.cpu].Locking? && !s'.cpus[e.cpu].Locking?
             && s'.log == s.log + [Entry(e.cpu, s.cpus[e.cpu].root, s.cpus[e.cpu].bytes, None)])
  {
    hide Heap.PagesFor, Heap.Store, Heap.HeaderAt;
  }

  lemma {:induction false} TraceKeepsCalls(s: System, es: seq<Event>, c: nat)
    requires c < |s.cpus|
    ensures match Trace(s, es)
      case None => true
      case Some(s') =>
        && |s'.cpus| == |s.cpus|
        && Entered(s'.log, c) + Waiting(s'.cpus[c]) == Entered(s.log, c) + Waiting(s.cpus[c]) + Begun(es, c)
    decreases |es|
  {
    hide Next, Entered, Waiting;
    if es != [] {
      StepKeepsCalls(s, es[0], c);
      match Next(s, es[0])
      case None =>
      case Some(s') => TraceKeepsCalls(s', es[1..], c);
    }
  }

  /** No call is lost, made up or overtaken by a later one of its CPU: in every state that any
      interleaving reaches, the calls that began on a CPU are those that took the lock, in the same
      order, and then the one that it spins for, if it does; and those that took the lock have returned,
      but for the call of the CPU that is inside. */
  lemma NoCallIsLost(h0: Heap.State, n: nat, es: seq<Event>, c: nat)
    requires c < n
    ensures match Trace(Start(h0, n), es)
      case None => true
      case Some(s) =>
        && |s.cpus| == n && Begun(es, c) == Entered(s.log, c) + Waiting(s.cpus[c])
        && forall k :: 0 <= k < |s.log| && s.log[k].result == None ==>
             s.locked && k == |s.log| - 1 && s.log[k].cpu < n && IsInside(s.cpus[s.log[k].cpu])
  {
    hide Trace, Explained, Entered, Begun, Waiting, IsInside;
    StartIsExplained(h0, n);
    TraceIsExplained(h0, Start(h0, n), es);
    TraceKeepsCalls(Start(h0, n), es, c);
    NothingWaits(c, h0, n);
    assert [] + Begun(es, c) == Begun(es, c);
    match Trace(Start(h0, n), es)
    case None =>
    case Some(s) => OpenCallIsInside(h0, s);
  }

  lemma OpenCallIsInside(h0: Heap.State, s: System)
    requires Explained(h0, s)
    ensures forall k :: 0 <= k < |s.log| && s.log[k].result == None ==>
      s.locked && k == |s.log| - 1 && s.log[k].cpu < |s.cpus| && IsInside(s.cpus[s.log[k].cpu])
  {
    hide Serial, SerialResult, Partway;
    forall k | 0 <= k < |s.log| && (k < |s.log| - 1 || !s.locked) ensures s.log[k].result != None {
      assert Interleaving.Returned(h0, s.log, k);
    }
  }

  lemma NothingWaits(c: nat, h0: Heap.State, n: nat)
    requires c < n
    ensures Entered(Start(h0, n).log, c) + Waiting(Start(h0, n).cpus[c]) == []
  {
  }

  lemma {:induction false} TraceOfConcat(s: System, a: seq<Event>, b: seq<Event>)
    ensures Trace(s, a + b) == match Trace(s, a) case None => None case Some(s') => Trace(s', b)
    decreases |a|
  {
    hide Next;
    if a == [] {
      assert a + b == b;
    } else {
      assert (a + b)[0] == a[0] && (a + b)[1..] == a[1..] + b;
      match Next(s, a[0])
      case None =>
      case Some(s') => TraceOfConcat(s', a[1..], b);
    }
  }

  /** Steps of one CPU leave the others where they are. */
  lemma {:induction false} AloneKeepsOthers(s: System, h: nat, n: nat, c: nat)
    requires c < |s.cpus| && c != h
    ensures match Trace(s, Alone(h, n))
      case None => true
      case Some(s') => |s'.cpus| == |s.cpus| && s'.cpus[c] == s.cpus[c]
    decreases n
  {
    hide Next, Entered;
    if n > 0 {
      StepOnCpu(s, Go(h), c);
      assert Alone(h, n)[0] == Go(h) && Alone(h, n)[1..] == Alone(h, n - 1);
      match Next(s, Go(h))
      case None =>
      case Some(s') => AloneKeepsOthers(s', h, n - 1, c);
    }
  }

  /** A CPU that spins takes the lock with its next step once it is free. */
  lemma FreeLockIsTaken(s: System, c: nat)
    requires c < |s.cpus| && s.cpus[c].Locking? && !s.locked
    ensures match Trace(s, [Go(c)])
      case None => false
      case Some(s') =>
        && s'.locked && |s'.cpus| == |s.cpus| && IsInside(s'.cpus[c]) && s'.heap == s.heap
        && s'.log == s.log + [Entry(c, s.cpus[c].root, s.cpus[c].bytes, None)]
  {
    FreeLockStep(s, c);
    OneStep(s, Go(c));
  }

  lemma FreeLockStep(s: System, c: nat)
    requires c < |s.cpus| && s.cpus[c].Locking? && !s.locked
    ensures match Next(s, Go(c))
      case None => false
      case Some(s') =>
        && s'.locked && |s'.cpus| == |s.cpus| && IsInside(s'.cpus[c]) && s'.heap == s.heap
        && s'.log == s.log + [Entry(c, s.cpus[c].root, s.cpus[c].bytes, None)]
  {
  }

  lemma OneStep(s: System, e: Event)
    ensures Trace(s, [e]) == Next(s, e)
  {
    hide Next;
    assert [e][1..] == [];
    if Next(s, e).Some? {
      assert Trace(Next(s, e).value, []) == Next(s, e);
    }
  }

  /** The state after events es of s is one in which CPU c has taken the lock for the call it spun for. */
  ghost predicate GetsIn(s: System, c: nat, es: seq<Event>)
    requires c < |s.cpus| && s.cpus[c].Locking?
  {
    match Trace(s, es)
    case None => false
    case Some(s') =>
      && s'.locked && |s'.cpus| == |s.cpus| && IsInside(s'.cpus[c])
      && s'.log != [] && s'.log[|s'.log| - 1] == Entry(c, s.cpus[c].root, s.cpus[c].bytes, None)
  }

  lemma {:induction false} WaiterGetsIn(h0: Heap.State, s: System, c: nat) returns (es: seq<Event>)
    requires Explained(h0, s) && c < |s.cpus| && s.cpus[c].Locking?
    requires s.locked ==> s.log != [] && Current(h0, s) != Heap.NullTable
    ensures GetsIn(s, c, es)
  {
    hide Explained, Serial, SerialResult, Next, Trace, Remaining, Current;
    if !s.locked {
      es := [Go(c)];
      FreeLockIsTaken(s, c);
      StepsKeepCount(h0, s, es);
    } else {
      var h := s.log[|s.log| - 1].cpu;
      HolderIsInside(h0, s);
      var n := HolderReleases(h0, s, h);
      AloneKeepsOthers(s, h, n, c);
      TraceIsExplained(h0, s, Alone(h, n));
      var s1 := Trace(s, Alone(h, n)).value;
      FreeLockIsTaken(s1, c);
      TraceOfConcat(s, Alone(h, n), [Go(c)]);
      es := Alone(h, n) + [Go(c)];
      StepsKeepCount(h0, s, es);
    }
  }

  lemma HolderIsInside(h0: Heap.State, s: System)
    requires Explained(h0, s) && s.locked && s.log != []
    ensures var h := s.log[|s.log| - 1].cpu; h < |s.cpus| && IsInside(s.cpus[h])
  {
    hide Partway, Serial, SerialResult;
  }

  lemma StepsKeepCount(h0: Heap.State, s: System, es: seq<Event>)
    requires Explained(h0, s)
    ensures match Trace(s, es) case None => true case Some(s') => |s'.cpus| == |s.cpus|
  {
    hide Explained, Trace;
    TraceIsExplained(h0, s, es);
  }

  /** No CPU is ever stuck: one that is idle can begin any call, one that spins can go on spinning or take
      the lock, and one that is inside can go on, unless its call runs into a null table. */
  lemma NoCpuIsStuck(h0: Heap.State, n: nat, es: seq<Event>, c: nat, root: nat, bytes: nat)
    requires c < n
    ensures match Trace(Start(h0, n), es)
      case None => true
      case Some(s) =>
        && |s.cpus| == n
        && (s.cpus[c].Idle? ==> Next(s, Invoke(c, root, bytes)) == Some(s.(cpus := s.cpus[c := Locking(root, bytes)])))
        && (s.cpus[c].Locking? && s.locked ==> Next(s, Go(c)) == Some(s))
        && (s.cpus[c].Locking? && !s.locked ==>
             match Next(s, Go(c)) case None => false case Some(s') => IsInside(s'.cpus[c]))
        && (IsInside(s.cpus[c]) ==> s.log != [] && (Current(h0, s) != Heap.NullTable ==> Next(s, Go(c)).Some?))
  {
    hide Serial, SerialResult, Trace, Partway, Current;
    StartIsExplained(h0, n);
    TraceIsExplained(h0, Start(h0, n), es);
    match Trace(Start(h0, n), es)
    case None =>
    case Some(s) =>
      if IsInside(s.cpus[c]) && Current(h0, s) != Heap.NullTable {
        HolderStep(h0, s, c);
      }
      if s.cpus[c].Locking? && !s.locked {
        FreeLockStep(s, c);
      }
  }

  /** No call waits in vain: from every state that any interleaving reaches, a CPU that spins can get in,
      by steps of the CPU that is inside and one of its own, unless the call that is inside runs into a
      null table. */
  lemma EveryWaiterCanGetIn(h0: Heap.State, n: nat, es: seq<Event>, c: nat)
    requires c < n
    ensures match Trace(Start(h0, n), es)
      case None => true
      case Some(s) =>
        |s.cpus| == n && (s.locked ==> s.log != []) &&
        (s.cpus[c].Locking? && (s.locked ==> Current(h0, s) != Heap.NullTable) ==> exists more :: GetsIn(s, c, more))
  {
    hide Serial, SerialResult, Trace, Partway, GetsIn, Current;
    StartIsExplained(h0, n);
    TraceIsExplained(h0, Start(h0, n), es);
    match Trace(Start(h0, n), es)
    case None =>
    case Some(s) =>
      if s.cpus[c].Locking? && (s.locked ==> Current(h0, s) != Heap.NullTable) {
        var more := WaiterGetsIn(h0, s, c);
      }
  }

  /** The bytes of address space that the calls of a run take if all of them get memory. */
  function Asked(es: seq<Event>): nat {
    if es == [] then 0
    else (if es[0].Invoke? then Heap.PagesFor(es[0].bytes) * 0x1000 else 0) + Asked(es[1..])
  }

  /** What the call that a CPU is in has still to add to `top`. */
  function Owed(pc: Pc): nat {
    if pc.Locking? || pc.Allocating? || pc.Mapping? then Heap.PagesFor(pc.bytes) * 0x1000 else 0
  }

  function AllOwed(cpus: seq<Pc>): nat { if cpus == [] then 0 else Owed(cpus[0]) + AllOwed(cpus[1..]) }

  lemma {:induction false} OwedAfter(cpus: seq<Pc>, c: nat, pc: Pc)
    requires c < |cpus|
    ensures AllOwed(cpus[c := pc]) == AllOwed(cpus) - Owed(cpus[c]) + Owed(pc)
  {
    hide Owed;
    if c > 0 {
      OwedAfter(cpus[1..], c - 1, pc);
      assert cpus[c := pc][1..] == cpus[1..][c - 1 := pc];
    }
  }

  lemma {:induction false} OwedByOne(cpus: seq<Pc>, c: nat)
    requires c < |cpus|
    ensures Owed(cpus[c]) <= AllOwed(cpus)
  {
    hide Owed;
    if c > 0 {
      OwedByOne(cpus[1..], c - 1);
    }
  }

  /** What one step adds to `top` it takes from what is owed. */
  lemma StepOwes(s: System, e: Event)
    ensures match Next(s, e)
      case None => true
      case Some(s') =>
        && e.cpu < |s.cpus| && |s'.cpus| == |s.cpus| && s'.cpus == s.cpus[e.cpu := s'.cpus[e.cpu]]
        && s'.heap.top + Owed(s'.cpus[e.cpu]) <=
             s.heap.top + Owed(s.cpus[e.cpu]) + if e.Invoke? then Heap.PagesFor(e.bytes) * 0x1000 else 0
  {
    hide Heap.PagesFor, Heap.Store, Heap.HeaderAt;
  }

  lemma {:induction false} TraceOwes(s: System, es: seq<Event>)
    ensures match Trace(s, es)
      case None => true
      case Some(s') => s'.heap.top + AllOwed(s'.cpus) <= s.heap.top + AllOwed(s.cpus) + Asked(es)
    decreases |es|
  {
    hide Next, AllOwed, Owed, Heap.PagesFor;
    if es != [] {
      StepOwes(s, es[0]);
      match Next(s, es[0])
      case None =>
      case Some(s1) =>
        OwedAfter(s.cpus, es[0].cpu, s1.cpus[es[0].cpu]);
        TraceOwes(s1, es[1..]);
    }
  }

  /** Runs that do not ask for more than there is stay in the lower half of the address space, so that
      Interleaving.InterleavedBlocks speaks of each of their states. */
  lemma SmallRunsStayLow(h0: Heap.State, n: nat, es: seq<Event>)
    requires h0.top + Asked(es) <= 0x8000_0000_0000
    ensures match Trace(Start(h0, n), es)
      case None => true
      case Some(s) => StaysLow(s)
  {
    hide Trace, AllOwed, Asked;
    TraceOwes(Start(h0, n), es);
    NothingOwed(n);
    match Trace(Start(h0, n), es)
    case None =>
    case Some(s) =>
      forall c | 0 <= c < |s.cpus| ensures Reach(s.cpus[c], s.heap.top) <= 0x8000_0000_0000 {
        OwedByOne(s.cpus, c);
      }
  }

  lemma {:induction false} NothingOwed(n: nat)
    ensures AllOwed(seq(n, _ => Idle)) == 0
  {
    if n > 0 {
      NothingOwed(n - 1);
      assert seq(n, _ => Idle)[1..] == seq(n - 1, _ => Idle);
    }
  }
}
