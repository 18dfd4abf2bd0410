/** `malloc` as the kernel runs it, over the machine's memory and under the lock. */
module Malloc {
  import opened Wrappers
  import opened Paging
  import opened Frames
  import opened Tables
  import opened Mapping
  import opened AddressSpace
  import H = Heap
  import Pmm
  import Vmm

  class Spinlock {
    var locked: bool

    constructor ()
      ensures !locked
    {
      locked := false;
    }

    /** `lock bts`: the carry flag is the bit's old value. */
    method TestAndSet() returns (carry: bool)
      modifies this
      ensures carry == old(locked) && locked
    {
      carry := locked;
      locked := true;
    }

    /** Spins while the carry is set. released says, for each round of spinning, whether the CPU that
        holds the lock gives it back during that round; if it never does, the spinning does not end. It
        ends with the first round in which it is given back, and does not begin if the lock was free. */
    method Lock(released: seq<bool>) returns (rounds: nat)
      requires !locked || true in released
      modifies this
      ensures locked && rounds <= |released| && (rounds == 0 <==> !old(locked))
      ensures rounds > 0 ==> released[rounds - 1] && forall i :: 0 <= i < rounds - 1 ==> !released[i]
    {
      var carry := TestAndSet();
      rounds := 0;
      while carry
        invariant locked && rounds <= |released|
        invariant if carry then old(locked) && true in released[rounds..] else rounds == 0 <==> !old(locked)
        invariant forall i :: 0 <= i < (if carry then rounds else rounds - 1) ==> !released[i]
        invariant !carry && rounds > 0 ==> released[rounds - 1]
        decreases carry, |released| - rounds
      {
        if released[rounds] {
          Release();
        }
        rounds := rounds + 1;
        carry := TestAndSet();
      }
    }

    method Release()
      modifies this
      ensures !locked
    {
      locked := false;
    }
  }

  /** What the calls inside `malloc` find and leave. */
  lemma MallocCalls(h: H.State, root: nat, bytes: nat)
    requires H.Ready(h, root) && H.Roomy(h, bytes) && H.Malloc(h, root, bytes).1 != H.NullTable
    ensures var (frames, r) := Alloc(h.sys.frames, H.PagesFor(bytes), 1, 0);
      var s1 := Sys(h.sys.mem, frames);
      && (r.None? ==> H.Malloc(h, root, bytes) == (h, H.NoMemory) && frames == h.sys.frames)
      && (r.Some? ==>
            && r.value > 0 && CanMapRange(s1, root, 1, PageNumber(h.top), H.PagesFor(bytes), H.HEAP_PERMS)
            && var s2 := MapRange(s1, root, 1, PageNumber(h.top), r.value, H.PagesFor(bytes), H.HEAP_PERMS);
            && s2.Some?
            && H.Malloc(h, root, bytes) ==
                 (H.State(Sys(H.WriteHeader(s2.value.mem, root, h.top, bytes), s2.value.frames),
                   h.top + PAGE_SIZE * H.PagesFor(bytes)),
                  H.Pointer(H.HeaderAt(h.top, bytes) + 16)))
  {
    hide Inv, MapRange, H.WriteHeader, H.HeaderAt, H.PagesFor;
    H.TakeFrames(h, root, H.PagesFor(bytes));
    AllocTakesLowest(h.sys.frames, H.PagesFor(bytes), 1, 0);
    H.ReadyTop(h, root);
    match Alloc(h.sys.frames, H.PagesFor(bytes), 1, 0)
    case (_, None) =>
    case (frames, Some(p)) =>
      H.HeapRange(H.State(Sys(h.sys.mem, frames), h.top), root, bytes);
  }

  lemma ReadyIsGuarded(h: H.State, root: nat)
    requires H.Ready(h, root)
    ensures h.sys.frames.len < |h.sys.frames.used| && h.sys.frames.used[h.sys.frames.len]
  {
  }

  class MemoryManager {
    const machine: Vmm.Machine
    const lock: Spinlock
    var top: nat

    constructor (machine: Vmm.Machine, lock: Spinlock)
      ensures this.machine == machine && this.lock == lock && top == MEMORY_BASE
    {
      this.machine, this.lock, this.top := machine, lock, MEMORY_BASE;
    }

    ghost function View(): H.State
      reads this, machine, machine.ram, machine.pmm, machine.pmm.bitmap
    {
      H.State(machine.View(), top)
    }

    /** A store instruction of the CPU, through the translation that is in force. */
    method StoreWord(pml4: nat, virt: nat, w: Word)
      requires machine.Valid()
      modifies machine.ram
      ensures machine.Valid()
      ensures machine.View() ==
        Sys(H.Store(old(machine.ram[..]), pml4 / PAGE_SIZE, virt, w), old(machine.View()).frames)
    {
      hide Pmm.Bits;
      var t := HwWalk(machine.ram[..], pml4 / PAGE_SIZE, PageNumber(virt));
      if t.Mapped? {
        var a := PhysicalAddress(t, virt);
        var at := 512 * (a / PAGE_SIZE) + a % PAGE_SIZE / 8;
        if at < machine.ram.Length {
          machine.ram[at] := w;
        }
      }
    }

    /** The two header stores of `malloc`, for a block placed at base. */
    method StoreHeader(pml4: nat, base: nat, bytes: nat) returns (out: nat)
      requires machine.Valid() && lock.locked
      modifies machine.ram
      ensures machine.Valid() && lock.locked && out == H.HeaderAt(base, bytes)
      ensures machine.View() ==
        Sys(H.WriteHeader(old(machine.View()).mem, pml4 / PAGE_SIZE, base, bytes), old(machine.View()).frames)
    {
      hide H.Store, WordOf, Pmm.Bits;
      out := base + (H.PagesFor(bytes) * PAGE_SIZE - H.Rounded(bytes));
      StoreWord(pml4, out, WordOf(H.Rounded(bytes) - 16));
      StoreWord(pml4, out + 8, WordOf(H.PagesFor(bytes)));
    }

    /** The part of `malloc` after its frames are found, all of it under the lock: map, move `top`, write the header. */
    method Place(pml4: nat, p: nat, bytes: nat) returns (ret: nat)
      requires machine.Valid() && lock.locked && pml4 % PAGE_SIZE == 0 && p % PAGE_SIZE == 0
      requires CanMapRange(machine.View(), pml4 / PAGE_SIZE, 1, PageNumber(top), H.PagesFor(bytes), H.HEAP_PERMS)
      requires MapRange(machine.View(), pml4 / PAGE_SIZE, 1, PageNumber(top), p / PAGE_SIZE, H.PagesFor(bytes),
        H.HEAP_PERMS).Some?
      modifies this, machine.ram, machine.pmm, machine.pmm.bitmap
      ensures machine.pmm.bitmap == old(machine.pmm.bitmap) && machine.Valid() && lock.locked
      ensures ret == H.HeaderAt(old(top), bytes) + 16 && top == old(top) + PAGE_SIZE * H.PagesFor(bytes)
      ensures var s := MapRange(old(machine.View()), pml4 / PAGE_SIZE, 1, PageNumber(old(top)), p / PAGE_SIZE,
        H.PagesFor(bytes), H.HEAP_PERMS).value;
        machine.View() == Sys(H.WriteHeader(s.mem, pml4 / PAGE_SIZE, old(top), bytes), s.frames)
    {
      hide H.PagesFor, H.HeaderAt, H.WriteHeader, MapRange, CanMapRange, PageNumber, Pmm.Bits;
      var pages := H.PagesFor(bytes);
      var _ := machine.MapPages(pml4, top, p, pages, PRESENT | WRITE);
      var out := StoreHeader(pml4, top, bytes);
      top := top + PAGE_SIZE * pages;
      return out + 16;
    }

    /** Returns 0 for the source's null pointer. The call needs a heap in order and enough
        frames for the tables; Heap.EnoughForMalloc says how many are enough. */
    method Malloc(pml4: nat, bytes: nat) returns (ret: nat)
      requires machine.Valid() && pml4 % PAGE_SIZE == 0 && !lock.locked
      requires H.Ready(View(), pml4 / PAGE_SIZE) && H.Roomy(View(), bytes)
      requires H.Malloc(View(), pml4 / PAGE_SIZE, bytes).1 != H.NullTable
      modifies this, lock, machine.ram, machine.pmm, machine.pmm.bitmap
      ensures machine.pmm.bitmap == old(machine.pmm.bitmap) && machine.Valid() && !lock.locked
      ensures (View(), if ret == 0 then H.NoMemory else H.Pointer(ret)) ==
        H.Malloc(old(View()), pml4 / PAGE_SIZE, bytes)
    {
      hide H.Ready, H.Roomy, H.Malloc, H.PagesFor, H.HeaderAt, H.WriteHeader;
      hide MapRange, CanMapRange, Frames.Alloc, PageNumber, Pmm.Bits;
      ghost var h, root := View(), pml4 / PAGE_SIZE;
      MallocCalls(h, root, bytes);
      ReadyIsGuarded(h, root);
      assert machine.pmm.View().used[machine.pmm.bitmapLen];
      var _ := lock.Lock([]);
      var p := machine.pmm.Alloc(H.PagesFor(bytes));
      if p == 0 {
        lock.Release();
        return 0;
      }
      ret := Place(pml4, p, bytes);
      assert H.Malloc(h, root, bytes) == (View(), H.Pointer(ret));
      lock.Release();
    }
  }
}
