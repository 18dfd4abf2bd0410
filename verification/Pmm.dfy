/** The frame allocator over its bitmap of 64-bit words. */
module Pmm {
  import opened Wrappers
  import opened Frames
  import opened FrameInit

  /** Bit k of a 64-bit word. The source shifts an `int`; the 64-bit mask is meant. */
  function Mask(k: nat): bv64
    requires k < 64
  {
    1 << k as bv6
  }

  function And(w: bv64, mask: bv64): bv64 { w & mask }

  predicate Holds(w: bv64, mask: bv64) { And(w, mask) == mask }

  function Or(w: bv64, mask: bv64): bv64 { w | mask }

  function AndNot(w: bv64, mask: bv64): bv64 { w & !mask }

  predicate BitAt(words: seq<bv64>, idx: nat)
    requires idx < 64 * |words|
  {
    Holds(words[idx / 64], Mask(idx % 64))
  }

  function Bits(words: seq<bv64>): (used: seq<bool>)
    ensures |used| == 64 * |words|
    ensures forall i :: 0 <= i < |used| ==> used[i] == BitAt(words, i)
  {
    seq(64 * |words|, i requires 0 <= i < 64 * |words| => BitAt(words, i))
  }

  lemma BitIndex(i: nat)
    requires i < 64
    ensures (i as bv6) as nat == i
  {
  }

  lemma ShiftsDiffer(a: bv6, b: bv6)
    requires a != b
    ensures (1 as bv64 << a) & (1 << b) == 0
  {
  }

  lemma MasksDiffer(i: nat, j: nat)
    requires i < 64 && j < 64 && i != j
    ensures And(Mask(i), Mask(j)) == 0
  {
    BitIndex(i);
    BitIndex(j);
    ShiftsDiffer(i as bv6, j as bv6);
  }

  lemma ShiftDoubles(a: bv6)
    requires a < 63
    ensures 1 as bv64 << a + 1 == (1 << a) + (1 << a)
  {
  }

  lemma IndexPlusOne(a: bv6)
    requires a < 63
    ensures (a + 1) as nat == a as nat + 1
  {
  }

  lemma IndexBack(a: bv6)
    ensures (a as nat) as bv6 == a
  {
  }

  lemma NextIndex(k: nat)
    requires k < 63
    ensures k as bv6 < 63 && (k + 1) as bv6 == k as bv6 + 1
  {
    BitIndex(k);
    IndexPlusOne(k as bv6);
    IndexBack(k as bv6 + 1);
  }

  /** Bits are counted from the lowest one of a word. */
  lemma MaskIsPower(k: nat)
    requires k < 64
    ensures Mask(0) == 1 && (k < 63 ==> Mask(k + 1) == Mask(k) + Mask(k))
  {
    if k < 63 {
      BitIndex(k);
      NextIndex(k);
      ShiftDoubles(k as bv6);
    }
  }

  lemma OrOther(w: bv64, a: bv64, b: bv64)
    requires And(a, b) == 0
    ensures And(Or(w, a), b) == And(w, b)
  {
  }

  lemma AndNotOther(w: bv64, a: bv64, b: bv64)
    requires And(a, b) == 0
    ensures And(AndNot(w, a), b) == And(w, b)
  {
  }

  lemma OrSame(w: bv64, a: bv64)
    ensures Holds(Or(w, a), a)
  {
  }

  lemma AndNotSame(w: bv64, i: nat)
    requires i < 64
    ensures !Holds(AndNot(w, Mask(i)), Mask(i))
  {
  }

  lemma SetBit(w: bv64, i: nat, j: nat)
    requires i < 64 && j < 64
    ensures Holds(Or(w, Mask(i)), Mask(j)) <==> i == j || Holds(w, Mask(j))
  {
    hide Mask, Or, And;
    if i != j {
      MasksDiffer(i, j);
      OrOther(w, Mask(i), Mask(j));
    } else {
      OrSame(w, Mask(i));
    }
  }

  lemma ClearBit(w: bv64, i: nat, j: nat)
    requires i < 64 && j < 64
    ensures Holds(AndNot(w, Mask(i)), Mask(j)) <==> i != j && Holds(w, Mask(j))
  {
    hide Mask, AndNot, And;
    if i != j {
      MasksDiffer(i, j);
      AndNotOther(w, Mask(i), Mask(j));
    } else {
      AndNotSame(w, i);
    }
  }

  /** Writing one bit of the bitmap. */
  lemma WordWrite(words: seq<bv64>, words': seq<bv64>, idx: nat, bit: bool)
    requires idx < 64 * |words| && |words'| == |words|
    requires var w := words[idx / 64];
      words' == words[idx / 64 := if bit then Or(w, Mask(idx % 64)) else AndNot(w, Mask(idx % 64))]
    ensures Bits(words') == Bits(words)[idx := bit]
  {
    hide Or, AndNot, And, Mask, Holds;
    forall i | 0 <= i < 64 * |words|
      ensures BitAt(words', i) == if i == idx then bit else BitAt(words, i)
    {
      if i / 64 == idx / 64 {
        SetBit(words[idx / 64], idx % 64, i % 64);
        ClearBit(words[idx / 64], idx % 64, i % 64);
      }
    }
  }

  function Address(r: Option<nat>): nat { if r.Some? then r.value * PAGE_SIZE else 0 }

  class Allocator {
    var bitmap: array<bv64>
    var freePages: int
    var totalPages: int
    var bitmapLen: nat

    ghost function View(): Bitmap
      reads this, bitmap
    {
      Bitmap(Bits(bitmap[..]), bitmapLen, freePages, totalPages)
    }

    /** The bitmap is in memory. */
    ghost predicate Valid()
      reads this, bitmap
    {
      bitmapLen <= 64 * bitmap.Length
    }

    /** A search for count pages, which may read on past the end of the bitmap, stays in memory:
        there is that much memory, or a reserved bit in it that stops the search. */
    ghost predicate Reaches(count: nat)
      reads this, bitmap
    {
      bitmapLen + count <= 64 * bitmap.Length + 1 || exists s :: bitmapLen <= s < 64 * bitmap.Length && View().used[s]
    }

    method BitRead(idx: nat) returns (on: bool)
      requires idx < 64 * bitmap.Length
      ensures on == View().used[idx]
    {
      on := And(bitmap[idx / 64], Mask(idx % 64)) == Mask(idx % 64);
    }

    method BitWrite(idx: nat, bit: bool, count: nat)
      requires idx + count <= 64 * bitmap.Length
      modifies bitmap
      ensures View() == old(View()).(used := Fill(old(View()).used, idx, count, bit))
    {
      hide BitAt, And, Or, AndNot, Mask;
      var n := count;
      var i := idx;
      while n > 0
        invariant 0 <= n <= count && i == idx + (count - n)
        invariant View() == old(View()).(used := Fill(old(View()).used, idx, count - n, bit))
      {
        ghost var words := bitmap[..];
        if bit {
          bitmap[i / 64] := Or(bitmap[i / 64], Mask(i % 64));
        } else {
          bitmap[i / 64] := AndNot(bitmap[i / 64], Mask(i % 64));
        }
        WordWrite(words, bitmap[..], i, bit);
        n := n - 1;
        i := i + 1;
      }
    }

    method BitmapIsFree(idx: nat, count: nat) returns (free: bool)
      requires Valid() && idx < bitmapLen && Reaches(count)
      ensures free == AllFree(View().used, idx, count)
    {
      var n := count;
      var i := idx;
      while n > 0
        invariant 0 <= n <= count && i == idx + (count - n) <= 64 * bitmap.Length
        invariant AllFree(View().used, idx, count - n)
      {
        var on := BitRead(i);
        if on {
          return false;
        }
        i := i + 1;
        n := n - 1;
      }
      return true;
    }

    /** Needs alignment >= 1: with alignment 0 the source's loop does not end. */
    method AllocAligned(count: nat, alignment: nat, upper: nat) returns (mem: nat)
      requires Valid() && Reaches(count) && alignment >= 1
      modifies this, bitmap
      ensures bitmap == old(bitmap)
      ensures View() == Frames.Alloc(old(View()), count, alignment, upper).0
      ensures mem == Address(Frames.Alloc(old(View()), count, alignment, upper).1)
      ensures Valid()
    {
      hide BitAt, AllFree;
      var idx := BASE;
      var maxIdx := MaxIdx(bitmapLen, upper);
      while idx < maxIdx
        invariant BASE <= idx && bitmap == old(bitmap) && View() == old(View())
        invariant FirstFit(View().used, BASE, count, alignment, maxIdx) ==
          FirstFit(View().used, idx, count, alignment, maxIdx)
      {
        var free := BitmapIsFree(idx, count);
        if !free {
          idx := idx + alignment;
          continue;
        }
        FreeFits(View().used, idx, count);
        BitWrite(idx, true, count);
        if totalPages != 0 {
          freePages := freePages - count;
        }
        return idx * PAGE_SIZE;
      }
      return 0;
    }

    method Alloc(count: nat) returns (mem: nat)
      requires Valid() && Reaches(count)
      modifies this, bitmap
      ensures bitmap == old(bitmap)
      ensures View() == Frames.Alloc(old(View()), count, 1, 0).0
      ensures mem == Address(Frames.Alloc(old(View()), count, 1, 0).1)
      ensures Valid()
    {
      mem := AllocAligned(count, 1, 0);
    }

    method Free(mem: nat, count: nat)
      requires Valid() && mem / PAGE_SIZE + count <= 64 * bitmap.Length
      modifies this, bitmap
      ensures bitmap == old(bitmap)
      ensures View() == Frames.Free(old(View()), mem / PAGE_SIZE, count)
      ensures Valid()
    {
      hide BitAt;
      BitWrite(mem / PAGE_SIZE, false, count);
      freePages := freePages + count;
    }

    method FindAvailableMemoryTop(mmap: seq<Region>) returns (top: nat)
      ensures IsHighestEnd(mmap, top) && top == MemoryTop(mmap)
    {
      top := 0;
      for i := 0 to |mmap|
        invariant top == MemoryTop(mmap[..i])
      {
        assert mmap[..i + 1][..i] == mmap[..i];
        if mmap[i].available {
          if mmap[i].addr + mmap[i].len > top {
            top := mmap[i].addr + mmap[i].len;
          }
        }
      }
      assert mmap[..|mmap|] == mmap;
      TopIsHighest(mmap);
    }

    /** The body of the loop of `init` for one region. */
    method FreeRegion(mmap: seq<Region>, r: Region, bytes: nat)
      requires Valid() && r in mmap && bitmapLen == BitmapLen(mmap)
      modifies this, bitmap
      ensures bitmap == old(bitmap) && Valid()
      ensures View() == Frames.Free(old(View()), Freed(r, bytes).start, Freed(r, bytes).count)
    {
      hide BitAt, Bits;
      FreedFits(mmap, r, bytes);
      assert Fill(View().used, 0, 0, false) == View().used;
      if r.available {
        var start := RoundUp(r.addr, PAGE_SIZE);
        var len := RoundDown(r.len, PAGE_SIZE);
        if len == 0 || start + len < MEMORY_BASE {
          return;
        }
        if start < MEMORY_BASE {
          len := len - (MEMORY_BASE - start);
          start := MEMORY_BASE;
        }
        if Overlaps(MEMORY_BASE, bytes, start, len) {
          start := MEMORY_BASE + bytes;
          len := len - bytes;
        }
        Free(start, len / PAGE_SIZE);
      }
    }

    /** words is the memory at `memory_base`, where the bitmap is put, with any content; it must
        reach as far as the bits of the bitmap's own pages and the trailing `alloc` do. */
    method Init(words: array<bv64>, mmap: seq<Region>)
      requires BitmapLen(mmap) + BitmapPages(BitmapBytes(mmap)) <= 64 * words.Length + 1
      requires BitmapLen(mmap) <= 64 * words.Length
      requires BASE + BitmapPages(BitmapBytes(mmap)) <= 64 * words.Length
      modifies this, words
      ensures bitmap == words && Valid()
      ensures View() == FrameInit.Init(old(Bitmap(Bits(words[..]), bitmapLen, freePages, totalPages)), mmap)
      ensures CoversAvailable(mmap, bitmapLen)
    {
      hide BitAt, Bits, Freed, FirstFit, AllFree;
      ghost var b0 := Bitmap(Bits(words[..]), bitmapLen, freePages, totalPages);
      var top := FindAvailableMemoryTop(mmap);
      bitmap := words;
      bitmapLen := (top + PAGE_SIZE - 1) / PAGE_SIZE;
      var bytes := bitmapLen / 8;
      BitWrite(0, true, 8 * bytes);
      for i := 0 to |mmap|
        invariant bitmap == words && Valid()
        invariant View() == FreeRegions(AllReserved(b0, mmap), mmap, bytes, i)
      {
        assert mmap[i] in mmap;
        FreeRegionsSizes(AllReserved(b0, mmap), mmap, bytes, i);
        FreeRegion(mmap, mmap[i], bytes);
      }
      totalPages := freePages;
      BitWrite(BASE, true, BitmapPages(bytes));
      FreeRegionsSizes(AllReserved(b0, mmap), mmap, bytes, |mmap|);
      LenCovers(mmap);
      var _ := Alloc(BitmapPages(bytes));
    }
  }
}
