/** The shifts and masks that take a virtual address apart, on 64-bit words. */
module AddressBits {
  import opened Arithmetic
  import Vmm

  datatype PageTableEntries = PageTableEntries(pml4: bv64, pdp: bv64, pd: bv64, pt: bv64)

  predicate InTable(e: PageTableEntries) {
    e.pml4 < 512 && e.pdp < 512 && e.pd < 512 && e.pt < 512
  }

  function VirtualToEntries(addr: bv64): (e: PageTableEntries)
    ensures InTable(e)
  {
    PageTableEntries(Pml4Index(addr), PdpIndex(addr), PdIndex(addr), PtIndex(addr))
  }

  function Pml4Index(addr: bv64): bv64 { (addr >> 39) & 0x1ff }

  function PdpIndex(addr: bv64): bv64 { (addr >> 30) & 0x1ff }

  function PdIndex(addr: bv64): bv64 { (addr >> 21) & 0x1ff }

  function PtIndex(addr: bv64): bv64 { (addr >> 12) & 0x1ff }

  function EntriesToVirtual(offs: PageTableEntries): bv64 {
    (offs.pml4 << 39) | (offs.pdp << 30) | (offs.pd << 21) | (offs.pt << 12)
  }

  lemma EntriesRoundTrip(e: PageTableEntries)
    requires InTable(e)
    ensures VirtualToEntries(EntriesToVirtual(e)) == e
  {
    var PageTableEntries(a, b, c, d) := e;
    Pml4Bits(a, b, c, d);
    PdpBits(a, b, c, d);
    PdBits(a, b, c, d);
    PtBits(a, b, c, d);
  }

  lemma Pml4Bits(a: bv64, b: bv64, c: bv64, d: bv64)
    requires a < 512 && b < 512 && c < 512 && d < 512
    ensures (((a << 39) | (b << 30) | (c << 21) | (d << 12)) >> 39) & 0x1ff == a
  {
  }

  lemma PdpBits(a: bv64, b: bv64, c: bv64, d: bv64)
    requires a < 512 && b < 512 && c < 512 && d < 512
    ensures (((a << 39) | (b << 30) | (c << 21) | (d << 12)) >> 30) & 0x1ff == b
  {
  }

  lemma PdBits(a: bv64, b: bv64, c: bv64, d: bv64)
    requires a < 512 && b < 512 && c < 512 && d < 512
    ensures (((a << 39) | (b << 30) | (c << 21) | (d << 12)) >> 21) & 0x1ff == c
  {
  }

  lemma PtBits(a: bv64, b: bv64, c: bv64, d: bv64)
    requires a < 512 && b < 512 && c < 512 && d < 512
    ensures (((a << 39) | (b << 30) | (c << 21) | (d << 12)) >> 12) & 0x1ff == d
  {
  }

  /** Exactly bits 12 to 47 survive. */
  lemma AddressRoundTrip(addr: bv64)
    ensures EntriesToVirtual(VirtualToEntries(addr)) == addr & 0xffff_ffff_f000
  {
  }

  /** An address survives if and only if it is a page address of the lower 48 bits. */
  lemma AddressSurvivesIff(addr: bv64)
    ensures EntriesToVirtual(VirtualToEntries(addr)) == addr <==> addr & 0xfff == 0 && addr >> 48 == 0
  {
    AddressRoundTrip(addr);
    MaskKeepsIff(addr);
  }

  lemma MaskKeepsIff(addr: bv64)
    ensures addr & 0xffff_ffff_f000 == addr <==> addr & 0xfff == 0 && addr >> 48 == 0
  {
  }

  /** Adds one to a four-digit number in base 512. */
  function Next(e: PageTableEntries): PageTableEntries {
    if e.pt < 511 then e.(pt := e.pt + 1)
    else if e.pd < 511 then e.(pt := 0, pd := e.pd + 1)
    else if e.pdp < 511 then e.(pt := 0, pd := 0, pdp := e.pdp + 1)
    else if e.pml4 < 511 then e.(pt := 0, pd := 0, pdp := 0, pml4 := e.pml4 + 1)
    else PageTableEntries(0, 0, 0, 0)
  }

  /** Adds one to the upper three digits. */
  function NextLarge(e: PageTableEntries): PageTableEntries {
    if e.pd < 511 then e.(pd := e.pd + 1)
    else if e.pdp < 511 then e.(pd := 0, pdp := e.pdp + 1)
    else if e.pml4 < 511 then e.(pd := 0, pdp := 0, pml4 := e.pml4 + 1)
    else PageTableEntries(0, 0, 0, e.pt)
  }

  /** One digit of a sum: it moves on when all digits below it wrap around. */
  function Digit(i: bv64, carry: bool): bv64 { if !carry then i else if i == 511 then 0 else i + 1 }

  lemma NextPt(addr: bv64)
    ensures PtIndex(addr + 0x1000) == Digit(PtIndex(addr), true)
  {
  }

  lemma NextPd(addr: bv64)
    ensures PdIndex(addr + 0x1000) == Digit(PdIndex(addr), PtIndex(addr) == 511)
  {
  }

  lemma NextPdp(addr: bv64)
    ensures PdpIndex(addr + 0x1000) == Digit(PdpIndex(addr), PtIndex(addr) == 511 && PdIndex(addr) == 511)
  {
  }

  lemma NextPml4(addr: bv64)
    ensures Pml4Index(addr + 0x1000) ==
      Digit(Pml4Index(addr), PtIndex(addr) == 511 && PdIndex(addr) == 511 && PdpIndex(addr) == 511)
  {
  }

  /** The next page: what the loops over 4 KiB pages rely on. */
  lemma NextPage(addr: bv64)
    ensures VirtualToEntries(addr + 0x1000) == Next(VirtualToEntries(addr))
  {
    hide Pml4Index, PdpIndex, PdIndex, PtIndex;
    NextPt(addr);
    NextPd(addr);
    NextPdp(addr);
    NextPml4(addr);
    IndexBounds(addr);
  }

  lemma IndexBounds(addr: bv64)
    ensures PtIndex(addr) <= 511 && PdIndex(addr) <= 511 && PdpIndex(addr) <= 511 && Pml4Index(addr) <= 511
  {
  }

  lemma LargePt(addr: bv64)
    ensures PtIndex(addr + 0x20_0000) == PtIndex(addr)
  {
  }

  lemma LargePd(addr: bv64)
    ensures PdIndex(addr + 0x20_0000) == Digit(PdIndex(addr), true)
  {
  }

  lemma LargePdp(addr: bv64)
    ensures PdpIndex(addr + 0x20_0000) == Digit(PdpIndex(addr), PdIndex(addr) == 511)
  {
  }

  lemma LargePml4(addr: bv64)
    ensures Pml4Index(addr + 0x20_0000) == Digit(Pml4Index(addr), PdIndex(addr) == 511 && PdpIndex(addr) == 511)
  {
  }

  /** The next large page: what the loops over 2 MiB pages rely on. */
  lemma NextLargePage(addr: bv64)
    ensures VirtualToEntries(addr + 0x20_0000) == NextLarge(VirtualToEntries(addr))
  {
    hide Pml4Index, PdpIndex, PdIndex, PtIndex;
    LargePt(addr);
    LargePd(addr);
    LargePdp(addr);
    LargePml4(addr);
    IndexBounds(addr);
  }

  function Half(x: bv64): bv64 { x >> 1 }

  function Bit(x: bv64): nat { if x & 1 == 1 then 1 else 0 }

  /** The number that the lowest k bits of a word stand for. */
  function Number(x: bv64, k: nat): nat {
    if k == 0 then 0 else 2 * Number(Half(x), k - 1) + Bit(x)
  }

  function Drop(x: bv64, i: nat): bv64 { if i == 0 then x else Drop(Half(x), i - 1) }

  lemma {:induction false} DropIsShr(x: bv64, i: nat, k: nat)
    requires i <= k
    ensures Number(Drop(x, i), k - i) == Shr(Number(x, k), i)
    decreases i
  {
    hide Half, Bit;
    if i > 0 {
      DropIsShr(Half(x), i - 1, k - 1);
      Halves(Number(Half(x), k - 1), x);
    }
  }

  lemma Halves(n: nat, x: bv64)
    ensures (2 * n + Bit(x)) / 2 == n && (2 * n + Bit(x)) % 2 == Bit(x)
  {
  }

  lemma {:induction false} LowIsRemainder(x: bv64, j: nat, k: nat)
    requires j <= k
    ensures Number(x, j) == Number(x, k) % Pow2(j)
    decreases j
  {
    hide Half, Bit;
    if j > 0 {
      LowIsRemainder(Half(x), j - 1, k - 1);
      Halves(Number(Half(x), k - 1), x);
      DoubleBase(Number(x, k), Pow2(j - 1));
    }
  }

  lemma {:induction false} DropMore(x: bv64, i: nat, j: nat)
    ensures Drop(x, i + j) == Drop(Drop(x, i), j)
  {
    if i > 0 {
      DropMore(Half(x), i - 1, j);
    }
  }

  function Half3(x: bv64): bv64 { Half(Half(Half(x))) }

  lemma Drop3(x: bv64)
    ensures Drop(x, 3) == Half3(x)
  {
    hide Half;
    assert Drop(x, 3) == Drop(Half(x), 2) == Drop(Half(Half(x)), 1) == Drop(Half(Half(Half(x))), 0);
  }

  lemma Half9Shifts(x: bv64)
    ensures Half3(Half3(Half3(x))) == x >> 9
  {
  }

  lemma Half12Shifts(x: bv64)
    ensures Half3(Half3(Half3(Half3(x)))) == x >> 12
  {
  }

  lemma Drop9(x: bv64)
    ensures Drop(x, 9) == Half3(Half3(Half3(x)))
  {
    hide Drop, Half3;
    DropMore(x, 3, 6);
    DropMore(Half3(x), 3, 3);
    Drop3(x);
    Drop3(Half3(x));
    Drop3(Half3(Half3(x)));
  }

  lemma Drop12(x: bv64)
    ensures Drop(x, 12) == Half3(Half3(Half3(Half3(x))))
  {
    hide Drop, Half3;
    DropMore(x, 3, 9);
    Drop3(x);
    Drop9(Half3(x));
  }

  lemma {:induction false} NumberOfZero(k: nat)
    ensures Number(0, k) == 0
  {
    if k > 0 {
      NumberOfZero(k - 1);
    }
  }

  /** The word with the lowest j bits set and no others. */
  predicate Ones(m: bv64, j: nat) {
    if j == 0 then m == 0 else m & 1 == 1 && Ones(Half(m), j - 1)
  }

  lemma MaskHalf(x: bv64, m: bv64)
    ensures Half(x & m) == Half(x) & Half(m)
  {
  }

  lemma MaskBit(x: bv64, m: bv64)
    requires m & 1 == 1
    ensures Bit(x & m) == Bit(x)
  {
  }

  /** A mask of j ones keeps the number of the lowest j bits. */
  lemma {:induction false} Masked(x: bv64, m: bv64, j: nat, k: nat)
    requires j <= k && Ones(m, j)
    ensures Number(x & m, k) == Number(x, j)
    decreases j
  {
    hide Half, Bit;
    if j == 0 {
      NumberOfZero(k);
    } else {
      MaskHalf(x, m);
      MaskBit(x, m);
      Masked(Half(x), Half(m), j - 1, k - 1);
    }
  }

  lemma Ones9()
    ensures Ones(0x1ff, 9)
  {
  }

  lemma Index(x: bv64, k: nat)
    requires 9 <= k <= 64
    ensures Number(x & 0x1ff, 64) == Number(x, k) % 512
  {
    hide Number;
    Ones9();
    Masked(x, 0x1ff, 9, 64);
    LowIsRemainder(x, 9, k);
    assert Pow2(9) == 512;
  }

  lemma Shift9(x: bv64, k: nat)
    requires k >= 9
    ensures Number(x >> 9, k - 9) == Number(x, k) / 512
  {
    hide Number, Drop, Shr, Half3;
    Drop9(x);
    Half9Shifts(x);
    DropIsShr(x, 9, k);
    ShrDivides(Number(x, k), 9);
    assert Pow2(9) == 512;
  }

  lemma Shift12(x: bv64)
    ensures Number(x >> 12, 52) == Number(x, 64) / 4096
  {
    hide Number, Drop, Shr, Half3;
    Drop12(x);
    Half12Shifts(x);
    DropIsShr(x, 12, 64);
    ShrDivides(Number(x, 64), 12);
    assert Pow2(12) == 4096;
  }

  lemma Shift21(x: bv64)
    ensures Number(x >> 21, 43) == Number(x, 64) / 0x20_0000
  {
    hide Number;
    Shift12(x);
    Shift9(x >> 12, 52);
  }

  lemma Shift30(x: bv64)
    ensures Number(x >> 30, 34) == Number(x, 64) / 0x4000_0000
  {
    hide Number;
    Shift21(x);
    Shift9(x >> 21, 43);
  }

  lemma Shift39(x: bv64)
    ensures Number(x >> 39, 25) == Number(x, 64) / 0x80_0000_0000
  {
    hide Number;
    Shift30(x);
    Shift9(x >> 30, 34);
  }

  /** For every 64-bit address the shifts and masks compute the base-512 digits that the
      paging model walks by. */
  lemma ShiftsAreDigits(addr: bv64)
    ensures var e := VirtualToEntries(addr);
      Vmm.Entries(Number(e.pml4, 64), Number(e.pdp, 64), Number(e.pd, 64), Number(e.pt, 64))
        == Vmm.VirtualToEntries(Number(addr, 64))
  {
    hide Number;
    Shift12(addr);
    Shift21(addr);
    Shift30(addr);
    Shift39(addr);
    Index(addr >> 12, 52);
    Index(addr >> 21, 43);
    Index(addr >> 30, 34);
    Index(addr >> 39, 25);
  }
}
