# Spark kernel: memory management

A verified model of the Spark kernel's memory management: the bitmap frame allocator, the four-level
page tables that draw their frames from it, and `malloc`, which puts the two together under a
spinlock. Two smaller cores stand beside them: the index-carrying linked list and the number
printers `itoa` and `htoa`.

`dafny verify dfyconfig.toml` checks everything.

## How it is built

The code that changes state is modelled as it is written, by classes whose methods have the source's
loops and branches: `Pmm.Allocator` over an array of 64-bit words, `Vmm.Machine` over an array of
memory words, `Malloc.MemoryManager` over the machine, a lock and `top`, and
`LinkedLists.LinkedList` over a pointer chain. Each method is proved against a function on values
(`Frames.Alloc`, `Mapping.MapRange`, `Editing.EditRange`, `Heap.Malloc`, ...), and the properties of
the kernel are theorems about those functions, over all inputs, all runs and all interleavings.

The reference for what page tables mean is not the code but the processor: `Paging.HwWalk` is the
walk of sections 4.5 (4-level paging) and 4.6 (access rights) of the Intel SDM, volume 3A, faults on
the reserved bits of large pages included.

| file | content |
|---|---|
| `Paging.dfy`, `Tables.dfy` | memory, tables, the hardware's walk; growing the tree of tables |
| `Mapping.dfy`, `Editing.dfy`, `FrameBudget.dfy`, `Translations.dfy` | mapping, unmapping, permission changes; what they cost and what they mean for the hardware |
| `AddressSpace.dfy`, `PagingRuns.dfy`, `Rights.dfy`, `Spaces.dfy` | new address spaces, `get_entry`, runs in one and in many address spaces |
| `Vmm.dfy`, `AddressBits.dfy` | the paging code over memory; the bit arithmetic of addresses |
| `Frames.dfy`, `FrameRuns.dfy`, `FrameInit.dfy`, `Pmm.dfy` | the frame allocator, runs of it, its set-up, and the code over the bitmap |
| `Witnesses.dfy` | concrete inputs for the shortfalls below |
| `Heap.dfy`, `Malloc.dfy`, `Boot.dfy` | `malloc` on values, as code, and from the boot loader's map on |
| `SharedHeap.dfy`, `Interleaving.dfy`, `Callers.dfy` | one heap handed out in many address spaces; `malloc` on N CPUs, each in its own; what becomes of every call |
| `LinkedList.dfy`, `NumberText.dfy`, `Arithmetic.dfy`, `Wrappers.dfy` | the list, the printers, shared arithmetic |

## Where the code falls short of its intent

The model keeps the code as it is. Each shortfall is a theorem with the exact condition, and most have
a lemma at a concrete input.

- `alloc` checks where a run starts but not where it ends. Every run of requests stays inside the
  bitmap if and only if the bit in front of its end or the one behind it is reserved
  (`FrameRuns.InsideIffGuarded`; `FrameRuns.Overrun` builds the failing run).
- `Pmm::init` counts pages of the bitmap that a region gives as free, and reserves them again without
  telling the counter; it counts pages that two regions give twice, and does not count clear bits that
  no region gave. `free_pages` is off by just these numbers for ever after
  (`FrameInit.InitAccounts`; `FrameRuns.CounterAfterBoot`), and exact if and only if they cancel out;
  where every bit that `init` does not set reads as set, that is if and only if no region gives a page
  of the bitmap and no page is given twice (`FrameInit.InitExactIff`; `FrameRuns.CounterExactIff`).
  If aligned regions are disjoint and one holds the bitmap, the counter is one too high if and only if
  the bitmap ends inside a page and the region has at least two pages more than the bitmap's whole
  ones (`FrameInit.HomeAccounts`); 260 MiB of memory are such a case
  (`Witnesses.CounterIsOneTooHigh`). The same memory in two regions that meet inside the bitmap makes
  it three too high (`Witnesses.CounterIsThreeTooHigh`).
- Its trailing `alloc` takes as many pages again as the bitmap has, for nobody, if and only if so many
  free pages lie in a row somewhere (`FrameInit.WastedIff`; three pages on those 260 MiB,
  `Witnesses.ThreePagesAreLost`).
- It does not set the bits of the last `bitmap_len % 8` pages; they keep what memory held
  (`FrameInit.ClearIffGiven`), so that a page of no region may be handed out
  (`Witnesses.StrayBitIsClear`).
- Region starts and lengths are rounded apart from each other, so that an unaligned region may free
  pages past its end (`FrameInit.FreedInsideIffSlack`; `Witnesses.FreesPastItsEnd`).
- `map_huge_pages` stores any address that it is given; the processor faults on the pages it maps
  if and only if one of bits 13 to 20 of the address is set (`Translations.MappingTranslates`;
  `Witnesses.MisalignedHugePageFaults`).
- `update_perms` makes an entry for physical page 0 out of an empty one
  (`Translations.UpdateMapsUnmappedPages`; `Witnesses.UpdateMapsTheNeighbour`).
- `update_huge_perms` takes every entry for a 2 MiB page. An empty one becomes a page at physical
  address 0 (`Witnesses.HugeUpdateMapsTheNeighbour`); one that refers to a page table is cut off, and
  its pages fault or are mapped to the memory around the table (`Translations.HugeUpdateOfTable`;
  `Witnesses.HugeUpdateMovesThePage`). A call leaves all pages mapped to what they were mapped to if
  and only if each page of its range is mapped as its entry, taken for a 2 MiB page, says
  (`Translations.UpdateKeepsTargetsIff`).
- `map_pages` writes through a null table when no frame is left; it does so if and only if there are
  fewer free frames than missing tables (`FrameBudget.MapRangeBudget`;
  `Witnesses.NullTableIsReached`).
- The huge-page variants of unmapping and of permission changes do not check the second table; this
  outcome is called `Crashed`, and exactly when it comes is `Editing.CrashesIff`
  (`Witnesses.UnmapHugeCrashes`).
- `insert_after` behind the last node inserts and then reports that it did not
  (`LinkedLists.LinkedList.InsertAfter`); `pop(index)` removes the element in front of the index
  (`LinkedLists.LinkedList.PopIndex`).
- The reversing loop of `itoa` stores the last digit over the whole later half of the text. In base
  10 the text reads back as the number if and only if the lower half of its digits are equal
  (`NumberText.ItoaIff`), which 1234 does not meet (`NumberText.ItoaLosesDigits`).

## What is assumed

- Physical addresses are below 2^52, table addresses are page-aligned, and the constant
  `virtual_physical_base`, which the code adds to every table address, is dropped.
- Sizes and addresses do not wrap around; `map_*`, `unmap_*` and `update_*` are called on ranges that
  stay inside the 48-bit space.
- A 4 KiB operation is called on a path without 2 MiB entries, and permissions are among the low 12
  bits without the large-page bit: the code ignores that bit on its way down.
- The mask of a bitmap bit is the 64-bit one; the source shifts an `int`
  (Spark/hardware/mm/pmm.cpp:17 and :30). `mem_pages` fits 32 bits.
- There is memory behind the bitmap as far as a search reads on, or a reserved bit in it that stops
  the search. `alignment` is at least 1, without which the loop of `alloc` does not end.
- Where a lemma needs available regions to be page-aligned, or bits that `init` does not set to read
  as reserved, it says so (`AlignedRegions`, `TailReserved`, `Bootable` for both); `ClearIffGiven`,
  `WastedIff` and the class `Pmm.Allocator` need neither. What is said of the counter is said of
  memory in which the bit behind the bitmap reads as set and, unless no bit is clear at all, some
  region gives a page (`Countable`): a search runs past the end without the first, and without the
  second `total_pages` is 0, which `alloc` takes for "not counting yet".
- The part of an address space that the heap uses has no 2 MiB pages, and the tables that are there grant
  WRITE; a new address space is like that (`Heap.HeapStarts`), and no call of `malloc` changes it.
- A list node's memory is not reused while the list lives, and `calloc` does not fail.

## Model

| member | source | states |
|---|---|---|
| `Paging.HwWalkReadsSlots` | Spark/hardware/mm/vmm.cpp:38-52 | On every well-formed tree of tables the processor's walk of any page reads exactly the four entries that the code's own indexing finds |
| `Paging.TabFrame` | Spark/hardware/mm/vmm.cpp:38-61 | Memory that is no table of an address space may change at will without changing any table or entry of it |
| `Paging.LinkSlot` | Spark/hardware/mm/vmm.cpp:41-49 | Hanging a zeroed frame into an empty entry changes that entry, makes that one table, and changes no other entry or table of any level |
| `Paging.LinkKeepsTree` | Spark/hardware/mm/vmm.cpp:41-49 | Afterwards the tables still form a tree: every frame is reached in one way, and lies in memory |
| `Paging.LeafSlot` | Spark/hardware/mm/vmm.cpp:70 | Writing a leaf changes its own entry only, except that a 2 MiB leaf over a table cuts off exactly what lies below it |
| `Paging.LeafKeepsTree` | Spark/hardware/mm/vmm.cpp:136 | Writing a leaf keeps the tree |
| `Tables.GetOrAllocGrows` | Spark/hardware/mm/vmm.cpp:38-52 | `get_or_alloc_ent` yields the table of the entry, fails if and only if it needs a frame and none is free, takes exactly one frame when the table was missing, keeps the invariant and touches no frame in use |
| `Tables.DescendGrows` | Spark/hardware/mm/vmm.cpp:65-69 | The three calls of a mapping step succeed if and only if there are as many free frames as missing tables, take exactly that many, and change no table off the path |
| `Mapping.GrowsKeepsWalk` | Spark/hardware/mm/vmm.cpp:38-52 | New, empty tables change no translation |
| `Mapping.WalkFindsLeaf` | Spark/hardware/mm/vmm.cpp:70 | A present leaf is what the walk of every page behind it finds, with the rights that all levels grant together, unless it sets reserved bits |
| `Mapping.MapOneMaps` | Spark/hardware/mm/vmm.cpp:64-71 | One mapping step keeps the invariant, its frame count is exact, tables only grow, data is untouched |
| `Mapping.MapOneWalk` | Spark/hardware/mm/vmm.cpp:64-71 | One step changes the translation of the pages behind its own slot, to the new leaf, and of no other page |
| `Mapping.FlagsAgree` | Spark/hardware/mm/vmm.cpp:47 | New tables carry the permissions of the call, so that what a path grants of them never changes by mapping |
| `Mapping.MapRangeMaps` | Spark/hardware/mm/vmm.cpp:63-76 | A whole mapping call keeps the invariant and every frame in use as data |
| `Mapping.MapRangeWalk` | Spark/hardware/mm/vmm.cpp:63-76 | A mapping call is a flat-map update of the software's view of the translations |
| `Translations.MappingTranslates` | Spark/hardware/mm/vmm.cpp:63-142 | After `map_pages` or `map_huge_pages` the processor finds phys, phys + 1 page, ... with perms and PRESENT (and LARGE) in the range, or faults there when phys sets a reserved bit of a large page, and finds the old translation of every other page, 4 KiB or 2 MiB mapped |
| `Translations.MappedEntry` | Spark/hardware/mm/vmm.cpp:70-137 | After a mapping call, of pages of either size, the entry that the processor finds for a page of the range holds the next frame and, bit for bit, the permissions, PRESENT and, for 2 MiB, LARGE, and nothing else; the physical page is the one at the same distance from phys |
| `FrameBudget.MapRangeTabs` | Spark/hardware/mm/vmm.cpp:63-69 | After a mapping call the tables there are are those there were and those above its range |
| `FrameBudget.MapRangeBudget` | Spark/hardware/mm/vmm.cpp:63-76 | A mapping call reaches no null table if and only if there is a free frame for every table missing on its range, and takes exactly that many |
| `FrameBudget.NeedBound` | Spark/hardware/mm/vmm.cpp:63-72 | At most the sum of (count + s - 2) / s + 1 over s = 512, 512^2, 512^3 tables are missing on a range |
| `FrameBudget.BoundIsReached` | Spark/hardware/mm/vmm.cpp:63-72 | The bound is the best one: for every count some range of an address space without tables needs exactly that many |
| `FrameBudget.EnoughFrames` | Spark/hardware/mm/vmm.cpp:63-76 | With that many free frames no null table is reached |
| `FrameBudget.RemapIsFree` | Spark/hardware/mm/vmm.cpp:38-52 | Mapping a range again always succeeds and takes no frame |
| `Editing.FindIsTab` | Spark/hardware/mm/vmm.cpp:54-61 | Without large pages on the way, following non-zero addresses finds the tables that the processor finds by the present bit |
| `Editing.EditOneEdits` | Spark/hardware/mm/vmm.cpp:79-98 | One unmapping or permission step rewrites its entry if and only if the table is there; else it stops with nothing changed, or runs into a null page directory in the huge-page variants |
| `Editing.EditOneWalk` | Spark/hardware/mm/vmm.cpp:105-124 | One step changes the translation of the pages behind its own slot and of no other page |
| `Editing.EditRangeEdits` | Spark/hardware/mm/vmm.cpp:78-128 | A call finishes if and only if every page of its range has a page table, and has then rewritten exactly the range |
| `Editing.EditRangeWalk` | Spark/hardware/mm/vmm.cpp:104-128 | The translation that a finished call leaves for every page |
| `Editing.StoppedAt` | Spark/hardware/mm/vmm.cpp:84-95 | A call that returns false has finished exactly the pages before the first one without a page table |
| `Editing.CrashesIff` | Spark/hardware/mm/vmm.cpp:144-176 | A huge-page unmapping or permission call runs through a null table if and only if the first slot of its range without a page directory has a table above it; the 4 KiB calls never do |
| `Editing.MapThenUnmap` | Spark/hardware/mm/vmm.cpp:63-159 | Mapping and unmapping a range, of pages of either size, leaves it unmapped and every other translation as it was, in the software's view |
| `Translations.UnmappingTranslates` | Spark/hardware/mm/vmm.cpp:78-102 | After a finished unmapping call the processor faults on exactly the range in addition to what it faulted on |
| `Translations.UpdatingTranslates` | Spark/hardware/mm/vmm.cpp:104-176 | After a finished permission call every page of the range is mapped to the frame its entry named, with the new permissions, or faults when that frame number sets a reserved bit of a large page; all others are unchanged |
| `Translations.UpdatedEntry` | Spark/hardware/mm/vmm.cpp:123-171 | After a finished permission call the entry keeps its frame and holds, bit for bit, the new permissions, PRESENT and, for 2 MiB, LARGE, and nothing else |
| `Translations.UnmappedEntry` | Spark/hardware/mm/vmm.cpp:97-154 | After a finished unmapping call every entry of its range is zero, and no other entry of the level has changed |
| `Translations.MapThenUnmapTranslates` | Spark/hardware/mm/vmm.cpp:63-159 | The same for the processor's translation of every page |
| `Translations.MapThenUnmapRestoresIff` | Spark/hardware/mm/vmm.cpp:63-159 | Mapping and then unmapping a range, of pages of either size, gives the processor's whole translation function back if and only if nothing was mapped in the range |
| `Translations.UpdateMapsUnmappedPages` | Spark/hardware/mm/vmm.cpp:123 | `update_perms` keeps unmapped pages unmapped, for the processor, if and only if there are none in its range |
| `Translations.UpdateTargets` | Spark/hardware/mm/vmm.cpp:104-176 | The physical page behind every page after a finished permission call on pages of either size: the old one, and in the range what the entry says when taken for a leaf, aligned or faulting |
| `Translations.UpdateKeepsTargetsIff` | Spark/hardware/mm/vmm.cpp:104-176 | A finished permission call, of any length and page size, keeps what all pages are mapped to if and only if each page of its range is mapped as its entry, taken for a leaf, says |
| `Translations.HugeUpdateOfTable` | Spark/hardware/mm/vmm.cpp:171 | What `update_huge_perms` makes of an entry that refers to a page table: the table is cut off and its pages fault or map the memory around it, by the alignment of its frame |
| `Translations.RunsKeepRights` | Spark/hardware/mm/vmm.cpp:47-123 | If every mapping and permission call of a run from a zeroed PML4 carries WRITE (or USER), every translation the processor finds grants it, and never more than its leaf |
| `Rights.StepsGrant` | Spark/hardware/mm/vmm.cpp:38-128 | Every present entry of every level carries the flag after any such run |
| `PagingRuns.RunsStaySound` | Spark/hardware/mm/vmm.cpp:38-176 | Over every run of mapping, unmapping and permission calls and of `Pmm::alloc` and `Pmm::free` of data, the tables stay a tree, marked used and apart from all data; data that is out is pairwise disjoint, and what is not given back stays out with its words unchanged |
| `PagingRuns.StepEnds` | Spark/hardware/mm/vmm.cpp:38-176 | Which step of such a run is impossible: a mapping call that needs more frames than there are, an editing call on a range with such a slot, and nothing else that is allowed; and what each step takes and gives back |
| `PagingRuns.GiveStepIsSound` | Spark/hardware/mm/pmm.cpp:134-138 | Freeing one data allocation keeps the tree and all other data |
| `PagingRuns.OneReference` | Spark/hardware/mm/vmm.cpp:38-52 | No two entries of the tables refer to the same table frame |
| `Spaces.CallIsIsolated` | Spark/hardware/mm/vmm.cpp:63-176 | A call on one address space changes no translation of any other, and keeps all of them sound and apart |
| `Spaces.NewSpaceIsFresh` | Spark/hardware/mm/vmm.cpp:205-213 | The tables of a new address space lie in frames that were free, and no frame in use changes |
| `Spaces.NewSpaceIsIsolated` | Spark/hardware/mm/vmm.cpp:205-213 | Making an address space keeps all others sound and apart, with all their translations |
| `Spaces.TurnEnds` | Spark/hardware/mm/vmm.cpp:205-213 | In a run over many address spaces another one can be made if and only if 8 frames are left, and it is a new one |
| `Spaces.SpacesAreIsolated` | Spark/hardware/mm/vmm.cpp:38-213 | Over every run of calls on any number of address spaces made on the way, translations change only through calls on their own address space |
| `AddressSpace.GetEntryIsLeaf` | Spark/hardware/mm/vmm.cpp:178-203 | In the lower half `get_entry` returns the 4 KiB entry of the address, zero where a table is missing, which is the processor's leaf; a page is unmapped if and only if that entry is not present |
| `AddressSpace.WordRoundTrip` | Spark/hardware/mm/vmm.cpp:178-184 | The word that stands for a 64-bit number reads back as that number |
| `AddressSpace.NewSpaceTakesEight` | Spark/hardware/mm/vmm.cpp:205-213 | A new address space takes exactly 8 frames and can be made if and only if 8 are free |
| `AddressSpace.NewSpaceWalk` | Spark/hardware/mm/vmm.cpp:209-210 | The translation of every page of a new address space |
| `AddressSpace.NewSpaceTranslates` | Spark/hardware/mm/vmm.cpp:178-213 | In both windows (4 GiB and 128 MiB) the processor's translation of every address is the number that `get_entry` gets by subtraction, by an entry with PRESENT, WRITE and LARGE and no other low bit, writable; every other canonical address is unmapped |
| `AddressSpace.NewSpaceIsLow` | Spark/hardware/mm/vmm.cpp:209-210 | A new address space has no tables for the lower half |
| `Vmm.EntriesOfPage` | Spark/hardware/mm/vmm.cpp:9-20 | The four indices of an address are the base-512 digits of its page number |
| `Vmm.Machine.ClearFrame` | Spark/hardware/mm/vmm.cpp:48 | Zeroes exactly one frame |
| `Vmm.Machine.GetOrAllocEnt` | Spark/hardware/mm/vmm.cpp:38-52 | `get_or_alloc_ent` over memory and bitmap refines its value form, null pointer included |
| `Vmm.Machine.MapPage` | Spark/hardware/mm/vmm.cpp:65-70 | One turn of the loop of `map_pages` refines a mapping step |
| `Vmm.Machine.MapPages` | Spark/hardware/mm/vmm.cpp:63-76 | `map_pages` refines the mapping of a range |
| `Vmm.Machine.GetOrNullEnt` | Spark/hardware/mm/vmm.cpp:54-61 | In every address space of whose tables this is one, `get_or_null_ent` returns the table that the processor goes on to from this entry, or null if and only if there is none |
| `Vmm.Machine.PageTableOf` | Spark/hardware/mm/vmm.cpp:80-95 | The shared descent returns the page table, or null exactly when one is missing |
| `Vmm.Machine.DirectoryOf` | Spark/hardware/mm/vmm.cpp:146-153 | The descent of the huge-page variants finds the page directory, and stops early exactly when the table above it is missing |
| `Vmm.Machine.EditPages` | Spark/hardware/mm/vmm.cpp:78-128 | The shared loop of `unmap_pages` and `update_perms` refines the editing of a range, true and false results included |
| `Vmm.Machine.UnmapPages` | Spark/hardware/mm/vmm.cpp:78-102 | `unmap_pages` refines clearing a range |
| `Vmm.Machine.UpdatePerms` | Spark/hardware/mm/vmm.cpp:104-128 | `update_perms` refines setting permissions on a range |
| `Vmm.Machine.MapHugePages` | Spark/hardware/mm/vmm.cpp:130-142 | `map_huge_pages` refines the mapping of a range of 2 MiB slots |
| `Vmm.Machine.UnmapHugePages` | Spark/hardware/mm/vmm.cpp:144-159 | `unmap_huge_pages` refines clearing a range of 2 MiB slots |
| `Vmm.Machine.UpdateHugePerms` | Spark/hardware/mm/vmm.cpp:161-176 | `update_huge_perms` refines setting permissions on such a range |
| `Vmm.Machine.NewAddressSpace` | Spark/hardware/mm/vmm.cpp:205-213 | `new_address_space` with 8 free frames refines its value form |
| `Vmm.Machine.GetEntry` | Spark/hardware/mm/vmm.cpp:178-203 | `get_entry` over memory refines its value form |
| `AddressBits.EntriesRoundTrip` | Spark/hardware/mm/vmm.cpp:9-31 | Splitting a joined tuple of indices below 512 gives the tuple back, on 64-bit words |
| `AddressBits.AddressRoundTrip` | Spark/hardware/mm/vmm.cpp:9-31 | Joining a split address keeps exactly bits 12 to 47 |
| `AddressBits.AddressSurvivesIff` | Spark/hardware/mm/vmm.cpp:9-31 | An address survives if and only if it is a page address of the lower 48 bits |
| `AddressBits.NextPage` | Spark/hardware/mm/vmm.cpp:71 | Adding 0x1000 adds one with carry to the four base-512 digits |
| `AddressBits.NextLargePage` | Spark/hardware/mm/vmm.cpp:137 | Adding 0x200000 adds one with carry to the upper three digits |
| `AddressBits.ShiftsAreDigits` | Spark/hardware/mm/vmm.cpp:9-20 | For every 64-bit address the shifts and masks compute the digits that the model of `virtual_to_entries` on numbers uses |
| `Frames.AllocTakesLowest` | Spark/hardware/mm/pmm.cpp:110-128 | `alloc` takes the lowest candidate start whose pages are all free and marks exactly those pages; it fails, with nothing changed, if and only if there is no candidate |
| `Frames.AllocIsFirst` | Spark/hardware/mm/pmm.cpp:110-128 | `alloc` starts at the lowest page at or above 0x2000, below `bitmap_len` and upper / 0x1000 (unless upper is 0) and a multiple of the alignment away from 0x2000, from which no page is used; it fails if and only if there is none; the counter goes down by count if `total_pages` is set |
| `Frames.AllocOne` | Spark/hardware/mm/pmm.cpp:130-132 | A single frame can be had if and only if a bit is clear at or above `memory_base`, and then one clear bit less is left |
| `Frames.NothingBelowBase` | Spark/hardware/mm/pmm.cpp:9-113 | While `bitmap_len` is at most `memory_base` in pages, as it is before `init`, every call fails |
| `FrameRuns.StepsBalance` | Spark/hardware/mm/pmm.cpp:110-138 | Over every run of `alloc` and of `free` of outstanding runs: outstanding runs are disjoint, a bit is set if and only if its page was reserved at first or is outstanding, and the counter plus outstanding pages is constant |
| `FrameRuns.GiveBackUndoesTake` | Spark/hardware/mm/pmm.cpp:110-138 | `free` of what `alloc` has just returned restores bits and counter, or leaves the counter too high by the run while `total_pages` is not set |
| `FrameRuns.TakeConservesIff` | Spark/hardware/mm/pmm.cpp:121-122 | A call keeps that sum if and only if `total_pages` is set or nothing is taken |
| `FrameRuns.CounterAfterBoot` | Spark/hardware/mm/pmm.cpp:70-138 | On any map: from boot on, over every run of `alloc` and of `free` of outstanding runs, `free_pages` is the number of clear bits, plus the pages of the bitmap that regions gave, plus the pages given again, minus the pages that were clear without having been given |
| `FrameRuns.CounterExactIff` | Spark/hardware/mm/pmm.cpp:70-138 | After any such run the counter is exact if and only if these numbers cancel out; where every bit that `init` does not set reads as set, if and only if no region gives a page of the bitmap and no page is given twice |
| `FrameRuns.InsideIffGuarded` | Spark/hardware/mm/pmm.cpp:113-119 | On memory that goes on behind the bitmap, every run of requests stays inside the bitmap if and only if the bit in front of its end or the one behind it is reserved |
| `FrameInit.FreedIsInside` | Spark/hardware/mm/pmm.cpp:80-101 | What an aligned region frees lies inside it, at or above `memory_base` |
| `FrameInit.FreedIffGiven` | Spark/hardware/mm/pmm.cpp:78-103 | Exactly which pages of an aligned region are freed, also when it holds the bitmap |
| `FrameInit.FreedIff` | Spark/hardware/mm/pmm.cpp:78-103 | The same for every region, in terms of its rounded start and length |
| `FrameInit.ClearBitsAreAvailable` | Spark/hardware/mm/pmm.cpp:70-108 | On page-aligned regions and whatever memory held: after `init` every clear bit that `init` set up, or that read as set, names a page wholly inside an available region, at or above `memory_base`, outside the pages that store the bitmap, also when the last of these is partial |
| `FrameInit.ClearIffGiven` | Spark/hardware/mm/pmm.cpp:70-108 | On any map and any memory: after `init` a bit is clear if and only if a region freed its page or it was clear and is not set up, its page does not hold the bitmap, and the trailing `alloc` did not take it |
| `FrameInit.InitBits` | Spark/hardware/mm/pmm.cpp:70-108 | The same by the numbers: the bits of `bitmap_len / 8` bytes are set up, the pages with one of these bytes, at 0x2000000, stay used, and `bitmap_len` is the least number of pages that reaches the end of every available region |
| `FrameInit.InitAccounts` | Spark/hardware/mm/pmm.cpp:70-108 | On any map, overlapping, unaligned or splitting the bitmap: by how much `free_pages` differs from the number of clear bits after `init` |
| `FrameInit.InitExactIff` | Spark/hardware/mm/pmm.cpp:70-108 | `free_pages` is the number of clear bits if and only if as many pages are clear without having been given as are given of the bitmap or given again; where every bit that `init` does not set reads as set, if and only if no region gives a page of the bitmap and no page is given twice |
| `FrameInit.HomeAccounts` | Spark/hardware/mm/pmm.cpp:78-108 | For disjoint aligned regions of which one holds the bitmap: `free_pages` is the number of clear bits, and one more exactly when the bitmap ends inside a page and its region has at least two pages more than the bitmap's whole ones |
| `FrameInit.WastedIff` | Spark/hardware/mm/pmm.cpp:107 | The trailing `alloc` takes pages if and only if there is a bitmap and as many pages in a row as it has are given or stray and not the bitmap's; it takes the lowest such |
| `FrameInit.InitIsGuardedIff` | Spark/hardware/mm/pmm.cpp:76-108 | The bit behind the bitmap is set after `init` if and only if it was set before, its page holds the bitmap, or the trailing `alloc` ran over it |
| `FrameInit.FreedInsideIffSlack` | Spark/hardware/mm/pmm.cpp:78-103 | What an available region frees lies inside it if and only if its start is aligned or its length leaves enough slack, or it takes a branch that frees nothing, or it holds a bitmap that ends inside a page |
| `Pmm.SetBit` | Spark/hardware/mm/pmm.cpp:28-37 | Or-ing a mask into a word sets its bit and no other |
| `Pmm.ClearBit` | Spark/hardware/mm/pmm.cpp:28-37 | And-ing the complement of a mask clears its bit and no other |
| `Pmm.WordWrite` | Spark/hardware/mm/pmm.cpp:28-37 | Rewriting one word of the bitmap changes one bit of the bit sequence |
| `Pmm.MaskIsPower` | Spark/hardware/mm/pmm.cpp:17 | Bits of a word are counted from the lowest |
| `Pmm.Allocator.BitRead` | Spark/hardware/mm/pmm.cpp:16-20 | `bit_read` reads the bit |
| `Pmm.Allocator.BitWrite` | Spark/hardware/mm/pmm.cpp:28-37 | `bit_write` sets exactly the given bits |
| `Pmm.Allocator.BitmapIsFree` | Spark/hardware/mm/pmm.cpp:45-51 | True if and only if all pages of the run are clear |
| `Pmm.Allocator.AllocAligned` | Spark/hardware/mm/pmm.cpp:110-128 | `alloc` terminates for alignment >= 1 and refines its value form, null included |
| `Pmm.Allocator.Alloc` | Spark/hardware/mm/pmm.cpp:130-132 | The one-argument `alloc` refines the same with alignment 1 and no upper limit |
| `Pmm.Allocator.Free` | Spark/hardware/mm/pmm.cpp:134-138 | `free` clears exactly the run and adds it to the counter |
| `Pmm.Allocator.FindAvailableMemoryTop` | Spark/hardware/mm/pmm.cpp:59-68 | No available region ends above the result, and it is the end of one, or 0; other regions do not count |
| `Pmm.Allocator.FreeRegion` | Spark/hardware/mm/pmm.cpp:78-103 | One turn of the loop of `init` frees exactly the run computed for the region, aligned or not |
| `Pmm.Allocator.Init` | Spark/hardware/mm/pmm.cpp:70-108 | `init` refines its value form, on any map and any memory content, with the least `bitmap_len` that covers all available regions |
| `Heap.HeaderIsInside` | Spark/hardware/mm/mm.cpp:12-24 | The header lies inside the pages of the block |
| `Heap.BlockGeometry` | Spark/hardware/mm/mm.cpp:12-30 | What lies behind the returned address up to the end of the last page is the least multiple of 8 that holds the request, and there is exactly one empty page and less than one more in front of the header |
| `Heap.RequestIsInside` | Spark/hardware/mm/mm.cpp:12-30 | Every byte that was asked for lies inside the block |
| `Heap.HeaderSays` | Spark/hardware/mm/mm.cpp:25-26 | The header words read as the number of bytes behind the returned address and the number of pages |
| `Heap.HeaderIsAligned` | Spark/hardware/mm/mm.cpp:12-26 | Both header words lie on word boundaries |
| `Heap.BlockIsContiguous` | Spark/hardware/mm/mm.cpp:14-24 | Every byte of a block translates, for the processor, to the byte at the same distance from the start of its frames |
| `Heap.LoadAfterStore` | Spark/hardware/mm/mm.cpp:25-26 | A store through the translation into any block changes what a load sees at that very address and at no other of any block |
| `Heap.MallocAddsBlock` | Spark/hardware/mm/mm.cpp:10-31 | A successful call returns the address of a block that is mapped to its own frames and has its header written, and moves `top` behind it |
| `Heap.MallocGives` | Spark/hardware/mm/mm.cpp:10-31 | What a successful call gives, address by address: the memory between the old and the new `top` is mapped to a run of frames that were free, present and writable for the kernel only; the pointer leaves the least multiple of 8 that holds the request; the words in front of it say how much that is and how many pages there are |
| `Heap.MallocEnds` | Spark/hardware/mm/mm.cpp:12-21 | A call returns null if and only if no run of free pages is as long as the request with its header and one page more, and runs through a null table if and only if fewer frames are left than tables are missing |
| `Heap.MallocKeepsBlock` | Spark/hardware/mm/mm.cpp:10-31 | It keeps every earlier block mapped, with its header, and apart from the new one |
| `Heap.MallocIsOk` | Spark/hardware/mm/mm.cpp:10-31 | One call keeps the heap in order; without memory it changes nothing |
| `Heap.EnoughForMalloc` | Spark/hardware/mm/mm.cpp:14-21 | How many free frames are enough for no null table to be reached |
| `Heap.CallsAreOk` | Spark/hardware/mm/mm.cpp:10-31 | After any sequence of calls and of writes to words of the memory that was asked for, all blocks with their headers are pairwise disjoint in virtual and in physical memory, contiguous, writable, and their headers are intact |
| `Heap.CallsReadBack` | Spark/hardware/mm/mm.cpp:10-31 | After any such sequence every word of every block holds what was last written to it, or what it held before |
| `Heap.StepEnds` | Spark/hardware/mm/mm.cpp:10-31 | Which step of such a sequence is impossible, and that a request adds one block, at the old `top`, if and only if a run of free frames is long enough |
| `Heap.HeapStarts` | Spark/hardware/mm/mm.cpp:7-8 | The heap is in order on a new address space |
| `SharedHeap.MallocShared` | Spark/hardware/mm/mm.cpp:10-31 | A successful call in one of many address spaces leaves the heap ready in all of them, and its block stands in its caller's |
| `SharedHeap.MallocStands` | Spark/hardware/mm/mm.cpp:10-31 | Every earlier block keeps standing, in whichever address space it is, apart from the new one |
| `SharedHeap.SpaceJoins` | Spark/hardware/mm/vmm.cpp:205-213 | A new address space joins those in which the heap is ready |
| `Boot.MallocTakesFree` | Spark/hardware/mm/mm.cpp:14 | A call takes its block from free frames and frees none |
| `Boot.CallsTakeFree` | Spark/hardware/mm/mm.cpp:10-31 | The frames of every block of a run were free when the run began |
| `Boot.BootedHeap` | Spark/hardware/mm/pmm.cpp:70-108 | After `init` and `new_address_space`, whatever `malloc` hands out lies in available memory behind the bitmap, each block apart from the others and from all page tables |
| `Malloc.Spinlock.TestAndSet` | Spark/hardware/cpu/cpu.cpp:22-33 | Sets the bit and returns its old value |
| `Malloc.Spinlock.Lock` | Spark/hardware/cpu/cpu.cpp:22-33 | Spins while the lock is taken, for exactly as many rounds as it takes the holder to give it back, and ends with it taken |
| `Malloc.Spinlock.Release` | Spark/lib/spinlock.cpp:8-10 | Leaves the lock free |
| `Malloc.MemoryManager.StoreHeader` | Spark/hardware/mm/mm.cpp:24-26 | The two header stores, under the lock and through the translation in force |
| `Malloc.MemoryManager.Place` | Spark/hardware/mm/mm.cpp:21-30 | Under the lock: maps the block, moves `top`, writes the header, returns the address behind it |
| `Malloc.MemoryManager.Malloc` | Spark/hardware/mm/mm.cpp:10-31 | `malloc` over memory, bitmap and lock refines its value form, and both exits leave the lock free |
| `Interleaving.StepIsExplained` | Spark/hardware/mm/mm.cpp:10-31 | Every atomic step of every CPU keeps a state that a serial order of the calls explains |
| `Interleaving.EveryInterleavingIsSerial` | Spark/hardware/mm/mm.cpp:10-31 | For every interleaving of N CPUs: the bit is set if and only if a CPU is inside, never two are, every call returns what it returns in the order of taking the lock, and with the lock free the heap is what that order leaves |
| `Interleaving.OnlyTheHolderChanges` | Spark/lib/spinlock.cpp:4-10 | Only the CPU inside the lock changes the heap; `top` never decreases and moves by whole pages |
| `Interleaving.SerialBlocks` | Spark/hardware/mm/mm.cpp:10-31 | In serial order every call's block stands in the address space of its caller, apart from the blocks of all other calls, whatever space they are in |
| `Interleaving.PartwayKeepsBlock` | Spark/hardware/mm/mm.cpp:14-26 | At no step does the call inside the lock disturb a block handed out before it in any address space |
| `Interleaving.InterleavedBlocks` | Spark/hardware/mm/mm.cpp:10-31 | In every state that any interleaving of callers in any number of address spaces reaches, also in the middle of a call, the pointers returned so far are those of blocks that stand in their callers' address spaces, pairwise disjoint in virtual and physical memory |
| `Interleaving.HolderReleases` | Spark/hardware/mm/mm.cpp:10-31 | In every explained state the CPU inside the lock, running by itself, gives it back within at most its remaining steps, `PagesFor(bytes)` + 5 for a whole call, unless its call is one that runs into a null table |
| `Interleaving.EveryLockComesBack` | Spark/lib/spinlock.cpp:4-10 | In every state that any interleaving reaches the lock is free, or the CPU that took it last is inside and gives it back within so many steps of its own, unless its call runs into a null table |
| `Callers.NoCallIsLost` | Spark/lib/spinlock.cpp:4-6 | In every state that any interleaving reaches, the calls begun on each CPU are, with address space and size and in order, those that took the lock and then the one it spins for; those that took it have returned, but for the one inside |
| `Callers.NoCpuIsStuck` | Spark/hardware/cpu/cpu.cpp:22-33 | In every such state an idle CPU can begin any call, one that finds the bit set goes on spinning with nothing changed, one that finds it clear takes the lock, and one inside can go on, unless its call runs into a null table |
| `Callers.EveryWaiterCanGetIn` | Spark/hardware/cpu/cpu.cpp:22-33 | From every such state a CPU that spins can get in with its own call, by steps of the CPU that is inside and one of its own, unless the call inside runs into a null table |
| `Callers.SmallRunsStayLow` | Spark/hardware/mm/mm.cpp:10-23 | A run whose requests, in whole pages, add up to no more than there is between `top` and the end of the lower half stays in it, in every interleaving |
| `LinkedLists.LinkedList.Find` | Spark/lib/linked_list.hpp:19-24 | The i-th node if and only if 0 <= i < n, else null |
| `LinkedLists.LinkedList.Get` | Spark/lib/linked_list.hpp:26-29 | The i-th element, if there is one |
| `LinkedLists.LinkedList.Update` | Spark/lib/linked_list.hpp:180-190 | Gives every node of a chain its position |
| `LinkedLists.LinkedList.Push` | Spark/lib/linked_list.hpp:31-37 | Puts the value in front |
| `LinkedLists.LinkedList.PushBack` | Spark/lib/linked_list.hpp:38-52 | Puts the value behind the last |
| `LinkedLists.LinkedList.InsertBefore` | Spark/lib/linked_list.hpp:54-82 | Inserts at the index and returns true if and only if there is a node with it, else changes nothing |
| `LinkedLists.LinkedList.InsertAfter` | Spark/lib/linked_list.hpp:83-111 | Inserts behind the index if there is such a node, and returns true if and only if it is not the last |
| `LinkedLists.LinkedList.Pop` | Spark/lib/linked_list.hpp:113-121 | Removes the first element |
| `LinkedLists.LinkedList.PopIndex` | Spark/lib/linked_list.hpp:122-153 | For 0 < i < n removes element i - 1 and keeps the rest in order, else changes nothing |
| `LinkedLists.LinkedList.PopBack` | Spark/lib/linked_list.hpp:154-171 | Removes the last element |
| `LinkedLists.LinkedList.Clear` | Spark/lib/linked_list.hpp:173-178 | Terminates, with an empty list |
| `LinkedLists.InsertThenPop` | Spark/lib/linked_list.hpp:54-153 | Inserting at an index and removing in front of the next one gives the list back |
| `NumberText.DigitsHaveValue` | Spark/lib/lib.cpp:182-185 | The digits that the loop writes stand for the number |
| `NumberText.ValueIsInjective` | Spark/lib/lib.cpp:182-185 | Different digit sequences of one length stand for different numbers |
| `NumberText.SwapSmears` | Spark/lib/lib.cpp:189-193 | The reversing loop leaves the digits most significant first, with the last digit over the whole later half |
| `NumberText.WriteDigits` | Spark/lib/lib.cpp:182-185 | The do-while loop writes the digits of the absolute value, least significant first, for either sign |
| `NumberText.SwapDigits` | Spark/lib/lib.cpp:189-193 | The reversing loop in place refines its value form |
| `NumberText.WriteItoa` | Spark/lib/lib.cpp:169-197 | `itoa` leaves exactly the modelled text and an end mark, in every base, bad ones included |
| `NumberText.MagnitudeIff` | Spark/lib/lib.cpp:189-193 | In every base the text stands for the absolute value if and only if the lower half of the digits are equal |
| `NumberText.ItoaIff` | Spark/lib/lib.cpp:169-197 | In base 10 the text reads back as the number if and only if the lower half of the digits are equal |
| `NumberText.SmallNumbersRoundTrip` | Spark/lib/lib.cpp:169-197 | It does for every absolute value below 1000 |
| `NumberText.ItoaChars` | Spark/lib/lib.cpp:178-185 | In every base the text consists of digits below the base, letters in lower case, behind a sign exactly for negative numbers in base 10 |
| `NumberText.ItoaStart` | Spark/lib/lib.cpp:169-197 | The text is empty exactly in bases below 2 or above 36, and its digits start with a zero only for zero |
| `NumberText.ItoaLosesDigits` | Spark/lib/lib.cpp:189-193 | 1234 prints as 1244 |
| `NumberText.WriteHtoa` | Spark/lib/lib.cpp:199-218 | `htoa` writes exactly the modelled text and no end mark, for every 64-bit number |
| `NumberText.HtoaRoundTrip` | Spark/lib/lib.cpp:199-218 | Reading the text as a hexadecimal number gives the number back |
| `NumberText.HtoaHasNoLeadingZero` | Spark/lib/lib.cpp:209-210 | The first digit is zero if and only if the number is |
| `NumberText.HtoaLength` | Spark/lib/lib.cpp:199-218 | 3 to 18 characters are written |
| `NumberText.HtoaChars` | Spark/lib/lib.cpp:213-217 | Behind the prefix are decimal digits and letters from a to f, all of the case that `caps` asks for |
| `NumberText.CapsChangeCaseOnly` | Spark/lib/lib.cpp:213-217 | `caps` changes the case of letters and nothing else |
| `Witnesses.NullTableIsReached` | Spark/hardware/mm/vmm.cpp:67-70 | With 8 free frames an address space can be made, and mapping one page into it runs through a null table |
| `Witnesses.UpdateMapsTheNeighbour` | Spark/hardware/mm/vmm.cpp:123 | `update_perms` next to a mapped page maps an unmapped one to physical page 0 |
| `Witnesses.UnmapHugeCrashes` | Spark/hardware/mm/vmm.cpp:153-154 | `unmap_huge_pages` on the next gigabyte runs through a null table |
| `Witnesses.MisalignedHugePageFaults` | Spark/hardware/mm/vmm.cpp:136 | `map_huge_pages` at physical address 0x3003000 succeeds, and the processor faults on the page |
| `Witnesses.HugeUpdateMapsTheNeighbour` | Spark/hardware/mm/vmm.cpp:171 | `update_huge_perms` on an empty slot maps it to physical address 0 |
| `Witnesses.HugeUpdateMovesThePage` | Spark/hardware/mm/vmm.cpp:171 | `update_huge_perms` on a slot that holds a page table moves a page mapped through it elsewhere |
| `Witnesses.CounterIsOneTooHigh` | Spark/hardware/mm/pmm.cpp:92-106 | On 260 MiB of memory `free_pages` is one too high after `init` |
| `Witnesses.CounterIsThreeTooHigh` | Spark/hardware/mm/pmm.cpp:92-106 | The same memory in two regions that meet inside the bitmap makes it three too high |
| `Witnesses.ThreePagesAreLost` | Spark/hardware/mm/pmm.cpp:107 | On those 260 MiB the three pages behind the bitmap are lost to the trailing `alloc` |
| `Witnesses.StrayBitIsClear` | Spark/hardware/mm/pmm.cpp:74-76 | On a map with a gap in its last pages, and memory that reads as zero there, the page in the gap is free after `init` |
| `Witnesses.FreesPastItsEnd` | Spark/hardware/mm/pmm.cpp:80-81 | A region that ends in the middle of a page frees that page |

## Left out

- Heap `free` and `realloc` (Spark/hardware/mm/mm.cpp:40-68): they use pointer values where header fields are meant, and an early return keeps the lock, so that no round trip with `malloc` holds.
- `calloc`, `memcpy` and the rest of Spark/hardware/mm/mm.cpp:33-38 and :70 on: one byte loop each; `memset` appears only as the zeroing of frames and of the bitmap.
- Context switching, CR3 and `invlpg` (Spark/hardware/mm/vmm.cpp:215-261): assembly. The current address space is a parameter of every call, and translation caches are not modelled.
- Bits 52 to 63 of entries: physical addresses have 52 bits, as the largest that the processor allows, so that no address bit is reserved; protection keys and execute-disable are not used by the code. Memory types are not part of a translation.
- `sprintf` (Spark/lib/lib.cpp:4-140): variadic arguments.
- Interrupts, ports, model-specific registers, APIC, SMP start-up, ACPI, PCI, terminal, fonts: hardware I/O and user interface.
- Fairness of the spinlock: a CPU may spin for ever while others take turns; that the holder can always give the lock back, and every waiting CPU then get in, is proved.
- The freeing of bitmap pages in front of the bitmap (Spark/hardware/mm/pmm.cpp:93-94): never reached, since the region has just been clipped at `memory_base`, where the bitmap is.
- The order in which a CPU's own memory accesses become visible to others: every step of the interleaving model is atomic.
- Malloc.MemoryManager.Malloc: starts with the lock free, because a CPU that spins sees the heap change under it; calls that wait are part of the interleaving model.
- Vmm.Machine.MapPages: requires that no null table is reached, since the code then writes through a null pointer; `FrameBudget.MapRangeBudget` says exactly when.
- Heap.CallsAreOk: leaves out runs that reach the upper half of the address space or a null table.
- Interleaving.InterleavedBlocks: speaks of runs whose calls stay in the lower half of the address space, which all do that ask for no more than there is (`Callers.SmallRunsStayLow`).
- Boot.BootedHeap: takes page-aligned regions, and bits that `init` does not set, up to the one behind the bitmap, reading as reserved; without the last of these a block may reach past the bitmap.
- List nodes are never returned to the heap, so that the double release in `insert_before` and `insert_after` has no effect in the model.
