# Frame-table physical page allocator

This project models the physical page allocator of a small xv6-derived kernel
(`kalloc.c`) in Dafny. It proves what each operation does to the allocator's
state.

The allocator does not keep a free list. It keeps three parallel tables with
one entry per 4096-byte physical frame, indexed by physical address / 4096:

- `PID[]` holds the frame's owner, and -1 means the frame is free.
- `VPN[]` holds the virtual address the frame is exposed at.
- `PTE_XV6[]` holds a page-table-entry template.

The operations are:

- `freerange` marks every whole page of a kernel virtual range free.
- The two-phase initialiser (`kinit1`, then `kinit2`) calls it. `kinit1`
  switches locking off and `kinit2` switches it on.
- `find_k_free_space` and `find_u_free_space` are first-fit scans. The kernel
  region runs from the first page boundary at or above `V2P(end)` up to
  `USTART` (1024 pages). The user region runs from `USTART` up to `PHYSTOP`.
- `kalloc(pid, v)` claims the lowest free frame of the kernel region when `v`
  is `(char*)-1`, and of the user region otherwise. It records `pid` as the
  owner. It records the frame's kernel address as `VPN` for a kernel caller,
  and `v` for any other caller. It returns the frame's kernel address, or 0.
- `kfree(pid, v)` gives a frame back.

Files:

- `layout.dfy` (module `MemLayout`) holds the page size, `USTART`, page
  rounding, and the `Layout` value. `Layout` carries `KERNBASE`, `PHYSTOP`
  and the address of `end`, and states what the allocator assumes of them:
  page alignment, `USTART < PHYSTOP`, and `KERNBASE + PHYSTOP + PGSIZE < 2^32`,
  so no address computed here, `freerange`'s `p + PGSIZE` included, wraps
  around. `V2P`/`P2V` are a fixed-offset pair over it.
- `frametable.dfy` (module `FrameTable`) treats the owner table as a value.
  It defines first-fit search, free counts, runs of successive allocations,
  and the lookup of the frame recorded for an owner and an address. The
  lemmas about successive allocations and releases are here.
- `kalloc.dfy` (module `Kalloc`) holds the class `Allocator`. Its fields are
  the tables as arrays and `useLock`, and its methods are the operations.
  The loops of the two region scans and of the kfree lookup are proved
  against `FrameTable.FirstFree` and `FrameTable.FindOwned`. The loop of
  `Freerange` is proved against `MemLayout.Layout.Seeded`. `Kalloc` and
  `Kfree` have no loop of their own: their contracts are stated through the
  scans they call.

Two points where the code and its own comments part ways:

- `kfree` is a stub. Its body only panics (kalloc.c:71). `Kalloc.Allocator.Kfree`
  models the behaviour its TODO comment describes (kalloc.c:72-76). That is
  the intended behaviour, not what the code does. It looks the frame up by
  owner and virtual address in `PID`/`VPN`. It fills the page with bytes of
  value 1 through its `P2V` address. It sets `PID` to -1 and clears `VPN` and
  `PTE_XV6` to 0. When the caller owns no frame at that address, it returns
  false and changes nothing. That is the fatal path, where a real kernel
  would panic.
- `kalloc` tests `idx != -1` at kalloc.c:124. Its comments (kalloc.c:108,
  142) say it fails exactly when no frame was found. The model follows the
  comments and records the test as written under Findings.

The search region is chosen by `v == (char*)-1` (kalloc.c:118), not by
`pid`.

## Model

| member | source | states |
|---|---|---|
| `MemLayout.PgRoundUp` | kalloc.c:56 | PGROUNDUP yields a page boundary at or above its argument and less than a page above it |
| `MemLayout.FilledPage` | kalloc.c:76 | the memset fill leaves a page of PGSIZE bytes, each equal to the fill value |
| `MemLayout.Layout.TranslationInverse` | kalloc.c:75 | V2P and P2V undo each other |
| `MemLayout.Layout.RegionsPartition` | kalloc.c:79-104 | the kernel region ends and the user region starts at frame 1024; the user region ends at the table's end; the region chosen for `v` lies in the table and is on its own side of USTART |
| `MemLayout.Layout.FrameAddress` | kalloc.c:129-145 | the address returned for a frame is page-aligned, lies in the kernel's mapping, translates back to the frame, and is neither 0 (failure) nor `(char*)-1` |
| `MemLayout.Layout.SeedingComposes` | kalloc.c:32-50 | seeding [a, b) and then [b, c) at a page boundary b frees exactly the frames that seeding [a, c) frees |
| `FrameTable.FirstFree` | kalloc.c:81-104 | first fit: -1 exactly when the region has no free frame, else a free frame of the region with every lower frame of the region owned |
| `FrameTable.FirstFreeFailsIffExhausted` | kalloc.c:106-108 | the search fails exactly when the region's free count is zero |
| `FrameTable.ClaimInRegion` | kalloc.c:131 | recording an owner on a free frame lowers the region's free count by one |
| `FrameTable.ReleaseInRegion` | kalloc.c:72-74 | freeing an owned frame raises the region's free count by one |
| `FrameTable.ClaimAllObtainsFree` | kalloc.c:118-131 | in a run of allocations, each frame obtained is in its request's region, was free before and is owned after; frames already owned keep their owner |
| `FrameTable.ClaimAllDistinct` | kalloc.c:118-131 | successive allocations for owners other than -1, with no free in between, never obtain the same frame twice |
| `FrameTable.ClaimAllExhausts` | kalloc.c:118-128 | when a region has f free frames, f successive allocations from it succeed and the next fails |
| `FrameTable.ReleasedFrameIsNextFit` | kalloc.c:94-104 | a frame freed while every lower frame of its region is owned is the one the next allocation from that region obtains |
| `FrameTable.FindOwned` | kalloc.c:72-73 | the lowest frame that `pid` (not -1) owns at virtual address `v`, or -1 exactly when there is none |
| `FrameTable.ReleaseForgetsOwner` | kalloc.c:72-74 | after a frame is freed for (pid, v), a lookup for (pid, v) fails unless pid owns another frame at v |
| `FrameTable.FourFrameScenario` | kalloc.c:94-131 | on the owner table as a value, with four free frames in a region: four first-fit claims obtain them in address order, a fifth fails, and after the second frame is set back to -1 (the write `Kfree` makes) the next claim obtains it again |
| `Kalloc.Allocator.constructor` | kalloc.c:14-16 | the tables have one entry per frame, all zero as static storage leaves them, with locking off |
| `Kalloc.Allocator.Freerange` | kalloc.c:52-60 | PID becomes -1 for exactly the frames of whole pages from PGROUNDUP(vstart) up to vend; every other entry of every table is unchanged |
| `Kalloc.Allocator.Kinit1` | kalloc.c:37-43 | locking is off afterwards, and the owner table changes as freerange changes it |
| `Kalloc.Allocator.Kinit2` | kalloc.c:45-50 | locking is on afterwards, and the owner table changes as freerange changes it |
| `Kalloc.Allocator.FindKFreeSpace` | kalloc.c:81-92 | returns the lowest free frame in [PGROUNDUP(V2P(end))/PGSIZE, USTART/PGSIZE), or -1 exactly when there is none; changes nothing |
| `Kalloc.Allocator.FindUFreeSpace` | kalloc.c:94-104 | returns the lowest free frame in [USTART/PGSIZE, PHYSTOP/PGSIZE), or -1 exactly when there is none; changes nothing |
| `Kalloc.Allocator.Kalloc` | kalloc.c:110-146 | searches only the region `v` selects. If it holds no free frame, returns 0 and changes nothing. Otherwise sets PID to `pid` and VPN to the frame's kernel address (kernel caller) or `v` at that frame only, returns P2V of the frame, and leaves PTE_XV6 and page contents untouched |
| `Kalloc.Allocator.FindFrame` | kalloc.c:72-73 | returns the lowest frame that `pid` owns at `v`, or -1 exactly when there is none; changes nothing |
| `Kalloc.Allocator.Kfree` | kalloc.c:67-77 | intended behaviour: fails and changes nothing when `pid` owns no frame at `v`. Otherwise that frame only is filled with bytes of value 1, PID becomes -1 and VPN and PTE_XV6 become 0 |
| `Kalloc.KallocTwice` | kalloc.c:118-131 | two successive kalloc calls, the first for an owner other than -1, with no free in between, never return the same non-zero address, and the first frame stays owned by its caller |
| `Kalloc.InvertedTestDefect` | kalloc.c:124-131 | with the test as written, kalloc reports failure exactly when its region has a free frame, and otherwise claims index -1, which is outside the table |
| `Kalloc.InvertedTestCounterexample` | kalloc.c:124-131 | a one-frame region with its frame free makes the written test fail; the same region owned makes it claim index -1 |
| `Kalloc.IntendedTestCorrect` | kalloc.c:106-108 | with the test the comments describe, kalloc claims a frame exactly when its region has a free one, and claims the lowest |

## Left out

- The spinlock is not modelled: `initlock`, `acquire` and `release` (kalloc.c:27, 40, 115-116, 125-126, 143-144) are concurrency. Only `use_lock` is kept, as `useLock`.
- The free-list `kalloc(void)`, `struct run` and `kmem.freelist` (kalloc.c:22-29, 148-163) are disabled or unused code.
- `panic` is not modelled. `Kfree`'s fatal path is the result `false` with no state change.
- `Kalloc.Allocator.Kfree`: kalloc.c:71 only panics, so this models the TODO's intended behaviour, not the code. Which frame it frees when `pid` owns several frames at `v` (the lowest) is a choice of this model.
- `V2P`, `P2V`, `PGROUNDUP`, `PHYSTOP`, `KERNBASE` and `end` come from headers and the linker script, which are not part of this model. They are parameters (`Layout`) with the assumptions `Layout.Valid()` lists.
- `MAXENTRY` (kalloc.c:12) is unused by the code. Here each table has exactly PHYSTOP/PGSIZE entries.
- Where `PID`, `VPN` and `PTE_XV6` are defined is not part of this model. The constructor assumes zero-initialised static storage.
- Memory contents are modelled only as one byte sequence per frame. A frame's contents before its first free are not modelled (empty). There are no page tables.
- The boot order (`kinit1` before `kinit2`, and allocation between them) is driven by `main()`, which is not part of this model. That an allocation before `kinit2` can only obtain a frame freed by `kinit1` follows from three contracts: the constructor (no frame free), `Kinit1` (exactly the seeded frames free) and `Kalloc` (it only claims a frame that was free). No separate member states it.
- The C `int` width of `pid` is not modelled. Owners are unbounded integers.

## Findings

| source | as written | input that shows it | evidently intended | confidence | as-written member | corrected member |
|---|---|---|---|---|---|---|
| kalloc.c:124 | `if(idx != -1)` returns 0 when the search found a free frame, and falls through to `PID[idx] = pid` with idx == -1 when it found none | a region whose lowest frame is free: the search returns its index and kalloc returns 0; a region with no free frame: kalloc writes `PID[-1]` and `VPN[-1]` | `if(idx == -1)`, failing exactly when no frame was found (kalloc.c:108, 142) | high; not executed | `Kalloc.InvertedTestCounterexample` | `Kalloc.Allocator.Kalloc` |
