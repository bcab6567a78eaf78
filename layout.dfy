/**
 * The physical memory layout the frame-table allocator works over: the page
 * size, the boundary between the kernel and the user region, the fixed-offset
 * translation between kernel virtual and physical addresses, and page rounding.
 *
 * `KERNBASE`, `PHYSTOP` and the linker symbol `end` are not fixed here: a
 * `Layout` value carries them, and `Layout.Valid()` states what the allocator
 * assumes of them (page alignment, `USTART < PHYSTOP`, no 32-bit wrap-around).
 */
module MemLayout {

  /** Bytes per page, and per physical frame. */
  const PGSIZE: nat := 4096

  /** First physical address of the user region: frames below it form the kernel region. */
  const USTART: nat := 1024 * PGSIZE

  /** One past the largest value of a 32-bit `uint` or pointer. */
  const UINT_LIMIT: nat := 0x1_0000_0000

  /** A 32-bit unsigned value: a `uint`, a `pte_t` or a pointer on the modelled machine. */
  type uint32 = x: int | 0 <= x < UINT_LIMIT

  /** One byte of page contents. */
  newtype byte = b: int | 0 <= b < 256

  /** The pointer `(char*)-1` that a kernel caller of kalloc passes instead of a virtual address. */
  const KERNEL_VA: uint32 := 0xFFFF_FFFF

  /** PGROUNDUP: the smallest page boundary at or above `a`. */
  function PgRoundUp(a: nat): (r: nat)
    ensures r % PGSIZE == 0
    ensures a <= r < a + PGSIZE
  {
    ((a + PGSIZE - 1) / PGSIZE) * PGSIZE
  }

  /** Two distinct page boundaries are at least a page apart. */
  lemma AlignedGap(x: int, y: int)
    requires x % PGSIZE == 0 && y % PGSIZE == 0 && x < y
    ensures x + PGSIZE <= y
  {
    assert x == PGSIZE * (x / PGSIZE);
    assert y == PGSIZE * (y / PGSIZE);
  }

  /** A page whose every byte is `b`: what memset(kv, b, PGSIZE) leaves behind. */
  function FilledPage(b: byte): (page: seq<byte>)
    ensures |page| == PGSIZE
    ensures forall k :: 0 <= k < |page| ==> page[k] == b
  {
    seq(PGSIZE, _ => b)
  }

  /**
   * The machine constants the allocator is parameterised by: `kernbase` is
   * KERNBASE (where physical address 0 appears in kernel virtual space),
   * `phystop` is PHYSTOP (the top of physical memory) and `kernEnd` is the
   * kernel virtual address of the linker symbol `end`.
   */
  datatype Layout = Layout(kernbase: nat, phystop: nat, kernEnd: nat)
  {
    predicate Valid()
    {
      && 0 < kernbase && kernbase % PGSIZE == 0
      && phystop % PGSIZE == 0
      && USTART < phystop
      // physical addresses fit the C `int` that kalloc.c:59 casts them to
      && phystop <= 0x8000_0000
      // no kernel virtual address of a frame, nor one page past the last
      // one (freerange's `p + PGSIZE`), reaches 2^32 and wraps around
      && kernbase + phystop + PGSIZE < UINT_LIMIT
      // `end` lies in the kernel's mapping of physical memory
      && kernbase <= kernEnd <= kernbase + phystop
    }

    /** V2P: kernel virtual address to physical address. */
    function V2P(va: int): int { va - kernbase }

    /** P2V: physical address to kernel virtual address. */
    function P2V(pa: int): int { pa + kernbase }

    /** Number of frames, and of entries in each per-frame table. */
    function NFrames(): nat { phystop / PGSIZE }

    /** The frame a kernel virtual address falls in: V2P(va) / PGSIZE. */
    function FrameOf(va: int): int { V2P(va) / PGSIZE }

    /** The kernel virtual address of frame `i`: P2V(i * PGSIZE). */
    function FrameVA(i: int): int { P2V(i * PGSIZE) }

    /** The kernel region is frames [KernelLo(), KernelHi()): from the first page boundary at or above V2P(end) up to USTART. */
    function KernelLo(): nat
      requires Valid()
    {
      PgRoundUp(V2P(kernEnd)) / PGSIZE
    }

    function KernelHi(): nat { USTART / PGSIZE }

    /** The user region is frames [UserLo(), UserHi()): from USTART up to PHYSTOP. */
    function UserLo(): nat { USTART / PGSIZE }

    function UserHi(): nat { phystop / PGSIZE }

    /** The region kalloc searches for a caller passing `v`: the kernel region exactly when v is (char*)-1. */
    function RegionLo(v: int): nat
      requires Valid()
    {
      if v == KERNEL_VA then KernelLo() else UserLo()
    }

    function RegionHi(v: int): nat
    {
      if v == KERNEL_VA then KernelHi() else UserHi()
    }

    /** Frame `i` lies wholly in one of the pages freerange(vstart, vend) walks over. */
    predicate Seeded(vstart: nat, vend: int, i: int)
    {
      PgRoundUp(vstart) <= FrameVA(i) && FrameVA(i) + PGSIZE <= vend
    }

    /** V2P and P2V are inverse to each other. */
    lemma TranslationInverse(a: int)
      ensures V2P(P2V(a)) == a && P2V(V2P(a)) == a
    {
    }

    /** Both regions lie in the table, they meet at USTART, and kalloc's choice of region is one of them. */
    lemma RegionsPartition(v: int)
      requires Valid()
      ensures KernelHi() == UserLo() == 1024
      ensures UserLo() < UserHi() == NFrames()
      ensures RegionHi(v) <= NFrames()
      ensures v == KERNEL_VA ==> RegionHi(v) <= UserLo()
      ensures v != KERNEL_VA ==> KernelHi() <= RegionLo(v)
    {
      assert phystop == PGSIZE * (phystop / PGSIZE);
    }

    /**
     * The address kalloc returns for frame `i` is a page-aligned kernel
     * address that translates back to `i`, is never the null pointer kalloc
     * returns on failure, and is never the (char*)-1 sentinel.
     */
    lemma FrameAddress(i: int)
      requires Valid() && 0 <= i < NFrames()
      ensures kernbase <= FrameVA(i) && FrameVA(i) + PGSIZE <= P2V(phystop)
      ensures FrameVA(i) % PGSIZE == 0 && FrameVA(i) + PGSIZE < UINT_LIMIT
      ensures FrameVA(i) != 0 && FrameVA(i) != KERNEL_VA
      ensures FrameOf(FrameVA(i)) == i
    {
      assert phystop == PGSIZE * NFrames();
      assert (i + 1) * PGSIZE <= phystop;
      assert V2P(FrameVA(i)) == i * PGSIZE;
    }

    /** A page-aligned address in the kernel's mapping is the address of its own frame. */
    lemma AlignedAddress(va: int)
      requires Valid() && kernbase <= va && va % PGSIZE == 0
      ensures FrameOf(va) >= 0 && FrameVA(FrameOf(va)) == va
    {
      assert V2P(va) % PGSIZE == 0;
      assert V2P(va) == PGSIZE * (V2P(va) / PGSIZE);
    }

    /**
     * Seeding [a, b) and then [b, c) frees the same frames as seeding [a, c)
     * when the boundary b is a page boundary: kinit1 and kinit2 together
     * cover the whole range without a gap or a frame counted twice.
     */
    lemma SeedingComposes(a: nat, b: nat, c: int, i: int)
      requires Valid() && b % PGSIZE == 0 && PgRoundUp(a) <= b <= c
      ensures Seeded(a, c, i) <==> Seeded(a, b, i) || Seeded(b, c, i)
    {
      var f := FrameVA(i);
      FrameAligned(i);
      if b < PgRoundUp(b) { AlignedGap(b, PgRoundUp(b)); }
      if f < b { AlignedGap(f, b); }
    }

    /** Every frame's kernel address is a page boundary. */
    lemma FrameAligned(i: int)
      requires Valid()
      ensures FrameVA(i) % PGSIZE == 0
    {
      assert FrameVA(i) == PGSIZE * (kernbase / PGSIZE + i);
    }
  }
}
