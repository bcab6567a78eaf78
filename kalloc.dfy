/**
 * The frame-table physical page allocator: three parallel per-frame tables
 * (owner, virtual address, page-table-entry template), the two-phase
 * initialiser that seeds free frames, the first-fit searches of the kernel
 * and the user region, allocation, and release as its TODO comment intends.
 */
module Kalloc {
  import opened MemLayout
  import opened FrameTable

  class Allocator {
    /** KERNBASE, PHYSTOP and `end` of the machine the allocator runs on. */
    const layout: Layout
    /** PID[]: the owner of each frame, FREE (-1) for a free frame. */
    const pids: array<int>
    /** VPN[]: the virtual address each frame is exposed at. */
    const vpns: array<uint32>
    /** PTE_XV6[]: the page-table-entry template of each frame. */
    const ptes: array<uint32>
    /** The bytes of each frame, as far as the allocator writes them. */
    const pages: array<seq<byte>>
    /** kmem.use_lock: whether table updates take the allocator's lock. */
    var useLock: bool

    /** The tables have one entry per physical frame and are distinct arrays. */
    predicate Valid()
    {
      && layout.Valid()
      && pids.Length == layout.NFrames()
      && vpns.Length == layout.NFrames()
      && ptes.Length == layout.NFrames()
      && pages.Length == layout.NFrames()
      && vpns != ptes
    }

    /** The tables as static storage leaves them at boot: all zero, locking off. */
    constructor (layout: Layout)
      requires layout.Valid()
      ensures Valid() && this.layout == layout && !useLock
      ensures forall i :: 0 <= i < pids.Length ==> pids[i] == 0 && vpns[i] == 0 && ptes[i] == 0
      ensures fresh(pids) && fresh(vpns) && fresh(ptes) && fresh(pages)
    {
      this.layout := layout;
      var n := layout.NFrames();
      pids := new int[n](_ => 0);
      vpns := new uint32[n](_ => 0);
      ptes := new uint32[n](_ => 0);
      pages := new seq<byte>[n](_ => []);
      useLock := false;
    }

    /**
     * freerange: marks free the frame of every whole page from the page
     * boundary at or above `vstart` up to `vend`; a trailing partial page is
     * not marked, and no other entry of any table changes.
     */
    method Freerange(vstart: uint32, vend: uint32)
      requires Valid()
      requires layout.kernbase <= vstart <= layout.P2V(layout.phystop)
      requires vend <= layout.P2V(layout.phystop)
      modifies pids
      ensures forall i :: 0 <= i < pids.Length ==>
                pids[i] == if layout.Seeded(vstart, vend, i) then FREE else old(pids[i])
    {
      var p := PgRoundUp(vstart);
      layout.AlignedAddress(p);
      ghost var first := layout.FrameOf(p);
      ghost var k := first;
      while p + PGSIZE <= vend
        invariant first <= k && p == layout.FrameVA(k)
        invariant k == first || p <= vend
        invariant forall i :: 0 <= i < pids.Length ==>
                    pids[i] == if first <= i < k then FREE else old(pids[i])
        decreases vend - p
      {
        assert layout.FrameOf(p) == k;
        pids[layout.FrameOf(p)] := FREE;
        p := p + PGSIZE;
        k := k + 1;
      }
      assert forall i :: layout.Seeded(vstart, vend, i) <==> first <= i < k;
    }

    /** kinit1: first phase of initialisation, with locking off. */
    method Kinit1(vstart: uint32, vend: uint32)
      requires Valid()
      requires layout.kernbase <= vstart <= layout.P2V(layout.phystop)
      requires vend <= layout.P2V(layout.phystop)
      modifies this`useLock, pids
      ensures !useLock
      ensures forall i :: 0 <= i < pids.Length ==>
                pids[i] == if layout.Seeded(vstart, vend, i) then FREE else old(pids[i])
    {
      useLock := false;
      Freerange(vstart, vend);
    }

    /** kinit2: second phase of initialisation, after which locking is on. */
    method Kinit2(vstart: uint32, vend: uint32)
      requires Valid()
      requires layout.kernbase <= vstart <= layout.P2V(layout.phystop)
      requires vend <= layout.P2V(layout.phystop)
      modifies this`useLock, pids
      ensures useLock
      ensures forall i :: 0 <= i < pids.Length ==>
                pids[i] == if layout.Seeded(vstart, vend, i) then FREE else old(pids[i])
    {
      Freerange(vstart, vend);
      useLock := true;
    }

    /**
     * find_k_free_space: the lowest free frame of the kernel region, or -1
     * when every frame there is owned.
     */
    method FindKFreeSpace() returns (idx: int)
      requires Valid()
      ensures idx == FirstFree(pids[..], layout.KernelLo(), layout.KernelHi())
      ensures idx == -1 <==> forall j :: layout.KernelLo() <= j < layout.KernelHi() ==> pids[j] != FREE
      ensures idx != -1 ==> && layout.KernelLo() <= idx < layout.KernelHi() && pids[idx] == FREE
                            && forall j :: layout.KernelLo() <= j < idx ==> pids[j] != FREE
    {
      layout.RegionsPartition(KERNEL_VA);
      var pa := PgRoundUp(layout.V2P(layout.kernEnd));
      ghost var k := layout.KernelLo();
      while pa < USTART
        invariant pa == k * PGSIZE && layout.KernelLo() <= k
        invariant FirstFree(pids[..], layout.KernelLo(), layout.KernelHi())
               == FirstFree(pids[..], k, layout.KernelHi())
        decreases USTART - pa
      {
        idx := pa / PGSIZE;
        assert idx == k;
        if pids[idx] == FREE {
          return;
        }
        pa := pa + PGSIZE;
        k := k + 1;
      }
      idx := -1;
    }

    /**
     * find_u_free_space: the lowest free frame of the user region, or -1
     * when every frame there is owned.
     */
    method FindUFreeSpace() returns (idx: int)
      requires Valid()
      ensures idx == FirstFree(pids[..], layout.UserLo(), layout.UserHi())
      ensures idx == -1 <==> forall j :: layout.UserLo() <= j < layout.UserHi() ==> pids[j] != FREE
      ensures idx != -1 ==> && layout.UserLo() <= idx < layout.UserHi() && pids[idx] == FREE
                            && forall j :: layout.UserLo() <= j < idx ==> pids[j] != FREE
    {
      layout.RegionsPartition(0);
      var pa := USTART;
      ghost var k := layout.UserLo();
      while pa < layout.phystop
        invariant pa == k * PGSIZE && layout.UserLo() <= k
        invariant FirstFree(pids[..], layout.UserLo(), layout.UserHi())
               == FirstFree(pids[..], k, layout.UserHi())
        decreases layout.phystop - pa
      {
        idx := pa / PGSIZE;
        assert idx == k;
        if pids[idx] == FREE {
          return;
        }
        pa := pa + PGSIZE;
        k := k + 1;
      }
      idx := -1;
    }

    /**
     * kalloc(pid, v): claims the lowest free frame of the kernel region when
     * `v` is (char*)-1 and of the user region otherwise, records `pid` as its
     * owner and, as its virtual address, the frame's kernel address for a
     * kernel caller and `v` for any other; returns the frame's kernel
     * address, or 0 with nothing changed when the region has no free frame.
     * The page-table-entry templates and page contents are not touched.
     */
    method Kalloc(pid: int, v: uint32) returns (r: uint32)
      requires Valid()
      modifies pids, vpns
      ensures var i := FirstFree(old(pids[..]), layout.RegionLo(v), layout.RegionHi(v));
        && (i == -1 ==> r == 0 && pids[..] == old(pids[..]) && vpns[..] == old(vpns[..]))
        && (i != -1 ==>
              && r == layout.FrameVA(i)
              && pids[..] == old(pids[..])[i := pid]
              && vpns[..] == old(vpns[..])[i := if v == KERNEL_VA then r else v])
      ensures r != 0 ==>
        && layout.RegionLo(v) <= layout.FrameOf(r) < layout.RegionHi(v) <= pids.Length
        && old(pids[layout.FrameOf(r)]) == FREE
      ensures unchanged(ptes) && unchanged(pages)
    {
      layout.RegionsPartition(v);
      var idx;
      if v == KERNEL_VA {
        idx := FindKFreeSpace();
      } else {
        idx := FindUFreeSpace();
      }
      // kalloc.c:124 tests `idx != -1` here; see InvertedTest below.
      if idx == -1 {
        return 0;
      }
      layout.FrameAddress(idx);
      var pa := idx * PGSIZE;
      pids[idx] := pid;
      if v == KERNEL_VA {
        vpns[idx] := layout.P2V(pa);
      } else {
        vpns[idx] := v;
      }
      r := layout.P2V(pa);
    }

    /**
     * The lowest frame `pid` owns at virtual address `v`, or -1: step 1 of
     * kfree's intended behaviour, a scan of the owner and address tables.
     */
    method FindFrame(pid: int, v: uint32) returns (idx: int)
      requires Valid()
      ensures idx == FindOwned(pids[..], vpns[..], pid, v, 0)
      ensures idx == -1 <==> forall j :: 0 <= j < pids.Length ==> !Owns(pids[..], vpns[..], j, pid, v)
      ensures idx != -1 ==> 0 <= idx < pids.Length && pid != FREE && pids[idx] == pid && vpns[idx] == v
    {
      idx := 0;
      while idx < pids.Length
        invariant 0 <= idx <= pids.Length
        invariant FindOwned(pids[..], vpns[..], pid, v, 0) == FindOwned(pids[..], vpns[..], pid, v, idx)
      {
        if pid != FREE && pids[idx] == pid && vpns[idx] == v {
          return;
        }
        idx := idx + 1;
      }
      idx := -1;
    }

    /**
     * kfree(pid, v) as its TODO intends: finds the frame `pid` owns at `v`,
     * fills it with bytes of value 1 through its kernel address, marks it
     * free and clears its virtual address and page-table-entry template.
     * When `pid` owns no frame at `v` (a foreign or repeated free) it returns
     * false and changes nothing: the fatal path.
     */
    method Kfree(pid: int, v: uint32) returns (ok: bool)
      requires Valid()
      modifies pids, vpns, ptes, pages
      ensures var i := FindOwned(old(pids[..]), old(vpns[..]), pid, v, 0);
        && ok == (i != -1)
        && (i == -1 ==>
              && pids[..] == old(pids[..]) && vpns[..] == old(vpns[..])
              && ptes[..] == old(ptes[..]) && pages[..] == old(pages[..]))
        && (i != -1 ==>
              && pids[..] == old(pids[..])[i := FREE]
              && vpns[..] == old(vpns[..])[i := 0]
              && ptes[..] == old(ptes[..])[i := 0]
              && pages[..] == old(pages[..])[i := FilledPage(1)])
    {
      var idx := FindFrame(pid, v);
      if idx == -1 {
        return false;
      }
      layout.FrameAddress(idx);
      var kv := layout.P2V(idx * PGSIZE);
      pages[layout.FrameOf(kv)] := FilledPage(1);
      pids[idx] := FREE;
      vpns[idx] := 0;
      ptes[idx] := 0;
      ok := true;
    }
  }

  /**
   * Two successive kalloc calls with no kfree in between, the first for an
   * owner other than -1, never return the same address: the first frame is
   * owned when the second search runs, and stays owned by the first caller.
   */
  method KallocTwice(a: Allocator, pid1: int, v1: uint32, pid2: int, v2: uint32)
    returns (r1: uint32, r2: uint32)
    requires a.Valid() && pid1 != FREE
    modifies a.pids, a.vpns
    ensures r1 != 0 && r2 != 0 ==> r1 != r2
    ensures r1 != 0 ==> 0 <= a.layout.FrameOf(r1) < a.pids.Length && a.pids[a.layout.FrameOf(r1)] == pid1
  {
    r1 := a.Kalloc(pid1, v1);
    r2 := a.Kalloc(pid2, v2);
  }

  /** What the success test of kalloc decides for the index a region search returned. */
  datatype Outcome = NoFrame | Claim(frame: int)

  /**
   * kalloc.c:124 as written: the test `idx != -1` takes the failure return
   * for every frame the search found, and goes on to claim index -1 when
   * the search found none.
   */
  function InvertedTest(idx: int): Outcome
  {
    if idx != -1 then NoFrame else Claim(idx)
  }

  /** The test kalloc's comments at kalloc.c:108 and kalloc.c:142 describe, and Kalloc uses. */
  function IntendedTest(idx: int): Outcome
  {
    if idx == -1 then NoFrame else Claim(idx)
  }

  /**
   * As written, kalloc reports failure exactly when its region has a free
   * frame, and when the region has none it claims index -1, which is no
   * entry of the table.
   */
  lemma InvertedTestDefect(s: seq<int>, lo: nat, hi: nat)
    requires hi <= |s|
    ensures InvertedTest(FirstFree(s, lo, hi)) == NoFrame <==> exists j :: lo <= j < hi && s[j] == FREE
    ensures InvertedTest(FirstFree(s, lo, hi)).Claim? ==> !(0 <= InvertedTest(FirstFree(s, lo, hi)).frame < |s|)
  {
  }

  /** The smallest witness: a one-frame region whose frame is free, and the same region owned. */
  lemma InvertedTestCounterexample()
    ensures FirstFree([FREE], 0, 1) == 0 && InvertedTest(FirstFree([FREE], 0, 1)) == NoFrame
    ensures FirstFree([7], 0, 1) == -1 && InvertedTest(FirstFree([7], 0, 1)) == Claim(-1)
  {
  }

  /**
   * With the intended test, kalloc claims a frame exactly when its region
   * has a free one, and the frame it claims is the region's lowest free frame.
   */
  lemma IntendedTestCorrect(s: seq<int>, lo: nat, hi: nat)
    requires hi <= |s|
    ensures IntendedTest(FirstFree(s, lo, hi)).Claim? <==> exists j :: lo <= j < hi && s[j] == FREE
    ensures IntendedTest(FirstFree(s, lo, hi)).Claim? ==>
              var f := IntendedTest(FirstFree(s, lo, hi)).frame;
              lo <= f < hi && s[f] == FREE && forall j :: lo <= j < f ==> s[j] != FREE
  {
  }
}
