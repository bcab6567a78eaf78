/**
 * The per-frame owner table (PID[] in kalloc.c) seen as a value: first-fit
 * search, free-frame counting, the effect of a run of allocations, and the
 * lookup of the frame recorded for an owner and a virtual address.
 *
 * The allocator's methods are specified against these functions; the lemmas
 * here state what successive allocations and releases do to the table.
 */
module FrameTable {

  /** The owner recorded for a free frame (kalloc.c:59). */
  const FREE: int := -1

  /**
   * The lowest frame index in [lo, hi) whose owner is FREE, or -1 when that
   * region has none: first fit by physical address.
   */
  function FirstFree(s: seq<int>, lo: nat, hi: nat): (r: int)
    requires hi <= |s|
    ensures r == -1 || (lo <= r < hi && s[r] == FREE)
    ensures r == -1 <==> forall j :: lo <= j < hi ==> s[j] != FREE
    ensures r != -1 ==> forall j :: lo <= j < r ==> s[j] != FREE
    decreases hi - lo
  {
    if lo >= hi then -1
    else if s[lo] == FREE then lo
    else FirstFree(s, lo + 1, hi)
  }

  /** Number of FREE entries in `s`. */
  function CountFree(s: seq<int>): (c: nat)
    ensures c <= |s|
  {
    if s == [] then 0 else (if s[0] == FREE then 1 else 0) + CountFree(s[1..])
  }

  /** Number of free frames in the region [lo, hi). */
  function RegionFree(s: seq<int>, lo: nat, hi: nat): nat
    requires hi <= |s|
  {
    if lo < hi then CountFree(s[lo..hi]) else 0
  }

  /** A table has no free entry exactly when its count of free entries is zero. */
  lemma {:induction false} CountFreeZero(s: seq<int>)
    ensures CountFree(s) == 0 <==> forall j :: 0 <= j < |s| ==> s[j] != FREE
  {
    if s != [] {
      CountFreeZero(s[1..]);
      assert forall j :: 1 <= j < |s| ==> s[1..][j - 1] == s[j];
    }
  }

  /** Overwriting one entry changes the free count by what was removed and what was written. */
  lemma {:induction false} CountFreeUpdate(s: seq<int>, i: nat, x: int)
    requires i < |s|
    ensures CountFree(s[i := x]) ==
            CountFree(s) - (if s[i] == FREE then 1 else 0) + (if x == FREE then 1 else 0)
  {
    if i == 0 {
      assert s[i := x][1..] == s[1..];
    } else {
      assert s[i := x][1..] == s[1..][i - 1 := x];
      CountFreeUpdate(s[1..], i - 1, x);
    }
  }

  /** The first-fit search of a region fails exactly when the region has no free frame left. */
  lemma FirstFreeFailsIffExhausted(s: seq<int>, lo: nat, hi: nat)
    requires hi <= |s|
    ensures FirstFree(s, lo, hi) == -1 <==> RegionFree(s, lo, hi) == 0
  {
    if lo < hi {
      CountFreeZero(s[lo..hi]);
      assert forall j :: lo <= j < hi ==> s[lo..hi][j - lo] == s[j];
    }
  }

  /** Claiming a free frame of a region for an owner leaves one free frame fewer in that region. */
  lemma ClaimInRegion(s: seq<int>, lo: nat, hi: nat, i: nat, owner: int)
    requires lo <= i < hi <= |s| && s[i] == FREE && owner != FREE
    ensures RegionFree(s[i := owner], lo, hi) == RegionFree(s, lo, hi) - 1
  {
    assert s[i := owner][lo..hi] == s[lo..hi][i - lo := owner];
    CountFreeUpdate(s[lo..hi], i - lo, owner);
  }

  /** Releasing an owned frame of a region leaves one free frame more in that region. */
  lemma ReleaseInRegion(s: seq<int>, lo: nat, hi: nat, i: nat)
    requires lo <= i < hi <= |s| && s[i] != FREE
    ensures RegionFree(s[i := FREE], lo, hi) == RegionFree(s, lo, hi) + 1
  {
    assert s[i := FREE][lo..hi] == s[lo..hi][i - lo := FREE];
    CountFreeUpdate(s[lo..hi], i - lo, FREE);
  }

  /** One allocation request: the owner to record and the region [lo, hi) to search. */
  datatype Request = Request(owner: int, lo: nat, hi: nat)

  /** The owner table after a run of allocations, and the frame each one obtained (-1 on failure). */
  datatype Run = Run(table: seq<int>, frames: seq<int>)

  predicate Fits(s: seq<int>, reqs: seq<Request>)
  {
    forall k :: 0 <= k < |reqs| ==> reqs[k].hi <= |s|
  }

  /**
   * Successive allocations with no release in between: each request takes
   * the first free frame of its region and records its owner there, as
   * kalloc does to PID[], or obtains -1 and leaves the table as it is.
   */
  function ClaimAll(s: seq<int>, reqs: seq<Request>): (run: Run)
    requires Fits(s, reqs)
    ensures |run.table| == |s| && |run.frames| == |reqs|
    decreases |reqs|
  {
    if reqs == [] then Run(s, [])
    else
      var q := reqs[0];
      var i := FirstFree(s, q.lo, q.hi);
      var rest := ClaimAll(if i == -1 then s else s[i := q.owner], reqs[1..]);
      Run(rest.table, [i] + rest.frames)
  }

  /**
   * `f` is a frame a request `q` may obtain when the table goes from `s` to
   * `t`: -1 (no frame), or a frame of q's region that was free in `s` and is
   * owned in `t`.
   */
  predicate Obtained(s: seq<int>, t: seq<int>, q: Request, f: int)
  {
    f == -1 || (q.lo <= f < q.hi && f < |s| && f < |t| && s[f] == FREE && t[f] != FREE)
  }

  /** Going from `s` to `t`, no owned frame changes owner. */
  predicate KeepsOwned(s: seq<int>, t: seq<int>)
  {
    |s| == |t| && forall j :: 0 <= j < |s| && s[j] != FREE ==> t[j] == s[j]
  }

  /**
   * In a run of allocations for real owners, every frame obtained lies in
   * its request's region, was free before the run and is owned after it, and
   * frames owned before the run keep their owner.
   */
  lemma {:induction false} ClaimAllObtainsFree(s: seq<int>, reqs: seq<Request>)
    requires Fits(s, reqs)
    requires forall k :: 0 <= k < |reqs| ==> reqs[k].owner != FREE
    ensures KeepsOwned(s, ClaimAll(s, reqs).table)
    ensures forall k :: 0 <= k < |reqs| ==>
              Obtained(s, ClaimAll(s, reqs).table, reqs[k], ClaimAll(s, reqs).frames[k])
    decreases |reqs|
  {
    if reqs != [] {
      var q := reqs[0];
      var i := FirstFree(s, q.lo, q.hi);
      var s' := if i == -1 then s else s[i := q.owner];
      var tail := reqs[1..];
      assert Fits(s', tail);
      ClaimAllObtainsFree(s', tail);
      var rest := ClaimAll(s', tail);
      var run := ClaimAll(s, reqs);
      assert run.table == rest.table && run.frames == [i] + rest.frames;
      assert KeepsOwned(s, s');
      forall k | 1 <= k < |reqs|
        ensures Obtained(s, run.table, reqs[k], run.frames[k])
      {
        assert run.frames[k] == rest.frames[k - 1] && tail[k - 1] == reqs[k];
        assert Obtained(s', rest.table, tail[k - 1], rest.frames[k - 1]);
      }
    }
  }

  /** No frame other than -1 occurs twice in `frames`. */
  predicate NoneTwice(frames: seq<int>)
  {
    forall k, m :: 0 <= k < m < |frames| && frames[k] != -1 ==> frames[k] != frames[m]
  }

  /** Successive allocations for real owners, with no release in between, never obtain the same frame twice. */
  lemma {:induction false} ClaimAllDistinct(s: seq<int>, reqs: seq<Request>)
    requires Fits(s, reqs)
    requires forall k :: 0 <= k < |reqs| ==> reqs[k].owner != FREE
    ensures NoneTwice(ClaimAll(s, reqs).frames)
    decreases |reqs|
  {
    if reqs != [] {
      var q := reqs[0];
      var i := FirstFree(s, q.lo, q.hi);
      var s' := if i == -1 then s else s[i := q.owner];
      var tail := reqs[1..];
      assert Fits(s', tail);
      ClaimAllDistinct(s', tail);
      ClaimAllObtainsFree(s', tail);
      var rest := ClaimAll(s', tail);
      var frames := ClaimAll(s, reqs).frames;
      assert frames == [i] + rest.frames;
      assert NoneTwice(rest.frames);
      forall k, m | 0 <= k < m < |frames| && frames[k] != -1
        ensures frames[k] != frames[m]
      {
        assert frames[m] == rest.frames[m - 1];
        assert Obtained(s', rest.table, tail[m - 1], rest.frames[m - 1]);
        if k > 0 {
          assert frames[k] == rest.frames[k - 1];
        } else {
          assert frames[k] == i && s'[i] == q.owner != FREE;
        }
      }
    }
  }

  /** `n` copies of one request. */
  function Repeat(q: Request, n: nat): (reqs: seq<Request>)
    ensures |reqs| == n && forall k :: 0 <= k < n ==> reqs[k] == q
  {
    seq(n, _ => q)
  }

  /**
   * Exhaustion is deterministic: when a region has `f` free frames, `f`
   * successive allocations from it succeed and the next one fails.
   */
  lemma {:induction false} ClaimAllExhausts(s: seq<int>, q: Request)
    requires q.hi <= |s| && q.owner != FREE
    ensures var f := RegionFree(s, q.lo, q.hi);
      var run := ClaimAll(s, Repeat(q, f + 1));
      && (forall k :: 0 <= k < f ==> run.frames[k] != -1)
      && run.frames[f] == -1
    decreases RegionFree(s, q.lo, q.hi)
  {
    var f := RegionFree(s, q.lo, q.hi);
    var i := FirstFree(s, q.lo, q.hi);
    FirstFreeFailsIffExhausted(s, q.lo, q.hi);
    if f != 0 {
      var s' := s[i := q.owner];
      ClaimInRegion(s, q.lo, q.hi, i, q.owner);
      ClaimAllExhausts(s', q);
      assert Repeat(q, f + 1)[1..] == Repeat(q, f);
      var rest := ClaimAll(s', Repeat(q, f));
      assert ClaimAll(s, Repeat(q, f + 1)).frames == [i] + rest.frames;
    }
  }

  /**
   * Releasing frame `j` when every lower frame of its region is owned makes
   * `j` the frame the next allocation from that region obtains: a freed
   * address may be handed out again.
   */
  lemma ReleasedFrameIsNextFit(s: seq<int>, lo: nat, hi: nat, j: nat)
    requires lo <= j < hi <= |s|
    requires forall k :: lo <= k < j ==> s[k] != FREE
    ensures FirstFree(s[j := FREE], lo, hi) == j
  {
    var r := FirstFree(s[j := FREE], lo, hi);
    assert s[j := FREE][j] == FREE;
    assert r != -1;
    assert !(r < j);
  }

  /** Frame `j` is owned by `pid` and recorded at virtual address `v`. */
  predicate Owns(pids: seq<int>, vpns: seq<int>, j: int, pid: int, v: int)
    requires 0 <= j < |pids| == |vpns|
  {
    pid != FREE && pids[j] == pid && vpns[j] == v
  }

  /**
   * The lowest frame at or after `from` that `pid` owns at virtual address
   * `v`, or -1 when there is none.
   */
  function FindOwned(pids: seq<int>, vpns: seq<int>, pid: int, v: int, from: nat): (r: int)
    requires |pids| == |vpns|
    ensures r == -1 || (from <= r < |pids| && Owns(pids, vpns, r, pid, v))
    ensures r == -1 <==> forall j :: from <= j < |pids| ==> !Owns(pids, vpns, j, pid, v)
    ensures r != -1 ==> forall j :: from <= j < r ==> !Owns(pids, vpns, j, pid, v)
    decreases |pids| - from
  {
    if from >= |pids| then -1
    else if Owns(pids, vpns, from, pid, v) then from
    else FindOwned(pids, vpns, pid, v, from + 1)
  }

  /**
   * A frame released for (pid, v) is no longer found for them: a second
   * release of the same allocation takes the fatal path unless `pid` owns
   * another frame at the same address.
   */
  lemma ReleaseForgetsOwner(pids: seq<int>, vpns: seq<int>, pid: int, v: int, cleared: int)
    requires |pids| == |vpns|
    requires FindOwned(pids, vpns, pid, v, 0) != -1
    ensures var i := FindOwned(pids, vpns, pid, v, 0);
      var r := FindOwned(pids[i := FREE], vpns[i := cleared], pid, v, 0);
      r == -1 || (i < r && Owns(pids, vpns, r, pid, v))
  {
    var i := FindOwned(pids, vpns, pid, v, 0);
    var ps, vs := pids[i := FREE], vpns[i := cleared];
    var r := FindOwned(ps, vs, pid, v, 0);
    if r != -1 {
      assert r != i;
      assert Owns(pids, vpns, r, pid, v);
    }
  }

  /**
   * A region of four free frames after one owned frame: four allocations
   * for one owner obtain the four frames in address order, a fifth fails,
   * and once the second frame is released the next allocation obtains it.
   */
  lemma FourFrameScenario()
    ensures var q := Request(1, 1, 5);
      var run := ClaimAll([7, FREE, FREE, FREE, FREE], [q, q, q, q, q]);
      && run.frames == [1, 2, 3, 4, -1]
      && FirstFree(run.table[2 := FREE], 1, 5) == 2
  {
    var q := Request(1, 1, 5);
    var s0, s1, s2, s3, s4 := [7, FREE, FREE, FREE, FREE], [7, 1, FREE, FREE, FREE],
                              [7, 1, 1, FREE, FREE], [7, 1, 1, 1, FREE], [7, 1, 1, 1, 1];
    assert FirstFree(s4, 1, 5) == -1;
    assert [q][1..] == [];
    assert ClaimAll(s4, [q]) == Run(s4, [-1]);
    assert FirstFree(s3, 1, 5) == 4 && s3[4 := 1] == s4;
    assert [q, q][1..] == [q];
    assert ClaimAll(s3, [q, q]) == Run(s4, [4, -1]);
    assert FirstFree(s2, 1, 5) == 3 && s2[3 := 1] == s3;
    assert [q, q, q][1..] == [q, q];
    assert ClaimAll(s2, [q, q, q]) == Run(s4, [3, 4, -1]);
    assert FirstFree(s1, 1, 5) == 2 && s1[2 := 1] == s2;
    assert [q, q, q, q][1..] == [q, q, q];
    assert ClaimAll(s1, [q, q, q, q]) == Run(s4, [2, 3, 4, -1]);
    assert FirstFree(s0, 1, 5) == 1 && s0[1 := 1] == s1;
    assert [q, q, q, q, q][1..] == [q, q, q, q];
    assert ClaimAll(s0, [q, q, q, q, q]) == Run(s4, [1, 2, 3, 4, -1]);
    ReleasedFrameIsNextFit(s4, 1, 5, 2);
  }
}
