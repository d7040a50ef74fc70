// How far the break has to reach (heap_buddy_system_evanw.c:152-170, 304-308, 407-416): what every
// step leaves below it, and which block needs the bytes that malloc asks for.
module BuddyBreak {
  import opened Options
  import opened Numbers
  import opened BuddyTree
  import opened BuddyState
  import opened BuddySpec
  import opened FreeLists

  // Used blocks end, and list nodes of free and held blocks end, at or below the break.
  ghost predicate Reserved(y: Layout, a: State, maxPtr: int) {
    forall b: nat, k: nat :: Leaf(a, b, k).Some? && b < BUCKET_COUNT ==>
      Addr(y, b, k) + (if Leaf(a, b, k).value.Used? then Size(b) else NODE_SIZE) <= maxPtr
  }

  lemma ChildAddr(y: Layout, b: nat, k: nat)
    requires b + 1 < BUCKET_COUNT
    ensures Size(b) == 2 * Size(b + 1) && Size(b + 1) >= 16
    ensures Addr(y, b + 1, 2 * k) == Addr(y, b, k)
    ensures Addr(y, b + 1, 2 * k + 1) == Addr(y, b, k) + Size(b + 1)
  {
    Pow2Monotone(4, MAX_ALLOC_LOG2 - (b + 1));
    var s := Size(b + 1);
    assert (2 * k) * s == k * (2 * s);
    MulSum(2 * k, 1, s);
  }

  // What every step does to the space below the break.

  lemma TakeReserved(y: Layout, a: State, b: nat, maxPtr: int)
    requires Inv(a) && b < BUCKET_COUNT && a.lists[b] != [] && Reserved(y, a, maxPtr)
    ensures a.limit <= b && Reserved(y, Take(a, b), maxPtr)
  {
    TakeLeaves(a, b);
  }

  lemma DropReserved(y: Layout, a: State, b: nat, k: nat, maxPtr: int)
    requires Busy(a, b, k) && Reserved(y, a, maxPtr)
    ensures a.limit <= b < BUCKET_COUNT && Reserved(y, Drop(a, b, k), maxPtr)
  {
    LeafRange(a, b, k);
    SetLeaves(a, b, k, Free, Drop(a, b, k));
  }

  lemma HalveReserved(y: Layout, a: State, b: nat, k: nat, maxPtr: int)
    requires Busy(a, b, k) && b + 1 < BUCKET_COUNT && Reserved(y, a, maxPtr)
    requires Addr(y, b, k) + Size(b + 1) + NODE_SIZE <= maxPtr
    ensures a.limit <= b && Reserved(y, Halve(a, b, k), maxPtr)
  {
    HalveLeaves(a, b, k);
    ChildAddr(y, b, k);
  }

  lemma MergeReserved(y: Layout, a: State, b: nat, k: nat, maxPtr: int)
    requires Busy(a, b, k) && a.limit < b < BUCKET_COUNT && IsFree(a, b, Buddy(k)) && Reserved(y, a, maxPtr)
    ensures Reserved(y, Merge(a, b, k), maxPtr)
  {
    MergeLeaves(a, b, k);
    ChildAddr(y, b - 1, k / 2);
    assert k == 2 * (k / 2) || Buddy(k) == 2 * (k / 2);
  }

  lemma CommitReserved(y: Layout, a: State, b: nat, k: nat, request: nat, maxPtr: int)
    requires Busy(a, b, k) && b < BUCKET_COUNT && Reserved(y, a, maxPtr) && Addr(y, b, k) + Size(b) <= maxPtr
    ensures a.limit <= b && Reserved(y, Commit(a, b, k, request), maxPtr)
  {
    SetLeaves(a, b, k, Used(request), Commit(a, b, k, request));
  }

  lemma ReclaimReserved(y: Layout, a: State, b: nat, k: nat, request: nat, maxPtr: int)
    requires Quiet(a) && UsedAt(a, b, k, request) && Reserved(y, a, maxPtr)
    ensures a.limit <= b < BUCKET_COUNT && Reserved(y, Reclaim(a, b, k), maxPtr)
  {
    LeafRange(a, b, k);
    SetLeaves(a, b, k, Held, Reclaim(a, b, k));
    SizeAtLeast(b);
  }

  lemma DoubleReserved(y: Layout, a: State, maxPtr: int)
    requires Quiet(a) && a.limit > 0 && Reserved(y, a, maxPtr)
    requires a.tree.Free? || Addr(y, a.limit, 1) + NODE_SIZE <= maxPtr
    ensures Reserved(y, Double(a), maxPtr)
  {
    DoubleLeaves(a);
    if a.tree.Free? {
      assert Leaf(a, a.limit, 0) == Some(Free);
    }
  }

  lemma ReservedMore(y: Layout, a: State, maxPtr: int, maxPtr': int)
    requires Reserved(y, a, maxPtr) && maxPtr <= maxPtr'
    ensures Reserved(y, a, maxPtr')
  {
  }

  // ------------------------------------------------------------------ what malloc asks for

  // The bytes of a held block that carving it down to `target` will need.
  function BytesNeeded(bucket: nat, target: nat): nat
    requires bucket < BUCKET_COUNT
  {
    if bucket < target then Size(bucket) / 2 + NODE_SIZE else Size(bucket)
  }

  // The need of some block of `a` ends at `v`.
  ghost predicate AtEnd(y: Layout, a: State, v: int) {
    exists b: nat, k: nat :: b < BUCKET_COUNT && Leaf(a, b, k).Some? && v == NeedEnd(y, a, b, k)
  }

  function NeedEnd(y: Layout, a: State, b: nat, k: nat): int
    requires b < BUCKET_COUNT && Leaf(a, b, k).Some?
  {
    Addr(y, b, k) + if Leaf(a, b, k).value.Used? then Size(b) else NODE_SIZE
  }

  // The end of the list node of the last right child that growth has freed.
  ghost predicate AtGrowth(y: Layout, a: State, v: int) {
    a.limit + 1 < BUCKET_COUNT && IsFree(a, a.limit + 1, 1) && v == GrowthEnd(y, a.limit + 1)
  }

  lemma GrowthAtEnd(y: Layout, a: State, v: int)
    ensures AtGrowth(y, a, v) ==> AtEnd(y, a, v)
  {
    if AtGrowth(y, a, v) {
      assert v == NeedEnd(y, a, a.limit + 1, 1);
    }
  }

  // Where growing over a used root of bucket `l` needs the break.
  function GrowthEnd(y: Layout, l: nat): int
    requires l < BUCKET_COUNT
  {
    Addr(y, l, 1) + NODE_SIZE
  }

  function Max(x: int, z: int): int {
    if x > z then x else z
  }

  // The root is used and the break is not granted as far as growing over it takes.
  ghost predicate GrowthShort(y: Layout, a: State, granted: int) {
    0 < a.limit < BUCKET_COUNT && !a.tree.Free? && granted < GrowthEnd(y, a.limit)
  }

  // Every doubling of a used root takes more than the one before.
  lemma GrowthRises(y: Layout, l: nat)
    requires 0 < l && l + 1 < BUCKET_COUNT
    ensures GrowthEnd(y, l + 1) < GrowthEnd(y, l)
  {
    ChildAddr(y, l, 0);
    assert Offset(l + 1, 1) == Size(l + 1) && Offset(l, 1) == Size(l);
  }

  lemma DoubleGrowth(y: Layout, a: State)
    requires Quiet(a) && a.limit > 0 && !a.tree.Free?
    ensures a.limit < BUCKET_COUNT && AtGrowth(y, Double(a), GrowthEnd(y, a.limit))
    ensures !Double(a).tree.Free?
  {
    DoubleLeaves(a);
  }

  // One doubling more: the break is where it was, or where the last doubling needs it.
  lemma GrowthStep(y: Layout, a: State, first: int, before: int, now: int)
    requires Quiet(a) && a.limit > 0 && (before == first || AtGrowth(y, a, before))
    requires a.limit < BUCKET_COUNT && now == if a.tree.Free? then before else Max(before, GrowthEnd(y, a.limit))
    ensures now == first || AtGrowth(y, Double(a), now)
  {
    hide Double, Offset, Size;
    if a.tree.Free? {
      assert !IsFree(a, a.limit + 1, 1);
    } else {
      DoubleGrowth(y, a);
      if before != first {
        GrowthRises(y, a.limit);
      }
    }
  }

  // ------------------------------------------------------------------ blocks that carving keeps

  lemma {:induction false} HalveToKeeps(a: State, b: nat, k: nat, target: nat, c: nat, j: nat)
    requires Busy(a, b, k) && a.limit <= b <= target < BUCKET_COUNT
    requires c > target || (c <= b && !(c == b && j == k))
    ensures Leaf(HalveTo(a, b, k, target), c, j) == Leaf(a, c, j)
    decreases target - b
  {
    hide Put, Inv, Sized, HeldAt, Leaf;
    if b == target {
    } else {
      InvShape(a);
      HalveInv(a, b, k);
      HalveLeaves(a, b, k) by { BusyLeaf(a, b, k); }
      HalveToKeeps(Halve(a, b, k), b + 1, 2 * k, target, c, j);
    }
  }

  lemma InvShape(a: State)
    requires Inv(a)
    ensures a.limit < |a.lists| == BUCKET_COUNT
  {
  }

  lemma QuietShape(a: State)
    requires Quiet(a)
    ensures a.limit < |a.lists| == BUCKET_COUNT
  {
  }

  lemma BusyLeaf(a: State, b: nat, k: nat)
    requires Busy(a, b, k)
    ensures Inv(a) && Leaf(a, b, k).Some?
  {
  }

  // What carving leaves of the other blocks, and of the block it carves: a used one if it fits,
  // a free right half otherwise.
  lemma CarveLeaves(a: State, b: nat, request: nat, c: nat, j: nat)
    requires Quiet(a) && b <= BucketFor(request) < BUCKET_COUNT && a.lists[b] != [] && Gross(request) <= Size(0)
    ensures a.limit <= b
    ensures c > BucketFor(request) ==> Leaf(Carve(a, b, request), c, j) == Leaf(a, c, j)
    ensures b == BucketFor(request) ==> UsedAt(Carve(a, b, request), b, Back(a, b), request)
    ensures b < BucketFor(request) ==> IsFree(Carve(a, b, request), b + 1, 2 * Back(a, b) + 1)
  {
    hide Halve, HalveTo, Take, Commit, Inv, Sized, Leaf, BucketFor, Gross, Leftmost;
    InvShape(a);
    var t, k := BucketFor(request), Back(a, b);
    TakeInv(a, b);
    var h := Take(a, b);
    HalveToInv(h, b, k, t);
    var l := Leftmost(b, k, t);
    CommitLeaves(HalveTo(h, b, k, t), t, l, request);
    if c > t {
      HalveToKeeps(h, b, k, t, c, j);
      TakeOther(a, b, c, j);
    }
    if b == t {
      LeftmostSame(b, k);
    } else {
      RightHalf(h, b, k, t);
      LeftmostLeft(b, k, t);
    }
  }

  lemma CommitLeaves(a: State, b: nat, k: nat, request: nat)
    requires Busy(a, b, k)
    ensures a.limit <= b
    ensures forall c: nat, j: nat :: Leaf(Commit(a, b, k, request), c, j) ==
              if c == b && j == k then Some(Used(request)) else Leaf(a, c, j)
  {
    SetLeaves(a, b, k, Used(request), Commit(a, b, k, request));
  }

  lemma TakeOther(a: State, b: nat, c: nat, j: nat)
    requires Inv(a) && b < c && b < BUCKET_COUNT && a.lists[b] != []
    ensures a.limit <= b && Leaf(Take(a, b), c, j) == Leaf(a, c, j)
  {
    TakeLeaves(a, b);
  }

  lemma LeftmostSame(b: nat, k: nat)
    ensures Leftmost(b, k, b) == k
  {
  }

  // The carved block is never an odd child of the block it comes from.
  lemma LeftmostLeft(b: nat, k: nat, t: nat)
    requires b < t
    ensures !(t == b + 1 && Leftmost(b, k, t) == 2 * k + 1)
  {
    if t == b + 1 {
      LeftmostSame(b + 1, 2 * k);
    }
  }

  lemma RightHalf(a: State, b: nat, k: nat, t: nat)
    requires Busy(a, b, k) && a.limit <= b < t < BUCKET_COUNT
    ensures IsFree(HalveTo(a, b, k, t), b + 1, 2 * k + 1)
  {
    hide Put, Inv, Sized, HeldAt, Leaf;
    InvShape(a);
    HalveInv(a, b, k);
    HalveLeaves(a, b, k) by { BusyLeaf(a, b, k); }
    HalveToKeeps(Halve(a, b, k), b + 1, 2 * k, t, b + 1, 2 * k + 1);
  }

  // The bytes that malloc asks for before carving end where the need of a carved block ends.
  lemma CarveAtEnd(y: Layout, a: State, b: nat, request: nat)
    requires Quiet(a) && b <= BucketFor(request) < BUCKET_COUNT && a.lists[b] != [] && Gross(request) <= Size(0)
    ensures a.limit <= b && AtEnd(y, Carve(a, b, request), Addr(y, b, Back(a, b)) + BytesNeeded(b, BucketFor(request)))
  {
    hide Carve, BucketFor, Gross, Inv, Sized, Addr, Size;
    InvShape(a);
    var t, k := BucketFor(request), Back(a, b);
    CarveLeaves(a, b, request, 0, 0);
    var s := Carve(a, b, request);
    if b == t {
      assert Addr(y, b, k) + Size(b) == NeedEnd(y, s, b, k);
    } else {
      ChildAddr(y, b, k);
      assert Addr(y, b + 1, 2 * k + 1) + NODE_SIZE == NeedEnd(y, s, b + 1, 2 * k + 1);
    }
  }

  lemma NeedsMoreThanNode(b: nat, target: nat)
    requires b < BUCKET_COUNT
    ensures BytesNeeded(b, target) > NODE_SIZE
  {
    SizeAtLeast(b);
  }

  // ------------------------------------------------------------------ the whole call

  // Growing over a used root keeps every free block.
  lemma {:induction false} GrowToKeepsFree(a: State, limit: nat, c: nat, j: nat)
    requires Quiet(a) && !a.tree.Free? && IsFree(a, c, j)
    ensures IsFree(GrowTo(a, limit), c, j) && !GrowTo(a, limit).tree.Free?
    decreases a.limit
  {
    hide Double;
    if limit >= a.limit {
    } else {
      DoubleInv(a);
      DoubleUsed(a);
      DoubleKeepsFree(a, c, j);
      GrowToKeepsFree(Double(a), limit, c, j);
    }
  }

  lemma DoubleUsed(a: State)
    requires a.limit > 0 && !a.tree.Free? && a.limit < |a.lists|
    ensures !Double(a).tree.Free?
  {
  }

  lemma BucketBelow(request: nat)
    ensures BucketFor(request) < BUCKET_COUNT
  {
  }

  lemma DoubleKeepsFree(a: State, c: nat, j: nat)
    requires Quiet(a) && a.limit > 0 && !a.tree.Free? && IsFree(a, c, j)
    ensures IsFree(Double(a), c, j)
  {
    DoubleLeaves(a);
  }

  // malloc keeps the blocks that are smaller than what it hands out.
  lemma MallocedKeeps(a: State, request: nat, c: nat, j: nat)
    requires Quiet(a) && Gross(request) <= Size(0) && c > BucketFor(request)
    requires var g := GrowTo(a, BucketFor(request)); !g.tree.Free? && IsFree(g, c, j)
    ensures IsFree(Malloced(a, request).0, c, j)
  {
    hide GrowTo, Double, Carve, BucketFor, Gross, Size, IsFree;
    var t := BucketFor(request);
    BucketBelow(request);
    InvShape(a);
    GrowToInv(a, t);
    var g := GrowTo(a, t);
    InvShape(g);
    var p := Prepare(a, t);
    if Fit(g, t).None? && g.limit > 0 {
      DoubleKeepsFree(g, c, j);
      DoubleInv(g);
    }
    if Fit(p, t).Some? {
      SameFree(p, Fit(p, t).value, request, c, j);
    }
  }

  lemma SameFree(p: State, b: nat, request: nat, c: nat, j: nat)
    requires Quiet(p) && |p.lists| == BUCKET_COUNT && b <= BucketFor(request) < BUCKET_COUNT && p.lists[b] != []
    requires Gross(request) <= Size(0) && c > BucketFor(request) && IsFree(p, c, j)
    ensures p.limit <= b && IsFree(Carve(p, b, request), c, j)
  {
    CarveLeaves(p, b, request, c, j);
  }

  // A break that does not reach over a used root does not reach to every block of the outcome.
  lemma ShortGrowth(y: Layout, a: State, s: State, request: nat, granted: int)
    requires Quiet(a) && Gross(request) <= Size(0) && s == GrowTo(a, s.limit) && s.limit <= a.limit
    requires GrowthShort(y, s, granted)
    requires s.limit > BucketFor(request) || (s == GrowTo(a, BucketFor(request)) && FitNone(s, BucketFor(request)))
    ensures a.limit < |a.lists| == BUCKET_COUNT && !Reserved(y, Malloced(a, request).0, granted)
    ensures Malloced(a, request).0.limit <= s.limit
  {
    hide GrowTo, Double, Carve, BucketFor, Gross, Size, IsFree, Addr, Malloced;
    var t := BucketFor(request);
    var l := s.limit;
    BucketBelow(request);
    InvShape(a);
    GrowToInv(a, l);
    DoubleInv(s);
    DoubleGrowth(y, s);
    MallocedLimit(a, request);
    if l > t {
      GrowToResumes(a, l, l - 1);
      GrowToOneMore(s);
      GrowToResumes(a, l - 1, t);
      GrowToKeepsFree(Double(s), t, l, 1);
      MallocedKeeps(a, request, l, 1);
      FreeBeyond(y, Malloced(a, request).0, l, 1, granted);
    } else {
      FitDouble(s, t);
      MallocedIs(a, request, Double(s), l);
      CarveAtEnd(y, Double(s), l, request);
      NeedsMoreThanNode(l, t);
      EndBeyond(y, Carve(Double(s), l, request), Addr(y, l, 1) + BytesNeeded(l, t), granted);
    }
  }

  // malloc grows the tree no further than Prepare does.
  lemma MallocedLimit(a: State, request: nat)
    requires Quiet(a) && Gross(request) <= Size(0)
    ensures BucketFor(request) < BUCKET_COUNT && a.limit < |a.lists| == BUCKET_COUNT
    ensures Malloced(a, request).0.limit == Prepare(a, BucketFor(request)).limit <= GrowTo(a, BucketFor(request)).limit
  {
    hide GrowTo, Double, BucketFor, Gross, Size, Put;
    BucketBelow(request);
    InvShape(a);
    var t := BucketFor(request);
    PrepareShape(a, t);
  }

  lemma PrepareShape(a: State, t: nat)
    requires a.limit < |a.lists| == BUCKET_COUNT && t < BUCKET_COUNT
    ensures Prepare(a, t).limit <= GrowTo(a, t).limit
  {
  }

  ghost predicate FitNone(a: State, t: nat) {
    |a.lists| == BUCKET_COUNT && t < BUCKET_COUNT && a.limit <= t && Fit(a, t).None?
  }

  lemma GrowToOneMore(a: State)
    requires 0 < a.limit < |a.lists|
    ensures GrowTo(a, a.limit - 1) == Double(a)
  {
  }

  lemma FreeBeyond(y: Layout, a: State, b: nat, k: nat, granted: int)
    requires IsFree(a, b, k) && b < BUCKET_COUNT && granted < Addr(y, b, k) + NODE_SIZE
    ensures !Reserved(y, a, granted)
  {
  }

  lemma EndBeyond(y: Layout, a: State, v: int, granted: int)
    requires AtEnd(y, a, v) && granted < v
    ensures !Reserved(y, a, granted)
  {
  }

  lemma MallocedIs(a: State, request: nat, g: State, b: nat)
    requires a.limit < |a.lists| == BUCKET_COUNT && Gross(request) <= Size(0) && BucketFor(request) < BUCKET_COUNT
    requires g == Prepare(a, BucketFor(request)) && Fit(g, BucketFor(request)) == Some(b)
    ensures Malloced(a, request).0 == Carve(g, b, request)
  {
  }

  // Nor does one that does not reach as far as carving takes.
  lemma ShortCarve(y: Layout, a: State, g: State, b: nat, request: nat, granted: int)
    requires Quiet(a) && Gross(request) <= Size(0) && BucketFor(request) < BUCKET_COUNT && |a.lists| == BUCKET_COUNT
    requires a.limit < BUCKET_COUNT && g == Prepare(a, BucketFor(request)) && Fit(g, BucketFor(request)) == Some(b)
    requires granted < Addr(y, b, Back(g, b)) + BytesNeeded(b, BucketFor(request))
    ensures !Reserved(y, Malloced(a, request).0, granted) && Malloced(a, request).0.limit == g.limit
  {
    MallocedLimit(a, request);
    hide Prepare, Carve, BucketFor, Gross, Size, Addr, Malloced, BytesNeeded, Inv, Sized;
    var t := BucketFor(request);
    PrepareInv(a, t);
    MallocedIs(a, request, g, b);
    CarveAtEnd(y, g, b, request);
    EndBeyond(y, Carve(g, b, request), Addr(y, b, Back(g, b)) + BytesNeeded(b, t), granted);
  }

  // How far the break may have come before a block of bucket `b` is carved for one of bucket `t`.
  ghost predicate Staged(y: Layout, g: State, before: int, now: int, t: nat, b: nat)
    requires b < BUCKET_COUNT && b < |g.lists| && g.lists[b] != []
  {
    || now == before
    || (t + 1 < BUCKET_COUNT && IsFree(g, t + 1, 1) && now == GrowthEnd(y, t + 1))
    || now == Addr(y, b, Back(g, b)) + NODE_SIZE
  }

  // Carving takes it no further than some block needs.
  lemma StagedCarve(y: Layout, g: State, b: nat, request: nat, before: int, now: int)
    requires Quiet(g) && |g.lists| == BUCKET_COUNT && b <= BucketFor(request) < BUCKET_COUNT && g.lists[b] != []
    requires Gross(request) <= Size(0) && Staged(y, g, before, now, BucketFor(request), b)
    ensures g.limit <= b
    ensures var end := Addr(y, b, Back(g, b)) + BytesNeeded(b, BucketFor(request));
            var last := if end > now then end else now;
            last == before || AtEnd(y, Carve(g, b, request), last)
  {
    hide Carve, BucketFor, Gross, Size, Addr, BytesNeeded, Inv, Sized, IsFree;
    var t := BucketFor(request);
    CarveAtEnd(y, g, b, request);
    NeedsMoreThanNode(b, t);
    if t + 1 < BUCKET_COUNT && IsFree(g, t + 1, 1) {
      SameFree(g, b, request, t + 1, 1);
      FreeAtEnd(y, Carve(g, b, request), t + 1, 1);
    }
  }

  lemma FreeAtEnd(y: Layout, a: State, b: nat, k: nat)
    requires IsFree(a, b, k) && b < BUCKET_COUNT
    ensures AtEnd(y, a, Addr(y, b, k) + NODE_SIZE)
  {
    assert Addr(y, b, k) + NODE_SIZE == NeedEnd(y, a, b, k);
  }

  lemma StagedAtEnd(y: Layout, g: State, before: int, now: int, t: nat, b: nat)
    requires Quiet(g) && b < BUCKET_COUNT && |g.lists| == BUCKET_COUNT && g.lists[b] != []
    requires Staged(y, g, before, now, t, b)
    ensures now == before || AtEnd(y, g, now)
  {
    hide Addr, IsFree;
    var k := Back(g, b);
    assert k in g.lists[b] && IsFree(g, b, k);
    FreeAtEnd(y, g, b, k);
    if t + 1 < BUCKET_COUNT && IsFree(g, t + 1, 1) {
      FreeAtEnd(y, g, t + 1, 1);
    }
  }
}
