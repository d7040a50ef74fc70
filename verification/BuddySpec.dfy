// What malloc and free do to the abstract state, and what that means: which blocks exist,
// that they tile the range, that free undoes malloc, and that merging is complete.
module BuddySpec {
  import opened Numbers
  import opened Options
  import opened BuddyTree
  import opened BuddyState

  // ------------------------------------------------------------------ buckets

  lemma {:induction false} BucketFromFits(b: nat, n: nat)
    requires b < BUCKET_COUNT && n <= Size(0)
    ensures BucketFrom(b, n) <= b && n <= Size(BucketFrom(b, n))
    ensures BucketFrom(b, n) < b ==> Size(BucketFrom(b, n) + 1) < n
    decreases b
  {
    if b == 0 || n <= Size(b) {
    } else {
      BucketFromFits(b - 1, n);
    }
  }

  // The bucket of a request is the one with the smallest blocks that still fit.
  lemma BucketForIsTightest(request: nat, c: nat)
    requires Gross(request) <= Size(0) && c < BUCKET_COUNT
    ensures BucketFor(request) < BUCKET_COUNT
    ensures Gross(request) <= Size(c) <==> c <= BucketFor(request)
  {
    BucketFromFits(LAST_BUCKET, Gross(request));
    var b := BucketFor(request);
    if c <= b {
      Pow2Monotone(MAX_ALLOC_LOG2 - b, MAX_ALLOC_LOG2 - c);
    } else {
      Pow2Monotone(MAX_ALLOC_LOG2 - c, MAX_ALLOC_LOG2 - (b + 1));
    }
  }

  // ------------------------------------------------------------------ malloc

  // The largest bucket number up to `b`, hence the smallest blocks, with a free block.
  function Fit(a: State, b: nat): (r: Option<nat>)
    requires |a.lists| == BUCKET_COUNT && b < BUCKET_COUNT
    ensures r.Some? ==> a.limit <= r.value <= b && a.lists[r.value] != []
    decreases b
  {
    if b < a.limit then None
    else if a.lists[b] != [] then Some(b)
    else if b == 0 then None
    else Fit(a, b - 1)
  }

  function GrowTo(a: State, limit: nat): (g: State)
    requires a.limit < |a.lists|
    ensures g.limit == (if limit < a.limit then limit else a.limit) && |g.lists| == |a.lists|
    decreases a.limit
  {
    if limit < a.limit then GrowTo(Double(a), limit) else a
  }

  // The state in which malloc looks for a block of bucket `b`: the tree reaches up to that
  // bucket, and one bucket further if nothing there is free.
  function Prepare(a: State, b: nat): (g: State)
    requires a.limit < |a.lists| == BUCKET_COUNT && b < BUCKET_COUNT
    ensures g.limit < |g.lists| == BUCKET_COUNT
  {
    var g := GrowTo(a, b);
    if Fit(g, b).None? && g.limit > 0 then Double(g) else g
  }

  // Split the held block (b, k) down to bucket `target`, keeping the left halves.
  function HalveTo(a: State, b: nat, k: nat, target: nat): (a': State)
    requires a.limit <= b <= target < |a.lists|
    ensures a'.limit == a.limit && |a'.lists| == |a.lists|
    decreases target - b
  {
    if b == target then a else HalveTo(Halve(a, b, k), b + 1, 2 * k, target)
  }

  function Leftmost(b: nat, k: nat, target: nat): nat
    requires b <= target
    decreases target - b
  {
    if b == target then k else Leftmost(b + 1, 2 * k, target)
  }

  function Back(a: State, b: nat): nat
    requires b < |a.lists| && a.lists[b] != []
  {
    a.lists[b][|a.lists[b]| - 1]
  }

  // Take the back block of bucket `b` and carve a block for `request` out of it.
  function Carve(a: State, b: nat, request: nat): State
    requires a.limit <= b <= BucketFor(request) < |a.lists| && a.lists[b] != []
  {
    var t := BucketFor(request);
    Commit(HalveTo(Take(a, b), b, Back(a, b), t), t, Leftmost(b, Back(a, b), t), request)
  }

  // The state after malloc(request) when the break is never refused, and the position of
  // the block it hands out, if any, in bucket BucketFor(request).
  function Malloced(a: State, request: nat): (r: (State, Option<nat>))
    requires a.limit < |a.lists| == BUCKET_COUNT
  {
    if Gross(request) > Size(0) then (a, None)
    else
      var t := BucketFor(request);
      var g := Prepare(a, t);
      match Fit(g, t)
      case None => (g, None)
      case Some(b) => (Carve(g, b, request), Some(Leftmost(b, Back(g, b), t)))
  }

  // ------------------------------------------------------------------ free

  // Merge the held block (b, k) upward while its buddy is free, then drop it.
  function Climb(a: State, b: nat, k: nat): State
    requires a.limit <= b < |a.lists|
    decreases b
  {
    if b > a.limit && Buddy(k) in a.lists[b] then Climb(Merge(a, b, k), b - 1, k / 2) else Drop(a, b, k)
  }

  function Release(a: State, b: nat, k: nat): State
    requires a.limit <= b < |a.lists|
  {
    Climb(Reclaim(a, b, k), b, k)
  }

  // ------------------------------------------------------------------ invariants

  // Growing keeps the invariant and every used block, with its place and its request.
  lemma {:induction false} GrowToInv(a: State, limit: nat)
    requires Quiet(a)
    ensures Quiet(GrowTo(a, limit))
    ensures SameUsed(a, GrowTo(a, limit))
    decreases a.limit
  {
    if limit >= a.limit {
    } else {
      DoubleInv(a);
      GrowToInv(Double(a), limit);
    }
  }

  // Growing in two stages is growing once: a tree that stops halfway can be resumed.
  lemma {:induction false} GrowToResumes(a: State, limit: nat, limit': nat)
    requires a.limit < |a.lists| && limit' <= limit
    ensures GrowTo(GrowTo(a, limit), limit') == GrowTo(a, limit')
    decreases a.limit
  {
    if limit >= a.limit {
    } else {
      GrowToResumes(Double(a), limit, limit');
    }
  }

  lemma {:induction false} FitFacts(a: State, b: nat)
    requires |a.lists| == BUCKET_COUNT && b < BUCKET_COUNT
    ensures Fit(a, b).Some? ==>
              a.limit <= Fit(a, b).value <= b && a.lists[Fit(a, b).value] != [] &&
              forall c :: Fit(a, b).value < c <= b ==> a.lists[c] == []
    ensures Fit(a, b).None? ==> forall c :: a.limit <= c <= b ==> a.lists[c] == []
    decreases b
  {
    if b < a.limit || a.lists[b] != [] || b == 0 {
    } else {
      FitFacts(a, b - 1);
    }
  }

  lemma {:induction false} HalveToInv(a: State, b: nat, k: nat, target: nat)
    requires Busy(a, b, k) && a.limit <= b <= target < BUCKET_COUNT
    ensures Busy(HalveTo(a, b, k, target), target, Leftmost(b, k, target))
    ensures SameUsed(a, HalveTo(a, b, k, target))
    decreases target - b
  {
    if b == target {
    } else {
      HalveInv(a, b, k);
      HalveToInv(Halve(a, b, k), b + 1, 2 * k, target);
    }
  }

  // malloc adds exactly one used block and keeps all others.
  lemma CarveInv(a: State, b: nat, request: nat)
    requires Quiet(a) && b <= BucketFor(request) < BUCKET_COUNT && a.lists[b] != [] && Gross(request) <= Size(0)
    ensures a.limit <= b && Quiet(Carve(a, b, request))
    ensures forall c: nat, j: nat, r: nat :: UsedAt(Carve(a, b, request), c, j, r) <==>
              UsedAt(a, c, j, r) ||
              (c == BucketFor(request) && j == Leftmost(b, Back(a, b), c) && r == request)
  {
    var t := BucketFor(request);
    TakeInv(a, b);
    HalveToInv(Take(a, b), b, Back(a, b), t);
    CommitInv(HalveTo(Take(a, b), b, Back(a, b), t), t, Leftmost(b, Back(a, b), t), request);
  }

  lemma {:induction false} ClimbInv(a: State, b: nat, k: nat)
    requires Busy(a, b, k) && a.limit <= b < BUCKET_COUNT
    ensures Quiet(Climb(a, b, k)) && Climb(a, b, k).limit == a.limit
    ensures SameUsed(a, Climb(a, b, k))
    decreases b
  {
    assert Buddy(k) in a.lists[b] <==> IsFree(a, b, Buddy(k));
    if b > a.limit && Buddy(k) in a.lists[b] {
      MergeInv(a, b, k);
      ClimbInv(Merge(a, b, k), b - 1, k / 2);
    } else {
      DropInv(a, b, k);
    }
  }

  // free removes exactly one used block and keeps all others.
  lemma ReleaseInv(a: State, b: nat, k: nat, request: nat)
    requires Quiet(a) && UsedAt(a, b, k, request)
    ensures a.limit <= b < BUCKET_COUNT && Quiet(Release(a, b, k)) && Release(a, b, k).limit == a.limit
    ensures forall c: nat, j: nat, r: nat :: UsedAt(Release(a, b, k), c, j, r) <==>
              UsedAt(a, c, j, r) && !(c == b && j == k)
  {
    ReclaimInv(a, b, k, request);
    ClimbInv(Reclaim(a, b, k), b, k);
  }

  // Doubling a range whose root is in use frees exactly one block: the old root's buddy.
  lemma FitDouble(a: State, t: nat)
    requires Quiet(a) && t < BUCKET_COUNT && Fit(a, t).None? && 0 < a.limit <= t
    ensures Fit(Double(a), t) == Some(a.limit) && Back(Double(a), a.limit) == 1
  {
  }

  lemma PrepareInv(a: State, t: nat)
    requires Quiet(a) && t < BUCKET_COUNT
    ensures Quiet(Prepare(a, t)) && SameUsed(a, Prepare(a, t))
  {
    GrowToInv(a, t);
    var g := GrowTo(a, t);
    if Fit(g, t).None? && g.limit > 0 {
      DoubleInv(g);
    }
  }

  // ------------------------------------------------------------------ free undoes malloc

  // One merge undoes one split.
  lemma MergeHalve(a: State, b: nat, k: nat)
    requires Busy(a, b, k) && a.limit <= b && b + 1 < BUCKET_COUNT
    ensures |a.lists| == BUCKET_COUNT && Buddy(2 * k) in Halve(a, b, k).lists[b + 1]
    ensures Merge(Halve(a, b, k), b + 1, 2 * k) == a
  {
    hide Pow2, LeafAt, Coalesced, Sized;
    HalveInv(a, b, k);
    assert Halve(a, b, k).lists[b + 1] == a.lists[b + 1] + [2 * k + 1];
    WithoutLast(a.lists[b + 1], 2 * k + 1);
    PutPut(a.tree, b - a.limit, k, Split(Held, Free), Held);
    PutSame(a.tree, b - a.limit, k);
    assert Merge(Halve(a, b, k), b + 1, 2 * k).lists == a.lists;
  }

  lemma {:induction false} ClimbHalveTo(a: State, b: nat, k: nat, target: nat)
    requires Busy(a, b, k) && a.limit <= b <= target < BUCKET_COUNT
    ensures HalveTo(a, b, k, target).limit <= target < |HalveTo(a, b, k, target).lists|
    ensures Climb(HalveTo(a, b, k, target), target, Leftmost(b, k, target)) == Climb(a, b, k)
    decreases target - b
  {
    hide Pow2, LeafAt, Put, Coalesced, Sized, HeldAt, Shape;
    HalveToInv(a, b, k, target);
    if b == target {
    } else {
      HalveInv(a, b, k);
      ClimbHalveTo(Halve(a, b, k), b + 1, 2 * k, target);
      MergeHalve(a, b, k);
    }
  }

  lemma DropTake(a: State, b: nat)
    requires Quiet(a) && a.limit <= b < BUCKET_COUNT && a.lists[b] != []
    ensures Drop(Take(a, b), b, Back(a, b)) == a
  {
    TakeLeaves(a, b);
    PutPut(a.tree, b - a.limit, Back(a, b), Held, Free);
    PutSame(a.tree, b - a.limit, Back(a, b));
    assert a.lists[b] == a.lists[b][..|a.lists[b]| - 1] + [Back(a, b)];
    assert Drop(Take(a, b), b, Back(a, b)).lists == a.lists;
  }

  // malloc followed by free of its result restores the state that tree growth alone left:
  // the tree, and every free list with its order.
  lemma ReleaseUndoesCarve(a: State, b: nat, request: nat)
    requires Quiet(a) && a.limit <= b <= BucketFor(request) < BUCKET_COUNT && a.lists[b] != []
    ensures var t := BucketFor(request);
            var c := Carve(a, b, request);
            c.limit <= t < |c.lists| && Release(c, t, Leftmost(b, Back(a, b), t)) == a
  {
    hide Pow2, LeafAt, Put, Shape;
    var t := BucketFor(request);
    var k := Leftmost(b, Back(a, b), t);
    var h := HalveTo(Take(a, b), b, Back(a, b), t);
    TakeInv(a, b);
    TakeLeaves(a, b);
    HalveToInv(Take(a, b), b, Back(a, b), t);
    PutPut(h.tree, t - a.limit, k, Used(request), Held);
    PutSame(h.tree, t - a.limit, k);
    assert Reclaim(Carve(a, b, request), t, k) == h;
    ClimbHalveTo(Take(a, b), b, Back(a, b), t);
    assert IsFree(a, b, Back(a, b));
    if b > a.limit {
      assert !BuddyFree(a, b, Back(a, b));
      assert Buddy(Back(a, b)) !in Take(a, b).lists[b];
    }
    DropTake(a, b);
  }

  // ------------------------------------------------------------------ merging is complete

  ghost predicate NothingUsed(a: State) {
    forall b: nat, k: nat, r: nat :: !UsedAt(a, b, k, r)
  }

  ghost predicate OnlyFree(t: Tree) {
    forall e: nat, j: nat :: LeafAt(t, e, j).Some? ==> LeafAt(t, e, j).value.Free?
  }

  // The leaves of the two halves.
  lemma LeafBelow(t: Tree, n: nat, d: nat, k: nat)
    requires t.Split? && Shape(t, n)
    ensures LeafAt(t.left, d, k).Some? ==> LeafAt(t, d + 1, k) == LeafAt(t.left, d, k)
    ensures LeafAt(t, d + 1, k + Pow2(d)) == LeafAt(t.right, d, k)
  {
    if LeafAt(t.left, d, k).Some? {
      LeafBounds(t.left, n - 1, d, k);
    }
  }

  lemma OnlyFreeChildren(t: Tree, n: nat)
    requires t.Split? && Shape(t, n) && OnlyFree(t)
    ensures OnlyFree(t.left) && OnlyFree(t.right)
    ensures LeafAt(t.left, 0, 0) == (if t.left.Split? then None else Some(Free))
    ensures LeafAt(t.right, 0, 0) == (if t.right.Split? then None else Some(Free))
  {
    forall e: nat, j: nat
      ensures LeafAt(t.left, e, j).Some? ==> LeafAt(t.left, e, j).value.Free?
      ensures LeafAt(t.right, e, j).Some? ==> LeafAt(t.right, e, j).value.Free?
    {
      LeafBelow(t, n, e, j);
    }
  }

  ghost predicate FreeBuddies(t: Tree, d: nat, k: nat) {
    d > 0 && LeafAt(t, d, k) == Some(Free) && LeafAt(t, d, Buddy(k)) == Some(Free)
  }

  lemma BuddiesBelow(t: Tree, n: nat, d: nat, k: nat)
    requires t.Split? && Shape(t, n)
    ensures FreeBuddies(t.left, d, k) ==> FreeBuddies(t, d + 1, k)
    ensures FreeBuddies(t.right, d, k) ==> FreeBuddies(t, d + 1, k + Pow2(d))
  {
    hide Pow2, LeafAt, Shape;
    LeafBelow(t, n, d, k);
    LeafBelow(t, n, d, Buddy(k));
    if d > 0 {
      BuddyShift(d, k);
    }
  }

  lemma BuddyShift(d: nat, k: nat)
    requires d > 0
    ensures Buddy(k + Pow2(d)) == Buddy(k) + Pow2(d)
  {
    var p := Pow2(d - 1);
    assert Pow2(d) == 2 * p;
  }

  // A split tree whose leaves are all free has two free buddies.
  lemma {:induction false} FreePair(t: Tree, n: nat) returns (d: nat, k: nat)
    requires t.Split? && Shape(t, n) && OnlyFree(t)
    ensures FreeBuddies(t, d, k)
    decreases t
  {
    hide OnlyFree, FreeBuddies;
    OnlyFreeChildren(t, n);
    if t.left.Split? {
      d, k := FreePair(t.left, n - 1);
      BuddiesBelow(t, n, d, k);
      d := d + 1;
    } else if t.right.Split? {
      d, k := FreePair(t.right, n - 1);
      BuddiesBelow(t, n, d, k);
      d, k := d + 1, k + Pow2(d);
    } else {
      d, k := 1, 0;
      ChildrenAreBuddies(t);
    }
  }

  lemma ChildrenAreBuddies(t: Tree)
    requires t.Split? && t.left.Free? && t.right.Free?
    ensures FreeBuddies(t, 1, 0)
  {
    assert Pow2(0) == 1;
  }

  lemma EmptySeq(s: seq<nat>)
    ensures (forall x: nat :: x !in s) ==> s == []
  {
    assert s != [] ==> s[0] in s;
  }

  // When no block is in use the heap is one free block at the base, as large as the range.
  lemma AllFree(a: State)
    requires Quiet(a) && NothingUsed(a)
    ensures a.tree == Free
    ensures forall b :: 0 <= b < BUCKET_COUNT ==> a.lists[b] == if b == a.limit then [0] else []
  {
    if a.tree.Split? {
      forall e: nat, j: nat | LeafAt(a.tree, e, j).Some?
        ensures LeafAt(a.tree, e, j).value.Free?
      {
        LeafNotSplit(a.tree, e, j);
        var f := Leaf(a, e + a.limit, j).value;
        assert f.Used? ==> UsedAt(a, e + a.limit, j, f.request);
      }
      var d, k := FreePair(a.tree, LAST_BUCKET - a.limit);
      assert IsFree(a, d + a.limit, k) && BuddyFree(a, d + a.limit, k);
      assert false;
    }
    assert Leaf(a, a.limit, 0) == Some(a.tree);
    assert a.tree.Used? ==> UsedAt(a, a.limit, 0, a.tree.request);
    RootList(a);
    forall b | 0 <= b < BUCKET_COUNT && b != a.limit
      ensures a.lists[b] == []
    {
      assert forall k: nat :: k in a.lists[b] <==> IsFree(a, b, k);
      assert forall k: nat :: !IsFree(a, b, k);
      EmptySeq(a.lists[b]);
    }
  }

  // Freeing the last used block therefore leaves one free block and nothing else.
  lemma ReleaseLast(a: State, b: nat, k: nat, request: nat)
    requires Quiet(a) && UsedAt(a, b, k, request)
    requires forall c: nat, j: nat, r: nat :: UsedAt(a, c, j, r) ==> c == b && j == k
    ensures a.limit <= b < BUCKET_COUNT
    ensures Release(a, b, k) == State(a.limit, Free, seq(BUCKET_COUNT, c => if c == a.limit then [0] else []))
  {
    ReleaseInv(a, b, k, request);
    AllFree(Release(a, b, k));
    assert Release(a, b, k).lists == seq(BUCKET_COUNT, c => if c == a.limit then [0] else []);
  }

  lemma {:induction false} LeafNotSplit(t: Tree, d: nat, k: nat)
    requires LeafAt(t, d, k).Some?
    ensures !LeafAt(t, d, k).value.Split?
    decreases d
  {
    if d == 0 {
    } else {
      if k < Pow2(d - 1) {
        LeafNotSplit(t.left, d - 1, k);
      } else {
        LeafNotSplit(t.right, d - 1, k - Pow2(d - 1));
      }
    }
  }

  // ------------------------------------------------------------------ what is occupied

  // No leaf is held, no two buddies are free, and no leaf down to depth `d` is free.
  ghost predicate Crowded(t: Tree, d: nat) {
    && (forall e: nat, j: nat :: LeafAt(t, e, j) != Some(Held))
    && (forall e: nat, j: nat :: !FreeBuddies(t, e, j))
    && (forall e: nat, j: nat :: e <= d ==> LeafAt(t, e, j) != Some(Free))
  }

  lemma CrowdedChildren(t: Tree, n: nat, d: nat)
    requires t.Split? && Shape(t, n) && Crowded(t, d) && d > 0
    ensures Crowded(t.left, d - 1) && Crowded(t.right, d - 1)
  {
    hide LeafAt, FreeBuddies, Shape;
    forall e: nat, j: nat
      ensures LeafAt(t.left, e, j) != Some(Held) && LeafAt(t.right, e, j) != Some(Held)
      ensures !FreeBuddies(t.left, e, j) && !FreeBuddies(t.right, e, j)
      ensures e <= d - 1 ==> LeafAt(t.left, e, j) != Some(Free) && LeafAt(t.right, e, j) != Some(Free)
    {
      LeafBelow(t, n, e, j);
      BuddiesBelow(t, n, e, j);
    }
  }

  // A crowded tree has a used leaf, for it is no free leaf and its leaves are not all free.
  lemma SomeUsed(t: Tree, n: nat) returns (e: nat, j: nat)
    requires Shape(t, n) && Crowded(t, 0)
    ensures LeafAt(t, e, j).Some? && LeafAt(t, e, j).value.Used?
  {
    if t.Split? {
      if OnlyFree(t) {
        var d, k := FreePair(t, n);
        assert false;
      }
      e, j :| LeafAt(t, e, j).Some? && !LeafAt(t, e, j).value.Free?;
      LeafNotSplit(t, e, j);
    } else {
      e, j := 0, 0;
      assert LeafAt(t, 0, 0) == Some(t);
    }
  }

  // The root itself, or a node below a leaf.
  lemma MeetsHere(t: Tree, n: nat, m: nat, d: nat, k: nat) returns (e: nat, j: nat, x: nat)
    requires Shape(t, n) && n <= m && d <= m && k < Pow2(d) && Crowded(t, 0) && (d == 0 || !t.Split?)
    ensures LeafAt(t, e, j).Some? && LeafAt(t, e, j).value.Used? && e <= n
    ensures Holds(m, d, k, x) && Holds(m, e, j, x)
  {
    hide LeafAt, Shape, Crowded;
    e, j := SomeUsed(t, n);
    LeafBounds(t, n, e, j);
    if d == 0 {
      LeafInside(t, n, m, e, j);
      x := Start(m, e, j);
    } else {
      x := Start(m, d, k);
      assert e == 0 && j == 0 by { OnlyLeaf(t, e, j); }
      MulSum(k, 1, Pow2(m - d));
      MulLe(k + 1, Pow2(d), Pow2(m - d));
      Pow2Sum(d, m - d);
    }
  }

  lemma OnlyLeaf(t: Tree, e: nat, j: nat)
    requires !t.Split? && LeafAt(t, e, j).Some?
    ensures e == 0 && j == 0
  {
  }

  // Every node down to depth `d` of a crowded tree shares a byte with a used leaf.
  lemma {:induction false} MeetsUsed(t: Tree, n: nat, m: nat, d: nat, k: nat) returns (e: nat, j: nat, x: nat)
    requires Shape(t, n) && n <= m && d <= m && k < Pow2(d) && Crowded(t, d)
    ensures LeafAt(t, e, j).Some? && LeafAt(t, e, j).value.Used? && e <= n
    ensures Holds(m, d, k, x) && Holds(m, e, j, x)
    decreases d
  {
    hide Crowded;
    if d == 0 || !t.Split? {
      assert Crowded(t, 0) by { CrowdedLess(t, d); }
      e, j, x := MeetsHere(t, n, m, d, k);
    } else {
      CrowdedChildren(t, n, d);
      StartRight(m, d, k);
      if k < Pow2(d - 1) {
        e, j, x := MeetsUsed(t.left, n - 1, m - 1, d - 1, k);
        LeafBounds(t.left, n - 1, e, j);
        e := e + 1;
      } else {
        e, j, x := MeetsUsed(t.right, n - 1, m - 1, d - 1, k - Pow2(d - 1));
        e, j, x := e + 1, j + Pow2(e), x + Pow2(m - 1);
        StartRight(m, e, j);
      }
    }
  }

  lemma CrowdedLess(t: Tree, d: nat)
    requires Crowded(t, d)
    ensures Crowded(t, 0)
  {
  }

  // The position (t, k), whether it is a block or not, overlaps a block in use.
  ghost predicate Occupied(a: State, t: nat, k: nat)
    requires t <= MAX_ALLOC_LOG2
  {
    exists c: nat, j: nat, r: nat :: UsedAt(a, c, j, r) && Meet(t, k, c, j)
  }

  predicate Meet(b: nat, k: nat, c: nat, j: nat)
    requires b <= MAX_ALLOC_LOG2
  {
    c <= MAX_ALLOC_LOG2 && Offset(b, k) < Offset(c, j) + Size(c) && Offset(c, j) < Offset(b, k) + Size(b)
  }

  // In a range of full size without a free block of bucket `t` or larger, every position of
  // that bucket is occupied.
  lemma FullIsOccupied(a: State, t: nat, k: nat)
    requires Quiet(a) && a.limit == 0 && t < BUCKET_COUNT && Fit(a, t).None? && k < Pow2(t)
    ensures Occupied(a, t, k)
  {
    hide Pow2, LeafAt, Shape, Offset, Sized;
    FullIsCrowded(a, t);
    var e, j, x := MeetsUsed(a.tree, LAST_BUCKET, MAX_ALLOC_LOG2, t, k);
    var u := LeafAt(a.tree, e, j).value;
    assert UsedAt(a, e, j, u.request);
    assert Meet(t, k, e, j) by { HoldsBoth(t, k, e, j, x); }
  }

  lemma HoldsBoth(b: nat, k: nat, c: nat, j: nat, x: nat)
    requires b <= MAX_ALLOC_LOG2 && c <= MAX_ALLOC_LOG2 && Holds(MAX_ALLOC_LOG2, b, k, x)
    requires Holds(MAX_ALLOC_LOG2, c, j, x)
    ensures Meet(b, k, c, j)
  {
  }

  lemma FullIsCrowded(a: State, t: nat)
    requires Quiet(a) && a.limit == 0 && t < BUCKET_COUNT && Fit(a, t).None?
    ensures Crowded(a.tree, t)
  {
    hide LeafAt, Pow2, Shape, Sized;
    FitFacts(a, t);
    forall e: nat, j: nat
      ensures LeafAt(a.tree, e, j) != Some(Held) && !FreeBuddies(a.tree, e, j)
      ensures e <= t ==> LeafAt(a.tree, e, j) != Some(Free)
    {
      assert Leaf(a, e, j) == LeafAt(a.tree, e, j) && Leaf(a, e, Buddy(j)) == LeafAt(a.tree, e, Buddy(j));
      assert e > 0 && IsFree(a, e, j) ==> !BuddyFree(a, e, j);
      assert e <= t ==> (j in a.lists[e] <==> IsFree(a, e, j));
    }
  }

  // ------------------------------------------------------------------ tiling

  ghost predicate Contains(b: nat, k: nat, x: nat) {
    b <= MAX_ALLOC_LOG2 && Offset(b, k) <= x < Offset(b, k) + Size(b)
  }

  // The blocks, used and free, tile the range of the root: each byte of it lies in exactly
  // one block, no block leaves it, and each block starts at a multiple of its own size.
  lemma BlocksTile(a: State, x: nat) returns (b: nat, k: nat)
    requires Quiet(a) && x < Size(a.limit)
    ensures Leaf(a, b, k).Some? && Contains(b, k, x)
    ensures forall c: nat, j: nat :: Leaf(a, c, j).Some? && Contains(c, j, x) ==> c == b && j == k
  {
    hide Pow2, LeafAt;
    var m := MAX_ALLOC_LOG2 - a.limit;
    var d, p := Locate(a.tree, LAST_BUCKET - a.limit, m, x);
    b, k := d + a.limit, p;
    forall c: nat, j: nat | Leaf(a, c, j).Some? && Contains(c, j, x)
      ensures c == b && j == k
    {
      if c != b || j != k {
        LeavesApart(a.tree, LAST_BUCKET - a.limit, m, d, k, c - a.limit, j);
        assert false;
      }
    }
  }

  lemma BlocksApart(a: State, b: nat, k: nat, c: nat, j: nat)
    requires Inv(a) && Leaf(a, b, k).Some? && Leaf(a, c, j).Some? && (b != c || k != j)
    ensures a.limit <= b < BUCKET_COUNT && a.limit <= c < BUCKET_COUNT
    ensures Offset(b, k) + Size(b) <= Offset(c, j) || Offset(c, j) + Size(c) <= Offset(b, k)
  {
    hide Pow2, LeafAt;
    LeafRange(a, b, k);
    LeafRange(a, c, j);
    LeavesApart(a.tree, LAST_BUCKET - a.limit, MAX_ALLOC_LOG2 - a.limit, b - a.limit, k, c - a.limit, j);
  }

  lemma SizeAtLeast(b: nat)
    requires b < BUCKET_COUNT
    ensures Size(b) >= 16
  {
    Pow2Monotone(4, MAX_ALLOC_LOG2 - b);
  }

  lemma BlockInside(a: State, b: nat, k: nat)
    requires Inv(a) && Leaf(a, b, k).Some?
    ensures a.limit <= b < BUCKET_COUNT && Offset(b, k) + Size(b) <= Size(a.limit) <= Size(0)
  {
    hide Pow2;
    LeafRange(a, b, k);
    LeafInside(a.tree, LAST_BUCKET - a.limit, MAX_ALLOC_LOG2 - a.limit, b - a.limit, k);
    Pow2Monotone(MAX_ALLOC_LOG2 - a.limit, MAX_ALLOC_LOG2);
  }
}
