// The abstract state of the buddy heap and the elementary changes that malloc and free
// make to it. A block is named (b, k): bucket `b` and position `k` among the 2^b blocks
// of that bucket (heap_buddy_system_evanw.c:55-64, 225-236).
module BuddyState {
  import opened Numbers
  import opened Options
  import opened BuddyTree

  const MAX_ALLOC_LOG2: nat := 31
  const MIN_ALLOC_LOG2: nat := 4
  const BUCKET_COUNT: nat := MAX_ALLOC_LOG2 - MIN_ALLOC_LOG2 + 1
  const LAST_BUCKET: nat := BUCKET_COUNT - 1
  const HEADER_SIZE: nat := 8

  // The size of the blocks of a bucket, and where a block starts relative to the base.
  function Size(b: nat): nat
    requires b <= MAX_ALLOC_LOG2
  {
    Pow2(MAX_ALLOC_LOG2 - b)
  }

  function Offset(b: nat, k: nat): nat
    requires b <= MAX_ALLOC_LOG2
  {
    k * Size(b)
  }

  // `limit` is the bucket of the root; `lists[b]` is the free list of bucket `b`, from
  // front to back. Buckets above the root have no list yet.
  datatype State = State(limit: nat, tree: Tree, lists: seq<seq<nat>>)

  function Leaf(a: State, b: nat, k: nat): Option<Tree> {
    if b < a.limit then None else LeafAt(a.tree, b - a.limit, k)
  }

  predicate IsFree(a: State, b: nat, k: nat) {
    Leaf(a, b, k) == Some(Free)
  }

  predicate NoDuplicates(s: seq<nat>) {
    forall i, j :: 0 <= i < j < |s| ==> s[i] != s[j]
  }

  // The free lists are exactly the free leaves.
  ghost predicate Listed(a: State) {
    && |a.lists| == BUCKET_COUNT
    && (forall b, k: nat :: 0 <= b < BUCKET_COUNT ==> (k in a.lists[b] <==> IsFree(a, b, k)))
    && (forall b :: 0 <= b < BUCKET_COUNT ==> NoDuplicates(a.lists[b]))
  }

  predicate BuddyFree(a: State, b: nat, k: nat) {
    IsFree(a, b, Buddy(k))
  }

  // No two buddies are both free.
  ghost predicate Coalesced(a: State) {
    forall b: nat, k: nat :: b > a.limit && IsFree(a, b, k) ==> !BuddyFree(a, b, k)
  }

  ghost predicate Inv(a: State) {
    && a.limit < BUCKET_COUNT
    && Shape(a.tree, LAST_BUCKET - a.limit)
    && Listed(a)
    && Coalesced(a)
  }

  // The smallest bucket size that fits `n` bytes, searched from bucket `b` upward.
  function BucketFrom(b: nat, n: nat): (r: nat)
    requires b < BUCKET_COUNT
    ensures r <= b
  {
    if b == 0 || n <= Size(b) then b else BucketFrom(b - 1, n)
  }

  // The number of bytes that malloc reckons with: 32-bit `request + HEADER_SIZE`.
  function Gross(request: nat): nat {
    (request + HEADER_SIZE) % WORD
  }

  function BucketFor(request: nat): nat {
    BucketFrom(LAST_BUCKET, Gross(request))
  }

  // Every used block has the bucket that its header leads to, and its bytes fit.
  ghost predicate Sized(a: State) {
    forall b: nat, k: nat, r: nat :: UsedAt(a, b, k, r) ==> b == BucketFor(r) && Gross(r) <= Size(0)
  }

  ghost predicate NoHeld(a: State) {
    forall b: nat, k: nat :: Leaf(a, b, k) != Some(Held)
  }

  ghost predicate HeldAt(a: State, b: nat, k: nat) {
    && Leaf(a, b, k) == Some(Held)
    && forall c: nat, j: nat :: Leaf(a, c, j) == Some(Held) ==> c == b && j == k
  }

  // The block (b, k) is in use and its header says `request`.
  ghost predicate UsedAt(a: State, b: nat, k: nat, request: nat) {
    Leaf(a, b, k) == Some(Used(request))
  }

  ghost predicate SameUsed(a: State, a': State) {
    forall b: nat, k: nat, r: nat :: UsedAt(a', b, k, r) <==> UsedAt(a, b, k, r)
  }

  // Between calls.
  ghost predicate Quiet(a: State) {
    Inv(a) && Sized(a) && NoHeld(a)
  }

  // While one block is being carved or merged.
  ghost predicate Busy(a: State, b: nat, k: nat) {
    Inv(a) && Sized(a) && HeldAt(a, b, k)
  }

  lemma LeafRange(a: State, b: nat, k: nat)
    requires Inv(a) && Leaf(a, b, k).Some?
    ensures a.limit <= b < BUCKET_COUNT && k < Pow2(b - a.limit)
  {
    LeafBounds(a.tree, LAST_BUCKET - a.limit, b - a.limit, k);
  }

  // ---------------------------------------------------------------- elementary steps

  // Pop the back of a free list.
  function Take(a: State, b: nat): State
    requires a.limit <= b < |a.lists| && a.lists[b] != []
  {
    var n := |a.lists[b]| - 1;
    a.(tree := Put(a.tree, b - a.limit, a.lists[b][n], Held), lists := a.lists[b := a.lists[b][..n]])
  }

  // Push a held block onto the back of its free list.
  function Drop(a: State, b: nat, k: nat): State
    requires a.limit <= b < |a.lists|
  {
    a.(tree := Put(a.tree, b - a.limit, k, Free), lists := a.lists[b := a.lists[b] + [k]])
  }

  // Split a held block: the left half stays held, the right half becomes free.
  function Halve(a: State, b: nat, k: nat): State
    requires a.limit <= b && b + 1 < |a.lists|
  {
    a.(tree := Put(a.tree, b - a.limit, k, Split(Held, Free)),
       lists := a.lists[b + 1 := a.lists[b + 1] + [2 * k + 1]])
  }

  function IndexOf(s: seq<nat>, x: nat): (i: nat)
    requires x in s
    ensures i < |s| && s[i] == x
  {
    if s[0] == x then 0 else 1 + IndexOf(s[1..], x)
  }

  function Without(s: seq<nat>, x: nat): seq<nat>
    requires x in s
  {
    s[..IndexOf(s, x)] + s[IndexOf(s, x) + 1..]
  }

  // Merge a held block with its free buddy into a held parent.
  function Merge(a: State, b: nat, k: nat): State
    requires a.limit < b < |a.lists| && Buddy(k) in a.lists[b]
  {
    a.(tree := Put(a.tree, b - 1 - a.limit, k / 2, Held), lists := a.lists[b := Without(a.lists[b], Buddy(k))])
  }

  // Hand a held block to the caller, and take a used block back.
  function Commit(a: State, b: nat, k: nat, request: nat): State
    requires a.limit <= b
  {
    a.(tree := Put(a.tree, b - a.limit, k, Used(request)))
  }

  function Reclaim(a: State, b: nat, k: nat): State
    requires a.limit <= b
  {
    a.(tree := Put(a.tree, b - a.limit, k, Held))
  }

  // Double the address range (lines 278-320).
  function Double(a: State): State
    requires 0 < a.limit < |a.lists|
  {
    if a.tree.Free? then
      State(a.limit - 1, Free, a.lists[a.limit := Without0(a.lists[a.limit])][a.limit - 1 := [0]])
    else
      State(a.limit - 1, Split(a.tree, Free), a.lists[a.limit := a.lists[a.limit] + [1]][a.limit - 1 := []])
  }

  function Without0(s: seq<nat>): seq<nat> {
    if 0 in s then Without(s, 0) else s
  }

  lemma WithoutFacts(s: seq<nat>, x: nat)
    requires x in s && NoDuplicates(s)
    ensures NoDuplicates(Without(s, x))
    ensures forall y: nat :: y in Without(s, x) <==> y in s && y != x
  {
  }

  // Removing an entry keeps the others in their order.
  lemma WithoutAt(s: seq<nat>, i: nat)
    requires NoDuplicates(s) && i < |s|
    ensures Without(s, s[i]) == s[..i] + s[i + 1..]
  {
    assert IndexOf(s, s[i]) == i;
  }

  lemma WithoutLast(s: seq<nat>, x: nat)
    requires NoDuplicates(s + [x])
    ensures Without(s + [x], x) == s
  {
    var i := IndexOf(s + [x], x);
    assert (s + [x])[|s|] == x;
  }

  lemma WithoutBack(s: seq<nat>)
    requires s != [] && NoDuplicates(s)
    ensures forall x: nat :: x in s[..|s| - 1] <==> x in s && x != s[|s| - 1]
  {
  }

  // The effect of every step on the leaves.

  lemma TakeLeaves(a: State, b: nat)
    requires Inv(a) && b < BUCKET_COUNT && a.lists[b] != []
    ensures var k := a.lists[b][|a.lists[b]| - 1];
            a.limit <= b && IsFree(a, b, k) &&
            forall c: nat, j: nat :: Leaf(Take(a, b), c, j) == if c == b && j == k then Some(Held) else Leaf(a, c, j)
  {
    var k := a.lists[b][|a.lists[b]| - 1];
    assert IsFree(a, b, k);
    forall c: nat, j: nat | c >= a.limit
      ensures Leaf(Take(a, b), c, j) == if c == b && j == k then Some(Held) else Leaf(a, c, j)
    {
      PutLeaf(a.tree, b - a.limit, k, Held, c - a.limit, j);
    }
  }

  lemma SetLeaves(a: State, b: nat, k: nat, s: Tree, a': State)
    requires Leaf(a, b, k).Some? && !s.Split? && a.limit == a'.limit <= b && a'.tree == Put(a.tree, b - a.limit, k, s)
    ensures forall c: nat, j: nat :: Leaf(a', c, j) == if c == b && j == k then Some(s) else Leaf(a, c, j)
  {
    forall c: nat, j: nat | c >= a.limit
      ensures Leaf(a', c, j) == if c == b && j == k then Some(s) else Leaf(a, c, j)
    {
      PutLeaf(a.tree, b - a.limit, k, s, c - a.limit, j);
    }
  }

  lemma HalveLeaves(a: State, b: nat, k: nat)
    requires Inv(a) && Leaf(a, b, k).Some? && b + 1 < BUCKET_COUNT
    ensures b >= a.limit
    ensures forall c: nat, j: nat :: Leaf(Halve(a, b, k), c, j) ==
              if c == b && j == k then None
              else if c == b + 1 && j == 2 * k then Some(Held)
              else if c == b + 1 && j == 2 * k + 1 then Some(Free)
              else Leaf(a, c, j)
  {
    forall c: nat, j: nat | c >= a.limit
      ensures Leaf(Halve(a, b, k), c, j) ==
              if c == b && j == k then None
              else if c == b + 1 && j == 2 * k then Some(Held)
              else if c == b + 1 && j == 2 * k + 1 then Some(Free)
              else Leaf(a, c, j)
    {
      PutSplit(a.tree, b - a.limit, k, Held, Free, c - a.limit, j);
    }
  }

  lemma MergeLeaves(a: State, b: nat, k: nat)
    requires Inv(a) && Leaf(a, b, k).Some? && a.limit < b < BUCKET_COUNT && IsFree(a, b, Buddy(k))
    ensures forall c: nat, j: nat :: Leaf(Merge(a, b, k), c, j) ==
              if c == b - 1 && j == k / 2 then Some(Held)
              else if c == b && (j == k || j == Buddy(k)) then None
              else Leaf(a, c, j)
  {
    forall c: nat, j: nat | c >= a.limit
      ensures Leaf(Merge(a, b, k), c, j) ==
              if c == b - 1 && j == k / 2 then Some(Held)
              else if c == b && (j == k || j == Buddy(k)) then None
              else Leaf(a, c, j)
    {
      PutJoin(a.tree, b - 1 - a.limit, k / 2, Held, c - a.limit, j);
    }
  }

  lemma DoubleLeaves(a: State)
    requires Inv(a) && a.limit > 0
    ensures forall c: nat, j: nat :: Leaf(Double(a), c, j) ==
              if a.tree.Free? then (if c == a.limit - 1 && j == 0 then Some(Free) else None)
              else if c == a.limit && j == 1 then Some(Free)
              else Leaf(a, c, j)
  {
    forall c: nat, j: nat | c >= a.limit
      ensures Leaf(Double(a), c, j) ==
              if a.tree.Free? then None
              else if c == a.limit && j == 1 then Some(Free)
              else Leaf(a, c, j)
    {
      GrowLeaf(a.tree, c - a.limit, j);
      if Leaf(a, c, j).Some? {
        LeafRange(a, c, j);
      }
    }
  }

  // A step that frees at most (c, j), whose buddy is not free, keeps buddies coalesced.
  lemma KeepCoalesced(a: State, a': State, c: nat, j: nat)
    requires Coalesced(a) && a.limit == a'.limit
    requires forall b: nat, k: nat :: IsFree(a', b, k) ==> IsFree(a, b, k) || (b == c && k == j)
    requires c > a.limit && IsFree(a', c, j) ==> !BuddyFree(a', c, j)
    ensures Coalesced(a')
  {
  }

  // Every step keeps the invariant.

  lemma TakeInv(a: State, b: nat)
    requires Quiet(a) && b < BUCKET_COUNT && a.lists[b] != []
    ensures a.limit <= b
    ensures Busy(Take(a, b), b, a.lists[b][|a.lists[b]| - 1]) && SameUsed(a, Take(a, b))
    ensures Take(a, b).limit == a.limit && |Take(a, b).lists| == BUCKET_COUNT
  {
    hide Pow2, LeafAt, Put, BucketFor, Gross, Size;
    TakeLeaves(a, b);
    assert SameUsed(a, Take(a, b));
    WithoutBack(a.lists[b]);
    KeepCoalesced(a, Take(a, b), 0, 0);
    forall c, j: nat | 0 <= c < BUCKET_COUNT
      ensures j in Take(a, b).lists[c] <==> IsFree(Take(a, b), c, j)
    {
      assert j in a.lists[c] <==> IsFree(a, c, j);
    }
    PutShape(a.tree, LAST_BUCKET - a.limit, b - a.limit, a.lists[b][|a.lists[b]| - 1], Held);
  }

  lemma DropInv(a: State, b: nat, k: nat)
    requires Busy(a, b, k) && (b == a.limit || !IsFree(a, b, Buddy(k)))
    ensures a.limit <= b < BUCKET_COUNT
    ensures Quiet(Drop(a, b, k)) && SameUsed(a, Drop(a, b, k))
  {
    hide Pow2, LeafAt, Put, BucketFor, Gross, Size;
    LeafRange(a, b, k);
    var a' := Drop(a, b, k);
    SetLeaves(a, b, k, Free, a');
    assert SameUsed(a, a');
    PutShape(a.tree, LAST_BUCKET - a.limit, b - a.limit, k, Free);
    assert k !in a.lists[b];
    KeepCoalesced(a, a', b, k);
  }

  lemma HalveInv(a: State, b: nat, k: nat)
    requires Busy(a, b, k) && b + 1 < BUCKET_COUNT
    ensures a.limit <= b
    ensures Busy(Halve(a, b, k), b + 1, 2 * k) && SameUsed(a, Halve(a, b, k))
  {
    hide Pow2, LeafAt, Put, BucketFor, Gross, Size;
    LeafRange(a, b, k);
    var a' := Halve(a, b, k);
    HalveLeaves(a, b, k);
    PutShape(a.tree, LAST_BUCKET - a.limit, b - a.limit, k, Split(Held, Free));
    NoLeafBelow(a, b, k);
    assert SameUsed(a, a');
    assert 2 * k + 1 !in a.lists[b + 1];
    KeepCoalesced(a, a', b + 1, 2 * k + 1);
  }

  lemma NoLeafBelow(a: State, b: nat, k: nat)
    requires b >= a.limit && Leaf(a, b, k).Some?
    ensures Leaf(a, b + 1, 2 * k).None? && Leaf(a, b + 1, 2 * k + 1).None?
  {
    NoLeafBelowTree(a.tree, b - a.limit, k);
  }

  lemma {:induction false} NoLeafBelowTree(t: Tree, d: nat, k: nat)
    requires LeafAt(t, d, k).Some?
    ensures LeafAt(t, d + 1, 2 * k).None? && LeafAt(t, d + 1, 2 * k + 1).None?
    decreases d
  {
    if d == 0 {
    } else {
      if k < Pow2(d - 1) {
        NoLeafBelowTree(t.left, d - 1, k);
      } else {
        NoLeafBelowTree(t.right, d - 1, k - Pow2(d - 1));
        assert 2 * k + 1 - Pow2(d) == 2 * (k - Pow2(d - 1)) + 1;
      }
    }
  }

  lemma MergeInv(a: State, b: nat, k: nat)
    requires Busy(a, b, k) && a.limit < b && IsFree(a, b, Buddy(k))
    ensures b < BUCKET_COUNT && Buddy(k) in a.lists[b]
    ensures Busy(Merge(a, b, k), b - 1, k / 2) && SameUsed(a, Merge(a, b, k))
  {
    hide Pow2, LeafAt, Put, BucketFor, Gross, Size;
    LeafRange(a, b, k);
    var a' := Merge(a, b, k);
    MergeLeaves(a, b, k);
    PutShape(a.tree, LAST_BUCKET - a.limit, b - 1 - a.limit, k / 2, Held);
    WithoutFacts(a.lists[b], Buddy(k));
    KeepCoalesced(a, a', 0, 0);
    assert Leaf(a, b - 1, k / 2).Some? ==> Leaf(a, b, k).None? by {
      if Leaf(a, b - 1, k / 2).Some? {
        NoLeafBelow(a, b - 1, k / 2);
      }
    }
    assert SameUsed(a, a');
  }

  lemma CommitInv(a: State, b: nat, k: nat, request: nat)
    requires Busy(a, b, k) && b == BucketFor(request) && Gross(request) <= Size(0)
    ensures a.limit <= b
    ensures Quiet(Commit(a, b, k, request))
    ensures forall c: nat, j: nat, r: nat :: UsedAt(Commit(a, b, k, request), c, j, r) <==>
              UsedAt(a, c, j, r) || (c == b && j == k && r == request)
  {
    hide Pow2, LeafAt, Put, BucketFor, Gross, Size;
    LeafRange(a, b, k);
    var a' := Commit(a, b, k, request);
    SetLeaves(a, b, k, Used(request), a');
    assert forall c: nat, j: nat, r: nat :: UsedAt(a', c, j, r) <==>
              UsedAt(a, c, j, r) || (c == b && j == k && r == request);
    KeepCoalesced(a, a', 0, 0);
    PutShape(a.tree, LAST_BUCKET - a.limit, b - a.limit, k, Used(request));
  }

  lemma ReclaimInv(a: State, b: nat, k: nat, request: nat)
    requires Quiet(a) && UsedAt(a, b, k, request)
    ensures a.limit <= b < BUCKET_COUNT
    ensures Busy(Reclaim(a, b, k), b, k)
    ensures forall c: nat, j: nat, r: nat :: UsedAt(Reclaim(a, b, k), c, j, r) <==>
              UsedAt(a, c, j, r) && !(c == b && j == k)
  {
    hide Pow2, LeafAt, Put, BucketFor, Gross, Size;
    LeafRange(a, b, k);
    var a' := Reclaim(a, b, k);
    SetLeaves(a, b, k, Held, a');
    assert forall c: nat, j: nat, r: nat :: UsedAt(a', c, j, r) <==> UsedAt(a, c, j, r) && !(c == b && j == k);
    KeepCoalesced(a, a', 0, 0);
    PutShape(a.tree, LAST_BUCKET - a.limit, b - a.limit, k, Held);
  }

  // The free list of the root's bucket holds the root or nothing.
  lemma RootList(a: State)
    requires Inv(a)
    ensures a.lists[a.limit] == if a.tree.Free? then [0] else []
  {
    var s := a.lists[a.limit];
    assert |s| > 1 ==> s[0] != s[1];
    assert |s| > 0 ==> s[0] in s;
    forall i | 0 <= i < |s|
      ensures s[i] == 0
    {
      assert s[i] in s;
      assert IsFree(a, a.limit, s[i]);
    }
    assert 0 in s <==> IsFree(a, a.limit, 0);
  }

  lemma DoubleInv(a: State)
    requires Quiet(a) && a.limit > 0
    ensures Quiet(Double(a)) && SameUsed(a, Double(a))
    ensures Double(a).limit == a.limit - 1 && |Double(a).lists| == BUCKET_COUNT
  {
    var a' := Double(a);
    DoubleLeaves(a);
    assert SameUsed(a, a');
    RootList(a);
    forall b, k: nat | 0 <= b < BUCKET_COUNT
      ensures k in a'.lists[b] <==> IsFree(a', b, k)
    {
      assert k in a.lists[b] <==> IsFree(a, b, k);
    }
    forall c: nat, j: nat | c > a'.limit && IsFree(a', c, j)
      ensures !BuddyFree(a', c, j)
    {
      if c > a.limit {
        assert IsFree(a, c, j) && !BuddyFree(a, c, j);
      } else {
        assert !IsFree(a', a.limit, 0);
      }
    }
  }
}
