// The linearised tree of "is split" flags (heap_buddy_system_evanw.c:98-133, 237-251)
// against the abstract state.
module BuddyBits {
  import opened BuddyTree
  import opened BuddyState
  import opened SplitBits

  const FLAG_BYTES: nat := Pow2(LAST_BUCKET) / 8

  function NodeIndex(b: nat, k: nat): nat {
    Pow2(b) - 1 + k
  }

  // `n ^ 1` on integers.
  function XorOne(n: nat): nat {
    if n % 2 == 0 then n + 1 else n - 1
  }

  lemma IndexSteps(b: nat, k: nat)
    requires k < Pow2(b)
    ensures b > 0 ==> k / 2 < Pow2(b - 1) && NodeIndex(b, k) > 0
    ensures b > 0 ==> (NodeIndex(b, k) - 1) / 2 == NodeIndex(b - 1, k / 2)
    ensures b > 0 ==> XorOne(NodeIndex(b, k) - 1) + 1 == NodeIndex(b, Buddy(k))
    ensures 2 * NodeIndex(b, k) + 1 == NodeIndex(b + 1, 2 * k)
    ensures b == 0 ==> NodeIndex(b, k) == 0
  {
    assert b > 0 ==> Pow2(b) == 2 * Pow2(b - 1);
  }

  lemma IndexZero(b: nat, k: nat)
    requires k < Pow2(b) && NodeIndex(b, k) == 0
    ensures b == 0 && k == 0
  {
    IndexSteps(b, k);
    assert Pow2(0) == 1;
  }

  lemma IndexInjective(b: nat, k: nat, c: nat, j: nat)
    requires k < Pow2(b) && j < Pow2(c) && NodeIndex(b, k) == NodeIndex(c, j)
    ensures b == c && k == j
  {
    if b < c {
      Pow2Monotone(b + 1, c);
    } else if c < b {
      Pow2Monotone(c + 1, b);
    }
  }

  lemma Eighth(x: nat, p: nat, q: nat)
    requires p == 8 * q && x < p
    ensures x / 8 < p / 8
  {
  }

  lemma IndexBelow(n: nat, b: nat, k: nat)
    requires b < n && 3 <= n && k < Pow2(b)
    ensures NodeIndex(b, k) / 8 < Pow2(n) / 8
  {
    Pow2Monotone(b + 1, n);
    assert Pow2(n) == 2 * Pow2(n - 1) && Pow2(n - 1) == 2 * Pow2(n - 2) && Pow2(n - 2) == 2 * Pow2(n - 3);
    Eighth(NodeIndex(b, k), Pow2(n), Pow2(n - 3));
  }

  lemma IndexRange(b: nat, k: nat)
    requires b < LAST_BUCKET && k < Pow2(b)
    ensures NodeIndex(b, k) / 8 < FLAG_BYTES
  {
    hide NodeIndex;
    IndexBelow(LAST_BUCKET, b, k);
  }

  // What the flag of node (b, k) has to be: at or below the root, the exclusive-or of its
  // children's free flags; just above the root, whether the root is in use; elsewhere 0.
  function ExpectedFlag(a: State, b: nat, k: nat): bool {
    if b >= a.limit then IsFree(a, b + 1, 2 * k) != IsFree(a, b + 1, 2 * k + 1)
    else b + 1 == a.limit && k == 0 && !IsFree(a, a.limit, 0)
  }

  ghost predicate FlagsMatch(s: seq<bv8>, a: State) {
    && |s| == FLAG_BYTES
    && forall b: nat, k: nat :: b < LAST_BUCKET && k < Pow2(b) ==> Flag(s, NodeIndex(b, k)) == ExpectedFlag(a, b, k)
  }

  lemma Halves(i: nat, p: nat)
    requires 0 < i && i + 1 < 2 * p
    ensures (i - 1) / 2 + 1 < p && i == 2 * ((i - 1) / 2) + (if i % 2 == 1 then 1 else 2)
  {
  }

  lemma ChildIndex(b: nat, k: nat)
    requires k < Pow2(b)
    ensures 2 * k + 1 < Pow2(b + 1)
    ensures NodeIndex(b + 1, 2 * k) == 2 * NodeIndex(b, k) + 1 && NodeIndex(b + 1, 2 * k + 1) == 2 * NodeIndex(b, k) + 2
  {
    assert Pow2(b + 1) == 2 * Pow2(b);
  }

  // Every flag in use belongs to a node ...
  lemma {:induction false} NodeOf(i: nat, n: nat) returns (b: nat, k: nat)
    requires i + 1 < Pow2(n)
    ensures b < n && k < Pow2(b) && NodeIndex(b, k) == i
    decreases i
  {
    if i == 0 {
      b, k := 0, 0;
      FirstIndex(n);
    } else {
      HalfRange(n);
      hide Pow2, NodeIndex;
      Halves(i, Pow2(n - 1));
      b, k := NodeOf((i - 1) / 2, n - 1);
      ChildIndex(b, k);
      b, k := b + 1, if i % 2 == 1 then 2 * k else 2 * k + 1;
    }
  }

  lemma FirstIndex(n: nat)
    requires 1 < Pow2(n)
    ensures 0 < n && 0 < Pow2(0) && NodeIndex(0, 0) == 0
  {
  }

  lemma HalfRange(n: nat)
    requires 1 < Pow2(n)
    ensures 0 < n && Pow2(n) == 2 * Pow2(n - 1)
  {
  }

  // ... so the tree determines all flags.
  lemma FlagsDetermined(s: seq<bv8>, t: seq<bv8>, a: State, i: nat)
    requires FlagsMatch(s, a) && FlagsMatch(t, a) && i + 1 < Pow2(LAST_BUCKET)
    ensures Flag(s, i) == Flag(t, i)
  {
    hide Flag, ExpectedFlag, Pow2;
    var b, k := NodeOf(i, LAST_BUCKET);
  }

  // The free leaves of `a'` are those of `a`, except that (b, k) is free in just one of them.
  ghost predicate Toggled(a: State, a': State, b: nat, k: nat) {
    && a.limit == a'.limit <= b
    && k < Pow2(b - a.limit)
    && forall c: nat, j: nat :: IsFree(a', c, j) == if c == b && j == k then !IsFree(a, c, j) else IsFree(a, c, j)
  }

  lemma ToggledFlag(a: State, a': State, b: nat, k: nat, c: nat, j: nat)
    requires Toggled(a, a', b, k)
    ensures ExpectedFlag(a', c, j) == if c + 1 == b && j == k / 2 then !ExpectedFlag(a, c, j) else ExpectedFlag(a, c, j)
  {
    if c >= a.limit {
      assert 2 * j == k || 2 * j + 1 == k <==> j == k / 2;
    }
  }

  // The expectations of `a` and `a'` differ at node (p, q) only.
  ghost predicate DifferAt(a: State, a': State, p: nat, q: nat) {
    forall c: nat, j: nat :: ExpectedFlag(a', c, j) ==
      if c == p && j == q then !ExpectedFlag(a, c, j) else ExpectedFlag(a, c, j)
  }

  lemma FlipMatches(s: seq<bv8>, a: State, a': State, p: nat, q: nat)
    requires FlagsMatch(s, a) && DifferAt(a, a', p, q) && p < LAST_BUCKET && q < Pow2(p)
    ensures NodeIndex(p, q) / 8 < |s|
    ensures FlagsMatch(Flipped(s, NodeIndex(p, q)), a')
  {
    hide Flag, Flipped;
    IndexRange(p, q);
    var i := NodeIndex(p, q);
    forall c: nat, j: nat | c < LAST_BUCKET && j < Pow2(c)
      ensures Flag(Flipped(s, i), NodeIndex(c, j)) == ExpectedFlag(a', c, j)
    {
      FlippedFlag(s, i, NodeIndex(c, j));
      if NodeIndex(c, j) == i {
        IndexInjective(p, q, c, j);
      }
    }
  }

  // A leaf that becomes free, or stops being free, changes its parent's flag.
  lemma ToggledDiffer(a: State, a': State, b: nat, k: nat)
    requires Toggled(a, a', b, k) && b > 0
    ensures DifferAt(a, a', b - 1, k / 2)
  {
    forall c: nat, j: nat
      ensures ExpectedFlag(a', c, j) ==
              if c == b - 1 && j == k / 2 then !ExpectedFlag(a, c, j) else ExpectedFlag(a, c, j)
    {
      ToggledFlag(a, a', b, k, c, j);
    }
  }

  // At bucket 0 there is no parent and no flag changes.
  lemma ToggledTop(a: State, a': State)
    requires Toggled(a, a', 0, 0)
    ensures forall c: nat, j: nat :: ExpectedFlag(a', c, j) == ExpectedFlag(a, c, j)
  {
  }

  lemma SameFlags(s: seq<bv8>, a: State, a': State)
    requires FlagsMatch(s, a) && forall c: nat, j: nat :: ExpectedFlag(a', c, j) == ExpectedFlag(a, c, j)
    ensures FlagsMatch(s, a')
  {
  }

  lemma DoubleFlag(a: State, c: nat, j: nat)
    requires Inv(a) && a.limit > 0
    ensures ExpectedFlag(Double(a), c, j) ==
            if !a.tree.Free? && c + 2 == a.limit && j == 0 then !ExpectedFlag(a, c, j) else ExpectedFlag(a, c, j)
  {
    DoubleLeaves(a);
    if IsFree(a, c + 1, 2 * j) {
      LeafRange(a, c + 1, 2 * j);
    }
    if IsFree(a, c + 1, 2 * j + 1) {
      LeafRange(a, c + 1, 2 * j + 1);
    }
  }

  // Growing the tree changes the flag above the new root if the old root is in use.
  lemma DoubleFlags(a: State)
    requires Inv(a) && a.limit > 0
    ensures a.tree.Free? || a.limit == 1 ==>
              forall c: nat, j: nat :: ExpectedFlag(Double(a), c, j) == ExpectedFlag(a, c, j)
    ensures !a.tree.Free? && a.limit > 1 ==> DifferAt(a, Double(a), a.limit - 2, 0)
  {
    forall c: nat, j: nat
      ensures ExpectedFlag(Double(a), c, j) ==
              if !a.tree.Free? && c + 2 == a.limit && j == 0 then !ExpectedFlag(a, c, j) else ExpectedFlag(a, c, j)
    {
      DoubleFlag(a, c, j);
    }
  }

  // The flag that lower_bucket_limit looks at tells whether the root is in use.
  lemma RootFlag(s: seq<bv8>, a: State)
    requires FlagsMatch(s, a) && Inv(a) && a.limit > 0
    ensures NodeIndex(a.limit, 0) > 0
    ensures Flag(s, (NodeIndex(a.limit, 0) - 1) / 2) == !a.tree.Free?
  {
    hide Flag, Flipped;
    IndexSteps(a.limit, 0);
    assert Pow2(0) == 1 && IsFree(a, a.limit, 0) == a.tree.Free?;
  }

  // The test in free, after the flip, tells whether the buddy is a whole free block.
  lemma BuddyFlag(s: seq<bv8>, a: State, b: nat, k: nat)
    requires FlagsMatch(s, a) && IsFree(a, b, k) && 0 < b < BUCKET_COUNT && k < Pow2(b - a.limit)
    ensures k < Pow2(b) && NodeIndex(b, k) > 0
    ensures Flag(s, (NodeIndex(b, k) - 1) / 2) || b == a.limit <==> b == a.limit || !IsFree(a, b, Buddy(k))
  {
    hide Flag, Flipped;
    Pow2Monotone(b - a.limit, b);
    IndexSteps(b, k);
    assert k == 2 * (k / 2) || k == 2 * (k / 2) + 1;
  }

  // Which leaf each step frees or takes.

  lemma TakeToggled(a: State, b: nat)
    requires Inv(a) && b < BUCKET_COUNT && a.lists[b] != []
    ensures a.limit <= b && Toggled(a, Take(a, b), b, a.lists[b][|a.lists[b]| - 1])
  {
    TakeLeaves(a, b);
    LeafRange(a, b, a.lists[b][|a.lists[b]| - 1]);
  }

  lemma DropToggled(a: State, b: nat, k: nat)
    requires Busy(a, b, k)
    ensures a.limit <= b < BUCKET_COUNT && k < Pow2(b - a.limit)
    ensures Toggled(a, Drop(a, b, k), b, k)
  {
    LeafRange(a, b, k);
    SetLeaves(a, b, k, Free, Drop(a, b, k));
  }

  lemma CommitFlags(a: State, b: nat, k: nat, request: nat)
    requires Busy(a, b, k)
    ensures a.limit <= b
    ensures forall c: nat, j: nat :: ExpectedFlag(Commit(a, b, k, request), c, j) == ExpectedFlag(a, c, j)
  {
    hide Pow2, LeafAt, Put, Listed, Coalesced, Sized, Shape;
    SetLeaves(a, b, k, Used(request), Commit(a, b, k, request));
  }

  lemma ReclaimFlags(a: State, b: nat, k: nat, request: nat)
    requires Quiet(a) && UsedAt(a, b, k, request)
    ensures a.limit <= b
    ensures forall c: nat, j: nat :: ExpectedFlag(Reclaim(a, b, k), c, j) == ExpectedFlag(a, c, j)
  {
    hide Pow2, LeafAt, Put, Listed, Coalesced, Sized, Shape;
    SetLeaves(a, b, k, Held, Reclaim(a, b, k));
  }

  lemma HalveToggled(a: State, b: nat, k: nat)
    requires Busy(a, b, k) && b + 1 < BUCKET_COUNT
    ensures a.limit <= b && Toggled(a, Halve(a, b, k), b + 1, 2 * k + 1)
  {
    LeafRange(a, b, k);
    HalveLeaves(a, b, k);
    NoLeafBelow(a, b, k);
    assert Pow2(b + 1 - a.limit) == 2 * Pow2(b - a.limit);
  }

  lemma MergeToggled(a: State, b: nat, k: nat)
    requires Busy(a, b, k) && a.limit < b < BUCKET_COUNT && IsFree(a, b, Buddy(k))
    ensures Toggled(a, Merge(a, b, k), b, Buddy(k)) && Buddy(k) / 2 == k / 2
  {
    LeafRange(a, b, Buddy(k));
    MergeInv(a, b, k);
    MergeLeaves(a, b, k);
    assert Leaf(a, b - 1, k / 2).Some? ==> Leaf(a, b, k).None? by {
      if Leaf(a, b - 1, k / 2).Some? {
        NoLeafBelow(a, b - 1, k / 2);
      }
    }
  }
}
