// The binary tree that spans the heap's address range (heap_buddy_system_evanw.c:4-15).
// A node is named by its depth `d` below the root and its position `k` among the
// 2^d nodes of that depth, counted from the left.
module BuddyTree {
  import opened Numbers
  import opened Options

  // Held is a block that is on no free list and carries no header: the block that
  // malloc is carving, or the block that free is merging upward.
  datatype Tree = Free | Held | Used(request: nat) | Split(left: Tree, right: Tree)

  function Pow2(n: nat): (p: nat)
    ensures p >= 1
  {
    if n == 0 then 1 else 2 * Pow2(n - 1)
  }

  lemma {:induction false} Pow2Sum(m: nat, n: nat)
    ensures Pow2(m + n) == Pow2(m) * Pow2(n)
  {
    if m == 0 {
    } else {
      Pow2Sum(m - 1, n);
      assert Pow2(m) * Pow2(n) == 2 * (Pow2(m - 1) * Pow2(n));
    }
  }

  lemma {:induction false} Pow2Monotone(m: nat, n: nat)
    requires m <= n
    ensures Pow2(m) <= Pow2(n)
  {
    if m == n {
    } else {
      Pow2Monotone(m, n - 1);
    }
  }

  // The leaf at (d, k), if that node exists and is a leaf.
  function LeafAt(t: Tree, d: nat, k: nat): Option<Tree> {
    if d == 0 then
      if k == 0 && !t.Split? then Some(t) else None
    else if !t.Split? then None
    else if k < Pow2(d - 1) then LeafAt(t.left, d - 1, k)
    else LeafAt(t.right, d - 1, k - Pow2(d - 1))
  }

  // The tree with the node at (d, k) replaced by `s`.
  function Put(t: Tree, d: nat, k: nat, s: Tree): Tree {
    if d == 0 then s
    else if !t.Split? then t
    else if k < Pow2(d - 1) then Split(Put(t.left, d - 1, k, s), t.right)
    else Split(t.left, Put(t.right, d - 1, k - Pow2(d - 1), s))
  }

  // No leaf is deeper than `n`.
  predicate Shape(t: Tree, n: nat) {
    t.Split? ==> n > 0 && Shape(t.left, n - 1) && Shape(t.right, n - 1)
  }

  function Buddy(k: nat): nat {
    if k % 2 == 0 then k + 1 else k - 1
  }

  lemma {:induction false} LeafBounds(t: Tree, n: nat, d: nat, k: nat)
    requires Shape(t, n) && LeafAt(t, d, k).Some?
    ensures d <= n && k < Pow2(d)
    decreases d
  {
    if d == 0 {
    } else {
      if k < Pow2(d - 1) {
        LeafBounds(t.left, n - 1, d - 1, k);
      } else {
        LeafBounds(t.right, n - 1, d - 1, k - Pow2(d - 1));
      }
    }
  }

  // What replacing one node does to every leaf of the tree: a leaf for a leaf.
  lemma {:induction false} PutLeaf(t: Tree, d: nat, k: nat, s: Tree, e: nat, j: nat)
    requires LeafAt(t, d, k).Some? && !s.Split?
    ensures LeafAt(Put(t, d, k, s), e, j) == if e == d && j == k then Some(s) else LeafAt(t, e, j)
    decreases d
  {
    if d == 0 || e == 0 {
    } else {
      if k < Pow2(d - 1) {
        if j < Pow2(e - 1) { PutLeaf(t.left, d - 1, k, s, e - 1, j); }
      } else if j >= Pow2(e - 1) {
        PutLeaf(t.right, d - 1, k - Pow2(d - 1), s, e - 1, j - Pow2(e - 1));
      }
    }
  }

  // ... two leaves for one ...
  lemma {:induction false} PutSplit(t: Tree, d: nat, k: nat, x: Tree, y: Tree, e: nat, j: nat)
    requires LeafAt(t, d, k).Some? && !x.Split? && !y.Split?
    ensures LeafAt(Put(t, d, k, Split(x, y)), e, j) ==
            if e == d && j == k then None
            else if e == d + 1 && j == 2 * k then Some(x)
            else if e == d + 1 && j == 2 * k + 1 then Some(y)
            else LeafAt(t, e, j)
    decreases d
  {
    if d == 0 {
      if e > 1 {
        assert !x.Split? && !y.Split?;
      }
    } else if e > 0 {
      if k < Pow2(d - 1) {
        if j < Pow2(e - 1) { PutSplit(t.left, d - 1, k, x, y, e - 1, j); }
      } else if j >= Pow2(e - 1) {
        PutSplit(t.right, d - 1, k - Pow2(d - 1), x, y, e - 1, j - Pow2(e - 1));
      }
    }
  }

  // ... and one leaf for two.
  lemma {:induction false} PutJoin(t: Tree, d: nat, k: nat, s: Tree, e: nat, j: nat)
    requires LeafAt(t, d + 1, 2 * k).Some? && LeafAt(t, d + 1, 2 * k + 1).Some? && !s.Split?
    ensures LeafAt(Put(t, d, k, s), e, j) ==
            if e == d && j == k then Some(s)
            else if e == d + 1 && (j == 2 * k || j == 2 * k + 1) then None
            else LeafAt(t, e, j)
    decreases d
  {
    if d == 0 {
      assert Pow2(0) == 1;
    } else if e > 0 {
      if k < Pow2(d - 1) {
        if j < Pow2(e - 1) { PutJoin(t.left, d - 1, k, s, e - 1, j); }
      } else {
        assert 2 * k + 1 - Pow2(d) == 2 * (k - Pow2(d - 1)) + 1;
        if j >= Pow2(e - 1) {
          PutJoin(t.right, d - 1, k - Pow2(d - 1), s, e - 1, j - Pow2(e - 1));
        }
      }
    }
  }

  lemma {:induction false} PutPut(t: Tree, d: nat, k: nat, s: Tree, s': Tree)
    ensures Put(Put(t, d, k, s), d, k, s') == Put(t, d, k, s')
    decreases d
  {
    if d == 0 || !t.Split? {
    } else {
      if k < Pow2(d - 1) {
        PutPut(t.left, d - 1, k, s, s');
      } else {
        PutPut(t.right, d - 1, k - Pow2(d - 1), s, s');
      }
    }
  }

  lemma {:induction false} PutSame(t: Tree, d: nat, k: nat)
    requires LeafAt(t, d, k).Some?
    ensures Put(t, d, k, LeafAt(t, d, k).value) == t
    decreases d
  {
    if d == 0 {
    } else {
      if k < Pow2(d - 1) {
        PutSame(t.left, d - 1, k);
      } else {
        PutSame(t.right, d - 1, k - Pow2(d - 1));
      }
    }
  }

  lemma {:induction false} PutShape(t: Tree, n: nat, d: nat, k: nat, s: Tree)
    requires Shape(t, n) && d <= n && Shape(s, n - d)
    ensures Shape(Put(t, d, k, s), n)
    decreases d
  {
    if d == 0 || !t.Split? {
    } else {
      if k < Pow2(d - 1) {
        PutShape(t.left, n - 1, d - 1, k, s);
      } else {
        PutShape(t.right, n - 1, d - 1, k - Pow2(d - 1), s);
      }
    }
  }

  // A new root above the old one keeps the position of every old node.
  lemma GrowLeaf(t: Tree, d: nat, k: nat)
    ensures LeafAt(Split(t, Free), 0, k).None?
    ensures LeafAt(Split(t, Free), d + 1, k) ==
            if k < Pow2(d) then LeafAt(t, d, k) else if d == 0 && k == 1 then Some(Free) else None
  {
  }

  // Tiling. In a tree over 2^m bytes the block at (d, k) starts at k * 2^(m-d).
  function Start(m: nat, d: nat, k: nat): nat
    requires d <= m
  {
    k * Pow2(m - d)
  }

  predicate Holds(m: nat, d: nat, k: nat, x: nat)
    requires d <= m
  {
    Start(m, d, k) <= x < Start(m, d, k) + Pow2(m - d)
  }

  lemma StartRight(m: nat, d: nat, k: nat)
    requires 1 <= d <= m
    ensures Start(m, d, Pow2(d - 1)) == Pow2(m - 1)
    ensures k >= Pow2(d - 1) ==> Start(m, d, k) == Pow2(m - 1) + Start(m - 1, d - 1, k - Pow2(d - 1))
    ensures k < Pow2(d - 1) ==> Start(m, d, k) + Pow2(m - d) <= Pow2(m - 1)
  {
    Pow2Sum(d - 1, m - d);
    var p, q := Pow2(d - 1), Pow2(m - d);
    if k >= p {
      MulSum(p, k - p, q);
    } else {
      MulSum(k, 1, q);
      MulLe(k + 1, p, q);
    }
  }

  // Every byte of the range lies in a leaf.
  lemma {:induction false} Locate(t: Tree, n: nat, m: nat, x: nat) returns (d: nat, k: nat)
    requires Shape(t, n) && n <= m && x < Pow2(m)
    ensures d <= n && LeafAt(t, d, k).Some? && Holds(m, d, k, x)
    decreases n
  {
    if !t.Split? {
      d, k := 0, 0;
    } else if x < Pow2(m - 1) {
      d, k := Locate(t.left, n - 1, m - 1, x);
      LeafBounds(t.left, n - 1, d, k);
      d := d + 1;
    } else {
      d, k := Locate(t.right, n - 1, m - 1, x - Pow2(m - 1));
      d, k := d + 1, k + Pow2(d);
      StartRight(m, d, k);
    }
  }

  // No two leaves overlap.
  lemma {:induction false} LeavesApart(t: Tree, n: nat, m: nat, d: nat, k: nat, e: nat, j: nat)
    requires Shape(t, n) && n <= m
    requires LeafAt(t, d, k).Some? && LeafAt(t, e, j).Some? && (d != e || k != j)
    ensures d <= m && e <= m
    ensures Start(m, d, k) + Pow2(m - d) <= Start(m, e, j) || Start(m, e, j) + Pow2(m - e) <= Start(m, d, k)
    decreases n
  {
    LeafBounds(t, n, d, k);
    LeafBounds(t, n, e, j);
    if d == 0 || e == 0 {
    } else {
      StartRight(m, d, k);
      StartRight(m, e, j);
      if k < Pow2(d - 1) {
        if j < Pow2(e - 1) {
          LeavesApart(t.left, n - 1, m - 1, d - 1, k, e - 1, j);
        }
      } else if j >= Pow2(e - 1) {
        LeavesApart(t.right, n - 1, m - 1, d - 1, k - Pow2(d - 1), e - 1, j - Pow2(e - 1));
      }
    }
  }

  lemma {:induction false} LeafInside(t: Tree, n: nat, m: nat, d: nat, k: nat)
    requires Shape(t, n) && n <= m && LeafAt(t, d, k).Some?
    ensures d <= n && Start(m, d, k) + Pow2(m - d) <= Pow2(m)
  {
    LeafBounds(t, n, d, k);
    Pow2Sum(d, m - d);
    MulSum(k, 1, Pow2(m - d));
    MulLe(k + 1, Pow2(d), Pow2(m - d));
  }
}
