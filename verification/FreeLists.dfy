// Circular doubly linked free lists threaded through memory
// (heap_buddy_system_evanw.c:67-85, 172-217). A list node at address `n` is two words:
// the previous node's address at `n` and the next node's address at `n + 4`.
module FreeLists {
  import opened Numbers
  import opened BuddyTree
  import opened BuddyState
  import opened BuddySpec
  import opened WordMemory

  const NODE_SIZE: nat := 8

  function Prev(m: Memory, n: int): int { Read(m, n) }
  function Next(m: Memory, n: int): int { Read(m, n + 4) }

  function Pushed(m: Memory, list: int, entry: int): Memory {
    var prev := Prev(m, list);
    m[entry := prev][entry + 4 := list][prev + 4 := entry][list := entry]
  }

  function Removed(m: Memory, entry: int): Memory {
    var prev, next := Prev(m, entry), Next(m, entry);
    m[prev + 4 := next][next := prev]
  }

  function Initialised(m: Memory, list: int): Memory {
    m[list := list][list + 4 := list]
  }

  lemma InitialisedPrev(m: Memory, list: int)
    ensures Prev(Initialised(m, list), list) == list
  {
  }

  predicate Joined(m: Memory, c: seq<int>, i: nat)
    requires i < |c|
  {
    Next(m, c[i]) == c[After(i, |c|)] && Prev(m, c[After(i, |c|)]) == c[i]
  }

  // The nodes of `c`, in order, form one closed cycle in both directions.
  ghost predicate Ring(m: Memory, c: seq<int>) {
    c != [] && forall i :: 0 <= i < |c| ==> Joined(m, c, i)
  }

  // Two nodes do not share a byte.
  predicate Far(x: int, y: int) {
    x + NODE_SIZE <= y || y + NODE_SIZE <= x
  }

  ghost predicate Spread(c: seq<int>) {
    forall i, j :: 0 <= i < j < |c| ==> Far(c[i], c[j])
  }

  ghost predicate AllFar(c: seq<int>, d: seq<int>) {
    forall i, j :: 0 <= i < |c| && 0 <= j < |d| ==> Far(c[i], d[j])
  }

  // Only words of nodes of `c` differ.
  ghost predicate OnlyNodes(m: Memory, m': Memory, c: seq<int>) {
    forall x :: (forall i :: 0 <= i < |c| ==> x != c[i] && x != c[i] + 4) ==> Read(m', x) == Read(m, x)
  }

  lemma RingEnds(m: Memory, c: seq<int>)
    requires Ring(m, c)
    ensures Prev(m, c[0]) == c[|c| - 1]
  {
    assert Joined(m, c, |c| - 1);
  }

  lemma FarInside(c: seq<int>, i: nat, j: nat)
    requires Spread(c) && i < |c| && j < |c| && i != j
    ensures Far(c[i], c[j])
  {
  }

  lemma RingPushAt(m: Memory, c: seq<int>, x: int, i: nat)
    requires Ring(m, c) && Spread(c + [x]) && i <= |c|
    ensures Joined(Pushed(m, c[0], x), c + [x], i)
  {
    RingEnds(m, c);
    var d, n := c + [x], |c|;
    assert d[n] == x && d[0] == c[0] && d[n - 1] == c[n - 1];
    FarInside(d, 0, n);
    FarInside(d, n - 1, n);
    if i < n - 1 {
      assert d[i] == c[i] && d[i + 1] == c[i + 1] && After(i, n) == i + 1;
      assert Joined(m, c, i);
      FarInside(d, i, n);
      FarInside(d, i + 1, n);
      FarInside(d, i, n - 1);
      FarInside(d, 0, i + 1);
      if i > 0 { FarInside(d, 0, i); }
      if i + 1 < n - 1 { FarInside(d, i + 1, n - 1); }
    } else if i == n - 1 && n > 1 {
      FarInside(d, 0, n - 1);
    }
  }

  lemma RingPush(m: Memory, c: seq<int>, x: int)
    requires Ring(m, c) && Spread(c + [x])
    ensures Ring(Pushed(m, c[0], x), c + [x]) && OnlyNodes(m, Pushed(m, c[0], x), c + [x])
  {
    RingEnds(m, c);
    var d := c + [x];
    assert d[|c|] == x && d[0] == c[0] && d[|c| - 1] == c[|c| - 1];
    forall i | 0 <= i < |d|
      ensures Joined(Pushed(m, c[0], x), d, i)
    {
      RingPushAt(m, c, x, i);
    }
  }

  // The neighbours of position `r`, and the ring without it.
  lemma RingRemoveAt(m: Memory, c: seq<int>, r: nat, o: nat)
    requires Ring(m, c) && Spread(c) && 0 < r < |c| && o < |c| && o != r
    ensures var a := After(o, |c|);
            var a' := if a == r then After(r, |c|) else a;
            Next(Removed(m, c[r]), c[o]) == c[a'] && Prev(Removed(m, c[r]), c[a']) == c[o]
  {
    var n, q, a := |c|, After(r, |c|), After(o, |c|);
    assert Joined(m, c, r - 1) && Joined(m, c, r) && Joined(m, c, o);
    if o != r - 1 { FarInside(c, o, r - 1); }
    if o != q { FarInside(c, o, q); }
    if a != q { FarInside(c, a, q); }
    if a != r - 1 { FarInside(c, a, r - 1); }
    if q != r - 1 { FarInside(c, q, r - 1); }
  }

  lemma RingRemove(m: Memory, c: seq<int>, r: nat)
    requires Ring(m, c) && Spread(c) && 0 < r < |c|
    ensures Ring(Removed(m, c[r]), c[..r] + c[r + 1..]) && OnlyNodes(m, Removed(m, c[r]), c)
  {
    assert Joined(m, c, r - 1) && Joined(m, c, r);
    var d := c[..r] + c[r + 1..];
    forall i | 0 <= i < |d|
      ensures Joined(Removed(m, c[r]), d, i)
    {
      RingRemoveAt(m, c, r, if i < r then i else i + 1);
    }
  }

  lemma RingFrame(m: Memory, m': Memory, c: seq<int>, d: seq<int>)
    requires Ring(m, d) && OnlyNodes(m, m', c) && AllFar(c, d)
    ensures Ring(m', d)
  {
    forall j | 0 <= j < |d|
      ensures Read(m', d[j]) == Read(m, d[j]) && Read(m', d[j] + 4) == Read(m, d[j] + 4)
    {
      assert forall i :: 0 <= i < |c| ==> Far(c[i], d[j]);
    }
    forall i | 0 <= i < |d|
      ensures Joined(m', d, i)
    {
      assert Joined(m, d, i);
    }
  }

  // ------------------------------------------------------------------ the heap's lists

  // Where the list heads and the heap lie in the 32-bit address space.
  datatype Layout = Layout(heads: nat, base: nat)

  predicate LayoutOk(y: Layout) {
    0 < y.heads && y.heads + NODE_SIZE * BUCKET_COUNT <= y.base && y.base + Size(0) < WORD
  }

  function Head(y: Layout, b: nat): int {
    y.heads + NODE_SIZE * b
  }

  function Addr(y: Layout, b: nat, k: nat): int
    requires b <= MAX_ALLOC_LOG2
  {
    y.base + Offset(b, k)
  }

  function Chain(y: Layout, b: nat, ks: seq<nat>): seq<int>
    requires b <= MAX_ALLOC_LOG2
  {
    [Head(y, b)] + seq(|ks|, i requires 0 <= i < |ks| => Addr(y, b, ks[i]))
  }

  // The list of every bucket from `lo` on is in memory.
  ghost predicate Linked(y: Layout, m: Memory, a: State, lo: nat)
    requires |a.lists| == BUCKET_COUNT
  {
    forall b :: lo <= b < BUCKET_COUNT ==> Ring(m, Chain(y, b, a.lists[b]))
  }

  // Every used block starts with its request.
  ghost predicate Headed(y: Layout, m: Memory, a: State) {
    forall b: nat, k: nat, r: nat :: UsedAt(a, b, k, r) && b < BUCKET_COUNT ==> Read(m, Addr(y, b, k)) == r
  }

  // The words of every used block, header and payload, are the same in both memories.
  ghost predicate Kept(y: Layout, m: Memory, m': Memory, a: State) {
    forall b: nat, k: nat, r: nat, x: int {:trigger UsedAt(a, b, k, r), Read(m', x)} ::
      UsedAt(a, b, k, r) && b < BUCKET_COUNT && Addr(y, b, k) <= x <= Addr(y, b, k) + Size(b) - 4 ==>
        Read(m', x) == Read(m, x)
  }

  lemma KeptHeaded(y: Layout, m: Memory, m': Memory, a: State)
    requires Kept(y, m, m', a) && Headed(y, m, a)
    ensures Headed(y, m', a)
  {
    forall b: nat, k: nat, r: nat | UsedAt(a, b, k, r) && b < BUCKET_COUNT
      ensures Read(m', Addr(y, b, k)) == r
    {
      SizeAtLeast(b);
    }
  }

  lemma KeptTwice(y: Layout, m: Memory, m': Memory, m'': Memory, a: State, a': State)
    requires Kept(y, m, m', a) && Kept(y, m', m'', a')
    requires forall b: nat, k: nat, r: nat :: UsedAt(a, b, k, r) ==> UsedAt(a', b, k, r)
    ensures Kept(y, m, m'', a)
  {
  }

  // Changing the tree and the lists without touching a used block.
  lemma KeptSame(y: Layout, m: Memory, m': Memory, a: State, a': State)
    requires SameUsed(a, a')
    ensures Kept(y, m, m', a) ==> Kept(y, m, m', a')
    ensures Headed(y, m', a) ==> Headed(y, m', a')
  {
  }

  lemma LeafFar(y: Layout, a: State, b: nat, k: nat, c: nat, j: nat)
    requires Inv(a) && Leaf(a, b, k).Some? && Leaf(a, c, j).Some? && (b != c || k != j)
    ensures b < BUCKET_COUNT && c < BUCKET_COUNT && Far(Addr(y, b, k), Addr(y, c, j))
  {
    BlocksApart(a, b, k, c, j);
    SizeAtLeast(b);
    SizeAtLeast(c);
  }

  lemma HeadFar(y: Layout, b: nat, c: nat, j: nat)
    requires LayoutOk(y) && b < BUCKET_COUNT && c < BUCKET_COUNT
    ensures Far(Head(y, b), Addr(y, c, j))
    ensures b != c ==> Far(Head(y, b), Head(y, c))
  {
  }

  lemma ChainSpread(y: Layout, a: State, b: nat)
    requires LayoutOk(y) && Inv(a) && b < BUCKET_COUNT
    ensures Spread(Chain(y, b, a.lists[b]))
  {
    var s := a.lists[b];
    var c := Chain(y, b, s);
    forall i, j | 0 <= i < j < |c|
      ensures Far(c[i], c[j])
    {
      assert s[j - 1] in s && IsFree(a, b, s[j - 1]);
      if i == 0 {
        HeadFar(y, b, b, s[j - 1]);
      } else {
        assert s[i - 1] in s && IsFree(a, b, s[i - 1]);
        LeafFar(y, a, b, s[i - 1], b, s[j - 1]);
      }
    }
  }

  lemma ChainsFar(y: Layout, a: State, b: nat, e: nat)
    requires LayoutOk(y) && Inv(a) && b < BUCKET_COUNT && e < BUCKET_COUNT && b != e
    ensures AllFar(Chain(y, b, a.lists[b]), Chain(y, e, a.lists[e]))
  {
    var s, t := a.lists[b], a.lists[e];
    var c, d := Chain(y, b, s), Chain(y, e, t);
    forall i, j | 0 <= i < |c| && 0 <= j < |d|
      ensures Far(c[i], d[j])
    {
      if i > 0 {
        assert s[i - 1] in s && IsFree(a, b, s[i - 1]);
      }
      if j > 0 {
        assert t[j - 1] in t && IsFree(a, e, t[j - 1]);
      }
      if i == 0 {
        HeadFar(y, b, e, if j == 0 then 0 else t[j - 1]);
      } else if j == 0 {
        HeadFar(y, e, b, s[i - 1]);
      } else {
        LeafFar(y, a, b, s[i - 1], e, t[j - 1]);
      }
    }
  }

  // Writes to the nodes of one list leave the other lists and all headers alone.
  lemma ListFrame(y: Layout, m: Memory, m': Memory, a: State, b: nat)
    requires LayoutOk(y) && Inv(a) && b < BUCKET_COUNT && OnlyNodes(m, m', Chain(y, b, a.lists[b]))
    ensures forall e :: 0 <= e < BUCKET_COUNT && e != b && Ring(m, Chain(y, e, a.lists[e])) ==>
              Ring(m', Chain(y, e, a.lists[e]))
    ensures Kept(y, m, m', a)
  {
    var s := a.lists[b];
    var c := Chain(y, b, s);
    forall e | 0 <= e < BUCKET_COUNT && e != b && Ring(m, Chain(y, e, a.lists[e]))
      ensures Ring(m', Chain(y, e, a.lists[e]))
    {
      ChainsFar(y, a, b, e);
      RingFrame(m, m', c, Chain(y, e, a.lists[e]));
    }
    forall e: nat, k: nat, r: nat, x: int |
      UsedAt(a, e, k, r) && e < BUCKET_COUNT && Addr(y, e, k) <= x <= Addr(y, e, k) + Size(e) - 4
      ensures Read(m', x) == Read(m, x)
    {
      UsedAway(y, a, b, e, k, r, x);
    }
  }

  // No word of a used block belongs to a node of a free list.
  lemma UsedAway(y: Layout, a: State, b: nat, e: nat, k: nat, r: nat, x: int)
    requires LayoutOk(y) && Inv(a) && b < BUCKET_COUNT && e < BUCKET_COUNT && UsedAt(a, e, k, r)
    requires Addr(y, e, k) <= x <= Addr(y, e, k) + Size(e) - 4
    ensures forall i :: 0 <= i < |Chain(y, b, a.lists[b])| ==>
              x != Chain(y, b, a.lists[b])[i] && x != Chain(y, b, a.lists[b])[i] + 4
  {
    var s := a.lists[b];
    var c := Chain(y, b, s);
    forall i | 0 <= i < |c|
      ensures x != c[i] && x != c[i] + 4
    {
      if i == 0 {
        HeadFar(y, b, e, k);
      } else {
        assert s[i - 1] in s && IsFree(a, b, s[i - 1]);
        BlocksApart(a, b, s[i - 1], e, k);
        SizeAtLeast(b);
      }
    }
  }

  // list_push on a list of the heap.
  lemma PushLinks(y: Layout, m: Memory, a: State, a': State, b: nat, k: nat, lo: nat)
    requires LayoutOk(y) && Inv(a') && |a.lists| == BUCKET_COUNT && lo <= b < BUCKET_COUNT
    requires a'.lists == a.lists[b := a.lists[b] + [k]]
    requires Linked(y, m, a, lo)
    ensures Linked(y, Pushed(m, Head(y, b), Addr(y, b, k)), a', lo)
    ensures Kept(y, m, Pushed(m, Head(y, b), Addr(y, b, k)), a')
  {
    var m' := Pushed(m, Head(y, b), Addr(y, b, k));
    var c := Chain(y, b, a.lists[b]);
    assert Chain(y, b, a'.lists[b]) == c + [Addr(y, b, k)];
    ChainSpread(y, a', b);
    RingPush(m, c, Addr(y, b, k));
    ListFrame(y, m, m', a', b);
    forall e | lo <= e < BUCKET_COUNT
      ensures Ring(m', Chain(y, e, a'.lists[e]))
    {
      assert Ring(m, Chain(y, e, a.lists[e]));
    }
  }

  // list_remove of the entry at position `i` of a list of the heap.
  lemma RemoveLinks(y: Layout, m: Memory, a: State, a': State, b: nat, i: nat, lo: nat)
    requires LayoutOk(y) && Inv(a) && lo <= b < BUCKET_COUNT && i < |a.lists[b]|
    requires a'.lists == a.lists[b := a.lists[b][..i] + a.lists[b][i + 1..]]
    requires Linked(y, m, a, lo)
    ensures Linked(y, Removed(m, Addr(y, b, a.lists[b][i])), a', lo)
    ensures Kept(y, m, Removed(m, Addr(y, b, a.lists[b][i])), a)
  {
    var m' := Removed(m, Addr(y, b, a.lists[b][i]));
    var c := Chain(y, b, a.lists[b]);
    assert Chain(y, b, a'.lists[b]) == c[..i + 1] + c[i + 2..];
    ChainSpread(y, a, b);
    RingRemove(m, c, i + 1);
    ListFrame(y, m, m', a, b);
    forall e | lo <= e < BUCKET_COUNT
      ensures Ring(m', Chain(y, e, a'.lists[e]))
    {
      assert Ring(m, Chain(y, e, a.lists[e]));
    }
  }

  // list_init on the head of the next larger bucket.
  lemma InitLinks(y: Layout, m: Memory, a: State, lo: nat)
    requires LayoutOk(y) && |a.lists| == BUCKET_COUNT && 0 < lo <= BUCKET_COUNT && a.lists[lo - 1] == []
    requires Linked(y, m, a, lo)
    ensures Linked(y, Initialised(m, Head(y, lo - 1)), a, lo - 1)
    ensures Kept(y, m, Initialised(m, Head(y, lo - 1)), a)
  {
    var h := Head(y, lo - 1);
    var m' := Initialised(m, h);
    forall x | forall i :: 0 <= i < |[h]| ==> x != [h][i] && x != [h][i] + 4
      ensures Read(m', x) == Read(m, x)
    {
      assert [h][0] == h;
    }
    forall e | lo <= e < BUCKET_COUNT
      ensures Ring(m', Chain(y, e, a.lists[e]))
    {
      RingFrame(m, m', [h], Chain(y, e, a.lists[e]));
    }
    assert Ring(m', [h]);
    assert Chain(y, lo - 1, []) == [h];
  }

  // The header word of a held block belongs to no list and to no other used block.
  lemma CommitLinks(y: Layout, m: Memory, a: State, b: nat, k: nat, request: nat)
    requires LayoutOk(y) && Busy(a, b, k) && b < BUCKET_COUNT && Linked(y, m, a, a.limit) && Headed(y, m, a)
    requires b == BucketFor(request) && Gross(request) <= Size(0)
    ensures a.limit <= b
    ensures var m' := m[Addr(y, b, k) := request];
            Linked(y, m', Commit(a, b, k, request), a.limit) && Headed(y, m', Commit(a, b, k, request)) &&
            Kept(y, m, m', a)
  {
    hide Pow2, Offset, Shape, Ring;
    CommitInv(a, b, k, request);
    var x := Addr(y, b, k);
    var m' := m[x := request];
    assert OnlyNodes(m, m', [x]) by {
      forall z | forall i :: 0 <= i < |[x]| ==> z != [x][i] && z != [x][i] + 4
        ensures Read(m', z) == Read(m, z)
      {
        assert [x][0] == x;
      }
    }
    forall e | a.limit <= e < BUCKET_COUNT
      ensures Ring(m', Chain(y, e, a.lists[e]))
    {
      HeldFar(y, a, b, k, e);
      RingFrame(m, m', [x], Chain(y, e, a.lists[e]));
    }
    forall e: nat, j: nat, r: nat, z: int |
      UsedAt(a, e, j, r) && e < BUCKET_COUNT && Addr(y, e, j) <= z <= Addr(y, e, j) + Size(e) - 4
      ensures Read(m', z) == Read(m, z)
    {
      BlocksApart(a, b, k, e, j);
      SizeAtLeast(b);
    }
    KeptHeaded(y, m, m', a);
  }

  lemma HeldFar(y: Layout, a: State, b: nat, k: nat, e: nat)
    requires LayoutOk(y) && Busy(a, b, k) && b < BUCKET_COUNT && e < BUCKET_COUNT
    ensures AllFar([Addr(y, b, k)], Chain(y, e, a.lists[e]))
  {
    var s := a.lists[e];
    forall j | 0 <= j < |Chain(y, e, s)|
      ensures Far(Addr(y, b, k), Chain(y, e, s)[j])
    {
      if j == 0 {
        HeadFar(y, e, b, k);
      } else {
        assert s[j - 1] in s && IsFree(a, e, s[j - 1]);
        LeafFar(y, a, b, k, e, s[j - 1]);
      }
    }
  }
}
