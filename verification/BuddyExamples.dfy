// The first calls of malloc on a new heap, in numbers.
module BuddyExamples {
  import opened Options
  import opened Numbers
  import opened BuddyTree
  import opened BuddyState
  import opened BuddySpec
  import opened FreeLists
  import opened BuddyBreak
  import opened BuddyHeap

  // 8 bytes and the header fill a smallest block, of 16 bytes; one byte more takes 32.
  lemma SmallBlocks()
    ensures BucketFor(8) == 27 && BucketFor(9) == 26 && Size(27) == 16 && Size(26) == 32
    ensures Gross(8) == 16 <= Size(0) && Gross(9) == 17 <= Size(0)
  {
  }

  function NoLists(): seq<seq<nat>> {
    seq(28, b => [])
  }

  function OneBlock(): State {
    State(27, Used(8), NoLists())
  }

  function TwoBlocks(): State {
    State(26, Split(Used(8), Used(8)), NoLists())
  }

  lemma FirstBlock()
    ensures Malloced(Initial(), 8) == (OneBlock(), Some(0))
  {
    hide Size;
    SmallBlocks();
    var a := Initial();
    assert GrowTo(a, 27) == a && Fit(a, 27) == Some(27);
    assert Take(a, 27) == State(27, Held, NoLists());
    assert Malloced(a, 8) == (Carve(a, 27, 8), Some(Leftmost(27, 0, 27)));
  }

  // The range doubles, and the right half is handed out.
  lemma SecondBlock()
    ensures Malloced(OneBlock(), 8) == (TwoBlocks(), Some(1))
  {
    hide Size;
    SmallBlocks();
    var a := OneBlock();
    assert GrowTo(a, 27) == a && Fit(a, 26).None? && Fit(a, 27).None?;
    var g := Double(a);
    assert a.lists[27] + [1] == [1];
    assert g.tree == Split(Used(8), Free) && g.lists == NoLists()[27 := [1]];
    assert Prepare(a, 27) == g && Fit(g, 27) == Some(27);
    assert Take(g, 27) == State(26, Split(Used(8), Held), NoLists());
    assert Malloced(a, 8) == (Carve(g, 27, 8), Some(Leftmost(27, 1, 27)));
  }

  lemma BlockEnds(y: Layout, v: int)
    ensures Addr(y, 27, 0) == y.base && Addr(y, 27, 1) == y.base + 16
    ensures Reserved(y, OneBlock(), v) <==> y.base + 16 <= v
    ensures Reserved(y, TwoBlocks(), v) <==> y.base + 32 <= v
    ensures AtEnd(y, OneBlock(), v) <==> v == y.base + 16
    ensures AtEnd(y, TwoBlocks(), v) <==> v == y.base + 16 || v == y.base + 32
  {
    hide Addr, Size;
    SmallBlocks();
    OffsetOf(y, 0);
    OffsetOf(y, 1);
    var a, c := OneBlock(), TwoBlocks();
    assert Leaf(a, 27, 0) == Some(Used(8));
    assert Leaf(c, 27, 0) == Some(Used(8)) && Leaf(c, 27, 1) == Some(Used(8));
    forall b: nat, k: nat
      ensures Leaf(a, b, k).Some? ==> b == 27 && k == 0
      ensures Leaf(c, b, k).Some? ==> b == 27 && k < 2
    {
      TwoLeaves(b, k);
    }
    assert NeedEnd(y, a, 27, 0) == y.base + 16;
    assert NeedEnd(y, c, 27, 0) == y.base + 16 && NeedEnd(y, c, 27, 1) == y.base + 32;
  }

  lemma OffsetOf(y: Layout, k: nat)
    ensures Addr(y, 27, k) == y.base + k * 16
  {
    SmallBlocks();
  }

  lemma TwoLeaves(b: nat, k: nat)
    ensures Leaf(OneBlock(), b, k).Some? ==> b == 27 && k == 0
    ensures Leaf(TwoBlocks(), b, k).Some? ==> b == 27 && k < 2
  {
    if b > 27 {
      NoneBelow(b - 27, k);
      NoneBelow(b - 27, k - Pow2(b - 27));
    } else if b == 27 {
      assert Pow2(0) == 1;
      NoneBelow(0, k - 1);
    }
  }

  lemma NoneBelow(d: nat, k: int)
    ensures 0 <= k && (d > 0 || k > 0) ==> LeafAt(Used(8), d, k) == None
  {
  }

  // Two requests of 8 bytes get the bytes behind the headers of two blocks of 16 bytes at the
  // start of the heap, and the break ends where the second block does.
  method TwoCalls(heads: nat, start: nat, granted: nat) returns (p: nat, q: nat, end: nat)
    requires LayoutOk(Layout(heads, start)) && granted >= start + 32
    ensures p == start + 8 && q == start + 24 && end == start + 32
  {
    hide Malloced, LayoutOk, Reserved, AtEnd, Addr, Size, Quiet, BucketFor;
    ghost var y := Layout(heads, start);
    SmallBlocks();
    FirstBlock();
    SecondBlock();
    BlockEnds(y, granted);
    var h := new Heap(heads, start, granted);
    p := h.Malloc(8);
    BlockEnds(y, h.maxPtr);
    q := h.Malloc(8);
    BlockEnds(y, h.maxPtr);
    end := h.maxPtr;
  }

  // ------------------------------------------------------------------ a split

  function LargerBlock(): State {
    State(26, Used(9), NoLists())
  }

  function LargerAndSmaller(): State {
    State(25, Split(Used(9), Split(Used(8), Free)), NoLists()[27 := [3]])
  }

  // The range doubles over a free root.
  lemma FirstLarger()
    ensures Malloced(Initial(), 9) == (LargerBlock(), Some(0))
  {
    hide Size;
    SmallBlocks();
    var a := Initial();
    var g := Double(a);
    assert g.tree == Free && g.lists == NoLists()[26 := [0]];
    assert GrowTo(g, 26) == g == GrowTo(a, 26) && Fit(g, 26) == Some(26);
    assert Take(g, 26) == State(26, Held, NoLists());
    assert Malloced(a, 9) == (Carve(g, 26, 9), Some(Leftmost(26, 0, 26)));
  }

  // The range doubles over a used root, and its right half is split.
  lemma ThenSmaller()
    ensures Malloced(LargerBlock(), 8) == (LargerAndSmaller(), Some(2))
  {
    hide Size;
    SmallBlocks();
    var a := LargerBlock();
    assert GrowTo(a, 27) == a && Fit(a, 25).None? && Fit(a, 26).None? && Fit(a, 27).None?;
    var g := Double(a);
    assert a.lists[26] + [1] == [1];
    assert g.tree == Split(Used(9), Free) && g.lists == NoLists()[26 := [1]];
    assert Fit(g, 26) == Some(26) && Prepare(a, 27) == g && Fit(g, 27) == Some(26);
    var h := Take(g, 26);
    assert h == State(25, Split(Used(9), Held), NoLists());
    assert h.lists[27] + [3] == [3];
    assert HalveTo(h, 26, 1, 27) == State(25, Split(Used(9), Split(Held, Free)), NoLists()[27 := [3]]);
    assert Leftmost(26, 1, 27) == 2;
    assert Malloced(a, 8) == (Carve(g, 26, 8), Some(2));
  }

  lemma SplitEnds(y: Layout, v: int)
    ensures Addr(y, 26, 0) == y.base && Addr(y, 27, 2) == y.base + 32
    ensures Reserved(y, LargerBlock(), v) <==> y.base + 32 <= v
    ensures Reserved(y, LargerAndSmaller(), v) <==> y.base + 56 <= v
    ensures AtEnd(y, LargerBlock(), v) <==> v == y.base + 32
    ensures AtEnd(y, LargerAndSmaller(), v) <==> v == y.base + 32 || v == y.base + 48 || v == y.base + 56
  {
    hide Addr, Size;
    SmallBlocks();
    OffsetOf(y, 2);
    OffsetOf(y, 3);
    FirstOffset(y);
    var a, c := LargerBlock(), LargerAndSmaller();
    forall b: nat, k: nat
      ensures Leaf(a, b, k) == if b == 26 && k == 0 then Some(Used(9)) else None
      ensures Leaf(c, b, k) ==
                if b == 26 && k == 0 then Some(Used(9))
                else if b == 27 && k == 2 then Some(Used(8))
                else if b == 27 && k == 3 then Some(Free)
                else None
    {
      ThreeLeaves(b, k);
    }
    assert Leaf(a, 26, 0).Some? && NeedEnd(y, a, 26, 0) == y.base + 32;
    assert Leaf(c, 26, 0).Some? && NeedEnd(y, c, 26, 0) == y.base + 32;
    assert Leaf(c, 27, 2).Some? && NeedEnd(y, c, 27, 2) == y.base + 48;
    assert Leaf(c, 27, 3).Some? && NeedEnd(y, c, 27, 3) == y.base + 56;
  }

  lemma FirstOffset(y: Layout)
    ensures Addr(y, 26, 0) == y.base
  {
  }

  lemma ThreeLeaves(b: nat, k: nat)
    ensures Leaf(LargerBlock(), b, k) == if b == 26 && k == 0 then Some(Used(9)) else None
    ensures Leaf(LargerAndSmaller(), b, k) ==
              if b == 26 && k == 0 then Some(Used(9))
              else if b == 27 && k == 2 then Some(Used(8))
              else if b == 27 && k == 3 then Some(Free)
              else None
  {
    var c := LargerAndSmaller().tree;
    Single(9, b - 26, k);
    if b >= 26 {
      Single(9, b - 26, k - Pow2(b - 26));
      Pair(b - 26, k - Pow2(b - 26));
      Pair(b - 26, k);
      assert LeafAt(c, b - 25, k) == if k < Pow2(b - 26) then LeafAt(c.left, b - 26, k)
                                     else LeafAt(c.right, b - 26, k - Pow2(b - 26));
      assert b == 27 ==> Pow2(b - 26) == 2;
    }
  }

  lemma Single(r: nat, d: int, k: int)
    ensures 0 <= d && 0 <= k ==> LeafAt(Used(r), d, k) == if d == 0 && k == 0 then Some(Used(r)) else None
  {
  }

  lemma Pair(d: int, k: int)
    ensures 0 <= d && 0 <= k ==>
              LeafAt(Split(Used(8), Free), d, k) ==
              if d == 1 && k == 0 then Some(Used(8)) else if d == 1 && k == 1 then Some(Free) else None
  {
    if d >= 1 && k >= 0 {
      Single(8, d - 1, k);
      assert d == 1 ==> Pow2(d - 1) == 1;
      assert d > 1 && k >= Pow2(d - 1) ==> LeafAt(Free, d - 1, k - Pow2(d - 1)) == None;
    }
  }

  // 9 bytes and then 8: the second block lies behind the 32 bytes of the first, and the break ends
  // with the list node, of 8 bytes, of the other half.
  method LargerThenSmaller(heads: nat, start: nat, granted: nat) returns (p: nat, q: nat, end: nat)
    requires LayoutOk(Layout(heads, start)) && granted >= start + 56
    ensures p == start + 8 && q == start + 40 && end == start + 56
  {
    hide Malloced, LayoutOk, Reserved, AtEnd, Addr, Size, Quiet, BucketFor;
    ghost var y := Layout(heads, start);
    SmallBlocks();
    FirstLarger();
    ThenSmaller();
    SplitEnds(y, granted);
    var h := new Heap(heads, start, granted);
    p := h.Malloc(9);
    SplitEnds(y, h.maxPtr);
    q := h.Malloc(8);
    SplitEnds(y, h.maxPtr);
    end := h.maxPtr;
  }
}
