// malloc and free (heap_buddy_system_evanw.c:139-170, 225-527) over word memory, packed
// flags and a break that the environment may refuse to move. The class keeps the concrete
// data in step with the abstract state.
module BuddyHeap {
  import opened Numbers
  import opened Options
  import opened BuddyTree
  import opened BuddyState
  import opened BuddySpec
  import opened BuddyBits
  import opened SplitBits
  import opened FreeLists
  import opened BuddyBreak
  import opened WordMemory

  // A single free block of the smallest size: the heap before and right after its first use.
  function Initial(): State {
    State(LAST_BUCKET, Free, seq(BUCKET_COUNT, b => if b == LAST_BUCKET then [0] else []))
  }

  lemma MulDiv(k: nat, n: nat)
    requires n > 0
    ensures (k * n) / n == k
  {
    var q, r := (k * n) / n, (k * n) % n;
    assert k * n == q * n + r;
    if q < k {
      MulLe(q + 1, k, n);
      MulSum(q, 1, n);
    } else if q > k {
      MulLe(k + 1, q, n);
      MulSum(k, 1, n);
    }
  }

  lemma InitialQuiet()
    ensures Quiet(Initial())
  {
  }

  lemma InitialFlags(s: seq<bv8>)
    requires |s| == FLAG_BYTES && forall i :: 0 <= i < |s| ==> s[i] == 0
    ensures FlagsMatch(s, Initial())
  {
  }

  lemma InitialReserved(y: Layout, maxPtr: int)
    ensures Reserved(y, Initial(), maxPtr) <==> y.base + NODE_SIZE <= maxPtr
  {
    var a := Initial();
    assert forall b: nat, k: nat :: Leaf(a, b, k) == if b == LAST_BUCKET && k == 0 then Some(Free) else None;
    assert Leaf(a, LAST_BUCKET, 0) == Some(Free) && Offset(LAST_BUCKET, 0) == 0;
  }

  class Heap {
    var mem: Memory
    const nodeIsSplit: array<bv8>
    var bucketLimit: nat
    var basePtr: nat
    var maxPtr: nat
    const heads: nat     // address of `buckets`
    var heapEnd: nat     // the break
    const granted: nat   // the environment never refuses a break up to here
    ghost var state: State
    ghost var refusals: nat

    ghost function Y(): Layout
      reads this
    {
      Layout(heads, basePtr)
    }

    // Where the heap lies, or will lie.
    ghost function HeapLayout(): Layout
      reads this
    {
      Layout(heads, if basePtr == 0 then heapEnd else basePtr)
    }

    // The lists, the headers and the break agree with `a`.
    ghost predicate InMemory(a: State)
      reads this
    {
      && LayoutOk(Y())
      && bucketLimit == a.limit
      && |a.lists| == BUCKET_COUNT
      && Linked(Y(), mem, a, a.limit)
      && Headed(Y(), mem, a)
      && Reserved(Y(), a, maxPtr)
      && maxPtr == heapEnd
    }

    ghost predicate InFlags(a: State)
      reads nodeIsSplit
    {
      nodeIsSplit.Length == FLAG_BYTES && FlagsMatch(nodeIsSplit[..], a)
    }

    ghost predicate Valid()
      reads this, nodeIsSplit
    {
      && Quiet(state)
      && InFlags(state)
      && if basePtr == 0 then
           state == Initial() && LayoutOk(Layout(heads, heapEnd)) && granted >= heapEnd + NODE_SIZE
         else InMemory(state)
    }

    // Whether malloc may be called depends on the environment; see FirstExtension.
    constructor (heads: nat, heapStart: nat, granted: nat)
      requires LayoutOk(Layout(heads, heapStart))
      ensures granted >= heapStart + NODE_SIZE ==> Valid()
      ensures state == Initial() && basePtr == 0 && refusals == 0
      ensures this.heads == heads && this.granted == granted && heapEnd == heapStart && fresh(nodeIsSplit)
    {
      this.heads := heads;
      this.granted := granted;
      nodeIsSplit := new bv8[FLAG_BYTES](_ => 0);
      mem, bucketLimit, basePtr, maxPtr, heapEnd := map[], 0, 0, 0, heapStart;
      state, refusals := Initial(), 0;
      new;
      InitialQuiet();
      InitialFlags(nodeIsSplit[..]);
    }

    // A word that may be read or written: in the list heads, or in the heap below the break.
    ghost predicate Mapped(x: int)
      reads this
    {
      (heads <= x && x + 4 <= heads + NODE_SIZE * BUCKET_COUNT) || (basePtr <= x && x + 4 <= maxPtr)
    }

    ghost predicate MappedNode(n: int)
      reads this
    {
      Mapped(n) && Mapped(n + 4)
    }

    function Load(x: int): int
      requires Mapped(x)
      reads this
    {
      Read(mem, x)
    }

    method Store(x: int, v: int)
      requires Mapped(x)
      modifies this`mem
      ensures mem == old(mem)[x := v]
    {
      mem := mem[x := v];
    }

    // The environment (paging.c:6-20, which itself never refuses).
    method Brk(addr: nat) returns (rc: int)
      modifies this`heapEnd, this`refusals
      ensures rc == 0 ==> heapEnd == addr && refusals == old(refusals)
      ensures rc != 0 ==> heapEnd == old(heapEnd) && refusals == old(refusals) + 1 && addr > granted
    {
      var refuse: bool := *;
      if refuse && addr > granted {
        refusals := refusals + 1;
        rc := -1;
      } else {
        heapEnd := addr;
        rc := 0;
      }
    }

    method UpdateMaxPtr(newValue: nat) returns (ok: bool)
      requires newValue < WORD
      modifies this`heapEnd, this`refusals, this`maxPtr
      ensures ok ==> maxPtr == (if newValue > old(maxPtr) then newValue else old(maxPtr)) && refusals == old(refusals)
      ensures ok && old(maxPtr == heapEnd) ==> maxPtr == heapEnd
      ensures !ok ==> maxPtr == old(maxPtr) < newValue && heapEnd == old(heapEnd) && refusals == old(refusals) + 1
      ensures !ok ==> newValue > granted
    {
      if newValue > maxPtr {
        var rc := Brk(newValue);
        if rc != 0 {
          return false;
        }
        maxPtr := newValue;
      }
      return true;
    }

    // The same, with the heap in memory before and after.
    method Extend(newValue: nat, ghost a: State) returns (ok: bool)
      requires InMemory(a) && newValue <= basePtr + Size(0)
      modifies this`heapEnd, this`refusals, this`maxPtr
      ensures InMemory(a)
      ensures ok ==> maxPtr == (if newValue > old(maxPtr) then newValue else old(maxPtr)) && refusals == old(refusals)
      ensures !ok ==> maxPtr == old(maxPtr) < newValue && refusals == old(refusals) + 1 && granted < newValue
    {
      hide Linked, Headed, Reserved, Size;
      ok := UpdateMaxPtr(newValue);
      ReservedMore(Y(), a, old(maxPtr), maxPtr);
    }

    method ListInit(list: int)
      requires MappedNode(list)
      modifies this`mem
      ensures mem == Initialised(old(mem), list)
    {
      Store(list, list);
      Store(list + 4, list);
    }

    method ListPush(list: int, entry: int)
      requires MappedNode(list) && MappedNode(entry) && MappedNode(Prev(mem, list))
      modifies this`mem
      ensures mem == Pushed(old(mem), list, entry)
    {
      var prev := Load(list);
      Store(entry, prev);
      Store(entry + 4, list);
      Store(prev + 4, entry);
      Store(list, entry);
    }

    method ListRemove(entry: int)
      requires MappedNode(entry) && MappedNode(Prev(mem, entry)) && MappedNode(Next(mem, entry))
      modifies this`mem
      ensures mem == Removed(old(mem), entry)
    {
      var prev := Load(entry);
      var next := Load(entry + 4);
      Store(prev + 4, next);
      Store(next, prev);
    }

    // 0 stands for NULL.
    method ListPop(list: int) returns (entry: int)
      requires MappedNode(list) && MappedNode(Prev(mem, list))
      requires Prev(mem, list) != list ==>
                 MappedNode(Prev(mem, Prev(mem, list))) && MappedNode(Next(mem, Prev(mem, list)))
      modifies this`mem
      ensures old(Prev(mem, list)) == list ==> entry == 0 && mem == old(mem)
      ensures old(Prev(mem, list)) != list ==> entry == old(Prev(mem, list)) && mem == Removed(old(mem), entry)
    {
      var back := Load(list);
      if back == list {
        return 0;
      }
      ListRemove(back);
      return back;
    }

    // ---------------------------------------------------------------- node arithmetic

    function PtrForNode(index: nat, bucket: nat): int
      requires bucket < BUCKET_COUNT
      reads this
    {
      basePtr + (index - Pow2(bucket) + 1) * Pow2(MAX_ALLOC_LOG2 - bucket)
    }

    function NodeForPtr(ptr: int, bucket: nat): int
      requires bucket < BUCKET_COUNT
      reads this
    {
      (ptr - basePtr) / Pow2(MAX_ALLOC_LOG2 - bucket) + Pow2(bucket) - 1
    }

    lemma NodePtr(b: nat, k: nat)
      requires b < BUCKET_COUNT
      ensures PtrForNode(NodeIndex(b, k), b) == Addr(Y(), b, k) && NodeIndex(b, k + 1) == NodeIndex(b, k) + 1
      ensures NodeForPtr(Addr(Y(), b, k), b) == NodeIndex(b, k)
      ensures k == 0 ==> Addr(Y(), b, k) == basePtr
    {
      MulDiv(k, Size(b));
    }

    method ParentIsSplit(index: nat) returns (r: bool)
      requires index > 0 && (index - 1) / 2 / 8 < nodeIsSplit.Length
      ensures r == Flag(nodeIsSplit[..], (index - 1) / 2)
    {
      var i := (index - 1) / 2;
      r := (nodeIsSplit[i / 8] >> (i % 8)) & 1 == 1;
    }

    method FlipParentIsSplit(index: nat)
      requires index > 0 && (index - 1) / 2 / 8 < nodeIsSplit.Length
      modifies nodeIsSplit
      ensures nodeIsSplit[..] == Flipped(old(nodeIsSplit[..]), (index - 1) / 2)
    {
      var i := (index - 1) / 2;
      nodeIsSplit[i / 8] := nodeIsSplit[i / 8] ^ (1 << (i % 8));
    }

    // The same flip, against the abstract state: `index` is a child of node (p, q).
    method FlipFlag(index: nat, ghost a: State, ghost a': State, ghost p: nat, ghost q: nat)
      requires InFlags(a) && DifferAt(a, a', p, q)
      requires p < LAST_BUCKET && q < Pow2(p) && index > 0 && (index - 1) / 2 == NodeIndex(p, q)
      modifies nodeIsSplit
      ensures InFlags(a')
    {
      hide Flag, Flipped, FlagsMatch, DifferAt;
      IndexRange(p, q);
      FlipMatches(nodeIsSplit[..], a, a', p, q);
      FlipParentIsSplit(index);
    }

    method BucketForRequest(request: nat) returns (bucket: nat)
      requires request <= Size(0)
      ensures bucket == BucketFrom(LAST_BUCKET, request)
      ensures bucket < BUCKET_COUNT
    {
      bucket := BUCKET_COUNT - 1;
      var size := Pow2(MIN_ALLOC_LOG2);
      while size < request
        invariant bucket < BUCKET_COUNT && size == Size(bucket)
        invariant BucketFrom(bucket, request) == BucketFrom(LAST_BUCKET, request)
      {
        assert bucket > 0;
        assert Pow2(MAX_ALLOC_LOG2 - (bucket - 1)) == 2 * Pow2(MAX_ALLOC_LOG2 - bucket);
        bucket := bucket - 1;
        size := size * 2;
      }
    }

    // ---------------------------------------------------------------- list nodes are mapped

    lemma HeadMapped(b: nat)
      requires b < BUCKET_COUNT && LayoutOk(Y())
      ensures MappedNode(Head(Y(), b))
    {
    }

    lemma ChainMapped(a: State, b: nat, i: nat)
      requires Inv(a) && b < BUCKET_COUNT && LayoutOk(Y()) && Reserved(Y(), a, maxPtr)
      requires i < |Chain(Y(), b, a.lists[b])|
      ensures MappedNode(Chain(Y(), b, a.lists[b])[i])
    {
      if i > 0 {
        assert a.lists[b][i - 1] in a.lists[b] && IsFree(a, b, a.lists[b][i - 1]);
      }
    }

    // What list_push on bucket `b` needs.
    lemma BackMapped(a: State, b: nat)
      requires Inv(a) && a.limit <= b < BUCKET_COUNT && LayoutOk(Y()) && Reserved(Y(), a, maxPtr)
      requires Linked(Y(), mem, a, a.limit)
      ensures MappedNode(Head(Y(), b)) && MappedNode(Prev(mem, Head(Y(), b)))
      ensures Prev(mem, Head(Y(), b)) == if a.lists[b] == [] then Head(Y(), b) else Addr(Y(), b, Back(a, b))
    {
      var c := Chain(Y(), b, a.lists[b]);
      RingEnds(mem, c);
      ChainMapped(a, b, 0);
      ChainMapped(a, b, |c| - 1);
    }

    // What list_remove of entry `i` of bucket `b` needs.
    lemma NeighboursMapped(a: State, b: nat, i: nat)
      requires Inv(a) && a.limit <= b < BUCKET_COUNT && LayoutOk(Y()) && Reserved(Y(), a, maxPtr)
      requires Linked(Y(), mem, a, a.limit) && i < |a.lists[b]|
      ensures MappedNode(Addr(Y(), b, a.lists[b][i]))
      ensures MappedNode(Prev(mem, Addr(Y(), b, a.lists[b][i]))) && MappedNode(Next(mem, Addr(Y(), b, a.lists[b][i])))
    {
      var c := Chain(Y(), b, a.lists[b]);
      assert c[i + 1] == Addr(Y(), b, a.lists[b][i]);
      assert Joined(mem, c, i) && Joined(mem, c, i + 1);
      ChainMapped(a, b, i);
      ChainMapped(a, b, i + 1);
      ChainMapped(a, b, After(i + 1, |c|));
    }

    // ---------------------------------------------------------------- growing the tree

    // The two branches of one doubling, in memory.
    lemma DoubleLinksFree(a: State, m1: Memory, m2: Memory)
      requires LayoutOk(Y()) && Quiet(a) && 0 < a.limit && |a.lists| == BUCKET_COUNT && a.tree.Free?
      requires Linked(Y(), mem, a, a.limit)
      requires m1 == Removed(mem, basePtr) && m2 == Initialised(m1, Head(Y(), a.limit - 1))
      ensures var m3 := Pushed(m2, Head(Y(), a.limit - 1), basePtr);
              Linked(Y(), m3, Double(a), a.limit - 1) && Kept(Y(), mem, m3, a)
    {
      hide Listed, Coalesced, Sized, NoHeld, Shape, Linked, Pow2;
      var l := a.limit;
      DoubleInv(a);
      RootList(a);
      EmptyAbove(a, l - 1);
      var a1 := a.(lists := a.lists[l := []]);
      assert a.lists[l] == [0] && IndexOf([0], 0) == 0;
      assert a.lists[l][..0] + a.lists[l][1..] == [];
      assert Without0(a.lists[l]) == [];
      assert Offset(l, 0) == 0 && Offset(l - 1, 0) == 0;
      RemoveLinks(Y(), mem, a, a1, l, 0, l);
      InitLinks(Y(), m1, a1, l);
      assert a1.lists[l - 1] + [0] == [0];
      assert Double(a).lists == a1.lists[l - 1 := a1.lists[l - 1] + [0]];
      PushLinks(Y(), m2, a1, Double(a), l - 1, 0, l - 1);
      assert Kept(Y(), mem, Pushed(m2, Head(Y(), l - 1), basePtr), a) by {
        assert SameUsed(a1, a) by {
          assert forall b: nat, k: nat, r: nat :: UsedAt(a1, b, k, r) <==> UsedAt(a, b, k, r);
        }
        KeptTwice(Y(), mem, m1, m2, a, a1);
        KeptTwice(Y(), mem, m2, Pushed(m2, Head(Y(), l - 1), basePtr), a, Double(a));
      }
    }

    lemma DoubleLinksUsed(a: State, m1: Memory)
      requires LayoutOk(Y()) && Quiet(a) && 0 < a.limit && !a.tree.Free?
      requires Linked(Y(), mem, a, a.limit)
      requires m1 == Pushed(mem, Head(Y(), a.limit), Addr(Y(), a.limit, 1))
      ensures var m2 := Initialised(m1, Head(Y(), a.limit - 1));
              Linked(Y(), m2, Double(a), a.limit - 1) && Kept(Y(), mem, m2, a)
    {
      var l := a.limit;
      DoubleInv(a);
      EmptyAbove(a, l - 1);
      assert Double(a).lists == a.lists[l := a.lists[l] + [1]];
      PushLinks(Y(), mem, a, Double(a), l, 1, l);
      InitLinks(Y(), m1, Double(a), l);
      KeptSame(Y(), mem, m1, Double(a), a);
      KeptTwice(Y(), mem, m1, Initialised(m1, Head(Y(), l - 1)), a, Double(a));
    }

    lemma EmptyAbove(a: State, b: nat)
      requires Inv(a) && b < a.limit
      ensures a.lists[b] == []
    {
      assert forall k: nat :: k in a.lists[b] <==> IsFree(a, b, k);
      assert forall k: nat :: !IsFree(a, b, k);
      EmptySeq(a.lists[b]);
    }

    method LowerBucketLimit(bucket: nat) returns (ok: bool)
      requires Valid() && basePtr != 0
      modifies this`mem, this`bucketLimit, this`maxPtr, this`heapEnd, this`state, this`refusals, nodeIsSplit
      ensures Valid() && maxPtr >= old(maxPtr) && Kept(Y(), old(mem), mem, old(state))
      ensures ok ==> state == GrowTo(old(state), bucket) && refusals == old(refusals)
      ensures !ok ==> bucket < state.limit <= old(state.limit) && state == GrowTo(old(state), state.limit)
      ensures !ok ==> refusals == old(refusals) + 1 && granted < basePtr + Size(0)
      ensures maxPtr == old(maxPtr) || (state.limit < old(state).limit && AtGrowth(Y(), state, maxPtr))
      ensures !ok ==> GrowthShort(Y(), state, granted)
    {
      while bucket < bucketLimit
        invariant Valid() && maxPtr >= old(maxPtr) && Kept(Y(), old(mem), mem, old(state))
        invariant refusals == old(refusals)
        invariant state.limit <= old(state.limit) && state == GrowTo(old(state), state.limit)
        invariant GrowTo(state, bucket) == GrowTo(old(state), bucket)
        invariant maxPtr == old(maxPtr) || (state.limit < old(state).limit && AtGrowth(Y(), state, maxPtr))
        decreases bucketLimit
      {
        ghost var m, g, w := mem, state, maxPtr;
        GrowOnce(old(state), g);
        GrowToInv(old(state), g.limit);
        var ok := DoubleOnce();
        KeptTwice(Y(), old(mem), m, mem, old(state), g);
        if !ok {
          return false;
        }
        GrowthStep(Y(), g, old(maxPtr), w, maxPtr);
      }
      return true;
    }

    lemma GrowOnce(a: State, g: State)
      requires Quiet(a) && g.limit <= a.limit && g == GrowTo(a, g.limit) && 0 < g.limit < |g.lists|
      ensures Double(g) == GrowTo(a, g.limit - 1)
    {
      GrowToResumes(a, g.limit, g.limit - 1);
    }

    // The body of the loop in lower_bucket_limit.
    method DoubleOnce() returns (ok: bool)
      requires Valid() && basePtr != 0 && bucketLimit > 0
      modifies this`mem, this`bucketLimit, this`maxPtr, this`heapEnd, this`state, this`refusals, nodeIsSplit
      ensures Valid() && maxPtr >= old(maxPtr) && Kept(Y(), old(mem), mem, old(state))
      ensures ok ==> state == Double(old(state)) && refusals == old(refusals)
      ensures !ok ==> state == old(state) && refusals == old(refusals) + 1 && granted < basePtr + Size(0)
      ensures ok ==> old(state).limit < BUCKET_COUNT &&
                     maxPtr == if old(state).tree.Free? then old(maxPtr)
                               else Max(old(maxPtr), GrowthEnd(Y(), old(state).limit))
      ensures !ok ==> maxPtr == old(maxPtr) && GrowthShort(Y(), state, granted)
    {
      hide Listed, Coalesced, Sized, NoHeld, Shape, LayoutOk, Linked, Headed, FlagsMatch, Reserved, Double, Pow2;
      hide Kept, SameUsed;
      hide PtrForNode, NodeForPtr, Offset, Flag, ExpectedFlag;
      NodePtr(bucketLimit, 0);
      var root := NodeForPtr(basePtr, bucketLimit);
      RootFlag(nodeIsSplit[..], state);
      IndexSteps(bucketLimit, 0);
      IndexRange(bucketLimit - 1, 0);
      DoubleInv(state);
      DoubleFlags(state);
      var split := ParentIsSplit(root);
      if !split {
        LinkNewRoot();
        SameFlags(nodeIsSplit[..], state, Double(state));
        state := Double(state);
        return true;
      }
      NodePtr(bucketLimit, 1);
      var rightChild := PtrForNode(root + 1, bucketLimit);
      ok := LinkRightChild(rightChild);
      if !ok {
        return false;
      }
      MarkRootInUse(root);
    }

    // Flag the new root's parent if there is one.
    method MarkRootInUse(oldRoot: nat)
      requires 0 < state.limit < |state.lists| == BUCKET_COUNT && Quiet(state) && InFlags(state)
      requires InMemory(Double(state)) && Quiet(Double(state))
      requires !state.tree.Free? && oldRoot == NodeIndex(state.limit, 0) && basePtr != 0
      modifies this`state, nodeIsSplit
      ensures Valid() && state == Double(old(state))
    {
      hide Inv, Sized, NoHeld, LayoutOk, Linked, Headed, Reserved, Double, FlagsMatch, ExpectedFlag, DifferAt;
      hide Pow2, NodeIndex;
      ghost var l := state.limit;
      DoubleFlags(state);
      IndexSteps(l, 0);
      IndexSteps(l - 1, 0);
      var root := (oldRoot - 1) / 2;
      if root != 0 {
        FlipFlag(root, state, Double(state), l - 2, 0);
      } else {
        SameFlags(nodeIsSplit[..], state, Double(state));
      }
      state := Double(state);
    }

    method LinkNewRoot()
      requires InMemory(state) && Quiet(state) && bucketLimit > 0 && state.tree.Free?
      modifies this`mem, this`bucketLimit
      ensures InMemory(Double(state)) && Kept(Y(), old(mem), mem, state)
    {
      hide Listed, Coalesced, Sized, NoHeld, Shape, LayoutOk, Linked, Headed, FlagsMatch, Reserved, Double, Pow2;
      hide Kept, SameUsed;
      hide Pushed, Removed, Initialised, Flipped, PtrForNode, NodeForPtr, Offset;
      ghost var a, l, m := state, bucketLimit, mem;
      DoubleInv(a);
      DoubleReserved(Y(), a, maxPtr);
      RootList(a);
      HeadMapped(l);
      HeadMapped(l - 1);
      NeighboursMapped(a, l, 0);
      NodePtr(l, 0);
      ghost var m1 := Removed(m, basePtr);
      ghost var m2 := Initialised(m1, Head(Y(), l - 1));
      DoubleLinksFree(a, m1, m2);
      KeptHeaded(Y(), m, Pushed(m2, Head(Y(), l - 1), basePtr), a);
      KeptSame(Y(), m, Pushed(m2, Head(Y(), l - 1), basePtr), a, Double(a));
      InitialisedPrev(m1, Head(Y(), l - 1));
      ListRemove(basePtr);
      bucketLimit := bucketLimit - 1;
      ListInit(heads + NODE_SIZE * bucketLimit);
      ListPush(heads + NODE_SIZE * bucketLimit, basePtr);
    }

    lemma RightChildInside(b: nat)
      requires 0 < b < BUCKET_COUNT
      ensures 0 <= Addr(Y(), b, 1) && Addr(Y(), b, 1) + NODE_SIZE <= basePtr + Size(0)
    {
      SizeAtLeast(b);
      Pow2Monotone(MAX_ALLOC_LOG2 - b + 1, MAX_ALLOC_LOG2);
    }

    method LinkRightChild(rightChild: int) returns (ok: bool)
      requires InMemory(state) && Quiet(state) && bucketLimit > 0 && !state.tree.Free?
      requires rightChild == Addr(Y(), bucketLimit, 1)
      modifies this`mem, this`bucketLimit, this`maxPtr, this`heapEnd, this`refusals
      ensures maxPtr >= old(maxPtr) && Kept(Y(), old(mem), mem, state)
      ensures ok ==> InMemory(Double(state)) && refusals == old(refusals)
      ensures ok ==> maxPtr == Max(old(maxPtr), rightChild + NODE_SIZE)
      ensures !ok ==> InMemory(state) && refusals == old(refusals) + 1 && granted < basePtr + Size(0)
      ensures !ok ==> maxPtr == old(maxPtr) && granted < rightChild + NODE_SIZE
    {
      hide Listed, Coalesced, Sized, NoHeld, Shape, LayoutOk, Linked, Headed, FlagsMatch, Reserved, Double, Pow2;
      hide Pushed, Removed, Initialised, Flipped, PtrForNode, NodeForPtr, Offset;
      ghost var a, l, m := state, bucketLimit, mem;
      RightChildInside(l);
      ok := Extend(rightChild + NODE_SIZE, a);
      if !ok {
        return false;
      }
      DoubleInv(a);
      DoubleReserved(Y(), a, maxPtr);
      HeadMapped(l);
      HeadMapped(l - 1);
      BackMapped(a, l);
      ghost var m1 := Pushed(m, Head(Y(), l), rightChild);
      DoubleLinksUsed(a, m1);
      KeptHeaded(Y(), m, Initialised(m1, Head(Y(), l - 1)), a);
      KeptSame(Y(), m, Initialised(m1, Head(Y(), l - 1)), a, Double(a));
      ListPush(heads + NODE_SIZE * bucketLimit, rightChild);
      bucketLimit := bucketLimit - 1;
      ListInit(heads + NODE_SIZE * bucketLimit);
    }

    // ---------------------------------------------------------------- malloc

    // list_push of a block: `a` becomes `a'`.
    method PushBlock(bucket: nat, ptr: int, ghost a: State, ghost a': State, ghost k: nat)
      requires InMemory(a) && Inv(a) && Inv(a') && SameUsed(a, a') && a.limit == a'.limit <= bucket < BUCKET_COUNT
      requires a'.lists == a.lists[bucket := a.lists[bucket] + [k]] && Reserved(Y(), a', maxPtr)
      requires ptr == Addr(Y(), bucket, k)
      modifies this`mem
      ensures InMemory(a') && Kept(Y(), old(mem), mem, a)
    {
      hide Coalesced, Shape, LayoutOk, Linked, Headed, Pow2, Pushed, Offset, Kept;
      BackMapped(a, bucket);
      assert k in a'.lists[bucket] && IsFree(a', bucket, k);
      PushLinks(Y(), mem, a, a', bucket, k, a.limit);
      KeptSame(Y(), mem, Pushed(mem, Head(Y(), bucket), ptr), a', a);
      KeptHeaded(Y(), mem, Pushed(mem, Head(Y(), bucket), ptr), a);
      KeptSame(Y(), mem, Pushed(mem, Head(Y(), bucket), ptr), a, a');
      ListPush(heads + NODE_SIZE * bucket, ptr);
    }

    // The same for the removal of the entry at position `i`.
    lemma RemoveInMemory(a: State, a': State, b: nat, i: nat)
      requires InMemory(a) && Inv(a) && SameUsed(a, a') && a.limit == a'.limit <= b < BUCKET_COUNT
      requires i < |a.lists[b]| && a'.lists == a.lists[b := a.lists[b][..i] + a.lists[b][i + 1..]]
      requires Reserved(Y(), a', maxPtr)
      ensures var m' := Removed(mem, Addr(Y(), b, a.lists[b][i]));
              Linked(Y(), m', a', a.limit) && Headed(Y(), m', a') && Kept(Y(), mem, m', a)
    {
      hide Listed, Coalesced, Shape, LayoutOk, Linked, Headed, Pow2, Removed, Offset, Kept, SameUsed;
      var m' := Removed(mem, Addr(Y(), b, a.lists[b][i]));
      RemoveLinks(Y(), mem, a, a', b, i, a.limit);
      KeptHeaded(Y(), mem, m', a);
      KeptSame(Y(), mem, m', a, a');
    }

    lemma PopApart(a: State, b: nat)
      requires LayoutOk(Y()) && b < |a.lists| && b < BUCKET_COUNT
      ensures a.lists[b] != [] ==> Addr(Y(), b, Back(a, b)) != Head(Y(), b) && Addr(Y(), b, Back(a, b)) > 0
    {
    }

    // list_pop on the free list of `bucket`.
    method PopBlock(bucket: nat) returns (ptr: int)
      requires InMemory(state) && Quiet(state) && basePtr != 0 && state.limit <= bucket < BUCKET_COUNT
      modifies this`mem
      ensures Kept(Y(), old(mem), mem, state)
      ensures state.lists[bucket] == [] ==> ptr == 0 && mem == old(mem) && InMemory(state)
      ensures state.lists[bucket] != [] ==>
                ptr == Addr(Y(), bucket, Back(state, bucket)) && ptr > 0 && InMemory(Take(state, bucket))
    {
      hide Listed, Coalesced, Sized, NoHeld, HeldAt, Shape, LayoutOk, Linked, Headed, Reserved, Pow2;
      hide Removed, Offset, SameUsed;
      ghost var a, s := state, state.lists[bucket];
      BackMapped(a, bucket);
      PopApart(a, bucket);
      if s != [] {
        TakeInv(a, bucket);
        TakeReserved(Y(), a, bucket, maxPtr);
        NeighboursMapped(a, bucket, |s| - 1);
        assert s[..|s| - 1] + s[|s|..] == s[..|s| - 1];
        RemoveInMemory(a, Take(a, bucket), bucket, |s| - 1);
      }
      ptr := ListPop(heads + NODE_SIZE * bucket);
    }

    // The flag for a block that malloc has taken off its free list.
    method FlipTaken(ptr: int, bucket: nat) returns (i: nat)
      requires LayoutOk(Y()) && InFlags(state) && Quiet(state) && state.limit <= bucket < BUCKET_COUNT == |state.lists|
      requires state.lists[bucket] != [] && ptr == Addr(Y(), bucket, Back(state, bucket))
      modifies nodeIsSplit
      ensures InFlags(Take(state, bucket))
      ensures i == NodeIndex(bucket, Back(state, bucket)) && Back(state, bucket) < Pow2(bucket)
    {
      hide Listed, Coalesced, Sized, NoHeld, Shape, LayoutOk, FlagsMatch, Flag, Flipped;
      hide PtrForNode, NodeForPtr, Offset, Toggled, DifferAt, ExpectedFlag, Take, NodeIndex, Pow2, Size, Addr;
      ghost var a, k := state, Back(state, bucket);
      TakeToggled(a, bucket);
      ToggledRange(a, Take(a, bucket), bucket, k);
      IndexSteps(bucket, k);
      NodePtr(bucket, k);
      i := NodeForPtr(ptr, bucket);
      if i != 0 {
        ToggledDiffer(a, Take(a, bucket), bucket, k);
        FlipFlag(i, a, Take(a, bucket), bucket - 1, k / 2);
      } else {
        ToggledTop(a, Take(a, bucket));
        SameFlags(nodeIsSplit[..], a, Take(a, bucket));
      }
    }

    lemma ToggledRange(a: State, a': State, b: nat, k: nat)
      requires Toggled(a, a', b, k)
      ensures k < Pow2(b) && (NodeIndex(b, k) == 0 ==> b == 0 && k == 0)
    {
      Pow2Monotone(b - a.limit, b);
      IndexSteps(b, k);
      assert Pow2(0) == 1;
    }

    lemma Halfway(b: nat, k: nat, target: nat)
      requires b < target < BUCKET_COUNT
      ensures Size(b + 1) == Size(b) / 2
      ensures Addr(Y(), b + 1, 2 * k) == Addr(Y(), b, k)
      ensures Addr(Y(), b + 1, 2 * k) + BytesNeeded(b + 1, target) <= Addr(Y(), b, k) + BytesNeeded(b, target)
      ensures BytesNeeded(b, target) >= Size(b + 1) + NODE_SIZE
    {
      ChildAddr(Y(), b, k);
    }

    // One round of the splitting loop: `i` is the left child of the held block (b, k).
    method SplitOnce(i: nat, bucket: nat, ghost a: State, ghost b: nat, ghost k: nat, ghost target: nat)
      requires InMemory(a) && InFlags(a) && Busy(a, b, k) && a.limit <= b < target < BUCKET_COUNT && k < Pow2(b)
      requires bucket == b + 1 && i == NodeIndex(b + 1, 2 * k)
      requires Addr(Y(), b, k) + BytesNeeded(b, target) <= maxPtr
      modifies this`mem, nodeIsSplit
      ensures InMemory(Halve(a, b, k)) && InFlags(Halve(a, b, k)) && Kept(Y(), old(mem), mem, a)
    {
      hide Listed, Coalesced, Sized, HeldAt, Shape, LayoutOk, Linked, Headed, Reserved, FlagsMatch, Flag;
      hide Inv, Put, Pow2, PtrForNode, Offset, Toggled, DifferAt, ExpectedFlag, BytesNeeded, Kept, SameUsed;
      hide Size, Addr, NodeIndex;
      HalveInv(a, b, k);
      HalveToggled(a, b, k);
      ToggledDiffer(a, Halve(a, b, k), b + 1, 2 * k + 1);
      Halfway(b, k, target);
      HalveReserved(Y(), a, b, k, maxPtr);
      IndexSteps(b, k);
      NodePtr(b + 1, 2 * k + 1);
      NodePtr(b + 1, 2 * k);
      FlipFlag(i, a, Halve(a, b, k), b, k);
      PushBlock(bucket, PtrForNode(i + 1, bucket), a, Halve(a, b, k), 2 * k + 1);
    }

    // Split the held block at node `index` down to `target`.
    method SplitDown(index: nat, bucket0: nat, target: nat, ghost a0: State, ghost k0: nat)
      requires InMemory(a0) && InFlags(a0) && Busy(a0, bucket0, k0) && a0.limit <= bucket0 <= target < BUCKET_COUNT
      requires index == NodeIndex(bucket0, k0) && k0 < Pow2(bucket0)
      requires Addr(Y(), bucket0, k0) + BytesNeeded(bucket0, target) <= maxPtr
      modifies this`mem, nodeIsSplit
      ensures InMemory(HalveTo(a0, bucket0, k0, target)) && InFlags(HalveTo(a0, bucket0, k0, target))
      ensures Kept(Y(), old(mem), mem, a0)
      ensures Addr(Y(), target, Leftmost(bucket0, k0, target)) == Addr(Y(), bucket0, k0)
      ensures Addr(Y(), bucket0, k0) + Size(target) <= maxPtr
    {
      hide Inv, Sized, HeldAt, LayoutOk, Linked, Headed, Reserved, FlagsMatch, Offset, BytesNeeded, Kept, Size, Addr;
      hide NodeIndex, Halve;
      var i, bucket := index, bucket0;
      ghost var a := a0;
      ghost var k: nat := k0;
      KeptNothing(a0);
      while bucket < target
        invariant bucket0 <= bucket <= target && a.limit == a0.limit && |a.lists| == |a0.lists|
        invariant InMemory(a) && InFlags(a) && Busy(a, bucket, k) && i == NodeIndex(bucket, k) && k < Pow2(bucket)
        invariant HalveTo(a, bucket, k, target) == HalveTo(a0, bucket0, k0, target)
        invariant Leftmost(bucket, k, target) == Leftmost(bucket0, k0, target)
        invariant Addr(Y(), bucket, k) == Addr(Y(), bucket0, k0)
        invariant Addr(Y(), bucket, k) + BytesNeeded(bucket, target) <= maxPtr
        invariant SameUsed(a0, a) && Kept(Y(), old(mem), mem, a0)
      {
        ghost var m := mem;
        IndexSteps(bucket, k);
        HalveInv(a, bucket, k);
        SameUsedTwice(a0, a, Halve(a, bucket, k));
        Halfway(bucket, k, target);
        i := i * 2 + 1;
        bucket := bucket + 1;
        SplitOnce(i, bucket, a, bucket - 1, k, target);
        KeptTwiceSame(old(mem), m, a0, a);
        a, k := Halve(a, bucket - 1, k), 2 * k;
      }
      assert BytesNeeded(target, target) == Size(target) by { NeedsAll(target); }
    }

    // A carved block needs no byte outside the range.
    lemma CarvedInside(g: State, b: nat, target: nat)
      requires Inv(g) && b < BUCKET_COUNT && g.lists[b] != []
      ensures Addr(Y(), b, Back(g, b)) + BytesNeeded(b, target) <= basePtr + Size(0)
    {
      var k := Back(g, b);
      assert k in g.lists[b] && IsFree(g, b, k);
      BlockInside(g, b, k);
      SizeAtLeast(b);
    }

    // Everything in malloc after a block of `bucket` has been popped.
    method CarveBlock(ptr: int, bucket: nat, originalBucket: nat, request: nat) returns (p: nat)
      requires basePtr != 0 && Quiet(state) && InFlags(state) && |state.lists| == BUCKET_COUNT
      requires Gross(request) <= Size(0) && originalBucket == BucketFor(request) < BUCKET_COUNT
      requires state.limit <= bucket <= originalBucket && state.lists[bucket] != []
      requires InMemory(Take(state, bucket)) && ptr == Addr(Y(), bucket, Back(state, bucket)) && ptr > 0
      modifies this`mem, this`maxPtr, this`heapEnd, this`state, this`refusals, nodeIsSplit
      ensures Valid() && maxPtr >= old(maxPtr) && Kept(Y(), old(mem), mem, old(state))
      ensures p != 0 ==> refusals == old(refusals) && state == Carve(old(state), bucket, request)
      ensures p != 0 ==>
                p == Addr(Y(), originalBucket, Leftmost(bucket, Back(old(state), bucket), originalBucket)) + HEADER_SIZE
      ensures p == 0 ==> refusals == old(refusals) + 1 && state == old(state) && granted < basePtr + Size(0)
      ensures p != 0 ==> maxPtr == Max(old(maxPtr), ptr + BytesNeeded(bucket, originalBucket))
      ensures p == 0 ==> maxPtr == old(maxPtr) && granted < ptr + BytesNeeded(bucket, originalBucket)
    {
      hide Inv, Sized, NoHeld, HeldAt, LayoutOk, Linked, Headed, Reserved, FlagsMatch, Offset, Kept, Addr;
      hide NodeIndex, Take, Drop, Commit, HalveTo, BucketFor, Gross, Leftmost;
      ghost var g, k, m := state, Back(state, bucket), mem;
      TakeInv(g, bucket);
      var size := Pow2(MAX_ALLOC_LOG2 - bucket);
      var bytesNeeded := if bucket < originalBucket then size / 2 + NODE_SIZE else size;
      CarvedInside(g, bucket, originalBucket);
      var ok := Extend(ptr + bytesNeeded, Take(g, bucket));
      if !ok {
        PutBack(bucket, ptr);
        return 0;
      }
      var i := FlipTaken(ptr, bucket);
      SplitDown(i, bucket, originalBucket, Take(g, bucket), k);
      HalveToInv(Take(g, bucket), bucket, k, originalBucket);
      ghost var h := HalveTo(Take(g, bucket), bucket, k, originalBucket);
      SameUsedTwice(g, Take(g, bucket), h);
      KeptSame(Y(), m, mem, Take(g, bucket), h);
      p := WriteHeader(ptr, request, h, originalBucket, Leftmost(bucket, k, originalBucket), m);
      KeptSame(Y(), m, mem, h, g);
    }

    // The list_push with which malloc gives up on a block.
    method PutBack(bucket: nat, ptr: int)
      requires basePtr != 0 && Quiet(state) && InFlags(state) && |state.lists| == BUCKET_COUNT
      requires state.limit <= bucket < BUCKET_COUNT && state.lists[bucket] != []
      requires InMemory(Take(state, bucket)) && ptr == Addr(Y(), bucket, Back(state, bucket))
      modifies this`mem
      ensures Valid() && Kept(Y(), old(mem), mem, state)
    {
      hide Listed, Coalesced, LayoutOk, Linked, Headed, FlagsMatch, Offset, Kept, Addr;
      ghost var g, k := state, Back(state, bucket);
      TakeInv(g, bucket);
      DropTake(g, bucket);
      DropReserved(Y(), Take(g, bucket), bucket, k, maxPtr);
      assert g.lists[bucket] == g.lists[bucket][..|g.lists[bucket]| - 1] + [k];
      assert g.lists == Take(g, bucket).lists[bucket := Take(g, bucket).lists[bucket] + [k]];
      PushBlock(bucket, ptr, Take(g, bucket), g, k);
      KeptSame(Y(), old(mem), mem, Take(g, bucket), g);
    }

    // The block header.
    method WriteHeader(ptr: int, request: nat, ghost a: State, ghost b: nat, ghost k: nat,
                       ghost m: Memory) returns (p: nat)
      requires basePtr != 0 && Busy(a, b, k) && InMemory(a) && InFlags(a)
      requires b == BucketFor(request) < BUCKET_COUNT && a.limit <= b && Gross(request) <= Size(0)
      requires ptr == Addr(Y(), b, k) && ptr + Size(b) <= maxPtr && ptr > 0
      requires Kept(Y(), m, mem, a)
      modifies this`mem, this`state
      ensures Valid() && state == Commit(a, b, k, request) && p == ptr + HEADER_SIZE
      ensures Kept(Y(), m, mem, a)
    {
      hide Inv, Sized, LayoutOk, Linked, Headed, FlagsMatch, Offset, Kept, ExpectedFlag, SameUsed, BucketFor;
      hide Gross, Pow2, Size;
      ghost var m1 := mem;
      CommitInv(a, b, k, request);
      CommitLinks(Y(), mem, a, b, k, request);
      CommitReserved(Y(), a, b, k, request, maxPtr);
      CommitFlags(a, b, k, request);
      SameFlags(nodeIsSplit[..], a, Commit(a, b, k, request));
      HeaderMapped(b, k);
      Store(ptr, request);
      state := Commit(a, b, k, request);
      KeptTwice(Y(), m, m1, mem, a, a);
      p := ptr + HEADER_SIZE;
    }

    lemma HeaderMapped(b: nat, k: nat)
      requires b < BUCKET_COUNT && Addr(Y(), b, k) + Size(b) <= maxPtr
      ensures Mapped(Addr(Y(), b, k))
    {
      SizeAtLeast(b);
    }

    lemma NeedsAll(target: nat)
      requires target < BUCKET_COUNT
      ensures BytesNeeded(target, target) == Size(target)
    {
    }

    lemma KeptNothing(a: State)
      ensures Kept(Y(), mem, mem, a)
    {
    }

    lemma KeptTwiceSame(m0: Memory, m: Memory, a0: State, a: State)
      requires Kept(Y(), m0, m, a0) && Kept(Y(), m, mem, a) && SameUsed(a0, a)
      ensures Kept(Y(), m0, mem, a0)
    {
    }

    // The start of the first call. malloc ignores whether its extension of the break succeeds,
    // and goes on to link its first block. The block's list node is reserved, and its two words
    // are mapped, exactly if the environment did not refuse.
    method FirstExtension()
      requires basePtr == 0 && LayoutOk(Layout(heads, heapEnd))
      modifies this`bucketLimit, this`basePtr, this`maxPtr, this`heapEnd, this`refusals
      ensures basePtr == old(heapEnd) && bucketLimit == LAST_BUCKET && maxPtr == heapEnd
      ensures refusals == old(refusals) || refusals == old(refusals) + 1
      ensures Reserved(Y(), Initial(), maxPtr) <==> refusals == old(refusals)
      ensures MappedNode(basePtr) <==> refusals == old(refusals)
      ensures granted >= old(heapEnd) + NODE_SIZE ==> refusals == old(refusals)
      ensures maxPtr == if refusals == old(refusals) then basePtr + NODE_SIZE else basePtr
    {
      hide Reserved, Size;
      basePtr := heapEnd;
      maxPtr := basePtr;
      bucketLimit := BUCKET_COUNT - 1;
      SizeAtLeast(0);
      var _ := UpdateMaxPtr(basePtr + NODE_SIZE);
      InitialReserved(Y(), maxPtr);
    }

    // The first call, if the environment does not refuse: one free block of the smallest size at
    // the break.
    method InitHeap()
      requires Valid() && basePtr == 0
      modifies this`mem, this`bucketLimit, this`basePtr, this`maxPtr, this`heapEnd, this`refusals
      ensures Valid() && basePtr == old(heapEnd) && basePtr != 0 && state == old(state) && refusals == old(refusals)
      ensures maxPtr == basePtr + NODE_SIZE
    {
      hide Listed, Coalesced, Sized, NoHeld, Shape, FlagsMatch, Linked, Pow2, Size, Offset, Reserved;
      FirstExtension();
      ghost var a, m := state, mem;
      InitialLinks(m);
      HeadMapped(LAST_BUCKET);
      InitialisedPrev(m, Head(Y(), LAST_BUCKET));
      ListInit(heads + NODE_SIZE * (BUCKET_COUNT - 1));
      ListPush(heads + NODE_SIZE * (BUCKET_COUNT - 1), basePtr);
      InitialHeaded();
    }

    lemma InitialLinks(m: Memory)
      requires LayoutOk(Y())
      ensures var h := Head(Y(), LAST_BUCKET);
              Linked(Y(), Pushed(Initialised(m, h), h, basePtr), Initial(), LAST_BUCKET)
    {
      hide Listed, Coalesced, Sized, NoHeld, Shape, FlagsMatch, Linked, Pow2, LayoutOk, Pushed, Initialised;
      InitialQuiet();
      var e := Initial().(lists := seq(BUCKET_COUNT, b => []));
      var h := Head(Y(), LAST_BUCKET);
      NodePtr(LAST_BUCKET, 0);
      assert Linked(Y(), m, e, BUCKET_COUNT) by { NoLinks(m, e); }
      InitLinks(Y(), m, e, BUCKET_COUNT);
      assert e.lists[LAST_BUCKET] + [0] == [0];
      assert Initial().lists == e.lists[LAST_BUCKET := e.lists[LAST_BUCKET] + [0]];
      PushLinks(Y(), Initialised(m, h), e, Initial(), LAST_BUCKET, 0, LAST_BUCKET);
    }

    lemma NoLinks(m: Memory, a: State)
      requires |a.lists| == BUCKET_COUNT
      ensures Linked(Y(), m, a, BUCKET_COUNT)
    {
    }

    lemma InitialHeaded()
      ensures Headed(Y(), mem, Initial())
    {
    }

    // Add a parent above a root that is in use and pop the root's new buddy.
    method GrowAndPop(bucket: nat, ghost t: nat) returns (ok: bool, ptr: int)
      requires Valid() && basePtr != 0 && 0 < bucket == bucketLimit <= t < BUCKET_COUNT && Fit(state, t) == None
      modifies this`mem, this`bucketLimit, this`maxPtr, this`heapEnd, this`state, this`refusals, nodeIsSplit
      ensures maxPtr >= old(maxPtr) && Kept(Y(), old(mem), mem, old(state))
      ensures !ok ==> Valid() && state == old(state) && refusals == old(refusals) + 1 && granted < basePtr + Size(0)
      ensures ok ==> refusals == old(refusals) && state == Double(old(state)) && SameUsed(old(state), state)
      ensures ok ==> Quiet(state) && InFlags(state) && |state.lists| == BUCKET_COUNT && state.limit <= bucket
      ensures maxPtr == old(maxPtr) || (ok && maxPtr == GrowthEnd(Y(), bucket))
      ensures !ok ==> GrowthShort(Y(), state, granted)
      ensures ok ==> Fit(state, t) == Some(bucket) && state.lists[bucket] != [] && Back(state, bucket) == 1
      ensures ok ==> InMemory(Take(state, bucket)) && ptr == Addr(Y(), bucket, Back(state, bucket)) && ptr > 0
    {
      hide Listed, Coalesced, Sized, NoHeld, Shape, LayoutOk, Linked, Headed, Reserved, FlagsMatch, Kept, Addr, Offset;
      hide Take, GrowTo, SameUsed, Double, Fit;
      ghost var g, m := state, mem;
      FitDouble(g, t);
      GrowToOneMore(g);
      GrowToStops(g, bucket);
      DoubleInv(g);
      ok := LowerBucketLimit(bucket - 1);
      ptr := 0;
      if ok {
        ghost var m1 := mem;
        ptr := PopBlock(bucket);
        KeptTwiceSame(m, m1, g, state);
      }
    }

    // malloc. Without a refusal of the break the outcome is Malloced; with one, which cannot be
    // if the break is granted up to the end of the range, it is NULL and a heap that has at most
    // grown. No used block changes in any case.
    method Malloc(request: nat) returns (p: nat)
      requires Valid() && request < WORD
      modifies this, nodeIsSplit
      ensures Valid()
      ensures old(basePtr) != 0 ==> basePtr == old(basePtr) && maxPtr >= old(maxPtr)
      ensures old(basePtr) != 0 ==> Kept(Y(), old(mem), mem, old(state))
      ensures old(basePtr) == 0 ==> basePtr == 0 || basePtr == old(heapEnd)
      ensures granted >= old(if basePtr == 0 then heapEnd else basePtr) + Size(0) ==> Outcome(old(state), request, p)
      ensures refusals == old(refusals) ==> Outcome(old(state), request, p)
      ensures refusals != old(refusals) ==>
                p == 0 && refusals == old(refusals) + 1 && state == GrowTo(old(state), state.limit) &&
                granted < basePtr + Size(0) && Refused(old(state), request)
      ensures Reserved(old(HeapLayout()), Malloced(old(state), request).0, granted) ==> Outcome(old(state), request, p)
      ensures old(basePtr) != 0 ==> maxPtr == old(maxPtr) || AtEnd(Y(), state, maxPtr)
      ensures old(basePtr) == 0 ==>
                if basePtr == 0 then maxPtr == old(maxPtr)
                else maxPtr == basePtr + NODE_SIZE || AtEnd(Y(), state, maxPtr)
      ensures Gross(request) > Size(0) ==>
                basePtr == old(basePtr) && maxPtr == old(maxPtr) && heapEnd == old(heapEnd) && mem == old(mem) &&
                refusals == old(refusals) && nodeIsSplit[..] == old(nodeIsSplit[..])
      ensures Gross(request) <= Size(0) ==> basePtr != 0
    {
      hide Listed, Coalesced, Sized, NoHeld, Shape, LayoutOk, Linked, Headed, Reserved, FlagsMatch, Kept, Addr, Offset;
      hide GrowTo, Outcome, Pow2, AtEnd, Refused;
      KeptNothing(state);
      if (request + HEADER_SIZE) % WORD > Pow2(MAX_ALLOC_LOG2) {
        OutcomeTooLarge(request);
        return 0;
      }
      if basePtr == 0 {
        InitHeap();
      }
      var bucket := BucketForRequest((request + HEADER_SIZE) % WORD);
      p := Search(bucket, request);
      RefusedIs(old(state), request);
    }

    lemma RefusedIs(a: State, request: nat)
      requires a.limit < |a.lists| == BUCKET_COUNT
      ensures Refused(a, request) ==> !Reserved(Y(), Malloced(a, request).0, granted)
    {
    }

    // What malloc has done, if the break was never refused.
    ghost predicate Outcome(a: State, request: nat, p: int)
      requires a.limit < |a.lists| == BUCKET_COUNT
      reads this
    {
      var (s, k) := Malloced(a, request);
      && state == s
      && (k.None? ==> p == 0)
      && (k.Some? ==> basePtr != 0 && p == Addr(Y(), BucketFor(request), k.value) + HEADER_SIZE)
    }

    lemma OutcomeTooLarge(request: nat)
      requires state.limit < |state.lists| == BUCKET_COUNT && Gross(request) > Size(0)
      ensures Outcome(state, request, 0)
    {
    }

    lemma OutcomeNone(a: State, request: nat)
      requires a.limit < |a.lists| == BUCKET_COUNT && Gross(request) <= Size(0)
      requires state == GrowTo(a, BucketFor(request)) && Fit(state, BucketFor(request)).None? && state.limit == 0
      ensures Outcome(a, request, 0)
    {
    }

    lemma OutcomeSome(a: State, request: nat, g: State, b: nat)
      requires a.limit < |a.lists| == BUCKET_COUNT && Gross(request) <= Size(0)
      requires g == Prepare(a, BucketFor(request)) && Fit(g, BucketFor(request)) == Some(b)
      requires state == Carve(g, b, request) && basePtr != 0
      ensures Outcome(a, request,
                      Addr(Y(), BucketFor(request), Leftmost(b, Back(g, b), BucketFor(request))) + HEADER_SIZE)
    {
    }

    lemma PrepareCases(a: State, t: nat)
      requires a.limit < |a.lists| == BUCKET_COUNT && t < BUCKET_COUNT
      ensures Prepare(a, t) == var g := GrowTo(a, t); if Fit(g, t).None? && g.limit > 0 then Double(g) else g
    {
    }

    // Grow up to `bucket` and pop its free list.
    method LowerAndPop(bucket: nat) returns (ok: bool, ptr: int)
      requires Valid() && basePtr != 0 && bucket < BUCKET_COUNT
      modifies this`mem, this`bucketLimit, this`maxPtr, this`heapEnd, this`state, this`refusals, nodeIsSplit
      ensures maxPtr >= old(maxPtr) && Kept(Y(), old(mem), mem, old(state))
      ensures !ok ==> Valid() && refusals == old(refusals) + 1 && granted < basePtr + Size(0)
      ensures !ok ==> bucket < state.limit <= old(state).limit && state == GrowTo(old(state), state.limit)
      ensures !ok ==> GrowthShort(Y(), state, granted)
      ensures maxPtr == old(maxPtr) || (state.limit < old(state).limit && AtGrowth(Y(), state, maxPtr))
      ensures ok ==> refusals == old(refusals) && state == GrowTo(old(state), bucket) && SameUsed(old(state), state)
      ensures ok ==> Quiet(state) && InFlags(state) && |state.lists| == BUCKET_COUNT && state.limit <= bucket
      ensures ok ==> bucketLimit == state.limit
      ensures ok && state.lists[bucket] == [] ==> ptr == 0 && Valid()
      ensures ok && state.lists[bucket] != [] ==>
                ptr == Addr(Y(), bucket, Back(state, bucket)) && ptr > 0 && InMemory(Take(state, bucket))
    {
      hide Inv, Sized, NoHeld, LayoutOk, Linked, Headed, Reserved, FlagsMatch, Kept, Addr, Offset, Take;
      hide SameUsed, Size, GrowTo;
      ghost var m, s := mem, state;
      GrowToInv(s, bucket);
      InvShape(s);
      ok := LowerBucketLimit(bucket);
      ptr := 0;
      if ok {
        ghost var m1 := mem;
        InvShape(state);
        ptr := PopBlock(bucket);
        KeptTwiceSame(m, m1, s, state);
      }
    }

    // The search loop.
    method Search(originalBucket: nat, request: nat) returns (p: nat)
      requires Valid() && basePtr != 0 && Gross(request) <= Size(0)
      requires originalBucket == BucketFor(request) < BUCKET_COUNT
      modifies this`mem, this`bucketLimit, this`maxPtr, this`heapEnd, this`state, this`refusals, nodeIsSplit
      ensures Valid() && maxPtr >= old(maxPtr) && Kept(Y(), old(mem), mem, old(state))
      ensures refusals == old(refusals) ==> Outcome(old(state), request, p)
      ensures refusals != old(refusals) ==>
                p == 0 && refusals == old(refusals) + 1 && state == GrowTo(old(state), state.limit) &&
                granted < basePtr + Size(0)
      ensures refusals != old(refusals) ==> Refused(old(state), request)
      ensures maxPtr == old(maxPtr) || AtEnd(Y(), state, maxPtr)
    {
      hide Listed, Coalesced, Sized, NoHeld, Shape, LayoutOk, Linked, Headed, Reserved, FlagsMatch, Kept, Addr, Offset;
      hide AtEnd, AtGrowth, Staged, Refused, GrowthShort;
      hide Take, Carve, GrowTo, SameUsed, Double, Outcome, BucketFor, Gross, Size, Prepare, Leftmost, Fit, Head;
      hide InFlags, InMemory, Inv;
      ghost var a, m0 := state, mem;
      InvShape(a);
      KeptNothing(a);
      var bucket := originalBucket;
      ghost var g := GrowTo(a, originalBucket);
      GrowToInv(a, originalBucket);
      InvShape(g);
      GrowToSelf(a);
      GrowToLimit(a, originalBucket);
      PrepareCases(a, originalBucket);
      while (bucket + 1) % WORD != 0
        invariant Valid() && refusals == old(refusals) && maxPtr >= old(maxPtr)
        invariant SameUsed(a, state) && Kept(Y(), m0, mem, a)
        invariant maxPtr == old(maxPtr) ||
                  (bucket != originalBucket && g.limit == originalBucket && AtGrowth(Y(), g, maxPtr))
        invariant bucket == WORD - 1 || bucket <= originalBucket
        invariant if bucket == originalBucket then state == a else state == g
        invariant bucket == WORD - 1 ==> g.limit == 0 && Fit(g, originalBucket) == None
        invariant bucket < originalBucket ==> g.limit <= bucket && Fit(g, originalBucket) == Fit(g, bucket)
        decreases if bucket == WORD - 1 then 0 else bucket + 1
      {
        GrowToStops(state, bucket);
        FitOnce(g, bucket);
        ghost var m1, s1 := mem, state;
        var ok, ptr := LowerAndPop(bucket);
        KeptTwiceSame(m0, m1, a, s1);
        if !ok {
          GrowthRefused(a, request);
          GrowthAtEnd(Y(), state, maxPtr);
          return 0;
        }
        InvShape(g);
        SameUsedTwice(a, s1, g);
        if ptr == 0 {
          if bucket != bucketLimit || bucket == 0 {
            bucket := (bucket + WORD - 1) % WORD;
            continue;
          }
          ghost var m3, w := mem, maxPtr;
          ok, ptr := GrowAndPop(bucket, originalBucket);
          KeptTwiceSame(m0, m3, a, g);
          if !ok {
            GrowthRefused(a, request);
            GrowthAtEnd(Y(), g, maxPtr);
            return 0;
          }
          GrownStage(g, old(maxPtr), w, originalBucket, bucket);
          SameUsedTwice(a, g, state);
          GrowOnce(a, g);
        }
        if state == g {
          FoundStage(g, old(maxPtr), originalBucket, bucket);
        }
        p := Finish(ptr, bucket, originalBucket, request, a, m0, old(maxPtr));
        return p;
      }
      OutcomeNone(a, request);
      GrowthAtEnd(Y(), g, maxPtr);
      return 0;
    }

    // CarveBlock, seen from the start of the search in state `a` and memory `m0`.
    method Finish(ptr: int, bucket: nat, originalBucket: nat, request: nat, ghost a: State,
                  ghost m0: Memory, ghost before: int) returns (p: nat)
      requires basePtr != 0 && Quiet(state) && InFlags(state) && |state.lists| == BUCKET_COUNT
      requires Gross(request) <= Size(0) && originalBucket == BucketFor(request) < BUCKET_COUNT
      requires state.limit <= bucket <= originalBucket && state.lists[bucket] != []
      requires InMemory(Take(state, bucket)) && ptr == Addr(Y(), bucket, Back(state, bucket)) && ptr > 0
      requires a.limit < |a.lists| == BUCKET_COUNT && state == Prepare(a, originalBucket) == GrowTo(a, state.limit)
      requires Fit(state, originalBucket) == Some(bucket)
      requires SameUsed(a, state) && Kept(Y(), m0, mem, a)
      requires Quiet(a) && Staged(Y(), state, before, maxPtr, originalBucket, bucket)
      modifies this`mem, this`maxPtr, this`heapEnd, this`state, this`refusals, nodeIsSplit
      ensures Valid() && maxPtr >= old(maxPtr) && Kept(Y(), m0, mem, a)
      ensures refusals == old(refusals) ==> Outcome(a, request, p)
      ensures refusals != old(refusals) ==>
                p == 0 && refusals == old(refusals) + 1 && state == GrowTo(a, state.limit) &&
                granted < basePtr + Size(0)
      ensures refusals != old(refusals) ==> Refused(a, request)
      ensures maxPtr == before || AtEnd(Y(), state, maxPtr)
    {
      hide Quiet, InMemory, InFlags, Prepare, GrowTo, Fit, SameUsed, Kept, Addr, Outcome, BucketFor, Gross, Size;
      hide Carve, Take, AtEnd, Staged, Reserved, BytesNeeded;
      ghost var m, g := mem, state;
      StagedCarve(Y(), g, bucket, request, before, maxPtr);
      StagedAtEnd(Y(), g, before, maxPtr, originalBucket, bucket);
      p := CarveBlock(ptr, bucket, originalBucket, request);
      KeptTwiceSame(m0, m, a, g);
      if p != 0 {
        OutcomeSome(a, request, g, bucket);
      } else {
        ShortCarve(Y(), a, g, bucket, request, granted);
      }
    }

    // A refusal: some block of the outcome needs more of the break than is granted, and the tree
    // is no larger than in the outcome.
    ghost predicate Refused(a: State, request: nat)
      requires a.limit < |a.lists| == BUCKET_COUNT
      reads this
    {
      !Reserved(Y(), Malloced(a, request).0, granted) && Malloced(a, request).0.limit <= state.limit
    }

    lemma GrowthRefused(a: State, request: nat)
      requires Quiet(a) && Gross(request) <= Size(0) && state == GrowTo(a, state.limit) && state.limit <= a.limit
      requires GrowthShort(Y(), state, granted) && |a.lists| == BUCKET_COUNT && a.limit < BUCKET_COUNT
      requires state.limit > BucketFor(request) ||
               (state == GrowTo(a, BucketFor(request)) && FitNone(state, BucketFor(request)))
      ensures Refused(a, request)
    {
      ShortGrowth(Y(), a, state, request, granted);
    }

    // The stage after the pop, and after growing and popping.
    lemma FoundStage(g: State, before: int, t: nat, b: nat)
      requires b < BUCKET_COUNT == |g.lists| && g.lists[b] != []
      requires maxPtr == before || (g.limit == t && AtGrowth(Y(), g, maxPtr))
      ensures Staged(Y(), g, before, maxPtr, t, b)
    {
    }

    lemma GrownStage(g: State, before: int, w: int, t: nat, b: nat)
      requires Quiet(g) && 0 < b == g.limit && state == Double(g) && |state.lists| == BUCKET_COUNT && b < BUCKET_COUNT
      requires state.lists[b] != [] && Back(state, b) == 1 && b <= t < BUCKET_COUNT == |g.lists| && Fit(g, t).None?
      requires (w == before || (g.limit == t && AtGrowth(Y(), g, w))) && (maxPtr == w || maxPtr == GrowthEnd(Y(), b))
      ensures Staged(Y(), state, before, maxPtr, t, b)
    {
      hide Double;
      if maxPtr != before && maxPtr == w {
        DoubleKeepsFree(g, t + 1, 1) by { assert !g.tree.Free?; }
      }
    }

    // ---------------------------------------------------------------- free

    // `ptr` came from malloc and has not been freed: the block it belongs to.
    ghost predicate Live(ptr: int, b: nat, k: nat, request: nat)
      reads this
    {
      basePtr != 0 && b < BUCKET_COUNT && UsedAt(state, b, k, request) && ptr == Addr(Y(), b, k) + HEADER_SIZE
    }

    lemma LiveUnique(ptr: int, b: nat, k: nat, r: nat, c: nat, j: nat, q: nat)
      requires Inv(state) && Live(ptr, b, k, r) && Live(ptr, c, j, q)
      ensures b == c && k == j && r == q
    {
      if b != c || k != j {
        LeafFar(Y(), state, b, k, c, j);
      }
    }

    lemma DropFrees(a: State, b: nat, k: nat)
      requires Busy(a, b, k)
      ensures a.limit <= b < BUCKET_COUNT && k < Pow2(b - a.limit)
      ensures IsFree(Drop(a, b, k), b, k) && IsFree(Drop(a, b, k), b, Buddy(k)) == IsFree(a, b, Buddy(k))
    {
      LeafRange(a, b, k);
      SetLeaves(a, b, k, Tree.Free, Drop(a, b, k));
    }

    lemma SameDifference(a: State, d: State, e: State, p: nat, q: nat)
      requires DifferAt(a, d, p, q) && DifferAt(a, e, p, q)
      ensures forall c: nat, j: nat :: ExpectedFlag(e, c, j) == ExpectedFlag(d, c, j)
    {
    }

    // The flip and the test of free's loop.
    method FlipAndTest(i: nat, bucket: nat, ghost a: State, ghost k: nat) returns (stop: bool)
      requires Busy(a, bucket, k) && InFlags(a) && bucketLimit == a.limit <= bucket < BUCKET_COUNT == |a.lists|
      requires i == NodeIndex(bucket, k) && i != 0 && k < Pow2(bucket)
      modifies nodeIsSplit
      ensures stop <==> bucket == a.limit || !IsFree(a, bucket, Buddy(k))
      ensures stop ==> InFlags(Drop(a, bucket, k))
      ensures !stop ==> Buddy(k) in a.lists[bucket] && InFlags(Merge(a, bucket, k))
    {
      hide Listed, Coalesced, Sized, Shape, FlagsMatch, Flag, Flipped, Toggled, DifferAt, ExpectedFlag;
      ghost var d := Drop(a, bucket, k);
      IndexSteps(bucket, k);
      DropToggled(a, bucket, k);
      ToggledDiffer(a, d, bucket, k);
      DropFrees(a, bucket, k);
      FlipFlag(i, a, d, bucket - 1, k / 2);
      BuddyFlag(nodeIsSplit[..], d, bucket, k);
      IndexRange(bucket - 1, k / 2);
      var parentSplit := ParentIsSplit(i);
      stop := parentSplit || bucket == bucketLimit;
      if !stop {
        MergeInv(a, bucket, k);
        MergeToggled(a, bucket, k);
        ToggledDiffer(a, Merge(a, bucket, k), bucket, Buddy(k));
        SameDifference(a, d, Merge(a, bucket, k), bucket - 1, k / 2);
        SameFlags(nodeIsSplit[..], d, Merge(a, bucket, k));
      }
    }

    // Take the free buddy off its list.
    method RemoveBuddy(i: nat, bucket: nat, ghost a: State, ghost k: nat)
      requires Busy(a, bucket, k) && InMemory(a) && a.limit < bucket < BUCKET_COUNT && IsFree(a, bucket, Buddy(k))
      requires Buddy(k) in a.lists[bucket] && i == NodeIndex(bucket, k) && k < Pow2(bucket) && i != 0
      modifies this`mem
      ensures InMemory(Merge(a, bucket, k)) && Kept(Y(), old(mem), mem, a)
    {
      hide Listed, Coalesced, Sized, HeldAt, Shape, LayoutOk, Linked, Headed, Reserved, Kept, Offset, PtrForNode, Pow2;
      ghost var n := IndexOf(a.lists[bucket], Buddy(k));
      IndexSteps(bucket, k);
      NodePtr(bucket, Buddy(k));
      MergeInv(a, bucket, k);
      MergeReserved(Y(), a, bucket, k, maxPtr);
      NeighboursMapped(a, bucket, n);
      RemoveInMemory(a, Merge(a, bucket, k), bucket, n);
      ListRemove(PtrForNode(XorOne(i - 1) + 1, bucket));
    }

    lemma ReadHeader(b: nat, k: nat, request: nat)
      requires Valid() && basePtr != 0 && b < BUCKET_COUNT && UsedAt(state, b, k, request)
      ensures Mapped(Addr(Y(), b, k)) && Read(mem, Addr(Y(), b, k)) == request
      ensures Gross(request) <= Size(0) && b == BucketFor(request)
      ensures state.limit <= b && k < Pow2(b)
      ensures InMemory(Reclaim(state, b, k)) && InFlags(Reclaim(state, b, k))
    {
      hide Pow2, Offset, Linked, FlagsMatch, ExpectedFlag, Listed, Coalesced, NoHeld, Shape;
      SizeAtLeast(b);
      LeafRange(state, b, k);
      Pow2Monotone(b - state.limit, b);
      ReclaimInv(state, b, k, request);
      ReclaimReserved(Y(), state, b, k, request, maxPtr);
      ReclaimFlags(state, b, k, request);
      SameFlags(nodeIsSplit[..], state, Reclaim(state, b, k));
      LinkedSame(Y(), mem, state, Reclaim(state, b, k));
    }

    lemma ClimbOnce(a: State, b: nat, k: nat)
      requires Inv(a) && a.limit <= b < BUCKET_COUNT
      ensures b == a.limit || !IsFree(a, b, Buddy(k)) ==> Climb(a, b, k) == Drop(a, b, k)
      ensures b > a.limit && IsFree(a, b, Buddy(k)) ==>
                Buddy(k) in a.lists[b] && Climb(a, b, k) == Climb(Merge(a, b, k), b - 1, k / 2)
    {
    }

    // Node 0 has no parent.
    lemma TopBlock(a: State, b: nat, k: nat)
      requires Busy(a, b, k) && a.limit <= b < BUCKET_COUNT && NodeIndex(b, k) == 0 && k < Pow2(b)
      requires InFlags(a) && |a.lists| == BUCKET_COUNT
      ensures b == a.limit == 0 && Climb(a, b, k) == Drop(a, b, k) && InFlags(Drop(a, b, k))
    {
      hide Flag, FlagsMatch, ExpectedFlag, Toggled, Inv, Sized, HeldAt, Drop, Climb, Pow2, NodeIndex;
      IndexZero(b, k);
      DropToggled(a, b, k);
      ToggledTop(a, Drop(a, b, k));
      SameFlags(nodeIsSplit[..], a, Drop(a, b, k));
      ClimbOnce(a, b, k);
    }

    // The list_push with which free ends.
    method DropBlock(i: nat, bucket: nat, ghost a: State, ghost j: nat, ghost c0: State, ghost m: Memory)
      requires basePtr != 0 && InMemory(a) && Busy(a, bucket, j) && a.limit <= bucket < BUCKET_COUNT == |a.lists|
      requires i == NodeIndex(bucket, j) && (bucket == a.limit || !IsFree(a, bucket, Buddy(j)))
      requires InFlags(Drop(a, bucket, j)) && SameUsed(c0, a) && Kept(Y(), m, mem, c0)
      modifies this`mem, this`state
      ensures Valid() && state == Drop(a, bucket, j) && Kept(Y(), m, mem, state)
    {
      hide Listed, Coalesced, Sized, HeldAt, NoHeld, Shape, LayoutOk, Linked, Headed, Reserved, FlagsMatch, Kept;
      hide Offset, PtrForNode, Pow2;
      ghost var m1 := mem;
      NodePtr(bucket, j);
      DropInv(a, bucket, j);
      DropReserved(Y(), a, bucket, j, maxPtr);
      PushBlock(bucket, PtrForNode(i, bucket), a, Drop(a, bucket, j), j);
      KeptTwiceSame(m, m1, c0, a);
      SameUsedTwice(c0, a, Drop(a, bucket, j));
      KeptSame(Y(), m, mem, c0, Drop(a, bucket, j));
      state := Drop(a, bucket, j);
    }

    // free. The block that `ptr` names is released: dropped on its free list after merging
    // with its buddy as often as that is free. No other used block changes.
    method Free(ptr: nat, ghost b: nat, ghost k: nat, ghost request: nat)
      requires Valid() && (ptr == 0 || Live(ptr, b, k, request))
      modifies this`mem, this`state, nodeIsSplit
      ensures Valid()
      ensures ptr == 0 ==> state == old(state) && mem == old(mem) && nodeIsSplit[..] == old(nodeIsSplit[..])
      ensures ptr != 0 ==> state == Release(old(state), b, k) && Kept(Y(), old(mem), mem, state)
    {
      hide Listed, Coalesced, Sized, NoHeld, HeldAt, Shape, LayoutOk, Linked, Headed, Reserved, FlagsMatch, Kept;
      hide Offset;
      hide Flag, ExpectedFlag, NodeForPtr, PtrForNode, Climb, Merge, Drop, Reclaim, NodeIndex, Pow2, Size;
      if ptr == 0 {
        return;
      }
      ghost var a0, c0 := state, Reclaim(state, b, k);
      ReclaimInv(a0, b, k, request);
      ReadHeader(b, k, request);
      var bucket: nat := BucketForRequest((Load(ptr - HEADER_SIZE) + HEADER_SIZE) % WORD);
      NodePtr(b, k);
      var i: nat := NodeForPtr(ptr - HEADER_SIZE, bucket);
      ghost var a, m := c0, mem;
      ghost var j: nat := k;
      KeptNothing(a);
      while i != 0
        invariant InMemory(a) && InFlags(a) && Busy(a, bucket, j) && a.limit <= bucket < BUCKET_COUNT == |a.lists|
        invariant i == NodeIndex(bucket, j) && j < Pow2(bucket)
        invariant Climb(a, bucket, j) == Release(a0, b, k)
        invariant SameUsed(c0, a) && Kept(Y(), m, mem, c0)
        decreases bucket
      {
        var stop := FlipAndTest(i, bucket, a, j);
        ClimbOnce(a, bucket, j);
        if stop {
          break;
        }
        ghost var m1 := mem;
        MergeInv(a, bucket, j);
        IndexSteps(bucket, j);
        RemoveBuddy(i, bucket, a, j);
        KeptTwiceSame(m, m1, c0, a);
        SameUsedTwice(c0, a, Merge(a, bucket, j));
        a, j := Merge(a, bucket, j), j / 2;
        i := (i - 1) / 2;
        bucket := bucket - 1;
      }
      if i == 0 {
        TopBlock(a, bucket, j);
      }
      DropBlock(i, bucket, a, j, c0, m);
    }

    lemma FitOnce(g: State, b: nat)
      requires |g.lists| == BUCKET_COUNT && g.limit <= b < BUCKET_COUNT
      ensures g.lists[b] != [] ==> Fit(g, b) == Some(b)
      ensures g.lists[b] == [] && b > g.limit ==> Fit(g, b) == Fit(g, b - 1)
      ensures g.lists[b] == [] && b == g.limit ==> Fit(g, b) == None
    {
    }

    lemma GrowToStops(a: State, limit: nat)
      requires a.limit < |a.lists|
      ensures limit >= a.limit ==> GrowTo(a, limit) == a
    {
    }

    lemma GrowToLimit(a: State, limit: nat)
      requires a.limit < |a.lists|
      ensures GrowTo(a, GrowTo(a, limit).limit) == GrowTo(a, limit)
    {
    }

    lemma GrowToSelf(a: State)
      requires a.limit < |a.lists|
      ensures GrowTo(a, a.limit) == a && SameUsed(a, a)
    {
    }
  }

  lemma LinkedSame(y: Layout, m: Memory, a: State, a': State)
    requires |a.lists| == BUCKET_COUNT && a'.lists == a.lists && Linked(y, m, a, a.limit)
    ensures Linked(y, m, a', a.limit)
  {
  }

  lemma SameUsedTwice(a: State, a': State, a'': State)
    requires SameUsed(a, a') && SameUsed(a', a'')
    ensures SameUsed(a, a'')
  {
  }
}
