// What malloc and free guarantee to their callers, one call and whole runs.
module BuddyTheorems {
  import opened Numbers
  import opened Options
  import opened BuddyTree
  import opened BuddyState
  import opened BuddySpec
  import opened FreeLists
  import opened WordMemory
  import opened BuddyBreak
  import opened BuddyHeap

  // ------------------------------------------------------------------ malloc

  // malloc hands out exactly one new block, in the bucket of the request, and nothing else
  // changes hands; when it returns NULL nothing changes hands at all.
  lemma MallocedInv(a: State, request: nat)
    requires Quiet(a)
    ensures var (s, k) := Malloced(a, request);
            Quiet(s) &&
            forall c: nat, j: nat, r: nat :: UsedAt(s, c, j, r) <==>
              UsedAt(a, c, j, r) || (k.Some? && c == BucketFor(request) && j == k.value && r == request)
  {
    if Gross(request) <= Size(0) {
      var t := BucketFor(request);
      PrepareInv(a, t);
      var g := Prepare(a, t);
      if Fit(g, t).Some? {
        CarveInv(g, Fit(g, t).value, request);
      }
    }
  }

  // The handed-out block was not part of any used block before the call.
  lemma MallocedFresh(a: State, request: nat, c: nat, j: nat, r: nat)
    requires Quiet(a) && Malloced(a, request).1.Some? && UsedAt(a, c, j, r)
    ensures var b, k := BucketFor(request), Malloced(a, request).1.value;
            c < BUCKET_COUNT && (Offset(b, k) + Size(b) <= Offset(c, j) || Offset(c, j) + Size(c) <= Offset(b, k))
  {
    var t := BucketFor(request);
    var (s, k) := Malloced(a, request);
    MallocedInv(a, request);
    PrepareInv(a, t);
    var g := Prepare(a, t);
    var b := Fit(g, t).value;
    CarvedApart(g, b, request, c, j, r);
    assert UsedAt(s, t, k.value, request) && UsedAt(s, c, j, r);
    BlocksApart(s, t, k.value, c, j);
  }

  // The carved block lies inside a block that was free, so it is none of the used ones.
  lemma CarvedApart(g: State, b: nat, request: nat, c: nat, j: nat, r: nat)
    requires Quiet(g) && Fit(g, BucketFor(request)) == Some(b) && UsedAt(g, c, j, r)
    ensures c != BucketFor(request) || j != Leftmost(b, Back(g, b), BucketFor(request))
  {
    var t := BucketFor(request);
    TakeInv(g, b);
    var h := HalveTo(Take(g, b), b, Back(g, b), t);
    HalveToInv(Take(g, b), b, Back(g, b), t);
    assert UsedAt(Take(g, b), c, j, r) && UsedAt(h, c, j, r);
    assert Leaf(h, t, Leftmost(b, Back(g, b), t)) == Some(Held);
  }

  // malloc fails, with a break that is never refused, exactly when the request is too large
  // or the range has reached its maximum and no free block is large enough.
  lemma MallocedFails(a: State, request: nat)
    requires Quiet(a)
    ensures var (s, k) := Malloced(a, request);
            k.None? <==>
              Gross(request) > Size(0) ||
              (Prepare(a, BucketFor(request)).limit == 0 &&
               forall b: nat, j: nat :: IsFree(Prepare(a, BucketFor(request)), b, j) && b < BUCKET_COUNT ==>
                 Size(b) < Gross(request))
  {
    if Gross(request) <= Size(0) {
      var t := BucketFor(request);
      PrepareInv(a, t);
      var g := Prepare(a, t);
      FitFacts(g, t);
      if Fit(g, t).Some? {
        var b := Fit(g, t).value;
        assert Back(g, b) in g.lists[b] && IsFree(g, b, Back(g, b));
        BucketForIsTightest(request, b);
      } else {
        PrepareRoot(a, t);
        forall b: nat, j: nat | IsFree(g, b, j) && b < BUCKET_COUNT
          ensures Size(b) < Gross(request)
        {
          BucketForIsTightest(request, b);
          assert j in g.lists[b];
          LeafRange(g, b, j);
        }
      }
    }
  }

  // What the caller can see of that: malloc fails exactly when the request is too large or no
  // position of its bucket, anywhere in the 2 GB, is clear of the blocks in use.
  lemma MallocedFailsWhenFull(a: State, request: nat)
    requires Quiet(a)
    ensures BucketFor(request) < BUCKET_COUNT
    ensures Malloced(a, request).1.None? <==>
              Gross(request) > Size(0) ||
              forall j: nat :: j < Pow2(BucketFor(request)) ==> Occupied(a, BucketFor(request), j)
  {
    hide Pow2, Offset, Quiet, Occupied, Size, BucketFor, Gross;
    var t := BucketFor(request);
    BucketBelow(request);
    QuietShape(a);
    if Gross(request) <= Size(0) {
      var (s, k) := Malloced(a, request);
      if k.None? {
        forall j: nat | j < Pow2(t)
          ensures Occupied(a, t, j)
        {
          NothingFits(a, request, j);
        }
      } else {
        FreshPosition(a, request);
      }
    }
  }

  lemma NothingFits(a: State, request: nat, j: nat)
    requires Quiet(a) && Gross(request) <= Size(0) && Malloced(a, request).1.None? && BucketFor(request) < BUCKET_COUNT
    requires j < Pow2(BucketFor(request))
    ensures Occupied(a, BucketFor(request), j)
  {
    hide Pow2, Offset, Size, BucketFor, Gross, Fit, Meet, Quiet, Prepare;
    var t := BucketFor(request);
    QuietShape(a);
    PrepareInv(a, t);
    PrepareRoot(a, t);
    FullIsOccupied(Prepare(a, t), t, j);
  }

  lemma FreshPosition(a: State, request: nat)
    requires Quiet(a) && Gross(request) <= Size(0) && Malloced(a, request).1.Some? && BucketFor(request) < BUCKET_COUNT
    ensures var t, k := BucketFor(request), Malloced(a, request).1.value;
            k < Pow2(t) && !Occupied(a, t, k)
  {
    hide Offset, Size, BucketFor, Gross, Malloced;
    var t := BucketFor(request);
    var (s, k) := Malloced(a, request);
    MallocedInv(a, request);
    assert UsedAt(s, t, k.value, request);
    LeafRange(s, t, k.value);
    Pow2Monotone(t - s.limit, t);
    forall c: nat, j: nat, r: nat | UsedAt(a, c, j, r)
      ensures !Meet(t, k.value, c, j)
    {
      MallocedFresh(a, request, c, j, r);
    }
  }

  // Growing one level further always helps, so a failing search has nowhere left to grow.
  lemma PrepareRoot(a: State, t: nat)
    requires Quiet(a) && t < BUCKET_COUNT && Fit(Prepare(a, t), t).None?
    ensures Prepare(a, t).limit == 0
  {
    GrowToInv(a, t);
    var g := GrowTo(a, t);
    if Fit(g, t).None? && g.limit > 0 {
      FitDouble(g, t);
    }
  }

  // The tree grows no further than it has to: no smaller growth would have given a block.
  lemma PrepareLeast(a: State, t: nat, limit: nat)
    requires a.limit < |a.lists| == BUCKET_COUNT && t < BUCKET_COUNT && Prepare(a, t).limit < limit <= a.limit
    ensures Fit(GrowTo(a, limit), t).None?
  {
    var g := GrowTo(a, t);
    if limit <= t {
      assert limit == g.limit;
      if t >= a.limit {
        GrowToSame(a, t);
        GrowToSame(a, limit);
      }
    }
  }

  lemma GrowToSame(a: State, limit: nat)
    requires a.limit < |a.lists| && limit >= a.limit
    ensures GrowTo(a, limit) == a
  {
  }

  lemma {:induction false} LeftmostStart(b: nat, k: nat, t: nat)
    requires b <= t < BUCKET_COUNT
    ensures Offset(t, Leftmost(b, k, t)) == Offset(b, k)
    decreases t - b
  {
    hide Offset;
    if b == t {
    } else {
      ChildAddr(Layout(0, 0), b, k);
      LeftmostStart(b + 1, 2 * k, t);
    }
  }

  // The handed-out block starts where the block starts that was last put on the free list of the
  // smallest sufficient size.
  lemma MallocedPlace(a: State, request: nat)
    requires Quiet(a) && Malloced(a, request).1.Some?
    ensures var t := BucketFor(request);
            var g := Prepare(a, t);
            t < BUCKET_COUNT && |g.lists| == BUCKET_COUNT &&
            exists b :: g.limit <= b <= t && g.lists[b] != [] && (forall c :: b < c <= t ==> g.lists[c] == []) &&
              Offset(t, Malloced(a, request).1.value) == Offset(b, g.lists[b][|g.lists[b]| - 1])
  {
    hide Offset, Prepare;
    var t := BucketFor(request);
    BucketBelow(request);
    QuietShape(a);
    var g := Prepare(a, t);
    FitFacts(g, t);
    var b := Fit(g, t).value;
    LeftmostStart(b, Back(g, b), t);
  }

  // A handed-out block holds its header and the requested bytes unless the 32-bit sum of
  // the two wraps; when it wraps the block never does.
  lemma BlockHoldsRequest(request: nat)
    requires request < WORD && Gross(request) <= Size(0)
    ensures BucketFor(request) < BUCKET_COUNT
    ensures request + HEADER_SIZE <= Size(BucketFor(request)) <==> request + HEADER_SIZE < WORD
  {
    hide Pow2;
    BucketForIsTightest(request, BucketFor(request));
    Pow2Monotone(MAX_ALLOC_LOG2 - BucketFor(request), MAX_ALLOC_LOG2);
    LargestBlock();
  }

  lemma LargestBlock()
    ensures Size(0) == 0x8000_0000
  {
    assert Pow2(8) == 256;
    Pow2Sum(8, 8);
    Pow2Sum(16, 8);
    Pow2Sum(24, 7);
    assert Pow2(7) == 128;
  }

  // A request that wraps: it asks for almost 4 GB and gets 16 bytes.
  lemma WrappedRequestGetsSmallestBlock()
    ensures Gross(0xFFFF_FFFC) == 4 && BucketFor(0xFFFF_FFFC) == LAST_BUCKET
    ensures Malloced(Initial(), 0xFFFF_FFFC).1 == Some(0)
  {
  }

  // ------------------------------------------------------------------ malloc then free

  // Freeing the block that malloc just handed out restores the state that growth alone
  // left: the tree, and every free list with its order. The tree determines the flags.
  lemma FreeUndoesMalloc(a: State, request: nat)
    requires Quiet(a) && Malloced(a, request).1.Some?
    ensures var (s, k) := Malloced(a, request);
            s.limit <= BucketFor(request) < |s.lists| &&
            Release(s, BucketFor(request), k.value) == Prepare(a, BucketFor(request))
  {
    var t := BucketFor(request);
    PrepareInv(a, t);
    ReleaseUndoesCarve(Prepare(a, t), Fit(Prepare(a, t), t).value, request);
  }

  // ------------------------------------------------------------------ runs

  // One call. Grown is a malloc that the break cut short after `limit` was reached.
  datatype Event = Mallocs(request: nat) | Grown(limit: nat) | Frees(b: nat, k: nat, request: nat)

  ghost predicate Legal(a: State, e: Event) {
    e.Frees? ==> UsedAt(a, e.b, e.k, e.request) && a.limit <= e.b < |a.lists|
  }

  ghost function Next(a: State, e: Event): State
    requires Legal(a, e) && a.limit < |a.lists| == BUCKET_COUNT
  {
    match e
    case Mallocs(r) => Malloced(a, r).0
    case Grown(l) => GrowTo(a, l)
    case Frees(b, k, _) => Release(a, b, k)
  }

  // `states` is a run of the allocator that makes the calls `events`.
  ghost predicate Run(states: seq<State>, events: seq<Event>) {
    && |states| == |events| + 1 && states[0] == Initial()
    && forall i :: 0 <= i < |events| ==>
         Legal(states[i], events[i]) && states[i].limit < |states[i].lists| == BUCKET_COUNT &&
         states[i + 1] == Next(states[i], events[i])
  }

  // The blocks that the calls so far have handed out and not taken back.
  ghost function Outstanding(states: seq<State>, events: seq<Event>, n: nat): iset<(nat, nat, nat)>
    requires n <= |events| <= |states|
    requires forall i :: 0 <= i < |events| ==> states[i].limit < |states[i].lists| == BUCKET_COUNT
  {
    if n == 0 then iset{}
    else
      var before := Outstanding(states, events, n - 1);
      match events[n - 1]
      case Mallocs(r) =>
        var k := Malloced(states[n - 1], r).1;
        if k.Some? then before + iset{(BucketFor(r), k.value, r)} else before
      case Grown(_) => before
      case Frees(b, k, r) => before - iset{(b, k, r)}
  }

  // In every state of every run the heap is well formed and its used blocks are exactly
  // the outstanding ones.
  lemma {:induction false} RunInv(states: seq<State>, events: seq<Event>, n: nat)
    requires Run(states, events) && n <= |events|
    ensures Quiet(states[n])
    ensures forall b: nat, k: nat, r: nat :: UsedAt(states[n], b, k, r) <==> (b, k, r) in Outstanding(states, events, n)
    decreases n
  {
    if n == 0 {
      InitialQuiet();
      assert forall b: nat, k: nat :: Leaf(states[0], b, k) == if b == LAST_BUCKET && k == 0 then Some(Free) else None;
    } else {
      RunInv(states, events, n - 1);
      var a, e := states[n - 1], events[n - 1];
      assert Legal(a, e) && states[n] == Next(a, e);
      match e {
        case Mallocs(r) => MallocedInv(a, r);
        case Grown(l) => GrowToInv(a, l);
        case Frees(b, k, r) =>
          ReleaseInv(a, b, k, r);
          assert forall c: nat, j: nat, q: nat :: UsedAt(a, c, j, q) && c == b && j == k ==> q == r;
      }
    }
  }

  // An outstanding block lies inside the range, and has room for its header and its bytes if
  // the two do not wrap.
  lemma OutstandingFits(states: seq<State>, events: seq<Event>, n: nat, x: (nat, nat, nat))
    requires Run(states, events) && n <= |events| && x in Outstanding(states, events, n)
    ensures x.0 < BUCKET_COUNT && states[n].limit < BUCKET_COUNT
    ensures Offset(x.0, x.1) + Size(x.0) <= Size(states[n].limit)
    ensures x.2 + HEADER_SIZE < WORD ==> x.2 + HEADER_SIZE <= Size(x.0)
  {
    hide Offset, Pow2;
    RunInv(states, events, n);
    assert UsedAt(states[n], x.0, x.1, x.2);
    BlockInside(states[n], x.0, x.1);
    if x.2 + HEADER_SIZE < WORD {
      BlockHoldsRequest(x.2);
    }
  }

  // Outstanding blocks never overlap.
  lemma OutstandingApart(states: seq<State>, events: seq<Event>, n: nat, x: (nat, nat, nat), z: (nat, nat, nat))
    requires Run(states, events) && n <= |events|
    requires x in Outstanding(states, events, n) && z in Outstanding(states, events, n) && x != z
    ensures x.0 < BUCKET_COUNT && z.0 < BUCKET_COUNT
    ensures Offset(x.0, x.1) + Size(x.0) <= Offset(z.0, z.1) || Offset(z.0, z.1) + Size(z.0) <= Offset(x.0, x.1)
  {
    hide Offset, Pow2;
    RunInv(states, events, n);
    assert UsedAt(states[n], x.0, x.1, x.2) && UsedAt(states[n], z.0, z.1, z.2);
    BlocksApart(states[n], x.0, x.1, z.0, z.1);
  }

  // When everything has been freed, whatever the order, one free block is left at the base.
  lemma AllFreedIsWhole(states: seq<State>, events: seq<Event>, n: nat)
    requires Run(states, events) && n <= |events| && Outstanding(states, events, n) == iset{}
    ensures states[n].limit < BUCKET_COUNT
    ensures states[n] == State(states[n].limit, Free, seq(BUCKET_COUNT, c => if c == states[n].limit then [0] else []))
  {
    RunInv(states, events, n);
    AllFree(states[n]);
    assert states[n].lists == seq(BUCKET_COUNT, c => if c == states[n].limit then [0] else []);
  }

  // ------------------------------------------------------------------ the caller's bytes

  // The caller of malloc may write any of its bytes without disturbing a list or a header.
  lemma CallerMayWrite(y: Layout, m: Memory, m': Memory, a: State, b: nat, k: nat, request: nat)
    requires LayoutOk(y) && Quiet(a) && Linked(y, m, a, a.limit) && Headed(y, m, a)
    requires UsedAt(a, b, k, request) && b < BUCKET_COUNT && request + HEADER_SIZE < WORD
    requires forall x :: x + 4 <= Addr(y, b, k) + HEADER_SIZE || Addr(y, b, k) + HEADER_SIZE + request <= x ==>
               Read(m', x) == Read(m, x)
    ensures Linked(y, m', a, a.limit) && Headed(y, m', a)
  {
    hide Pow2, Offset, Shape, Coalesced;
    BlockHoldsRequest(request);
    forall e | a.limit <= e < BUCKET_COUNT
      ensures Ring(m', Chain(y, e, a.lists[e]))
    {
      var c := Chain(y, e, a.lists[e]);
      forall i | 0 <= i < |c|
        ensures Read(m', c[i]) == Read(m, c[i]) && Read(m', c[i] + 4) == Read(m, c[i] + 4)
      {
        NodeOutside(y, a, b, k, request, e, i);
      }
      forall i | 0 <= i < |c|
        ensures Joined(m', c, i)
      {
        assert Joined(m, c, i);
      }
    }
    forall e: nat, j: nat, r: nat | UsedAt(a, e, j, r) && e < BUCKET_COUNT
      ensures Read(m', Addr(y, e, j)) == r
    {
      SizeAtLeast(e);
      if e != b || j != k {
        BlocksApart(a, b, k, e, j);
      }
    }
  }

  lemma NodeOutside(y: Layout, a: State, b: nat, k: nat, request: nat, e: nat, i: nat)
    requires LayoutOk(y) && Quiet(a) && UsedAt(a, b, k, request) && b < BUCKET_COUNT && a.limit <= e < BUCKET_COUNT
    requires request + HEADER_SIZE <= Size(b) && i < |Chain(y, e, a.lists[e])|
    ensures var x := Chain(y, e, a.lists[e])[i];
            x + NODE_SIZE <= Addr(y, b, k) + HEADER_SIZE || Addr(y, b, k) + HEADER_SIZE + request <= x
  {
    if i == 0 {
      HeadFar(y, e, b, k);
    } else {
      var s := a.lists[e];
      assert s[i - 1] in s && IsFree(a, e, s[i - 1]);
      BlocksApart(a, b, k, e, s[i - 1]);
      SizeAtLeast(e);
    }
  }
}
