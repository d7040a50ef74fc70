// insert_area over the slots of the array (placement_memory.c:438-572), in 64-bit arithmetic and
// whatever the slots hold, and how it meets the insertion into a map that is in order.
module AreaSlots {
  import opened FreeAreas

  // The array of ten, the slot behind it that the shifts read, and the number of areas.
  datatype Slots = Slots(areas: seq<Area>, count: nat) {
    predicate Valid() {
      |areas| == MAX_MEMORY_AREAS_SIZE + 1 && count <= MAX_MEMORY_AREAS_SIZE
    }

    function Contents(): seq<Area>
      requires Valid()
    {
      areas[..count]
    }

    // Slots past the count are empty.
    predicate ZeroTail()
      requires Valid()
    {
      forall i :: count <= i <= MAX_MEMORY_AREAS_SIZE ==> areas[i] == Area(0, 0)
    }
  }

  // The loop that moves the slots behind `i` one place to the left.
  function Erased(p: Slots, i: nat): (q: Slots)
    requires p.Valid() && 0 < p.count && i <= p.count
    ensures q.Valid()
  {
    Slots(p.areas[..i] + p.areas[i + 1..p.count + 1] + p.areas[p.count..], p.count - 1)
  }

  function Replaced(p: Slots, i: nat, a: Area): (q: Slots)
    requires p.Valid() && i <= MAX_MEMORY_AREAS_SIZE
    ensures q.Valid() && q.count == p.count
  {
    p.(areas := p.areas[i := a])
  }

  // The loop that moves the slots behind `i` one place to the right; the gap is filled.
  function Widened(p: Slots, i: nat, left: Area, right: Area): (q: Slots)
    requires p.Valid() && i < p.count < MAX_MEMORY_AREAS_SIZE
    ensures q.Valid()
  {
    Slots(p.areas[..i] + [left, right] + p.areas[i + 1..p.count] + p.areas[p.count + 1..], p.count + 1)
  }

  // Everything after the collision checks. Sums wrap, so an area that ends with the last
  // address seems to touch an empty slot.
  function PlaceIn(p: Slots, c: nat, n: Area): (q: Slots)
    requires p.Valid() && c <= p.count < MAX_MEMORY_AREAS_SIZE
    ensures q.Valid()
  {
    var t := p.areas;
    if c > 0 && Sum(Last(t[c - 1]), 1) == n.start then
      var a := Area(t[c - 1].start, Sum(t[c - 1].size, n.size));
      if t[c].start == Sum(Last(a), 1) then Erased(Replaced(p, c - 1, Area(a.start, Sum(a.size, t[c].size))), c)
      else Replaced(p, c - 1, a)
    else if t[c].start == Sum(n.start, n.size) then Replaced(p, c, Area(n.start, Sum(t[c].size, n.size)))
    else Slots(t[c := n], p.count + 1)
  }

  function InsertIn(p: Slots, n: Area): (r: (int, Slots))
    requires p.Valid()
    ensures r.1.Valid() && (r.0 != 0 ==> r.1 == p)
  {
    if p.count == MAX_MEMORY_AREAS_SIZE then (-1, p)
    else if n.size == 0 then (-2, p)
    else
      var c := Slot(p.Contents(), n.start);
      if c > 0 && Overlap(p.areas[c - 1], n) then (-3, p)
      else if p.areas[c] != Area(0, 0) && Overlap(p.areas[c], n) then (-4, p)
      else (0, PlaceIn(p, c, n))
  }

  predicate InOrder(p: Slots) {
    p.Valid() && p.ZeroTail() && Ordered(p.Contents())
  }

  // Rising areas, which may overlap, and nothing behind them.
  predicate Sound(p: Slots) {
    p.Valid() && p.ZeroTail() && Rising(p.Contents())
  }

  // An area was overwritten: the last one that counts is an empty slot.
  predicate Overwritten(p: Slots) {
    p.Valid() && p.ZeroTail() && p.count >= 2 && p.areas[p.count - 1] == Area(0, 0)
  }

  lemma InOrderIsSound(p: Slots)
    requires InOrder(p)
    ensures Sound(p)
  {
  }

  // The array at the start.
  function Cleared(): (p: Slots)
    ensures p.Valid() && p.Contents() == [] && p.ZeroTail()
  {
    Slots(seq(MAX_MEMORY_AREAS_SIZE + 1, _ => Area(0, 0)), 0)
  }

  lemma FirstEmpty(p: Slots, i: nat)
    requires p.Valid() && i <= MAX_MEMORY_AREAS_SIZE && forall k :: 0 <= k < i ==> p.areas[k] != Area(0, 0)
    requires i < MAX_MEMORY_AREAS_SIZE ==> p.areas[i] == Area(0, 0)
    ensures InOrder(p) ==> i == p.count
  {
    if InOrder(p) && i < p.count {
      OrderedAt(p.Contents(), i);
    }
    assert i > p.count ==> p.areas[p.count] != Area(0, 0);
  }

  lemma ReplacedAt(p: Slots, i: nat, a: Area)
    requires p.Valid() && i < MAX_MEMORY_AREAS_SIZE
    ensures Replaced(p, i, a).areas[i] == a && Replaced(p, i, a).areas[i + 1] == p.areas[i + 1]
  {
  }

  lemma ReplacedTwice(p: Slots, i: nat, a: Area, b: Area)
    requires p.Valid() && i <= MAX_MEMORY_AREAS_SIZE
    ensures Replaced(Replaced(p, i, a), i, b) == Replaced(p, i, b)
  {
  }

  lemma WidenedAt(p: Slots, i: nat, left: Area, right: Area, k: nat)
    requires p.Valid() && i < p.count < MAX_MEMORY_AREAS_SIZE && k <= MAX_MEMORY_AREAS_SIZE
    ensures Widened(p, i, left, right).areas[k] ==
            if k == i then left else if k == i + 1 then right
            else if i < k <= p.count then p.areas[k - 1] else p.areas[k]
  {
  }

  lemma WidenedCount(p: Slots, i: nat, left: Area, right: Area)
    requires p.Valid() && i < p.count < MAX_MEMORY_AREAS_SIZE
    ensures Widened(p, i, left, right).count == p.count + 1
  {
  }

  lemma ErasedAt(p: Slots, i: nat, k: nat)
    requires p.Valid() && 0 < p.count && i <= p.count && k <= MAX_MEMORY_AREAS_SIZE
    ensures Erased(p, i).areas[k] == if i <= k < p.count then p.areas[k + 1] else p.areas[k]
  {
  }

  lemma ErasedCount(p: Slots, i: nat)
    requires p.Valid() && 0 < p.count && i <= p.count
    ensures Erased(p, i).count == p.count - 1
  {
  }

  lemma ErasedContents(p: Slots, i: nat)
    requires p.Valid() && i < p.count
    ensures Erased(p, i).count == p.count - 1
    ensures Erased(p, i).Contents() == p.Contents()[..i] + p.Contents()[i + 1..]
    ensures p.ZeroTail() ==> Erased(p, i).ZeroTail()
  {
    var c, q := p.Contents(), Erased(p, i);
    assert |q.Contents()| == |c| - 1;
    forall k | 0 <= k < |c| - 1
      ensures q.Contents()[k] == (c[..i] + c[i + 1..])[k]
    {
      ErasedAt(p, i, k);
    }
    assert q.Contents() == c[..i] + c[i + 1..];
    forall k | p.ZeroTail() && q.count <= k <= MAX_MEMORY_AREAS_SIZE
      ensures q.areas[k] == Area(0, 0)
    {
      ErasedAt(p, i, k);
    }
  }

  lemma ReplacedContents(p: Slots, i: nat, a: Area)
    requires p.Valid() && i < p.count
    ensures Replaced(p, i, a).Contents() == p.Contents()[..i] + [a] + p.Contents()[i + 1..]
    ensures p.ZeroTail() ==> Replaced(p, i, a).ZeroTail()
  {
  }

  lemma WidenedContents(p: Slots, i: nat, left: Area, right: Area)
    requires p.Valid() && i < p.count < MAX_MEMORY_AREAS_SIZE
    ensures Widened(p, i, left, right).count == p.count + 1
    ensures Widened(p, i, left, right).Contents() == p.Contents()[..i] + [left, right] + p.Contents()[i + 1..]
    ensures p.ZeroTail() ==> Widened(p, i, left, right).ZeroTail()
  {
    var q, c := Widened(p, i, left, right), p.Contents();
    assert q.Contents() == p.areas[..i] + [left, right] + p.areas[i + 1..p.count];
    forall k | p.ZeroTail() && q.count <= k <= MAX_MEMORY_AREAS_SIZE
      ensures q.areas[k] == Area(0, 0)
    {
      assert q.areas[k] == p.areas[k];
    }
  }

  // The entries behind the changed one.
  lemma Tails(p: Slots, i: nat, a: Area, b: Area)
    requires p.Valid() && i < p.count
    ensures Erased(p, i).count == p.count - 1 && Erased(p, i).areas[i..p.count - 1] == p.areas[i + 1..p.count]
    ensures Replaced(p, i, a).areas[i + 1..p.count] == p.areas[i + 1..p.count]
    ensures p.count < MAX_MEMORY_AREAS_SIZE ==>
              Widened(p, i, a, b).count == p.count + 1 &&
              Widened(p, i, a, b).areas[i + 1..p.count + 1] == [b] + p.areas[i + 1..p.count]
  {
    var e := Erased(p, i).areas[i..p.count - 1];
    forall k | 0 <= k < |e|
      ensures e[k] == p.areas[i + 1..p.count][k]
    {
      ErasedAt(p, i, i + k);
    }
    ErasedCount(p, i);
    if p.count < MAX_MEMORY_AREAS_SIZE {
      var w := Widened(p, i, a, b).areas[i + 1..p.count + 1];
      forall k | 0 <= k < |w|
        ensures w[k] == ([b] + p.areas[i + 1..p.count])[k]
      {
        WidenedAt(p, i, a, b, i + 1 + k);
      }
      WidenedCount(p, i, a, b);
    }
  }

  // In a map of rising areas, for an area that does not end with the last address, no sum wraps.

  lemma TouchesBelow(p: Slots, c: nat, n: Area)
    requires Sound(p) && 0 < c <= p.count && n.End() < ADDRESSES && p.Contents()[c - 1].start < n.start
    ensures Sum(Last(p.areas[c - 1]), 1) == n.start <==> p.Contents()[c - 1].End() == n.start
  {
    hide Rising, Last, Sum;
    RisingAt(p.Contents(), c - 1);
    LastIsEnd(p.Contents()[c - 1]);
  }

  lemma TouchesAbove(p: Slots, c: nat, n: Area)
    requires Sound(p) && c <= p.count < MAX_MEMORY_AREAS_SIZE && n.size > 0 && n.End() < ADDRESSES
    ensures p.areas[c].start == Sum(n.start, n.size) <==> c < p.count && p.Contents()[c].start == n.End()
    ensures c < p.count ==> n.size + p.Contents()[c].size < ADDRESSES || p.Contents()[c].start != n.End()
  {
    hide Rising, Last, Sum;
    SumIs(n.start, n.size);
    if c < p.count {
      RisingAt(p.Contents(), c);
    }
  }

  // The predecessor grows by the new area, or by that and its successor.
  function Lower(s: seq<Area>, c: nat, n: Area): Area
    requires 0 < c <= |s|
  {
    var more := if c < |s| && s[c].start == n.End() then s[c].size else 0;
    Area(s[c - 1].start, s[c - 1].size + n.size + more)
  }

  lemma PlaceInBelow(p: Slots, c: nat, n: Area)
    requires Sound(p) && 0 < c <= p.count < MAX_MEMORY_AREAS_SIZE && n.size > 0 && n.End() < ADDRESSES
    requires p.Contents()[c - 1].End() == n.start
    ensures var s := p.Contents();
            var u := Replaced(p, c - 1, Lower(s, c, n));
            PlaceIn(p, c, n) == if c < p.count && s[c].start == n.End() then Erased(u, c) else u
  {
    hide Rising, Last, Sum, Erased;
    var s := p.Contents();
    RisingAt(s, c - 1);
    TouchesBelow(p, c, n);
    var a := Area(s[c - 1].start, s[c - 1].size + n.size);
    SumIs(s[c - 1].size, n.size);
    LastIsEnd(a);
    TouchesAbove(p, c, n);
    SumIs(n.start, n.size);
    if c < p.count && s[c].start == n.End() {
      RisingAt(s, c);
      SumIs(a.size, s[c].size);
    }
  }

  lemma PlacedBelow(s: seq<Area>, c: nat, n: Area)
    requires 0 < c <= |s| && s[c - 1].End() == n.start
    ensures Placed(s, c, n) ==
            s[..c - 1] + [Lower(s, c, n)] + (if c < |s| && s[c].start == n.End() then s[c + 1..] else s[c..])
  {
  }

  // A piece in the middle, and the entry behind it taken out.
  lemma MiddleOut(l: seq<Area>, b: Area, r: seq<Area>)
    requires r != []
    ensures var u := l + [b] + r;
            u[..|l| + 1] + u[|l| + 2..] == l + [b] + r[1..]
  {
  }

  lemma PlaceBelow(p: Slots, c: nat, n: Area)
    requires Sound(p) && 0 < c <= p.count < MAX_MEMORY_AREAS_SIZE && n.size > 0 && n.End() < ADDRESSES
    requires p.Contents()[c - 1].End() == n.start
    ensures PlaceIn(p, c, n).Contents() == Placed(p.Contents(), c, n) && PlaceIn(p, c, n).ZeroTail()
  {
    hide Rising, PlaceIn, Erased, Placed, Lower;
    var s := p.Contents();
    var b := Lower(s, c, n);
    var u := Replaced(p, c - 1, b);
    PlaceInBelow(p, c, n);
    PlacedBelow(s, c, n);
    ReplacedContents(p, c - 1, b);
    if c < p.count && s[c].start == n.End() {
      ErasedContents(u, c);
      MiddleOut(s[..c - 1], b, s[c..]);
      assert s[c..][1..] == s[c + 1..];
    }
  }

  lemma PlaceInAside(p: Slots, c: nat, n: Area)
    requires Sound(p) && c <= p.count < MAX_MEMORY_AREAS_SIZE && n.size > 0 && n.End() < ADDRESSES
    requires c > 0 ==> p.Contents()[c - 1].start < n.start && p.Contents()[c - 1].End() != n.start
    ensures PlaceIn(p, c, n) ==
            if c < p.count && p.Contents()[c].start == n.End() then
              Replaced(p, c, Area(n.start, p.Contents()[c].size + n.size))
            else Slots(p.areas[c := n], p.count + 1)
  {
    hide Rising, Last, Sum, Erased;
    if c > 0 {
      TouchesBelow(p, c, n);
    }
    TouchesAbove(p, c, n);
    if c < p.count && p.Contents()[c].start == n.End() {
      SumIs(n.size, p.Contents()[c].size);
    }
  }

  lemma PlaceAside(p: Slots, c: nat, n: Area)
    requires Sound(p) && c <= p.count < MAX_MEMORY_AREAS_SIZE && n.size > 0 && n.End() < ADDRESSES
    requires c > 0 ==> p.Contents()[c - 1].start < n.start && p.Contents()[c - 1].End() != n.start
    ensures PlaceIn(p, c, n).Contents() == Placed(p.Contents(), c, n) && PlaceIn(p, c, n).ZeroTail()
  {
    hide Rising, PlaceIn;
    var t, s := p.areas, p.Contents();
    PlaceInAside(p, c, n);
    if c < p.count && s[c].start == n.End() {
      ReplacedContents(p, c, Area(n.start, s[c].size + n.size));
    } else if c < p.count {
      assert Slots(t[c := n], p.count + 1).Contents() == s[..c] + [n] + s[c + 1..] + [Area(0, 0)];
    } else {
      assert Slots(t[c := n], p.count + 1).Contents() == s[..c] + [n] + s[c..];
    }
  }

  lemma SumIs(x: nat, z: nat)
    requires x + z < ADDRESSES
    ensures Sum(x, z) == x + z == Sum(z, x)
  {
  }

  lemma InsertInSound(p: Slots, n: Area)
    requires Sound(p) && n.End() < ADDRESSES
    ensures InsertIn(p, n).1.ZeroTail()
    ensures (InsertIn(p, n).0, InsertIn(p, n).1.Contents()) == Insert(p.Contents(), n.start, n.size)
  {
    hide Rising, Overlap, PlaceIn, Placed;
    if p.count < MAX_MEMORY_AREAS_SIZE && n.size > 0 {
      var s, c := p.Contents(), Slot(p.Contents(), n.start);
      if c < p.count {
        RisingAt(s, c);
      }
      if c > 0 && s[c - 1].End() == n.start {
        PlaceBelow(p, c, n);
      } else {
        PlaceAside(p, c, n);
      }
    }
  }

  lemma InsertInOrder(p: Slots, n: Area)
    requires InOrder(p) && n.End() < ADDRESSES
    ensures InsertIn(p, n).1.ZeroTail()
    ensures (InsertIn(p, n).0, InsertIn(p, n).1.Contents()) == Insert(p.Contents(), n.start, n.size)
  {
    hide InsertIn, Insert;
    InOrderIsSound(p);
    InsertInSound(p, n);
  }

  // The first area that does not start before `x`.
  predicate FirstFrom(s: seq<Area>, i: int, x: nat) {
    0 <= i < |s| && x <= s[i].start && forall j :: 0 <= j < i ==> s[j].start < x
  }

  predicate StartsInside(s: seq<Area>, n: Area) {
    exists i :: 0 <= i < |s| && s[i].start < n.start < s[i].End()
  }

  predicate StartsOrEndsAbove(s: seq<Area>, n: Area) {
    exists i :: 0 <= i < |s| && FirstFrom(s, i, n.start) && (s[i].start == n.start || s[i].Has(n.End() - 1))
  }

  // Which areas insert_area refuses on a map in order, and with which code. It misses one that
  // covers the first area above its start.
  lemma InsertCodes(p: Slots, n: Area)
    requires InOrder(p) && n.End() < ADDRESSES
    ensures InsertIn(p, n).0 ==
            if p.count == 10 then -1
            else if n.size == 0 then -2
            else if StartsInside(p.Contents(), n) then -3
            else if StartsOrEndsAbove(p.Contents(), n) then -4
            else 0
  {
    hide Overlap, PlaceIn, Ordered;
    var s, c := p.Contents(), Slot(p.Contents(), n.start);
    if p.count < 10 && n.size > 0 {
      forall i | 0 <= i < |s|
        ensures s[i].size > 0 && s[i].End() < ADDRESSES
        ensures i < c - 1 ==> s[i].End() <= s[c - 1].start
        ensures i >= c ==> n.start <= s[i].start
        ensures i == c ==> FirstFrom(s, i, n.start)
      {
        OrderedAt(s, i);
        if i < c - 1 { OrderedPair(s, i, c - 1); }
        if i > c { OrderedPair(s, c, i); }
      }
      if c > 0 {
        OverlapExactly(s[c - 1], n);
      }
      if c < |s| {
        OverlapExactly(s[c], n);
      }
      assert forall i :: FirstFrom(s, i, n.start) ==> i == c;
    }
  }

  // The refusals leave everything as it was. [5, 15) before [10, 20) is one.
  lemma RefusedNeighbour()
    ensures var p := Slots([Area(10, 10)] + seq(10, _ => Area(0, 0)), 1);
            InsertIn(p, Area(5, 10)) == (-4, p) && InsertIn(p, Area(15, 10)) == (-3, p) &&
            InsertIn(p, Area(10, 1)) == (-4, p)
  {
    var p := Slots([Area(10, 10)] + seq(10, _ => Area(0, 0)), 1);
    assert p.Contents() == [Area(10, 10)];
  }

  // What insert_area is for: the map stays in order and covers the new area besides the old ones.
  ghost predicate Enters(p: Slots, n: Area)
    requires p.Valid()
  {
    var (rc, q) := InsertIn(p, n);
    rc == 0 && InOrder(q) && forall x :: Covers(q.Contents(), x) <==> Covers(p.Contents(), x) || n.Has(x)
  }

  // insert_area does that if and only if there is room for the new area and it does not end with
  // the last address.
  lemma InsertInExactly(p: Slots, n: Area)
    requires InOrder(p) && n.size > 0
    ensures Enters(p, n) <==> Room(p.Contents(), n.start, n.size) && n.End() < ADDRESSES
  {
    hide Ordered, Covers, InsertIn, Insert, Room;
    if n.End() < ADDRESSES {
      InsertInOrder(p, n);
      InsertExactly(p.Contents(), n.start, n.size);
      InsertedIs(p.Contents(), n.start, n.size);
    } else if Enters(p, n) {
      assert n.Has(n.End() - 1);
      LastNotCovered(InsertIn(p, n).1.Contents(), n.End() - 1);
    }
  }

  lemma InsertedIs(s: seq<Area>, start: nat, size: nat)
    requires |s| <= MAX_MEMORY_AREAS_SIZE
    ensures var (rc, t) := Insert(s, start, size);
            Inserted(s, start, size) <==>
              rc == 0 && Ordered(t) && forall x :: Covers(t, x) <==> Covers(s, x) || start <= x < start + size
  {
  }

  lemma LastNotCovered(s: seq<Area>, x: int)
    requires Ordered(s) && x >= ADDRESSES - 1
    ensures !Covers(s, x)
  {
  }

  // ------------------------------------------------------------------ maps out of order

  // Once an area has been overwritten every accepted insertion leaves it so, whatever the slots
  // hold: the empty slot at the end refuses what comes to lie behind it, and stays last.
  lemma OverwrittenStays(p: Slots, n: Area)
    requires Overwritten(p) && InsertIn(p, n).0 == 0
    ensures Overwritten(InsertIn(p, n).1)
  {
    hide Sum, Erased, Replaced;
    var c := Slot(p.Contents(), n.start);
    BehindEmpty(p, n, c);
    PlaceBeforeLast(p, c, n);
  }

  lemma BehindEmpty(p: Slots, n: Area, c: nat)
    requires Overwritten(p) && c == Slot(p.Contents(), n.start) && !(c > 0 && Overlap(p.areas[c - 1], n))
    ensures c < p.count - 1
  {
    var s := p.Contents();
    assert s[p.count - 1] == Area(0, 0);
    assert Overlap(Area(0, 0), n);
    assert 0 < c < p.count ==> s[0].start < n.start <= s[c].start;
  }

  lemma PlaceBeforeLast(p: Slots, c: nat, n: Area)
    requires Overwritten(p) && c < p.count - 1 && p.count < MAX_MEMORY_AREAS_SIZE
    ensures Overwritten(PlaceIn(p, c, n))
  {
    hide Sum, Last, Erased;
    var t := p.areas;
    if c > 0 && Sum(Last(t[c - 1]), 1) == n.start {
      var a := Area(t[c - 1].start, Sum(t[c - 1].size, n.size));
      if t[c].start == Sum(Last(a), 1) {
        var u := Replaced(p, c - 1, Area(a.start, Sum(a.size, t[c].size)));
        ErasedContents(u, c);
        ErasedAt(u, c, u.count - 2);
      }
    }
  }

  // A sound map after an accepted insertion: an area was overwritten, or it is sound again,
  // covers the new area besides the old ones, and is not in order if it was not before.
  lemma InsertInKeeps(p: Slots, n: Area)
    requires Sound(p) && n.End() < ADDRESSES && InsertIn(p, n).0 == 0
    ensures var q := InsertIn(p, n).1;
            if Overwritten(q) then true
            else Sound(q) && (InOrder(q) ==> InOrder(p)) &&
                 forall x :: Covers(q.Contents(), x) <==> Covers(p.Contents(), x) || n.Has(x)
  {
    hide Rising, Ordered, Covers, InsertIn, Insert;
    InsertInSound(p, n);
    InsertRising(p.Contents(), n.start, n.size);
  }

  // A map that is in order after an accepted insertion was in order before and had room.
  lemma InOrderExactly(p: Slots, n: Area)
    requires (Sound(p) || Overwritten(p)) && n.End() < ADDRESSES && InsertIn(p, n).0 == 0
    ensures InOrder(InsertIn(p, n).1) <==> InOrder(p) && Room(p.Contents(), n.start, n.size)
    ensures Sound(InsertIn(p, n).1) || Overwritten(InsertIn(p, n).1)
  {
    hide Rising, Ordered, Covers, InsertIn, Insert, Room;
    var q := InsertIn(p, n).1;
    if Overwritten(p) {
      OverwrittenStays(p, n);
      OverwrittenDisorder(p);
      OverwrittenDisorder(q);
    } else {
      InsertInKeeps(p, n);
      SomeSize(p, n);
      if Overwritten(q) {
        OverwrittenDisorder(q);
      }
      if InOrder(p) {
        InsertInExactly(p, n);
      }
    }
  }

  lemma SomeSize(p: Slots, n: Area)
    requires p.Valid() && InsertIn(p, n).0 == 0
    ensures n.size > 0
  {
  }

  lemma OverwrittenDisorder(p: Slots)
    requires Overwritten(p)
    ensures !InOrder(p) && !Sound(p)
  {
    assert p.Contents()[p.count - 1].size == 0;
  }

  // An area up to the last address is accepted and loses its neighbour: the empty slot behind
  // looks like one that goes on at 2^64, which is 0, and is merged and counted off.
  lemma LastAddressLosesAnArea()
    ensures var p := Slots([Area(ADDRESSES - 10, 5)] + seq(10, _ => Area(0, 0)), 1);
            var (rc, q) := InsertIn(p, Area(ADDRESSES - 5, 5));
            InOrder(p) && rc == 0 && q.count == 0
  {
  }
}
