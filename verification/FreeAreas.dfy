// Free memory as a sorted sequence of disjoint areas (placement_memory.c), and what it
// denotes: a set of addresses.
module FreeAreas {
  import opened Options

  const MAX_MEMORY_AREAS_SIZE: nat := 10
  const ADDRESSES: nat := 0x1_0000_0000_0000_0000

  datatype Area = Area(start: nat, size: nat) {
    // One past the last address.
    function End(): nat { start + size }

    predicate Has(x: int) { start <= x < start + size }
  }

  predicate Covers(s: seq<Area>, x: int) {
    exists i :: 0 <= i < |s| && s[i].Has(x)
  }

  // Non-empty areas in ascending order and disjoint. None ends with the last of the 2^64
  // addresses: insert_area cannot enter such an area.
  predicate Ordered(s: seq<Area>) {
    && (forall i :: 0 <= i < |s| ==> s[i].size > 0 && s[i].End() < ADDRESSES)
    && (forall i, j :: 0 <= i < j < |s| ==> s[i].End() <= s[j].start)
  }

  lemma CoversSum(s: seq<Area>, t: seq<Area>, x: int)
    ensures Covers(s + t, x) <==> Covers(s, x) || Covers(t, x)
  {
    if Covers(s, x) {
      var i :| 0 <= i < |s| && s[i].Has(x);
      assert (s + t)[i].Has(x);
    }
    if Covers(t, x) {
      var i :| 0 <= i < |t| && t[i].Has(x);
      assert (s + t)[|s| + i].Has(x);
    }
  }

  lemma CoversOne(a: Area, x: int)
    ensures Covers([a], x) <==> a.Has(x)
  {
    assert [a][0] == a;
  }

  // ------------------------------------------------------------------ taking a range out

  // What is left of an area without [lo, hi): up to two pieces.
  function CutOne(a: Area, lo: nat, hi: nat): seq<Area> {
    if a.End() <= lo || hi <= a.start then [a]
    else (if a.start < lo then [Area(a.start, lo - a.start)] else []) +
         (if hi < a.End() then [Area(hi, a.End() - hi)] else [])
  }

  function Cut(s: seq<Area>, lo: nat, hi: nat): seq<Area> {
    if s == [] then [] else CutOne(s[0], lo, hi) + Cut(s[1..], lo, hi)
  }

  lemma CutOneCovers(a: Area, lo: nat, hi: nat, x: int)
    requires lo <= hi
    ensures Covers(CutOne(a, lo, hi), x) <==> a.Has(x) && !(lo <= x < hi)
  {
    CoversOne(a, x);
    if !(a.End() <= lo || hi <= a.start) {
      var l := if a.start < lo then [Area(a.start, lo - a.start)] else [];
      var r := if hi < a.End() then [Area(hi, a.End() - hi)] else [];
      CoversSum(l, r, x);
      if a.start < lo { CoversOne(l[0], x); }
      if hi < a.End() { CoversOne(r[0], x); }
    }
  }

  // Cutting removes exactly the range from the set ...
  lemma {:induction false} CutCovers(s: seq<Area>, lo: nat, hi: nat, x: int)
    requires lo <= hi
    ensures Covers(Cut(s, lo, hi), x) <==> Covers(s, x) && !(lo <= x < hi)
  {
    if s == [] {
    } else {
      CutCovers(s[1..], lo, hi, x);
      CutOneCovers(s[0], lo, hi, x);
      CoversSum(CutOne(s[0], lo, hi), Cut(s[1..], lo, hi), x);
      CoversSum([s[0]], s[1..], x);
      CoversOne(s[0], x);
      assert s == [s[0]] + s[1..];
    }
  }

  // A range strictly inside an area splits it.
  predicate Inside(a: Area, lo: nat, hi: nat) {
    a.start < lo && hi < a.End()
  }

  lemma CutOnePieces(a: Area, lo: nat, hi: nat)
    requires a.size > 0 && a.End() < ADDRESSES && lo <= hi
    ensures Ordered(CutOne(a, lo, hi))
    ensures forall b :: b in CutOne(a, lo, hi) ==> a.start <= b.start && b.End() <= a.End()
    ensures |CutOne(a, lo, hi)| == 2 <==> Inside(a, lo, hi)
    ensures |CutOne(a, lo, hi)| <= 2 && (a.End() <= lo ==> |CutOne(a, lo, hi)| == 1)
  {
  }

  lemma OrderedSum(c: seq<Area>, d: seq<Area>)
    requires Ordered(c) && Ordered(d) && (c == [] || d == [] || c[|c| - 1].End() <= d[0].start)
    ensures Ordered(c + d)
  {
  }

  // ... and keeps the areas in order.
  lemma {:induction false} CutOrdered(s: seq<Area>, lo: nat, hi: nat)
    requires Ordered(s) && lo <= hi
    ensures Ordered(Cut(s, lo, hi))
    ensures forall b :: b in Cut(s, lo, hi) ==> s != [] && s[0].start <= b.start
  {
    hide CutOne;
    if s == [] {
    } else {
      CutOrdered(s[1..], lo, hi);
      CutOnePieces(s[0], lo, hi);
      assert s[1..] != [] ==> s[0].End() <= s[1].start;
      var c, d := CutOne(s[0], lo, hi), Cut(s[1..], lo, hi);
      assert c != [] ==> c[|c| - 1] in c;
      assert d != [] ==> d[0] in d;
      OrderedSum(CutOne(s[0], lo, hi), Cut(s[1..], lo, hi));
    }
  }

  // At most one area is split.
  lemma {:induction false} CutLength(s: seq<Area>, lo: nat, hi: nat)
    requires Ordered(s) && lo <= hi
    ensures |Cut(s, lo, hi)| <= |s| + 1
    ensures |Cut(s, lo, hi)| == |s| + 1 <==> exists i :: 0 <= i < |s| && Inside(s[i], lo, hi)
    ensures s != [] && lo <= s[0].start ==> |Cut(s, lo, hi)| <= |s|
  {
    hide CutOne;
    if s == [] {
    } else {
      var r := s[1..];
      CutLength(r, lo, hi);
      CutOnePieces(s[0], lo, hi);
      assert r != [] ==> s[0].End() <= r[0].start;
      if Inside(s[0], lo, hi) {
        assert forall i :: 0 < i < |s| ==> s[0].End() <= s[i].start;
        CutMisses(r, lo, hi);
      } else if i :| 0 <= i < |r| && Inside(r[i], lo, hi) {
        assert Inside(s[1 + i], lo, hi) && s[0].End() <= s[1 + i].start;
      } else {
        assert forall i :: 0 < i < |s| ==> s[i] == r[i - 1];
      }
    }
  }

  lemma {:induction false} CutSum(s: seq<Area>, t: seq<Area>, lo: nat, hi: nat)
    ensures Cut(s + t, lo, hi) == Cut(s, lo, hi) + Cut(t, lo, hi)
  {
    hide CutOne;
    if s == [] {
      assert s + t == t;
      assert Cut(s, lo, hi) + Cut(t, lo, hi) == Cut(t, lo, hi);
    } else {
      CutSum(s[1..], t, lo, hi);
      assert (s + t)[1..] == s[1..] + t;
      SumAssociates(CutOne(s[0], lo, hi), Cut(s[1..], lo, hi), Cut(t, lo, hi));
    }
  }

  lemma SumAssociates(a: seq<Area>, b: seq<Area>, c: seq<Area>)
    ensures (a + b) + c == a + (b + c)
  {
  }

  // No area ends where another one goes on.
  ghost predicate Separated(s: seq<Area>) {
    forall i :: 0 <= i < |s| ==> !Covers(s, s[i].End())
  }

  predicate EndsLike(s: seq<Area>, lo: nat, end: nat) {
    end == lo || exists i :: 0 <= i < |s| && s[i].End() == end
  }

  lemma {:induction false} CutEnds(s: seq<Area>, lo: nat, hi: nat, i: nat)
    requires i < |Cut(s, lo, hi)|
    ensures EndsLike(s, lo, Cut(s, lo, hi)[i].End())
  {
    if s == [] {
    } else {
      var c := CutOne(s[0], lo, hi);
      if i < |c| {
        assert c[i].End() == lo || c[i].End() == s[0].End();
      } else {
        CutEnds(s[1..], lo, hi, i - |c|);
        var e := Cut(s, lo, hi)[i].End();
        if j :| 0 <= j < |s[1..]| && s[1..][j].End() == e {
          assert s[1 + j].End() == e;
        }
      }
    }
  }

  lemma CutSeparated(s: seq<Area>, lo: nat, hi: nat)
    requires Separated(s) && lo < hi
    ensures Separated(Cut(s, lo, hi))
  {
    hide Cut, Covers;
    var c := Cut(s, lo, hi);
    forall i | 0 <= i < |c|
      ensures !Covers(c, c[i].End())
    {
      CutEnds(s, lo, hi, i);
      CutCovers(s, lo, hi, c[i].End());
    }
  }

  // A stretch of covered addresses lies in one area.
  lemma StretchInOneArea(s: seq<Area>, lo: nat, hi: nat) returns (i: nat)
    requires Separated(s) && lo < hi && forall x :: lo <= x < hi ==> Covers(s, x)
    ensures i < |s| && s[i].start <= lo && hi <= s[i].End()
  {
    assert Covers(s, lo);
    i :| 0 <= i < |s| && s[i].Has(lo);
    var e := s[i].End();
    assert e < hi ==> Covers(s, e);
  }

  // Areas that the range does not meet are kept.
  lemma {:induction false} CutMisses(s: seq<Area>, lo: nat, hi: nat)
    requires forall i :: 0 <= i < |s| ==> s[i].End() <= lo || hi <= s[i].start
    ensures Cut(s, lo, hi) == s
  {
    if s == [] {
    } else {
      CutMisses(s[1..], lo, hi);
    }
  }

  // A range inside one area changes that area only.
  lemma CutAt(s: seq<Area>, i: nat, lo: nat, hi: nat)
    requires Ordered(s) && i < |s| && s[i].start <= lo < hi <= s[i].End()
    ensures Cut(s, lo, hi) == s[..i] + CutOne(s[i], lo, hi) + s[i + 1..]
  {
    hide CutOne;
    CutMisses(s[..i], lo, hi);
    CutMisses(s[i + 1..], lo, hi);
    CutSum(s[..i], s[i..], lo, hi);
    assert s == s[..i] + s[i..];
    CutFirst(s[i..], lo, hi);
    assert s[i..][1..] == s[i + 1..];
  }

  lemma CutFirst(s: seq<Area>, lo: nat, hi: nat)
    requires s != []
    ensures Cut(s, lo, hi) == CutOne(s[0], lo, hi) + Cut(s[1..], lo, hi)
  {
  }

  // ------------------------------------------------------------------ first fit

  function FirstFit(s: seq<Area>, size: nat): (r: Option<nat>)
    ensures r.Some? ==> r.value < |s| && s[r.value].size >= size && forall i :: 0 <= i < r.value ==> s[i].size < size
    ensures r.None? ==> forall i :: 0 <= i < |s| ==> s[i].size < size
  {
    if s == [] then None
    else if s[0].size >= size then Some(0)
    else match FirstFit(s[1..], size) case None => None case Some(i) => Some(i + 1)
  }

  // ------------------------------------------------------------------ inserting

  // 64-bit sums, and the inclusive end of an area; that of an empty one at 0 is the last address.
  function Sum(x: nat, z: nat): nat {
    (x + z) % ADDRESSES
  }

  function Last(a: Area): (r: nat)
    ensures r < ADDRESSES
  {
    (a.start + a.size - 1) % ADDRESSES
  }

  // `overlapp`: does an end of `r` lie in `l`?
  predicate Overlap(l: Area, r: Area) {
    || (l.start <= r.start && r.start <= Last(l))
    || (l.start <= Last(r) && Last(r) <= Last(l))
  }

  lemma LastIsEnd(a: Area)
    requires a.size > 0 && a.End() <= ADDRESSES
    ensures Last(a) == a.End() - 1
    ensures Sum(Last(a), 1) == if a.End() == ADDRESSES then 0 else a.End()
  {
  }

  lemma OverlapExactly(l: Area, r: Area)
    requires l.size > 0 && l.End() <= ADDRESSES && r.size > 0 && r.End() <= ADDRESSES
    ensures Overlap(l, r) <==> (l.start <= r.start < l.End()) || (l.start < r.End() <= l.End())
  {
    hide Last;
    LastIsEnd(l);
    LastIsEnd(r);
  }

  predicate Disjoint(l: Area, r: Area) {
    l.End() <= r.start || r.End() <= l.start
  }

  // The number of areas that start before `start`, up to the first that does not.
  function Slot(s: seq<Area>, start: nat): (c: nat)
    ensures c <= |s|
    ensures forall i :: 0 <= i < c ==> s[i].start < start
    ensures c < |s| ==> start <= s[c].start
  {
    if s != [] && start > s[0].start then 1 + Slot(s[1..], start) else 0
  }

  lemma SlotIs(s: seq<Area>, start: nat, c: nat)
    requires c <= |s| && (forall i :: 0 <= i < c ==> s[i].start < start) && (c < |s| ==> start <= s[c].start)
    ensures Slot(s, start) == c
  {
  }

  // The areas that insert_area leaves when the new area `n` for slot `c` collides with no
  // neighbour. The fourth case does not move the areas from the slot on, so it overwrites
  // one of them and counts an empty slot instead.
  function Placed(s: seq<Area>, c: nat, n: Area): (t: seq<Area>)
    requires c <= |s|
    ensures |t| <= |s| + 1
  {
    if c > 0 && s[c - 1].End() == n.start then
      if c < |s| && s[c].start == n.End() then
        s[..c - 1] + [Area(s[c - 1].start, s[c - 1].size + n.size + s[c].size)] + s[c + 1..]
      else s[..c - 1] + [Area(s[c - 1].start, s[c - 1].size + n.size)] + s[c..]
    else if c < |s| && s[c].start == n.End() then s[..c] + [Area(n.start, s[c].size + n.size)] + s[c + 1..]
    else if c < |s| then s[..c] + [n] + s[c + 1..] + [Area(0, 0)]
    else s[..c] + [n] + s[c..]
  }

  // insert_area: the return code and the areas it leaves.
  function Insert(s: seq<Area>, start: nat, size: nat): (r: (int, seq<Area>))
    requires |s| <= MAX_MEMORY_AREAS_SIZE
    ensures |r.1| <= MAX_MEMORY_AREAS_SIZE && (r.0 != 0 ==> r.1 == s)
  {
    if |s| == MAX_MEMORY_AREAS_SIZE then (-1, s)
    else if size == 0 then (-2, s)
    else
      var c, n := Slot(s, start), Area(start, size);
      if c > 0 && Overlap(s[c - 1], n) then (-3, s)
      else if c < |s| && Overlap(s[c], n) then (-4, s)
      else (0, Placed(s, c, n))
  }

  // There is room for a new area: it meets no other one, and it touches a neighbour or
  // comes after all of them.
  predicate Room(s: seq<Area>, start: nat, size: nat) {
    && |s| < MAX_MEMORY_AREAS_SIZE && size > 0
    && (forall i :: 0 <= i < |s| ==> Disjoint(s[i], Area(start, size)))
    && ((forall i :: 0 <= i < |s| ==> s[i].start < start)
        || (exists i :: 0 <= i < |s| && (s[i].End() == start || s[i].start == start + size)))
  }

  ghost predicate Inserted(s: seq<Area>, start: nat, size: nat)
    requires |s| <= MAX_MEMORY_AREAS_SIZE
  {
    var (rc, t) := Insert(s, start, size);
    rc == 0 && Ordered(t) && forall x :: Covers(t, x) <==> Covers(s, x) || start <= x < start + size
  }

  // Weaker than Ordered: non-empty areas in the order of their starts, which may overlap.
  predicate Rising(s: seq<Area>) {
    && (forall i :: 0 <= i < |s| ==> s[i].size > 0 && s[i].End() < ADDRESSES)
    && (forall i, j :: 0 <= i < j < |s| ==> s[i].start < s[j].start)
  }

  lemma OrderedRising(s: seq<Area>)
    requires Ordered(s)
    ensures Rising(s)
  {
  }

  lemma RisingAt(s: seq<Area>, i: nat)
    requires Rising(s) && i < |s|
    ensures s[i].size > 0 && s[i].End() < ADDRESSES
  {
  }

  lemma OverlapNeighbours(s: seq<Area>, start: nat, size: nat)
    requires Rising(s) && size > 0 && start + size <= ADDRESSES
    ensures var c, n := Slot(s, start), Area(start, size);
            (c > 0 ==> (Overlap(s[c - 1], n) <==> !(s[c - 1].End() <= start))) &&
            (c < |s| && !Overlap(s[c], n) ==>
              start < s[c].start && (start + size <= s[c].start || s[c].End() < start + size))
  {
    hide Overlap, Rising;
    var c, n := Slot(s, start), Area(start, size);
    if c > 0 {
      RisingAt(s, c - 1);
      OverlapExactly(s[c - 1], n);
    }
    if c < |s| {
      RisingAt(s, c);
      OverlapExactly(s[c], n);
    }
  }

  lemma OrderedAt(s: seq<Area>, i: nat)
    requires Ordered(s) && i < |s|
    ensures s[i].size > 0 && s[i].End() < ADDRESSES
  {
  }

  // Replacing the areas from `i` to `j` by one that covers them and the new range.
  lemma ReplaceCovers(s: seq<Area>, i: nat, j: nat, a: Area, start: nat, size: nat, x: int)
    requires i <= j <= |s|
    requires a.Has(x) <==> Covers(s[i..j], x) || start <= x < start + size
    ensures Covers(s[..i] + [a] + s[j..], x) <==> Covers(s, x) || start <= x < start + size
  {
    CoversSum(s[..i] + [a], s[j..], x);
    CoversSum(s[..i], [a], x);
    CoversOne(a, x);
    CoversSum(s[..i], s[i..], x);
    CoversSum(s[i..j], s[j..], x);
    assert s == s[..i] + s[i..] && s[i..] == s[i..j] + s[j..];
  }

  lemma ReplaceOrdered(s: seq<Area>, i: nat, j: nat, a: Area)
    requires Ordered(s) && i <= j <= |s| && a.size > 0 && a.End() < ADDRESSES
    requires (i > 0 ==> s[i - 1].End() <= a.start) && (j < |s| ==> a.End() <= s[j].start)
    ensures Ordered(s[..i] + [a] + s[j..])
  {
    hide Ordered;
    OrderedSlice(s, 0, i);
    OrderedSlice(s, j, |s|);
    OrderedSingle(a);
    OrderedSum(s[..i], [a]);
    OrderedSum(s[..i] + [a], s[j..]);
  }

  lemma OrderedSingle(a: Area)
    requires a.size > 0 && a.End() < ADDRESSES
    ensures Ordered([a])
  {
  }

  lemma OrderedSlice(s: seq<Area>, i: nat, j: nat)
    requires Ordered(s) && i <= j <= |s|
    ensures Ordered(s[i..j])
  {
  }

  // The areas from `i` to `j`, at most two, touch the range on either side; `a` spans them and it.
  predicate Spans(s: seq<Area>, i: nat, j: nat, a: Area, start: nat, size: nat)
    requires i <= j <= |s|
  {
    && size > 0
    && (forall k :: i <= k < j ==> s[k].size > 0)
    && a.start == (if i < j && s[i].End() == start then s[i].start else start)
    && a.End() == (if i < j && s[j - 1].start == start + size then s[j - 1].End() else start + size)
    && j - i == (if i < j && s[i].End() == start then 1 else 0) +
                (if i < j && s[j - 1].start == start + size then 1 else 0)
  }

  lemma ReplaceUnion(s: seq<Area>, i: nat, j: nat, a: Area, start: nat, size: nat)
    requires i <= j <= |s| && Spans(s, i, j, a, start, size)
    ensures forall x :: Covers(s[..i] + [a] + s[j..], x) <==> Covers(s, x) || start <= x < start + size
  {
    forall x
      ensures Covers(s[..i] + [a] + s[j..], x) <==> Covers(s, x) || start <= x < start + size
    {
      hide Covers;
      MiddleCovers(s, i, j, a, start, size, x);
      ReplaceCovers(s, i, j, a, start, size, x);
    }
  }

  lemma MiddleCovers(s: seq<Area>, i: nat, j: nat, a: Area, start: nat, size: nat, x: int)
    requires i <= j <= |s| && Spans(s, i, j, a, start, size)
    ensures a.Has(x) <==> Covers(s[i..j], x) || start <= x < start + size
  {
    if j == i + 1 {
      assert s[i..j] == [s[i]];
      CoversOne(s[i], x);
    } else if j == i + 2 {
      assert s[i..j] == [s[i]] + [s[i + 1]];
      CoversSum([s[i]], [s[i + 1]], x);
      CoversOne(s[i], x);
      CoversOne(s[i + 1], x);
    }
  }

  lemma Replace(s: seq<Area>, i: nat, j: nat, a: Area, start: nat, size: nat)
    requires Ordered(s) && i <= j <= |s| && a.size > 0 && a.End() < ADDRESSES && Spans(s, i, j, a, start, size)
    requires (i > 0 ==> s[i - 1].End() <= a.start) && (j < |s| ==> a.End() <= s[j].start)
    ensures var t := s[..i] + [a] + s[j..];
            Ordered(t) && forall x :: Covers(t, x) <==> Covers(s, x) || start <= x < start + size
  {
    hide Ordered, Covers;
    ReplaceOrdered(s, i, j, a);
    ReplaceUnion(s, i, j, a, start, size);
  }

  lemma InsertWithRoom(s: seq<Area>, start: nat, size: nat)
    requires Ordered(s) && start + size < ADDRESSES && Room(s, start, size)
    ensures Inserted(s, start, size)
  {
    hide Ordered, Covers, Placed, Slot, Overlap, Room;
    var c, n := Slot(s, start), Area(start, size);
    RoomSize(s, start, size);
    InsertCases(s, start, size);
    PlacedWithRoom(s, c, n);
  }

  lemma RoomSize(s: seq<Area>, start: nat, size: nat)
    requires Room(s, start, size)
    ensures |s| < MAX_MEMORY_AREAS_SIZE && size > 0
  {
  }

  lemma PlacedWithRoom(s: seq<Area>, c: nat, n: Area)
    requires Ordered(s) && c <= |s| && n.size > 0 && n.End() < ADDRESSES
    requires c > 0 ==> s[c - 1].End() <= n.start && s[c - 1].size > 0
    requires c < |s| ==> n.End() <= s[c].start && s[c].End() < ADDRESSES && s[c].size > 0
    requires c > 1 ==> s[c - 2].End() <= s[c - 1].start
    requires c + 1 < |s| ==> s[c].End() <= s[c + 1].start
    requires (c > 0 && s[c - 1].End() == n.start) || c == |s| || s[c].start == n.End()
    ensures Ordered(Placed(s, c, n))
    ensures forall x :: Covers(Placed(s, c, n), x) <==> Covers(s, x) || n.start <= x < n.start + n.size
  {
    hide Ordered, Covers;
    if c > 0 && s[c - 1].End() == n.start {
      if c < |s| && s[c].start == n.End() {
        Replace(s, c - 1, c + 1, Area(s[c - 1].start, s[c - 1].size + n.size + s[c].size), n.start, n.size);
      } else {
        Replace(s, c - 1, c, Area(s[c - 1].start, s[c - 1].size + n.size), n.start, n.size);
      }
    } else if c < |s| {
      Replace(s, c, c + 1, Area(n.start, s[c].size + n.size), n.start, n.size);
    } else {
      Replace(s, c, c, n, n.start, n.size);
    }
  }

  // With room none of the refusals applies, nor the overwriting case, and the areas around
  // the slot leave space for the result.
  lemma InsertCases(s: seq<Area>, start: nat, size: nat)
    requires Ordered(s) && start + size < ADDRESSES && Room(s, start, size)
    ensures var c, n := Slot(s, start), Area(start, size);
            (c > 0 ==> !Overlap(s[c - 1], n) && s[c - 1].End() <= start && s[c - 1].size > 0) &&
            (c < |s| ==> !Overlap(s[c], n) && start + size <= s[c].start && s[c].End() < ADDRESSES && s[c].size > 0) &&
            (c > 1 ==> s[c - 2].End() <= s[c - 1].start) &&
            (c + 1 < |s| ==> s[c].End() <= s[c + 1].start) &&
            ((c > 0 && s[c - 1].End() == start) || c == |s| || s[c].start == start + size)
  {
    hide Ordered, Overlap, Room;
    var c, n := Slot(s, start), Area(start, size);
    assert size > 0 by { RoomSize(s, start, size); }
    NeighbourTouches(s, start, size);
    assert Rising(s) by { OrderedRising(s); }
    OverlapNeighbours(s, start, size);
    if c > 0 { OrderedAt(s, c - 1); }
    if c < |s| {
      OrderedAt(s, c);
      OverlapExactly(s[c], n);
    }
    if c > 1 { OrderedPair(s, c - 2, c - 1); }
    if c + 1 < |s| { OrderedPair(s, c, c + 1); }
  }

  // A touching area is next to the slot.
  lemma NeighbourTouches(s: seq<Area>, start: nat, size: nat)
    requires Ordered(s) && Room(s, start, size)
    ensures var c := Slot(s, start);
            (c > 0 && s[c - 1].End() == start) || c == |s| || s[c].start == start + size
    ensures var c := Slot(s, start);
            (c > 0 ==> s[c - 1].End() <= start) && (c < |s| ==> start + size <= s[c].start)
  {
    hide Ordered;
    var c := Slot(s, start);
    if c > 0 {
      OrderedPair(s, c - 1, c - 1);
    }
    if c < |s| {
      OrderedPair(s, c, c);
    }
    if i :| 0 <= i < |s| && (s[i].End() == start || s[i].start == start + size) {
      OrderedPair(s, i, i);
      if i < c { OrderedPair(s, i, c - 1); } else { OrderedPair(s, c, i); }
    }
  }

  // When insert_area succeeds and leaves the map in order, the new area met no other.
  lemma InsertedDisjoint(s: seq<Area>, start: nat, size: nat)
    requires |s| <= MAX_MEMORY_AREAS_SIZE && Ordered(s) && start + size < ADDRESSES && Inserted(s, start, size)
    ensures |s| < MAX_MEMORY_AREAS_SIZE && size > 0
    ensures var c := Slot(s, start);
            (c > 0 ==> s[c - 1].End() <= start) && (c < |s| ==> start + size <= s[c].start) &&
            (c == |s| || (c > 0 && s[c - 1].End() == start) || s[c].start == start + size)
  {
    hide Covers, Ordered, Overlap;
    var t := Insert(s, start, size).1;
    var c, n := Slot(s, start), Area(start, size);
    assert Rising(s) by { OrderedRising(s); }
    OverlapNeighbours(s, start, size);
    assert t != [];
    OrderedPair(t, |t| - 1, |t| - 1);
    if c > 0 && s[c - 1].End() == start && c < |s| && s[c].start != start + size {
      OrderedPair(s, c - 1, c);
      assert t[c - 1] == Area(s[c - 1].start, s[c - 1].size + size) && t[c] == s[c];
      OrderedPair(t, c - 1, c);
      OrderedPair(s, c, c);
    } else if c < |s| {
      OrderedPair(s, c, c);
    }
  }

  lemma OrderedPair(s: seq<Area>, i: nat, j: nat)
    requires Ordered(s) && i <= j < |s|
    ensures s[i].size > 0 && s[j].size > 0 && (i < j ==> s[i].End() <= s[j].start)
  {
  }

  lemma InsertWithoutRoom(s: seq<Area>, start: nat, size: nat)
    requires |s| <= MAX_MEMORY_AREAS_SIZE && Ordered(s) && start + size < ADDRESSES && Inserted(s, start, size)
    ensures Room(s, start, size)
  {
    hide Inserted;
    InsertedDisjoint(s, start, size);
    var c, n := Slot(s, start), Area(start, size);
    forall i | 0 <= i < |s|
      ensures Disjoint(s[i], n)
    {
    }
  }

  // insert_area adds exactly the new area and keeps the map in order if and only if there
  // was room for it. Then areas that could be merged are merged.
  lemma InsertExactly(s: seq<Area>, start: nat, size: nat)
    requires |s| <= MAX_MEMORY_AREAS_SIZE && Ordered(s) && start + size < ADDRESSES
    ensures Inserted(s, start, size) <==> Room(s, start, size)
    ensures Room(s, start, size) && Separated(s) ==> Separated(Insert(s, start, size).1)
  {
    if Room(s, start, size) {
      InsertWithRoom(s, start, size);
      if Separated(s) {
        InsertSeparated(s, start, size);
      }
    }
    if Inserted(s, start, size) {
      InsertWithoutRoom(s, start, size);
    }
  }

  // Where the areas that are left end: where one of the old ones ended that did not touch the
  // new area from below, or at the end of the new area if none goes on there.
  lemma PlacedEnds(s: seq<Area>, c: nat, n: Area, i: nat) returns (k: nat)
    requires Ordered(s) && c <= |s| && n.size > 0 && i < |Placed(s, c, n)|
    requires forall j :: 0 <= j < c ==> s[j].start < n.start
    requires (c > 0 ==> s[c - 1].End() <= n.start) && (c < |s| ==> n.End() <= s[c].start)
    requires (c > 0 && s[c - 1].End() == n.start) || c == |s| || s[c].start == n.End()
    ensures var e := Placed(s, c, n)[i].End();
            if k < |s| then e == s[k].End() != n.start else e == n.End() && (c < |s| ==> s[c].start != n.End())
  {
    hide Ordered;
    var below := c > 0 && s[c - 1].End() == n.start;
    var above := c < |s| && s[c].start == n.End();
    k := if below && above then (if i < c - 1 then i else i + 1)
         else if below then (if i == c - 1 then |s| else i)
         else if above then i
         else if i < c then i else |s|;
    if k < c - 1 {
      OrderedPair(s, k, c - 1);
    } else if c <= k < |s| {
      OrderedPair(s, k, k);
      OrderedPair(s, c, k);
    }
  }

  // With room the areas stay separated: no two of them could be merged.
  lemma InsertSeparated(s: seq<Area>, start: nat, size: nat)
    requires Ordered(s) && Separated(s) && start + size < ADDRESSES && Room(s, start, size)
    ensures Separated(Insert(s, start, size).1)
  {
    hide Ordered, Covers, Overlap, Room, Placed, Inserted, Separated;
    var c, n := Slot(s, start), Area(start, size);
    RoomSize(s, start, size);
    InsertCases(s, start, size);
    InsertWithRoom(s, start, size);
    var t := Insert(s, start, size).1;
    assert forall i :: 0 <= i < |t| ==> !Covers(t, t[i].End()) by {
      forall i | 0 <= i < |t|
        ensures !Covers(t, t[i].End())
      {
        var k := PlacedEnds(s, c, n, i);
        InsertedAt(s, start, size, t[i].End());
        if k < |s| {
          EndNotCovered(s, k);
          EndOutside(s, c, n, k);
        } else {
          NothingAbove(s, start, size);
        }
      }
    }
    SeparatedIf(t);
  }

  lemma SeparatedIf(s: seq<Area>)
    requires forall i :: 0 <= i < |s| ==> !Covers(s, s[i].End())
    ensures Separated(s)
  {
  }

  lemma EndNotCovered(s: seq<Area>, i: nat)
    requires Separated(s) && i < |s|
    ensures !Covers(s, s[i].End())
  {
  }

  lemma InsertedAt(s: seq<Area>, start: nat, size: nat, x: int)
    requires |s| <= MAX_MEMORY_AREAS_SIZE && Inserted(s, start, size)
    ensures Covers(Insert(s, start, size).1, x) <==> Covers(s, x) || start <= x < start + size
  {
  }

  lemma EndOutside(s: seq<Area>, c: nat, n: Area, k: nat)
    requires Ordered(s) && k < |s| && c <= |s| && n.size > 0 && s[k].End() != n.start
    requires (c > 0 ==> s[c - 1].End() <= n.start) && (c < |s| ==> n.End() <= s[c].start)
    ensures !n.Has(s[k].End())
  {
    hide Ordered;
    if k < c { OrderedPair(s, k, c - 1); } else { OrderedPair(s, c, k); }
  }

  // If no area goes on at the end of the new one, that address is not covered.
  lemma NothingAbove(s: seq<Area>, start: nat, size: nat)
    requires Ordered(s) && size > 0
    requires var c, n := Slot(s, start), Area(start, size);
             (c > 0 ==> s[c - 1].End() <= start) && (c < |s| ==> n.End() < s[c].start)
    ensures !Covers(s, start + size)
  {
  }

  // What is overwritten: the first area that does not start before the new one, and no other. An
  // empty slot is counted at the end.
  lemma InsertOverwrites(s: seq<Area>, start: nat, size: nat)
    requires |s| <= MAX_MEMORY_AREAS_SIZE && Insert(s, start, size).0 == 0
    requires var c := Slot(s, start);
             c < |s| && (c > 0 ==> s[c - 1].End() != start) && s[c].start != start + size
    ensures var t, c := Insert(s, start, size).1, Slot(s, start);
            |t| == |s| + 1 && t[c] == Area(start, size) && t[|s|] == Area(0, 0) &&
            forall i :: 0 <= i < |s| && i != c ==> t[i] == s[i]
  {
  }

  // ------------------------------------------------------------------ inserting without room

  lemma RisingSum(c: seq<Area>, d: seq<Area>)
    requires Rising(c) && Rising(d) && (c == [] || d == [] || c[|c| - 1].start < d[0].start)
    ensures Rising(c + d)
  {
    var e := c + d;
    forall i, j | 0 <= i < j < |e|
      ensures e[i].start < e[j].start
    {
      if i < |c| <= j {
        assert c[i].start <= c[|c| - 1].start && d[0].start <= d[j - |c|].start;
      }
    }
  }

  lemma RisingSlice(s: seq<Area>, i: nat, j: nat)
    requires Rising(s) && i <= j <= |s|
    ensures Rising(s[i..j])
  {
  }

  lemma RisingSingle(a: Area)
    requires a.size > 0 && a.End() < ADDRESSES
    ensures Rising([a])
  {
  }

  lemma RisingReplace(s: seq<Area>, i: nat, j: nat, a: Area)
    requires Rising(s) && i <= j <= |s| && a.size > 0 && a.End() < ADDRESSES
    requires (i > 0 ==> s[i - 1].start < a.start) && (j < |s| ==> a.start < s[j].start)
    ensures Rising(s[..i] + [a] + s[j..])
  {
    hide Rising;
    RisingSlice(s, 0, i);
    RisingSlice(s, j, |s|);
    RisingSingle(a);
    RisingSum(s[..i], [a]);
    RisingSum(s[..i] + [a], s[j..]);
  }

  // What order among areas, one of which stands for those from `i` to `j`, says of its neighbours.
  lemma ReplacedPairs(s: seq<Area>, i: nat, j: nat, a: Area)
    requires i <= j <= |s| && Ordered(s[..i] + [a] + s[j..])
    ensures Ordered(s[..i]) && Ordered(s[j..]) && a.size > 0 && a.End() < ADDRESSES
    ensures i > 0 ==> s[i - 1].End() <= a.start
    ensures j < |s| ==> a.End() <= s[j].start
  {
    hide Ordered;
    var t := s[..i] + [a] + s[j..];
    assert s[..i] == t[0..i] && s[j..] == t[i + 1..|t|];
    OrderedSlice(t, 0, i);
    OrderedSlice(t, i + 1, |t|);
    OrderedAt(t, i);
    if i > 0 { OrderedPair(t, i - 1, i); }
    if j < |s| { OrderedPair(t, i, i + 1); }
  }

  // If the areas are in order after some of them were replaced by one that spans them, they were
  // in order before.
  lemma ReplacedInOrder(s: seq<Area>, i: nat, j: nat, a: Area)
    requires Rising(s) && i <= j <= |s| && Ordered(s[..i] + [a] + s[j..]) && j <= i + 2
    requires i < j ==> a.start <= s[i].start && s[j - 1].End() <= a.End()
    requires j == i + 2 ==> s[i].End() <= s[i + 1].start
    ensures Ordered(s)
  {
    hide Ordered, Rising;
    var m := s[i..j];
    ReplacedPairs(s, i, j, a);
    MiddleOrdered(s, i, j);
    OrderedSum(s[..i], m);
    OrderedSum(s[..i] + m, s[j..]);
    assert s == s[..i] + m + s[j..];
  }

  lemma MiddleOrdered(s: seq<Area>, i: nat, j: nat)
    requires Rising(s) && i <= j <= |s| && j <= i + 2 && (j == i + 2 ==> s[i].End() <= s[i + 1].start)
    ensures Ordered(s[i..j])
  {
  }

  // What insert_area does to rising areas, room or not: an area is overwritten and an empty slot
  // counted, or the result is rising again and covers the new area besides the old ones; and it
  // is not in order if it was not before.
  lemma InsertRising(s: seq<Area>, start: nat, size: nat)
    requires Rising(s) && |s| <= MAX_MEMORY_AREAS_SIZE && start + size < ADDRESSES && Insert(s, start, size).0 == 0
    ensures var t := Insert(s, start, size).1;
            if s != [] && |t| == |s| + 1 && t[|s|] == Area(0, 0) then true
            else Rising(t) && (Ordered(t) ==> Ordered(s)) &&
                 forall x :: Covers(t, x) <==> Covers(s, x) || start <= x < start + size
  {
    hide Overlap, Rising, Ordered, Covers;
    var c, n := Slot(s, start), Area(start, size);
    OverlapNeighbours(s, start, size);
    if c > 0 { RisingAt(s, c - 1); }
    if c < |s| { RisingAt(s, c); }
    if c > 1 { RisingPair(s, c - 2, c - 1); }
    if c + 1 < |s| { RisingPair(s, c, c + 1); }
    PlacedRising(s, c, n);
  }

  lemma RisingPair(s: seq<Area>, i: nat, j: nat)
    requires Rising(s) && i < j < |s|
    ensures s[i].start < s[j].start
  {
  }

  lemma PlacedRising(s: seq<Area>, c: nat, n: Area)
    requires Rising(s) && c <= |s| && n.size > 0 && n.End() < ADDRESSES
    requires c > 0 ==> s[c - 1].start < n.start && s[c - 1].End() <= n.start && s[c - 1].size > 0
    requires c < |s| ==> n.start < s[c].start && s[c].size > 0 && s[c].End() < ADDRESSES
    requires c > 1 ==> s[c - 2].start < s[c - 1].start
    requires c + 1 < |s| ==> s[c].start < s[c + 1].start
    ensures var t := Placed(s, c, n);
            if s != [] && |t| == |s| + 1 && t[|s|] == Area(0, 0) then true
            else Rising(t) && (Ordered(t) ==> Ordered(s)) &&
                 forall x :: Covers(t, x) <==> Covers(s, x) || n.start <= x < n.start + n.size
  {
    hide Rising, Ordered, Covers;
    if c > 0 && s[c - 1].End() == n.start {
      if c < |s| && s[c].start == n.End() {
        SpanRising(s, c - 1, c + 1, Area(s[c - 1].start, s[c - 1].size + n.size + s[c].size), n);
      } else {
        SpanRising(s, c - 1, c, Area(s[c - 1].start, s[c - 1].size + n.size), n);
      }
    } else if c < |s| && s[c].start == n.End() {
      SpanRising(s, c, c + 1, Area(n.start, s[c].size + n.size), n);
    } else if c == |s| {
      SpanRising(s, c, c, n, n);
    }
  }

  lemma SpanRising(s: seq<Area>, i: nat, j: nat, a: Area, n: Area)
    requires Rising(s) && i <= j <= |s| && a.size > 0 && a.End() < ADDRESSES && Spans(s, i, j, a, n.start, n.size)
    requires (i > 0 ==> s[i - 1].start < a.start) && (j < |s| ==> a.start < s[j].start)
    requires j <= i + 2 && (j == i + 2 ==> s[i].End() <= s[i + 1].start)
    requires i < j ==> a.start <= s[i].start && s[j - 1].End() <= a.End()
    ensures var t := s[..i] + [a] + s[j..];
            Rising(t) && (Ordered(t) ==> Ordered(s)) &&
            forall x :: Covers(t, x) <==> Covers(s, x) || n.start <= x < n.start + n.size
  {
    hide Rising, Ordered, Covers;
    RisingReplace(s, i, j, a);
    ReplaceUnion(s, i, j, a, n.start, n.size);
    if Ordered(s[..i] + [a] + s[j..]) {
      ReplacedInOrder(s, i, j, a);
    }
  }

  // Without room it can report success and lose an area: inserting [50, 55) between two
  // others drops the second of them.
  lemma InsertLosesAnArea()
    ensures var s := [Area(0, 10), Area(100, 10)];
            Ordered(s) && Insert(s, 50, 5) == (0, [Area(0, 10), Area(50, 5), Area(0, 0)]) &&
            Covers(s, 105) && !Covers(Insert(s, 50, 5).1, 105)
  {
    var s := [Area(0, 10), Area(100, 10)];
    assert s[1].Has(105);
    assert s[..1] + [Area(50, 5)] + s[2..] + [Area(0, 0)] == [Area(0, 10), Area(50, 5), Area(0, 0)];
    assert s[1..] == [Area(100, 10)] && Slot(s[1..], 50) == 0 && Slot(s, 50) == 1;
  }
}
