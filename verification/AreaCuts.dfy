// allocate, allocate_area and allocate_area_cover over the slots of the array
// (placement_memory.c:164-432), in 64-bit arithmetic and whatever the slots hold, and what they
// are on a map that is in order.
module AreaCuts {
  import opened Options
  import opened FreeAreas
  import opened AreaSlots

  // 64-bit difference.
  function Less(x: nat, z: nat): nat {
    (x - z) % ADDRESSES
  }

  lemma LessIs(x: nat, z: nat)
    requires z <= x < ADDRESSES
    ensures Less(x, z) == x - z
  {
  }

  // ------------------------------------------------------------------ allocate

  // The search of allocate from entry `i` on: the address, and the slots it leaves.
  function AllocateFrom(p: Slots, i: nat, size: nat): (r: (nat, Slots))
    requires p.Valid() && i <= p.count
    ensures r.1.Valid()
    decreases p.count - i
  {
    if i == p.count then (0, p)
    else
      var a := p.areas[i];
      if a.size > size then (a.start, Replaced(p, i, Area(Sum(a.start, size), a.size - size)))
      else if a.size == size then (a.start, Erased(p, i))
      else AllocateFrom(p, i + 1, size)
  }

  function AllocateIn(p: Slots, size: nat): (r: (nat, Slots))
    requires p.Valid()
    ensures r.1.Valid()
  {
    if size == 0 then (0, p) else AllocateFrom(p, 0, size)
  }

  // The result of allocate, and the areas it leaves.
  function Given(s: seq<Area>, size: nat): (r: (nat, seq<Area>)) {
    match if size == 0 then None else FirstFit(s, size)
    case None => (0, s)
    case Some(i) => (s[i].start, Cut(s, s[i].start, s[i].start + size))
  }

  lemma GivenNone(s: seq<Area>, size: nat)
    requires size == 0 || forall k :: 0 <= k < |s| ==> s[k].size < size
    ensures Given(s, size) == (0, s)
  {
  }

  lemma GivenAt(s: seq<Area>, size: nat, i: nat)
    requires Ordered(s) && 0 < size && i < |s| && s[i].size >= size && forall k :: 0 <= k < i ==> s[k].size < size
    ensures var a := s[i];
            Given(s, size) ==
              (a.start,
               if a.size > size then s[..i] + [Area(a.start + size, a.size - size)] + s[i + 1..]
               else s[..i] + s[i + 1..])
  {
    hide Ordered, Cut;
    FirstFitIs(s, size, i);
    CutAt(s, i, s[i].start, s[i].start + size);
    var rest := if s[i].size > size then [Area(s[i].start + size, s[i].size - size)] else [];
    assert CutOne(s[i], s[i].start, s[i].start + size) == rest;
    assert rest == [] ==> s[..i] + rest + s[i + 1..] == s[..i] + s[i + 1..];
  }

  // A 0 that is no failure: exactly if the first area starts at 0 and is large enough.
  lemma ZeroIsNoFailure(s: seq<Area>, size: nat)
    requires Ordered(s)
    ensures Given(s, size).0 == 0 && Given(s, size).1 != s <==>
              size > 0 && s != [] && s[0].start == 0 && s[0].size >= size
  {
    hide Cut, Ordered;
    if size > 0 && FirstFit(s, size).Some? {
      var i := FirstFit(s, size).value;
      var a := s[i];
      GivenAt(s, size, i);
      OrderedPair(s, 0, i);
      assert s[i..] == [a] + s[i + 1..];
      if a.size > size {
        assert Given(s, size).1[i] != a;
      } else {
        assert |Given(s, size).1| == |s| - 1;
      }
    }
  }

  lemma ZeroForBoth()
    ensures Given([Area(0, 10)], 4) == (0, [Area(4, 6)]) && Given([Area(0, 10)], 40) == (0, [Area(0, 10)])
  {
    var s := [Area(0, 10)];
    assert Ordered(s);
    GivenAt(s, 4, 0);
    assert s[..0] + [Area(4, 6)] + s[1..] == [Area(4, 6)];
    GivenNone(s, 40);
  }

  lemma FirstFitIs(s: seq<Area>, size: nat, i: nat)
    requires i < |s| && s[i].size >= size && forall k :: 0 <= k < i ==> s[k].size < size
    ensures FirstFit(s, size) == Some(i)
  {
  }

  lemma {:induction false} AllocateFromInOrder(p: Slots, i: nat, size: nat)
    requires p.Valid() && Ordered(p.Contents()) && i <= p.count && size > 0
    requires forall k :: 0 <= k < i ==> p.Contents()[k].size < size
    ensures var (r, q) := AllocateFrom(p, i, size);
            (r, q.Contents()) == Given(p.Contents(), size) && (p.ZeroTail() ==> q.ZeroTail())
    decreases p.count - i
  {
    hide Ordered, Given, Erased, Replaced, Sum;
    var s := p.Contents();
    if i == p.count {
      GivenNone(s, size);
    } else {
      var a := s[i];
      OrderedAt(s, i);
      if a.size > size {
        GivenAt(s, size, i);
        SumIs(a.start, size);
        ReplacedContents(p, i, Area(a.start + size, a.size - size));
      } else if a.size == size {
        GivenAt(s, size, i);
        ErasedContents(p, i);
      } else {
        AllocateFromInOrder(p, i + 1, size);
      }
    }
  }

  // On a map in order allocate is first fit.
  lemma AllocateInOrder(p: Slots, size: nat)
    requires p.Valid() && Ordered(p.Contents())
    ensures var (r, q) := AllocateIn(p, size);
            (r, q.Contents()) == Given(p.Contents(), size) && (p.ZeroTail() ==> q.ZeroTail())
  {
    hide Ordered, AllocateFrom, Given;
    if size == 0 {
      GivenNone(p.Contents(), size);
    } else {
      AllocateFromInOrder(p, 0, size);
    }
  }

  // ------------------------------------------------------------------ allocate_area

  // The first entry from `i` on that does not end before `start`.
  function EndingAfter(p: Slots, i: nat, start: nat): (c: nat)
    requires p.Valid() && i <= p.count
    ensures i <= c <= p.count && (c < p.count ==> start <= Last(p.areas[c]))
    ensures forall k :: i <= k < c ==> Last(p.areas[k]) < start
    decreases p.count - i
  {
    if i < p.count && start > Last(p.areas[i]) then EndingAfter(p, i + 1, start) else i
  }

  // The case analysis for that entry.
  function TakeAt(p: Slots, i: nat, start: nat, size: nat): (r: (int, Slots))
    requires p.Valid() && i < p.count
    ensures r.1.Valid() && (r.0 != 0 ==> r.1 == p)
  {
    var a, end := p.areas[i], Last(Area(start, size));
    if a.start == start && Last(a) > end then (0, Replaced(p, i, Area(Sum(a.start, size), Less(a.size, size))))
    else if a.start < start && Last(a) == end then (0, Replaced(p, i, Area(a.start, Less(a.size, size))))
    else if a.start == start && Last(a) == end then (0, Erased(p, i))
    else if a.start < start && Last(a) > end then
      if p.count == MAX_MEMORY_AREAS_SIZE then (-4, p)
      else
        var left := start - a.start;
        (0, Widened(p, i, Area(a.start, left), Area(Sum(end, 1), Less(Less(a.size, size), left))))
    else (-5, p)
  }

  function TakeIn(p: Slots, start: nat, size: nat): (r: (int, Slots))
    requires p.Valid()
    ensures r.1.Valid() && (r.0 != 0 ==> r.1 == p)
  {
    if p.count == 0 then (-1, p)
    else if size == 0 then (-2, p)
    else
      var c := EndingAfter(p, 0, start);
      if c == p.count then (-3, p) else TakeAt(p, c, start, size)
  }

  // What a range inside an area leaves of it.
  lemma Pieces(a: Area, lo: nat, hi: nat)
    requires a.start <= lo < hi <= a.End()
    ensures CutOne(a, lo, hi) ==
            if a.start == lo then (if hi < a.End() then [Area(hi, a.End() - hi)] else [])
            else [Area(a.start, lo - a.start)] + (if hi < a.End() then [Area(hi, a.End() - hi)] else [])
  {
  }

  // A range inside an area fits unless it splits it and the array is full.
  lemma FitsIf(s: seq<Area>, i: nat, lo: nat, hi: nat)
    requires Ordered(s) && i < |s| <= MAX_MEMORY_AREAS_SIZE && s[i].start <= lo < hi <= s[i].End()
    requires forall k :: 0 <= k < |s| && Inside(s[k], lo, hi) ==> Inside(s[i], lo, hi)
    ensures |Cut(s, lo, hi)| <= MAX_MEMORY_AREAS_SIZE <==> |s| < MAX_MEMORY_AREAS_SIZE || !Inside(s[i], lo, hi)
  {
    hide Ordered, Cut;
    CutLength(s, lo, hi);
  }

  lemma TakeAtInOrder(p: Slots, i: nat, start: nat, size: nat)
    requires p.Valid() && Ordered(p.Contents()) && i < p.count && size > 0 && start + size <= ADDRESSES
    requires forall k :: 0 <= k < p.count && Inside(p.Contents()[k], start, start + size) ==>
               Inside(p.Contents()[i], start, start + size)
    ensures var (rc, q) := TakeAt(p, i, start, size);
            var s, hi := p.Contents(), start + size;
            if s[i].start <= start && hi <= s[i].End() && |Cut(s, start, hi)| <= MAX_MEMORY_AREAS_SIZE then
              rc == 0 && q.Contents() == Cut(s, start, hi) && (p.ZeroTail() ==> q.ZeroTail())
            else rc < 0 && q == p
  {
    hide Ordered, Cut, CutOne, Last, Sum, Less, Erased, Replaced, Widened;
    var s, a, hi := p.Contents(), p.areas[i], start + size;
    OrderedAt(s, i);
    LastIsEnd(a);
    LastIsEnd(Area(start, size));
    if a.start <= start && hi <= a.End() {
      CutAt(s, i, start, hi);
      Pieces(a, start, hi);
      FitsIf(s, i, start, hi);
      SumIs(a.start, size);
      LessIs(a.size, size);
      if a.start == start && hi < a.End() {
        ReplacedContents(p, i, Area(hi, a.End() - hi));
      } else if hi == a.End() && a.start < start {
        ReplacedContents(p, i, Area(a.start, start - a.start));
      } else if hi == a.End() {
        ErasedContents(p, i);
        assert s[..i] + [] + s[i + 1..] == s[..i] + s[i + 1..];
      } else if p.count < MAX_MEMORY_AREAS_SIZE {
        LessIs(a.size - size, start - a.start);
        WidenedContents(p, i, Area(a.start, start - a.start), Area(hi, a.End() - hi));
      }
    }
  }

  // If the first area that ends behind `start` does not hold the range, none does.
  lemma OnlyHere(s: seq<Area>, c: nat, start: nat, size: nat)
    requires Ordered(s) && c < |s| && size > 0 && s[c].End() > start
    requires forall k :: 0 <= k < c ==> s[k].End() <= start
    ensures (exists i :: 0 <= i < |s| && s[i].start <= start && start + size <= s[i].End()) <==>
            s[c].start <= start && start + size <= s[c].End()
    ensures (exists i :: 0 <= i < |s| && Inside(s[i], start, start + size)) <==> Inside(s[c], start, start + size)
  {
  }

  // On a map in order allocate_area takes exactly the range: 0 if it lies inside one free area and
  // the array has room for a split, otherwise a negative code and no change.
  lemma TakeInOrder(p: Slots, start: nat, size: nat)
    requires p.Valid() && Ordered(p.Contents()) && start + size <= ADDRESSES
    ensures var (rc, q) := TakeIn(p, start, size);
            var s, hi := p.Contents(), start + size;
            if size > 0 && (exists i :: 0 <= i < |s| && s[i].start <= start && hi <= s[i].End()) &&
               |Cut(s, start, hi)| <= MAX_MEMORY_AREAS_SIZE then
              rc == 0 && q.Contents() == Cut(s, start, hi) && (p.ZeroTail() ==> q.ZeroTail())
            else rc < 0 && q == p
  {
    hide Ordered, Cut, Last, TakeAt, Inside;
    var s := p.Contents();
    if p.count > 0 && size > 0 {
      var c := EndingAfter(p, 0, start);
      forall k | 0 <= k < p.count
        ensures Last(p.areas[k]) == s[k].End() - 1
      {
        OrderedAt(s, k);
        LastIsEnd(s[k]);
      }
      if c < p.count {
        assert forall k :: 0 <= k < c ==> s[k].End() <= start;
        OnlyHere(s, c, start, size);
        TakeAtInOrder(p, c, start, size);
      } else {
        assert forall k :: 0 <= k < |s| ==> s[k].End() <= start;
      }
    }
  }

  predicate WithinOne(s: seq<Area>, lo: nat, hi: nat) {
    exists i :: 0 <= i < |s| && s[i].start <= lo && hi <= s[i].End()
  }

  predicate SplitsOne(s: seq<Area>, lo: nat, hi: nat) {
    exists i :: 0 <= i < |s| && Inside(s[i], lo, hi)
  }

  // Which code allocate_area returns on a map in order.
  lemma TakeCodes(p: Slots, start: nat, size: nat)
    requires p.Valid() && Ordered(p.Contents()) && start + size <= ADDRESSES
    ensures var s, hi := p.Contents(), start + size;
            TakeIn(p, start, size).0 ==
            if p.count == 0 then -1
            else if size == 0 then -2
            else if forall i :: 0 <= i < |s| ==> s[i].End() <= start then -3
            else if !WithinOne(s, start, hi) then -5
            else if SplitsOne(s, start, hi) && p.count == 10 then -4
            else 0
  {
    hide Ordered, Cut, Last, TakeAt, Inside;
    var s := p.Contents();
    if p.count > 0 && size > 0 {
      var c := EndingAfter(p, 0, start);
      forall k | 0 <= k < p.count
        ensures Last(p.areas[k]) == s[k].End() - 1
      {
        OrderedAt(s, k);
        LastIsEnd(s[k]);
      }
      if c < p.count {
        OnlyHere(s, c, start, size);
        TakeAtCode(p, c, start, size);
      }
    }
  }

  lemma TakeAtCode(p: Slots, i: nat, start: nat, size: nat)
    requires p.Valid() && Ordered(p.Contents()) && i < p.count && size > 0 && start + size <= ADDRESSES
    requires p.Contents()[i].End() > start
    ensures var a, hi := p.Contents()[i], start + size;
            TakeAt(p, i, start, size).0 ==
            if !(a.start <= start && hi <= a.End()) then -5
            else if Inside(a, start, hi) && p.count == 10 then -4
            else 0
  {
    hide Ordered, Last, Sum, Less, Erased, Replaced, Widened;
    OrderedAt(p.Contents(), i);
    LastIsEnd(p.areas[i]);
    LastIsEnd(Area(start, size));
  }

  // ------------------------------------------------------------------ allocate_area_cover

  predicate Meets(a: Area, start: nat, end: nat) {
    start <= Last(a) && a.start <= end
  }

  // How many areas the range meets.
  function Meeting(s: seq<Area>, start: nat, end: nat): nat {
    if s == [] then 0 else (if Meets(s[0], start, end) then 1 else 0) + Meeting(s[1..], start, end)
  }

  // The four cases of an entry that the range meets: return code, slots, and the entry to go on
  // behind.
  function CoverEntry(p: Slots, i: nat, start: nat, end: nat): (r: (int, Slots, int))
    requires p.Valid() && i < p.count && end < ADDRESSES
    ensures r.1.Valid() && -1 <= r.2 < r.1.count && (r.0 == 0 || (r.0 == -1 && r.1 == p))
  {
    var a := p.areas[i];
    if start <= a.start && end >= Last(a) then (0, Erased(p, i), i - 1)
    else if start <= a.start then (0, Replaced(p, i, Area(end + 1, Last(a) - end)), i)
    else if end >= Last(a) then (0, Replaced(p, i, Area(a.start, start - a.start)), i)
    else if p.count == MAX_MEMORY_AREAS_SIZE then (-1, p, i)
    else (0, Widened(p, i, Area(a.start, start - a.start), Area(end + 1, Last(a) - end)), i)
  }

  // What is left behind entry `i` meets the range less often: the loop ends, whatever the slots
  // hold, although it steps back on an erased entry and adds one on a split.
  lemma CoverLess(p: Slots, i: nat, start: nat, end: nat)
    requires p.Valid() && i < p.count && end < ADDRESSES
    ensures var n := Meeting(p.areas[i..p.count], start, end);
            if !Meets(p.areas[i], start, end) then Meeting(p.areas[i + 1..p.count], start, end) == n
            else
              var (rc, q, j) := CoverEntry(p, i, start, end);
              rc == 0 ==> Meeting(q.areas[j + 1..q.count], start, end) < n
  {
    hide Last, Meeting, Erased, Replaced, Widened;
    var t := p.areas;
    MeetingFirst(t[i], t[i + 1..p.count], start, end);
    assert t[i..p.count] == [t[i]] + t[i + 1..p.count];
    if Meets(t[i], start, end) {
      if start <= t[i].start && end >= Last(t[i]) {
        Tails(p, i, t[i], t[i]);
        assert CoverEntry(p, i, start, end) == (0, Erased(p, i), i - 1);
      } else if start <= t[i].start {
        var right := Area(end + 1, Last(t[i]) - end);
        Tails(p, i, right, t[i]);
        assert CoverEntry(p, i, start, end) == (0, Replaced(p, i, right), i);
      } else if end >= Last(t[i]) {
        var left := Area(t[i].start, start - t[i].start);
        Tails(p, i, left, t[i]);
        assert CoverEntry(p, i, start, end) == (0, Replaced(p, i, left), i);
      } else if p.count < MAX_MEMORY_AREAS_SIZE {
        var left, right := Area(t[i].start, start - t[i].start), Area(end + 1, Last(t[i]) - end);
        Tails(p, i, left, right);
        MeetingFirst(right, t[i + 1..p.count], start, end);
        assert CoverEntry(p, i, start, end) == (0, Widened(p, i, left, right), i);
      }
    }
  }

  lemma MeetingFirst(a: Area, s: seq<Area>, start: nat, end: nat)
    ensures Meeting([a] + s, start, end) == (if Meets(a, start, end) then 1 else 0) + Meeting(s, start, end)
  {
    assert ([a] + s)[1..] == s;
  }

  function CoverFrom(p: Slots, i: nat, start: nat, end: nat): (r: (int, Slots))
    requires p.Valid() && i <= p.count && end < ADDRESSES
    ensures r.1.Valid() && (r.0 == 0 || r.0 == -1)
    decreases Meeting(p.areas[i..p.count], start, end), p.count - i
  {
    if i == p.count then (0, p)
    else
      CoverLess(p, i, start, end);
      if !Meets(p.areas[i], start, end) then CoverFrom(p, i + 1, start, end)
      else
        var (rc, q, j) := CoverEntry(p, i, start, end);
        if rc != 0 then (rc, q) else CoverFrom(q, j + 1, start, end)
  }

  function CoverIn(p: Slots, start: nat, size: nat): (r: (int, Slots))
    requires p.Valid()
    ensures r.1.Valid() && (r.0 == 0 || r.0 == -1)
  {
    CoverFrom(p, 0, start, Last(Area(start, size)))
  }

  // What the loop covers on a map in order: nothing from 0 on stands for everything, for its
  // inclusive end wraps.
  function CoverEnd(start: nat, size: nat): nat {
    if start == 0 && size == 0 then ADDRESSES else start + size
  }

  lemma CutOneMisses(a: Area, lo: nat, hi: nat)
    requires a.End() <= lo || hi <= a.start
    ensures CutOne(a, lo, hi) == [a]
  {
  }

  // An entry that the range does not meet is passed over.
  lemma StepMissed(c: seq<Area>, i: nat, lo: nat, hi: nat)
    requires i < |c| && (c[i].End() <= lo || hi <= c[i].start)
    ensures c[..i] + Cut(c[i..], lo, hi) == c[..i + 1] + Cut(c[i + 1..], lo, hi)
  {
    hide Cut, CutOne;
    CutFirst(c[i..], lo, hi);
    CutOneMisses(c[i], lo, hi);
    assert c[i..][1..] == c[i + 1..];
    assert c[..i] + [c[i]] == c[..i + 1];
    SumAssociates(c[..i], [c[i]], Cut(c[i + 1..], lo, hi));
  }

  // A refused split is the first change, and the result would not fit.
  lemma StepRefused(s: seq<Area>, c: seq<Area>, i: nat, lo: nat, hi: nat, changed: bool)
    requires Ordered(s) && lo <= hi && i < |c| == MAX_MEMORY_AREAS_SIZE && Inside(c[i], lo, hi)
    requires if changed then c[i].start >= lo else c == s
    ensures !changed && |Cut(s, lo, hi)| > MAX_MEMORY_AREAS_SIZE
  {
    hide Ordered, Cut;
    if !changed {
      CutLength(s, lo, hi);
    }
  }

  // Processing entry `i` replaces it by its pieces.
  lemma StepCut(c: seq<Area>, i: nat, lo: nat, hi: nat)
    requires Ordered(c) && i < |c| && lo <= hi
    ensures c[..i] + Cut(c[i..], lo, hi) == c[..i] + CutOne(c[i], lo, hi) + Cut(c[i + 1..], lo, hi)
    ensures Ordered(c[..i] + CutOne(c[i], lo, hi) + c[i + 1..])
    ensures c[i].End() > lo ==> forall k :: i < k < |c| ==> c[k].start >= lo
  {
    hide CutOne;
    CutFirst(c[i..], lo, hi);
    assert c[i..][1..] == c[i + 1..];
    SumAssociates(c[..i], CutOne(c[i], lo, hi), Cut(c[i + 1..], lo, hi));
    PiecesOrdered(c, i, lo, hi);
  }

  lemma PiecesOrdered(c: seq<Area>, i: nat, lo: nat, hi: nat)
    requires Ordered(c) && i < |c| && lo <= hi
    ensures Ordered(c[..i] + CutOne(c[i], lo, hi) + c[i + 1..])
  {
    hide CutOne, Ordered;
    var l, p, r := c[..i], CutOne(c[i], lo, hi), c[i + 1..];
    OrderedSlice(c, 0, i);
    OrderedSlice(c, i + 1, |c|);
    assert r == c[i + 1..|c|];
    OrderedPair(c, i, i);
    OrderedAt(c, i);
    CutOnePieces(c[i], lo, hi);
    if i > 0 { OrderedPair(c, i - 1, i); }
    if r != [] { OrderedPair(c, i, i + 1); }
    if i > 0 && r != [] { OrderedPair(c, i - 1, i + 1); }
    assert p != [] ==> p[0] in p && p[|p| - 1] in p;
    assert l + p != [] ==> (l + p)[|l + p| - 1] == if p != [] then p[|p| - 1] else c[i - 1];
    assert r != [] ==> r[0] == c[i + 1];
    OrderedSum(l, p);
    OrderedSum(l + p, r);
  }

  // The loop goes on behind the first piece that is left. If there is a second one, it is
  // met again and kept.
  lemma AfterEdit(c: seq<Area>, i: nat, lo: nat, hi: nat, c': seq<Area>)
    requires i < |c| && c[i].End() > lo && c[i].start < hi && lo <= hi
    requires c' == c[..i] + CutOne(c[i], lo, hi) + c[i + 1..] && |CutOne(c[i], lo, hi)| <= 2
    requires forall k :: i < k < |c| ==> c[k].start >= lo
    ensures var k := if CutOne(c[i], lo, hi) == [] then i else i + 1;
            k <= |c'| &&
            c'[..k] + Cut(c'[k..], lo, hi) == c[..i] + CutOne(c[i], lo, hi) + Cut(c[i + 1..], lo, hi) &&
            forall j :: k <= j < |c'| ==> c'[j].start >= lo
  {
    hide Cut;
    var p, r := CutOne(c[i], lo, hi), c[i + 1..];
    if |p| == 0 {
      assert c'[..i] == c[..i] + p && c'[i..] == r;
    } else if |p| == 1 {
      assert c'[..i + 1] == c[..i] + p && c'[i + 1..] == r;
    } else {
      assert c'[..i + 1] == c[..i] + [p[0]];
      assert c'[i + 1..][1..] == r && c'[i + 1] == p[1];
      CutFirst(c'[i + 1..], lo, hi);
      CutOneMisses(p[1], lo, hi);
      SumAssociates(c[..i] + [p[0]], [p[1]], Cut(r, lo, hi));
      assert c[..i] + [p[0]] + [p[1]] == c[..i] + p;
    }
  }

  // One entry that the range meets, on a map in order.
  lemma CoverEntryInOrder(p: Slots, i: nat, lo: nat, hi: nat)
    requires p.Valid() && Ordered(p.Contents()) && i < p.count && lo <= hi && 0 < hi <= ADDRESSES
    requires Meets(p.areas[i], lo, hi - 1)
    ensures var (rc, q, j) := CoverEntry(p, i, lo, hi - 1);
            var c := p.Contents();
            rc == (if Inside(c[i], lo, hi) && p.count == MAX_MEMORY_AREAS_SIZE then -1 else 0) &&
            (rc == 0 ==>
               q.Contents() == c[..i] + CutOne(c[i], lo, hi) + c[i + 1..] && (p.ZeroTail() ==> q.ZeroTail()) &&
               j == if CutOne(c[i], lo, hi) == [] then i - 1 else i)
  {
    hide Ordered, Last, Erased, Replaced, Widened;
    var c, a := p.Contents(), p.areas[i];
    OrderedAt(c, i);
    LastIsEnd(a);
    if lo <= a.start && hi >= a.End() {
      ErasedContents(p, i);
      assert CutOne(a, lo, hi) == [] && c[..i] + [] + c[i + 1..] == c[..i] + c[i + 1..];
    } else if lo <= a.start {
      ReplacedContents(p, i, Area(hi, a.End() - hi));
      assert CutOne(a, lo, hi) == [Area(hi, a.End() - hi)];
    } else if hi >= a.End() {
      ReplacedContents(p, i, Area(a.start, lo - a.start));
      assert CutOne(a, lo, hi) == [Area(a.start, lo - a.start)];
    } else if p.count < MAX_MEMORY_AREAS_SIZE {
      WidenedContents(p, i, Area(a.start, lo - a.start), Area(hi, a.End() - hi));
      assert CutOne(a, lo, hi) == [Area(a.start, lo - a.start), Area(hi, a.End() - hi)];
    }
  }

  // The loop from entry `i` on; `s` are the areas before the first change.
  lemma {:induction false} CoverFromInOrder(p: Slots, i: nat, lo: nat, hi: nat, s: seq<Area>, changed: bool)
    requires p.Valid() && Ordered(p.Contents()) && i <= p.count && lo <= hi && 0 < hi <= ADDRESSES && Ordered(s)
    requires |s| <= MAX_MEMORY_AREAS_SIZE
    requires Cut(s, lo, hi) == p.Contents()[..i] + Cut(p.Contents()[i..], lo, hi)
    requires if changed then forall k :: i <= k < p.count ==> p.Contents()[k].start >= lo else p.Contents() == s
    ensures var (rc, q) := CoverFrom(p, i, lo, hi - 1);
            rc == (if |Cut(s, lo, hi)| <= MAX_MEMORY_AREAS_SIZE then 0 else -1) &&
            q.Contents() == (if rc == 0 then Cut(s, lo, hi) else s) && (p.ZeroTail() ==> q.ZeroTail())
    decreases Meeting(p.areas[i..p.count], lo, hi - 1), p.count - i
  {
    hide Ordered, Cut, CutOne, CoverEntry, Meeting, Last;
    var c := p.Contents();
    if i == p.count {
      CutMisses(c[i..], lo, hi);
      assert c[..i] + c[i..] == c;
    } else {
      OrderedAt(c, i);
      LastIsEnd(c[i]);
      CoverLess(p, i, lo, hi - 1);
      if !Meets(p.areas[i], lo, hi - 1) {
        StepMissed(c, i, lo, hi);
        CoverFromInOrder(p, i + 1, lo, hi, s, changed);
      } else {
        CoverMet(p, i, lo, hi, s, changed);
        var (rc, q, j) := CoverEntry(p, i, lo, hi - 1);
        if rc == 0 {
          CoverFromInOrder(q, j + 1, lo, hi, s, true);
        }
      }
    }
  }

  // One round on an entry that the range meets.
  lemma CoverMet(p: Slots, i: nat, lo: nat, hi: nat, s: seq<Area>, changed: bool)
    requires p.Valid() && Ordered(p.Contents()) && i < p.count && lo <= hi && 0 < hi <= ADDRESSES && Ordered(s)
    requires Meets(p.areas[i], lo, hi - 1)
    requires Cut(s, lo, hi) == p.Contents()[..i] + Cut(p.Contents()[i..], lo, hi)
    requires if changed then forall k :: i <= k < p.count ==> p.Contents()[k].start >= lo else p.Contents() == s
    ensures var (rc, q, j) := CoverEntry(p, i, lo, hi - 1);
            if rc == 0 then
              Ordered(q.Contents()) && (p.ZeroTail() ==> q.ZeroTail()) &&
              Cut(s, lo, hi) == q.Contents()[..j + 1] + Cut(q.Contents()[j + 1..], lo, hi) &&
              forall k :: j + 1 <= k < q.count ==> q.Contents()[k].start >= lo
            else q.Contents() == s && |Cut(s, lo, hi)| > MAX_MEMORY_AREAS_SIZE
  {
    hide Ordered, Cut, CutOne, CoverEntry, Last;
    var c := p.Contents();
    OrderedAt(c, i);
    LastIsEnd(c[i]);
    StepCut(c, i, lo, hi);
    CutOnePieces(c[i], lo, hi);
    CoverEntryInOrder(p, i, lo, hi);
    var (rc, q, j) := CoverEntry(p, i, lo, hi - 1);
    if rc == 0 {
      AfterEdit(c, i, lo, hi, q.Contents());
    } else {
      StepRefused(s, c, i, lo, hi, changed);
    }
  }

  // On a map in order allocate_area_cover leaves exactly the cut, or fails without a change, and
  // only when the cut would need an eleventh entry.
  lemma CoverInOrder(p: Slots, start: nat, size: nat)
    requires p.Valid() && Ordered(p.Contents()) && start + size <= ADDRESSES
    ensures var (rc, q) := CoverIn(p, start, size);
            var s := Cut(p.Contents(), start, CoverEnd(start, size));
            rc == (if |s| <= MAX_MEMORY_AREAS_SIZE then 0 else -1) &&
            q.Contents() == (if rc == 0 then s else p.Contents()) && (p.ZeroTail() ==> q.ZeroTail())
  {
    hide Ordered, Cut, CoverFrom;
    var hi := CoverEnd(start, size);
    assert Last(Area(start, size)) == hi - 1;
    assert p.Contents()[..0] + Cut(p.Contents()[0..], start, hi) == Cut(p.Contents(), start, hi);
    CoverFromInOrder(p, 0, start, hi, p.Contents(), false);
  }

  // ------------------------------------------------------------------ a cover from 0 on

  // It is never refused, whatever the slots hold, and nothing it leaves starts within it.
  lemma {:induction false} FromZero(p: Slots, i: nat, end: nat)
    requires p.Valid() && i <= p.count && end + 1 < ADDRESSES
    requires forall k :: 0 <= k < i ==> p.areas[k].start > end
    ensures var (rc, q) := CoverFrom(p, i, 0, end);
            rc == 0 && forall k :: 0 <= k < q.count ==> q.areas[k].start > end
    decreases Meeting(p.areas[i..p.count], 0, end), p.count - i
  {
    hide Meeting, Last, Erased;
    if i == p.count {
    } else {
      CoverLess(p, i, 0, end);
      if !Meets(p.areas[i], 0, end) {
        FromZero(p, i + 1, end);
      } else {
        var (rc, q, j) := CoverEntry(p, i, 0, end);
        forall k | 0 <= k < j + 1
          ensures q.areas[k].start > end
        {
          if j < i { ErasedAt(p, i, k); }
        }
        FromZero(q, j + 1, end);
      }
    }
  }

  lemma SwellsAtLast(p: Slots, end: nat)
    requires p.Valid() && 0 < p.count && end + 1 < ADDRESSES && p.areas[p.count - 1] == Area(0, 0)
    ensures CoverFrom(p, p.count - 1, 0, end).1 == Replaced(p, p.count - 1, Area(end + 1, ADDRESSES - 1 - end))
  {
    hide Meeting;
    assert Last(Area(0, 0)) == ADDRESSES - 1;
    var q := Replaced(p, p.count - 1, Area(end + 1, ADDRESSES - 1 - end));
    assert CoverEntry(p, p.count - 1, 0, end) == (0, q, p.count - 1);
    assert CoverFrom(q, p.count, 0, end) == (0, q);
  }

  // An empty slot that counts, at the end, becomes everything behind the range.
  lemma {:induction false} FromZeroSwells(p: Slots, i: nat, end: nat)
    requires p.Valid() && i < p.count && end + 1 < ADDRESSES && p.areas[p.count - 1] == Area(0, 0)
    ensures var q := CoverFrom(p, i, 0, end).1;
            q.count > 0 && q.areas[q.count - 1] == Area(end + 1, ADDRESSES - 1 - end)
    decreases Meeting(p.areas[i..p.count], 0, end), p.count - i
  {
    hide Meeting, Erased, Last;
    if i == p.count - 1 {
      SwellsAtLast(p, end);
      return;
    }
    CoverLess(p, i, 0, end);
    if !Meets(p.areas[i], 0, end) {
      FromZeroSwells(p, i + 1, end);
    } else {
      var (rc, q, j) := CoverEntry(p, i, 0, end);
      if j < i {
        ErasedCount(p, i);
        ErasedAt(p, i, p.count - 2);
      }
      FromZeroSwells(q, j + 1, end);
    }
  }

  // If no area wraps it is the cut, in order or not.
  lemma {:induction false} FromZeroCuts(p: Slots, i: nat, end: nat)
    requires p.Valid() && i <= p.count && end + 1 < ADDRESSES
    requires forall k :: i <= k < p.count ==> p.Contents()[k].size > 0 && p.Contents()[k].End() < ADDRESSES
    ensures CoverFrom(p, i, 0, end).1.Contents() == p.Contents()[..i] + Cut(p.Contents()[i..], 0, end + 1)
    decreases Meeting(p.areas[i..p.count], 0, end), p.count - i
  {
    hide Meeting, Last, Erased, Replaced, Cut, CutOne;
    var c := p.Contents();
    if i == p.count {
      CutMisses(c[i..], 0, end + 1);
      assert c[..i] + c[i..] == c;
    } else {
      CoverLess(p, i, 0, end);
      LastIsEnd(c[i]);
      if !Meets(p.areas[i], 0, end) {
        StepMissed(c, i, 0, end + 1);
        FromZeroCuts(p, i + 1, end);
      } else {
        FromZeroMet(p, i, end);
        var (rc, q, j) := CoverEntry(p, i, 0, end);
        FromZeroCuts(q, j + 1, end);
      }
    }
  }

  lemma FromZeroMet(p: Slots, i: nat, end: nat)
    requires p.Valid() && i < p.count && end + 1 < ADDRESSES && Meets(p.areas[i], 0, end)
    requires p.Contents()[i].size > 0 && p.Contents()[i].End() < ADDRESSES
    ensures var (rc, q, j) := CoverEntry(p, i, 0, end);
            var c := p.Contents();
            rc == 0 && q.count - j == p.count - i &&
            (forall k :: j + 1 <= k < q.count ==> q.Contents()[k] == c[k + i - j]) &&
            q.Contents()[..j + 1] + Cut(q.Contents()[j + 1..], 0, end + 1) == c[..i] + Cut(c[i..], 0, end + 1)
  {
    hide Last, Erased, Replaced, Cut;
    var c, a := p.Contents(), p.Contents()[i];
    var hi := end + 1;
    LastIsEnd(a);
    CutFirst(c[i..], 0, hi);
    assert c[i..][1..] == c[i + 1..];
    var rest := Cut(c[i + 1..], 0, hi);
    var (rc, q, j) := CoverEntry(p, i, 0, end);
    if end >= Last(a) {
      ErasedContents(p, i);
      assert CutOne(a, 0, hi) == [];
      assert q.Contents()[..i] == c[..i] && q.Contents()[i..] == c[i + 1..];
      assert [] + rest == rest;
    } else {
      ReplacedContents(p, i, Area(hi, a.End() - hi));
      assert CutOne(a, 0, hi) == [Area(hi, a.End() - hi)];
      assert q.Contents()[..i + 1] == c[..i] + [Area(hi, a.End() - hi)] && q.Contents()[i + 1..] == c[i + 1..];
      SumAssociates(c[..i], [Area(hi, a.End() - hi)], rest);
    }
  }

  // ------------------------------------------------------------------ what allocate finds

  // The entry that the search stops at, if any, and what it does there.
  lemma {:induction false} AllocateFinds(p: Slots, i: nat, size: nat) returns (k: nat)
    requires p.Valid() && i <= p.count && size > 0
    ensures i <= k <= p.count && forall j :: i <= j < k ==> p.areas[j].size < size
    ensures k == p.count ==> AllocateFrom(p, i, size) == (0, p)
    ensures k < p.count ==>
              var a := p.areas[k];
              a.size >= size &&
              AllocateFrom(p, i, size) ==
                (a.start,
                 if a.size > size then Replaced(p, k, Area(Sum(a.start, size), a.size - size)) else Erased(p, k))
    decreases p.count - i
  {
    hide Erased, Replaced, Sum;
    if i == p.count || p.areas[i].size >= size {
      k := i;
    } else {
      k := AllocateFinds(p, i + 1, size);
    }
  }

  // A cover of no bytes changes nothing that is free, unless it starts at 0: then nothing is left.
  lemma {:induction false} CoverOfNothing(s: seq<Area>, start: nat, x: int)
    requires Ordered(s)
    ensures start > 0 ==> (Covers(Cut(s, start, CoverEnd(start, 0)), x) <==> Covers(s, x))
    ensures start == 0 ==> Cut(s, start, CoverEnd(start, 0)) == []
  {
    hide Covers;
    if start > 0 {
      CutCovers(s, start, start, x);
    } else if s == [] {
    } else {
      OrderedAt(s, 0);
      OrderedSlice(s, 1, |s|);
      assert s[1..|s|] == s[1..];
      CoverOfNothing(s[1..], 0, x);
      assert CutOne(s[0], 0, ADDRESSES) == [];
    }
  }
}
