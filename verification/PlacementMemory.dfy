// The free-area map (placement_memory.c): an array that is shifted, split and merged in place.
// Slot 10 stands for the words behind the array of ten, which the shifts read. Every method
// works on any slots; what it does to a map in order follows from the lemmas about the functions
// that it is proved against.
module PlacementMemory {
  import opened FreeAreas
  import opened AreaSlots
  import opened AreaCuts

  class FreeMap {
    const areas: array<Area>
    var count: nat

    ghost predicate Valid()
      reads this
    {
      areas.Length == MAX_MEMORY_AREAS_SIZE + 1 && count <= MAX_MEMORY_AREAS_SIZE
    }

    ghost function State(): (p: Slots)
      requires Valid()
      reads this, areas
      ensures p.Valid()
    {
      Slots(areas[..], count)
    }

    // clear_placement_memory_array.
    constructor ()
      ensures Valid() && State() == Cleared() && fresh(areas)
    {
      areas := new Area[MAX_MEMORY_AREAS_SIZE + 1](_ => Area(0, 0));
      count := 0;
    }

    // The first empty slot; on a map in order, the number of areas.
    method MemoryAreasSize() returns (r: nat)
      requires Valid()
      ensures r <= MAX_MEMORY_AREAS_SIZE && forall k :: 0 <= k < r ==> areas[k] != Area(0, 0)
      ensures r < MAX_MEMORY_AREAS_SIZE ==> areas[r] == Area(0, 0)
      ensures InOrder(State()) ==> r == count
    {
      var i := 0;
      while i < MAX_MEMORY_AREAS_SIZE
        invariant i <= MAX_MEMORY_AREAS_SIZE && forall k :: 0 <= k < i ==> areas[k] != Area(0, 0)
      {
        if areas[i].start == 0 && areas[i].size == 0 {
          FirstEmpty(State(), i);
          return i;
        }
        i := i + 1;
      }
      FirstEmpty(State(), i);
      return MAX_MEMORY_AREAS_SIZE;
    }

    // Shift the entries behind `i` to the left and count one less.
    method Erase(i: nat)
      requires Valid() && i <= count && 0 < count
      modifies this`count, areas
      ensures Valid() && State() == Erased(old(State()), i)
    {
      hide Erased;
      ghost var p := State();
      var j := i;
      while j < count
        invariant i <= j <= count
        modifies areas
        invariant forall k :: 0 <= k < i || j <= k <= MAX_MEMORY_AREAS_SIZE ==> areas[k] == p.areas[k]
        invariant forall k :: i <= k < j ==> areas[k] == p.areas[k + 1]
      {
        areas[j] := areas[j + 1];
        j := j + 1;
      }
      count := count - 1;
      ghost var q := Erased(p, i);
      forall k | 0 <= k <= MAX_MEMORY_AREAS_SIZE
        ensures areas[k] == q.areas[k]
      {
        ErasedAt(p, i, k);
      }
      assert areas[..] == q.areas;
      assert q.count == p.count - 1 by { ErasedCount(p, i); }
    }

    // Shift the entries behind `i` to the right, and fill the gap.
    method SplitAt(i: nat, left: Area, right: Area)
      requires Valid() && i < count < MAX_MEMORY_AREAS_SIZE
      modifies this`count, areas
      ensures Valid() && State() == Widened(old(State()), i, left, right)
    {
      hide Widened;
      ghost var p := State();
      areas[i] := left;
      ShiftRight(i);
      count := count + 1;
      areas[i + 1] := right;
      ghost var q := Widened(p, i, left, right);
      forall k | 0 <= k <= MAX_MEMORY_AREAS_SIZE
        ensures areas[k] == q.areas[k]
      {
        WidenedAt(p, i, left, right, k);
      }
      assert areas[..] == q.areas;
      assert q.count == p.count + 1 by { WidenedCount(p, i, left, right); }
    }

    // Move the entries behind `i` one place to the right.
    method ShiftRight(i: nat)
      requires Valid() && i < count < MAX_MEMORY_AREAS_SIZE
      modifies areas
      ensures forall k :: 0 <= k <= i || count < k <= MAX_MEMORY_AREAS_SIZE ==> areas[k] == old(areas[k])
      ensures forall k :: i < k <= count ==> areas[k] == old(areas[k - 1])
    {
      var j := count;
      while j > i
        invariant i <= j <= count
        invariant forall k :: 0 <= k <= j || count < k <= MAX_MEMORY_AREAS_SIZE ==> areas[k] == old(areas[k])
        invariant forall k :: j < k <= count ==> areas[k] == old(areas[k - 1])
      {
        areas[j] := areas[j - 1];
        j := j - 1;
      }
    }

    // Replace entry `i`.
    method Resize(i: nat, a: Area)
      requires Valid() && i <= MAX_MEMORY_AREAS_SIZE
      modifies areas
      ensures Valid() && State() == Replaced(old(State()), i, a)
    {
      areas[i] := a;
    }

    // ---------------------------------------------------------------- insert_area

    method InsertArea(start: nat, size: nat) returns (rc: int)
      requires Valid()
      modifies this`count, areas
      ensures Valid() && (rc, State()) == InsertIn(old(State()), Area(start, size))
    {
      hide Overlap, Slot, PlaceIn;
      if count == MAX_MEMORY_AREAS_SIZE {
        return -1;
      }
      if size == 0 {
        return -2;
      }
      var c := FindSlot(start);
      var n := Area(start, size);
      if c > 0 && Overlap(areas[c - 1], n) {
        return -3;
      }
      if !(areas[c].size == 0 && areas[c].start == 0) {
        if Overlap(areas[c], n) {
          return -4;
        }
      }
      rc := Place(c, n);
    }

    // The search for the slot.
    method FindSlot(start: nat) returns (c: nat)
      requires Valid() && count < MAX_MEMORY_AREAS_SIZE
      ensures c <= count && c == Slot(State().Contents(), start)
    {
      ghost var s := State().Contents();
      c := 0;
      while start > areas[c].start && c < count
        invariant 0 <= c <= count && forall k :: 0 <= k < c ==> s[k].start < start
        decreases count - c
      {
        c := c + 1;
      }
      SlotIs(s, start, c);
    }

    // Everything after the collision checks; `c` is the slot.
    method Place(c: nat, n: Area) returns (rc: int)
      requires Valid() && c <= count < MAX_MEMORY_AREAS_SIZE
      modifies this`count, areas
      ensures Valid() && rc == 0 && State() == PlaceIn(old(State()), c, n)
    {
      hide Last, Sum, Erased;
      if c > 0 {
        var predEnd := Last(areas[c - 1]);
        if Sum(predEnd, 1) == n.start {
          MergeWithPredecessor(c, n);
          return 0;
        }
      }
      if areas[c].start == Sum(n.start, n.size) {
        Resize(c, Area(n.start, Sum(areas[c].size, n.size)));
        return 0;
      }
      areas[c] := n;
      count := count + 1;
      return 0;
    }

    method MergeWithPredecessor(c: nat, n: Area)
      requires Valid() && 0 < c <= count < MAX_MEMORY_AREAS_SIZE && Sum(Last(areas[c - 1]), 1) == n.start
      modifies this`count, areas
      ensures Valid() && State() == PlaceIn(old(State()), c, n)
    {
      hide Last, Sum, Erased, Replaced;
      ghost var p, a := State(), Area(areas[c - 1].start, Sum(areas[c - 1].size, n.size));
      Resize(c - 1, Area(areas[c - 1].start, Sum(areas[c - 1].size, n.size)));
      ReplacedAt(p, c - 1, a);
      var end := Last(areas[c - 1]);
      if areas[c].start == Sum(end, 1) {
        ghost var b := Area(a.start, Sum(a.size, areas[c].size));
        Resize(c - 1, Area(areas[c - 1].start, Sum(areas[c - 1].size, areas[c].size)));
        ReplacedTwice(p, c - 1, a, b);
        Erase(c);
      }
    }

    // ---------------------------------------------------------------- allocate

    // First fit: take `size` bytes from the front of the lowest entry that has them. 0 means
    // failure, or an area that starts at 0.
    method Allocate(size: nat) returns (r: nat)
      requires Valid()
      modifies this`count, areas
      ensures Valid() && (r, State()) == AllocateIn(old(State()), size)
    {
      hide Sum, Erased, Replaced;
      if count == 0 {
        return 0;
      }
      if size == 0 {
        return 0;
      }
      ghost var p := State();
      var i := 0;
      while i < count
        invariant Valid() && i <= count && State() == p && AllocateFrom(p, 0, size) == AllocateFrom(p, i, size)
      {
        var a := areas[i];
        if a.size > size {
          Resize(i, Area(Sum(a.start, size), a.size - size));
          return a.start;
        } else if a.size == size {
          Erase(i);
          return a.start;
        }
        i := i + 1;
      }
      return 0;
    }

    // ---------------------------------------------------------------- allocate_area

    method AllocateArea(start: nat, size: nat) returns (rc: int)
      requires Valid()
      modifies this`count, areas
      ensures Valid() && (rc, State()) == TakeIn(old(State()), start, size)
    {
      hide Last, TakeAt;
      if count == 0 {
        return -1;
      }
      if size == 0 {
        return -2;
      }
      ghost var p := State();
      var current := -1;
      var i := 0;
      while i < count
        invariant 0 <= i <= count && current == -1
        invariant EndingAfter(p, 0, start) == EndingAfter(p, i, start)
        modifies {}
      {
        if start > Last(areas[i]) {
          i := i + 1;
          continue;
        }
        current := i;
        break;
      }
      if current == -1 {
        return -3;
      }
      rc := TakeFrom(current, start, size);
    }

    // The case analysis for the first entry that does not end before `start`.
    method TakeFrom(current: nat, start: nat, size: nat) returns (rc: int)
      requires Valid() && current < count
      modifies this`count, areas
      ensures Valid() && (rc, State()) == TakeAt(old(State()), current, start, size)
    {
      hide Last, Sum, Less, Erased, Replaced, Widened;
      var a := areas[current];
      var end := Last(Area(start, size));
      if a.start == start && Last(a) > end {
        Resize(current, Area(Sum(a.start, size), Less(a.size, size)));
        return 0;
      }
      if a.start < start && Last(a) == end {
        Resize(current, Area(a.start, Less(a.size, size)));
        return 0;
      }
      if a.start == start && Last(a) == end {
        Erase(current);
        return 0;
      }
      if a.start < start && Last(a) > end {
        if count == MAX_MEMORY_AREAS_SIZE {
          return -4;
        }
        var left := start - a.start;
        SplitAt(current, Area(a.start, left), Area(Sum(end, 1), Less(Less(a.size, size), left)));
        return 0;
      }
      return -5;
    }

    // ---------------------------------------------------------------- allocate_area_cover

    // Take whatever of [start, start + size) is free. The loop ends whatever the slots hold.
    method AllocateAreaCover(start: nat, size: nat) returns (rc: int)
      requires Valid()
      modifies this`count, areas
      ensures Valid() && (rc, State()) == CoverIn(old(State()), start, size)
    {
      hide Last, CoverEntry, Meeting;
      var end := Last(Area(start, size));
      if count == 0 {
        return 0;
      }
      ghost var p := State();
      var i := 0;
      while i < count
        invariant Valid() && 0 <= i <= count && CoverFrom(State(), i, start, end) == CoverFrom(p, 0, start, end)
        decreases Meeting(State().areas[i..count], start, end), count - i
      {
        CoverLess(State(), i, start, end);
        if start <= Last(areas[i]) && areas[i].start <= end {
          i, rc := EditEntry(i, start, end);
          if rc == -1 {
            return -1;
          }
        }
        i := i + 1;
      }
      return 0;
    }

    // The four cases of an entry that meets the range.
    method EditEntry(i: int, start: nat, end: nat) returns (i': int, rc: int)
      requires Valid() && 0 <= i < count && end < ADDRESSES
      modifies this`count, areas
      ensures Valid() && (rc, State(), i') == CoverEntry(old(State()), i, start, end)
    {
      hide Last, Erased, Replaced, Widened;
      rc, i' := 0, i;
      var a := areas[i];
      if start <= a.start && end >= Last(a) {
        Erase(i);
        i' := i - 1;
      } else if start <= a.start && end < Last(a) {
        Resize(i, Area(end + 1, Last(a) - (end + 1) + 1));
      } else if start > a.start && end >= Last(a) {
        Resize(i, Area(a.start, start - a.start));
      } else if start > a.start && end < Last(a) {
        if count == MAX_MEMORY_AREAS_SIZE {
          rc := -1;
          return;
        }
        SplitAt(i, Area(a.start, start - a.start), Area(end + 1, Last(a) - end));
      }
    }
  }
}
