// The multiboot memory map (memory_map.c:3-108): its records, and what entering their regions
// one after the other makes of the free-area map.
module MemoryMap {
  import opened Numbers
  import opened FreeAreas
  import opened AreaSlots
  import opened PlacementMemory

  const AVAILABLE: nat := 1

  // A record of the memory map; every field is a 32-bit word.
  datatype Record = Record(size: nat, baseLow: nat, baseHigh: nat, lengthLow: nat, lengthHigh: nat, kind: nat)

  // The area that the loop reads from a record: the high words are scaled by sizeof(long),
  // in 32-bit arithmetic.
  function Region(r: Record): Area {
    Area((r.baseHigh * 4 + r.baseLow) % WORD, (r.lengthHigh * 4 + r.lengthLow) % WORD)
  }

  // The area that the loader means.
  function Described(r: Record): Area {
    Area(r.baseHigh * WORD + r.baseLow, r.lengthHigh * WORD + r.lengthLow)
  }

  // That is the area the record describes only if both high words are zero.
  lemma RegionExactly(r: Record)
    requires r.baseLow < WORD && r.lengthLow < WORD
    ensures Region(r) == Described(r) <==> r.baseHigh == 0 && r.lengthHigh == 0
  {
  }

  // One page from 4 GB on is read as one from address 4 on, and 4 GB from 0 on as 4 bytes.
  lemma RegionAbove4GB()
    ensures Region(Record(20, 0, 1, 0x1000, 0, 1)) == Area(4, 0x1000)
    ensures Region(Record(20, 0, 0, 0, 1, 1)) == Area(0, 4)
    ensures Region(Record(20, 0xFFFF_FFFF, 2, 0x1000, 0, 1)) == Area(7, 0x1000)
  {
  }

  // The records that the walk from `at` to `end` visits.
  predicate Walkable(table: map<nat, Record>, at: nat, end: nat)
    decreases end - at
  {
    at < end ==> at in table && at + table[at].size + 4 < WORD && Walkable(table, at + table[at].size + 4, end)
  }

  function Records(table: map<nat, Record>, at: nat, end: nat): seq<Record>
    requires Walkable(table, at, end)
    decreases end - at
  {
    if at >= end then [] else [table[at]] + Records(table, at + table[at].size + 4, end)
  }

  // The next record begins behind the size field and `size` bytes.
  lemma TwoRecords(r: Record, z: Record)
    requires r.size == 20 && z.size == 20
    ensures var table := map[0x1000 := r, 0x1018 := z];
            Walkable(table, 0x1000, 0x1030) && Records(table, 0x1000, 0x1030) == [r, z]
  {
    var table := map[0x1000 := r, 0x1018 := z];
    assert Walkable(table, 0x1030, 0x1030);
    assert Walkable(table, 0x1018, 0x1030) && Records(table, 0x1018, 0x1030) == [z];
  }

  // The available regions are non-empty, disjoint and ascending.
  predicate Ascending(rs: seq<Record>) {
    && (forall i :: 0 <= i < |rs| && rs[i].kind == AVAILABLE ==> Region(rs[i]).size > 0)
    && (forall i, j :: 0 <= i < j < |rs| && rs[i].kind == rs[j].kind == AVAILABLE ==>
          Region(rs[i]).End() <= Region(rs[j]).start)
  }

  predicate Available(rs: seq<Record>, x: int) {
    exists i :: 0 <= i < |rs| && rs[i].kind == AVAILABLE && Region(rs[i]).Has(x)
  }

  function Regions(rs: seq<Record>): nat {
    if rs == [] then 0 else Regions(rs[..|rs| - 1]) + if rs[|rs| - 1].kind == AVAILABLE then 1 else 0
  }

  predicate EndsBy(rs: seq<Record>, end: int) {
    exists j :: 0 <= j < |rs| && rs[j].kind == AVAILABLE && end <= Region(rs[j]).End()
  }

  // No area lies beyond the regions so far, and there are no more areas than regions.
  ghost predicate Within(s: seq<Area>, rs: seq<Record>) {
    Ordered(s) && |s| <= Regions(rs) && forall i :: 0 <= i < |s| ==> EndsBy(rs, s[i].End())
  }

  lemma AvailableMore(rs: seq<Record>, r: Record, x: int)
    ensures Available(rs + [r], x) <==> Available(rs, x) || (r.kind == AVAILABLE && Region(r).Has(x))
  {
    var t := rs + [r];
    if i :| 0 <= i < |rs| && rs[i].kind == AVAILABLE && Region(rs[i]).Has(x) {
      assert t[i] == rs[i];
    }
    if r.kind == AVAILABLE && Region(r).Has(x) {
      assert t[|rs|] == r;
    }
  }

  lemma RegionBound(r: Record)
    ensures Region(r).End() < ADDRESSES
  {
  }

  lemma RegionsMore(rs: seq<Record>, r: Record)
    ensures Regions(rs + [r]) == Regions(rs) + if r.kind == AVAILABLE then 1 else 0
  {
  }

  lemma InsertFull(s: seq<Area>, start: nat, size: nat)
    requires |s| == MAX_MEMORY_AREAS_SIZE
    ensures Insert(s, start, size) == (-1, s)
  {
  }

  // An area behind all others is appended or merged into the last one.
  lemma InsertLast(s: seq<Area>, start: nat, size: nat)
    requires Ordered(s) && |s| < MAX_MEMORY_AREAS_SIZE && size > 0 && Inserted(s, start, size)
    requires start + size < ADDRESSES
    requires forall i :: 0 <= i < |s| ==> s[i].start < start && s[i].End() <= start
    ensures var t := Insert(s, start, size).1;
            |t| <= |s| + 1 && forall i :: 0 <= i < |t| ==> t[i].End() <= start + size
  {
    hide Covers, Inserted, Overlap;
    SlotIs(s, start, |s|);
    OverlapNeighbours(s, start, size);
  }

  // ------------------------------------------------------------------ entering a whole map

  // The return code and the slots after some records: -2 and the slots so far once a region is
  // refused.
  function Enter(rs: seq<Record>): (r: (int, Slots))
    ensures r.1.Valid() && (r.0 == 0 || r.0 == -2)
  {
    if rs == [] then (0, Cleared())
    else
      var (rc, p) := Enter(rs[..|rs| - 1]);
      if rc != 0 then (rc, p) else EnterOne(p, rs[|rs| - 1])
  }

  function EnterOne(p: Slots, r: Record): (q: (int, Slots))
    requires p.Valid()
    ensures q.1.Valid() && (q.0 == 0 || q.0 == -2)
  {
    if r.kind != AVAILABLE then (0, p)
    else
      var (code, q) := InsertIn(p, Region(r));
      if code != 0 then (-2, p) else (0, q)
  }

  lemma EnterMore(rs: seq<Record>, r: Record)
    ensures Enter(rs + [r]) == if Enter(rs).0 != 0 then Enter(rs) else EnterOne(Enter(rs).1, r)
  {
    assert (rs + [r])[..|rs|] == rs;
  }

  // After a refusal nothing more is entered.
  lemma {:induction false} EnterStuck(a: seq<Record>, b: seq<Record>)
    requires Enter(a).0 != 0
    ensures Enter(a + b) == Enter(a)
  {
    if b == [] {
      assert a + b == a;
    } else {
      EnterStuck(a, b[..|b| - 1]);
      assert (a + b)[..|a + b| - 1] == a + b[..|b| - 1];
    }
  }

  // Every region that was accepted had room when its turn came.
  predicate Roomy(rs: seq<Record>) {
    rs != [] ==>
      var done, r := rs[..|rs| - 1], rs[|rs| - 1];
      Roomy(done) &&
      (Enter(done).0 == 0 && r.kind == AVAILABLE && InsertIn(Enter(done).1, Region(r)).0 == 0 ==>
         Room(Enter(done).1.Contents(), Region(r).start, Region(r).size))
  }

  // The map after any records is in order if and only if every accepted region had room: once
  // one had none the map never gets back in order. It is then overwritten, or rising.
  lemma {:induction false} InOrderIffRoomy(rs: seq<Record>)
    ensures InOrder(Enter(rs).1) <==> Roomy(rs)
    ensures Sound(Enter(rs).1) || Overwritten(Enter(rs).1)
  {
    hide InOrder, Sound, Overwritten, InsertIn, Room, Region;
    if rs == [] {
      ClearedInOrder();
    } else {
      var done, r := rs[..|rs| - 1], rs[|rs| - 1];
      InOrderIffRoomy(done);
      RegionBound(r);
      if Enter(done).0 == 0 && r.kind == AVAILABLE && InsertIn(Enter(done).1, Region(r)).0 == 0 {
        InOrderExactly(Enter(done).1, Region(r));
      }
    }
  }

  lemma ClearedInOrder()
    ensures InOrder(Cleared()) && Sound(Cleared())
  {
  }

  // Unless an area was overwritten, the map covers exactly the regions accepted so far.
  lemma {:induction false} EnterCovers(rs: seq<Record>)
    requires Enter(rs).0 == 0 && !Overwritten(Enter(rs).1)
    ensures forall x :: Covers(Enter(rs).1.Contents(), x) <==> Available(rs, x)
  {
    hide InOrder, Sound, Overwritten, InsertIn, Room, Region, Covers, Available;
    if rs == [] {
      EnterNothing();
    } else {
      var done, r := rs[..|rs| - 1], rs[|rs| - 1];
      assert rs == done + [r];
      RegionBound(r);
      var p := Enter(done).1;
      if r.kind == AVAILABLE {
        if Overwritten(p) {
          OverwrittenStays(p, Region(r));
        } else {
          InOrderIffRoomy(done);
          InsertInKeeps(p, Region(r));
        }
      }
      EnterCovers(done);
      forall x
        ensures Covers(Enter(rs).1.Contents(), x) <==> Available(rs, x)
      {
        AvailableMore(done, r, x);
      }
    }
  }

  lemma EnterNothing()
    ensures forall x :: Covers([], x) <==> Available([], x)
  {
  }

  // A map in order is merged.
  lemma {:induction false} EnterSeparated(rs: seq<Record>)
    requires Roomy(rs)
    ensures Separated(Enter(rs).1.Contents())
  {
    hide InOrder, InsertIn, Room, Region, Separated, Insert;
    if rs == [] {
      NothingSeparated();
    } else {
      var done, r := rs[..|rs| - 1], rs[|rs| - 1];
      EnterSeparated(done);
      InOrderIffRoomy(done);
      RegionBound(r);
      var p := Enter(done).1;
      if Enter(done).0 == 0 && r.kind == AVAILABLE && InsertIn(p, Region(r)).0 == 0 {
        InsertInOrder(p, Region(r));
        assert Ordered(p.Contents()) by { InOrderIs(p); }
        InsertExactly(p.Contents(), Region(r).start, Region(r).size);
      }
    }
  }

  lemma NothingSeparated()
    ensures Separated([])
  {
  }

  lemma InOrderIs(p: Slots)
    requires InOrder(p)
    ensures p.Valid() && p.ZeroTail() && Ordered(p.Contents())
  {
  }

  // Entering the next available region of an ascending map: there is room unless the array
  // is full.
  lemma EnterNext(p: Slots, rs: seq<Record>, r: Record)
    requires InOrder(p) && Within(p.Contents(), rs) && Ascending(rs + [r]) && r.kind == AVAILABLE
    ensures if p.count == MAX_MEMORY_AREAS_SIZE then EnterOne(p, r) == (-2, p)
            else
              EnterOne(p, r).0 == 0 && Room(p.Contents(), Region(r).start, Region(r).size) &&
              Within(EnterOne(p, r).1.Contents(), rs + [r])
  {
    hide Region, Ordered, Regions, Insert, Covers, InsertIn;
    var s, a := p.Contents(), Region(r);
    var t := rs + [r];
    assert t[|rs|] == r;
    RegionBound(r);
    InsertInOrder(p, a);
    if |s| < MAX_MEMORY_AREAS_SIZE {
      AllBelow(s, rs, r);
      assert Room(s, a.start, a.size);
      InsertExactly(s, a.start, a.size);
      InsertLast(s, a.start, a.size);
      RegionsMore(rs, r);
      forall i | 0 <= i < |Insert(s, a.start, a.size).1|
        ensures EndsBy(t, Insert(s, a.start, a.size).1[i].End())
      {
        assert t[|rs|].kind == AVAILABLE;
      }
      assert Ordered(Insert(s, a.start, a.size).1) by { InsertedIs(s, a.start, a.size); }
    } else {
      InsertFull(s, a.start, a.size);
    }
  }

  lemma AllBelow(s: seq<Area>, rs: seq<Record>, r: Record)
    requires Within(s, rs) && Ascending(rs + [r]) && r.kind == AVAILABLE
    ensures Region(r).size > 0
    ensures forall i :: 0 <= i < |s| ==> s[i].start < Region(r).start && s[i].End() <= Region(r).start
  {
    hide Region, Ordered, Regions;
    var t := rs + [r];
    assert t[|rs|] == r;
    forall i | 0 <= i < |s|
      ensures s[i].start < Region(r).start && s[i].End() <= Region(r).start
    {
      assert EndsBy(rs, s[i].End());
      var j :| 0 <= j < |rs| && rs[j].kind == AVAILABLE && s[i].End() <= Region(rs[j]).End();
      assert t[j] == rs[j];
      OrderedAt(s, i);
    }
  }

  // An ascending map has room for every region, until the array is full.
  lemma {:induction false} AscendingEnters(rs: seq<Record>)
    requires Ascending(rs)
    ensures Roomy(rs) && (Enter(rs).0 == 0 ==> Within(Enter(rs).1.Contents(), rs))
    ensures Enter(rs).0 != 0 ==> Regions(rs) > MAX_MEMORY_AREAS_SIZE
  {
    hide Region, Within, InsertIn, Regions, Room, InOrder;
    if rs == [] {
      WithinNothing();
    } else {
      var done, r := rs[..|rs| - 1], rs[|rs| - 1];
      assert rs == done + [r];
      assert Ascending(done) by { AscendingPrefix(rs, done, r); }
      AscendingEnters(done);
      InOrderIffRoomy(done);
      RegionsMore(done, r);
      if Enter(done).0 == 0 {
        var p := Enter(done).1;
        WithinSize(p.Contents(), done);
        if r.kind == AVAILABLE {
          EnterNext(p, done, r);
        } else {
          WithinSkip(p.Contents(), done, r);
        }
      }
    }
  }

  lemma WithinNothing()
    ensures Within([], [])
  {
  }

  lemma WithinSize(s: seq<Area>, rs: seq<Record>)
    requires Within(s, rs)
    ensures |s| <= Regions(rs)
  {
  }

  lemma WithinSkip(s: seq<Area>, rs: seq<Record>, r: Record)
    requires Within(s, rs) && r.kind != AVAILABLE
    ensures Within(s, rs + [r])
  {
    hide Ordered, Region, Regions;
    RegionsMore(rs, r);
    forall i | 0 <= i < |s|
      ensures EndsBy(rs + [r], s[i].End())
    {
      assert EndsBy(rs, s[i].End());
      var j :| 0 <= j < |rs| && rs[j].kind == AVAILABLE && s[i].End() <= Region(rs[j]).End();
      assert (rs + [r])[j] == rs[j];
    }
  }

  lemma AscendingPrefix(all: seq<Record>, done: seq<Record>, r: Record)
    requires all == done + [r] && Ascending(all)
    ensures Ascending(done)
  {
    hide Region;
    forall i | 0 <= i < |done|
      ensures done[i] == all[i]
    {
    }
  }

  // The loader's map, whatever it holds. Without the flag nothing is read.
  method ProcessMultibootMemoryMap(freeMap: FreeMap, flags: nat, mmapAddr: nat, mmapLength: nat,
                                   table: map<nat, Record>)
    returns (rc: int)
    requires freeMap.Valid() && freeMap.State() == Cleared()
    requires Walkable(table, mmapAddr, mmapAddr + mmapLength)
    modifies freeMap`count, freeMap.areas
    ensures freeMap.Valid()
    ensures (rc, freeMap.State()) ==
            if flags / 64 % 2 == 0 then (-1, Cleared()) else Enter(Records(table, mmapAddr, mmapAddr + mmapLength))
  {
    hide Region, InsertIn, Cleared;
    if flags / 64 % 2 == 0 {
      return -1;
    }
    ghost var all := Records(table, mmapAddr, mmapAddr + mmapLength);
    ghost var done: seq<Record> := [];
    var mmap := mmapAddr;
    while mmap < mmapAddr + mmapLength
      invariant freeMap.Valid() && Walkable(table, mmap, mmapAddr + mmapLength)
      invariant all == done + Records(table, mmap, mmapAddr + mmapLength)
      invariant Enter(done) == (0, freeMap.State())
      decreases mmapAddr + mmapLength - mmap
    {
      var r := table[mmap];
      ghost var rest := Records(table, mmap + r.size + 4, mmapAddr + mmapLength);
      assert all == (done + [r]) + rest;
      EnterMore(done, r);
      if r.kind == 1 {
        var code := freeMap.InsertArea(Region(r).start, Region(r).size);
        if code != 0 {
          EnterStuck(done + [r], rest);
          return -2;
        }
      }
      done := done + [r];
      mmap := mmap + r.size + 4;
    }
    assert done == all;
    return 0;
  }
}
