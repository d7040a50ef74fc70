// main (kernel.c:41-132) on particular memory maps: one in numbers, and those on which it fails its
// own promise, or leaves a state from which paging cannot start.
module BootExamples {
  import opened Numbers
  import opened FreeAreas
  import opened AreaSlots
  import opened AreaCuts
  import opened MemoryMap
  import opened Boot
  import opened PlacementMemory
  import BM = Bitmap
  import PW = PageWalk
  import PS = PagingSetup
  import opened WordMemory

  function Available32(start: nat, size: nat): Record {
    Record(20, start, 0, size, 0, AVAILABLE)
  }

  lemma EnterStep(rs: seq<Record>, r: Record, t: seq<Area>)
    requires Enter(rs).0 == 0 && Sound(Enter(rs).1) && r.kind == AVAILABLE
    requires Insert(Enter(rs).1.Contents(), Region(r).start, Region(r).size) == (0, t)
    ensures Enter(rs + [r]).0 == 0 && Enter(rs + [r]).1.Contents() == t && Enter(rs + [r]).1.ZeroTail()
  {
    hide InsertIn, Insert;
    EnterMore(rs, r);
    RegionBound(r);
    InsertInSound(Enter(rs).1, Region(r));
  }

  lemma InsertFirst(n: Area)
    requires n.size > 0
    ensures Insert([], n.start, n.size) == (0, [n])
  {
    assert Placed([], 0, n) == [n];
  }

  lemma InsertBehind(a: Area, n: Area)
    requires a.size > 0 && a.End() < n.start && n.size > 0 && n.End() < ADDRESSES
    ensures Insert([a], n.start, n.size) == (0, [a, n])
  {
    var s := [a];
    assert Rising(s);
    SlotIs(s, n.start, 1);
    OverlapNeighbours(s, n.start, n.size);
    assert s[..1] + [n] + s[1..] == [a, n];
  }

  lemma RegionOf(start: nat, size: nat)
    requires start < WORD && size < WORD
    ensures Region(Available32(start, size)) == Area(start, size)
  {
  }

  lemma EnterOneRegion(a: Area)
    requires 0 < a.size && a.End() < WORD
    ensures var rs := [Available32(a.start, a.size)];
            Enter(rs).0 == 0 && Enter(rs).1.Contents() == [a] && Enter(rs).1.ZeroTail() && Sound(Enter(rs).1)
  {
    hide Insert, Region;
    RegionOf(a.start, a.size);
    ClearedInOrder();
    InsertFirst(a);
    EnterStep([], Available32(a.start, a.size), [a]);
    assert [] + [Available32(a.start, a.size)] == [Available32(a.start, a.size)];
  }

  // Two separate regions, and then a third one that leaves the areas `t`.
  lemma EnterThree(a: Area, b: Area, n: Area, t: seq<Area>)
    requires 0 < a.size && a.End() < b.start && 0 < b.size && b.End() < WORD && n.End() < WORD
    requires Insert([a, b], n.start, n.size) == (0, t)
    ensures var rs := [Available32(a.start, a.size), Available32(b.start, b.size), Available32(n.start, n.size)];
            Enter(rs).0 == 0 && Enter(rs).1.Contents() == t && Enter(rs).1.ZeroTail()
  {
    hide Insert, Region, Enter, Rising;
    var x, y, z := Available32(a.start, a.size), Available32(b.start, b.size), Available32(n.start, n.size);
    RegionOf(b.start, b.size);
    RegionOf(n.start, n.size);
    EnterOneRegion(a);
    InsertBehind(a, b);
    EnterStep([x], y, [a, b]);
    assert [x] + [y] == [x, y];
    assert Rising([a, b]) by { RisingTwo(a, b); }
    EnterStep([x, y], z, t);
    assert [x, y] + [z] == [x, y, z];
  }

  lemma RisingTwo(a: Area, b: Area)
    requires 0 < a.size && a.start < b.start && 0 < b.size && a.End() < ADDRESSES && b.End() < ADDRESSES
    ensures Rising([a, b])
  {
  }

  // ------------------------------------------------------------------ one region

  const OneRecord: Record := Record(20, 0, 0, 67108864, 0, 1)

  // The first 64 MB are available: placement memory is at 40 MB, and what is free begins at 45 MB.
  lemma OneRegion()
    ensures Enter([OneRecord]).0 == 0
    ensures var (r, f) := Placement(Enter([OneRecord]).1);
            r == 41943040 && f.Contents() == [Area(47185920, 19922944)]
  {
    hide Placement, Enter, Cut, Sound;
    var a, b := Area(0, 67108864), Area(41943040, 25165824);
    EnterOneRegion(a);
    var p := Enter([OneRecord]).1;
    CutFront(a);
    assert Above(p) == [b];
    var k := SoundPlacement(p);
    assert [b][0] == b && k == 0;
    assert [b][..0] + Front(b) + [b][1..] == [Area(47185920, 19922944)];
  }

  lemma CutFront(a: Area)
    requires a == Area(0, 67108864)
    ensures Cut([a], 0, RESERVED_MEMORY_IN_BYTES) == [Area(41943040, 25165824)]
  {
    assert [a][1..] == [];
    assert CutOne(a, 0, RESERVED_MEMORY_IN_BYTES) == [Area(41943040, 25165824)];
  }

  // The whole of main on it: the loader's magic number, the flag of the memory map, one record.
  method StartOneRegion(bitmap: array<bv32>) returns (ok: bool, placement: nat)
    requires bitmap.Length == BM.BITMAP_ELEMENT_COUNT
    modifies bitmap
    ensures ok && placement == 41943040
    ensures forall f: nat :: BM.IsUsed(bitmap[..], f) <==> f < 11520
  {
    hide Placement, Enter, BM.IsUsed, Overwritten, OnlyOnce, PromiseKept, Roomy, Stretch;
    var freeMap := new FreeMap();
    var table := map[0x1000 := OneRecord];
    assert Walkable(table, 0x1018, 0x1018);
    assert Records(table, 0x1000, 0x1018) == [OneRecord];
    OneRegion();
    ok, placement := Start(0x2BAD_B002, freeMap, 0x40, 0x1000, 24, table, bitmap);
  }

  // Without the flag main gives up; under another magic number it never looks at the map.
  lemma OtherHeaders(rs: seq<Record>)
    ensures Loaded(0x2BAD_B002, 0x40, rs) == Enter(rs)
    ensures Loaded(0x2BAD_B002, 0x3F, rs) == (-1, Cleared()) && Loaded(0x1BAD_B002, 0x40, rs) == (0, Cleared())
  {
    hide Enter;
  }

  // ------------------------------------------------------------------ failures

  // Three regions, the last one in the gap between the others.
  function GapMap(): seq<Record> {
    [Available32(0x1000, 0x1000), Available32(0x5000, 0x1000), Available32(0x3000, 0x800)]
  }

  lemma EnterGapMap()
    ensures var (rc, p) := Enter(GapMap());
            rc == 0 && p.Contents() == [Area(0x1000, 0x1000), Area(0x3000, 0x800), Area(0, 0)] && Overwritten(p)
  {
    hide Insert, Enter;
    var a, b, n := Area(0x1000, 0x1000), Area(0x5000, 0x1000), Area(0x3000, 0x800);
    InsertBetween(a, b, n);
    EnterThree(a, b, n, [a, n, Area(0, 0)]);
    var p := Enter(GapMap()).1;
    assert p.Contents()[2] == Area(0, 0);
  }

  // It overwrites the second; main then finds 5 MB above the reserved bytes although all three
  // regions lie far below.
  lemma OverwrittenMapFails()
    ensures var (rc, p) := Enter(GapMap());
            var (r, f) := Placement(p);
            rc == 0 && r >= RESERVED_MEMORY_IN_BYTES && !Available(GapMap(), r) && !PromiseKept(GapMap(), r, f)
  {
    hide Placement, PromiseKept, Enter, Available, GapMap;
    EnterGapMap();
    var p := Enter(GapMap()).1;
    OverwrittenPlacement(p);
    PlacementExactly(GapMap());
    GapMapIsLow(Placement(p).0);
  }

  lemma GapMapIsLow(x: int)
    requires x >= RESERVED_MEMORY_IN_BYTES
    ensures !Available(GapMap(), x)
  {
  }

  // Three regions, the last one touching the first and covering the second.
  function CoveringMap(): seq<Record> {
    [Available32(48 * MB, MB), Available32(50 * MB, MB), Available32(49 * MB, 79 * MB)]
  }

  lemma EnterCoveringMap()
    ensures var (rc, p) := Enter(CoveringMap());
            rc == 0 && p.Contents() == [Area(48 * MB, 80 * MB), Area(50 * MB, MB)] && Sound(p) && !Overwritten(p)
  {
    hide Insert, Enter;
    var a, b, n := Area(48 * MB, MB), Area(50 * MB, MB), Area(49 * MB, 79 * MB);
    InsertOver(a, b, n);
    EnterThree(a, b, n, [Area(48 * MB, 80 * MB), b]);
    var p := Enter(CoveringMap()).1;
    RisingTwo(Area(48 * MB, 80 * MB), b);
    assert p.areas[1] == p.Contents()[1];
  }

  // It is merged into the one and leaves the other: main hands out bytes that stay free.
  lemma CoveringMapFails()
    ensures var (rc, p) := Enter(CoveringMap());
            var (r, f) := Placement(p);
            rc == 0 && r == 48 * MB && Stretch(CoveringMap(), r) && !PromiseKept(CoveringMap(), r, f)
  {
    hide Placement, PromiseKept, Enter, Available, CoveringMap, Sound, Overwritten, Stretch, Cut;
    EnterCoveringMap();
    var p := Enter(CoveringMap()).1;
    var c := p.Contents();
    CutMisses(c, 0, RESERVED_MEMORY_IN_BYTES);
    var k := SoundPlacement(p);
    assert c[0].size >= PLACEMENT_MEMORY_SIZE_IN_BYTES;
    FirstFitIs(c, PLACEMENT_MEMORY_SIZE_IN_BYTES, 0);
    assert !Disjoint(c[1], Area(48 * MB, PLACEMENT_MEMORY_SIZE_IN_BYTES));
    PlacementExactly(CoveringMap());
    EnterCovers(CoveringMap());
    AreaCovers(c, 0);
    StretchIf(CoveringMap(), 48 * MB, c[0]);
  }

  lemma InsertBetween(a: Area, b: Area, n: Area)
    requires 0 < a.size && a.End() < n.start && 0 < n.size && n.End() < b.start && 0 < b.size && b.End() < ADDRESSES
    ensures Insert([a, b], n.start, n.size) == (0, [a, n, Area(0, 0)])
  {
    var s := [a, b];
    assert Rising(s);
    SlotIs(s, n.start, 1);
    OverlapExactly(a, n);
    OverlapExactly(b, n);
    assert s[..1] + [n] + s[2..] + [Area(0, 0)] == [a, n, Area(0, 0)];
  }

  lemma InsertOver(a: Area, b: Area, n: Area)
    requires 0 < a.size && a.End() == n.start < b.start && 0 < b.size && b.End() < n.End() < ADDRESSES
    ensures Insert([a, b], n.start, n.size) == (0, [Area(a.start, a.size + n.size), b])
  {
    var s := [a, b];
    assert Rising(s);
    SlotIs(s, n.start, 1);
    OverlapExactly(a, n);
    OverlapExactly(b, n);
    assert s[..0] + [Area(a.start, a.size + n.size)] + s[1..] == [Area(a.start, a.size + n.size), b];
  }

  // One region from 64 MB to 128 MB: placement memory is its front, and the tables that
  // paging_setup puts there lie in frames that main has not marked.
  lemma PlacementTooHigh(m: Memory, n: nat, bits: seq<bv32>)
    requires PS.SetUp(m, PS.Aligned(64 * MB), n) && forall f: nat :: BM.IsUsed(bits, f) <==> f < RESERVED_FRAMES
    ensures var rs := [Available32(64 * MB, 64 * MB)];
            Enter(rs).0 == 0 && Placement(Enter(rs).1).0 == 64 * MB && !PW.FramesInv(m, bits, PS.Aligned(64 * MB))
  {
    hide PS.SetUp, PW.FramesInv, BM.IsUsed, Placement;
    var a := Area(64 * MB, 64 * MB);
    EnterOneRegion(a);
    var p := Enter([Available32(64 * MB, 64 * MB)]).1;
    CutMisses([a], 0, RESERVED_MEMORY_IN_BYTES);
    var k := SoundPlacement(p);
    assert [a][0] == a;
    PagingStartsExactly(m, PS.Aligned(64 * MB), n, bits);
  }
}
