// From the memory map to placement memory and reserved frames (kernel.c:41-132).
module Boot {
  import opened Options
  import opened Numbers
  import opened FreeAreas
  import opened AreaSlots
  import opened AreaCuts
  import opened PlacementMemory
  import opened MemoryMap
  import BM = Bitmap
  import PW = PageWalk
  import PS = PagingSetup
  import opened WordMemory

  const MB: nat := 1024 * 1024
  const RESERVED_MEMORY_IN_BYTES: nat := 40 * MB
  const PLACEMENT_MEMORY_SIZE_IN_BYTES: nat := 5 * MB
  const RESERVED_FRAMES: nat := 11520
  const MULTIBOOT_BOOTLOADER_MAGIC: nat := 0x2BAD_B002

  // 5 MB from `r` on are available.
  ghost predicate Stretch(rs: seq<Record>, r: nat) {
    forall x :: r <= x < r + PLACEMENT_MEMORY_SIZE_IN_BYTES ==> Available(rs, x)
  }

  // What is free after boot.
  predicate Remaining(rs: seq<Record>, placement: nat, x: int) {
    Available(rs, x) && x >= RESERVED_MEMORY_IN_BYTES &&
    !(placement <= x < placement + PLACEMENT_MEMORY_SIZE_IN_BYTES)
  }

  // What main makes of the map: placement memory, 0 for none, and the map that is left. The
  // result of allocate_area_cover is ignored; it cannot be a refusal.
  function Placement(p: Slots): (r: (nat, Slots))
    requires p.Valid()
    ensures r.1.Valid()
  {
    AllocateIn(CoverIn(p, 0, RESERVED_MEMORY_IN_BYTES).1, PLACEMENT_MEMORY_SIZE_IN_BYTES)
  }

  // The map that main starts from, unless it gives up.
  function Loaded(magic: nat, flags: nat, rs: seq<Record>): (r: (int, Slots))
    ensures r.1.Valid()
  {
    if magic != MULTIBOOT_BOOTLOADER_MAGIC then (0, Cleared())
    else if flags / 64 % 2 == 0 then (-1, Cleared())
    else Enter(rs)
  }

  // main, up to the reserved frames.
  method Start(magic: nat, freeMap: FreeMap, flags: nat, mmapAddr: nat, mmapLength: nat,
               table: map<nat, Record>, bitmap: array<bv32>)
    returns (ok: bool, placement: nat)
    requires freeMap.Valid() && freeMap.State() == Cleared()
    requires Walkable(table, mmapAddr, mmapAddr + mmapLength)
    requires bitmap.Length == BM.BITMAP_ELEMENT_COUNT
    modifies freeMap`count, freeMap.areas, bitmap
    ensures freeMap.Valid()
    ensures var (rc, p) := Loaded(magic, flags, Records(table, mmapAddr, mmapAddr + mmapLength));
            if rc != 0 then !ok && placement == 0 && freeMap.State() == p
            else (placement, freeMap.State()) == Placement(p) && ok == (placement != 0)
    ensures !ok ==> bitmap[..] == old(bitmap[..])
    ensures ok ==> magic == MULTIBOOT_BOOTLOADER_MAGIC && flags / 64 % 2 == 1
    ensures ok ==> forall f: nat :: BM.IsUsed(bitmap[..], f) <==> f < RESERVED_FRAMES
    ensures var rs := Records(table, mmapAddr, mmapAddr + mmapLength);
            ok ==> (PromiseKept(rs, placement, freeMap.State()) <==> !Overwritten(Enter(rs).1) && OnlyOnce(Enter(rs).1))
    ensures var rs := Records(table, mmapAddr, mmapAddr + mmapLength);
            Roomy(rs) && ok ==> PromiseKept(rs, placement, freeMap.State())
    ensures var rs := Records(table, mmapAddr, mmapAddr + mmapLength);
            Roomy(rs) && !ok && magic == MULTIBOOT_BOOTLOADER_MAGIC && flags / 64 % 2 == 1 && Enter(rs).0 == 0 ==>
              forall r: nat :: r >= RESERVED_MEMORY_IN_BYTES ==> !Stretch(rs, r)
  {
    hide CoverIn, AllocateIn, Enter, Cleared, BM.FrameBit, PromiseKept, OnlyOnce, Overwritten, Stretch, Roomy;
    ghost var rs := Records(table, mmapAddr, mmapAddr + mmapLength);
    ok, placement := false, 0;
    if magic == MULTIBOOT_BOOTLOADER_MAGIC {
      var rc := ProcessMultibootMemoryMap(freeMap, flags, mmapAddr, mmapLength, table);
      if rc != 0 {
        return;
      }
    }
    ghost var p := freeMap.State();
    var _ := freeMap.AllocateAreaCover(0, RESERVED_MEMORY_IN_BYTES);
    placement := freeMap.Allocate(PLACEMENT_MEMORY_SIZE_IN_BYTES);
    assert (placement, freeMap.State()) == Placement(p);
    if magic == MULTIBOOT_BOOTLOADER_MAGIC {
      PlacementExactly(rs);
    } else {
      NoPlacement();
    }
    if placement == 0 {
      return;
    }
    BM.ResetBitmap(bitmap, BM.BITMAP_ELEMENT_COUNT);
    var failed := BM.UseFramesInBytes(bitmap, BM.BITMAP_ELEMENT_COUNT,
                                      RESERVED_MEMORY_IN_BYTES + PLACEMENT_MEMORY_SIZE_IN_BYTES);
    if failed != 0 {
      return;
    }
    ok := true;
  }

  lemma NoPlacement()
    ensures Placement(Cleared()).0 == 0
  {
  }

  // What main promises: placement memory is available and above the reserved bytes, and exactly
  // what remains of the regions stays free.
  ghost predicate PromiseKept(rs: seq<Record>, r: nat, f: Slots)
    requires f.Valid()
  {
    && r >= RESERVED_MEMORY_IN_BYTES && Stretch(rs, r)
    && forall x :: Covers(f.Contents(), x) <==> Remaining(rs, r, x)
  }

  function Above(p: Slots): seq<Area>
    requires p.Valid()
  {
    Cut(p.Contents(), 0, RESERVED_MEMORY_IN_BYTES)
  }

  // No other area above the reserved bytes has a byte of the 5 MB that the first large enough
  // one gives.
  ghost predicate OnlyOnce(p: Slots)
    requires p.Valid()
  {
    match FirstFit(Above(p), PLACEMENT_MEMORY_SIZE_IN_BYTES)
    case None => true
    case Some(k) =>
      forall j :: 0 <= j < |Above(p)| && j != k ==>
        Disjoint(Above(p)[j], Area(Above(p)[k].start, PLACEMENT_MEMORY_SIZE_IN_BYTES))
  }

  // ------------------------------------------------------------------ maps of rising areas

  lemma {:induction false} CutSizes(s: seq<Area>, hi: nat, j: nat)
    requires Rising(s) && j < |Cut(s, 0, hi)|
    ensures Cut(s, 0, hi)[j].size > 0 && Cut(s, 0, hi)[j].End() < ADDRESSES && Cut(s, 0, hi)[j].start >= hi
  {
    hide Rising;
    if s == [] {
    } else {
      RisingAt(s, 0);
      RisingSlice(s, 1, |s|);
      assert s[1..|s|] == s[1..];
      var c := CutOne(s[0], 0, hi);
      if j >= |c| {
        CutSizes(s[1..], hi, j - |c|);
      }
    }
  }

  // The cover leaves the cut, and allocate takes the front of its first large enough area.
  lemma SoundPlacement(p: Slots) returns (k: nat)
    requires Sound(p)
    ensures var c := Above(p);
            var (r, f) := Placement(p);
            k <= |c| && (forall j :: 0 <= j < k ==> c[j].size < PLACEMENT_MEMORY_SIZE_IN_BYTES) &&
            if k == |c| then r == 0 && f.Contents() == c
            else
              c[k].size >= PLACEMENT_MEMORY_SIZE_IN_BYTES && r == c[k].start >= RESERVED_MEMORY_IN_BYTES &&
              f.Contents() == c[..k] + Front(c[k]) + c[k + 1..]
  {
    hide Rising, Cut, CoverIn, AllocateFrom, Erased, Replaced, Sum, Front;
    var q := CoverIn(p, 0, RESERVED_MEMORY_IN_BYTES).1;
    SoundCover(p);
    k := AllocateFinds(q, 0, PLACEMENT_MEMORY_SIZE_IN_BYTES);
    if k < q.count {
      CutSizes(p.Contents(), RESERVED_MEMORY_IN_BYTES, k);
      FrontOf(q, k);
    }
  }

  lemma SoundCover(p: Slots)
    requires Sound(p)
    ensures CoverIn(p, 0, RESERVED_MEMORY_IN_BYTES).1.Contents() == Above(p)
  {
    hide Rising, Cut, CoverFrom;
    forall j | 0 <= j < p.count
      ensures p.Contents()[j].size > 0 && p.Contents()[j].End() < ADDRESSES
    {
      RisingAt(p.Contents(), j);
    }
    assert Last(Area(0, RESERVED_MEMORY_IN_BYTES)) == RESERVED_MEMORY_IN_BYTES - 1;
    FromZeroCuts(p, 0, RESERVED_MEMORY_IN_BYTES - 1);
    assert p.Contents()[0..] == p.Contents() && p.Contents()[..0] + Above(p) == Above(p);
  }

  // What allocate does to the entry that it finds.
  lemma FrontOf(q: Slots, k: nat)
    requires q.Valid() && k < q.count
    requires q.areas[k].size >= PLACEMENT_MEMORY_SIZE_IN_BYTES && q.areas[k].End() < ADDRESSES
    ensures var n, a, c := PLACEMENT_MEMORY_SIZE_IN_BYTES, q.areas[k], q.Contents();
            (if a.size > n then Replaced(q, k, Area(Sum(a.start, n), a.size - n)) else Erased(q, k)).Contents() ==
            c[..k] + Front(a) + c[k + 1..]
  {
    hide Sum, Erased, Replaced;
    var n, a := PLACEMENT_MEMORY_SIZE_IN_BYTES, q.areas[k];
    SumIs(a.start, n);
    if a.size > n {
      ReplacedContents(q, k, Area(a.start + n, a.size - n));
    } else {
      ErasedContents(q, k);
      assert q.Contents()[..k] + [] == q.Contents()[..k];
    }
  }

  // An area without its first 5 MB.
  function Front(a: Area): seq<Area>
    requires a.size >= PLACEMENT_MEMORY_SIZE_IN_BYTES
  {
    var n := PLACEMENT_MEMORY_SIZE_IN_BYTES;
    if a.size > n then [Area(a.start + n, a.size - n)] else []
  }

  lemma FrontCovers(a: Area, x: int)
    requires a.size >= PLACEMENT_MEMORY_SIZE_IN_BYTES
    ensures Covers(Front(a), x) <==> a.Has(x) && x >= a.start + PLACEMENT_MEMORY_SIZE_IN_BYTES
  {
    if a.size > PLACEMENT_MEMORY_SIZE_IN_BYTES {
      CoversOne(Front(a)[0], x);
    }
  }

  // Taking the front of one area takes it out of the set exactly if no other area has a byte of it.
  lemma FrontTaken(c: seq<Area>, k: nat)
    requires k < |c| && c[k].size >= PLACEMENT_MEMORY_SIZE_IN_BYTES && forall j :: 0 <= j < |c| ==> c[j].size > 0
    ensures var t := Area(c[k].start, PLACEMENT_MEMORY_SIZE_IN_BYTES);
            (forall x :: Covers(c[..k] + Front(c[k]) + c[k + 1..], x) <==> Covers(c, x) && !t.Has(x)) <==>
            (forall j :: 0 <= j < |c| && j != k ==> Disjoint(c[j], t))
  {
    hide Covers, Front;
    var t := Area(c[k].start, PLACEMENT_MEMORY_SIZE_IN_BYTES);
    var l, r := c[..k], c[k + 1..];
    var f := l + Front(c[k]) + r;
    assert c == l + [c[k]] + r;
    forall x
      ensures Covers(f, x) <==> Covers(l, x) || (c[k].Has(x) && !t.Has(x)) || Covers(r, x)
      ensures Covers(c, x) <==> Covers(l, x) || c[k].Has(x) || Covers(r, x)
    {
      CoversSum(l + Front(c[k]), r, x);
      CoversSum(l, Front(c[k]), x);
      FrontCovers(c[k], x);
      CoversSum(l + [c[k]], r, x);
      CoversSum(l, [c[k]], x);
      CoversOne(c[k], x);
    }
    if forall j :: 0 <= j < |c| && j != k ==> Disjoint(c[j], t) {
      forall x | t.Has(x)
        ensures !Covers(l, x) && !Covers(r, x)
      {
        OutsideOthers(c, k, t, x);
      }
    } else {
      var j :| 0 <= j < |c| && j != k && !Disjoint(c[j], t);
      var x := if c[j].start >= t.start then c[j].start else t.start;
      assert c[j].Has(x) && t.Has(x);
      assert Covers(l, x) || Covers(r, x) by { AmongOthers(c, k, j, x); }
      assert Covers(f, x);
    }
  }

  lemma OutsideOthers(c: seq<Area>, k: nat, t: Area, x: int)
    requires k < |c| && t.Has(x) && forall j :: 0 <= j < |c| && j != k ==> Disjoint(c[j], t)
    ensures !Covers(c[..k], x) && !Covers(c[k + 1..], x)
  {
    var r := c[k + 1..];
    forall i | 0 <= i < |r|
      ensures !r[i].Has(x)
    {
      assert r[i] == c[k + 1 + i];
    }
  }

  lemma AmongOthers(c: seq<Area>, k: nat, j: nat, x: int)
    requires k < |c| && j < |c| && j != k && c[j].Has(x)
    ensures Covers(c[..k], x) || Covers(c[k + 1..], x)
  {
    if j < k {
      assert c[..k][j].Has(x);
    } else {
      assert c[k + 1..][j - k - 1].Has(x);
    }
  }

  // ------------------------------------------------------------------ the promise, exactly

  // A map that was overwritten: its counted empty slot swells to everything above the reserved
  // bytes, so that main finds its 5 MB, and leaves addresses free that no region has.
  lemma OverwrittenPlacement(p: Slots)
    requires Overwritten(p)
    ensures var (r, f) := Placement(p); r >= RESERVED_MEMORY_IN_BYTES && Covers(f.Contents(), ADDRESSES - 1)
  {
    hide CoverFrom, AllocateFrom, Erased;
    var e := RESERVED_MEMORY_IN_BYTES - 1;
    var q := CoverIn(p, 0, RESERVED_MEMORY_IN_BYTES).1;
    assert Last(Area(0, RESERVED_MEMORY_IN_BYTES)) == e;
    FromZero(p, 0, e);
    FromZeroSwells(p, 0, e);
    var k := AllocateFinds(q, 0, PLACEMENT_MEMORY_SIZE_IN_BYTES);
    assert k < q.count;
    var f := Placement(p).1;
    if q.areas[k].size == PLACEMENT_MEMORY_SIZE_IN_BYTES {
      ErasedCount(q, k);
      ErasedAt(q, k, q.count - 2);
    }
    assert f.areas[f.count - 1].Has(ADDRESSES - 1);
    assert f.Contents()[f.count - 1].Has(ADDRESSES - 1);
  }

  lemma NotAvailable(rs: seq<Record>, x: int)
    requires x >= 2 * WORD
    ensures !Available(rs, x)
  {
  }

  // main keeps its promise exactly if no area was overwritten and its 5 MB are free only once.
  lemma PlacementExactly(rs: seq<Record>)
    requires Enter(rs).0 == 0
    ensures var p := Enter(rs).1;
            var (r, f) := Placement(p);
            (r != 0 ==> (PromiseKept(rs, r, f) <==> !Overwritten(p) && OnlyOnce(p))) &&
            (Roomy(rs) && r != 0 ==> PromiseKept(rs, r, f)) &&
            (Roomy(rs) && r == 0 ==> forall x: nat :: x >= RESERVED_MEMORY_IN_BYTES ==> !Stretch(rs, x))
  {
    hide Sound, Overwritten, Placement, OnlyOnce, Available, Covers, Enter, Roomy, Stretch, InOrder;
    var p := Enter(rs).1;
    InOrderIffRoomy(rs);
    if Overwritten(p) {
      OverwrittenPlacement(p);
      NotAvailable(rs, ADDRESSES - 1);
      assert !InOrder(p) by { OverwrittenDisorder(p); }
    } else {
      SoundExactly(rs);
      if Roomy(rs) {
        OrderedPlacement(rs);
      }
    }
  }

  lemma SoundExactly(rs: seq<Record>)
    requires Enter(rs).0 == 0 && Sound(Enter(rs).1) && !Overwritten(Enter(rs).1)
    ensures var p := Enter(rs).1;
            var (r, f) := Placement(p);
            r != 0 ==> (PromiseKept(rs, r, f) <==> OnlyOnce(p))
  {
    hide Sound, Overwritten, Placement, Available, Covers, Enter, Cut, Front, Stretch;
    var p := Enter(rs).1;
    var c := Above(p);
    var (r, f) := Placement(p);
    EnterCovers(rs);
    var k := SoundPlacement(p);
    if r != 0 {
      FirstFitIs(c, PLACEMENT_MEMORY_SIZE_IN_BYTES, k);
      forall j | 0 <= j < |c|
        ensures c[j].size > 0
      {
        assert Rising(p.Contents()) by { SoundIs(p); }
        CutSizes(p.Contents(), RESERVED_MEMORY_IN_BYTES, j);
      }
      FrontTaken(c, k);
      forall x
        ensures Covers(c, x) <==> Available(rs, x) && x >= RESERVED_MEMORY_IN_BYTES
      {
        AboveCovers(p, rs, x);
      }
      AreaCovers(c, k);
      assert Stretch(rs, r) by { StretchIf(rs, r, c[k]); }
      var t := Area(r, PLACEMENT_MEMORY_SIZE_IN_BYTES);
      assert forall x :: Remaining(rs, r, x) <==> Covers(c, x) && !t.Has(x);
      assert OnlyOnce(p) <==> forall j :: 0 <= j < |c| && j != k ==> Disjoint(c[j], t);
      assert f.Contents() == c[..k] + Front(c[k]) + c[k + 1..];
    }
  }

  lemma SoundIs(p: Slots)
    requires Sound(p)
    ensures p.Valid() && Rising(p.Contents())
  {
  }

  lemma AboveCovers(p: Slots, rs: seq<Record>, x: int)
    requires p.Valid() && forall z :: Covers(p.Contents(), z) <==> Available(rs, z)
    ensures Covers(Above(p), x) <==> Available(rs, x) && x >= RESERVED_MEMORY_IN_BYTES
  {
    hide Available;
    CutCovers(p.Contents(), 0, RESERVED_MEMORY_IN_BYTES, x);
    OnlyNatural(p.Contents(), x);
  }

  lemma StretchIf(rs: seq<Record>, r: nat, a: Area)
    requires r == a.start && a.size >= PLACEMENT_MEMORY_SIZE_IN_BYTES && forall x :: a.Has(x) ==> Available(rs, x)
    ensures Stretch(rs, r)
  {
    hide Available;
    assert forall x :: r <= x < r + PLACEMENT_MEMORY_SIZE_IN_BYTES ==> a.Has(x);
  }

  // On a map in order the 5 MB are free only once, and are found if there are any.
  lemma OrderedPlacement(rs: seq<Record>)
    requires Enter(rs).0 == 0 && Roomy(rs) && InOrder(Enter(rs).1)
    ensures OnlyOnce(Enter(rs).1)
    ensures Placement(Enter(rs).1).0 == 0 ==> forall x: nat :: x >= RESERVED_MEMORY_IN_BYTES ==> !Stretch(rs, x)
  {
    hide InOrder, Overwritten, Placement, Available, Covers, Enter, Cut, Roomy, Stretch, Separated, Ordered;
    var p := Enter(rs).1;
    var c := Above(p);
    assert Ordered(p.Contents()) by { InOrderIs(p); }
    assert Sound(p) by { InOrderIsSound(p); }
    assert !Overwritten(p) by { if Overwritten(p) { OverwrittenDisorder(p); } }
    CutOrdered(p.Contents(), 0, RESERVED_MEMORY_IN_BYTES);
    var k := SoundPlacement(p);
    if k < |c| {
      FirstFitIs(c, PLACEMENT_MEMORY_SIZE_IN_BYTES, k);
      forall j | 0 <= j < |c| && j != k
        ensures Disjoint(c[j], Area(c[k].start, PLACEMENT_MEMORY_SIZE_IN_BYTES))
      {
        if j < k { OrderedPair(c, j, k); } else { OrderedPair(c, k, j); }
      }
    } else {
      EnterCovers(rs);
      EnterSeparated(rs);
      NoStretch(p.Contents(), c, rs);
    }
    assert FirstFit(c, PLACEMENT_MEMORY_SIZE_IN_BYTES).Some? ==> k < |c|;
  }

  // allocate found no area: there was no stretch.
  lemma NoStretch(s: seq<Area>, s1: seq<Area>, rs: seq<Record>)
    requires Separated(s) && s1 == Cut(s, 0, RESERVED_MEMORY_IN_BYTES) && forall x :: Covers(s, x) <==> Available(rs, x)
    requires Ordered(s1)
    requires match FirstFit(s1, PLACEMENT_MEMORY_SIZE_IN_BYTES) case None => true case Some(i) => s1[i].start == 0
    ensures forall r: nat :: r >= RESERVED_MEMORY_IN_BYTES ==> !Stretch(rs, r)
  {
    hide Separated, Covers, Available, Cut, Ordered;
    CutSeparated(s, 0, RESERVED_MEMORY_IN_BYTES);
    forall r: nat | r >= RESERVED_MEMORY_IN_BYTES
      ensures !Stretch(rs, r)
    {
      if Stretch(rs, r) {
        forall x | r <= x < r + PLACEMENT_MEMORY_SIZE_IN_BYTES
          ensures Covers(s1, x)
        {
          CutCovers(s, 0, RESERVED_MEMORY_IN_BYTES, x);
          assert Available(rs, x);
        }
        var i := StretchInOneArea(s1, r, r + PLACEMENT_MEMORY_SIZE_IN_BYTES);
        var j := FirstFit(s1, PLACEMENT_MEMORY_SIZE_IN_BYTES).value;
        OrderedPair(s1, j, j);
        AreaCovers(s1, j);
        CutCovers(s, 0, RESERVED_MEMORY_IN_BYTES, 0);
        assert false;
      }
    }
  }

  lemma AreaCovers(s: seq<Area>, i: nat)
    requires i < |s|
    ensures forall x :: s[i].Has(x) ==> Covers(s, x)
  {
  }

  lemma OnlyNatural(s: seq<Area>, x: int)
    ensures Covers(s, x) ==> x >= 0
  {
  }

  // The same, as the loader described the regions, if their high words are zero.

  predicate LowWords(rs: seq<Record>) {
    forall i :: 0 <= i < |rs| ==>
      rs[i].baseLow < WORD && rs[i].lengthLow < WORD && rs[i].baseHigh == 0 && rs[i].lengthHigh == 0
  }

  predicate Offered(rs: seq<Record>, x: int) {
    exists i :: 0 <= i < |rs| && rs[i].kind == AVAILABLE && Described(rs[i]).Has(x)
  }

  lemma AvailableIsOffered(rs: seq<Record>, x: int)
    requires LowWords(rs)
    ensures Available(rs, x) <==> Offered(rs, x)
  {
    forall i | 0 <= i < |rs|
      ensures Region(rs[i]) == Described(rs[i])
    {
      RegionExactly(rs[i]);
    }
  }

  // With LowWords, what Start promises is about the memory that the loader offered.
  lemma StartAsOffered(rs: seq<Record>, placement: nat)
    requires LowWords(rs)
    ensures Stretch(rs, placement) <==>
              forall x :: placement <= x < placement + PLACEMENT_MEMORY_SIZE_IN_BYTES ==> Offered(rs, x)
    ensures forall x :: Remaining(rs, placement, x) <==>
              Offered(rs, x) && x >= RESERVED_MEMORY_IN_BYTES &&
              !(placement <= x < placement + PLACEMENT_MEMORY_SIZE_IN_BYTES)
  {
    hide Available, Offered;
    forall x
      ensures Available(rs, x) <==> Offered(rs, x)
    {
      AvailableIsOffered(rs, x);
    }
  }

  // The tables of paging_setup lie in placement memory, but main reserves the frames of the
  // first 45 MB: setup_page can start from them exactly if they end below that line, and all its
  // entries point to used frames exactly if the identity map ends there too.
  lemma PagingStartsExactly(m: Memory, dir: nat, n: nat, bits: seq<bv32>)
    requires PS.SetUp(m, dir, n) && forall f: nat :: BM.IsUsed(bits, f) <==> f < RESERVED_FRAMES
    ensures PW.FramesInv(m, bits, dir) <==> dir / BM.FRAME + n < RESERVED_FRAMES
    ensures PW.PagerInv(m, bits, dir) <==> 1024 * n <= RESERVED_FRAMES && dir / BM.FRAME + n < RESERVED_FRAMES
  {
    hide BM.IsUsed, PS.SetUp, PW.FramesInv, PW.PagerInv;
    if dir / BM.FRAME + n < RESERVED_FRAMES {
      PS.SetUpFrames(m, dir, n, bits);
      if 1024 * n <= RESERVED_FRAMES {
        PS.SetUpInv(m, dir, n, bits);
      }
    }
    if PW.FramesInv(m, bits, dir) {
      LastTable(m, dir, n, bits);
    }
    if PW.PagerInv(m, bits, dir) {
      LastEntry(m, dir, n, bits);
    }
  }

  lemma LastTable(m: Memory, dir: nat, n: nat, bits: seq<bv32>)
    requires PS.SetUp(m, dir, n) && PW.FramesInv(m, bits, dir)
    requires forall f: nat :: BM.IsUsed(bits, f) <==> f < RESERVED_FRAMES
    ensures dir / BM.FRAME + n < RESERVED_FRAMES
  {
    hide BM.IsUsed, PW.FrameOf, PW.Present;
    if n == 0 {
      assert PW.FrameUsed(bits, dir);
    } else {
      PS.SetUpEntry(m, dir, n, n - 1, 0);
      var t := dir + BM.FRAME * n;
      assert PW.Table(m, dir, n - 1) && PW.TableFrame(m, dir, n - 1) == t;
      assert PW.FrameUsed(bits, t);
      assert t / BM.FRAME == dir / BM.FRAME + n;
    }
  }

  lemma LastEntry(m: Memory, dir: nat, n: nat, bits: seq<bv32>)
    requires PS.SetUp(m, dir, n) && PW.PagerInv(m, bits, dir)
    requires forall f: nat :: BM.IsUsed(bits, f) <==> f < RESERVED_FRAMES
    ensures PW.FramesInv(m, bits, dir) && 1024 * n <= RESERVED_FRAMES
  {
    hide BM.IsUsed, PW.FrameOf, PW.Present, PW.FramesInv;
    if n > 0 {
      PS.SetUpEntry(m, dir, n, n - 1, 1022);
      var k := 1024 * (n - 1) + 1022;
      assert PW.Table(m, dir, n - 1);
      assert PW.EntriesMarked(m, bits, PW.TableFrame(m, dir, n - 1));
      assert PW.FrameUsed(bits, PW.FrameOf(PW.Entry(m, PW.TableFrame(m, dir, n - 1), 1022)));
      assert (BM.FRAME * k) / BM.FRAME == k;
    }
  }
}
