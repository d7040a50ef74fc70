// The initial page tables (kernel.c:172-199, 201-328), written with paging off. The call in
// main is commented out (kernel.c:135); this is the state that setup_page expects.
module PagingSetup {
  import opened Numbers
  import opened Options
  import opened Bitmap
  import opened WordMemory
  import opened PageWalk

  // `p & 0xFFFFF000`.
  function PageBits(p: nat): nat {
    (p % WORD) / FRAME * FRAME
  }

  // The address that allocate_frame_aligned returns. It tests the page number instead of
  // the offset: any address on page 0 is left alone, and an address that is already aligned
  // on another page still moves one page up.
  function Aligned(p: nat): nat {
    if PageBits(p) != 0 then PageBits(p) + 0x1000 else p
  }

  lemma AlignedExactly(p: nat)
    ensures Aligned(p) % FRAME == 0 <==> p % WORD == 0 || p % WORD >= FRAME
    ensures FRAME <= p < WORD ==> p < Aligned(p) <= p + FRAME
  {
    var k, w := p / 0x1_0000_0000, p % 0x1_0000_0000;
    var q, r := w / 4096, w % 4096;
    PageBitsAre(p, q, r);
    if q == 0 {
      assert p == 4096 * (0x10_0000 * k) + r;
      Remainder(0x10_0000 * k, r);
    } else {
      Remainder(q + 1, 0);
    }
  }

  lemma PageBitsAre(p: nat, q: nat, r: nat)
    requires p % 0x1_0000_0000 == 4096 * q + r && r < 4096
    ensures PageBits(p) == 4096 * q
  {
  }

  // What paging_setup leaves: `n` tables behind the directory at `dir`.
  ghost predicate SetUp(m: Memory, dir: nat, n: nat) {
    && n <= SELF && dir % FRAME == 0
    && (forall i: nat :: i < ENTRIES ==>
          Entry(m, dir, i) == if i < n then dir + FRAME * (1 + i) + 3 else if i == SELF then dir + 1 else 2)
    && (forall k: nat :: k < 1024 * n ==>
          Read(m, dir + FRAME + 4 * k) == if k % 1024 == SELF then dir + FRAME * (1 + k / 1024) + 1 else FRAME * k + 3)
  }

  lemma SetUpEntry(m: Memory, dir: nat, n: nat, i: nat, j: nat)
    requires SetUp(m, dir, n) && i < ENTRIES && j < ENTRIES
    ensures Present(Entry(m, dir, i)) <==> i < n || i == SELF
    ensures i < n ==> TableFrame(m, dir, i) == dir + FRAME * (1 + i)
    ensures i == SELF ==> TableFrame(m, dir, i) == dir
    ensures i < n ==> Present(Entry(m, dir + FRAME * (1 + i), j)) &&
                      FrameOf(Entry(m, dir + FRAME * (1 + i), j)) ==
                      if j == SELF then dir + FRAME * (1 + i) else FRAME * (1024 * i + j)
  {
    var t := dir + FRAME * (1 + i);
    AlignedSum(dir, 1 + i);
    FrameFacts(t);
    FrameFacts(dir);
    FrameFacts(2);
    if i < n {
      var k := 1024 * i + j;
      Position(i, j);
      assert t + 4 * j == dir + FRAME + 4 * k;
      AlignedSum(0, k);
      FrameFacts(FRAME * k);
    }
  }

  lemma AlignedSum(a: nat, k: nat)
    requires a % FRAME == 0
    ensures (a + FRAME * k) % FRAME == 0
  {
    var q := a / 4096;
    assert a + 4096 * k == 4096 * (q + k) + 0;
    Remainder(q + k, 0);
  }

  lemma Position(i: nat, j: nat)
    requires j < 1024
    ensures (1024 * i + j) / 1024 == i && (1024 * i + j) % 1024 == j
  {
  }

  // The first 4 * n MB are mapped to themselves, except that the last page of each 4 MB
  // leads to its own table; nothing else below the window is mapped.
  lemma SetUpWalk(m: Memory, dir: nat, n: nat, va: nat)
    requires SetUp(m, dir, n) && va < WINDOW
    ensures SelfMapped(m, dir)
    ensures Walk(m, dir, va) ==
            if va >= n * 0x40_0000 then None
            else if TableIndex(va) == SELF then Some(dir + FRAME * (1 + DirectoryIndex(va)) + va % FRAME)
            else Some(va)
  {
    hide FrameOf, Present, TableIndex;
    PageNumber(va);
    SetUpEntry(m, dir, n, DirectoryIndex(va), TableIndex(va));
    SetUpEntry(m, dir, n, SELF, 0);
    assert va == FRAME * (va / FRAME) + va % FRAME;
  }

  // It is a state that setup_page can start from once the directory and the tables are marked.
  lemma SetUpFrames(m: Memory, dir: nat, n: nat, bits: seq<bv32>)
    requires SetUp(m, dir, n)
    requires forall f: nat :: dir / FRAME <= f <= dir / FRAME + n ==> IsUsed(bits, f)
    ensures FramesInv(m, bits, dir)
    ensures forall i: nat :: i <= n ==> FrameUsed(bits, dir + FRAME * i)
  {
    hide FrameOf, Present, IsUsed;
    forall i: nat | i < ENTRIES
      ensures Present(Entry(m, dir, i)) <==> i < n || i == SELF
      ensures i < n ==> TableFrame(m, dir, i) == dir + FRAME * (1 + i)
      ensures i == SELF ==> TableFrame(m, dir, i) == dir
    {
      SetUpEntry(m, dir, n, i, 0);
    }
    forall i: nat | i <= n
      ensures FrameUsed(bits, dir + FRAME * i)
    {
      assert (dir + FRAME * i) / FRAME == dir / FRAME + i;
    }
  }

  // Once the identity-mapped frames are marked too, every entry points to a used frame.
  lemma SetUpInv(m: Memory, dir: nat, n: nat, bits: seq<bv32>)
    requires SetUp(m, dir, n)
    requires forall f: nat :: f < 1024 * n || dir / FRAME <= f <= dir / FRAME + n ==> IsUsed(bits, f)
    ensures PagerInv(m, bits, dir)
  {
    hide FrameOf, Present, IsUsed, FramesInv, SetUp;
    SetUpFrames(m, dir, n, bits);
    forall i: nat | Table(m, dir, i)
      ensures EntriesMarked(m, bits, TableFrame(m, dir, i))
    {
      forall j: nat | j < ENTRIES && Present(Entry(m, TableFrame(m, dir, i), j))
        ensures FrameUsed(bits, FrameOf(Entry(m, TableFrame(m, dir, i), j)))
      {
        SetUpEntry(m, dir, n, i, j);
        if j == SELF {
          assert FrameUsed(bits, dir + FRAME * (1 + i));
        } else {
          assert (FRAME * (1024 * i + j)) / FRAME == 1024 * i + j;
        }
      }
    }
  }

  // Without an aligned address, or with more than 1023 tables, the directory does not map itself.
  lemma NotSelfMapped(m: Memory, dir: nat, n: nat)
    requires dir % FRAME != 0 || (n > SELF && Entry(m, dir, SELF) == Or3(dir + FRAME * (1 + SELF)))
    ensures !SelfMapped(m, dir)
  {
    if dir % FRAME == 0 {
      AlignedSum(dir, 1 + SELF);
      FlagBits(dir + FRAME * (1 + SELF));
      FrameFacts(dir + FRAME * (1 + SELF));
    }
  }

  class InitialTables {
    var phys: Memory
    var placement: nat
    var cr3: nat

    constructor (phys: Memory, placement: nat)
      ensures this.phys == phys && this.placement == placement
    {
      this.phys, this.placement, this.cr3 := phys, placement, 0;
    }

    method AllocateFrameAligned(size: nat) returns (tmp: nat)
      modifies this`placement
      ensures tmp == Aligned(old(placement)) % WORD && placement == Aligned(old(placement)) + size
    {
      if PageBits(placement) != 0 {
        placement := PageBits(placement);
        placement := placement + 0x1000;
      }
      tmp := placement % WORD;
      placement := placement + size;
    }

    // The result is as intended if and only if the address could be aligned and slot 1023 is left.
    method PagingSetup(n: nat)
      requires Aligned(placement) + FRAME * (1 + n) <= WORD
      modifies this
      ensures cr3 == Aligned(old(placement)) && placement == cr3 + FRAME * (1 + n)
      ensures cr3 % FRAME == 0 && n <= SELF ==> SetUp(phys, cr3, n)
      ensures cr3 % FRAME != 0 || n > SELF ==> !SelfMapped(phys, cr3)
      ensures forall x :: x < cr3 || cr3 + FRAME * (1 + n) <= x ==> Read(phys, x) == Read(old(phys), x)
    {
      hide Aligned, SelfMapped, SetUp, Or1, Or3;
      var dir := AllocateFrameAligned((1 + n) * 1024 * 4);
      ClearDirectory(dir);
      ghost var m1 := phys;
      FillTables(dir, n);
      ghost var m2 := phys;
      PointTablesAtThemselves(dir, n);
      ghost var m3 := phys;
      PutTablesIntoDirectory(dir, n);
      if dir % FRAME == 0 && n <= SELF {
        SetUpEntries(m1, m2, m3, phys, dir, n);
      } else {
        NotSelfMapped(phys, dir, n);
      }
      cr3 := dir;
    }

    lemma SetUpEntries(m1: Memory, m2: Memory, m3: Memory, m4: Memory, dir: nat, n: nat)
      requires dir % FRAME == 0 && n <= SELF
      requires forall i: nat :: i < ENTRIES ==> Read(m1, dir + 4 * i) == if i == SELF then Or1(dir) else 2
      requires forall x :: x < dir + FRAME || dir + FRAME * (1 + n) <= x ==> Read(m2, x) == Read(m1, x)
      requires forall k: nat :: k < 1024 * n ==> Read(m2, dir + FRAME + 4 * k) == Or3((FRAME * k) % WORD)
      requires forall x :: x < dir + FRAME || dir + FRAME * (1 + n) <= x ==> Read(m3, x) == Read(m2, x)
      requires forall k: nat :: k < 1024 * n ==>
                 Read(m3, dir + FRAME + 4 * k) ==
                 if k % 1024 == SELF then Or1(dir + FRAME * (1 + k / 1024)) else Read(m2, dir + FRAME + 4 * k)
      requires forall x :: x < dir || dir + 4 * n <= x ==> Read(m4, x) == Read(m3, x)
      requires forall i: nat :: i < n ==> Read(m4, dir + 4 * i) == Or3(dir + FRAME * (1 + i))
      ensures SetUp(m4, dir, n)
    {
      hide Read, Or1, Or3;
      FlagBits(dir);
      forall i: nat | i < ENTRIES
        ensures Entry(m4, dir, i) == if i < n then dir + FRAME * (1 + i) + 3 else if i == SELF then dir + 1 else 2
      {
        var x := dir + 4 * i;
        assert Read(m1, dir + 4 * i) == if i == SELF then Or1(dir) else 2;
        assert Read(m2, x) == Read(m1, x) && Read(m3, x) == Read(m2, x);
        if i < n {
          assert Read(m4, dir + 4 * i) == Or3(dir + FRAME * (1 + i));
          AlignedSum(dir, 1 + i);
          FlagBits(dir + FRAME * (1 + i));
        }
      }
      forall k: nat | k < 1024 * n
        ensures Read(m4, dir + FRAME + 4 * k) ==
                if k % 1024 == SELF then dir + FRAME * (1 + k / 1024) + 1 else FRAME * k + 3
      {
        assert Read(m4, dir + FRAME + 4 * k) == Read(m3, dir + FRAME + 4 * k);
        AlignedSum(dir, 1 + k / 1024);
        FlagBits(dir + FRAME * (1 + k / 1024));
        AlignedSum(0, k);
        FlagBits(FRAME * k);
        NoWrap(k, n);
        assert Read(m2, dir + FRAME + 4 * k) == Or3((FRAME * k) % WORD);
      }
    }

    lemma NoWrap(k: nat, n: nat)
      requires k < 1024 * n && n <= SELF
      ensures (FRAME * k) % WORD == FRAME * k
    {
    }

    method ClearDirectory(dir: nat)
      modifies this`phys
      ensures forall i: nat :: i < ENTRIES ==> Read(phys, dir + 4 * i) == if i == SELF then Or1(dir) else 2
      ensures forall x :: x < dir || dir + FRAME <= x ==> Read(phys, x) == Read(old(phys), x)
    {
      var i := 0;
      while i < 1024
        invariant i <= 1024
        invariant forall k: nat :: k < i ==> Read(phys, dir + 4 * k) == 2
        invariant forall x :: x < dir || dir + FRAME <= x ==> Read(phys, x) == Read(old(phys), x)
      {
        phys := phys[dir + 4 * i := 0x0000_0002];
        i := i + 1;
      }
      phys := phys[dir + 4 * 1023 := dir];
      phys := phys[dir + 4 * 1023 := Or1(Read(phys, dir + 4 * 1023))];
    }

    method FillTables(dir: nat, n: nat)
      modifies this`phys
      ensures forall k: nat :: k < 1024 * n ==> Read(phys, dir + FRAME + 4 * k) == Or3((FRAME * k) % WORD)
      ensures forall x :: x < dir + FRAME || dir + FRAME * (1 + n) <= x ==> Read(phys, x) == Read(old(phys), x)
    {
      hide Or3;
      var i := 0;
      while i < 1024 * n
        invariant i <= 1024 * n
        invariant forall k: nat :: k < i ==> Read(phys, dir + FRAME + 4 * k) == Or3((FRAME * k) % WORD)
        invariant forall x :: x < dir + FRAME || dir + FRAME * (1 + n) <= x ==> Read(phys, x) == Read(old(phys), x)
      {
        phys := phys[dir + FRAME + 4 * i := Or3((i * 0x1000) % WORD)];
        i := i + 1;
      }
    }

    method PointTablesAtThemselves(dir: nat, n: nat)
      modifies this`phys
      ensures forall k: nat :: k < 1024 * n ==>
                Read(phys, dir + FRAME + 4 * k) ==
                if k % 1024 == SELF then Or1(dir + FRAME * (1 + k / 1024)) else Read(old(phys), dir + FRAME + 4 * k)
      ensures forall x :: x < dir + FRAME || dir + FRAME * (1 + n) <= x ==> Read(phys, x) == Read(old(phys), x)
    {
      hide Or1;
      var tempA := dir + FRAME;
      var i := 0;
      while i < n
        invariant i <= n && tempA == dir + FRAME * (1 + i)
        invariant forall k: nat :: k < 1024 * n ==>
                    Read(phys, dir + FRAME + 4 * k) ==
                    if k % 1024 == SELF && k < 1024 * i then Or1(dir + FRAME * (1 + k / 1024))
                    else Read(old(phys), dir + FRAME + 4 * k)
        invariant forall x :: x < dir + FRAME || dir + FRAME * (1 + n) <= x ==> Read(phys, x) == Read(old(phys), x)
      {
        var slot := dir + FRAME + 4 * (i * 1024 + 1023);
        Position(i, 1023);
        phys := phys[slot := tempA];
        phys := phys[slot := Or1(Read(phys, slot))];
        tempA := tempA + 4096;
        i := i + 1;
      }
    }

    // With more than 1024 tables the loop runs on into the first of them.
    method PutTablesIntoDirectory(dir: nat, n: nat)
      modifies this`phys
      ensures forall i: nat :: i < n ==> Read(phys, dir + 4 * i) == Or3(dir + FRAME * (1 + i))
      ensures forall x :: x < dir || dir + 4 * n <= x ==> Read(phys, x) == Read(old(phys), x)
    {
      hide Or3;
      var temp := dir + FRAME;
      var i := 0;
      while i < n
        invariant i <= n && temp == dir + FRAME * (1 + i)
        invariant forall k: nat :: k < i ==> Read(phys, dir + 4 * k) == Or3(dir + FRAME * (1 + k))
        invariant forall x :: x < dir || dir + 4 * n <= x ==> Read(phys, x) == Read(old(phys), x)
      {
        phys := phys[dir + 4 * i := temp];
        phys := phys[dir + 4 * i := Or3(Read(phys, dir + 4 * i))];
        temp := temp + 4096;
        i := i + 1;
      }
    }
  }
}
