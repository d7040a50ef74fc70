// The two-level page walk (Intel SDM volume 3A, section 4.3, "32-Bit Paging", with 4 KB
// pages) over physical memory, and what the edits of setup_page do to it.
module PageWalk {
  import opened Options
  import opened Bitmap
  import opened WordMemory

  const ENTRIES: nat := 1024
  const SELF: nat := 1023
  const WINDOW: nat := 0xFFC0_0000

  predicate Present(e: int) {
    e % 2 == 1
  }

  // The frame address in an entry.
  function FrameOf(e: int): int {
    e - e % FRAME
  }

  lemma Remainder(q: int, r: int)
    requires 0 <= r < 4096
    ensures (4096 * q + r) % 4096 == r
  {
  }

  lemma Truncated(e: int)
    ensures FrameOf(e) % FRAME == 0 && FrameOf(e) <= e
  {
    var q := e / 4096;
    assert e - e % 4096 == 4096 * q + 0;
    Remainder(q, 0);
  }

  lemma Flagged(e: int, r: int)
    requires e % FRAME == 0 && 0 <= r < 4
    ensures FrameOf(e + r) == e && (Present(e + r) <==> r == 1 || r == 3)
  {
    var q := e / 4096;
    assert e == 4096 * q;
    Remainder(q, r);
    Parity(2048 * q, r);
  }

  lemma Parity(h: int, r: int)
    requires 0 <= r < 4
    ensures (2 * h + r) % 2 == (if r == 1 || r == 3 then 1 else 0)
  {
  }

  lemma FrameFacts(e: int)
    ensures FrameOf(e) % FRAME == 0 && FrameOf(e) <= e
    ensures e % FRAME == 0 ==> FrameOf(e) == e && FrameOf(e + 1) == e && FrameOf(e + 3) == e
    ensures e % FRAME == 0 ==> Present(e + 1) && Present(e + 3) && !Present(e)
    ensures !Present(2)
  {
    hide FrameOf;
    Truncated(e);
    if e % FRAME == 0 {
      Flagged(e, 0);
      Flagged(e, 1);
      Flagged(e, 3);
    }
  }

  // `| 3` and `| 1`.
  function Or3(x: nat): nat { x - x % 4 + 3 }
  function Or1(x: nat): nat { x - x % 2 + 1 }

  lemma FlagBits(t: nat)
    requires t % FRAME == 0
    ensures Or3(t) == t + 3 && Or1(t) == t + 1
  {
    var q := t / FRAME;
    assert t == FRAME * q;
    MultipleOfFour(1024 * q);
    MultipleOfTwo(2048 * q);
  }

  lemma MultipleOfFour(w: nat)
    ensures (4 * w) % 4 == 0
  {
  }

  lemma MultipleOfTwo(w: int)
    ensures (2 * w) % 2 == 0
  {
  }

  function Entry(m: Memory, table: int, i: nat): int {
    Read(m, table + 4 * i)
  }

  function DirectoryIndex(va: nat): nat {
    va / (4 * 1024 * 1024)
  }

  function TableIndex(va: nat): nat {
    (va % (4 * 1024 * 1024)) / (4 * 1024)
  }

  function Walk(m: Memory, cr3: int, va: nat): Option<int> {
    var pde := Entry(m, cr3, DirectoryIndex(va));
    if !Present(pde) then None
    else
      var pte := Entry(m, FrameOf(pde), TableIndex(va));
      if Present(pte) then Some(FrameOf(pte) + va % FRAME) else None
  }

  // The last directory entry points to the directory itself.
  predicate SelfMapped(m: Memory, cr3: int) {
    cr3 % FRAME == 0 && Present(Entry(m, cr3, SELF)) && FrameOf(Entry(m, cr3, SELF)) == cr3
  }

  // Addresses 0xFFFFF000 + 4 * i reach directory entry i ...
  lemma WalkDirectory(m: Memory, cr3: int, i: nat)
    requires SelfMapped(m, cr3) && i < ENTRIES
    ensures Walk(m, cr3, 0xFFFF_F000 + 4 * i) == Some(cr3 + 4 * i)
  {
  }

  // ... and addresses 0xFFC00000 + 0x1000 * i + 4 * j reach entry j of table i.
  lemma WalkTable(m: Memory, cr3: int, i: nat, j: nat)
    requires SelfMapped(m, cr3) && i < ENTRIES && j < ENTRIES && Present(Entry(m, cr3, i))
    ensures Walk(m, cr3, WINDOW + 0x1000 * i + 4 * j) == Some(FrameOf(Entry(m, cr3, i)) + 4 * j)
  {
    var va := WINDOW + 0x1000 * i + 4 * j;
    assert DirectoryIndex(va) == SELF && TableIndex(va) == i && va % FRAME == 4 * j;
  }

  // ------------------------------------------------------------------ the invariant

  // The frame at this address is marked used.
  predicate FrameUsed(bits: seq<bv32>, address: int) {
    address >= 0 && IsUsed(bits, address / FRAME)
  }

  ghost predicate Table(m: Memory, cr3: int, i: nat) {
    i < SELF && Present(Entry(m, cr3, i))
  }

  function TableFrame(m: Memory, cr3: int, i: nat): int {
    FrameOf(Entry(m, cr3, i))
  }

  // The directory maps itself; it and all tables are different used frames.
  ghost predicate FramesInv(m: Memory, bits: seq<bv32>, cr3: int) {
    && SelfMapped(m, cr3) && FrameUsed(bits, cr3)
    && (forall i :: Table(m, cr3, i) ==> TableFrame(m, cr3, i) != cr3 && FrameUsed(bits, TableFrame(m, cr3, i)))
    && (forall i, j :: Table(m, cr3, i) && Table(m, cr3, j) && i != j ==>
          TableFrame(m, cr3, i) != TableFrame(m, cr3, j))
  }

  // Every present entry of the table at `t` points to a used frame.
  ghost predicate EntriesMarked(m: Memory, bits: seq<bv32>, t: int) {
    forall j: nat :: j < ENTRIES && Present(Entry(m, t, j)) ==> FrameUsed(bits, FrameOf(Entry(m, t, j)))
  }

  // The same, and every present entry of every table points to a used frame.
  ghost predicate PagerInv(m: Memory, bits: seq<bv32>, cr3: int) {
    FramesInv(m, bits, cr3) && forall i :: Table(m, cr3, i) ==> EntriesMarked(m, bits, TableFrame(m, cr3, i))
  }

  // `b'` is `b` with frame `f` marked used.
  ghost predicate Marks(b: seq<bv32>, b': seq<bv32>, f: nat) {
    |b'| == |b| && forall g: nat :: IsUsed(b', g) == (g == f || IsUsed(b, g))
  }

  // An empty table at `t` was put into directory slot `i`.
  ghost predicate Installed(m: Memory, m': Memory, cr3: int, i: nat, t: int) {
    && Entry(m', cr3, i) == t + 3
    && (forall j: nat :: j < SELF ==> Entry(m', t, j) == 2)
    && Entry(m', t, SELF) == t
    && (forall x :: x != cr3 + 4 * i && (x < t || t + FRAME <= x) ==> Read(m', x) == Read(m, x))
  }

  // Entry `j` of the table at `t` was pointed at the frame at `d`.
  ghost predicate Pointed(m: Memory, m': Memory, t: int, j: nat, d: int) {
    Entry(m', t, j) == d + 1 && forall x :: x != t + 4 * j ==> Read(m', x) == Read(m, x)
  }

  // Different frames share no entry.
  lemma EntriesApart(s: int, i: nat, t: int, j: nat)
    requires s % FRAME == 0 && t % FRAME == 0 && s != t && i < ENTRIES && j < ENTRIES
    ensures s + 4 * i != t + 4 * j
    ensures s + 4 * i < t || t + FRAME <= s + 4 * i
  {
  }

  // ------------------------------------------------------------------ installing a table

  lemma InstalledEntry(m: Memory, m': Memory, bits: seq<bv32>, cr3: int, i: nat, t: int, k: nat, j: nat)
    requires FramesInv(m, bits, cr3) && Installed(m, m', cr3, i, t) && !Table(m, cr3, i) && i < SELF
    requires t % FRAME == 0 && t >= 0 && !FrameUsed(bits, t) && k < ENTRIES && j < ENTRIES
    ensures k != i ==> Entry(m', cr3, k) == Entry(m, cr3, k)
    ensures Entry(m', cr3, i) == t + 3 && Present(t + 3) && FrameOf(t + 3) == t
    ensures k != i && Table(m, cr3, k) ==> Entry(m', TableFrame(m, cr3, k), j) == Entry(m, TableFrame(m, cr3, k), j)
    ensures !Present(Entry(m', t, j))
  {
    hide FrameOf, Present, FrameUsed, IsUsed;
    FrameFacts(t);
    EntriesApart(cr3, k, t, 0);
    assert t != cr3;
    if k != i && Table(m, cr3, k) {
      FrameFacts(Entry(m, cr3, k));
      EntriesApart(TableFrame(m, cr3, k), j, t, 0);
      EntriesApart(TableFrame(m, cr3, k), j, cr3, i);
    }
    assert j < SELF || j == SELF;
  }

  // An empty table changes no translation below the window.
  lemma InstalledWalk(m: Memory, m': Memory, bits: seq<bv32>, cr3: int, i: nat, t: int, va: nat)
    requires FramesInv(m, bits, cr3) && Installed(m, m', cr3, i, t) && !Table(m, cr3, i) && i < SELF
    requires t % FRAME == 0 && t >= 0 && !FrameUsed(bits, t) && va < WINDOW
    ensures Walk(m', cr3, va) == Walk(m, cr3, va)
  {
    hide FrameOf, Present, FrameUsed, IsUsed;
    InstalledEntry(m, m', bits, cr3, i, t, DirectoryIndex(va), TableIndex(va));
  }

  // The directory and the tables after a new one: which they are, and that they are in order.
  lemma InstalledFrames(m: Memory, m': Memory, b: seq<bv32>, b': seq<bv32>, cr3: int, i: nat, t: nat)
    requires FramesInv(m, b, cr3) && Installed(m, m', cr3, i, FRAME * t) && !Table(m, cr3, i) && i < SELF
    requires Marks(b, b', t) && !IsUsed(b, t) && t < 32 * |b|
    ensures FramesInv(m', b', cr3) && !FrameUsed(b, FRAME * t) && (FRAME * t) % FRAME == 0
    ensures forall k: nat :: Table(m', cr3, k) <==> Table(m, cr3, k) || k == i
    ensures forall k: nat :: Table(m', cr3, k) ==>
              TableFrame(m', cr3, k) == if k == i then FRAME * t else TableFrame(m, cr3, k)
  {
    hide FrameOf, Present, IsUsed, FrameBit;
    var a := FRAME * t;
    FrameFacts(a);
    assert !FrameUsed(b, a);
    forall k: nat | k < ENTRIES
      ensures Entry(m', cr3, k) == if k == i then a + 3 else Entry(m, cr3, k)
      ensures Present(a + 3) && FrameOf(a + 3) == a
    {
      InstalledEntry(m, m', b, cr3, i, a, k, 0);
    }
    forall k: nat
      ensures Table(m', cr3, k) <==> Table(m, cr3, k) || k == i
      ensures Table(m', cr3, k) ==> TableFrame(m', cr3, k) == if k == i then a else TableFrame(m, cr3, k)
    {
      assert k < SELF ==> Entry(m', cr3, k) == if k == i then a + 3 else Entry(m, cr3, k);
    }
  }

  lemma InstalledInv(m: Memory, m': Memory, b: seq<bv32>, b': seq<bv32>, cr3: int, i: nat, t: nat)
    requires PagerInv(m, b, cr3) && Installed(m, m', cr3, i, FRAME * t) && !Table(m, cr3, i) && i < SELF
    requires Marks(b, b', t) && !IsUsed(b, t) && t < 32 * |b|
    ensures PagerInv(m', b', cr3)
  {
    hide FrameOf, Present, IsUsed, FrameBit, FramesInv;
    InstalledFrames(m, m', b, b', cr3, i, t);
    forall k: nat | Table(m', cr3, k)
      ensures EntriesMarked(m', b', TableFrame(m', cr3, k))
    {
      forall j: nat | j < ENTRIES && Present(Entry(m', TableFrame(m', cr3, k), j))
        ensures FrameUsed(b', FrameOf(Entry(m', TableFrame(m', cr3, k), j)))
      {
        InstalledEntry(m, m', b, cr3, i, FRAME * t, k, j);
        assert FrameUsed(b, FrameOf(Entry(m, TableFrame(m, cr3, k), j)));
      }
    }
  }

  // ------------------------------------------------------------------ pointing an entry

  lemma PointedEntry(m: Memory, m': Memory, bits: seq<bv32>, cr3: int, i: nat, j: nat, d: int, k: nat, l: nat)
    requires FramesInv(m, bits, cr3) && Table(m, cr3, i) && Pointed(m, m', TableFrame(m, cr3, i), j, d)
    requires j < ENTRIES && k < ENTRIES && l < ENTRIES
    ensures Entry(m', cr3, k) == Entry(m, cr3, k)
    ensures Table(m, cr3, k) && (k != i || l != j) ==>
              Entry(m', TableFrame(m, cr3, k), l) == Entry(m, TableFrame(m, cr3, k), l)
  {
    hide FrameOf, Present, FrameUsed, IsUsed;
    FrameFacts(Entry(m, cr3, i));
    FrameFacts(Entry(m, cr3, k));
    EntriesApart(cr3, k, TableFrame(m, cr3, i), j);
    if Table(m, cr3, k) && k != i {
      EntriesApart(TableFrame(m, cr3, k), l, TableFrame(m, cr3, i), j);
    }
  }

  lemma PageNumber(va: nat)
    ensures va / FRAME == 1024 * DirectoryIndex(va) + TableIndex(va) && TableIndex(va) < ENTRIES
    ensures va < WINDOW ==> DirectoryIndex(va) < SELF
  {
  }

  // It gives one page its frame and changes no other page below the window.
  lemma PointedWalk(m: Memory, m': Memory, bits: seq<bv32>, cr3: int, va: nat, d: int, w: nat)
    requires FramesInv(m, bits, cr3) && va < WINDOW && Table(m, cr3, DirectoryIndex(va)) && d % FRAME == 0
    requires Pointed(m, m', TableFrame(m, cr3, DirectoryIndex(va)), TableIndex(va), d) && w < WINDOW
    ensures Walk(m', cr3, w) == if w / FRAME == va / FRAME then Some(d + w % FRAME) else Walk(m, cr3, w)
  {
    hide FrameOf, Present, FrameUsed, IsUsed, DirectoryIndex, TableIndex;
    PageNumber(va);
    PageNumber(w);
    PointedEntry(m, m', bits, cr3, DirectoryIndex(va), TableIndex(va), d, DirectoryIndex(w), TableIndex(w));
    FrameFacts(d);
  }

  lemma PointedFrames(m: Memory, m': Memory, b: seq<bv32>, b': seq<bv32>, cr3: int, i: nat, j: nat, d: nat)
    requires FramesInv(m, b, cr3) && Table(m, cr3, i) && j < ENTRIES
    requires Pointed(m, m', TableFrame(m, cr3, i), j, FRAME * d) && Marks(b, b', d) && d < 32 * |b|
    ensures FramesInv(m', b', cr3)
    ensures forall k: nat :: Table(m', cr3, k) <==> Table(m, cr3, k)
    ensures forall k: nat :: Table(m', cr3, k) ==> TableFrame(m', cr3, k) == TableFrame(m, cr3, k)
  {
    hide FrameOf, Present, IsUsed, FrameBit;
    FrameFacts(FRAME * d);
    forall k: nat | k < ENTRIES
      ensures Entry(m', cr3, k) == Entry(m, cr3, k)
    {
      PointedEntry(m, m', b, cr3, i, j, FRAME * d, k, 0);
    }
    forall k: nat
      ensures Table(m', cr3, k) <==> Table(m, cr3, k)
      ensures Table(m', cr3, k) ==> TableFrame(m', cr3, k) == TableFrame(m, cr3, k)
    {
      assert k < SELF ==> Entry(m', cr3, k) == Entry(m, cr3, k);
    }
  }

  lemma PointedInv(m: Memory, m': Memory, b: seq<bv32>, b': seq<bv32>, cr3: int, i: nat, j: nat, d: nat)
    requires PagerInv(m, b, cr3) && Table(m, cr3, i) && j < ENTRIES
    requires Pointed(m, m', TableFrame(m, cr3, i), j, FRAME * d) && Marks(b, b', d) && d < 32 * |b|
    ensures PagerInv(m', b', cr3)
  {
    hide FrameOf, Present, IsUsed, FrameBit, FramesInv;
    FrameFacts(FRAME * d);
    PointedFrames(m, m', b, b', cr3, i, j, d);
    forall k: nat | Table(m', cr3, k)
      ensures EntriesMarked(m', b', TableFrame(m', cr3, k))
    {
      forall l: nat | l < ENTRIES && Present(Entry(m', TableFrame(m', cr3, k), l))
        ensures FrameUsed(b', FrameOf(Entry(m', TableFrame(m', cr3, k), l)))
      {
        PointedEntry(m, m', b, cr3, i, j, FRAME * d, k, l);
        if k != i || l != j {
          assert FrameUsed(b, FrameOf(Entry(m, TableFrame(m, cr3, k), l)));
        }
      }
    }
  }

  // ------------------------------------------------------------------ pointing a directory slot

  // Slot `j` of the directory was pointed at a fresh frame: the frame has become a table, with
  // whatever it holds, and no entry of any table changed.
  lemma SlotEntry(m: Memory, m': Memory, b: seq<bv32>, cr3: int, j: nat, d: nat, k: nat, l: nat)
    requires FramesInv(m, b, cr3) && j < SELF && Pointed(m, m', cr3, j, FRAME * d) && !IsUsed(b, d)
    requires k < ENTRIES && l < ENTRIES
    ensures Entry(m', cr3, k) == if k == j then FRAME * d + 1 else Entry(m, cr3, k)
    ensures Present(FRAME * d + 1) && FrameOf(FRAME * d + 1) == FRAME * d && !FrameUsed(b, FRAME * d)
    ensures Entry(m', FRAME * d, l) == Entry(m, FRAME * d, l)
    ensures Table(m, cr3, k) ==> Entry(m', TableFrame(m, cr3, k), l) == Entry(m, TableFrame(m, cr3, k), l)
  {
    hide FrameOf, Present, IsUsed, FrameBit;
    Remainder(d, 0);
    FrameFacts(FRAME * d);
    assert !FrameUsed(b, FRAME * d) && FRAME * d != cr3;
    EntriesApart(FRAME * d, l, cr3, j);
    if Table(m, cr3, k) {
      FrameFacts(Entry(m, cr3, k));
      EntriesApart(TableFrame(m, cr3, k), l, cr3, j);
    }
  }

  lemma SlotFrames(m: Memory, m': Memory, b: seq<bv32>, b': seq<bv32>, cr3: int, j: nat, d: nat)
    requires FramesInv(m, b, cr3) && j < SELF && Pointed(m, m', cr3, j, FRAME * d) && !IsUsed(b, d) && Marks(b, b', d)
    ensures FramesInv(m', b', cr3)
    ensures forall k: nat :: Table(m', cr3, k) <==> Table(m, cr3, k) || k == j
    ensures forall k: nat :: Table(m', cr3, k) ==>
              TableFrame(m', cr3, k) == if k == j then FRAME * d else TableFrame(m, cr3, k)
  {
    hide FrameOf, Present, IsUsed, FrameBit;
    SlotEntry(m, m', b, cr3, j, d, SELF, 0);
    forall k: nat
      ensures Table(m', cr3, k) <==> Table(m, cr3, k) || k == j
      ensures Table(m', cr3, k) ==> TableFrame(m', cr3, k) == if k == j then FRAME * d else TableFrame(m, cr3, k)
    {
      if k < SELF {
        SlotEntry(m, m', b, cr3, j, d, k, 0);
      }
    }
  }

  // The tables stay in order exactly if the present entries of that frame point to used frames.
  lemma SlotInv(m: Memory, m': Memory, b: seq<bv32>, b': seq<bv32>, cr3: int, j: nat, d: nat)
    requires PagerInv(m, b, cr3) && j < SELF && Pointed(m, m', cr3, j, FRAME * d) && !IsUsed(b, d) && Marks(b, b', d)
    ensures PagerInv(m', b', cr3) <==> EntriesMarked(m, b', FRAME * d)
  {
    hide FrameOf, Present, IsUsed, FrameBit, FramesInv;
    SlotFrames(m, m', b, b', cr3, j, d);
    forall l: nat | l < ENTRIES
      ensures Entry(m', FRAME * d, l) == Entry(m, FRAME * d, l)
    {
      SlotEntry(m, m', b, cr3, j, d, 0, l);
    }
    SameEntries(m, m', b', FRAME * d);
    forall k: nat | Table(m, cr3, k)
      ensures EntriesMarked(m', b', TableFrame(m, cr3, k))
    {
      forall l: nat | l < ENTRIES
        ensures Entry(m', TableFrame(m, cr3, k), l) == Entry(m, TableFrame(m, cr3, k), l)
      {
        SlotEntry(m, m', b, cr3, j, d, k, l);
      }
      SameEntries(m, m', b', TableFrame(m, cr3, k));
      MoreMarked(m, b, b', TableFrame(m, cr3, k), d);
    }
    assert Table(m', cr3, j);
  }

  lemma SameEntries(m: Memory, m': Memory, b: seq<bv32>, t: int)
    requires forall l: nat :: l < ENTRIES ==> Entry(m', t, l) == Entry(m, t, l)
    ensures EntriesMarked(m', b, t) <==> EntriesMarked(m, b, t)
  {
    hide Present, FrameOf, FrameUsed;
    assert EntriesMarked(m', b, t) ==> forall l: nat :: l < ENTRIES ==> Entry(m, t, l) == Entry(m', t, l);
  }

  // Marking one more frame.
  lemma MoreMarked(m: Memory, b: seq<bv32>, b': seq<bv32>, t: int, f: nat)
    requires Marks(b, b', f) && EntriesMarked(m, b, t)
    ensures EntriesMarked(m, b', t)
  {
    hide Present, FrameOf, IsUsed;
  }
}
