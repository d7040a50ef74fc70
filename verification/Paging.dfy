// Demand paging (paging.c:29-212, 228-280): setup_page with paging on, so that every access
// to the directory and the tables goes through the recursive window.
module Paging {
  import opened Numbers
  import opened Options
  import opened Bitmap
  import opened WordMemory
  import opened PageWalk

  // The recursive address of the directory.
  const LAST_PAGE: nat := 0xFFFF_F000

  // The table for directory slot `i` after the first half of setup_page: the old one, or an
  // empty one at `t`.
  ghost predicate TableReady(m: Memory, m': Memory, cr3: int, i: nat, t: int) {
    if Present(Entry(m, cr3, i)) then m' == m else Installed(m, m', cr3, i, t)
  }

  // One page fault at `va`: two free frames are taken, the lowest first, even when the
  // table exists already; when they run out, as much is done as they allow.
  ghost predicate Serves(m: Memory, b: seq<bv32>, cr3: int, va: nat, m': Memory, b': seq<bv32>) {
    var i, j := DirectoryIndex(va), TableIndex(va);
    match FreeFrom(b, 0)
    case None => m' == m && b' == b
    case Some(t) =>
      match FreeFrom(b, t + 1)
      case None => Marks(b, b', t) && TableReady(m, m', cr3, i, FRAME * t)
      case Some(d) => exists m1, b1 :: Stages(m, b, cr3, va, t, d, m1, b1, m', b')
  }

  // The two halves of setup_page, with the state between them.
  ghost predicate Stages(m: Memory, b: seq<bv32>, cr3: int, va: nat, t: nat, d: nat, m1: Memory,
                         b1: seq<bv32>, m': Memory, b': seq<bv32>) {
    && Marks(b, b1, t) && Marks(b1, b', d)
    && TableReady(m, m1, cr3, DirectoryIndex(va), FRAME * t)
    && Pointed(m1, m', TableFrame(m1, cr3, DirectoryIndex(va)), TableIndex(va), FRAME * d)
  }

  // The lowest free frame is determined by which frames are used.
  lemma FreeAfter(b: seq<bv32>, b1: seq<bv32>, t: nat)
    requires FreeFrom(b, 0) == Some(t) && Marks(b, b1, t)
    ensures FreeFrom(b1, 0) == FreeFrom(b, t + 1)
  {
  }

  // Which frames a fault takes: none, the lowest free one, or the two lowest.
  function Taken(b: seq<bv32>): set<nat> {
    match FreeFrom(b, 0)
    case None => {}
    case Some(t) => match FreeFrom(b, t + 1) case None => {t} case Some(d) => {t, d}
  }

  // The last page is the directory itself: under a self-map it is mapped, and no fault for want
  // of a page is ever on it.
  lemma LastPageIsMapped(m: Memory, cr3: int, va: nat)
    requires SelfMapped(m, cr3) && LAST_PAGE <= va < WORD
    ensures Walk(m, cr3, va) == Some(cr3 + va % FRAME)
  {
    WalkDirectory(m, cr3, SELF);
    assert DirectoryIndex(va) == SELF && TableIndex(va) == SELF;
  }

  // A fault below the window gives the faulting page, and no other page, a new translation: the
  // second frame taken. Without two free frames no translation changes.
  lemma ServesWalk(m: Memory, b: seq<bv32>, cr3: int, va: nat, m': Memory, b': seq<bv32>, w: nat)
    requires FramesInv(m, b, cr3) && Serves(m, b, cr3, va, m', b') && va < WINDOW && w < WINDOW
    ensures Walk(m', cr3, w) ==
            match FreeFrom(b, 0)
            case None => Walk(m, cr3, w)
            case Some(t) =>
              match FreeFrom(b, t + 1)
              case None => Walk(m, cr3, w)
              case Some(d) => if w / FRAME == va / FRAME then Some(FRAME * d + w % FRAME) else Walk(m, cr3, w)
  {
    hide Present, FrameOf, Walk, IsUsed, Pointed, Installed, FreeFrom, DirectoryIndex, TableIndex, FramesInv, Marks;
    PageNumber(va);
    match FreeFrom(b, 0) {
      case None =>
      case Some(t) =>
        match FreeFrom(b, t + 1) {
          case None => ReadyWalk(m, b, cr3, DirectoryIndex(va), t, m', b', w);
          case Some(d) =>
            var m1, b1 :| Stages(m, b, cr3, va, t, d, m1, b1, m', b');
            ReadyWalk(m, b, cr3, DirectoryIndex(va), t, m1, b1, w);
            FreshFrame(d);
            PointedWalk(m1, m', b1, cr3, va, FRAME * d, w);
        }
    }
  }

  lemma FreshFrame(d: nat)
    ensures (FRAME * d) % FRAME == 0
  {
    Remainder(d, 0);
  }

  lemma FreeInRange(b: seq<bv32>, f: nat)
    ensures FreeFrom(b, 0) == Some(f) ==> f < 32 * |b| && !IsUsed(b, f) && !FrameUsed(b, FRAME * f)
  {
  }

  // The first half of setup_page on its own.
  lemma ReadyWalk(m: Memory, b: seq<bv32>, cr3: int, i: nat, t: nat, m1: Memory, b1: seq<bv32>, w: nat)
    requires FramesInv(m, b, cr3) && i < SELF && FreeFrom(b, 0) == Some(t) && Marks(b, b1, t) && w < WINDOW
    requires TableReady(m, m1, cr3, i, FRAME * t)
    ensures FramesInv(m1, b1, cr3) && Table(m1, cr3, i) && Walk(m1, cr3, w) == Walk(m, cr3, w)
    ensures PagerInv(m, b, cr3) ==> PagerInv(m1, b1, cr3)
  {
    hide Present, FrameOf, Walk, IsUsed, Installed, FreeFrom;
    FreeInRange(b, t);
    FreshFrame(t);
    if Present(Entry(m, cr3, i)) {
      MoreUsed(m, b, b1, cr3, t);
    } else {
      InstalledFrames(m, m1, b, b1, cr3, i, t);
      InstalledWalk(m, m1, b, cr3, i, FRAME * t, w);
      if PagerInv(m, b, cr3) {
        InstalledInv(m, m1, b, b1, cr3, i, t);
      }
    }
  }

  lemma MoreUsed(m: Memory, b: seq<bv32>, b1: seq<bv32>, cr3: int, t: nat)
    requires FramesInv(m, b, cr3) && Marks(b, b1, t)
    ensures FramesInv(m, b1, cr3) && (PagerInv(m, b, cr3) ==> PagerInv(m, b1, cr3))
  {
    hide Present, FrameOf, IsUsed;
    if PagerInv(m, b, cr3) {
      forall i | Table(m, cr3, i)
        ensures EntriesMarked(m, b1, TableFrame(m, cr3, i))
      {
        MoreMarked(m, b, b1, TableFrame(m, cr3, i), t);
      }
    }
  }

  // In the window the table exists always: it is the directory.
  lemma WindowStages(m: Memory, b: seq<bv32>, cr3: int, va: nat, t: nat, d: nat, m1: Memory, b1: seq<bv32>,
                     m': Memory, b': seq<bv32>)
    requires FramesInv(m, b, cr3) && WINDOW <= va < LAST_PAGE
    requires FreeFrom(b, 0) == Some(t) && FreeFrom(b, t + 1) == Some(d) && Stages(m, b, cr3, va, t, d, m1, b1, m', b')
    ensures TableIndex(va) < SELF && Pointed(m, m', cr3, TableIndex(va), FRAME * d)
    ensures Marks(b, b1, t) && Marks(b1, b', d) && !IsUsed(b1, d) && FramesInv(m, b1, cr3)
    ensures PagerInv(m, b, cr3) ==> PagerInv(m, b1, cr3)
  {
    hide IsUsed, FreeFrom, Installed, FrameOf, Pointed, FramesInv;
    WindowIndex(va);
    FreeAfter(b, b1, t);
    FreeInRange(b1, d);
    MoreUsed(m, b, b1, cr3, t);
    assert SelfMapped(m, cr3) by { Unfold(m, b, cr3); }
  }

  lemma Unfold(m: Memory, b: seq<bv32>, cr3: int)
    requires FramesInv(m, b, cr3)
    ensures SelfMapped(m, cr3)
  {
  }

  lemma WindowIndex(va: nat)
    requires WINDOW <= va < LAST_PAGE
    ensures DirectoryIndex(va) == SELF && TableIndex(va) < SELF
  {
  }

  // A fault inside the window puts the second frame into the directory itself: the pages
  // of that 4 MB slice are from then on whatever the frame happens to hold, and no other
  // page below the window changes.
  lemma ServesWindow(m: Memory, b: seq<bv32>, cr3: int, va: nat, m': Memory, b': seq<bv32>, t: nat, d: nat, w: nat)
    requires FramesInv(m, b, cr3) && Serves(m, b, cr3, va, m', b') && WINDOW <= va < LAST_PAGE
    requires FreeFrom(b, 0) == Some(t) && FreeFrom(b, t + 1) == Some(d) && w < WINDOW
    ensures Walk(m', cr3, va) == Some(FRAME * d + va % FRAME)
    ensures Walk(m', cr3, w) ==
            if DirectoryIndex(w) != TableIndex(va) then Walk(m, cr3, w)
            else
              var pte := Entry(m, FRAME * d, TableIndex(w));
              if Present(pte) then Some(FrameOf(pte) + w % FRAME) else None
  {
    hide IsUsed, FreeFrom, Installed, FrameOf, Present, FrameUsed, DirectoryIndex, TableIndex, Stages, Pointed;
    PageNumber(w);
    WindowIndex(va);
    var m1, b1 :| Stages(m, b, cr3, va, t, d, m1, b1, m', b');
    WindowStages(m, b, cr3, va, t, d, m1, b1, m', b');
    SlotEntry(m, m', b1, cr3, TableIndex(va), d, SELF, 0);
    SlotEntry(m, m', b1, cr3, TableIndex(va), d, TableIndex(va), TableIndex(w));
    SlotEntry(m, m', b1, cr3, TableIndex(va), d, DirectoryIndex(w), TableIndex(w));
  }

  // The entries of the frame that a fault in the window turns into a table point to frames that
  // are used or being taken. This can be told before the fault.
  ghost predicate Harmless(m: Memory, b: seq<bv32>, va: nat) {
    va >= WINDOW ==>
      match FreeFrom(b, 0)
      case None => true
      case Some(t) =>
        match FreeFrom(b, t + 1)
        case None => true
        case Some(d) => EntriesTaken(m, b, FRAME * d)
  }

  ghost predicate EntriesTaken(m: Memory, b: seq<bv32>, t: int) {
    forall j: nat :: j < ENTRIES && Present(Entry(m, t, j)) ==>
      FrameUsed(b, FrameOf(Entry(m, t, j))) || FrameIn(Taken(b), FrameOf(Entry(m, t, j)))
  }

  predicate FrameIn(s: set<nat>, address: int) {
    address >= 0 && address / FRAME in s
  }

  lemma TakenMarked(m: Memory, b: seq<bv32>, cr3: int, va: nat, m': Memory, b': seq<bv32>, t: int)
    requires Serves(m, b, cr3, va, m', b')
    ensures EntriesTaken(m, b, t) <==> EntriesMarked(m, b', t)
  {
    hide Serves, Taken, IsUsed, Present, FrameOf;
    forall j: nat | j < ENTRIES
      ensures FrameUsed(b', FrameOf(Entry(m, t, j))) <==>
              FrameUsed(b, FrameOf(Entry(m, t, j))) || FrameIn(Taken(b), FrameOf(Entry(m, t, j)))
    {
      var e := FrameOf(Entry(m, t, j));
      if e >= 0 {
        TakesFreeFrames(m, b, cr3, va, m', b', e / FRAME);
      }
    }
  }

  // Every fault, in the window or below it, and with however many free frames, leaves the
  // directory and the tables distinct used frames.
  lemma ServesFrames(m: Memory, b: seq<bv32>, cr3: int, va: nat, m': Memory, b': seq<bv32>)
    requires FramesInv(m, b, cr3) && Serves(m, b, cr3, va, m', b') && va < LAST_PAGE
    ensures FramesInv(m', b', cr3)
  {
    ServesBoth(m, b, cr3, va, m', b');
  }

  // It keeps the tables in order if and only if it is harmless, as every fault below the window is.
  lemma ServesInv(m: Memory, b: seq<bv32>, cr3: int, va: nat, m': Memory, b': seq<bv32>)
    requires PagerInv(m, b, cr3) && Serves(m, b, cr3, va, m', b') && va < LAST_PAGE
    ensures PagerInv(m', b', cr3) <==> Harmless(m, b, va)
  {
    ServesBoth(m, b, cr3, va, m', b');
  }

  lemma ServesBoth(m: Memory, b: seq<bv32>, cr3: int, va: nat, m': Memory, b': seq<bv32>)
    requires FramesInv(m, b, cr3) && Serves(m, b, cr3, va, m', b') && va < LAST_PAGE
    ensures FramesInv(m', b', cr3)
    ensures PagerInv(m, b, cr3) ==> (PagerInv(m', b', cr3) <==> Harmless(m, b, va))
  {
    hide FreeFrom, FramesInv, PagerInv, Marks, IsUsed, Stages, Installed, EntriesTaken, EntriesMarked, Taken;
    hide DirectoryIndex, TableIndex, Present, FrameOf;
    PageNumber(va);
    match FreeFrom(b, 0) {
      case None =>
      case Some(t) =>
        match FreeFrom(b, t + 1) {
          case None => OnlyOneFrame(m, b, cr3, va, t, m', b');
          case Some(d) =>
            var m1, b1 :| Stages(m, b, cr3, va, t, d, m1, b1, m', b');
            if va < WINDOW {
              BelowBoth(m, b, cr3, va, t, d, m1, b1, m', b');
            } else {
              WindowStages(m, b, cr3, va, t, d, m1, b1, m', b');
              SlotFrames(m, m', b1, b', cr3, TableIndex(va), d);
              TakenMarked(m, b, cr3, va, m', b', FRAME * d);
              if PagerInv(m, b, cr3) {
                SlotInv(m, m', b1, b', cr3, TableIndex(va), d);
              }
            }
        }
    }
  }

  lemma OnlyOneFrame(m: Memory, b: seq<bv32>, cr3: int, va: nat, t: nat, m': Memory, b': seq<bv32>)
    requires FramesInv(m, b, cr3) && va < LAST_PAGE && FreeFrom(b, 0) == Some(t) && Marks(b, b', t)
    requires TableReady(m, m', cr3, DirectoryIndex(va), FRAME * t)
    ensures FramesInv(m', b', cr3) && (PagerInv(m, b, cr3) ==> PagerInv(m', b', cr3))
  {
    hide FreeFrom, FramesInv, PagerInv, Marks, IsUsed, Installed, DirectoryIndex, TableIndex, FrameOf, Walk;
    PageNumber(va);
    if va < WINDOW {
      ReadyWalk(m, b, cr3, DirectoryIndex(va), t, m', b', 0);
    } else {
      WindowIndex(va);
      Unfold(m, b, cr3);
      MoreUsed(m, b, b', cr3, t);
    }
  }

  lemma BelowBoth(m: Memory, b: seq<bv32>, cr3: int, va: nat, t: nat, d: nat, m1: Memory, b1: seq<bv32>,
                  m': Memory, b': seq<bv32>)
    requires FramesInv(m, b, cr3) && va < WINDOW && FreeFrom(b, 0) == Some(t) && FreeFrom(b, t + 1) == Some(d)
    requires Stages(m, b, cr3, va, t, d, m1, b1, m', b')
    ensures FramesInv(m', b', cr3) && (PagerInv(m, b, cr3) ==> PagerInv(m', b', cr3))
  {
    hide FreeFrom, FramesInv, PagerInv, Marks, IsUsed, Installed, DirectoryIndex, TableIndex, FrameOf, Walk, Pointed;
    PageNumber(va);
    ReadyWalk(m, b, cr3, DirectoryIndex(va), t, m1, b1, 0);
    FreeAfter(b, b1, t);
    FreeInRange(b1, d);
    PointedFrames(m1, m', b1, b', cr3, DirectoryIndex(va), TableIndex(va), d);
    if PagerInv(m1, b1, cr3) {
      PointedInv(m1, m', b1, b', cr3, DirectoryIndex(va), TableIndex(va), d);
    }
  }

  // A fault that is not harmless: frames 0 and 1 are used, the directory is frame 1 and has no
  // tables. Frame 3 becomes a table, and its first word makes free frame 5 a mapped page.
  const ExampleMemory: Memory := map[0x1FFC := 0x1001, 0x3000 := 0x5001]
  const ExampleBits: seq<bv32> := [0xC000_0000]

  lemma WindowFaultBreaksOrder()
    ensures PagerInv(ExampleMemory, ExampleBits, 0x1000) && !Harmless(ExampleMemory, ExampleBits, WINDOW)
    ensures Serves(ExampleMemory, ExampleBits, 0x1000, WINDOW, ExampleMemory[0x1000 := 0x3001], [0xF000_0000])
    ensures !PagerInv(ExampleMemory[0x1000 := 0x3001], [0xF000_0000], 0x1000)
  {
    hide IsUsed, FreeFrom, Marks;
    var m, b := ExampleMemory, ExampleBits;
    var m', b1, b' := m[0x1000 := 0x3001], [0xE000_0000 as bv32], [0xF000_0000 as bv32];
    ExampleFrames();
    assert DirectoryIndex(WINDOW) == SELF && TableIndex(WINDOW) == 0;
    assert Stages(m, b, 0x1000, WINDOW, 2, 3, m, b1, m', b');
    assert Present(Entry(m, FRAME * 3, 0)) && FrameOf(Entry(m, FRAME * 3, 0)) == 0x5000;
    ServesInv(m, b, 0x1000, WINDOW, m', b');
  }

  lemma ExampleFrames()
    ensures forall f: nat :: IsUsed(ExampleBits, f) <==> f < 2
    ensures Marks(ExampleBits, [0xE000_0000], 2) && Marks([0xE000_0000], [0xF000_0000], 3)
    ensures FreeFrom(ExampleBits, 0) == Some(2) && FreeFrom(ExampleBits, 3) == Some(3)
  {
    forall f: nat
      ensures IsUsed([0xC000_0000], f) <==> f < 2
      ensures IsUsed([0xE000_0000], f) <==> f < 3
      ensures IsUsed([0xF000_0000], f) <==> f < 4
    {
      if f < 32 {
        LeadingOnes(f);
      }
    }
  }

  lemma LeadingOnes(i: nat)
    requires i < 32
    ensures FrameBit(0xC000_0000, i) <==> i < 2
    ensures FrameBit(0xE000_0000, i) <==> i < 3
    ensures FrameBit(0xF000_0000, i) <==> i < 4
  {
  }

  // ------------------------------------------------------------------ which frame goes where

  // A fault below the window that finds two free frames: the second becomes the page, and only
  // the page; it is no table and not the directory. The first becomes the table if there was none.
  lemma ServesApart(m: Memory, b: seq<bv32>, cr3: int, va: nat, m': Memory, b': seq<bv32>, t: nat, d: nat)
    requires FramesInv(m, b, cr3) && Serves(m, b, cr3, va, m', b') && va < WINDOW
    requires FreeFrom(b, 0) == Some(t) && FreeFrom(b, t + 1) == Some(d)
    ensures t < d && cr3 != FRAME * d
    ensures forall k: nat :: Table(m', cr3, k) ==> TableFrame(m', cr3, k) != FRAME * d
    ensures var i := DirectoryIndex(va);
            Table(m', cr3, i) && Entry(m', TableFrame(m', cr3, i), TableIndex(va)) == FRAME * d + 1 &&
            TableFrame(m', cr3, i) == if Table(m, cr3, i) then TableFrame(m, cr3, i) else FRAME * t
    ensures forall f: nat :: IsUsed(b', f) <==> f == t || f == d || IsUsed(b, f)
  {
    hide FreeFrom, IsUsed, Installed, FrameOf, Present, DirectoryIndex, TableIndex, Walk;
    PageNumber(va);
    var i := DirectoryIndex(va);
    var m1, b1 :| Stages(m, b, cr3, va, t, d, m1, b1, m', b');
    ReadyWalk(m, b, cr3, i, t, m1, b1, 0);
    ReadyTable(m, b, cr3, i, t, m1, b1);
    FreeAfter(b, b1, t);
    FreeInRange(b1, d);
    PointedFrames(m1, m', b1, b', cr3, i, TableIndex(va), d);
    assert !FrameUsed(b1, FRAME * d);
  }

  // The frame of the table after the first half.
  lemma ReadyTable(m: Memory, b: seq<bv32>, cr3: int, i: nat, t: nat, m1: Memory, b1: seq<bv32>)
    requires FramesInv(m, b, cr3) && i < SELF && FreeFrom(b, 0) == Some(t) && Marks(b, b1, t)
    requires TableReady(m, m1, cr3, i, FRAME * t)
    ensures Table(m1, cr3, i)
    ensures TableFrame(m1, cr3, i) == if Table(m, cr3, i) then TableFrame(m, cr3, i) else FRAME * t
  {
    hide Present, FrameOf, IsUsed, Installed, FreeFrom;
    FreeInRange(b, t);
    if !Present(Entry(m, cr3, i)) {
      InstalledFrames(m, m1, b, b1, cr3, i, t);
    }
  }

  // With one free frame left it becomes the table if there was none, and no page is mapped.
  lemma ServesOneFrame(m: Memory, b: seq<bv32>, cr3: int, va: nat, m': Memory, b': seq<bv32>, t: nat)
    requires FramesInv(m, b, cr3) && Serves(m, b, cr3, va, m', b') && va < WINDOW
    requires FreeFrom(b, 0) == Some(t) && FreeFrom(b, t + 1) == None
    ensures var i := DirectoryIndex(va);
            TableFrame(m', cr3, i) == if Table(m, cr3, i) then TableFrame(m, cr3, i) else FRAME * t
    ensures forall f: nat :: IsUsed(b', f) <==> f == t || IsUsed(b, f)
  {
    hide FreeFrom, IsUsed, Installed, FrameOf, Present, DirectoryIndex, TableIndex;
    PageNumber(va);
    ReadyTable(m, b, cr3, DirectoryIndex(va), t, m', b');
  }

  // The first fault of all, at 4 MB, with frames 0 and 1 used and the directory in frame 1: frame
  // 2 becomes the table, present and writable, and frame 3 the page.
  lemma FirstFault(m': Memory, b': seq<bv32>)
    requires Serves(map[0x1FFC := 0x1001], [0xC000_0000], 0x1000, 0x40_0000, m', b')
    ensures Read(m', 0x1004) == 0x2003 && Read(m', 0x2000) == 0x3001 && Read(m', 0x2FFC) == 0x2000
    ensures forall k :: 1 <= k < 1023 ==> Read(m', 0x2000 + 4 * k) == 2
    ensures forall f: nat :: IsUsed(b', f) <==> f < 4
  {
    var m, b := map[0x1FFC := 0x1001], [0xC000_0000 as bv32];
    assert b == ExampleBits;
    ExampleFrames();
    assert DirectoryIndex(0x40_0000) == 1 && TableIndex(0x40_0000) == 0;
    var m1, b1 :| Stages(m, b, 0x1000, 0x40_0000, 2, 3, m1, b1, m', b');
    FirstStages(m, m1, m');
  }

  lemma FirstStages(m: Memory, m1: Memory, m': Memory)
    requires m == map[0x1FFC := 0x1001] && Installed(m, m1, 0x1000, 1, 0x2000)
    requires Pointed(m1, m', TableFrame(m1, 0x1000, 1), 0, 0x3000)
    ensures Read(m', 0x1004) == 0x2003 && Read(m', 0x2000) == 0x3001 && Read(m', 0x2FFC) == 0x2000
    ensures forall k :: 1 <= k < 1023 ==> Read(m', 0x2000 + 4 * k) == 2
  {
    assert Entry(m1, 0x1000, 1) == 0x2003 && FrameOf(0x2003) == 0x2000;
    assert Entry(m1, 0x2000, SELF) == 0x2000;
    forall k | 1 <= k < 1023
      ensures Read(m', 0x2000 + 4 * k) == 2
    {
      assert Entry(m1, 0x2000, k) == 2;
    }
  }

  // ------------------------------------------------------------------ runs

  // A run of faults. None is on the last page, which is always mapped.
  ghost predicate FaultRun(ms: seq<Memory>, bs: seq<seq<bv32>>, cr3: int, vas: seq<nat>) {
    && |ms| == |bs| == |vas| + 1 && FramesInv(ms[0], bs[0], cr3)
    && forall i :: 0 <= i < |vas| ==> vas[i] < LAST_PAGE && Serves(ms[i], bs[i], cr3, vas[i], ms[i + 1], bs[i + 1])
  }

  // One fault marks exactly the frames it takes, and they were free.
  lemma TakesFreeFrames(m: Memory, b: seq<bv32>, cr3: int, va: nat, m': Memory, b': seq<bv32>, f: nat)
    requires Serves(m, b, cr3, va, m', b')
    ensures IsUsed(b', f) <==> IsUsed(b, f) || f in Taken(b)
    ensures f in Taken(b) ==> !IsUsed(b, f)
  {
    hide FrameBit, TableReady, Pointed;
  }

  // In every state of every run the directory and the tables are distinct used frames.
  lemma {:induction false} FaultRunInv(ms: seq<Memory>, bs: seq<seq<bv32>>, cr3: int, vas: seq<nat>, n: nat)
    requires FaultRun(ms, bs, cr3, vas) && n <= |vas|
    ensures FramesInv(ms[n], bs[n], cr3)
    decreases n
  {
    hide FramesInv, Serves;
    if n == 0 {
    } else {
      FaultRunInv(ms, bs, cr3, vas, n - 1);
      ServesFrames(ms[n - 1], bs[n - 1], cr3, vas[n - 1], ms[n], bs[n]);
    }
  }

  // The tables are in order throughout if and only if every fault is harmless.
  lemma {:induction false} FaultRunOrder(ms: seq<Memory>, bs: seq<seq<bv32>>, cr3: int, vas: seq<nat>, n: nat)
    requires FaultRun(ms, bs, cr3, vas) && n <= |vas| && PagerInv(ms[0], bs[0], cr3)
    ensures (forall i :: 0 <= i <= n ==> PagerInv(ms[i], bs[i], cr3)) <==>
            (forall i :: 0 <= i < n ==> Harmless(ms[i], bs[i], vas[i]))
    decreases n
  {
    hide FramesInv, PagerInv, Serves, Harmless;
    if n == 0 {
    } else {
      FaultRunOrder(ms, bs, cr3, vas, n - 1);
      if PagerInv(ms[n - 1], bs[n - 1], cr3) {
        ServesInv(ms[n - 1], bs[n - 1], cr3, vas[n - 1], ms[n], bs[n]);
      }
    }
  }

  lemma {:induction false} UsedForever(ms: seq<Memory>, bs: seq<seq<bv32>>, cr3: int, vas: seq<nat>,
                                       i: nat, n: nat, f: nat)
    requires FaultRun(ms, bs, cr3, vas) && i <= n <= |vas| && IsUsed(bs[i], f)
    ensures IsUsed(bs[n], f)
    decreases n
  {
    hide FramesInv, Serves, IsUsed;
    if i == n {
    } else {
      UsedForever(ms, bs, cr3, vas, i, n - 1, f);
      TakesFreeFrames(ms[n - 1], bs[n - 1], cr3, vas[n - 1], ms[n], bs[n], f);
    }
  }

  // Over any run of faults no frame is taken twice, and none that was reserved at the start.
  lemma FramesTakenOnce(ms: seq<Memory>, bs: seq<seq<bv32>>, cr3: int, vas: seq<nat>, i: nat, j: nat, f: nat)
    requires FaultRun(ms, bs, cr3, vas) && i <= j < |vas|
    ensures i < j && f in Taken(bs[i]) ==> f !in Taken(bs[j])
    ensures IsUsed(bs[0], f) ==> f !in Taken(bs[j])
  {
    hide Serves, Taken, IsUsed, FramesInv;
    TakesFreeFrames(ms[i], bs[i], cr3, vas[i], ms[i + 1], bs[i + 1], f);
    TakesFreeFrames(ms[j], bs[j], cr3, vas[j], ms[j + 1], bs[j + 1], f);
    if i < j && f in Taken(bs[i]) {
      UsedForever(ms, bs, cr3, vas, i + 1, j, f);
    }
    if IsUsed(bs[0], f) {
      UsedForever(ms, bs, cr3, vas, 0, j, f);
    }
  }

  class Pager {
    var phys: Memory
    const cr3: nat
    const bitmap: array<bv32>

    constructor (phys: Memory, cr3: nat, bitmap: array<bv32>)
      ensures this.phys == phys && this.cr3 == cr3 && this.bitmap == bitmap
    {
      this.phys, this.cr3, this.bitmap := phys, cr3, bitmap;
    }

    ghost predicate Valid()
      reads this, bitmap
    {
      FramesInv(phys, bitmap[..], cr3)
    }

    // A read and a write of the word at a virtual address that the walk can resolve.
    function Load(va: nat): int
      requires Walk(phys, cr3, va).Some?
      reads this
    {
      Read(phys, Walk(phys, cr3, va).value)
    }

    method Store(va: nat, v: int)
      requires Walk(phys, cr3, va).Some?
      modifies this`phys
      ensures phys == old(phys)[old(Walk(phys, cr3, va).value) := v]
    {
      phys := phys[Walk(phys, cr3, va).value := v];
    }

    method InitializePageTable(pageTable: nat, address: nat, ghost i: nat)
      requires SelfMapped(phys, cr3) && i < SELF && Entry(phys, cr3, i) == address + 3
      requires address % FRAME == 0 && address != cr3 && pageTable == WINDOW + 0x1000 * i
      modifies this`phys
      ensures forall j: nat :: j < SELF ==> Entry(phys, address, j) == 2
      ensures Entry(phys, address, SELF) == address
      ensures forall x :: x < address || address + FRAME <= x ==> Read(phys, x) == Read(old(phys), x)
    {
      hide FrameOf, Present, Walk;
      FrameFacts(address);
      EntriesApart(cr3, i, address, 0);
      EntriesApart(cr3, SELF, address, 0);
      var k := 0;
      while k < 1024
        invariant k <= 1024
        invariant forall j: nat :: j < k ==> Entry(phys, address, j) == 2
        invariant forall x :: x < address || address + FRAME <= x ==> Read(phys, x) == Read(old(phys), x)
      {
        WindowWrite(address, i, k);
        ghost var m := phys;
        Store(pageTable + 4 * k, 0x0000_0002);
        assert phys == m[address + 4 * k := 2];
        assert forall j: nat :: j < k ==> Entry(phys, address, j) == Entry(m, address, j);
        k := k + 1;
      }
      WindowWrite(address, i, 1023);
      ghost var m := phys;
      Store(pageTable + 4 * 1023, address);
      assert phys == m[address + 4 * 1023 := address];
      assert forall j: nat :: j < SELF ==> Entry(phys, address, j) == Entry(m, address, j);
    }

    // Where a write to entry `k` of the new table goes.
    lemma WindowWrite(address: nat, i: nat, k: nat)
      requires i < SELF && k < ENTRIES && address % FRAME == 0
      requires cr3 % FRAME == 0 && Entry(phys, cr3, i) == address + 3
      requires SelfMapped(phys, cr3)
      ensures Walk(phys, cr3, WINDOW + 0x1000 * i + 4 * k) == Some(address + 4 * k)
    {
      FrameFacts(address);
      WalkTable(phys, cr3, i, k);
    }

    // The first half of setup_page: a table for slot `i` at `address`, if there is none.
    method EnsureTable(i: nat, address: nat, ghost bits: seq<bv32>)
      requires FramesInv(phys, bits, cr3) && i < ENTRIES && address % FRAME == 0 && !FrameUsed(bits, address)
      modifies this`phys
      ensures TableReady(old(phys), phys, cr3, i, address)
    {
      hide Present, FrameOf, Walk, FrameUsed, IsUsed;
      ghost var m := phys;
      FrameFacts(address);
      var pageTable := 0xFFC0_0000 + i * 0x1000;
      var slot := 0xFFFF_F000 + i * 4;
      WalkDirectory(phys, cr3, i);
      if !Present(Load(slot)) {
        assert i != SELF;
        assert address != cr3;
        Store(slot, 0);
        SlotWrite(m, i, 0);
        WalkDirectory(phys, cr3, i);
        Store(slot, address);
        SlotWrite(m, i, address);
        WalkDirectory(phys, cr3, i);
        FlagBits(address);
        Store(slot, Or3(Load(slot)));
        SlotWrite(m, i, address + 3);
        InitializePageTable(pageTable, address, i);
        EntriesApart(cr3, i, address, 0);
      }
    }

    lemma SlotWrite(m: Memory, i: nat, v: int)
      requires SelfMapped(m, cr3) && i < SELF
      requires Entry(phys, cr3, i) == v && forall x :: x != cr3 + 4 * i ==> Read(phys, x) == Read(m, x)
      ensures SelfMapped(phys, cr3)
    {
    }

    // The second half: entry `j` of the table for slot `i` gets the frame at `d`.
    method PointEntry(i: nat, j: nat, d: nat)
      requires SelfMapped(phys, cr3) && i < ENTRIES && j < ENTRIES && Present(Entry(phys, cr3, i)) && d % FRAME == 0
      requires TableFrame(phys, cr3, i) == cr3 ==> i == SELF && j != SELF
      modifies this`phys
      ensures Pointed(old(phys), phys, TableFrame(old(phys), cr3, i), j, d)
    {
      hide Present, FrameOf, Walk;
      ghost var m, t := phys, TableFrame(phys, cr3, i);
      FrameFacts(d);
      FrameFacts(Entry(phys, cr3, i));
      var entry := 0xFFC0_0000 + i * 0x1000 + 4 * j;
      WalkTable(phys, cr3, i, j);
      Store(entry, d);
      assert phys == m[t + 4 * j := d];
      if t != cr3 {
        EntriesApart(cr3, i, t, j);
        EntriesApart(cr3, SELF, t, j);
      }
      WalkTable(phys, cr3, i, j);
      FlagBits(d);
      Store(entry, Or1(Load(entry)));
    }

    // setup_page, for any page but the last one, which is the directory and always mapped.
    method SetupPage(va: nat)
      requires Valid() && va < LAST_PAGE && bitmap.Length == BITMAP_ELEMENT_COUNT
      modifies this`phys, bitmap
      ensures Serves(old(phys), old(bitmap[..]), cr3, va, phys, bitmap[..])
    {
      hide Present, FrameOf, Walk, FrameUsed, IsUsed, TableReady, Pointed, FreeFrom, DirectoryIndex, TableIndex;
      hide FramesInv;
      ghost var m, b := phys, bitmap[..];
      var tableFrame := NextFreeFrameIndex(bitmap, BITMAP_ELEMENT_COUNT);
      assert bitmap[..BITMAP_ELEMENT_COUNT] == b;
      if tableFrame < 0 {
        return;
      }
      FreeIsFresh(b, tableFrame);
      var _ := Set(bitmap, BITMAP_ELEMENT_COUNT, tableFrame, 1);
      ghost var b1 := bitmap[..];
      FreeAfter(b, b1, tableFrame);
      var i := DirectoryIndex(va);
      var j := TableIndex(va);
      PageNumber(va);
      EnsureTable(i, tableFrame * 0x1000, b);
      ghost var m1 := phys;
      var dataFrame := NextFreeFrameIndex(bitmap, BITMAP_ELEMENT_COUNT);
      assert bitmap[..BITMAP_ELEMENT_COUNT] == b1;
      if dataFrame < 0 {
        return;
      }
      FreeIsFresh(b1, dataFrame);
      var _ := Set(bitmap, BITMAP_ELEMENT_COUNT, dataFrame, 1);
      ReadyToPoint(m, m1, b, va, tableFrame);
      PointEntry(i, j, dataFrame * 0x1000);
      assert Stages(m, b, cr3, va, tableFrame, dataFrame, m1, b1, phys, bitmap[..]);
    }

    // page_fault_interrupt_handler, with the faulting address as an argument.
    method PageFault(va: nat)
      requires Valid() && va < LAST_PAGE && bitmap.Length == BITMAP_ELEMENT_COUNT
      modifies this`phys, bitmap
      ensures Serves(old(phys), old(bitmap[..]), cr3, va, phys, bitmap[..])
      ensures Valid()
      ensures old(PagerInv(phys, bitmap[..], cr3)) ==>
                (PagerInv(phys, bitmap[..], cr3) <==> old(Harmless(phys, bitmap[..], va)))
    {
      hide FramesInv, PagerInv, Serves, Harmless;
      ghost var m, b := phys, bitmap[..];
      SetupPage(va);
      ServesFrames(m, b, cr3, va, phys, bitmap[..]);
      if PagerInv(m, b, cr3) {
        ServesInv(m, b, cr3, va, phys, bitmap[..]);
      }
    }

    lemma FreeIsFresh(b: seq<bv32>, f: nat)
      requires FreeFrom(b, 0) == Some(f)
      ensures !FrameUsed(b, f * 0x1000) && f / 32 < |b| && (f * 0x1000) % FRAME == 0
    {
    }

    lemma ReadyToPoint(m: Memory, m1: Memory, b: seq<bv32>, va: nat, t: nat)
      requires FramesInv(m, b, cr3) && va < LAST_PAGE
      requires TableReady(m, m1, cr3, DirectoryIndex(va), FRAME * t) && FreeFrom(b, 0) == Some(t)
      ensures var i := DirectoryIndex(va);
              SelfMapped(m1, cr3) && i < ENTRIES && Present(Entry(m1, cr3, i)) &&
              (TableFrame(m1, cr3, i) == cr3 ==> i == SELF && TableIndex(va) != SELF)
    {
      hide FrameUsed, IsUsed, FreeFrom, DirectoryIndex, TableIndex, Walk, FrameOf, Present;
      var i := DirectoryIndex(va);
      PageNumber(va);
      FreeInRange(b, t);
      FreshFrame(t);
      FrameFacts(FRAME * t);
      SlotRange(va);
      if !Present(Entry(m, cr3, i)) {
        assert i != SELF;
        EntriesApart(cr3, SELF, FRAME * t, 0);
        EntriesApart(cr3, i, FRAME * t, 0);
      } else if i != SELF {
        assert Table(m, cr3, i);
      }
    }

    lemma SlotRange(va: nat)
      requires va < LAST_PAGE
      ensures DirectoryIndex(va) < ENTRIES && (DirectoryIndex(va) == SELF <==> va >= WINDOW)
      ensures va >= WINDOW ==> TableIndex(va) != SELF
    {
    }
  }
}
