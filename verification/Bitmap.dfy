// The frame bitmap (bitmap.c, bitmap.h:7-16): frame `f` is bit 31 - f % 32 of word f / 32.
module Bitmap {
  import opened Options

  const BITMAP_ELEMENT_COUNT: nat := 1601
  const FRAME: nat := 0x1000

  // The masks of set and get, and of the scan.
  function Mask(i: nat): bv32
    requires i < 32
  {
    1 << (31 - i)
  }

  function Tester(j: nat): bv32
    requires j < 32
  {
    (0x8000_0000 as bv32) >> j
  }

  function And(w: bv32, m: bv32): bv32 { w & m }
  function Or(w: bv32, m: bv32): bv32 { w | m }
  function AndNot(w: bv32, m: bv32): bv32 { w & !m }

  predicate FrameBit(w: bv32, i: nat)
    requires i < 32
  {
    And(w, Mask(i)) != 0
  }

  // Frame `f` is in the bitmap and marked used.
  predicate IsUsed(s: seq<bv32>, f: nat) {
    f / 32 < |s| && FrameBit(s[f / 32], f % 32)
  }

  lemma ShiftsDiffer(i: nat, j: nat)
    requires i < j < 32
    ensures (1 as bv32 << i) & (1 as bv32 << j) == 0
  {
  }

  lemma MasksDiffer(i: nat, j: nat)
    requires i < 32 && j < 32 && i != j
    ensures And(Mask(i), Mask(j)) == 0
  {
    if i < j {
      ShiftsDiffer(31 - j, 31 - i);
    } else {
      ShiftsDiffer(31 - i, 31 - j);
    }
  }

  lemma MaskSet(i: nat)
    requires i < 32
    ensures Mask(i) != 0 && Tester(i) == Mask(i)
  {
    if i < 8 {
      assert i == 0 || i == 1 || i == 2 || i == 3 || i == 4 || i == 5 || i == 6 || i == 7;
    } else if i < 16 {
      assert i == 8 || i == 9 || i == 10 || i == 11 || i == 12 || i == 13 || i == 14 || i == 15;
    } else if i < 24 {
      assert i == 16 || i == 17 || i == 18 || i == 19 || i == 20 || i == 21 || i == 22 || i == 23;
    } else {
      assert i == 24 || i == 25 || i == 26 || i == 27 || i == 28 || i == 29 || i == 30 || i == 31;
    }
  }

  lemma SameMask(w: bv32, m: bv32)
    ensures And(Or(w, m), m) == m && And(AndNot(w, m), m) == 0
  {
  }

  lemma DisjointMasks(w: bv32, m: bv32, n: bv32)
    requires m & n == 0
    ensures (w | m) & n == w & n && (w & !m) & n == w & n
  {
  }

  lemma OtherMask(w: bv32, m: bv32, n: bv32)
    requires And(m, n) == 0
    ensures And(Or(w, m), n) == And(w, n) && And(AndNot(w, m), n) == And(w, n)
  {
    DisjointMasks(w, m, n);
  }

  lemma SetBit(w: bv32, i: nat, j: nat)
    requires i < 32 && j < 32
    ensures FrameBit(Or(w, Mask(i)), j) == if i == j then true else FrameBit(w, j)
    ensures FrameBit(AndNot(w, Mask(i)), j) == if i == j then false else FrameBit(w, j)
  {
    hide Mask, And, Or, AndNot;
    MaskSet(i);
    if i == j {
      SameMask(w, Mask(i));
    } else {
      MasksDiffer(i, j);
      OtherMask(w, Mask(i), Mask(j));
    }
  }

  // The lowest free frame of the bitmap from `from` on.
  function FreeFrom(s: seq<bv32>, from: nat): (r: Option<nat>)
    ensures r.Some? ==> from <= r.value < 32 * |s| && !IsUsed(s, r.value)
    ensures r.Some? ==> forall f :: from <= f < r.value ==> IsUsed(s, f)
    ensures r.None? ==> forall f :: from <= f < 32 * |s| ==> IsUsed(s, f)
    decreases 32 * |s| - from
  {
    if from >= 32 * |s| then None
    else if !IsUsed(s, from) then Some(from)
    else FreeFrom(s, from + 1)
  }

  method ResetBitmap(bitmap: array<bv32>, elements: nat)
    requires elements <= bitmap.Length
    modifies bitmap
    ensures forall f: nat :: f < 32 * elements ==> !IsUsed(bitmap[..], f)
    ensures forall i :: elements <= i < bitmap.Length ==> bitmap[i] == old(bitmap[i])
  {
    var i := 0;
    while i < elements
      invariant i <= elements
      invariant forall j :: 0 <= j < i ==> bitmap[j] == 0
      invariant forall j :: i <= j < bitmap.Length ==> bitmap[j] == old(bitmap[j])
    {
      bitmap[i] := 0;
      i := i + 1;
    }
  }

  // The guard of set and get.
  predicate Guarded(elements: nat, frame: nat) {
    frame / 32 <= elements
  }

  // It passes the frames of the bitmap and those of one word more.
  lemma GuardExactly(elements: nat, frame: nat)
    ensures Guarded(elements, frame) <==> frame < 32 * elements + 32
    ensures Guarded(elements, frame) && frame / 32 >= elements <==> 32 * elements <= frame < 32 * elements + 32
  {
  }

  // The kernel's bitmap of 1601 words has no frame 51232, but the guard passes it.
  lemma GuardMissesAWord()
    ensures Guarded(BITMAP_ELEMENT_COUNT, 51232) && 51232 / 32 == BITMAP_ELEMENT_COUNT
  {
  }

  // The caller must own the word that the guard passes by mistake, or stay out of it. Any other
  // frame outside the bitmap is refused.
  method Set(bitmap: array<bv32>, elements: nat, frame: nat, value: nat) returns (rc: int)
    requires Guarded(elements, frame) ==> frame / 32 < bitmap.Length
    modifies bitmap
    ensures rc == if Guarded(elements, frame) then 0 else -1
    ensures rc == -1 ==> bitmap[..] == old(bitmap[..])
    ensures rc == 0 ==>
              forall f: nat :: IsUsed(bitmap[..], f) == if f == frame then value != 0 else old(IsUsed(bitmap[..], f))
  {
    hide FrameBit, Mask, Or, AndNot;
    var element := frame / 32;
    if element > elements {
      return -1;
    }
    var mask := Mask(frame % 32);
    if value != 0 {
      bitmap[element] := Or(bitmap[element], mask);
    } else {
      bitmap[element] := AndNot(bitmap[element], mask);
    }
    forall f: nat
      ensures IsUsed(bitmap[..], f) == if f == frame then value != 0 else old(IsUsed(bitmap[..], f))
    {
      if f / 32 == element {
        SetBit(old(bitmap[element]), frame % 32, f % 32);
      }
    }
    return 0;
  }

  method Get(bitmap: array<bv32>, elements: nat, frame: nat) returns (r: int)
    requires Guarded(elements, frame) ==> frame / 32 < bitmap.Length
    ensures r == if !Guarded(elements, frame) then -1 else if IsUsed(bitmap[..], frame) then 1 else 0
  {
    var element := frame / 32;
    if element > elements {
      return -1;
    }
    r := if And(bitmap[element], Mask(frame % 32)) > 0 then 1 else 0;
  }

  // Marks the frames of the first `size` bytes used.
  method UseFramesInBytes(bitmap: array<bv32>, elements: nat, size: nat) returns (rc: int)
    requires elements <= bitmap.Length
    modifies bitmap
    ensures rc == if elements * 32 < size / FRAME then -1 else 0
    ensures forall f: nat :: IsUsed(bitmap[..], f) ==
              if rc == 0 && f < size / FRAME then true else old(IsUsed(bitmap[..], f))
  {
    hide FrameBit;
    var frameCount := size / 0x1000;
    if elements * 32 < frameCount {
      return -1;
    }
    var i := 0;
    while i < frameCount
      invariant i <= frameCount
      invariant forall f: nat :: IsUsed(bitmap[..], f) == if f < i then true else old(IsUsed(bitmap[..], f))
    {
      var _ := Set(bitmap, elements, i, 1);
      i := i + 1;
    }
    return 0;
  }

  // The lowest free frame, or -1.
  method NextFreeFrameIndex(bitmap: array<bv32>, elements: nat) returns (r: int)
    requires elements <= bitmap.Length
    ensures r == match FreeFrom(bitmap[..elements], 0) case None => -1 case Some(f) => f
  {
    hide Mask, Tester, And;
    ghost var s := bitmap[..elements];
    var i := 0;
    while i < elements
      invariant i <= elements
      invariant FreeFrom(s, 0) == FreeFrom(s, 32 * i)
    {
      var j := 0;
      while j < 32
        invariant j <= 32
        invariant FreeFrom(s, 0) == FreeFrom(s, 32 * i + j)
      {
        MaskSet(j);
        assert (32 * i + j) / 32 == i && (32 * i + j) % 32 == j;
        if And(bitmap[i], Tester(j)) == 0 {
          return i * 32 + j;
        }
        j := j + 1;
      }
      i := i + 1;
    }
    return -1;
  }
}
