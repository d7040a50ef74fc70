// The packed "is split" flags (heap_buddy_system_evanw.c:133, 240-251): flag `i` is
// bit i % 8 of byte i / 8.
module SplitBits {

  predicate ByteBit(b: bv8, j: nat)
    requires j < 8
  {
    (b >> j) & 1 == 1
  }

  lemma FlipByteBit(b: bv8, j: nat, i: nat)
    requires j < 8 && i < 8
    ensures ByteBit(b ^ (1 << j), i) == if i == j then !ByteBit(b, i) else ByteBit(b, i)
  {
    assert j == 0 || j == 1 || j == 2 || j == 3 || j == 4 || j == 5 || j == 6 || j == 7;
    assert i == 0 || i == 1 || i == 2 || i == 3 || i == 4 || i == 5 || i == 6 || i == 7;
  }

  predicate Flag(s: seq<bv8>, i: nat) {
    i / 8 < |s| && ByteBit(s[i / 8], i % 8)
  }

  function Flipped(s: seq<bv8>, i: nat): (s': seq<bv8>)
    requires i / 8 < |s|
    ensures |s'| == |s|
  {
    s[i / 8 := s[i / 8] ^ (1 << (i % 8))]
  }

  // Flipping changes one flag and no other.
  lemma FlippedFlag(s: seq<bv8>, i: nat, j: nat)
    requires i / 8 < |s|
    ensures Flag(Flipped(s, i), j) == if j == i then !Flag(s, i) else Flag(s, j)
  {
    hide ByteBit;
    if i / 8 == j / 8 {
      FlipByteBit(s[i / 8], i % 8, j % 8);
    }
  }
}
