// Arithmetic that several modules share.
module Numbers {

  const WORD: nat := 0x1_0000_0000

  // The position after `i` in a cycle of `n`.
  function After(i: nat, n: nat): nat {
    if i + 1 == n then 0 else i + 1
  }

  lemma MulLe(x: nat, y: nat, z: nat)
    requires x <= y
    ensures x * z <= y * z
  {
  }

  lemma MulSum(x: int, y: int, z: int)
    ensures (x + y) * z == x * z + y * z
  {
  }
}
