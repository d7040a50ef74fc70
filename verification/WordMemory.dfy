// Memory as words by address; a word that was never written reads as 0.
module WordMemory {

  type Memory = map<int, int>

  function Read(m: Memory, x: int): int {
    if x in m then m[x] else 0
  }
}
