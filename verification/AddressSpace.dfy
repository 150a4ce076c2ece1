/** The 16-bit address space of the Z80, shared by the block transfers and the client. */
module AddressSpace {

  const MEMORY_SIZE: nat := 0x1_0000

  /** `inc` on a 16-bit register. */
  function Next16(n: int): (r: int)
    ensures 0 <= r < MEMORY_SIZE
  {
    (n + 1) % MEMORY_SIZE
  }

  /** `dec` on a 16-bit register. */
  function Previous16(n: int): (r: int)
    ensures 0 <= r < MEMORY_SIZE
  {
    (n - 1) % MEMORY_SIZE
  }

  /** The address `i` bytes behind `at`, going round the address space. */
  function At(at: int, i: nat): (x: int)
    ensures 0 <= x < MEMORY_SIZE
  {
    (at + i) % MEMORY_SIZE
  }

  lemma {:induction false} AtSteps(at: int, i: nat)
    requires 0 <= at < MEMORY_SIZE
    ensures At(at, 0) == at
    ensures At(Next16(at), i) == At(at, i + 1) && Next16(At(at, i)) == At(at, i + 1)
    ensures at + i < MEMORY_SIZE ==> At(at, i) == at + i
  {
  }

  /** Going round comes back to the start only after the whole address space. */
  lemma {:induction false} AtApart(at: int, k: nat)
    requires 0 <= at < MEMORY_SIZE && k <= MEMORY_SIZE
    ensures k < MEMORY_SIZE ==> forall j: nat :: j < k ==> At(at, j) != At(at, k)
    ensures k == MEMORY_SIZE ==> At(at, k) == at && forall j: nat :: 1 <= j < k ==> At(at, j) != at
  {
  }
}
