/** Small shared vocabulary: optional values, bytes, 32-bit words, page arithmetic (kernel/paging/address.hpp)
    and task numbers (kernel/task/pid.cpp). */
module Basics {
  datatype Option<+T> = None | Some(value: T)

  type Byte = x: int | 0 <= x < 256

  const WORD: int := 0x1_0000_0000
  const PAGE: int := 0x1000

  function Max(a: int, b: int): int {
    if a < b then b else a
  }

  function Min(a: int, b: int): int {
    if a < b then a else b
  }

  function Pow2(k: nat): nat {
    if k == 0 then 1 else 2 * Pow2(k - 1)
  }

  predicate Aligned(a: int) {
    a % PAGE == 0
  }

  /** The start of the page that holds a. */
  function ThisPage(a: int): int {
    a / PAGE * PAGE
  }

  /** Rounding up to a whole number of pages on a 32-bit word: wraps to 0 above 0xFFFFF000. */
  function RoundUp(n: int): int {
    ThisPage((n + (PAGE - 1)) % WORD)
  }

  lemma RoundUpExact(n: int)
    requires 0 <= n < WORD
    ensures Aligned(RoundUp(n)) && 0 <= RoundUp(n) < WORD
    ensures n <= WORD - PAGE <==> n <= RoundUp(n) < n + PAGE
    ensures n > WORD - PAGE <==> n != 0 && RoundUp(n) == 0
  {
  }

  // ----- Task numbers

  const FIRST_PID: nat := 16
  const MAX_TASK: nat := 256

  /** allocPid: the lowest free pid from p on. */
  function FreePid(pids: set<nat>, p: nat): (r: Option<nat>)
    requires p <= MAX_TASK
    ensures r.Some? ==> p <= r.value < MAX_TASK && r.value !in pids && forall q :: p <= q < r.value ==> q in pids
    ensures r.None? ==> forall q :: p <= q < MAX_TASK ==> q in pids
    decreases MAX_TASK - p
  {
    if p == MAX_TASK then None else if p !in pids then Some(p) else FreePid(pids, p + 1)
  }
}
