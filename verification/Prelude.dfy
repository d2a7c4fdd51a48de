/** Small shared vocabulary: optional values, the unsigned 32-bit range, and facts about products. */
module Prelude {

  datatype Option<+T> = None | Some(value: T)

  /** One more than the largest value of the source's uint32_t. */
  const U32: nat := 0x1_0000_0000

  type Word = x: nat | x < U32

  /** ++ on a uint32_t. */
  function Increment(x: Word): Word {
    if x + 1 == U32 then 0 else x + 1
  }

  /** Narrowing to 32 bits keeps a number exactly when it fits. */
  lemma Narrowed(x: nat)
    ensures x % U32 <= x && (x % U32 == x <==> x < U32)
  {
  }

  lemma OneMore(k: nat, n: nat)
    requires n > 0
    ensures k * n == k * (n - 1) + k && k * (n - 1) >= 0
  {
  }
}
