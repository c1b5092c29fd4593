/** What several components share: optional values and 64-bit words. */
module Basics {

  datatype Option<T> = None | Some(value: T)

  const WORD := 0x1_0000_0000_0000_0000

  /** A size_t or uint64_t. */
  type Word = n: int | 0 <= n < WORD

  /** What a 64-bit word keeps of a number; a negative one turns into a huge one. */
  function Wrap(n: int): Word { n % WORD }

  lemma WrapShift(n: int, q: int)
    ensures Wrap(q * WORD + n) == Wrap(n)
  { }

  lemma WrapSmall(n: int)
    requires 0 <= n < WORD
    ensures Wrap(n) == n
  { }

  lemma Product(a: int, b: int)
    requires a >= 0 && b >= 0
    ensures a * b >= 0
  { }
}
