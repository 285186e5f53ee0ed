/** What several models need: an optional value, 32-bit words and powers of two. */
module Basics {
  datatype Option<T> = None | Some(value: T)

  const WORD32 := 0x1_0000_0000

  /** A value stored in 32 bits. */
  function W32(x: int): (r: nat)
    ensures r < WORD32
  {
    if 0 <= x < WORD32 then x else x % 0x1_0000_0000
  }

  function Pow2(n: nat): nat {
    if n == 0 then 1 else 2 * Pow2(n - 1)
  }

  /** Quotient and remainder are the only ones. */
  lemma {:induction false} QuotientIs(x: nat, y: nat, q: nat, r: nat)
    requires r < y && x == y * q + r
    ensures x / y == q && x % y == r
  {
    var d := x / y - q;
    assert y * d == r - x % y by {
      assert x == y * (x / y) + x % y;
    }
    assert d >= 1 ==> y * d >= y;
    assert d <= -1 ==> y * d + y <= 0;
  }
}
