/** Powers of two, and division by them. */
module Powers {
  function Pow2(n: nat): (p: nat)
    ensures p >= 1
  {
    if n == 0 then 1 else 2 * Pow2(n - 1)
  }

  function TrailingZeros(n: nat): nat
    decreases n
  {
    if n == 0 || n % 2 == 1 then 0 else 1 + TrailingZeros(n / 2)
  }

  predicate IsPowerOfTwo(n: nat)
    decreases n
  {
    n == 1 || (n > 1 && n % 2 == 0 && IsPowerOfTwo(n / 2))
  }

  lemma {:induction false} PowerOfTwoIff(n: nat)
    requires n > 0
    ensures IsPowerOfTwo(n) <==> n == Pow2(TrailingZeros(n))
    decreases n
  {
    if n % 2 == 0 {
      PowerOfTwoIff(n / 2);
    }
  }

  /** The least power of two that is at least `n`. */
  function NextPowerOfTwo(n: nat): (p: nat)
    requires n > 0
    ensures n <= p < 2 * n && IsPowerOfTwo(p)
  {
    if n == 1 then 1 else 2 * NextPowerOfTwo((n + 1) / 2)
  }

  lemma SmallMultiple(cap: int, d: int)
    requires -cap < cap * d < cap
    ensures d == 0
  {}

  lemma DivModUnique(x: int, cap: int, q: int, r: int)
    requires cap > 0 && 0 <= r < cap && x == cap * q + r
    ensures x % cap == r && x / cap == q
  {
    assert cap * (q - x / cap) == x % cap - r;
    SmallMultiple(cap, q - x / cap);
  }
}
