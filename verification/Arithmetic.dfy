/** Division and products of natural numbers, where the solver needs a hand. */
module Arithmetic {
  /** `n % size`. */
  function Mod(n: nat, size: nat): (m: nat)
    requires size > 0
    ensures m < size
  {
    n % size
  }

  lemma ModSucc(n: nat, size: nat)
    requires size > 0
    ensures Mod(n + 1, size) == if Mod(n, size) + 1 == size then 0 else Mod(n, size) + 1
  {
    var q, m := n / size, n % size;
    assert n + 1 == q * size + (m + 1);
    if m + 1 == size {
      assert n + 1 == (q + 1) * size;
      ModUnique(n + 1, size, q + 1, 0);
    } else {
      ModUnique(n + 1, size, q, m + 1);
    }
  }

  lemma MulAtLeast(x: int, size: nat)
    requires x >= 1
    ensures x * size >= size
  {
  }

  lemma ModUnique(n: nat, size: nat, q: int, m: nat)
    requires m < size && n == q * size + m
    ensures n % size == m && n / size == q && Mod(n, size) == m
  {
    var q', m' := n / size, n % size;
    assert n == q' * size + m';
    assert (q - q') * size == m' - m;
    if q - q' >= 1 {
      MulAtLeast(q - q', size);
    } else if q' - q >= 1 {
      MulAtLeast(q' - q, size);
    }
  }

  lemma DivMod(y: nat, unit: nat)
    requires unit > 0
    ensures y == y / unit * unit + y % unit && y % unit < unit
  {
  }

  lemma MulMonotone(a: nat, b: nat, unit: nat)
    requires a <= b
    ensures a * unit <= b * unit
  {
  }

  lemma PositiveProduct(q: nat, size: nat)
    requires q * size > 0
    ensures q > 0 && q * size == (q - 1) * size + size
  {
  }

  lemma ZeroProduct(q: nat, size: nat)
    requires size > 0 && q * size == 0
    ensures q == 0
  {
    if q > 0 {
      MulMonotone(1, q, size);
    }
  }
}
