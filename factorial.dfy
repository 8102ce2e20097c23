/** The `constexpr` factorial: 1 for 0, otherwise `n` times the factorial of `n - 1`.
    It is computed here on unbounded integers; the C++ `int` result is defined exactly
    when it fits in 32 bits, which `FactorialFitsInt32` characterises. */
module Factorial {
  import opened Common

  /** The recursion reaches its base case only from a non-negative argument. */
  function Factorial(n: int): (r: int)
    requires n >= 0
    ensures r >= 1 && r >= n
    decreases n
  {
    if n == 0 then 1 else MulBounds(n, Factorial(n - 1)); n * Factorial(n - 1)
  }

  /** Every number from 1 to `n` divides the factorial of `n`. */
  lemma {:induction false} FactorialDivisible(n: int, k: int)
    requires 1 <= k <= n
    ensures Divides(k, Factorial(n))
    decreases n
  {
    if k == n {
      MultipleDivides(n, Factorial(n - 1));
    } else {
      FactorialDivisible(n - 1, k);
      MultipleDivides(Factorial(n - 1), n);
      assert Factorial(n - 1) * n == Factorial(n);
      DividesTrans(k, Factorial(n - 1), Factorial(n));
    }
  }

  /** The factorial does not decrease. */
  lemma {:induction false} FactorialMonotone(m: int, n: int)
    requires 0 <= m <= n
    ensures Factorial(m) <= Factorial(n)
    decreases n - m
  {
    if m < n {
      FactorialMonotone(m, n - 1);
      MulBounds(Factorial(n - 1), n);
      assert Factorial(n - 1) * n == Factorial(n);
    }
  }

  /** The largest factorial that fits in an `int` is that of 12, so the result is
      representable, and every product along the way with it, exactly for `n <= 12`. */
  lemma FactorialFitsInt32(n: int)
    requires n >= 0
    ensures InInt32(Factorial(n)) <==> n <= 12
  {
    FactorialTable();
    if n <= 12 {
      FactorialMonotone(n, 12);
    } else {
      FactorialMonotone(13, n);
    }
  }

  /** The values of the `static_assert`s, and the two around the 32-bit limit. */
  lemma FactorialTable()
    ensures Factorial(0) == 1 && Factorial(1) == 1 && Factorial(2) == 2 && Factorial(3) == 6
    ensures Factorial(12) == 479001600 && Factorial(13) == 6227020800
  {
  }
}
