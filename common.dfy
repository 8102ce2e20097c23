/** Small shared vocabulary: an optional value, the fixed-width integer bounds the
    C and C++ sources rely on, and the outcome of a blocking step. */
module Common {

  datatype Option<+T> = None | Some(value: T)

  /** A value or the error the source reports instead (a thrown exception, an
      error code). */
  datatype Result<+T, +E> = Ok(value: T) | Err(error: E)

  const INT32_MIN: int := -0x8000_0000
  const INT32_MAX: int := 0x7FFF_FFFF

  /** True iff x is representable as a 32-bit two's-complement `int`. */
  predicate InInt32(x: int) {
    INT32_MIN <= x <= INT32_MAX
  }

  /** The outcome of one step of a blocking call: either its wait predicate is false and
      the caller stays asleep (nothing changes), or the predicate holds and the call
      completes with `result`. */
  datatype Step<+R> = Blocked | Fired(result: R)

  /** x reduced modulo m for 0 <= x < 2m: one conditional subtraction. */
  function Wrap(x: nat, m: nat): (r: nat)
    requires 0 < m && x < 2 * m
    ensures r < m && r == x % m
  {
    if x < m then ModUnique(x, m, 0, x); x else ModUnique(x, m, 1, x - m); x - m
  }

  // Integer division and divisibility, stated once so that later proofs need
  // no nonlinear reasoning of their own.

  /** `d` divides `x`. */
  predicate Divides(d: int, x: int)
    requires d > 0
  {
    x % d == 0
  }

  lemma {:induction false} MulBounds(p: int, t: int)
    requires p > 0
    ensures t >= 1 ==> p * t >= p
    ensures t <= -1 ==> p * t <= -p
    decreases if t >= 0 then t else -t
  {
    if t > 1 {
      MulBounds(p, t - 1);
    } else if t < -1 {
      MulBounds(p, t + 1);
    }
  }

  /** Euclidean division is unique. */
  lemma ModUnique(x: int, p: int, q: int, r: int)
    requires p > 0 && 0 <= r < p && x == p * q + r
    ensures x % p == r && x / p == q
  {
    assert x == p * (x / p) + x % p;
    assert p * (q - x / p) == x % p - r;
    MulBounds(p, q - x / p);
  }

  /** Adding the divisor keeps the remainder. */
  lemma ModAdd(x: int, p: int)
    requires p > 0
    ensures (x + p) % p == x % p
  {
    ModUnique(x + p, p, x / p + 1, x % p);
  }

  /** A multiple of `d` is divisible by `d`. */
  lemma MultipleDivides(d: int, q: int)
    requires d > 0
    ensures Divides(d, d * q)
  {
    ModUnique(d * q, d, q, 0);
  }

  /** Divisibility is transitive. */
  lemma DividesTrans(a: int, b: int, c: int)
    requires a > 0 && b > 0 && Divides(a, b) && Divides(b, c)
    ensures Divides(a, c)
  {
    var k, m := b / a, c / b;
    assert b == a * k && c == b * m;
    assert c == a * (k * m);
    MultipleDivides(a, k * m);
  }
}

