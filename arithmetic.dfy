/** Facts about multiplication and Euclidean division used by the cursor and block arithmetic. */
module Arithmetic {

  lemma {:induction false} MulAtLeast(k: nat, n: nat)
    requires k >= 1
    ensures k * n >= n
  {
    if k > 1 {
      MulAtLeast(k - 1, n);
      assert k * n == (k - 1) * n + n;
    }
  }

  /** Euclidean division is unique: a quotient and a remainder in range determine `a % n`. */
  lemma ModUnique(a: int, n: int, q: int, r: int)
    requires n > 0 && 0 <= r < n && a == q * n + r
    ensures a % n == r
  {
    var q0, r0 := a / n, a % n;
    assert a == q0 * n + r0;
    assert (q - q0) * n == r0 - r by {
      assert (q - q0) * n == q * n - q0 * n;
    }
    if q > q0 {
      MulAtLeast(q - q0, n);
    } else if q < q0 {
      MulAtLeast(q0 - q, n);
    }
  }

  /** The quotient is unique too: `a = q * n + r` with `0 <= r < n` fixes `a / n`. */
  lemma DivUnique(a: int, n: int, q: int, r: int)
    requires n > 0 && 0 <= r < n && a == q * n + r
    ensures a / n == q && a % n == r
  {
    ModUnique(a, n, q, r);
    var q0 := a / n;
    assert a == q0 * n + r;
    assert (q - q0) * n == 0 by {
      assert (q - q0) * n == q * n - q0 * n;
    }
    if q > q0 {
      MulAtLeast(q - q0, n);
    }
  }

  lemma MulMono(a: int, b: int, n: nat)
    requires 0 <= a <= b
    ensures a * n <= b * n
  {
    assert b * n == a * n + (b - a) * n;
  }

  /** Advancing a cursor kept modulo `n` by one is the same as reducing the advanced count. */
  lemma ModStep(x: nat, n: nat)
    requires n > 0
    ensures (x % n + 1) % n == (x + 1) % n
  {
    var q, r := x / n, x % n;
    assert x == q * n + r;
    if r + 1 < n {
      ModUnique(x + 1, n, q, r + 1);
      ModUnique(r + 1, n, 0, r + 1);
    } else {
      assert x + 1 == (q + 1) * n + 0;
      ModUnique(x + 1, n, q + 1, 0);
      ModUnique(r + 1, n, 1, 0);
    }
  }
}
