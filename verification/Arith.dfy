/** Quotients and remainders of variable divisors, as circular buffers use them. */
module Arith {
  /** C's remainder, for the non-negative operands it is used on. */
  function Mod(i: int, n: int): (r: int)
    requires 0 <= i && 0 < n
    ensures 0 <= r < n
  {
    i % n
  }

  lemma LargeMultiple(q: int, n: int)
    requires 0 < n
    ensures q != 0 ==> q * n >= n || q * n <= -n
  {
    if q >= 1 {
      assert q * n >= n;
    } else if q <= -1 {
      assert q * n <= -n;
    }
  }

  lemma ModOfMultiple(q: int, n: int, r: int)
    requires 0 <= r < n
    ensures (q * n + r) % n == r
  {
    var d := (q * n + r) / n;
    assert (q * n + r) == d * n + (q * n + r) % n;
    assert (q - d) * n == (q * n + r) % n - r;
    LargeMultiple(q - d, n);
  }

  /** Quotient and remainder are unique. */
  lemma DivMod(x: int, n: int, q: int, r: int)
    requires 0 < n && 0 <= r < n && x == q * n + r
    ensures x / n == q && x % n == r
  {
    var q', r' := x / n, x % n;
    assert (q' - q) * n == r - r';
    LargeMultiple(q' - q, n);
  }

  lemma ProductPositive(a: int, b: int)
    requires 0 < a && 0 < b
    ensures 0 < a * b
  {
  }

  /** A remainder may be taken before adding, and a multiple of the divisor added. */
  lemma ModShift(a: int, d: int, n: int)
    requires 0 < n
    ensures (a % n + d) % n == (a + d) % n
    ensures (a % n + d + n) % n == (a + d) % n
  {
    var q, c := a / n, a % n;
    var s, r := (c + d) / n, (c + d) % n;
    assert c + d == s * n + r;
    assert (q + s) * n == q * n + s * n && (s + 1) * n == s * n + n;
    DivMod(a + d, n, q + s, r);
    DivMod(c + d + n, n, s + 1, r);
  }

  /** How many units a capacity holds. */
  lemma UnitsFit(x: nat, n: nat, room: nat)
    requires x > 0
    ensures x * n <= room <==> n <= room / x
  {
    var q := room / x;
    assert q * x <= room < q * x + x;
    if n <= q {
      ProductGrows(n, q, x);
    } else {
      ProductGrows(q + 1, n, x);
    }
  }

  lemma ProductGrows(a: nat, b: nat, x: nat)
    requires a <= b
    ensures a * x <= b * x && (a + 1) * x == a * x + x
  {
    assert b * x == a * x + (b - a) * x;
  }
}
