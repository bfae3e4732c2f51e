/** Remainders by a variable divisor, as used by the ring buffers and the frame counter. */
module Modular {

  lemma {:induction false} ModIs(x: int, q: int, r: int, n: int)
    requires 0 <= r < n && x == q * n + r
    ensures x % n == r && x / n == q
  {
    var d := q - x / n;
    assert d * n == q * n - x / n * n;
    assert x == x / n * n + x % n;
    assert d > 0 ==> d * n >= n;
    assert d < 0 ==> d * n <= -n;
  }

  lemma ModNext(x: nat, n: nat)
    requires n > 0
    ensures (x % n + 1) % n == (x + 1) % n
  {
    var q, r := x / n, x % n;
    assert x == q * n + r;
    if r + 1 < n {
      ModIs(x + 1, q, r + 1, n);
      ModIs(r + 1, 0, r + 1, n);
    } else {
      assert x + 1 == (q + 1) * n + 0;
      ModIs(x + 1, q + 1, 0, n);
      ModIs(n, 1, 0, n);
    }
  }

  lemma ModShift(x: nat, n: nat)
    requires n > 0
    ensures (x + n) % n == x % n
  {
    var q, r := x / n, x % n;
    assert x == q * n + r;
    assert x + n == (q + 1) * n + r;
    ModIs(x + n, q + 1, r, n);
  }

  /** Fewer than n apart, two different numbers have different remainders. */
  lemma ModSpread(x: nat, y: nat, n: nat)
    requires n > 0 && x < y < x + n
    ensures x % n != y % n
  {
    var q, r := x / n, x % n;
    assert x == q * n + r;
    if r + (y - x) < n {
      ModIs(y, q, r + (y - x), n);
    } else {
      assert y == (q + 1) * n + (r + (y - x) - n);
      ModIs(y, q + 1, r + (y - x) - n, n);
    }
  }
}
