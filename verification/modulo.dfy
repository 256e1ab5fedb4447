/** Facts about the remainder that `at` uses to wrap an index into the
    storage: `pos % n` ignores whole periods and leaves indices below `n`
    unchanged. */
module Modulo {

  /** Reducing modulo `n` ignores one period and fixes residues. */
  lemma ModPeriod(pos: nat, n: nat)
    requires n > 0
    ensures (pos + n) % n == pos % n
    ensures pos < n ==> pos % n == pos
  {
    var q := pos / n;
    var r := pos % n;
    assert pos == q * n + r;
    ModUnique(pos + n, n, q + 1, r);
    if pos < n {
      ModUnique(pos, n, 0, pos);
    }
  }

  /** The remainder is the only `r` in `[0, n)` with `x == q * n + r`. */
  lemma ModUnique(x: int, n: int, q: int, r: int)
    requires n > 0 && 0 <= r < n && x == q * n + r
    ensures x % n == r
  {
    var q0 := x / n;
    var r0 := x % n;
    assert x == q0 * n + r0;
    assert (q - q0) * n == r0 - r;
    SmallMultiple(q - q0, n);
  }

  /** A multiple of `n` strictly between `-n` and `n` is zero. */
  lemma SmallMultiple(d: int, n: int)
    requires n > 0 && -n < d * n < n
    ensures d == 0
  {
    MultipleBounds(d, n);
  }

  /** A nonzero multiple of `n` is at least `n` away from zero. */
  lemma {:induction false} MultipleBounds(d: int, n: int)
    requires n > 0
    ensures d >= 1 ==> d * n >= n
    ensures d <= -1 ==> d * n <= -n
    decreases if d < 0 then -d else d
  {
    if d > 1 {
      MultipleBounds(d - 1, n);
      assert d * n == (d - 1) * n + n;
    } else if d < -1 {
      MultipleBounds(d + 1, n);
      assert d * n == (d + 1) * n - n;
    }
  }
}
