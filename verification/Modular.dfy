/** Division with remainder, for the cyclic cursors. */
module Modular {

  /** Two counters name the same position of a cycle of length `n`. */
  predicate Congruent(a: nat, b: nat, n: nat)
    requires n > 0
  {
    a % n == b % n
  }

  lemma MulAtLeast(d: int, n: int)
    requires d >= 1 && n > 0
    ensures d * n >= n
  {
    assert d * n == (d - 1) * n + n;
    assert (d - 1) * n >= 0;
  }

  /** Quotient and remainder are unique. */
  lemma RemainderUnique(a: int, n: int, q: int, r: int)
    requires n > 0 && 0 <= r < n && a == q * n + r
    ensures a % n == r && a / n == q
  {
    var q0, r0 := a / n, a % n;
    assert a == q0 * n + r0;
    var d := q - q0;
    assert d * n == q * n - q0 * n == r0 - r;
    assert (-d) * n == -(d * n);
    if d >= 1 {
      MulAtLeast(d, n);
    } else if d <= -1 {
      MulAtLeast(-d, n);
    }
  }

  lemma ModShift(c: nat, d: nat, n: nat)
    requires n > 0
    ensures (c % n + d) % n == (c + d) % n
  {
    var q, r := (c % n + d) / n, (c % n + d) % n;
    assert c == (c / n) * n + c % n;
    assert c % n + d == q * n + r;
    assert (c / n + q) * n == (c / n) * n + q * n;
    RemainderUnique(c + d, n, c / n + q, r);
  }

  lemma CongruentShift(a: nat, b: nat, d: nat, n: nat)
    requires n > 0 && Congruent(a, b, n)
    ensures Congruent(a + d, b + d, n)
  {
    ModShift(a, d, n);
    ModShift(b, d, n);
  }

  lemma ModIdempotent(c: nat, n: nat)
    requires n > 0
    ensures (c % n) % n == c % n
  {
    RemainderUnique(c % n, n, 0, c % n);
  }

  /** Every index is reached from any starting point within one turn. */
  lemma ModReach(c: nat, j: nat, n: nat) returns (d: nat)
    requires j < n
    ensures d < n && (c + d) % n == j
  {
    var r := c % n;
    d := if r <= j then j - r else j + n - r;
    assert c == (c / n) * n + r;
    if r <= j {
      RemainderUnique(c + d, n, c / n, j);
    } else {
      assert (c / n + 1) * n == (c / n) * n + n;
      RemainderUnique(c + d, n, c / n + 1, j);
    }
  }

  lemma NextTurn(k: nat, n: nat)
    requires k < n
    ensures ((k + 1) % n) % n == if k + 1 < n then k + 1 else 0
  {
    if k + 1 < n {
      RemainderUnique(k + 1, n, 0, k + 1);
    } else {
      RemainderUnique(k + 1, n, 1, 0);
    }
    ModIdempotent(k + 1, n);
  }
}
