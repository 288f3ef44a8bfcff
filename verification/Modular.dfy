/** Facts about "/" and "%" that the solver needs spelled out. */
module Modular {

  lemma {:induction false} DivModUnique(x: int, n: int, q: int, r: int)
    requires 0 <= r < n && x == n * q + r
    ensures x / n == q && x % n == r
  {
    var d := x / n - q;
    assert x == n * (x / n) + x % n;
    assert n * d == r - x % n by { assert n * d == n * (x / n) - n * q; }
    SmallMultiple(n, d);
  }

  lemma {:induction false} SmallMultiple(n: int, d: int)
    requires 0 < n && -n < n * d < n
    ensures d == 0
  {
    MultipleGrows(n, d);
    MultipleGrows(n, -d);
    assert n * -d == -(n * d);
  }

  lemma {:induction false} MultipleGrows(n: int, d: int)
    requires 0 < n
    ensures d >= 1 ==> n * d >= n
  {
    assert n * d == n + n * (d - 1);
  }

  /** Two numbers closer than n apart never share a slot of n. */
  lemma {:induction false} ModDistinct(a: nat, b: nat, n: nat)
    requires 0 < n && a < b < a + n
    ensures a % n != b % n
  {
    if a % n == b % n {
      var d := b / n - a / n;
      assert a == n * (a / n) + a % n && b == n * (b / n) + b % n;
      assert n * d == b - a by { assert n * d == n * (b / n) - n * (a / n); }
      SmallMultiple(n, d);
      assert false;
    }
  }

  lemma {:induction false} AddMultiple(x: int, n: int, q: int)
    requires 0 < n
    ensures (x + n * q) % n == x % n && (x + n * q) / n == x / n + q
  {
    assert x == n * (x / n) + x % n;
    assert n * (x / n + q) == n * (x / n) + n * q;
    DivModUnique(x + n * q, n, x / n + q, x % n);
  }
}
