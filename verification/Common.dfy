// Shared by all modules.
module Common {
  // A value that may be missing: a null pointer, or a call that failed.
  datatype Option<+T> = None | Some(value: T)

  type Byte = bv8

  function Min(a: int, b: int): int {
    if a < b then a else b
  }

  // Remainders around a ring of n places.
  lemma Scaled(d: int, n: nat)
    requires n > 0
    ensures d > 0 ==> d * n >= n
    ensures d < 0 ==> d * n + n <= 0
  {}

  lemma ModUnique(a: nat, q: int, r: nat, n: nat)
    requires 0 < n && a == q * n + r && r < n
    ensures a % n == r
  {
    var d := a / n - q;
    assert d * n == (a / n) * n - q * n == r - a % n;
    Scaled(d, n);
  }

  lemma DivUnique(n: nat, q: nat, r: nat, m: nat)
    requires 0 < m && n == q * m + r && r < m
    ensures n / m == q && n % m == r
  {
    ModUnique(n, q, r, m);
    assert (n / m) * m == q * m;
    Scaled(n / m - q, m);
    assert (n / m - q) * m == (n / m) * m - q * m;
  }

  lemma ModStep(a: nat, j: nat, n: nat)
    requires 0 < n && j < n
    ensures (a + j) % n == if a % n + j < n then a % n + j else a % n + j - n
  {
    var q, r := a / n, a % n;
    assert a == q * n + r;
    if r + j < n {
      ModUnique(a + j, q, r + j, n);
    } else {
      assert (q + 1) * n == q * n + n;
      ModUnique(a + j, q + 1, r + j - n, n);
    }
  }

  lemma ModNext(a: nat, k: nat, n: nat)
    requires 0 < n && k <= n
    ensures (a % n + k) % n == (a + k) % n
  {
    var q := a / n;
    assert a == q * n + a % n;
    var r := (a % n + k) % n;
    var q' := (a % n + k) / n;
    assert a + k == (q + q') * n + r;
    ModUnique(a + k, q + q', r, n);
  }

  // Less than once around, different numbers are at different places.
  lemma SamePlace(a: nat, b: nat, n: nat)
    requires 0 < n && a % n == b % n && a <= b < a + n
    ensures a == b
  {
    ModStep(a, b - a, n);
  }
}
