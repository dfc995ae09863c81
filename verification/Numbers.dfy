/**
 The smaller and the larger of two numbers, and remainders.
 */
module Numbers {
  function Min(a: int, b: int): int {
    if a < b then a else b
  }

  function Max(a: int, b: int): int {
    if a < b then b else a
  }

  lemma ModUnique(x: int, q: int, m: int, y: int)
    requires 0 < m && x == q * m + y && 0 <= y < m
    ensures x % m == y
  {
    var d := x / m - q;
    assert x == (x / m) * m + x % m;
    assert d * m == y - x % m;
    assert d > 0 ==> d * m >= m;
    assert d < 0 ==> d * m <= -m;
  }

  lemma ModSmall(x: nat, m: nat)
    requires x < m
    ensures x % m == x
  {
  }
}
