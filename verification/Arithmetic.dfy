/** Facts about division with a variable divisor. */
module Arithmetic {

  lemma ModUnique(x: int, n: int, q: int, r: int)
    requires n > 0 && x == q * n + r && 0 <= r < n
    ensures x % n == r
  {
    var k := x / n - q;
    assert k * n == r - x % n;
    MultipleIsLarge(k, n);
  }

  lemma DivUnique(x: int, n: int, q: int, r: int)
    requires n > 0 && x == q * n + r && 0 <= r < n
    ensures x / n == q
  {
    var k := x / n - q;
    assert k * n == r - x % n;
    MultipleIsLarge(k, n);
  }

  lemma MultipleIsLarge(k: int, n: int)
    requires n > 0
    ensures k > 0 ==> k * n >= n
    ensures k < 0 ==> k * n <= -n
    decreases if k < 0 then -k else k
  {
    if k > 1 {
      MultipleIsLarge(k - 1, n);
      assert k * n == (k - 1) * n + n;
    } else if k < -1 {
      MultipleIsLarge(k + 1, n);
      assert k * n == (k + 1) * n - n;
    }
  }

  lemma Distribute(a: int, b: int, k: int)
    ensures (a - b) * k == a * k - b * k
    ensures (a + b) * k == a * k + b * k
  {
  }

  lemma DivMod(x: int, n: int)
    requires n > 0
    ensures x == (x / n) * n + x % n && 0 <= x % n < n
    ensures x >= 0 ==> x / n >= 0
  {
    MultipleIsLarge(x / n, n);
  }

  /** The multiple-of-k position that covers n from above by less than k, in n's own residue
      class, is n. */
  lemma NextInClass(n: int, k: int, i: int, c: nat)
    requires 0 <= i < k && n % k == i && n <= c * k + i < n + k
    ensures c * k + i == n
  {
    DivMod(n, k);
    Distribute(c, n / k, k);
    MultipleIsLarge(c - n / k, k);
  }
}
