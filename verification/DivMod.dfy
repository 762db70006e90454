// Division and remainder by a variable.
module DivMod {
  lemma MulBound(m: int, d: int)
    requires m > 0
    ensures d >= 1 ==> m * d >= m
    ensures d <= -1 ==> m * d <= -m
  {
    assert m * d == m + m * (d - 1);
    assert m * d == -m + m * (d + 1);
    if d >= 1 {
      MulSign(m, d - 1);
    } else if d <= -1 {
      MulSign(m, -(d + 1));
      assert m * (d + 1) == -(m * -(d + 1));
    }
  }

  lemma MulSign(m: int, d: nat)
    requires m > 0
    ensures m * d >= 0
  {
  }

  lemma DivUnique(n: int, m: nat, q: int, r: nat)
    requires r < m && n == q * m + r
    ensures n / m == q && n % m == r
  {
    var d := n / m - q;
    assert n == m * (n / m) + n % m;
    assert m * d == r - n % m;
    MulBound(m, d);
  }

  lemma DivNext(n: nat, m: nat)
    requires n > 0 && m > 0
    ensures n / m == (n - 1) / m + (if n % m == 0 then 1 else 0)
  {
    var q, r := (n - 1) / m, (n - 1) % m;
    assert n == q * m + (r + 1);
    if r + 1 < m {
      DivUnique(n, m, q, r + 1);
    } else {
      assert n == (q + 1) * m + 0;
      DivUnique(n, m, q + 1, 0);
    }
  }

  lemma ModShift(x: int, p: nat, q: int)
    requires p > 0
    ensures (x - q * p) % p == x % p
  {
    assert x == x / p * p + x % p;
    assert x - q * p == (x / p - q) * p + x % p;
    DivUnique(x - q * p, p, x / p - q, x % p);
  }

  lemma LessByFactor(a: nat, b: nat, p: nat)
    requires p > 0
    ensures a * p < b * p <==> a < b
  {
    if a < b {
      assert b * p == a * p + (b - a) * p;
    } else {
      assert a * p == b * p + (a - b) * p;
    }
  }
}
