/** Facts about Euclidean division and remainder that the byte conversions rest on. */
module Arith {
  /** Division and remainder are determined by the defining equation and the remainder's range. */
  lemma DivModUnique(u: int, d: nat, q: int, m: int)
    requires d > 0 && u == d * q + m && 0 <= m < d
    ensures u / d == q && u % d == m
  {
    var q', m' := u / d, u % d;
    var t := q - q';
    assert d * t == m' - m by {
      assert d * q' + m' == u;
      assert d * q - d * q' == d * t;
    }
    if t > 0 {
      MulAtLeast(d, t);
    } else if t < 0 {
      assert d * (-t) == -(d * t);
      MulAtLeast(d, -t);
    }
  }

  lemma MulAtLeast(d: nat, t: int)
    requires t >= 1
    ensures d * t >= d
  {
    assert d * t == d + d * (t - 1);
  }

  lemma MulAtMost(a: nat, b: nat, c: nat)
    requires b <= c
    ensures a * b <= a * c
  {
    assert a * c == a * b + a * (c - b);
  }

  /** Dividing by `a` and then by `d` is dividing by `a * d`; the remainders combine likewise. */
  lemma DivDiv(u: nat, a: nat, d: nat)
    requires a > 0 && d > 0
    ensures u / a / d == u / (a * d)
    ensures u / a % d * a + u % a == u % (a * d)
  {
    var q, r := u / a, u % a;
    var x, y := q / d, q % d;
    assert u == a * q + r;
    assert q == d * x + y;
    assert a * q == (a * d) * x + a * y by {
      assert a * (d * x + y) == a * (d * x) + a * y;
    }
    MulAtMost(a, y, d - 1);
    assert a * (d - 1) == a * d - a;
    DivModUnique(u, a * d, x, a * y + r);
  }
}
