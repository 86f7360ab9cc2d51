// Products, rounded-down quotients and remainders.

module Arith {
  const TWO32 := 0x1_0000_0000

  function Max(a: int, b: int): (m: int)
    ensures m >= a && m >= b && (m == a || m == b)
  {
    if a > b then a else b
  }

  lemma DivBounds(a: nat, b: nat)
    requires b > 0
    ensures a / b * b <= a < a / b * b + b
  {
  }

  lemma MulMonotone(s: nat, t: nat, m: nat)
    requires s <= t
    ensures s * m <= t * m
  {
    assert t * m == s * m + (t - s) * m;
  }

  lemma MulDistributes(x: int, y: int, m: int)
    ensures (x + y) * m == x * m + y * m
  {
  }

  lemma MulStep(v: nat, w: nat, n: nat)
    requires v < w
    ensures v * n + n <= w * n
  {
    MulMonotone(v + 1, w, n);
    MulDistributes(v, 1, n);
  }

  lemma MulSucc(m: nat, x: nat)
    ensures m * (x + 1) == m * x + m
  {
  }

  lemma DivAtLeast(a: nat, b: nat, q: nat)
    requires b > 0 && q * b <= a
    ensures a / b >= q
  {
    DivBounds(a, b);
    if a / b < q {
      MulMonotone(a / b + 1, q, b);
      MulDistributes(a / b, 1, b);
    }
  }

  lemma DivIs(a: nat, b: nat, q: nat)
    requires b > 0 && q * b <= a < q * b + b
    ensures a / b == q
  {
    DivAtLeast(a, b, q);
    DivBounds(a, b);
    if a / b > q {
      MulMonotone(q + 1, a / b, b);
      MulDistributes(q, 1, b);
    }
  }

  lemma DivMonotone(a: nat, a': nat, b: nat)
    requires b > 0 && a <= a'
    ensures a / b <= a' / b
  {
    DivBounds(a, b);
    DivAtLeast(a', b, a / b);
  }

  lemma DivSuperadditive(a: nat, c: nat, b: nat)
    requires b > 0
    ensures (a + c) / b >= a / b + c / b
  {
    DivBounds(a, b);
    DivBounds(c, b);
    MulDistributes(a / b, c / b, b);
    DivAtLeast(a + c, b, a / b + c / b);
  }

  lemma MultipleIsBig(d: int, v: nat)
    ensures d >= 1 ==> d * v >= v
    ensures d <= -1 ==> d * v <= -(v as int)
  {
    if d >= 1 { assert (d - 1) * v >= 0; }
    if d <= -1 { assert (-d - 1) * v >= 0; }
  }

  lemma ModUnique(a: int, q: int, r: int, v: nat)
    requires v > 0 && a == q * v + r && 0 <= r < v
    ensures a % v == r
  {
    var d := a / v - q;
    assert d * v == r - a % v by { assert a == (a / v) * v + a % v; }
    MultipleIsBig(d, v);
  }

  lemma ModShift(a: int, d: int, v: nat)
    requires v > 0
    ensures (a % v + d) % v == (a + d) % v
  {
    var b := a % v + d;
    assert a + d == (a / v + b / v) * v + b % v by {
      assert a == (a / v) * v + a % v;
      assert b == (b / v) * v + b % v;
    }
    ModUnique(a + d, a / v + b / v, b % v, v);
  }

  lemma ModDistinct(a: int, b: int, v: nat)
    requires v > 0 && a % v == b % v && -(v as int) < a - b < v
    ensures a == b
  {
    var d := a / v - b / v;
    assert a - b == d * v by {
      assert a == (a / v) * v + a % v;
      assert b == (b / v) * v + b % v;
    }
    MultipleIsBig(d, v);
  }

  lemma NextRem(a: nat, b: nat)
    requires b > 0
    ensures (a + 1) % b == if a % b + 1 == b then 0 else a % b + 1
  {
    DivBounds(a, b);
    if a % b + 1 == b {
      MulDistributes(a / b, 1, b);
      ModUnique(a + 1, a / b + 1, 0, b);
    } else {
      ModUnique(a + 1, a / b, a % b + 1, b);
    }
  }

  lemma SmallRem(a: nat, b: nat)
    requires a < b
    ensures a % b == a
  {
    ModUnique(a, 0, a, b);
  }
}
