/** Integer facts the solver does not find by itself: products, quotients, remainders and
    congruences. */
module Arith {
  lemma MulMono(a: int, b: int, c: int)
    requires a <= b && 0 <= c
    ensures a * c <= b * c && c * a <= c * b
  {
  }

  lemma MulAssoc(a: int, b: int, c: int)
    ensures (a * b) * c == a * (b * c) && (a * b) * c == b * (a * c)
  {
  }

  lemma MulDistrib(a: int, b: int, c: int)
    ensures (a + b) * c == a * c + b * c && (a - b) * c == a * c - b * c
  {
  }

  lemma MulPos(a: int, b: int)
    requires 0 < a && 0 < b
    ensures 0 < a * b && a <= a * b && b <= a * b
  {
    MulMono(1, b, a);
    MulMono(1, a, b);
  }

  /** A quotient and a remainder in range are the quotient and the remainder. */
  lemma DivModUnique(a: int, m: int, q: int, r: int)
    requires 0 < m && a == q * m + r && 0 <= r < m
    ensures a / m == q && a % m == r
  {
    var d := a / m - q;
    assert m * (a / m) + a % m == a;
    assert d * m == r - a % m;
    if d >= 1 {
      MulMono(1, d, m);
    } else if d <= -1 {
      MulMono(d, -1, m);
    }
  }

  /** Division, as a function of its own. */
  function Quotient(a: nat, m: nat): (q: nat)
    requires 0 < m
  {
    a / m
  }

  lemma QuotientUnique(a: nat, m: nat, q: nat, r: nat)
    requires 0 < m && a == q * m + r && r < m
    ensures Quotient(a, m) == q
  {
    DivModUnique(a, m, q, r);
  }

  lemma QuotientSpec(a: nat, m: nat) returns (r: nat)
    requires 0 < m
    ensures a == Quotient(a, m) * m + r && r < m
  {
    r := a % m;
  }

  lemma QuotientOfQuotient(x: nat, a: nat, b: nat)
    requires 0 < a && 0 < b
    ensures 0 < a * b && Quotient(x, a * b) == Quotient(Quotient(x, a), b)
  {
    hide Quotient;
    MulPos(a, b);
    var r := QuotientSpec(x, a);
    var q := Quotient(x, a);
    var v := QuotientSpec(q, b);
    var u := Quotient(q, b);
    MulDistrib(u * b, v, a);
    MulAssoc(u, b, a);
    MulMono(v + 1, b, a);
    MulDistrib(v, 1, a);
    MulMono(0, v, a);
    QuotientUnique(x, a * b, u, v * a + r);
  }

  lemma ModOfMultiple(k: int, m: int)
    requires 0 < m
    ensures (k * m) % m == 0 && (m * k) % m == 0
  {
    DivModUnique(k * m, m, k, 0);
  }

  /** Adding a multiple of the modulus changes nothing. */
  lemma ModAddMultiple(a: int, k: int, m: int)
    requires 0 < m
    ensures (a + k * m) % m == a % m
  {
    assert a == m * (a / m) + a % m;
    assert a + k * m == (a / m + k) * m + a % m;
    DivModUnique(a + k * m, m, a / m + k, a % m);
  }

  /** `a` and `b` differ by a multiple of `m`. */
  ghost predicate Cong(a: int, b: int, m: int)
    requires 0 < m
  {
    a % m == b % m
  }

  /** The multiple by which two congruent numbers differ. */
  ghost function CongFactor(a: int, b: int, m: int): (k: int)
    requires 0 < m && Cong(a, b, m)
    ensures a == b + k * m
  {
    assert a == m * (a / m) + a % m && b == m * (b / m) + b % m;
    assert m * (a / m) - m * (b / m) == (a / m - b / m) * m;
    a / m - b / m
  }

  lemma CongFrom(a: int, b: int, k: int, m: int)
    requires 0 < m && a == b + k * m
    ensures Cong(a, b, m)
  {
    ModAddMultiple(b, k, m);
  }

  lemma CongMod(a: int, m: int)
    requires 0 < m
    ensures Cong(a % m, a, m)
  {
    assert a == m * (a / m) + a % m;
    CongFrom(a, a % m, a / m, m);
  }

  lemma CongAdd(a: int, b: int, c: int, d: int, m: int)
    requires 0 < m && Cong(a, b, m) && Cong(c, d, m)
    ensures Cong(a + c, b + d, m)
  {
    var k, l := CongFactor(a, b, m), CongFactor(c, d, m);
    assert a + c == b + d + (k + l) * m;
    CongFrom(a + c, b + d, k + l, m);
  }

  lemma CongSub(a: int, b: int, c: int, d: int, m: int)
    requires 0 < m && Cong(a, b, m) && Cong(c, d, m)
    ensures Cong(a - c, b - d, m)
  {
    var k, l := CongFactor(a, b, m), CongFactor(c, d, m);
    assert a - c == b - d + (k - l) * m;
    CongFrom(a - c, b - d, k - l, m);
  }

  lemma CongMul(a: int, b: int, c: int, d: int, m: int)
    requires 0 < m && Cong(a, b, m) && Cong(c, d, m)
    ensures Cong(a * c, b * d, m)
  {
    var k, l := CongFactor(a, b, m), CongFactor(c, d, m);
    calc {
      a * c;
      (b + k * m) * c;
      b * c + (k * m) * c;
      b * (d + l * m) + (k * m) * c;
      b * d + b * (l * m) + (k * m) * c;
      { assert b * (l * m) == (b * l) * m; assert (k * m) * c == (k * c) * m; }
      b * d + (b * l) * m + (k * c) * m;
      b * d + (b * l + k * c) * m;
    }
    CongFrom(a * c, b * d, b * l + k * c, m);
  }

  /** Congruent numbers in `[0, m)` are equal. */
  lemma CongInRange(a: int, b: int, m: int)
    requires 0 < m && Cong(a, b, m) && 0 <= a < m && 0 <= b < m
    ensures a == b
  {
    DivModUnique(a, m, 0, a);
    DivModUnique(b, m, 0, b);
  }
}
