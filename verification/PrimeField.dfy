/** Arithmetic modulo a prime, on the numbers the word arrays stand for: what the modular
    routines of micro-ecc compute. */
module PrimeField {
  import opened Arith
  import opened VliInv

  ghost predicate IsPrime(p: nat) {
    1 < p && forall d: nat :: Divides(d, p) ==> d == 1 || d == p
  }

  function FAdd(a: int, b: int, p: int): (r: int)
    requires 0 < p
    ensures 0 <= r < p
  {
    (a + b) % p
  }

  function FSub(a: int, b: int, p: int): (r: int)
    requires 0 < p
    ensures 0 <= r < p
  {
    (a - b) % p
  }

  function FMul(a: int, b: int, p: int): (r: int)
    requires 0 < p
    ensures 0 <= r < p
  {
    (a * b) % p
  }

  lemma AddC(a: int, a': int, b: int, b': int, p: int)
    requires 0 < p && Cong(a, a', p) && Cong(b, b', p)
    ensures Cong(FAdd(a, b, p), a' + b', p)
  {
    CongMod(a + b, p);
    CongAdd(a, a', b, b', p);
  }

  lemma SubC(a: int, a': int, b: int, b': int, p: int)
    requires 0 < p && Cong(a, a', p) && Cong(b, b', p)
    ensures Cong(FSub(a, b, p), a' - b', p)
  {
    CongMod(a - b, p);
    CongSub(a, a', b, b', p);
  }

  lemma MulC(a: int, a': int, b: int, b': int, p: int)
    requires 0 < p && Cong(a, a', p) && Cong(b, b', p)
    ensures Cong(FMul(a, b, p), a' * b', p)
  {
    CongMod(a * b, p);
    CongMul(a, a', b, b', p);
  }

  /** Euclid's algorithm, with the multipliers. */
  lemma Bezout(a: nat, b: nat) returns (g: nat, s: int, t: int)
    requires 0 < a
    ensures Divides(g, a) && Divides(g, b) && g == s * a + t * b
    decreases b
  {
    if b == 0 {
      g, s, t := a, 1, 0;
      ModOfMultiple(1, a);
    } else {
      var q, r := a / b, a % b;
      var s', t';
      g, s', t' := Bezout(b, r);
      s, t := t', s' - t' * q;
      DividesProduct(g, b, q);
      DividesSum(g, q * b, r);
      assert a == q * b + r;
      assert s' * b + t' * (a - q * b) == t' * a + (s' - t' * q) * b;
    }
  }

  lemma UnitBelowPrime(y: nat, p: nat) returns (s: int)
    requires IsPrime(p) && 0 < y < p
    ensures Cong(s * y, 1, p)
  {
    var g, s', t := Bezout(y, p);
    if g == p {
      DivModUnique(y, p, 0, y);
    }
    s := s';
    CongFrom(s * y, 1, -t, p);
  }

  ghost predicate IsInverse(r: int, x: int, p: nat)
    requires 0 < p
  {
    0 <= r < p && Cong(r * x, 1, p)
  }

  lemma InverseExists(x: int, p: nat)
    requires IsPrime(p) && !Cong(x, 0, p)
    ensures exists r :: IsInverse(r, x, p)
  {
    var y := x % p;
    CongMod(x, p);
    DivModUnique(0, p, 0, 0);
    var s := UnitBelowPrime(y, p);
    var r := s % p;
    CongMod(s, p);
    CongMul(r, s, x, y, p);
    assert IsInverse(r, x, p);
  }

  /** A product is zero only if a factor is. */
  lemma NonzeroProduct(a: int, b: int, p: nat)
    requires IsPrime(p) && !Cong(a, 0, p) && !Cong(b, 0, p)
    ensures !Cong(a * b, 0, p)
  {
    InverseExists(a, p);
    var r :| IsInverse(r, a, p);
    CongMul(r * a, 1, b, b, p);
    if Cong(a * b, 0, p) {
      CongMul(r, r, a * b, 0, p);
      MulAssoc(r, a, b);
    }
  }

  /** A common factor that is not zero can be cancelled. */
  lemma Cancel(a: int, b: int, c: int, p: nat)
    requires IsPrime(p) && !Cong(c, 0, p) && Cong(a * c, b * c, p)
    ensures Cong(a, b, p)
  {
    InverseExists(c, p);
    var r :| IsInverse(r, c, p);
    CongMul(a * c, b * c, r, r, p);
    assert (a * c) * r == a * (r * c) && (b * c) * r == b * (r * c);
    CongMul(a, a, r * c, 1, p);
    CongMul(b, b, r * c, 1, p);
  }
}
