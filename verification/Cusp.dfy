/** What the ladder does after it has met two opposite points: all its registers lie on
    the cusp Y^2 = X^3, which the co-Z formulas collapse to zero. */
module Cusp {
  import opened Arith
  import opened CoZ

  ghost predicate OnCusp(X: int, Y: int, t: int, p: nat)
    requires 0 < p
  {
    Cong(X, t * t, p) && Cong(Y, t * t * t, p)
  }

  /** Both registers lie on the cusp, and one of them is zero. */
  ghost predicate Collapsed(X1: int, Y1: int, X2: int, Y2: int, sub: int, s: int, t: int, p: nat)
    requires 0 < p
  {
    && OnCusp(X1, Y1, s, p) && OnCusp(X2, Y2, t, p) && (s == 0 || t == 0)
    && Cong(sub * sub, (X2 - X1) * (X2 - X1), p)
  }

  /** Congruent inputs give congruent registers. */
  lemma RegistersCong(X: int, Y: int, B: int, C: int, E: int, e: int, B': int, C': int, E': int, e': int, p: nat)
    requires 0 < p && SumRegisters(X, Y, B, C, E, e, p)
    requires Cong(B, B', p) && Cong(C, C', p) && Cong(E, E', p) && Cong(e, e', p)
    ensures SumRegisters(X, Y, B', C', E', e', p)
  {
    CongMul(e, e', e, e', p);
    CongSub(e * e, e' * e', B, B', p);
    CongSub(e * e - B, e' * e' - B', C, C', p);
    CongSub(B, B', e * e - B - C, e' * e' - B' - C', p);
    CongMul(e, e', B - (e * e - B - C), B' - (e' * e' - B' - C'), p);
    CongSub(e * (B - (e * e - B - C)), e' * (B' - (e' * e' - B' - C')), E, E', p);
  }

  /** B, C and E for points of the cusp. */
  lemma CuspRegisters(X1: int, Y1: int, X2: int, A: int, s: int, t: int, p: nat)
    requires 0 < p && OnCusp(X1, Y1, s, p) && Cong(X2, t * t, p)
    requires Cong(A, (X2 - X1) * (X2 - X1), p)
    ensures var a := (t * t - s * s) * (t * t - s * s);
      && Cong(X1 * A, (s * s) * a, p) && Cong(X2 * A, (t * t) * a, p)
      && Cong(Y1 * (X2 * A - X1 * A), (s * s * s) * ((t * t) * a - (s * s) * a), p)
  {
    var a := (t * t - s * s) * (t * t - s * s);
    CongSub(X2, t * t, X1, s * s, p);
    CongMul(X2 - X1, t * t - s * s, X2 - X1, t * t - s * s, p);
    CongMul(X1, s * s, A, a, p);
    CongMul(X2, t * t, A, a, p);
    CongSub(X2 * A, (t * t) * a, X1 * A, (s * s) * a, p);
    CongMul(Y1, s * s * s, X2 * A - X1 * A, (t * t) * a - (s * s) * a, p);
  }

  /** The sum (and, with the opposite slope, the difference) of two collapsed registers is
      zero. */
  lemma CollapsedSumIsZero(X1: int, Y1: int, X2: int, Y2: int, sub: int, s: int, t: int, A: int, e: int,
                           X3: int, Y3: int, p: nat)
    requires 0 < p && Collapsed(X1, Y1, X2, Y2, sub, s, t, p)
    requires Cong(A, (X2 - X1) * (X2 - X1), p)
    requires e == Y2 - Y1 || e == -(Y1 + Y2)
    requires SumRegisters(X3, Y3, X1 * A, X2 * A, Y1 * (X2 * A - X1 * A), e, p)
    ensures Cong(X3, 0, p) && Cong(Y3, 0, p)
  {
    var a := (t * t - s * s) * (t * t - s * s);
    var B, C := (s * s) * a, (t * t) * a;
    CuspRegisters(X1, Y1, X2, A, s, t, p);
    var f := if e == Y2 - Y1 then t * t * t - s * s * s else -(s * s * s + t * t * t);
    CongSub(Y2, t * t * t, Y1, s * s * s, p);
    CongAdd(Y1, s * s * s, Y2, t * t * t, p);
    CongSub(0, 0, Y1 + Y2, s * s * s + t * t * t, p);
    RegistersCong(X3, Y3, X1 * A, X2 * A, Y1 * (X2 * A - X1 * A), e, B, C, (s * s * s) * (C - B), f, p);
    CuspVanishes(s, t, f);
  }

  lemma CuspVanishes(s: int, t: int, f: int)
    requires s == 0 || t == 0
    requires f == t * t * t - s * s * s || f == -(s * s * s + t * t * t)
    ensures var a := (t * t - s * s) * (t * t - s * s);
      var B, C := (s * s) * a, (t * t) * a;
      f * f - B - C == 0 && f * (B - (f * f - B - C)) - (s * s * s) * (C - B) == 0
  {
    if s == 0 {
      assert f == t * t * t || f == -(t * t * t);
    } else {
      assert f == -(s * s * s);
    }
  }

  /** XYcZ_add keeps the first of two collapsed registers on the cusp and zeroes the sum. */
  lemma CollapsedAdd(X1: int, Y1: int, X2: int, Y2: int, s: int, p: nat,
                     X3: int, Y3: int, X4: int, Y4: int, sub: int)
    requires 0 < p && OnCusp(X1, Y1, s, p) && Cong(X2, 0, p) && Cong(Y2, 0, p)
    requires var A := (X2 - X1) * (X2 - X1); var B, C := X1 * A, X2 * A; var E := Y1 * (C - B);
      && Cong(X3, B, p) && Cong(Y3, E, p) && SumRegisters(X4, Y4, B, C, E, Y2 - Y1, p)
    requires Cong(sub, X3 - X4, p)
    ensures Collapsed(X3, Y3, X4, Y4, sub, -(s * s * s), 0, p)
  {
    var A := (X2 - X1) * (X2 - X1);
    CollapsedSumIsZero(X1, Y1, X2, Y2, X2 - X1, s, 0, A, Y2 - Y1, X4, Y4, p);
    CuspRegisters(X1, Y1, X2, A, s, 0, p);
    CuspPower(s);
    CongMul(sub, X3 - X4, sub, X3 - X4, p);
    assert (X3 - X4) * (X3 - X4) == (X4 - X3) * (X4 - X3);
  }

  lemma CuspPower(s: int)
    ensures var a := (0 - s * s) * (0 - s * s); var r := -(s * s * s);
      (s * s) * a == r * r && (s * s * s) * (0 * a - (s * s) * a) == r * r * r
  {
  }

  /** XYcZ_addC on opposite points: the difference is zero, the sum lies on the cusp. */
  lemma OppositeCollapses(X1: int, Y1: int, X2: int, Y2: int, A: int,
                          X3: int, Y3: int, X4: int, Y4: int, p: nat)
    requires 0 < p && Cong(A, 0, p) && Cong(Y1 + Y2, 0, p)
    requires SumRegisters(X3, Y3, X1 * A, X2 * A, Y1 * (X2 * A - X1 * A), -(Y1 + Y2), p)
    requires SumRegisters(X4, Y4, X1 * A, X2 * A, Y1 * (X2 * A - X1 * A), Y2 - Y1, p)
    ensures Cong(X3, 0, p) && Cong(Y3, 0, p) && OnCusp(X4, Y4, Y1 - Y2, p)
  {
    CongMul(X1, X1, A, 0, p);
    CongMul(X2, X2, A, 0, p);
    CongSub(X2 * A, 0, X1 * A, 0, p);
    CongMul(Y1, Y1, X2 * A - X1 * A, 0, p);
    CongSub(0, 0, Y1 + Y2, 0, p);
    var e := Y2 - Y1;
    RegistersCong(X3, Y3, X1 * A, X2 * A, Y1 * (X2 * A - X1 * A), -(Y1 + Y2), 0, 0, 0, 0, p);
    RegistersCong(X4, Y4, X1 * A, X2 * A, Y1 * (X2 * A - X1 * A), e, 0, 0, 0, e, p);
    assert e * e == (Y1 - Y2) * (Y1 - Y2) && e * (0 - e * e) == (Y1 - Y2) * (Y1 - Y2) * (Y1 - Y2);
  }
}
